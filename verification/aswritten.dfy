/** Consequences of the code as written when both segments are in use.

    The write path tests "segment 0 in use" before its branch for two
    segments in use, so that branch (and the `segment_to_use` choice in it)
    is never taken: with both segments in use the writer always measures a
    write against segment 0. The lemmas here spell out what follows, in
    general, for any buffer contents.
 */
module RingBufferAsWritten {
  import opened Faults
  import opened Storage
  import opened Segments
  import opened RaRingBuffer
  import opened RingBufferRoundTrip

  /** Starting segment 1 while segment 0 is in use moves the write index
      away from segment 0's physical end, yet `NextWritePos` still reports
      segment 0's end. */
  lemma {:induction false} StartingSegment1LeavesSegment0Behind<T>(st: RingBuffer<T>, src: seq<T>, start: int)
    requires Valid(st) && WriterAligned(st)
    requires InUse(st.seg0) && !InUse(st.seg1) && start != End(st.seg0)
    ensures Write(st, src, start).Ok?
    ensures var w := Write(st, src, start).value;
            w.count > 0 ==>
              && InUse(w.state.seg1) && End(w.state.seg1) == start + w.count
              && NextWritePos(w.state) == End(st.seg0)
              && !WriterAligned(w.state)
  {
    var w := Write(st, src, start).value;
    if w.count > 0 {
      assert Target(st, start).value.0 == Slot1;
      ModInRange(st.writeIdx + w.count, st.size + st.writeIdx + w.count);
      if st.writeIdx + w.count < st.size {
        ModInRange(st.writeIdx + w.count, st.size);
      } else {
        ModOfMultiple(st.writeIdx + w.count - st.size, 1, st.size);
        ModInRange(st.writeIdx + w.count - st.size, st.size);
      }
    }
  }

  /** Once segment 1 has been started beside segment 0, continuing it
      trips the assertion on restarting an in-use slot, unless it happens
      to continue exactly where segment 0 ends. */
  lemma {:induction false} ContinuingSegment1Aborts<T>(st: RingBuffer<T>, src: seq<T>, start: int, more: seq<T>)
    requires Valid(st) && InUse(st.seg0) && !InUse(st.seg1) && start != End(st.seg0)
    requires Write(st, src, start).Ok?
    requires Write(st, src, start).value.count > 0
    requires start + Write(st, src, start).value.count != End(st.seg0)
    ensures var w := Write(st, src, start).value;
            Write(w.state, more, start + w.count) == Abort(SlotStillInUse)
  {
    var w := Write(st, src, start).value;
    assert Target(st, start).value.0 == Slot1;
    assert w.state.seg0 == st.seg0;
  }

  /** With both segments in use, a write at segment 0's end extends
      segment 0 even when the write index is not at segment 0's physical
      end: the first sample goes to the write index, while segment 0 maps
      that absolute position to its old physical end. */
  lemma {:induction false} ExtendingSegment0MisplacesData<T>(st: RingBuffer<T>, src: seq<T>)
    requires Valid(st) && InUse(st.seg0) && InUse(st.seg1)
    requires PhysEnd(st.seg0, st.size) != st.writeIdx
    ensures Write(st, src, End(st.seg0)).Ok?
    ensures var w := Write(st, src, End(st.seg0)).value;
            w.count > 0 ==>
              && w.state.buf[st.writeIdx] == src[0]
              && Covers(w.state.seg0, st.size, End(st.seg0), w.count)
              && PhysIndex(w.state.seg0, st.size, End(st.seg0)) == PhysEnd(st.seg0, st.size)
              && PhysIndex(w.state.seg0, st.size, End(st.seg0)) != st.writeIdx
  {
    var w := Write(st, src, End(st.seg0)).value;
    if w.count > 0 {
      ModInRange(st.writeIdx, st.size);
      ModOfMultiple(0, 1, st.size);
      assert (st.writeIdx - st.writeIdx) % st.size == 0;
    }
  }

  /** Reading back the position just appended to segment 0 (while segment
      1 does not hold it) returns what the buffer holds at segment 0's old
      physical end, not the sample that was written, which went to the write
      index. */
  lemma {:induction false} MisplacedSampleReadsBack<T>(st: RingBuffer<T>, src: seq<T>)
    requires Valid(st) && InUse(st.seg0) && InUse(st.seg1)
    requires PhysEnd(st.seg0, st.size) != st.writeIdx
    requires Write(st, src, End(st.seg0)).value.count > 0
    requires !Covers(Write(st, src, End(st.seg0)).value.state.seg1, st.size, End(st.seg0), 1)
    ensures var w := Write(st, src, End(st.seg0)).value;
            var rd := Read(w.state, End(st.seg0), 1, false, false);
            && rd == Ok(ReadResult(w.state, 1, [w.state.buf[PhysEnd(st.seg0, st.size)]]))
            && w.state.buf[st.writeIdx] == src[0]
  {
    ExtendingSegment0MisplacesData(st, src);
    var w := Write(st, src, End(st.seg0)).value;
    var x := End(st.seg0);
    assert Found(w.state, x, 1) && Source(w.state, x, 1) == Slot0;
    var rd := Read(w.state, x, 1, false, false);
    assert rd.Ok? && rd.value.state == w.state && rd.value.count == 1;
    assert Serves(w.state, w.state.seg0, x, rd.value.data);
    assert |rd.value.data| == 1;
    assert rd.value.data[0] == w.state.buf[PhysIndex(w.state.seg0, st.size, x + 0)];
    assert rd.value.data == [w.state.buf[PhysEnd(st.seg0, st.size)]];
  }

  /** After segment 0 has been written for a whole number of laps, so that
      the write index is back at segment 0's physical start, a write
      elsewhere starts segment 1 at that same physical index. A committed
      read of the new data then trips the assertion of `segment_to_use`,
      although `CanRead` reports the range readable. */
  lemma {:induction false} FullLapAliasesSegments<T>(st: RingBuffer<T>, src: seq<T>, start: int)
    requires Valid(st) && InUse(st.seg0) && !InUse(st.seg1)
    requires st.writeIdx == st.seg0.index
    requires start != End(st.seg0) && !Covers(st.seg0, st.size, start, 1)
    requires 0 < |src| && 0 < WriteSpace(st)
    ensures Write(st, src, start).Ok?
    ensures var w := Write(st, src, start).value;
            && w.state.seg1.index == w.state.seg0.index
            && CanRead(w.state, start, 1)
            && Read(w.state, start, 1, true, false) == Abort(SegmentsAliased)
  {
    var w := Write(st, src, start).value;
    assert Target(st, start).value.0 == Slot1;
    assert w.state.seg0 == st.seg0;
    assert w.state.seg1 == Segment(st.writeIdx, start, w.count);
    assert Covers(w.state.seg1, st.size, start, 1);
  }
}
