/** The write-then-read round trip: data written at the position the
    writer reports comes back unchanged from a read of the same range.
 */

module RingBufferRoundTrip {
  import opened Faults
  import opened Storage
  import opened Segments
  import opened RaRingBuffer

  /** The segment `NextWritePos` reports ends, physically, at the write
      index: samples the writer appends there land where that segment's
      layout expects them. */
  predicate WriterAligned<T>(st: RingBuffer<T>)
    requires Valid(st)
  {
    && (InUse(st.seg0) ==> PhysEnd(st.seg0, st.size) == st.writeIdx)
    && (!InUse(st.seg0) && InUse(st.seg1) ==> PhysEnd(st.seg1, st.size) == st.writeIdx)
  }

  /** With the writer aligned, whatever segment a write targets ends
      physically at the write index. */
  lemma TargetAligned<T>(st: RingBuffer<T>, start: int)
    requires Valid(st) && WriterAligned(st) && Target(st, start).Ok?
    ensures PhysEnd(Target(st, start).value.1, st.size) == st.writeIdx
  {
    var (k, s) := Target(st, start).value;
    if !InUse(st.Seg(k)) {
      ModInRange(st.writeIdx, st.size);
    }
  }

  /** The slot a non-empty write targets covers the written range, and lays
      position `start + i` out at physical index `writeIdx + i`. */
  lemma WrittenRangeLayout<T>(st: RingBuffer<T>, src: seq<T>, start: int, i: int)
    requires Valid(st) && WriterAligned(st) && Write(st, src, start).Ok?
    requires Write(st, src, start).value.count > 0
    ensures var w := Write(st, src, start).value;
            var k := Target(st, start).value.0;
            && Covers(w.state.Seg(k), st.size, start, w.count)
            && PhysIndex(w.state.Seg(k), st.size, start + i) == (st.writeIdx + i) % st.size
  {
    var w := Write(st, src, start).value;
    assert WriteSpace(st) > 0;
    var (k, s) := Target(st, start).value;
    TargetAligned(st, start);
    assert w.state.Seg(k) == s.(writeStartOffset := s.writeStartOffset + w.count);
    ModAdd(s.index + s.writeStartOffset, i, st.size);
  }

  /** The `i`-th sample written lands at physical index `writeIdx + i`. */
  lemma WrittenSampleAt<T>(st: RingBuffer<T>, src: seq<T>, start: int, i: int)
    requires Valid(st) && Write(st, src, start).Ok?
    requires 0 <= i < Write(st, src, start).value.count
    ensures Write(st, src, start).value.state.buf[(st.writeIdx + i) % st.size] == src[i]
  {
    var w := Write(st, src, start).value;
    ModAdd(st.writeIdx + i, -(st.writeIdx as int), st.size);
    ModInRange(i, st.size);
    assert ((st.writeIdx + i) % st.size - st.writeIdx) % st.size == i;
  }

  /** Sample `i` of a read served by the segment a write targeted is the
      `i`-th sample written. */
  lemma ReadBackSample<T>(st: RingBuffer<T>, src: seq<T>, start: int, data: seq<T>, i: int)
    requires Valid(st) && WriterAligned(st) && Write(st, src, start).Ok?
    requires var w := Write(st, src, start).value;
             && w.count > 0
             && Serves(w.state, w.state.Seg(Target(st, start).value.0), start, data)
    requires 0 <= i < |data| && i < Write(st, src, start).value.count
    ensures data[i] == src[i]
  {
    WrittenRangeLayout(st, src, start, i);
    WrittenSampleAt(st, src, start, i);
  }

  /** The samples a write puts in are exactly what a read of the same
      absolute range returns, provided the writer was aligned and the range
      is not also covered by the other segment. */
  lemma {:induction false} ReadBackAfterWrite<T>(st: RingBuffer<T>, src: seq<T>, start: int, commit: bool)
    requires Valid(st) && WriterAligned(st) && Write(st, src, start).Ok?
    requires var w := Write(st, src, start).value;
             !(Covers(w.state.seg0, st.size, start, w.count) && Covers(w.state.seg1, st.size, start, w.count))
    ensures var w := Write(st, src, start).value;
            var rd := Read(w.state, start, w.count, commit, false);
            rd.Ok? ==> rd.value.count == w.count && rd.value.data == src[..w.count]
  {
    var w := Write(st, src, start).value;
    var n := w.count;
    var rd := Read(w.state, start, n, commit, false);
    if n > 0 && rd.Ok? {
      var k := Target(st, start).value.0;
      WrittenRangeLayout(st, src, start, 0);
      assert Found(w.state, start, n) && Source(w.state, start, n) == k;
      var data := rd.value.data;
      assert |data| == n && Serves(w.state, w.state.Seg(k), start, data);
      forall i | 0 <= i < n
        ensures data[i] == src[i]
      {
        ReadBackSample(st, src, start, data, i);
      }
    }
  }

  /** After a seek to `pos`, writing `src` at `pos` stores all of it when
      it fits beside the reservation, and reading `pos .. pos + |src|`
      returns exactly `src`; a committed read leaves the read index where
      the writer stopped. */
  lemma {:induction false} ResetWriteReadRoundTrip<T>(st: RingBuffer<T>, src: seq<T>, pos: int, commit: bool)
    requires Valid(st) && |src| + st.reservation < st.size
    ensures Write(Reset(st, pos), src, pos).Ok?
    ensures var w := Write(Reset(st, pos), src, pos).value;
            var rd := Read(w.state, pos, |src|, commit, false);
            && w.count == |src|
            && rd.Ok? && rd.value.count == |src| && rd.value.data == src
            && (commit ==> rd.value.state.readIdx == w.state.writeIdx)
  {
    var st1 := Reset(st, pos);
    ModInRange(0, st.size);
    assert Gap(st1) == st.size;
    var w := Write(st1, src, pos).value;
    assert w.count == |src|;
    var st2 := w.state;
    var n := |src|;
    assert !InUse(st2.seg1);
    ReadBackAfterWrite(st1, src, pos, commit);
    var rd := Read(st2, pos, n, commit, false);
    if n > 0 {
      assert st2.seg0 == Segment(st1.writeIdx, pos, n);
      assert Found(st2, pos, n) && Source(st2, pos, n) == Slot0;
      ModInRange(st1.writeIdx, st.size);
      assert rd.Ok?;
      assert src[..n] == src;
    }
  }

  /** Writing where `NextWritePos` points never trips an assertion, moves
      the continuation point forward by the amount written, and keeps the
      writer aligned. */
  lemma {:induction false} WriteAtNextWritePos<T>(st: RingBuffer<T>, src: seq<T>)
    requires Valid(st)
    ensures Write(st, src, NextWritePos(st)).Ok?
    ensures var w := Write(st, src, NextWritePos(st)).value;
            NextWritePos(w.state) == NextWritePos(st) + w.count
    ensures WriterAligned(st) ==> WriterAligned(Write(st, src, NextWritePos(st)).value.state)
  {
    var start := NextWritePos(st);
    var w := Write(st, src, start).value;
    if WriteSpace(st) > 0 {
      var (k, s) := Target(st, start).value;
      if WriterAligned(st) {
        TargetAligned(st, start);
        ModAdd(s.index + s.writeStartOffset, w.count, st.size);
      }
    }
  }
}
