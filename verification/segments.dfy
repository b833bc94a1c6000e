/** Segments: contiguous runs of absolute sample positions resident in the
    buffer, and the position arithmetic that maps them to physical indices.
 */
module Segments {
  import opened Faults
  import opened Storage

  /** One of the buffer's two segment slots. `index` is the physical index
      at which the run started, `writeStartPos` the absolute position
      written there, `writeStartOffset` the number of samples written since;
      an offset of 0 marks the slot as free. (The source's `write_reversed`
      flag is never set and is not modelled.) */
  datatype Segment = Segment(index: int, writeStartPos: int, writeStartOffset: int)

  /** The two slots. */
  datatype Slot = Slot0 | Slot1 {
    function Other(): (o: Slot)
      ensures o != this
    {
      if this == Slot0 then Slot1 else Slot0
    }
  }

  /** The writer's and `next_write_pos`'s test for a slot in use. */
  predicate InUse(s: Segment) {
    s.writeStartOffset != 0
  }

  /** The absolute position one past the last sample written (`lrs`). */
  function End(s: Segment): int {
    s.writeStartPos + s.writeStartOffset
  }

  /** The first absolute position still readable (`frs`): at most
      `size - 1` samples behind the end survive, older ones may have been
      overwritten. */
  function WindowStart(s: Segment, size: nat): int
    requires size >= 1
  {
    End(s) - Min(s.writeStartOffset, size - 1)
  }

  /** The reader's test: the segment holds data and `[start, start + cnt)`
      lies inside its readable window. */
  predicate Covers(s: Segment, size: nat, start: int, cnt: int)
    requires size >= 1
  {
    s.writeStartOffset > 0 && WindowStart(s, size) <= start && start + cnt <= End(s)
  }

  /** Where absolute position `x` lives in the buffer if the segment's run
      is laid out contiguously (with wrap-around) from `index`. */
  function PhysIndex(s: Segment, size: nat, x: int): (p: int)
    requires size >= 1
    ensures 0 <= p < size
  {
    (s.index + (x - s.writeStartPos)) % size
  }

  /** Stepping `i` samples forward from where `x` lives lands where
      `x + i` lives. */
  lemma {:induction false} PhysIndexStep(s: Segment, size: nat, x: int, i: int)
    requires size >= 1
    ensures (PhysIndex(s, size, x) + i) % size == PhysIndex(s, size, x + i)
  {
    ModAdd(s.index + (x - s.writeStartPos), i, size);
    assert s.index + (x - s.writeStartPos) + i == s.index + (x + i - s.writeStartPos);
  }

  /** The physical index one past the segment's last sample (`p` in the
      read path). */
  function PhysEnd(s: Segment, size: nat): int
    requires size >= 1
  {
    (s.index + s.writeStartOffset) % size
  }

  /** The read path's physical start of a covered range: it walks back
      `End(s) - start` samples from the segment's physical end, adding
      `size` when that would pass index 0. The result is where `start`
      lives according to the segment's layout. */
  function ReadStart(s: Segment, size: nat, start: int, cnt: nat): (r: nat)
    requires size >= 2 && Covers(s, size, start, cnt)
    ensures r < size
    ensures r == PhysIndex(s, size, start)
  {
    var p := PhysEnd(s, size);
    var back := End(s) - start;
    ModAdd(s.index + s.writeStartOffset, -back, size);
    if p > back then
      ModInRange(p - back, size);
      p - back
    else
      ModOfMultiple(p - back, 1, size);
      (size + p - back) % size
  }

  /** Distance from physical index `idx` forward to the write index `w`,
      where an index equal to `w` counts as a full lap. */
  function Behind(w: int, idx: int, size: nat): (d: int)
    requires 0 <= w < size && 0 <= idx < size
    ensures 1 <= d <= size
    ensures d % size == (w - idx) % size
  {
    if w > idx then
      w - idx
    else
      ModOfMultiple(w - idx, 1, size);
      w - idx + size
  }

  /** How a `guint` value reads once stored in an `int` (32-bit two's
      complement): values from 2^31 up wrap to negative numbers. */
  function Int32(u: int): (i: int)
    requires 0 <= u < 0x1_0000_0000
    ensures -0x8000_0000 <= i < 0x8000_0000
    ensures i % 0x1_0000_0000 == u
  {
    if u < 0x8000_0000 then u else u - 0x1_0000_0000
  }

  /** At a size of 2^31 the `int` view of a distance behind the write
      index orders like the distance mod size, with a full lap as the
      most negative value. */
  lemma WrappedBehind(w: int, idx: int, size: nat)
    requires size == 0x8000_0000 && 0 <= w < size && 0 <= idx < size
    ensures Int32(Behind(w, idx, size)) == if (w - idx) % size == 0 then -0x8000_0000 else (w - idx) % size
  {
    if w > idx {
      ModInRange(w - idx, size);
    } else if w == idx {
      ModInRange(0, size);
    } else {
      ModOfMultiple(w - idx, 1, size);
      ModInRange(w - idx + size, size);
    }
  }

  /** The segment the writer is extending: the one whose start index lies
      closer behind the write index. The distances are `guint` values in
      `[1, size]` stored in `int`s, so at a size of 2^31 a distance of a
      full lap reads as the most negative `int` and wins the comparison:
      there the choice goes by the distance mod size, a full lap counting
      as 0.
      Two in-use segments starting at the same physical index trip the
      source's assertion. */
  function SegmentToUse(s0: Segment, s1: Segment, w: int, size: nat): (r: Result<Slot>)
    requires 0 <= w < size < 0x1_0000_0000
    requires 0 <= s0.index < size && 0 <= s1.index < size
    ensures r.Abort? <==> s0.index == s1.index
    ensures r.Abort? ==> r.fault == SegmentsAliased
    ensures size <= 0x8000_0000 - 1 ==>
              (r == Ok(Slot0) <==> !r.Abort? && Behind(w, s0.index, size) < Behind(w, s1.index, size))
    ensures size <= 0x8000_0000 - 1 ==>
              (r == Ok(Slot1) <==> !r.Abort? && Behind(w, s1.index, size) < Behind(w, s0.index, size))
    ensures size == 0x8000_0000 ==>
              (r == Ok(Slot0) <==> !r.Abort? && (w - s0.index) % size < (w - s1.index) % size)
    ensures size == 0x8000_0000 ==>
              (r == Ok(Slot1) <==> !r.Abort? && (w - s1.index) % size < (w - s0.index) % size)
  {
    if size == 0x8000_0000 then
      WrappedBehind(w, s0.index, size);
      WrappedBehind(w, s1.index, size);
      Choose(Int32(Behind(w, s0.index, size)), Int32(Behind(w, s1.index, size)))
    else
      Choose(Int32(Behind(w, s0.index, size)), Int32(Behind(w, s1.index, size)))
  }

  /** The comparison of the two distances in the source's `segment_to_use`. */
  function Choose(d0: int, d1: int): Result<Slot> {
    if d0 == d1 then
      Abort(SegmentsAliased)
    else if d0 < d1 then
      Ok(Slot0)
    else
      Ok(Slot1)
  }

  /** A committed read of `[start, start + cnt)` out of the segment the
      writer is not extending drops everything up to the read's end: the
      segment restarts at `start + cnt`, at physical index `after` (the
      index just past the data read). The source asserts that the dropped
      amount lies in `[0, writeStartOffset]`; containment makes that always
      so, and the trimmed segment keeps its end, its physical layout, and
      exactly the unread tail `[start + cnt, End(s))` as its window. */
  function Trim(s: Segment, size: nat, start: int, cnt: nat, after: int): (t: Segment)
    requires size >= 2 && Covers(s, size, start, cnt)
    requires after == PhysIndex(s, size, start + cnt)
    ensures 0 <= t.writeStartOffset <= s.writeStartOffset
    ensures End(t) == End(s)
    ensures PhysEnd(t, size) == PhysEnd(s, size)
    ensures WindowStart(t, size) == start + cnt
    ensures forall x :: PhysIndex(t, size, x) == PhysIndex(s, size, x)
    ensures InUse(t) <==> start + cnt < End(s)
    ensures t.writeStartPos == start + cnt && t.index == after && 0 <= t.index < size
  {
    var end := start + cnt;
    var delta := end - s.writeStartPos;
    var t := Segment(after, end, s.writeStartOffset - delta);
    forall x
      ensures PhysIndex(t, size, x) == PhysIndex(s, size, x)
    {
      ModAdd(s.index + (end - s.writeStartPos), x - end, size);
    }
    assert PhysIndex(t, size, End(t)) == PhysIndex(s, size, End(s));
    t
  }
}
