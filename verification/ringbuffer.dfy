/** The random-access two-segment ring buffer (`PBD::RaRingBuffer<T>`).

    A disk-reading writer fills the buffer with samples keyed by absolute
    sample position; a playback reader reads any still-resident absolute
    range, including data it has read before. Up to two segments may be
    resident at once, which lets the end of a loop range and its start
    coexist.

    The model treats each public operation as one atomic transition of an
    immutable state, so the source's spin lock and reset mutex are not
    modelled; the read path's failed try-lock is an input.
 */
module RaRingBuffer {
  import opened Faults
  import opened Storage
  import opened Segments

  datatype RingBuffer<T> = RingBuffer(
    buf: seq<T>,
    reservation: nat,
    size: nat,
    sizeMask: nat,
    seg0: Segment,
    seg1: Segment,
    writeIdx: nat,
    readIdx: nat)
  {
    function Seg(k: Slot): Segment {
      if k == Slot0 then seg0 else seg1
    }

    function WithSeg(k: Slot, s: Segment): (r: RingBuffer<T>)
      ensures r.Seg(k) == s && r.Seg(k.Other()) == Seg(k.Other())
    {
      if k == Slot0 then this.(seg0 := s) else this.(seg1 := s)
    }
  }

  /** What construction establishes and every operation keeps. */
  predicate Valid<T>(st: RingBuffer<T>) {
    && IsPow2(st.size) && 2 <= st.size <= 0x4000_0000
    && st.sizeMask == st.size - 1
    && |st.buf| == st.size
    && st.reservation <= st.size
    && st.writeIdx < st.size && st.readIdx < st.size
    && 0 <= st.seg0.index < st.size && 0 <= st.seg1.index < st.size
    && st.seg0.writeStartOffset >= 0 && st.seg1.writeStartOffset >= 0
  }

  /** The state construction leaves behind for a given (power-of-two)
      size: storage filled with `blank`, both indices at 0, and the buffer
      reset to position 0. The source leaves the storage and the segments'
      start indices uninitialised; the model fixes them to `blank` and 0. */
  function Initial<T>(size: nat, res: nat, blank: T): (st: RingBuffer<T>)
    requires IsPow2(size) && 2 <= size <= 0x4000_0000 && res <= size
    ensures Valid(st)
    ensures st.size == size && st.sizeMask == size - 1 && st.reservation == res
    ensures st.readIdx == 0 && st.writeIdx == 0
    ensures !InUse(st.seg0) && !InUse(st.seg1)
    ensures NextWritePos(st) == 0 && ReadSpace(st) == 0
    ensures st.seg0 == Segment(0, 0, 0) && st.seg1 == Segment(0, 0, 0)
  {
    Reset(RingBuffer(seq(size, _ => blank), res, size, size - 1,
                     Segment(0, 0, 0), Segment(0, 0, 0), 0, 0), 0)
  }

  /** Construction: the size is the smallest power of two, and at least 2,
      that holds `sz + res` elements; the mask is one less than the size;
      the buffer starts empty, reset to position 0. */
  method Create<T>(sz: nat, res: nat, blank: T) returns (st: RingBuffer<T>)
    requires sz + res <= 0x4000_0000
    ensures Valid(st)
    ensures st.reservation == res
    ensures sz + res <= st.size && st.sizeMask == st.size - 1
    ensures forall q: nat :: 1 <= q && sz + res <= Pow2(q) ==> st.size <= Pow2(q)
    ensures st.readIdx == 0 && st.writeIdx == 0
    ensures !InUse(st.seg0) && !InUse(st.seg1)
    ensures NextWritePos(st) == 0 && ReadSpace(st) == 0
  {
    var power, size := SizeFor(sz + res);
    Pow2IsPow2(power);
    Pow2Thirty();
    st := Initial(size, res, blank);
  }

  /** A seek: both segments become free, segment 0 records `start` as the
      position the writer continues from, and the write index snaps to the
      read index. Nothing else changes. */
  function Reset<T>(st: RingBuffer<T>, start: int): (r: RingBuffer<T>)
    requires Valid(st)
    ensures Valid(r)
    ensures !InUse(r.seg0) && !InUse(r.seg1)
    ensures r.seg0.writeStartPos == start
    ensures r.writeIdx == st.readIdx && r.readIdx == st.readIdx
    ensures r.seg0.index == st.seg0.index && r.seg1.index == st.seg1.index
    ensures r.seg1.writeStartPos == st.seg1.writeStartPos
    ensures r.buf == st.buf && r.size == st.size && r.sizeMask == st.sizeMask
    ensures r.reservation == st.reservation
    ensures NextWritePos(r) == start
    ensures ReadSpace(r) == 0
  {
    st.(seg0 := st.seg0.(writeStartPos := start, writeStartOffset := 0),
        seg1 := st.seg1.(writeStartOffset := 0),
        writeIdx := st.readIdx)
  }

  /** The absolute position the writer continues from. With both slots
      free it is segment 0's recorded start; otherwise it is the end of
      segment 0 if that is in use, else the end of segment 1. The source's
      branch for two in-use segments comes after the test for segment 0
      and is never taken, so with both in use segment 0 decides. A write at
      this position never trips an assertion: it continues the segment in
      use, or, when both are free, starts segment 0 at the write index
      while keeping segment 0's recorded start (see also
      `RingBufferRoundTrip.WriteAtNextWritePos`). */
  function NextWritePos<T>(st: RingBuffer<T>): (pos: int)
    ensures Valid(st) ==> Target(st, pos).Ok?
    ensures Valid(st) && (InUse(st.seg0) || InUse(st.seg1)) ==>
              && Target(st, pos).value.1 == st.Seg(Target(st, pos).value.0)
              && InUse(st.Seg(Target(st, pos).value.0))
    ensures Valid(st) && !InUse(st.seg0) && !InUse(st.seg1) ==>
              Target(st, pos) == Ok((Slot0, st.seg0.(index := st.writeIdx)))
  {
    if !InUse(st.seg0) && !InUse(st.seg1) then
      st.seg0.writeStartPos
    else if InUse(st.seg0) then
      End(st.seg0)
    else
      End(st.seg1)
  }

  /** `[start, start + cnt)` is resident in some segment. The count is
      the source's `int32_t`, so a negative count is accepted too. `Read`
      agrees except on a range both segments hold: a range `CanRead`
      rejects reads as nothing (a commit then jumps the reader to the
      writer), and a range it accepts is read in full unless both segments
      cover it, in which case it too reads as nothing. */
  function CanRead<T>(st: RingBuffer<T>, start: int, cnt: int): (ok: bool)
    requires Valid(st) && -0x8000_0000 <= cnt < 0x8000_0000
    ensures ok <==> Covers(st.seg0, st.size, start, cnt) || Covers(st.seg1, st.size, start, cnt)
    ensures cnt >= 0 && !ok ==>
              && Read(st, start, cnt, false, false) == Ok(ReadResult(st, 0, []))
              && Read(st, start, cnt, true, false) == Ok(ReadResult(st.(readIdx := st.writeIdx), 0, []))
    ensures cnt >= 0 && ok && !(Covers(st.seg0, st.size, start, cnt) && Covers(st.seg1, st.size, start, cnt)) ==>
              && Read(st, start, cnt, false, false).value.count == cnt
              && (Read(st, start, cnt, true, false).Ok? ==> Read(st, start, cnt, true, false).value.count == cnt)
    ensures cnt >= 0 && Covers(st.seg0, st.size, start, cnt) && Covers(st.seg1, st.size, start, cnt) ==>
              && ok
              && Read(st, start, cnt, false, false) == Ok(ReadResult(st, 0, []))
              && Read(st, start, cnt, true, false) == Ok(ReadResult(st.(readIdx := st.writeIdx), 0, []))
  {
    if Covers(st.seg0, st.size, start, cnt) then
      true
    else
      Covers(st.seg1, st.size, start, cnt)
  }

  /** The forward distance from the write index to the read index, where
      equal indices count as a full buffer. */
  function Gap<T>(st: RingBuffer<T>): (g: int)
    requires Valid(st)
  {
    var d := (st.readIdx - st.writeIdx) % st.size;
    if d == 0 then st.size else d
  }

  /** Space the writer may fill: the gap, minus one slot that tells a full
      buffer from an empty one, minus the reservation kept behind the read
      index; zero when the gap does not exceed the reservation. */
  function WriteSpace<T>(st: RingBuffer<T>): (n: nat)
    requires Valid(st)
    ensures n == 0 <==> Gap(st) <= st.reservation + 1
    ensures Gap(st) > st.reservation ==> n == Gap(st) - 1 - st.reservation
    ensures n == 0 || n + st.reservation < st.size
  {
    var w := st.writeIdx;
    var r := st.readIdx;
    var rv :=
      if w > r then
        ModOfMultiple(r - w, 1, st.size);
        ModInRange(r - w + st.size, st.size);
        (r - w + st.size) % st.size
      else if w < r then
        ModInRange(r - w, st.size);
        r - w
      else
        (ModInRange(0, st.size); st.size);
    assert rv == Gap(st);
    if rv > st.reservation then rv - 1 - st.reservation else 0
  }

  /** Data written but not yet passed by the read index. */
  function ReadSpace<T>(st: RingBuffer<T>): (n: nat)
    requires Valid(st)
    ensures n == (st.writeIdx - st.readIdx) % st.size
    ensures n < st.size
    ensures n == 0 <==> st.writeIdx == st.readIdx
  {
    var w := st.writeIdx;
    var r := st.readIdx;
    if w > r then
      ModInRange(w - r, st.size);
      w - r
    else if w < r then
      ModOfMultiple(w - r, 1, st.size);
      ModInRange(w - r + st.size, st.size);
      (w - r + st.size) % st.size
    else
      ModOfMultiple(0, 1, st.size);
      (w - r + st.size) % st.size
  }

  /** Moving a reader at `r` forward by `c`, no more than its distance to
      the writer at `w`, shortens that distance by exactly `c`; moving it
      the whole distance lands on the writer. */
  lemma ReadAdvance(w: int, r: int, c: int, size: nat)
    requires 0 <= w < size && 0 <= r < size && 0 <= c <= (w - r) % size
    ensures (w - (r + c) % size) % size == (w - r) % size - c
    ensures c == (w - r) % size ==> (r + c) % size == w
  {
    var d := (w - r) % size;
    ModSub(w, r + c, size);
    ModAdd(w - r, -c, size);
    ModInRange(d - c, size);
    assert (w - (r + c)) == (w - r) + -c;
    if c == d {
      ModAdd(w - r, r, size);
      ModInRange(w, size);
      assert d + r == r + c;
    }
  }

  /** Moves the read index forward by `cnt`, clamped to the read space:
      only the read index changes, and the read space shrinks by exactly
      the amount moved. */
  function IncrementReadIdx<T>(st: RingBuffer<T>, cnt: nat): (r: RingBuffer<T>)
    requires Valid(st)
    ensures Valid(r)
    ensures r == st.(readIdx := r.readIdx)
    ensures r.readIdx == (st.readIdx + Min(cnt, ReadSpace(st))) % st.size
    ensures ReadSpace(r) == ReadSpace(st) - Min(cnt, ReadSpace(st))
    ensures cnt >= ReadSpace(st) ==> r.readIdx == st.writeIdx
  {
    var rs := ReadSpace(st);
    var c := Min(cnt, rs);
    ReadAdvance(st.writeIdx, st.readIdx, c, st.size);
    st.(readIdx := (st.readIdx + c) % st.size)
  }

  /** Discards the backlog: the read index jumps to the write index, so
      nothing is left to read and the writer's gap is the whole buffer. */
  function ReadFlush<T>(st: RingBuffer<T>): (r: RingBuffer<T>)
    requires Valid(st)
    ensures Valid(r)
    ensures r == st.(readIdx := st.writeIdx)
    ensures ReadSpace(r) == 0
    ensures Gap(r) == st.size
  {
    st.(readIdx := st.writeIdx)
  }

  /** The write path's choice of slot for a write at `start` (before any
      data is copied): the slot, and the segment it will hold.
      - both slots free: slot 0, started at the write index and `start`;
      - segment 0 in use: slot 0 (the test for segment 0 comes first);
      - only segment 1 in use: slot 1;
      and when `start` is not the chosen segment's end, the other slot is
      started at the write index and `start`, which trips the source's
      assertion if that slot is in use. */
  function Target<T>(st: RingBuffer<T>, start: int): (r: Result<(Slot, Segment)>)
    requires Valid(st)
    ensures r.Abort? <==> InUse(st.seg0) && InUse(st.seg1) && start != End(st.seg0)
    ensures r.Abort? ==> r.fault == SlotStillInUse
    ensures r.Ok? ==> End(r.value.1) == start && r.value.1.writeStartOffset >= 0
    ensures r.Ok? ==> 0 <= r.value.1.index < st.size
    ensures r.Ok? && InUse(st.Seg(r.value.0)) ==> r.value.1 == st.Seg(r.value.0)
    ensures r.Ok? && !InUse(st.Seg(r.value.0)) ==> r.value.1 == Segment(st.writeIdx, start, 0)
    ensures InUse(st.seg0) && start == End(st.seg0) ==> r == Ok((Slot0, st.seg0))
    ensures !InUse(st.seg0) && InUse(st.seg1) && start == End(st.seg1) ==> r == Ok((Slot1, st.seg1))
    ensures !InUse(st.seg0) && !InUse(st.seg1) ==> r == Ok((Slot0, Segment(st.writeIdx, start, 0)))
  {
    var w := st.writeIdx;
    var (k, s) :=
      if !InUse(st.seg0) && !InUse(st.seg1) then
        (Slot0, st.seg0.(index := w, writeStartPos := start))
      else if InUse(st.seg0) then
        (Slot0, st.seg0)
      else
        (Slot1, st.seg1);
    if start != End(s) then
      var other := k.Other();
      if InUse(st.Seg(other)) then
        Abort(SlotStillInUse)
      else
        Ok((other, Segment(w, start, 0)))
    else
      Ok((k, s))
  }

  /** The result of a write: the new state and how many samples went in. */
  datatype Written<T> = Written(state: RingBuffer<T>, count: nat)

  /** Writes `src` as the samples at absolute positions `start, start + 1,
      ...`. As many as the write space allows go in, copied from the write
      index onward with wrap-around; the chosen slot's segment grows by that
      many and the write index advances by that many. With no write space
      nothing changes. Unread data and the reservation behind the read
      index are never overwritten (see `RingBufferProperties.WriteKeepsUnread`
      and `RingBufferProperties.WriteKeepsReservation`). */
  function Write<T>(st: RingBuffer<T>, src: seq<T>, start: int): (r: Result<Written<T>>)
    requires Valid(st)
    ensures r.Abort? <==> InUse(st.seg0) && InUse(st.seg1) && start != End(st.seg0)
    ensures r.Abort? ==> r.fault == SlotStillInUse
    ensures r.Ok? ==> Valid(r.value.state)
    ensures r.Ok? ==> r.value.count == Min(|src|, WriteSpace(st)) && r.value.count <= |src|
    ensures r.Ok? && WriteSpace(st) == 0 ==> r.value.state == st
    ensures r.Ok? ==> r.value.state.writeIdx == (st.writeIdx + r.value.count) % st.size
    ensures r.Ok? ==> r.value.state.readIdx == st.readIdx && r.value.state.size == st.size
    ensures r.Ok? ==> r.value.state.sizeMask == st.sizeMask && r.value.state.reservation == st.reservation
    ensures r.Ok? ==> LaidDown(st.buf, r.value.state.buf, st.writeIdx, src[..r.value.count])
    ensures r.Ok? && WriteSpace(st) > 0 ==>
              var (k, s) := Target(st, start).value;
              var st' := r.value.state;
              && st'.Seg(k) == s.(writeStartOffset := s.writeStartOffset + r.value.count)
              && End(st'.Seg(k)) == start + r.value.count
              && st'.Seg(k.Other()) == st.Seg(k.Other())
  {
    var target := Target(st, start);
    if target.Abort? then
      Abort(target.fault)
    else
      var k := target.value.0;
      var s := target.value.1;
      var free := WriteSpace(st);
      if free == 0 then
        ModInRange(st.writeIdx, st.size);
        Ok(Written(st, 0))
      else
        var n := Min(|src|, free);
        var buf := CopyIn(st.buf, st.writeIdx, src[..n]);
        var w := Advance(st.writeIdx, n, st.size);
        var st' := st.WithSeg(k, s.(writeStartOffset := s.writeStartOffset + n)).(buf := buf, writeIdx := w);
        assert Valid(st');
        Ok(Written(st', n))
  }

  /** The result of a read: the new state, the count returned, and the
      samples copied out (as many as the count). */
  datatype ReadResult<T> = ReadResult(state: RingBuffer<T>, count: nat, data: seq<T>)

  /** `data` holds the samples at `[start, start + |data|)` as laid out by
      segment `s`. */
  ghost predicate Serves<T>(st: RingBuffer<T>, s: Segment, start: int, data: seq<T>)
    requires Valid(st)
  {
    forall i :: 0 <= i < |data| ==> data[i] == st.buf[PhysIndex(s, st.size, start + i)]
  }

  /** Exactly one segment covers the range (the source's `segment` bit set
      is 1 or 2). */
  predicate Found<T>(st: RingBuffer<T>, start: int, cnt: nat)
    requires Valid(st)
  {
    Covers(st.seg0, st.size, start, cnt) != Covers(st.seg1, st.size, start, cnt)
  }

  /** The slot that serves a found range. */
  function Source<T>(st: RingBuffer<T>, start: int, cnt: nat): (k: Slot)
    requires Valid(st) && Found(st, start, cnt)
    ensures Covers(st.Seg(k), st.size, start, cnt)
    ensures !Covers(st.Seg(k.Other()), st.size, start, cnt)
  {
    if Covers(st.seg0, st.size, start, cnt) then Slot0 else Slot1
  }

  /** Samples read consecutively from the physical index of `start` are
      the samples the segment lays out for `start`, `start + 1`, ... */
  lemma {:induction false} FetchLayout<T>(st: RingBuffer<T>, s: Segment, start: int, p: nat, data: seq<T>)
    requires Valid(st) && p == PhysIndex(s, st.size, start)
    requires forall i :: 0 <= i < |data| ==> data[i] == st.buf[(p + i) % |st.buf|]
    ensures Serves(st, s, start, data)
  {
    forall i | 0 <= i < |data|
      ensures data[i] == st.buf[PhysIndex(s, st.size, start + i)]
    {
      PhysIndexStep(s, st.size, start, i);
    }
  }

  /** The read path's copy out of a covering segment: `cnt` samples from
      the segment's layout, and the physical index just past them. */
  function Fetch<T>(st: RingBuffer<T>, s: Segment, start: int, cnt: nat): (r: (seq<T>, nat))
    requires Valid(st) && Covers(s, st.size, start, cnt)
    ensures |r.0| == cnt && Serves(st, s, start, r.0)
    ensures r.1 < st.size && r.1 == PhysIndex(s, st.size, start + cnt)
  {
    var p := ReadStart(s, st.size, start, cnt);
    var data := CopyOut(st.buf, p, cnt);
    var after := Advance(p, cnt, st.size);
    FetchLayout(st, s, start, p, data);
    PhysIndexStep(s, st.size, start, cnt);
    (data, after)
  }

  /** The state after committing a read of `[start, start + cnt)` served by
      slot `k`, with `after` the physical index just past it. When both
      segments are in use and `k` is not the writer's segment, slot `k` is
      trimmed to what follows the read; the read index moves to `after`.
      Choosing the writer's segment trips the source's assertion when the
      two segments start at the same physical index. */
  function Commit<T>(st: RingBuffer<T>, k: Slot, start: int, cnt: nat, after: nat)
    : (r: Result<RingBuffer<T>>)
    requires Valid(st) && Covers(st.Seg(k), st.size, start, cnt)
    requires after == PhysIndex(st.Seg(k), st.size, start + cnt)
    ensures r.Abort? <==> InUse(st.seg0) && InUse(st.seg1) && st.seg0.index == st.seg1.index
    ensures r.Abort? ==> r.fault == SegmentsAliased
    ensures r.Ok? ==> Valid(r.value)
    ensures r.Ok? ==> r.value == st.(readIdx := after, seg0 := r.value.seg0, seg1 := r.value.seg1)
    ensures r.Ok? ==> r.value.Seg(k.Other()) == st.Seg(k.Other())
    ensures r.Ok? ==> r.value.Seg(k) == st.Seg(k)
                      || r.value.Seg(k) == Trim(st.Seg(k), st.size, start, cnt, after)
    ensures r.Ok? && !(InUse(st.seg0) && InUse(st.seg1)) ==> r.value == st.(readIdx := after)
    ensures InUse(st.seg0) && InUse(st.seg1) ==>
              var writing := SegmentToUse(st.seg0, st.seg1, st.writeIdx, st.size);
              && (writing == Ok(k.Other()) ==>
                    r.Ok? && r.value.Seg(k) == Trim(st.Seg(k), st.size, start, cnt, after))
              && (writing == Ok(k) ==> r.Ok? && r.value.Seg(k) == st.Seg(k))
  {
    if InUse(st.seg0) && InUse(st.seg1) then
      match SegmentToUse(st.seg0, st.seg1, st.writeIdx, st.size)
      case Abort(f) => Abort(f)
      case Ok(writing) =>
        var st' :=
          if k == writing.Other() then st.WithSeg(k, Trim(st.Seg(k), st.size, start, cnt, after))
          else st;
        Ok(st'.(readIdx := after))
    else
      Ok(st.(readIdx := after))
  }

  /** Reads the samples at absolute positions `[start, start + cnt)`.
      - A reset in progress (the reader's try-lock fails): 0, no change.
      - Exactly one segment covers the range: `cnt` samples copied from that
        segment's layout. With `commit`, the read index moves to the physical
        end of the range, and when both segments are in use and the range
        came from the one the writer is not extending, that segment is
        trimmed to the unread tail after the range.
      - No segment, or both, cover it: 0; with `commit` the read index snaps
        to the write index.
      Without `commit` the state never changes. */
  function Read<T>(st: RingBuffer<T>, start: int, cnt: nat, commit: bool, resetInProgress: bool)
    : (r: Result<ReadResult<T>>)
    requires Valid(st)
    ensures resetInProgress ==> r == Ok(ReadResult(st, 0, []))
    ensures r.Ok? ==> Valid(r.value.state) && |r.value.data| == r.value.count
    ensures r.Ok? ==> var st' := r.value.state;
              st'.buf == st.buf && st'.writeIdx == st.writeIdx && st'.size == st.size
              && st'.sizeMask == st.sizeMask && st'.reservation == st.reservation
    ensures !commit ==> r.Ok? && r.value.state == st
    ensures !resetInProgress ==>
              (r.Abort? <==> commit && Found(st, start, cnt) && InUse(st.seg0) && InUse(st.seg1)
                             && st.seg0.index == st.seg1.index)
    ensures r.Abort? ==> r.fault == SegmentsAliased
    ensures !resetInProgress && !Found(st, start, cnt) ==>
              r == Ok(ReadResult(if commit then st.(readIdx := st.writeIdx) else st, 0, []))
    ensures !resetInProgress && Found(st, start, cnt) && r.Ok? ==>
              var k := Source(st, start, cnt);
              && r.value.count == cnt
              && Serves(st, st.Seg(k), start, r.value.data)
              && (commit ==> r.value.state.readIdx == PhysIndex(st.Seg(k), st.size, start + cnt))
              && r.value.state.Seg(k.Other()) == st.Seg(k.Other())
              && (r.value.state.Seg(k) == st.Seg(k)
                  || r.value.state.Seg(k) == Trim(st.Seg(k), st.size, start, cnt,
                                                  PhysIndex(st.Seg(k), st.size, start + cnt)))
    ensures !resetInProgress && Found(st, start, cnt) && commit && InUse(st.seg0) && InUse(st.seg1)
            && SegmentToUse(st.seg0, st.seg1, st.writeIdx, st.size)
               == Ok(Source(st, start, cnt).Other()) ==>
              var k := Source(st, start, cnt);
              r.Ok? && r.value.state.Seg(k)
                       == Trim(st.Seg(k), st.size, start, cnt, PhysIndex(st.Seg(k), st.size, start + cnt))
    ensures !resetInProgress && Found(st, start, cnt) && commit && InUse(st.seg0) && InUse(st.seg1)
            && SegmentToUse(st.seg0, st.seg1, st.writeIdx, st.size) == Ok(Source(st, start, cnt)) ==>
              var k := Source(st, start, cnt);
              r.Ok? && r.value.state.Seg(k) == st.Seg(k)
    ensures !resetInProgress && Found(st, start, cnt) && commit && !(InUse(st.seg0) && InUse(st.seg1)) ==>
              r.Ok? && r.value.state.seg0 == st.seg0 && r.value.state.seg1 == st.seg1
  {
    if resetInProgress then
      Ok(ReadResult(st, 0, []))
    else if !Found(st, start, cnt) then
      Ok(ReadResult(if commit then st.(readIdx := st.writeIdx) else st, 0, []))
    else
      var k := Source(st, start, cnt);
      var (data, after) := Fetch(st, st.Seg(k), start, cnt);
      if !commit then
        Ok(ReadResult(st, cnt, data))
      else
        match Commit(st, k, start, cnt, after)
        case Abort(f) => Abort(f)
        case Ok(st') => Ok(ReadResult(st', cnt, data))
  }
}
