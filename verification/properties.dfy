/** Properties that relate several operations of the ring buffer: space
    accounting and the reservation guarantee (a write never overwrites
    unread samples nor the reserved samples just behind the reader).
 */
module RingBufferProperties {
  import opened Faults
  import opened Storage
  import opened Segments
  import opened RaRingBuffer

  /** A residue and the residue of its negation add up to a full lap,
      unless both are zero. */
  lemma {:induction false} ModNegation(x: int, n: int)
    requires n > 0 && x % n != 0
    ensures x % n + (-x) % n == n
  {
    var q := x / n;
    var a := x % n;
    assert x == q * n + a;
    assert -x == (-q - 1) * n + (n - a);
    ModUnique(-x, n, -q - 1, n - a);
  }

  /** Read space and the writer's gap always make up the whole buffer, so
      whenever the writer may write at all, the write space, the read
      space, the full/empty slot and the reservation add up to the size. */
  lemma {:induction false} SpaceAccounting<T>(st: RingBuffer<T>)
    requires Valid(st)
    ensures ReadSpace(st) + Gap(st) == st.size
    ensures WriteSpace(st) > 0 ==>
              WriteSpace(st) + ReadSpace(st) + 1 + st.reservation == st.size
  {
    if st.writeIdx == st.readIdx {
      ModInRange(0, st.size);
    } else {
      var x := st.writeIdx - st.readIdx;
      if x > 0 { ModInRange(x, st.size); } else { ModOfMultiple(x, 1, st.size); ModInRange(x + st.size, st.size); }
      ModNegation(x, st.size);
    }
  }

  /** A write leaves a physical index alone when its forward distance from
      the write index is at least the number of samples written. */
  lemma Untouched<T>(before: seq<T>, after: seq<T>, w: int, src: seq<T>, j: int)
    requires |before| == |after| > 0 && LaidDown(before, after, w, src)
    requires 0 <= j < |after| && (j - w) % |after| >= |src|
    ensures after[j] == before[j]
  {
  }

  /** The write index is `Gap(st)` behind the read index, modulo the size. */
  lemma GapResidue<T>(st: RingBuffer<T>)
    requires Valid(st)
    ensures (st.readIdx - st.writeIdx) % st.size == Gap(st) % st.size
  {
    var d := (st.readIdx - st.writeIdx) % st.size;
    if d == 0 {
      ModInRange(0, st.size);
      ModOfMultiple(0, 1, st.size);
    } else {
      ModInRange(d, st.size);
    }
  }

  /** Forward distance from the write index `w` to index `(r + k) % size`,
      where `r` lies `gap` ahead of `w`. */
  lemma DistanceFromWriter(w: int, r: int, gap: int, k: int, size: nat)
    requires size > 0 && 0 <= gap + k < size
    requires (r - w) % size == gap % size
    ensures ((r + k) % size - w) % size == gap + k
  {
    ModAdd(r + k, -w, size);
    ModAdd(r - w, k, size);
    ModAdd(gap, k, size);
    ModInRange(gap + k, size);
  }

  /** The writer never overwrites data the reader has not passed yet: the
      `k`-th unread sample keeps its value. */
  lemma {:induction false} WriteKeepsUnread<T>(st: RingBuffer<T>, src: seq<T>, start: int, k: nat)
    requires Valid(st) && Write(st, src, start).Ok?
    requires k < ReadSpace(st)
    ensures var j := (st.readIdx + k) % st.size;
            Write(st, src, start).value.state.buf[j] == st.buf[j]
  {
    var written := Write(st, src, start).value;
    var n := written.count;
    SpaceAccounting(st);
    GapResidue(st);
    DistanceFromWriter(st.writeIdx, st.readIdx, Gap(st), k, st.size);
    Untouched(st.buf, written.state.buf, st.writeIdx, src[..n], (st.readIdx + k) % st.size);
  }

  /** The writer never overwrites the `reservation` samples just behind the
      read index, so the reader may rewind that far and re-read them. */
  lemma {:induction false} WriteKeepsReservation<T>(st: RingBuffer<T>, src: seq<T>, start: int, k: nat)
    requires Valid(st) && Write(st, src, start).Ok?
    requires 1 <= k <= st.reservation && k < st.size
    ensures var j := (st.readIdx - k) % st.size;
            Write(st, src, start).value.state.buf[j] == st.buf[j]
  {
    var written := Write(st, src, start).value;
    var n := written.count;
    if n > 0 {
      assert n <= WriteSpace(st) == Gap(st) - 1 - st.reservation;
      GapResidue(st);
      DistanceFromWriter(st.writeIdx, st.readIdx, Gap(st), -(k as int), st.size);
    }
    Untouched(st.buf, written.state.buf, st.writeIdx, src[..n], (st.readIdx - k) % st.size);
  }
}
