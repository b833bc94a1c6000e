/** The circular storage: power-of-two sizing and the two-span copies that
    move data into and out of the buffer, wrapping at its end.

    Physical indices are reduced with `% size`. The source masks with
    `size - 1` instead; for a power-of-two size that is the same operation
    (and, on two's-complement values, the same Euclidean remainder).
 */
module Storage {

  function Min(a: int, b: int): (m: int)
    ensures m <= a && m <= b && (m == a || m == b)
  {
    if a < b then a else b
  }

  function Pow2(p: nat): (r: nat)
    ensures r >= 1
  {
    if p == 0 then 1 else 2 * Pow2(p - 1)
  }

  /** `n` is a power of two (1, 2, 4, ...). */
  predicate IsPow2(n: nat)
    decreases n
  {
    n == 1 || (n >= 2 && n % 2 == 0 && IsPow2(n / 2))
  }

  lemma {:induction false} Pow2IsPow2(p: nat)
    ensures IsPow2(Pow2(p))
  {
    if p > 0 {
      Pow2IsPow2(p - 1);
    }
  }

  lemma {:induction false} Pow2Monotonic(p: nat, q: nat)
    requires p <= q
    ensures Pow2(p) <= Pow2(q)
  {
    if p < q {
      Pow2Monotonic(p, q - 1);
    }
  }

  /** Exponents add when powers of two multiply. */
  lemma {:induction false} Pow2Add(a: nat, b: nat)
    ensures Pow2(a + b) == Pow2(a) * Pow2(b)
  {
    if b > 0 {
      Pow2Add(a, b - 1);
      assert Pow2(a + b) == 2 * Pow2(a + (b - 1));
    }
  }

  /** The largest buffer size the model admits. */
  lemma Pow2Thirty()
    ensures Pow2(30) == 0x4000_0000
  {
    assert Pow2(5) == 32;
    Pow2Add(5, 5);
    Pow2Add(10, 10);
    Pow2Add(20, 10);
  }

  /** Either `q` lies below `power`, and then its power is at most the one
      just below `power`, or it does not, and then its power is at least
      `Pow2(power)`. */
  lemma Pow2Order(q: nat, power: nat)
    requires 1 <= power
    ensures q < power ==> Pow2(q) <= Pow2(power - 1)
    ensures power <= q ==> Pow2(power) <= Pow2(q)
  {
    if q < power {
      Pow2Monotonic(q, power - 1);
    } else {
      Pow2Monotonic(power, q);
    }
  }

  /** The constructor's search for the buffer size: starting from 2^1, the
      exponent grows until 2^power is at least `sz`. The result is the
      smallest power of two that is at least `sz` and at least 2. */
  method SizeFor(sz: nat) returns (power: nat, size: nat)
    ensures 1 <= power && size == Pow2(power) && 2 <= size
    ensures sz <= size
    ensures forall q: nat :: 1 <= q && sz <= Pow2(q) ==> size <= Pow2(q)
  {
    power := 1;
    while Pow2(power) < sz
      invariant 1 <= power
      invariant power == 1 || Pow2(power - 1) < sz
      decreases sz - Pow2(power)
    {
      power := power + 1;
    }
    size := Pow2(power);
    forall q: nat | 1 <= q && sz <= Pow2(q)
      ensures size <= Pow2(q)
    {
      Pow2Order(q, power);
    }
  }

  /** A non-zero multiple of `n` is at least `n` away from zero. */
  lemma {:induction false} MulBounds(d: int, n: int)
    requires n > 0
    ensures d >= 1 ==> d * n >= n
    ensures d <= -1 ==> d * n <= -n
    decreases if d < 0 then -d else d
  {
    if d > 1 {
      MulBounds(d - 1, n);
      assert d * n == (d - 1) * n + n;
    } else if d < -1 {
      MulBounds(d + 1, n);
      assert d * n == (d + 1) * n - n;
    }
  }

  /** The remainder is the unique `r` in `[0, n)` with `x == q * n + r`. */
  lemma ModUnique(x: int, n: int, q: int, r: int)
    requires n > 0 && 0 <= r < n && x == q * n + r
    ensures x % n == r
  {
    var d := q - x / n;
    assert x == (x / n) * n + x % n;
    assert d * n == q * n - (x / n) * n;
    MulBounds(d, n);
  }

  lemma ModOfMultiple(a: int, k: int, n: int)
    requires n > 0
    ensures (a + k * n) % n == a % n
  {
    assert a == (a / n) * n + a % n;
    assert (a / n + k) * n == (a / n) * n + k * n;
    ModUnique(a + k * n, n, a / n + k, a % n);
  }

  lemma ModInRange(a: int, n: int)
    requires 0 <= a < n
    ensures a % n == a
  {
    ModUnique(a, n, 0, a);
  }

  /** Two integers with the same remainder stay congruent after adding
      the same amount. */
  lemma ModAdd(a: int, b: int, n: int)
    requires n > 0
    ensures (a % n + b) % n == (a + b) % n
  {
    ModOfMultiple(a % n + b, a / n, n);
    assert a % n + b + (a / n) * n == a + b;
  }

  lemma ModSub(b: int, a: int, n: int)
    requires n > 0
    ensures (b - a % n) % n == (b - a) % n
  {
    ModOfMultiple(b - a, a / n, n);
    assert b - a + (a / n) * n == b - a % n;
  }

  /** How a copy of `cnt` elements starting at physical index `p` splits at
      the end of the buffer: `n1` elements up to the end, then `n2` from
      index 0. */
  function Spans(p: nat, cnt: nat, size: nat): (r: (nat, nat))
    requires p < size && cnt <= size
    ensures r.0 + r.1 == cnt && p + r.0 <= size
    ensures r.1 > 0 ==> p + r.0 == size && r.1 <= p
  {
    var cnt2 := p + cnt;
    if cnt2 > size then
      ModOfMultiple(cnt2 - size, 1, size);
      ModInRange(cnt2 - size, size);
      (size - p, cnt2 % size)
    else
      (cnt, 0)
  }

  /** The physical index reached after copying `cnt` elements from `p`, as
      the copy loops compute it: past the first span, wrapped, and replaced
      by the end of the second span when there is one. */
  function Advance(p: nat, cnt: nat, size: nat): (r: nat)
    requires p < size && cnt <= size
    ensures r < size
    ensures r == (p + cnt) % size
  {
    var (n1, n2) := Spans(p, cnt, size);
    var q := (p + n1) % size;
    if n2 != 0 then
      ModOfMultiple(n2, 1, size);
      ModInRange(n2, size);
      n2
    else
      q
  }

  /** `after` is `before` with `src` laid down from physical index `w`
      onward, wrapping at the end: every index whose forward distance from
      `w` is below `|src|` holds the corresponding element of `src`, every
      other index keeps its old value. */
  ghost predicate LaidDown<T>(before: seq<T>, after: seq<T>, w: int, src: seq<T>)
    requires |before| == |after| > 0
  {
    forall j :: 0 <= j < |after| ==>
      after[j] == if (j - w) % |after| < |src| then src[(j - w) % |after|] else before[j]
  }

  /** The data of `buf` after the write path's two-span copy of `src` to
      physical index `w`. */
  function CopyIn<T>(buf: seq<T>, w: nat, src: seq<T>): (r: seq<T>)
    requires w < |buf| && |src| <= |buf|
    ensures |r| == |buf|
    ensures LaidDown(buf, r, w, src)
  {
    var size := |buf|;
    var (n1, n2) := Spans(w, |src|, size);
    var first := buf[..w] + src[..n1] + buf[w + n1..];
    var r := if n2 != 0 then src[n1..] + first[n2..] else first;
    forall j | 0 <= j < size
      ensures r[j] == if (j - w) % size < |src| then src[(j - w) % size] else buf[j]
    {
      if j >= w {
        ModInRange(j - w, size);
      } else {
        ModOfMultiple(j - w, 1, size);
        ModInRange(j - w + size, size);
      }
    }
    r
  }

  /** The `cnt` elements read out of `buf` from physical index `p`, as the
      two spans of the read path: element `i` comes from index
      `(p + i) % size`. */
  function CopyOut<T>(buf: seq<T>, p: nat, cnt: nat): (r: seq<T>)
    requires p < |buf| && cnt <= |buf|
    ensures |r| == cnt
    ensures forall i :: 0 <= i < cnt ==> r[i] == buf[(p + i) % |buf|]
  {
    var size := |buf|;
    var (n1, n2) := Spans(p, cnt, size);
    var r := buf[p..p + n1] + buf[..n2];
    forall i | 0 <= i < cnt
      ensures r[i] == buf[(p + i) % size]
    {
      if i < n1 {
        ModInRange(p + i, size);
      } else {
        ModOfMultiple(p + i - size, 1, size);
        ModInRange(p + i - size, size);
      }
    }
    r
  }
}
