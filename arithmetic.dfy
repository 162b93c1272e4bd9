/** Facts about products, integer division and remainders that the flat
    vertex and index buffers of the shapes rely on: a buffer holds `n` records
    of `w` entries each, and entry `a` of record `v` sits at `v * w + a`. */
module Arithmetic {

  /** Where entry `a` of record `v` sits in a buffer of records of width `w`. */
  function Slot(v: int, a: int, w: int): int
  {
    v * w + a
  }

  /** An entry of one of the first `n` records lies inside a buffer of `n * w` entries. */
  lemma SlotBound(v: int, a: int, n: int, w: int)
    requires 0 <= v < n && 0 <= a < w
    ensures 0 <= Slot(v, a, w) < n * w
  {
    RecordInBuffer(v, n, w);
  }

  /** An entry of record `vf + c` lies inside the window of records
      [vf, vf + m) when 0 <= c < m. */
  lemma SlotInWindow(vf: int, c: int, m: int, a: int, w: int)
    requires 0 <= c < m && 0 <= a < w
    ensures vf * w <= Slot(vf + c, a, w) < (vf + m) * w
  {
    MulMono(vf, vf + c, w);
    MulMono(vf + c + 1, vf + m, w);
  }

  /** Where record `first + c` starts in a buffer of records of width `w`. */
  function RecordStart(first: int, c: int, w: int): int
  {
    (first + c) * w
  }

  /** Record `first + c` lies inside the window of records [first, first + m),
      and a later record of the window starts after it ends. */
  lemma RecordsWithin(first: int, c: int, m: int, w: int)
    requires 0 <= c < m && w >= 0
    ensures first * w <= RecordStart(first, c, w)
    ensures RecordStart(first, c, w) + w == RecordStart(first, c + 1, w)
    ensures RecordStart(first, c, w) + w <= (first + m) * w
  {
    MulMono(first, first + c, w);
    MulMono(first + c + 1, first + m, w);
  }

  /** Two different records of the same width do not overlap. */
  lemma RecordsApart(first: int, c: int, c': int, w: int)
    requires c < c' && w >= 0
    ensures RecordStart(first, c, w) + w <= RecordStart(first, c', w)
  {
    MulMono(first + c + 1, first + c', w);
  }

  /** Multiplying by a non-negative factor is monotone. */
  lemma MulMono(a: int, b: int, c: int)
    requires a <= b && c >= 0
    ensures a * c <= b * c
  {
    assert b * c - a * c == (b - a) * c;
  }

  /** Euclidean division of `q * p + r` by `p` gives back `q` and `r`. */
  lemma DivModUnique(q: int, p: int, r: int)
    requires p > 0 && 0 <= r < p
    ensures (q * p + r) / p == q
    ensures (q * p + r) % p == r
  {
    var x := q * p + r;
    var d, m := x / p, x % p;
    assert (d - q) * p == r - m;
    if d - q >= 1 {
      MulMono(1, d - q, p);
    } else if d - q <= -1 {
      MulMono(1, q - d, p);
    }
  }

  /** Entry `a` of record `v` lies inside record `v`. */
  lemma SlotInRecord(v: int, a: int, w: int)
    requires 0 <= a < w
    ensures v * w <= v * w + a < (v + 1) * w
  {
  }

  /** Every entry of record `v` comes before every entry of a later record. */
  lemma RecordsOrdered(v: int, a: int, v': int, w: int)
    requires v < v' && 0 <= a < w
    ensures v * w + a < v' * w
  {
    MulMono(v + 1, v', w);
  }

  /** A record of an array of `n` records lies inside it. */
  lemma RecordInBuffer(v: int, n: int, w: int)
    requires 0 <= v < n && w >= 0
    ensures 0 <= v * w && (v + 1) * w <= n * w
  {
    MulMono(0, v, w);
    MulMono(v + 1, n, w);
  }

  /** Two (record, entry) positions are at the same place only if they are
      the same position. */
  lemma SlotInjective(v: int, a: int, v': int, a': int, w: int)
    requires 0 <= a < w && 0 <= a' < w
    requires v * w + a == v' * w + a'
    ensures v == v' && a == a'
  {
    DivModUnique(v, w, a);
    DivModUnique(v', w, a');
  }

  /** The record and entry of a flat position. */
  lemma FlatSlot(j: int, w: int)
    requires w > 0
    ensures j == (j / w) * w + j % w && 0 <= j % w < w
  {
  }

  /** Two record starts that are multiples of `w` and differ are at least `w` apart. */
  lemma AlignedGap(j: int, k: int, w: int)
    requires w > 0 && j % w == 0 && k % w == 0 && j < k
    ensures j + w <= k
  {
    var a, b := j / w, k / w;
    assert j == a * w && k == b * w;
    if a >= b {
      MulMono(b, a, w);
    }
    MulMono(a + 1, b, w);
  }

  /** The position of record `v` in an `n`-record buffer is a multiple of `w`. */
  lemma RecordStartAligned(v: int, w: int)
    requires w > 0
    ensures (v * w) % w == 0 && (v * w) / w == v
  {
    DivModUnique(v, w, 0);
  }

  /** A position below `n * w` belongs to one of the `n` records. */
  lemma RecordOfSlot(j: int, n: int, w: int)
    requires w > 0 && 0 <= j < n * w
    ensures 0 <= j / w < n
  {
    FlatSlot(j, w);
    if j / w >= n {
      MulMono(n, j / w, w);
    }
    if j / w < 0 {
      MulMono(j / w, -1, w);
    }
  }

  /** A record below `n` of a buffer of at least `n` records of width `w`
      lies inside it. */
  lemma RecordFits(v: int, n: int, len: int, w: int)
    requires w > 0 && 0 <= v < n && n <= len / w
    ensures 0 <= v * w && v * w + w <= len
  {
    RecordInBuffer(v, n, w);
    MulMono(n, len / w, w);
    FlatSlot(len, w);
  }
}
