/** Flat buffers of fixed-width records, as the shapes keep their vertices
    (D components each), projected vertices (3 each) and faces (6 indices
    each), and a model of `System.arraycopy` on them. */
module Buffers {
  import opened Arithmetic

  /** Record v of a buffer of records of width w. */
  function Record<T>(s: seq<T>, w: int, v: int): (r: seq<T>)
    requires w > 0 && 0 <= v < |s| / w
    ensures |r| == w
    ensures forall j | 0 <= j < w :: 0 <= Slot(v, j, w) < |s| && r[j] == s[Slot(v, j, w)]
  {
    RecordFits(v, |s| / w, |s|, w);
    s[v * w .. v * w + w]
  }

  /** Vertex records start.. start + |pts| - 1 of the buffer, D components
      each, hold the points pts. */
  ghost predicate Holds<T>(s: seq<T>, D: int, start: int, pts: seq<seq<T>>)
  {
    forall v, j | start <= v < start + |pts| && 0 <= j < D ::
      0 <= Slot(v, j, D) < |s| && j < |pts[v - start]| && s[Slot(v, j, D)] == pts[v - start][j]
  }

  /** Two runs of records written one after the other hold their concatenation. */
  lemma HoldsConcat<T>(s: seq<T>, D: int, start: int, a: seq<seq<T>>, b: seq<seq<T>>)
    requires Holds(s, D, start, a) && Holds(s, D, start + |a|, b)
    ensures Holds(s, D, start, a + b)
  {
    forall v, j | start <= v < start + |a + b| && 0 <= j < D
      ensures 0 <= Slot(v, j, D) < |s| && j < |(a + b)[v - start]| && s[Slot(v, j, D)] == (a + b)[v - start][j]
    {
      if v < start + |a| {
        assert (a + b)[v - start] == a[v - start];
      } else {
        assert (a + b)[v - start] == b[v - (start + |a|)];
      }
    }
  }

  /** A record whose D entries were copied from p holds p. */
  lemma HoldsOne<T>(s: seq<T>, D: int, v: int, p: seq<T>)
    requires D > 0 && |p| == D && 0 <= v && v * D + D <= |s|
    requires forall k | v * D <= k < v * D + D :: s[k] == p[k - v * D]
    ensures Holds(s, D, v, [p])
  {
    forall w, j | v <= w < v + 1 && 0 <= j < D
      ensures 0 <= Slot(w, j, D) < |s| && j < |[p][w - v]| && s[Slot(w, j, D)] == [p][w - v][j]
    {
      assert w == v;
    }
  }

  /** s' agrees with s everywhere outside the entries [lo, hi). */
  ghost predicate Kept<T>(s: seq<T>, s': seq<T>, lo: int, hi: int)
  {
    |s'| == |s| && forall j | 0 <= j < |s| && !(lo <= j < hi) :: s'[j] == s[j]
  }

  /** Two writes to adjacent windows leave everything outside their union alone. */
  lemma KeptCompose<T>(s: seq<T>, s': seq<T>, s'': seq<T>, lo: int, mid: int, hi: int)
    requires lo <= mid <= hi && Kept(s, s', lo, mid) && Kept(s', s'', mid, hi)
    ensures Kept(s, s'', lo, hi)
  {
  }

  /** Records below `lo` keep what they hold while only entries from lo * D on
      change. */
  lemma HoldsKept<T>(s: seq<T>, s': seq<T>, D: int, start: int, pts: seq<seq<T>>, lo: int, hi: int)
    requires Holds(s, D, start, pts) && start + |pts| <= lo && D >= 0
    requires Kept(s, s', lo * D, hi * D)
    ensures Holds(s', D, start, pts)
  {
    forall v, j | start <= v < start + |pts| && 0 <= j < D
      ensures 0 <= Slot(v, j, D) < |s'| && j < |pts[v - start]| && s'[Slot(v, j, D)] == pts[v - start][j]
    {
      RecordsOrdered(v, j, lo, D);
    }
  }

  /** A run of points followed, from the record after it, by more points:
      the buffer then holds the two runs one after the other, `all`. */
  lemma Appended<T>(s: seq<T>, s': seq<T>, D: int, start: int, pts: seq<seq<T>>, more: seq<seq<T>>,
                 all: seq<seq<T>>, hi: int)
    requires Holds(s, D, start, pts) && D >= 0 && all == pts + more
    requires Kept(s, s', (start + |pts|) * D, hi * D)
    requires Holds(s', D, start + |pts|, more)
    ensures Holds(s', D, start, all)
  {
    HoldsKept(s, s', D, start, pts, start + |pts|, hi);
    HoldsConcat(s', D, start, pts, more);
  }

  /** A buffer of exactly |pts| records of D components that holds pts from
      record 0 on is pts laid out flat: every entry is written, with the
      component of the point its position names. */
  lemma BufferIsFlat<T>(s: seq<T>, D: int, pts: seq<seq<T>>)
    requires D > 0 && |s| == |pts| * D && Holds(s, D, 0, pts)
    ensures forall j | 0 <= j < |s| :: 0 <= j / D < |pts| && j % D < |pts[j / D]| && s[j] == pts[j / D][j % D]
  {
    forall j | 0 <= j < |s|
      ensures 0 <= j / D < |pts| && j % D < |pts[j / D]| && s[j] == pts[j / D][j % D]
    {
      FlatSlot(j, D);
      RecordOfSlot(j, |pts|, D);
      assert Slot(j / D, j % D, D) == j;
    }
  }
  /** Records 0.. |pts| - 1 of a buffer hold pts exactly when each of these
      records is the point of the same number. */
  lemma HoldsRecords<T>(s: seq<T>, w: int, pts: seq<seq<T>>)
    requires w > 0 && |pts| <= |s| / w
    requires forall v | 0 <= v < |pts| :: |pts[v]| == w
    ensures Holds(s, w, 0, pts) <==> forall v | 0 <= v < |pts| :: Record(s, w, v) == pts[v]
  {
    if Holds(s, w, 0, pts) {
      forall v | 0 <= v < |pts|
        ensures Record(s, w, v) == pts[v]
      {
        var r := Record(s, w, v);
        assert forall j | 0 <= j < w :: r[j] == pts[v][j];
      }
    }
    if forall v | 0 <= v < |pts| :: Record(s, w, v) == pts[v] {
      forall v, j | 0 <= v < |pts| && 0 <= j < w
        ensures 0 <= Slot(v, j, w) < |s| && j < |pts[v]| && s[Slot(v, j, w)] == pts[v][j]
      {
        assert Record(s, w, v)[j] == s[Slot(v, j, w)];
      }
    }
  }

  /** `System.arraycopy(src, srcPos, dest, destPos, length)`, with the source
      read as it was before the copy (as Java does when source and
      destination are the same array): the window [destPos, destPos + length)
      of dest receives the source entries from srcPos on, and nothing else in
      dest changes. */
  method ArrayCopy<T>(src: seq<T>, srcPos: int, dest: array<T>, destPos: int, length: int)
    requires 0 <= srcPos && 0 <= length && srcPos + length <= |src|
    requires 0 <= destPos && destPos + length <= dest.Length
    modifies dest
    ensures forall k | destPos <= k < destPos + length :: dest[k] == src[srcPos + (k - destPos)]
    ensures Kept(old(dest[..]), dest[..], destPos, destPos + length)
  {
    for j := 0 to length
      invariant forall k | destPos <= k < destPos + j :: dest[k] == src[srcPos + (k - destPos)]
      invariant Kept(old(dest[..]), dest[..], destPos, destPos + j)
    {
      dest[destPos + j] := src[srcPos + j];
    }
  }
}
