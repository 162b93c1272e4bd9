/** Hypercube: the square faces of a D-dimensional cube. A face is fixed by
    its two free axes (the plane of the square) and by a sign, -1 or +1, for
    each of the other D-2 locked axes. The generator steps through the locked
    axes as combinations in lexicographic order and, for each, through the
    signs in binary counting order; each face gets four corners in the vertex
    buffer and two triangles in the index buffer. The vertex components are
    Java floats that only ever hold -1 or +1; they are modelled as `real`. */
module Hypercube {
  import opened Arithmetic
  import opened Utils

  // ---------------------------------------------------------------------
  // Locked-axis tuples and the successor `nextLockedAxes` computes
  // ---------------------------------------------------------------------

  /** A strictly increasing tuple with entry i in [0, i + 2]: the locked axes
      of a face of the (|s| + 2)-cube, in ascending order. */
  predicate IsLockedTuple(s: seq<int>)
  {
    && (forall i | 0 <= i < |s| :: 0 <= s[i] <= i + 2)
    && (forall i, j | 0 <= i < j < |s| :: s[i] < s[j])
  }

  /** The entry `nextLockedAxes` increments: the rightmost one below its
      maximum i + 2, or -1 when every entry is at its maximum. */
  function RightmostIncrementable(s: seq<int>): (r: int)
    ensures -1 <= r < |s|
    ensures r >= 0 ==> s[r] < r + 2
    ensures forall j | r < j < |s| :: s[j] >= j + 2
    decreases |s|
  {
    if |s| == 0 then -1
    else if s[|s| - 1] < |s| + 1 then |s| - 1
    else RightmostIncrementable(s[..|s| - 1])
  }

  /** The tuple after `nextLockedAxes` has incremented entry i and reset
      every entry to its right to the consecutive values above it. */
  function LockedSuccessor(s: seq<int>): seq<int>
    requires RightmostIncrementable(s) >= 0
  {
    var i := RightmostIncrementable(s);
    seq(|s|, j requires 0 <= j < |s| => if j < i then s[j] else s[i] + 1 + (j - i))
  }

  /** `nextLockedAxes`: steps the locked axes to the next combination in
      place and says whether there was one; when there was none the array is
      left as it was. */
  method NextLockedAxes(currentLockedAxes: array<int>) returns (more: bool)
    modifies currentLockedAxes
    ensures more == (RightmostIncrementable(old(currentLockedAxes[..])) >= 0)
    ensures currentLockedAxes[..] ==
      if more then LockedSuccessor(old(currentLockedAxes[..])) else old(currentLockedAxes[..])
  {
    var a := currentLockedAxes;
    var i := a.Length - 1;
    while i >= 0
      invariant -1 <= i < a.Length
      invariant a[..] == old(a[..])
      invariant forall j | i < j < a.Length :: a[j] >= j + 2
      decreases i
    {
      if a[i] < i + 2 {
        a[i] := a[i] + 1;
        for resetI := i + 1 to a.Length
          invariant a[i] == old(a[i]) + 1
          invariant forall j | 0 <= j < i :: a[j] == old(a[j])
          invariant forall j | i < j < resetI :: a[j] == a[i] + j - i
        {
          a[resetI] := a[i] + resetI - i;
        }
        assert RightmostIncrementable(old(a[..])) == i;
        assert a[..] == LockedSuccessor(old(a[..]));
        return true;
      }
      i := i - 1;
    }
    return false;
  }

  /** Entries of a strictly increasing tuple grow by at least one per position. */
  lemma {:induction false} IncreasingGap(c: seq<int>, i: int, j: int)
    requires forall m, m' | 0 <= m < m' < |c| :: c[m] < c[m']
    requires 0 <= i <= j < |c|
    ensures c[j] >= c[i] + (j - i)
    decreases j - i
  {
    if i < j {
      IncreasingGap(c, i, j - 1);
    }
  }

  /** `nextLockedAxes` keeps the tuple a strictly increasing tuple of locked
      axes with entry i at most i + 2. */
  lemma SuccessorIsLockedTuple(s: seq<int>)
    requires IsLockedTuple(s) && RightmostIncrementable(s) >= 0
    ensures IsLockedTuple(LockedSuccessor(s))
    ensures |LockedSuccessor(s)| == |s|
  {
  }

  /** With every entry at its maximum there is no successor: the tuple is
      the last combination [2, 3, ..., |s| + 1]. */
  lemma NoSuccessorIsLast(s: seq<int>)
    requires IsLockedTuple(s)
    ensures RightmostIncrementable(s) == -1 <==> forall j | 0 <= j < |s| :: s[j] == j + 2
  {
  }

  /** a comes before b in lexicographic order, and they first differ at p. */
  predicate LexLessAt(a: seq<int>, b: seq<int>, p: int)
  {
    && |a| == |b| && 0 <= p < |a|
    && (forall m | 0 <= m < p :: a[m] == b[m])
    && a[p] < b[p]
  }

  /** a comes strictly before b in lexicographic order. */
  predicate LexLess(a: seq<int>, b: seq<int>)
  {
    exists p | 0 <= p < |a| :: LexLessAt(a, b, p)
  }

  /** The successor comes after the tuple in lexicographic order. */
  lemma SuccessorIsLater(s: seq<int>)
    requires RightmostIncrementable(s) >= 0
    ensures LexLess(s, LockedSuccessor(s))
  {
    assert LexLessAt(s, LockedSuccessor(s), RightmostIncrementable(s));
  }

  /** The successor is the immediate one: no tuple of locked axes lies
      strictly between a tuple and its successor in lexicographic order. */
  lemma SuccessorIsImmediate(s: seq<int>, c: seq<int>)
    requires IsLockedTuple(s) && RightmostIncrementable(s) >= 0
    requires IsLockedTuple(c) && |c| == |s| && LexLess(s, c)
    ensures !LexLess(c, LockedSuccessor(s))
  {
    var i := RightmostIncrementable(s);
    var t := LockedSuccessor(s);
    var p :| 0 <= p < |s| && LexLessAt(s, c, p);
    assert p <= i;
    forall p' | 0 <= p' < |c|
      ensures !LexLessAt(c, t, p')
    {
      if p' < p {
        assert c[p'] >= t[p'];
      } else if p' == p {
        assert c[p] >= t[p];
      } else if p < i || c[i] != t[i] {
        assert c[if p < i then p else i] != t[if p < i then p else i];
      } else {
        IncreasingGap(c, i, p');
      }
    }
  }

  // ---------------------------------------------------------------------
  // The two free axes of each locked tuple and the order they are visited in
  // ---------------------------------------------------------------------

  /** The two free axes of a face, lo < hi: the plane its square lies in. */
  datatype FreeAxes = FreeAxes(lo: int, hi: int)

  predicate ValidFree(n: int, x: FreeAxes)
  {
    0 <= x.lo < x.hi < n
  }

  /** The free axes of the first locked tuple [0, ..., n-3]. */
  function FirstFree(n: int): FreeAxes
  {
    FreeAxes(n - 2, n - 1)
  }

  /** The free axes of the last locked tuple [2, ..., n-1]. */
  function LastFree(): FreeAxes
  {
    FreeAxes(0, 1)
  }

  /** The free axes of the locked tuple that follows the one missing x. */
  function FollowingFree(n: int, x: FreeAxes): FreeAxes
  {
    if x.hi > x.lo + 1 then FreeAxes(x.lo, x.hi - 1) else FreeAxes(x.lo - 1, n - 1)
  }

  /** The free axes of the locked tuple that precedes the one missing x. */
  function PrecedingFree(n: int, x: FreeAxes): FreeAxes
  {
    if x.hi < n - 1 then FreeAxes(x.lo, x.hi + 1) else FreeAxes(x.lo + 1, x.lo + 2)
  }

  /** The free axes of the locked tuple visited in round p of the outer loop. */
  function FreeAt(n: int, p: nat): FreeAxes
  {
    if p == 0 then FirstFree(n) else FollowingFree(n, FreeAt(n, p - 1))
  }

  /** The number of pairs of axes whose lower axis is above u. */
  function Above(n: int, u: int): (r: int)
    ensures r >= 0
    decreases n - u
  {
    if u >= n - 2 then 0 else (n - 2 - u) + Above(n, u + 1)
  }

  /** The round of the outer loop that visits the free axes x: the number of
      pairs visited before it. */
  function FreeRank(n: int, x: FreeAxes): (r: int)
    ensures x.hi < n ==> r >= 0
  {
    Above(n, x.lo) + (n - 1 - x.hi)
  }

  /** The binomial coefficient by Pascal's rule, in place of the library call
      `CombinatoricsUtils.binomialCoefficient`. */
  function Binomial(n: nat, k: nat): nat
  {
    if k == 0 then 1 else if n == 0 then 0 else Binomial(n - 1, k - 1) + Binomial(n - 1, k)
  }

  /** C(m, 1) == m. */
  lemma {:induction false} BinomialOne(m: nat)
    ensures Binomial(m, 1) == m
  {
    if m > 0 {
      BinomialOne(m - 1);
    }
  }

  /** C(n, 2) is the number of pairs of axes: n (n - 1) / 2. */
  lemma {:induction false} BinomialTwo(n: nat)
    ensures 2 * Binomial(n, 2) == n * (n - 1)
    ensures n >= 1 ==> Binomial(n, 2) == Binomial(n - 1, 2) + (n - 1)
  {
    if n > 0 {
      BinomialOne(n - 1);
      BinomialTwo(n - 1);
    }
  }

  /** Above(n, u) counts the pairs drawn from the n - 1 - u axes above u. */
  lemma {:induction false} AboveIsBinomial(n: int, u: int)
    requires 0 <= u <= n - 2
    ensures Above(n, u) == Binomial(n - 1 - u, 2)
    decreases n - u
  {
    BinomialTwo(n - 1 - u);
    if u < n - 2 {
      AboveIsBinomial(n, u + 1);
    }
  }

  /** Above(n, u) + (n - 1 - u) never exceeds its value at u = 0. */
  lemma {:induction false} AboveBound(n: int, u: int)
    requires 0 <= u <= n - 2
    ensures Above(n, u) + (n - 1 - u) <= Above(n, 0) + (n - 1)
    decreases u
  {
    if u > 0 {
      AboveBound(n, u - 1);
    }
  }

  /** Every valid pair of free axes has a round in [0, C(n, 2)). */
  lemma RankBounds(n: int, x: FreeAxes)
    requires n >= 2 && ValidFree(n, x)
    ensures 0 <= FreeRank(n, x) < Binomial(n, 2)
  {
    AboveIsBinomial(n, x.lo);
    AboveBound(n, x.lo);
    AboveIsBinomial(n, 0);
    BinomialTwo(n);
  }

  /** The first pair is visited in round 0, and the last in round C(n,2) - 1. */
  lemma RankEnds(n: int)
    requires n >= 2
    ensures FreeRank(n, FirstFree(n)) == 0
    ensures FreeRank(n, LastFree()) == Binomial(n, 2) - 1
  {
    AboveIsBinomial(n, 0);
    BinomialTwo(n);
  }

  /** Each step of the enumeration advances the round by exactly one. */
  lemma RankFollowing(n: int, x: FreeAxes)
    requires n >= 2 && ValidFree(n, x) && x != LastFree()
    ensures ValidFree(n, FollowingFree(n, x))
    ensures FreeRank(n, FollowingFree(n, x)) == FreeRank(n, x) + 1
    ensures PrecedingFree(n, FollowingFree(n, x)) == x
  {
  }

  /** Round p of the outer loop visits a valid pair whose round is p. */
  lemma {:induction false} FreeAtRank(n: int, p: nat)
    requires n >= 2 && p < Binomial(n, 2)
    ensures ValidFree(n, FreeAt(n, p))
    ensures FreeRank(n, FreeAt(n, p)) == p
  {
    if p == 0 {
      RankEnds(n);
    } else {
      FreeAtRank(n, p - 1);
      RankEnds(n);
      RankFollowing(n, FreeAt(n, p - 1));
    }
  }

  /** Every valid pair of free axes is visited, in the round its rank says. */
  lemma {:induction false} EveryFreeVisited(n: int, x: FreeAxes)
    requires n >= 2 && ValidFree(n, x)
    ensures FreeAt(n, FreeRank(n, x)) == x
    decreases FreeRank(n, x)
  {
    RankBounds(n, x);
    if x == FirstFree(n) {
      RankEnds(n);
    } else {
      var y := PrecedingFree(n, x);
      if x.hi < n - 1 {
        assert y == FreeAxes(x.lo, x.hi + 1);
      } else {
        assert x.lo < n - 2;
      }
      RankFollowing(n, y);
      assert FollowingFree(n, y) == x;
      RankBounds(n, y);
      EveryFreeVisited(n, y);
    }
  }

  /** The outer loop visits each pair of free axes exactly once: round p
      reaches the last pair exactly when p == C(n, 2) - 1, and two different
      rounds visit different pairs. */
  lemma OuterLoopRounds(n: int, p: nat, p': nat)
    requires n >= 2 && p < Binomial(n, 2) && p' < Binomial(n, 2)
    ensures FreeAt(n, p) == LastFree() <==> p == Binomial(n, 2) - 1
    ensures p != p' ==> FreeAt(n, p) != FreeAt(n, p')
  {
    FreeAtRank(n, p);
    FreeAtRank(n, p');
    RankEnds(n);
    if p == Binomial(n, 2) - 1 {
      assert ValidFree(n, FreeAt(n, p));
      if FreeAt(n, p) != LastFree() {
        var x := FreeAt(n, p);
        RankFollowing(n, x);
        RankBounds(n, FollowingFree(n, x));
      }
    }
  }

  /** The locked axes of a face with free axes x: every axis in [0, n) but
      x.lo and x.hi, in ascending order. */
  function Complement(n: int, x: FreeAxes): (s: seq<int>)
    requires 2 <= n
    ensures |s| == n - 2
  {
    seq(n - 2, j => if j < x.lo then j else if j < x.hi - 1 then j + 1 else j + 2)
  }

  /** Where axis ax sits among the locked axes of a face with free axes x. */
  function LockedPos(x: FreeAxes, ax: int): int
  {
    if ax < x.lo then ax else if ax < x.hi then ax - 1 else ax - 2
  }

  /** The complement of a valid pair is a tuple of locked axes that holds
      every axis but the two free ones, each at its `LockedPos`. */
  lemma ComplementFacts(n: int, x: FreeAxes)
    requires n >= 2 && ValidFree(n, x)
    ensures IsLockedTuple(Complement(n, x))
    ensures forall j | 0 <= j < n - 2 :: 0 <= Complement(n, x)[j] < n
    ensures x.lo !in Complement(n, x) && x.hi !in Complement(n, x)
    ensures forall ax | 0 <= ax < n && ax != x.lo && ax != x.hi ::
      0 <= LockedPos(x, ax) < n - 2 && Complement(n, x)[LockedPos(x, ax)] == ax
  {
  }

  /** The first locked tuple [0, ..., n-3] is the complement of the first pair. */
  lemma FirstComplement(n: int)
    requires n >= 2
    ensures Complement(n, FirstFree(n)) == seq(n - 2, j => j)
  {
  }

  /** `nextLockedAxes` on the complement of x gives the complement of the
      next pair, and reports no successor exactly at the last pair. */
  lemma SuccessorOfComplement(n: int, x: FreeAxes)
    requires n >= 2 && ValidFree(n, x)
    ensures RightmostIncrementable(Complement(n, x)) >= 0 <==> x != LastFree()
    ensures x != LastFree() ==>
      LockedSuccessor(Complement(n, x)) == Complement(n, FollowingFree(n, x))
  {
    var s := Complement(n, x);
    var r := RightmostIncrementable(s);
    if x == LastFree() {
      assert forall j | 0 <= j < n - 2 :: s[j] == j + 2;
      assert r == -1;
    } else {
      assert x.hi >= 2;
      assert s[x.hi - 2] < x.hi;
      assert r == x.hi - 2;
      var t := LockedSuccessor(s);
      var u := Complement(n, FollowingFree(n, x));
      assert forall j | 0 <= j < n - 2 :: t[j] == u[j];
    }
  }

  // ---------------------------------------------------------------------
  // Signs of the locked axes and the increment `nextLockedAxesValues` does
  // ---------------------------------------------------------------------

  /** Every entry is -1 or +1. */
  predicate IsSigns(s: seq<real>)
  {
    forall i | 0 <= i < |s| :: s[i] == -1.0 || s[i] == 1.0
  }

  /** The number the signs spell in binary, reading -1 as 0, +1 as 1 and
      entry 0 as the least significant bit. */
  function SignsValue(s: seq<real>): int
  {
    if |s| == 0 then 0 else (if s[0] == 1.0 then 1 else 0) + 2 * SignsValue(s[1..])
  }

  /** The n signs that spell q in binary. */
  function SignsOf(q: int, n: nat): (s: seq<real>)
    ensures |s| == n
    decreases n
  {
    if n == 0 then [] else [if q % 2 == 1 then 1.0 else -1.0] + SignsOf(q / 2, n - 1)
  }

  /** The entry `nextLockedAxesValues` sets to +1: the first -1, or |s|
      when there is none. */
  function FirstMinusOne(s: seq<real>): (i: nat)
    ensures i <= |s|
    ensures forall j | 0 <= j < i :: s[j] != -1.0
    ensures i < |s| ==> s[i] == -1.0
  {
    if |s| == 0 then 0 else if s[0] == -1.0 then 0 else 1 + FirstMinusOne(s[1..])
  }

  /** The signs after `nextLockedAxesValues`: the first -1 becomes +1 and
      every entry below it becomes -1. */
  function IncrementedSigns(s: seq<real>): seq<real>
    requires FirstMinusOne(s) < |s|
  {
    var i := FirstMinusOne(s);
    seq(|s|, j requires 0 <= j < |s| => if j < i then -1.0 else if j == i then 1.0 else s[j])
  }

  /** `nextLockedAxesValues`: steps the signs to the next combination in
      binary counting order in place and says whether there was one; when
      there was none the array is left as it was. */
  method NextLockedAxesValues(currentLockedAxesValues: array<real>) returns (more: bool)
    modifies currentLockedAxesValues
    ensures more == (FirstMinusOne(old(currentLockedAxesValues[..])) < currentLockedAxesValues.Length)
    ensures currentLockedAxesValues[..] ==
      if more then IncrementedSigns(old(currentLockedAxesValues[..])) else old(currentLockedAxesValues[..])
  {
    var a := currentLockedAxesValues;
    for i := 0 to a.Length
      invariant a[..] == old(a[..])
      invariant forall j | 0 <= j < i :: a[j] != -1.0
    {
      if a[i] == -1.0 {
        a[i] := 1.0;
        var wipeI := i - 1;
        while wipeI >= 0
          invariant -1 <= wipeI < i
          invariant a[i] == 1.0
          invariant forall j | wipeI < j < i :: a[j] == -1.0
          invariant forall j | 0 <= j <= wipeI :: a[j] == old(a[j])
          invariant forall j | i < j < a.Length :: a[j] == old(a[j])
          decreases wipeI
        {
          a[wipeI] := -1.0;
          wipeI := wipeI - 1;
        }
        assert FirstMinusOne(old(a[..])) == i;
        assert a[..] == IncrementedSigns(old(a[..]));
        return true;
      }
    }
    return false;
  }

  /** The value of n signs lies in [0, 2^n). */
  lemma {:induction false} SignsValueBounds(s: seq<real>)
    ensures 0 <= SignsValue(s) < Pow(2, |s|)
  {
    if |s| > 0 {
      SignsValueBounds(s[1..]);
    }
  }

  /** A `true` return of `nextLockedAxesValues` is a binary increment by one,
      and the entries stay -1 or +1. */
  lemma {:induction false} IncrementAddsOne(s: seq<real>)
    requires IsSigns(s) && FirstMinusOne(s) < |s|
    ensures IsSigns(IncrementedSigns(s))
    ensures SignsValue(IncrementedSigns(s)) == SignsValue(s) + 1
  {
    var t := IncrementedSigns(s);
    if s[0] == -1.0 {
      assert t[1..] == s[1..];
    } else {
      IncrementAddsOne(s[1..]);
      assert t[1..] == IncrementedSigns(s[1..]);
    }
  }

  /** `nextLockedAxesValues` reports no successor exactly when every sign is
      +1, which is exactly when the signs spell 2^n - 1. */
  lemma {:induction false} NoIncrementIsAllPlus(s: seq<real>)
    requires IsSigns(s)
    ensures FirstMinusOne(s) == |s| <==> forall j | 0 <= j < |s| :: s[j] == 1.0
    ensures FirstMinusOne(s) == |s| <==> SignsValue(s) == Pow(2, |s|) - 1
  {
    if |s| > 0 {
      NoIncrementIsAllPlus(s[1..]);
      SignsValueBounds(s[1..]);
      assert forall j | 1 <= j < |s| :: s[j] == s[1..][j - 1];
    }
  }

  /** Spelling a number in signs and reading it back gives the number. */
  lemma {:induction false} SignsOfRoundTrip(q: int, n: nat)
    requires 0 <= q < Pow(2, n)
    ensures IsSigns(SignsOf(q, n))
    ensures SignsValue(SignsOf(q, n)) == q
  {
    if n > 0 {
      assert SignsOf(q, n)[1..] == SignsOf(q / 2, n - 1);
      SignsOfRoundTrip(q / 2, n - 1);
    }
  }

  /** Reading signs as a number and spelling it back gives the signs. */
  lemma {:induction false} SignsValueRoundTrip(s: seq<real>)
    requires IsSigns(s)
    ensures SignsOf(SignsValue(s), |s|) == s
  {
    if |s| > 0 {
      SignsValueRoundTrip(s[1..]);
      var v := SignsValue(s);
      var b := if s[0] == 1.0 then 1 else 0;
      DivModUnique(SignsValue(s[1..]), 2, b);
      assert v / 2 == SignsValue(s[1..]) && v % 2 == b;
    }
  }

  /** All -1 spells 0, the start of each inner loop. */
  lemma {:induction false} AllMinusIsZero(n: nat)
    ensures SignsOf(0, n) == seq(n, j => -1.0)
  {
    if n > 0 {
      AllMinusIsZero(n - 1);
    }
  }

  /** Inner-loop step: `nextLockedAxesValues` on the signs of q has a
      successor exactly when q + 1 < 2^n, and then gives the signs of q + 1. */
  lemma SignsStep(q: int, n: nat)
    requires 0 <= q < Pow(2, n)
    ensures FirstMinusOne(SignsOf(q, n)) < n <==> q + 1 < Pow(2, n)
    ensures q + 1 < Pow(2, n) ==> IncrementedSigns(SignsOf(q, n)) == SignsOf(q + 1, n)
  {
    var s := SignsOf(q, n);
    SignsOfRoundTrip(q, n);
    NoIncrementIsAllPlus(s);
    if FirstMinusOne(s) < n {
      IncrementAddsOne(s);
      SignsValueRoundTrip(IncrementedSigns(s));
    }
  }

  // ---------------------------------------------------------------------
  // The faces of the cube and the buffers that hold them
  // ---------------------------------------------------------------------

  /** The number of square faces: C(D, 2) · 2^(D-2). */
  function FaceCount(D: int): int
    requires D >= 2
  {
    Binomial(D, 2) * Pow(2, D - 2)
  }

  /** Sign of the lower free axis at corner c: the corners run
      (-1,-1), (-1,+1), (+1,+1), (+1,-1). */
  function LoSign(c: int): real
  {
    if c == 0 || c == 1 then -1.0 else 1.0
  }

  /** Sign of the higher free axis at corner c. */
  function HiSign(c: int): real
  {
    if c == 1 || c == 2 then 1.0 else -1.0
  }

  /** Corner of the face used by entry k of its index group: triangles
      (0, 1, 3) and (1, 2, 3). */
  function QuadCorner(k: int): int
  {
    if k == 0 then 0 else if k == 1 || k == 3 then 1 else if k == 2 || k == 5 then 3 else 2
  }

  /** Entry k of face f's index group: 4f + [0, 1, 3, 1, 2, 3][k]. */
  function CubeIndex(f: int, k: int): int
  {
    4 * f + QuadCorner(k)
  }

  /** Component ax of corner c of the face emitted in round p of the outer
      loop with sign combination q: the free axes follow the corner order,
      the locked axes take the signs of q. */
  function Corner(D: int, p: int, q: int, c: int, ax: int): real
    requires D >= 2 && 0 <= p < Binomial(D, 2) && 0 <= ax < D
  {
    FreeAtRank(D, p);
    CornerOf(D, FreeAt(D, p), SignsOf(q, D - 2), c, ax)
  }

  /** Component ax of corner c of a face with free axes x whose locked axes
      take the signs `signs`. */
  function CornerOf(D: int, x: FreeAxes, signs: seq<real>, c: int, ax: int): real
    requires ValidFree(D, x) && |signs| == D - 2 && 0 <= ax < D
  {
    if ax == x.lo then LoSign(c)
    else if ax == x.hi then HiSign(c)
    else signs[LockedPos(x, ax)]
  }

  /** Vertex v is corner v % 4 of face v / 4, and face f is sign combination
      f % 2^(D-2) of the round f / 2^(D-2). */
  lemma VertexFace(D: int, v: int)
    requires D >= 2 && 0 <= v < 4 * FaceCount(D)
    ensures Pow(2, D - 2) >= 1
    ensures 0 <= v / 4 < FaceCount(D)
    ensures 0 <= (v / 4) / Pow(2, D - 2) < Binomial(D, 2)
    ensures 0 <= (v / 4) % Pow(2, D - 2) < Pow(2, D - 2)
  {
    PowPositive(2, D - 2);
    RecordOfSlot(v, FaceCount(D), 4);
    RecordOfSlot(v / 4, Binomial(D, 2), Pow(2, D - 2));
  }

  /** Component ax of vertex v as the generator writes it. */
  function CubeVertex(D: int, v: int, ax: int): real
    requires D >= 2 && 0 <= v < 4 * FaceCount(D) && 0 <= ax < D
  {
    VertexFace(D, v);
    var P := Pow(2, D - 2);
    Corner(D, (v / 4) / P, (v / 4) % P, v % 4, ax)
  }

  /** Corner c of the face emitted for round p and sign combination q is
      vertex 4 (p 2^(D-2) + q) + c of the cube. */
  lemma FaceCornerIsCubeVertex(D: int, p: int, q: int, c: int, ax: int)
    requires D >= 2 && 0 <= p < Binomial(D, 2) && 0 <= q < Pow(2, D - 2)
    requires 0 <= c < 4 && 0 <= ax < D
    ensures 0 <= p * Pow(2, D - 2) + q < FaceCount(D)
    ensures CubeVertex(D, 4 * (p * Pow(2, D - 2) + q) + c, ax) == Corner(D, p, q, c, ax)
  {
    var P := Pow(2, D - 2);
    DivModUnique(p, P, q);
    MulMono(p + 1, Binomial(D, 2), P);
    var f := p * P + q;
    DivModUnique(f, 4, c);
    assert 4 * f + c == f * 4 + c;
  }

  /** Every component of every vertex is -1 or +1. */
  lemma CubeVertexIsSign(D: int, v: int, ax: int)
    requires D >= 2 && 0 <= v < 4 * FaceCount(D) && 0 <= ax < D
    ensures CubeVertex(D, v, ax) == -1.0 || CubeVertex(D, v, ax) == 1.0
  {
    VertexFace(D, v);
    var P := Pow(2, D - 2);
    SignsOfRoundTrip((v / 4) % P, D - 2);
    FreeAtRank(D, (v / 4) / P);
    ComplementFacts(D, FreeAt(D, (v / 4) / P));
  }

  /** The axes on which vertices v and w differ. */
  function DifferingAxes(D: int, v: int, w: int): set<int>
    requires D >= 2 && 0 <= v < 4 * FaceCount(D) && 0 <= w < 4 * FaceCount(D)
  {
    set ax | 0 <= ax < D && CubeVertex(D, v, ax) != CubeVertex(D, w, ax)
  }

  /** Going one corner further round the square flips exactly one free
      axis: the higher one from an even corner, the lower one from an odd. */
  lemma CornerStep(D: int, p: int, q: int, c: int, ax: int)
    requires D >= 2 && 0 <= p < Binomial(D, 2) && 0 <= c < 4 && 0 <= ax < D
    ensures
      var x := FreeAt(D, p);
      Corner(D, p, q, c, ax) != Corner(D, p, q, (c + 1) % 4, ax) <==>
        ax == (if c % 2 == 0 then x.hi else x.lo)
  {
    FreeAtRank(D, p);
  }

  /** Consecutive corners of a face (cyclically) differ in exactly one
      coordinate, a free axis: the four corners go round the square. */
  lemma ConsecutiveCornersShareAnEdge(D: int, f: int, c: int)
    requires D >= 2 && 0 <= f < FaceCount(D) && 0 <= c < 4
    ensures Pow(2, D - 2) >= 1
    ensures
      var x := FreeAt(D, f / Pow(2, D - 2));
      DifferingAxes(D, 4 * f + c, 4 * f + (c + 1) % 4) == {if c % 2 == 0 then x.hi else x.lo}
    ensures |DifferingAxes(D, 4 * f + c, 4 * f + (c + 1) % 4)| == 1
  {
    var P := Pow(2, D - 2);
    PowPositive(2, D - 2);
    var p, q := f / P, f % P;
    assert 0 <= p < Binomial(D, 2) && 0 <= q < P && f == p * P + q by {
      RecordOfSlot(f, Binomial(D, 2), P);
      FlatSlot(f, P);
    }
    FaceEdge(D, p, q, f, c);
  }

  /** `ConsecutiveCornersShareAnEdge` for the face of round p and sign
      combination q. */
  lemma FaceEdge(D: int, p: int, q: int, f: int, c: int)
    requires D >= 2 && 0 <= p < Binomial(D, 2) && 0 <= q < Pow(2, D - 2)
    requires f == p * Pow(2, D - 2) + q && 0 <= f < FaceCount(D) && 0 <= c < 4
    ensures DifferingAxes(D, 4 * f + c, 4 * f + (c + 1) % 4) ==
              {if c % 2 == 0 then FreeAt(D, p).hi else FreeAt(D, p).lo}
  {
    var x := FreeAt(D, p);
    var axis := if c % 2 == 0 then x.hi else x.lo;
    FreeAtRank(D, p);
    var v, w := 4 * f + c, 4 * f + (c + 1) % 4;
    forall ax | 0 <= ax < D
      ensures CubeVertex(D, v, ax) != CubeVertex(D, w, ax) <==> ax == axis
    {
      VertexStep(D, p, q, f, c, ax);
    }
  }

  /** `CornerStep` for the vertex numbers of face f, the face of round p
      and sign combination q. */
  lemma VertexStep(D: int, p: int, q: int, f: int, c: int, ax: int)
    requires D >= 2 && 0 <= p < Binomial(D, 2) && 0 <= q < Pow(2, D - 2)
    requires f == p * Pow(2, D - 2) + q && 0 <= f < FaceCount(D)
    requires 0 <= c < 4 && 0 <= ax < D
    ensures CubeVertex(D, 4 * f + c, ax) != CubeVertex(D, 4 * f + (c + 1) % 4, ax) <==>
              ax == (if c % 2 == 0 then FreeAt(D, p).hi else FreeAt(D, p).lo)
  {
    FaceCornerIsCubeVertex(D, p, q, c, ax);
    FaceCornerIsCubeVertex(D, p, q, (c + 1) % 4, ax);
    CornerStep(D, p, q, c, ax);
  }

  /** The face emitted in round p with sign combination q, as a pair. */
  function FaceOf(D: int, f: int): (FreeAxes, seq<real>)
    requires D >= 2 && 0 <= f < FaceCount(D)
  {
    PowPositive(2, D - 2);
    (FreeAt(D, f / Pow(2, D - 2)), SignsOf(f % Pow(2, D - 2), D - 2))
  }

  /** Every face of the cube, given by its free axes and the signs of its
      locked axes, is emitted: as face FreeRank(x) 2^(D-2) + SignsValue(s). */
  lemma EveryFaceEmitted(D: int, x: FreeAxes, s: seq<real>)
    requires D >= 2 && ValidFree(D, x) && IsSigns(s) && |s| == D - 2
    ensures 0 <= FreeRank(D, x) * Pow(2, D - 2) + SignsValue(s) < FaceCount(D)
    ensures FaceOf(D, FreeRank(D, x) * Pow(2, D - 2) + SignsValue(s)) == (x, s)
  {
    var P := Pow(2, D - 2);
    PowPositive(2, D - 2);
    RankBounds(D, x);
    SignsValueBounds(s);
    var p, q := FreeRank(D, x), SignsValue(s);
    var f := p * P + q;
    assert 0 <= f < FaceCount(D) by {
      MulMono(p + 1, Binomial(D, 2), P);
      MulMono(0, p, P);
      assert (p + 1) * P == p * P + P;
    }
    assert f / P == p && f % P == q by {
      DivModUnique(p, P, q);
    }
    assert FreeAt(D, p) == x by {
      EveryFreeVisited(D, x);
    }
    assert SignsOf(q, D - 2) == s by {
      SignsValueRoundTrip(s);
    }
  }

  /** No face is emitted twice: the face number is determined by the face. */
  lemma EveryFaceOnce(D: int, f: int, f': int)
    requires D >= 2 && 0 <= f < FaceCount(D) && 0 <= f' < FaceCount(D)
    requires FaceOf(D, f) == FaceOf(D, f')
    ensures f == f'
  {
    var P := Pow(2, D - 2);
    PowPositive(2, D - 2);
    FlatSlot(f, P);
    FlatSlot(f', P);
    RecordOfSlot(f, Binomial(D, 2), P);
    RecordOfSlot(f', Binomial(D, 2), P);
    FreeAtRank(D, f / P);
    FreeAtRank(D, f' / P);
    SignsOfRoundTrip(f % P, D - 2);
    SignsOfRoundTrip(f' % P, D - 2);
  }

  /** The first `upTo` vertices of the buffer hold the vertices of the cube. */
  ghost predicate VerticesDone(s: seq<real>, D: int, upTo: int)
    requires D >= 2 && |s| == 4 * FaceCount(D) * D && 0 <= upTo <= 4 * FaceCount(D)
  {
    forall v, ax | 0 <= v < upTo && 0 <= ax < D ::
      (SlotBound(v, ax, 4 * FaceCount(D), D);
       s[Slot(v, ax, D)] == CubeVertex(D, v, ax))
  }

  /** The index groups of the first `upTo` faces are in the buffer. */
  ghost predicate IndicesDone(s: seq<int>, D: int, upTo: int)
    requires D >= 2 && |s| == 6 * FaceCount(D) && 0 <= upTo <= FaceCount(D)
  {
    forall f, k | 0 <= f < upTo && 0 <= k < 6 ::
      (SlotBound(f, k, FaceCount(D), 6);
       s[Slot(f, k, 6)] == CubeIndex(f, k))
  }

  /** The vertex record starting at `start` holds the sign values[l] at
      component locked[l], for every locked axis. */
  predicate LockedWritten(s: seq<real>, start: int, locked: seq<int>, values: seq<real>)
  {
    forall l | 0 <= l < |locked| && l < |values| ::
      0 <= start + locked[l] < |s| && s[start + locked[l]] == values[l]
  }

  /** The vertex record starting at `start` is corner c of the face whose
      locked axes take `values` and whose free axes are lo and hi. */
  predicate CornerWritten(s: seq<real>, start: int, locked: seq<int>, values: seq<real>,
                          lo: int, hi: int, c: int)
  {
    && LockedWritten(s, start, locked, values)
    && 0 <= start + lo < |s| && s[start + lo] == LoSign(c)
    && 0 <= start + hi < |s| && s[start + hi] == HiSign(c)
  }

  /** The two free-axis writes of corner c into the record starting at `start`. */
  function WriteFree(s: seq<real>, start: int, lo: int, hi: int, c: int): seq<real>
  {
    if 0 <= start + lo < |s| && 0 <= start + hi < |s|
    then s[start + lo := LoSign(c)][start + hi := HiSign(c)]
    else s
  }

  /** The free-axis writes of one corner stay inside its record. */
  lemma WriteFreeFrame(s: seq<real>, start: int, D: int, lo: int, hi: int, c: int)
    requires 0 <= lo < D && 0 <= hi < D
    ensures |WriteFree(s, start, lo, hi, c)| == |s|
    ensures forall j | 0 <= j < |s| && !(start <= j < start + D) :: WriteFree(s, start, lo, hi, c)[j] == s[j]
  {
  }

  /** Writing the free axes of corner c into a record whose locked axes are
      written completes that record as corner c. */
  lemma CornerCompleted(s: seq<real>, start: int, D: int, locked: seq<int>, values: seq<real>,
                        lo: int, hi: int, c: int)
    requires 0 <= start && start + D <= |s| && 0 <= lo < hi < D && |locked| == |values|
    requires forall l | 0 <= l < |locked| :: 0 <= locked[l] < D && locked[l] != lo && locked[l] != hi
    requires LockedWritten(s, start, locked, values)
    ensures CornerWritten(WriteFree(s, start, lo, hi, c), start, locked, values, lo, hi, c)
  {
    assert WriteFree(s, start, lo, hi, c) == s[start + lo := LoSign(c)][start + hi := HiSign(c)];
  }

  /** A record the writes leave alone keeps what it held. */
  lemma RecordUntouched(s: seq<real>, s': seq<real>, start: int, D: int, locked: seq<int>, values: seq<real>,
                        lo: int, hi: int, c: int)
    requires |s'| == |s| && 0 <= start && start + D <= |s| && 0 <= lo < D && 0 <= hi < D
    requires forall l | 0 <= l < |locked| :: 0 <= locked[l] < D
    requires forall j | start <= j < start + D :: s'[j] == s[j]
    ensures LockedWritten(s, start, locked, values) ==> LockedWritten(s', start, locked, values)
    ensures CornerWritten(s, start, locked, values, lo, hi, c) ==> CornerWritten(s', start, locked, values, lo, hi, c)
  {
  }

  /** One of the four free-axis writes of a face, seen from corner c: the
      write of corner c completes it, and a write of another corner leaves
      it as it was. */
  lemma WriteStep(s: seq<real>, vf: int, D: int, j: int, c: int, locked: seq<int>, values: seq<real>,
                  lo: int, hi: int)
    requires D >= 2 && 0 <= vf && (vf + 4) * D <= |s| && 0 <= j < 4 && 0 <= c < 4
    requires 0 <= lo < hi < D && |locked| == |values|
    requires forall l | 0 <= l < |locked| :: 0 <= locked[l] < D && locked[l] != lo && locked[l] != hi
    ensures
      var s' := WriteFree(s, RecordStart(vf, j, D), lo, hi, j);
      var start := RecordStart(vf, c, D);
      && |s'| == |s|
      && (j == c && LockedWritten(s, start, locked, values) ==> CornerWritten(s', start, locked, values, lo, hi, c))
      && (j != c && LockedWritten(s, start, locked, values) ==> LockedWritten(s', start, locked, values))
      && (j != c && CornerWritten(s, start, locked, values, lo, hi, c) ==>
            CornerWritten(s', start, locked, values, lo, hi, c))
  {
    RecordsWithin(vf, j, 4, D);
    RecordsWithin(vf, c, 4, D);
    WriteFreeFrame(s, RecordStart(vf, j, D), D, lo, hi, j);
    if j == c {
      if LockedWritten(s, RecordStart(vf, c, D), locked, values) {
        CornerCompleted(s, RecordStart(vf, c, D), D, locked, values, lo, hi, c);
      }
    } else {
      if c < j {
        RecordsApart(vf, c, j, D);
      } else {
        RecordsApart(vf, j, c, D);
      }
      RecordUntouched(s, WriteFree(s, RecordStart(vf, j, D), lo, hi, j), RecordStart(vf, c, D), D,
                      locked, values, lo, hi, c);
    }
  }

  /** Corner c of a face whose locked axes are written is complete after all
      eight free-axis writes. */
  lemma CornerThroughWrites(s: seq<real>, vf: int, D: int, c: int, locked: seq<int>, values: seq<real>,
                            lo: int, hi: int)
    requires D >= 2 && 0 <= vf && (vf + 4) * D <= |s| && 0 <= c < 4
    requires 0 <= lo < hi < D && |locked| == |values|
    requires forall l | 0 <= l < |locked| :: 0 <= locked[l] < D && locked[l] != lo && locked[l] != hi
    requires LockedWritten(s, RecordStart(vf, c, D), locked, values)
    ensures CornerWritten(AllFreeWritten(s, vf, D, lo, hi), RecordStart(vf, c, D), locked, values, lo, hi, c)
  {
    var s1 := WriteFree(s, RecordStart(vf, 0, D), lo, hi, 0);
    var s2 := WriteFree(s1, RecordStart(vf, 1, D), lo, hi, 1);
    var s3 := WriteFree(s2, RecordStart(vf, 2, D), lo, hi, 2);
    WriteStep(s, vf, D, 0, c, locked, values, lo, hi);
    WriteStep(s1, vf, D, 1, c, locked, values, lo, hi);
    WriteStep(s2, vf, D, 2, c, locked, values, lo, hi);
    WriteStep(s3, vf, D, 3, c, locked, values, lo, hi);
  }

  /** The eight free-axis writes of a face whose first vertex is vf. */
  function AllFreeWritten(s: seq<real>, vf: int, D: int, lo: int, hi: int): seq<real>
  {
    var s1 := WriteFree(s, RecordStart(vf, 0, D), lo, hi, 0);
    var s2 := WriteFree(s1, RecordStart(vf, 1, D), lo, hi, 1);
    var s3 := WriteFree(s2, RecordStart(vf, 2, D), lo, hi, 2);
    WriteFree(s3, RecordStart(vf, 3, D), lo, hi, 3)
  }

  /** Once the locked axes of all four corners are written, the eight
      free-axis writes complete the face. */
  lemma FreeWrites(s: seq<real>, vf: int, D: int, locked: seq<int>, values: seq<real>,
                   lo: int, hi: int)
    requires D >= 2 && 0 <= vf && (vf + 4) * D <= |s|
    requires 0 <= lo < hi < D && |locked| == |values|
    requires forall l | 0 <= l < |locked| :: 0 <= locked[l] < D && locked[l] != lo && locked[l] != hi
    requires forall c | 0 <= c < 4 :: LockedWritten(s, RecordStart(vf, c, D), locked, values)
    ensures forall c | 0 <= c < 4 ::
      CornerWritten(AllFreeWritten(s, vf, D, lo, hi), RecordStart(vf, c, D), locked, values, lo, hi, c)
    ensures |AllFreeWritten(s, vf, D, lo, hi)| == |s|
    ensures forall j | 0 <= j < |s| && !(vf * D <= j < (vf + 4) * D) :: AllFreeWritten(s, vf, D, lo, hi)[j] == s[j]
  {
    FreeCorners(s, vf, D, locked, values, lo, hi);
    FreeFrame(s, vf, D, lo, hi);
  }

  /** The four corners of the face are complete after their free-axis writes. */
  lemma FreeCorners(s: seq<real>, vf: int, D: int, locked: seq<int>, values: seq<real>,
                    lo: int, hi: int)
    requires D >= 2 && 0 <= vf && (vf + 4) * D <= |s|
    requires 0 <= lo < hi < D && |locked| == |values|
    requires forall l | 0 <= l < |locked| :: 0 <= locked[l] < D && locked[l] != lo && locked[l] != hi
    requires forall c | 0 <= c < 4 :: LockedWritten(s, RecordStart(vf, c, D), locked, values)
    ensures forall c | 0 <= c < 4 ::
      CornerWritten(AllFreeWritten(s, vf, D, lo, hi), RecordStart(vf, c, D), locked, values, lo, hi, c)
  {
    forall c | 0 <= c < 4
      ensures CornerWritten(AllFreeWritten(s, vf, D, lo, hi), RecordStart(vf, c, D), locked, values, lo, hi, c)
    {
      CornerThroughWrites(s, vf, D, c, locked, values, lo, hi);
    }
  }

  /** The free-axis writes of a face stay inside its four records. */
  lemma FreeFrame(s: seq<real>, vf: int, D: int, lo: int, hi: int)
    requires D >= 2 && 0 <= vf && 0 <= lo < hi < D
    ensures |AllFreeWritten(s, vf, D, lo, hi)| == |s|
    ensures forall j | 0 <= j < |s| && !(vf * D <= j < (vf + 4) * D) :: AllFreeWritten(s, vf, D, lo, hi)[j] == s[j]
  {
    var s1 := WriteFree(s, RecordStart(vf, 0, D), lo, hi, 0);
    var s2 := WriteFree(s1, RecordStart(vf, 1, D), lo, hi, 1);
    var s3 := WriteFree(s2, RecordStart(vf, 2, D), lo, hi, 2);
    RecordsWithin(vf, 0, 4, D);
    RecordsWithin(vf, 1, 4, D);
    RecordsWithin(vf, 2, 4, D);
    RecordsWithin(vf, 3, 4, D);
    WriteFreeFrame(s, RecordStart(vf, 0, D), D, lo, hi, 0);
    WriteFreeFrame(s1, RecordStart(vf, 1, D), D, lo, hi, 1);
    WriteFreeFrame(s2, RecordStart(vf, 2, D), D, lo, hi, 2);
    WriteFreeFrame(s3, RecordStart(vf, 3, D), D, lo, hi, 3);
  }

  /** The inner `for lockedAxesI` loop: writes the signs of the locked axes
      into the vertex record starting at `vertStart`. Nothing else changes. */
  method FillLockedAxes(mVertices: array<real>, vertStart: int, D: int,
                        lockedAxes: array<int>, lockedAxesValues: array<real>)
    requires mVertices != lockedAxesValues
    requires lockedAxes.Length == lockedAxesValues.Length
    requires forall l | 0 <= l < lockedAxes.Length :: 0 <= lockedAxes[l] < D
    requires forall l, l' | 0 <= l < l' < lockedAxes.Length :: lockedAxes[l] != lockedAxes[l']
    requires 0 <= vertStart && vertStart + D <= mVertices.Length
    modifies mVertices
    ensures LockedWritten(mVertices[..], vertStart, lockedAxes[..], lockedAxesValues[..])
    ensures forall j | 0 <= j < mVertices.Length && !(vertStart <= j < vertStart + D) ::
      mVertices[j] == old(mVertices[j])
  {
    for lockedAxesI := 0 to lockedAxes.Length
      invariant forall l | 0 <= l < lockedAxesI :: mVertices[vertStart + lockedAxes[l]] == lockedAxesValues[l]
      invariant forall j | 0 <= j < mVertices.Length && !(vertStart <= j < vertStart + D) ::
        mVertices[j] == old(mVertices[j])
    {
      mVertices[vertStart + lockedAxes[lockedAxesI]] := lockedAxesValues[lockedAxesI];
    }
  }

  /** The `for vertexI` loop: writes the signs of the locked axes into each
      of the four vertex records of the face whose first vertex is vf.
      Nothing outside those records changes. */
  method FillLockedCorners(mVertices: array<real>, D: int,
                           lockedAxes: array<int>, lockedAxesValues: array<real>, vf: int)
    requires D >= 2 && lockedAxes.Length == D - 2 && lockedAxesValues.Length == D - 2
    requires mVertices != lockedAxesValues
    requires forall l | 0 <= l < D - 2 :: 0 <= lockedAxes[l] < D
    requires forall l, l' | 0 <= l < l' < D - 2 :: lockedAxes[l] != lockedAxes[l']
    requires 0 <= vf && (vf + 4) * D <= mVertices.Length
    modifies mVertices
    ensures forall c | 0 <= c < 4 ::
      LockedWritten(mVertices[..], RecordStart(vf, c, D), lockedAxes[..], lockedAxesValues[..])
    ensures forall j | 0 <= j < mVertices.Length && !(vf * D <= j < (vf + 4) * D) ::
      mVertices[j] == old(mVertices[j])
  {
    for vertexI := 0 to 4
      modifies mVertices
      invariant forall c | 0 <= c < vertexI ::
        LockedWritten(mVertices[..], RecordStart(vf, c, D), lockedAxes[..], lockedAxesValues[..])
      invariant forall j | 0 <= j < mVertices.Length && !(vf * D <= j < RecordStart(vf, vertexI, D)) ::
        mVertices[j] == old(mVertices[j])
    {
      RecordsWithin(vf, vertexI, 4, D);
      forall c | 0 <= c < vertexI
        ensures RecordStart(vf, c, D) + D <= RecordStart(vf, vertexI, D)
      {
        RecordsApart(vf, c, vertexI, D);
      }
      ghost var before := mVertices[..];
      FillLockedAxes(mVertices, RecordStart(vf, vertexI, D), D, lockedAxes, lockedAxesValues);
      forall c | 0 <= c < vertexI
        ensures LockedWritten(mVertices[..], RecordStart(vf, c, D), lockedAxes[..], lockedAxesValues[..])
      {
        LockedKept(before, mVertices[..], RecordStart(vf, c, D), D, lockedAxes[..], lockedAxesValues[..]);
      }
    }
    RecordsWithin(vf, 3, 4, D);
  }

  /** A record's locked axes stay written while its entries are unchanged. */
  lemma LockedKept(s: seq<real>, s': seq<real>, start: int, D: int, locked: seq<int>, values: seq<real>)
    requires LockedWritten(s, start, locked, values) && |s'| == |s|
    requires forall l | 0 <= l < |locked| :: 0 <= locked[l] < D
    requires forall j | 0 <= j < |s| && start <= j < start + D :: s'[j] == s[j]
    ensures LockedWritten(s', start, locked, values)
  {
  }

  /** The two free-axis writes of corner c of a face: component lo and
      component hi of the record starting at `start`. */
  method WriteFreeAxes(mVertices: array<real>, start: int, lo: int, hi: int, c: int)
    requires 0 <= start + lo < mVertices.Length && 0 <= start + hi < mVertices.Length
    modifies mVertices
    ensures mVertices[..] == WriteFree(old(mVertices[..]), start, lo, hi, c)
  {
    mVertices[start + lo] := LoSign(c);
    mVertices[start + hi] := HiSign(c);
  }

  /** The first half of the inner do-while: writes the four corners of one
      face into the vertex buffer, its locked axes from the current signs and
      its free axes in the cyclic corner order (-1,-1), (-1,+1), (+1,+1),
      (+1,-1). Nothing outside the face's four vertex records changes. */
  method WriteFaceVertices(mVertices: array<real>, D: int,
                           lockedAxes: array<int>, lockedAxesValues: array<real>, unlockedAxes: array<int>,
                           vertFaceStartI: int)
    requires D >= 2 && lockedAxes.Length == D - 2 && lockedAxesValues.Length == D - 2
    requires unlockedAxes.Length == 2
    requires mVertices != lockedAxesValues
    requires forall l | 0 <= l < D - 2 :: 0 <= lockedAxes[l] < D
    requires forall l, l' | 0 <= l < l' < D - 2 :: lockedAxes[l] != lockedAxes[l']
    requires 0 <= unlockedAxes[0] < unlockedAxes[1] < D
    requires forall l | 0 <= l < D - 2 :: lockedAxes[l] != unlockedAxes[0] && lockedAxes[l] != unlockedAxes[1]
    requires 0 <= vertFaceStartI && (vertFaceStartI + 4) * D <= mVertices.Length
    modifies mVertices
    ensures forall c | 0 <= c < 4 ::
      CornerWritten(mVertices[..], RecordStart(vertFaceStartI, c, D), lockedAxes[..], lockedAxesValues[..],
                    unlockedAxes[0], unlockedAxes[1], c)
    ensures forall j | 0 <= j < mVertices.Length && !(vertFaceStartI * D <= j < (vertFaceStartI + 4) * D) ::
      mVertices[j] == old(mVertices[j])
  {
    var vf := vertFaceStartI;
    var lo, hi := unlockedAxes[0], unlockedAxes[1];
    FillLockedCorners(mVertices, D, lockedAxes, lockedAxesValues, vf);
    RecordsWithin(vf, 0, 4, D);
    RecordsWithin(vf, 1, 4, D);
    RecordsWithin(vf, 2, 4, D);
    RecordsWithin(vf, 3, 4, D);

    ghost var s0 := mVertices[..];
    WriteFreeAxes(mVertices, RecordStart(vf, 0, D), lo, hi, 0);
    WriteFreeAxes(mVertices, RecordStart(vf, 1, D), lo, hi, 1);
    WriteFreeAxes(mVertices, RecordStart(vf, 2, D), lo, hi, 2);
    WriteFreeAxes(mVertices, RecordStart(vf, 3, D), lo, hi, 3);
    FreeWrites(s0, vf, D, lockedAxes[..], lockedAxesValues[..], lo, hi);
  }

  /** The second half of the inner do-while: the two triangles (0, 1, 3)
      and (1, 2, 3) of the face whose first vertex is vertFaceStartI. Nothing
      else in the index buffer changes. */
  method WriteFaceIndices(mIndices: array<int>, vertFaceStartI: int, indexFaceStartI: int)
    requires 0 <= indexFaceStartI && indexFaceStartI + 6 <= mIndices.Length
    modifies mIndices
    ensures forall k | 0 <= k < 6 :: mIndices[indexFaceStartI + k] == vertFaceStartI + QuadCorner(k)
    ensures forall j | 0 <= j < mIndices.Length && !(indexFaceStartI <= j < indexFaceStartI + 6) ::
      mIndices[j] == old(mIndices[j])
  {
    var vf := vertFaceStartI;
    mIndices[indexFaceStartI + 0] := vf + 0;
    mIndices[indexFaceStartI + 1] := vf + 1;
    mIndices[indexFaceStartI + 2] := vf + 3;

    mIndices[indexFaceStartI + 3] := vf + 1;
    mIndices[indexFaceStartI + 4] := vf + 2;
    mIndices[indexFaceStartI + 5] := vf + 3;
  }

  /** A record written as corner c of the face of round p and signs q holds
      that corner's component ax. */
  lemma CornerEntry(s: seq<real>, D: int, x: FreeAxes, signs: seq<real>, start: int, c: int, ax: int,
                    locked: seq<int>)
    requires D >= 2 && ValidFree(D, x) && |signs| == D - 2 && 0 <= ax < D
    requires locked == Complement(D, x)
    requires CornerWritten(s, start, locked, signs, x.lo, x.hi, c)
    ensures 0 <= start + ax < |s| && s[start + ax] == CornerOf(D, x, signs, c, ax)
  {
    if ax != x.lo && ax != x.hi {
      ComplementFacts(D, x);
      var l := LockedPos(x, ax);
      assert locked[l] == ax;
      assert s[start + locked[l]] == signs[l];
    }
  }

  /** Corner c of the face of round p and signs q, written as such, is
      vertex 4 faceI + c of the cube. */
  lemma NewCorner(after: seq<real>, D: int, p: int, q: int, faceI: int, c: int, ax: int,
                  locked: seq<int>, values: seq<real>)
    requires D >= 2 && 0 <= p < Binomial(D, 2) && 0 <= q < Pow(2, D - 2)
    requires faceI == p * Pow(2, D - 2) + q && 0 <= c < 4 && 0 <= ax < D
    requires locked == Complement(D, FreeAt(D, p)) && values == SignsOf(q, D - 2)
    requires CornerWritten(after, RecordStart(4 * faceI, c, D), locked, values, FreeAt(D, p).lo, FreeAt(D, p).hi, c)
    ensures 0 <= 4 * faceI + c < 4 * FaceCount(D)
    ensures 0 <= RecordStart(4 * faceI, c, D) + ax < |after|
    ensures after[RecordStart(4 * faceI, c, D) + ax] == CubeVertex(D, 4 * faceI + c, ax)
  {
    FaceCornerIsCubeVertex(D, p, q, c, ax);
    CornerValue(after, D, p, q, RecordStart(4 * faceI, c, D), c, ax, locked, values);
  }

  /** A record written as corner c of the face of round p and signs q
      holds `Corner(D, p, q, c, ax)` at component ax. */
  lemma CornerValue(after: seq<real>, D: int, p: int, q: int, start: int, c: int, ax: int,
                    locked: seq<int>, values: seq<real>)
    requires D >= 2 && 0 <= p < Binomial(D, 2) && 0 <= ax < D
    requires locked == Complement(D, FreeAt(D, p)) && values == SignsOf(q, D - 2)
    requires CornerWritten(after, start, locked, values, FreeAt(D, p).lo, FreeAt(D, p).hi, c)
    ensures 0 <= start + ax < |after| && after[start + ax] == Corner(D, p, q, c, ax)
  {
    FreeAtRank(D, p);
    CornerEntry(after, D, FreeAt(D, p), values, start, c, ax, locked);
  }

  /** After `WriteFaceVertices` for round p and signs q, one more face of the cube is
      in the vertex buffer. */
  lemma FaceEmitted(before: seq<real>, after: seq<real>, D: int, p: int, q: int, faceI: int,
                    locked: seq<int>, values: seq<real>, lo: int, hi: int)
    requires D >= 2 && 0 <= p < Binomial(D, 2) && 0 <= q < Pow(2, D - 2)
    requires faceI == p * Pow(2, D - 2) + q && 0 <= faceI < FaceCount(D)
    requires |before| == |after| == 4 * FaceCount(D) * D
    requires locked == Complement(D, FreeAt(D, p)) && values == SignsOf(q, D - 2)
    requires lo == FreeAt(D, p).lo && hi == FreeAt(D, p).hi
    requires VerticesDone(before, D, 4 * faceI)
    requires forall j | 0 <= j < |after| && !(4 * faceI * D <= j < (4 * faceI + 4) * D) :: after[j] == before[j]
    requires forall c | 0 <= c < 4 :: CornerWritten(after, RecordStart(4 * faceI, c, D), locked, values, lo, hi, c)
    ensures VerticesDone(after, D, 4 * faceI + 4)
  {
    var vf := 4 * faceI;
    forall v, ax | 0 <= v < vf + 4 && 0 <= ax < D
      ensures (SlotBound(v, ax, 4 * FaceCount(D), D); after[Slot(v, ax, D)] == CubeVertex(D, v, ax))
    {
      SlotBound(v, ax, 4 * FaceCount(D), D);
      if v < vf {
        RecordsOrdered(v, ax, vf, D);
      } else {
        var c := v - vf;
        assert Slot(v, ax, D) == RecordStart(vf, c, D) + ax;
        NewCorner(after, D, p, q, faceI, c, ax, locked, values);
      }
    }
  }

  /** After `WriteFaceIndices` for face f, the index groups of one more face
      are in the index buffer. */
  lemma FaceIndexed(before: seq<int>, after: seq<int>, D: int, f: int)
    requires D >= 2 && 0 <= f < FaceCount(D)
    requires |before| == |after| == 6 * FaceCount(D)
    requires IndicesDone(before, D, f)
    requires forall j | 0 <= j < |after| && !(6 * f <= j < 6 * f + 6) :: after[j] == before[j]
    requires forall k | 0 <= k < 6 :: after[6 * f + k] == 4 * f + QuadCorner(k)
    ensures IndicesDone(after, D, f + 1)
  {
    forall f', k | 0 <= f' < f + 1 && 0 <= k < 6
      ensures (SlotBound(f', k, FaceCount(D), 6); after[Slot(f', k, 6)] == CubeIndex(f', k))
    {
      SlotBound(f', k, FaceCount(D), 6);
      if f' < f {
        RecordsOrdered(f', k, f, 6);
      }
    }
  }

  /** The first face of round p of the outer loop: each round emits
      2^(D-2) faces. */
  function RoundStart(D: int, p: int): int
    requires D >= 2
    decreases p
  {
    if p <= 0 then 0 else RoundStart(D, p - 1) + Pow(2, D - 2)
  }

  /** Round p starts at face p 2^(D-2); the rounds end at the last face. */
  lemma {:induction false} RoundStartIsProduct(D: int, p: int)
    requires D >= 2 && p >= 0
    ensures RoundStart(D, p) == p * Pow(2, D - 2)
    decreases p
  {
    if p > 0 {
      RoundStartIsProduct(D, p - 1);
    }
  }

  /** Round p of the outer loop holds faces p 2^(D-2) .. (p + 1) 2^(D-2) - 1,
      all of them faces of the cube. */
  lemma RoundFits(D: int, p: int)
    requires D >= 2 && 0 <= p < Binomial(D, 2)
    ensures Pow(2, D - 2) >= 1
    ensures RoundStart(D, p) == p * Pow(2, D - 2)
    ensures RoundStart(D, p + 1) == RoundStart(D, p) + Pow(2, D - 2) <= FaceCount(D)
  {
    PowPositive(2, D - 2);
    RoundStartIsProduct(D, p);
    MulMono(p + 1, Binomial(D, 2), Pow(2, D - 2));
  }

  /** The body of the outer do-while of `genVertexData`: finds the free axes
      of round p, resets the signs to all -1, emits the round's 2^(D-2) faces
      and steps the locked axes to those of round p + 1, telling whether there
      is one. */
  method EmitRound(verts: array<real>, indices: array<int>, D: int,
                   lockedAxes: array<int>, lockedAxesValues: array<real>,
                   vertFaceStartI0: int, indexFaceStartI0: int, ghost p: int, ghost faceI0: int)
    returns (vertFaceStartI: int, indexFaceStartI: int, ghost faceI: int, moreAxes: bool)
    requires D >= 2 && 0 <= p < Binomial(D, 2)
    requires verts.Length == 4 * FaceCount(D) * D && indices.Length == 6 * FaceCount(D)
    requires lockedAxes.Length == D - 2 && lockedAxesValues.Length == D - 2
    requires verts != lockedAxesValues && indices != lockedAxes
    requires lockedAxes[..] == Complement(D, FreeAt(D, p))
    requires faceI0 == RoundStart(D, p)
    requires vertFaceStartI0 == 4 * faceI0 && indexFaceStartI0 == 6 * faceI0
    requires 0 <= faceI0 <= FaceCount(D)
    requires VerticesDone(verts[..], D, 4 * faceI0)
    requires IndicesDone(indices[..], D, faceI0)
    modifies verts, indices, lockedAxes, lockedAxesValues
    ensures faceI == RoundStart(D, p + 1)
    ensures vertFaceStartI == 4 * faceI && indexFaceStartI == 6 * faceI
    ensures 0 <= faceI <= FaceCount(D)
    ensures VerticesDone(verts[..], D, 4 * faceI)
    ensures IndicesDone(indices[..], D, faceI)
    ensures moreAxes <==> p + 1 < Binomial(D, 2)
    ensures moreAxes ==> lockedAxes[..] == Complement(D, FreeAt(D, p + 1))
  {
    var n := D - 2;
    ghost var vertsAtRound, indicesAtRound := verts[..], indices[..];
    FreeAtRank(D, p);
    var x := FreeAt(D, p);
    ComplementFacts(D, x);
    var unlockedAxes := GetUnlockedAxes(lockedAxes);
    assert unlockedAxes[0] == x.lo && unlockedAxes[1] == x.hi;

    for i := 0 to n
      modifies lockedAxesValues
      invariant forall j | 0 <= j < i :: lockedAxesValues[j] == -1.0
    {
      lockedAxesValues[i] := -1.0;
    }
    AllMinusIsZero(n);
    assert lockedAxesValues[..] == SignsOf(0, n);
    assert verts[..] == vertsAtRound && indices[..] == indicesAtRound;

    vertFaceStartI, indexFaceStartI, faceI :=
      EmitFacesOfLockedAxes(verts, indices, D, lockedAxes, lockedAxesValues, unlockedAxes,
                            vertFaceStartI0, indexFaceStartI0, p, faceI0);

    SuccessorOfComplement(D, x);
    OuterLoopRounds(D, p, p);
    ghost var vertsDone, indicesDone := verts[..], indices[..];
    moreAxes := NextLockedAxes(lockedAxes);
    assert verts[..] == vertsDone && indices[..] == indicesDone;
  }

  /** One round of the inner do-while of `genVertexData`, up to the step
      of the signs: writes face p 2^(D-2) + q of the cube (round p, signs q)
      into both buffers. */
  method EmitFace(verts: array<real>, indices: array<int>, D: int,
                  lockedAxes: array<int>, lockedAxesValues: array<real>, unlockedAxes: array<int>,
                  vertFaceStartI: int, indexFaceStartI: int, ghost p: int, ghost q: int, ghost faceI: int)
    requires D >= 2 && 0 <= p < Binomial(D, 2) && 0 <= q < Pow(2, D - 2)
    requires faceI == p * Pow(2, D - 2) + q && 0 <= faceI < FaceCount(D)
    requires verts.Length == 4 * FaceCount(D) * D && indices.Length == 6 * FaceCount(D)
    requires lockedAxes.Length == D - 2 && lockedAxesValues.Length == D - 2 && unlockedAxes.Length == 2
    requires verts != lockedAxesValues && indices != lockedAxes && indices != unlockedAxes
    requires lockedAxes[..] == Complement(D, FreeAt(D, p))
    requires unlockedAxes[0] == FreeAt(D, p).lo && unlockedAxes[1] == FreeAt(D, p).hi
    requires lockedAxesValues[..] == SignsOf(q, D - 2)
    requires vertFaceStartI == 4 * faceI && indexFaceStartI == 6 * faceI
    requires VerticesDone(verts[..], D, 4 * faceI)
    requires IndicesDone(indices[..], D, faceI)
    modifies verts, indices
    ensures VerticesDone(verts[..], D, 4 * faceI + 4)
    ensures IndicesDone(indices[..], D, faceI + 1)
  {
    FaceCornerIsCubeVertex(D, p, q, 0, 0);
    assert (vertFaceStartI + 4) * D <= verts.Length by {
      MulMono(4 * faceI + 4, 4 * FaceCount(D), D);
    }
    FreeAtRank(D, p);
    ComplementFacts(D, FreeAt(D, p));
    assert forall l | 0 <= l < D - 2 :: lockedAxes[l] == Complement(D, FreeAt(D, p))[l];
    ghost var vertsBefore, indicesBefore := verts[..], indices[..];
    WriteFaceVertices(verts, D, lockedAxes, lockedAxesValues, unlockedAxes, vertFaceStartI);
    WriteFaceIndices(indices, vertFaceStartI, indexFaceStartI);
    FaceIndexed(indicesBefore, indices[..], D, faceI);
    FaceEmitted(vertsBefore, verts[..], D, p, q, faceI, lockedAxes[..], lockedAxesValues[..],
                unlockedAxes[0], unlockedAxes[1]);
  }

  /** One round of the inner do-while of `genVertexData`: face
      p 2^(D-2) + q written, then the signs stepped to combination q + 1,
      telling whether there is one. */
  method EmitFaceStep(verts: array<real>, indices: array<int>, D: int,
                      lockedAxes: array<int>, lockedAxesValues: array<real>, unlockedAxes: array<int>,
                      vertFaceStartI: int, indexFaceStartI: int, ghost p: int, ghost q: int, ghost faceI: int)
    returns (moreValues: bool)
    requires D >= 2 && 0 <= p < Binomial(D, 2) && 0 <= q < Pow(2, D - 2)
    requires faceI == p * Pow(2, D - 2) + q && 0 <= faceI < FaceCount(D)
    requires verts.Length == 4 * FaceCount(D) * D && indices.Length == 6 * FaceCount(D)
    requires lockedAxes.Length == D - 2 && lockedAxesValues.Length == D - 2 && unlockedAxes.Length == 2
    requires verts != lockedAxesValues && indices != lockedAxes && indices != unlockedAxes
    requires lockedAxes[..] == Complement(D, FreeAt(D, p))
    requires unlockedAxes[0] == FreeAt(D, p).lo && unlockedAxes[1] == FreeAt(D, p).hi
    requires lockedAxesValues[..] == SignsOf(q, D - 2)
    requires vertFaceStartI == 4 * faceI && indexFaceStartI == 6 * faceI
    requires VerticesDone(verts[..], D, 4 * faceI)
    requires IndicesDone(indices[..], D, faceI)
    modifies verts, indices, lockedAxesValues
    ensures VerticesDone(verts[..], D, 4 * faceI + 4)
    ensures IndicesDone(indices[..], D, faceI + 1)
    ensures moreValues <==> q + 1 < Pow(2, D - 2)
    ensures moreValues ==> lockedAxesValues[..] == SignsOf(q + 1, D - 2)
  {
    EmitFace(verts, indices, D, lockedAxes, lockedAxesValues, unlockedAxes,
             vertFaceStartI, indexFaceStartI, p, q, faceI);
    SignsStep(q, D - 2);
    ghost var vertsDone, indicesDone := verts[..], indices[..];
    moreValues := NextLockedAxesValues(lockedAxesValues);
    assert verts[..] == vertsDone && indices[..] == indicesDone;
  }

  /** The inner do-while of `genVertexData`: with the locked axes of round
      p in place and their signs reset to all -1, emits the 2^(D-2) faces of
      that round, one per sign combination in binary counting order, and
      returns the advanced cursors. */
  method EmitFacesOfLockedAxes(verts: array<real>, indices: array<int>, D: int,
                               lockedAxes: array<int>, lockedAxesValues: array<real>, unlockedAxes: array<int>,
                               vertFaceStartI0: int, indexFaceStartI0: int, ghost p: int, ghost faceI0: int)
    returns (vertFaceStartI: int, indexFaceStartI: int, ghost faceI: int)
    requires D >= 2 && 0 <= p < Binomial(D, 2)
    requires verts.Length == 4 * FaceCount(D) * D && indices.Length == 6 * FaceCount(D)
    requires lockedAxes.Length == D - 2 && lockedAxesValues.Length == D - 2 && unlockedAxes.Length == 2
    requires verts != lockedAxesValues && indices != lockedAxes && indices != unlockedAxes
    requires lockedAxes[..] == Complement(D, FreeAt(D, p))
    requires unlockedAxes[0] == FreeAt(D, p).lo && unlockedAxes[1] == FreeAt(D, p).hi
    requires lockedAxesValues[..] == SignsOf(0, D - 2)
    requires faceI0 == RoundStart(D, p)
    requires vertFaceStartI0 == 4 * faceI0 && indexFaceStartI0 == 6 * faceI0
    requires 0 <= faceI0 <= FaceCount(D)
    requires VerticesDone(verts[..], D, 4 * faceI0)
    requires IndicesDone(indices[..], D, faceI0)
    modifies verts, indices, lockedAxesValues
    ensures faceI == RoundStart(D, p + 1)
    ensures vertFaceStartI == 4 * faceI && indexFaceStartI == 6 * faceI
    ensures 0 <= faceI <= FaceCount(D)
    ensures VerticesDone(verts[..], D, 4 * faceI)
    ensures IndicesDone(indices[..], D, faceI)
  {
    var n := D - 2;
    var twoPow := Pow(2, n);
    var faces := FaceCount(D);
    vertFaceStartI, indexFaceStartI := vertFaceStartI0, indexFaceStartI0;
    RoundFits(D, p);
    ghost var base := faceI0;
    faceI := base;
    ghost var q := 0;
    var moreValues := true;
    while moreValues
      modifies verts, indices, lockedAxesValues
      invariant 0 <= q <= twoPow
      invariant faceI == base + q && faceI <= faces
      invariant vertFaceStartI == 4 * faceI && indexFaceStartI == 6 * faceI
      invariant moreValues <==> q < twoPow
      invariant moreValues ==> lockedAxesValues[..] == SignsOf(q, n)
      invariant VerticesDone(verts[..], D, 4 * faceI)
      invariant IndicesDone(indices[..], D, faceI)
      decreases twoPow - q
    {
      moreValues := EmitFaceStep(verts, indices, D, lockedAxes, lockedAxesValues, unlockedAxes,
                                 vertFaceStartI, indexFaceStartI, p, q, faceI);

      vertFaceStartI := vertFaceStartI + 4;
      indexFaceStartI := indexFaceStartI + 6;
      q := q + 1;
      faceI := faceI + 1;
    }

  }

  /** `getUnlockedAxes`: the axes below |locked| + 2 that are not locked. */
  function Missing(s: seq<int>, c: int): set<int>
  {
    set y | 0 <= y < c && y !in s
  }

  /** The m axes below m. */
  function Range(m: nat): (r: set<int>)
    ensures forall y :: y in r <==> 0 <= y < m
    ensures |r| == m
  {
    if m == 0 then {} else Range(m - 1) + {m - 1}
  }

  /** A subset has at most as many elements. */
  lemma SubsetCard(a: set<int>, b: set<int>)
    requires a <= b
    ensures |a| <= |b|
  {
    assert b == a + (b - a);
  }

  /** Distinct locked axes below m leave m - |s| axes unlocked. */
  lemma {:induction false} MissingCard(s: seq<int>, m: nat)
    requires forall i | 0 <= i < |s| :: 0 <= s[i] < m
    requires forall i, j | 0 <= i < j < |s| :: s[i] != s[j]
    ensures |Missing(s, m)| == m - |s|
  {
    if |s| == 0 {
      assert Missing(s, m) == Range(m);
    } else {
      var s', e := s[..|s| - 1], s[|s| - 1];
      MissingCard(s', m);
      assert e !in s';
      assert Missing(s, m) == Missing(s', m) - {e};
    }
  }

  /** The axes below c that are not locked, in the ascending order in which
      `getUnlockedAxes` finds them. */
  function Unlocked(s: seq<int>, c: int): seq<int>
    decreases c
  {
    if c <= 0 then [] else Unlocked(s, c - 1) + (if c - 1 in s then [] else [c - 1])
  }

  /** `Unlocked` holds exactly the axes below c that are not locked, in
      strictly ascending order. */
  lemma {:induction false} UnlockedFacts(s: seq<int>, c: int)
    ensures forall y :: y in Unlocked(s, c) <==> 0 <= y < c && y !in s
    ensures forall i, j | 0 <= i < j < |Unlocked(s, c)| :: Unlocked(s, c)[i] < Unlocked(s, c)[j]
    decreases c
  {
    if c > 0 {
      UnlockedFacts(s, c - 1);
      var below := Unlocked(s, c - 1);
      forall i | 0 <= i < |below| ensures below[i] < c - 1 {
        assert below[i] in below;
      }
    }
  }

  /** As many axes are found as are missing. */
  lemma {:induction false} UnlockedCount(s: seq<int>, c: int)
    ensures |Unlocked(s, c)| == |Missing(s, c)|
    decreases c
  {
    if c <= 0 {
      assert Missing(s, c) == {};
    } else {
      UnlockedCount(s, c - 1);
      if c - 1 in s {
        assert Missing(s, c) == Missing(s, c - 1);
      } else {
        assert Missing(s, c) == Missing(s, c - 1) + {c - 1};
      }
    }
  }

  /** Looking further finds no fewer axes. */
  lemma {:induction false} UnlockedGrows(s: seq<int>, c: int, m: int)
    requires c <= m
    ensures |Unlocked(s, c)| <= |Unlocked(s, m)|
    decreases m - c
  {
    if c < m {
      UnlockedGrows(s, c + 1, m);
    }
  }

  /** The inner loop of `getUnlockedAxes`: whether axis `axis` is one of
      the locked axes. */
  method IsLocked(a: array<int>, axis: int) returns (found: bool)
    ensures found <==> axis in a[..]
  {
    found := false;
    for i := 0 to a.Length
      invariant found <==> axis in a[..i]
    {
      assert a[..i + 1] == a[..i] + [a[i]];
      if a[i] == axis {
        found := true;
      }
    }
    assert a[..a.Length] == a[..];
  }

  /** `getUnlockedAxes`: given distinct locked axes in [0, n) with n the
      number of locked axes plus two, returns the two axes that are not
      locked, in ascending order. */
  method GetUnlockedAxes(currentLockedAxes: array<int>) returns (unlockedAxes: array<int>)
    requires forall i | 0 <= i < currentLockedAxes.Length ::
      0 <= currentLockedAxes[i] < currentLockedAxes.Length + 2
    requires forall i, j | 0 <= i < j < currentLockedAxes.Length ::
      currentLockedAxes[i] != currentLockedAxes[j]
    ensures fresh(unlockedAxes) && unlockedAxes.Length == 2
    ensures 0 <= unlockedAxes[0] < unlockedAxes[1] < currentLockedAxes.Length + 2
    ensures unlockedAxes[0] !in currentLockedAxes[..] && unlockedAxes[1] !in currentLockedAxes[..]
    ensures forall y | 0 <= y < currentLockedAxes.Length + 2 && y !in currentLockedAxes[..] ::
      y == unlockedAxes[0] || y == unlockedAxes[1]
  {
    var a := currentLockedAxes;
    var m := a.Length + 2;
    unlockedAxes := new int[2];
    var unlockedAxesIndex := 0;
    MissingCard(a[..], m);
    UnlockedCount(a[..], m);
    for checkLocked := 0 to m
      invariant unlockedAxesIndex == |Unlocked(a[..], checkLocked)| <= 2
      invariant forall j | 0 <= j < unlockedAxesIndex :: unlockedAxes[j] == Unlocked(a[..], checkLocked)[j]
    {
      var found := IsLocked(a, checkLocked);
      if !found {
        UnlockedGrows(a[..], checkLocked + 1, m);
        unlockedAxes[unlockedAxesIndex] := checkLocked;
        unlockedAxesIndex := unlockedAxesIndex + 1;
      }
    }
    UnlockedPair(a[..], m);
  }

  /** When exactly two axes below m are not locked, `Unlocked` lists both,
      the smaller first. */
  lemma UnlockedPair(s: seq<int>, m: int)
    requires |Unlocked(s, m)| == 2
    ensures 0 <= Unlocked(s, m)[0] < Unlocked(s, m)[1] < m
    ensures Unlocked(s, m)[0] !in s && Unlocked(s, m)[1] !in s
    ensures forall y | 0 <= y < m && y !in s :: y == Unlocked(s, m)[0] || y == Unlocked(s, m)[1]
  {
    var u := Unlocked(s, m);
    UnlockedFacts(s, m);
    assert u[0] in u && u[1] in u;
    forall y | 0 <= y < m && y !in s
      ensures y == u[0] || y == u[1]
    {
      assert y in u;
    }
  }

  /** The set-up of `genVertexData`: both buffers sized for FaceCount(D)
      faces, and the locked axes of the first round, 0 .. D - 3. */
  method StartBuffers(D: int) returns (verts: array<real>, indices: array<int>,
                                       lockedAxes: array<int>, lockedAxesValues: array<real>)
    requires D >= 2
    ensures fresh(verts) && fresh(indices) && fresh(lockedAxes) && fresh(lockedAxesValues)
    ensures verts.Length == 4 * FaceCount(D) * D && indices.Length == 6 * FaceCount(D)
    ensures lockedAxes.Length == D - 2 && lockedAxesValues.Length == D - 2
    ensures verts != lockedAxesValues && indices != lockedAxes
    ensures lockedAxes[..] == Complement(D, FreeAt(D, 0))
  {
    var n := D - 2;
    var twoPow := PowI(2, n);
    PowPositive(2, n);
    var choose := Binomial(D, 2);
    var faces := choose * twoPow;
    verts := new real[faces * 4 * D];
    indices := new int[faces * 6];
    lockedAxes := new int[n];
    lockedAxesValues := new real[n];
    assert faces == FaceCount(D);

    for i := 0 to n
      modifies lockedAxes
      invariant forall j | 0 <= j < i :: lockedAxes[j] == j
    {
      lockedAxes[i] := i;
    }
    FirstComplement(D);
  }

  /** `genVertexData` without the class around it: allocates both buffers
      and fills them round by round of the outer do-while, one round per
      choice of free axes, in the order `nextLockedAxes` walks them. */
  method GenerateBuffers(D: int) returns (verts: array<real>, indices: array<int>)
    requires D >= 2
    ensures fresh(verts) && fresh(indices)
    ensures verts.Length == 4 * FaceCount(D) * D && indices.Length == 6 * FaceCount(D)
    ensures VerticesDone(verts[..], D, 4 * FaceCount(D))
    ensures IndicesDone(indices[..], D, FaceCount(D))
  {
    var lockedAxes, lockedAxesValues;
    verts, indices, lockedAxes, lockedAxesValues := StartBuffers(D);
    var choose := Binomial(D, 2);
    RankEnds(D);
    PowPositive(2, D - 2);

    var vertFaceStartI := 0;
    var indexFaceStartI := 0;
    ghost var p := 0;
    ghost var faceI := 0;

    var moreAxes := true;
    while moreAxes
      modifies verts, indices, lockedAxes, lockedAxesValues
      invariant 0 <= p <= choose
      invariant faceI == RoundStart(D, p) && faceI <= FaceCount(D)
      invariant vertFaceStartI == 4 * faceI && indexFaceStartI == 6 * faceI
      invariant moreAxes <==> p < choose
      invariant moreAxes ==> lockedAxes[..] == Complement(D, FreeAt(D, p))
      invariant VerticesDone(verts[..], D, 4 * faceI)
      invariant IndicesDone(indices[..], D, faceI)
      decreases choose - p
    {
      vertFaceStartI, indexFaceStartI, faceI, moreAxes :=
        EmitRound(verts, indices, D, lockedAxes, lockedAxesValues, vertFaceStartI, indexFaceStartI, p, faceI);
      p := p + 1;
    }
    RoundStartIsProduct(D, choose);
  }

  /** Every entry of a filled index buffer names one of the 4 FaceCount(D)
      vertices. */
  lemma CubeIndicesInRange(s: seq<int>, D: int)
    requires D >= 2 && |s| == 6 * FaceCount(D) && IndicesDone(s, D, FaceCount(D))
    ensures forall j | 0 <= j < |s| :: 0 <= s[j] < 4 * FaceCount(D)
  {
    forall j | 0 <= j < |s|
      ensures 0 <= s[j] < 4 * FaceCount(D)
    {
      FlatSlot(j, 6);
      RecordOfSlot(j, FaceCount(D), 6);
      assert Slot(j / 6, j % 6, 6) == j;
    }
  }

  /** Every component of a filled vertex buffer is -1 or +1. */
  lemma CubeVerticesAreSigns(s: seq<real>, D: int)
    requires D >= 2 && |s| == 4 * FaceCount(D) * D && VerticesDone(s, D, 4 * FaceCount(D))
    ensures forall j | 0 <= j < |s| :: s[j] == -1.0 || s[j] == 1.0
  {
    forall j | 0 <= j < |s|
      ensures s[j] == -1.0 || s[j] == 1.0
    {
      FlatSlot(j, D);
      RecordOfSlot(j, 4 * FaceCount(D), D);
      assert Slot(j / D, j % D, D) == j;
      CubeVertexIsSign(D, j / D, j % D);
    }
  }

  /** The hypercube's geometry: its dimension and the two buffers that
      `genVertexData` fills. */
  class Hypercube {
    const mDimensions: int
    var mVertices: array<real>
    var mIndices: array<int>

    /** The buffers hold exactly the cube's faces: FaceCount(D) faces, four
        D-component vertices each, and a six-index group per face. */
    ghost predicate Generated()
      reads this, mVertices, mIndices
    {
      && mDimensions >= 2
      && mVertices.Length == FaceCount(mDimensions) * 4 * mDimensions
      && mIndices.Length == FaceCount(mDimensions) * 6
      && VerticesDone(mVertices[..], mDimensions, 4 * FaceCount(mDimensions))
      && IndicesDone(mIndices[..], mDimensions, FaceCount(mDimensions))
    }

    /** The constructor generates the vertex data. */
    constructor (dimensions: int)
      requires dimensions >= 2
      ensures mDimensions == dimensions
      ensures Generated()
      ensures fresh(mVertices) && fresh(mIndices)
    {
      mDimensions := dimensions;
      mVertices := new real[0];
      mIndices := new int[0];
      new;
      GenVertexData();
    }

    /** `genVertexData`: allocates the buffers to exactly C(D,2) · 2^(D-2)
        faces and fills them through the two face cursors, looping over the
        locked-axis combinations and, inside, over their signs. */
    method GenVertexData()
      requires mDimensions >= 2
      modifies this
      ensures Generated()
      ensures fresh(mVertices) && fresh(mIndices)
    {
      var verts, indices := GenerateBuffers(mDimensions);
      mVertices := verts;
      mIndices := indices;
      assert mVertices[..] == verts[..] && mIndices[..] == indices[..];
    }
  }
}
