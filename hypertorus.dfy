/** Hypertorus: the D-dimensional torus swept from nested circles of
    `Smoothness` samples each. The vertex sweep recurses over the axes 3..D,
    appending every generated point to a flat vertex buffer through the
    shared cursor `mVertI`; the index loops then emit, for every extra axis
    and every vertex, two triangles to wrap-around grid neighbours. The cosine
    and sine samples of the circle are an input table. The two vector
    operations the sweep calls, `NDVector.add` and `NDVector.multMatrix`, are
    defined here on their own terms: component-wise addition, and the product
    result[row] = sum over col of M[col][row] v[col] with the matrix indexed
    [column][row], the layout `genNDTorusVecRotMatrix` fills. */
module Hypertorus {
  import opened Arithmetic
  import opened Utils
  import opened Buffers
  import NDShape

  /** The number of samples on every circle the hypertorus is swept from. */
  const Smoothness: int := 15

  /** The circle tables: cos and sin of 2 pi i / Smoothness for every sample i. */
  predicate IsCircleTable(cos: seq<real>, sin: seq<real>)
  {
    |cos| == Smoothness && |sin| == Smoothness
  }

  // ---------------------------------------------------------------------
  // Vector operations of NDVector used by the sweep
  // ---------------------------------------------------------------------

  /** `NDVector.add`: the component-wise sum of two vectors of one length. */
  function Add(u: seq<real>, v: seq<real>): (w: seq<real>)
    requires |u| == |v|
    ensures |w| == |u|
  {
    seq(|u|, j requires 0 <= j < |u| => u[j] + v[j])
  }

  /** A square matrix of side n, stored column by column: m[col][row]. */
  predicate IsSquare(m: seq<seq<real>>, n: int)
  {
    |m| == n && forall c | 0 <= c < n :: |m[c]| == n
  }

  /** The sum over col < n of m[col][row] * v[col]. */
  function ColumnSum(m: seq<seq<real>>, v: seq<real>, row: int, n: int): real
    requires IsSquare(m, |v|) && 0 <= row < |v| && 0 <= n <= |v|
    decreases n
  {
    if n == 0 then 0.0 else ColumnSum(m, v, row, n - 1) + m[n - 1][row] * v[n - 1]
  }

  /** `NDVector.multMatrix`: the matrix-vector product, with the matrix
      indexed column first, so that m[col] is the image of axis col. */
  function MultMatrix(m: seq<seq<real>>, v: seq<real>): (w: seq<real>)
    requires IsSquare(m, |v|)
    ensures |w| == |v|
  {
    seq(|v|, row requires 0 <= row < |v| => ColumnSum(m, v, row, |v|))
  }

  // ---------------------------------------------------------------------
  // The rotation basis of one sweep step
  // ---------------------------------------------------------------------

  /** Entry [x][y] of the basis `genNDTorusVecRotMatrix(a, prev)` builds:
      column 0 is prev (zero below its length), column 1 is the unit vector
      along axis a, every other column is zero. */
  function RotEntry(prev: seq<real>, a: int, x: int, y: int): real
  {
    if x == 0 then (if 0 <= y < |prev| then prev[y] else 0.0)
    else if x == 1 && y == a then 1.0
    else 0.0
  }

  /** The whole D x D basis as a sequence of columns. */
  function RotMatrix(D: nat, a: int, prev: seq<real>): (m: seq<seq<real>>)
    ensures IsSquare(m, D)
  {
    seq(D, x requires 0 <= x < D => seq(D, y requires 0 <= y < D => RotEntry(prev, a, x, y)))
  }

  /** Java's `Math.pow(2, n)` for n >= 0, as an exact real. */
  function RealPow2(n: nat): (r: real)
    ensures r >= 1.0
  {
    if n == 0 then 1.0 else 2.0 * RealPow2(n - 1)
  }

  /** The sample of the circle for axis t: (cos, sin) shrunk by 2^(t-2),
      padded with zeros to D components. */
  function CircleVec(D: int, c: real, s: real, t: int): (v: seq<real>)
    requires D >= 2 && t >= 2
    ensures |v| == D
  {
    [c / RealPow2(t - 2), s / RealPow2(t - 2)] + seq(D - 2, _ => 0.0)
  }

  /** A column sum over a vector that is zero from component 2 on only
      sees the first two columns. */
  lemma {:induction false} ColumnSumOfPlanar(m: seq<seq<real>>, v: seq<real>, row: int, n: int)
    requires IsSquare(m, |v|) && 0 <= row < |v| && 2 <= n <= |v|
    requires forall c | 2 <= c < |v| :: v[c] == 0.0
    ensures ColumnSum(m, v, row, n) == m[0][row] * v[0] + m[1][row] * v[1]
    decreases n
  {
    if n > 2 {
      ColumnSumOfPlanar(m, v, row, n - 1);
    }
  }

  /** The basis turns the XY circle into the plane spanned by prev and axis
      a: the offset of sample (c, s) is c' prev + s' e_a, where (c', s') is
      the sample shrunk by 2^(t-2). */
  lemma RotatedCircle(D: int, a: int, prev: seq<real>, c: real, s: real, t: int, row: int)
    requires D >= 2 && t >= 2 && |prev| == D && 0 <= row < D
    ensures
      MultMatrix(RotMatrix(D, a, prev), CircleVec(D, c, s, t))[row] ==
        prev[row] * (c / RealPow2(t - 2)) + (if row == a then s / RealPow2(t - 2) else 0.0)
  {
    var m := RotMatrix(D, a, prev);
    var v := CircleVec(D, c, s, t);
    ColumnSumOfPlanar(m, v, row, D);
  }

  // ---------------------------------------------------------------------
  // The vertex sweep
  // ---------------------------------------------------------------------

  /** The offset added for circle sample i at axis t: the sample turned by
      the basis of prev and axis t - 1. */
  function Offset(D: int, cos: seq<real>, sin: seq<real>, t: int, prev: seq<real>, i: int): (o: seq<real>)
    requires D >= 2 && t >= 2 && |prev| == D && IsCircleTable(cos, sin) && 0 <= i < Smoothness
    ensures |o| == D
  {
    MultMatrix(RotMatrix(D, t - 1, prev), CircleVec(D, cos[i], sin[i], t))
  }

  /** The points `genTorusVertices(t, cur, prev)` appends, in order: one
      block per circle sample, each the sweep of the next axis (or, at the
      last axis, the single point reached). */
  function Sweep(D: int, cos: seq<real>, sin: seq<real>, t: int, cur: seq<real>, prev: seq<real>): seq<seq<real>>
    requires D >= 2 && t >= 2 && |cur| == D && |prev| == D && IsCircleTable(cos, sin)
    decreases D - t, Smoothness + 1
  {
    SweepPrefix(D, cos, sin, t, cur, prev, |cos|)
  }

  /** The points appended by the first i circle samples of the sweep. */
  function SweepPrefix(D: int, cos: seq<real>, sin: seq<real>, t: int, cur: seq<real>, prev: seq<real>,
                       i: int): seq<seq<real>>
    requires D >= 2 && t >= 2 && |cur| == D && |prev| == D && IsCircleTable(cos, sin)
    requires 0 <= i <= Smoothness
    decreases D - t, i
  {
    if i == 0 then []
    else SweepPrefix(D, cos, sin, t, cur, prev, i - 1) + Child(D, cos, sin, t, cur, prev, i - 1)
  }

  /** The points appended for circle sample i. */
  function Child(D: int, cos: seq<real>, sin: seq<real>, t: int, cur: seq<real>, prev: seq<real>,
                 i: int): seq<seq<real>>
    requires D >= 2 && t >= 2 && |cur| == D && |prev| == D && IsCircleTable(cos, sin)
    requires 0 <= i < Smoothness
    decreases D - t, i
  {
    var o := Offset(D, cos, sin, t, prev, i);
    if t < D then Sweep(D, cos, sin, t + 1, Add(cur, o), o) else [Add(cur, o)]
  }

  /** The starting point of sweep i of `genVertexData`: sample i of the
      unit circle in the plane of axes 0 and 1. */
  function BaseVec(D: int, cos: seq<real>, sin: seq<real>, i: int): (v: seq<real>)
    requires D >= 2 && IsCircleTable(cos, sin) && 0 <= i < Smoothness
    ensures |v| == D
  {
    [cos[i], sin[i]] + seq(D - 2, _ => 0.0)
  }

  /** The points of the first i sweeps of `genVertexData`. */
  function TorusPrefix(D: int, cos: seq<real>, sin: seq<real>, i: int): seq<seq<real>>
    requires D >= 2 && IsCircleTable(cos, sin) && 0 <= i <= Smoothness
    decreases i
  {
    if i == 0 then []
    else TorusPrefix(D, cos, sin, i - 1) + Sweep(D, cos, sin, 3, BaseVec(D, cos, sin, i - 1), BaseVec(D, cos, sin, i - 1))
  }

  /** All vertices of the hypertorus, in the order they are generated. */
  function TorusVertices(D: int, cos: seq<real>, sin: seq<real>): seq<seq<real>>
    requires D >= 2 && IsCircleTable(cos, sin)
  {
    TorusPrefix(D, cos, sin, |cos|)
  }

  /** The number of points a sweep from axis t appends. */
  function Count(D: int, t: int): nat
    decreases D - t, 1
  {
    Smoothness * ChildCount(D, t)
  }

  /** The number of points one circle sample of a sweep from axis t appends. */
  function ChildCount(D: int, t: int): nat
    decreases D - t, 0
  {
    if t < D then Count(D, t + 1) else 1
  }

  /** A sweep appends Count(D, t) points of D components each. */
  lemma {:induction false} SweepShape(D: int, cos: seq<real>, sin: seq<real>, t: int, cur: seq<real>, prev: seq<real>)
    requires D >= 2 && t >= 2 && |cur| == D && |prev| == D && IsCircleTable(cos, sin)
    ensures |Sweep(D, cos, sin, t, cur, prev)| == Count(D, t)
    ensures forall k | 0 <= k < |Sweep(D, cos, sin, t, cur, prev)| :: |Sweep(D, cos, sin, t, cur, prev)[k]| == D
    decreases D - t, Smoothness + 1
  {
    PrefixShape(D, cos, sin, t, cur, prev, |cos|);
  }

  /** The first i samples of a sweep append i ChildCount(D, t) points of D
      components each. */
  lemma {:induction false} PrefixShape(D: int, cos: seq<real>, sin: seq<real>, t: int, cur: seq<real>, prev: seq<real>,
                                       i: int)
    requires D >= 2 && t >= 2 && |cur| == D && |prev| == D && IsCircleTable(cos, sin)
    requires 0 <= i <= Smoothness
    ensures |SweepPrefix(D, cos, sin, t, cur, prev, i)| == i * ChildCount(D, t)
    ensures forall k | 0 <= k < |SweepPrefix(D, cos, sin, t, cur, prev, i)| ::
      |SweepPrefix(D, cos, sin, t, cur, prev, i)[k]| == D
    decreases D - t, i
  {
    if i > 0 {
      var front, last := SweepPrefix(D, cos, sin, t, cur, prev, i - 1), Child(D, cos, sin, t, cur, prev, i - 1);
      assert SweepPrefix(D, cos, sin, t, cur, prev, i) == front + last;
      PrefixShape(D, cos, sin, t, cur, prev, i - 1);
      var o := Offset(D, cos, sin, t, prev, i - 1);
      if t < D {
        SweepShape(D, cos, sin, t + 1, Add(cur, o), o);
      }
      var c := ChildCount(D, t);
      assert |last| == c;
      assert |front + last| == i * c by {
        assert (i - 1) * c + c == i * c;
      }
      forall k | 0 <= k < |front + last|
        ensures |(front + last)[k]| == D
      {
        if k < |front| {
          assert (front + last)[k] == front[k];
        } else {
          assert (front + last)[k] == last[k - |front|];
        }
      }
    }
  }

  /** A sweep from axis t <= D appends Smoothness^(D-t+1) points. */
  lemma {:induction false} CountIsPower(D: int, t: int)
    requires t <= D
    ensures Count(D, t) == Pow(Smoothness, D - t + 1)
    decreases D - t
  {
    if t < D {
      CountIsPower(D, t + 1);
    }
  }

  /** The first i sweeps of `genVertexData` append i Count(D, 3) points,
      D components each. */
  lemma {:induction false} TorusPrefixShape(D: int, cos: seq<real>, sin: seq<real>, i: int)
    requires D >= 2 && IsCircleTable(cos, sin) && 0 <= i <= Smoothness
    ensures |TorusPrefix(D, cos, sin, i)| == i * Count(D, 3)
    ensures forall k | 0 <= k < |TorusPrefix(D, cos, sin, i)| :: |TorusPrefix(D, cos, sin, i)[k]| == D
    decreases i
  {
    if i > 0 {
      var b := BaseVec(D, cos, sin, i - 1);
      var front, last := TorusPrefix(D, cos, sin, i - 1), Sweep(D, cos, sin, 3, b, b);
      assert TorusPrefix(D, cos, sin, i) == front + last;
      TorusPrefixShape(D, cos, sin, i - 1);
      SweepShape(D, cos, sin, 3, b, b);
      var c := Count(D, 3);
      assert |front + last| == i * c by {
        assert (i - 1) * c + c == i * c;
      }
      forall k | 0 <= k < |front + last|
        ensures |(front + last)[k]| == D
      {
        if k < |front| {
          assert (front + last)[k] == front[k];
        } else {
          assert (front + last)[k] == last[k - |front|];
        }
      }
    }
  }

  /** Sweep i of `genVertexData`, from the start vector v, appends Count(D, 3)
      points to the first i. */
  lemma TorusStep(D: int, cos: seq<real>, sin: seq<real>, i: int, v: seq<real>)
    requires D >= 2 && IsCircleTable(cos, sin) && 0 <= i < Smoothness && v == BaseVec(D, cos, sin, i)
    ensures TorusPrefix(D, cos, sin, i + 1) == TorusPrefix(D, cos, sin, i) + Sweep(D, cos, sin, 3, v, v)
    ensures |Sweep(D, cos, sin, 3, v, v)| == Count(D, 3)
  {
    SweepShape(D, cos, sin, 3, v, v);
  }

  /** From three dimensions on, the hypertorus has Smoothness^(D-1)
      vertices of D components each: exactly as many as its vertex buffer
      holds. */
  lemma TorusShape(D: int, cos: seq<real>, sin: seq<real>)
    requires D >= 3 && IsCircleTable(cos, sin)
    ensures |TorusVertices(D, cos, sin)| == Pow(Smoothness, D - 1)
    ensures forall k | 0 <= k < |TorusVertices(D, cos, sin)| :: |TorusVertices(D, cos, sin)[k]| == D
  {
    TorusPrefixShape(D, cos, sin, |cos|);
    CountIsPower(D, 3);
    assert Pow(Smoothness, D - 1) == Smoothness * Pow(Smoothness, D - 2);
  }

  /** In two dimensions every one of the Smoothness sweeps still appends a
      whole circle, so the sweep generates Smoothness^2 points for a vertex
      buffer sized for Smoothness^(D-1) = Smoothness of them: the generator
      needs D >= 3. */
  lemma PlaneTorusOverruns(cos: seq<real>, sin: seq<real>)
    requires IsCircleTable(cos, sin)
    ensures |TorusVertices(2, cos, sin)| == Smoothness * Smoothness > Smoothness == Pow(Smoothness, 2 - 1)
  {
    TorusPrefixShape(2, cos, sin, |cos|);
    PlaneCounts(2);
  }

  /** The two counts of `PlaneTorusOverruns`, for the plane dimension D. */
  lemma PlaneCounts(D: int)
    requires D == 2
    ensures Count(D, 3) == Smoothness && Pow(Smoothness, D - 1) == Smoothness
  {
    assert Count(D, 3) == Smoothness * ChildCount(D, 3);
    assert Pow(Smoothness, D - 1) == Smoothness * Pow(Smoothness, 0);
  }


  // ---------------------------------------------------------------------
  // The index groups
  // ---------------------------------------------------------------------

  /** The wrap-around neighbour at distance off of vertex i inside its block
      of P consecutive vertices: floor(i / P) P + (i + off) mod P. */
  function Neighbour(i: int, P: int, off: int): int
    requires P > 0
  {
    (i / P) * P + (i + off) % P
  }

  /** Entry k of the index group emitted for axis dim and vertex i: the
      triangles (i, i + S^(dim-3), i + S^(dim-2)) and (i + S^(dim-3),
      i + S^(dim-2) + S^(dim-3), i + S^(dim-2)), each offset wrapped around
      inside i's block of S^(dim-1) vertices. */
  function GroupEntry(dim: int, i: int, k: int): int
    requires dim >= 3
  {
    PowPositive(Smoothness, dim - 1);
    var P, b, a := Pow(Smoothness, dim - 1), Pow(Smoothness, dim - 2), Pow(Smoothness, dim - 3);
    if k == 0 then i
    else if k == 1 || k == 3 then Neighbour(i, P, a)
    else if k == 2 || k == 5 then Neighbour(i, P, b)
    else Neighbour(i, P, b + a)
  }

  /** Entry k of index group g: the groups run axis by axis, V per axis, so
      group g is vertex g mod V for axis 3 + floor(g / V). */
  function TorusIndex(V: int, g: int, k: int): int
    requires V > 0 && g >= 0
  {
    RecordOfSlot(g, g + 1, V);
    GroupEntry(3 + g / V, g % V, k)
  }

  /** The first `upTo` index groups are in the buffer. */
  ghost predicate TorusIndicesDone(s: seq<int>, V: int, upTo: int)
    requires V > 0
  {
    forall g, k | 0 <= g < upTo && 0 <= k < 6 ::
      0 <= Slot(g, k, 6) < |s| && s[Slot(g, k, 6)] == TorusIndex(V, g, k)
  }

  /** Shifting by q P does not change a remainder modulo P. */
  lemma ModShift(q: int, P: int, r: int)
    requires P > 0
    ensures (q * P + r) / P == q + r / P
    ensures (q * P + r) % P == r % P
  {
    assert q * P + r == (q + r / P) * P + r % P;
    DivModUnique(q + r / P, P, r % P);
  }

  /** The neighbour stays in i's block, at the position of i's own
      position moved on by off, wrapping around at the block's end. */
  lemma NeighbourInBlock(i: int, P: int, off: int)
    requires P > 0
    ensures Neighbour(i, P, off) / P == i / P
    ensures Neighbour(i, P, off) % P == (i % P + off) % P
    ensures (i / P) * P <= Neighbour(i, P, off) < (i / P) * P + P
  {
    var n := Neighbour(i, P, off);
    DivModUnique(i / P, P, (i + off) % P);
    ModShift(i / P, P, i % P + off);
    assert i + off == (i / P) * P + (i % P + off);
  }

  /** When P divides V, the neighbour of a vertex below V is below V. */
  lemma NeighbourBelowCount(i: int, P: int, V: int, off: int)
    requires P > 0 && V % P == 0 && 0 <= i < V
    ensures 0 <= Neighbour(i, P, off) < V
  {
    NeighbourInBlock(i, P, off);
    var m := V / P;
    assert V == m * P;
    RecordOfSlot(i, m, P);
    MulMono(i / P + 1, m, P);
    MulMono(0, i / P, P);
  }

  /** The index group of vertex i for axis dim <= D names vertices of the
      hypertorus only, each in i's block of S^(dim-1) vertices; its two
      triangles share the edge between entries 1 = 3 and 2 = 5, and entry 0
      is i itself. */
  lemma GroupEntriesInRange(D: int, dim: int, i: int)
    requires 3 <= dim <= D && 0 <= i < Pow(Smoothness, D - 1)
    ensures Pow(Smoothness, dim - 1) >= 1
    ensures forall k | 0 <= k < 6 :: 0 <= GroupEntry(dim, i, k) < Pow(Smoothness, D - 1)
    ensures forall k | 0 <= k < 6 ::
      GroupEntry(dim, i, k) / Pow(Smoothness, dim - 1) == i / Pow(Smoothness, dim - 1)
    ensures GroupEntry(dim, i, 0) == i
    ensures GroupEntry(dim, i, 1) == GroupEntry(dim, i, 3)
    ensures GroupEntry(dim, i, 2) == GroupEntry(dim, i, 5)
  {
    var P, V := Pow(Smoothness, dim - 1), Pow(Smoothness, D - 1);
    PowDivides(Smoothness, dim - 1, D - 1);
    var b, a := Pow(Smoothness, dim - 2), Pow(Smoothness, dim - 3);
    forall k | 0 <= k < 6
      ensures 0 <= GroupEntry(dim, i, k) < V && GroupEntry(dim, i, k) / P == i / P
    {
      var off := if k == 1 || k == 3 then a else if k == 2 || k == 5 then b else b + a;
      if k != 0 {
        NeighbourBelowCount(i, P, V, off);
        NeighbourInBlock(i, P, off);
      }
    }
  }

  /** Index group g of the D - 2 axes' groups is group g % V of axis
      3 + g / V, and that axis is one of 3..D. */
  lemma GroupOfIndex(D: int, V: int, g: int)
    requires D >= 3 && V > 0 && 0 <= g < (D - 2) * V
    ensures 3 <= 3 + g / V <= D && 0 <= g % V < V
    ensures g == (g / V) * V + g % V
  {
    RecordOfSlot(g, D - 2, V);
    FlatSlot(g, V);
  }

  /** Every index the generator writes names a vertex of the hypertorus. */
  lemma TorusIndexInRange(D: int, g: int, k: int)
    requires D >= 3 && 0 <= k < 6
    requires Pow(Smoothness, D - 1) > 0 && 0 <= g < (D - 2) * Pow(Smoothness, D - 1)
    ensures 0 <= TorusIndex(Pow(Smoothness, D - 1), g, k) < Pow(Smoothness, D - 1)
  {
    var V := Pow(Smoothness, D - 1);
    GroupOfIndex(D, V, g);
    GroupEntriesInRange(D, 3 + g / V, g % V);
  }

  /** Every entry of a filled index buffer names one of the V = S^(D-1)
      vertices. */
  lemma TorusIndicesInRange(s: seq<int>, D: int)
    requires D >= 3 && Pow(Smoothness, D - 1) > 0
    requires |s| == 6 * ((D - 2) * Pow(Smoothness, D - 1))
    requires TorusIndicesDone(s, Pow(Smoothness, D - 1), (D - 2) * Pow(Smoothness, D - 1))
    ensures forall j | 0 <= j < |s| :: 0 <= s[j] < Pow(Smoothness, D - 1)
  {
    var V := Pow(Smoothness, D - 1);
    forall j | 0 <= j < |s|
      ensures 0 <= s[j] < V
    {
      FlatSlot(j, 6);
      RecordOfSlot(j, (D - 2) * V, 6);
      assert Slot(j / 6, j % 6, 6) == j;
      TorusIndexInRange(D, j / 6, j % 6);
    }
  }

  // ---------------------------------------------------------------------
  // Array helpers of the generator
  // ---------------------------------------------------------------------

  /** The columns of a 2-D array as a sequence. */
  function Columns(m: array2<real>): seq<seq<real>>
    reads m
  {
    seq(m.Length0, x requires 0 <= x < m.Length0 reads m =>
      seq(m.Length1, y requires 0 <= y < m.Length1 reads m => m[x, y]))
  }

  /** A D x D array whose entries follow `RotEntry` is the basis `RotMatrix`. */
  lemma ColumnsOfBasis(m: array2<real>, D: nat, a: int, prev: seq<real>)
    requires m.Length0 == D && m.Length1 == D
    requires forall x, y | 0 <= x < D && 0 <= y < D :: m[x, y] == RotEntry(prev, a, x, y)
    ensures Columns(m) == RotMatrix(D, a, prev)
  {
    forall x | 0 <= x < D
      ensures Columns(m)[x] == RotMatrix(D, a, prev)[x]
    {
    }
  }

  /** The `circleVec` both branches of `genTorusVertices` build: the scaled
      circle sample in components 0 and 1, zeros after them. */
  method NewCircleVec(D: int, c: real, s: real, t: int) returns (circleVec: array<real>)
    requires D >= 2 && t >= 2
    ensures fresh(circleVec)
    ensures circleVec[..] == CircleVec(D, c, s, t)
  {
    circleVec := new real[D];
    circleVec[0] := c / RealPow2(t - 2);
    circleVec[1] := s / RealPow2(t - 2);
    for fillI := 2 to D
      invariant circleVec[0] == c / RealPow2(t - 2) && circleVec[1] == s / RealPow2(t - 2)
      invariant forall j | 2 <= j < fillI :: circleVec[j] == 0.0
    {
      circleVec[fillI] := 0.0;
    }
  }

  /** The zero-filled buffers of `genVertexData`: D components for each of
      the vertexCount vertices, 3 for each projected vertex and for each
      normal, 6 indices for each of the faceCount faces. */
  method NewBuffers(vertexCount: int, D: int, faceCount: int)
    returns (vertices: array<real>, vertices3d: array<real>, secondaryData: array<real>, indices: array<int>)
    requires vertexCount >= 0 && D >= 0 && faceCount >= 0
    ensures fresh(vertices) && fresh(vertices3d) && fresh(secondaryData) && fresh(indices)
    ensures vertices.Length == vertexCount * D && indices.Length == faceCount * 6
    ensures vertices3d.Length == vertexCount * 3 && secondaryData.Length == vertexCount * 3
    ensures vertices != vertices3d && vertices3d != secondaryData && vertices != secondaryData
  {
    MulMono(0, vertexCount, D);
    vertices := new real[vertexCount * D](_ => 0.0);
    vertices3d := new real[vertexCount * 3](_ => 0.0);
    secondaryData := new real[vertexCount * 3](_ => 0.0);
    indices := new int[faceCount * 6](_ => 0);
  }

  /** The starting vector of sweep i of `genVertexData`: a zero-filled array
      with the circle sample in components 0 and 1. */
  method NewTorusVec(D: int, cos: seq<real>, sin: seq<real>, i: int) returns (torusVec: array<real>)
    requires D >= 2 && IsCircleTable(cos, sin) && 0 <= i < Smoothness
    ensures fresh(torusVec)
    ensures torusVec[..] == BaseVec(D, cos, sin, i)
  {
    torusVec := new real[D](_ => 0.0);
    torusVec[0] := cos[i];
    torusVec[1] := sin[i];
  }

  /** A prefix of a sweep is no longer than a longer prefix. */
  lemma {:induction false} PrefixGrows(D: int, cos: seq<real>, sin: seq<real>, t: int, cur: seq<real>, prev: seq<real>,
                                       i: int, j: int)
    requires D >= 2 && t >= 2 && |cur| == D && |prev| == D && IsCircleTable(cos, sin)
    requires 0 <= i <= j <= Smoothness
    ensures |SweepPrefix(D, cos, sin, t, cur, prev, i)| <= |SweepPrefix(D, cos, sin, t, cur, prev, j)|
    decreases j - i
  {
    if i < j {
      PrefixGrows(D, cos, sin, t, cur, prev, i, j - 1);
    }
  }

  /** Circle sample i of a sweep from axis t appends ChildCount(D, t) points. */
  lemma ChildLength(D: int, cos: seq<real>, sin: seq<real>, t: int, cur: seq<real>, prev: seq<real>, i: int)
    requires D >= 2 && t >= 2 && |cur| == D && |prev| == D && IsCircleTable(cos, sin)
    requires 0 <= i < Smoothness
    ensures |Child(D, cos, sin, t, cur, prev, i)| == ChildCount(D, t)
  {
    var o := Offset(D, cos, sin, t, prev, i);
    if t < D {
      SweepShape(D, cos, sin, t + 1, Add(cur, o), o);
    }
  }

  /** The first i sweeps of `genVertexData` are no more than the first j >= i. */
  lemma {:induction false} TorusPrefixGrows(D: int, cos: seq<real>, sin: seq<real>, i: int, j: int)
    requires D >= 2 && IsCircleTable(cos, sin) && 0 <= i <= j <= Smoothness
    ensures |TorusPrefix(D, cos, sin, i)| <= |TorusPrefix(D, cos, sin, j)|
    decreases j - i
  {
    if i < j {
      TorusPrefixGrows(D, cos, sin, i, j - 1);
    }
  }

  /** The three powers of Smoothness every index group of axis dim uses:
      the ring of S^(dim-1) vertices it wraps around in, and the strides
      S^(dim-2) and S^(dim-3) to its neighbours. */
  method RingSizes(dim: int) returns (P: int, b: int, a: int)
    requires dim >= 3
    ensures P == Pow(Smoothness, dim - 1) && b == Pow(Smoothness, dim - 2) && a == Pow(Smoothness, dim - 3)
  {
    P := PowI(Smoothness, dim - 1);
    b := PowI(Smoothness, dim - 2);
    a := PowI(Smoothness, dim - 3);
  }

  /** The six entries of one index group, written from `pos` on. */
  method WriteGroup(mIndices: array<int>, pos: int, dim: int, i: int)
    requires dim >= 3
    requires 0 <= pos && pos + 6 <= mIndices.Length
    modifies mIndices
    ensures forall k | 0 <= k < 6 :: mIndices[pos + k] == GroupEntry(dim, i, k)
    ensures forall j | 0 <= j < mIndices.Length && !(pos <= j < pos + 6) :: mIndices[j] == old(mIndices[j])
  {
    var P, b, a := RingSizes(dim);
    PowPositive(Smoothness, dim - 1);
    // First triangle
    mIndices[pos + 0] := i;
    mIndices[pos + 1] := (i / P) * P + (i + a) % P;
    mIndices[pos + 2] := (i / P) * P + (i + b) % P;
    // Second triangle
    mIndices[pos + 3] := (i / P) * P + (i + a) % P;
    mIndices[pos + 4] := (i / P) * P + (i + b + a) % P;
    mIndices[pos + 5] := (i / P) * P + (i + b) % P;
  }

  /** After `WriteGroup` for group g, one more group is in the buffer. */
  lemma GroupEmitted(before: seq<int>, after: seq<int>, V: int, g: int, dim: int, i: int)
    requires V > 0 && dim >= 3 && 0 <= i < V && g == (dim - 3) * V + i
    requires |after| == |before| && 6 * g + 6 <= |after|
    requires TorusIndicesDone(before, V, g)
    requires forall j | 0 <= j < |after| && !(6 * g <= j < 6 * g + 6) :: after[j] == before[j]
    requires forall k | 0 <= k < 6 :: after[6 * g + k] == GroupEntry(dim, i, k)
    ensures TorusIndicesDone(after, V, g + 1)
  {
    DivModUnique(dim - 3, V, i);
    MulMono(0, dim - 3, V);
    forall g', k | 0 <= g' < g + 1 && 0 <= k < 6
      ensures 0 <= Slot(g', k, 6) < |after| && after[Slot(g', k, 6)] == TorusIndex(V, g', k)
    {
      if g' < g {
        RecordsOrdered(g', k, g, 6);
      }
    }
  }

  // ---------------------------------------------------------------------
  // The hypertorus
  // ---------------------------------------------------------------------

  class Hypertorus {
    const mDimensions: int
    /** The camera's distance to the hyperplane of projection. */
    const mProjectionConstant: real
    /** cos and sin of 2 pi i / Smoothness, the samples of every circle. */
    const mCos: seq<real>
    const mSin: seq<real>
    var mFaceCount: int
    var mVertices: array<real>
    var mVertices3d: array<real>
    var mSecondaryData: array<real>
    var mIndices: array<int>
    /** The cursor both halves of `genVertexData` write through. */
    var mVertI: int

    /** The buffers hold the whole hypertorus: Smoothness^(D-1) vertices of
        D components in sweep order, and (D - 2) Smoothness^(D-1) faces of two
        triangles each, the index cursor at the end of the index buffer. */
    ghost predicate Generated()
      reads this, mVertices, mIndices
    {
      && mDimensions >= 3 && IsCircleTable(mCos, mSin)
      && mFaceCount == Pow(Smoothness, mDimensions - 1) * (mDimensions - 2)
      && mVertices.Length == Pow(Smoothness, mDimensions - 1) * mDimensions
      && mVertices3d.Length == Pow(Smoothness, mDimensions - 1) * 3
      && mSecondaryData.Length == Pow(Smoothness, mDimensions - 1) * 3
      && mIndices.Length == 6 * mFaceCount
      && Pow(Smoothness, mDimensions - 1) > 0
      && Holds(mVertices[..], mDimensions, 0, TorusVertices(mDimensions, mCos, mSin))
      && TorusIndicesDone(mIndices[..], Pow(Smoothness, mDimensions - 1), mFaceCount)
      && mVertI == mIndices.Length
    }

    /** The constructor runs the two data steps of `init()`: it generates
        the vertex data, then projects it through the `NDShape` the
        hypertorus extends, a view of the same buffers, so that mVertices3d
        holds the three-dimensional collapse of every vertex. */
    constructor (dimensions: int, projectionConstant: real, cos: seq<real>, sin: seq<real>,
                 factor: (real, real) -> real)
      requires dimensions >= 3 && IsCircleTable(cos, sin)
      ensures mDimensions == dimensions && mProjectionConstant == projectionConstant
      ensures mCos == cos && mSin == sin
      ensures Generated()
      ensures Holds(mVertices3d[..], 3, 0, NDShape.Projection(mVertices[..], mDimensions, factor, mProjectionConstant))
    {
      mDimensions := dimensions;
      mProjectionConstant := projectionConstant;
      mCos := cos;
      mSin := sin;
      mVertices := new real[0];
      mVertices3d := new real[0];
      mSecondaryData := new real[0];
      mIndices := new int[0];
      new;
      GenVertexData();
      UpdateProjection(factor);
    }

    /** `updateProjection()` as `init()` calls it on a new hypertorus: the
        `NDShape` loop, run on a shape that views this hypertorus's buffers,
        writes the collapse of every vertex into mVertices3d and changes
        nothing else. */
    method UpdateProjection(factor: (real, real) -> real)
      requires Generated() && mVertices != mVertices3d
      modifies mVertices3d
      ensures Generated()
      ensures mVertices[..] == old(mVertices[..])
      ensures Holds(mVertices3d[..], 3, 0, NDShape.Projection(mVertices[..], mDimensions, factor, mProjectionConstant))
    {
      DivModUnique(Pow(Smoothness, mDimensions - 1), mDimensions, 0);
      assert mVertices.Length / mDimensions == Pow(Smoothness, mDimensions - 1);
      var shape := new NDShape.NDShape(mDimensions, mProjectionConstant, mVertices, mIndices, mVertices3d, mFaceCount);
      shape.UpdateProjection(factor);
    }

    /** `genNDTorusVecRotMatrix(a, prev)`: the D x D basis whose column 0 is
        prev and whose column 1 is the unit vector along axis a, all other
        entries zero. Java zero-fills the new array; the copy of prev is
        repeated for every y of column 0. */
    method GenNDTorusVecRotMatrix(torusVecDimension: int, prevTorusVec: seq<real>) returns (rotMatrix: array2<real>)
      requires mDimensions >= 1 && |prevTorusVec| <= mDimensions
      ensures fresh(rotMatrix)
      ensures rotMatrix.Length0 == mDimensions && rotMatrix.Length1 == mDimensions
      ensures forall x, y | 0 <= x < mDimensions && 0 <= y < mDimensions ::
        rotMatrix[x, y] == RotEntry(prevTorusVec, torusVecDimension, x, y)
    {
      var D := mDimensions;
      rotMatrix := new real[D, D]((x, y) => 0.0);
      for x := 0 to D
        invariant forall x', y | 0 <= x' < x && 0 <= y < D :: rotMatrix[x', y] == RotEntry(prevTorusVec, torusVecDimension, x', y)
        invariant forall x', y | x <= x' < D && 0 <= y < D :: rotMatrix[x', y] == 0.0
      {
        for y := 0 to D
          invariant forall x', y' | 0 <= x' < x && 0 <= y' < D :: rotMatrix[x', y'] == RotEntry(prevTorusVec, torusVecDimension, x', y')
          invariant forall x', y' | x < x' < D && 0 <= y' < D :: rotMatrix[x', y'] == 0.0
          invariant x == 0 && y > 0 ==> forall y' | 0 <= y' < D :: rotMatrix[x, y'] == RotEntry(prevTorusVec, torusVecDimension, x, y')
          invariant x == 0 && y == 0 ==> forall y' | 0 <= y' < D :: rotMatrix[x, y'] == 0.0
          invariant x != 0 ==> forall y' | 0 <= y' < y :: rotMatrix[x, y'] == RotEntry(prevTorusVec, torusVecDimension, x, y')
          invariant x != 0 ==> forall y' | y <= y' < D :: rotMatrix[x, y'] == 0.0
        {
          if x == 0 {
            for prevTVecI := 0 to |prevTorusVec|
              invariant forall x', y' | 0 < x' < D && 0 <= y' < D :: rotMatrix[x', y'] == 0.0
              invariant forall y' | 0 <= y' < prevTVecI :: rotMatrix[0, y'] == prevTorusVec[y']
              invariant forall y' | prevTVecI <= y' < D ::
                rotMatrix[0, y'] == if y > 0 then RotEntry(prevTorusVec, torusVecDimension, 0, y') else 0.0
            {
              rotMatrix[x, prevTVecI] := prevTorusVec[prevTVecI];
            }
          } else if x == 1 && y == torusVecDimension {
            rotMatrix[x, y] := 1.0;
          } else {
            rotMatrix[x, y] := 0.0;
          }
        }
      }
    }

    /** `genTorusVertices(t, cur, prev)`: appends the points of `Sweep` at
        the cursor, D components each, and advances the cursor past them;
        the rest of the vertex buffer is untouched. */
    method GenTorusVertices(torusVecDimension: int, currentVector: seq<real>, prevTorusVec: seq<real>)
      requires mDimensions >= 2 && IsCircleTable(mCos, mSin) && torusVecDimension >= 2
      requires |currentVector| == mDimensions && |prevTorusVec| == mDimensions
      requires 0 <= mVertI && mVertI + Count(mDimensions, torusVecDimension) <= mVertices.Length / mDimensions
      modifies this`mVertI, mVertices
      ensures mVertI == old(mVertI) + Count(mDimensions, torusVecDimension)
      ensures Holds(mVertices[..], mDimensions, old(mVertI),
                    Sweep(mDimensions, mCos, mSin, torusVecDimension, currentVector, prevTorusVec))
      ensures Kept(old(mVertices[..]), mVertices[..], old(mVertI) * mDimensions, mVertI * mDimensions)
      decreases mDimensions - torusVecDimension, 1
    {
      var D, t := mDimensions, torusVecDimension;
      var rotMatrix := GenNDTorusVecRotMatrix(t - 1, prevTorusVec);
      ColumnsOfBasis(rotMatrix, D, t - 1, prevTorusVec);
      ghost var start, orig := mVertI, mVertices[..];
      SweepShape(D, mCos, mSin, t, currentVector, prevTorusVec);
      for i := 0 to Smoothness
        invariant Columns(rotMatrix) == RotMatrix(D, t - 1, prevTorusVec)
        invariant mVertI == start + |SweepPrefix(D, mCos, mSin, t, currentVector, prevTorusVec, i)|
        invariant Holds(mVertices[..], D, start, SweepPrefix(D, mCos, mSin, t, currentVector, prevTorusVec, i))
        invariant Kept(orig, mVertices[..], start * D, mVertI * D)
      {
        ghost var mid, before := mVertI, mVertices[..];
        ChildLength(D, mCos, mSin, t, currentVector, prevTorusVec, i);
        PrefixGrows(D, mCos, mSin, t, currentVector, prevTorusVec, i + 1, Smoothness);
        GenChild(t, currentVector, prevTorusVec, rotMatrix, i);
        assert start * D <= mid * D <= mVertI * D by {
          MulMono(start, mid, D);
          MulMono(mid, mVertI, D);
        }
        KeptCompose(orig, before, mVertices[..], start * D, mid * D, mVertI * D);
        Appended(before, mVertices[..], D, start, SweepPrefix(D, mCos, mSin, t, currentVector, prevTorusVec, i),
                 Child(D, mCos, mSin, t, currentVector, prevTorusVec, i),
                 SweepPrefix(D, mCos, mSin, t, currentVector, prevTorusVec, i + 1), mVertI);
      }
    }

    /** One pass of the loop of `genTorusVertices`: sample i of the circle,
        turned into the plane of prev and axis t - 1, offsets the current
        vector; below the last axis the sweep recurses from there, at the last
        axis the point is copied to the cursor and the cursor advances. Java
        computes the offset `multMatrix(rotMatrix, circleVec)` twice; it is
        computed once here. */
    method GenChild(t: int, currentVector: seq<real>, prevTorusVec: seq<real>, rotMatrix: array2<real>, i: int)
      requires mDimensions >= 2 && IsCircleTable(mCos, mSin) && t >= 2 && 0 <= i < Smoothness
      requires |currentVector| == mDimensions && |prevTorusVec| == mDimensions
      requires Columns(rotMatrix) == RotMatrix(mDimensions, t - 1, prevTorusVec)
      requires 0 <= mVertI && mVertI + ChildCount(mDimensions, t) <= mVertices.Length / mDimensions
      modifies this`mVertI, mVertices
      ensures mVertI == old(mVertI) + ChildCount(mDimensions, t)
      ensures Holds(mVertices[..], mDimensions, old(mVertI), Child(mDimensions, mCos, mSin, t, currentVector, prevTorusVec, i))
      ensures Kept(old(mVertices[..]), mVertices[..], old(mVertI) * mDimensions, mVertI * mDimensions)
      decreases mDimensions - t, 0
    {
      var D := mDimensions;
      var circleVec := NewCircleVec(D, mCos[i], mSin[i], t);
      var offset := MultMatrix(Columns(rotMatrix), circleVec[..]);
      assert offset == Offset(D, mCos, mSin, t, prevTorusVec, i);
      if t < D {
        GenTorusVertices(t + 1, Add(currentVector, offset), offset);
      } else {
        StoreVertex(Add(currentVector, offset));
      }
    }

    /** The leaf of the sweep: the point is copied into vertex record mVertI
        and the cursor moves on by one. */
    method StoreVertex(vertex: seq<real>)
      requires mDimensions >= 1 && |vertex| == mDimensions
      requires 0 <= mVertI && mVertI + 1 <= mVertices.Length / mDimensions
      modifies this`mVertI, mVertices
      ensures mVertI == old(mVertI) + 1
      ensures Holds(mVertices[..], mDimensions, old(mVertI), [vertex])
      ensures Kept(old(mVertices[..]), mVertices[..], old(mVertI) * mDimensions, mVertI * mDimensions)
    {
      var D := mDimensions;
      RecordFits(mVertI, mVertI + 1, mVertices.Length, D);
      ArrayCopy(vertex, 0, mVertices, mVertI * D, D);
      HoldsOne(mVertices[..], D, mVertI, vertex);
      mVertI := mVertI + 1;
      assert (mVertI - 1) * D + D == mVertI * D;
    }

    /** The sweep loop of `genVertexData`: one sweep from axis 3 for every
        sample of the circle in the plane of axes 0 and 1. Afterwards the
        vertex buffer holds `TorusVertices` and the cursor is at its end. */
    method SweepAll()
      requires mDimensions >= 3 && IsCircleTable(mCos, mSin)
      requires mVertI == 0 && mVertices.Length == Pow(Smoothness, mDimensions - 1) * mDimensions
      modifies this`mVertI, mVertices
      ensures mVertI == Pow(Smoothness, mDimensions - 1)
      ensures Holds(mVertices[..], mDimensions, 0, TorusVertices(mDimensions, mCos, mSin))
    {
      TorusShape(mDimensions, mCos, mSin);
      DivModUnique(Pow(Smoothness, mDimensions - 1), mDimensions, 0);
      for i := 0 to Smoothness
        invariant mVertI == |TorusPrefix(mDimensions, mCos, mSin, i)|
        invariant Holds(mVertices[..], mDimensions, 0, TorusPrefix(mDimensions, mCos, mSin, i))
      {
        TorusPrefixGrows(mDimensions, mCos, mSin, i + 1, Smoothness);
        SweepFrom(i);
      }
    }

    /** Pass i of the sweep loop of `genVertexData`: the sweep from axis 3
        that starts at sample i of the circle in the plane of axes 0 and 1
        extends the points in the buffer from `TorusPrefix(i)` to
        `TorusPrefix(i + 1)`. */
    method SweepFrom(i: int)
      requires mDimensions >= 3 && IsCircleTable(mCos, mSin) && 0 <= i < Smoothness
      requires mVertI == |TorusPrefix(mDimensions, mCos, mSin, i)|
      requires |TorusPrefix(mDimensions, mCos, mSin, i + 1)| <= mVertices.Length / mDimensions
      requires Holds(mVertices[..], mDimensions, 0, TorusPrefix(mDimensions, mCos, mSin, i))
      modifies this`mVertI, mVertices
      ensures mVertI == |TorusPrefix(mDimensions, mCos, mSin, i + 1)|
      ensures Holds(mVertices[..], mDimensions, 0, TorusPrefix(mDimensions, mCos, mSin, i + 1))
    {
      var D := mDimensions;
      var torusVec := NewTorusVec(D, mCos, mSin, i);
      var tv := torusVec[..];
      ghost var before := mVertices[..];
      TorusStep(D, mCos, mSin, i, tv);
      GenTorusVertices(3, tv, tv);
      Appended(before, mVertices[..], D, 0, TorusPrefix(D, mCos, mSin, i), Sweep(D, mCos, mSin, 3, tv, tv),
               TorusPrefix(D, mCos, mSin, i + 1), mVertI);
    }

    /** The index loops of `genVertexData`: for every axis dim from 3 to D and
        every vertex i, the group of two triangles `GroupEntry(dim, i, _)`,
        written through the cursor from index 0 on. */
    method EmitIndices()
      requires mDimensions >= 3
      requires Pow(Smoothness, mDimensions - 1) > 0
      requires mVertices.Length == Pow(Smoothness, mDimensions - 1) * mDimensions
      requires mIndices.Length == 6 * (Pow(Smoothness, mDimensions - 1) * (mDimensions - 2))
      modifies this`mVertI, mIndices
      ensures TorusIndicesDone(mIndices[..], Pow(Smoothness, mDimensions - 1), (mDimensions - 2) * Pow(Smoothness, mDimensions - 1))
      ensures mVertI == mIndices.Length
    {
      ghost var V := Pow(Smoothness, mDimensions - 1);
      mVertI := 0;
      var dim := 3;
      while dim <= mDimensions
        invariant 3 <= dim <= mDimensions + 1
        invariant mVertI == 6 * ((dim - 3) * V)
        invariant TorusIndicesDone(mIndices[..], V, (dim - 3) * V)
      {
        EmitAxis(dim);
        dim := dim + 1;
      }
    }

    /** One pass of the outer index loop of `genVertexData`: the V groups of
        axis dim, one per vertex, follow the groups of the axes before it. */
    method EmitAxis(dim: int)
      requires 3 <= dim <= mDimensions
      requires Pow(Smoothness, mDimensions - 1) > 0
      requires mVertices.Length == Pow(Smoothness, mDimensions - 1) * mDimensions
      requires mIndices.Length == 6 * (Pow(Smoothness, mDimensions - 1) * (mDimensions - 2))
      requires mVertI == 6 * ((dim - 3) * Pow(Smoothness, mDimensions - 1))
      requires TorusIndicesDone(mIndices[..], Pow(Smoothness, mDimensions - 1), (dim - 3) * Pow(Smoothness, mDimensions - 1))
      modifies this`mVertI, mIndices
      ensures mVertI == 6 * ((dim - 2) * Pow(Smoothness, mDimensions - 1))
      ensures TorusIndicesDone(mIndices[..], Pow(Smoothness, mDimensions - 1), (dim - 2) * Pow(Smoothness, mDimensions - 1))
    {
      var D := mDimensions;
      ghost var V := Pow(Smoothness, D - 1);
      ghost var base, total := (dim - 3) * V, V * (D - 2);
      assert base + V == (dim - 2) * V <= total by {
        MulMono(dim - 2, D - 2, V);
      }
      var vertexCount := mVertices.Length / D;
      assert vertexCount == V by {
        DivModUnique(V, D, 0);
      }
      ghost var g := base;
      var i := 0;
      while i < vertexCount
        invariant 0 <= i <= V
        invariant g == base + i && mVertI == 6 * g
        invariant 6 * g + 6 * (V - i) <= mIndices.Length
        invariant TorusIndicesDone(mIndices[..], V, g)
      {
        EmitGroup(dim, i, V, g);
        g := g + 1;
        i := i + 1;
      }
    }

    /** One pass of the inner index loop of `genVertexData`: group g, the
        one of axis dim and vertex i, is written at the cursor, which moves
        on by 6. */
    method EmitGroup(dim: int, i: int, ghost V: int, ghost g: int)
      requires dim >= 3 && V > 0 && 0 <= i < V && g == (dim - 3) * V + i
      requires mVertI == 6 * g && 6 * g + 6 <= mIndices.Length
      requires TorusIndicesDone(mIndices[..], V, g)
      modifies this`mVertI, mIndices
      ensures mVertI == old(mVertI) + 6
      ensures TorusIndicesDone(mIndices[..], V, g + 1)
    {
      ghost var before := mIndices[..];
      WriteGroup(mIndices, mVertI, dim, i);
      GroupEmitted(before, mIndices[..], V, g, dim, i);
      mVertI := mVertI + 6;
    }

    /** `genVertexData`: allocates the buffers for Smoothness^(D-1) vertices
        and (D - 2) Smoothness^(D-1) faces, sweeps out the vertices, then
        emits the index groups. */
    method GenVertexData()
      requires mDimensions >= 3 && IsCircleTable(mCos, mSin)
      modifies this
      ensures Generated()
      ensures fresh(mVertices) && fresh(mVertices3d) && fresh(mSecondaryData) && fresh(mIndices)
      ensures mVertices != mVertices3d && mVertices3d != mSecondaryData && mVertices != mSecondaryData
    {
      var vertexCount := PowI(Smoothness, mDimensions - 1);
      PowPositive(Smoothness, mDimensions - 1);
      mFaceCount := vertexCount * (mDimensions - 2);
      mVertices, mVertices3d, mSecondaryData, mIndices := NewBuffers(vertexCount, mDimensions, mFaceCount);
      mVertI := 0;
      SweepAll();
      ghost var vertices := mVertices[..];
      EmitIndices();
      assert mVertices[..] == vertices;
      assert mFaceCount == (mDimensions - 2) * vertexCount;
    }
  }
}
