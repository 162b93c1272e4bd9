/** Utils: integer exponentiation by squaring, which every shape uses for its
    sizes and offsets, and the perspective projection of one vertex down one
    dimension or down to three dimensions. Java's `float` is modelled as `real`
    and `int` as unbounded `int`. */
module Utils {
  import opened Arithmetic

  /** b to the power e: the value exponentiation by squaring computes. */
  function Pow(b: int, e: nat): int
  {
    if e == 0 then 1 else b * Pow(b, e - 1)
  }

  /** Java's `x >>= 1` on an `int`: an arithmetic shift, which rounds towards
      minus infinity, just like Euclidean division by 2. A positive value
      strictly decreases towards 0, and a negative one stays negative. */
  function ShiftRight(x: int): (r: int)
    ensures x > 0 ==> 0 <= r < x
    ensures x == 0 ==> r == 0
    ensures x < 0 ==> x <= r < 0
  {
    x / 2
  }

  /** x after n shifts to the right. */
  function ShiftedRight(x: int, n: nat): int
    decreases n
  {
    if n == 0 then x else ShiftedRight(ShiftRight(x), n - 1)
  }

  /** Exponents multiply out: b^(m+n) == b^m * b^n. */
  lemma {:induction false} PowAdd(b: int, m: nat, n: nat)
    ensures Pow(b, m + n) == Pow(b, m) * Pow(b, n)
  {
    if m > 0 {
      PowAdd(b, m - 1, n);
      assert Pow(b, m + n) == b * Pow(b, (m - 1) + n);
    }
  }

  /** Squaring the base halves the exponent: (b*b)^k == b^(2k). */
  lemma {:induction false} PowSquare(b: int, k: nat)
    ensures Pow(b * b, k) == Pow(b, 2 * k)
  {
    if k > 0 {
      PowSquare(b, k - 1);
      assert Pow(b, 2 * k) == b * (b * Pow(b, 2 * (k - 1)));
    }
  }

  /** A positive base has a positive power. */
  lemma {:induction false} PowPositive(b: int, e: nat)
    requires b >= 1
    ensures Pow(b, e) >= 1
  {
    if e > 0 {
      PowPositive(b, e - 1);
      MulMono(1, b, Pow(b, e - 1));
    }
  }

  /** For a positive base, S^a divides S^b whenever a <= b. The hypertorus's
      ring sizes S^(dim-1) divide its vertex count S^(D-1) because of this. */
  lemma PowDivides(s: int, a: nat, b: nat)
    requires s >= 1 && a <= b
    ensures Pow(s, a) >= 1
    ensures Pow(s, b) == Pow(s, b - a) * Pow(s, a)
    ensures Pow(s, b) % Pow(s, a) == 0
  {
    PowPositive(s, a);
    PowAdd(s, b - a, a);
    DivModUnique(Pow(s, b - a), Pow(s, a), 0);
  }

  /** A negative exponent never reaches 0 however often it is shifted, so
      `PowI`'s loop `while (exponent != 0)` would not terminate on it: the
      precondition `exponent >= 0` is needed. */
  lemma {:induction false} NegativeExponentNeverZero(x: int, n: nat)
    requires x < 0
    ensures ShiftedRight(x, n) < 0
    decreases n
  {
    if n > 0 {
      NegativeExponentNeverZero(ShiftRight(x), n - 1);
    }
  }

  /** Integer exponentiation by squaring. The loop keeps
      `result * base^exponent` equal to the requested power. */
  method PowI(base: int, exponent: int) returns (result: int)
    requires exponent >= 0
    ensures result == Pow(base, exponent)
    ensures exponent == 0 ==> result == 1
  {
    var b, e := base, exponent;
    result := 1;
    while e != 0
      invariant e >= 0
      invariant result * Pow(b, e) == Pow(base, exponent)
      decreases e
    {
      var half := ShiftRight(e);
      PowSquare(b, half);
      if e % 2 != 0 {
        // e == 2 * half + 1
        assert Pow(b, e) == b * Pow(b, 2 * half);
        result := result * b;
      }
      e := half;
      b := b * b;
    }
  }

  /** The vector `projectDown` computes: every component but the last scaled
      by k / (k + last), the last one dropped. */
  function ProjectedDown(v: seq<real>, k: real): (r: seq<real>)
    requires |v| >= 1 && k + v[|v| - 1] != 0.0
    ensures |r| == |v| - 1
  {
    seq(|v| - 1, i requires 0 <= i < |v| - 1 => v[i] * (k / (k + v[|v| - 1])))
  }

  /** The documented precondition of the projections made exact: no
      perspective division on the way down to three dimensions is by zero. */
  predicate Projectable(v: seq<real>, k: real)
    decreases |v|
  {
    |v| <= 3 || (k + v[|v| - 1] != 0.0 && Projectable(ProjectedDown(v, k), k))
  }

  /** The vector `projectTo3D` computes: `ProjectedDown` repeated until at
      most three components are left. It has exactly three components when
      the input had at least three, and it is the input itself when the input
      had at most three. */
  function ProjectedTo3D(v: seq<real>, k: real): (r: seq<real>)
    requires Projectable(v, k)
    ensures |v| >= 3 ==> |r| == 3
    ensures |v| <= 3 ==> r == v
    decreases |v|
  {
    if |v| <= 3 then v else ProjectedTo3D(ProjectedDown(v, k), k)
  }

  /** `projectDown`: fills a fresh array one component shorter than the input. */
  method ProjectDown(vertex: array<real>, projectionConstant: real) returns (projVertex: array<real>)
    requires vertex.Length >= 1
    requires projectionConstant + vertex[vertex.Length - 1] != 0.0
    ensures fresh(projVertex)
    ensures projVertex[..] == ProjectedDown(vertex[..], projectionConstant)
  {
    projVertex := new real[vertex.Length - 1];
    for i := 0 to vertex.Length - 1
      invariant forall j | 0 <= j < i ::
        projVertex[j] == vertex[j] * (projectionConstant / (projectionConstant + vertex[vertex.Length - 1]))
    {
      projVertex[i] := vertex[i] * (projectionConstant / (projectionConstant + vertex[vertex.Length - 1]));
    }
    assert forall j | 0 <= j < projVertex.Length ::
      projVertex[..][j] == ProjectedDown(vertex[..], projectionConstant)[j];
  }

  /** `projectTo3D`: clones the input and projects the clone down until it
      has at most three components. The input is not modified. */
  method ProjectTo3D(vertex: array<real>, projectionConstant: real) returns (projVertex: array<real>)
    requires Projectable(vertex[..], projectionConstant)
    ensures fresh(projVertex)
    ensures projVertex[..] == ProjectedTo3D(vertex[..], projectionConstant)
  {
    projVertex := new real[vertex.Length](i requires 0 <= i < vertex.Length reads vertex => vertex[i]);
    assert projVertex[..] == vertex[..];
    while projVertex.Length > 3
      invariant fresh(projVertex)
      invariant Projectable(projVertex[..], projectionConstant)
      invariant ProjectedTo3D(projVertex[..], projectionConstant) == ProjectedTo3D(vertex[..], projectionConstant)
      decreases projVertex.Length
    {
      ghost var before := projVertex[..];
      projVertex := ProjectDown(projVertex, projectionConstant);
      assert ProjectedTo3D(before, projectionConstant) == ProjectedTo3D(projVertex[..], projectionConstant);
    }
  }
}
