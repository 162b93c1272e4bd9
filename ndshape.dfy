/** NDShape: the base class the hypertorus extends, with its state (flat
    buffers of D-dimensional vertices, of their three-dimensional projections
    and of 6-index faces) and the three loops over it: the perspective
    collapse of every vertex to three dimensions, the rotation of every
    vertex, and the selection sort of the faces by distance.

    `NDVector.rotate` is not part of this model: the rotation of one vertex
    is a parameter, a function that keeps the vertex length. The perspective
    factor mProjectionConstant / (mProjectionConstant + w) is a parameter
    too, `factor(k, w)`; the collapse loop around it is modelled exactly. */
module NDShape {
  import opened Arithmetic
  import opened Buffers

  // ---------------------------------------------------------------------
  // The perspective collapse of `updateProjection`
  // ---------------------------------------------------------------------

  /** x with its components below `upTo` multiplied by f. */
  function Scaled(x: seq<real>, f: real, upTo: int): (y: seq<real>)
    ensures |y| == |x|
  {
    seq(|x|, c requires 0 <= c < |x| => if c < upTo then x[c] * f else x[c])
  }

  /** The vertex after the collapse loop has projected away axes dim, dim - 1,
      .., 3 in this order: projecting away axis d multiplies components
      0 .. d - 2 by factor(k, x[d]) and leaves the others as they are. */
  function Collapse(x: seq<real>, factor: (real, real) -> real, k: real, dim: int): (r: seq<real>)
    requires dim < |x|
    ensures |r| == |x|
    decreases dim
  {
    if dim <= 2 then x else Collapse(Scaled(x, factor(k, x[dim]), dim - 1), factor, k, dim - 1)
  }

  /** The collapse never touches a component from dim - 1 on: in particular,
      for a D-dimensional vertex, components D - 2 and D - 1 keep their
      values. */
  lemma {:induction false} CollapseKeepsTail(x: seq<real>, factor: (real, real) -> real, k: real, dim: int, c: int)
    requires dim < |x| && dim - 1 <= c < |x| && 0 <= c
    ensures Collapse(x, factor, k, dim)[c] == x[c]
    decreases dim
  {
    if dim > 2 {
      var y := Scaled(x, factor(k, x[dim]), dim - 1);
      CollapseKeepsTail(y, factor, k, dim - 1, c);
    }
  }

  /** For a four-dimensional vertex, the collapse scales x and y by the factor
      of w and keeps z and w: unlike `ProjectedDown`, which scales every
      component but the last, it leaves the third component unscaled. */
  lemma CollapseFourDimensions(x: seq<real>, factor: (real, real) -> real, k: real)
    requires |x| == 4
    ensures Collapse(x, factor, k, 3) == [x[0] * factor(k, x[3]), x[1] * factor(k, x[3]), x[2], x[3]]
  {
    var y := Scaled(x, factor(k, x[3]), 2);
    assert Collapse(x, factor, k, 3) == Collapse(y, factor, k, 2) == y;
    assert y[0] == x[0] * factor(k, x[3]) && y[1] == x[1] * factor(k, x[3]) && y[2] == x[2] && y[3] == x[3];
  }

  /** The projected vertices of a buffer of D-dimensional vertices: each one
      collapsed, its first three components kept. */
  function Projection(s: seq<real>, D: int, factor: (real, real) -> real, k: real): (p: seq<seq<real>>)
    requires D >= 3
    ensures |p| == |s| / D
    ensures forall v | 0 <= v < |p| :: |p[v]| == 3
  {
    seq(|s| / D, v requires 0 <= v < |s| / D => Collapse(Record(s, D, v), factor, k, D - 1)[..3])
  }

  /** In three dimensions nothing is collapsed: a buffer of projected
      vertices that holds the projection is the vertex buffer, entry for
      entry. */
  lemma ThreeDimensionalProjectionCopies(s: seq<real>, s3d: seq<real>, factor: (real, real) -> real, k: real)
    requires |s| % 3 == 0 && |s| <= |s3d|
    requires Holds(s3d, 3, 0, Projection(s, 3, factor, k))
    ensures s3d[..|s|] == s
  {
    var p := Projection(s, 3, factor, k);
    FlatSlot(|s|, 3);
    forall j | 0 <= j < |s|
      ensures s3d[j] == s[j]
    {
      FlatSlot(j, 3);
      RecordOfSlot(j, |s| / 3, 3);
      var v := j / 3;
      assert Slot(v, j % 3, 3) == j;
      assert p[v] == Record(s, 3, v);
    }
  }

  /** The component loop of `updateProjection` for axis dim: components
      0 .. dim - 2 multiplied by the factor of component dim, which the loop
      does not change. */
  method ScaleComponents(vertex: array<real>, dim: int, factor: (real, real) -> real, k: real)
    requires 2 < dim < vertex.Length
    modifies vertex
    ensures vertex[..] == Scaled(old(vertex[..]), factor(k, old(vertex[dim])), dim - 1)
  {
    ghost var start := vertex[..];
    ghost var f := factor(k, start[dim]);
    for comp := 0 to dim - 1
      invariant forall c | 0 <= c < vertex.Length :: vertex[c] == if c < comp then start[c] * f else start[c]
    {
      vertex[comp] := vertex[comp] * factor(k, vertex[dim]);
    }
    assert forall c | 0 <= c < vertex.Length :: vertex[..][c] == Scaled(start, f, dim - 1)[c];
  }

  /** The body of the vertex loop of `updateProjection` up to the stores:
      a fresh copy of vertex vertI, collapsed by the dimension loop. */
  method CollapsedCopy(vertices: array<real>, vertI: int, D: int, factor: (real, real) -> real, k: real)
    returns (vertex: array<real>)
    requires D >= 3 && 0 <= vertI < vertices.Length / D
    ensures fresh(vertex)
    ensures vertex[..] == Collapse(Record(vertices[..], D, vertI), factor, k, D - 1)
  {
    ghost var x := Record(vertices[..], D, vertI);
    vertex := new real[D];
    RecordFits(vertI, vertices.Length / D, vertices.Length, D);
    ArrayCopy(vertices[..], vertI * D, vertex, 0, D);
    assert vertex[..] == x;
    var dim := D - 1;
    while dim > 2
      invariant 2 <= dim <= D - 1
      invariant Collapse(vertex[..], factor, k, dim) == Collapse(x, factor, k, D - 1)
      decreases dim
    {
      ScaleComponents(vertex, dim, factor, k);
      dim := dim - 1;
    }
  }

  /** The three stores of `updateProjection`: the first three components of
      vertex into projected vertex vertI; nothing else changes. */
  method StoreProjected(vertices3d: array<real>, vertI: int, vertex: array<real>)
    requires 0 <= vertI && 3 * vertI + 3 <= vertices3d.Length && vertex.Length >= 3 && vertex != vertices3d
    modifies vertices3d
    ensures Holds(vertices3d[..], 3, vertI, [vertex[..3]])
    ensures Kept(old(vertices3d[..]), vertices3d[..], 3 * vertI, 3 * vertI + 3)
  {
    vertices3d[vertI * 3 + 0] := vertex[0];
    vertices3d[vertI * 3 + 1] := vertex[1];
    vertices3d[vertI * 3 + 2] := vertex[2];
    assert forall c | 0 <= c < 3 :: vertices3d[Slot(vertI, c, 3)] == vertex[..3][c];
  }

  // ---------------------------------------------------------------------
  // The rotation of `rotate`
  // ---------------------------------------------------------------------

  /** Every vertex of a buffer of D-dimensional vertices, rotated. */
  function Rotated(s: seq<real>, D: int, rotation: seq<real> -> seq<real>): (q: seq<seq<real>>)
    requires D > 0
    ensures |q| == |s| / D
  {
    seq(|s| / D, v requires 0 <= v < |s| / D => rotation(Record(s, D, v)))
  }

  // ---------------------------------------------------------------------
  // The faces of `sortFaces`
  // ---------------------------------------------------------------------

  /** The first n faces, each its group of six indices paired with its
      distance. */
  function Faces(indices: seq<int>, dists: seq<real>, n: int): (fs: seq<(seq<int>, real)>)
    requires 0 <= n <= |dists| && n <= |indices| / 6
    ensures |fs| == n
  {
    seq(n, f requires 0 <= f < n => (Record(indices, 6, f), dists[f]))
  }

  /** s with its entries i and j exchanged. */
  function Swapped<T>(s: seq<T>, i: int, j: int): (r: seq<T>)
    requires 0 <= i < |s| && 0 <= j < |s|
    ensures |r| == |s|
  {
    s[i := s[j]][j := s[i]]
  }

  /** Exchanging two entries keeps the multiset of the entries. */
  lemma SwappedPermutes<T>(s: seq<T>, i: int, j: int)
    requires 0 <= i < |s| && 0 <= j < |s|
    ensures multiset(Swapped(s, i, j)) == multiset(s)
  {
    var t := s[i := s[j]];
    assert multiset(t) == multiset(s) - multiset{s[i]} + multiset{s[j]};
    assert multiset(t[j := s[i]]) == multiset(t) - multiset{t[j]} + multiset{s[i]};
  }

  /** Farthest first. */
  predicate NonIncreasing(d: seq<real>)
  {
    forall a, b | 0 <= a < b < |d| :: d[a] >= d[b]
  }

  /** The first `upTo` distances are in place: each is at least every
      distance after it. */
  predicate SortedUpTo(d: seq<real>, upTo: int)
  {
    forall a, b | 0 <= a < upTo && a < b < |d| :: d[a] >= d[b]
  }

  /** One round of the selection sort: with the first i distances in place,
      exchanging distance i with a largest one from i on puts the first
      i + 1 in place. */
  lemma SelectionStep(d: seq<real>, i: int, far: int)
    requires 0 <= i <= far < |d| && SortedUpTo(d, i)
    requires forall f | i <= f < |d| :: d[f] <= d[far]
    ensures SortedUpTo(Swapped(d, i, far), i + 1)
  {
    var d' := Swapped(d, i, far);
    forall a, b | 0 <= a < i + 1 && a < b < |d'|
      ensures d'[a] >= d'[b]
    {
      if a < i {
        assert d'[a] == d[a];
        assert d'[b] == d[b] || d'[b] == d[i] || d'[b] == d[far];
      }
    }
  }

  /** Once all but the last distance are in place, the distances are in
      order, farthest first. */
  lemma SortedUpToEnd(d: seq<real>, upTo: int)
    requires SortedUpTo(d, upTo) && upTo >= |d| - 1
    ensures NonIncreasing(d)
  {
  }

  /** The first face from `from` on with the largest distance: `sortFaces`
      replaces its candidate only by a strictly larger distance. */
  method FarthestFrom(faceDists: array<real>, from: int) returns (farthestFaceI: int)
    requires 0 <= from < faceDists.Length
    ensures from <= farthestFaceI < faceDists.Length
    ensures forall f | from <= f < faceDists.Length :: faceDists[f] <= faceDists[farthestFaceI]
    ensures forall f | from <= f < farthestFaceI :: faceDists[f] < faceDists[farthestFaceI]
  {
    farthestFaceI := from;
    var farthestFaceDist := faceDists[from];
    for faceI2 := from + 1 to faceDists.Length
      invariant from <= farthestFaceI < faceI2
      invariant farthestFaceDist == faceDists[farthestFaceI]
      invariant forall f | from <= f < faceI2 :: faceDists[f] <= farthestFaceDist
      invariant forall f | from <= f < farthestFaceI :: faceDists[f] < farthestFaceDist
    {
      var faceI2Dist := faceDists[faceI2];
      if faceI2Dist > farthestFaceDist {
        farthestFaceI := faceI2;
        farthestFaceDist := faceI2Dist;
      }
    }
  }

  // ---------------------------------------------------------------------
  // The shape
  // ---------------------------------------------------------------------

  class NDShape {
    const mDimensions: int
    const mProjectionConstant: real
    /** D components per vertex. */
    var mVertices: array<real>
    /** Six vertex numbers, two triangles, per face. */
    var mIndices: array<int>
    /** Three components per projected vertex. */
    var mVertices3d: array<real>
    var mFaceCount: int

    /** The shape over buffers a generator has filled. */
    constructor (dimensions: int, projectionConstant: real, vertices: array<real>, indices: array<int>,
                 vertices3d: array<real>, faceCount: int)
      ensures mDimensions == dimensions && mProjectionConstant == projectionConstant
      ensures mVertices == vertices && mIndices == indices && mVertices3d == vertices3d
      ensures mFaceCount == faceCount
    {
      mDimensions := dimensions;
      mProjectionConstant := projectionConstant;
      mVertices := vertices;
      mIndices := indices;
      mVertices3d := vertices3d;
      mFaceCount := faceCount;
    }

    /** `updateProjection`: every whole vertex of mVertices collapsed into
        entries 3v .. 3v + 2 of mVertices3d; mVertices3d keeps its entries
        after those and mVertices does not change. */
    method UpdateProjection(factor: (real, real) -> real)
      requires mDimensions >= 3 && mVertices3d != mVertices
      requires 3 * (mVertices.Length / mDimensions) <= mVertices3d.Length
      modifies mVertices3d
      ensures mVertices[..] == old(mVertices[..])
      ensures Holds(mVertices3d[..], 3, 0, Projection(mVertices[..], mDimensions, factor, mProjectionConstant))
      ensures Kept(old(mVertices3d[..]), mVertices3d[..], 0, 3 * (mVertices.Length / mDimensions))
    {
      var vertexCount := mVertices.Length / mDimensions;
      ghost var p := Projection(mVertices[..], mDimensions, factor, mProjectionConstant);
      for vertI := 0 to vertexCount
        invariant Holds(mVertices3d[..], 3, 0, p[..vertI])
        invariant Kept(old(mVertices3d[..]), mVertices3d[..], 0, 3 * vertI)
      {
        ghost var before := mVertices3d[..];
        ProjectVertex(vertI, factor);
        KeptCompose(old(mVertices3d[..]), before, mVertices3d[..], 0, 3 * vertI, 3 * vertI + 3);
        Appended(before, mVertices3d[..], 3, 0, p[..vertI], [p[vertI]], p[..vertI + 1], vertI + 1);
      }
      assert p[..vertexCount] == p;
    }

    /** One pass of the vertex loop of `updateProjection`: a copy of vertex
        vertI collapsed by the dimension loop, its first three components
        written to the projected vertex vertI. */
    method ProjectVertex(vertI: int, factor: (real, real) -> real)
      requires mDimensions >= 3 && mVertices3d != mVertices
      requires 0 <= vertI < mVertices.Length / mDimensions && 3 * vertI + 3 <= mVertices3d.Length
      modifies mVertices3d
      ensures Holds(mVertices3d[..], 3, vertI,
                    [Collapse(Record(mVertices[..], mDimensions, vertI), factor, mProjectionConstant, mDimensions - 1)[..3]])
      ensures Kept(old(mVertices3d[..]), mVertices3d[..], 3 * vertI, 3 * vertI + 3)
    {
      var vertex := CollapsedCopy(mVertices, vertI, mDimensions, factor, mProjectionConstant);
      StoreProjected(mVertices3d, vertI, vertex);
    }

    /** `rotate`: every vertex, visited at stride D, replaced by its rotation
        in the same place. */
    method Rotate(angle: real, rotationPlane: seq<int>, ndRotate: (seq<real>, real, seq<int>) -> seq<real>)
      requires mDimensions > 0 && mVertices.Length % mDimensions == 0
      requires forall x: seq<real> | |x| == mDimensions :: |ndRotate(x, angle, rotationPlane)| == mDimensions
      modifies mVertices
      ensures forall v | 0 <= v < mVertices.Length / mDimensions ::
        Record(mVertices[..], mDimensions, v) == ndRotate(Record(old(mVertices[..]), mDimensions, v), angle, rotationPlane)
    {
      var D := mDimensions;
      ghost var s0 := mVertices[..];
      ghost var n := mVertices.Length / D;
      ghost var q := Rotated(s0, D, x => ndRotate(x, angle, rotationPlane));
      FlatSlot(mVertices.Length, D);
      var vertI := 0;
      ghost var v := 0;
      while vertI < mVertices.Length
        invariant 0 <= v <= n && vertI == v * D
        invariant Holds(mVertices[..], D, 0, q[..v])
        invariant Kept(s0, mVertices[..], 0, vertI)
        decreases n - v
      {
        if v >= n {
          MulMono(n, v, D);
        }
        ghost var before := mVertices[..];
        RecordKept(s0, before, D, v, 0, vertI);
        RotateVertex(vertI, v, angle, rotationPlane, ndRotate);
        KeptCompose(s0, before, mVertices[..], 0, vertI, vertI + D);
        assert (0 + |q[..v]|) * D == vertI && (v + 1) * D == vertI + D;
        assert [q[v]] == [ndRotate(Record(before, D, v), angle, rotationPlane)];
        Appended(before, mVertices[..], D, 0, q[..v], [q[v]], q[..v + 1], v + 1);
        vertI := vertI + D;
        v := v + 1;
      }
      if v < n {
        MulMono(v + 1, n, D);
      }
      assert q[..v] == q;
      assert forall u | 0 <= u < |q| :: |q[u]| == D by {
        forall u | 0 <= u < |q|
          ensures |q[u]| == D
        {
          assert |Record(s0, D, u)| == D;
        }
      }
      HoldsRecords(mVertices[..], D, q);
    }

    /** One pass of the loop of `rotate`: vertex v, which starts at vertI,
        copied out, rotated and copied back. */
    method RotateVertex(vertI: int, ghost v: int, angle: real, rotationPlane: seq<int>,
                        ndRotate: (seq<real>, real, seq<int>) -> seq<real>)
      requires mDimensions > 0 && 0 <= v < mVertices.Length / mDimensions && vertI == v * mDimensions
      requires forall x: seq<real> | |x| == mDimensions :: |ndRotate(x, angle, rotationPlane)| == mDimensions
      modifies mVertices
      ensures Holds(mVertices[..], mDimensions, v,
                    [ndRotate(Record(old(mVertices[..]), mDimensions, v), angle, rotationPlane)])
      ensures Kept(old(mVertices[..]), mVertices[..], vertI, vertI + mDimensions)
    {
      var D := mDimensions;
      ghost var x := Record(mVertices[..], D, v);
      RecordFits(v, mVertices.Length / D, mVertices.Length, D);
      var vertex := new real[D];
      ArrayCopy(mVertices[..], vertI, vertex, 0, D);
      assert vertex[..] == x;
      var rotated := ndRotate(vertex[..], angle, rotationPlane);
      ArrayCopy(rotated, 0, mVertices, vertI, D);
      assert forall c | 0 <= c < D :: mVertices[Slot(v, c, D)] == rotated[c];
    }

    /** `sortFaces`, after the face distances: a selection sort, farthest
        first, that moves each face's group of six indices along with its
        distance. faceDists holds the distance of every face. */
    method SortFaces(faceDists: array<real>)
      requires faceDists.Length == mFaceCount && 6 * mFaceCount <= mIndices.Length
      modifies mIndices, faceDists
      ensures NonIncreasing(faceDists[..])
      ensures multiset(Faces(mIndices[..], faceDists[..], mFaceCount))
           == multiset(old(Faces(mIndices[..], faceDists[..], mFaceCount)))
      ensures Kept(old(mIndices[..]), mIndices[..], 0, 6 * mFaceCount)
    {
      ghost var faces0 := Faces(mIndices[..], faceDists[..], mFaceCount);
      var faceI := 0;
      while faceI < mFaceCount - 1
        invariant 0 <= faceI && (faceI == 0 || faceI <= mFaceCount - 1)
        invariant SortedUpTo(faceDists[..], faceI)
        invariant multiset(Faces(mIndices[..], faceDists[..], mFaceCount)) == multiset(faces0)
        invariant Kept(old(mIndices[..]), mIndices[..], 0, 6 * mFaceCount)
      {
        var farthestFaceI := FarthestFrom(faceDists, faceI);
        ghost var d := faceDists[..];
        ghost var fs := Faces(mIndices[..], faceDists[..], mFaceCount);
        SwapFaces(faceDists, faceI, farthestFaceI);
        SwappedPermutes(fs, faceI, farthestFaceI);
        SelectionStep(d, faceI, farthestFaceI);
        faceI := faceI + 1;
      }
      SortedUpToEnd(faceDists[..], faceI);
    }

    /** The swap of `sortFaces`: the index groups of faces i and j exchanged
        through a temporary array, and their distances with them. A face
        swapped with itself stays as it was. */
    method SwapFaces(faceDists: array<real>, i: int, j: int)
      requires faceDists.Length == mFaceCount && 6 * mFaceCount <= mIndices.Length
      requires 0 <= i < mFaceCount && 0 <= j < mFaceCount
      modifies mIndices, faceDists
      ensures faceDists[..] == Swapped(old(faceDists[..]), i, j)
      ensures Faces(mIndices[..], faceDists[..], mFaceCount)
           == Swapped(old(Faces(mIndices[..], faceDists[..], mFaceCount)), i, j)
      ensures Kept(old(mIndices[..]), mIndices[..], 0, 6 * mFaceCount)
      ensures i == j ==> mIndices[..] == old(mIndices[..])
    {
      ghost var fs := Faces(mIndices[..], faceDists[..], mFaceCount);
      SwapGroups(mIndices, mFaceCount, i, j);
      var temp2 := faceDists[i];
      faceDists[i] := faceDists[j];
      faceDists[j] := temp2;
      assert forall f | 0 <= f < mFaceCount ::
        Faces(mIndices[..], faceDists[..], mFaceCount)[f] == Swapped(fs, i, j)[f];
    }
  }

  /** The three copies of `sortFaces` that exchange the index groups of faces
      i and j through a temporary array. */
  method SwapGroups(indices: array<int>, n: int, i: int, j: int)
    requires 6 * n <= indices.Length && 0 <= i < n && 0 <= j < n
    modifies indices
    ensures forall f | 0 <= f < n ::
      Record(indices[..], 6, f) == Record(old(indices[..]), 6, if f == i then j else if f == j then i else f)
    ensures Kept(old(indices[..]), indices[..], 0, 6 * n)
    ensures i == j ==> indices[..] == old(indices[..])
  {
    ghost var s0 := indices[..];
    var temp := new int[6];
    ArrayCopy(indices[..], i * 6, temp, 0, 6);
    ArrayCopy(indices[..], j * 6, indices, i * 6, 6);
    ghost var s1 := indices[..];
    var t := temp[..];
    ArrayCopy(t, 0, indices, j * 6, 6);
    GroupsSwapped(s0, t, s1, indices[..], n, i, j);
    if i == j {
      assert indices[..] == s0;
    }
  }

  /** The three copies of `SwapGroups`: t is group i of s0, s1 is s0 with
      group j copied over group i, s2 is s1 with t copied over group j.
      Then groups i and j of s0 are exchanged in s2, every other group is as
      it was, and with i == j nothing has changed. */
  lemma GroupsSwapped(s0: seq<int>, t: seq<int>, s1: seq<int>, s2: seq<int>, n: int, i: int, j: int)
    requires 6 * n <= |s0| && 0 <= i < n && 0 <= j < n && |t| == 6
    requires forall k | 0 <= k < 0 + 6 :: t[k] == s0[i * 6 + (k - 0)]
    requires Kept(s0, s1, i * 6, i * 6 + 6) && forall k | i * 6 <= k < i * 6 + 6 :: s1[k] == s0[j * 6 + (k - i * 6)]
    requires Kept(s1, s2, j * 6, j * 6 + 6) && forall k | j * 6 <= k < j * 6 + 6 :: s2[k] == t[0 + (k - j * 6)]
    ensures Kept(s0, s2, 0, 6 * n)
    ensures forall f | 0 <= f < n :: Record(s2, 6, f) == Record(s0, 6, if f == i then j else if f == j then i else f)
    ensures i == j ==> s2 == s0
  {
    forall f | 0 <= f < n
      ensures Record(s2, 6, f) == Record(s0, 6, if f == i then j else if f == j then i else f)
    {
      var g := if f == i then j else if f == j then i else f;
      forall c | 0 <= c < 6
        ensures Record(s2, 6, f)[c] == Record(s0, 6, g)[c]
      {
        assert Slot(f, c, 6) == 6 * f + c;
      }
    }
    if i == j {
      assert forall k | 0 <= k < |s0| :: s2[k] == s0[k];
    }
  }

  /** A record at or after the end of the changed window keeps its contents. */
  lemma RecordKept(s: seq<real>, s': seq<real>, w: int, v: int, lo: int, hi: int)
    requires w > 0 && 0 <= v < |s| / w && Kept(s, s', lo, hi) && hi <= v * w
    ensures Record(s', w, v) == Record(s, w, v)
  {
  }
}
