# NDRenderer core in Dafny

NDRenderer draws n-dimensional shapes by perspective-projecting them down to
three dimensions. This project models the part of it that does not touch the
GPU, and proves properties of that model:

- **Utils**: integer exponentiation by squaring (`powI`), which gives every
  shape its sizes and offsets. Also the perspective projection of one vertex
  down by one dimension (`projectDown`) and down to three dimensions
  (`projectTo3D`).
- **Hypercube**: the face generator of the D-cube. Every 2-face is named by
  the D-2 *locked* axes and the ±1 value each locked axis is held at.
  `nextLockedAxes` steps through the combinations of locked axes in
  lexicographic order. `nextLockedAxesValues` steps through the sign tuples
  like a binary counter. `getUnlockedAxes` finds the two free axes.
  `genVertexData` writes four corners and six indices per face through two
  cursors.
- **Hypertorus**: the N-torus generator. It sweeps each vertex around
  Smoothness = 15 sample points per circle. A rotation matrix built by
  `genNDTorusVecRotMatrix` tilts every circle into the plane of the previous
  radius vector. The recursive `genTorusVertices` writes vertices through the
  `mVertI` cursor. Then `genVertexData` emits two triangles per vertex and per
  sweep axis.
- **NDShape**: the abstract base class of `Hypertorus`. It holds the flat
  buffers and runs three loops over them. `Hypercube` is a stand-alone class
  that does not extend it. `rotate` rotates every
  vertex in place and copies it back into the flat buffer. `updateProjection`
  collapses every vertex to three components. `sortFaces` is a selection sort
  of the faces, farthest first, that swaps each face's six indices together
  with its distance.

The model keeps the source's form:

- Each Java class that updates its fields becomes a Dafny `class`: `Hypercube`,
  `Hypertorus` and `NDShape`.
- Flat `float[]` and `int[]` buffers become arrays of `real` and `int`.
- Every loop becomes a `while` or `for` loop with its invariants.
- Each method is proved against a specification function. Examples:
  `Pow` for `powI`, `LockedSuccessor` for `nextLockedAxes`, `Sweep` and
  `TorusVertices` for `genTorusVertices`, `VerticesDone` and `IndicesDone` for
  the hypercube's buffers.
- Lemmas prove what the source relies on about those functions, for example
  that:
  - every face is emitted exactly once;
  - two consecutive corners of a face differ in one axis;
  - the sign counter is a binary counter;
  - every index lies below the vertex count;
  - the selection sort leaves the distances non-increasing and only permutes
    the faces.

The modules are `Arithmetic` (slot arithmetic of flat buffers), `Buffers` (a
flat buffer holding a sequence of records, and `System.arraycopy`), `Utils`,
`Hypercube`, `Hypertorus` and `NDShape`.

Modelling conventions:

- Java `float` is modelled as `real`, and Java `int` as an unbounded `int`.
- `Math.cos` and `Math.sin` of the sample angles become the two tables
  `cos` and `sin`, which are inputs.
- The perspective factor of `updateProjection` is the parameter `factor`.
- `NDVector.rotate` is the parameter `ndRotate`.
- `NDVector.java` at this revision has only `cross`, `normalize`,
  `getLength` and `mult`. It has no `add`, `multMatrix` or `rotate`, so the
  model defines the first two itself:
  - `Add` is component-wise addition of two vectors of one length.
  - `MultMatrix` computes `result[row] = Σ_col M[col][row] · v[col]`. The
    matrix is indexed [column][row], the layout `genNDTorusVecRotMatrix`
    fills at Hypertorus.java:30-52.
- A Java `Hypertorus` extends `NDShape`. The model keeps them as two classes:
  the hypertorus constructor builds an `NDShape` over its own buffers and runs
  that shape's `updateProjection` loop.

## Model

| member | source | states |
|---|---|---|
| Utils.PowI | app/src/main/java/com/sudo_code/ndrenderer/Utils.java:54-67 | for every non-negative exponent, exponentiation by squaring returns exactly base^exponent (1 for exponent 0) |
| Utils.ShiftRight | app/src/main/java/com/sudo_code/ndrenderer/Utils.java:62 | `exponent >>= 1` moves a positive value strictly towards 0, keeps 0 at 0 and keeps a negative value negative |
| Utils.NegativeExponentNeverZero | app/src/main/java/com/sudo_code/ndrenderer/Utils.java:57-63 | a negative exponent stays negative after any number of shifts, so the `exponent != 0` loop never ends on it; this is why `PowI` needs exponent ≥ 0 |
| Utils.PowAdd | app/src/main/java/com/sudo_code/ndrenderer/Utils.java:54-67 | b^(m+n) == b^m · b^n, the identity behind the squaring steps |
| Utils.PowSquare | app/src/main/java/com/sudo_code/ndrenderer/Utils.java:62-63 | squaring the base is doubling the exponent: (b·b)^k == b^(2k) |
| Utils.PowDivides | app/src/main/java/com/sudo_code/ndrenderer/Hypertorus.java:129-139 | for S ≥ 1 and a ≤ b, S^a is positive and divides S^b; the torus's ring sizes therefore divide its vertex count |
| Utils.ProjectedDown | app/src/main/java/com/sudo_code/ndrenderer/Utils.java:22-30 | one projection step leaves one component fewer |
| Utils.ProjectedTo3D | app/src/main/java/com/sudo_code/ndrenderer/Utils.java:38-46 | repeated projection gives exactly three components from an input of at least three, and returns an input of at most three unchanged |
| Utils.ProjectDown | app/src/main/java/com/sudo_code/ndrenderer/Utils.java:22-30 | a fresh array holding every component but the last, each scaled by k/(k + last) |
| Utils.ProjectTo3D | app/src/main/java/com/sudo_code/ndrenderer/Utils.java:38-46 | a fresh array equal to the repeated projection of the input, and the input array is left alone |
| Buffers.ArrayCopy | app/src/main/java/com/sudo_code/ndrenderer/NDShape.java:254-257 | `System.arraycopy`: the destination window holds the source range, and every destination entry outside the window is unchanged |
| Buffers.HoldsRecords | app/src/main/java/com/sudo_code/ndrenderer/Hypertorus.java:86-91 | a flat buffer holds a sequence of width-w records exactly when record v of the buffer is point v for every v |
| Buffers.BufferIsFlat | app/src/main/java/com/sudo_code/ndrenderer/Hypertorus.java:86-91 | a buffer that holds n records of width D is their concatenation: entry j is component j mod D of point j / D |
| Hypercube.NextLockedAxes | app/src/main/java/com/sudo_code/ndrenderer/Hypercube.java:31-45 | reports whether some locked axis can still be incremented; if so the array becomes the lexicographic successor, otherwise it is left unchanged |
| Hypercube.SuccessorIsLockedTuple | app/src/main/java/com/sudo_code/ndrenderer/Hypercube.java:36-41 | the successor of a strictly increasing tuple of locked axes in 0..L+1 is again one, of the same length |
| Hypercube.SuccessorIsLater | app/src/main/java/com/sudo_code/ndrenderer/Hypercube.java:36-41 | the successor is lexicographically greater than the tuple it came from |
| Hypercube.SuccessorIsImmediate | app/src/main/java/com/sudo_code/ndrenderer/Hypercube.java:31-45 | no locked tuple lies strictly between a tuple and its successor, so no combination is skipped |
| Hypercube.NoSuccessorIsLast | app/src/main/java/com/sudo_code/ndrenderer/Hypercube.java:44 | `nextLockedAxes` returns false exactly when the tuple is the last one, with s[j] == j + 2 for every j |
| Hypercube.OuterLoopRounds | app/src/main/java/com/sudo_code/ndrenderer/Hypercube.java:121-176 | round p of the outer loop is the last exactly when p == C(D,2) - 1, and different rounds free different pairs of axes |
| Hypercube.EveryFreeVisited | app/src/main/java/com/sudo_code/ndrenderer/Hypercube.java:110-122 | every pair of free axes lo < hi < D is the free pair of round FreeRank(lo, hi) of the outer loop |
| Hypercube.FreeAtRank | app/src/main/java/com/sudo_code/ndrenderer/Hypercube.java:121-176 | every round p < C(D,2) frees a valid pair of axes whose rank is p |
| Hypercube.RankBounds | app/src/main/java/com/sudo_code/ndrenderer/Hypercube.java:99-100 | the rank of a pair of axes lies in [0, C(D,2)), which is the number of outer rounds the face count allows for |
| Hypercube.SuccessorOfComplement | app/src/main/java/com/sudo_code/ndrenderer/Hypercube.java:31-45 | the locked axes of a round have a successor exactly when the round is not the last, and their successor is the complement of the next free pair |
| Hypercube.ComplementFacts | app/src/main/java/com/sudo_code/ndrenderer/Hypercube.java:110-115 | the locked axes of a round form a locked tuple of axes below D that contains neither free axis, and every other axis is in it |
| Hypercube.FirstComplement | app/src/main/java/com/sudo_code/ndrenderer/Hypercube.java:113-115 | the initial locked axes 0, 1, …, D-3 are the complement of the first free pair |
| Hypercube.NextLockedAxesValues | app/src/main/java/com/sudo_code/ndrenderer/Hypercube.java:53-67 | reports whether some value is still -1; if so the array becomes the incremented sign tuple, otherwise it is left unchanged |
| Hypercube.IncrementAddsOne | app/src/main/java/com/sudo_code/ndrenderer/Hypercube.java:55-63 | the increment is a binary counter: it keeps a ±1 tuple and adds exactly 1 to its value with -1 read as 0 and +1 as 1 |
| Hypercube.NoIncrementIsAllPlus | app/src/main/java/com/sudo_code/ndrenderer/Hypercube.java:66 | the increment fails exactly when every value is +1, i.e. when the counter is at 2^(D-2) - 1 |
| Hypercube.SignsOfRoundTrip | app/src/main/java/com/sudo_code/ndrenderer/Hypercube.java:124-126 | every q < 2^(D-2) has a ±1 tuple whose counter value is q |
| Hypercube.SignsValueRoundTrip | app/src/main/java/com/sudo_code/ndrenderer/Hypercube.java:53-67 | every ±1 tuple is the tuple of its own counter value |
| Hypercube.SignsValueBounds | app/src/main/java/com/sudo_code/ndrenderer/Hypercube.java:53-67 | the counter value of a tuple of n signs lies in [0, 2^n) |
| Hypercube.AllMinusIsZero | app/src/main/java/com/sudo_code/ndrenderer/Hypercube.java:124-126 | the reset of the values to all -1 is counter value 0 |
| Hypercube.SignsStep | app/src/main/java/com/sudo_code/ndrenderer/Hypercube.java:53-67 | from counter value q the increment succeeds exactly when q + 1 < 2^(D-2), and it produces the tuple of q + 1 |
| Hypercube.IsLocked | app/src/main/java/com/sudo_code/ndrenderer/Hypercube.java:82-86 | the inner scan finds the axis exactly when it is among the locked axes |
| Hypercube.GetUnlockedAxes | app/src/main/java/com/sudo_code/ndrenderer/Hypercube.java:75-95 | for distinct locked axes in 0..L+1, a fresh pair u0 < u1 of axes, neither locked, and every axis that is not locked is u0 or u1 |
| Hypercube.UnlockedFacts | app/src/main/java/com/sudo_code/ndrenderer/Hypercube.java:79-92 | the scan collects exactly the axes below c that are not locked, in ascending order |
| Hypercube.UnlockedCount | app/src/main/java/com/sudo_code/ndrenderer/Hypercube.java:79-92 | the scan collects as many axes as there are missing ones |
| Hypercube.MissingCard | app/src/main/java/com/sudo_code/ndrenderer/Hypercube.java:79-92 | L distinct locked axes below L + 2 leave exactly two axes missing, so the two-slot result array never overflows |
| Hypercube.UnlockedPair | app/src/main/java/com/sudo_code/ndrenderer/Hypercube.java:88-94 | when two axes are collected they are ascending, below m, not locked, and the only missing ones |
| Hypercube.CubeVertexIsSign | app/src/main/java/com/sudo_code/ndrenderer/Hypercube.java:130-146 | every component of every generated vertex is -1 or +1 |
| Hypercube.FaceCornerIsCubeVertex | app/src/main/java/com/sudo_code/ndrenderer/Hypercube.java:130-146 | corner c of face q of round p is vertex 4(p·2^(D-2) + q) + c of the buffer |
| Hypercube.CornerStep | app/src/main/java/com/sudo_code/ndrenderer/Hypercube.java:136-146 | two consecutive corners of a face differ in an axis exactly when it is the free axis the corner walk flips at that step |
| Hypercube.ConsecutiveCornersShareAnEdge | app/src/main/java/com/sudo_code/ndrenderer/Hypercube.java:136-146 | consecutive corners c and c+1 mod 4 of every face differ in exactly one axis, the high free axis after an even corner and the low one after an odd corner, so they span an edge of the cube |
| Hypercube.VertexStep | app/src/main/java/com/sudo_code/ndrenderer/Hypercube.java:136-146 | a component of two consecutive buffer vertices of a face differs exactly on the flipped free axis |
| Hypercube.EveryFaceEmitted | app/src/main/java/com/sudo_code/ndrenderer/Hypercube.java:121-176 | every 2-face, given by its free pair and signs, is face FreeRank·2^(D-2) + SignsValue of the buffers |
| Hypercube.EveryFaceOnce | app/src/main/java/com/sudo_code/ndrenderer/Hypercube.java:121-176 | two buffer faces with the same free pair and signs are the same face, so no face is emitted twice |
| Hypercube.WriteFreeAxes | app/src/main/java/com/sudo_code/ndrenderer/Hypercube.java:137-145 | one corner's two free components are set to the values of corner walk step c, and every other entry is unchanged |
| Hypercube.FillLockedAxes | app/src/main/java/com/sudo_code/ndrenderer/Hypercube.java:130-134 | one vertex holds the current sign at each locked axis, and every other entry is unchanged |
| Hypercube.FillLockedCorners | app/src/main/java/com/sudo_code/ndrenderer/Hypercube.java:130-134 | all four corners of the face hold the current signs at the locked axes, and the rest of the buffer is unchanged |
| Hypercube.WriteFaceVertices | app/src/main/java/com/sudo_code/ndrenderer/Hypercube.java:130-146 | the four corners of the face hold the locked signs and the corner walk on the free pair, and the rest of the buffer is unchanged |
| Hypercube.WriteFaceIndices | app/src/main/java/com/sudo_code/ndrenderer/Hypercube.java:148-154 | the face's six indices are the two triangles (0,1,3) and (1,2,3) of its four corners, and the rest of the buffer is unchanged |
| Hypercube.FaceEmitted | app/src/main/java/com/sudo_code/ndrenderer/Hypercube.java:130-146 | after one face's vertices are written, every vertex up to the end of that face is its cube vertex |
| Hypercube.FaceIndexed | app/src/main/java/com/sudo_code/ndrenderer/Hypercube.java:148-154 | after one face's indices are written, every index group up to that face is its pair of triangles |
| Hypercube.RoundFits | app/src/main/java/com/sudo_code/ndrenderer/Hypercube.java:172-173 | the 2^(D-2) faces of round p start at face p·2^(D-2), and each round ends inside the buffers |
| Hypercube.EmitFace | app/src/main/java/com/sudo_code/ndrenderer/Hypercube.java:130-154 | one inner pass writes the current face's vertices and indices, extending both done-prefixes by one face |
| Hypercube.EmitFaceStep | app/src/main/java/com/sudo_code/ndrenderer/Hypercube.java:129-175 | one inner pass writes face q of the round and advances the sign counter; it continues exactly when q + 1 < 2^(D-2) |
| Hypercube.EmitFacesOfLockedAxes | app/src/main/java/com/sudo_code/ndrenderer/Hypercube.java:124-175 | the inner loop writes all 2^(D-2) faces of a round, so both cursors advance to the start of the next round |
| Hypercube.EmitRound | app/src/main/java/com/sudo_code/ndrenderer/Hypercube.java:121-176 | one outer pass writes round p's faces; it continues exactly when p + 1 < C(D,2), with the next round's locked axes |
| Hypercube.StartBuffers | app/src/main/java/com/sudo_code/ndrenderer/Hypercube.java:99-115 | the buffers are allocated to exactly C(D,2)·2^(D-2) faces, and the locked axes start as the first round's |
| Hypercube.GenerateBuffers | app/src/main/java/com/sudo_code/ndrenderer/Hypercube.java:97-177 | the filled buffers hold every vertex of every face and every index group, and nothing else |
| Hypercube.CubeIndicesInRange | app/src/main/java/com/sudo_code/ndrenderer/Hypercube.java:148-154 | every entry of the filled index buffer names one of the 4·C(D,2)·2^(D-2) generated vertices |
| Hypercube.CubeVerticesAreSigns | app/src/main/java/com/sudo_code/ndrenderer/Hypercube.java:130-146 | every component of the filled vertex buffer is -1 or +1 |
| Hypercube.Hypercube.constructor | app/src/main/java/com/sudo_code/ndrenderer/Hypercube.java:19-22 | the new hypercube has its dimension and fully generated buffers |
| Hypercube.Hypercube.GenVertexData | app/src/main/java/com/sudo_code/ndrenderer/Hypercube.java:97-177 | the object's buffers are replaced by fresh ones of exactly the face count, filled with every face's vertices and indices |
| Hypertorus.RotatedCircle | app/src/main/java/com/sudo_code/ndrenderer/Hypertorus.java:55-72 | the matrix of axis a maps the planar circle point (c/2^(t-2), s/2^(t-2), 0, …) to c/2^(t-2) times the previous radius vector plus s/2^(t-2) along axis a, so each circle lies in the plane of the previous radius and the swept axis |
| Hypertorus.ColumnSumOfPlanar | app/src/main/java/com/sudo_code/ndrenderer/Hypertorus.java:70-72 | multiplying by a vector that is zero beyond its first two components uses only the first two columns |
| Hypertorus.SweepShape | app/src/main/java/com/sudo_code/ndrenderer/Hypertorus.java:54-96 | a sweep from axis t writes Count(D,t) vertices of D components each |
| Hypertorus.CountIsPower | app/src/main/java/com/sudo_code/ndrenderer/Hypertorus.java:103-104 | a sweep from axis t writes Smoothness^(D-t+1) vertices |
| Hypertorus.TorusShape | app/src/main/java/com/sudo_code/ndrenderer/Hypertorus.java:103-125 | for D ≥ 3 the whole sweep writes exactly Smoothness^(D-1) vertices of D components, the count the buffer is sized for |
| Hypertorus.PlaneTorusOverruns | app/src/main/java/com/sudo_code/ndrenderer/Hypertorus.java:103-125 | for D = 2 the torus sweep generates Smoothness² vertices, more than the Smoothness^(D-1) = Smoothness records the vertex buffer is sized for, which is why the model needs D ≥ 3 |
| Hypertorus.TorusStep | app/src/main/java/com/sudo_code/ndrenderer/Hypertorus.java:119-125 | each pass of the outer sweep loop appends one full sweep from axis 3 to what is already written |
| Hypertorus.NeighbourInBlock | app/src/main/java/com/sudo_code/ndrenderer/Hypertorus.java:135-139 | the index arithmetic `(i/P)·P + (i + off) mod P` stays in i's ring of P vertices and moves off places around it |
| Hypertorus.NeighbourBelowCount | app/src/main/java/com/sudo_code/ndrenderer/Hypertorus.java:135-139 | when the ring size divides the vertex count, every neighbour index is a vertex |
| Hypertorus.GroupEntriesInRange | app/src/main/java/com/sudo_code/ndrenderer/Hypertorus.java:133-165 | the six entries of a face group are vertices in i's ring, the first is i, and the two triangles share entries 1 = 3 and 2 = 5 |
| Hypertorus.TorusIndexInRange | app/src/main/java/com/sudo_code/ndrenderer/Hypertorus.java:127-169 | every index the loops emit names one of the Smoothness^(D-1) vertices |
| Hypertorus.TorusIndicesInRange | app/src/main/java/com/sudo_code/ndrenderer/Hypertorus.java:127-169 | every entry of the filled index buffer names one of the Smoothness^(D-1) vertices |
| Hypertorus.GroupEmitted | app/src/main/java/com/sudo_code/ndrenderer/Hypertorus.java:133-167 | writing group g after its predecessors extends the filled prefix of the index buffer by one group |
| Hypertorus.NewCircleVec | app/src/main/java/com/sudo_code/ndrenderer/Hypertorus.java:59-65 | a fresh D-component vector (c/2^(t-2), s/2^(t-2), 0, …, 0) |
| Hypertorus.NewTorusVec | app/src/main/java/com/sudo_code/ndrenderer/Hypertorus.java:120-122 | a fresh D-component base vector (cos i, sin i, 0, …, 0) for sample i |
| Hypertorus.NewBuffers | app/src/main/java/com/sudo_code/ndrenderer/Hypertorus.java:106-115 | fresh buffers of vertexCount·D, 3·vertexCount, 3·vertexCount and 6·faceCount entries |
| Hypertorus.RingSizes | app/src/main/java/com/sudo_code/ndrenderer/Hypertorus.java:135-145 | the three ring sizes of sweep axis dim are Smoothness^(dim-1), Smoothness^(dim-2) and Smoothness^(dim-3) |
| Hypertorus.WriteGroup | app/src/main/java/com/sudo_code/ndrenderer/Hypertorus.java:133-165 | the six index entries at pos are the face group of vertex i on axis dim, and the rest of the buffer is unchanged |
| Hypertorus.ColumnsOfBasis | app/src/main/java/com/sudo_code/ndrenderer/Hypertorus.java:30-52 | a matrix filled entry by entry with the rotation entries is the rotation matrix |
| Hypertorus.Hypertorus.GenNDTorusVecRotMatrix | app/src/main/java/com/sudo_code/ndrenderer/Hypertorus.java:30-52 | a fresh D×D matrix indexed [column][row]: column 0 holds the previous radius vector (0 below its length), column 1 is the unit vector along the given axis, and every other entry is 0 |
| Hypertorus.Hypertorus.GenTorusVertices | app/src/main/java/com/sudo_code/ndrenderer/Hypertorus.java:54-96 | the cursor advances by Count(D,t), the vertices written from the old cursor are the sweep from axis t, and nothing before the old cursor changes |
| Hypertorus.Hypertorus.GenChild | app/src/main/java/com/sudo_code/ndrenderer/Hypertorus.java:58-94 | one sample point of the sweep loop writes that point's child vertices at the cursor and advances it by their count |
| Hypertorus.Hypertorus.StoreVertex | app/src/main/java/com/sudo_code/ndrenderer/Hypertorus.java:86-93 | the leaf point is copied into vertex record mVertI, the cursor moves on by one, and nothing outside that record changes |
| Hypertorus.Hypertorus.SweepFrom | app/src/main/java/com/sudo_code/ndrenderer/Hypertorus.java:119-125 | one pass of the outer sweep loop grows the written prefix of the vertex buffer from i to i + 1 samples |
| Hypertorus.Hypertorus.SweepAll | app/src/main/java/com/sudo_code/ndrenderer/Hypertorus.java:117-125 | from an empty cursor the sweep loop fills the whole vertex buffer with the torus vertices, and the cursor ends at Smoothness^(D-1) |
| Hypertorus.Hypertorus.EmitGroup | app/src/main/java/com/sudo_code/ndrenderer/Hypertorus.java:133-167 | one inner pass writes face group g and moves the cursor `mVertI += 6` |
| Hypertorus.Hypertorus.EmitAxis | app/src/main/java/com/sudo_code/ndrenderer/Hypertorus.java:128-168 | one sweep axis writes the face groups of all Smoothness^(D-1) vertices |
| Hypertorus.Hypertorus.EmitIndices | app/src/main/java/com/sudo_code/ndrenderer/Hypertorus.java:127-169 | the index loops fill the whole index buffer, with the cursor ending at its length |
| Hypertorus.Hypertorus.GenVertexData | app/src/main/java/com/sudo_code/ndrenderer/Hypertorus.java:102-170 | fresh buffers of exactly the torus's sizes, holding every torus vertex in sweep order and every face group |
| Hypertorus.Hypertorus.constructor | app/src/main/java/com/sudo_code/ndrenderer/Hypertorus.java:17-20 | the new hypertorus has its dimension, projection constant and circle tables, fully generated buffers, and mVertices3d holding the projection of every vertex, as `init()` leaves it |
| Hypertorus.Hypertorus.UpdateProjection | app/src/main/java/com/sudo_code/ndrenderer/NDShape.java:69-71 | the `updateProjection()` step of `init()`, run by the inherited `NDShape` loop on the hypertorus's own buffers: mVertices3d holds the collapse of every vertex, and the vertex and index buffers are unchanged |
| NDShape.CollapseKeepsTail | app/src/main/java/com/sudo_code/ndrenderer/NDShape.java:209-213 | collapsing from axis dim leaves components dim-1 and above untouched |
| NDShape.CollapseFourDimensions | app/src/main/java/com/sudo_code/ndrenderer/NDShape.java:209-213 | in four dimensions only components 0 and 1 are scaled, by factor(k, x3), and the third projected component is x2 unscaled |
| NDShape.ThreeDimensionalProjectionCopies | app/src/main/java/com/sudo_code/ndrenderer/NDShape.java:204-218 | for a three-dimensional shape the projected buffer is a copy of the vertex buffer |
| NDShape.ScaleComponents | app/src/main/java/com/sudo_code/ndrenderer/NDShape.java:210-212 | components below dim-1 are multiplied by factor(k, vertex[dim]), and the others are unchanged |
| NDShape.CollapsedCopy | app/src/main/java/com/sudo_code/ndrenderer/NDShape.java:206-213 | a fresh copy of vertex v, collapsed from axis D-1 down to axis 3 |
| NDShape.StoreProjected | app/src/main/java/com/sudo_code/ndrenderer/NDShape.java:215-217 | the first three components are stored at entries 3v..3v+2, and every other entry is unchanged |
| NDShape.SwappedPermutes | app/src/main/java/com/sudo_code/ndrenderer/NDShape.java:254-261 | exchanging two elements permutes the sequence |
| NDShape.SelectionStep | app/src/main/java/com/sudo_code/ndrenderer/NDShape.java:241-262 | swapping a farthest remaining face to position i extends the sorted prefix by one |
| NDShape.SortedUpToEnd | app/src/main/java/com/sudo_code/ndrenderer/NDShape.java:241 | a prefix sorted up to the second-last face is the whole sequence in non-increasing order |
| NDShape.FarthestFrom | app/src/main/java/com/sudo_code/ndrenderer/NDShape.java:242-252 | the index of a farthest face at or after from, and, because of the strict `>`, the first of several equally far faces |
| NDShape.SwapGroups | app/src/main/java/com/sudo_code/ndrenderer/NDShape.java:254-257 | the six-index groups of faces i and j are exchanged, and every other group and entry is unchanged |
| NDShape.GroupsSwapped | app/src/main/java/com/sudo_code/ndrenderer/NDShape.java:254-257 | the three array copies through the temporary group exchange groups i and j and touch nothing else |
| NDShape.NDShape.constructor | app/src/main/java/com/sudo_code/ndrenderer/NDShape.java:44-50 | the shape over a generator's buffers, with its dimension and projection constant |
| NDShape.NDShape.UpdateProjection | app/src/main/java/com/sudo_code/ndrenderer/NDShape.java:204-222 | every whole vertex becomes its three-component collapse in the projected buffer, and the vertex buffer is unchanged |
| NDShape.NDShape.ProjectVertex | app/src/main/java/com/sudo_code/ndrenderer/NDShape.java:205-218 | one loop pass stores vertex v's collapse at 3v..3v+2, and the rest of the projected buffer is unchanged |
| NDShape.NDShape.Rotate | app/src/main/java/com/sudo_code/ndrenderer/NDShape.java:271-278 | every vertex record of the buffer is replaced by its rotation |
| NDShape.NDShape.RotateVertex | app/src/main/java/com/sudo_code/ndrenderer/NDShape.java:273-276 | one loop pass replaces record v by its rotation, and the rest of the buffer is unchanged |
| NDShape.NDShape.SwapFaces | app/src/main/java/com/sudo_code/ndrenderer/NDShape.java:254-261 | faces i and j exchange both their index groups and their distances, and the index buffer beyond the faces is unchanged |
| NDShape.NDShape.SortFaces | app/src/main/java/com/sudo_code/ndrenderer/NDShape.java:241-262 | the distances end non-increasing, the (index group, distance) pairs are a permutation of the original ones, and the buffer beyond the faces is unchanged |

## Left out

- GL, Android and native buffer code is not modelled: buffer objects, shaders, draw calls and `FloatBuffer`/`IntBuffer` wrapping (NDShape.java:81-199 and 283-291, Utils.java:69-162). The model is about the data those calls upload.
- Java `float` is modelled as `real`: rounding, infinities and NaN are not modelled. Java `int` is modelled as an unbounded integer, so 32-bit overflow is not modelled, in `powI` and in the size computations.
- `Math.cos`/`Math.sin` and `Math.PI` are replaced by the input tables `cos` and `sin` of the 15 sample angles. The model does not check that they are the real cosines.
- `NDVector.add`, `NDVector.multMatrix` and `NDVector.rotate` are not in `NDVector.java` at this revision. `Add` and `MultMatrix` are the model's own definitions, described above. `NDVector.rotate` is the parameter `ndRotate` of `Rotate`, constrained only to keep the vector length.
- NDShape.NDShape.UpdateProjection: the perspective factor k/(k + w) is the parameter `factor`, so division by zero is not modelled. `updateSecondaryData` is empty in both shapes and is not modelled.
- NDShape.NDShape.SortFaces: the face distances (NDShape.java:228-239) are taken as an input array, because they come from camera geometry outside the core. The commented-out call at NDShape.java:221 is not modelled.
- NDShape.NDShape.Rotate requires the vertex buffer length to be a multiple of D. For other lengths the last `System.arraycopy` would throw in Java; the model does not include that exception.
- Hypercube adjacency (`mAdjVertices`, Hypercube.java:103-104 and 156-170) is not modelled. For i = 0, Java's `(i - 1) % 4` is -1, not 3. On the first face the copy would start at position -D and throw. On every later face it would copy the previous face's last corner instead of corner 3.
- `CombinatoricsUtils.binomialCoefficient` is replaced by the model's own `Binomial`.
- Class inheritance is not modelled as such. `Hypertorus` and `NDShape` are two classes, and the hypertorus constructor runs the data steps of `init()` (NDShape.java:69-75) itself: `genVertexData`, then `updateProjection` through an `NDShape` over the same buffers.
- Hypertorus.Hypertorus.constructor does not perform the GL steps of `init()`: `genNativeBuffers`, `genVBOs` and `genVAO` (NDShape.java:72-74). The viewing distance and the two attribute handles it takes are only used by GL code, so the model drops them.
- `Hypercube` does not extend `NDShape` and never calls `init()`: its constructor (Hypercube.java:19-22) only calls `genVertexData`. The model does the same. Hypercube's `projectionConstant` argument to `genVertexData` is unused in the source and is dropped.
- Hypercube.Hypercube.constructor requires D ≥ 2. For D < 2, `CombinatoricsUtils.binomialCoefficient(mDimensions, 2)` (Hypercube.java:99) throws, because n < k or n < 0. The model does not include that exception, and it does not model what a caller does with a dimension below 2.
- Hypertorus.Hypertorus.constructor requires D ≥ 3. For D = 2 the sweep overruns the vertex buffer: `PlaneTorusOverruns` shows that it generates Smoothness² vertices for Smoothness records. In Java that overrun is an out-of-bounds exception, which the model does not include.
- Hypertorus.Hypertorus.GenChild: the recursive branch (Hypertorus.java:69-72) computes `NDVector.multMatrix(rotMatrix, circleVec)` twice per sample point. The model computes it once and uses it for both arguments. Without floating point the two calls give the same value.
- `ComplexGraph`, `ComplexNumber`, `MainActivity` and the rest of `NDVector` are not part of this model. Neither constructor call in `MainActivity.java` matches its class. Line 189 passes five arguments to `Hypercube`, which takes two (Hypercube.java:19). Line 203 passes six to `Hypertorus`, which takes five (Hypertorus.java:17).
