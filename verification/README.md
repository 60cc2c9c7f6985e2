# A model of a minimal software 3D pipeline, in Dafny

This project models the geometric core of a small C rendering engine, and
proves properties of that model. The engine turns a triangle mesh into
screen-space triangles for a 2D rasterizer. It also loads meshes from
Wavefront OBJ text, builds meshes from height fields and parametric
surfaces, and writes meshes back out as OBJ text.

The model covers:

- **Vector algebra** (`Vectors`, 3dEngine.c:9-37): add, subtract, negate,
  scale, dot and cross over exact reals.
- **Camera transform and perspective projection** (`Projection`,
  3dEngine.c:59-80). The camera rotation `vectorRotate` is a parameter.
- **`renderMesh`** (`Render`, 3dEngine.c:96-154):
  - every triangle is transformed and projected;
  - triangles facing away or with a corner behind the camera are dropped;
  - the survivors are ordered back to front by depth sum, an order the
    `compTri` comparator never contradicts (`BackToFrontAgreesWithCompTri`);
    `qsort` driven by `compTri` itself guarantees no order (see Findings);
  - the survivors are mapped to window pixels.
- **`loadObj`** (`ObjLoader`, 3dEngine.c:156-187), over lines already
  classified as vertex, face or other records.
- **`writeMeshToObj`** (`ObjExport`, 3dGraph.c:114-123), as a record
  generator. It comes with the load-after-write round trip.
- **The two mesh builders**, `makeMeshFromFunction` and
  `makeMeshFromParamFunction` (`Graph`, 3dGraph.c:6-112). They share the
  capacity-checked grid walk in `Grid`.

Choices that shape the model:

- **Numbers.** Every C `float` is a Dafny `real`, so no rounding is
  modelled.
- **Triangles.** The C struct literal `(tri){a, b, c}` zeroes every field
  it does not name. `Types.MakeTri` is that literal, and `OnlyPositions`
  states that a triangle is one.
- **Buffers.** A C buffer of capacity `n` is a sequence of length `n`. A
  function's result is the part it writes.

What the code does, where a reader might expect otherwise:

- **The triangle carries two fields the header does not declare.** The
  `tri` struct of 3dEngine.h:15-20 has neither `color` nor `cull`, yet
  `renderMesh` writes `color` (3dEngine.c:129) and the builders write
  `cull` (3dGraph.c:37-38, 91-92). `Types.Tri` has both fields.
- **`renderMesh` ignores `cull`.** The builders clear the flag on every
  triangle they make, but `renderMesh` never reads it
  (3dEngine.c:124-126), so the model does not either.
- **The vertex table shares the triangle buffer's capacity.** `loadObj`
  stops as soon as either table holds `n` entries (3dEngine.c:160, 168).
  So the one-triangle file loads its triangle only when `n >= 4`
  (`OneTriangleFile`). With `n = 3` it loads nothing
  (`OneTriangleFileNeedsFourSlots`).
- **`loadObj` reads only `v` and `f` records.** A face is scanned with
  `"f %d %d %d"` (3dEngine.c:178). Written as whitespace-separated
  integers, it contributes its first three indices and any further ones
  are ignored. Every other line is skipped. The slash forms are covered
  under "## Left out".
- **`renderMesh` takes three arguments.** The header declares a fourth,
  texture parameter (3dEngine.h:38); the definition has three
  (3dEngine.c:105).
- **The back-face test is on the raw cross product.** The source tests
  the sign of the normalised face normal. Normalising scales by a positive
  factor, so the sign is the raw cross product's (`Vectors.Scale`,
  `Render.FacingIsSignedArea`). A degenerate triangle has a NaN normal,
  which the source's `> 0` test does not reject, so it is kept.
- **The model fixes one drawing order.** `compTri` truncates the
  difference of depth sums toward zero. Its "equal" is therefore not
  transitive (`CompTriTiesNotTransitive`), so it is not the consistent
  ordering that section 7.22.5 of ISO/IEC 9899:2011 requires of a `qsort`
  comparator, and `qsort` then promises no order at all. A sort that
  follows the comparator can leave a triangle 1.5 depth units further
  away after a nearer one (`CompTriSortMisorders`, under Findings). The
  model draws in the order the painter's algorithm intends: depth sums
  never increase (`SortBackToFront`).

## Model

| member | source | states |
|---|---|---|
| Vectors.Sub | 3dEngine.c:14-17 | subtracting `b` and adding it back gives the original vector |
| Vectors.Negate | 3dEngine.c:19-22 | the negation is the additive inverse, and equals subtracting from the origin |
| Vectors.Scale | 3dEngine.c:24-27 | a scaled vector is parallel to the input; a positive factor keeps the sign of every coordinate, which is why normalising does not change the back-face test |
| Vectors.Dot | 3dEngine.c:29-32 | a vector's dot product with itself is never negative |
| Vectors.CrossOrthogonal | 3dEngine.c:34-37 | the cross product is orthogonal to both operands |
| Vectors.AddSubCancel | 3dEngine.c:9-17 | adding then subtracting the same vector is the identity |
| Vectors.SubIsAddNegate | 3dEngine.c:14-22 | subtraction is addition of the negation |
| Vectors.DotSymmetric | 3dEngine.c:29-32 | the dot product is symmetric |
| Vectors.CrossAntiCommutative | 3dEngine.c:34-37 | swapping the operands negates the cross product; a vector crossed with itself is zero |
| Vectors.Add | 3dEngine.c:9-12 | componentwise sum; subtracting the same vector undoes it (`Vectors.Sub`, `Vectors.AddSubCancel`) |
| Vectors.Cross | 3dEngine.c:34-37 | the cross product: orthogonal to both operands and anti-commutative (`Vectors.CrossOrthogonal`, `Vectors.CrossAntiCommutative`) |
| Projection.TransformVector | 3dEngine.c:59-63 | camera coordinates depend only on the position relative to the camera (`Projection.TransformVectorTranslationInvariant`); the camera itself maps to the origin (`Projection.CameraAtOrigin`) |
| Projection.TransformVectorTranslationInvariant | 3dEngine.c:59-63 | moving a point and the camera by the same offset leaves the point's camera coordinates unchanged, for any rotation |
| Projection.CameraAtOrigin | 3dEngine.c:59-63 | for a rotation that fixes the origin, the camera's position is transformed to the origin |
| Projection.TransformTriangleTranslationInvariant | 3dEngine.c:65-68 | moving a triangle and the camera together does not change the transformed triangle, and the result depends on the input's corner positions alone |
| Projection.TransformTriangle | 3dEngine.c:65-68 | each corner transformed on its own: moving the triangle and the camera together changes nothing, and only the corner positions matter (`Projection.TransformTriangleTranslationInvariant`) |
| Projection.ProjectVector | 3dEngine.c:70-75 | depth passes through; a point at depth 0 goes to the origin; otherwise projected `x` and `y` times the depth equal `a*f*x` and `f*y` |
| Projection.ProjectTriangle | 3dEngine.c:77-80 | each corner is projected on its own, depths and the depth sum are kept, and every other field is zero |
| Projection.ProjectionInvertible | 3dEngine.c:70-75 | off the camera plane, and with non-zero aspect and focal length, projection can be undone exactly |
| Render.FacesAway | 3dEngine.c:124-125 | the back-face test: equivalent to a positive shoelace signed area of the projected corners, unchanged by normalising (`Render.FacingIsSignedArea`), and decided by the winding (`Render.FacingFollowsWinding`) |
| Render.Visible | 3dEngine.c:124-126 | the survival test: exactly the prepared triangles passing it are drawn (`Render.DrawnIffVisible`), any corner behind the camera fails it (`Render.BehindCameraDropped`), and the colour does not affect it (`Render.VisibleIgnoresColor`) |
| Render.FacingIsSignedArea | 3dEngine.c:124-125 | a projected triangle faces away exactly when its shoelace signed area is positive, and normalising the normal does not change the verdict |
| Render.FacingFollowsWinding | 3dEngine.c:124-125 | rotating the corners keeps the facing; swapping two corners turns a front face into a back face |
| Render.Prepare | 3dEngine.c:122-129 | the prepared triangle's depths are the camera-space depths of the input corners, and its colour is computed from the untransformed input |
| Render.VisibleIgnoresColor | 3dEngine.c:124-130 | the survival test does not depend on the colour, so testing before the colour is set is testing the stored triangle |
| Seqs.MapFilter | 3dEngine.c:116-132 | the transform-test-store loop fills exactly the kept images of the input, in input order, and no more slots than inputs |
| Render.CollectVisible | 3dEngine.c:116-132 | the collected list is exactly the visible prepared triangles, in input order, and the count is at most `n` |
| Types.DepthSum | 3dEngine.c:100-101 | the sum of the corner depths, the key of both sorts: `compTri` compares its truncated difference (`Render.CompTri`), `SortBackToFront` makes it non-increasing |
| Render.TruncToInt | 3dEngine.c:102 | the cast truncates toward zero: the result is within one of the input, on the zero side |
| Render.TruncIsOdd | 3dEngine.c:102 | truncation toward zero is odd |
| Render.CompTri | 3dEngine.c:96-103 | the comparator is positive iff `n`'s depth sum exceeds `m`'s by at least 1, negative in the mirror case, zero iff they differ by less than 1 |
| Render.CompTriAntisymmetric | 3dEngine.c:96-103 | swapping the arguments negates the comparator |
| Render.CompTriTiesNotTransitive | 3dEngine.c:96-103 | depth sums 0, 0.75 and 1.5 are pairwise "equal" in neighbouring pairs but not end to end |
| Render.SortByCompTri | 3dEngine.c:96-103 | a sort that consults only the comparator, as written: it keeps the input's elements, each as often |
| Render.CompTriSortMisorders | 3dEngine.c:96-103 | that sort leaves depth sums 0, 0.75, 1.5 in input order, which is not back to front: the comparator itself says the last should come before the first |
| Render.Insert | 3dEngine.c:134 | inserting into a back-to-front list keeps it back to front, adds exactly one element, and the new head is the further of the two candidates |
| Render.SortBackToFront | 3dEngine.c:134 | the sorted list is a permutation of the input whose depth sums never increase |
| Render.BackToFrontAgreesWithCompTri | 3dEngine.c:96-103 | in a back-to-front list the comparator never puts a later triangle before an earlier one, and a triangle at least one depth unit further away comes first |
| Render.DrawOrder | 3dEngine.c:116-134 | the drawn list is a permutation of the survivors, in the model's back-to-front order: no pair contradicts the comparator, and a triangle at least one depth unit further away is drawn first |
| Render.DrawnIffVisible | 3dEngine.c:119-134 | a triangle is drawn iff it is a prepared triangle that survives the test, and it is drawn as often as it was prepared |
| Render.BehindCameraDropped | 3dEngine.c:125-126 | a triangle with any corner behind the camera is never drawn |
| Render.ToScreen | 3dEngine.c:139-141 | the pixel mapping is invertible, and takes the square [-1, 1]² onto the 800 by 500 window with `y` pointing down |
| Render.ScreenVertices | 3dEngine.c:139-146 | the three rasterizer vertices: inside the window for corners in [-1, 1]² (`Render.ScreenVerticesInWindow`), and determining the projected corners and colour (`Render.ScreenVerticesDetermineImage`) |
| Render.ScreenVerticesInWindow | 3dEngine.c:139-146 | a triangle whose projected corners lie in [-1, 1]² is drawn inside the window |
| Render.ScreenVerticesDetermineImage | 3dEngine.c:139-146 | the three vertices handed to the rasterizer determine the projected corners and the flat colour |
| Render.RenderMesh | 3dEngine.c:105-154 | one vertex triple per drawn triangle, in drawing order, and never more than the mesh size |
| ObjLoader.Step | 3dEngine.c:170-181 | one record of the loop: a vertex is appended, a face appends the triangle of the vertices it names, anything else changes nothing (`ObjLoader.LoadOneMore`) |
| ObjLoader.Run | 3dEngine.c:168-182 | the loader's tables only grow and never exceed the capacity |
| ObjLoader.Load | 3dEngine.c:160-168 | at most `n` vertices and at most `n` triangles are ever stored |
| ObjLoader.LoadObj | 3dEngine.c:156-187 | the returned count is the number of triangles stored, at most `n`, and the triangles are those of the record-level load |
| ObjLoader.RunAppend | 3dEngine.c:168-182 | loading a concatenation is loading the first part, then the second from where the first stopped |
| ObjLoader.LoadStopsAtCapacity | 3dEngine.c:168 | once either table is full, no later record changes anything |
| ObjLoader.LoadOneMore | 3dEngine.c:171-181 | while running, a vertex record appends one vertex; a face appends exactly the triangle of the three vertices it names and ignores further indices; anything else changes nothing |
| ObjLoader.OneTriangleFile | 3dEngine.c:160-181 | three vertices and one face load as one triangle of those corners when `n >= 4` |
| ObjLoader.OneTriangleFileNeedsFourSlots | 3dEngine.c:160-168 | with `n = 3` the vertex table fills first and the face is never read |
| ObjExport.WriteMeshToObj | 3dGraph.c:114-123 | four records per triangle: triangle `i`'s three corners as vertices, then the face `3i+1, 3i+2, 3i+3` |
| ObjExport.Block | 3dGraph.c:117-121 | the four records of triangle `i`; loaded after the earlier blocks they add its three corners and exactly one triangle of them (`ObjExport.BlockLoads`) |
| ObjExport.BlockLoads | 3dGraph.c:117-122 | after `k` exported triangles, loading the next block adds its three corners and exactly one triangle made of them |
| ObjExport.LoadAfterWrite | 3dGraph.c:117-122 | loading the export of `N` triangles with capacity above `3N` yields all corners and `N` triangles with the original corner positions |
| ObjExport.LoadObjAfterWrite | 3dGraph.c:114-123 | the load after an export returns `N` triangles, each with the corners of the written one and nothing else set |
| Grid.RowTrisShape | 3dGraph.c:18-55 | a row yields an even number of triangles, at most two per cell |
| Grid.GridTrisShape | 3dGraph.c:16-56 | the grid yields an even number of triangles, at most two per cell, and none when either dimension is not positive |
| Grid.FullGridLength | 3dGraph.c:16-54 | when no cell is empty the grid yields exactly two triangles per cell |
| Grid.GridTrisFromCells | 3dGraph.c:16-56 | every emitted triangle comes from some cell inside the grid |
| Grid.WalkIsPrefix | 3dGraph.c:16-21 | at every state of the walk, what has been written is a prefix of the complete output |
| Grid.StopIsTruncation | 3dGraph.c:20-21 | when the capacity check stops the walk early, the output is the complete output cut at the largest even capacity |
| Grid.FillRow | 3dGraph.c:18-55 | the inner loop appends the row's triangles two at a time, and stops early only when fewer than two slots remain |
| Grid.Walk | 3dGraph.c:16-57 | the nested loop writes exactly the grid's output cut at the largest even number of slots |
| Grid.FillGrid | 3dGraph.c:16-57 | the count is even and at most the capacity; slots `[0, count)` hold the cut output; every later slot is untouched |
| Graph.Checker | 3dGraph.c:44 | the checkerboard factor, 1 or 0.5: neighbouring cells differ and diagonal ones agree (`Graph.CheckerAlternates`), halving the colour of every other cell (`Graph.CheckerHalvesColor`) |
| Graph.ScaleColor | 3dGraph.c:45 | the shaded opaque cell colour: a shade in [0, 1] keeps every channel between 0 and the base colour's (`Graph.ScaleColorDarkens`) |
| Graph.PaintedPair | 3dGraph.c:35-52 | the cell's two triangles painted with one colour: corners kept, double sided, one colour at all six corners (`Graph.PaintedPairUniform`) |
| Graph.CheckerHalvesColor | 3dGraph.c:43-45 | with the same light term, a cell of mixed parity gets exactly half of every channel of a cell of equal parity; both are fully opaque |
| Graph.CheckerAlternates | 3dGraph.c:43-44 | neighbouring cells get different factors, diagonal neighbours the same |
| Graph.ScaleColorDarkens | 3dGraph.c:43-45 | a shade in [0, 1] keeps every channel between 0 and the base colour's channel |
| Graph.PaintedPairUniform | 3dGraph.c:35-52 | both triangles of a cell keep their corners, are double sided, and carry one colour at all six corners |
| Graph.Step | 3dGraph.c:62-63 | the width of one of `steps` parts of `[lo, hi]`: the cells it lays out stay inside the interval (`Graph.CellInsideInterval`) |
| Graph.SampleAt | 3dGraph.c:22-23 | the start `k*step + lo` of cell `k`: inside the interval (`Graph.CellInsideInterval`), and consecutive cells meet with the last ending at `hi` (`Graph.CellsTileInterval`) |
| Graph.GridStep | 3dGraph.c:8 | the side `2*size/divisions` of a height-field cell: the samples of every visited cell lie inside `[-size, size]` on both ground axes (`Graph.SamplesInsideSquare`), and the height-field cells tile that square (`Graph.SamplesCoverSquare`) |
| Graph.CellsTileInterval | 3dGraph.c:62-80 | the `steps` cells tile `[lo, hi]`: the first starts at `lo`, each ends where the next starts, the last ends at `hi` |
| Graph.SamplesCoverSquare | 3dGraph.c:8-29 | the height-field cells tile `[-size, size]` on both ground axes: cell `(0, 0)` starts at `(-size, -size)`, the last cell ends at `(size, size)`, and each cell starts where its neighbour in the previous row or column ends |
| Graph.CellInsideInterval | 3dGraph.c:62-80 | dividing `[lo, hi]` into `steps` parts, the `k`-th cell starts and ends inside the interval |
| Graph.HeightSamples | 3dGraph.c:22-29 | the four samples of cell `(i, j)` are the corners of the square of side `step` whose first corner is at `x = i*step - size`, `z = j*step - size`, each lifted to the height the function gives there |
| Graph.HeightCell | 3dGraph.c:31-33 | a cell is discarded exactly when some sampled height has absolute value above `size` |
| Graph.HeightCellShape | 3dGraph.c:35-52 | a kept cell is the pair `(v2, v1, v0)`, `(v3, v2, v0)`, both double sided, with one colour at all six corners |
| Graph.MakeMeshFromFunction | 3dGraph.c:6-58 | the count is even, at most `n` and at most `2*divisions²`; only `mesh[0..count)` is written, with the cut height-field output; with no cell discarded the count is `min(2*divisions², n rounded down to even)` |
| Graph.SamplesInsideSquare | 3dGraph.c:8-25 | for `size >= 0`, every sample of a visited cell lies in `[-size, size]` on both ground axes |
| Graph.CellWithinBounds | 3dGraph.c:22-38 | both triangles of a kept cell lie in the cube `[-size, size]³` |
| Graph.HeightFieldWithinBounds | 3dGraph.c:16-38 | every triangle the height-field builder emits lies in the cube `[-size, size]³` |
| Graph.BoundedFunctionKeepsEveryCell | 3dGraph.c:31-33 | a function bounded by `size` loses no cell |
| Graph.FlatFieldFull | 3dGraph.c:16-54 | the flat field keeps every cell: exactly `2*divisions²` triangles |
| Graph.FlatFieldExample | 3dGraph.c:6-58 | `f = 0`, `size = 1`, `divisions = 2` with room for eight gives eight triangles |
| Graph.SwapYZ | 3dGraph.c:86-87 | the exchange of `y` and `z`: its own inverse (`Graph.SwapYZInvolution`), a reflection that keeps dot products and mirrors cross products (`Graph.SwapYZReflects`) |
| Graph.SwapYZInvolution | 3dGraph.c:86-87 | swapping twice is the identity |
| Graph.SwapYZReflects | 3dGraph.c:86-92 | the swap is a reflection: it keeps dot products and mirrors and reverses cross products, so the normals of the swapped triangles are the swapped normals turned round |
| Graph.ParamSamples | 3dGraph.c:77-87 | swapping the axes back, the four samples are `f` at `(u, v)`, `(u+istep, v)`, `(u+istep, v+jstep)` and `(u, v+jstep)`, the corners of the cell's parameter rectangle |
| Graph.ParamCell | 3dGraph.c:77-92 | no parametric cell is ever discarded |
| Graph.ParamCellShape | 3dGraph.c:81-106 | a parametric cell is the fan `(p0, p1, p2)`, `(p0, p2, p3)` of its axis-swapped samples, double sided, with one colour at all six corners |
| Graph.MakeMeshFromParamFunction | 3dGraph.c:60-112 | the count is `min(2*usteps*vsteps, n rounded down to even)`, or 0 for an empty domain; only `mesh[0..count)` is written, with the cut surface output |
| Graph.ParamSamplesInsideDomain | 3dGraph.c:62-80 | the parameter rectangle of every visited cell, whose corners `Graph.ParamSamples` evaluates, lies inside `[umin, umax]` × `[vmin, vmax]` |

## Left out

- Drawing through SDL is not modelled: `drawTriangle`,
  `SDL_RenderGeometry` and the draw-colour calls (3dEngine.c:87-94,
  143-153). `RenderMesh` returns the vertex triples it would hand over. The
  window, event loop and keyboard camera of main.c are not part of this
  model.
- `vectorRotate` (3dEngine.c:44-57) is built from sines and cosines. The
  transform takes it as a parameter `rotate(v, angles)`.
- `normalize` and `calculateNormal` (3dEngine.c:39-42, 82-85) need a
  square root. Only the sign of the normal's `z` matters to `renderMesh`,
  and that is the raw cross product's (see above).
- The shading formulas are parameters:
  - in `renderMesh` (3dEngine.c:110, 128-129), the colour function
    `paint`, applied to the untransformed triangle as the source does;
  - in the builders (3dGraph.c:40-43, 94-97), including the
    `isVectorZero` fallback to the second triangle's normal, the light term
    `light` of the cell's two unpainted triangles. The checkerboard factor
    and the way the colour is spread over the corners are modelled.
- Colour channels stay reals. The conversion to `Uint8` is not modelled;
  `ScaleColorDarkens` shows that a shade in [0, 1] keeps a byte-sized
  channel byte-sized.
- Text input and output are not modelled: `fopen`, `fgets`, `sscanf`,
  `fprintf`, `%f` precision, and the failure to open a file.
  - Lines come in as records `V`, `F` and `Other`. An `F` record stands
    only for a face written as whitespace-separated integers. In the
    forms `i/j`, `i//k` and `i/j/k`, or with fewer than three indices,
    `sscanf` stops early (3dEngine.c:178). The unread indices keep the
    previous face's values, or are indeterminate on the first face.
    These forms are not modelled. A `v` line with fewer than three
    numbers is not modelled either.
  - The 5-byte word buffer that a longer first word overflows, and the
    stale word on a blank line (3dEngine.c:166-173), are not modelled.
  - The missing `fclose` in 3dGraph.c:114-123 is not modelled.
- A face index outside the vertices read so far is undefined behaviour in
  the source (3dEngine.c:179). The model requires every face the loader
  reaches to name vertices already read (`WellIndexed`).
- Negative capacities are not modelled: buffer sizes are lengths, so `n`
  is never negative.
- A depth-sum difference outside the `int` range makes the C cast
  undefined. `TruncToInt` truncates any real.
- The type `paramBounds` is not declared in the files of this model. The
  model assumes real `umin`, `umax`, `vmin`, `vmax` and integer `usteps`,
  `vsteps` (`Types.ParamBounds`). The count of the parametric builder
  and `Graph.ParamSamplesInsideDomain` rest on that. With floating-point
  step counts the loops would run `ceil(usteps)` times, and the last cell
  could pass `umax`.
- `vecSwapYZ` is not part of this model's source. It is assumed to exchange
  `y` and `z`, as its name and its use say.
- Division by a zero step count (3dGraph.c:8, 62-63) gives an infinite
  step, or NaN when the numerator is zero as well. It is never used,
  because the loops then do not run. `Graph.Step` and `Graph.GridStep`
  return 0 there.
- `rotateTriangle` (declared at 3dEngine.h:32) and `calculateVertexColors`
  are only called from main.c (lines 67 and 74), are not defined in the
  files of this model, and nothing in the core calls them.
- Render.DrawOrder: the back-to-front and comparator-agreement guarantees
  hold for the order the model chooses. The program hands an inconsistent
  comparator to `qsort`, which then guarantees no order; see Findings.

## Findings

| source | as written | input that shows it | evidently intended | confidence | as-written member | corrected member |
|---|---|---|---|---|---|---|
| 3dEngine.c:96-103 | `compTri` returns `(int)(nz - mz)`, so depth sums less than one apart compare equal and "equal" is not transitive; a sort driven by it may draw a far triangle over a near one | three triangles with depth sums 0, 0.75, 1.5 in that order: each neighbouring pair compares equal, a comparator-driven insertion sort keeps the order, and the triangle 1.5 units further away is drawn last | draw in non-increasing depth (painter's algorithm) | medium, not executed | Render.CompTriSortMisorders | Render.SortBackToFront |
