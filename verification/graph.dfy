/** The procedural mesh builders of 3dGraph.c: a height field `y = f(x, z)`
    sampled on a square grid (`makeMeshFromFunction`, lines 6-58) and a
    parametric surface sampled over a rectangle of its parameters
    (`makeMeshFromParamFunction`, lines 60-112).

    Both walk the cells of their grid through `Grid.FillGrid`; what differs
    is the cell. The flat shade of a cell comes from the unit normal of its
    triangles and a fixed light direction, which needs a square root, so
    here it is a parameter `light` of the two unpainted triangles; the
    checkerboard factor that multiplies it is modelled. */
module Graph {
  import opened Types
  import opened Vectors
  import opened Grid

  /** The checkerboard factor of cell `(i, j)`: full brightness when the
      row and column have the same parity, half otherwise. The builders
      only ask for it with `i, j >= 0`, where C's `%` and Dafny's agree. */
  function Checker(i: int, j: int): (r: real)
    ensures r == 1.0 || r == 0.5
    ensures r == 1.0 <==> i % 2 == j % 2
  {
    if i % 2 == j % 2 then 1.0 else 0.5
  }

  /** The colour `c` darkened by `shade`, fully opaque. */
  function ScaleColor(c: Color, shade: real): (r: Color)
    ensures r.a == 255.0
  {
    Color(c.r * shade, c.g * shade, c.b * shade, 255.0)
  }

  /** A shade in `[0, 1]` only darkens: no channel leaves `[0, c]`, so a
      channel that fits in a byte still fits after shading. */
  lemma ScaleColorDarkens(c: Color, shade: real)
    requires 0.0 <= shade <= 1.0
    requires 0.0 <= c.r && 0.0 <= c.g && 0.0 <= c.b
    ensures 0.0 <= ScaleColor(c, shade).r <= c.r
    ensures 0.0 <= ScaleColor(c, shade).g <= c.g
    ensures 0.0 <= ScaleColor(c, shade).b <= c.b
  {
    assert c.r * shade <= c.r * 1.0;
    assert c.g * shade <= c.g * 1.0;
    assert c.b * shade <= c.b * 1.0;
  }

  /** `t` with the same colour at all three corners. */
  function Paint(t: Tri, col: Color): (r: Tri)
    ensures r.a == t.a && r.b == t.b && r.c == t.c && r.cull == t.cull
    ensures r.ac == col && r.bc == col && r.cc == col
  {
    t.(ac := col, bc := col, cc := col)
  }

  /** Both triangles of a cell are double-sided, hold nothing but their
      corners and corner colours, and share one corner colour. */
  predicate Uniform(p: (Tri, Tri), col: Color)
  {
    && p.0 == Paint(MakeTri(p.0.a, p.0.b, p.0.c), col)
    && p.1 == Paint(MakeTri(p.1.a, p.1.b, p.1.c), col)
  }

  /** The cell's colour: the base colour scaled by the light term of its
      two unpainted triangles and by the checkerboard factor. */
  function CellColor(c: Color, light: (Tri, Tri) -> real, t0: Tri, t1: Tri, i: int, j: int): Color
  {
    ScaleColor(c, light(t0, t1) * Checker(i, j))
  }

  /** The two triangles of a cell painted alike. */
  function PaintedPair(t0: Tri, t1: Tri, c: Color, light: (Tri, Tri) -> real, i: int, j: int): (Tri, Tri)
  {
    var col := CellColor(c, light, t0, t1, i, j);
    (Paint(t0, col), Paint(t1, col))
  }

  /** Painting two bare triangles gives a uniform pair with their corners. */
  lemma PaintedPairUniform(t0: Tri, t1: Tri, c: Color, light: (Tri, Tri) -> real, i: int, j: int)
    requires OnlyPositions(t0) && OnlyPositions(t1)
    ensures Uniform(PaintedPair(t0, t1, c, light, i, j), CellColor(c, light, t0, t1, i, j))
    ensures PaintedPair(t0, t1, c, light, i, j).0.a == t0.a
    ensures PaintedPair(t0, t1, c, light, i, j).0.b == t0.b
    ensures PaintedPair(t0, t1, c, light, i, j).0.c == t0.c
    ensures PaintedPair(t0, t1, c, light, i, j).1.a == t1.a
    ensures PaintedPair(t0, t1, c, light, i, j).1.b == t1.b
    ensures PaintedPair(t0, t1, c, light, i, j).1.c == t1.c
  {
  }

  // ---------------------------------------------------------------------
  // Sampling the grid
  // ---------------------------------------------------------------------

  /** Width of one of `steps` equal parts of `[lo, hi]`. The C division
      by a zero step count gives an infinity that is never used, since the
      loops then do not run; here it is zero. */
  function Step(lo: real, hi: real, steps: int): real
  {
    if steps == 0 then 0.0 else (hi - lo) / (steps as real)
  }

  /** The `k`-th sample point `k * step + lo`. */
  function SampleAt(lo: real, step: real, k: int): real
  {
    (k as real) * step + lo
  }

  /** Dividing `[lo, hi]` into `steps` parts: the `k`-th cell of the loop
      starts and ends inside the interval. */
  lemma CellInsideInterval(lo: real, hi: real, steps: int, k: int)
    requires lo <= hi
    requires 0 <= k < steps
    ensures lo <= SampleAt(lo, Step(lo, hi, steps), k)
    ensures SampleAt(lo, Step(lo, hi, steps), k) <= SampleAt(lo, Step(lo, hi, steps), k) + Step(lo, hi, steps)
    ensures SampleAt(lo, Step(lo, hi, steps), k) + Step(lo, hi, steps) <= hi
  {
    var step, m := Step(lo, hi, steps), steps as real;
    assert step * m == hi - lo;
    assert 0.0 <= step;
    var k' := k as real;
    NonNegProduct(m - k' - 1.0, step);
    assert (m - k' - 1.0) * step == m * step - k' * step - step;
  }

  /** The `steps` cells tile `[lo, hi]`: the first starts at `lo`, each
      ends where the next starts, and the last ends at `hi`. */
  lemma CellsTileInterval(lo: real, hi: real, steps: int)
    requires steps > 0
    ensures SampleAt(lo, Step(lo, hi, steps), 0) == lo
    ensures SampleAt(lo, Step(lo, hi, steps), steps - 1) + Step(lo, hi, steps) == hi
    ensures forall k :: SampleAt(lo, Step(lo, hi, steps), k) + Step(lo, hi, steps) == SampleAt(lo, Step(lo, hi, steps), k + 1)
  {
    var step, m := Step(lo, hi, steps), steps as real;
    assert step * m == hi - lo;
    assert ((steps - 1) as real) * step + step == m * step;
  }

  lemma NonNegProduct(a: real, b: real)
    requires 0.0 <= a && 0.0 <= b
    ensures 0.0 <= a * b
  {
  }

  // ---------------------------------------------------------------------
  // The height field
  // ---------------------------------------------------------------------

  /** `2 * size / divisions`, the side of one grid cell. */
  function GridStep(size: real, divisions: int): real
  {
    if divisions == 0 then 0.0 else 2.0 * size / (divisions as real)
  }

  /** The four samples `v[0] .. v[3]` of cell `(i, j)`: its corners on
      the plane, lifted to the height `f` gives there, counter-clockwise
      from `(x, y)`. The plane's second axis is the engine's `z`. */
  function HeightSamples(f: (real, real) -> real, size: real, step: real, i: int, j: int): (r: seq<Vec3>)
    ensures |r| == 4
    ensures r[0].x == SampleAt(-size, step, i) && r[0].z == SampleAt(-size, step, j)
    ensures r[0].x == r[3].x && r[1].x == r[2].x && r[1].x == r[0].x + step
    ensures r[0].z == r[1].z && r[2].z == r[3].z && r[3].z == r[0].z + step
    ensures forall k :: 0 <= k < 4 ==> r[k].y == f(r[k].x, r[k].z)
  {
    var x := (i as real) * step - size;
    var y := (j as real) * step - size;
    var x2, y2 := x + step, y + step;
    [Vec3(x, f(x, y), y), Vec3(x2, f(x2, y), y), Vec3(x2, f(x2, y2), y2), Vec3(x, f(x, y2), y2)]
  }

  /** No sampled height of the cell leaves `[-size, size]`. */
  predicate CellInBounds(f: (real, real) -> real, size: real, step: real, i: int, j: int)
  {
    forall v <- HeightSamples(f, size, step, i, j) :: Abs(v.y) <= size
  }

  /** One height-field cell: nothing exactly when a sampled height is out
      of bounds. */
  function HeightCell(f: (real, real) -> real, size: real, step: real, c: Color, light: (Tri, Tri) -> real, i: int, j: int): (r: Cell)
    ensures r.Some? <==> CellInBounds(f, size, step, i, j)
  {
    var v := HeightSamples(f, size, step, i, j);
    if Abs(v[0].y) > size || Abs(v[1].y) > size || Abs(v[2].y) > size || Abs(v[3].y) > size then None
    else Some(PaintedPair(MakeTri(v[2], v[1], v[0]), MakeTri(v[3], v[2], v[0]), c, light, i, j))
  }

  /** A kept height-field cell is the pair `(v2, v1, v0)`, `(v3, v2, v0)`,
      double sided, with one colour at all six corners. */
  lemma HeightCellShape(f: (real, real) -> real, size: real, step: real, c: Color, light: (Tri, Tri) -> real, i: int, j: int)
    requires CellInBounds(f, size, step, i, j)
    ensures
      var v := HeightSamples(f, size, step, i, j);
      var t0, t1 := MakeTri(v[2], v[1], v[0]), MakeTri(v[3], v[2], v[0]);
      var p := HeightCell(f, size, step, c, light, i, j).value;
      && p.0.a == v[2] && p.0.b == v[1] && p.0.c == v[0]
      && p.1.a == v[3] && p.1.b == v[2] && p.1.c == v[0]
      && Uniform(p, CellColor(c, light, t0, t1, i, j))
  {
    var v := HeightSamples(f, size, step, i, j);
    PaintedPairUniform(MakeTri(v[2], v[1], v[0]), MakeTri(v[3], v[2], v[0]), c, light, i, j);
  }

  function HeightCells(f: (real, real) -> real, size: real, divisions: int, c: Color, light: (Tri, Tri) -> real): (int, int) -> Cell
  {
    (i, j) => HeightCell(f, size, GridStep(size, divisions), c, light, i, j)
  }

  /** No cell of the height field is discarded. */
  predicate NoCellDiscarded(f: (real, real) -> real, size: real, divisions: int)
  {
    forall i, j :: 0 <= i < divisions && 0 <= j < divisions ==> CellInBounds(f, size, GridStep(size, divisions), i, j)
  }

  /** `makeMeshFromFunction`: the height-field triangles, cell by cell,
      cut at the largest even number of slots of `mesh`, written to its
      front; the rest of `mesh` is untouched. Without a discarded cell
      every cell gives two triangles. */
  method MakeMeshFromFunction(mesh: seq<Tri>, f: (real, real) -> real, size: real, divisions: int, c: Color, light: (Tri, Tri) -> real)
    returns (out: seq<Tri>, count: int)
    ensures |out| == |mesh|
    ensures 0 <= count <= |mesh| && count % 2 == 0
    ensures divisions >= 0 ==> count <= 2 * divisions * divisions
    ensures count == Min(|GridTris(HeightCells(f, size, divisions, c, light), divisions, divisions)|, EvenFloor(|mesh|))
    ensures out[..count] == GridTris(HeightCells(f, size, divisions, c, light), divisions, divisions)[..count]
    ensures out[count..] == mesh[count..]
    ensures divisions >= 0 && NoCellDiscarded(f, size, divisions) ==> count == Min(2 * divisions * divisions, EvenFloor(|mesh|))
  {
    var cells := HeightCells(f, size, divisions, c, light);
    out, count := FillGrid(mesh, divisions, divisions, cells);
    GridTrisShape(cells, divisions, divisions);
    if divisions >= 0 && NoCellDiscarded(f, size, divisions) {
      HeightCellsFull(f, size, divisions, c, light);
      FullGridLength(cells, divisions, divisions);
    }
  }

  lemma HeightCellsFull(f: (real, real) -> real, size: real, divisions: int, c: Color, light: (Tri, Tri) -> real)
    requires NoCellDiscarded(f, size, divisions)
    ensures forall i, j :: 0 <= i < divisions && 0 <= j < divisions ==> HeightCells(f, size, divisions, c, light)(i, j).Some?
  {
    forall i, j | 0 <= i < divisions && 0 <= j < divisions
      ensures HeightCells(f, size, divisions, c, light)(i, j).Some?
    {
      assert CellInBounds(f, size, GridStep(size, divisions), i, j);
    }
  }

  /** The grid of a height field covers `[-size, size]` in `x` and `z`:
      every sample of a visited cell lies in that square. */
  lemma {:induction false} SamplesInsideSquare(f: (real, real) -> real, size: real, divisions: int, i: int, j: int)
    requires size >= 0.0
    requires 0 <= i < divisions && 0 <= j < divisions
    ensures forall v <- HeightSamples(f, size, GridStep(size, divisions), i, j) :: -size <= v.x <= size && -size <= v.z <= size
  {
    var step := GridStep(size, divisions);
    assert step == Step(-size, size, divisions);
    CellInsideInterval(-size, size, divisions, i);
    CellInsideInterval(-size, size, divisions, j);
    assert (i as real) * step - size == SampleAt(-size, step, i);
    assert (j as real) * step - size == SampleAt(-size, step, j);
  }

  /** The height-field cells tile the square `[-size, size]` on both
      ground axes: cell `(0, 0)` starts at `(-size, -size)`, the last cell
      ends at `(size, size)`, and each cell starts where its neighbour in
      the previous row or column ends. */
  lemma SamplesCoverSquare(f: (real, real) -> real, size: real, divisions: int, i: int, j: int)
    requires divisions > 0
    ensures
      var v := HeightSamples(f, size, GridStep(size, divisions), 0, 0);
      v[0].x == -size && v[0].z == -size
    ensures
      var v := HeightSamples(f, size, GridStep(size, divisions), divisions - 1, divisions - 1);
      v[2].x == size && v[2].z == size
    ensures
      var step := GridStep(size, divisions);
      HeightSamples(f, size, step, i + 1, j)[0].x == HeightSamples(f, size, step, i, j)[1].x
    ensures
      var step := GridStep(size, divisions);
      HeightSamples(f, size, step, i, j + 1)[0].z == HeightSamples(f, size, step, i, j)[3].z
  {
    assert GridStep(size, divisions) == Step(-size, size, divisions);
    CellsTileInterval(-size, size, divisions);
  }

  /** Both triangles of a kept cell lie inside the cube `[-size, size]`
      in all three coordinates. */
  lemma CellWithinBounds(f: (real, real) -> real, size: real, divisions: int, c: Color, light: (Tri, Tri) -> real, i: int, j: int, t: Tri)
    requires size >= 0.0
    requires 0 <= i < divisions && 0 <= j < divisions
    requires t in Emit(HeightCells(f, size, divisions, c, light)(i, j))
    ensures InCube(t.a, size) && InCube(t.b, size) && InCube(t.c, size)
  {
    var step := GridStep(size, divisions);
    var v := HeightSamples(f, size, step, i, j);
    SamplesInsideSquare(f, size, divisions, i, j);
    HeightCellShape(f, size, step, c, light, i, j);
    assert v[0] in v && v[1] in v && v[2] in v && v[3] in v;
  }

  /** Every triangle the height-field builder emits lies inside the cube
      `[-size, size]` in all three coordinates. */
  lemma HeightFieldWithinBounds(f: (real, real) -> real, size: real, divisions: int, c: Color, light: (Tri, Tri) -> real, t: Tri)
    requires size >= 0.0
    requires t in GridTris(HeightCells(f, size, divisions, c, light), divisions, divisions)
    ensures InCube(t.a, size) && InCube(t.b, size) && InCube(t.c, size)
  {
    var cells := HeightCells(f, size, divisions, c, light);
    GridTrisFromCells(cells, divisions, divisions, t);
    var i, j :| 0 <= i < divisions && 0 <= j < divisions && t in Emit(cells(i, j));
    CellWithinBounds(f, size, divisions, c, light, i, j, t);
  }

  predicate InCube(v: Vec3, size: real)
  {
    Abs(v.x) <= size && Abs(v.y) <= size && Abs(v.z) <= size
  }

  /** A function whose values stay within `[-size, size]` loses no cell. */
  lemma BoundedFunctionKeepsEveryCell(f: (real, real) -> real, size: real, divisions: int)
    requires forall x, y :: Abs(f(x, y)) <= size
    ensures NoCellDiscarded(f, size, divisions)
  {
  }

  /** The flat function over size 1 with two divisions: four cells, none
      discarded, so eight triangles whenever the buffer holds eight. */
  lemma FlatFieldExample(size: real, divisions: int, c: Color, light: (Tri, Tri) -> real, n: nat)
    requires size == 1.0 && divisions == 2 && n >= 8
    ensures Min(|GridTris(HeightCells(Flat, size, divisions, c, light), divisions, divisions)|, EvenFloor(n)) == 8
  {
    FlatFieldFull(size, divisions, c, light);
    assert EvenFloor(n) >= 8;
  }

  /** The flat field over a non-negative size keeps every cell. */
  lemma FlatFieldFull(size: real, divisions: int, c: Color, light: (Tri, Tri) -> real)
    requires size >= 0.0 && divisions >= 0
    ensures |GridTris(HeightCells(Flat, size, divisions, c, light), divisions, divisions)| == 2 * divisions * divisions
  {
    BoundedFunctionKeepsEveryCell(Flat, size, divisions);
    HeightCellsFull(Flat, size, divisions, c, light);
    FullGridLength(HeightCells(Flat, size, divisions, c, light), divisions, divisions);
  }

  /** The flat height field `f(x, y) = 0`. */
  function Flat(x: real, y: real): real
  {
    0.0
  }

  // ---------------------------------------------------------------------
  // The parametric surface
  // ---------------------------------------------------------------------

  /** Exchanges the `y` and `z` axes: surfaces are authored with `z` up,
      the engine renders with `y` up. */
  function SwapYZ(v: Vec3): (r: Vec3)
    ensures r.x == v.x && r.y == v.z && r.z == v.y
  {
    Vec3(v.x, v.z, v.y)
  }

  lemma SwapYZInvolution(v: Vec3)
    ensures SwapYZ(SwapYZ(v)) == v
  {
  }

  /** Exchanging two axes is a reflection: it keeps dot products, and it
      mirrors and reverses cross products, so a triangle built from
      swapped samples has the swapped normal of the unswapped one, turned
      round. */
  lemma SwapYZReflects(a: Vec3, b: Vec3)
    ensures Dot(SwapYZ(a), SwapYZ(b)) == Dot(a, b)
    ensures Cross(SwapYZ(a), SwapYZ(b)) == Negate(SwapYZ(Cross(a, b)))
  {
  }

  /** The four samples `pts[0] .. pts[3]` of cell `(i, j)`, axes swapped. */
  function ParamSamples(g: (real, real) -> Vec3, b: ParamBounds, i: int, j: int): (r: seq<Vec3>)
    ensures |r| == 4
    ensures
      var istep, jstep := Step(b.umin, b.umax, b.usteps), Step(b.vmin, b.vmax, b.vsteps);
      var u, v := SampleAt(b.umin, istep, i), SampleAt(b.vmin, jstep, j);
      && SwapYZ(r[0]) == g(u, v) && SwapYZ(r[1]) == g(u + istep, v)
      && SwapYZ(r[2]) == g(u + istep, v + jstep) && SwapYZ(r[3]) == g(u, v + jstep)
  {
    var istep, jstep := Step(b.umin, b.umax, b.usteps), Step(b.vmin, b.vmax, b.vsteps);
    var u, v := SampleAt(b.umin, istep, i), SampleAt(b.vmin, jstep, j);
    var u2, v2 := u + istep, v + jstep;
    [SwapYZ(g(u, v)), SwapYZ(g(u2, v)), SwapYZ(g(u2, v2)), SwapYZ(g(u, v2))]
  }

  /** One parametric cell; none is ever discarded. */
  function ParamCell(g: (real, real) -> Vec3, b: ParamBounds, c: Color, light: (Tri, Tri) -> real, i: int, j: int): (r: Cell)
    ensures r.Some?
  {
    var p := ParamSamples(g, b, i, j);
    Some(PaintedPair(MakeTri(p[0], p[1], p[2]), MakeTri(p[0], p[2], p[3]), c, light, i, j))
  }

  /** A parametric cell is the fan `(p0, p1, p2)`, `(p0, p2, p3)` of its
      axis-swapped samples, double sided, with one colour at all six
      corners. */
  lemma ParamCellShape(g: (real, real) -> Vec3, b: ParamBounds, c: Color, light: (Tri, Tri) -> real, i: int, j: int)
    ensures
      var p := ParamSamples(g, b, i, j);
      var t0, t1 := MakeTri(p[0], p[1], p[2]), MakeTri(p[0], p[2], p[3]);
      var q := ParamCell(g, b, c, light, i, j).value;
      && q.0.a == p[0] && q.0.b == p[1] && q.0.c == p[2]
      && q.1.a == p[0] && q.1.b == p[2] && q.1.c == p[3]
      && Uniform(q, CellColor(c, light, t0, t1, i, j))
  {
    var p := ParamSamples(g, b, i, j);
    PaintedPairUniform(MakeTri(p[0], p[1], p[2]), MakeTri(p[0], p[2], p[3]), c, light, i, j);
  }

  function ParamCells(g: (real, real) -> Vec3, b: ParamBounds, c: Color, light: (Tri, Tri) -> real): (int, int) -> Cell
  {
    (i, j) => ParamCell(g, b, c, light, i, j)
  }

  /** `makeMeshFromParamFunction`: the surface's triangles, cell by cell,
      cut at the largest even number of slots of `mesh`, written to its
      front; the rest of `mesh` is untouched. No cell is ever discarded, so
      the count is fixed by the step counts and the capacity alone. */
  method MakeMeshFromParamFunction(mesh: seq<Tri>, g: (real, real) -> Vec3, b: ParamBounds, c: Color, light: (Tri, Tri) -> real)
    returns (out: seq<Tri>, count: int)
    ensures |out| == |mesh|
    ensures 0 <= count <= |mesh| && count % 2 == 0
    ensures b.usteps >= 0 && b.vsteps >= 0 ==> count == Min(2 * b.usteps * b.vsteps, EvenFloor(|mesh|))
    ensures b.usteps <= 0 || b.vsteps <= 0 ==> count == 0
    ensures count == Min(|GridTris(ParamCells(g, b, c, light), b.usteps, b.vsteps)|, EvenFloor(|mesh|))
    ensures out[..count] == GridTris(ParamCells(g, b, c, light), b.usteps, b.vsteps)[..count]
    ensures out[count..] == mesh[count..]
  {
    var cells := ParamCells(g, b, c, light);
    out, count := FillGrid(mesh, b.usteps, b.vsteps, cells);
    GridTrisShape(cells, b.usteps, b.vsteps);
    if b.usteps >= 0 && b.vsteps >= 0 {
      FullGridLength(cells, b.usteps, b.vsteps);
    }
  }

  /** The parameter rectangle of a visited cell, whose corners
      `ParamSamples` evaluates, lies inside the domain. */
  lemma ParamSamplesInsideDomain(b: ParamBounds, i: int, j: int)
    requires b.umin <= b.umax && b.vmin <= b.vmax
    requires 0 <= i < b.usteps && 0 <= j < b.vsteps
    ensures
      var istep := Step(b.umin, b.umax, b.usteps);
      b.umin <= SampleAt(b.umin, istep, i) <= SampleAt(b.umin, istep, i) + istep <= b.umax
    ensures
      var jstep := Step(b.vmin, b.vmax, b.vsteps);
      b.vmin <= SampleAt(b.vmin, jstep, j) <= SampleAt(b.vmin, jstep, j) + jstep <= b.vmax
  {
    CellInsideInterval(b.umin, b.umax, b.usteps, i);
    CellInsideInterval(b.vmin, b.vmax, b.vsteps, j);
  }

  /** Under the same light term, a cell whose row and column differ in
      parity gets exactly half of every colour channel of a cell whose
      parities agree, and both are fully opaque. */
  lemma CheckerHalvesColor(c: Color, light: (Tri, Tri) -> real, t0: Tri, t1: Tri, i: int, j: int, i': int, j': int)
    requires i % 2 == j % 2 && i' % 2 != j' % 2
    ensures 2.0 * CellColor(c, light, t0, t1, i', j').r == CellColor(c, light, t0, t1, i, j).r
    ensures 2.0 * CellColor(c, light, t0, t1, i', j').g == CellColor(c, light, t0, t1, i, j).g
    ensures 2.0 * CellColor(c, light, t0, t1, i', j').b == CellColor(c, light, t0, t1, i, j).b
    ensures CellColor(c, light, t0, t1, i', j').a == CellColor(c, light, t0, t1, i, j).a == 255.0
  {
    var l := light(t0, t1);
    assert Checker(i, j) == 1.0 && Checker(i', j') == 0.5;
    assert 2.0 * (c.r * (l * 0.5)) == c.r * (l * 1.0);
    assert 2.0 * (c.g * (l * 0.5)) == c.g * (l * 1.0);
    assert 2.0 * (c.b * (l * 0.5)) == c.b * (l * 1.0);
  }

  /** Adjacent cells of either builder get different checkerboard factors. */
  lemma CheckerAlternates(i: int, j: int)
    ensures Checker(i + 1, j) != Checker(i, j)
    ensures Checker(i, j + 1) != Checker(i, j)
    ensures Checker(i + 1, j + 1) == Checker(i, j)
  {
  }
}
