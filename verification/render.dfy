/** The geometry of `renderMesh` (3dEngine.c:96-154): transform and
    project every triangle, drop those behind the camera or facing away,
    order the survivors back to front and map them to window coordinates.

    The drawing calls themselves and the shading formula are not part of
    this model: the flat colour a survivor receives is a parameter
    `paint`, applied to the untransformed triangle as in the source. */
module Render {
  import opened Types
  import opened Vectors
  import opened Projection
  import opened Seqs

  // ---------------------------------------------------------------------
  // Visibility
  // ---------------------------------------------------------------------

  /** The back-face test. The source normalises the face normal before
      looking at the sign of its `z`; normalising scales by a positive
      factor (see `Vectors.Scale`), so the sign is that of the raw cross
      product. A degenerate triangle has a zero cross product, its
      normalised normal is NaN, and NaN is not greater than zero: such a
      triangle does not face away. */
  predicate FacesAway(t: Tri)
  {
    Cross(Sub(t.b, t.a), Sub(t.c, t.a)).z > 0.0
  }

  /** The survival test of `renderMesh`: not facing away, and no corner
      behind the camera. The `cull` flag is not consulted. */
  predicate Visible(t: Tri)
  {
    !(FacesAway(t) || t.a.z < 0.0 || t.b.z < 0.0 || t.c.z < 0.0)
  }

  /** Twice the signed area of the projected corners, by the shoelace
      formula; an independent statement of the back-face test. */
  function SignedArea2(t: Tri): real
  {
    t.a.x * t.b.y - t.b.x * t.a.y
    + t.b.x * t.c.y - t.c.x * t.b.y
    + t.c.x * t.a.y - t.a.x * t.c.y
  }

  /** A triangle faces away exactly when its projected corners have a
      positive signed area, and the verdict survives normalisation. */
  lemma FacingIsSignedArea(t: Tri, k: real)
    requires k > 0.0
    ensures FacesAway(t) <==> SignedArea2(t) > 0.0
    ensures FacesAway(t) <==> Scale(Cross(Sub(t.b, t.a), Sub(t.c, t.a)), k).z > 0.0
  {
    assert Cross(Sub(t.b, t.a), Sub(t.c, t.a)).z == SignedArea2(t);
  }

  /** Facing depends only on the winding: rotating the corners keeps it,
      swapping two corners turns a front face into a back face. */
  lemma FacingFollowsWinding(t: Tri)
    ensures FacesAway(t) <==> FacesAway(t.(a := t.b, b := t.c, c := t.a))
    ensures SignedArea2(t) < 0.0 <==> FacesAway(t.(b := t.c, c := t.b))
  {
    FacingIsSignedArea(t, 1.0);
    FacingIsSignedArea(t.(a := t.b, b := t.c, c := t.a), 1.0);
    FacingIsSignedArea(t.(b := t.c, c := t.b), 1.0);
  }

  // ---------------------------------------------------------------------
  // The per-triangle pipeline and the filter
  // ---------------------------------------------------------------------

  /** One triangle as `renderMesh` sees it: transformed into camera
      space, projected, and given the colour computed from the original. */
  function Prepare(t: Tri, cam: Camera, rotate: (Vec3, Vec3) -> Vec3, paint: Tri -> Color): (r: Tri)
    ensures r.a.z == TransformVector(t.a, cam, rotate).z
    ensures r.b.z == TransformVector(t.b, cam, rotate).z
    ensures r.c.z == TransformVector(t.c, cam, rotate).z
    ensures r.color == paint(t)
  {
    ProjectTriangle(TransformTriangle(t, cam, rotate), ASPECT_RATIO, cam.f).(color := paint(t))
  }

  /** `Prepare` for a fixed camera, rotation and colouring. */
  function Preparer(cam: Camera, rotate: (Vec3, Vec3) -> Vec3, paint: Tri -> Color): Tri -> Tri
  {
    t => Prepare(t, cam, rotate, paint)
  }

  function PrepareAll(mesh: seq<Tri>, cam: Camera, rotate: (Vec3, Vec3) -> Vec3, paint: Tri -> Color): seq<Tri>
  {
    Map(Preparer(cam, rotate, paint), mesh)
  }

  /** The colour plays no part in the survival test, so testing the
      projected triangle before its colour is set, as the source does, is
      testing the prepared one. */
  lemma VisibleIgnoresColor(t: Tri, c: Color)
    ensures Visible(t.(color := c)) <==> Visible(t)
  {
  }

  /** The survivors of a list of prepared triangles, in input order. */
  function KeepVisible(s: seq<Tri>): seq<Tri>
  {
    Filter(Visible, s)
  }

  /** The collecting loop of `renderMesh` (3dEngine.c:116-132): the
      survivors, in input order, and their number. */
  method CollectVisible(mesh: seq<Tri>, cam: Camera, rotate: (Vec3, Vec3) -> Vec3, paint: Tri -> Color)
    returns (toDraw: seq<Tri>, drawCount: int)
    ensures 0 <= drawCount == |toDraw| <= |mesh|
    ensures toDraw == KeepVisible(PrepareAll(mesh, cam, rotate, paint))
  {
    toDraw, drawCount := MapFilter(Preparer(cam, rotate, paint), Visible, mesh);
  }

  // ---------------------------------------------------------------------
  // Depth ordering
  // ---------------------------------------------------------------------

  /** A C cast from float to int: truncation toward zero. */
  function TruncToInt(x: real): (r: int)
    ensures 0.0 <= x ==> 0 <= r && r as real <= x < r as real + 1.0
    ensures x < 0.0 ==> r <= 0 && r as real - 1.0 < x <= r as real
  {
    if x >= 0.0 then x.Floor else -((-x).Floor)
  }

  /** Truncation toward zero is odd. */
  lemma TruncIsOdd(x: real)
    ensures TruncToInt(-x) == -TruncToInt(x)
  {
  }

  /** The `qsort` comparator: positive when `n` lies at least one depth
      unit further away than `m` (so `n` goes first), negative in the
      mirror case, zero when the depth sums are less than one apart. */
  function CompTri(m: Tri, n: Tri): (r: int)
    ensures r > 0 <==> DepthSum(n) - DepthSum(m) >= 1.0
    ensures r < 0 <==> DepthSum(m) - DepthSum(n) >= 1.0
    ensures r == 0 <==> -1.0 < DepthSum(n) - DepthSum(m) < 1.0
  {
    TruncToInt(DepthSum(n) - DepthSum(m))
  }

  lemma CompTriAntisymmetric(m: Tri, n: Tri)
    ensures CompTri(m, n) == -CompTri(n, m)
  {
    TruncIsOdd(DepthSum(n) - DepthSum(m));
    assert DepthSum(m) - DepthSum(n) == -(DepthSum(n) - DepthSum(m));
  }

  /** The comparator's "equal" is not transitive: depth sums 0, 0.75 and
      1.5 are close in neighbouring pairs but the outer two are not. So
      the comparator is not a consistent ordering, and a sort driven by
      it is bound to no order at all (`CompTriSortMisorders`). */
  lemma CompTriTiesNotTransitive(m: Tri, n: Tri, p: Tri)
    requires DepthSum(m) == 0.0 && DepthSum(n) == 0.75 && DepthSum(p) == 1.5
    ensures CompTri(m, n) == 0 && CompTri(n, p) == 0 && CompTri(m, p) != 0
  {
  }

  /** Sorting with the comparator as written: a stable insertion sort
      that places `t` before the first element it does not compare
      greater than. A sort that only consults `compTri` may behave like
      this one. */
  function InsertByCompTri(t: Tri, s: seq<Tri>): (r: seq<Tri>)
    ensures |r| == |s| + 1
    ensures multiset(r) == multiset(s) + multiset{t}
    decreases |s|
  {
    if s == [] || CompTri(t, s[0]) <= 0 then [t] + s
    else
      assert s == [s[0]] + s[1..];
      [s[0]] + InsertByCompTri(t, s[1..])
  }

  function SortByCompTri(s: seq<Tri>): (r: seq<Tri>)
    ensures |r| == |s|
    ensures multiset(r) == multiset(s)
    decreases |s|
  {
    if s == [] then []
    else
      assert s == [s[0]] + s[1..];
      InsertByCompTri(s[0], SortByCompTri(s[1..]))
  }

  /** The comparator-driven sort leaves depth sums 0, 0.75 and 1.5 in
      that order: every neighbouring pair compares equal, so the nearest
      triangle is drawn first and the one 1.5 units further away is drawn
      over it. */
  lemma CompTriSortMisorders(m: Tri, n: Tri, p: Tri)
    requires DepthSum(m) == 0.0 && DepthSum(n) == 0.75 && DepthSum(p) == 1.5
    ensures SortByCompTri([m, n, p]) == [m, n, p]
    ensures !BackToFront(SortByCompTri([m, n, p]))
    ensures CompTri(SortByCompTri([m, n, p])[0], SortByCompTri([m, n, p])[2]) > 0
  {
    assert [m, n, p][1..] == [n, p];
    assert [n, p][1..] == [p];
    assert [p][1..] == [];
    assert SortByCompTri([p]) == [p];
    assert SortByCompTri([n, p]) == InsertByCompTri(n, [p]) == [n, p];
    assert SortByCompTri([m, n, p]) == InsertByCompTri(m, [n, p]) == [m, n, p];
  }

  /** Depth sums never increase along the sequence. */
  predicate BackToFront(s: seq<Tri>)
  {
    forall i, j :: 0 <= i < j < |s| ==> DepthSum(s[i]) >= DepthSum(s[j])
  }

  /** `t` placed into a back-to-front sequence, keeping the order; the
      new first element is whichever of `t` and the old first is further
      away. */
  function Insert(t: Tri, s: seq<Tri>): (r: seq<Tri>)
    requires BackToFront(s)
    ensures |r| == |s| + 1
    ensures BackToFront(r)
    ensures multiset(r) == multiset(s) + multiset{t}
    ensures r[0] == if s == [] || DepthSum(t) >= DepthSum(s[0]) then t else s[0]
    decreases |s|
  {
    if s == [] || DepthSum(t) >= DepthSum(s[0]) then
      ConsBackToFront(t, s);
      [t] + s
    else
      assert BackToFront(s[1..]);
      var rest := Insert(t, s[1..]);
      assert s == [s[0]] + s[1..];
      ConsBackToFront(s[0], rest);
      [s[0]] + rest
  }

  /** A triangle no nearer than the head of a back-to-front sequence can
      go in front of it. */
  lemma ConsBackToFront(t: Tri, s: seq<Tri>)
    requires BackToFront(s)
    requires s == [] || DepthSum(t) >= DepthSum(s[0])
    ensures BackToFront([t] + s)
  {
  }

  /** Back-to-front order of a list: a permutation of it, depth sums
      never increasing. */
  function SortBackToFront(s: seq<Tri>): (r: seq<Tri>)
    ensures |r| == |s|
    ensures BackToFront(r)
    ensures multiset(r) == multiset(s)
    decreases |s|
  {
    if s == [] then []
    else
      assert s == [s[0]] + s[1..];
      Insert(s[0], SortBackToFront(s[1..]))
  }

  /** A sequence in back-to-front order never has the comparator ask for
      a later triangle to be drawn before an earlier one, and a triangle
      at least one depth unit further away is always drawn first. */
  lemma BackToFrontAgreesWithCompTri(r: seq<Tri>)
    requires BackToFront(r)
    ensures forall i, j :: 0 <= i < j < |r| ==> CompTri(r[i], r[j]) <= 0
    ensures forall i, j :: 0 <= i < |r| && 0 <= j < |r| && DepthSum(r[i]) >= DepthSum(r[j]) + 1.0 ==> i < j
  {
  }

  /** The triangles `renderMesh` hands on, in drawing order. */
  function DrawOrder(mesh: seq<Tri>, cam: Camera, rotate: (Vec3, Vec3) -> Vec3, paint: Tri -> Color): (r: seq<Tri>)
    ensures |r| <= |mesh|
    ensures multiset(r) == multiset(KeepVisible(PrepareAll(mesh, cam, rotate, paint)))
    ensures forall i, j :: 0 <= i < j < |r| ==> CompTri(r[i], r[j]) <= 0
    ensures forall i, j :: 0 <= i < |r| && 0 <= j < |r| && DepthSum(r[i]) >= DepthSum(r[j]) + 1.0 ==> i < j
  {
    var kept := KeepVisible(PrepareAll(mesh, cam, rotate, paint));
    var r := SortBackToFront(kept);
    BackToFrontAgreesWithCompTri(r);
    r
  }

  /** Exactly the visible prepared triangles are drawn, each as often as
      it occurs among the prepared ones. */
  lemma DrawnIffVisible(mesh: seq<Tri>, cam: Camera, rotate: (Vec3, Vec3) -> Vec3, paint: Tri -> Color, t: Tri)
    ensures t in DrawOrder(mesh, cam, rotate, paint) <==> t in PrepareAll(mesh, cam, rotate, paint) && Visible(t)
    ensures multiset(DrawOrder(mesh, cam, rotate, paint))[t]
         == if Visible(t) then multiset(PrepareAll(mesh, cam, rotate, paint))[t] else 0
  {
    var prepared := PrepareAll(mesh, cam, rotate, paint);
    var drawn := DrawOrder(mesh, cam, rotate, paint);
    FilterCount(Visible, prepared, t);
    FilterMembers(Visible, prepared, t);
    assert t in drawn <==> t in multiset(drawn);
    assert t in KeepVisible(prepared) <==> t in multiset(KeepVisible(prepared));
  }

  /** A triangle with a corner behind the camera is never drawn, however
      the rest of it lies: it is dropped whole, not clipped. */
  lemma BehindCameraDropped(mesh: seq<Tri>, i: int, cam: Camera, rotate: (Vec3, Vec3) -> Vec3, paint: Tri -> Color)
    requires 0 <= i < |mesh|
    requires TransformVector(mesh[i].a, cam, rotate).z < 0.0
          || TransformVector(mesh[i].b, cam, rotate).z < 0.0
          || TransformVector(mesh[i].c, cam, rotate).z < 0.0
    ensures Prepare(mesh[i], cam, rotate, paint) !in DrawOrder(mesh, cam, rotate, paint)
  {
    DrawnIffVisible(mesh, cam, rotate, paint, Prepare(mesh[i], cam, rotate, paint));
  }

  // ---------------------------------------------------------------------
  // Window mapping
  // ---------------------------------------------------------------------

  datatype Point = Point(x: real, y: real)

  /** A vertex as handed to the rasterizer. */
  datatype Vertex = Vertex(position: Point, color: Color, texCoord: Vec2)

  /** Normalised device coordinates to window pixels, `y` pointing down:
      the map is invertible and takes the square [-1, 1]^2 onto the
      window. */
  function ToScreen(v: Vec3): (p: Point)
    ensures v.x == p.x * 2.0 / SCREEN_WIDTH - 1.0
    ensures v.y == 1.0 - p.y * 2.0 / SCREEN_HEIGHT
    ensures -1.0 <= v.x <= 1.0 ==> 0.0 <= p.x <= SCREEN_WIDTH
    ensures -1.0 <= v.y <= 1.0 ==> 0.0 <= p.y <= SCREEN_HEIGHT
  {
    Point((v.x + 1.0) * SCREEN_WIDTH / 2.0, (1.0 - v.y) * SCREEN_HEIGHT / 2.0)
  }

  /** The three rasterizer vertices of a triangle: one flat colour and no
      texture coordinate. */
  function ScreenVertices(t: Tri): (r: seq<Vertex>)
    ensures |r| == 3
    ensures forall k :: 0 <= k < 3 ==> r[k].color == t.color && r[k].texCoord == NoTexCoord
    ensures r[0].position == ToScreen(t.a) && r[1].position == ToScreen(t.b) && r[2].position == ToScreen(t.c)
  {
    [Vertex(ToScreen(t.a), t.color, NoTexCoord),
     Vertex(ToScreen(t.b), t.color, NoTexCoord),
     Vertex(ToScreen(t.c), t.color, NoTexCoord)]
  }

  /** A triangle whose projected corners lie in the square [-1, 1]^2 is
      drawn inside the window. */
  lemma ScreenVerticesInWindow(t: Tri)
    requires -1.0 <= t.a.x <= 1.0 && -1.0 <= t.a.y <= 1.0
    requires -1.0 <= t.b.x <= 1.0 && -1.0 <= t.b.y <= 1.0
    requires -1.0 <= t.c.x <= 1.0 && -1.0 <= t.c.y <= 1.0
    ensures forall k :: 0 <= k < 3 ==> InWindow(ScreenVertices(t)[k].position)
  {
  }

  predicate InWindow(p: Point)
  {
    0.0 <= p.x <= SCREEN_WIDTH && 0.0 <= p.y <= SCREEN_HEIGHT
  }

  /** Nothing the rasterizer needs is lost: the three vertices determine
      the projected corners and the flat colour of the triangle. */
  lemma ScreenVerticesDetermineImage(t: Tri, u: Tri)
    requires ScreenVertices(t) == ScreenVertices(u)
    ensures t.a.x == u.a.x && t.a.y == u.a.y
    ensures t.b.x == u.b.x && t.b.y == u.b.y
    ensures t.c.x == u.c.x && t.c.y == u.c.y
    ensures t.color == u.color
  {
    assert ScreenVertices(t)[0] == ScreenVertices(u)[0];
    assert ScreenVertices(t)[1] == ScreenVertices(u)[1];
    assert ScreenVertices(t)[2] == ScreenVertices(u)[2];
  }

  /** One frame of `renderMesh`: what goes to the rasterizer, triangle by
      triangle, in drawing order. */
  method RenderMesh(mesh: seq<Tri>, cam: Camera, rotate: (Vec3, Vec3) -> Vec3, paint: Tri -> Color)
    returns (frame: seq<seq<Vertex>>)
    ensures |frame| == |DrawOrder(mesh, cam, rotate, paint)| <= |mesh|
    ensures forall k :: 0 <= k < |frame| ==> frame[k] == ScreenVertices(DrawOrder(mesh, cam, rotate, paint)[k])
  {
    var toDraw, drawCount := CollectVisible(mesh, cam, rotate, paint);
    var sorted := SortBackToFront(toDraw);
    frame := [];
    var i := 0;
    while i < drawCount
      invariant 0 <= i <= drawCount
      invariant |frame| == i
      invariant forall k :: 0 <= k < i ==> frame[k] == ScreenVertices(sorted[k])
    {
      frame := frame + [ScreenVertices(sorted[i])];
      i := i + 1;
    }
  }
}
