/** `writeMeshToObj` (3dGraph.c:114-123) as a pure record generator: for
    every triangle, one vertex record per corner followed by one face
    record with sequential 1-based indices. Number formatting and the
    file itself are not part of this model. */
module ObjExport {
  import opened Types
  import opened ObjLoader

  /** The four records written for triangle number `i` (counting from 0). */
  function Block(t: Tri, i: nat): seq<ObjRecord>
  {
    [V(t.a), V(t.b), V(t.c), F(3 * i + 1, 3 * i + 2, 3 * i + 3, [])]
  }

  /** The exporter: four records per triangle, block `i` holding the
      corners of triangle `i` and a face naming them. */
  function WriteMeshToObj(mesh: seq<Tri>): (r: seq<ObjRecord>)
    ensures |r| == 4 * |mesh|
    ensures forall i :: 0 <= i < |mesh| ==> r[4 * i..4 * i + 4] == Block(mesh[i], i)
    decreases |mesh|
  {
    if mesh == [] then []
    else
      var init := mesh[..|mesh| - 1];
      var prev := WriteMeshToObj(init);
      var r := prev + Block(mesh[|mesh| - 1], |mesh| - 1);
      assert forall i :: 0 <= i < |init| ==> r[4 * i..4 * i + 4] == prev[4 * i..4 * i + 4];
      r
  }

  /** The corners of the mesh, three per triangle, in order. */
  function Corners(mesh: seq<Tri>): (r: seq<Vec3>)
    ensures |r| == 3 * |mesh|
    decreases |mesh|
  {
    if mesh == [] then []
    else
      var t := mesh[|mesh| - 1];
      Corners(mesh[..|mesh| - 1]) + [t.a, t.b, t.c]
  }

  /** The mesh as the loader rebuilds it: the corner positions survive,
      every other field is zero. */
  function Positions(mesh: seq<Tri>): (r: seq<Tri>)
    ensures |r| == |mesh|
    ensures forall i :: 0 <= i < |mesh| ==> r[i] == MakeTri(mesh[i].a, mesh[i].b, mesh[i].c)
  {
    seq(|mesh|, i requires 0 <= i < |mesh| => MakeTri(mesh[i].a, mesh[i].b, mesh[i].c))
  }

  /** Loading one exported block after `k` complete triangles adds the
      block's three corners and its one triangle. */
  lemma BlockLoads(t: Tri, k: nat, st: Loader, n: nat)
    requires |st.vts| == 3 * k && |st.tris| == k
    requires n > 3 * k + 3
    ensures WellIndexed(Block(t, k), st, n)
    ensures Run(Block(t, k), st, n) == Loader(st.vts + [t.a, t.b, t.c], st.tris + [MakeTri(t.a, t.b, t.c)])
  {
    var rs := Block(t, k);
    var s1 := Step(st, rs[0]);
    var s2 := Step(s1, rs[1]);
    var s3 := Step(s2, rs[2]);
    assert s3.vts == st.vts + [t.a, t.b, t.c];
    var s4 := Step(s3, rs[3]);
    assert rs[1..] == [rs[1], rs[2], rs[3]];
    assert rs[1..][1..] == [rs[2], rs[3]];
    assert rs[1..][1..][1..] == [rs[3]];
    assert rs[1..][1..][1..][1..] == [];
    assert WellIndexed([rs[3]], s3, n);
    assert Run(rs[1..][1..][1..], s3, n) == s4;
    assert Run(rs[1..][1..], s2, n) == s4;
    assert Run(rs[1..], s1, n) == s4;
  }

  /** Round trip: loading what the exporter writes for `N` triangles,
      with capacity above `3N`, gives back `N` triangles with the same
      corner positions, and every face finds its own three vertices. */
  lemma {:induction false} LoadAfterWrite(mesh: seq<Tri>, n: nat)
    requires n > 3 * |mesh|
    ensures WellIndexed(WriteMeshToObj(mesh), Empty, n)
    ensures Load(WriteMeshToObj(mesh), n) == Loader(Corners(mesh), Positions(mesh))
    decreases |mesh|
  {
    if mesh == [] {
      assert Positions(mesh) == [];
    } else {
      var init, t := mesh[..|mesh| - 1], mesh[|mesh| - 1];
      var k := |init|;
      LoadAfterWrite(init, n);
      var st := Load(WriteMeshToObj(init), n);
      BlockLoads(t, k, st, n);
      RunAppend(WriteMeshToObj(init), Block(t, k), Empty, n);
      assert Positions(mesh) == Positions(init) + [MakeTri(t.a, t.b, t.c)];
    }
  }

  /** The round trip seen from the caller of `loadObj`: the count is the
      number of triangles written, and every corner comes back. */
  lemma LoadObjAfterWrite(mesh: seq<Tri>, n: nat)
    requires n > 3 * |mesh|
    ensures WellIndexed(WriteMeshToObj(mesh), Empty, n)
    ensures |Load(WriteMeshToObj(mesh), n).tris| == |mesh|
    ensures forall i :: 0 <= i < |mesh| ==>
      var t := Load(WriteMeshToObj(mesh), n).tris[i];
      t.a == mesh[i].a && t.b == mesh[i].b && t.c == mesh[i].c && OnlyPositions(t)
  {
    LoadAfterWrite(mesh, n);
  }
}
