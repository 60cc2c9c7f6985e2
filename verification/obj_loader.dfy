/** `loadObj` (3dEngine.c:156-187) at the level of records.

    Reading lines and scanning their words is not part of this model: the
    input is the sequence of lines already classified as a vertex `V`, a
    face `F` written as whitespace-separated integers (its first three
    indices, plus whatever further indices the line carried) or anything else. The loader keeps a vertex table and a
    triangle buffer, both of capacity `n`, and stops as soon as either is
    full. */
module ObjLoader {
  import opened Types

  datatype ObjRecord =
    | V(p: Vec3)
    | F(i: int, j: int, k: int, extra: seq<int>)
    | Other

  /** The loader's state: the vertices read so far and the triangles
      stored so far. */
  datatype Loader = Loader(vts: seq<Vec3>, tris: seq<Tri>)

  const Empty: Loader := Loader([], [])

  /** The loop condition: neither table is full. */
  predicate Running(st: Loader, n: nat)
  {
    |st.vts| < n && |st.tris| < n
  }

  predicate Bounded(st: Loader, n: nat)
  {
    |st.vts| <= n && |st.tris| <= n
  }

  /** A 1-based index names a vertex already read. */
  predicate Resolves(vts: seq<Vec3>, idx: int)
  {
    1 <= idx <= |vts|
  }

  /** The record can be processed in this state: a face refers only to
      vertices already read (anything else is undefined behaviour in the
      source). */
  predicate Accepts(st: Loader, r: ObjRecord)
  {
    r.F? ==> Resolves(st.vts, r.i) && Resolves(st.vts, r.j) && Resolves(st.vts, r.k)
  }

  /** One record of the loop body: a vertex goes into the table, a face
      becomes the triangle literal of its three vertices, anything else is
      skipped. */
  function Step(st: Loader, r: ObjRecord): Loader
    requires Accepts(st, r)
  {
    match r
    case V(p) => Loader(st.vts + [p], st.tris)
    case F(i, j, k, _) => Loader(st.vts, st.tris + [MakeTri(st.vts[i - 1], st.vts[j - 1], st.vts[k - 1])])
    case Other => st
  }

  /** Every face the loader actually reaches refers to vertices read
      before it. Records after the loader stops are never looked at. */
  predicate WellIndexed(rs: seq<ObjRecord>, st: Loader, n: nat)
    decreases |rs|
  {
    rs == [] || !Running(st, n) || (Accepts(st, rs[0]) && WellIndexed(rs[1..], Step(st, rs[0]), n))
  }

  /** The loader loop from state `st`: the tables only grow, and they
      never outgrow the capacity. */
  function Run(rs: seq<ObjRecord>, st: Loader, n: nat): (r: Loader)
    requires WellIndexed(rs, st, n)
    ensures st.vts <= r.vts && st.tris <= r.tris
    ensures Bounded(st, n) ==> Bounded(r, n)
    decreases |rs|
  {
    if rs == [] || !Running(st, n) then st
    else Run(rs[1..], Step(st, rs[0]), n)
  }

  /** The whole load, from empty tables. */
  function Load(rs: seq<ObjRecord>, n: nat): (r: Loader)
    requires WellIndexed(rs, Empty, n)
    ensures |r.vts| <= n && |r.tris| <= n
  {
    Run(rs, Empty, n)
  }

  /** The loop of `loadObj`: returns the triangles stored and their
      count, which never exceeds the capacity. */
  method LoadObj(records: seq<ObjRecord>, n: nat) returns (mesh: seq<Tri>, count: int)
    requires WellIndexed(records, Empty, n)
    ensures 0 <= count == |mesh| <= n
    ensures mesh == Load(records, n).tris
  {
    var vts: seq<Vec3> := [];
    var tris: seq<Tri> := [];
    var i := 0;
    while i < |records| && |vts| < n && |tris| < n
      invariant 0 <= i <= |records|
      invariant |vts| <= n && |tris| <= n
      invariant WellIndexed(records[i..], Loader(vts, tris), n)
      invariant Run(records[i..], Loader(vts, tris), n) == Load(records, n)
    {
      assert records[i..][1..] == records[i + 1..];
      match records[i] {
        case V(p) =>
          vts := vts + [p];
        case F(a, b, c, _) =>
          tris := tris + [MakeTri(vts[a - 1], vts[b - 1], vts[c - 1])];
        case Other =>
      }
      i := i + 1;
    }
    mesh := tris;
    count := |tris|;
  }

  /** Loading a concatenation is loading the first part, then the second
      part from where the first left off. */
  lemma {:induction false} RunAppend(rs: seq<ObjRecord>, rs': seq<ObjRecord>, st: Loader, n: nat)
    requires WellIndexed(rs, st, n)
    ensures WellIndexed(rs + rs', st, n) <==> WellIndexed(rs', Run(rs, st, n), n)
    ensures WellIndexed(rs + rs', st, n) ==> Run(rs + rs', st, n) == Run(rs', Run(rs, st, n), n)
    decreases |rs|
  {
    if rs == [] {
      assert rs + rs' == rs';
    } else if Running(st, n) {
      assert (rs + rs')[0] == rs[0];
      assert (rs + rs')[1..] == rs[1..] + rs';
      RunAppend(rs[1..], rs', Step(st, rs[0]), n);
    }
  }

  /** Once either table is full the loader stops: whatever records
      follow are not even looked at. */
  lemma LoadStopsAtCapacity(rs: seq<ObjRecord>, more: seq<ObjRecord>, n: nat)
    requires WellIndexed(rs, Empty, n)
    requires |Load(rs, n).vts| == n || |Load(rs, n).tris| == n
    ensures WellIndexed(rs + more, Empty, n)
    ensures Load(rs + more, n) == Load(rs, n)
  {
    RunAppend(rs, more, Empty, n);
  }

  /** The effect of one more record while the loader is running: a
      vertex extends the table, a face appends exactly one triangle made
      of the vertices it names (further indices are ignored), and any
      other record changes nothing. */
  lemma LoadOneMore(rs: seq<ObjRecord>, r: ObjRecord, n: nat)
    requires WellIndexed(rs, Empty, n)
    requires Running(Load(rs, n), n)
    requires Accepts(Load(rs, n), r)
    ensures WellIndexed(rs + [r], Empty, n)
    ensures r.V? ==> Load(rs + [r], n) == Loader(Load(rs, n).vts + [r.p], Load(rs, n).tris)
    ensures r.F? ==> Load(rs + [r], n).vts == Load(rs, n).vts
    ensures r.F? ==>
      var vts := Load(rs, n).vts;
      Load(rs + [r], n).tris == Load(rs, n).tris + [MakeTri(vts[r.i - 1], vts[r.j - 1], vts[r.k - 1])]
    ensures r.Other? ==> Load(rs + [r], n) == Load(rs, n)
  {
    var st := Load(rs, n);
    assert [r][1..] == [];
    assert WellIndexed([r], st, n);
    RunAppend(rs, [r], Empty, n);
  }

  /** The example of a three-vertex file with one face: its triangle is
      loaded once both tables have room for four entries. */
  lemma OneTriangleFile(n: nat)
    requires n >= 4
    ensures WellIndexed([V(Vec3(0.0, 0.0, 0.0)), V(Vec3(1.0, 0.0, 0.0)), V(Vec3(0.0, 1.0, 0.0)), F(1, 2, 3, [])], Empty, n)
    ensures Load([V(Vec3(0.0, 0.0, 0.0)), V(Vec3(1.0, 0.0, 0.0)), V(Vec3(0.0, 1.0, 0.0)), F(1, 2, 3, [])], n).tris
         == [MakeTri(Vec3(0.0, 0.0, 0.0), Vec3(1.0, 0.0, 0.0), Vec3(0.0, 1.0, 0.0))]
  {
    var rs := [V(Vec3(0.0, 0.0, 0.0)), V(Vec3(1.0, 0.0, 0.0)), V(Vec3(0.0, 1.0, 0.0)), F(1, 2, 3, [])];
    assert rs[1..][1..][1..][1..] == [];
  }

  /** The vertex table shares the capacity of the triangle buffer: with
      room for only three entries the table is full after the third
      vertex, and the face is never read. */
  lemma OneTriangleFileNeedsFourSlots()
    ensures WellIndexed([V(Vec3(0.0, 0.0, 0.0)), V(Vec3(1.0, 0.0, 0.0)), V(Vec3(0.0, 1.0, 0.0)), F(1, 2, 3, [])], Empty, 3)
    ensures Load([V(Vec3(0.0, 0.0, 0.0)), V(Vec3(1.0, 0.0, 0.0)), V(Vec3(0.0, 1.0, 0.0)), F(1, 2, 3, [])], 3).tris == []
  {
    var rs := [V(Vec3(0.0, 0.0, 0.0)), V(Vec3(1.0, 0.0, 0.0)), V(Vec3(0.0, 1.0, 0.0)), F(1, 2, 3, [])];
    assert rs[1..][1..][1..] == [F(1, 2, 3, [])];
  }
}
