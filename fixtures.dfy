// The cube the library's tests load, save and reload: eight corners and
// twelve triangles. Its faces are the ones the inversion test lists, wound
// back the other way.

module Fixtures {
  import opened Edges
  import opened Vertices
  import opened Faces
  import opened Topology
  import opened Text
  import opened Files
  import Ply
  import Collada
  import Stl

  /** The twelve faces of the cube: two triangles per side. */
  const CubeFaces: seq<Triple> := [
    Triple(3, 1, 0), Triple(2, 3, 0), Triple(3, 7, 1), Triple(5, 1, 7),
    Triple(6, 5, 7), Triple(5, 6, 4), Triple(4, 6, 2), Triple(4, 2, 0),
    Triple(6, 7, 3), Triple(3, 2, 6), Triple(1, 5, 0), Triple(4, 0, 5)]

  /** Inverting the cube gives the faces the inversion test expects, in order. */
  lemma CubeInverted()
    ensures InvertedFaces(CubeFaces) == [
      Triple(0, 1, 3), Triple(0, 3, 2), Triple(1, 7, 3), Triple(7, 1, 5),
      Triple(7, 5, 6), Triple(4, 6, 5), Triple(2, 6, 4), Triple(0, 2, 4),
      Triple(3, 7, 6), Triple(6, 2, 3), Triple(0, 5, 1), Triple(5, 0, 4)]
  {
  }

  /** The eighteen edges of the cube: its twelve sides and one diagonal on
      each of its six sides. */
  const CubeEdges: set<Edge> := {Edge(0, 1), Edge(0, 2), Edge(0, 3), Edge(0, 4), Edge(0, 5), Edge(1, 3), Edge(1, 5), Edge(1, 7), Edge(2, 3), Edge(2, 4), Edge(2, 6), Edge(3, 6), Edge(3, 7), Edge(4, 5), Edge(4, 6), Edge(5, 6), Edge(5, 7), Edge(6, 7)}

  /** The side counts of the cube, face by face. */
  lemma CubeIncidenceSum(e: Edge)
    ensures Incidence(CubeFaces, e) ==
      SideCount(Triple(3, 1, 0), e) +
      SideCount(Triple(2, 3, 0), e) +
      SideCount(Triple(3, 7, 1), e) +
      SideCount(Triple(5, 1, 7), e) +
      SideCount(Triple(6, 5, 7), e) +
      SideCount(Triple(5, 6, 4), e) +
      SideCount(Triple(4, 6, 2), e) +
      SideCount(Triple(4, 2, 0), e) +
      SideCount(Triple(6, 7, 3), e) +
      SideCount(Triple(3, 2, 6), e) +
      SideCount(Triple(1, 5, 0), e) +
      SideCount(Triple(4, 0, 5), e)
  {
    var fs := CubeFaces;
    assert fs[..0] == [] && fs[..12] == fs;
    IncidenceStep(fs, 0, e);
    IncidenceStep(fs, 1, e);
    IncidenceStep(fs, 2, e);
    IncidenceStep(fs, 3, e);
    IncidenceStep(fs, 4, e);
    IncidenceStep(fs, 5, e);
    IncidenceStep(fs, 6, e);
    IncidenceStep(fs, 7, e);
    IncidenceStep(fs, 8, e);
    IncidenceStep(fs, 9, e);
    IncidenceStep(fs, 10, e);
    IncidenceStep(fs, 11, e);
  }

  /** Each edge of the cube lies on exactly two of its faces, and no other
      pair on any. */
  lemma CubeIncidence(e: Edge)
    ensures Incidence(CubeFaces, e) == if e in CubeEdges then 2 else 0
  {
    CubeIncidenceSum(e);
  }

  /** The cube is closed. */
  lemma CubeIsClosed()
    ensures Closed(CubeFaces)
  {
    forall e | Incidence(CubeFaces, e) > 0
      ensures Incidence(CubeFaces, e) == 2
    {
      CubeIncidence(e);
    }
  }

  /** The corners the cube's faces join to corner `k`. */
  function CubeNeighbors(k: nat): set<nat>
  {
    if k == 0 then {1, 2, 3, 4, 5}
    else if k == 1 then {0, 3, 5, 7}
    else if k == 2 then {0, 3, 4, 6}
    else if k == 3 then {0, 1, 2, 6, 7}
    else if k == 4 then {0, 2, 5, 6}
    else if k == 5 then {0, 1, 4, 6, 7}
    else if k == 6 then {2, 3, 4, 5, 7}
    else if k == 7 then {1, 3, 5, 6}
    else {}
  }

  /** Corner `k` of the cube is joined to exactly the corners listed for it. */
  lemma CubeJoins(k: nat, j: nat)
    requires k < 8
    ensures JoinedBy(CubeFaces, k, j) <==> j in CubeNeighbors(k)
  {
    var fs := CubeFaces;
    assert fs[0] == Triple(3, 1, 0) && fs[1] == Triple(2, 3, 0) && fs[2] == Triple(3, 7, 1) && fs[3] == Triple(5, 1, 7);
    assert fs[4] == Triple(6, 5, 7) && fs[5] == Triple(5, 6, 4) && fs[6] == Triple(4, 6, 2) && fs[7] == Triple(4, 2, 0);
    assert fs[8] == Triple(6, 7, 3) && fs[9] == Triple(3, 2, 6) && fs[10] == Triple(1, 5, 0) && fs[11] == Triple(4, 0, 5);
  }

  /** A list without repeats is as long as the set of its elements. */
  lemma {:induction false} DistinctLength<T>(s: seq<T>, elements: set<T>)
    requires forall i, j :: 0 <= i < j < |s| ==> s[i] != s[j]
    requires forall j :: j in s <==> j in elements
    ensures |s| == |elements|
  {
    if s == [] {
      assert elements == {};
    } else {
      var rest := elements - {s[0]};
      forall j
        ensures j in s[1..] <==> j in rest
      {
        if j in s[1..] {
          var i :| 0 <= i < |s[1..]| && s[1..][i] == j;
          assert s[i + 1] == j;
        }
      }
      DistinctLength(s[1..], rest);
    }
  }

  /** The total neighbour count over the first `k + 1` vertices. */
  lemma NeighborEntriesPrefix(vs: seq<VertexValue>, k: nat)
    requires k < |vs|
    ensures NeighborEntries(vs[..k + 1]) == NeighborEntries(vs[..k]) + |vs[k].neighbors|
  {
    assert vs[..k + 1][..k] == vs[..k];
  }

  /** Every corner has its three cube edges and one or two diagonals: corners
      0, 3, 5 and 6 have five neighbours, the others four. */
  lemma CubeDegrees()
    ensures |CubeNeighbors(0)| == 5 && |CubeNeighbors(1)| == 4 && |CubeNeighbors(2)| == 4 && |CubeNeighbors(3)| == 5
    ensures |CubeNeighbors(4)| == 4 && |CubeNeighbors(5)| == 5 && |CubeNeighbors(6)| == 5 && |CubeNeighbors(7)| == 4
  {
  }

  /** In a mesh over the cube's faces whose neighbour lists are duplicate-free
      and equal to the face adjacency, corner `k` lists its cube neighbours,
      each once. */
  lemma CubeDegree(m: MeshValue, k: nat)
    requires |m.vertices| == 8 && m.faces == CubeFaces && k < 8
    requires WellFormed(m) && FaceAdjacency(m)
    ensures |m.vertices[k].neighbors| == |CubeNeighbors(k)|
  {
    var ns := m.vertices[k].neighbors;
    forall j
      ensures j in ns <==> j in CubeNeighbors(k)
    {
      CubeJoins(k, j);
    }
    DistinctLength(ns, CubeNeighbors(k));
  }

  /** Such a mesh holds 36 neighbour entries: eighteen edges, each listed at
      both ends. */
  lemma CubeNeighborEntries(m: MeshValue)
    requires |m.vertices| == 8 && m.faces == CubeFaces
    requires WellFormed(m) && FaceAdjacency(m)
    ensures NeighborEntries(m.vertices) == 36
  {
    var vs := m.vertices;
    CubeDegrees();
    assert vs[..0] == [] && vs[..8] == vs;
    CubeDegree(m, 0);
    NeighborEntriesPrefix(vs, 0);
    CubeDegree(m, 1);
    NeighborEntriesPrefix(vs, 1);
    CubeDegree(m, 2);
    NeighborEntriesPrefix(vs, 2);
    CubeDegree(m, 3);
    NeighborEntriesPrefix(vs, 3);
    CubeDegree(m, 4);
    NeighborEntriesPrefix(vs, 4);
    CubeDegree(m, 5);
    NeighborEntriesPrefix(vs, 5);
    CubeDegree(m, 6);
    NeighborEntriesPrefix(vs, 6);
    CubeDegree(m, 7);
    NeighborEntriesPrefix(vs, 7);
  }

  /** Reloading the cube from the PLY text `save_to_ply` writes gives back
      eight vertices and twelve faces, with 36 neighbour entries in all. */
  lemma PlyCube(m: MeshValue, text: FloatText)
    requires RoundTripsOn(text, CoordinateSet(Positions(m.vertices)))
    requires |m.vertices| == 8 && m.faces == CubeFaces
    ensures var r := Ply.Parse(Empty, Readable(Ply.Render(m, text)), text);
      r.0 == Success && |r.1.vertices| == 8 && |r.1.faces| == 12 && NeighborEntries(r.1.vertices) == 36
  {
    var input := Readable(Ply.Render(m, text));
    assert FacesBelow(m.faces, |m.vertices|);
    Ply.RenderThenParse(m, text);
    EmptyIsWellFormed();
    Ply.ParseKeepsWellFormed(Empty, input, text);
    CubeNeighborEntries(Ply.Parse(Empty, input, text).1);
  }

  /** Reading the cube back from the two COLLADA arrays `save_to_collada`
      writes gives eight vertices and twelve faces, with 36 neighbour entries
      in all. */
  lemma ColladaCube(m: MeshValue, text: FloatText)
    requires RoundTripsOn(text, CoordinateSet(Positions(m.vertices)))
    requires |m.vertices| == 8 && m.faces == CubeFaces
    ensures var cs := [Collada.FloatArray(Collada.Joined(Collada.CoordinateWords(Positions(m.vertices), text))),
                       Collada.TriangleList(Collada.Joined(Collada.IndexWords(m.faces)))];
      var r := Collada.ReadChunks(Empty, cs, text);
      r.0 == Success && |r.1.vertices| == 8 && |r.1.faces| == 12 && NeighborEntries(r.1.vertices) == 36
  {
    assert FacesBelow(m.faces, |m.vertices|);
    ColladaReload(m, text);
  }

  /** What reading back the two COLLADA arrays gives, for any faces. */
  lemma ColladaReload(m: MeshValue, text: FloatText)
    requires RoundTripsOn(text, CoordinateSet(Positions(m.vertices)))
    requires FacesBelow(m.faces, |m.vertices|) && |m.vertices| == 8
    ensures var cs := [Collada.FloatArray(Collada.Joined(Collada.CoordinateWords(Positions(m.vertices), text))),
                       Collada.TriangleList(Collada.Joined(Collada.IndexWords(m.faces)))];
      var r := Collada.ReadChunks(Empty, cs, text);
      r.0 == Success && |r.1.vertices| == 8 && r.1.faces == m.faces &&
      (m.faces == CubeFaces ==> NeighborEntries(r.1.vertices) == 36)
  {
    var cs := [Collada.FloatArray(Collada.Joined(Collada.CoordinateWords(Positions(m.vertices), text))),
               Collada.TriangleList(Collada.Joined(Collada.IndexWords(m.faces)))];
    Collada.RenderThenRead(m, text);
    var r := Collada.ReadChunks(Empty, cs, text);
    if m.faces == CubeFaces {
      CubeNeighborEntries(r.1);
    }
  }

  /** The cube with corners at -1 and 1 on each axis, its vertices not yet
      joined. */
  const UnitCube: MeshValue := MeshValue(Isolated(Cube(-1.0, 1.0)), CubeFaces)

  /** Its coordinates are whole numbers, so a float text that prints whole
      numbers as decimal integers reads each of them back. */
  lemma UnitCubeRoundTrips()
    ensures RoundTripsOn(IntegerText, CoordinateSet(Positions(UnitCube.vertices)))
    ensures ScansPrintedOn(IntegerText, CoordinateSet(Positions(UnitCube.vertices)))
  {
    var ps := Positions(UnitCube.vertices);
    assert ps == Cube(-1.0, 1.0);
    CoordinateSetWithin(ps, {-1.0, 1.0});
    assert Integral(-1.0) && Integral(1.0);
    IntegerTextRoundTrips(CoordinateSet(ps));
  }

  /** The PLY and COLLADA reloads hold for an actual cube and float text. */
  lemma UnitCubeReloads()
    ensures var r := Ply.Parse(Empty, Readable(Ply.Render(UnitCube, IntegerText)), IntegerText);
      r.0 == Success && |r.1.vertices| == 8 && |r.1.faces| == 12 && NeighborEntries(r.1.vertices) == 36
    ensures var m := UnitCube;
      var cs := [Collada.FloatArray(Collada.Joined(Collada.CoordinateWords(Positions(m.vertices), IntegerText))),
                 Collada.TriangleList(Collada.Joined(Collada.IndexWords(m.faces)))];
      var r := Collada.ReadChunks(Empty, cs, IntegerText);
      r.0 == Success && |r.1.vertices| == 8 && |r.1.faces| == 12 && NeighborEntries(r.1.vertices) == 36
  {
    UnitCubeRoundTrips();
    PlyCube(UnitCube, IntegerText);
    ColladaCube(UnitCube, IntegerText);
  }

  // ---------------------------------------------------------------------------
  // The STL reload of the cube. STL merges equal positions and numbers the
  // vertices in the order their positions first appear in the facets, so the
  // reloaded cube is the saved one with its corners renumbered.

  /** The index of position `q` among the positions `ps`. */
  ghost function CornerOf(ps: seq<Vec3>, q: Vec3): (k: nat)
    requires q in ps
    ensures k < |ps| && ps[k] == q
  {
    var k :| 0 <= k < |ps| && ps[k] == q; k
  }

  /** A mesh `r` whose eight vertices sit at the eight pairwise different
      corner positions `ps` of the saved cube, one each, and whose faces are
      the cube's faces with every corner replaced by the vertex at its
      position. */
  ghost predicate Renumbered(r: MeshValue, ps: seq<Vec3>)
  {
    |ps| == 8 && |r.vertices| == 8 && |r.faces| == 12 &&
    (forall i, j :: 0 <= i < j < 8 ==> ps[i] != ps[j]) &&
    (forall j :: 0 <= j < 8 ==> r.vertices[j].pos in ps) &&
    (forall k :: 0 <= k < 8 ==> ps[k] in Positions(r.vertices)) &&
    (forall i, j :: 0 <= i < j < 8 ==> r.vertices[i].pos != r.vertices[j].pos) &&
    FacesBelow(r.faces, 8) &&
    (forall i :: 0 <= i < 12 ==>
      ps[CubeFaces[i].a] == r.vertices[r.faces[i].a].pos &&
      ps[CubeFaces[i].b] == r.vertices[r.faces[i].b].pos &&
      ps[CubeFaces[i].c] == r.vertices[r.faces[i].c].pos)
  }

  /** The cube corner vertex `j` of a renumbered cube stands for. */
  ghost function Original(r: MeshValue, ps: seq<Vec3>, j: nat): (k: nat)
    requires Renumbered(r, ps) && j < 8
    ensures k < 8 && ps[k] == r.vertices[j].pos
  {
    CornerOf(ps, r.vertices[j].pos)
  }

  /** Every cube corner is stood for by exactly one vertex. */
  lemma OriginalOnto(r: MeshValue, ps: seq<Vec3>, k: nat) returns (j: nat)
    requires Renumbered(r, ps) && k < 8
    ensures j < 8 && Original(r, ps, j) == k
  {
    var qs := Positions(r.vertices);
    assert ps[k] in qs;
    j :| 0 <= j < 8 && qs[j] == ps[k];
  }

  /** Different vertices stand for different corners. */
  lemma OriginalInjective(r: MeshValue, ps: seq<Vec3>, i: nat, j: nat)
    requires Renumbered(r, ps) && i < 8 && j < 8 && i != j
    ensures Original(r, ps, i) != Original(r, ps, j)
  {
    if i < j {
      assert r.vertices[i].pos != r.vertices[j].pos;
    } else {
      assert r.vertices[j].pos != r.vertices[i].pos;
    }
  }

  /** Face `i` of the renumbered cube is face `i` of the cube, corner by
      corner. */
  lemma OriginalFace(r: MeshValue, ps: seq<Vec3>, i: nat)
    requires Renumbered(r, ps) && i < 12
    ensures r.faces[i].Below(8)
    ensures Original(r, ps, r.faces[i].a) == CubeFaces[i].a
    ensures Original(r, ps, r.faces[i].b) == CubeFaces[i].b
    ensures Original(r, ps, r.faces[i].c) == CubeFaces[i].c
  {
    var t, u := r.faces[i], CubeFaces[i];
    assert u.Below(8) by {
      assert CubeFaces[i] in CubeFaces;
    }
    SameIndex(ps, Original(r, ps, t.a), u.a);
    SameIndex(ps, Original(r, ps, t.b), u.b);
    SameIndex(ps, Original(r, ps, t.c), u.c);
  }

  /** In a list without repeats, equal entries sit at the same index. */
  lemma SameIndex<T>(ps: seq<T>, i: nat, j: nat)
    requires forall a, b :: 0 <= a < b < |ps| ==> ps[a] != ps[b]
    requires i < |ps| && j < |ps| && ps[i] == ps[j]
    ensures i == j
  {
  }

  /** A renumbered face that joins two vertices comes from a cube face that
      joins the corners they stand for. */
  lemma JoinedByRenumberedCube(r: MeshValue, ps: seq<Vec3>, j: nat, x: nat)
    requires Renumbered(r, ps) && j < 8 && x < 8
    requires JoinedBy(r.faces, j, x)
    ensures JoinedBy(CubeFaces, Original(r, ps, j), Original(r, ps, x))
  {
    var f :| 0 <= f < |r.faces| && Joins(r.faces[f], j, x);
    OriginalFace(r, ps, f);
    assert Joins(CubeFaces[f], Original(r, ps, j), Original(r, ps, x));
  }

  /** A cube face that joins two corners comes back as a renumbered face
      joining the vertices standing for them. */
  lemma JoinedByCubeRenumbered(r: MeshValue, ps: seq<Vec3>, j: nat, x: nat)
    requires Renumbered(r, ps) && j < 8 && x < 8
    requires JoinedBy(CubeFaces, Original(r, ps, j), Original(r, ps, x))
    ensures JoinedBy(r.faces, j, x)
  {
    var kj, kx := Original(r, ps, j), Original(r, ps, x);
    var f :| 0 <= f < |CubeFaces| && Joins(CubeFaces[f], kj, kx);
    OriginalFace(r, ps, f);
    var t := r.faces[f];
    forall y | y < 8 && (y == t.a || y == t.b || y == t.c)
      ensures (Original(r, ps, y) == kj ==> y == j) && (Original(r, ps, y) == kx ==> y == x)
    {
      if y != j {
        OriginalInjective(r, ps, y, j);
      }
      if y != x {
        OriginalInjective(r, ps, y, x);
      }
    }
    assert Joins(t, j, x);
  }

  /** The renumbered faces join two vertices exactly when the cube's faces
      join the corners they stand for. */
  lemma JoinedByRenumbered(r: MeshValue, ps: seq<Vec3>, j: nat, x: nat)
    requires Renumbered(r, ps) && j < 8 && x < 8
    ensures JoinedBy(r.faces, j, x) <==> JoinedBy(CubeFaces, Original(r, ps, j), Original(r, ps, x))
  {
    if JoinedBy(r.faces, j, x) {
      JoinedByRenumberedCube(r, ps, j, x);
    }
    if JoinedBy(CubeFaces, Original(r, ps, j), Original(r, ps, x)) {
      JoinedByCubeRenumbered(r, ps, j, x);
    }
  }

  /** In a renumbered cube whose neighbour lists are duplicate-free and equal
      to the face adjacency, each vertex has as many neighbours as the corner
      it stands for. */
  lemma RenumberedDegree(r: MeshValue, ps: seq<Vec3>, j: nat)
    requires Renumbered(r, ps) && j < 8 && WellFormed(r) && FaceAdjacency(r)
    ensures |r.vertices[j].neighbors| == |CubeNeighbors(Original(r, ps, j))|
  {
    var ns := r.vertices[j].neighbors;
    var k := Original(r, ps, j);
    assert forall i :: 0 <= i < |ns| ==> ns[i] < 8 by {
      forall i | 0 <= i < |ns|
        ensures ns[i] < 8
      {
        assert ns[i] in r.vertices[j].neighbors;
      }
    }
    var ms := seq(|ns|, i requires 0 <= i < |ns| => Original(r, ps, ns[i]));
    forall a, b | 0 <= a < b < |ms|
      ensures ms[a] != ms[b]
    {
      OriginalInjective(r, ps, ns[a], ns[b]);
    }
    forall y
      ensures y in ms <==> y in CubeNeighbors(k)
    {
      if y in ms {
        var i :| 0 <= i < |ms| && ms[i] == y;
        assert ns[i] in r.vertices[j].neighbors;
        JoinedByRenumbered(r, ps, j, ns[i]);
        CubeJoins(k, y);
      }
      if y in CubeNeighbors(k) {
        assert y < 8;
        var x := OriginalOnto(r, ps, y);
        CubeJoins(k, y);
        JoinedByRenumbered(r, ps, j, x);
        var i :| 0 <= i < |ns| && ns[i] == x;
        assert ms[i] == y;
      }
    }
    DistinctLength(ms, CubeNeighbors(k));
  }

  /** The corners with five neighbours. */
  const FiveCorners: set<nat> := {0, 3, 5, 6}

  /** The neighbour count over the first `n` vertices, when every vertex in
      `five` has five neighbours and every other one four. */
  lemma {:induction false} EntriesByDegree(vs: seq<VertexValue>, five: set<nat>, n: nat)
    requires n <= |vs|
    requires forall j :: 0 <= j < |vs| ==> |vs[j].neighbors| == if j in five then 5 else 4
    ensures NeighborEntries(vs[..n]) == 4 * n + |Below(five, n)|
    decreases n
  {
    if n == 0 {
      assert vs[..0] == [];
      assert Below(five, 0) == {};
    } else {
      EntriesByDegree(vs, five, n - 1);
      assert vs[..n][..n - 1] == vs[..n - 1];
      if n - 1 in five {
        assert Below(five, n) == Below(five, n - 1) + {n - 1};
      } else {
        assert Below(five, n) == Below(five, n - 1);
      }
    }
  }

  /** The members of `five` below `n`. */
  function Below(five: set<nat>, n: nat): set<nat>
  {
    set j | j in five && j < n
  }

  /** A vertex of a renumbered cube has five neighbours when it stands for
      one of the corners 0, 3, 5 and 6, and four otherwise. */
  lemma RenumberedDegreeIn(r: MeshValue, ps: seq<Vec3>, five: seq<nat>, j: nat)
    requires Renumbered(r, ps) && WellFormed(r) && FaceAdjacency(r) && j < 8
    requires |five| == 4 && forall i :: 0 <= i < 4 ==> five[i] < 8
    requires Original(r, ps, five[0]) == 0 && Original(r, ps, five[1]) == 3
    requires Original(r, ps, five[2]) == 5 && Original(r, ps, five[3]) == 6
    ensures |r.vertices[j].neighbors| == if j in five then 5 else 4
  {
    RenumberedDegree(r, ps, j);
    CubeDegrees();
    var k := Original(r, ps, j);
    if k in FiveCorners {
      assert j in five by {
        if j !in five {
          OriginalInjective(r, ps, j, five[0]);
          OriginalInjective(r, ps, j, five[1]);
          OriginalInjective(r, ps, j, five[2]);
          OriginalInjective(r, ps, j, five[3]);
        }
      }
    } else {
      assert j !in five;
    }
  }

  /** A renumbered cube holds 36 neighbour entries when its neighbour lists
      are duplicate-free and equal to the face adjacency. */
  lemma RenumberedEntries(r: MeshValue, ps: seq<Vec3>)
    requires Renumbered(r, ps) && WellFormed(r) && FaceAdjacency(r)
    ensures NeighborEntries(r.vertices) == 36
  {
    var a0 := OriginalOnto(r, ps, 0);
    var a3 := OriginalOnto(r, ps, 3);
    var a5 := OriginalOnto(r, ps, 5);
    var a6 := OriginalOnto(r, ps, 6);
    var five := [a0, a3, a5, a6];
    forall j | 0 <= j < |r.vertices|
      ensures |r.vertices[j].neighbors| == if j in set i | i in five then 5 else 4
    {
      RenumberedDegreeIn(r, ps, five, j);
    }
    forall a, b | 0 <= a < b < 4
      ensures five[a] != five[b]
    {
      OriginalInjective(r, ps, five[a], five[b]);
    }
    EntriesOfFive(r.vertices, five);
  }

  /** Eight vertices, four of them with five neighbours and the other four
      with four, hold 36 neighbour entries. */
  lemma EntriesOfFive(vs: seq<VertexValue>, five: seq<nat>)
    requires |vs| == 8 && |five| == 4
    requires forall i :: 0 <= i < 4 ==> five[i] < 8
    requires forall a, b :: 0 <= a < b < 4 ==> five[a] != five[b]
    requires forall j :: 0 <= j < |vs| ==> |vs[j].neighbors| == if j in set i | i in five then 5 else 4
    ensures NeighborEntries(vs) == 36
  {
    var fives := set i | i in five;
    DistinctLength(five, fives);
    assert |fives| == 4;
    EntriesByDegree(vs, fives, 8);
    assert Below(fives, 8) == fives;
    assert vs[..8] == vs;
  }

  /** Each corner of the cube is a corner of some face. */
  lemma CubeCornersUsed(vs: seq<VertexValue>)
    requires |vs| == 8
    ensures FacesBelow(CubeFaces, 8)
    ensures forall q :: q in Stl.CornerPositions(vs, CubeFaces) <==> q in Positions(vs)
  {
    assert FacesBelow(CubeFaces, 8) by {
      forall i | 0 <= i < 12
        ensures CubeFaces[i].Below(8)
      {
        assert CubeFaces[i] in CubeFaces;
      }
    }
    Stl.CornerPositionsWithin(vs, CubeFaces);
    var ps := Positions(vs);
    Stl.CornerPositionsHas(vs, CubeFaces, 0);
    Stl.CornerPositionsHas(vs, CubeFaces, 1);
    Stl.CornerPositionsHas(vs, CubeFaces, 2);
    Stl.CornerPositionsHas(vs, CubeFaces, 3);
    Stl.CornerPositionsHas(vs, CubeFaces, 4);
    Stl.CornerPositionsHas(vs, CubeFaces, 5);
    forall q | q in ps
      ensures q in Stl.CornerPositions(vs, CubeFaces)
    {
      var k :| 0 <= k < 8 && ps[k] == q;
      assert ps[k] == vs[k].pos;
    }
  }

  /** Reloading the cube from the STL text `save_to_stl` writes gives back
      eight vertices and twelve faces, with 36 neighbour entries in all, when
      its eight corners sit at different positions. */
  lemma StlCube(m: MeshValue, stem: string, text: FloatText)
    requires ScansPrintedOn(text, CoordinateSet(Positions(m.vertices)))
    requires |m.vertices| == 8 && m.faces == CubeFaces
    requires forall i, j :: 0 <= i < j < 8 ==> m.vertices[i].pos != m.vertices[j].pos
    ensures var r := Stl.Parse(Empty, Readable(Stl.Render(m, stem, text)), text);
      r.0 == Success && |r.1.vertices| == 8 && |r.1.faces| == 12 && NeighborEntries(r.1.vertices) == 36
  {
    CubeCornersUsed(m.vertices);
    Stl.RenderThenParse(m, stem, text);
    var r := Stl.Parse(Empty, Readable(Stl.Render(m, stem, text)), text).1;
    var ps, qs := Positions(m.vertices), Positions(r.vertices);
    var corners := set q | q in ps;
    DistinctLength(ps, corners);
    DistinctLength(qs, corners);
    forall i | 0 <= i < 12
      ensures ps[CubeFaces[i].a] == r.vertices[r.faces[i].a].pos
      ensures ps[CubeFaces[i].b] == r.vertices[r.faces[i].b].pos
      ensures ps[CubeFaces[i].c] == r.vertices[r.faces[i].c].pos
    {
      assert Stl.SameCorners(r.vertices, r.faces[i], m.vertices, m.faces[i]);
    }
    forall j | 0 <= j < 8
      ensures r.vertices[j].pos in ps
    {
      assert qs[j] in qs;
    }
    assert Renumbered(r, ps);
    RenumberedEntries(r, ps);
  }

  /** The eight corners of a cube of nonzero size are eight different
      points. */
  lemma CubeCornersApart(lo: real, hi: real)
    requires lo != hi
    ensures forall i, j :: 0 <= i < j < 8 ==> Cube(lo, hi)[i] != Cube(lo, hi)[j]
  {
    var ps := Cube(lo, hi);
    assert ps == [Vec3(lo, lo, lo), Vec3(hi, lo, lo), Vec3(lo, hi, lo), Vec3(hi, hi, lo),
                  Vec3(lo, lo, hi), Vec3(hi, lo, hi), Vec3(lo, hi, hi), Vec3(hi, hi, hi)];
  }

  /** The cube with corners at -1 and 1 reloads from STL too. */
  lemma UnitCubeStlReload(stem: string)
    ensures var r := Stl.Parse(Empty, Readable(Stl.Render(UnitCube, stem, IntegerText)), IntegerText);
      r.0 == Success && |r.1.vertices| == 8 && |r.1.faces| == 12 && NeighborEntries(r.1.vertices) == 36
  {
    UnitCubeRoundTrips();
    var vs := UnitCube.vertices;
    var ps := Positions(vs);
    assert ps == Cube(-1.0, 1.0);
    CubeCornersApart(-1.0, 1.0);
    forall i, j | 0 <= i < j < 8
      ensures vs[i].pos != vs[j].pos
    {
      assert ps[i] != ps[j];
    }
    StlCube(UnitCube, stem, IntegerText);
  }
}
