/** The mesh as a value: its vertices (position and neighbour list) and its
    faces (index triples). The functions here specify what the mesh
    operations and the loaders do to that value; the lemmas state what the
    operations promise. */
module Topology {
  import opened Vertices
  import opened Faces
  import opened Edges
  import Errors

  datatype MeshValue = MeshValue(vertices: seq<VertexValue>, faces: seq<Triple>)

  /** How a load ends: with the loader's `parse_error`, or at a point where the
      source indexes the vertex list past its end (undefined behaviour there;
      the model stops). */
  datatype Load = Finished(error: Errors.ParseError) | Undefined

  const Success: Load := Finished(Errors.ParseError(Errors.None))

  predicate FacesBelow(fs: seq<Triple>, n: nat)
  {
    forall i :: 0 <= i < |fs| ==> fs[i].Below(n)
  }

  /** Every neighbour entry names an existing vertex. */
  predicate NeighborsBelow(vs: seq<VertexValue>)
  {
    forall i, k :: 0 <= i < |vs| && 0 <= k < |vs[i].neighbors| ==> vs[i].neighbors[k] < |vs|
  }

  /** Adjacency is mutual: `j` lists `i` whenever `i` lists `j`. */
  predicate Symmetric(vs: seq<VertexValue>)
  {
    forall i, j {:trigger j in vs[i].neighbors} :: 0 <= i < |vs| && j in vs[i].neighbors ==> j < |vs| && i in vs[j].neighbors
  }

  /** No neighbour list holds an index twice. */
  predicate DuplicateFree(vs: seq<VertexValue>)
  {
    forall i :: 0 <= i < |vs| ==> NoDuplicates(vs[i].neighbors)
  }

  function Positions(vs: seq<VertexValue>): (ps: seq<Vec3>)
    ensures |ps| == |vs| && forall i :: 0 <= i < |vs| ==> ps[i] == vs[i].pos
  {
    seq(|vs|, i requires 0 <= i < |vs| => vs[i].pos)
  }

  /** Every coordinate of the positions. */
  function CoordinateSet(ps: seq<Vec3>): (rs: set<real>)
    ensures forall i :: 0 <= i < |ps| ==> ps[i].x in rs && ps[i].y in rs && ps[i].z in rs
  {
    if ps == [] then {}
    else
      var rest := CoordinateSet(ps[1..]);
      assert forall i :: 1 <= i < |ps| ==> ps[i] == ps[1..][i - 1];
      {ps[0].x, ps[0].y, ps[0].z} + rest
  }

  /** The total number of neighbour entries over all vertices. */
  function NeighborEntries(vs: seq<VertexValue>): nat
  {
    if vs == [] then 0 else NeighborEntries(vs[..|vs| - 1]) + |vs[|vs| - 1].neighbors|
  }

  // ---------------------------------------------------------------------------
  // Adjacency registration: the six `add_neighbor` calls every loader makes
  // for a face.

  /** `m_vertices[v].add_neighbor(i)`. */
  function AddAt(vs: seq<VertexValue>, v: nat, i: nat): (r: seq<VertexValue>)
    requires v < |vs|
    ensures |r| == |vs|
  {
    vs[v := VertexValue(vs[v].pos, AddNeighborTo(vs[v].neighbors, i))]
  }

  /** `j` is joined to `k` by face `t`: both are corners of `t`, in different
      positions. */
  predicate Joins(t: Triple, k: nat, j: nat)
  {
    (k == t.a && (j == t.b || j == t.c)) ||
    (k == t.b && (j == t.a || j == t.c)) ||
    (k == t.c && (j == t.a || j == t.b))
  }

  /** The six `add_neighbor` calls for face `t` as (vertex, argument) pairs, in
      the source's order. */
  function Calls(t: Triple): (cs: seq<(nat, nat)>)
    ensures |cs| == 6
  {
    [(t.a, t.b), (t.a, t.c), (t.b, t.a), (t.b, t.c), (t.c, t.a), (t.c, t.b)]
  }

  predicate CallsBelow(cs: seq<(nat, nat)>, n: nat)
  {
    forall p :: 0 <= p < |cs| ==> cs[p].0 < n
  }

  /** The calls of `cs`, first to last. */
  function AddAll(vs: seq<VertexValue>, cs: seq<(nat, nat)>): (r: seq<VertexValue>)
    requires CallsBelow(cs, |vs|)
    ensures |r| == |vs|
    decreases |cs|
  {
    if cs == [] then vs else AddAll(AddAt(vs, cs[0].0, cs[0].1), cs[1..])
  }

  /** The calls move no vertex, and add to vertex `k` exactly the arguments of
      the calls on `k`. */
  lemma {:induction false} AddAllAt(vs: seq<VertexValue>, cs: seq<(nat, nat)>, k: nat, j: nat)
    requires CallsBelow(cs, |vs|) && k < |vs|
    ensures AddAll(vs, cs)[k].pos == vs[k].pos
    ensures j in AddAll(vs, cs)[k].neighbors <==> j in vs[k].neighbors || (k, j) in cs
    decreases |cs|
  {
    if cs != [] {
      var r := AddAt(vs, cs[0].0, cs[0].1);
      assert j in r[k].neighbors <==> j in vs[k].neighbors || (k, j) == cs[0];
      AddAllAt(r, cs[1..], k, j);
      assert (k, j) in cs <==> (k, j) == cs[0] || (k, j) in cs[1..];
    }
  }

  lemma {:induction false} AddAllKeepsDuplicateFree(vs: seq<VertexValue>, cs: seq<(nat, nat)>)
    requires CallsBelow(cs, |vs|) && DuplicateFree(vs)
    ensures DuplicateFree(AddAll(vs, cs))
    decreases |cs|
  {
    if cs != [] {
      var r := AddAt(vs, cs[0].0, cs[0].1);
      AddNeighborKeepsNoDuplicates(vs[cs[0].0].neighbors, cs[0].1);
      AddAllKeepsDuplicateFree(r, cs[1..]);
    }
  }

  /** Registering face `t`: its six calls. */
  function Link(vs: seq<VertexValue>, t: Triple): (r: seq<VertexValue>)
    requires t.Below(|vs|)
    ensures |r| == |vs|
  {
    AddAll(vs, Calls(t))
  }

  /** Registering a face moves no vertex, and adds to a vertex's list exactly
      the other corners of the face when the vertex is one of its corners. */
  lemma LinkAt(vs: seq<VertexValue>, t: Triple, k: nat, j: nat)
    requires t.Below(|vs|) && k < |vs|
    ensures Link(vs, t)[k].pos == vs[k].pos
    ensures j in Link(vs, t)[k].neighbors <==> j in vs[k].neighbors || Joins(t, k, j)
  {
    AddAllAt(vs, Calls(t), k, j);
    assert (k, j) in Calls(t) <==> Joins(t, k, j);
  }

  lemma LinkNeighbors(vs: seq<VertexValue>, t: Triple)
    requires t.Below(|vs|)
    ensures forall k :: 0 <= k < |vs| ==> Link(vs, t)[k].pos == vs[k].pos
    ensures forall k, j :: 0 <= k < |vs| ==> (j in Link(vs, t)[k].neighbors <==> j in vs[k].neighbors || Joins(t, k, j))
  {
    forall k | 0 <= k < |vs|
      ensures Link(vs, t)[k].pos == vs[k].pos
    {
      LinkAt(vs, t, k, 0);
    }
    forall k, j | 0 <= k < |vs|
      ensures j in Link(vs, t)[k].neighbors <==> j in vs[k].neighbors || Joins(t, k, j)
    {
      LinkAt(vs, t, k, j);
    }
  }

  /** Registering a face keeps adjacency mutual, in range and duplicate-free. */
  lemma LinkPreserves(vs: seq<VertexValue>, t: Triple)
    requires t.Below(|vs|)
    requires Symmetric(vs) && DuplicateFree(vs)
    ensures Symmetric(Link(vs, t))
    ensures DuplicateFree(Link(vs, t))
  {
    var r := Link(vs, t);
    forall i, j {:trigger j in r[i].neighbors} | 0 <= i < |r| && j in r[i].neighbors
      ensures j < |r| && i in r[j].neighbors
    {
      LinkAt(vs, t, i, j);
      if j in vs[i].neighbors {
        LinkAt(vs, t, j, i);
      } else {
        assert Joins(t, i, j);
        assert j == t.a || j == t.b || j == t.c;
        assert Joins(t, j, i);
        LinkAt(vs, t, j, i);
      }
    }
    AddAllKeepsDuplicateFree(vs, Calls(t));
  }

  /** After registering a face its three corners list one another. */
  lemma LinkJoinsCorners(vs: seq<VertexValue>, t: Triple)
    requires t.Below(|vs|)
    ensures var r := Link(vs, t);
      t.b in r[t.a].neighbors && t.c in r[t.a].neighbors &&
      t.a in r[t.b].neighbors && t.c in r[t.b].neighbors &&
      t.a in r[t.c].neighbors && t.b in r[t.c].neighbors
  {
    LinkAt(vs, t, t.a, t.b);
    LinkAt(vs, t, t.a, t.c);
    LinkAt(vs, t, t.b, t.a);
    LinkAt(vs, t, t.b, t.c);
    LinkAt(vs, t, t.c, t.a);
    LinkAt(vs, t, t.c, t.b);
  }

  /** Registering faces one after another, first to last, as every loader's
      face loop does. */
  function LinkAll(vs: seq<VertexValue>, ts: seq<Triple>): (r: seq<VertexValue>)
    requires FacesBelow(ts, |vs|)
    ensures |r| == |vs|
    decreases |ts|
  {
    if ts == [] then vs else LinkAll(Link(vs, ts[0]), ts[1..])
  }

  /** Registering the faces of `fs` from `base` on is registering `fs[base]`,
      then the rest. */
  lemma LinkAllStep(vs: seq<VertexValue>, fs: seq<Triple>, base: nat)
    requires base < |fs| && fs[base].Below(|vs|) && FacesBelow(fs[base + 1..], |vs|)
    ensures FacesBelow(fs[base..], |vs|)
    ensures LinkAll(vs, fs[base..]) == LinkAll(Link(vs, fs[base]), fs[base + 1..])
  {
    assert fs[base..][1..] == fs[base + 1..];
  }

  /** Registering faces first to last is registering all but the last, then
      the last, as a loop that registers each face as it reads it does. */
  lemma {:induction false} LinkAllSnoc(vs: seq<VertexValue>, ts: seq<Triple>, t: Triple)
    requires FacesBelow(ts, |vs|) && t.Below(|vs|)
    ensures FacesBelow(ts + [t], |vs|)
    ensures LinkAll(vs, ts + [t]) == Link(LinkAll(vs, ts), t)
    decreases |ts|
  {
    var all := ts + [t];
    assert forall i :: 0 <= i < |all| ==> all[i] == if i < |ts| then ts[i] else t;
    if ts != [] {
      assert all[1..] == ts[1..] + [t];
      LinkAllSnoc(Link(vs, ts[0]), ts[1..], t);
    }
  }

  /** Registering faces moves no vertex. */
  lemma {:induction false} LinkAllPositions(vs: seq<VertexValue>, ts: seq<Triple>)
    requires FacesBelow(ts, |vs|)
    ensures Positions(LinkAll(vs, ts)) == Positions(vs)
    decreases |ts|
  {
    if ts != [] {
      LinkNeighbors(vs, ts[0]);
      LinkAllPositions(Link(vs, ts[0]), ts[1..]);
    }
  }

  /** Registering faces keeps adjacency mutual and duplicate-free. */
  lemma {:induction false} LinkAllPreserves(vs: seq<VertexValue>, ts: seq<Triple>)
    requires FacesBelow(ts, |vs|)
    requires Symmetric(vs) && DuplicateFree(vs)
    ensures Symmetric(LinkAll(vs, ts)) && DuplicateFree(LinkAll(vs, ts))
    decreases |ts|
  {
    if ts != [] {
      LinkPreserves(vs, ts[0]);
      LinkAllPreserves(Link(vs, ts[0]), ts[1..]);
    }
  }

  /** Some face of `fs` joins `k` to `j`. */
  predicate JoinedBy(fs: seq<Triple>, k: nat, j: nat)
  {
    exists f :: 0 <= f < |fs| && Joins(fs[f], k, j)
  }

  lemma JoinedByAppend(fs: seq<Triple>, ts: seq<Triple>, k: nat, j: nat)
    ensures JoinedBy(fs + ts, k, j) <==> JoinedBy(fs, k, j) || JoinedBy(ts, k, j)
  {
    var all := fs + ts;
    if JoinedBy(all, k, j) {
      var f :| 0 <= f < |all| && Joins(all[f], k, j);
      if f < |fs| {
        assert Joins(fs[f], k, j);
      } else {
        assert Joins(ts[f - |fs|], k, j);
      }
    }
    if JoinedBy(fs, k, j) {
      var f :| 0 <= f < |fs| && Joins(fs[f], k, j);
      assert Joins(all[f], k, j);
    }
    if JoinedBy(ts, k, j) {
      var f :| 0 <= f < |ts| && Joins(ts[f], k, j);
      assert Joins(all[|fs| + f], k, j);
    }
  }

  /** Registering faces adds to a vertex's list exactly the vertices some of
      those faces join it to. */
  lemma {:induction false} LinkAllNeighbors(vs: seq<VertexValue>, ts: seq<Triple>, k: nat, j: nat)
    requires FacesBelow(ts, |vs|) && k < |vs|
    ensures j in LinkAll(vs, ts)[k].neighbors <==> j in vs[k].neighbors || JoinedBy(ts, k, j)
    decreases |ts|
  {
    if ts != [] {
      LinkAt(vs, ts[0], k, j);
      LinkAllNeighbors(Link(vs, ts[0]), ts[1..], k, j);
      assert ts == [ts[0]] + ts[1..];
      JoinedByAppend([ts[0]], ts[1..], k, j);
      assert JoinedBy([ts[0]], k, j) <==> Joins(ts[0], k, j) by {
        if Joins(ts[0], k, j) {
          assert Joins([ts[0]][0], k, j);
        }
      }
    }
  }

  /** Vertices appended with empty neighbour lists keep adjacency mutual and
      duplicate-free. */
  lemma AppendIsolated(vs: seq<VertexValue>, ws: seq<VertexValue>)
    requires Symmetric(vs) && DuplicateFree(vs)
    requires forall i :: 0 <= i < |ws| ==> ws[i].neighbors == []
    ensures Symmetric(vs + ws) && DuplicateFree(vs + ws)
  {
    var r := vs + ws;
    forall i, j | 0 <= i < |r| && j in r[i].neighbors
      ensures j < |r| && i in r[j].neighbors
    {
      assert i < |vs| && r[i] == vs[i];
    }
  }

  /** Vertices at the given positions, without neighbours. */
  function Isolated(ps: seq<Vec3>): (vs: seq<VertexValue>)
    ensures |vs| == |ps| && Positions(vs) == ps
    ensures forall i :: 0 <= i < |vs| ==> vs[i].neighbors == []
  {
    seq(|ps|, i requires 0 <= i < |ps| => VertexValue(ps[i], []))
  }

  /** One more position is one more isolated vertex. */
  lemma IsolatedSnoc(ps: seq<Vec3>, p: Vec3)
    ensures Isolated(ps + [p]) == Isolated(ps) + [VertexValue(p, [])]
  {
    assert Isolated(ps + [p])[|ps|] == VertexValue(p, []);
  }

  /** The invariant the loaders keep: adjacency is mutual and duplicate-free,
      and every face names existing vertices. */
  predicate WellFormed(m: MeshValue)
  {
    Symmetric(m.vertices) && DuplicateFree(m.vertices) && FacesBelow(m.faces, |m.vertices|)
  }

  /** The neighbour lists are exactly the adjacency of the faces. */
  ghost predicate FaceAdjacency(m: MeshValue)
  {
    forall k, j :: 0 <= k < |m.vertices| ==> (j in m.vertices[k].neighbors <==> JoinedBy(m.faces, k, j))
  }

  /** The face loop every loader ends with, for faces `ts` already read: each
      face is appended and its six calls made. A face naming a vertex past the
      end makes the source index out of range; the model stops there. */
  function AddFaces(m: MeshValue, ts: seq<Triple>): (r: (Load, MeshValue))
    ensures r.0 == Success <==> FacesBelow(ts, |m.vertices|)
    ensures r.0 != Success ==> r.0 == Undefined
  {
    if FacesBelow(ts, |m.vertices|) then (Success, MeshValue(LinkAll(m.vertices, ts), m.faces + ts))
    else (Undefined, m)
  }

  /** A completed face loop appends the faces, moves no vertex and keeps the
      mesh well formed. */
  lemma AddFacesKeepsWellFormed(m: MeshValue, ts: seq<Triple>)
    requires WellFormed(m)
    ensures var r := AddFaces(m, ts);
      r.0 == Success ==>
        WellFormed(r.1) && r.1.faces == m.faces + ts && Positions(r.1.vertices) == Positions(m.vertices)
  {
    if FacesBelow(ts, |m.vertices|) {
      LinkAllPreserves(m.vertices, ts);
      LinkAllPositions(m.vertices, ts);
      var fs := m.faces + ts;
      assert forall i :: 0 <= i < |fs| ==> fs[i] == if i < |m.faces| then m.faces[i] else ts[i - |m.faces|];
    }
  }

  /** A completed face loop keeps the neighbour lists equal to the face
      adjacency. */
  lemma AddFacesKeepsFaceAdjacency(m: MeshValue, ts: seq<Triple>)
    requires FaceAdjacency(m)
    ensures var r := AddFaces(m, ts);
      r.0 == Success ==> FaceAdjacency(r.1)
  {
    var r := AddFaces(m, ts);
    if r.0 == Success {
      forall k, j | 0 <= k < |r.1.vertices|
        ensures j in r.1.vertices[k].neighbors <==> JoinedBy(r.1.faces, k, j)
      {
        LinkAllNeighbors(m.vertices, ts, k, j);
        JoinedByAppend(m.faces, ts, k, j);
      }
    }
  }

  /** Appending vertices without neighbours keeps the mesh well formed, and
      keeps the neighbour lists equal to the face adjacency. */
  lemma AppendIsolatedKeeps(m: MeshValue, ps: seq<Vec3>)
    requires WellFormed(m)
    ensures WellFormed(MeshValue(m.vertices + Isolated(ps), m.faces))
    ensures FaceAdjacency(m) ==> FaceAdjacency(MeshValue(m.vertices + Isolated(ps), m.faces))
  {
    var vs := m.vertices + Isolated(ps);
    AppendIsolated(m.vertices, Isolated(ps));

  }

  /** The empty mesh a loader starts from. */
  const Empty: MeshValue := MeshValue([], [])

  lemma EmptyIsWellFormed()
    ensures WellFormed(Empty) && FaceAdjacency(Empty)
  {
  }

  // ---------------------------------------------------------------------------
  // Closedness.

  /** How many of the three sides of `t` have canonical key `e`. */
  function SideCount(t: Triple, e: Edge): nat
  {
    (if Canonical(t.a, t.b) == e then 1 else 0) +
    (if Canonical(t.a, t.c) == e then 1 else 0) +
    (if Canonical(t.b, t.c) == e then 1 else 0)
  }

  /** How many face sides, over all faces, have canonical key `e`. */
  function Incidence(fs: seq<Triple>, e: Edge): nat
  {
    if fs == [] then 0 else Incidence(fs[..|fs| - 1], e) + SideCount(fs[|fs| - 1], e)
  }

  /** Every edge that occurs at all occurs exactly twice. */
  ghost predicate Closed(fs: seq<Triple>)
  {
    forall e :: Incidence(fs, e) > 0 ==> Incidence(fs, e) == 2
  }

  /** Only the canonical form of a pair is ever counted. */
  lemma IncidenceOnlyCanonical(fs: seq<Triple>, e: Edge)
    requires e.v1 > e.v2
    ensures Incidence(fs, e) == 0
  {
  }

  /** A mesh without faces is closed. */
  lemma ClosedWithoutFaces()
    ensures Closed([])
  {
  }

  /** A lone triangle is never closed, whatever its indices. */
  lemma {:induction false} LoneTriangleIsOpen(t: Triple)
    ensures !Closed([t])
  {
    var e := Canonical(t.a, t.b);
    IncidenceAppend([], t, e);
    assert [] + [t] == [t];
    if Incidence([t], e) == 2 {
      var f := if Canonical(t.a, t.c) == e then Canonical(t.b, t.c) else Canonical(t.a, t.c);
      IncidenceAppend([], t, f);
      assert Incidence([t], f) == 1;
    }
  }

  /** Adding a face adds its sides to the counts. */
  lemma IncidenceAppend(fs: seq<Triple>, t: Triple, e: Edge)
    ensures Incidence(fs + [t], e) == Incidence(fs, e) + SideCount(t, e)
  {
    assert (fs + [t])[..|fs|] == fs;
  }

  /** One more face counted. */
  lemma IncidenceStep(fs: seq<Triple>, i: nat, e: Edge)
    requires i < |fs|
    ensures Incidence(fs[..i + 1], e) == Incidence(fs[..i], e) + SideCount(fs[i], e)
  {
    assert fs[..i + 1][..i] == fs[..i];
  }

  /** The four faces of a tetrahedron, wound outwards. */
  const Tetrahedron: seq<Triple> := [Triple(0, 1, 2), Triple(0, 3, 1), Triple(1, 3, 2), Triple(0, 2, 3)]

  /** A tetrahedron is closed: each of its six edges lies on two faces. */
  lemma TetrahedronIsClosed()
    ensures Closed(Tetrahedron)
  {
    var fs := Tetrahedron;
    assert fs == [] + [fs[0]] + [fs[1]] + [fs[2]] + [fs[3]];
    forall e | Incidence(fs, e) > 0
      ensures Incidence(fs, e) == 2
    {
      IncidenceAppend([], fs[0], e);
      IncidenceAppend([] + [fs[0]], fs[1], e);
      IncidenceAppend([] + [fs[0]] + [fs[1]], fs[2], e);
      IncidenceAppend([] + [fs[0]] + [fs[1]] + [fs[2]], fs[3], e);
    }
  }

  // ---------------------------------------------------------------------------
  // Inversion: every face with its winding reversed.

  /** `invert` applied to every face, in place. */
  function InvertedFaces(fs: seq<Triple>): (r: seq<Triple>)
    ensures |r| == |fs|
  {
    seq(|fs|, i requires 0 <= i < |fs| => fs[i].Inverted())
  }

  /** Inverting all faces twice gives them back. */
  lemma InvertedFacesTwice(fs: seq<Triple>)
    ensures InvertedFaces(InvertedFaces(fs)) == fs
  {
    forall i | 0 <= i < |fs|
      ensures InvertedFaces(InvertedFaces(fs))[i] == fs[i]
    {
      InvertedTwice(fs[i]);
    }
  }

  /** Reversing a face's winding keeps its sides. */
  lemma SideCountInverted(t: Triple, e: Edge)
    ensures SideCount(t.Inverted(), e) == SideCount(t, e)
  {
    CanonicalSymmetric(t.a, t.b);
    CanonicalSymmetric(t.a, t.c);
    CanonicalSymmetric(t.b, t.c);
  }

  /** Inversion changes no edge count. */
  lemma {:induction false} InvertedKeepsIncidence(fs: seq<Triple>, e: Edge)
    ensures Incidence(InvertedFaces(fs), e) == Incidence(fs, e)
    decreases |fs|
  {
    if fs != [] {
      var n := |fs| - 1;
      assert InvertedFaces(fs)[..n] == InvertedFaces(fs[..n]);
      InvertedKeepsIncidence(fs[..n], e);
      SideCountInverted(fs[n], e);
    }
  }

  /** So a mesh is closed after `invert` exactly when it was before. */
  lemma InvertedKeepsClosed(fs: seq<Triple>)
    ensures Closed(InvertedFaces(fs)) <==> Closed(fs)
  {
    forall e
      ensures Incidence(InvertedFaces(fs), e) == Incidence(fs, e)
    {
      InvertedKeepsIncidence(fs, e);
    }
  }

  /** Inverted faces join the same corners. */
  lemma JoinedByInverted(fs: seq<Triple>, k: nat, j: nat)
    ensures JoinedBy(InvertedFaces(fs), k, j) <==> JoinedBy(fs, k, j)
  {
    var inv := InvertedFaces(fs);
    if JoinedBy(inv, k, j) {
      var f :| 0 <= f < |inv| && Joins(inv[f], k, j);
      assert Joins(fs[f], k, j);
    }
    if JoinedBy(fs, k, j) {
      var f :| 0 <= f < |fs| && Joins(fs[f], k, j);
      assert Joins(inv[f], k, j);
    }
  }

  /** Inverted faces are in range exactly when the faces are. */
  lemma FacesBelowInverted(fs: seq<Triple>, n: nat)
    ensures FacesBelow(InvertedFaces(fs), n) <==> FacesBelow(fs, n)
  {
    var inv := InvertedFaces(fs);
    if FacesBelow(inv, n) {
      forall i | 0 <= i < |fs|
        ensures fs[i].Below(n)
      {
        assert inv[i].Below(n);
      }
    }
  }

  /** Inversion keeps every face in range, and joins the same corners, so the
      mesh stays well formed and its neighbour lists stay its face adjacency. */
  lemma InvertedKeepsWellFormed(m: MeshValue)
    ensures var r := MeshValue(m.vertices, InvertedFaces(m.faces));
      (WellFormed(r) <==> WellFormed(m)) && (FaceAdjacency(r) <==> FaceAdjacency(m))
  {
    forall k, j
      ensures JoinedBy(InvertedFaces(m.faces), k, j) <==> JoinedBy(m.faces, k, j)
    {
      JoinedByInverted(m.faces, k, j);
    }
    FacesBelowInverted(m.faces, |m.vertices|);
  }

  // ---------------------------------------------------------------------------
  // Subdivision, as the source writes it: the old vertices smoothed, one
  // centroid vertex per face, each face cut into four.

  /** `std::accumulate` of the neighbours' positions, first listed first. */
  function NeighborSum(vs: seq<VertexValue>, ns: seq<nat>): Vec3
    requires forall k :: 0 <= k < |ns| ==> ns[k] < |vs|
  {
    if ns == [] then Vec3(0.0, 0.0, 0.0)
    else NeighborSum(vs, ns[..|ns| - 1]).Plus(vs[ns[|ns| - 1]].pos)
  }

  /** The smoothed position of vertex `i`, weighted by `alpha = 3/16` for three
      neighbours and `3/(8n)` otherwise. An isolated vertex keeps its
      position here; the source divides by zero there. */
  function Smoothed(vs: seq<VertexValue>, i: nat): Vec3
    requires i < |vs| && NeighborsBelow(vs)
  {
    Weighted(vs[i].pos, |vs[i].neighbors|, NeighborSum(vs, vs[i].neighbors))
  }

  /** A position of `n` neighbours whose positions add up to `sum`, moved
      towards them by the weight `alpha`. */
  function Weighted(p: Vec3, n: nat, sum: Vec3): Vec3
  {
    if n == 0 then p
    else
      var alpha: real := if n == 3 then 3.0 / 16.0 else 3.0 / (8.0 * n as real);
      p.Times(1.0 - n as real * alpha).Plus(sum.Times(alpha))
  }

  /** The average of a face's three corners. */
  function Centroid(vs: seq<VertexValue>, t: Triple): Vec3
    requires t.Below(|vs|)
  {
    var p, q, r := vs[t.a].pos, vs[t.b].pos, vs[t.c].pos;
    Vec3((p.x + q.x + r.x) / 3.0, (p.y + q.y + r.y) / 3.0, (p.z + q.z + r.z) / 3.0)
  }

  /** `e` is the canonical key of one of the face's three sides. */
  predicate HasSide(t: Triple, e: Edge)
  {
    e == Canonical(t.a, t.b) || e == Canonical(t.a, t.c) || e == Canonical(t.b, t.c)
  }

  /** The map has a key for each side of the face. */
  predicate Covers<V>(mids: map<Edge, V>, t: Triple)
  {
    Canonical(t.a, t.b) in mids && Canonical(t.a, t.c) in mids && Canonical(t.b, t.c) in mids
  }

  /** `edge_to_midpoint` after the second pass: face `f` writes `base + f`
      under each of its three sides, later faces overwriting earlier ones. */
  function Midpoints(fs: seq<Triple>, base: nat): (m: map<Edge, nat>)
    ensures forall e :: e in m ==> base <= m[e] < base + |fs|
  {
    if fs == [] then map[]
    else
      var f := |fs| - 1;
      var t := fs[f];
      Midpoints(fs[..f], base)[Canonical(t.a, t.b) := base + f][Canonical(t.a, t.c) := base + f][Canonical(t.b, t.c) := base + f]
  }

  /** Every side of every face has a key. */
  lemma {:induction false} MidpointsCover(fs: seq<Triple>, base: nat)
    ensures forall i :: 0 <= i < |fs| ==> Covers(Midpoints(fs, base), fs[i])
  {
    if fs != [] {
      var f := |fs| - 1;
      MidpointsCover(fs[..f], base);
      assert forall i :: 0 <= i < f ==> fs[..f][i] == fs[i];
    }
  }

  /** Writing `v` under the three sides of `t`: a side of `t` now holds `v`,
      any other key keeps what it held. */
  lemma WriteSides(m0: map<Edge, nat>, t: Triple, v: nat, e: Edge)
    ensures var m := m0[Canonical(t.a, t.b) := v][Canonical(t.a, t.c) := v][Canonical(t.b, t.c) := v];
      (e in m <==> e in m0 || HasSide(t, e)) &&
      (HasSide(t, e) ==> m[e] == v) &&
      (!HasSide(t, e) && e in m0 ==> m[e] == m0[e])
  {
  }

  /** The last face's sides hold its index; every other key holds what the
      earlier faces wrote. */
  lemma MidpointsLast(fs: seq<Triple>, base: nat, e: Edge)
    requires fs != [] && e in Midpoints(fs, base)
    ensures var f := |fs| - 1;
      (HasSide(fs[f], e) ==> Midpoints(fs, base)[e] == base + f) &&
      (!HasSide(fs[f], e) ==> e in Midpoints(fs[..f], base) && Midpoints(fs, base)[e] == Midpoints(fs[..f], base)[e])
  {
    var f := |fs| - 1;
    var t := fs[f];
    WriteSides(Midpoints(fs[..f], base), t, base + f, e);
  }

  /** Each key holds the centroid of the LAST face having that side. */
  lemma {:induction false} MidpointIsLastFace(fs: seq<Triple>, base: nat, e: Edge)
    requires e in Midpoints(fs, base)
    ensures var j := Midpoints(fs, base)[e] - base;
      0 <= j < |fs| && HasSide(fs[j], e) &&
      forall k :: j < k < |fs| ==> !HasSide(fs[k], e)
  {
    var f := |fs| - 1;
    var pre := fs[..f];
    MidpointsLast(fs, base, e);
    if !HasSide(fs[f], e) {
      MidpointIsLastFace(pre, base, e);
      var j := Midpoints(pre, base)[e] - base;
      assert pre[j] == fs[j];
      forall k | j < k < |fs|
        ensures !HasSide(fs[k], e)
      {
        if k < f {
          assert pre[k] == fs[k];
        }
      }
    }
  }

  /** The four faces that replace face `t`: three corner triangles and the
      centre triangle. */
  function Quarter(t: Triple, mids: map<Edge, nat>): (q: seq<Triple>)
    requires Covers(mids, t)
    ensures |q| == 4
  {
    var v4 := mids[Canonical(t.a, t.b)];
    var v5 := mids[Canonical(t.a, t.c)];
    var v6 := mids[Canonical(t.b, t.c)];
    [Triple(t.a, v4, v5), Triple(t.b, v6, v4), Triple(t.c, v5, v6), Triple(v4, v6, v5)]
  }

  /** The third pass: the quarters of every face, in face order. */
  function Quarters(fs: seq<Triple>, mids: map<Edge, nat>): (r: seq<Triple>)
    requires forall i :: 0 <= i < |fs| ==> Covers(mids, fs[i])
    ensures |r| == 4 * |fs|
  {
    if fs == [] then []
    else Quarters(fs[..|fs| - 1], mids) + Quarter(fs[|fs| - 1], mids)
  }

  lemma {:induction false} QuartersAt(fs: seq<Triple>, mids: map<Edge, nat>, f: nat, k: nat)
    requires forall i :: 0 <= i < |fs| ==> Covers(mids, fs[i])
    requires f < |fs| && k < 4
    ensures Quarters(fs, mids)[4 * f + k] == Quarter(fs[f], mids)[k]
  {
    var last := |fs| - 1;
    if f < last {
      QuartersAt(fs[..last], mids, f, k);
    }
  }

  /** The first pass of `subdivide`: every old vertex smoothed, without
      neighbours. */
  function SmoothedAll(vs: seq<VertexValue>): (r: seq<VertexValue>)
    requires NeighborsBelow(vs)
    ensures |r| == |vs|
  {
    seq(|vs|, i requires 0 <= i < |vs| => VertexValue(Smoothed(vs, i), []))
  }

  /** The second pass of `subdivide`: a centroid vertex per face, without
      neighbours. */
  function Centroids(vs: seq<VertexValue>, fs: seq<Triple>): (r: seq<VertexValue>)
    requires FacesBelow(fs, |vs|)
    ensures |r| == |fs|
  {
    seq(|fs|, f requires 0 <= f < |fs| => VertexValue(Centroid(vs, fs[f]), []))
  }

  /** One more face, one more centroid. */
  lemma CentroidsSnoc(vs: seq<VertexValue>, fs: seq<Triple>, f: nat)
    requires FacesBelow(fs, |vs|) && f < |fs|
    ensures FacesBelow(fs[..f], |vs|) && FacesBelow(fs[..f + 1], |vs|)
    ensures Centroids(vs, fs[..f + 1]) == Centroids(vs, fs[..f]) + [VertexValue(Centroid(vs, fs[f]), [])]
  {
    assert forall i :: 0 <= i < f ==> fs[..f][i] == fs[i];
    assert forall i :: 0 <= i <= f ==> fs[..f + 1][i] == fs[i];
  }

  /** What `subdivide` computes from the mesh before it. */
  function Subdivided(m: MeshValue): MeshValue
    requires FacesBelow(m.faces, |m.vertices|) && NeighborsBelow(m.vertices)
  {
    MidpointsCover(m.faces, |m.vertices|);
    MeshValue(SmoothedAll(m.vertices) + Centroids(m.vertices, m.faces),
              Quarters(m.faces, Midpoints(m.faces, |m.vertices|)))
  }

  /** The corner triangles keep a face's corners; the other indices are
      centroid indices, so a bound on both bounds the quarters. */
  lemma QuarterBelow(t: Triple, mids: map<Edge, nat>, bound: nat)
    requires Covers(mids, t) && t.Below(bound)
    requires forall e :: e in mids ==> mids[e] < bound
    ensures forall k :: 0 <= k < 4 ==> Quarter(t, mids)[k].Below(bound)
  {
  }

  /** One new vertex per old vertex and per face, and four faces per face. */
  lemma SubdividedCounts(m: MeshValue)
    requires FacesBelow(m.faces, |m.vertices|) && NeighborsBelow(m.vertices)
    ensures |Subdivided(m).vertices| == |m.vertices| + |m.faces|
    ensures |Subdivided(m).faces| == 4 * |m.faces|
  {
  }

  /** Every new vertex starts without neighbours. */
  lemma SubdividedWithoutNeighbors(m: MeshValue)
    requires FacesBelow(m.faces, |m.vertices|) && NeighborsBelow(m.vertices)
    ensures forall i :: 0 <= i < |Subdivided(m).vertices| ==> Subdivided(m).vertices[i].neighbors == []
  {
  }

  /** When the old indices are in range, so are the new ones. */
  lemma {:induction false} SubdividedInRange(m: MeshValue)
    requires FacesBelow(m.faces, |m.vertices|) && NeighborsBelow(m.vertices)
    ensures FacesBelow(Subdivided(m).faces, |Subdivided(m).vertices|)
  {
    var n := |m.vertices|;
    var bound := n + |m.faces|;
    var mids := Midpoints(m.faces, n);
    MidpointsCover(m.faces, n);
    var qs := Quarters(m.faces, mids);
    SubdividedCounts(m);
    assert Subdivided(m).faces == qs;
    forall i | 0 <= i < |qs|
      ensures qs[i].Below(bound)
    {
      var f, k := i / 4, i % 4;
      assert i == 4 * f + k;
      QuartersAt(m.faces, mids, f, k);
      QuarterBelow(m.faces[f], mids, bound);
    }
  }

  /** The subdivided mesh is well formed: its faces are in range and no
      vertex has a neighbour. */
  lemma SubdividedWellFormed(m: MeshValue)
    requires FacesBelow(m.faces, |m.vertices|) && NeighborsBelow(m.vertices)
    ensures WellFormed(Subdivided(m))
  {
    SubdividedInRange(m);
    SubdividedWithoutNeighbors(m);
  }

  /** Face `f` becomes faces `4f` to `4f + 3`: the corner triangles start at
      its three corners, in order, and the centre triangle uses new vertices
      only. */
  lemma {:induction false} SubdividedFace(m: MeshValue, f: nat)
    requires FacesBelow(m.faces, |m.vertices|) && NeighborsBelow(m.vertices)
    requires f < |m.faces|
    ensures var s := Subdivided(m); var t := m.faces[f];
      4 * f + 3 < |s.faces| &&
      s.faces[4 * f].a == t.a && s.faces[4 * f + 1].a == t.b && s.faces[4 * f + 2].a == t.c &&
      s.faces[4 * f + 3].a >= |m.vertices| && s.faces[4 * f + 3].b >= |m.vertices| && s.faces[4 * f + 3].c >= |m.vertices|
  {
    var n := |m.vertices|;
    var mids := Midpoints(m.faces, n);
    MidpointsCover(m.faces, n);
    assert Subdivided(m).faces == Quarters(m.faces, mids);
    QuartersAt(m.faces, mids, f, 0);
    QuartersAt(m.faces, mids, f, 1);
    QuartersAt(m.faces, mids, f, 2);
    QuartersAt(m.faces, mids, f, 3);
  }

  /** A tetrahedron becomes 8 vertices (4 kept, 4 centroids) and 16 faces. */
  lemma TetrahedronSubdivision(vs: seq<VertexValue>)
    requires |vs| == 4 && NeighborsBelow(vs)
    ensures var s := Subdivided(MeshValue(vs, Tetrahedron));
      |s.vertices| == 8 && |s.faces| == 16
  {
    SubdividedCounts(MeshValue(vs, Tetrahedron));
  }

  // ---------------------------------------------------------------------------
  // Centering: the extremes are taken in lexicographic (x, y, z) order, as
  // `std::ranges::minmax` over tuples does, not axis by axis.

  predicate LexLess(p: Vec3, q: Vec3)
  {
    p.x < q.x || (p.x == q.x && (p.y < q.y || (p.y == q.y && p.z < q.z)))
  }

  predicate LexLe(p: Vec3, q: Vec3)
  {
    LexLess(p, q) || p == q
  }

  lemma LexTotal(p: Vec3, q: Vec3)
    ensures LexLe(p, q) || LexLe(q, p)
    ensures LexLe(p, q) && LexLe(q, p) ==> p == q
  {
  }

  /** The least tuple. */
  function LexMin(ps: seq<Vec3>): (r: Vec3)
    requires |ps| > 0
    ensures r in ps && forall q :: q in ps ==> LexLe(r, q)
  {
    if |ps| == 1 then ps[0]
    else
      var m := LexMin(ps[..|ps| - 1]);
      var p := ps[|ps| - 1];
      assert forall q :: q in ps ==> q in ps[..|ps| - 1] || q == p;
      if LexLess(p, m) then p else m
  }

  /** The greatest tuple. */
  function LexMax(ps: seq<Vec3>): (r: Vec3)
    requires |ps| > 0
    ensures r in ps && forall q :: q in ps ==> LexLe(q, r)
  {
    if |ps| == 1 then ps[0]
    else
      var m := LexMax(ps[..|ps| - 1]);
      var p := ps[|ps| - 1];
      assert forall q :: q in ps ==> q in ps[..|ps| - 1] || q == p;
      if LexLess(p, m) then m else p
  }

  /** A least tuple is the least tuple: the order is total and antisymmetric. */
  lemma LexMinUnique(ps: seq<Vec3>, p: Vec3)
    requires p in ps && forall q :: q in ps ==> LexLe(p, q)
    ensures p == LexMin(ps)
  {
    LexTotal(p, LexMin(ps));
  }

  lemma LexMaxUnique(ps: seq<Vec3>, p: Vec3)
    requires p in ps && forall q :: q in ps ==> LexLe(q, p)
    ensures p == LexMax(ps)
  {
    LexTotal(p, LexMax(ps));
  }

  /** The point halfway between the two extremes, `(max + min) * 0.5`. */
  function Middle(lo: Vec3, hi: Vec3): Vec3
  {
    Vec3((hi.x + lo.x) * 0.5, (hi.y + lo.y) * 0.5, (hi.z + lo.z) * 0.5)
  }

  /** Every position moved by minus the middle of the lexicographic extremes. */
  function Centered(ps: seq<Vec3>): (r: seq<Vec3>)
    requires |ps| > 0
    ensures |r| == |ps|
  {
    var c := Middle(LexMin(ps), LexMax(ps));
    seq(|ps|, i requires 0 <= i < |ps| => ps[i].Plus(c.Negated()))
  }

  /** Every position multiplied by `factor`. */
  function Scaled(ps: seq<Vec3>, factor: real): (r: seq<Vec3>)
    ensures |r| == |ps|
  {
    seq(|ps|, i requires 0 <= i < |ps| => ps[i].Times(factor))
  }

  /** The coordinates of positions whose coordinates all lie in `bound`. */
  lemma {:induction false} CoordinateSetWithin(ps: seq<Vec3>, bound: set<real>)
    requires forall i :: 0 <= i < |ps| ==> ps[i].x in bound && ps[i].y in bound && ps[i].z in bound
    ensures CoordinateSet(ps) <= bound
    decreases |ps|
  {
    if ps != [] {
      assert forall i :: 0 <= i < |ps| - 1 ==> ps[1..][i] == ps[i + 1];
      CoordinateSetWithin(ps[1..], bound);
    }
  }

  /** The eight corners of the cube `[lo, hi]^3`, x varying fastest. */
  function Cube(lo: real, hi: real): seq<Vec3>
  {
    seq(8, i requires 0 <= i < 8 =>
      Vec3(if i % 2 == 1 then hi else lo, if (i / 2) % 2 == 1 then hi else lo, if i / 4 == 1 then hi else lo))
  }

  /** Centering the cube spanning `[0, 2]^3` gives the corners `(+-1, +-1, +-1)`,
      vertex for vertex. */
  lemma CenterCube()
    ensures Centered(Cube(0.0, 2.0)) == Cube(-1.0, 1.0)
  {
    var ps := Cube(0.0, 2.0);
    assert ps[0] == Vec3(0.0, 0.0, 0.0) && ps[7] == Vec3(2.0, 2.0, 2.0);
    LexMinUnique(ps, ps[0]);
    LexMaxUnique(ps, ps[7]);
  }

  /** Scaling the cube spanning `[-1, 1]^3` by two doubles every coordinate. */
  lemma ScaleCube()
    ensures Scaled(Cube(-1.0, 1.0), 2.0) == Cube(-2.0, 2.0)
  {
  }
}
