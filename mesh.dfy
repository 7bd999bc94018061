/** The mesh object: its vertex and face lists, updated in place by the
    geometric operations and filled by the loaders. Every method is proved
    against the function of the old value that specifies it. */
module Meshes {
  import opened Text
  import opened Vertices
  import opened Faces
  import opened Edges
  import opened Topology
  import opened Files
  import Errors
  import Ply
  import Stl
  import Collada
  import Dispatch

  /** The count a key has in the edge map, zero when it is absent. */
  function Count(counts: map<Edge, nat>, e: Edge): nat
  {
    if e in counts then counts[e] else 0
  }

  /** `++edges[e]`: a missing key starts at zero. */
  function Bumped(counts: map<Edge, nat>, e: Edge): (r: map<Edge, nat>)
    ensures r.Keys == counts.Keys + {e}
    ensures forall k :: Count(r, k) == Count(counts, k) + (if k == e then 1 else 0)
  {
    counts[e := Count(counts, e) + 1]
  }

  /** The three increments for a face add its sides to the counts. */
  lemma BumpedSides(counts: map<Edge, nat>, t: Triple)
    ensures var r := Bumped(Bumped(Bumped(counts, Canonical(t.a, t.b)), Canonical(t.a, t.c)), Canonical(t.b, t.c));
      r.Keys == counts.Keys + {Canonical(t.a, t.b), Canonical(t.a, t.c), Canonical(t.b, t.c)} &&
      forall e :: Count(r, e) == Count(counts, e) + SideCount(t, e)
  {
  }

  /** The first of a list of calls, then the rest. */
  lemma AddAllStep(vs: seq<VertexValue>, cs: seq<(nat, nat)>)
    requires cs != [] && CallsBelow(cs, |vs|)
    ensures cs[0].0 < |vs| && CallsBelow(cs[1..], |vs|)
    ensures AddAll(vs, cs) == AddAll(AddAt(vs, cs[0].0, cs[0].1), cs[1..])
  {
    assert cs[0].0 < |vs|;
    forall p | 0 <= p < |cs[1..]|
      ensures cs[1..][p].0 < |vs|
    {
      assert cs[1..][p] == cs[p + 1];
    }
  }

  /** A face's six calls, one after another. */
  lemma LinkCalls(vs: seq<VertexValue>, t: Triple)
    requires t.Below(|vs|)
    ensures Link(vs, t) ==
      AddAt(AddAt(AddAt(AddAt(AddAt(AddAt(vs, t.a, t.b), t.a, t.c), t.b, t.a), t.b, t.c), t.c, t.a), t.c, t.b)
  {
    var c0 := Calls(t);
    assert CallsBelow(c0, |vs|);
    var v1 := AddAt(vs, t.a, t.b);
    AddAllStep(vs, c0);
    var c1 := c0[1..];
    var v2 := AddAt(v1, t.a, t.c);
    AddAllStep(v1, c1);
    var c2 := c1[1..];
    var v3 := AddAt(v2, t.b, t.a);
    AddAllStep(v2, c2);
    var c3 := c2[1..];
    var v4 := AddAt(v3, t.b, t.c);
    AddAllStep(v3, c3);
    var c4 := c3[1..];
    var v5 := AddAt(v4, t.c, t.a);
    AddAllStep(v4, c4);
    var c5 := c4[1..];
    AddAllStep(v5, c5);
    assert c5[1..] == [];
  }


  /** A face out of range among the faces read leaves the whole list out of
      range. */
  lemma OutOfRangeFace(all: seq<Triple>, k: nat, t: Triple, n: nat)
    requires k < |all| && all[..k + 1][k] == t && !t.Below(n)
    ensures !FacesBelow(all, n)
  {
    assert all[k] == t;
  }

  /** Taking one more position into account moves an extreme only when the
      new position lies beyond it. */
  lemma ExtremesStep(ps: seq<Vec3>, i: nat)
    requires 1 <= i < |ps|
    ensures LexMin(ps[..i + 1]) == if LexLess(ps[i], LexMin(ps[..i])) then ps[i] else LexMin(ps[..i])
    ensures LexMax(ps[..i + 1]) == if LexLess(ps[i], LexMax(ps[..i])) then LexMax(ps[..i]) else ps[i]
  {
    assert ps[..i + 1][..i] == ps[..i];
  }

  /** Taking one more face of `ts` appends face `k`. */
  lemma PrefixSnoc(ts: seq<Triple>, k: nat)
    requires k < |ts|
    ensures ts[..k + 1] == ts[..k] + [ts[k]]
  {
  }

  /** Triple `idx` of a list whose length is a multiple of three lies within
      it. */
  lemma TripleInRange(idx: nat, n: nat)
    requires n % 3 == 0 && idx < n / 3
    ensures idx * 3 + 2 < n
  {
  }

  class Mesh {
    /** `m_vertices`. */
    var vertices: seq<VertexValue>
    /** `m_faces`. */
    var faces: seq<Triple>

    function Value(): MeshValue
      reads this
    {
      MeshValue(vertices, faces)
    }

    /** The member initialisers: both lists empty, before a constructor body
        loads anything. */
    constructor ()
      ensures Value() == Empty
    {
      vertices := [];
      faces := [];
    }

    /** The counting loop of `is_closed`: every face's three sides counted
        in an edge map. */
    method CountSides() returns (edges: map<Edge, nat>)
      ensures forall e :: Count(edges, e) == Incidence(faces, e)
      ensures forall e :: e in edges ==> edges[e] > 0
    {
      edges := map[];
      var i := 0;
      while i < |faces|
        invariant i <= |faces|
        invariant forall e :: Count(edges, e) == Incidence(faces[..i], e)
        invariant forall e :: e in edges ==> edges[e] > 0
      {
        var t := faces[i];
        BumpedSides(edges, t);
        edges := Bumped(edges, Canonical(t.a, t.b));
        edges := Bumped(edges, Canonical(t.a, t.c));
        edges := Bumped(edges, Canonical(t.b, t.c));
        forall e
          ensures Incidence(faces[..i + 1], e) == Incidence(faces[..i], e) + SideCount(t, e)
        {
          IncidenceStep(faces, i, e);
        }
        i := i + 1;
      }
      assert faces[..i] == faces;
    }

    /** `is_closed`: count every side, then look for a count other than two. */
    method IsClosed() returns (closed: bool)
      ensures closed <==> Closed(faces)
    {
      var edges := CountSides();
      var keys := edges.Keys;
      while keys != {}
        invariant keys <= edges.Keys
        invariant forall e :: e in edges && e !in keys ==> edges[e] == 2
        decreases |keys|
      {
        var e :| e in keys;
        if edges[e] != 2 {
          assert Count(edges, e) == Incidence(faces, e);
          return false;
        }
        keys := keys - {e};
      }
      closed := true;
      forall e | Incidence(faces, e) > 0
        ensures Incidence(faces, e) == 2
      {
        assert Count(edges, e) == Incidence(faces, e);
      }
    }

    /** `std::ranges::minmax` over the positions as `(x, y, z)` tuples: the
        least and the greatest in lexicographic order. */
    method Extremes() returns (lo: Vec3, hi: Vec3)
      requires |vertices| > 0
      ensures lo == LexMin(Positions(vertices)) && hi == LexMax(Positions(vertices))
    {
      var ps := Positions(vertices);
      lo, hi := ps[0], ps[0];
      var i := 1;
      while i < |ps|
        invariant 1 <= i <= |ps|
        invariant lo == LexMin(ps[..i]) && hi == LexMax(ps[..i])
      {
        ExtremesStep(ps, i);
        if LexLess(ps[i], lo) {
          lo := ps[i];
        }
        if !LexLess(ps[i], hi) {
          hi := ps[i];
        }
        i := i + 1;
      }
      assert ps[..i] == ps;
    }

    /** `center`: every vertex moved by minus the midpoint of the extremes.
        An empty vertex list has no extremes to dereference. */
    method Center()
      requires |vertices| > 0
      modifies this
      ensures Positions(vertices) == Centered(old(Positions(vertices)))
      ensures |vertices| == |old(vertices)|
      ensures forall i :: 0 <= i < |vertices| ==> vertices[i].neighbors == old(vertices[i].neighbors)
      ensures faces == old(faces)
    {
      var lo, hi := Extremes();
      var offset := Middle(lo, hi).Negated();
      ghost var before := vertices;
      var i := 0;
      while i < |vertices|
        invariant i <= |vertices| == |before| && faces == old(faces)
        invariant forall j :: 0 <= j < i ==> vertices[j] == VertexValue(before[j].pos.Plus(offset), before[j].neighbors)
        invariant forall j :: i <= j < |vertices| ==> vertices[j] == before[j]
      {
        vertices := vertices[i := VertexValue(vertices[i].pos.Plus(offset), vertices[i].neighbors)];
        i := i + 1;
      }
    }

    /** `invert`: every face's winding reversed, in place. */
    method Invert()
      modifies this
      ensures faces == InvertedFaces(old(faces))
      ensures vertices == old(vertices)
    {
      ghost var before := faces;
      var i := 0;
      while i < |faces|
        invariant i <= |faces| == |before| && vertices == old(vertices)
        invariant forall j :: 0 <= j < i ==> faces[j] == Triple(before[j].c, before[j].b, before[j].a)
        invariant forall j :: i <= j < |faces| ==> faces[j] == before[j]
      {
        var t := faces[i];
        faces := faces[i := Triple(t.c, t.b, t.a)];
        i := i + 1;
      }
      assert faces == InvertedFaces(before) by {
        forall j | 0 <= j < |faces|
          ensures faces[j] == InvertedFaces(before)[j]
        {
        }
      }
    }

    /** `scale`: every coordinate multiplied by the factor, in place. */
    method Scale(factor: real)
      modifies this
      ensures Positions(vertices) == Scaled(old(Positions(vertices)), factor)
      ensures |vertices| == |old(vertices)|
      ensures forall i :: 0 <= i < |vertices| ==> vertices[i].neighbors == old(vertices[i].neighbors)
      ensures faces == old(faces)
    {
      ghost var before := vertices;
      var i := 0;
      while i < |vertices|
        invariant i <= |vertices| == |before| && faces == old(faces)
        invariant forall j :: 0 <= j < i ==> vertices[j] == VertexValue(before[j].pos.Times(factor), before[j].neighbors)
        invariant forall j :: i <= j < |vertices| ==> vertices[j] == before[j]
      {
        vertices := vertices[i := VertexValue(vertices[i].pos.Times(factor), vertices[i].neighbors)];
        i := i + 1;
      }
    }

    /** The smoothed position of vertex `i`: the neighbours' positions summed
        first to last, then weighted. */
    method SmoothedPosition(i: nat) returns (p: Vec3)
      requires i < |vertices| && NeighborsBelow(vertices)
      ensures p == Smoothed(vertices, i)
    {
      var v := vertices[i];
      var n := |v.neighbors|;
      var sum := Vec3(0.0, 0.0, 0.0);
      var k := 0;
      while k < n
        invariant k <= n
        invariant forall j :: 0 <= j < k ==> v.neighbors[..k][j] < |vertices|
        invariant sum == NeighborSum(vertices, v.neighbors[..k])
      {
        assert v.neighbors[..k + 1][..k] == v.neighbors[..k];
        sum := sum.Plus(vertices[v.neighbors[k]].pos);
        k := k + 1;
      }
      assert v.neighbors[..k] == v.neighbors;
      p := Weighted(v.pos, n, sum);
    }

    /** The first pass of `subdivide`: a smoothed copy of every vertex,
        without neighbours. */
    method SmoothedVertices() returns (vs: seq<VertexValue>)
      requires NeighborsBelow(vertices)
      ensures vs == SmoothedAll(vertices)
    {
      vs := [];
      var i := 0;
      while i < |vertices|
        invariant i <= |vertices| && |vs| == i
        invariant forall j :: 0 <= j < i ==> vs[j] == VertexValue(Smoothed(vertices, j), [])
      {
        var p := SmoothedPosition(i);
        vs := vs + [VertexValue(p, [])];
        i := i + 1;
      }
    }

    /** The second pass of `subdivide`: a centroid vertex per face, appended
        after the smoothed ones, its index written under the face's three
        sides. */
    method AddCentroids(smoothed: seq<VertexValue>) returns (vs: seq<VertexValue>, mids: map<Edge, nat>)
      requires FacesBelow(faces, |vertices|) && |smoothed| == |vertices|
      ensures vs == smoothed + Centroids(vertices, faces)
      ensures mids == Midpoints(faces, |vertices|)
    {
      var n := |vertices|;
      vs, mids := smoothed, map[];
      var f := 0;
      while f < |faces|
        invariant f <= |faces| && FacesBelow(faces[..f], n)
        invariant vs == smoothed + Centroids(vertices, faces[..f])
        invariant mids == Midpoints(faces[..f], n)
      {
        var t := faces[f];
        var p, q, r := vertices[t.a].pos, vertices[t.b].pos, vertices[t.c].pos;
        var v4 := |vs|;
        CentroidsSnoc(vertices, faces, f);
        vs := vs + [VertexValue(Vec3((p.x + q.x + r.x) / 3.0, (p.y + q.y + r.y) / 3.0, (p.z + q.z + r.z) / 3.0), [])];
        mids := mids[Canonical(t.a, t.b) := v4];
        mids := mids[Canonical(t.a, t.c) := v4];
        mids := mids[Canonical(t.b, t.c) := v4];
        assert faces[..f + 1][..f] == faces[..f];
        f := f + 1;
      }
      assert faces[..f] == faces;
    }

    /** The third pass of `subdivide`: each face cut into its three corner
        triangles and its centre triangle, in face order. */
    method QuarterFaces(mids: map<Edge, nat>) returns (fs: seq<Triple>)
      requires forall i :: 0 <= i < |faces| ==> Covers(mids, faces[i])
      ensures fs == Quarters(faces, mids)
    {
      fs := [];
      var f := 0;
      while f < |faces|
        invariant f <= |faces|
        invariant forall j :: 0 <= j < f ==> Covers(mids, faces[..f][j])
        invariant fs == Quarters(faces[..f], mids)
      {
        var t := faces[f];
        var v4 := mids[Canonical(t.a, t.b)];
        var v5 := mids[Canonical(t.a, t.c)];
        var v6 := mids[Canonical(t.b, t.c)];
        fs := fs + [Triple(t.a, v4, v5), Triple(t.b, v6, v4), Triple(t.c, v5, v6), Triple(v4, v6, v5)];
        assert faces[..f + 1][..f] == faces[..f];
        f := f + 1;
      }
      assert faces[..f] == faces;
    }

    /** `subdivide`: the three passes, then the new lists replace the old
        ones. */
    method Subdivide()
      requires FacesBelow(faces, |vertices|) && NeighborsBelow(vertices)
      modifies this
      ensures Value() == Subdivided(old(Value()))
      ensures WellFormed(Value())
    {
      ghost var m := Value();
      var smoothed := SmoothedVertices();
      var newVertices, mids := AddCentroids(smoothed);
      MidpointsCover(faces, |vertices|);
      var newFaces := QuarterFaces(mids);
      vertices := newVertices;
      faces := newFaces;
      SubdividedWellFormed(m);
    }

    /** `m_faces.emplace_back(v1, v2, v3)` and the six `add_neighbor` calls
        that follow it in every loader. */
    method AddFace(t: Triple)
      requires t.Below(|vertices|)
      modifies this
      ensures faces == old(faces) + [t]
      ensures vertices == Link(old(vertices), t)
    {
      LinkCalls(vertices, t);
      faces := faces + [t];
      vertices := AddAt(vertices, t.a, t.b);
      vertices := AddAt(vertices, t.a, t.c);
      vertices := AddAt(vertices, t.b, t.a);
      vertices := AddAt(vertices, t.b, t.c);
      vertices := AddAt(vertices, t.c, t.a);
      vertices := AddAt(vertices, t.c, t.b);
    }

    /** One pass of a loader's face loop: the mesh is `m` with the faces `ts`
        read so far registered, and the next face `t` is registered after
        them. */
    method AddNextFace(ghost m: MeshValue, ghost ts: seq<Triple>, t: Triple)
      requires FacesBelow(ts, |m.vertices|) && t.Below(|m.vertices|)
      requires Value() == MeshValue(LinkAll(m.vertices, ts), m.faces + ts)
      modifies this
      ensures FacesBelow(ts + [t], |m.vertices|)
      ensures Value() == MeshValue(LinkAll(m.vertices, ts + [t]), m.faces + (ts + [t]))
    {
      AddFace(t);
      LinkAllSnoc(m.vertices, ts, t);
      assert m.faces + (ts + [t]) == (m.faces + ts) + [t];
    }

    /** The header loop of `load_from_ply`: lines up to the first one that
        starts with `end_header`, reading a count from a fixed column of
        every `element vertex` and `element face` line. */
    method ReadHeader(lines: seq<string>) returns (h: Ply.Header)
      ensures h == Ply.ScanHeader(lines, 0, 0, 0)
    {
      var vertexCount, faceCount := 0, 0;
      var ended := false;
      var i := 0;
      while !ended && i < |lines|
        invariant i <= |lines|
        invariant !ended ==> Ply.ScanHeader(lines, 0, 0, 0) == Ply.ScanHeader(lines, i, vertexCount, faceCount)
        invariant ended ==> Ply.ScanHeader(lines, 0, 0, 0) == Ply.Counts(vertexCount, faceCount, i, true)
        decreases |lines| - i
      {
        var line := lines[i];
        i := i + 1;
        if StartsWith(line, "end_header") {
          ended := true;
        } else if StartsWith(line, "element vertex") {
          if |line| < Ply.VertexCountOffset {
            return Ply.PastEnd;
          }
          var count := FromChars(line, Ply.VertexCountOffset);
          if count.None? {
            return Ply.BadCount;
          }
          vertexCount := count.value;
        } else if StartsWith(line, "element face") {
          if |line| < Ply.FaceCountOffset {
            return Ply.PastEnd;
          }
          var count := FromChars(line, Ply.FaceCountOffset);
          if count.None? {
            return Ply.BadCount;
          }
          faceCount := count.value;
        }
      }
      return Ply.Counts(vertexCount, faceCount, i, ended);
    }

    /** The vertex loop of `load_from_ply`: `count` positions of three float
        extractions each, appended without neighbours. */
    method AppendVertices(stream: Stream, count: nat, text: FloatText) returns (rest: Stream)
      modifies this
      ensures vertices == old(vertices) + Isolated(Ply.ReadPoints(stream, count, text).0)
      ensures faces == old(faces)
      ensures rest == Ply.ReadPoints(stream, count, text).1
    {
      ghost var ps: seq<Vec3> := [];
      assert Ply.ReadPoints(stream, count, text).0 == ps + Ply.ReadPoints(stream, count, text).0;
      rest := stream;
      var k := 0;
      while k < count
        invariant k <= count && |ps| == k
        invariant vertices == old(vertices) + Isolated(ps) && faces == old(faces)
        invariant Ply.ReadPoints(stream, count, text) ==
          (ps + Ply.ReadPoints(rest, count - k, text).0, Ply.ReadPoints(rest, count - k, text).1)
      {
        Ply.ReadPointsShift(ps, rest, count - k, text);
        var rx := rest.ReadFloat(text);
        var ry := rx.1.ReadFloat(text);
        var rz := ry.1.ReadFloat(text);
        rest := rz.1;
        var p := Vec3(rx.0, ry.0, rz.0);
        IsolatedSnoc(ps, p);
        vertices := vertices + [VertexValue(p, [])];
        assert vertices == old(vertices) + Isolated(ps + [p]);
        ps := ps + [p];
        k := k + 1;
      }
    }

    /** One pass of the face loop's extractions: the corner count, thrown
        away, then three indices. */
    method ReadFace(st: Stream) returns (t: Triple, rest: Stream)
      ensures (t, rest) == Ply.ReadTriple(st)
    {
      var r0 := st.ReadIndex();
      var r1 := r0.1.ReadIndex();
      var r2 := r1.1.ReadIndex();
      var r3 := r2.1.ReadIndex();
      t, rest := Triple(r1.0, r2.0, r3.0), r3.1;
    }

    /** The face loop of `load_from_ply`: `count` face lines, each added as it
        is read. A face naming a missing vertex is undefined behaviour; the
        method stops. */
    method AppendFaces(stream: Stream, count: nat) returns (o: Load)
      modifies this
      ensures o == AddFaces(old(Value()), Ply.ReadTriples(stream, count).0).0
      ensures o != Undefined ==> Value() == AddFaces(old(Value()), Ply.ReadTriples(stream, count).0).1
    {
      ghost var m := Value();
      var rest := stream;
      var k := 0;
      while k < count
        invariant k <= count && rest == Ply.ReadTriples(stream, k).1
        invariant FacesBelow(Ply.ReadTriples(stream, k).0, |m.vertices|)
        invariant Value() == MeshValue(LinkAll(m.vertices, Ply.ReadTriples(stream, k).0), m.faces + Ply.ReadTriples(stream, k).0)
      {
        ghost var ts := Ply.ReadTriples(stream, k).0;
        Ply.ReadTriplesSnoc(stream, k);
        var t;
        t, rest := ReadFace(rest);
        if !t.Below(|vertices|) {
          Ply.ReadTriplesPrefix(stream, k + 1, count);
          OutOfRangeFace(Ply.ReadTriples(stream, count).0, k, t, |m.vertices|);
          return Undefined;
        }
        AddNextFace(m, ts, t);
        k := k + 1;
      }
      return Success;
    }

    /** `load_from_ply`: open, the header loop, then the vertex loop and the
        face loop over the tokens of the lines after the header. */
    method LoadFromPly(input: Input, text: FloatText) returns (o: Load)
      modifies this
      ensures o == Ply.Parse(old(Value()), input, text).0
      ensures o != Undefined ==> Value() == Ply.Parse(old(Value()), input, text).1
    {
      if input.Unreadable? {
        return Finished(Errors.ParseError(OpenFailure(input.present)));
      }
      var h := ReadHeader(input.lines);
      match h {
        case PastEnd =>
          return Undefined;
        case BadCount =>
          return Finished(Errors.ParseError(Errors.InvalidData));
        case Counts(vertexCount, faceCount, body, ended) =>
          var stream := Stream(LineTokens(input.lines[body..]), !ended);
          stream := AppendVertices(stream, vertexCount, text);
          o := AppendFaces(stream, faceCount);
      }
    }

    /** `load_from_stl`: the line loop with the position-to-index map and the
        indices gathered for the current facet. */
    method LoadFromStl(input: Input, text: FloatText) returns (o: Load)
      modifies this
      ensures o == Stl.Parse(old(Value()), input, text).0
      ensures o != Undefined ==> Value() == Stl.Parse(old(Value()), input, text).1
    {
      if input.Unreadable? {
        return Finished(Errors.ParseError(OpenFailure(input.present)));
      }
      var lines := input.lines;
      var vertexIndices: map<Vec3, nat> := map[];
      var pending: seq<nat> := [];
      ghost var base := |vertices|;
      ghost var s0 := Stl.Scanner(Value(), vertexIndices, pending);
      var i := 0;
      while i < |lines|
        invariant i <= |lines|
        invariant Stl.Indexed(Stl.Scanner(Value(), vertexIndices, pending), base)
        invariant Stl.ScanLines(s0, lines, text) == Stl.ScanLines(Stl.Scanner(Value(), vertexIndices, pending), lines[i..], text)
      {
        ghost var s := Stl.Scanner(Value(), vertexIndices, pending);
        var line := lines[i];
        assert lines[i..][0] == line && lines[i..][1..] == lines[i + 1..];
        Stl.ScanLineKeeps(s, base, line, text);
        if StartsWith(line, "vertex") {
          var (r, p) := Stl.VertexPosition(line, text);
          if r != Success {
            return r;
          }
          if p !in vertexIndices {
            assert Isolated([p]) == [VertexValue(p, [])];
            vertexIndices := vertexIndices[p := |vertices|];
            vertices := vertices + [VertexValue(p, [])];
          }
          pending := pending + [vertexIndices[p]];
        } else if StartsWith(line, "endfacet") {
          if |pending| == 3 {
            var t := Triple(pending[0], pending[1], pending[2]);
            assert FacesBelow([t], |vertices|);
            assert LinkAll(vertices, [t]) == LinkAll(Link(vertices, t), []);
            AddFace(t);
            pending := [];
          }
        }
        assert Stl.ScanLine(s, line, text) == (Success, Stl.Scanner(Value(), vertexIndices, pending));
        i := i + 1;
      }
      assert lines[i..] == [];
      return Success;
    }

    /** A `float_array` list: a vertex per consecutive triple of values. */
    method AppendPositions(data: seq<real>)
      requires |data| % 3 == 0
      modifies this
      ensures Value() == MeshValue(old(vertices) + Isolated(Collada.Points(data)), old(faces))
    {
      ghost var m := Value();
      var idx := 0;
      while idx < |data| / 3
        invariant idx <= |data| / 3
        invariant faces == m.faces && |vertices| == |m.vertices| + idx && vertices[..|m.vertices|] == m.vertices
        invariant forall j :: 0 <= j < idx ==> vertices[|m.vertices| + j] == VertexValue(Collada.Points(data)[j], [])
      {
        TripleInRange(idx, |data|);
        Collada.PointsAt(data, idx);
        vertices := vertices + [VertexValue(Vec3(data[idx * 3], data[idx * 3 + 1], data[idx * 3 + 2]), [])];
        idx := idx + 1;
      }
      assert vertices == m.vertices + Isolated(Collada.Points(data));
    }

    /** A `p` list: a face per consecutive triple of indices, taken as they
        are. A face naming a missing vertex is undefined behaviour; the method
        stops. */
    method AppendTriangles(data: seq<nat>) returns (o: Load)
      requires |data| % 3 == 0
      modifies this
      ensures o == AddFaces(old(Value()), Collada.TriplesOf(data)).0
      ensures o != Undefined ==> Value() == AddFaces(old(Value()), Collada.TriplesOf(data)).1
    {
      ghost var m := Value();
      ghost var ts := Collada.TriplesOf(data);
      var idx := 0;
      while idx < |data| / 3
        invariant idx <= |data| / 3 == |ts|
        invariant FacesBelow(ts[..idx], |m.vertices|)
        invariant Value() == MeshValue(LinkAll(m.vertices, ts[..idx]), m.faces + ts[..idx])
      {
        TripleInRange(idx, |data|);
        Collada.TriplesAt(data, idx);
        var t := Triple(data[idx * 3], data[idx * 3 + 1], data[idx * 3 + 2]);
        if !t.Below(|vertices|) {
          assert !FacesBelow(ts, |m.vertices|) by {
            assert ts[idx] == t;
          }
          return Undefined;
        }
        AddNextFace(m, ts[..idx], t);
        PrefixSnoc(ts, idx);
        idx := idx + 1;
      }
      assert ts[..idx] == ts;
      return Success;
    }

    /** One `float_array` or `p` list: the values, the multiple-of-three
        check, then the vertices or the faces. */
    method LoadChunk(c: Collada.Chunk, text: FloatText) returns (o: Load)
      modifies this
      ensures o == Collada.ReadChunk(old(Value()), c, text).0
      ensures o != Undefined ==> Value() == Collada.ReadChunk(old(Value()), c, text).1
    {
      match c {
        case FloatArray(values) =>
          var data := Collada.FloatValues(Stream(Words(values), false), text);
          if |data| % 3 != 0 {
            return Collada.InvalidData;
          }
          AppendPositions(data);
          return Success;
        case TriangleList(indices) =>
          var data := Collada.IndexValues(Stream(Words(indices), false));
          if |data| % 3 != 0 {
            return Collada.InvalidData;
          }
          o := AppendTriangles(data);
      }
    }

    /** `load_from_collada` once the document is parsed: the `float_array`
        and `p` lists of every mesh of every geometry, in document order. */
    method LoadFromCollada(xml: Collada.Xml, text: FloatText) returns (o: Load)
      modifies this
      ensures o == Collada.Parse(old(Value()), xml, text).0
      ensures o != Undefined ==> Value() == Collada.Parse(old(Value()), xml, text).1
    {
      if xml.Unloadable? {
        return Collada.InvalidData;
      }
      var chunks := Collada.DocumentChunks(xml.children);
      var i := 0;
      while i < |chunks|
        invariant i <= |chunks|
        invariant Collada.ReadChunks(old(Value()), chunks, text) == Collada.ReadChunks(Value(), chunks[i..], text)
      {
        ghost var m := Value();
        assert chunks[i..][0] == chunks[i] && chunks[i..][1..] == chunks[i + 1..];
        o := LoadChunk(chunks[i], text);
        if o != Success {
          assert Collada.ReadChunks(m, chunks[i..], text) == Collada.ReadChunk(m, chunks[i], text);
          return;
        }
        i := i + 1;
      }
      assert chunks[i..] == [];
      return Success;
    }

    /** `read`: the loader the extension selects, or `unsupported_format`. */
    method Read(path: string, disk: Dispatch.Disk, text: FloatText) returns (o: Load)
      modifies this
      ensures o == Dispatch.Read(old(Value()), path, disk, text).0
      ensures o != Undefined ==> Value() == Dispatch.Read(old(Value()), path, disk, text).1
    {
      match Dispatch.FormatOf(path)
      case None =>
        o := Dispatch.Unsupported;
      case Some(PlyFile) =>
        o := LoadFromPly(disk.input, text);
      case Some(StlFile) =>
        o := LoadFromStl(disk.input, text);
      case Some(ColladaFile) =>
        o := LoadFromCollada(disk.xml, text);
    }
  }

  /** `mesh(filepath)`: empty lists, then the loader the extension selects
      (none for an unknown one); a failed load throws with the error's
      message. */
  method LoadMesh(path: string, disk: Dispatch.Disk, text: FloatText) returns (mesh: Mesh, outcome: Dispatch.Construction)
    ensures fresh(mesh)
    ensures outcome == Dispatch.Construct(path, disk, text)
    ensures outcome.Built? ==> mesh.Value() == outcome.mesh
  {
    mesh := new Mesh();
    var error := Success;
    match Dispatch.FormatOf(path) {
      case None =>
      case Some(PlyFile) =>
        error := mesh.LoadFromPly(disk.input, text);
      case Some(StlFile) =>
        error := mesh.LoadFromStl(disk.input, text);
      case Some(ColladaFile) =>
        error := mesh.LoadFromCollada(disk.xml, text);
    }
    match error
    case Undefined =>
      outcome := Dispatch.Unpredictable;
    case Finished(e) =>
      if e.IsError() {
        outcome := Dispatch.Threw(Dispatch.FailurePrefix + e.Message());
      } else {
        outcome := Dispatch.Built(mesh.Value());
      }
  }
}
