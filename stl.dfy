/** The ASCII STL codec. The reader scans lines: each `vertex` line gives a
    position, equal positions share one vertex index, and an `endfacet` line
    turns the three indices gathered since the last face into a face. */
module Stl {
  import opened Text
  import opened Vertices
  import opened Faces
  import opened Topology
  import opened Files
  import Errors

  /** Where the first coordinate starts in a `vertex` line. */
  const CoordinateOffset: nat := 7

  const Origin: Vec3 := Vec3(0.0, 0.0, 0.0)

  /** `std::from_chars` of a float from position `start` to the end of the
      line: the value and the position just after what it consumed. */
  function ScanAt(text: FloatText, line: string, start: nat): (r: Option<(real, nat)>)
    requires start <= |line|
    ensures r.Some? ==> start <= r.value.1 <= |line|
  {
    match text.scan(line[start..])
    case None => None
    case Some(p) => if p.1 <= |line| - start then Some((p.0, start + p.1)) else None
  }

  /** The three coordinates of a `vertex` line: read from column 7, each next
      one from one character past where the previous one stopped. A start
      past the end of the line is undefined behaviour in the source; a
      coordinate that does not scan is invalid data. */
  function VertexPosition(line: string, text: FloatText): (r: (Load, Vec3))
    ensures r.0 != Success ==> r.1 == Origin
    ensures r.0 == Undefined || r.0 == Success || r.0 == Finished(Errors.ParseError(Errors.InvalidData))
    ensures |line| < CoordinateOffset ==> r.0 == Undefined
  {
    if |line| < CoordinateOffset then (Undefined, Origin)
    else match ScanAt(text, line, CoordinateOffset)
      case None => (Finished(Errors.ParseError(Errors.InvalidData)), Origin)
      case Some(px) =>
        if px.1 + 1 > |line| then (Undefined, Origin)
        else match ScanAt(text, line, px.1 + 1)
          case None => (Finished(Errors.ParseError(Errors.InvalidData)), Origin)
          case Some(py) =>
            if py.1 + 1 > |line| then (Undefined, Origin)
            else match ScanAt(text, line, py.1 + 1)
              case None => (Finished(Errors.ParseError(Errors.InvalidData)), Origin)
              case Some(pz) => (Success, Vec3(px.0, py.0, pz.0))
  }

  /** The loader's state: the mesh being filled, `vertex_indices` (the index
      given to each position seen), and `face_vertex_indices` (the indices
      gathered for the current facet). */
  datatype Scanner = Scanner(mesh: MeshValue, index: map<Vec3, nat>, pending: seq<nat>)

  /** The invariant of the scan: every position in the map names a vertex
      appended by this load (from `base` on) that sits at that position;
      every such vertex is in the map under its own position; and every
      gathered index names a vertex. */
  ghost predicate Indexed(s: Scanner, base: nat)
  {
    var vs := s.mesh.vertices;
    base <= |vs| &&
    (forall p :: p in s.index ==> base <= s.index[p] < |vs| && vs[s.index[p]].pos == p) &&
    (forall i :: base <= i < |vs| ==> vs[i].pos in s.index && s.index[vs[i].pos] == i) &&
    (forall k :: 0 <= k < |s.pending| ==> s.pending[k] < |vs|)
  }

  /** `ws` keeps the vertices of `vs`, each at its position. */
  predicate Extends(vs: seq<VertexValue>, ws: seq<VertexValue>)
  {
    |vs| <= |ws| && forall i :: 0 <= i < |vs| ==> ws[i].pos == vs[i].pos
  }

  /** The vertices appended by the load sit at pairwise different positions. */
  lemma IndexedDistinct(s: Scanner, base: nat)
    requires Indexed(s, base)
    ensures forall i, j :: base <= i < j < |s.mesh.vertices| ==> s.mesh.vertices[i].pos != s.mesh.vertices[j].pos
  {
  }

  /** A parsed `vertex` line: a position already seen gathers the index it was
      given; a new one is appended as a vertex without neighbours and gathers
      the next index. */
  function AddCorner(s: Scanner, p: Vec3): (r: Scanner)
    ensures r.index.Keys == s.index.Keys + {p}
    ensures |r.pending| == |s.pending| + 1 && r.pending[..|s.pending|] == s.pending
    ensures r.mesh.faces == s.mesh.faces
    ensures p in s.index ==> r.mesh == s.mesh && r.pending[|s.pending|] == s.index[p]
    ensures p !in s.index ==> r.mesh.vertices == s.mesh.vertices + Isolated([p]) && r.pending[|s.pending|] == |s.mesh.vertices|
  {
    if p in s.index then s.(pending := s.pending + [s.index[p]])
    else
      var i := |s.mesh.vertices|;
      Scanner(MeshValue(s.mesh.vertices + Isolated([p]), s.mesh.faces), s.index[p := i], s.pending + [i])
  }

  /** Adding a corner keeps the invariant and a well-formed mesh, and the
      gathered index names a vertex at exactly that position. */
  lemma AddCornerKeeps(s: Scanner, base: nat, p: Vec3)
    requires Indexed(s, base)
    ensures var r := AddCorner(s, p);
      Indexed(r, base) && r.mesh.vertices[r.pending[|s.pending|]].pos == p &&
      Positions(r.mesh.vertices)[..|s.mesh.vertices|] == Positions(s.mesh.vertices) &&
      (WellFormed(s.mesh) ==> WellFormed(r.mesh))
  {
    if p !in s.index {
      if WellFormed(s.mesh) {
        AppendIsolatedKeeps(s.mesh, [p]);
      }
      var r := AddCorner(s, p);
      var vs := r.mesh.vertices;
      assert vs[|s.mesh.vertices|].pos == p;
      forall i | base <= i < |vs|
        ensures vs[i].pos in r.index && r.index[vs[i].pos] == i
      {
        if i < |s.mesh.vertices| {
          assert vs[i] == s.mesh.vertices[i];
        }
      }
      assert Positions(vs)[..|s.mesh.vertices|] == Positions(s.mesh.vertices);
    }
  }

  /** An `endfacet` line: with exactly three indices gathered they become a
      face, registered like every loader registers a face, and the gathered
      list is cleared; otherwise nothing happens. */
  function EndFacet(s: Scanner): (r: (Load, Scanner))
    ensures |s.pending| != 3 ==> r == (Success, s)
    ensures r.1.index == s.index
  {
    if |s.pending| == 3 then
      var (o, m) := AddFaces(s.mesh, [Triple(s.pending[0], s.pending[1], s.pending[2])]);
      (o, Scanner(m, s.index, []))
    else (Success, s)
  }

  /** With the invariant, an `endfacet` line never names a missing vertex:
      it completes, appends exactly the gathered face when there are three
      indices, and moves no vertex. */
  lemma EndFacetKeeps(s: Scanner, base: nat)
    requires Indexed(s, base)
    ensures var r := EndFacet(s);
      r.0 == Success && Indexed(r.1, base) &&
      Positions(r.1.mesh.vertices) == Positions(s.mesh.vertices) &&
      (WellFormed(s.mesh) ==> WellFormed(r.1.mesh)) &&
      (|s.pending| == 3 ==>
        r.1.pending == [] && r.1.mesh.faces == s.mesh.faces + [Triple(s.pending[0], s.pending[1], s.pending[2])]) &&
      (|s.pending| != 3 ==> r.1 == s)
  {
    if |s.pending| == 3 {
      var t := Triple(s.pending[0], s.pending[1], s.pending[2]);
      assert FacesBelow([t], |s.mesh.vertices|);
      LinkAllPositions(s.mesh.vertices, [t]);
      if WellFormed(s.mesh) {
        AddFacesKeepsWellFormed(s.mesh, [t]);
      }
      var r := EndFacet(s);
      assert r.1.mesh.vertices == LinkAll(s.mesh.vertices, [t]);
      forall i | 0 <= i < |r.1.mesh.vertices|
        ensures r.1.mesh.vertices[i].pos == s.mesh.vertices[i].pos
      {
        assert Positions(r.1.mesh.vertices)[i] == Positions(s.mesh.vertices)[i];
      }
    }
  }

  /** One pass of the line loop. */
  function ScanLine(s: Scanner, line: string, text: FloatText): (r: (Load, Scanner))
  {
    if StartsWith(line, "vertex") then
      var (o, p) := VertexPosition(line, text);
      if o == Success then (Success, AddCorner(s, p)) else (o, s)
    else if StartsWith(line, "endfacet") then EndFacet(s)
    else (Success, s)
  }

  /** The line loop: it stops at the first line that ends the load. */
  function ScanLines(s: Scanner, lines: seq<string>, text: FloatText): (r: (Load, Scanner))
    decreases |lines|
  {
    if lines == [] then (Success, s)
    else
      var (o, s') := ScanLine(s, lines[0], text);
      if o != Success then (o, s') else ScanLines(s', lines[1..], text)
  }

  /** One line keeps the invariant, moves no vertex, never drops a face, and
      is undefined only on a `vertex` line whose coordinates run past its end. */
  lemma ScanLineKeeps(s: Scanner, base: nat, line: string, text: FloatText)
    requires Indexed(s, base)
    ensures var r := ScanLine(s, line, text);
      Indexed(r.1, base) && (WellFormed(s.mesh) ==> WellFormed(r.1.mesh)) &&
      |s.mesh.vertices| <= |r.1.mesh.vertices| &&
      Positions(r.1.mesh.vertices)[..|s.mesh.vertices|] == Positions(s.mesh.vertices) &&
      r.1.mesh.faces[..|s.mesh.faces|] == s.mesh.faces &&
      (r.0 == Undefined ==> StartsWith(line, "vertex")) &&
      (r.0.Finished? ==> r.0.error.code in {Errors.None, Errors.InvalidData})
  {
    var r := ScanLine(s, line, text);
    if StartsWith(line, "vertex") {
      var (o, p) := VertexPosition(line, text);
      if o == Success {
        AddCornerKeeps(s, base, p);
      }
    } else if StartsWith(line, "endfacet") {
      EndFacetKeeps(s, base);
      assert Positions(r.1.mesh.vertices)[..|s.mesh.vertices|] == Positions(s.mesh.vertices);
    }
  }

  /** One line keeps the neighbour lists equal to the face adjacency. */
  lemma ScanLineKeepsAdjacency(s: Scanner, line: string, text: FloatText)
    requires WellFormed(s.mesh) && FaceAdjacency(s.mesh)
    ensures FaceAdjacency(ScanLine(s, line, text).1.mesh)
  {
    if StartsWith(line, "vertex") {
      var (o, p) := VertexPosition(line, text);
      if o == Success && p !in s.index {
        AppendIsolatedKeeps(s.mesh, [p]);
      }
    } else if StartsWith(line, "endfacet") && |s.pending| == 3 {
      AddFacesKeepsFaceAdjacency(s.mesh, [Triple(s.pending[0], s.pending[1], s.pending[2])]);
    }
  }

  /** The whole loop keeps the invariant, whatever line stops it. */
  lemma {:induction false} ScanLinesKeeps(s: Scanner, base: nat, lines: seq<string>, text: FloatText)
    requires Indexed(s, base)
    ensures var r := ScanLines(s, lines, text);
      Indexed(r.1, base) && (WellFormed(s.mesh) ==> WellFormed(r.1.mesh)) &&
      |s.mesh.vertices| <= |r.1.mesh.vertices| && |s.mesh.faces| <= |r.1.mesh.faces| &&
      Positions(r.1.mesh.vertices)[..|s.mesh.vertices|] == Positions(s.mesh.vertices) &&
      r.1.mesh.faces[..|s.mesh.faces|] == s.mesh.faces &&
      (WellFormed(s.mesh) && FaceAdjacency(s.mesh) ==> FaceAdjacency(r.1.mesh)) &&
      (r.0.Finished? ==> r.0.error.code in {Errors.None, Errors.InvalidData})
    decreases |lines|
  {
    if lines != [] {
      var (o, s') := ScanLine(s, lines[0], text);
      ScanLineKeeps(s, base, lines[0], text);
      if WellFormed(s.mesh) && FaceAdjacency(s.mesh) {
        ScanLineKeepsAdjacency(s, lines[0], text);
      }
      if o == Success {
        ScanLinesKeeps(s', base, lines[1..], text);
        var r := ScanLines(s', lines[1..], text);
        assert Positions(r.1.mesh.vertices)[..|s.mesh.vertices|] == Positions(s'.mesh.vertices)[..|s.mesh.vertices|];
        assert r.1.mesh.faces[..|s.mesh.faces|] == s'.mesh.faces[..|s.mesh.faces|];
      }
    }
  }

  /** `load_from_stl`: open, then run the line loop with an empty map and no
      gathered indices. A failed load keeps what it appended before the
      failing line. */
  function Parse(m: MeshValue, input: Input, text: FloatText): (r: (Load, MeshValue))
    ensures input.Unreadable? ==> r == (Finished(Errors.ParseError(OpenFailure(input.present))), m)
  {
    match input
    case Unreadable(present) => (Finished(Errors.ParseError(OpenFailure(present))), m)
    case Readable(lines) =>
      var (o, s) := ScanLines(Scanner(m, map[], []), lines, text);
      (o, s.mesh)
  }

  /** Loading into a well-formed mesh keeps it well formed, and keeps the
      neighbour lists equal to the face adjacency, even when the load stops
      early; it keeps the vertices and faces already there, the vertices it
      appends sit at pairwise different positions, and the error codes are
      the ones the loader returns. */
  lemma ParseKeepsWellFormed(m: MeshValue, input: Input, text: FloatText)
    requires WellFormed(m)
    ensures var r := Parse(m, input, text);
      WellFormed(r.1) && (FaceAdjacency(m) ==> FaceAdjacency(r.1)) &&
      |m.vertices| <= |r.1.vertices| && Positions(r.1.vertices)[..|m.vertices|] == Positions(m.vertices) &&
      |m.faces| <= |r.1.faces| && r.1.faces[..|m.faces|] == m.faces &&
      (forall i, j :: |m.vertices| <= i < j < |r.1.vertices| ==> r.1.vertices[i].pos != r.1.vertices[j].pos) &&
      (r.0.Finished? ==> r.0.error.code in {Errors.None, Errors.FileNotFound, Errors.UnknownIoError, Errors.InvalidData})
  {
    if input.Readable? {
      var s := Scanner(m, map[], []);
      assert Indexed(s, |m.vertices|);
      ScanLinesKeeps(s, |m.vertices|, input.lines, text);
      IndexedDistinct(ScanLines(s, input.lines, text).1, |m.vertices|);
    } else {
      assert Positions(m.vertices)[..|m.vertices|] == Positions(m.vertices);
      assert m.faces[..|m.faces|] == m.faces;
    }
  }

  // ---------------------------------------------------------------------------
  // The writer.

  function Dot(u: Vec3, v: Vec3): real
  {
    u.x * v.x + u.y * v.y + u.z * v.z
  }

  /** The facet normal `save_to_stl` writes: the cross product of the edges
      from the first corner to the second and to the third. */
  function Normal(v1: Vec3, v2: Vec3, v3: Vec3): Vec3
  {
    var e1 := v2.Minus(v1);
    var e2 := v3.Minus(v1);
    Vec3(e1.y * e2.z - e1.z * e2.y, e1.z * e2.x - e1.x * e2.z, e1.x * e2.y - e1.y * e2.x)
  }

  /** The normal is perpendicular to both edges, and reversing the winding
      reverses it. */
  lemma NormalPerpendicular(v1: Vec3, v2: Vec3, v3: Vec3)
    ensures Dot(Normal(v1, v2, v3), v2.Minus(v1)) == 0.0 && Dot(Normal(v1, v2, v3), v3.Minus(v1)) == 0.0
    ensures Normal(v3, v2, v1) == Normal(v1, v2, v3).Negated()
  {
  }

  /** `"{} {} {}"` of three coordinates. */
  function Coordinates(p: Vec3, text: FloatText): string
  {
    text.show(p.x) + " " + text.show(p.y) + " " + text.show(p.z)
  }

  function VertexLine(p: Vec3, text: FloatText): string
  {
    "vertex " + Coordinates(p, text)
  }

  /** The seven lines of one facet with normal `n` and corners `v1`, `v2`, `v3`. */
  function FacetLines(n: Vec3, v1: Vec3, v2: Vec3, v3: Vec3, text: FloatText): (ls: seq<string>)
    ensures |ls| == 7
  {
    ["facet normal " + Coordinates(n, text), "outer loop",
     VertexLine(v1, text), VertexLine(v2, text), VertexLine(v3, text), "endloop", "endfacet"]
  }

  /** The facet written for face `t`. */
  function Facet(vs: seq<VertexValue>, t: Triple, text: FloatText): (ls: seq<string>)
    requires t.Below(|vs|)
    ensures |ls| == 7
  {
    var (v1, v2, v3) := (vs[t.a].pos, vs[t.b].pos, vs[t.c].pos);
    FacetLines(Normal(v1, v2, v3), v1, v2, v3, text)
  }

  function Facets(vs: seq<VertexValue>, fs: seq<Triple>, text: FloatText): (ls: seq<string>)
    requires FacesBelow(fs, |vs|)
    ensures |ls| == 7 * |fs|
  {
    if fs == [] then [] else Facet(vs, fs[0], text) + Facets(vs, fs[1..], text)
  }

  /** The lines `save_to_stl` writes: the solid named after the file's stem,
      one facet per face in face order, and the closing line. */
  function Render(m: MeshValue, stem: string, text: FloatText): (lines: seq<string>)
    requires FacesBelow(m.faces, |m.vertices|)
    ensures |lines| == 7 * |m.faces| + 2
    ensures lines[0] == "solid " + stem && lines[|lines| - 1] == "endsolid " + stem
  {
    ["solid " + stem] + Facets(m.vertices, m.faces, text) + ["endsolid " + stem]
  }

  /** `save_to_stl`: the code it returns, and the lines it writes (none when
      the save stops before writing). */
  function Save(m: MeshValue, stem: string, canOverwrite: bool, target: Target, text: FloatText): (r: (Errors.WriteError, seq<string>))
    requires FacesBelow(m.faces, |m.vertices|)
    ensures r.0.code == Errors.None <==> SavePreflight(canOverwrite, target).None?
    ensures r.0.code != Errors.None ==> r.1 == [] && r.0.code == SavePreflight(canOverwrite, target).value
    ensures r.0.code == Errors.None ==> r.1 == Render(m, stem, text) && |r.1| == 7 * |m.faces| + 2
  {
    match SavePreflight(canOverwrite, target)
    case Some(code) => (Errors.WriteError(code), [])
    case None => (Errors.WriteError(Errors.None), Render(m, stem, text))
  }

  // ---------------------------------------------------------------------------
  // Reading back what was written.

  /** Face `u` of `ws` has its corners at `p1`, `p2`, `p3`. */
  predicate Lands(ws: seq<VertexValue>, u: Triple, p1: Vec3, p2: Vec3, p3: Vec3)
  {
    u.Below(|ws|) && ws[u.a].pos == p1 && ws[u.b].pos == p2 && ws[u.c].pos == p3
  }

  /** Face `u` of `ws` has its corners where face `t` of `vs` has them. */
  predicate SameCorners(ws: seq<VertexValue>, u: Triple, vs: seq<VertexValue>, t: Triple)
  {
    t.Below(|vs|) && Lands(ws, u, vs[t.a].pos, vs[t.b].pos, vs[t.c].pos)
  }

  /** The gathered indices name vertices at the positions `qs`. */
  predicate Gathered(s: Scanner, qs: seq<Vec3>)
  {
    |s.pending| == |qs| &&
    forall k :: 0 <= k < |qs| ==> s.pending[k] < |s.mesh.vertices| && s.mesh.vertices[s.pending[k]].pos == qs[k]
  }

  /** The nine coordinates of a facet's corners. */
  function FacetCoordinates(p1: Vec3, p2: Vec3, p3: Vec3): set<real>
  {
    {p1.x, p1.y, p1.z, p2.x, p2.y, p2.z, p3.x, p3.y, p3.z}
  }

  /** A written `vertex` line reads back as the position it was written from. */
  lemma VertexLineReads(p: Vec3, text: FloatText)
    requires ScansPrintedOn(text, {p.x, p.y, p.z})
    ensures StartsWith(VertexLine(p, text), "vertex")
    ensures VertexPosition(VertexLine(p, text), text) == (Success, p)
  {
    var line := VertexLine(p, text);
    var (sx, sy, sz) := (text.show(p.x), text.show(p.y), text.show(p.z));
    assert line[..6] == "vertex";
    assert line[7..] == sx + (" " + sy + " " + sz);
    assert text.scan(sx + (" " + sy + " " + sz)) == Option<(real, nat)>.Some((p.x, |sx|));
    var i := 8 + |sx|;
    assert line[i..] == sy + (" " + sz);
    assert text.scan(sy + (" " + sz)) == Option<(real, nat)>.Some((p.y, |sy|));
    var j := i + |sy| + 1;
    assert line[j..] == sz + [];
    assert text.scan(sz + []) == Option<(real, nat)>.Some((p.z, |sz|));
  }

  /** The loop over lines `i` onwards, when line `i` starts with neither
      `vertex` nor `endfacet`, is the loop over the lines after it. */
  lemma SkipStep(s: Scanner, lines: seq<string>, i: nat, text: FloatText)
    requires i < |lines| && !StartsWith(lines[i], "vertex") && !StartsWith(lines[i], "endfacet")
    ensures ScanLines(s, lines[i..], text) == ScanLines(s, lines[i + 1..], text)
  {
    assert lines[i..][0] == lines[i];
    assert lines[i..][1..] == lines[i + 1..];
  }

  /** The same when line `i` is a written `vertex` line. */
  lemma CornerStep(s: Scanner, lines: seq<string>, i: nat, p: Vec3, text: FloatText)
    requires ScansPrintedOn(text, {p.x, p.y, p.z})
    requires i < |lines| && lines[i] == VertexLine(p, text)
    ensures ScanLines(s, lines[i..], text) == ScanLines(AddCorner(s, p), lines[i + 1..], text)
  {
    VertexLineReads(p, text);
    assert lines[i..][0] == lines[i];
    assert lines[i..][1..] == lines[i + 1..];
  }

  /** The same when line `i` is `endfacet` and the facet completes. */
  lemma EndFacetStep(s: Scanner, lines: seq<string>, i: nat, text: FloatText)
    requires EndFacet(s).0 == Success
    requires i < |lines| && lines[i] == "endfacet"
    ensures ScanLines(s, lines[i..], text) == ScanLines(EndFacet(s).1, lines[i + 1..], text)
  {
    DiffersAt(lines[i], "vertex", 0);
    assert StartsWith(lines[i], "endfacet");
    assert lines[i..][0] == lines[i];
    assert lines[i..][1..] == lines[i + 1..];
  }

  /** The loop over two blocks of lines is the loop over the first and, if
      that did not stop, the loop over the second. */
  lemma {:induction false} ScanLinesAppend(s: Scanner, a: seq<string>, b: seq<string>, text: FloatText)
    ensures ScanLines(s, a + b, text) ==
      var r := ScanLines(s, a, text);
      if r.0 == Success then ScanLines(r.1, b, text) else r
    decreases |a|
  {
    if a == [] {
      assert a + b == b;
    } else {
      assert (a + b)[0] == a[0];
      assert (a + b)[1..] == a[1..] + b;
      var (o, s') := ScanLine(s, a[0], text);
      if o == Success {
        ScanLinesAppend(s', a[1..], b, text);
      }
    }
  }

  /** From `s` to `r` only corners were added: `r` keeps the invariant,
      has gathered indices at the positions `qs`, and moves no vertex and no
      face of `s`. */
  ghost predicate Gathers(s: Scanner, r: Scanner, qs: seq<Vec3>)
  {
    Indexed(r, 0) && Gathered(r, qs) && Extends(s.mesh.vertices, r.mesh.vertices) && r.mesh.faces == s.mesh.faces
  }

  /** One corner more: its index is gathered after the earlier ones. */
  lemma CornerGathered(s: Scanner, qs: seq<Vec3>, p: Vec3, ps: seq<Vec3>)
    requires Indexed(s, 0) && Gathered(s, qs) && ps == qs + [p]
    ensures Gathers(s, AddCorner(s, p), ps)
  {
    AddCornerKeeps(s, 0, p);
    var r := AddCorner(s, p);
    forall k | 0 <= k < |ps|
      ensures r.pending[k] < |r.mesh.vertices| && r.mesh.vertices[r.pending[k]].pos == ps[k]
    {
      if k < |qs| {
        assert r.pending[k] == r.pending[..|s.pending|][k] == s.pending[k];
        assert Positions(r.mesh.vertices)[..|s.mesh.vertices|][s.pending[k]] == Positions(s.mesh.vertices)[s.pending[k]];
      }
    }
    forall i | 0 <= i < |s.mesh.vertices|
      ensures r.mesh.vertices[i].pos == s.mesh.vertices[i].pos
    {
      assert Positions(r.mesh.vertices)[..|s.mesh.vertices|][i] == Positions(s.mesh.vertices)[i];
    }
  }

  /** Keeping positions is transitive. */
  lemma ExtendsTransitive(us: seq<VertexValue>, vs: seq<VertexValue>, ws: seq<VertexValue>)
    requires Extends(us, vs) && Extends(vs, ws)
    ensures Extends(us, ws)
  {
  }

  /** Gathering corners in two rounds is gathering them in one. */
  lemma GathersThen(s: Scanner, s1: Scanner, s2: Scanner, qs: seq<Vec3>, ps: seq<Vec3>)
    requires Gathers(s, s1, qs) && Gathers(s1, s2, ps)
    ensures Gathers(s, s2, ps)
  {
    ExtendsTransitive(s.mesh.vertices, s1.mesh.vertices, s2.mesh.vertices);
  }

  /** Two corners gathered from nothing. */
  lemma TwoCorners(s: Scanner, p1: Vec3, p2: Vec3)
    requires Indexed(s, 0) && s.pending == []
    ensures Gathers(s, AddCorner(AddCorner(s, p1), p2), [p1, p2])
  {
    var s1 := AddCorner(s, p1);
    assert Gathered(s, []);
    assert [] + [p1] == [p1] && [p1] + [p2] == [p1, p2];
    CornerGathered(s, [], p1, [p1]);
    assert Indexed(s1, 0) && Gathered(s1, [p1]);
    CornerGathered(s1, [p1], p2, [p1, p2]);
    GathersThen(s, s1, AddCorner(s1, p2), [p1], [p1, p2]);
  }

  /** A facet's three `vertex` lines gather three indices at the three
      positions and move no vertex. */
  lemma ThreeCorners(s: Scanner, p1: Vec3, p2: Vec3, p3: Vec3)
    requires Indexed(s, 0) && s.pending == []
    ensures Gathers(s, AddCorner(AddCorner(AddCorner(s, p1), p2), p3), [p1, p2, p3])
  {
    var s2 := AddCorner(AddCorner(s, p1), p2);
    TwoCorners(s, p1, p2);
    CornerGathered(s2, [p1, p2], p3, [p1, p2, p3]);
    GathersThen(s, s2, AddCorner(s2, p3), [p1, p2], [p1, p2, p3]);
  }

  /** An `endfacet` after three gathered corners adds one face with its
      corners at their positions, and leaves nothing gathered. */
  lemma EndGathered(s: Scanner, p1: Vec3, p2: Vec3, p3: Vec3)
    requires Indexed(s, 0) && Gathered(s, [p1, p2, p3])
    ensures var r := EndFacet(s);
      r.0 == Success && Indexed(r.1, 0) && r.1.pending == [] && Extends(s.mesh.vertices, r.1.mesh.vertices) &&
      |r.1.mesh.faces| == |s.mesh.faces| + 1 && r.1.mesh.faces[..|s.mesh.faces|] == s.mesh.faces &&
      Lands(r.1.mesh.vertices, r.1.mesh.faces[|s.mesh.faces|], p1, p2, p3)
  {
    EndFacetKeeps(s, 0);
    var e := EndFacet(s).1;
    assert e.mesh.faces[|s.mesh.faces|] == Triple(s.pending[0], s.pending[1], s.pending[2]);
    assert e.mesh.faces[..|s.mesh.faces|] == s.mesh.faces;
  }

  /** Three corners put their three positions into the map. */
  lemma CornerKeys(s: Scanner, p1: Vec3, p2: Vec3, p3: Vec3)
    ensures AddCorner(AddCorner(AddCorner(s, p1), p2), p3).index.Keys == s.index.Keys + {p1, p2, p3}
  {
    var s1 := AddCorner(s, p1);
    var s2 := AddCorner(s1, p2);
    assert s1.index.Keys == s.index.Keys + {p1};
    assert s2.index.Keys == s.index.Keys + {p1} + {p2};
    assert AddCorner(s2, p3).index.Keys == s.index.Keys + {p1} + {p2} + {p3};
  }

  /** What a facet's three corners and its `endfacet` do to the state: one
      face is added, with its corners at the three positions, nothing is left
      gathered and no vertex moves. */
  lemma FacetState(s: Scanner, p1: Vec3, p2: Vec3, p3: Vec3)
    requires Indexed(s, 0) && s.pending == []
    ensures var r := EndFacet(AddCorner(AddCorner(AddCorner(s, p1), p2), p3));
      r.0 == Success && Indexed(r.1, 0) && r.1.pending == [] && Extends(s.mesh.vertices, r.1.mesh.vertices) &&
      |r.1.mesh.faces| == |s.mesh.faces| + 1 && r.1.mesh.faces[..|s.mesh.faces|] == s.mesh.faces &&
      Lands(r.1.mesh.vertices, r.1.mesh.faces[|s.mesh.faces|], p1, p2, p3) &&
      r.1.index.Keys == s.index.Keys + {p1, p2, p3}
  {
    var s3 := AddCorner(AddCorner(AddCorner(s, p1), p2), p3);
    CornerKeys(s, p1, p2, p3);
    ThreeCorners(s, p1, p2, p3);
    EndGathered(s3, p1, p2, p3);
    ExtendsTransitive(s.mesh.vertices, s3.mesh.vertices, EndFacet(s3).1.mesh.vertices);
  }

  /** The three `vertex` lines of a written facet add the three corners. */
  lemma CornersScan(s: Scanner, lines: seq<string>, p1: Vec3, p2: Vec3, p3: Vec3, text: FloatText)
    requires ScansPrintedOn(text, FacetCoordinates(p1, p2, p3))
    requires 5 <= |lines| && lines[2] == VertexLine(p1, text) && lines[3] == VertexLine(p2, text) && lines[4] == VertexLine(p3, text)
    ensures ScanLines(s, lines[2..], text) == ScanLines(AddCorner(AddCorner(AddCorner(s, p1), p2), p3), lines[5..], text)
  {
    var s1 := AddCorner(s, p1);
    var s2 := AddCorner(s1, p2);
    RoundTripsOnFewer(text, {p1.x, p1.y, p1.z}, FacetCoordinates(p1, p2, p3));
    RoundTripsOnFewer(text, {p2.x, p2.y, p2.z}, FacetCoordinates(p1, p2, p3));
    RoundTripsOnFewer(text, {p3.x, p3.y, p3.z}, FacetCoordinates(p1, p2, p3));
    CornerStep(s, lines, 2, p1, text);
    CornerStep(s1, lines, 3, p2, text);
    CornerStep(s2, lines, 4, p3, text);
  }

  /** The shape of a written facet: which lines the loader skips, which it
      reads as corners, and where the facet ends. */
  lemma FacetLinesShape(n: Vec3, p1: Vec3, p2: Vec3, p3: Vec3, text: FloatText)
    ensures var lines := FacetLines(n, p1, p2, p3, text);
      !StartsWith(lines[0], "vertex") && !StartsWith(lines[0], "endfacet") &&
      !StartsWith(lines[1], "vertex") && !StartsWith(lines[1], "endfacet") &&
      lines[2] == VertexLine(p1, text) && lines[3] == VertexLine(p2, text) && lines[4] == VertexLine(p3, text) &&
      !StartsWith(lines[5], "vertex") && !StartsWith(lines[5], "endfacet") && lines[6] == "endfacet"
  {
    var lines := FacetLines(n, p1, p2, p3, text);
    DiffersAt(lines[0], "vertex", 0);
    DiffersAt(lines[0], "endfacet", 0);
    DiffersAt(lines[1], "vertex", 0);
    DiffersAt(lines[1], "endfacet", 0);
    DiffersAt(lines[5], "vertex", 0);
    DiffersAt(lines[5], "endfacet", 3);
  }

  /** The loop over seven lines shaped like a facet: two lines skipped,
      three corners added, one line skipped, and the facet ended. */
  lemma SevenLines(s: Scanner, lines: seq<string>, p1: Vec3, p2: Vec3, p3: Vec3, text: FloatText)
    requires ScansPrintedOn(text, FacetCoordinates(p1, p2, p3))
    requires EndFacet(AddCorner(AddCorner(AddCorner(s, p1), p2), p3)).0 == Success
    requires |lines| == 7
    requires !StartsWith(lines[0], "vertex") && !StartsWith(lines[0], "endfacet")
    requires !StartsWith(lines[1], "vertex") && !StartsWith(lines[1], "endfacet")
    requires lines[2] == VertexLine(p1, text) && lines[3] == VertexLine(p2, text) && lines[4] == VertexLine(p3, text)
    requires !StartsWith(lines[5], "vertex") && !StartsWith(lines[5], "endfacet") && lines[6] == "endfacet"
    ensures ScanLines(s, lines, text) == (Success, EndFacet(AddCorner(AddCorner(AddCorner(s, p1), p2), p3)).1)
  {
    var s3 := AddCorner(AddCorner(AddCorner(s, p1), p2), p3);
    assert lines[0..] == lines;
    SkipStep(s, lines, 0, text);
    SkipStep(s, lines, 1, text);
    CornersScan(s, lines, p1, p2, p3, text);
    FacetEnd(s3, lines, text);
  }

  /** The last two lines of a facet: one skipped, then the facet ended. */
  lemma FacetEnd(s: Scanner, lines: seq<string>, text: FloatText)
    requires EndFacet(s).0 == Success
    requires |lines| == 7
    requires !StartsWith(lines[5], "vertex") && !StartsWith(lines[5], "endfacet") && lines[6] == "endfacet"
    ensures ScanLines(s, lines[5..], text) == (Success, EndFacet(s).1)
  {
    SkipStep(s, lines, 5, text);
    EndFacetStep(s, lines, 6, text);
    assert lines[7..] == [];
  }

  /** The loop over the seven lines of a written facet. */
  lemma FacetScan(s: Scanner, n: Vec3, p1: Vec3, p2: Vec3, p3: Vec3, text: FloatText)
    requires ScansPrintedOn(text, FacetCoordinates(p1, p2, p3))
    requires EndFacet(AddCorner(AddCorner(AddCorner(s, p1), p2), p3)).0 == Success
    ensures ScanLines(s, FacetLines(n, p1, p2, p3, text), text) == (Success, EndFacet(AddCorner(AddCorner(AddCorner(s, p1), p2), p3)).1)
  {
    FacetLinesShape(n, p1, p2, p3, text);
    SevenLines(s, FacetLines(n, p1, p2, p3, text), p1, p2, p3, text);
  }

  lemma LandsExtends(vs: seq<VertexValue>, ws: seq<VertexValue>, u: Triple, p1: Vec3, p2: Vec3, p3: Vec3)
    requires Lands(vs, u, p1, p2, p3) && Extends(vs, ws)
    ensures Lands(ws, u, p1, p2, p3)
  {
  }

  /** The seven lines of a written facet add exactly one face, with its
      corners at the written positions, and leave nothing gathered. */
  lemma ScanFacet(s: Scanner, n: Vec3, p1: Vec3, p2: Vec3, p3: Vec3, text: FloatText)
    requires ScansPrintedOn(text, FacetCoordinates(p1, p2, p3))
    requires Indexed(s, 0) && s.pending == []
    ensures var r := ScanLines(s, FacetLines(n, p1, p2, p3, text), text);
      r.0 == Success && Indexed(r.1, 0) && r.1.pending == [] && Extends(s.mesh.vertices, r.1.mesh.vertices) &&
      |r.1.mesh.faces| == |s.mesh.faces| + 1 && r.1.mesh.faces[..|s.mesh.faces|] == s.mesh.faces &&
      Lands(r.1.mesh.vertices, r.1.mesh.faces[|s.mesh.faces|], p1, p2, p3) &&
      r.1.index.Keys == s.index.Keys + {p1, p2, p3}
  {
    FacetState(s, p1, p2, p3);
    FacetScan(s, n, p1, p2, p3, text);
  }

  /** Face `k` of `us` has its corners where face `k` of `ts` has them, for
      every `k`. */
  predicate AllLand(ws: seq<VertexValue>, us: seq<Triple>, vs: seq<VertexValue>, ts: seq<Triple>)
    decreases |ts|
  {
    |us| == |ts| && (ts == [] || (SameCorners(ws, us[0], vs, ts[0]) && AllLand(ws, us[1..], vs, ts[1..])))
  }

  lemma {:induction false} AllLandAt(ws: seq<VertexValue>, us: seq<Triple>, vs: seq<VertexValue>, ts: seq<Triple>)
    requires AllLand(ws, us, vs, ts)
    ensures |us| == |ts| && forall i :: 0 <= i < |ts| ==> SameCorners(ws, us[i], vs, ts[i])
    decreases |ts|
  {
    if ts != [] {
      AllLandAt(ws, us[1..], vs, ts[1..]);
      forall i | 0 <= i < |ts|
        ensures SameCorners(ws, us[i], vs, ts[i])
      {
        if i > 0 {
          assert us[i] == us[1..][i - 1] && ts[i] == ts[1..][i - 1];
        }
      }
    }
  }

  /** The face bookkeeping of one step of `ScanFacets`: a face that landed
      before the later facets were read still lands afterwards, in front of
      theirs. */
  lemma PrependLanded(fs0: seq<Triple>, m1: MeshValue, m2: MeshValue, vs: seq<VertexValue>, t: Triple, rest: seq<Triple>)
    requires t.Below(|vs|)
    requires |m1.faces| == |fs0| + 1 && m1.faces[..|fs0|] == fs0
    requires Lands(m1.vertices, m1.faces[|fs0|], vs[t.a].pos, vs[t.b].pos, vs[t.c].pos)
    requires Extends(m1.vertices, m2.vertices)
    requires |m2.faces| == |m1.faces| + |rest| && m2.faces[..|m1.faces|] == m1.faces
    requires AllLand(m2.vertices, m2.faces[|m1.faces|..], vs, rest)
    ensures |m2.faces| == |fs0| + |[t] + rest| && m2.faces[..|fs0|] == fs0
    ensures AllLand(m2.vertices, m2.faces[|fs0|..], vs, [t] + rest)
  {
    var n := |fs0|;
    assert m2.faces[n] == m2.faces[..n + 1][n] == m1.faces[n];
    assert m2.faces[..n] == m1.faces[..n];
    LandsExtends(m1.vertices, m2.vertices, m1.faces[n], vs[t.a].pos, vs[t.b].pos, vs[t.c].pos);
    var us := m2.faces[n..];
    assert us[0] == m2.faces[n];
    assert us[1..] == m2.faces[n + 1..];
    assert ([t] + rest)[0] == t && ([t] + rest)[1..] == rest;
  }

  /** The positions of the corners of the faces `fs` of `vs`. */
  function CornerPositions(vs: seq<VertexValue>, fs: seq<Triple>): set<Vec3>
    requires FacesBelow(fs, |vs|)
  {
    if fs == [] then {} else {vs[fs[0].a].pos, vs[fs[0].b].pos, vs[fs[0].c].pos} + CornerPositions(vs, fs[1..])
  }

  /** Every corner of every face is among the corner positions. */
  lemma {:induction false} CornerPositionsHas(vs: seq<VertexValue>, fs: seq<Triple>, i: nat)
    requires FacesBelow(fs, |vs|) && i < |fs|
    ensures vs[fs[i].a].pos in CornerPositions(vs, fs) && vs[fs[i].b].pos in CornerPositions(vs, fs) &&
      vs[fs[i].c].pos in CornerPositions(vs, fs)
    decreases i
  {
    if i > 0 {
      assert FacesBelow(fs[1..], |vs|) by {
        forall k | 0 <= k < |fs| - 1
          ensures fs[1..][k].Below(|vs|)
        {
          assert fs[1..][k] == fs[k + 1];
        }
      }
      assert fs[1..][i - 1] == fs[i];
      CornerPositionsHas(vs, fs[1..], i - 1);
    }
  }

  /** The corner positions are vertex positions. */
  lemma {:induction false} CornerPositionsWithin(vs: seq<VertexValue>, fs: seq<Triple>)
    requires FacesBelow(fs, |vs|)
    ensures forall q :: q in CornerPositions(vs, fs) ==> q in Positions(vs)
    decreases |fs|
  {
    if fs != [] {
      assert FacesBelow(fs[1..], |vs|) by {
        forall k | 0 <= k < |fs| - 1
          ensures fs[1..][k].Below(|vs|)
        {
          assert fs[1..][k] == fs[k + 1];
        }
      }
      CornerPositionsWithin(vs, fs[1..]);
      var ps := Positions(vs);
      assert ps[fs[0].a] == vs[fs[0].a].pos && ps[fs[0].b] == vs[fs[0].b].pos && ps[fs[0].c] == vs[fs[0].c].pos;
    }
  }

  /** What reading the facets written for `fs` did from `s` to `r`: it
      completed, appended exactly those faces in order, each with its corners
      at the written positions, moved no vertex, left nothing gathered, and
      put exactly the written corner positions into the map. */
  ghost predicate Scanned(s: Scanner, r: (Load, Scanner), vs: seq<VertexValue>, fs: seq<Triple>)
  {
    FacesBelow(fs, |vs|) &&
    r.0 == Success && Indexed(r.1, 0) && r.1.pending == [] && Extends(s.mesh.vertices, r.1.mesh.vertices) &&
    |r.1.mesh.faces| == |s.mesh.faces| + |fs| && r.1.mesh.faces[..|s.mesh.faces|] == s.mesh.faces &&
    AllLand(r.1.mesh.vertices, r.1.mesh.faces[|s.mesh.faces|..], vs, fs) &&
    r.1.index.Keys == s.index.Keys + CornerPositions(vs, fs)
  }

  /** One facet read, then the facets of the later faces: the facets of all
      of them. */
  lemma ScannedThen(s: Scanner, s1: Scanner, r: (Load, Scanner), vs: seq<VertexValue>, t: Triple, rest: seq<Triple>)
    requires t.Below(|vs|) && Indexed(s1, 0) && s1.pending == [] && Extends(s.mesh.vertices, s1.mesh.vertices)
    requires |s1.mesh.faces| == |s.mesh.faces| + 1 && s1.mesh.faces[..|s.mesh.faces|] == s.mesh.faces
    requires Lands(s1.mesh.vertices, s1.mesh.faces[|s.mesh.faces|], vs[t.a].pos, vs[t.b].pos, vs[t.c].pos)
    requires s1.index.Keys == s.index.Keys + {vs[t.a].pos, vs[t.b].pos, vs[t.c].pos}
    requires Scanned(s1, r, vs, rest)
    ensures Scanned(s, r, vs, [t] + rest)
  {
    var fs := [t] + rest;
    assert fs[0] == t && fs[1..] == rest;
    assert FacesBelow(fs, |vs|) by {
      forall i | 0 <= i < |fs|
        ensures fs[i].Below(|vs|)
      {
        if i > 0 {
          assert fs[i] == rest[i - 1];
        }
      }
    }
    ExtendsTransitive(s.mesh.vertices, s1.mesh.vertices, r.1.mesh.vertices);
    PrependLanded(s.mesh.faces, s1.mesh, r.1.mesh, vs, t, rest);
    assert CornerPositions(vs, fs) == {vs[t.a].pos, vs[t.b].pos, vs[t.c].pos} + CornerPositions(vs, rest);
  }

  /** The facet written for face `t` of `vs` adds one face with its corners
      where `t` has them, and puts their positions into the map. */
  lemma FacetOfFace(s: Scanner, vs: seq<VertexValue>, t: Triple, text: FloatText)
    requires ScansPrintedOn(text, CoordinateSet(Positions(vs)))
    requires Indexed(s, 0) && s.pending == [] && t.Below(|vs|)
    ensures Scanned(s, ScanLines(s, Facet(vs, t, text), text), vs, [t])
  {
    var (p1, p2, p3) := (vs[t.a].pos, vs[t.b].pos, vs[t.c].pos);
    var ps := Positions(vs);
    assert ps[t.a] == p1 && ps[t.b] == p2 && ps[t.c] == p3;
    RoundTripsOnFewer(text, FacetCoordinates(p1, p2, p3), CoordinateSet(ps));
    ScanFacet(s, Normal(p1, p2, p3), p1, p2, p3, text);
    var r := ScanLines(s, Facet(vs, t, text), text);
    assert r.1.mesh.faces[|s.mesh.faces|..] == [r.1.mesh.faces[|s.mesh.faces|]];
    assert CornerPositions(vs, [t]) == {p1, p2, p3};
  }

  /** No facets read: nothing changes. */
  lemma NoFacets(s: Scanner, vs: seq<VertexValue>, text: FloatText)
    requires Indexed(s, 0) && s.pending == []
    ensures Scanned(s, ScanLines(s, Facets(vs, [], text), text), vs, [])
  {
    assert s.mesh.faces[..|s.mesh.faces|] == s.mesh.faces;
    assert s.index.Keys + CornerPositions(vs, []) == s.index.Keys;
  }

  lemma HeadAndTail<T>(xs: seq<T>)
    requires xs != []
    ensures xs == [xs[0]] + xs[1..]
  {
  }

  /** The lines of one facet, then the lines of the later facets. */
  lemma FacetThenFacets(s: Scanner, first: seq<string>, later: seq<string>, lines: seq<string>,
                         vs: seq<VertexValue>, t: Triple, rest: seq<Triple>, fs: seq<Triple>, text: FloatText)
    requires lines == first + later && fs != [] && t == fs[0] && rest == fs[1..]
    requires Scanned(s, ScanLines(s, first, text), vs, [t])
    requires var s1 := ScanLines(s, first, text).1; Scanned(s1, ScanLines(s1, later, text), vs, rest)
    ensures Scanned(s, ScanLines(s, lines, text), vs, fs)
  {
    var s1 := ScanLines(s, first, text).1;
    HeadAndTail(fs);
    ScanLinesAppend(s, first, later, text);
    assert s1.mesh.faces[|s.mesh.faces|..] == [s1.mesh.faces[|s.mesh.faces|]];
    assert CornerPositions(vs, [t]) == {vs[t.a].pos, vs[t.b].pos, vs[t.c].pos};
    ScannedThen(s, s1, ScanLines(s1, later, text), vs, t, rest);
  }

  /** The facets written for a list of faces add exactly those faces, in
      order, each with its corners at the written positions, and put exactly
      the written corner positions into the map. */
  lemma {:induction false} ScanFacets(s: Scanner, vs: seq<VertexValue>, fs: seq<Triple>, text: FloatText)
    requires ScansPrintedOn(text, CoordinateSet(Positions(vs)))
    requires Indexed(s, 0) && s.pending == [] && FacesBelow(fs, |vs|)
    ensures Scanned(s, ScanLines(s, Facets(vs, fs, text), text), vs, fs)
    decreases |fs|
  {
    if fs == [] {
      NoFacets(s, vs, text);
    } else {
      var t, rest := fs[0], fs[1..];
      var first := Facet(vs, t, text);
      assert Facets(vs, fs, text) == first + Facets(vs, rest, text);
      FacetOfFace(s, vs, t, text);
      var s' := ScanLines(s, first, text).1;
      assert FacesBelow(rest, |vs|) by {
        forall i | 0 <= i < |rest|
          ensures rest[i].Below(|vs|)
        {
          assert rest[i] == fs[i + 1];
        }
      }
      ScanFacets(s', vs, rest, text);
      FacetThenFacets(s, first, Facets(vs, rest, text), Facets(vs, fs, text), vs, t, rest, fs, text);
    }
  }

  /** With the invariant from the first vertex on, the map holds exactly the
      vertex positions. */
  lemma KeysArePositions(sc: Scanner)
    requires Indexed(sc, 0)
    ensures forall q :: q in Positions(sc.mesh.vertices) <==> q in sc.index
  {
    var ps := Positions(sc.mesh.vertices);
    forall q
      ensures q in ps <==> q in sc.index
    {
      if q in ps {
        var j :| 0 <= j < |ps| && ps[j] == q;
        assert sc.mesh.vertices[j].pos == q;
      }
      if q in sc.index {
        assert ps[sc.index[q]] == q;
      }
    }
  }

  /** The facets of a saved mesh, read into an empty mesh. */
  lemma BodyScan(m: MeshValue, text: FloatText)
    requires ScansPrintedOn(text, CoordinateSet(Positions(m.vertices)))
    requires FacesBelow(m.faces, |m.vertices|)
    ensures var r := ScanLines(Scanner(Empty, map[], []), Facets(m.vertices, m.faces, text), text);
      r.0 == Success && Indexed(r.1, 0) && |r.1.mesh.faces| == |m.faces| &&
      (forall i :: 0 <= i < |m.faces| ==> SameCorners(r.1.mesh.vertices, r.1.mesh.faces[i], m.vertices, m.faces[i])) &&
      (forall q :: q in Positions(r.1.mesh.vertices) <==> q in CornerPositions(m.vertices, m.faces))
  {
    var s := Scanner(Empty, map[], []);
    assert Indexed(s, 0);
    ScanFacets(s, m.vertices, m.faces, text);
    var r := ScanLines(s, Facets(m.vertices, m.faces, text), text);
    assert r.1.index.Keys == CornerPositions(m.vertices, m.faces);
    KeysArePositions(r.1);
    assert r.1.mesh.faces[0..] == r.1.mesh.faces;
    AllLandAt(r.1.mesh.vertices, r.1.mesh.faces, m.vertices, m.faces);
  }

  /** Loading what `save_to_stl` wrote into an empty mesh completes with one
      face per written face, in order, each with its corners at the written
      positions; equal positions come back as one vertex, and the neighbour
      lists are the face adjacency. */
  lemma RenderThenParse(m: MeshValue, stem: string, text: FloatText)
    requires ScansPrintedOn(text, CoordinateSet(Positions(m.vertices)))
    requires FacesBelow(m.faces, |m.vertices|)
    ensures var r := Parse(Empty, Readable(Render(m, stem, text)), text);
      r.0 == Success && |r.1.faces| == |m.faces| &&
      (forall i :: 0 <= i < |m.faces| ==> SameCorners(r.1.vertices, r.1.faces[i], m.vertices, m.faces[i])) &&
      (forall i, j :: 0 <= i < j < |r.1.vertices| ==> r.1.vertices[i].pos != r.1.vertices[j].pos) &&
      (forall q :: q in Positions(r.1.vertices) <==> q in CornerPositions(m.vertices, m.faces)) &&
      WellFormed(r.1) && FaceAdjacency(r.1)
  {
    var head := ["solid " + stem];
    var tail := ["endsolid " + stem];
    var body := Facets(m.vertices, m.faces, text);
    var s := Scanner(Empty, map[], []);
    assert Render(m, stem, text) == head + (body + tail);
    DiffersAt(head[0], "vertex", 0);
    DiffersAt(head[0], "endfacet", 0);
    DiffersAt(tail[0], "vertex", 0);
    DiffersAt(tail[0], "endfacet", 3);
    ScanLinesAppend(s, head, body + tail, text);
    assert ScanLines(s, head, text) == (Success, s);
    ScanLinesAppend(s, body, tail, text);
    BodyScan(m, text);
    var r := ScanLines(s, body, text);
    assert ScanLines(r.1, tail, text) == (Success, r.1);
    EmptyIsWellFormed();
    ParseKeepsWellFormed(Empty, Readable(Render(m, stem, text)), text);
  }
}
