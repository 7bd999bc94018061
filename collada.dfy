/** The COLLADA codec: one `<float_array>` of coordinates and one `<p>` list of
    face indices per mesh. The XML itself is parsed by a library that is not
    part of this model; the loader here starts from the text contents of the
    elements the source visits, and the writer is modelled as the string it
    produces. */
module Collada {
  import opened Text
  import opened Vertices
  import opened Faces
  import opened Topology
  import opened Files
  import Errors

  // ---------------------------------------------------------------------------
  // The loader.

  /** A `<mesh>` element: the text of the `<float_array>` child of each
      `<source>` child, and the text of the `<p>` child of each `<triangles>`
      child, in document order. A missing child reads as the empty text. */
  datatype MeshNode = MeshNode(sources: seq<string>, triangles: seq<string>)

  /** What the XML library gives the loader: either the document did not
      load (a missing file included), or the children of
      `COLLADA/library_geometries`, each with its `<mesh>` children. */
  datatype Xml = Unloadable | Geometries(children: seq<seq<MeshNode>>)

  /** One element text the loader reads, with the kind of values it extracts. */
  datatype Chunk = FloatArray(values: string) | TriangleList(indices: string)

  /** The chunks of one `<mesh>`: its sources first, then its triangle lists. */
  function MeshChunks(node: MeshNode): (cs: seq<Chunk>)
    ensures |cs| == |node.sources| + |node.triangles|
    ensures forall i :: 0 <= i < |node.sources| ==> cs[i] == FloatArray(node.sources[i])
    ensures forall i :: 0 <= i < |node.triangles| ==> cs[|node.sources| + i] == TriangleList(node.triangles[i])
  {
    seq(|node.sources|, i requires 0 <= i < |node.sources| => FloatArray(node.sources[i])) +
    seq(|node.triangles|, i requires 0 <= i < |node.triangles| => TriangleList(node.triangles[i]))
  }

  /** The chunks of a list of `<mesh>` elements, in order. */
  function MeshesChunks(nodes: seq<MeshNode>): seq<Chunk>
  {
    if nodes == [] then [] else MeshChunks(nodes[0]) + MeshesChunks(nodes[1..])
  }

  /** The chunks of the whole document: the three nested loops of the source
      visit them in this order and stop at the first failure, which is what
      one loop over the concatenation does (see `ReadChunksAppend`). */
  function DocumentChunks(geometries: seq<seq<MeshNode>>): seq<Chunk>
  {
    if geometries == [] then [] else MeshesChunks(geometries[0]) + DocumentChunks(geometries[1..])
  }

  /** `k` float extractions one after another: the values stored and the
      stream after them. */
  function ReadFloats(st: Stream, k: nat, text: FloatText): (r: (seq<real>, Stream))
    ensures |r.0| == k
    decreases k
  {
    if k == 0 then ([], st)
    else
      var (v, s1) := st.ReadFloat(text);
      var (vs, s2) := ReadFloats(s1, k - 1, text);
      ([v] + vs, s2)
  }

  /** `std::vector<float>(std::istream_iterator<float>{iss}, {})`: the values
      of the extractions made one after another until one fails. An
      extraction reads the longest number at the front of what is left, so a
      token such as "2x" yields 2 and leaves "x", on which the next one
      fails. */
  function FloatValues(st: Stream, text: FloatText): seq<real>
    decreases Chars(st.rest)
  {
    var (v, next) := st.ReadFloat(text);
    if next.failed then [] else [v] + FloatValues(next, text)
  }

  /** The values are those of the first extractions, every one of which
      succeeded, and the extraction after them fails. */
  lemma {:induction false} FloatValuesRead(st: Stream, text: FloatText)
    ensures var vs := FloatValues(st, text);
      var r := ReadFloats(st, |vs|, text);
      r.0 == vs && (vs != [] ==> !r.1.failed) && r.1.ReadFloat(text).1.failed
    decreases Chars(st.rest)
  {
    var (v, next) := st.ReadFloat(text);
    if !next.failed {
      FloatValuesRead(next, text);
      var vs := FloatValues(next, text);
      assert FloatValues(st, text) == [v] + vs;
      assert ReadFloats(st, |vs| + 1, text) == ([v] + ReadFloats(next, |vs|, text).0, ReadFloats(next, |vs|, text).1);
    }
  }

  /** `k` index extractions one after another. */
  function ReadIndices(st: Stream, k: nat): (r: (seq<nat>, Stream))
    ensures |r.0| == k
    decreases k
  {
    if k == 0 then ([], st)
    else
      var (v, s1) := st.ReadIndex();
      var (vs, s2) := ReadIndices(s1, k - 1);
      ([v] + vs, s2)
  }

  /** The same with `std::istream_iterator<std::size_t>`. */
  function IndexValues(st: Stream): seq<nat>
    decreases Chars(st.rest)
  {
    var (v, next) := st.ReadIndex();
    if next.failed then [] else [v] + IndexValues(next)
  }

  /** The values are those of the first extractions, every one of which
      succeeded, and the extraction after them fails. */
  lemma {:induction false} IndexValuesRead(st: Stream)
    ensures var vs := IndexValues(st);
      var r := ReadIndices(st, |vs|);
      r.0 == vs && (vs != [] ==> !r.1.failed) && r.1.ReadIndex().1.failed
    decreases Chars(st.rest)
  {
    var (v, next) := st.ReadIndex();
    if !next.failed {
      IndexValuesRead(next);
      var vs := IndexValues(next);
      assert IndexValues(st) == [v] + vs;
      assert ReadIndices(st, |vs| + 1) == ([v] + ReadIndices(next, |vs|).0, ReadIndices(next, |vs|).1);
    }
  }

  /** Consecutive triples of coordinates as positions. */
  function Points(xs: seq<real>): (ps: seq<Vec3>)
    requires |xs| % 3 == 0
    ensures |ps| == |xs| / 3
    decreases |xs|
  {
    if xs == [] then [] else [Vec3(xs[0], xs[1], xs[2])] + Points(xs[3..])
  }

  /** Consecutive triples of indices as faces. */
  function TriplesOf(ns: seq<nat>): (ts: seq<Triple>)
    requires |ns| % 3 == 0
    ensures |ts| == |ns| / 3
    decreases |ns|
  {
    if ns == [] then [] else [Triple(ns[0], ns[1], ns[2])] + TriplesOf(ns[3..])
  }

  /** Position `i` is made of values `3i` to `3i + 2`. */
  lemma {:induction false} PointsAt(xs: seq<real>, i: nat)
    requires |xs| % 3 == 0 && i < |xs| / 3
    ensures Points(xs)[i] == Vec3(xs[3 * i], xs[3 * i + 1], xs[3 * i + 2])
    decreases i
  {
    if i > 0 {
      PointsAt(xs[3..], i - 1);
    }
  }

  /** Face `i` is made of indices `3i` to `3i + 2`. */
  lemma {:induction false} TriplesAt(ns: seq<nat>, i: nat)
    requires |ns| % 3 == 0 && i < |ns| / 3
    ensures TriplesOf(ns)[i] == Triple(ns[3 * i], ns[3 * i + 1], ns[3 * i + 2])
    decreases i
  {
    if i > 0 {
      TriplesAt(ns[3..], i - 1);
    }
  }

  /** Three more values put one more position in front. */
  lemma PointsCons(p: Vec3, xs: seq<real>)
    requires |xs| % 3 == 0
    ensures |[p.x, p.y, p.z] + xs| == |xs| + 3 && Points([p.x, p.y, p.z] + xs) == [p] + Points(xs)
  {
    var ys := [p.x, p.y, p.z] + xs;
    assert ys[3..] == xs;
  }

  /** Three more indices put one more face in front. */
  lemma TriplesOfCons(t: Triple, ns: seq<nat>)
    requires |ns| % 3 == 0
    ensures |[t.a, t.b, t.c] + ns| == |ns| + 3 && TriplesOf([t.a, t.b, t.c] + ns) == [t] + TriplesOf(ns)
  {
    var ms := [t.a, t.b, t.c] + ns;
    assert ms[3..] == ns;
  }

  const InvalidData: Load := Finished(Errors.ParseError(Errors.InvalidData))

  /** One chunk: a value count that is not a multiple of three stops the load
      with `invalid_data`; otherwise the positions are appended, or the faces
      are added with their indices taken as they are (not shifted by the
      vertices already in the mesh). */
  function ReadChunk(m: MeshValue, c: Chunk, text: FloatText): (r: (Load, MeshValue))
    ensures r.0 == InvalidData ==> r.1 == m
    ensures r.0 in {Success, InvalidData, Undefined}
  {
    match c
    case FloatArray(values) =>
      var xs := FloatValues(Stream(Words(values), false), text);
      if |xs| % 3 != 0 then (InvalidData, m)
      else (Success, MeshValue(m.vertices + Isolated(Points(xs)), m.faces))
    case TriangleList(indices) =>
      var ns := IndexValues(Stream(Words(indices), false));
      if |ns| % 3 != 0 then (InvalidData, m)
      else AddFaces(m, TriplesOf(ns))
  }

  /** The chunks in order, stopping at the first that does not complete. What
      the completed chunks appended stays in the mesh. */
  function ReadChunks(m: MeshValue, cs: seq<Chunk>, text: FloatText): (r: (Load, MeshValue))
    ensures r.0 in {Success, InvalidData, Undefined}
    decreases |cs|
  {
    if cs == [] then (Success, m)
    else
      var (o, m1) := ReadChunk(m, cs[0], text);
      if o != Success then (o, m1) else ReadChunks(m1, cs[1..], text)
  }

  /** `load_from_collada`. A document that does not load is `invalid_data`,
      whether or not the file exists. */
  function Parse(m: MeshValue, xml: Xml, text: FloatText): (r: (Load, MeshValue))
    ensures xml.Unloadable? ==> r == (InvalidData, m)
    ensures r.0 in {Success, InvalidData, Undefined}
  {
    match xml
    case Unloadable => (InvalidData, m)
    case Geometries(gs) => ReadChunks(m, DocumentChunks(gs), text)
  }

  /** Reading two runs of chunks is reading the first and, when it completed,
      the second from where the first left the mesh. */
  lemma {:induction false} ReadChunksAppend(m: MeshValue, a: seq<Chunk>, b: seq<Chunk>, text: FloatText)
    ensures var r := ReadChunks(m, a, text);
      ReadChunks(m, a + b, text) == if r.0 == Success then ReadChunks(r.1, b, text) else r
    decreases |a|
  {
    if a == [] {
      assert a + b == b;
    } else {
      assert (a + b)[0] == a[0];
      assert (a + b)[1..] == a[1..] + b;
      var (o, m1) := ReadChunk(m, a[0], text);
      if o == Success {
        ReadChunksAppend(m1, a[1..], b, text);
      }
    }
  }

  /** A chunk whose value count is not a multiple of three, reached after the
      chunks before it completed, ends the load with `invalid_data` and leaves
      the mesh as those chunks made it. */
  lemma FailureKeepsEarlierChunks(m: MeshValue, cs: seq<Chunk>, k: nat, text: FloatText)
    requires k < |cs|
    requires ReadChunks(m, cs[..k], text).0 == Success
    requires ReadChunk(ReadChunks(m, cs[..k], text).1, cs[k], text).0 == InvalidData
    ensures ReadChunks(m, cs, text) == (InvalidData, ReadChunks(m, cs[..k], text).1)
  {
    var m1 := ReadChunks(m, cs[..k], text).1;
    ReadChunksAppend(m, cs[..k], cs[k..], text);
    assert cs[..k] + cs[k..] == cs;
    assert cs[k..][0] == cs[k];
  }

  /** `r` keeps what `m` held: every vertex where it was, every face. */
  predicate Keeps(m: MeshValue, r: MeshValue)
  {
    |m.vertices| <= |r.vertices| && Positions(r.vertices)[..|m.vertices|] == Positions(m.vertices) &&
    |m.faces| <= |r.faces| && r.faces[..|m.faces|] == m.faces
  }

  lemma KeepsItself(m: MeshValue)
    ensures Keeps(m, m)
  {
    assert Positions(m.vertices)[..|m.vertices|] == Positions(m.vertices);
    assert m.faces[..|m.faces|] == m.faces;
  }

  lemma KeepsTransitive(m: MeshValue, m1: MeshValue, r: MeshValue)
    requires Keeps(m, m1) && Keeps(m1, r)
    ensures Keeps(m, r)
  {
    assert Positions(r.vertices)[..|m.vertices|] == Positions(r.vertices)[..|m1.vertices|][..|m.vertices|];
    assert r.faces[..|m.faces|] == r.faces[..|m1.faces|][..|m.faces|];
  }

  /** A completed chunk keeps the mesh well formed and its neighbour lists
      equal to the face adjacency, keeps every face and moves no vertex. */
  lemma ReadChunkKeeps(m: MeshValue, c: Chunk, text: FloatText)
    requires WellFormed(m)
    ensures var r := ReadChunk(m, c, text);
      r.0 == Success ==> WellFormed(r.1) && (FaceAdjacency(m) ==> FaceAdjacency(r.1)) && Keeps(m, r.1)
  {
    match c
    case FloatArray(values) =>
      var xs := FloatValues(Stream(Words(values), false), text);
      if |xs| % 3 == 0 {
        AppendIsolatedKeeps(m, Points(xs));
        var vs := m.vertices + Isolated(Points(xs));
        assert Positions(vs)[..|m.vertices|] == Positions(m.vertices);
        assert m.faces[..|m.faces|] == m.faces;
      }
    case TriangleList(indices) =>
      var ns := IndexValues(Stream(Words(indices), false));
      if |ns| % 3 == 0 {
        var ts := TriplesOf(ns);
        AddFacesKeepsWellFormed(m, ts);
        if FaceAdjacency(m) {
          AddFacesKeepsFaceAdjacency(m, ts);
        }
        if FacesBelow(ts, |m.vertices|) {
          assert (m.faces + ts)[..|m.faces|] == m.faces;
        }
      }
  }

  /** The invariant of the chunk loop: unless a face names a missing vertex
      (where the source's behaviour is undefined), the mesh stays well formed,
      with neighbour lists equal to the face adjacency, every vertex where it
      was and every face kept; this holds after a failure too. */
  lemma {:induction false} ReadChunksKeeps(m: MeshValue, cs: seq<Chunk>, text: FloatText)
    requires WellFormed(m)
    ensures var r := ReadChunks(m, cs, text);
      r.0 != Undefined ==> WellFormed(r.1) && (FaceAdjacency(m) ==> FaceAdjacency(r.1)) && Keeps(m, r.1)
    decreases |cs|
  {
    KeepsItself(m);
    if cs != [] {
      var (o, m1) := ReadChunk(m, cs[0], text);
      ReadChunkKeeps(m, cs[0], text);
      if o == Success {
        ReadChunksKeeps(m1, cs[1..], text);
        var r := ReadChunks(m1, cs[1..], text);
        if r.0 != Undefined {
          KeepsTransitive(m, m1, r.1);
        }
      }
    }
  }

  /** A completed float array appends one vertex per three values read, at
      those coordinates and without neighbours; a completed triangle list
      adds one face per three indices read. */
  lemma ReadChunkCounts(m: MeshValue, c: Chunk, text: FloatText)
    ensures var r := ReadChunk(m, c, text);
      c.FloatArray? && r.0 == Success ==>
        var xs := FloatValues(Stream(Words(c.values), false), text);
        |r.1.vertices| == |m.vertices| + |xs| / 3 && r.1.faces == m.faces &&
        forall i :: 0 <= i < |xs| / 3 ==> r.1.vertices[|m.vertices| + i] == VertexValue(Vec3(xs[3 * i], xs[3 * i + 1], xs[3 * i + 2]), [])
    ensures var r := ReadChunk(m, c, text);
      c.TriangleList? && r.0 == Success ==>
        var ns := IndexValues(Stream(Words(c.indices), false));
        |r.1.vertices| == |m.vertices| && |r.1.faces| == |m.faces| + |ns| / 3 &&
        forall i :: 0 <= i < |ns| / 3 ==> r.1.faces[|m.faces| + i] == Triple(ns[3 * i], ns[3 * i + 1], ns[3 * i + 2])
  {
    var r := ReadChunk(m, c, text);
    if c.FloatArray? && r.0 == Success {
      var xs := FloatValues(Stream(Words(c.values), false), text);
      forall i | 0 <= i < |xs| / 3
        ensures r.1.vertices[|m.vertices| + i] == VertexValue(Vec3(xs[3 * i], xs[3 * i + 1], xs[3 * i + 2]), [])
      {
        PointsAt(xs, i);
      }
    }
    if c.TriangleList? && r.0 == Success {
      var ns := IndexValues(Stream(Words(c.indices), false));
      forall i | 0 <= i < |ns| / 3
        ensures r.1.faces[|m.faces| + i] == Triple(ns[3 * i], ns[3 * i + 1], ns[3 * i + 2])
      {
        TriplesAt(ns, i);
      }
    }
  }

  // ---------------------------------------------------------------------------
  // The writer.

  /** Each token followed by one space, as the loops of `save_to_collada`
      write the coordinates (`"{} {} {} "` per vertex) and the indices. */
  function Spaced(ws: seq<string>): string
  {
    if ws == [] then [] else ws[0] + " " + Spaced(ws[1..])
  }

  /** The tokens separated by single spaces, with none after the last. */
  function Joined(ws: seq<string>): string
  {
    if ws == [] then [] else if |ws| == 1 then ws[0] else ws[0] + " " + Joined(ws[1..])
  }

  /** The coordinates of the positions, three tokens per vertex. */
  function CoordinateWords(ps: seq<Vec3>, text: FloatText): (ws: seq<string>)
    ensures |ws| == 3 * |ps|
  {
    if ps == [] then [] else [text.show(ps[0].x), text.show(ps[0].y), text.show(ps[0].z)] + CoordinateWords(ps[1..], text)
  }

  /** The indices of the faces, three tokens per face. */
  function IndexWords(ts: seq<Triple>): (ws: seq<string>)
    ensures |ws| == 3 * |ts|
  {
    if ts == [] then [] else [NatToString(ts[0].a), NatToString(ts[0].b), NatToString(ts[0].c)] + IndexWords(ts[1..])
  }

  /** The fixed text of the document, in the pieces between which
      `save_to_collada` writes the counts, the coordinates and the indices. */
  datatype Markup = Markup(
    head: string,            // up to the `count` of the `<float_array>`
    headEnd: string,         // closes the opening `<float_array>` tag
    arrayEnd: string,        // from `</float_array>` to the accessor's `count`
    accessorEnd: string,     // from there to the `count` of the `<triangles>`
    trianglesEnd: string,    // from there to the opening `<p>` tag
    closing: string)         // from `</p>` to the end of the document

  /** The markup `save_to_collada` writes. */
  const ColladaMarkup: Markup := Markup(
    "<?xml version=\"1.0\" encoding=\"UTF-8\"?>\n<COLLADA version=\"1.5.0\">\n<library_geometries>\n<geometry " +
    "id=\"mesh\">\n<mesh>\n<source id=\"mesh-coords\">\n<float_array id=\"mesh-coords-array\" count=\"",
    "\">",
    "<" + "/float_array>\n<technique_common>\n<accessor count=\"",
    "\" offset=\"0\" source=\"#mesh-coords-array\" stride=\"3\">\n<param name=\"X\" type=\"float\"/>\n<param name=\"Y\" " +
    "type=\"float\"/>\n<param name=\"Z\" type=\"float\"/>\n</accessor>\n</technique_common>\n</source>\n<vertices " +
    "id=\"mesh-vertices\">\n<input semantic=\"POSITION\" source=\"#mesh-coords\"/>\n</vertices>\n<triangles count=\"",
    "\">\n<input offset=\"0\" semantic=\"VERTEX\" source=\"#mesh-vertices\"/>\n<p>",
    "<" + "/p>\n</triangles>\n</mesh>\n</geometry>\n</library_geometries>\n</COLLADA>")

  /** The shape of the markup the writer relies on: the text before the
      coordinates and the text before the indices each end a tag, and the
      text after each starts one. */
  predicate Tagged(mk: Markup)
  {
    |mk.headEnd| > 0 && mk.headEnd[|mk.headEnd| - 1] == '>' &&
    |mk.arrayEnd| > 1 && mk.arrayEnd[0] == '<' &&
    |mk.trianglesEnd| > 0 && mk.trianglesEnd[|mk.trianglesEnd| - 1] == '>' &&
    |mk.closing| > 0 && mk.closing[0] == '<'
  }

  lemma ColladaMarkupTagged()
    ensures Tagged(ColladaMarkup)
  {
  }

  /** Everything up to and including the opening `<float_array>` tag, whose
      `count` is three values per vertex. */
  function Opening(mk: Markup, vertexCount: nat): string
  {
    mk.head + NatToString(vertexCount * 3) + mk.headEnd
  }

  /** From the closing `</float_array>` tag to the opening `<p>` tag. */
  function Between(mk: Markup, vertexCount: nat, faceCount: nat): string
  {
    mk.arrayEnd + NatToString(vertexCount) + mk.accessorEnd + NatToString(faceCount) + mk.trianglesEnd
  }

  /** `file.seekp(-1, std::ios_base::end)` followed by writing `tail`: the last
      character written so far is overwritten. */
  function SeekBackAndWrite(s: string, tail: string): (r: string)
    requires |s| > 0
    ensures |r| == |s| - 1 + |tail|
  {
    s[..|s| - 1] + tail
  }

  /** The document `save_to_collada` writes, as the source writes it: each
      `seekp(-1)` removes the last character written, meant to be the space
      after the last token, whether or not any token was written. */
  function RenderAsWritten(mk: Markup, m: MeshValue, text: FloatText): string
    requires Tagged(mk)
  {
    var vs, fs := |m.vertices|, |m.faces|;
    var coords := Opening(mk, vs) + Spaced(CoordinateWords(Positions(m.vertices), text));
    var indices := SeekBackAndWrite(coords, Between(mk, vs, fs)) + Spaced(IndexWords(m.faces));
    SeekBackAndWrite(indices, mk.closing)
  }

  /** The document with the coordinates and the indices each separated by
      single spaces inside their elements, and every tag intact. */
  function Render(mk: Markup, m: MeshValue, text: FloatText): string
  {
    Opening(mk, |m.vertices|) + Joined(CoordinateWords(Positions(m.vertices), text)) +
    Between(mk, |m.vertices|, |m.faces|) + Joined(IndexWords(m.faces)) + mk.closing
  }

  /** `save_to_collada`: the code it returns, and the document it writes (none
      when the save stops before writing). */
  function Save(m: MeshValue, canOverwrite: bool, target: Target, text: FloatText): (r: (Errors.WriteError, string))
    ensures r.0.code == Errors.None <==> SavePreflight(canOverwrite, target).None?
    ensures r.0.code != Errors.None ==> r.1 == [] && r.0.code == SavePreflight(canOverwrite, target).value
    ensures r.0.code == Errors.None && |m.vertices| > 0 && |m.faces| > 0 ==> r.1 == Render(ColladaMarkup, m, text)
  {
    match SavePreflight(canOverwrite, target)
    case Some(code) => (Errors.WriteError(code), [])
    case None =>
      var document := RenderAsWritten(ColladaMarkup, m, text);
      assert |m.vertices| > 0 && |m.faces| > 0 ==> document == Render(ColladaMarkup, m, text) by {
        if |m.vertices| > 0 && |m.faces| > 0 {
          ColladaMarkupTagged();
          AsWrittenWhenNotEmpty(ColladaMarkup, m, text);
        }
      }
      (Errors.WriteError(Errors.None), document)
  }

  /** Dropping the space after the last token leaves the tokens joined. */
  lemma {:induction false} SpacedIsJoinedPlusSpace(ws: seq<string>)
    requires ws != []
    ensures Spaced(ws) == Joined(ws) + " "
    decreases |ws|
  {
    if |ws| > 1 {
      SpacedIsJoinedPlusSpace(ws[1..]);
    } else {
      assert ws[1..] == [];
    }
  }

  /** After at least one token, `seekp(-1)` overwrites the trailing space. */
  lemma SeekBackAfterTokens(a: string, ws: seq<string>, tail: string)
    requires ws != []
    ensures SeekBackAndWrite(a + Spaced(ws), tail) == a + Joined(ws) + tail
  {
    SpacedIsJoinedPlusSpace(ws);
    var s := a + Spaced(ws);
    assert s == (a + Joined(ws)) + " ";
    assert s[..|s| - 1] == a + Joined(ws);
  }

  /** With at least one vertex and one face, each `seekp(-1)` removes exactly
      the trailing space, so the document as written is the intended one. */
  lemma AsWrittenWhenNotEmpty(mk: Markup, m: MeshValue, text: FloatText)
    requires Tagged(mk)
    requires |m.vertices| > 0 && |m.faces| > 0
    ensures RenderAsWritten(mk, m, text) == Render(mk, m, text)
  {
    var vs, fs := |m.vertices|, |m.faces|;
    var cw := CoordinateWords(Positions(m.vertices), text);
    var iw := IndexWords(m.faces);
    SeekBackAfterTokens(Opening(mk, vs), cw, Between(mk, vs, fs));
    SeekBackAfterTokens(Opening(mk, vs) + Joined(cw) + Between(mk, vs, fs), iw, mk.closing);
  }

  /** Without tokens, `seekp(-1)` overwrites the last character of `a`
      instead, here with the first character of what follows. */
  lemma SeekBackWithoutTokens(a: string, b: string, ws: seq<string>, c: string)
    requires |a| > 0 && |b| > 1
    ensures var s := SeekBackAndWrite(SeekBackAndWrite(a + Spaced([]), b) + Spaced(ws), c);
      |s| > |a| - 1 && s[|a| - 1] == b[0]
  {
    assert a + Spaced([]) == a;
    var s1 := SeekBackAndWrite(a, b) + Spaced(ws);
    assert s1[|a| - 1] == b[0];
    assert |s1| > |a|;
  }

  /** Without vertices, the first `seekp(-1)` overwrites the `>` that closes
      the opening `<float_array>` tag: the written document has `<` where the
      intended one has `>`, so it is not the intended document (nor
      well-formed XML). */
  lemma AsWrittenLosesBracket(mk: Markup, m: MeshValue, text: FloatText)
    requires Tagged(mk)
    requires |m.vertices| == 0
    ensures var n := |Opening(mk, 0)|;
      |RenderAsWritten(mk, m, text)| >= n && |Render(mk, m, text)| >= n &&
      Render(mk, m, text)[n - 1] == '>' && RenderAsWritten(mk, m, text)[n - 1] == '<'
    ensures RenderAsWritten(mk, m, text) != Render(mk, m, text)
  {
    var o, b := Opening(mk, 0), Between(mk, 0, |m.faces|);
    assert CoordinateWords(Positions(m.vertices), text) == [];
    SeekBackWithoutTokens(o, b, IndexWords(m.faces), mk.closing);
    var good := Render(mk, m, text);
    assert good == o + (Joined([]) + b + Joined(IndexWords(m.faces)) + mk.closing);
  }

  /** With vertices but no faces, the second `seekp(-1)` overwrites the `>`
      that closes the `<p>` tag with the `<` of `</p>`. */
  lemma AsWrittenLosesParagraphBracket(mk: Markup, m: MeshValue, text: FloatText)
    requires Tagged(mk)
    requires |m.vertices| > 0 && |m.faces| == 0
    ensures var n := |Opening(mk, |m.vertices|)| + |Joined(CoordinateWords(Positions(m.vertices), text))| + |Between(mk, |m.vertices|, 0)|;
      |RenderAsWritten(mk, m, text)| >= n && |Render(mk, m, text)| >= n &&
      Render(mk, m, text)[n - 1] == '>' && RenderAsWritten(mk, m, text)[n - 1] == '<'
    ensures RenderAsWritten(mk, m, text) != Render(mk, m, text)
  {
    var vs := |m.vertices|;
    var cw := CoordinateWords(Positions(m.vertices), text);
    var b := Between(mk, vs, 0);
    var p := Opening(mk, vs) + Joined(cw) + b;
    assert b[|b| - 1] == '>';
    assert p[|p| - 1] == '>';
    SeekBackAfterTokens(Opening(mk, vs), cw, b);
    assert IndexWords(m.faces) == [];
    assert p + Spaced([]) == p;
    var bad := SeekBackAndWrite(p, mk.closing);
    assert bad[|p| - 1] == mk.closing[0];
    var good := Render(mk, m, text);
    assert good == p + Joined([]) + mk.closing;
    assert good[|p| - 1] == p[|p| - 1];
  }

  /** The intended document closes the opening `<float_array>` tag and the
      `<p>` tag with `>` for every mesh, empty or not: the two places where
      the document as written puts a `<` when there are no vertices or no
      faces. */
  lemma RenderKeepsTags(mk: Markup, m: MeshValue, text: FloatText)
    requires Tagged(mk)
    ensures var vs := |m.vertices|;
      var n1 := |Opening(mk, vs)|;
      var n2 := n1 + |Joined(CoordinateWords(Positions(m.vertices), text))| + |Between(mk, vs, |m.faces|)|;
      var r := Render(mk, m, text);
      0 < n1 < n2 <= |r| && r[n1 - 1] == '>' && r[n2 - 1] == '>'
  {
    var vs, fs := |m.vertices|, |m.faces|;
    var o := Opening(mk, vs);
    var j := Joined(CoordinateWords(Positions(m.vertices), text));
    var b := Between(mk, vs, fs);
    var rest := Joined(IndexWords(m.faces)) + mk.closing;
    assert o[|o| - 1] == '>';
    assert b[|b| - 1] == '>';
    var p := o + j + b;
    assert p[|p| - 1] == '>';
    var r := Render(mk, m, text);
    assert r == p + rest;
    assert r[|p| - 1] == p[|p| - 1];
    assert p == o + (j + b);
    assert r == o + ((j + b) + rest);
    assert r[|o| - 1] == o[|o| - 1];
  }

  // ---------------------------------------------------------------------------
  // Reading back what was written.

  /** Every token is non-empty and holds no whitespace. */
  predicate Tokens(ws: seq<string>)
  {
    forall i :: 0 <= i < |ws| ==> |ws[i]| > 0 && NoSpace(ws[i])
  }

  /** The tokens joined by single spaces split back into the tokens. */
  lemma {:induction false} WordsOfJoined(ws: seq<string>)
    requires Tokens(ws)
    ensures Words(Joined(ws)) == ws
    decreases |ws|
  {
    if |ws| == 1 {
      WordsSingle(ws[0]);
    } else if |ws| > 1 {
      assert Tokens(ws[1..]) by {
        forall i | 0 <= i < |ws| - 1
          ensures |ws[1..][i]| > 0 && NoSpace(ws[1..][i])
        {
          assert ws[1..][i] == ws[i + 1];
        }
      }
      WordsOfJoined(ws[1..]);
      WordsCons(ws[0], Joined(ws[1..]));
    }
  }

  lemma TokensCons(a: string, b: string, c: string, ws: seq<string>)
    requires Tokens([a, b, c]) && Tokens(ws)
    ensures Tokens([a, b, c] + ws)
  {
    var r := [a, b, c] + ws;
    forall i | 0 <= i < |r|
      ensures |r[i]| > 0 && NoSpace(r[i])
    {
      if i >= 3 {
        assert r[i] == ws[i - 3];
      }
    }
  }

  /** Every printed coordinate is one token. */
  lemma {:induction false} CoordinateWordsAreTokens(ps: seq<Vec3>, text: FloatText)
    requires RoundTripsOn(text, CoordinateSet(ps))
    ensures Tokens(CoordinateWords(ps, text))
    decreases |ps|
  {
    if ps != [] {
      var p := ps[0];
      assert |text.show(p.x)| > 0 && NoSpace(text.show(p.x));
      assert |text.show(p.y)| > 0 && NoSpace(text.show(p.y));
      assert |text.show(p.z)| > 0 && NoSpace(text.show(p.z));
      RoundTripsOnFewer(text, CoordinateSet(ps[1..]), CoordinateSet(ps));
      CoordinateWordsAreTokens(ps[1..], text);
      TokensCons(text.show(p.x), text.show(p.y), text.show(p.z), CoordinateWords(ps[1..], text));
    }
  }

  lemma DigitsAreToken(n: nat)
    ensures |NatToString(n)| > 0 && NoSpace(NatToString(n))
  {
    var s := NatToString(n);
    forall j | 0 <= j < |s|
      ensures !IsSpace(s[j])
    {
      assert IsDigit(s[j]);
    }
  }

  /** Every printed index is one token. */
  lemma {:induction false} IndexWordsAreTokens(ts: seq<Triple>)
    ensures Tokens(IndexWords(ts))
    decreases |ts|
  {
    if ts != [] {
      var t := ts[0];
      DigitsAreToken(t.a);
      DigitsAreToken(t.b);
      DigitsAreToken(t.c);
      IndexWordsAreTokens(ts[1..]);
      TokensCons(NatToString(t.a), NatToString(t.b), NatToString(t.c), IndexWords(ts[1..]));
    }
  }

  /** A token that reads whole as a float in front of more tokens. */
  lemma FloatValuesCons(a: string, ws: seq<string>, text: FloatText, v: real)
    requires |a| > 0 && text.extract(a) == Read(v, |a|)
    ensures FloatValues(Stream([a] + ws, false), text) == [v] + FloatValues(Stream(ws, false), text)
  {
    ReadFloatOf(a, ws, text, v);
  }

  /** The three printed coordinates of a position read back as those
      coordinates. */
  lemma FloatTriple(p: Vec3, rest: seq<string>, text: FloatText)
    requires RoundTripsOn(text, {p.x, p.y, p.z})
    ensures FloatValues(Stream([text.show(p.x), text.show(p.y), text.show(p.z)] + rest, false), text) ==
      [p.x, p.y, p.z] + FloatValues(Stream(rest, false), text)
  {
    var (a, b, c) := (text.show(p.x), text.show(p.y), text.show(p.z));
    FloatValuesCons(c, rest, text, p.z);
    FloatValuesCons(b, [c] + rest, text, p.y);
    FloatValuesCons(a, [b] + ([c] + rest), text, p.x);
    assert [a, b, c] + rest == [a] + ([b] + ([c] + rest));
  }

  /** The printed coordinates read back as the coordinates, in order. */
  lemma {:induction false} FloatValuesOfCoordinates(ps: seq<Vec3>, text: FloatText)
    requires RoundTripsOn(text, CoordinateSet(ps))
    ensures var xs := FloatValues(Stream(CoordinateWords(ps, text), false), text);
      |xs| == 3 * |ps| && Points(xs) == ps
    decreases |ps|
  {
    if ps == [] {
      assert CoordinateWords(ps, text) == [];
      assert FloatValues(Stream([], false), text) == [];
    } else {
      var p := ps[0];
      var rest := CoordinateWords(ps[1..], text);
      assert CoordinateWords(ps, text) == [text.show(p.x), text.show(p.y), text.show(p.z)] + rest;
      RoundTripsOnFewer(text, {p.x, p.y, p.z}, CoordinateSet(ps));
      RoundTripsOnFewer(text, CoordinateSet(ps[1..]), CoordinateSet(ps));
      FloatTriple(p, rest, text);
      FloatValuesOfCoordinates(ps[1..], text);
      var ys := FloatValues(Stream(rest, false), text);
      PointsCons(p, ys);
      assert [p] + ps[1..] == ps;
    }
  }

  /** A token that reads whole as an index in front of more tokens. */
  lemma IndexValuesCons(a: string, ws: seq<string>, v: nat)
    requires ExtractIndex(a) == (v, |a|, false)
    ensures IndexValues(Stream([a] + ws, false)) == [v] + IndexValues(Stream(ws, false))
  {
    ReadIndexOf(a, ws, v);
  }

  /** Three tokens that read whole as indices in front of more tokens. */
  lemma IndexTokens(a: string, b: string, c: string, rest: seq<string>, x: nat, y: nat, z: nat)
    requires ExtractIndex(a) == (x, |a|, false) && ExtractIndex(b) == (y, |b|, false) && ExtractIndex(c) == (z, |c|, false)
    ensures IndexValues(Stream([a, b, c] + rest, false)) == [x, y, z] + IndexValues(Stream(rest, false))
  {
    var r2 := [c] + rest;
    var r1 := [b] + r2;
    IndexValuesCons(c, rest, z);
    IndexValuesCons(b, r2, y);
    IndexValuesCons(a, r1, x);
    ConsThree(a, b, c, rest);
    ConsThree(x, y, z, IndexValues(Stream(rest, false)));
  }

  lemma ConsThree<T>(x: T, y: T, z: T, rest: seq<T>)
    ensures [x] + ([y] + ([z] + rest)) == [x, y, z] + rest
  {
  }

  /** The three printed indices of the first face read back as its
      indices. */
  lemma IndexTriple(ts: seq<Triple>)
    requires ts != [] && ts[0].Below(Word)
    ensures IndexValues(Stream(IndexWords(ts), false)) == [ts[0].a, ts[0].b, ts[0].c] + IndexValues(Stream(IndexWords(ts[1..]), false))
  {
    var t, rest := ts[0], IndexWords(ts[1..]);
    assert IndexWords(ts) == [NatToString(t.a), NatToString(t.b), NatToString(t.c)] + rest;
    PrintedIndex(t.a);
    PrintedIndex(t.b);
    PrintedIndex(t.c);
    IndexTokens(NatToString(t.a), NatToString(t.b), NatToString(t.c), rest, t.a, t.b, t.c);
  }

  /** The printed indices read back as the indices, in order, when each fits
      in a `std::size_t`. */
  lemma {:induction false} IndexValuesOfIndices(ts: seq<Triple>)
    requires FacesBelow(ts, Word)
    ensures var ns := IndexValues(Stream(IndexWords(ts), false));
      |ns| == 3 * |ts| && TriplesOf(ns) == ts
    decreases |ts|
  {
    if ts == [] {
      assert IndexWords(ts) == [];
      assert IndexValues(Stream([], false)) == [];
    } else {
      var t := ts[0];
      assert t.Below(Word);
      IndexTriple(ts);
      assert FacesBelow(ts[1..], Word) by {
        forall i | 0 <= i < |ts| - 1
          ensures ts[1..][i].Below(Word)
        {
          assert ts[1..][i] == ts[i + 1];
        }
      }
      IndexValuesOfIndices(ts[1..]);
      var ms := IndexValues(Stream(IndexWords(ts[1..]), false));
      TriplesOfCons(t, ms);
      assert [t] + ts[1..] == ts;
    }
  }

  /** The `<float_array>` text `Render` writes, loaded into an empty mesh,
      completes with one isolated vertex per position. */
  lemma CoordinatesReadBack(ps: seq<Vec3>, text: FloatText)
    requires RoundTripsOn(text, CoordinateSet(ps))
    ensures ReadChunk(Empty, FloatArray(Joined(CoordinateWords(ps, text))), text) == (Success, MeshValue(Isolated(ps), []))
  {
    CoordinateWordsAreTokens(ps, text);
    WordsOfJoined(CoordinateWords(ps, text));
    FloatValuesOfCoordinates(ps, text);
    assert [] + Isolated(ps) == Isolated(ps);
  }

  /** The `<p>` text `Render` writes completes as adding the faces it was
      written from, when every vertex has an index that fits a `std::size_t`. */
  lemma IndicesReadBack(m: MeshValue, ts: seq<Triple>, text: FloatText)
    requires FacesBelow(ts, |m.vertices|) && |m.vertices| <= Word
    ensures ReadChunk(m, TriangleList(Joined(IndexWords(ts))), text) == AddFaces(m, ts)
  {
    assert FacesBelow(ts, Word) by {
      forall i | 0 <= i < |ts|
        ensures ts[i].Below(Word)
      {
        assert ts[i].Below(|m.vertices|);
      }
    }
    IndexWordsAreTokens(ts);
    WordsOfJoined(IndexWords(ts));
    IndexValuesOfIndices(ts);
  }

  /** Three tokens separated by single spaces. */
  lemma WordsOfThree(a: string, b: string, c: string)
    requires |a| > 0 && NoSpace(a) && |b| > 0 && NoSpace(b) && |c| > 0 && NoSpace(c)
    ensures Words(a + " " + b + " " + c) == [a, b, c]
  {
    WordsSingle(c);
    WordsCons(b, c);
    WordsCons(a, b + " " + c);
    assert a + " " + (b + " " + c) == a + " " + b + " " + c;
  }

  /** The tokens of "1.5 2 3". */
  lemma WordsOfPointList()
    ensures Words("1.5 2 3") == ["1.5", "2", "3"]
  {
    WordsOfThree("1.5", "2", "3");
    assert "1.5" + " " + "2" + " " + "3" == "1.5 2 3";
  }

  /** The tokens of "0 1 2x". */
  lemma WordsOfLetterList()
    ensures Words("0 1 2x") == ["0", "1", "2x"]
  {
    WordsOfThree("0", "1", "2x");
    assert "0" + " " + "1" + " " + "2x" == "0 1 2x";
  }

  /** Index extraction from a good stream reads the value the next
      extraction gives and goes on from where it left the stream. */
  lemma IndexValuesStep(st: Stream, v: nat, next: Stream)
    requires st.ReadIndex() == (v, next) && !next.failed
    ensures IndexValues(st) == [v] + IndexValues(next)
  {
  }

  /** Index extraction stops at a token that does not start an index. */
  lemma IndexValuesStop(w: string, rest: seq<string>)
    requires ExtractIndex(w).2
    ensures IndexValues(Stream([w] + rest, false)) == []
  {
  }

  /** A token of digits followed by something that does not start an index:
      the digits are read and extraction stops there. */
  lemma IndexValuesOfPrefix(digits: string, tail: string, rest: seq<string>)
    requires |digits| > 0 && AllDigits(digits) && DecimalValue(digits) < Word
    requires |tail| > 0 && !IsDigit(tail[0]) && ExtractIndex(tail).2
    ensures IndexValues(Stream([digits + tail] + rest, false)) == [DecimalValue(digits)]
  {
    ReadIndexOfPrefix(digits, tail, rest);
    IndexValuesStop(tail, rest);
    IndexValuesStep(Stream([digits + tail] + rest, false), DecimalValue(digits), Stream([tail] + rest, false));
  }

  /** Index extraction from "1.5", "2", "3" reads the 1 and then fails at
      ".5". */
  lemma IndexValuesOfPointList()
    ensures IndexValues(Stream(["1.5", "2", "3"], false)) == [1]
  {
    IndexStopsAtPoint();
    assert DecimalValue("1") == 1 by {
      assert DecimalValue("1") == DecimalValue("") * 10 + 1;
    }
    assert "1" + ".5" == "1.5";
    assert ["1" + ".5"] + ["2", "3"] == ["1.5", "2", "3"];
    IndexValuesOfPrefix("1", ".5", ["2", "3"]);
  }

  /** Index extraction from "0", "1", "2x" reads 0, 1 and 2 and then fails
      at "x". */
  lemma IndexValuesOfLetterList()
    ensures IndexValues(Stream(["0", "1", "2x"], false)) == [0, 1, 2]
  {
    assert NatToString(0) == "0" && NatToString(1) == "1";
    assert DecimalValue("2") == 2 by {
      assert DecimalValue("2") == DecimalValue("") * 10 + 2;
    }
    assert ExtractIndex("x").2;
    assert "2" + "x" == "2x";
    assert ["2" + "x"] + [] == ["2x"];
    IndexValuesOfPrefix("2", "x", []);
    PrintedIndex(1);
    IndexValuesCons("1", ["2x"], 1);
    PrintedIndex(0);
    IndexValuesCons("0", ["1"] + ["2x"], 0);
    assert ["0"] + (["1"] + ["2x"]) == ["0", "1", "2x"];
  }

  /** An index list whose first token holds a decimal point: the extraction
      reads the 1 in front of it and the next one fails at ".5", so one value
      is read and the load stops with `invalid_data`. */
  lemma PointInIndexList(m: MeshValue, text: FloatText)
    ensures ReadChunk(m, TriangleList("1.5 2 3"), text) == (InvalidData, m)
  {
    WordsOfPointList();
    IndexValuesOfPointList();
  }

  /** An index list whose last token has a letter after its digits: the
      digits are read, the extraction after them fails at the letter, and the
      three values read make a face. */
  lemma LetterAfterLastIndex(m: MeshValue, text: FloatText)
    requires |m.vertices| >= 3
    ensures ReadChunk(m, TriangleList("0 1 2x"), text) == AddFaces(m, [Triple(0, 1, 2)])
  {
    WordsOfLetterList();
    IndexValuesOfLetterList();
    assert TriplesOf([0, 1, 2]) == [Triple(0, 1, 2)];
  }

  /** Two chunks in a row: the second is read when the first completes. */
  lemma TwoChunks(m: MeshValue, c1: Chunk, c2: Chunk, text: FloatText)
    ensures var r1 := ReadChunk(m, c1, text);
      ReadChunks(m, [c1, c2], text) == if r1.0 != Success then r1 else ReadChunk(r1.1, c2, text)
  {
    var cs := [c1, c2];
    assert cs[0] == c1 && cs[1..] == [c2];
    var r1 := ReadChunk(m, c1, text);
    if r1.0 == Success {
      assert [c2][0] == c2 && [c2][1..] == [];
      var r2 := ReadChunk(r1.1, c2, text);
      assert ReadChunks(r1.1, [c2], text) == if r2.0 != Success then r2 else ReadChunks(r2.1, [], text);
    }
  }

  /** Loading into an empty mesh the element texts `Render` writes (the
      `<float_array>` and the `<p>` contents) completes with the written
      positions and faces, a well-formed mesh, and neighbour lists equal to
      the face adjacency. */
  lemma RenderThenRead(m: MeshValue, text: FloatText)
    requires RoundTripsOn(text, CoordinateSet(Positions(m.vertices)))
    requires FacesBelow(m.faces, |m.vertices|) && |m.vertices| <= Word
    ensures var cs := [FloatArray(Joined(CoordinateWords(Positions(m.vertices), text))), TriangleList(Joined(IndexWords(m.faces)))];
      var r := ReadChunks(Empty, cs, text);
      r.0 == Success && Positions(r.1.vertices) == Positions(m.vertices) && r.1.faces == m.faces &&
      WellFormed(r.1) && FaceAdjacency(r.1)
  {
    var ps := Positions(m.vertices);
    var c1, c2 := FloatArray(Joined(CoordinateWords(ps, text))), TriangleList(Joined(IndexWords(m.faces)));
    var m1 := MeshValue(Isolated(ps), []);
    CoordinatesReadBack(ps, text);
    EmptyIsWellFormed();
    ReadChunkKeeps(Empty, c1, text);
    IndicesReadBack(m1, m.faces, text);
    AddFacesKeepsWellFormed(m1, m.faces);
    AddFacesKeepsFaceAdjacency(m1, m.faces);
    TwoChunks(Empty, c1, c2, text);
    assert m1.faces + m.faces == m.faces;
  }
}
