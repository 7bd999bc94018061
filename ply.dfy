/** The ASCII PLY codec: the header with the two element counts, one line of
    three coordinates per vertex, and one line per face holding the corner
    count 3 and the three indices. */
module Ply {
  import opened Text
  import opened Vertices
  import opened Faces
  import opened Topology
  import opened Files
  import Errors

  /** Where the count starts in an `element vertex` line. */
  const VertexCountOffset: nat := 15
  /** Where the count starts in an `element face` line. */
  const FaceCountOffset: nat := 13

  /** How the header loop ends: with the counts read so far, the index of the
      first body line and whether an `end_header` line was seen; with a count
      that does not parse; or with a count line too short for the fixed
      offset, where the source moves a pointer past the end of the line. */
  datatype Header = Counts(vertices: nat, faces: nat, body: nat, ended: bool) | BadCount | PastEnd

  /** The header loop from line `i`, with the counts `vc` and `fc` read so far.
      A later count line overrides an earlier one; a line that starts with
      neither prefix is skipped. */
  function ScanHeader(lines: seq<string>, i: nat, vc: nat, fc: nat): (h: Header)
    requires i <= |lines|
    ensures h.Counts? ==> i <= h.body <= |lines|
    ensures h.Counts? && !h.ended ==> h.body == |lines|
    ensures h.Counts? && h.ended ==> i < h.body && StartsWith(lines[h.body - 1], "end_header")
    ensures vc < Word && fc < Word && h.Counts? ==> h.vertices < Word && h.faces < Word
    decreases |lines| - i
  {
    if i == |lines| then Counts(vc, fc, i, false)
    else
      var line := lines[i];
      if StartsWith(line, "end_header") then Counts(vc, fc, i + 1, true)
      else if StartsWith(line, "element vertex") then
        if |line| < VertexCountOffset then PastEnd
        else match FromChars(line, VertexCountOffset)
          case None => BadCount
          case Some(n) => ScanHeader(lines, i + 1, n, fc)
      else if StartsWith(line, "element face") then
        if |line| < FaceCountOffset then PastEnd
        else match FromChars(line, FaceCountOffset)
          case None => BadCount
          case Some(n) => ScanHeader(lines, i + 1, vc, n)
      else ScanHeader(lines, i + 1, vc, fc)
  }

  /** The vertex loop: `k` positions, each from three float extractions
      (zero once the stream has failed). */
  function ReadPoints(st: Stream, k: nat, text: FloatText): (r: (seq<Vec3>, Stream))
    ensures |r.0| == k
    decreases k
  {
    if k == 0 then ([], st)
    else
      var (x, s1) := st.ReadFloat(text);
      var (y, s2) := s1.ReadFloat(text);
      var (z, s3) := s2.ReadFloat(text);
      var (ps, s4) := ReadPoints(s3, k - 1, text);
      ([Vec3(x, y, z)] + ps, s4)
  }

  /** The first position of a nonempty run is the next three extractions. */
  lemma ReadPointsFirst(st: Stream, k: nat, text: FloatText)
    requires k > 0
    ensures var (x, s1) := st.ReadFloat(text);
      var (y, s2) := s1.ReadFloat(text);
      var (z, s3) := s2.ReadFloat(text);
      ReadPoints(st, k, text) == ([Vec3(x, y, z)] + ReadPoints(s3, k - 1, text).0, ReadPoints(s3, k - 1, text).1)
  {
  }

  /** Taking the first position of a run off the run and onto what was read
      before it. */
  lemma ReadPointsShift(ps: seq<Vec3>, st: Stream, k: nat, text: FloatText)
    requires k > 0
    ensures var (x, s1) := st.ReadFloat(text);
      var (y, s2) := s1.ReadFloat(text);
      var (z, s3) := s2.ReadFloat(text);
      (ps + ReadPoints(st, k, text).0, ReadPoints(st, k, text).1) ==
        ((ps + [Vec3(x, y, z)]) + ReadPoints(s3, k - 1, text).0, ReadPoints(s3, k - 1, text).1)
  {
    var (x, s1) := st.ReadFloat(text);
    var (y, s2) := s1.ReadFloat(text);
    var (z, s3) := s2.ReadFloat(text);
    ReadPointsFirst(st, k, text);
    assert ps + ([Vec3(x, y, z)] + ReadPoints(s3, k - 1, text).0) == (ps + [Vec3(x, y, z)]) + ReadPoints(s3, k - 1, text).0;
  }

  /** One face line's extractions: the corner count, thrown away, then the
      three indices. */
  function ReadTriple(st: Stream): (r: (Triple, Stream))
  {
    var (_, s0) := st.ReadIndex();
    var (a, s1) := s0.ReadIndex();
    var (b, s2) := s1.ReadIndex();
    var (c, s3) := s2.ReadIndex();
    (Triple(a, b, c), s3)
  }

  /** The extractions of the face loop: `k` face lines. */
  function ReadTriples(st: Stream, k: nat): (r: (seq<Triple>, Stream))
    ensures |r.0| == k
    decreases k
  {
    if k == 0 then ([], st)
    else
      var (t, s1) := ReadTriple(st);
      var (ts, s2) := ReadTriples(s1, k - 1);
      ([t] + ts, s2)
  }

  /** `k + 1` face lines are `k` face lines, then one more. */
  lemma {:induction false} ReadTriplesSnoc(st: Stream, k: nat)
    ensures var r := ReadTriples(st, k); var next := ReadTriple(r.1);
      ReadTriples(st, k + 1) == (r.0 + [next.0], next.1)
    decreases k
  {
    var (t0, s1) := ReadTriple(st);
    if k > 0 {
      ReadTriplesSnoc(s1, k - 1);
      var r := ReadTriples(s1, k - 1);
      var next := ReadTriple(r.1);
      assert ReadTriples(s1, k) == (r.0 + [next.0], next.1);
      assert ReadTriples(st, k) == ([t0] + r.0, r.1);
      assert ReadTriples(st, k + 1) == ([t0] + ReadTriples(s1, k).0, ReadTriples(s1, k).1);
      assert [t0] + (r.0 + [next.0]) == ([t0] + r.0) + [next.0];
    } else {
      assert ReadTriples(st, 1) == ([t0] + ReadTriples(s1, 0).0, s1);
      assert [t0] + [] == [] + [t0];
    }
  }

  /** The first `k` of `n` face lines are read as `k` face lines. */
  lemma {:induction false} ReadTriplesPrefix(st: Stream, k: nat, n: nat)
    requires k <= n
    ensures ReadTriples(st, n).0[..k] == ReadTriples(st, k).0
    decreases k
  {
    if k > 0 {
      var next := ReadTriple(st);
      ReadTriplesStep(st, n - 1);
      ReadTriplesStep(st, k - 1);
      ReadTriplesPrefix(next.1, k - 1, n - 1);
      ConsPrefix(next.0, ReadTriples(next.1, n - 1).0, k);
    }
  }

  lemma ConsPrefix<T>(t: T, rest: seq<T>, k: nat)
    requires 0 < k <= |rest| + 1
    ensures ([t] + rest)[..k] == [t] + rest[..k - 1]
  {
  }

  /** `load_from_ply`: open, read the header, then run the vertex loop and the
      face loop. The body is read as one token stream, which has already
      failed when the lines ran out before `end_header`. */
  function Parse(m: MeshValue, input: Input, text: FloatText): (r: (Load, MeshValue))
    ensures r.0.Finished? && r.0.error.code != Errors.None ==> r.1 == m
    ensures r.0.Finished? ==> r.0.error.code in {Errors.None, Errors.FileNotFound, Errors.UnknownIoError, Errors.InvalidData}
    ensures input.Unreadable? ==> r.0 == Finished(Errors.ParseError(OpenFailure(input.present)))
  {
    match input
    case Unreadable(present) => (Finished(Errors.ParseError(OpenFailure(present))), m)
    case Readable(lines) =>
      match ScanHeader(lines, 0, 0, 0)
      case PastEnd => (Undefined, m)
      case BadCount => (Finished(Errors.ParseError(Errors.InvalidData)), m)
      case Counts(vc, fc, body, ended) =>
        var (ps, st) := ReadPoints(Stream(LineTokens(lines[body..]), !ended), vc, text);
        AddFaces(MeshValue(m.vertices + Isolated(ps), m.faces), ReadTriples(st, fc).0)
  }

  /** A completed load appends exactly the counted vertices and faces, keeps
      what was there and moves no vertex that was there. */
  lemma ParseCounts(m: MeshValue, lines: seq<string>, text: FloatText)
    requires ScanHeader(lines, 0, 0, 0).Counts?
    ensures var h := ScanHeader(lines, 0, 0, 0);
      var r := Parse(m, Readable(lines), text);
      (r.0 == Success || r.0 == Undefined) &&
      (r.0 == Success ==>
        |r.1.vertices| == |m.vertices| + h.vertices && |r.1.faces| == |m.faces| + h.faces &&
        r.1.faces[..|m.faces|] == m.faces &&
        Positions(r.1.vertices)[..|m.vertices|] == Positions(m.vertices))
  {
    var h := ScanHeader(lines, 0, 0, 0);
    var (ps, st) := ReadPoints(Stream(LineTokens(lines[h.body..]), !h.ended), h.vertices, text);
    var vs := m.vertices + Isolated(ps);
    var ts := ReadTriples(st, h.faces).0;
    if FacesBelow(ts, |vs|) {
      LinkAllPositions(vs, ts);
      assert Positions(vs)[..|m.vertices|] == Positions(m.vertices);
      assert (m.faces + ts)[..|m.faces|] == m.faces;
    }
  }

  /** A completed load keeps the mesh well formed, and keeps the neighbour
      lists equal to the face adjacency. */
  lemma ParseKeepsWellFormed(m: MeshValue, input: Input, text: FloatText)
    requires WellFormed(m)
    ensures var r := Parse(m, input, text);
      r.0 == Success ==> WellFormed(r.1) && (FaceAdjacency(m) ==> FaceAdjacency(r.1))
  {
    if input.Readable? && ScanHeader(input.lines, 0, 0, 0).Counts? {
      var h := ScanHeader(input.lines, 0, 0, 0);
      var (ps, st) := ReadPoints(Stream(LineTokens(input.lines[h.body..]), !h.ended), h.vertices, text);
      var m' := MeshValue(m.vertices + Isolated(ps), m.faces);
      AppendIsolatedKeeps(m, ps);
      AddFacesKeepsWellFormed(m', ReadTriples(st, h.faces).0);
      if FaceAdjacency(m) {
        AddFacesKeepsFaceAdjacency(m', ReadTriples(st, h.faces).0);
      }
    }
  }

  // ---------------------------------------------------------------------------
  // The writer.

  /** The header `save_to_ply` writes, line by line. */
  function HeaderLines(vertexCount: nat, faceCount: nat): (h: seq<string>)
    ensures |h| == 9
  {
    ["ply", "format ascii 1.0", "element vertex " + NatToString(vertexCount),
     "property float x", "property float y", "property float z",
     "element face " + NatToString(faceCount), "property list uchar int vertex_indices", "end_header"]
  }

  /** `"{} {} {}"` of a vertex's coordinates. */
  function VertexLine(p: Vec3, text: FloatText): string
  {
    text.show(p.x) + " " + text.show(p.y) + " " + text.show(p.z)
  }

  /** `"3 {} {} {}"` of a face's indices. */
  function FaceLine(t: Triple): string
  {
    "3 " + NatToString(t.a) + " " + NatToString(t.b) + " " + NatToString(t.c)
  }

  function VertexLines(ps: seq<Vec3>, text: FloatText): (ls: seq<string>)
    ensures |ls| == |ps|
  {
    seq(|ps|, i requires 0 <= i < |ps| => VertexLine(ps[i], text))
  }

  function FaceLines(ts: seq<Triple>): (ls: seq<string>)
    ensures |ls| == |ts|
  {
    seq(|ts|, i requires 0 <= i < |ts| => FaceLine(ts[i]))
  }

  /** The lines `save_to_ply` writes, each followed by a newline in the file:
      the header, one line per vertex, one line per face. */
  function Render(m: MeshValue, text: FloatText): (lines: seq<string>)
    ensures |lines| == 9 + |m.vertices| + |m.faces|
  {
    HeaderLines(|m.vertices|, |m.faces|) + VertexLines(Positions(m.vertices), text) + FaceLines(m.faces)
  }

  /** `save_to_ply`: the code it returns, and the lines it writes (none when
      the save stops before writing). */
  function Save(m: MeshValue, canOverwrite: bool, target: Target, text: FloatText): (r: (Errors.WriteError, seq<string>))
    ensures r.0.code == Errors.None <==> SavePreflight(canOverwrite, target).None?
    ensures r.0.code != Errors.None ==> r.1 == [] && r.0.code == SavePreflight(canOverwrite, target).value
    ensures r.0.code == Errors.None ==> r.1 == Render(m, text)
  {
    match SavePreflight(canOverwrite, target)
    case Some(code) => (Errors.WriteError(code), [])
    case None => (Errors.WriteError(Errors.None), Render(m, text))
  }

  // ---------------------------------------------------------------------------
  // Reading back what was written.

  lemma DigitsHaveNoSpace(s: string)
    requires AllDigits(s)
    ensures NoSpace(s)
  {
  }

  lemma {:induction false} WordsOfVertexLine(p: Vec3, text: FloatText)
    requires RoundTripsOn(text, {p.x, p.y, p.z})
    ensures Words(VertexLine(p, text)) == [text.show(p.x), text.show(p.y), text.show(p.z)]
  {
    var x, y, z := text.show(p.x), text.show(p.y), text.show(p.z);
    assert VertexLine(p, text) == x + " " + (y + " " + z);
    WordsCons(x, y + " " + z);
    WordsCons(y, z);
    WordsSingle(z);
  }

  lemma {:induction false} WordsOfFaceLine(t: Triple)
    ensures Words(FaceLine(t)) == ["3", NatToString(t.a), NatToString(t.b), NatToString(t.c)]
  {
    var a, b, c := NatToString(t.a), NatToString(t.b), NatToString(t.c);
    DigitsHaveNoSpace(a);
    DigitsHaveNoSpace(b);
    DigitsHaveNoSpace(c);
    assert FaceLine(t) == "3" + " " + (a + " " + (b + " " + c));
    WordsCons("3", a + " " + (b + " " + c));
    WordsCons(a, b + " " + c);
    WordsCons(b, c);
    WordsSingle(c);
  }

  /** The vertex loop is one vertex line's extractions, then the rest of the
      loop. */
  lemma ReadPointsStep(st: Stream, k: nat, text: FloatText)
    ensures var r1 := st.ReadFloat(text);
      var r2 := r1.1.ReadFloat(text);
      var r3 := r2.1.ReadFloat(text);
      var rest := ReadPoints(r3.1, k, text);
      ReadPoints(st, k + 1, text) == ([Vec3(r1.0, r2.0, r3.0)] + rest.0, rest.1)
  {
  }

  /** The tokens of written vertex lines: the first line's three, then the
      rest. */
  lemma VertexLinesTokens(ps: seq<Vec3>, more: seq<string>, text: FloatText)
    requires ps != [] && RoundTripsOn(text, {ps[0].x, ps[0].y, ps[0].z})
    ensures LineTokens(VertexLines(ps, text)) + more ==
      [text.show(ps[0].x), text.show(ps[0].y), text.show(ps[0].z)] + (LineTokens(VertexLines(ps[1..], text)) + more)
  {
    var lines := VertexLines(ps, text);
    assert lines[1..] == VertexLines(ps[1..], text);
    assert lines[0] == VertexLine(ps[0], text);
    WordsOfVertexLine(ps[0], text);
  }

  /** Three float extractions read back three written coordinates. */
  lemma ReadShownPoint(p: Vec3, rest: seq<string>, text: FloatText)
    requires RoundTripsOn(text, {p.x, p.y, p.z})
    ensures var r1 := Stream([text.show(p.x), text.show(p.y), text.show(p.z)] + rest, false).ReadFloat(text);
      var r2 := r1.1.ReadFloat(text);
      var r3 := r2.1.ReadFloat(text);
      Vec3(r1.0, r2.0, r3.0) == p && r3.1 == Stream(rest, false)
  {
    var x, y, z := text.show(p.x), text.show(p.y), text.show(p.z);
    assert [x, y, z] + rest == [x] + ([y] + ([z] + rest));
    ReadFloatOf(x, [y] + ([z] + rest), text, p.x);
    ReadFloatOf(y, [z] + rest, text, p.y);
    ReadFloatOf(z, rest, text, p.z);
  }

  /** The vertex loop reads back the written vertex lines. */
  lemma {:induction false} ReadPointsOfVertexLines(ps: seq<Vec3>, more: seq<string>, text: FloatText)
    requires RoundTripsOn(text, CoordinateSet(ps))
    ensures ReadPoints(Stream(LineTokens(VertexLines(ps, text)) + more, false), |ps|, text) == (ps, Stream(more, false))
    decreases |ps|
  {
    if ps != [] {
      var rest := LineTokens(VertexLines(ps[1..], text)) + more;
      RoundTripsOnFewer(text, {ps[0].x, ps[0].y, ps[0].z}, CoordinateSet(ps));
      RoundTripsOnFewer(text, CoordinateSet(ps[1..]), CoordinateSet(ps));
      VertexLinesTokens(ps, more, text);
      ReadShownPoint(ps[0], rest, text);
      ReadPointsOfVertexLines(ps[1..], more, text);
      ReadPointsStep(Stream(LineTokens(VertexLines(ps, text)) + more, false), |ps[1..]|, text);
      assert [ps[0]] + ps[1..] == ps;
    } else {
      assert LineTokens(VertexLines(ps, text)) + more == more;
    }
  }

  /** The tokens of written face lines: the first line's four, then the
      rest. */
  lemma FaceLinesTokens(ts: seq<Triple>, more: seq<string>)
    requires ts != []
    ensures LineTokens(FaceLines(ts)) + more ==
      ["3", NatToString(ts[0].a), NatToString(ts[0].b), NatToString(ts[0].c)] + (LineTokens(FaceLines(ts[1..])) + more)
  {
    var lines := FaceLines(ts);
    assert lines[1..] == FaceLines(ts[1..]);
    assert lines[0] == FaceLine(ts[0]);
    WordsOfFaceLine(ts[0]);
  }

  /** Four index extractions read back a written face line's tokens. */
  lemma ReadShownTriple(t: Triple, rest: seq<string>)
    requires t.a < Word && t.b < Word && t.c < Word
    ensures ReadTriple(Stream(["3", NatToString(t.a), NatToString(t.b), NatToString(t.c)] + rest, false)) == (t, Stream(rest, false))
  {
    var a, b, c := NatToString(t.a), NatToString(t.b), NatToString(t.c);
    assert "3" == NatToString(3);
    PrintedIndex(3);
    PrintedIndex(t.a);
    PrintedIndex(t.b);
    PrintedIndex(t.c);
    ConsFour("3", a, b, c, rest);
    ReadIndexOf("3", [a] + ([b] + ([c] + rest)), 3);
    ReadIndexOf(a, [b] + ([c] + rest), t.a);
    ReadIndexOf(b, [c] + rest, t.b);
    ReadIndexOf(c, rest, t.c);
  }

  /** Four leading elements, one at a time. */
  lemma ConsFour<T>(w: T, x: T, y: T, z: T, rest: seq<T>)
    ensures [w, x, y, z] + rest == [w] + ([x] + ([y] + ([z] + rest)))
  {
  }

  /** The face loop is one face line's extractions, then the rest of the
      loop. */
  lemma ReadTriplesStep(st: Stream, k: nat)
    ensures var next := ReadTriple(st); var rest := ReadTriples(next.1, k);
      ReadTriples(st, k + 1) == ([next.0] + rest.0, rest.1)
  {
  }

  /** A face line read as `t`, then `k` more read as `ts`, is `k + 1` face
      lines read as `t` followed by `ts`. */
  lemma ReadTriplesCons(st: Stream, t: Triple, next: Stream, ts: seq<Triple>, last: Stream)
    requires ReadTriple(st) == (t, next) && ReadTriples(next, |ts|) == (ts, last)
    ensures ReadTriples(st, |ts| + 1) == ([t] + ts, last)
  {
    ReadTriplesStep(st, |ts|);
  }

  /** The face loop reads back the written face lines. */
  lemma {:induction false} ReadTriplesOfFaceLines(ts: seq<Triple>, more: seq<string>)
    requires forall i :: 0 <= i < |ts| ==> ts[i].a < Word && ts[i].b < Word && ts[i].c < Word
    ensures ReadTriples(Stream(LineTokens(FaceLines(ts)) + more, false), |ts|) == (ts, Stream(more, false))
    decreases |ts|
  {
    if ts != [] {
      var rest := LineTokens(FaceLines(ts[1..])) + more;
      var st := Stream(LineTokens(FaceLines(ts)) + more, false);
      FaceLinesTokens(ts, more);
      ReadShownTriple(ts[0], rest);
      ReadTriplesOfFaceLines(ts[1..], more);
      ReadTriplesCons(st, ts[0], Stream(rest, false), ts[1..], Stream(more, false));
      assert [ts[0]] + ts[1..] == ts;
    } else {
      assert LineTokens(FaceLines(ts)) + more == more;
    }
  }

  /** A line that starts with none of `end_header`, `element vertex` and
      `element face` is skipped by the header loop, whatever else it holds. */
  lemma SkipLine(lines: seq<string>, i: nat, vc: nat, fc: nat)
    requires i < |lines| && !StartsWith(lines[i], "end_header")
    requires !StartsWith(lines[i], "element vertex") && !StartsWith(lines[i], "element face")
    ensures ScanHeader(lines, i, vc, fc) == ScanHeader(lines, i + 1, vc, fc)
  {
  }

  /** In particular, a line that does not start with `e` is skipped. */
  lemma SkipPlainLine(lines: seq<string>, i: nat, vc: nat, fc: nat)
    requires i < |lines| && |lines[i]| > 0 && lines[i][0] != 'e'
    ensures ScanHeader(lines, i, vc, fc) == ScanHeader(lines, i + 1, vc, fc)
  {
    DiffersAt(lines[i], "end_header", 0);
    DiffersAt(lines[i], "element vertex", 0);
    DiffersAt(lines[i], "element face", 0);
    SkipLine(lines, i, vc, fc);
  }

  /** An empty line, a line cut short inside a prefix and an element the
      loader does not know are all skipped: a header made only of them keeps
      the counts and never ends. */
  lemma UnknownLinesSkipped(vc: nat, fc: nat)
    ensures ScanHeader(["", "element edge 5", "end"], 0, vc, fc) == Counts(vc, fc, 3, false)
  {
    var lines := ["", "element edge 5", "end"];
    DiffersAt(lines[1], "end_header", 1);
    DiffersAt(lines[1], "element vertex", 8);
    DiffersAt(lines[1], "element face", 8);
    SkipLine(lines, 0, vc, fc);
    SkipLine(lines, 1, vc, fc);
    SkipLine(lines, 2, vc, fc);
  }

  /** A written `element vertex` line sets the vertex count. */
  lemma VertexCountLine(lines: seq<string>, i: nat, n: nat, vc: nat, fc: nat)
    requires i < |lines| && lines[i] == "element vertex " + NatToString(n) && n < Word
    ensures ScanHeader(lines, i, vc, fc) == ScanHeader(lines, i + 1, n, fc)
  {
    var line := lines[i];
    DiffersAt(line, "end_header", 1);
    assert line[..14] == "element vertex";
    FromCharsOfNatToString("element vertex ", n, []);
    assert line == "element vertex " + NatToString(n) + [];
  }

  /** A written `element face` line sets the face count. */
  lemma FaceCountLine(lines: seq<string>, i: nat, n: nat, vc: nat, fc: nat)
    requires i < |lines| && lines[i] == "element face " + NatToString(n) && n < Word
    ensures ScanHeader(lines, i, vc, fc) == ScanHeader(lines, i + 1, vc, n)
  {
    var line := lines[i];
    DiffersAt(line, "end_header", 1);
    DiffersAt(line, "element vertex", 8);
    assert line[..12] == "element face";
    FromCharsOfNatToString("element face ", n, []);
    assert line == "element face " + NatToString(n) + [];
  }

  /** The header loop reads back the written counts and stops after
      `end_header`. */
  lemma ScanHeaderLines(lines: seq<string>, nv: nat, nf: nat, body: seq<string>)
    requires lines == HeaderLines(nv, nf) + body
    requires nv < Word && nf < Word
    ensures ScanHeader(lines, 0, 0, 0) == Counts(nv, nf, 9, true)
  {
    ScanVertexCount(lines, nv, nf, body);
    ScanFaceCount(lines, nv, nf, body);
    ScanHeaderEnd(lines, nv, nf, body);
  }

  /** The first three header lines: two skipped, then the vertex count. */
  lemma ScanVertexCount(lines: seq<string>, nv: nat, nf: nat, body: seq<string>)
    requires lines == HeaderLines(nv, nf) + body
    requires nv < Word
    ensures ScanHeader(lines, 0, 0, 0) == ScanHeader(lines, 3, nv, 0)
  {
    assert lines[0] == "ply" && lines[1] == "format ascii 1.0";
    assert lines[2] == "element vertex " + NatToString(nv);
    SkipPlainLine(lines, 0, 0, 0);
    SkipPlainLine(lines, 1, 0, 0);
    VertexCountLine(lines, 2, nv, 0, 0);
  }

  /** The next four: the three vertex properties skipped, then the face count. */
  lemma ScanFaceCount(lines: seq<string>, nv: nat, nf: nat, body: seq<string>)
    requires lines == HeaderLines(nv, nf) + body
    requires nf < Word
    ensures ScanHeader(lines, 3, nv, 0) == ScanHeader(lines, 7, nv, nf)
  {
    assert lines[3] == "property float x" && lines[4] == "property float y" && lines[5] == "property float z";
    assert lines[6] == "element face " + NatToString(nf);
    SkipPlainLine(lines, 3, nv, 0);
    SkipPlainLine(lines, 4, nv, 0);
    SkipPlainLine(lines, 5, nv, 0);
    FaceCountLine(lines, 6, nf, nv, 0);
  }

  /** The last two: the face property skipped, then `end_header`. */
  lemma ScanHeaderEnd(lines: seq<string>, nv: nat, nf: nat, body: seq<string>)
    requires lines == HeaderLines(nv, nf) + body
    ensures ScanHeader(lines, 7, nv, nf) == Counts(nv, nf, 9, true)
  {
    assert lines[7] == "property list uchar int vertex_indices" && lines[8] == "end_header";
    SkipPlainLine(lines, 7, nv, nf);
    assert StartsWith(lines[8], "end_header");
  }

  /** After a complete header, a load reads the points and then the faces from
      the tokens of the remaining lines. */
  lemma ParseAfterHeader(m: MeshValue, lines: seq<string>, text: FloatText, nv: nat, nf: nat)
    requires ScanHeader(lines, 0, 0, 0) == Counts(nv, nf, 9, true)
    ensures var (ps, st) := ReadPoints(Stream(LineTokens(lines[9..]), false), nv, text);
      Parse(m, Readable(lines), text) == AddFaces(MeshValue(m.vertices + Isolated(ps), m.faces), ReadTriples(st, nf).0)
  {
  }

  /** The tokens of written vertex and face lines read back as the positions
      and the faces. */
  lemma {:induction false} ReadBody(ps: seq<Vec3>, ts: seq<Triple>, text: FloatText)
    requires RoundTripsOn(text, CoordinateSet(ps))
    requires forall i :: 0 <= i < |ts| ==> ts[i].a < Word && ts[i].b < Word && ts[i].c < Word
    ensures var (qs, st) := ReadPoints(Stream(LineTokens(VertexLines(ps, text) + FaceLines(ts)), false), |ps|, text);
      qs == ps && ReadTriples(st, |ts|).0 == ts
  {
    LineTokensAppend(VertexLines(ps, text), FaceLines(ts));
    var faceTokens := LineTokens(FaceLines(ts));
    assert faceTokens + [] == faceTokens;
    ReadPointsOfVertexLines(ps, faceTokens, text);
    ReadTriplesOfFaceLines(ts, []);
  }

  /** Loading what `save_to_ply` wrote into an empty mesh is registering the
      written faces on the written positions. */
  lemma RenderReadsBack(m: MeshValue, text: FloatText)
    requires RoundTripsOn(text, CoordinateSet(Positions(m.vertices)))
    requires FacesBelow(m.faces, |m.vertices|) && |m.vertices| < Word && |m.faces| < Word
    ensures Parse(Empty, Readable(Render(m, text)), text) == AddFaces(MeshValue(Isolated(Positions(m.vertices)), []), m.faces)
  {
    var lines := Render(m, text);
    var ps := Positions(m.vertices);
    var body := VertexLines(ps, text) + FaceLines(m.faces);
    assert lines == HeaderLines(|m.vertices|, |m.faces|) + body;
    ScanHeaderLines(lines, |m.vertices|, |m.faces|, body);
    ParseAfterHeader(Empty, lines, text, |m.vertices|, |m.faces|);
    assert lines[9..] == body;
    ReadBody(ps, m.faces, text);
    assert Empty.vertices + Isolated(ps) == Isolated(ps);
  }

  /** Loading what `save_to_ply` wrote into an empty mesh completes and gives
      back the faces, the positions, and the neighbour lists the faces induce;
      a mesh whose neighbour lists are those comes back unchanged. */
  lemma RenderThenParse(m: MeshValue, text: FloatText)
    requires RoundTripsOn(text, CoordinateSet(Positions(m.vertices)))
    requires FacesBelow(m.faces, |m.vertices|) && |m.vertices| < Word && |m.faces| < Word
    ensures var r := Parse(Empty, Readable(Render(m, text)), text);
      r.0 == Success && r.1.faces == m.faces && Positions(r.1.vertices) == Positions(m.vertices) &&
      r.1.vertices == LinkAll(Isolated(Positions(m.vertices)), m.faces)
    ensures var r := Parse(Empty, Readable(Render(m, text)), text);
      m.vertices == LinkAll(Isolated(Positions(m.vertices)), m.faces) ==> r.1 == m
  {
    var ps := Positions(m.vertices);
    RenderReadsBack(m, text);
    assert [] + m.faces == m.faces;
    LinkAllPositions(Isolated(ps), m.faces);
  }
}
