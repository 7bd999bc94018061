/** Choosing a codec from the file name: `read`, `write` and the constructor
    that loads a file. The path is the generic form, with `/` as separator. */
module Dispatch {
  import opened Text
  import opened Topology
  import opened Files
  import Errors
  import Ply
  import Stl
  import Collada

  /** The number of characters up to and including the last `c` in `s`; zero
      when there is none. */
  function UpToLast(s: string, c: char): (k: nat)
    ensures k <= |s|
    ensures k > 0 ==> s[k - 1] == c
    decreases |s|
  {
    if s == [] then 0
    else if s[|s| - 1] == c then |s|
    else UpToLast(s[..|s| - 1], c)
  }

  /** No `c` follows the last one. */
  lemma {:induction false} NoneAfterLast(s: string, c: char)
    ensures forall i :: UpToLast(s, c) <= i < |s| ==> s[i] != c
    decreases |s|
  {
    if s != [] && s[|s| - 1] != c {
      NoneAfterLast(s[..|s| - 1], c);
    }
  }

  /** Text without `c` after `s` leaves the last `c` where it was. */
  lemma {:induction false} UpToLastAppend(s: string, t: string, c: char)
    requires forall i :: 0 <= i < |t| ==> t[i] != c
    ensures UpToLast(s + t, c) == UpToLast(s, c)
    decreases |t|
  {
    if t != [] {
      var u := s + t;
      assert u[..|u| - 1] == s + t[..|t| - 1];
      UpToLastAppend(s, t[..|t| - 1], c);
    } else {
      assert s + t == s;
    }
  }

  /** `path.filename()`: what follows the last separator. */
  function Filename(path: string): (f: string)
    ensures |f| <= |path| && f == path[|path| - |f|..]
  {
    path[UpToLast(path, '/')..]
  }

  /** `path.extension()`: from the last period of the file name on, unless the
      file name is `.` or `..`, or its only period is its first character (a
      hidden file such as `.ply` has no extension). */
  function Extension(path: string): (e: string)
    ensures e != [] ==> e[0] == '.'
  {
    var f := Filename(path);
    var k := UpToLast(f, '.');
    if f == "." || f == ".." || k <= 1 then [] else f[k - 1..]
  }

  /** `path.stem()`: the file name without its extension. */
  function Stem(path: string): (s: string)
  {
    var f := Filename(path);
    var e := Extension(path);
    if |e| <= |f| then f[..|f| - |e|] else f
  }

  /** The extension is the end of the file name, and the stem the rest. */
  lemma StemThenExtension(path: string)
    ensures var f, e := Filename(path), Extension(path);
      |e| <= |f| && Stem(path) + e == f
  {
    var f := Filename(path);
    var e := Extension(path);
    if e != [] {
      assert f[..|f| - |e|] + f[|f| - |e|..] == f;
    }
  }

  /** Below a directory that is empty or ends with a separator, a name
      without separators is the file name. */
  lemma FilenameBelow(dir: string, name: string)
    requires dir == [] || dir[|dir| - 1] == '/'
    requires forall i :: 0 <= i < |name| ==> name[i] != '/'
    ensures Filename(dir + name) == name
  {
    UpToLastAppend(dir, name, '/');
    assert UpToLast(dir, '/') == |dir| by {
      if dir != [] {
        assert dir[|dir| - 1] == '/';
      }
    }
  }

  /** A suffix that starts with its only period puts the last period of the
      name just after the stem. */
  lemma LastPeriod(stem: string, suffix: string)
    requires suffix != [] && suffix[0] == '.'
    requires forall i :: 1 <= i < |suffix| ==> suffix[i] != '.'
    ensures UpToLast(stem + suffix, '.') == |stem| + 1
  {
    var dotted, tail := stem + ".", suffix[1..];
    forall i | 0 <= i < |tail|
      ensures tail[i] != '.'
    {
      assert tail[i] == suffix[i + 1];
    }
    UpToLastAppend(dotted, tail, '.');
    assert UpToLast(dotted, '.') == |dotted| by {
      assert dotted[|dotted| - 1] == '.';
    }
    SplitAtFirst(stem, suffix);
  }

  /** Moving the first character of `t` to the end of `s`. */
  lemma SplitAtFirst(s: string, t: string)
    requires t != []
    ensures s + t == (s + [t[0]]) + t[1..]
  {
    assert t == [t[0]] + t[1..];
  }

  /** A file name other than `..` with a period after its first character
      has an extension: from its last period on; the stem is what precedes
      it. */
  lemma PeriodAfterFirst(path: string)
    requires UpToLast(Filename(path), '.') >= 2 && Filename(path) != ".."
    ensures var f, k := Filename(path), UpToLast(Filename(path), '.');
      Extension(path) == f[k - 1..] && Stem(path) == f[..k - 1]
  {
  }

  /** A path made of a directory (empty, or ending with a separator), a stem
      without separators and a suffix that starts with its only period, has
      that suffix as its extension and that stem as its stem. */
  lemma ExtensionOfName(dir: string, stem: string, suffix: string)
    requires dir == [] || dir[|dir| - 1] == '/'
    requires stem != [] && forall i :: 0 <= i < |stem| ==> stem[i] != '/'
    requires |suffix| >= 2 && suffix[0] == '.'
    requires forall i :: 1 <= i < |suffix| ==> suffix[i] != '.' && suffix[i] != '/'
    ensures Extension(dir + stem + suffix) == suffix
    ensures Stem(dir + stem + suffix) == stem
  {
    var name := stem + suffix;
    assert dir + stem + suffix == dir + name;
    forall i | 0 <= i < |name|
      ensures name[i] != '/'
    {
      if i >= |stem| {
        assert name[i] == suffix[i - |stem|];
      }
    }
    FilenameBelow(dir, name);
    LastPeriod(stem, suffix);
    assert |name| >= 3;
    PeriodAfterFirst(dir + name);
    assert name[|stem|..] == suffix;
    assert name[..|stem|] == stem;
  }

  /** `sample.ply` has extension `.ply` and stem `sample`. */
  lemma SampleExtension()
    ensures Extension("sample.ply") == ".ply" && Stem("sample.ply") == "sample"
  {
    ExtensionOfName([], "sample", ".ply");
    assert [] + "sample" + ".ply" == "sample.ply";
  }

  /** A file name without a period after its first character has no
      extension, and its stem is the whole file name. */
  lemma NoPeriodAfterFirst(path: string)
    requires UpToLast(Filename(path), '.') <= 1
    ensures Extension(path) == [] && Stem(path) == Filename(path)
  {
  }

  /** A file name whose only period is its first character is a hidden
      file: it has no extension, and its stem is the whole name. */
  lemma HiddenFile(dir: string, rest: string)
    requires dir == [] || dir[|dir| - 1] == '/'
    requires rest != [] && forall i :: 0 <= i < |rest| ==> rest[i] != '.' && rest[i] != '/'
    ensures Extension(dir + "." + rest) == [] && Stem(dir + "." + rest) == "." + rest
  {
    var name := "." + rest;
    assert dir + "." + rest == dir + name;
    forall i | 0 <= i < |name|
      ensures name[i] != '/'
    {
      if i > 0 {
        assert name[i] == rest[i - 1];
      }
    }
    FilenameBelow(dir, name);
    UpToLastAppend(".", rest, '.');
    NoPeriodAfterFirst(dir + name);
  }

  /** A hidden file named like an extension has none. */
  lemma HiddenFileHasNoExtension()
    ensures Extension(".ply") == [] && Stem(".ply") == ".ply"
  {
    HiddenFile([], "ply");
    assert [] + "." + "ply" == ".ply";
  }

  /** The empty path has no extension. */
  lemma EmptyPathHasNoExtension()
    ensures Extension("") == []
  {
  }

  datatype Format = PlyFile | StlFile | ColladaFile

  /** The codec `read`, `write` and the constructor pick: by exact,
      case-sensitive comparison of the extension. */
  function FormatOf(path: string): (r: Option<Format>)
    ensures r == Some(PlyFile) <==> Extension(path) == ".ply"
    ensures r == Some(StlFile) <==> Extension(path) == ".stl"
    ensures r == Some(ColladaFile) <==> Extension(path) == ".dae"
  {
    var e := Extension(path);
    if e == ".ply" then Some(PlyFile)
    else if e == ".stl" then Some(StlFile)
    else if e == ".dae" then Some(ColladaFile)
    else None
  }

  /** What the loaders learn from the file at the path: the lines a
      line-reading loader gets, and the document the XML parser builds. */
  datatype Disk = Disk(input: Input, xml: Collada.Xml)

  const Unsupported: Load := Finished(Errors.ParseError(Errors.UnsupportedFormat))

  /** `read`: the loader the extension selects, or `unsupported_format`
      without touching the mesh. */
  function Read(m: MeshValue, path: string, disk: Disk, text: FloatText): (r: (Load, MeshValue))
  {
    match FormatOf(path)
    case None => (Unsupported, m)
    case Some(PlyFile) => Ply.Parse(m, disk.input, text)
    case Some(StlFile) => Stl.Parse(m, disk.input, text)
    case Some(ColladaFile) => Collada.Parse(m, disk.xml, text)
  }

  /** `read` returns `unsupported_format` exactly when no codec matches the
      extension (no loader ever returns that code), and leaves the mesh as it
      was then; otherwise it is the selected loader. */
  lemma ReadDispatch(m: MeshValue, path: string, disk: Disk, text: FloatText)
    ensures Read(m, path, disk, text).0 == Unsupported <==> FormatOf(path).None?
    ensures FormatOf(path).None? ==> Read(m, path, disk, text).1 == m
    ensures Extension(path) == ".ply" ==> Read(m, path, disk, text) == Ply.Parse(m, disk.input, text)
    ensures Extension(path) == ".stl" ==> Read(m, path, disk, text) == Stl.Parse(m, disk.input, text)
    ensures Extension(path) == ".dae" ==> Read(m, path, disk, text) == Collada.Parse(m, disk.xml, text)
  {
    match FormatOf(path)
    case None =>
    case Some(PlyFile) =>
      assert Extension(path) == ".ply";
    case Some(StlFile) =>
      assert Extension(path) == ".stl";
      if disk.input.Readable? {
        var s := Stl.Scanner(m, map[], []);
        assert Stl.Indexed(s, |m.vertices|);
        Stl.ScanLinesKeeps(s, |m.vertices|, disk.input.lines, text);
      }
    case Some(ColladaFile) =>
      assert Extension(path) == ".dae";
  }

  /** A load that does not run into undefined behaviour leaves a well-formed
      mesh well formed, with its neighbour lists equal to its face adjacency,
      whether it completes or fails. */
  lemma ReadKeepsWellFormed(m: MeshValue, path: string, disk: Disk, text: FloatText)
    requires WellFormed(m)
    ensures var r := Read(m, path, disk, text);
      r.0 != Undefined ==> WellFormed(r.1) && (FaceAdjacency(m) ==> FaceAdjacency(r.1))
  {
    match FormatOf(path)
    case None =>
    case Some(PlyFile) => Ply.ParseKeepsWellFormed(m, disk.input, text);
    case Some(StlFile) => Stl.ParseKeepsWellFormed(m, disk.input, text);
    case Some(ColladaFile) =>
      if disk.xml.Geometries? {
        Collada.ReadChunksKeeps(m, Collada.DocumentChunks(disk.xml.children), text);
      }
  }

  /** What a save writes: nothing, the lines of a line-oriented file, or a
      whole document. */
  datatype Output = Nothing | Lines(lines: seq<string>) | Document(document: string)

  /** `write`: the writer the extension selects, or `unsupported_format`
      without writing. The STL writer names the solid after the stem. */
  function Write(m: MeshValue, path: string, canOverwrite: bool, target: Target, text: FloatText): (r: (Errors.WriteError, Output))
    requires FacesBelow(m.faces, |m.vertices|)
  {
    match FormatOf(path)
    case None => (Errors.WriteError(Errors.UnsupportedFormat), Nothing)
    case Some(PlyFile) =>
      var (e, ls) := Ply.Save(m, canOverwrite, target, text);
      (e, if e.code == Errors.None then Lines(ls) else Nothing)
    case Some(StlFile) =>
      var (e, ls) := Stl.Save(m, Stem(path), canOverwrite, target, text);
      (e, if e.code == Errors.None then Lines(ls) else Nothing)
    case Some(ColladaFile) =>
      var (e, d) := Collada.Save(m, canOverwrite, target, text);
      (e, if e.code == Errors.None then Document(d) else Nothing)
  }

  /** `write` returns `unsupported_format` exactly when no codec matches; for
      a matching one, it writes exactly when the pre-flight lets it, refuses
      an existing file with `file_already_exists` when overwriting is not
      allowed, and otherwise returns the pre-flight's code. */
  lemma WriteDispatch(m: MeshValue, path: string, canOverwrite: bool, target: Target, text: FloatText)
    requires FacesBelow(m.faces, |m.vertices|)
    ensures var r := Write(m, path, canOverwrite, target, text);
      (r.0.code == Errors.UnsupportedFormat <==> FormatOf(path).None?) &&
      (FormatOf(path).Some? ==>
        (r.1 != Nothing <==> SavePreflight(canOverwrite, target).None?) &&
        (r.1 == Nothing ==> r.0.code == SavePreflight(canOverwrite, target).value) &&
        (!canOverwrite && target.present ==> r == (Errors.WriteError(Errors.FileAlreadyExists), Nothing)))
  {
    var pre := SavePreflight(canOverwrite, target);
    match FormatOf(path)
    case None =>
    case Some(PlyFile) =>
      var e := Ply.Save(m, canOverwrite, target, text).0;
      assert e.code == Errors.None <==> pre.None?;
    case Some(StlFile) =>
      var e := Stl.Save(m, Stem(path), canOverwrite, target, text).0;
      assert e.code == Errors.None <==> pre.None?;
    case Some(ColladaFile) =>
      var e := Collada.Save(m, canOverwrite, target, text).0;
      assert e.code == Errors.None <==> pre.None?;
  }

  /** A PLY path writes what the PLY writer renders. */
  lemma WritePly(m: MeshValue, path: string, target: Target, text: FloatText)
    requires FacesBelow(m.faces, |m.vertices|)
    requires Extension(path) == ".ply" && target.opens
    ensures Write(m, path, true, target, text) == (Errors.WriteError(Errors.None), Lines(Ply.Render(m, text)))
  {
  }

  /** How the constructor from a path ends: with the loaded mesh, by throwing
      `std::runtime_error` with the given text, or in undefined behaviour. */
  datatype Construction = Built(mesh: MeshValue) | Threw(what: string) | Unpredictable

  const FailurePrefix: string := "Failed to load mesh: "

  /** `mesh(filepath)`: an empty mesh runs the loader the extension selects and
      throws with the error's message when it fails. An unknown extension
      loads nothing and does not throw. */
  function Construct(path: string, disk: Disk, text: FloatText): Construction
  {
    if FormatOf(path).None? then Built(Empty)
    else
      var (o, m) := Read(Empty, path, disk, text);
      match o
      case Undefined => Unpredictable
      case Finished(e) => if e.IsError() then Threw(FailurePrefix + e.Message()) else Built(m)
  }

  /** With an unknown extension the constructor gives the empty mesh; with a
      known one it throws exactly when the load fails, with the prefix and the
      message of the load's error; a constructed mesh is well formed, with
      neighbour lists equal to its face adjacency. */
  lemma ConstructOutcome(path: string, disk: Disk, text: FloatText)
    ensures FormatOf(path).None? ==> Construct(path, disk, text) == Built(Empty)
    ensures var r := Read(Empty, path, disk, text);
      FormatOf(path).Some? ==>
        (Construct(path, disk, text).Threw? <==> r.0.Finished? && r.0.error.code != Errors.None) &&
        (r.0.Finished? && r.0.error.code != Errors.None ==>
          Construct(path, disk, text).what == FailurePrefix + Errors.FormatError(r.0.error.code))
    ensures Construct(path, disk, text).Built? ==>
      WellFormed(Construct(path, disk, text).mesh) && FaceAdjacency(Construct(path, disk, text).mesh)
  {
    EmptyIsWellFormed();
    ReadKeepsWellFormed(Empty, path, disk, text);
  }
}
