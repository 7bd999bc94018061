# triangular-meshes in Dafny

A model of the core of `tml`, a small C++ library for triangle meshes. A mesh
holds a list of vertices and a list of faces:

- each vertex has a position and a duplicate-free list of the indices of the
  vertices it shares a face with;
- each face is three vertex indices, whose order gives its winding.

The library:

- loads a mesh from ASCII PLY, ASCII STL or COLLADA and saves it back;
- picks the codec by the file extension;
- reports failures as `parse_error` or `write_error` codes;
- centres, scales and inverts a mesh in place;
- tells whether a mesh is closed (every edge shared by exactly two faces);
- subdivides every face into four.

The model has one module per part of the source:

- `Errors` (`error.hpp`): the error codes, their message table and the two error wrappers.
- `Edges` (`edge.hpp`): the ordered edge key, its equality and its XOR hash.
- `Vertices` (`vertex.cpp`): the `Vertex` class with its neighbour list.
- `Faces` (`face.cpp`): the `Face` class over a three-slot array.
- `Files`: what the codecs learn from the file system.
  - Whether a file exists and whether a stream on it opens are values.
  - The lines a stream yields are values too.
- `Text`: the decimal integers that `std::from_chars` and stream extraction read and `fmt::format` prints, and whitespace tokens.
  - Float conversion stays abstract: `from_chars`, `operator>>` and `fmt::format` of a float are three functions passed as a parameter (`FloatText`).
  - Stream extraction reads the longest number at the front of what is left and leaves the rest of the token to the next extraction.
- `Topology`: the mesh as a value (`MeshValue`) and the functions that specify each mesh operation.
  - The adjacency the loaders build and the invariant they keep (`WellFormed`).
  - Closedness, inversion, subdivision, and the lexicographic extremes used by `center`.
- `Ply`, `Stl`, `Collada`: each codec's reader and writer as functions, with round-trip lemmas.
- `Dispatch`: the filename extension and stem, `read`, `write` and the constructor from a path.
- `Meshes`: the `Mesh` class.
  - Its methods change `vertices` and `faces` in place with loops, as `mesh.cpp` does.
  - Each method is proved against the matching specification function.
- `Fixtures`: the cube the library's tests load, save and reload.

A load can reach a point where the source reads past the end of a line or
indexes the vertex list out of range; that is undefined behaviour there. The
model ends such a load with the outcome `Undefined` instead of a value.

## Model

| member | source | states |
|---|---|---|
| Errors.Ordinal | include/tml/error.hpp:10-18 | every code has a slot in the message table, and only `none` has slot 0 |
| Errors.FromOrdinal | include/tml/error.hpp:10-18 | every slot of the table belongs to a code: the inverse of `Ordinal` |
| Errors.FormatError | include/tml/error.hpp:29-32 | `format_error` is the table entry for the code, and it is "None" exactly for `none` |
| Errors.FormatErrorInjective | include/tml/error.hpp:20-27 | two different codes never share a message |
| Errors.ParseError.IsError | include/tml/error.hpp:38 | the error converts to true exactly when its message is not "None", i.e. the code is not `none` |
| Errors.ParseError.Not | include/tml/error.hpp:40 | `!error` holds exactly for `none` |
| Errors.ParseError.Equals | include/tml/error.hpp:42 | two errors are equal exactly when their codes are |
| Errors.ParseError.NotEquals | include/tml/error.hpp:44 | `!=` is true exactly when the codes differ |
| Errors.ParseError.Assign | include/tml/error.hpp:46-50 | assigning a code stores it; the result is an error exactly when the code is not `none` |
| Errors.ParseError.Message | include/tml/error.hpp:52 | the message is the table entry of the code |
| Errors.DefaultParseError | include/tml/error.hpp:36 | a default error holds `none`, is not an error and reads "None" |
| Errors.WriteError.IsError | include/tml/error.hpp:59 | true exactly when the message is not "None" |
| Errors.WriteError.Not | include/tml/error.hpp:61 | `!error` holds exactly for `none` |
| Errors.WriteError.Equals | include/tml/error.hpp:63 | equal exactly when the codes are |
| Errors.WriteError.NotEquals | include/tml/error.hpp:65 | `!=` is true exactly when the codes differ |
| Errors.WriteError.Assign | include/tml/error.hpp:67-71 | assigning a code stores it; an error exactly when the code is not `none` |
| Errors.WriteError.Message | include/tml/error.hpp:73 | the message is the table entry of the code |
| Errors.DefaultWriteError | include/tml/error.hpp:57 | a default error holds `none`, is not an error and reads "None" |
| Edges.Equal | include/tml/edge.hpp:12 | two edges are equal exactly when both ends match in order |
| Edges.NotEqual | include/tml/edge.hpp:14 | `!=` holds exactly when one of the ends differs |
| Edges.Canonical | source/mesh.cpp:71-73 | the `{min, max}` key has its smaller end first and holds the same two indices |
| Edges.CanonicalSymmetric | source/mesh.cpp:71-73 | both orientations of a side give equal keys |
| Edges.EqualityIsOrdered | include/tml/edge.hpp:12 | `{a, b}` and `{b, a}` differ when `a != b`: equality is ordered |
| Edges.HashSymmetric | include/tml/edge.hpp:18-25 | the XOR hash ignores the order of the ends |
| Edges.HashRespectsEquality | include/tml/edge.hpp:18-25 | equal edges hash equally, as an unordered-map key needs |
| Edges.HashOfLoop | include/tml/edge.hpp:23 | an edge from an index to itself hashes to zero |
| Vertices.AddNeighborTo | source/vertex.cpp:12-18 | after `add_neighbor(i)` the list holds `i`, keeps its old entries in order as a prefix, and gains at most `i` |
| Vertices.AddNeighborKeepsNoDuplicates | source/vertex.cpp:12-18 | a duplicate-free neighbour list stays duplicate-free |
| Vertices.AddNeighborIdempotent | source/vertex.cpp:12-18 | adding the same index twice is the same as adding it once |
| Vertices.AddNeighborGrowsIffNew | source/vertex.cpp:12-18 | the list grows by one exactly when the index was not there |
| Vertices.Find | source/vertex.cpp:14 | `std::ranges::find`: the first position holding the index, or the end when none does |
| Vertices.Vertex.constructor | source/vertex.cpp:10 | the given coordinates and no neighbours |
| Vertices.Vertex.AddNeighbor | source/vertex.cpp:12-18 | the neighbour list becomes `AddNeighborTo` of the old one; the position does not move |
| Vertices.Vertex.Translate | source/vertex.cpp:26-33 | the position moves by the offset, the neighbours stay, and the vertex itself is returned |
| Vertices.Vertex.Scale | source/vertex.cpp:35-42 | every coordinate is multiplied by the factor, the neighbours stay, and the vertex itself is returned |
| Faces.Triple.Inverted | source/face.cpp:9-12 | the first and third index swap, the middle one stays, and the corners are unchanged as a multiset |
| Faces.InvertedTwice | source/face.cpp:9-12 | inverting twice restores the face |
| Faces.Face.constructor | source/face.cpp:5 | the three indices are stored in the given order |
| Faces.Face.Invert | source/face.cpp:9-12 | the stored indices become the inverted triple |
| Files.OpenFailure | source/mesh.cpp:330-334 | a stream that does not open gives `unknown_io_error` when the file exists and `file_not_found` when it does not |
| Files.SavePreflight | source/mesh.cpp:218-229 | a save goes on exactly when overwriting is allowed or the file is absent, and the stream opens; it refuses an existing file without overwrite with `file_already_exists`; and when the stream does not open it gives `OpenFailure(target.present)`: `unknown_io_error` if the file exists, `file_not_found` if it does not |
| Files.OverwriteAllowed | source/mesh.cpp:218-221 | an existing file that opens is written with overwrite and refused without it |
| Text.NatToString | source/mesh.cpp:242 | an index prints as a non-empty run of decimal digits |
| Text.DecimalValueOfNatToString | source/mesh.cpp:242 | the printed digits have the printed value |
| Text.FromChars | source/mesh.cpp:356 | `from_chars` of a `size_t` fails at a non-digit or the end of the line; a value it yields fits in 64 bits |
| Text.FromCharsOfNatToString | source/mesh.cpp:353-372 | a printed count followed by a non-digit is read back as the count |
| Text.Words | source/mesh.cpp:382 | stream extraction sees non-empty tokens free of whitespace |
| Text.ExtractIndex | source/mesh.cpp:390 | extracting a `size_t` reads an optional sign and then the longest run of digits; the stored value is below 2^64, and a success consumes at least one character and no more than the token holds |
| Text.ExtractIndexOfDigits | source/mesh.cpp:390 | digits whose value fits, followed by the end of the token or by a non-digit, are read as that value and consume exactly the digits |
| Text.ExtractIndexOfNatToString | source/mesh.cpp:390 | a printed index is read back, whatever non-digit follows it |
| Text.MinusOneWraps | source/mesh.cpp:390 | the token "-1" extracts as 2^64 - 1 |
| Text.IndexStopsAtPoint | source/mesh.cpp:390 | "1.5" extracts as 1 and consumes one character; the ".5" left over then fails to extract |
| Text.IntegerTextRoundTrips | source/mesh.cpp:237 | a float text that prints whole numbers in decimal reads each printed whole number back, by extraction and by `from_chars` |
| Text.Stream.ReadFloat | source/mesh.cpp:382 | a failed stream yields 0 and stays failed; otherwise it succeeds exactly when the next token starts with a number, consuming that prefix and leaving the rest of the token in front; a failed extraction stores what `operator>>` stores |
| Text.Stream.ReadIndex | source/mesh.cpp:390 | a failed stream yields 0 and stays failed; otherwise it succeeds exactly when the next token starts with an index, consuming that prefix and leaving the rest in front; the value is below 2^64 |
| Text.ReadIndexOfPrefix | source/mesh.cpp:390 | a token of digits followed by a non-digit is read as the digits' value, and the non-digit part stays in front of the stream |
| Ply.ScanHeader | source/mesh.cpp:342-373 | the header loop stops after an `end_header` line (or at the end of the file), and counts that fit in 64 bits stay below 2^64 |
| Ply.SkipLine | source/mesh.cpp:342-373 | a header line starting with none of `end_header`, `element vertex` and `element face` is skipped, and the counts stay as they are |
| Ply.SkipPlainLine | source/mesh.cpp:342-373 | in particular, a non-empty line whose first character is not `e` is skipped |
| Ply.UnknownLinesSkipped | source/mesh.cpp:342-373 | an empty line, `element edge 5` and `end` are all skipped: the counts are kept and the header never ends |
| Ply.VertexCountLine | source/mesh.cpp:353-362 | an `element vertex N` line sets the vertex count to N, replacing an earlier one |
| Ply.FaceCountLine | source/mesh.cpp:363-372 | an `element face N` line sets the face count to N, replacing an earlier one |
| Ply.ReadPoints | source/mesh.cpp:378-384 | the vertex loop yields exactly the counted number of positions |
| Ply.ReadTriples | source/mesh.cpp:386-391 | the face loop yields exactly the counted number of faces |
| Ply.Parse | source/mesh.cpp:326-402 | a failed load leaves the mesh as it was; its codes are `none`, the two open codes or `invalid_data`; an unreadable file gives the open failure |
| Ply.ParseCounts | source/mesh.cpp:375-399 | a load past the header succeeds or runs out of range; a success appends exactly the counted vertices and faces after the old ones and moves no old vertex |
| Ply.ParseKeepsWellFormed | source/mesh.cpp:386-399 | a successful load keeps the mesh well formed and keeps neighbour lists equal to face adjacency |
| Ply.Save | source/mesh.cpp:216-246 | `save_to_ply` returns `none` exactly when the pre-flight passes, and writes nothing and returns the pre-flight code otherwise; on success it writes exactly `Render(m, text)`, the lines `RenderThenParse` reads back |
| Ply.WordsOfVertexLine | source/mesh.cpp:237 | a written vertex line splits into the three printed coordinates |
| Ply.WordsOfFaceLine | source/mesh.cpp:242 | a written face line splits into "3" and the three printed indices |
| Ply.ReadPointsOfVertexLines | source/mesh.cpp:378-384 | the vertex loop reads written vertex lines back as the positions and stops right after them |
| Ply.ReadTriplesOfFaceLines | source/mesh.cpp:386-391 | the face loop reads written face lines back as the faces and stops right after them |
| Ply.ScanHeaderLines | source/mesh.cpp:231-234 | the header `save_to_ply` writes is read back as its two counts, with the body starting at line 9 |
| Ply.RenderReadsBack | source/mesh.cpp:216-246 | loading a saved mesh into an empty one re-adds the saved faces to the saved positions |
| Ply.RenderThenParse | source/mesh.cpp:326-402 | loading a saved mesh succeeds with the same positions and faces; when the neighbour lists were those the faces build, the loaded mesh equals the saved one |
| Stl.ScanAt | source/mesh.cpp:430 | `from_chars` of a float ends inside the line |
| Stl.VertexPosition | source/mesh.cpp:420-455 | a vertex line yields three coordinates, or `invalid_data` when one does not scan, or undefined behaviour when the scan starts past the end of the line |
| Stl.IndexedDistinct | source/mesh.cpp:457-462 | the vertices a load appends sit at pairwise different positions |
| Stl.AddCorner | source/mesh.cpp:456-464 | a known position reuses its index; a new one appends an isolated vertex under the next index; the index is gathered for the facet |
| Stl.AddCornerKeeps | source/mesh.cpp:456-464 | the position map stays exact, the gathered index names the position, and old vertices do not move |
| Stl.EndFacet | source/mesh.cpp:466-484 | an `endfacet` with other than three gathered indices changes nothing |
| Stl.EndFacetKeeps | source/mesh.cpp:466-484 | with three gathered indices a face of them is appended and the gathered list cleared; the mesh stays well formed |
| Stl.ScanLineKeeps | source/mesh.cpp:418-485 | one line keeps the map invariant, moves no vertex, drops no face, and is undefined only on a `vertex` line |
| Stl.ScanLineKeepsAdjacency | source/mesh.cpp:418-485 | one line keeps neighbour lists equal to face adjacency |
| Stl.ScanLinesKeeps | source/mesh.cpp:418-485 | the whole line loop keeps the invariant, well-formedness and face adjacency, and keeps the earlier vertices and faces |
| Stl.Parse | source/mesh.cpp:404-412 | an unreadable file gives the open failure and leaves the mesh as it was |
| Stl.ParseKeepsWellFormed | source/mesh.cpp:404-488 | every load, also a failed one, keeps the mesh well formed and adjacency exact; it keeps old vertices and faces; new vertices have distinct positions; only the loader's codes occur |
| Stl.NormalPerpendicular | source/mesh.cpp:266-271 | the written normal is perpendicular to both edges and flips with the winding |
| Stl.Render | source/mesh.cpp:263-278 | the file starts with `solid <stem>`, ends with `endsolid <stem>`, and has seven lines per face between |
| Stl.Save | source/mesh.cpp:248-281 | `save_to_stl` returns `none` exactly when the pre-flight passes, and then writes exactly `Render(m, stem, text)`, the 7F + 2 lines `RenderThenParse` reads back; otherwise it writes nothing |
| Stl.VertexLineReads | source/mesh.cpp:273-275 | a written `vertex` line is read back as its position |
| Stl.FacetScan | source/mesh.cpp:418-485 | the seven lines of a written facet are read as three corners and one face |
| Stl.ScanFacet | source/mesh.cpp:418-485 | reading one written facet appends one face whose corners sit at the written positions |
| Stl.ScanFacets | source/mesh.cpp:418-485 | reading all written facets appends one face per facet, each at the written corner positions, and the position map gains exactly the written corner positions |
| Stl.RenderThenParse | source/mesh.cpp:248-281 | loading a saved mesh succeeds with one face per saved face at the same corner positions, merged positions pairwise distinct and exactly the corner positions of the saved faces, and a well-formed adjacency |
| Collada.MeshChunks | source/mesh.cpp:507-550 | a `<mesh>` is read as its sources first and then its triangle lists |
| Collada.FloatValuesRead | source/mesh.cpp:512-513 | the float iterator yields the values of successive extractions, each reading the longest number at the front of what is left (part of a token, possibly), and stops at the first extraction that fails |
| Collada.IndexValuesRead | source/mesh.cpp:528-529 | the index iterator yields the values of successive extractions, each reading the longest index at the front of what is left, and stops at the first extraction that fails |
| Collada.Points | source/mesh.cpp:520-523 | a value count divisible by three gives a third as many positions |
| Collada.PointsAt | source/mesh.cpp:520-523 | position `i` is values `3i`, `3i+1`, `3i+2` |
| Collada.TriplesOf | source/mesh.cpp:536-541 | an index count divisible by three gives a third as many faces |
| Collada.TriplesAt | source/mesh.cpp:536-541 | face `i` is indices `3i`, `3i+1`, `3i+2` |
| Collada.ReadChunk | source/mesh.cpp:511-549 | a chunk ends in success, `invalid_data` (mesh unchanged) or undefined behaviour |
| Collada.ReadChunkCounts | source/mesh.cpp:511-549 | a read source appends exactly its positions; a read triangle list appends exactly its faces with the indices unshifted |
| Collada.ReadChunks | source/mesh.cpp:505-552 | the loops end in success, `invalid_data` or undefined behaviour |
| Collada.FailureKeepsEarlierChunks | source/mesh.cpp:515-518 | a chunk with a bad value count returns `invalid_data` and keeps what earlier chunks appended |
| Collada.Parse | source/mesh.cpp:490-501 | a document that does not load is `invalid_data` with the mesh unchanged |
| Collada.ReadChunkKeeps | source/mesh.cpp:511-549 | a read chunk keeps the mesh well formed, adjacency exact and old content in place |
| Collada.ReadChunksKeeps | source/mesh.cpp:505-552 | every load that avoids undefined behaviour keeps the mesh well formed and adjacency exact |
| Collada.SeekBackAndWrite | source/mesh.cpp:307 | `seekp(-1)` then a write overwrites the last character written |
| Collada.SeekBackAfterTokens | source/mesh.cpp:303-309 | after a non-empty run of space-terminated tokens, `seekp(-1)` removes exactly the last space |
| Collada.Save | source/mesh.cpp:283-296 | `save_to_collada` returns `none` exactly when the pre-flight passes; otherwise it writes nothing; with vertices and faces the document written is the well-formed one |
| Collada.ColladaMarkupTagged | source/mesh.cpp:298-321 | the fixed markup ends a tag before each token run and starts one after it |
| Collada.AsWrittenWhenNotEmpty | source/mesh.cpp:298-321 | with vertices and faces, the document as written is the well-formed one |
| Collada.AsWrittenLosesBracket | source/mesh.cpp:307 | with no vertices, the `>` closing `<float_array ...>` is overwritten by `<` |
| Collada.AsWrittenLosesParagraphBracket | source/mesh.cpp:320 | with vertices but no faces, the `>` closing `<p>` is overwritten by `<` |
| Collada.FloatValuesOfCoordinates | source/mesh.cpp:512-513 | the written coordinates are read back as three values per position and regroup into the positions |
| Collada.IndexValuesOfIndices | source/mesh.cpp:528-529 | the written indices are read back as three values per face and regroup into the faces |
| Collada.CoordinatesReadBack | source/mesh.cpp:511-523 | the written `<float_array>` text loads as the positions, as isolated vertices |
| Collada.IndicesReadBack | source/mesh.cpp:528-549 | the written `<p>` text adds exactly the faces |
| Collada.RenderThenRead | source/mesh.cpp:490-555 | reading the two written chunks into an empty mesh succeeds with the same positions and faces and a well-formed adjacency |
| Collada.RenderKeepsTags | source/mesh.cpp:298-321 | the corrected document keeps the `>` that closes `<float_array ...>` and the one that closes `<p>`, for every mesh, empty lists included |
| Collada.IndexValuesOfPrefix | source/mesh.cpp:528-529 | a token of digits followed by a non-digit yields the digits' value, and the index iterator stops at what follows |
| Collada.PointInIndexList | source/mesh.cpp:528-541 | the `<p>` text "1.5 2 3" yields only the index 1, so the count is not divisible by three and the chunk is `invalid_data` with the mesh unchanged |
| Collada.LetterAfterLastIndex | source/mesh.cpp:528-549 | the `<p>` text "0 1 2x" yields 0, 1 and 2 and adds the face (0, 1, 2) |
| Dispatch.Filename | source/mesh.cpp:172 | the file name is a suffix of the path |
| Dispatch.Extension | source/mesh.cpp:172 | an extension is empty or starts with a period |
| Dispatch.StemThenExtension | source/mesh.cpp:263 | stem followed by extension is the file name |
| Dispatch.HiddenFile | source/mesh.cpp:172-187 | a file name that starts with its only period has no extension and is its own stem |
| Dispatch.ExtensionOfName | source/mesh.cpp:172-187 | `dir/stem.ext` has extension `.ext` and stem `stem` |
| Dispatch.SampleExtension | source/mesh.cpp:172 | "sample.ply" has extension ".ply" and stem "sample" |
| Dispatch.HiddenFileHasNoExtension | source/mesh.cpp:184-187 | ".ply" has no extension, so `read` rejects it |
| Dispatch.EmptyPathHasNoExtension | source/mesh.cpp:184-187 | the empty path has no extension |
| Dispatch.FormatOf | source/mesh.cpp:172-187 | PLY, STL and COLLADA are chosen exactly by the extensions ".ply", ".stl" and ".dae" |
| Dispatch.ReadDispatch | source/mesh.cpp:168-190 | `read` gives `unsupported_format` exactly when no codec matches, then without touching the mesh; otherwise it is the matching loader |
| Dispatch.ReadKeepsWellFormed | source/mesh.cpp:168-190 | a `read` without undefined behaviour keeps the mesh well formed and adjacency exact |
| Dispatch.WriteDispatch | source/mesh.cpp:192-214 | `write` gives `unsupported_format` exactly when no codec matches; otherwise it writes exactly when the pre-flight lets it and refuses an existing file without overwrite |
| Dispatch.WritePly | source/mesh.cpp:196-199 | a PLY path that opens is written with the PLY rendering |
| Dispatch.ConstructOutcome | source/mesh.cpp:22-43 | the path constructor keeps the empty mesh for an unknown extension; it throws exactly when the load fails, with "Failed to load mesh: " and the message; a built mesh is well formed |
| Topology.Isolated | source/mesh.cpp:383 | appended vertices sit at the read positions with no neighbours |
| Topology.LinkAt | source/mesh.cpp:393-398 | after a face's six `add_neighbor` calls, `j` is a neighbour of `k` exactly when it was before or the face joins them |
| Topology.LinkPreserves | source/mesh.cpp:393-398 | the six calls keep adjacency mutual and lists duplicate-free |
| Topology.LinkJoinsCorners | source/mesh.cpp:393-398 | each corner of the face lists the two others |
| Topology.LinkAllPositions | source/mesh.cpp:386-399 | the face loop moves no vertex |
| Topology.LinkAllPreserves | source/mesh.cpp:386-399 | the face loop keeps adjacency mutual and duplicate-free |
| Topology.LinkAllNeighbors | source/mesh.cpp:386-399 | after the face loop, `j` is a neighbour of `k` exactly when it was before or some added face joins them |
| Topology.AddFaces | source/mesh.cpp:386-399 | the face loop completes exactly when every face names existing vertices, and is undefined otherwise |
| Topology.AddFacesKeepsWellFormed | source/mesh.cpp:386-399 | a completed face loop keeps the mesh well formed, appends the faces and moves no vertex |
| Topology.AddFacesKeepsFaceAdjacency | source/mesh.cpp:386-399 | a completed face loop keeps neighbour lists equal to face adjacency |
| Topology.AppendIsolatedKeeps | source/mesh.cpp:378-384 | appending isolated vertices keeps the invariants |
| Topology.EmptyIsWellFormed | include/tml/mesh.hpp:51-52 | the empty mesh satisfies the invariants |
| Topology.IncidenceOnlyCanonical | source/mesh.cpp:71-73 | only `{min, max}` keys are ever counted |
| Topology.ClosedWithoutFaces | source/mesh.cpp:76 | a mesh without faces is closed, since `all_of` over an empty map is true |
| Topology.LoneTriangleIsOpen | source/mesh.cpp:66-77 | a single triangle is not closed |
| Topology.TetrahedronIsClosed | source/mesh.cpp:66-77 | a tetrahedron is closed |
| Topology.InvertedFacesTwice | source/mesh.cpp:92-97 | inverting a mesh twice restores its faces |
| Topology.InvertedKeepsIncidence | source/mesh.cpp:92-97 | inversion does not change how often any edge occurs |
| Topology.InvertedKeepsClosed | source/mesh.cpp:92-97 | an inverted mesh is closed exactly when the original is |
| Topology.JoinedByInverted | source/mesh.cpp:92-97 | inversion does not change which vertices share a face |
| Topology.FacesBelowInverted | source/mesh.cpp:92-97 | inversion keeps every face in range exactly when it was |
| Topology.InvertedKeepsWellFormed | source/mesh.cpp:92-97 | inversion keeps the invariants, in both directions |
| Topology.Midpoints | source/mesh.cpp:140-149 | every index in `edge_to_midpoint` is a new centroid vertex |
| Topology.MidpointsCover | source/mesh.cpp:140-155 | every side of every face has an entry when the last pass looks it up |
| Topology.MidpointIsLastFace | source/mesh.cpp:146-148 | the entry of a side is the centroid of the last face that has that side |
| Topology.QuartersAt | source/mesh.cpp:151-160 | face `4f+k` of the result is piece `k` of face `f` |
| Topology.QuarterBelow | source/mesh.cpp:156-159 | the four pieces name only vertices below a bound the face and map respect |
| Topology.SubdividedCounts | source/mesh.cpp:117-166 | subdivision gives V + F vertices and 4F faces |
| Topology.SubdividedWithoutNeighbors | source/mesh.cpp:136-145 | every vertex after subdivision has no neighbours |
| Topology.SubdividedInRange | source/mesh.cpp:151-160 | every new face names an existing vertex |
| Topology.SubdividedWellFormed | source/mesh.cpp:117-166 | the subdivided mesh satisfies the invariants |
| Topology.SubdividedFace | source/mesh.cpp:156-159 | the first three pieces of face `f` start at its corners, and the fourth uses only new vertices |
| Topology.TetrahedronSubdivision | source/mesh.cpp:117-166 | a tetrahedron subdivides into 8 vertices and 16 faces |
| Topology.LexTotal | source/mesh.cpp:81-82 | the tuple order is total and antisymmetric |
| Topology.LexMin | source/mesh.cpp:81-82 | the minimum is a position at or below every position in tuple order |
| Topology.LexMax | source/mesh.cpp:81-82 | the maximum is a position at or above every position in tuple order |
| Topology.LexMinUnique | source/mesh.cpp:81-82 | any position at or below all others is the minimum |
| Topology.LexMaxUnique | source/mesh.cpp:81-82 | any position at or above all others is the maximum |
| Topology.CenterCube | test/source/mesh.test.cpp:110-139 | centring the cube with corners 0 and 2 gives the cube with corners -1 and 1 |
| Topology.ScaleCube | test/source/mesh.test.cpp:141-170 | scaling the unit cube by 2 gives the cube with corners -2 and 2 |
| Meshes.Bumped | source/mesh.cpp:71 | `++edges[e]` adds the key and raises its count by one, leaving the others |
| Meshes.BumpedSides | source/mesh.cpp:70-73 | one face raises each edge count by the number of its sides with that key |
| Meshes.LinkCalls | source/mesh.cpp:393-398 | the face's adjacency update is the six `add_neighbor` calls in source order |
| Meshes.Mesh.constructor | include/tml/mesh.hpp:51-52 | both lists start empty |
| Meshes.Mesh.CountSides | source/mesh.cpp:68-74 | the map counts, for every key, how many face sides have it, and holds only positive counts |
| Meshes.Mesh.IsClosed | source/mesh.cpp:66-77 | `is_closed` is true exactly when every edge that occurs occurs exactly twice |
| Meshes.Mesh.Extremes | source/mesh.cpp:81-82 | `minmax` gives the least and greatest positions in tuple order |
| Meshes.Mesh.Center | source/mesh.cpp:79-90 | every position moves by minus the midpoint of the extremes; neighbours and faces stay |
| Meshes.Mesh.Invert | source/mesh.cpp:92-97 | every face is inverted in place; vertices stay |
| Meshes.Mesh.Scale | source/mesh.cpp:99-104 | every position is multiplied by the factor; neighbours and faces stay |
| Meshes.Mesh.SmoothedPosition | source/mesh.cpp:129-137 | the smoothed position: the old one and the neighbour sum weighted by `alpha` |
| Meshes.Mesh.SmoothedVertices | source/mesh.cpp:128-138 | the first pass yields one smoothed, neighbourless vertex per old vertex |
| Meshes.Mesh.AddCentroids | source/mesh.cpp:140-149 | the second pass appends one centroid per face, and fills the side map as specified |
| Meshes.Mesh.QuarterFaces | source/mesh.cpp:151-160 | the third pass yields the four pieces of each face in order |
| Meshes.Mesh.Subdivide | source/mesh.cpp:117-166 | the mesh becomes its subdivision, and it satisfies the invariants |
| Meshes.Mesh.AddFace | source/mesh.cpp:391-398 | the face is appended and its corners are joined by the six calls |
| Meshes.Mesh.ReadHeader | source/mesh.cpp:342-373 | the header loop yields what the header specification does |
| Meshes.Mesh.AppendVertices | source/mesh.cpp:378-384 | the vertex loop appends the read positions as isolated vertices and leaves the stream after them |
| Meshes.Mesh.ReadFace | source/mesh.cpp:387-390 | one face extraction, the leading count discarded |
| Meshes.Mesh.AppendFaces | source/mesh.cpp:386-399 | the face loop has the outcome, and on completion the state, the specification gives |
| Meshes.Mesh.LoadFromPly | source/mesh.cpp:326-402 | `load_from_ply` returns what `Ply.Parse` gives and leaves the mesh it gives |
| Meshes.Mesh.LoadFromStl | source/mesh.cpp:404-488 | `load_from_stl` returns what `Stl.Parse` gives and leaves the mesh it gives |
| Meshes.Mesh.AppendPositions | source/mesh.cpp:520-523 | the position loop appends one isolated vertex per value triple |
| Meshes.Mesh.AppendTriangles | source/mesh.cpp:536-549 | the triangle loop adds one face per index triple, undefined on an out-of-range index |
| Meshes.Mesh.LoadChunk | source/mesh.cpp:509-550 | one element text is loaded as `Collada.ReadChunk` specifies |
| Meshes.Mesh.LoadFromCollada | source/mesh.cpp:490-555 | `load_from_collada` returns what `Collada.Parse` gives and leaves the mesh it gives |
| Meshes.Mesh.Read | source/mesh.cpp:168-190 | `read` returns what `Dispatch.Read` gives and leaves the mesh it gives |
| Meshes.LoadMesh | source/mesh.cpp:22-43 | the path constructor builds, throws or runs into undefined behaviour as `Dispatch.Construct` says, and a built mesh holds the loaded value |
| Fixtures.CubeInverted | test/source/mesh.test.cpp:172-189 | inverting the cube's twelve faces gives the faces the inversion test lists, in order |
| Fixtures.CubeIncidence | source/mesh.cpp:66-77 | each of the cube's eighteen edges is counted twice and every other key zero times |
| Fixtures.CubeIsClosed | source/mesh.cpp:66-77 | the cube is closed |
| Fixtures.CubeJoins | source/mesh.cpp:386-399 | the vertices the cube's faces join to each corner are exactly the ones listed for it |
| Fixtures.CubeDegree | source/mesh.cpp:386-399 | in a mesh over the cube's faces with duplicate-free neighbour lists equal to face adjacency, each corner has as many neighbours as the cube gives it |
| Fixtures.CubeNeighborEntries | test/source/mesh.test.cpp:74-102 | such a mesh holds 36 neighbour entries in all |
| Fixtures.PlyCube | test/source/mesh.test.cpp:74-82 | reloading the saved cube from PLY succeeds with 8 vertices, 12 faces and 36 neighbour entries |
| Fixtures.ColladaCube | test/source/mesh.test.cpp:94-102 | reading back the cube's two COLLADA arrays succeeds with 8 vertices, 12 faces and 36 neighbour entries |
| Fixtures.UnitCubeRoundTrips | test/source/mesh.test.cpp:60-65 | the cube with corners -1 and 1 meets both round-trip premises under the whole-number float text |
| Fixtures.UnitCubeReloads | test/source/mesh.test.cpp:74-102 | that cube reloads from PLY and from its COLLADA arrays with 8 vertices, 12 faces and 36 neighbour entries |
| Fixtures.JoinedByRenumbered | source/mesh.cpp:456-484 | after STL merges and renumbers the corners, two vertices share a face exactly when the corners they stand for do |
| Fixtures.RenumberedDegree | source/mesh.cpp:456-484 | each reloaded vertex has as many neighbours as the cube corner it stands for |
| Fixtures.RenumberedEntries | test/source/mesh.test.cpp:84-92 | the renumbered cube holds 36 neighbour entries |
| Fixtures.StlCube | test/source/mesh.test.cpp:84-92 | reloading the saved cube from STL succeeds with 8 vertices, 12 faces and 36 neighbour entries when its corners sit at different positions |
| Fixtures.UnitCubeStlReload | test/source/mesh.test.cpp:84-92 | the cube with corners -1 and 1 reloads from STL with 8 vertices, 12 faces and 36 neighbour entries |

### Where the model follows the code

- `unsupported_format` is returned by `read` and `write` (source/mesh.cpp:186 and 210). It is missing from the enumeration in include/tml/error.hpp:10-18.
  - The model adds it between `unknown_io_error` and `invalid_data`.
  - Its message, "The file format is not supported", is the model's choice.
- An empty path is never reported as `invalid_filepath`. Its extension is empty, so `read` and `write` give `unsupported_format` and the constructor loads nothing. No code path produces `invalid_filepath`.
- Subdivision adds one vertex per face (the face centroid), not one per edge: V + F vertices. A tetrahedron gives 8 vertices, not 14.
- `edge_to_midpoint` maps each side to the centroid of the last face having it, and the fourth face of each split is built from those centroids.
- The COLLADA loader returns `invalid_data` for a document that does not load, a missing file included.
- The COLLADA loader takes triangle indices as they are, not shifted by the vertices already in the mesh.
- The PLY face loop reads the corner count into `vertex_count` and ignores it.
  - A minus sign wraps an index modulo 2^64.
  - An index past the vertex list is undefined behaviour (`Undefined`).
- The header include/tml/mesh.hpp lacks `is_closed`, `subdivide`, `read` and `write`; the model follows source/mesh.cpp.

## Left out

- `area` and `vec3::norm`: floating-point square roots are not modelled.
- `noise`: it draws from a random generator.
- Coordinates are exact reals, not single-precision floats.
  - No rounding, infinities or NaN.
  - Float text conversion is the abstract `FloatText` parameter.
  - The round-trip lemmas require that it reads back the printed coordinates of the mesh at hand (`RoundTripsOn`, `ScansPrintedOn`). `IntegerText` meets both for whole-number coordinates, so the requirement can be met.
- Stl.ScanAt: a scan that claims to consume more characters than the line holds is treated as a failed scan; the real `from_chars` never does that.
- Meshes.Mesh.SmoothedPosition: an isolated vertex keeps its position. In the source, `3 / (8 * 0)` makes the smoothed position NaN.
- Meshes.Mesh.Subdivide: its result contract inherits the isolated-vertex simplification of `SmoothedPosition`.
- Meshes.Mesh.Center: requires a non-empty mesh. `minmax` of an empty range dereferences an empty result in the source, which is undefined behaviour.
- Meshes.Mesh.Extremes: requires a non-empty mesh, for the same reason.
- XML parsing (pugixml) is not part of this model.
  - `Collada.Xml` stands for the element texts it yields, in document order.
  - `DocumentChunks` flattens the geometry and mesh loops.
  - Element attributes are ignored, as the loader ignores them.
- The PLY body is read as a stream of whitespace tokens; line structure after the header is ignored, as `operator>>` ignores it.
- `reserve` (source/mesh.cpp:125-126 and 375-376) is not modelled. Within memory it changes only capacity; the model has no memory limit.
- Ply.Parse: a header count above `max_size()`, or one the allocator cannot serve, makes `reserve` throw inside the `noexcept` `load_from_ply` (source/mesh.cpp:375-376), which terminates the program. The model reads such a count like any other.
- Ply.ParseCounts: the same terminating `reserve` is not modelled; its counts hold only for loads that get past `reserve`.
- Meshes.Mesh.LoadFromPly: the same terminating `reserve` is not modelled.
- Meshes.Mesh.Subdivide: `reserve` of V + F vertices and 4F faces can throw inside the `noexcept` `subdivide` (source/mesh.cpp:125-126); that termination is not modelled.
- Text.Stream.ReadFloat: an `extract` that claims to consume no character, or more than the token holds, is treated as a failed extraction storing 0; the real `operator>>` never does that.
- The vertex hash (include/tml/vertex.hpp:43-50) is not modelled.
  - The STL loader's map is keyed by position: its keys and probes are built from positions alone and never carry neighbours, so positions alone decide a match.
  - It is a Dafny `map`.
- Meshes.Mesh.LoadFromPly: after an `Undefined` outcome the contract says nothing about the mesh state; the source's behaviour there is undefined.
- Meshes.Mesh.LoadFromStl: same as `LoadFromPly` for `Undefined`.
- Meshes.Mesh.LoadFromCollada: same as `LoadFromPly` for `Undefined`.
- Meshes.Mesh.Read: same as `LoadFromPly` for `Undefined`.
- Collada.Render: the markup is a parameter (`Markup`); the lemmas are stated for any markup with the tag shape the writer relies on, and `ColladaMarkup` is shown to have it.
- Vertices are stored in `Mesh` as values (`VertexValue`), not `Vertex` objects. The methods update them with the same functions that specify `Vertex.AddNeighbor`, `Translate` and `Scale`.
- File writing is modelled as the lines or document produced. Flushing and partial-write failures of `std::ofstream` are not modelled.
- The constructor's exception is a `Threw` outcome carrying its message.

## Findings

| source | as written | input that shows it | evidently intended | confidence | as-written member | corrected member |
|---|---|---|---|---|---|---|
| source/mesh.cpp:307 and 320 | `seekp(-1)` always removes the last character written, meant to be the space after the last coordinate or index | a mesh with no vertices: the `>` of `<float_array ... count="0">` is overwritten by `<`. A mesh with vertices but no faces: the `>` of `<p>` is overwritten by `<`. The document is then malformed | drop the trailing space only when at least one token was written | not executed | Collada.AsWrittenLosesBracket | Collada.RenderKeepsTags |
