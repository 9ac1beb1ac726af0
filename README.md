# STL filter model

A Dafny model of CloudCompare's STL file filter (`libs/qCC_io/STLFilter.cpp`).
It covers:

- the test that tells ASCII from binary STL files;
- the two readers, which fill a mesh and its vertex cloud in place;
- the two writers;
- the removal of duplicated vertices that `loadFile` runs after a read. This is
  the octree-cell tagging `TagDuplicatedVertices` and the compaction of the
  cloud and of the triangles;
- `canLoadExtension` and `canSave`.

## How the code is modelled

Each stateful part has two halves: a specification as functions over values,
and imperative code over the objects the source mutates.

- **Specifications.**
  - `AsciiReader` and `BinaryReader` describe the readers as mutually recursive
    functions over a scan state. There is one function per block of the facet
    loop.
  - `Writers` describes the writers as functions over a sink state.
  - `Welding` and `Compaction` describe the tagging and the compaction.
  - `StlFilter.Load` describes `loadFile`.
- **Objects.**
  - `MeshModel` holds the `PointCloud` and `Mesh` classes. The loaders and the
    compaction change their fields in place.
  - The loops of the source are `while` loops in the methods of `AsciiLoader`,
    `BinaryLoader`, `Writers`, `Welding`, `Compaction` and `StlFilter`.
  - The equivalence table is an `array<int>`.
- **The link between them.** Each method's `ensures` ties the objects' new
  state to the specification function. The `*Laws` modules prove what the
  source promises about those functions.
- **As written and corrected.** Where the code has a bug (see "## Findings"),
  the model holds both programs. `StlFilter.Load`, `ReadFile` and `Compact`,
  and the methods `LoadFile`, `ReadMesh` and `WeldDuplicates`, take a flag
  `corrected`. With `corrected` false, the format test, the binary reader and
  the compaction run as written; with it true, they run corrected. The format
  test as written reads the header text on into the memory after its 80-byte
  buffer, which `Load` and `LoadFile` take as the parameter `beyond`. The
  binary reader's own flag is `strict`. A law is proved for both values when it holds for both, and under
  `corrected` when only the corrected program keeps it.
- **The round trip.** `BinaryRoundTrip` reads the binary writer's image back
  with the binary reader.

Services the filter calls but whose code is not part of this model are
parameters:

- **`Env`**:
  - `toDouble`, for parsing numbers;
  - the global-shift service;
  - normal quantisation;
  - allocation success per buffer and size;
  - the progress dialog's cancel flag;
  - float decoding.
- **`Format`**: float encoding, `%e` printing and the writers' progress.
- **A `Traversal`**: what the octree gives to the tagging. That is the cells,
  the sphere search, and per cell whether its neighbour buffer is allocated and
  how far its progress runs.

Where the code and the usual description of the STL filter disagree, the model
follows the code:

- A user cancellation during a read leaves the facet loop with the current
  result. That is `NoError` for a clean file, not a cancellation error. The
  ASCII reader checks for cancellation only every 1024 facets.
- A cancelled or failed duplicate removal keeps the un-welded mesh and the load
  succeeds.
- The writers write the cross product (B−A)×(C−A) as the facet normal, not
  normalised.
- The writers return `CanceledByUser` when the progress reports a cancellation
  at a facet, including the last one.
- An ASCII `solid` line without a name keeps the name "mesh". A binary mesh is
  named "Mesh".

## Model

| member | source | states |
|---|---|---|
| StlFilter.CanLoadExtension | libs/qCC_io/STLFilter.cpp:41-44 | true exactly for the upper-case extension "STL" |
| StlFilter.CanSave | libs/qCC_io/STLFilter.cpp:46-55 | true exactly for a mesh, which sets `multiple` false and `exclusive` true; any other class gives false and leaves both flags as they were |
| StlFilter.Detect | libs/qCC_io/STLFilter.cpp:330-367 | as written or corrected, refused exactly for files shorter than 80 bytes, with Reading exactly for the empty file; corrected, it is Sniff |
| StlFilter.ReadFile | libs/qCC_io/STLFilter.cpp:369-387 | as written or corrected, every reader error becomes MalformedFile; a clean read has consistent buffers and only valid, non-degenerate triangles |
| StlFilter.TagTable | libs/qCC_io/STLFilter.cpp:402-423 | the table of -1s, once tagged over every cell, has the same length, and when the traversal completes every vertex points at a root of the cloud |
| StlFilter.LoadErrors | libs/qCC_io/STLFilter.cpp:320-388 | as written and corrected, loadFile fails only with Reading or MalformedFile; Reading exactly when the file cannot be opened or is empty; a non-empty file shorter than 80 bytes is MalformedFile, whatever follows the header buffer |
| StlFilter.CompactSound | libs/qCC_io/STLFilter.cpp:389-517 | as written or corrected, after shrinking and duplicate removal both capacities equal the sizes and do not exceed the loaded ones, every triangle indexes the cloud, and the normal index table has one entry per triangle; corrected, every triangle is also non-degenerate and the global shift is kept |
| StlFilter.LoadedSound | libs/qCC_io/STLFilter.cpp:320-543 | as written or corrected, a mesh that loadFile adds has exact capacities, triangles that index its cloud and one normal index per triangle; corrected, every triangle is also non-degenerate |
| StlFilter.LoadFile | libs/qCC_io/STLFilter.cpp:320-543 | the in-place load, as written or corrected, returns Load's error and no mesh, or NoError and a mesh whose name and content are Load's; as written, the format test reads the header text on into `beyond` |
| StlFilter.ReadMesh | libs/qCC_io/STLFilter.cpp:369-387 | as written or corrected, a fresh cloud and mesh are read into in place; the mesh is returned exactly when ReadFile succeeds, with ReadFile's name and content, and otherwise the error is ReadFile's |
| StlFilter.WeldDuplicates | libs/qCC_io/STLFilter.cpp:400-517 | the in-place duplicate removal, as written or corrected, leaves the mesh and its cloud as Compact describes and keeps the name |
| StlFilter.CollapseAsWritten | libs/qCC_io/STLFilter.cpp:452-477 | every allocation granted and an octree that fuses coincident points, a mesh whose only triangle has two coincident corners comes out of the compaction as written with the degenerate triangle (0, 0, 1), and out of the corrected one unchanged |
| StlFilter.ShiftLostAsWritten | libs/qCC_io/STLFilter.cpp:438-486 | every allocation granted, a mesh shifted by (100, 0, 0) with nothing to fuse comes out of the compaction as written without its shift, and out of the corrected one with it |
| Sniffer.Sniff | libs/qCC_io/STLFilter.cpp:330-367 | refused exactly for files shorter than 80 bytes, with Reading exactly for the empty file |
| Sniffer.SniffAsWritten | libs/qCC_io/STLFilter.cpp:335-363 | with the header read past its 80 bytes, refused exactly for files shorter than 80 bytes |
| Sniffer.CStringWithin | libs/qCC_io/STLFilter.cpp:343 | the text of a C string is the Latin-1 reading of the bytes before its first NUL, and none of them is a NUL |
| Sniffer.HeaderTextWithin | libs/qCC_io/STLFilter.cpp:335-343 | corrected, the header text is at most 80 characters, all of them header bytes |
| Sniffer.BinaryImageDetected | libs/qCC_io/STLFilter.cpp:111-116 | every file the binary writer produces is detected as binary, because its header starts with "Binary" |
| Sniffer.AsciiTextDetected | libs/qCC_io/STLFilter.cpp:341-363 | every file the ASCII writer produces is detected as ASCII, because it starts with "solid" and its second line starts with "facet". This holds when the file has at least 80 bytes, its text is Latin-1, the mesh name has no line break, and the `%e` text of a number has no line break or carriage return |
| Sniffer.HeaderOverrun | libs/qCC_io/STLFilter.cpp:335-343 | a file whose 80-byte header is all spaces is detected as ASCII by the test as written when "solid" follows the buffer in memory, and as binary by the corrected test |
| Text.TokensEmptyIffBlank | libs/qCC_io/STLFilter.cpp:616-617 | a line splits into no token exactly when it is all whitespace |
| AsciiReader.ParseSolidLine | libs/qCC_io/STLFilter.cpp:555-575 | the first line is accepted exactly when it is non-empty and its first token is SOLID in any case; an empty line is Reading, any other refusal MalformedFile; the name splits into the remaining tokens, or is "mesh" when there are none |
| AsciiReader.ParseTriple | libs/qCC_io/STLFilter.cpp:699-715 | a point exactly when all three numbers parse |
| AsciiReader.ParseFacetLine | libs/qCC_io/STLFilter.cpp:616-657 | an empty line or one whose first token is ENDSOLID ends the solid; a non-empty line with no token or with a first token other than FACET and ENDSOLID is not a facet; exactly the lines whose first token is FACET are facets; a normal is read only when there is a normal table; the missing-normal warning is given at most once |
| AsciiReader.ParseVertexLine | libs/qCC_io/STLFilter.cpp:679-715 | a vertex is read only from a line that passes the VERTEX test and has at least four tokens |
| AsciiReader.AddFacet | libs/qCC_io/STLFilter.cpp:766-796 | the triangle is appended and fits the capacity; the points and the shift are untouched; without a normal table there are no normal indexes, and with one the table is kept and there is one normal index per earlier triangle |
| AsciiLaws.AsciiLoadLaw | libs/qCC_io/STLFilter.cpp:545-857 | loadASCIIFile returns NoError, Reading, MalformedFile or NotEnoughMemory; it warns about normals at most once; both buffers grow by 1000; every normal index is a triple of one normal; a clean load has facet k as triangle (3k, 3k+1, 3k+2), all valid and non-degenerate |
| AsciiLaws.FacetLaw | libs/qCC_io/STLFilter.cpp:600-662 | from a facet line, the loop keeps its invariant, and a clean end means a clean start and three vertices per facet |
| AsciiLaws.VertexLaw | libs/qCC_io/STLFilter.cpp:677-764 | the vertex loop keeps the invariant and the three-vertices-per-facet shape of a clean load |
| AsciiLaws.TriangleLaw | libs/qCC_io/STLFilter.cpp:766-810 | storing the triangle and its normal keeps the invariant and the shape |
| AsciiLaws.NormalsAppended | libs/qCC_io/STLFilter.cpp:799-810 | recording a facet's normal keeps every normal index a triple of one valid normal or -1 |
| AsciiLaws.ParseFacetLineAsWritten | libs/qCC_io/STLFilter.cpp:616-625 | as written, the test reads past the token list exactly for the non-empty, all-whitespace lines; every other line is parsed as corrected |
| AsciiLaws.WhitespaceLineAsWritten | libs/qCC_io/STLFilter.cpp:617-619 | the as-written test reads `tokens[0]` of an empty list exactly for non-empty, all-whitespace lines, for example " " |
| AsciiLaws.BlankFacetLineRejected | libs/qCC_io/STLFilter.cpp:616-623 | corrected, a non-empty blank facet line is not a facet and the load returns MalformedFile |
| AsciiLaws.FacetLineStops | libs/qCC_io/STLFilter.cpp:604-625 | at an empty line, the end of the input or an ENDSOLID line, the facet loop is left with its result, geometry and warnings; at any other line that does not start with FACET, it is left with MalformedFile and its geometry |
| AsciiLoader.LoadAsciiFile | libs/qCC_io/STLFilter.cpp:545-857 | the in-place reader returns LoadAscii's result, leaves the mesh and cloud in LoadAscii's final state, and names the mesh after the first line |
| AsciiLoader.ReadFacet | libs/qCC_io/STLFilter.cpp:597-845 | one turn of the facet loop on the objects matches the specification's step to the next facet, or leaves the loop |
| AsciiLoader.ReadFacetLine | libs/qCC_io/STLFilter.cpp:602-658 | the facet line leaves the loop or continues to the 'outer loop' line, as FromFacet does |
| AsciiLoader.ReadOuterLoopLine | libs/qCC_io/STLFilter.cpp:661-672 | a missing 'outer loop' line is Reading and leaves the loop; otherwise the vertices follow |
| AsciiLoader.ReadVertex | libs/qCC_io/STLFilter.cpp:679-763 | one vertex line ends stored, bad (MalformedFile, and the triangle is still stored) or out of memory, as FromVertex does |
| AsciiLoader.ReadVertexLines | libs/qCC_io/STLFilter.cpp:675-764 | the three-vertex loop ends at the triangle, or at the end of the load when the cloud cannot grow |
| AsciiLoader.AddFacetTriangle | libs/qCC_io/STLFilter.cpp:768-796 | the in-place append succeeds exactly when AddFacet does and leaves its result |
| AsciiLoader.StoreFacet | libs/qCC_io/STLFilter.cpp:766-810 | the triangle and its normal are stored as FromTriangle describes, or the load ends with NotEnoughMemory |
| AsciiLoader.ReadFacetEnd | libs/qCC_io/STLFilter.cpp:811-845 | 'endloop', 'endfacet' and the cancellation test leave the loop or move on to the next facet |
| BinaryReader.Read | libs/qCC_io/STLFilter.cpp:907 | a read returns at most n bytes within the file, and n exactly when they are there |
| BinaryReader.U32 | libs/qCC_io/STLFilter.cpp:875-881 | the facet count is below 2^32 |
| BinaryReader.ReserveFacets | libs/qCC_io/STLFilter.cpp:883-890 | refused exactly when the count exceeds the capacity and is not granted; otherwise the mesh has room for count triangles, and it keeps its normals exactly when both normal buffers are granted |
| BinaryReader.StaleNormalWrites | libs/qCC_io/STLFilter.cpp:883-991 | the facets that lines 984-991 store through the normal table released at 887-888: none unless the mesh had a normal table that the load ended without, and at most one per triangle read |
| BinaryLaws.BinaryLoadLaw | libs/qCC_io/STLFilter.cpp:859-1001 | loadBinaryFile, as written or corrected (`strict`), returns NoError, Reading or NotEnoughMemory; the cloud grows by 1000; with a normal table, triangle k has normal k; a clean load has read every facet or stopped at a cancellation and has facet k as triangle (3k, 3k+1, 3k+2); corrected, the file then holds at least 84 + 50 bytes per triangle |
| BinaryLaws.FacetLaw | libs/qCC_io/STLFilter.cpp:902-996 | from facet f, the loop ends with the invariant kept and, without error, finished with 50 bytes per facet |
| BinaryLaws.VertexLaw | libs/qCC_io/STLFilter.cpp:911-968 | from vertex i of a facet, the loop ends with the same outcome |
| BinaryLaws.EndLaw | libs/qCC_io/STLFilter.cpp:970-996 | from the attribute bytes, the loop ends with the same outcome |
| BinaryLaws.FacetStored | libs/qCC_io/STLFilter.cpp:979-991 | adding facet f with its normal keeps one normal per facet and the three-vertices-per-facet shape |
| BinaryLaws.TruncatedFacetAsWritten | libs/qCC_io/STLFilter.cpp:913-975 | as written, a file whose only facet ends after its normal loads with NoError and one triangle |
| BinaryLaws.TruncatedFacetRejected | libs/qCC_io/STLFilter.cpp:913-918 | corrected, the same file returns Reading |
| BinaryLoader.LoadBinaryFile | libs/qCC_io/STLFilter.cpp:859-1001 | the in-place reader, as written or corrected, names the mesh "Mesh", returns LoadBinaryWith's result and leaves the objects in its final state |
| BinaryLoader.ReserveFacetsInPlace | libs/qCC_io/STLFilter.cpp:883-890 | the in-place reservations succeed exactly when ReserveFacets does and leave its result |
| BinaryLoader.ReadFacet | libs/qCC_io/STLFilter.cpp:902-996 | one facet on the objects matches the specification's step to the next facet, or leaves the loop |
| BinaryLoader.ReadVertex | libs/qCC_io/STLFilter.cpp:913-967 | one vertex on the objects matches FromVertex's step |
| BinaryLoader.ReadFacetEnd | libs/qCC_io/STLFilter.cpp:970-995 | the attribute bytes, the triangle, its normal and the cancellation test match FromEnd |
| BinaryRoundTrip.ImageLaid | libs/qCC_io/STLFilter.cpp:110-170 | in the binary image, part j of facet k (the normal, then the three corners) is the 12 bytes at 84 + 50k + 12j, and the image is 84 + 50n bytes |
| BinaryRoundTrip.RunFacet | libs/qCC_io/STLFilter.cpp:902-996 | the reader at facet f of the image, with every earlier facet read back, ends in the final state of the round trip |
| BinaryRoundTrip.RunVertex | libs/qCC_io/STLFilter.cpp:911-968 | the reader at vertex i of a facet of the image, with the earlier vertices read back, ends in the same final state |
| BinaryRoundTrip.RunEnd | libs/qCC_io/STLFilter.cpp:970-996 | the reader at the attribute bytes of a facet of the image, with its three vertices read back, ends in the same final state |
| BinaryRoundTrip.LoadsFinal | libs/qCC_io/STLFilter.cpp:98-179 | the image saveToBINFile writes, loaded into a fresh mesh with every point and the triangle reservation granted and nothing cancelled, gives NoError and the final state of the round trip, as written and corrected |
| BinaryRoundTrip.BinaryRoundTrip | libs/qCC_io/STLFilter.cpp:859-1001 | the binary image of a mesh read back into a fresh mesh, with every point and the triangle reservation granted and nothing cancelled, loads without error to the end of the image. Triangle k lies on vertices 3k, 3k+1 and 3k+2, which hold facet k's corners as encoded and decoded, under the shift proposed for the first vertex. The mesh has the normals the writer computed, quantised, with triangle k on normal k, exactly when both normal tables are granted; otherwise it has no normal index table |
| BinaryRoundTrip.StaleWritesAsWritten | libs/qCC_io/STLFilter.cpp:883-991 | with the normal tables refused, the reader as written stores the normal of every facet of the image through the released table, while the load ends with neither normal table |
| MeshModel.StoreVertex | libs/qCC_io/STLFilter.cpp:717-758 | a stored vertex is appended as the point plus the shift; a refused growth leaves the cloud as it was and happens only when the cloud is full |
| MeshModel.AddFacetNormal | libs/qCC_io/STLFilter.cpp:798-810 | with a normal table, a normal index triple is appended: the new normal's index, or -1 for a facet without one; the table grows only for a facet with a normal |
| MeshModel.PointCloud.Reserve | libs/qCC_io/STLFilter.cpp:752 | a reservation succeeds when it is within capacity or granted, and then raises the capacity |
| MeshModel.Mesh.SwapTriangles | libs/qCC_io/STLFilter.cpp:466 | the two triangles and their normal indexes change places |
| MeshModel.Mesh.Resize | libs/qCC_io/STLFilter.cpp:479 | the first n triangles and their normal indexes remain |
| Writers.HeaderBytes | libs/qCC_io/STLFilter.cpp:111-117 | the header is 80 bytes and starts with 'B' |
| Writers.U32Bytes | libs/qCC_io/STLFilter.cpp:120-125 | the count takes four bytes |
| Writers.BinFacetChunks | libs/qCC_io/STLFilter.cpp:139-169 | a binary facet takes five write calls |
| Writers.SaveToBinFile | libs/qCC_io/STLFilter.cpp:98-179 | the in-place writer leaves the sink as SaveBin describes |
| Writers.SaveToAsciiFile | libs/qCC_io/STLFilter.cpp:181-244 | the in-place writer leaves the sink as SaveAscii describes |
| Writers.WriteFacets | libs/qCC_io/STLFilter.cpp:137-174 | the facet loop on the sink leaves it as FacetLoop describes |
| WriterLaws.SaveBinLaw | libs/qCC_io/STLFilter.cpp:98-179 | saveToBINFile returns NoError, Writing or CanceledByUser; NoError exactly when all 2 + 5n write calls succeed and nothing is cancelled, and then the file is the full binary image; otherwise it holds a prefix of it |
| WriterLaws.SaveAsciiLaw | libs/qCC_io/STLFilter.cpp:181-244 | saveToASCIIFile returns NoError, Writing or CanceledByUser; NoError exactly when all 2 + 6n write calls succeed and nothing is cancelled, and then the file is the full text; otherwise it holds a prefix of it |
| WriterLaws.BinaryImageSize | libs/qCC_io/STLFilter.cpp:110-170 | the binary file of n facets is 84 + 50n bytes |
| WriterLaws.AsciiTextLines | libs/qCC_io/STLFilter.cpp:194-241 | the ASCII file of n facets is 2 + 7n lines |
| WriterLaws.FacetLoopLaw | libs/qCC_io/STLFilter.cpp:137-174 | the facet loop returns NoError exactly when every write call succeeds and nothing is cancelled, and has then written every facet; otherwise it has written a prefix |
| Welding.TagDuplicatedVertices | libs/qCC_io/STLFilter.cpp:247-319 | the in-place tagging of one cell fails without a change when its buffer is refused, and otherwise leaves the table as TagCell describes and reports whether the cell was completed |
| Welding.TagPointLaw | libs/qCC_io/STLFilter.cpp:289-312 | tagging a point keeps the table welded, never untags a point, never moves a root, and leaves the query point tagged |
| Welding.TagCellLaw | libs/qCC_io/STLFilter.cpp:286-318 | a cell keeps the table welded and moves no root, and a completed cell has every one of its points tagged |
| Welding.TagCellsLaw | libs/qCC_io/STLFilter.cpp:414-419 | a traversal keeps the table welded, and a completed one tags every point of every cell |
| Welding.TaggedTable | libs/qCC_io/STLFilter.cpp:406-429 | started from -1s and completed over cells that hold every point, every entry points at a root |
| Welding.TagAllCells | libs/qCC_io/STLFilter.cpp:414-419 | the in-place traversal leaves the table as TagCells describes and returns whether it completed |
| Welding.TagCellsStops | libs/qCC_io/STLFilter.cpp:414-419 | once a cell fails, the remaining cells change nothing |
| Compaction.RenumberRoots | libs/qCC_io/STLFilter.cpp:425-436 | every root becomes the vertex count plus its rank, the other entries are unchanged, and the result is the number of roots |
| Compaction.CopyRoots | libs/qCC_io/STLFilter.cpp:438-450 | the root points go to the new cloud in order, and every entry becomes the vertex count plus its new index |
| Compaction.RewriteTriangles | libs/qCC_io/STLFilter.cpp:452-470 | every triangle is rewritten to new indexes; the surviving ones are moved to the front, with their normal indexes; the result is their number |
| Compaction.SwapPassSelects | libs/qCC_io/STLFilter.cpp:455-470 | the swap pass leaves the surviving triangles, in order, at the front and is a permutation |
| Compaction.Rebuild | libs/qCC_io/STLFilter.cpp:438-486 | once the new cloud is reserved, the mesh and its cloud end as Weld describes |
| Compaction.RemoveDuplicates | libs/qCC_io/STLFilter.cpp:425-512 | the compaction in place leaves the mesh and its cloud as Weld describes |
| WeldLaws.FusedIffSameRoot | libs/qCC_io/STLFilter.cpp:425-461 | two vertices get the same new index exactly when they were tagged with the same root, and every new index is within the new cloud |
| WeldLaws.RanksDense | libs/qCC_io/STLFilter.cpp:425-436 | every index of the new cloud is some root's rank |
| WeldLaws.WeldPoints | libs/qCC_io/STLFilter.cpp:438-486 | when the new cloud is used, it has one point per root, exactly reserved, and every vertex's new index holds its root's point |
| WeldLaws.WeldTriangles | libs/qCC_io/STLFilter.cpp:452-486 | the welded mesh keeps at most the loaded triangles, all valid and non-degenerate over the new cloud, with exact capacity and normal indexes cut to match |
| WeldLaws.SurvivesIffDistinctRoots | libs/qCC_io/STLFilter.cpp:458-464 | a triangle survives exactly when its three corners were tagged with three different roots |
| WeldLaws.RewrittenCorners | libs/qCC_io/STLFilter.cpp:458-486 | every corner of a rewritten triangle holds the point of its original corner's root |
| WeldLaws.WeldConsistent | libs/qCC_io/STLFilter.cpp:472-486 | corrected, the compaction leaves the mesh as loaded, or gives the root points with the surviving rewritten triangles |
| WeldLaws.CollapseAsWritten | libs/qCC_io/STLFilter.cpp:472-477 | as written, a mesh whose only triangle collapses keeps rewritten indexes over the old cloud, so a corner no longer holds its root's point |
| WeldLaws.WeldKeepsGlobal | libs/qCC_io/STLFilter.cpp:438-486 | corrected, every vertex keeps its global coordinates through the compaction |
| WeldLaws.ShiftAsWritten | libs/qCC_io/STLFilter.cpp:438-486 | as written, a shifted cloud comes out without its shift, so its global coordinates move |

## Left out

- Opening the file, seeking and QFile errors are left out: the file is its byte sequence and
  `fp.error()` is never set. The READING branch at line 611 is therefore
  not reachable in the model.
- QTextStream decoding is modelled as Latin-1. Line splitting follows
  `readLine`: it splits at "\n" and strips a trailing "\r".
- Number parsing is an oracle: `toDouble`, `%e` printing and float
  encoding and decoding. Coordinates are exact reals, so the float/double
  conversions and the precision the binary format loses are not modelled.
- The global-shift dialog (`HandleGlobalShift`) is an oracle that proposes a shift
  for the first vertex.
- `GetNormIndex` is an oracle that returns the compressed normal code.
- The octree is left out: its construction, the cell geometry and the
  sphere search. The traversal is an input whose search is assumed
  symmetric and to contain the query point. The model proves, rather than
  assumes, that the table is then rooted.
- The progress dialogs, log messages, `lineCount`, `showNormals`, `setEnabled` and the
  container hierarchy are left out. Only their effect on the result is kept:
  cancellation, and the mesh handed to the container.
- `normals->shrinkToFit()` (line 396) is left out because it changes only capacity, which the model does not track for the normal table.
- The `unsigned` arithmetic of `vertCount + remainingCount` (line 432) is
  left out: the model's integers do not wrap, and a cloud of 2^31 points
  is outside what the source can allocate anyway.
- Uninitialised `vertIndexes` slots, after a bad ASCII vertex line, are
  recorded as -1.
- `Mesh.SwapTriangles` and `Mesh.Resize` assume that ccMesh moves and cuts the
  per-triangle normal indexes together with the triangles.
- `CanSave` takes an entity class as `MeshEntity` or any other class, not as
  the numeric CC_TYPES codes.
- The ASCII writer's global coordinates (`toGlobal3d`, lines 217-227) are the
  local point minus the cloud's global shift. The cloud's global scale is
  taken as 1, so the division by the scale is not modelled.
- `saveToFile`, which checks the entity and opens the file, is not part of this
  model.
- Bytes that a short binary read does not fill are zeros in the model
  (`BinaryReader.Padded`). The source leaves the buffer as it was: for the
  first corner, `Pf` is uninitialised (lines 913-917). Only the reader as
  written reaches this, for a file that ends inside its last facet.
- The ASCII writer-to-reader round trip is not proved. It would need `toDouble`
  to read back the `%e` text of a number, a law between two oracles that the
  model does not state. For the ASCII text, the model proves only that it is
  detected as ASCII and its line count.
- LoadFile: with `corrected` false it is loadFile as written, the header read
  past its buffer included (`beyond`), except on two paths where the source
  has no defined outcome. Those paths follow the
  corrected program: a blank ASCII facet line
  (`AsciiLaws.WhitespaceLineAsWritten`), and the facets stored after a refused
  binary normal table (`BinaryReader.StaleNormalWrites`).
- ReadFile: the same two paths follow the corrected program when `corrected`
  is false.
- ReadMesh: the same two paths follow the corrected program when `corrected`
  is false.
- ReadFacetEnd (BinaryLoader.ReadFacetEnd): after a refused normal table
  (`BinaryReader.ReserveFacets`), it stores the triangle without a normal, as
  `BinaryReader.FromEnd` does. Lines 984-991 as written store the normal
  through the released table instead. `BinaryReader.StaleNormalWrites` counts
  those stores.

## Findings

| source | as written | input that shows it | evidently intended | confidence | as-written member | corrected member |
|---|---|---|---|---|---|---|
| libs/qCC_io/STLFilter.cpp:617-619 | for a facet line with no token, `tokens[0]` is read from an empty list | an ASCII facet line holding one space | such a line is not a facet, and the load returns MalformedFile | not executed | AsciiLaws.WhitespaceLineAsWritten | AsciiLaws.BlankFacetLineRejected |
| libs/qCC_io/STLFilter.cpp:917, 973 | a short vertex or attribute read is checked with `< 0`, so a file that ends inside its last facet, after that facet's full 12-byte normal, is accepted; a file cut earlier still fails, at the next normal read (lines 907-908) | an 84-byte header and count of 1 followed by only the 12 normal bytes | a short read returns Reading | not executed | BinaryLaws.TruncatedFacetAsWritten | BinaryLaws.TruncatedFacetRejected |
| libs/qCC_io/STLFilter.cpp:472-477 | when every triangle collapses, the new cloud is dropped but the triangles keep their rewritten indexes | 4 points, triangle (0,1,3), table [0,0,2,2] | the loaded triangles are kept with the loaded cloud | not executed | WeldLaws.CollapseAsWritten | WeldLaws.WeldConsistent |
| libs/qCC_io/STLFilter.cpp:335, 343 | `QString(header)` reads the 80-byte buffer as a C string that has no terminator when the header has no NUL | a header of 80 spaces, with "solid" in the memory that follows it | the header text ends at 80 bytes | not executed | Sniffer.HeaderOverrun | Sniffer.HeaderTextWithin |
| libs/qCC_io/STLFilter.cpp:439, 481 | the new cloud is created without the loaded cloud's global shift | a cloud shifted by (100,0,0) | the welded cloud keeps the shift | not executed | WeldLaws.ShiftAsWritten | WeldLaws.WeldKeepsGlobal |
| libs/qCC_io/STLFilter.cpp:883-889, 984-991 | when the normal tables are refused they are released, but the local `normals` pointer is not cleared (the ASCII reader clears it at line 789), so every facet read afterwards stores its normal through the released table | the binary image of a one-facet mesh, read with the triangle reservation granted and the normal table refused | the reader goes on without normals and loads the mesh without them | not executed | BinaryRoundTrip.StaleWritesAsWritten | BinaryRoundTrip.BinaryRoundTrip |
