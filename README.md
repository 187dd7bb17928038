# Out-of-core mesh store of the Poisson reconstruction geometry header

This project models the mesh-storage layer declared in
`include/poisson/Geometry.h` and the small value types around it, and proves
properties of that model in Dafny.

The store (`CoredMeshData`) lets a producer append out-of-core points and
polygons and lets an exporter read them back after `resetIterator`. A polygon
vertex is a `CoredVertexIndex {idx, inCore}`. It names either an entry of the
caller's `inCorePoints` or an entry of the store's own point sequence. The
store has two backends:

- `CoredVectorMeshData` keeps the points and the packed `vector<int>`
  polygons in memory, with two read cursors.
- `CoredFileMeshData` writes both to `BufferedReadWriteFile`s and keeps two
  counters.

The member bodies of the stores and of `BufferedReadWriteFile` are defined in
`Geometry.hpp`, outside this model. For them the model is the contract that
the declarations and fields in `Geometry.h` imply, plus a reference
implementation of each class that is proved against that contract.

Modules, one per component:

- `CoredIndex` (`cored_index.dfy`): `CoredPointIndex` and its `==`/`!=`,
  `CoredVertexIndex`, and the packing of polygons into `int`s.
- `MeshContract` (`mesh_contract.dfy`): the `CoredMeshData` contract. The
  store is its `inCorePoints` plus two append-only streams with read cursors.
  It covers every call, arbitrary call sequences (`Run`), and the lemmas for
  FIFO read-back, exhaustion, counts and "reading changes nothing".
- `VectorMesh` (`vector_mesh.dfy`): class `CoredVectorMeshData` with the
  source's fields `oocPoints`, `polygons`, `polygonIndex`, `oocPointIndex`.
- `BufferedFile` (`buffered_file.dfy`): class `BufferedReadWriteFile`, a
  record file with a read position, and the write/reset/read round trip.
- `FileMesh` (`file_mesh.dfy`): class `CoredFileMeshData` with the two files
  and the counters `oocPoints`, `polygons`. It also holds the polygon-file
  layout (count, then packed vertices) and its lossless parse-back.
- `MeshStore` (`mesh_store.dfy`): the dispatch of all nine virtual calls of
  `CoredMeshData` over the two backends, with two client methods that use the
  contract alone.
- `XForm` (`xform.dfy`): `XForm3x3`/`XForm4x4` zero constructor, `Identity`,
  `transpose`, cofactor row/column selection, and the sign and placement of
  the 4x4 inverse's entries.
- `PlyColor` (`ply_color.dfy`): the colour conversions of `PlyColorVertex`
  and `PlyColorAndValueVertex`.
- `Wrappers` (`wrappers.dfy`): `Option`.

Modelling decisions:

- The packing of a `CoredVertexIndex` into the `int` of `polygons`
  (`vector<vector<int>>`, line 510) is defined in `Geometry.hpp`, outside this
  model. The model uses
  `inCore ? idx : -idx-1`. With `0 <= idx <= INT_MAX` this is a bijection
  onto the 32-bit `int`s, proved in both directions. An in-core index of -1
  would collide with out-of-core index 0. So `AddPolygonS` and the other add
  methods require every index to be in `[0, INT_MAX]`. A `CoredVertexIndex`
  names an array position, so this range is the only meaningful one.
- The `vector<int>` overload of `addPolygon_s` (line 497) has its body in
  `Geometry.hpp`, outside this model. The model reads this overload as the
  producer's form for a polygon whose vertices are all already stored here:
  every entry becomes an out-of-core point index (`WrapOutOfCore`).
- `BufferedReadWriteFile` holds records rather than bytes. The point file
  holds one record per vertex, standing for the `sizeof(Vertex)` bytes. The
  polygon file holds `int` records: the vertex count, then the packed
  vertices. A failed `read` leaves the read position where it was.
- `next*` methods return `bool` for the source's `int` result 1/0. On
  failure the out-parameter is unspecified.
- Methods named `...S` are the synchronised `_s` entry points. In this
  single-threaded model they behave like the plain ones.

## Model

| member | source | states |
|---|---|---|
| CoredIndex.Equal | include/poisson/Geometry.h:422 | `==` holds exactly when both `index` and `inCore` agree (structural equality) |
| CoredIndex.NotEqual | include/poisson/Geometry.h:423 | `!=` is the exact negation of `==` and holds exactly when the references differ |
| CoredIndex.FlagSeparatesReferences | include/poisson/Geometry.h:419-423 | same index with different flags: the references are unequal |
| CoredIndex.RawFlagComparison | include/poisson/Geometry.h:420-423 | the `char` flag is compared raw: for any two references to the same index, two different non-zero flags make them unequal |
| CoredIndex.Encode | include/poisson/Geometry.h:510 | packing a valid reference gives a 32-bit int that is negative exactly for out-of-core references |
| CoredIndex.Decode | include/poisson/Geometry.h:524 | unpacking any 32-bit int gives a valid reference, in-core exactly when the int is non-negative |
| CoredIndex.DecodeEncode | include/poisson/Geometry.h:482-486 | unpacking undoes packing: both `idx` and `inCore` survive |
| CoredIndex.EncodeDecode | include/poisson/Geometry.h:509-510 | every 32-bit int is the packing of the reference it unpacks to |
| CoredIndex.EncodeInjective | include/poisson/Geometry.h:520-524 | two valid references pack to the same int if and only if they are equal |
| CoredIndex.EncodePolygon | include/poisson/Geometry.h:520 | the packed polygon has the same length and only 32-bit entries |
| CoredIndex.DecodePolygon | include/poisson/Geometry.h:524 | the unpacked polygon has the same length and only valid references |
| CoredIndex.DecodeEncodePolygon | include/poisson/Geometry.h:520-524 | a polygon read back equals the polygon added |
| CoredIndex.EncodeDecodePolygon | include/poisson/Geometry.h:510 | every stored `vector<int>` is the packing of the polygon read back from it |
| CoredIndex.WrapOutOfCore | include/poisson/Geometry.h:497 | the `vector<int>` overload wraps entry k as out-of-core reference to point k's index |
| MeshContract.Next | include/poisson/Geometry.h:499-500 | a read succeeds exactly while items remain, delivers the item under the cursor, moves only the cursor and never past the end |
| MeshContract.ReadMany | include/poisson/Geometry.h:499-500 | successive reads deliver at most one item each, keep the stored items and keep the cursor within the end |
| MeshContract.ReadManyDelivers | include/poisson/Geometry.h:499-500 | k reads deliver the next k items in order, or all that remain; the cursor advances once per delivered item and stops at the count |
| MeshContract.AppendAllKeepsOrder | include/poisson/Geometry.h:494-497 | successive appends keep the earlier items and add the new ones at the end, in order |
| MeshContract.DrainAfterRewind | include/poisson/Geometry.h:492 | after a reset exactly count-many reads succeed, in insertion order, and the next one fails |
| MeshContract.AppendThenDrain | include/poisson/Geometry.h:494-500 | items appended one by one are read back after a reset in the order they were appended |
| MeshContract.Empty | include/poisson/Geometry.h:514 | a new store is valid: no points, no polygons, cursors at 0 |
| MeshContract.OutOfCorePointCount | include/poisson/Geometry.h:502 | the point count is never negative and bounds the point cursor of a valid store |
| MeshContract.PolygonCount | include/poisson/Geometry.h:503 | the polygon count is never negative and bounds the polygon cursor of a valid store |
| MeshContract.AddOutOfCorePoint | include/poisson/Geometry.h:494-495 | the point count grows by one, the polygon count is unchanged, a valid store stays valid |
| MeshContract.AddPolygon | include/poisson/Geometry.h:496-497 | the polygon count grows by one, the point count is unchanged, a valid polygon keeps the store valid |
| MeshContract.ResetIterator | include/poisson/Geometry.h:492 | both cursors return to the start; stored points, polygons and `inCorePoints` are unchanged; validity is kept |
| MeshContract.NextOutOfCorePoint | include/poisson/Geometry.h:499 | succeeds exactly while points remain, returns the point under the cursor, changes nothing but that cursor, keeps validity |
| MeshContract.NextPolygon | include/poisson/Geometry.h:500 | succeeds exactly while polygons remain, returns the polygon under the cursor, changes nothing but that cursor, keeps validity |
| MeshContract.AddOutOfCorePointIndex | include/poisson/Geometry.h:494 | the index returned is the count before the call; the count grows by one, the point sits at that index, nothing else changes |
| MeshContract.AddPolygonIndex | include/poisson/Geometry.h:496-497 | the same for polygons |
| MeshContract.Step | include/poisson/Geometry.h:492-503 | every call keeps the store valid |
| MeshContract.Run | include/poisson/Geometry.h:487-504 | after any sequence of calls neither cursor exceeds its count |
| MeshContract.ReadingKeepsContents | include/poisson/Geometry.h:499-503 | any sequence of resets and reads leaves both counts, the stored points and polygons, and `inCorePoints` unchanged |
| MeshContract.RunKeepsStoredItems | include/poisson/Geometry.h:494-497 | no call loses data: earlier points and polygons stay at their indices and `inCorePoints` is unchanged |
| MeshContract.ExportPass | include/poisson/Geometry.h:492-503 | after `resetIterator`, count-many `next*` calls return every point (polygon) in order and the following call fails |
| VectorMesh.DecodeAll | include/poisson/Geometry.h:510 | the stored polygons, as `nextPolygon` hands them out, entry by entry |
| VectorMesh.CoredVectorMeshData.Abstract | include/poisson/Geometry.h:509-512 | the fields and cursors form a valid contract state |
| VectorMesh.CoredVectorMeshData.constructor | include/poisson/Geometry.h:514 | a new in-memory store is the empty contract state |
| VectorMesh.CoredVectorMeshData.ResetIterator | include/poisson/Geometry.h:516 | both cursors return to 0, nothing else changes |
| VectorMesh.CoredVectorMeshData.AddOutOfCorePoint | include/poisson/Geometry.h:518 | returns the count before the call and appends the point |
| VectorMesh.CoredVectorMeshData.AddOutOfCorePointS | include/poisson/Geometry.h:519 | the same as `AddOutOfCorePoint` |
| VectorMesh.CoredVectorMeshData.AddPolygonS | include/poisson/Geometry.h:520 | returns the polygon count before the call and appends the polygon (stored packed, read back unchanged) |
| VectorMesh.CoredVectorMeshData.AddPolygonIndicesS | include/poisson/Geometry.h:521 | appends the polygon of out-of-core references to the given indices |
| VectorMesh.CoredVectorMeshData.NextOutOfCorePoint | include/poisson/Geometry.h:523 | returns the point under the cursor and advances it, or fails without change once exhausted |
| VectorMesh.CoredVectorMeshData.NextPolygon | include/poisson/Geometry.h:524 | returns the unpacked polygon under the cursor and advances it, or fails without change once exhausted |
| VectorMesh.CoredVectorMeshData.OutOfCorePointCount | include/poisson/Geometry.h:526 | the number of stored points |
| VectorMesh.CoredVectorMeshData.PolygonCount | include/poisson/Geometry.h:527 | the number of stored polygons |
| BufferedFile.ReadAt | include/poisson/Geometry.h:539 | a read of `size` records succeeds exactly when that many remain, and returns them |
| BufferedFile.ReadBackFrom | include/poisson/Geometry.h:538-539 | reads starting where earlier writes ended return the later writes, chunk by chunk |
| BufferedFile.WriteResetRead | include/poisson/Geometry.h:538-540 | data of successive writes, followed by reset, is returned by reads of the same sizes in the same order |
| BufferedFile.ReadChunks | include/poisson/Geometry.h:539 | successive `read` calls return one chunk per requested size, each of that size, and fail as soon as one read fails |
| BufferedFile.BufferedReadWriteFile.constructor | include/poisson/Geometry.h:536 | a new file is empty; it is temporary exactly when no name is given; the default buffer size is `1<<20` |
| BufferedFile.BufferedReadWriteFile.Write | include/poisson/Geometry.h:538 | appends the data and succeeds; the read position is unchanged |
| BufferedFile.BufferedReadWriteFile.Read | include/poisson/Geometry.h:539 | returns the next `size` records and advances, or fails and leaves the position |
| BufferedFile.BufferedReadWriteFile.Reset | include/poisson/Geometry.h:540 | the next read starts at the first record; the contents are unchanged |
| FileMesh.Record | include/poisson/Geometry.h:556 | a polygon on file is its vertex count followed by its packed vertices |
| FileMesh.Frame | include/poisson/Geometry.h:556-557 | the polygon file of the polygons added: empty exactly when none were added, at least one entry per polygon, starting with the first polygon's vertex count |
| FileMesh.ParsePolygons | include/poisson/Geometry.h:560 | a successful parse yields valid polygons, no more than the file has entries; a negative count is rejected |
| FileMesh.ParseFrame | include/poisson/Geometry.h:556-560 | the polygon file parses back to exactly the polygons added, flags and indices included |
| FileMesh.CoredFileMeshData.Abstract | include/poisson/Geometry.h:545-547 | the files, counters and read positions form a valid contract state |
| FileMesh.CoredFileMeshData.constructor | include/poisson/Geometry.h:549 | a new disk store is the empty contract state, over two fresh temporary files |
| FileMesh.CoredFileMeshData.ResetIterator | include/poisson/Geometry.h:552 | resets both files: both cursors return to 0, nothing else changes |
| FileMesh.CoredFileMeshData.AddOutOfCorePoint | include/poisson/Geometry.h:554 | returns the count before the call and appends the point |
| FileMesh.CoredFileMeshData.AddOutOfCorePointS | include/poisson/Geometry.h:555 | the same as `AddOutOfCorePoint` |
| FileMesh.CoredFileMeshData.AddPolygonS | include/poisson/Geometry.h:556 | returns the polygon count before the call and appends the polygon |
| FileMesh.CoredFileMeshData.AddPolygonIndicesS | include/poisson/Geometry.h:557 | appends the polygon of out-of-core references to the given indices |
| FileMesh.CoredFileMeshData.NextOutOfCorePoint | include/poisson/Geometry.h:559 | returns the next point and advances, or fails without change once exhausted |
| FileMesh.CoredFileMeshData.NextPolygon | include/poisson/Geometry.h:560 | returns the next polygon exactly as added and advances, or fails without change once exhausted |
| FileMesh.CoredFileMeshData.OutOfCorePointCount | include/poisson/Geometry.h:562 | the counter equals the number of stored points |
| FileMesh.CoredFileMeshData.PolygonCount | include/poisson/Geometry.h:563 | the counter equals the number of stored polygons |
| MeshStore.Abstract | include/poisson/Geometry.h:487-504 | whichever backend, a valid store has a valid contract state |
| MeshStore.NewStore | include/poisson/Geometry.h:506-507 | either backend starts as the empty contract state |
| MeshStore.ResetIterator | include/poisson/Geometry.h:492 | the virtual call acts as the contract's `resetIterator` on both backends |
| MeshStore.AddOutOfCorePoint | include/poisson/Geometry.h:494 | the virtual call acts as the contract's `addOutOfCorePoint` on both backends |
| MeshStore.AddPolygon | include/poisson/Geometry.h:496 | the virtual call acts as the contract's `addPolygon_s` on both backends |
| MeshStore.AddOutOfCorePointS | include/poisson/Geometry.h:495 | the virtual call acts as the contract's `addOutOfCorePoint` on both backends |
| MeshStore.AddPolygonIndicesS | include/poisson/Geometry.h:497 | the virtual call appends the polygon of out-of-core references to the given indices on both backends |
| MeshStore.OutOfCorePointCount | include/poisson/Geometry.h:502 | the virtual call returns the contract's point count on both backends |
| MeshStore.PolygonCount | include/poisson/Geometry.h:503 | the virtual call returns the contract's polygon count on both backends |
| MeshStore.NextOutOfCorePoint | include/poisson/Geometry.h:499 | the virtual call acts as the contract's `nextOutOfCorePoint` on both backends |
| MeshStore.NextPolygon | include/poisson/Geometry.h:500 | the virtual call acts as the contract's `nextPolygon` on both backends |
| XForm.Zero | include/poisson/Geometry.h:78 | the constructor sets every entry to 0 |
| XForm.Set | include/poisson/Geometry.h:85 | `xForm(i, j) = x` changes entry (i, j) only |
| XForm.Identity3 | include/poisson/Geometry.h:79-84 | 1 on the diagonal, 0 elsewhere (3x3) |
| XForm.Identity4 | include/poisson/Geometry.h:126-131 | 1 on the diagonal, 0 elsewhere (4x4) |
| XForm.Transpose3 | include/poisson/Geometry.h:99-104 | entry (i, j) of the result is entry (j, i) of the input (3x3) |
| XForm.Transpose4 | include/poisson/Geometry.h:150-155 | entry (i, j) of the result is entry (j, i) of the input (4x4) |
| XForm.TransposeInvolutive | include/poisson/Geometry.h:150-155 | transposing twice gives back the original matrix, for any size |
| XForm.TransposeIdentity | include/poisson/Geometry.h:126-131 | both identities are their own transpose |
| XForm.CofactorIndices3 | include/poisson/Geometry.h:107-108 | `(i+1)%3`, `(i+2)%3` are in [0, 3), differ from `i` and from each other |
| XForm.Minor3 | include/poisson/Geometry.h:105-110 | the 2x2 block taken from rows `(i+1)%3`, `(i+2)%3` and columns `(j+1)%3`, `(j+2)%3`, entry by entry |
| XForm.CofactorIndices4 | include/poisson/Geometry.h:159 | `ii`/`jj` hold three distinct indices in [0, 4), none equal to `i` |
| XForm.CofactorIndices4Complete | include/poisson/Geometry.h:159 | every index other than `i` occurs in `ii` |
| XForm.Minor4 | include/poisson/Geometry.h:158-160 | entry (a, b) of the 3x3 block is entry (`ii[a]`, `jj[b]`) of the matrix |
| XForm.Minor3Transpose | include/poisson/Geometry.h:105-110 | the 3x3 cofactor block of the transpose at (i, j) is the transpose of the block at (j, i) |
| XForm.Minor4Transpose | include/poisson/Geometry.h:156-162 | the 4x4 cofactor block of the transpose at (i, j) is the transpose of the block at (j, i) |
| XForm.MinorIdentity | include/poisson/Geometry.h:156-162 | the diagonal cofactor blocks of the identities are identities |
| XForm.CofactorSign | include/poisson/Geometry.h:168-170 | the sign is + exactly when (i+j) is even, and - otherwise |
| XForm.CofactorSignCheckerboard | include/poisson/Geometry.h:169-170 | the signs are symmetric, flip between neighbours and are + on the diagonal |
| XForm.InverseLayout4 | include/poisson/Geometry.h:164-172 | entry (j, i) of the inverse is the (i, j) quotient with the (i, j) cofactor sign |
| XForm.InverseLayout4Transpose | include/poisson/Geometry.h:168-171 | laying out the quotients of a transposed matrix gives the transposed layout |
| PlyColor.TruncateToInt | include/poisson/Geometry.h:286 | the `(int)` cast truncates toward zero |
| PlyColor.Channel | include/poisson/Geometry.h:286 | a channel is rounded half up and clamped into [0, 255]: 255 from 254.5 up, 0 below 0.5 |
| PlyColor.ChannelMonotone | include/poisson/Geometry.h:327 | the channel conversion is monotone |
| PlyColor.ChannelOfByte | include/poisson/Geometry.h:281-286 | a byte widened to real converts back to itself |
| PlyColor.ToPlyColorVertex | include/poisson/Geometry.h:282-288 | `point` is copied and every channel is the clamped, rounded value |
| PlyColor.FromPlyColorVertex | include/poisson/Geometry.h:281 | `point` is copied and every colour channel is the byte widened to real |
| PlyColor.PlyColorVertexRoundTrip | include/poisson/Geometry.h:280-288 | widening a colour vertex and converting it back gives the same vertex |
| PlyColor.ToPlyColorAndValueVertex | include/poisson/Geometry.h:323-330 | `point` and `value` are copied and every channel is the clamped, rounded value |
| PlyColor.FromPlyColorAndValueVertex | include/poisson/Geometry.h:322 | `point` and `value` are copied and every colour channel is the byte widened to real |
| PlyColor.PlyColorAndValueVertexRoundTrip | include/poisson/Geometry.h:321-330 | widening a colour-and-value vertex and converting it back gives the same vertex |

## Left out

- Real file I/O in `BufferedReadWriteFile`: `FILE*`, temporary-file naming and deletion, the `_buffer` with its `_bufferIndex` and flushing. The file is an abstract record sequence with a read position. Its `write` always succeeds: disk-full and handle errors are not modelled.
- The shared file position of a real `FILE*` between writes and reads. In the model, writes append at the end and reads use their own position, so an add after `resetIterator` behaves the same on both backends.
- The byte-level layout of `CoredFileMeshData` records. It depends on `sizeof(Vertex)` and the memory representation. A vertex is one record, and an `int` is one record.
- 32-bit overflow of the counts and of the returned indices. They are unbounded integers here. Only the packed polygon entries are kept within the 32-bit `int` range.
- The `_s` methods' locking. No concurrency is modelled.
- Destructors (`~CoredFileMeshData`, `~BufferedReadWriteFile`): nothing to state about them without file I/O.
- Floating-point arithmetic: the `Point3D`, `OrientedPoint3D`, `ProjectiveData` and `Ply*Vertex` operators; the `determinant` and `inverse` values; `Edge::Length`; `Triangle::Area` and `AspectRatio`. This includes the suspect `point - p.value` (lines 243 and 333) and the `value + p.value` inside `operator -` (line 333). Matrix entries and colours are exact `real`s, not `float`/`double`.
- PlyColor.Channel: the `(int)` cast of a value outside the `int` range is undefined in C++. The model truncates unboundedly and then clamps.
- `Triangulation`, `EdgeCollapse`, `TriangleCollapse`, the `Random*` functions, `Length`, `Distance` and `CrossProduct`. They are declared in `Geometry.h` and defined in `Geometry.hpp`, outside this model.
- src/core/AlloyGaussianMixture.cpp and src/core/AlloyImageFeatures.cpp: floating-point numerics built on foreign library calls, not part of this model.
