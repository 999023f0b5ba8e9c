# Indexed OBJ loader and camera toggle

A Dafny model of the two pieces of logic in `main.cpp` of a small OpenGL
viewer.

**`loadOBJ`** turns the records of a Wavefront OBJ file into an indexed
mesh:
- `v` lines give positions and `vn` lines give normals, both collected in
  file order;
- each corner `p/t/n` of an `f` line names a position and a normal
  (1-based) and becomes a candidate vertex;
- a linear scan over the vertices emitted so far reuses the first one that
  compares equal, or appends the candidate;
- either way, exactly one index is emitted per corner.

**`processInput`** has a latch that makes key C switch the camera between
perspective and orthographic projection once per press.

Modules:

- `Geometry` (`geometry.dfy`): the `Vertex` struct and the `==` test the
  scan uses. A float component is a number or NaN. NaN compares unequal to
  everything, so a vertex with a NaN is never reused.
- `IndexedMesh` (`indexed_mesh.dfy`): the first-match scan (`FindMatch`),
  one corner (`AddCorner`), a run of corners (`Dedup`), and the mesh
  invariants with their proofs. The invariants are: no two vertices compare
  equal, every index names a vertex, first match wins, and new vertices
  appear in order of first use.
- `ObjLoader` (`obj_loader.dfy`): the line loop as a fold over parsed
  records (`Step`, `Run`, `LoadObj`). Positions and normals are read in a
  single pass, so an `f` line can only use the positions and normals above
  it. `Admissible` states that requirement.
- `ObjLoaderLoops` (`obj_loader_loops.dfy`): the same loader written as the
  nested loops of the source. The loop invariants prove it equal to
  `LoadObj`.
- `CameraToggle` (`camera_toggle.dfy`): the `static bool cPressed` latch as
  explicit state stepped once per frame.
- `Triangulation` (`triangulation.dfy`): the fan triangulation the source's
  comment announces but does not perform (see Findings). It shows the
  missing step on a quad and defines the loader with the fan applied.

`loadOBJ` appends to vectors the caller passes in. So the model starts from
an arbitrary `Mesh`, and the mesh properties are stated as invariants that a
load preserves. `main` passes empty vectors, which is the case
`VertexCountIsDistinctCorners` covers.

## Model

| member | source | states |
|---|---|---|
| Geometry.SameAttributesIsEquality | main.cpp:80-81 | The position-and-normal `==` test holds exactly when the two vertices are identical and carry no NaN component. |
| IndexedMesh.FindFrom | main.cpp:79-86 | The scan returns an index at or after its start whose vertex passes the test, with no earlier hit. It returns nothing exactly when no vertex from the start on passes. |
| IndexedMesh.FindMatch | main.cpp:78-86 | The scan from index 0 finds the smallest index whose vertex passes the test. It finds none exactly when no emitted vertex passes. |
| IndexedMesh.AddCorner | main.cpp:77-94 | One corner emits exactly one index. Existing vertices and indices are kept as a prefix. The new index is a first match for the candidate. A vertex is appended exactly when no existing vertex passes the test, and then the index is the old vertex count. |
| IndexedMesh.Dedup | main.cpp:64-95 | The corners of a face keep the old vertices and indices as prefixes, add one index per corner, and add at most one vertex per corner. |
| IndexedMesh.DedupAppend | main.cpp:64-95 | Resolving two runs of corners one after the other is the same as resolving their concatenation, because the scan state is only the vertex list. |
| IndexedMesh.DedupResolves | main.cpp:79-93 | The index emitted for the k-th corner names a vertex equal to that corner's candidate, and no earlier vertex passes the test against it (first match wins). |
| IndexedMesh.DedupKeepsDistinct | main.cpp:78-94 | If no two vertices passed the test against each other before, none do after: a candidate is appended only when the whole scan missed. |
| IndexedMesh.DedupKeepsIndicesValid | main.cpp:79-93 | Every index stays below the vertex count. A reused index is a scan position, and an appended one is the new size minus one. |
| IndexedMesh.DedupFirstOccurrenceOrder | main.cpp:88-93 | Every new vertex is used, and its first use comes after corners that use only lower indices. So new vertices appear in order of first occurrence. |
| IndexedMesh.EqualCornersShareIndex | main.cpp:79-85 | Two corners with identical NaN-free candidates get the same index. |
| IndexedMesh.VertexCountIsDistinctCorners | main.cpp:78-94 | From empty vectors with NaN-free corners, the vertex list holds exactly the distinct candidate values, each once. |
| ObjLoader.Run | main.cpp:45-104 | Over all lines, positions and normals are those of the file in order. The caller's vectors are only appended to, and the index count grows by the number of corner tokens. |
| ObjLoader.RunAppend | main.cpp:45-104 | Reading a file in two parts, the second part starting from the state the first left, gives the same result as reading it whole. |
| ObjLoader.RunIsDedup | main.cpp:45-104 | The mesh a run produces is the corner-by-corner deduplication of all corner candidates in file order. |
| ObjLoader.CandidatesAt | main.cpp:64-91 | The candidate of corner `j` on line `i` is the position and normal it names, converted from 1-based, among those read before line `i`. |
| ObjLoader.LoadObj | main.cpp:29-107 | Failing to open returns false exactly when the file is unreadable. Otherwise the vectors are appended to, with exactly one index per corner token. So a face of k corners adds k indices and is not split into triangles. |
| ObjLoader.LoadObjResolvesCorners | main.cpp:70-93 | For every corner of every face, the emitted index names the vertex built from the referenced position and normal, and it is the first vertex that passes the test. |
| ObjLoader.LoadObjKeepsInvariants | main.cpp:78-94 | A load preserves both invariants: no two vertices pass the test against each other, and every index names a vertex. |
| ObjLoader.LoadObjFirstUseOrder | main.cpp:88-93 | Over a whole file, new vertices appear in the order their first corner is met. |
| ObjLoader.OtherLinesAreInert | main.cpp:45-60 | Inserting a line with any other first word changes nothing in the result. |
| ObjLoaderLoops.ResolveCorner | main.cpp:77-94 | The `for` scan with `found` and `break` computes exactly `AddCorner`: it reuses the first match or appends. |
| ObjLoaderLoops.ResolveFace | main.cpp:64-95 | The corner loop of one `f` line computes exactly the deduplication of that face's candidates. |
| ObjLoaderLoops.ReadLine | main.cpp:46-103 | One turn of the `getline` loop dispatches on the first word exactly as `Step` does. |
| ObjLoaderLoops.LoadObjLoops | main.cpp:29-107 | The imperative loader returns false and leaves the vectors untouched exactly when the file is unreadable. Otherwise it leaves the vectors equal to `LoadObj`'s result. |
| CameraToggle.Step | main.cpp:199-208 | After a frame the latch equals the key state. The mode flips exactly when the key is down and the latch was clear. |
| CameraToggle.FlipsAreRisingEdges | main.cpp:199-208 | Over any run of frames, the number of mode flips equals the number of released-to-pressed key transitions, so the final mode is the initial one flipped by their parity. The latch holds the last key sample. |
| CameraToggle.HeldKeyFlipsOnce | main.cpp:200-205 | Holding the key for n ≥ 1 frames after a release flips the mode exactly once. |
| CameraToggle.HeldWhileLatchedChangesNothing | main.cpp:200-201 | While the latch is set and the key stays down, neither the mode nor the latch changes. |
| CameraToggle.ReleasedFramesKeepMode | main.cpp:206-208 | Frames with the key up never change the mode, and they clear the latch. |
| Triangulation.Fan | main.cpp:97-102 | A face of k ≥ 3 corners gives 3(k-2) indices. Triangle t is corners 0, t+1 and t+2. Every index comes from the face. |
| Triangulation.QuadIsNotTriangulated | main.cpp:61-102 | After four `v` lines and one `vn` line, the line `f 1//1 2//1 3//1 4//1` emits the four indices 0 1 2 3, which is not a multiple of three. The fan loader emits 0 1 2 0 2 3 over the same four vertices. |
| Triangulation.RunFanSharesVerticesFrom | main.cpp:77-94 | Two loader states that differ only in their index lists keep building the same positions, normals and vertex list, one with the fan and one without. So the fan loader's vertex list is the original's. |
| Triangulation.RunFanAgreesOnTriangles | main.cpp:64-102 | On files whose faces are all triangles, the fan loader and the original give identical results. |
| Triangulation.RunFanIndexCount | main.cpp:97-102 | The fan loader emits three indices per fan triangle and keeps the old indices as a prefix. It preserves both mesh invariants. |
| Triangulation.LoadObjTriangulatedIsTriangles | main.cpp:97-102 | The corrected `loadOBJ` has the original's vertex list and emits whole triangles only. Every index names a vertex. |
| Triangulation.FaceTrianglesResolve | main.cpp:77-102 | Each fan triangle of a face names, by first match, the vertices of face corners 0, t+1 and t+2. |

## Left out

- Opening the file, `getline`, `istringstream` tokenizing and the error
  message: the input is a `Source` that is either unreadable or a sequence
  of parsed records (`PositionLine`, `NormalLine`, `FaceLine`, `OtherLine`).
- Number parsing (`>>` into floats, `std::stoi`). A corner token with an
  empty normal field makes `stoi` throw, which ends the program; no error
  value exists in the code, so the model has no error result either.
- Texture coordinates: the middle field of a corner is read and discarded,
  and `vt` lines fall under `OtherLine`.
- Out-of-range corner references: the source indexes its position and normal
  vectors unchecked, which is undefined behaviour, so `LoadObj` and the loop
  methods require `Admissible` (every reference within the positions and
  normals read so far) instead of modelling an outcome.
- Float detail beyond `==`: a component is a real or NaN, so +0 and -0 are
  one value and infinities are not distinguished. The scan uses `==`, not a
  bitwise comparison, so two vertices whose components all compare equal
  are merged.
- `unsigned int` indices: the model uses unbounded naturals. The source
  would truncate an index only past 2^32 vertices.
- Shader creation, buffer setup, the resize callback, GL uniform and draw
  calls, and glm matrices: these are foreign graphics and windowing calls.
- The Escape key, the console message printed on a toggle, and the render
  loop: I/O around the latch. `CameraToggle.Initial` records the starting
  state, perspective on and latch clear.
- LoadObj: states the index count and prefixes. The exact contents are
  given by `RunIsDedup`, `LoadObjResolvesCorners` and
  `LoadObjFirstUseOrder`, not by its own contract.

## Findings

| source | as written | input that shows it | evidently intended | confidence | as-written member | corrected member |
|---|---|---|---|---|---|---|
| main.cpp:97-102 | The triangulation loop walks `face_indices`, which nothing fills, so it never runs. Every corner index goes straight to `indices`, and a quad adds four indices to a buffer drawn as `GL_TRIANGLES`. If the vector were filled, the loop would push onto the vector it iterates and never end. | `v` ×4, `vn` ×1, then `f 1//1 2//1 3//1 4//1` | Faces with more than three corners are emitted as the fan (c0, c1, c2), (c0, c2, c3), …, which gives indices 0 1 2 0 2 3 for the quad. | high; not executed | Triangulation.QuadIsNotTriangulated | Triangulation.LoadObjTriangulated |
