# GLB viewer core, modelled in Dafny

This project models the core of `glb_visualizer.cpp`, a legacy-OpenGL viewer for binary glTF (`.glb`) files. The model has four parts.

- **Accessor decoders** (`AccessorDecoder`):
  - `get_buffer_data` flattens a FLOAT/VEC3 accessor into `3 * count` 4-byte words;
  - `get_index_data` widens a UINT16 or UINT32 index accessor into 32-bit indices.
  - Both are methods over arrays whose loops are proved against specification functions (`DecodeVec3`, `DecodeIndices`).
  - Floats are opaque 4-byte words (`Gltf.Word`), since the viewer only copies them. Index bytes are read little-endian, as glTF 2.0 prescribes.
- **Primitive extraction** (`MeshExtractor`). This is `loadGLB` from the point where the document has been parsed. It picks mesh 0, primitive 0, or fails with exit code 1. It decodes POSITION, NORMAL and the index list, each only when present.
- **Triangle assembly** (`Renderer`). `display` is modelled as a pure function from the three buffers and the rotation to a `Frame`. The frame holds the lighting choice, the rotation, and the sequence of `Normal`/`Vertex` calls the loop issues. A reference definition (`Draws`) says which vertices are drawn with which normal. `Parse` reads the call sequence back as draws.
- **Drag interaction** (`Interaction`). `mouse` and `motion` are a state machine over the drag flag, the anchor and two integer pixel sums. The source's angles (`angleX`, `angleY`) are half of those sums, in degrees.

The source's global variables are the fields of one class, `Viewer.Viewer`. Its methods `LoadGlb`, `Display`, `Mouse` and `Motion` are the four callbacks, and each is specified by the functions above.

Three behaviours of the code that its comments do not make obvious, all kept in the model:

- For a format other than FLOAT/VEC3, the vector decoder returns before its `resize` (glb_visualizer.cpp:75-78). It reports no failure to its caller and leaves the output vector exactly as it was. The output is empty only because the globals start empty.
- For an unsupported index component type, the index decoder has already resized its output to `count` (glb_visualizer.cpp:111). It stops at the first element, so it leaves `count` entries behind, all zeros from the empty start-up vector. The indices are not discarded, and `display` then draws vertex 0 `count` times if it exists.
- The index decoder never checks that the accessor is SCALAR. Only the component type is examined (`AccessorDecoder.IndexElementTypeIgnored`).

## Model

| member | source | states |
|---|---|---|
| Gltf.ReadU16 | glb_visualizer.cpp:117 | a UINT16 index read from the buffer is below 65536 |
| AccessorDecoder.Vec3Stride | glb_visualizer.cpp:88 | the element stride is positive, and it is 12 (three floats) when the buffer view gives no byteStride |
| AccessorDecoder.GetBufferData | glb_visualizer.cpp:67-100 | the loop that fills `count * 3` words from `base + i * stride` leaves exactly `DecodeVec3(m, acc, outData)`: the prior vector for another format, else the words of every element |
| AccessorDecoder.DecodeVec3Element | glb_visualizer.cpp:80-99 | for FLOAT/VEC3 the output has length `3 * count`, and entry `3i + k` is the word at `view.byteOffset + accessor.byteOffset + i * stride + 4k`, which lies inside the buffer |
| AccessorDecoder.DecodeVec3Unsupported | glb_visualizer.cpp:75-78 | an accessor that is not FLOAT/VEC3 leaves the output vector unchanged |
| AccessorDecoder.StridedRoundTrip | glb_visualizer.cpp:85-99 | decoding a buffer that holds the elements with `stride - 12` arbitrary bytes after each one but the last (padding, or other attributes interleaved with it, differing from element to element) gives back exactly those words; the buffer need hold nothing after the last element |
| AccessorDecoder.GetIndexData | glb_visualizer.cpp:104-127 | the resize and the widening loop, including the early return in its first iteration for an unsupported type, leave exactly `DecodeIndices(m, acc, outIndices)` |
| AccessorDecoder.DecodeIndices | glb_visualizer.cpp:108-126 | the index output always has `count` entries, and for UINT16 every entry is below 65536 |
| AccessorDecoder.IndexStrideIgnored | glb_visualizer.cpp:115-121 | changing the buffer view's byteStride does not change the decoded indices |
| AccessorDecoder.IndexElementTypeIgnored | glb_visualizer.cpp:108-126 | an index accessor of any element type decodes exactly as the same accessor marked SCALAR |
| AccessorDecoder.UnsupportedIndicesAreZeros | glb_visualizer.cpp:111-125 | for an unsupported index type, from an empty vector, the output is `count` zeros, not an empty vector |
| AccessorDecoder.U16RoundTrip | glb_visualizer.cpp:116-118 | decoding the tightly packed little-endian 2-byte encoding of any list of 16-bit values gives back that list |
| AccessorDecoder.U32RoundTrip | glb_visualizer.cpp:119-121 | decoding the tightly packed little-endian 4-byte encoding of any list of 32-bit values gives back that list |
| MeshExtractor.Load | glb_visualizer.cpp:148-183 | loading fails (exit 1) exactly when parsing failed, there are no meshes, or mesh 0 has no primitives; otherwise the buffers are those of the extraction from mesh 0, primitive 0 |
| MeshExtractor.LoadReadsOnlyFirstPrimitive | glb_visualizer.cpp:160-163 | two documents that agree on mesh 0's primitive 0 and on their buffers, views and accessors load to the same buffers |
| MeshExtractor.ExtractFromEmpty | glb_visualizer.cpp:166-183 | from the empty start-up buffers, a missing (or non-FLOAT/VEC3) POSITION or NORMAL attribute leaves that buffer empty, and `indices <= -1` leaves the index buffer empty |
| MeshExtractor.ExtractPositions | glb_visualizer.cpp:166-168 | a FLOAT/VEC3 POSITION attribute gives `3 * count` position words, component `k` of vertex `i` read at `base + i * stride + 4k` |
| Renderer.Render | glb_visualizer.cpp:223-267 | the frame is lit exactly when normals are loaded, applies the current rotation, and its calls are exactly the emission of the reference draws (which they also parse back to) |
| Renderer.TraceEmitsDraws | glb_visualizer.cpp:247-267 | the loop's calls are exactly the emission of the reference draws: every in-range index in order, its normal immediately before its vertex when one applies |
| Renderer.TraceParses | glb_visualizer.cpp:251-265 | reading the loop's calls back pairs each vertex with the normal issued just before it, and gives exactly the reference draws |
| Renderer.ParseEmit | glb_visualizer.cpp:255-265 | issuing each draw as an optional normal followed by its vertex can be read back without loss |
| Renderer.SkipOutOfRange | glb_visualizer.cpp:251 | an out-of-range index is skipped and the indices on both sides of it still draw |
| Renderer.AllInRange | glb_visualizer.cpp:247-266 | when every index is in range, one vertex is drawn per index, in order, each at `positions[3 * idx ..]` |
| Renderer.UnlitDrawsNoNormals | glb_visualizer.cpp:255-259 | with no normals loaded, every call in the frame is a vertex call |
| Renderer.GuardAsWritten | glb_visualizer.cpp:251 | the bounds check in 32-bit unsigned arithmetic admits every index the intended check admits, and agrees with it whenever `index * 3 + 2` fits in 32 bits |
| Renderer.WrappedIndexReadsMisalignedTriple | glb_visualizer.cpp:251-265 | with six position words, index 1431655766 passes the wrapped check without having a vertex, and its components are read at offsets 2, 3 and 4 |
| Renderer.WrappedIndexReadsPastEnd | glb_visualizer.cpp:251-263 | index 1431655765 passes the wrapped check for any buffer of two or more words, and its first component is read at offset 2^32 - 1, past the end |
| Interaction.MotionDegrees | glb_visualizer.cpp:304-305 | while dragging, motion grows `angleY` by `(x - lastMouseX) * 0.5` degrees and `angleX` by `(y - lastMouseY) * 0.5` degrees, in real arithmetic |
| Interaction.PressAnchors | glb_visualizer.cpp:288-292 | a left press starts dragging with the anchor at the pointer and keeps the rotation |
| Interaction.ReleaseStops | glb_visualizer.cpp:293-295 | any other left-button state only clears the drag flag |
| Interaction.OtherButtonsIgnored | glb_visualizer.cpp:287 | a non-left button event changes nothing |
| Interaction.MotionRedrawsWhileDragging | glb_visualizer.cpp:300-309 | motion requests a redraw exactly while dragging, changes nothing when idle, and moves the anchor to the pointer when dragging |
| Interaction.IdleIgnoresMotion | glb_visualizer.cpp:301 | any number of motion events while not dragging change nothing |
| Interaction.DragTelescopes | glb_visualizer.cpp:304-307 | after motion events while dragging, each sum has grown by the last position minus the anchor, and the anchor is the last position |
| Interaction.PressAndDrag | glb_visualizer.cpp:286-310 | a left press at `(x0, y0)` followed by motion grows yaw by `xLast - x0` and pitch by `yLast - y0` |
| Interaction.ReleaseThenMove | glb_visualizer.cpp:293-309 | after a left release, motion leaves the rotation and anchor untouched |
| Viewer.Viewer.constructor | glb_visualizer.cpp:40-58 | start-up state: empty buffers, zero rotation, not dragging |
| Viewer.Viewer.LoadGlb | glb_visualizer.cpp:131-189 | writes the buffers given by `Load` and returns no exit code, or returns exit code 1 when `Load` fails; the drag state is untouched |
| Viewer.Viewer.Display | glb_visualizer.cpp:209-271 | the loop over the index buffer produces exactly `Render` of the current buffers and rotation |
| Viewer.Viewer.Mouse | glb_visualizer.cpp:286-297 | the drag state becomes `Interaction.Button` of the old one; the buffers are unchanged |
| Viewer.Viewer.Motion | glb_visualizer.cpp:300-310 | the drag state and redraw request are `Interaction.Motion` of the old state; the buffers are unchanged |

## Left out

- Parsing: the document parser (`LoadBinaryFromFile`) is a foreign library. The parsed document, or `None` for a parse failure, is an input to `LoadGlb`. Its warning and error strings are not modelled.
- Stride validation: `Accessor::ByteStride` belongs to the same library. The model restates its result for the one format decoded, which is byteStride when non-zero, else 12. For a byteStride that is not a multiple of 4, the library answers -1 instead. The viewer stores that in a `size_t` (glb_visualizer.cpp:88) and goes on reading at `base + i * SIZE_MAX` (line 95). The model reads at `base + i * byteStride` in that case, so it does not capture those reads.
- Bounds checks: the source never checks them. The decoders' `requires` (`Vec3Decodable`, `IndexDecodable`) and `LoadDefined` state the in-bounds reads the source silently relies on. The source also indexes accessors and views without checks, and those requirements cover that too.
- Buffer view bounds: `byteLength` is omitted from `BufferView`, because the source never reads it.
- Byte order: the source's `reinterpret_cast` reads in host byte order. The model fixes this to little-endian, as glTF requires. Float words are copied whole, so byte order does not matter for them.
- Floating point: the 0.5-degree-per-pixel sensitivity and the angles are kept as integer pixel sums. `Interaction.MotionDegrees` restates `motion`'s angle update on those sums in real arithmetic. `float` rounding of large angles is not modelled.
- Integer overflow: in `motion`, `x - lastMouseX` is computed in `int`. The model uses unbounded integers, since window coordinates keep it far from overflow.
- GL state and the camera: `init`, `reshape`, `gluLookAt`, the light position, the material and grey colour constants, `glClear` and `glutSwapBuffers` are left out. The frame keeps only the lit flag and the rotation. Triangle assembly by GL (three vertices per triangle) and GL's carrying of the current normal across vertices are GL's behaviour, not the viewer's.
- Process and window plumbing: `main`, command-line file selection, GLUT registration and the main loop are left out. The process exit in `loadGLB` is the returned exit code. The redraw request in `motion` is the returned `redraw` flag.
- Logging: console output is left out. This includes the counts printed after each decode and the "normals missing" notice.
- Renderer.Render: the check `index * 3 + 2 < size` is modelled in unbounded integers, not in the source's 32-bit `unsigned int`. The as-written wrap-around is modelled separately under Findings.

## Findings

| source | as written | input that shows it | evidently intended | confidence | as-written member | corrected member |
|---|---|---|---|---|---|---|
| glb_visualizer.cpp:251-265 | `index * 3 + 2` is computed in 32-bit `unsigned int` and wraps modulo 2^32 before it is compared with the buffer size, and so do the subscripts `index * 3 + k` | six position words and index 1431655766: `index * 3 + 2` wraps to 4 < 6, so the vertex is drawn from words 2, 3 and 4, which belong to two different vertices; index 1431655765 passes for any buffer of two or more words and then reads word 2^32 - 1, past the end | skip every index whose vertex `3 * index .. 3 * index + 2` is not inside the buffer | not executed | Renderer.GuardAsWritten, with Renderer.WrappedIndexReadsMisalignedTriple | Renderer.Render |
