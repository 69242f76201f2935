# glTFForUE4 buffer store and typed reads, in Dafny

This project models `FglTFBuffers` from the glTFForUE4 importer
(`Source/glTFForUE4/Public/glTF/glTFImporter.h`). `FglTFBuffers` stores the raw payloads of a glTF
import. These come from three sources: the embedded binary chunk, external image files and
external buffer files. It reads strided, fixed-width elements out of those payloads for the
images and bufferViews of a parsed glTF document.

Modules:

- `Optional`: a small `Option` type. A null shared pointer or an unset glTF id is `None`.
- `Ints`: the `int32` and `uint32` types, and the implicit C++ conversions the code relies on.
  `int32` to `uint32` applies to table keys. Signed to `size_t` applies to the stride guard.
- `GltfDocument`: the read-only part of the parsed document that the reads consult. It holds the
  `images` list (`uri`, `bufferView`) and the `bufferViews` list (`buffer`, `byteOffset`,
  `byteLength`, `byteStride`, as in section 3.6 of the glTF 2.0 specification).
- `TypedRead`: the typed read as a pure function, `Read`. The C++ element type becomes its byte
  width `w`, and an element becomes the `w` bytes copied into it. `Strided` is a recursive
  reference definition of a strided read. `Chunks` is the contiguous block copy reinterpreted as
  elements. The module also holds the as-written members of the findings below.
- `GltfBuffers`: the class `Buffers` holds the store's state. That is the mode flag
  (`constructByBinary`), one index table per source (logical document index to slot) and the slot
  list `datas`. Its members are:
  - `GetData`, the total lookup.
  - `Get`, the typed read. It is a method that sizes a fresh output array and fills it, either by
    one block copy or by a strided `for` loop. It is proved against `ReadOutcome`.
  - `BufferViewTarget` and `ImageTarget`, pure functions that turn a document reference into the
    arguments of a `Get` call.
  - `GetBufferViewData` and `GetImageData`, the methods that make that call.

Modelling choices:

- The output array and `OutFilePath` are reference parameters in C++. Here each method takes
  their old values and returns their new ones.
- Logical indices are `int32`. They are converted to the `uint32` table key as the C++ implicit
  conversion does.
- Start, count, stride and the bufferView fields are mathematical integers.

Behaviour a reader might not expect, modelled as the code has it:

- A count of 0 or less is replaced by the payload's byte length, used as an element count
  (line 97). It is not replaced by the number of whole elements that fit. With elements wider
  than one byte and a stride no narrower than the element, a read with no count given therefore
  always fails (`DefaultCountWideElementsFail`). A negative stride escapes this, because as written
  it passes every guard (see Findings).
- `GetBufferViewData` passes the view's `byteLength` as the element count (line 145). A
  tightly packed 12-byte view read as one 12-byte element fails unless the count 1 is passed
  explicitly (`EmbeddedViewScenario`). When such a read does succeed with wider elements, its last
  element ends past the view's offset plus `offset` plus `byteLength`, which is past the end of
  the view when `offset` is not negative (`WideDefaultViewReadPassesViewEnd`).
- The bound check asks for `start + count * stride` bytes (line 98). So the last element needs a
  whole stride of payload, not only its own `w` bytes.
- The store has no separate build phase and frozen phase. Its state is ordinary fields. The model
  fills them with `Install`.

## Model

| member | source | states |
|---|---|---|
| `Ints.AsUint32` | Source/glTFForUE4/Public/glTF/glTFImporter.h:79 | a signed index becomes the unsigned table key with the same bits: unchanged when non-negative, plus 2^32 when negative |
| `Ints.AsSize` | Source/glTFForUE4/Public/glTF/glTFImporter.h:93 | a signed stride compared with `sizeof` is read as a 64-bit unsigned value: unchanged when non-negative, plus 2^64 when negative |
| `TypedRead.StridedAt` | Source/glTFForUE4/Public/glTF/glTFImporter.h:107-110 | a strided read of `count` elements has exactly `count` elements, and element `i` is the `w` bytes at `start + i * stride`, which lie inside the payload |
| `TypedRead.ContiguousIsStrided` | Source/glTFForUE4/Public/glTF/glTFImporter.h:101-111 | when the stride equals the element size, the single block copy of `count * w` bytes, cut into `w`-byte elements, equals the strided element-by-element copy |
| `TypedRead.Read` | Source/glTFForUE4/Public/glTF/glTFImporter.h:91-112 | a stride of 0 stands for the element size. The read fails when the stride is narrower than the element, the start is negative, the payload is empty, or `start + count * stride` passes the payload's end. It succeeds whenever none of these holds. On success it has the resolved count of elements (the byte length when `count <= 0`), and element `i` is the in-bounds slice of `w` bytes at `start + i * stride` |
| `TypedRead.DefaultCountWideElementsFail` | Source/glTFForUE4/Public/glTF/glTFImporter.h:97-98 | with no count given and elements of two bytes or more, the read always fails, because the byte length is taken as the element count |
| `TypedRead.DefaultCountReadsWholePayload` | Source/glTFForUE4/Public/glTF/glTFImporter.h:91-103 | with one-byte elements, stride 0 or 1, start 0 and no count given, the read returns every byte of the payload in order |
| `TypedRead.OverlongReadExample` | Source/glTFForUE4/Public/glTF/glTFImporter.h:98 | five 4-byte elements do not fit a 16-byte payload and the read fails; four do fit |
| `TypedRead.NegativeStridePassesGuardsAsWritten` | Source/glTFForUE4/Public/glTF/glTFImporter.h:91-98 | as written, every negative stride passes every guard whenever the start lies inside a non-empty payload |
| `TypedRead.NegativeStrideCounterexample` | Source/glTFForUE4/Public/glTF/glTFImporter.h:93 | as written, 4-byte elements with stride -4 and count 2 on an 8-byte payload pass the guards. The strided branch then runs, and its first copy already receives the stride as its byte count, which as a 64-bit unsigned size is 2^64 - 4; element 1's offset, -4, would lie before the payload. The corrected `Read` rejects this request |
| `TypedRead.StridedCopyOverrunsAsWritten` | Source/glTFForUE4/Public/glTF/glTFImporter.h:109 | as written, copying `stride` bytes into each `w`-byte output element ends `stride - w` bytes past the end of the output |
| `GltfBuffers.Buffers.constructor` | Source/glTFForUE4/Public/glTF/glTFImporter.h:66 | a new store has the given mode (not built from the binary chunk unless asked), three empty index tables and no slots |
| `GltfBuffers.Buffers.Install` | Source/glTFForUE4/Public/glTF/glTFImporter.h:151-152 | appends one slot and maps the key to it, replacing any earlier mapping. Afterwards a lookup of that key returns the new slot's bytes and path, and every other lookup returns what it returned before |
| `GltfBuffers.Buffers.GetData` | Source/glTFForUE4/Public/glTF/glTFImporter.h:77-86 | an index with no entry in the source's table, or one that maps to a slot past the end or to a null slot, yields the empty payload and leaves the path untouched. An index that maps to an existing, non-null slot yields that slot's bytes and file path. A non-empty payload or a changed path always comes from the slot the index maps to |
| `GltfBuffers.Buffers.ValidLookup` | Source/glTFForUE4/Public/glTF/glTFImporter.h:77-86 | in a store whose tables only point at existing slots, a lookup yields the empty payload with the path untouched exactly when the index is unmapped, its slot is null, or its slot holds no bytes and that same path |
| `GltfBuffers.Buffers.ReadOutcome` | Source/glTFForUE4/Public/glTF/glTFImporter.h:89-113 | a narrow stride or a negative start fails before the lookup, leaving output and path untouched. Otherwise the path is the one the lookup set. A failure leaves the output as it was, and success holds exactly when `Read` succeeds on the looked-up payload, with `Read`'s elements |
| `GltfBuffers.Buffers.CopyElements` | Source/glTFForUE4/Public/glTF/glTFImporter.h:100-111 | the output sized to `count` and filled by the block copy or the strided loop equals the reference strided read `Strided` |
| `GltfBuffers.Buffers.Get` | Source/glTFForUE4/Public/glTF/glTFImporter.h:88-113 | returns exactly `ReadOutcome`: the success flag, the new output and the new path. On success every element is `w` bytes |
| `GltfBuffers.Buffers.BufferViewTarget` | Source/glTFForUE4/Public/glTF/glTFImporter.h:139-146 | fails exactly when the document is missing, the view index is negative or past the list, or the view is null or has no buffer. Otherwise it reads the view's buffer from `Binaries` if the store was built from the binary chunk, and from `Buffers` if not (never `Images`). The start is the view's offset plus `offset`, the count is `count`, or the view's byte length when `count` is 0, and the stride is the view's stride |
| `GltfBuffers.Buffers.ImageTarget` | Source/glTFForUE4/Public/glTF/glTFImporter.h:118-133 | fails when the document is missing, the index is out of range or the image is null. An image with a `uri` is read from `Images` under its own index with default start, count and stride. One without a `uri` is read through its bufferView, and fails when it has none |
| `GltfBuffers.Buffers.GetBufferViewData` | Source/glTFForUE4/Public/glTF/glTFImporter.h:137-147 | returns failure with output and path untouched when `BufferViewTarget` fails; otherwise exactly the outcome of `Get` on that target |
| `GltfBuffers.Buffers.GetImageData` | Source/glTFForUE4/Public/glTF/glTFImporter.h:116-134 | returns failure with output and path untouched when `ImageTarget` fails; otherwise exactly the outcome of `Get` on that target |
| `GltfBuffers.BufferViewReadLength` | Source/glTFForUE4/Public/glTF/glTFImporter.h:145 | a successful bufferView read holds `count` elements, or the view's byte length of them when `count` is 0 (when that number is positive) |
| `GltfBuffers.WideDefaultViewReadPassesViewEnd` | Source/glTFForUE4/Public/glTF/glTFImporter.h:145 | with no count given and elements wider than a byte, a successful bufferView read holds `byteLength` elements, and the last one ends past the view's offset plus `offset` plus `byteLength`; when `offset` is not negative, that is past the end of the view |

## Left out

- `CacheBinary`, `CacheImages`, `CacheBuffers` and `Cache` (lines 70-73), and the
  `FglTFBufferData` constructors (lines 35-36): their bodies are not part of this model, and they
  read files and URIs. `Install` sets the tables and slots directly in their place. It makes no
  claim about how payloads are obtained.
- The `FglTFBufferData` accessors `operator bool` and `IsFromFile`, and its `StreamType` and
  `StreamEncoding` fields: the reads never consult them. A slot keeps only its bytes and file path.
- `FFeedbackTaskWrapper` (lines 15-29): progress and logging UI.
- `FglTFImporter::Get`, `Set` and `Create` (lines 159-167): engine asset construction.
- `GetMeshData`, `GetTriangleIndices`, `GetVertexPositions`, `GetVertexNormals`,
  `GetVertexTangents` and `GetVertexTexcoords` (lines 177-184): only their declarations exist
  here, and they produce floating-point vectors.
- `SwapYZ`, `SanitizeObjectName` and the texture filter and address mappings (lines 187-194):
  declarations only, involving floats and engine enums.
- The `checkfSlow` on line 92: a debug-only assertion whose condition is the reverse of line 93.
  The model follows line 93.
- The document's `buffers` list: neither resolver consults it.
- `GltfBuffers.Buffers.Get`: `start + count * stride` (line 98) is computed on mathematical
  integers. The `int32` wrap-around that could let an oversized request through the bound check
  is not modelled.
- `GltfBuffers.Buffers.BufferViewTarget`: `byteOffset + offset` (line 145) is computed on
  mathematical integers. Its `int32` wrap-around is not modelled.
- `GltfBuffers.Buffers.GetData`: C++ returns a reference to the stored array, or to the shared
  `DataEmpty`. The model returns the bytes as a value, so aliasing is not captured.
- `GltfBuffers.Buffers.Get`: the model reads the line 93 guard as a signed comparison, so it
  rejects negative strides that the source lets through; what the source then does with them is
  shown only by `TypedRead.NegativeStridePassesGuardsAsWritten` and
  `TypedRead.NegativeStrideCounterexample` (see Findings).
- The line 109 overrun is not modelled as a memory write. Each element receives its `w` bytes
  (see Findings).

## Findings

| source | as written | input that shows it | evidently intended | confidence | as-written member | corrected member |
|---|---|---|---|---|---|---|
| Source/glTFForUE4/Public/glTF/glTFImporter.h:93 | `sizeof(TElem) > InStride` compares an unsigned `size_t` with a signed `int32`, so a negative stride becomes a huge unsigned value and passes the guard | 4-byte elements, `InStride` -4, `InStart` 0, `InCount` 2, 8-byte payload: every guard passes, the strided branch runs, and its first copy (line 109, element 0) is handed `InStride` as a byte count of 2^64 - 4 | reject every stride narrower than the element, negative strides included | high; not executed | `TypedRead.NegativeStrideCounterexample` | `TypedRead.Read` |
| Source/glTFForUE4/Public/glTF/glTFImporter.h:109 | the strided loop copies `InStride` bytes into each `sizeof(TElem)`-byte output element | 12-byte elements, stride 16, count 2: the last copy writes bytes 12 to 28 of a 24-byte output | copy `sizeof(TElem)` bytes per element | high; not executed | `TypedRead.StridedCopyOverrunsAsWritten` | `GltfBuffers.Buffers.CopyElements` |
