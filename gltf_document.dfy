/**
 * The parts of an already-parsed glTF document that the buffer reads consult. The document
 * belongs to the caller and is only read. Every list entry is a shared pointer and may be null,
 * and every glTF id reference may be unset; both become `Option`. The bufferView fields are those
 * of section 3.6 of the glTF 2.0 specification (Buffers and Buffer Views).
 */
module GltfDocument {
  import opened Optional
  import opened Ints

  /** A bufferView: the buffer it slices and its byte offset, byte length and byte stride (0 = tightly packed). */
  datatype BufferView = BufferView(buffer: Option<int32>, byteOffset: int, byteLength: int, byteStride: int)

  /** An image: an external `uri` (possibly empty) or a reference to a bufferView. */
  datatype Image = Image(uri: string, bufferView: Option<int32>)

  /** The document's image and bufferView lists. */
  datatype Document = Document(images: seq<Option<Image>>, bufferViews: seq<Option<BufferView>>)
}
