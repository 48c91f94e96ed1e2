/**
 * The parsed glTF document as the viewer sees it: buffers of raw bytes,
 * buffer views into them, typed accessors over the views, and meshes made of
 * primitives. The parser that produces it is not part of this model.
 */
module Gltf {

  type byte = x: int | 0 <= x < 256

  /** The viewer's `unsigned int`. */
  type u32 = x: int | 0 <= x < 0x1_0000_0000

  /**
   * A 32-bit float, kept as its four bytes in buffer order. The viewer copies
   * floats from the buffer and hands them to the renderer without computing
   * with them, so their value is never interpreted here.
   */
  datatype Word = Word(b0: byte, b1: byte, b2: byte, b3: byte)

  // Component types (the OpenGL enumerants that glTF uses).
  const UNSIGNED_SHORT: int := 5123
  const UNSIGNED_INT: int := 5125
  const FLOAT: int := 5126

  // Element types as the parser numbers them.
  const TYPE_VEC3: int := 3
  const TYPE_SCALAR: int := 65

  datatype Buffer = Buffer(data: seq<byte>)

  /** `byteStride == 0` means the view gives no stride. */
  datatype BufferView = BufferView(buffer: int, byteOffset: nat, byteStride: nat)

  /** `accessorType` is the accessor's element type (SCALAR, VEC3, ...). */
  datatype Accessor = Accessor(
    bufferView: int,
    byteOffset: nat,
    componentType: int,
    accessorType: int,
    count: nat)

  /** `indices` is an accessor index, or -1 when the primitive is not indexed. */
  datatype Primitive = Primitive(attributes: map<string, int>, indices: int)

  datatype Mesh = Mesh(primitives: seq<Primitive>)

  datatype Model = Model(
    buffers: seq<Buffer>,
    bufferViews: seq<BufferView>,
    accessors: seq<Accessor>,
    meshes: seq<Mesh>)

  /** The accessor's buffer view, and that view's buffer, exist. */
  predicate ViewResolves(m: Model, acc: Accessor) {
    && 0 <= acc.bufferView < |m.bufferViews|
    && 0 <= m.bufferViews[acc.bufferView].buffer < |m.buffers|
  }

  function View(m: Model, acc: Accessor): BufferView
    requires ViewResolves(m, acc)
  {
    m.bufferViews[acc.bufferView]
  }

  /** The bytes of the buffer the accessor reads from. */
  function Data(m: Model, acc: Accessor): seq<byte>
    requires ViewResolves(m, acc)
  {
    m.buffers[View(m, acc).buffer].data
  }

  /** Where the accessor's first element starts in its buffer. */
  function Base(m: Model, acc: Accessor): nat
    requires ViewResolves(m, acc)
  {
    View(m, acc).byteOffset + acc.byteOffset
  }

  /** The four bytes at `off`, as one float word. */
  function ReadWord(data: seq<byte>, off: nat): Word
    requires off + 4 <= |data|
  {
    Word(data[off], data[off + 1], data[off + 2], data[off + 3])
  }

  /** The little-endian 16-bit unsigned value at `off`. */
  function ReadU16(data: seq<byte>, off: nat): (v: u32)
    requires off + 2 <= |data|
    ensures v < 0x1_0000
  {
    data[off] as int + 0x100 * data[off + 1] as int
  }

  /** The little-endian 32-bit unsigned value at `off`. */
  function ReadU32(data: seq<byte>, off: nat): u32
    requires off + 4 <= |data|
  {
    var b0, b1, b2, b3 := data[off] as int, data[off + 1] as int, data[off + 2] as int, data[off + 3] as int;
    b0 + 0x100 * b1 + 0x1_0000 * b2 + 0x100_0000 * b3
  }
}
