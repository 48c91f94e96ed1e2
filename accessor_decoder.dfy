/**
 * The two accessor decoders: VEC3 float attributes (positions, normals) and
 * UINT16/UINT32 index lists, each flattened into one sequence. Layout follows
 * section 3.6 of the glTF 2.0 specification: an element starts at
 * `bufferView.byteOffset + accessor.byteOffset + i * stride`, the stride is
 * the view's `byteStride` or, when that is zero, the tight element size, and
 * multi-byte integers are little-endian.
 */
module AccessorDecoder {
  import opened Gltf

  // ---- Strided offsets ----

  /**
   * `base + i * stride`, counted out one stride at a time so that proofs
   * about layouts stay within linear arithmetic; `OffsetFormula` gives the
   * product form.
   */
  function Offset(base: nat, stride: nat, i: nat): nat
    decreases i
  {
    if i == 0 then base else Offset(base, stride, i - 1) + stride
  }

  lemma {:induction false} OffsetFormula(base: nat, stride: nat, i: nat)
    ensures Offset(base, stride, i) == base + i * stride
    decreases i
  {
    if i > 0 {
      OffsetFormula(base, stride, i - 1);
      assert i * stride == (i - 1) * stride + stride;
    }
  }

  lemma {:induction false} OffsetShift(base: nat, stride: nat, i: nat)
    ensures Offset(base, stride, i) == base + Offset(0, stride, i)
    decreases i
  {
    if i > 0 {
      OffsetShift(base, stride, i - 1);
    }
  }

  lemma {:induction false} OffsetMonotonic(base: nat, stride: nat, i: nat, j: nat)
    requires i <= j
    ensures Offset(base, stride, i) <= Offset(base, stride, j)
    decreases j
  {
    if i < j {
      OffsetMonotonic(base, stride, i, j - 1);
    }
  }

  // ---- The vector decoder ----

  /** The only accessor format the vector decoder accepts. */
  predicate IsVec3Float(acc: Accessor) {
    acc.componentType == FLOAT && acc.accessorType == TYPE_VEC3
  }

  /** Element stride of a FLOAT/VEC3 accessor: 12 bytes unless the view says otherwise. */
  function Vec3Stride(m: Model, acc: Accessor): (s: nat)
    requires ViewResolves(m, acc)
    ensures s > 0
    ensures View(m, acc).byteStride == 0 ==> s == 12
  {
    if View(m, acc).byteStride != 0 then View(m, acc).byteStride else 12
  }

  /** Where element `i` starts: `Base(m, acc) + i * Vec3Stride(m, acc)`. */
  function ElementStart(m: Model, acc: Accessor, i: nat): nat
    requires ViewResolves(m, acc)
  {
    Offset(Base(m, acc), Vec3Stride(m, acc), i)
  }

  /** Every element's twelve bytes lie inside the buffer: the last one ends by the buffer's end. */
  predicate Vec3Readable(m: Model, acc: Accessor) {
    && ViewResolves(m, acc)
    && (acc.count > 0 ==> ElementStart(m, acc, acc.count - 1) + 12 <= |Data(m, acc)|)
  }

  /** What the vector decoder needs of its caller: the views resolve, and reads stay in the buffer. */
  predicate Vec3Decodable(m: Model, acc: Accessor) {
    ViewResolves(m, acc) && (IsVec3Float(acc) ==> Vec3Readable(m, acc))
  }

  /** Byte offset of component `j` of the flattened output: element `j / 3`, component `j % 3`. */
  function ComponentOffset(m: Model, acc: Accessor, j: nat): nat
    requires ViewResolves(m, acc)
  {
    ElementStart(m, acc, j / 3) + 4 * (j % 3)
  }

  lemma ComponentInRange(m: Model, acc: Accessor, j: nat)
    requires Vec3Readable(m, acc)
    requires j < 3 * acc.count
    ensures ComponentOffset(m, acc, j) + 4 <= |Data(m, acc)|
  {
    OffsetMonotonic(Base(m, acc), Vec3Stride(m, acc), j / 3, acc.count - 1);
  }

  /** Component `j` of the decoded attribute. */
  function ComponentAt(m: Model, acc: Accessor, j: nat): Word
    requires Vec3Readable(m, acc)
    requires j < 3 * acc.count
  {
    ComponentInRange(m, acc, j);
    ReadWord(Data(m, acc), ComponentOffset(m, acc, j))
  }

  /**
   * What `get_buffer_data` leaves in its output vector, given what was there
   * before: unchanged for any format but FLOAT/VEC3, otherwise `3 * count`
   * words, element by element.
   */
  function DecodeVec3(m: Model, acc: Accessor, prior: seq<Word>): (r: seq<Word>)
    requires Vec3Decodable(m, acc)
  {
    if !IsVec3Float(acc) then prior
    else seq(3 * acc.count, j requires 0 <= j < 3 * acc.count => ComponentAt(m, acc, j))
  }

  /** The component at `3 * i + k` is the word `4 * k` bytes into element `i`. */
  lemma ComponentOfElement(m: Model, acc: Accessor, i: nat, k: nat)
    requires Vec3Readable(m, acc)
    requires i < acc.count && k < 3
    ensures ElementStart(m, acc, i) + 4 * k + 4 <= |Data(m, acc)|
    ensures ComponentAt(m, acc, 3 * i + k) == ReadWord(Data(m, acc), ElementStart(m, acc, i) + 4 * k)
  {
    assert (3 * i + k) / 3 == i && (3 * i + k) % 3 == k;
    ComponentInRange(m, acc, 3 * i + k);
  }

  /**
   * Component `k` of element `i` is the word at
   * `byteOffset(view) + byteOffset(accessor) + i * stride + 4 * k`.
   */
  lemma DecodeVec3Element(m: Model, acc: Accessor, prior: seq<Word>, i: nat, k: nat)
    requires Vec3Decodable(m, acc) && IsVec3Float(acc)
    requires i < acc.count && k < 3
    ensures |DecodeVec3(m, acc, prior)| == 3 * acc.count
    ensures var r, data, off := DecodeVec3(m, acc, prior), Data(m, acc), Base(m, acc) + i * Vec3Stride(m, acc) + 4 * k;
      && 3 * i + k < |r| && off + 4 <= |data| && r[3 * i + k] == ReadWord(data, off)
  {
    ComponentOfElement(m, acc, i, k);
    OffsetFormula(Base(m, acc), Vec3Stride(m, acc), i);
  }

  /** The three components of element `i`, which starts at `start`. */
  lemma ElementWords(m: Model, acc: Accessor, i: nat, data: seq<byte>, start: nat)
    requires Vec3Readable(m, acc) && i < acc.count
    requires data == Data(m, acc) && start == ElementStart(m, acc, i)
    ensures start + 12 <= |data|
    ensures ComponentAt(m, acc, 3 * i) == ReadWord(data, start)
    ensures ComponentAt(m, acc, 3 * i + 1) == ReadWord(data, start + 4)
    ensures ComponentAt(m, acc, 3 * i + 2) == ReadWord(data, start + 8)
  {
    ComponentOfElement(m, acc, i, 0);
    ComponentOfElement(m, acc, i, 1);
    ComponentOfElement(m, acc, i, 2);
  }

  /** A decoder given an unsupported format returns before touching its output. */
  lemma DecodeVec3Unsupported(m: Model, acc: Accessor, prior: seq<Word>)
    requires Vec3Decodable(m, acc) && !IsVec3Float(acc)
    ensures DecodeVec3(m, acc, prior) == prior
  {
  }

  /** `get_buffer_data`: fills a buffer of `3 * count` words in one pass over the elements. */
  method GetBufferData(m: Model, acc: Accessor, outData: seq<Word>) returns (r: seq<Word>)
    requires Vec3Decodable(m, acc)
    ensures r == DecodeVec3(m, acc, outData)
  {
    var bufferView := m.bufferViews[acc.bufferView];
    var buffer := m.buffers[bufferView.buffer];
    if acc.componentType != FLOAT || acc.accessorType != TYPE_VEC3 {
      return outData;
    }
    var count := acc.count;
    var base := bufferView.byteOffset + acc.byteOffset;
    var byteStride := if bufferView.byteStride != 0 then bufferView.byteStride else 12;
    var a := new Word[count * 3];
    for i := 0 to count
      invariant forall j :: 0 <= j < 3 * i ==> a[j] == ComponentAt(m, acc, j)
    {
      var current := base + i * byteStride;
      assert current == ElementStart(m, acc, i) by {
        OffsetFormula(base, byteStride, i);
      }
      ElementWords(m, acc, i, buffer.data, current);
      a[i * 3 + 0] := ReadWord(buffer.data, current);
      a[i * 3 + 1] := ReadWord(buffer.data, current + 4);
      a[i * 3 + 2] := ReadWord(buffer.data, current + 8);
    }
    r := a[..];
  }

  // ---- The index decoder ----

  /** The index decoder accepts UINT16 and UINT32 components. */
  predicate IsIndexType(acc: Accessor) {
    acc.componentType == UNSIGNED_SHORT || acc.componentType == UNSIGNED_INT
  }

  /**
   * What the index decoder needs of its caller: the views resolve, and the
   * `count` indices, tightly packed at their native width, lie in the buffer.
   */
  predicate IndexDecodable(m: Model, acc: Accessor) {
    && ViewResolves(m, acc)
    && (acc.componentType == UNSIGNED_SHORT ==> Base(m, acc) + 2 * acc.count <= |Data(m, acc)|)
    && (acc.componentType == UNSIGNED_INT ==> Base(m, acc) + 4 * acc.count <= |Data(m, acc)|)
  }

  /** Index `i`: the little-endian value at `base + 2 * i` or `base + 4 * i`, by width. */
  function IndexAt(m: Model, acc: Accessor, i: nat): u32
    requires IndexDecodable(m, acc) && IsIndexType(acc)
    requires i < acc.count
  {
    if acc.componentType == UNSIGNED_SHORT then ReadU16(Data(m, acc), Base(m, acc) + 2 * i)
    else ReadU32(Data(m, acc), Base(m, acc) + 4 * i)
  }

  /**
   * `std::vector::resize`: keeps the first `n` old elements and fills any new
   * ones with zero.
   */
  function Resize(s: seq<u32>, n: nat): (r: seq<u32>)
    ensures |r| == n
    ensures forall j :: 0 <= j < n ==> r[j] == if j < |s| then s[j] else 0
  {
    seq(n, j requires 0 <= j < n => if j < |s| then s[j] else 0)
  }

  /**
   * What `get_index_data` leaves in its output vector: `count` decoded
   * indices, or, for an unsupported component type, the vector as resized to
   * `count` before the loop stopped at its first element.
   */
  function DecodeIndices(m: Model, acc: Accessor, prior: seq<u32>): (r: seq<u32>)
    requires IndexDecodable(m, acc)
    ensures |r| == acc.count
    ensures acc.componentType == UNSIGNED_SHORT ==> forall j :: 0 <= j < |r| ==> r[j] < 0x1_0000
  {
    if IsIndexType(acc) then seq(acc.count, i requires 0 <= i < acc.count => IndexAt(m, acc, i))
    else Resize(prior, acc.count)
  }

  /** `get_index_data`: resizes the vector, then widens one index per iteration. */
  method GetIndexData(m: Model, acc: Accessor, outIndices: seq<u32>) returns (r: seq<u32>)
    requires IndexDecodable(m, acc)
    ensures r == DecodeIndices(m, acc, outIndices)
  {
    var bufferView := m.bufferViews[acc.bufferView];
    var buffer := m.buffers[bufferView.buffer];
    var count := acc.count;
    var base := bufferView.byteOffset + acc.byteOffset;
    var a := new u32[count](j => if 0 <= j < |outIndices| then outIndices[j] else 0);
    for i := 0 to count
      invariant IsIndexType(acc) || i == 0
      invariant forall j :: 0 <= j < i ==> a[j] == IndexAt(m, acc, j)
      invariant forall j :: i <= j < count ==> a[j] == Resize(outIndices, count)[j]
    {
      if acc.componentType == UNSIGNED_SHORT {
        a[i] := ReadU16(buffer.data, base + i * 2);
      } else if acc.componentType == UNSIGNED_INT {
        a[i] := ReadU32(buffer.data, base + i * 4);
      } else {
        r := a[..];
        return;
      }
    }
    r := a[..];
  }

  /**
   * The index decoder reads tightly packed values at their native width: the
   * view's `byteStride` plays no part.
   */
  lemma IndexStrideIgnored(m: Model, acc: Accessor, prior: seq<u32>, stride: nat)
    requires IndexDecodable(m, acc)
    ensures var m' := m.(bufferViews := m.bufferViews[acc.bufferView := View(m, acc).(byteStride := stride)]);
            IndexDecodable(m', acc) && DecodeIndices(m', acc, prior) == DecodeIndices(m, acc, prior)
  {
  }

  /**
   * The index decoder looks only at the component type, never at the element
   * type: an accessor of any element type decodes as if it were SCALAR.
   */
  lemma IndexElementTypeIgnored(m: Model, acc: Accessor, prior: seq<u32>)
    requires IndexDecodable(m, acc)
    ensures var scalar := acc.(accessorType := TYPE_SCALAR);
            IndexDecodable(m, scalar) && DecodeIndices(m, scalar, prior) == DecodeIndices(m, acc, prior)
  {
  }

  /**
   * Unlike the vector decoder, an unsupported index type leaves `count`
   * entries behind: from an empty vector, `count` zeros.
   */
  lemma UnsupportedIndicesAreZeros(m: Model, acc: Accessor)
    requires IndexDecodable(m, acc) && !IsIndexType(acc)
    ensures DecodeIndices(m, acc, []) == seq(acc.count, _ => 0)
  {
  }

  // ---- Round trips ----

  /** Little-endian bytes of 16-bit values, packed tightly. */
  function EncodeU16(vs: seq<u32>): (r: seq<byte>)
    requires forall j :: 0 <= j < |vs| ==> vs[j] < 0x1_0000
    ensures |r| == 2 * |vs|
  {
    if vs == [] then [] else [vs[0] % 0x100, vs[0] / 0x100] + EncodeU16(vs[1..])
  }

  /** The four little-endian bytes of a 32-bit value. */
  function U32Bytes(v: u32): (r: seq<byte>)
    ensures |r| == 4 && ReadU32(r, 0) == v
  {
    var q1 := v / 0x100;
    var q2 := q1 / 0x100;
    [v % 0x100, q1 % 0x100, q2 % 0x100, q2 / 0x100]
  }

  /** Little-endian bytes of 32-bit values, packed tightly. */
  function EncodeU32(vs: seq<u32>): (r: seq<byte>)
    ensures |r| == 4 * |vs|
  {
    if vs == [] then [] else U32Bytes(vs[0]) + EncodeU32(vs[1..])
  }

  lemma {:induction false} EncodeU16At(vs: seq<u32>, i: nat)
    requires forall j :: 0 <= j < |vs| ==> vs[j] < 0x1_0000
    requires i < |vs|
    ensures ReadU16(EncodeU16(vs), 2 * i) == vs[i]
  {
    if i > 0 {
      EncodeU16At(vs[1..], i - 1);
      assert EncodeU16(vs)[2..] == EncodeU16(vs[1..]);
    }
  }

  lemma {:induction false} EncodeU32At(vs: seq<u32>, i: nat)
    requires i < |vs|
    ensures ReadU32(EncodeU32(vs), 4 * i) == vs[i]
  {
    var bytes := EncodeU32(vs);
    if i == 0 {
      assert bytes[..4] == U32Bytes(vs[0]);
    } else {
      EncodeU32At(vs[1..], i - 1);
      assert bytes[4..] == EncodeU32(vs[1..]);
    }
  }

  /** Reading inside a slice of the buffer reads what the slice holds at that offset. */
  lemma ReadU16InSlice(data: seq<byte>, base: nat, bytes: seq<byte>, off: nat)
    requires base + |bytes| <= |data| && data[base..base + |bytes|] == bytes
    requires off + 2 <= |bytes|
    ensures ReadU16(data, base + off) == ReadU16(bytes, off)
  {
    assert data[base + off] == bytes[off] && data[base + off + 1] == bytes[off + 1];
  }

  lemma ReadU32InSlice(data: seq<byte>, base: nat, bytes: seq<byte>, off: nat)
    requires base + |bytes| <= |data| && data[base..base + |bytes|] == bytes
    requires off + 4 <= |bytes|
    ensures ReadU32(data, base + off) == ReadU32(bytes, off)
  {
    assert data[base + off] == bytes[off] && data[base + off + 1] == bytes[off + 1];
    assert data[base + off + 2] == bytes[off + 2] && data[base + off + 3] == bytes[off + 3];
  }

  lemma ReadWordInSlice(data: seq<byte>, base: nat, bytes: seq<byte>, off: nat)
    requires base + |bytes| <= |data| && data[base..base + |bytes|] == bytes
    requires off + 4 <= |bytes|
    ensures ReadWord(data, base + off) == ReadWord(bytes, off)
  {
    assert data[base + off] == bytes[off] && data[base + off + 1] == bytes[off + 1];
    assert data[base + off + 2] == bytes[off + 2] && data[base + off + 3] == bytes[off + 3];
  }

  /** Index `i` of a tight UINT16 encoding held at `base` is `vs[i]`. */
  lemma U16InBuffer(data: seq<byte>, base: nat, vs: seq<u32>, i: nat)
    requires forall j :: 0 <= j < |vs| ==> vs[j] < 0x1_0000
    requires base + 2 * |vs| <= |data| && data[base..base + 2 * |vs|] == EncodeU16(vs)
    requires i < |vs|
    ensures ReadU16(data, base + 2 * i) == vs[i]
  {
    var bytes := EncodeU16(vs);
    assert 2 * i + 2 <= |bytes|;
    assert ReadU16(bytes, 2 * i) == vs[i] by {
      EncodeU16At(vs, i);
    }
    assert ReadU16(data, base + 2 * i) == ReadU16(bytes, 2 * i) by {
      ReadU16InSlice(data, base, bytes, 2 * i);
    }
  }

  /** Index `i` of a tight UINT32 encoding held at `base` is `vs[i]`. */
  lemma U32InBuffer(data: seq<byte>, base: nat, vs: seq<u32>, i: nat)
    requires base + 4 * |vs| <= |data| && data[base..base + 4 * |vs|] == EncodeU32(vs)
    requires i < |vs|
    ensures ReadU32(data, base + 4 * i) == vs[i]
  {
    var bytes := EncodeU32(vs);
    assert 4 * i + 4 <= |bytes|;
    assert ReadU32(bytes, 4 * i) == vs[i] by {
      EncodeU32At(vs, i);
    }
    assert ReadU32(data, base + 4 * i) == ReadU32(bytes, 4 * i) by {
      ReadU32InSlice(data, base, bytes, 4 * i);
    }
  }

  /** Decoding a UINT16 accessor over the little-endian encoding of `vs` gives back `vs`. */
  lemma U16RoundTrip(m: Model, acc: Accessor, prior: seq<u32>, vs: seq<u32>)
    requires ViewResolves(m, acc) && acc.componentType == UNSIGNED_SHORT
    requires forall j :: 0 <= j < |vs| ==> vs[j] < 0x1_0000
    requires acc.count == |vs|
    requires Base(m, acc) + 2 * |vs| <= |Data(m, acc)|
    requires Data(m, acc)[Base(m, acc)..Base(m, acc) + 2 * |vs|] == EncodeU16(vs)
    ensures IndexDecodable(m, acc) && DecodeIndices(m, acc, prior) == vs
  {
    assert IndexDecodable(m, acc);
    var r := DecodeIndices(m, acc, prior);
    forall i | 0 <= i < |vs| ensures r[i] == vs[i] {
      U16InBuffer(Data(m, acc), Base(m, acc), vs, i);
    }
  }

  /** Decoding a UINT32 accessor over the little-endian encoding of `vs` gives back `vs`. */
  lemma U32RoundTrip(m: Model, acc: Accessor, prior: seq<u32>, vs: seq<u32>)
    requires ViewResolves(m, acc) && acc.componentType == UNSIGNED_INT
    requires acc.count == |vs|
    requires Base(m, acc) + 4 * |vs| <= |Data(m, acc)|
    requires Data(m, acc)[Base(m, acc)..Base(m, acc) + 4 * |vs|] == EncodeU32(vs)
    ensures IndexDecodable(m, acc) && DecodeIndices(m, acc, prior) == vs
  {
    assert IndexDecodable(m, acc);
    var r := DecodeIndices(m, acc, prior);
    forall i | 0 <= i < |vs| ensures r[i] == vs[i] {
      U32InBuffer(Data(m, acc), Base(m, acc), vs, i);
    }
  }

  function WordBytes(w: Word): seq<byte> {
    [w.b0, w.b1, w.b2, w.b3]
  }

  /**
   * `gaps` can separate `n` elements: one gap of `g` bytes after each element
   * but the last (padding, or the bytes of other interleaved attributes, which
   * differ from element to element).
   */
  predicate GapsFit(gaps: seq<seq<byte>>, g: nat, n: nat) {
    && |gaps| + 1 >= n
    && forall j :: 0 <= j < |gaps| ==> |gaps[j]| == g
  }

  /**
   * VEC3 elements laid out one after another, element `i` followed by
   * `gaps[i]`; the last element ends the layout.
   */
  function Interleave(ws: seq<Word>, gaps: seq<seq<byte>>, g: nat): (r: seq<byte>)
    requires |ws| % 3 == 0 && GapsFit(gaps, g, |ws| / 3)
    ensures |ws| == 0 ==> r == []
    ensures |ws| > 0 ==> |r| == Offset(0, 12 + g, |ws| / 3 - 1) + 12
  {
    if ws == [] then []
    else
      var head := WordBytes(ws[0]) + WordBytes(ws[1]) + WordBytes(ws[2]);
      if |ws| == 3 then head else head + gaps[0] + Interleave(ws[3..], gaps[1..], g)
  }

  /** The first twelve bytes of a layout are the first element's three words. */
  lemma InterleaveHead(ws: seq<Word>, gaps: seq<seq<byte>>, g: nat, k: nat, b: nat)
    requires |ws| % 3 == 0 && |ws| > 0 && GapsFit(gaps, g, |ws| / 3)
    requires k < 3 && b < 4
    ensures 4 * k + b < |Interleave(ws, gaps, g)|
    ensures Interleave(ws, gaps, g)[4 * k + b] == WordBytes(ws[k])[b]
  {
    var head := WordBytes(ws[0]) + WordBytes(ws[1]) + WordBytes(ws[2]);
    var bytes := Interleave(ws, gaps, g);
    assert bytes[..12] == head;
    assert bytes[4 * k + b] == head[4 * k + b];
    if k == 1 {
      assert head[4 + b] == WordBytes(ws[1])[b];
    } else if k == 2 {
      assert head[8 + b] == WordBytes(ws[2])[b];
    }
  }

  lemma {:induction false} InterleaveAt(ws: seq<Word>, gaps: seq<seq<byte>>, g: nat, i: nat, k: nat, b: nat)
    requires |ws| % 3 == 0 && GapsFit(gaps, g, |ws| / 3)
    requires i < |ws| / 3 && k < 3 && b < 4
    ensures Offset(0, 12 + g, i) + 4 * k + b < |Interleave(ws, gaps, g)|
    ensures Interleave(ws, gaps, g)[Offset(0, 12 + g, i) + 4 * k + b] == WordBytes(ws[3 * i + k])[b]
  {
    if i == 0 {
      InterleaveHead(ws, gaps, g, k, b);
    } else {
      var rest := ws[3..];
      assert |rest| / 3 == |ws| / 3 - 1 && 3 * (i - 1) + k + 3 == 3 * i + k;
      assert rest[3 * (i - 1) + k] == ws[3 * i + k];
      assert GapsFit(gaps[1..], g, |rest| / 3);
      InterleaveAt(rest, gaps[1..], g, i - 1, k, b);
      var off := Offset(0, 12 + g, i - 1) + 4 * k + b;
      assert Offset(0, 12 + g, i) + 4 * k + b == 12 + g + off;
      InterleaveTail(ws, gaps, g, off);
    }
  }

  /** After the first element and its gap, a layout continues with the layout of the rest. */
  lemma InterleaveTail(ws: seq<Word>, gaps: seq<seq<byte>>, g: nat, off: nat)
    requires |ws| % 3 == 0 && |ws| > 3 && GapsFit(gaps, g, |ws| / 3)
    requires off < |Interleave(ws[3..], gaps[1..], g)|
    ensures 12 + g + off < |Interleave(ws, gaps, g)|
    ensures Interleave(ws, gaps, g)[12 + g + off] == Interleave(ws[3..], gaps[1..], g)[off]
  {
    var head := WordBytes(ws[0]) + WordBytes(ws[1]) + WordBytes(ws[2]);
    var rest := Interleave(ws[3..], gaps[1..], g);
    assert |head| == 12 && |gaps[0]| == g;
    assert Interleave(ws, gaps, g) == (head + gaps[0]) + rest;
  }

  /** The word at component `k` of element `i` of an interleaved layout is `ws[3 * i + k]`. */
  lemma InterleaveWord(ws: seq<Word>, gaps: seq<seq<byte>>, g: nat, i: nat, k: nat)
    requires |ws| % 3 == 0 && GapsFit(gaps, g, |ws| / 3)
    requires i < |ws| / 3 && k < 3
    ensures Offset(0, 12 + g, i) + 4 * k + 4 <= |Interleave(ws, gaps, g)|
    ensures ReadWord(Interleave(ws, gaps, g), Offset(0, 12 + g, i) + 4 * k) == ws[3 * i + k]
  {
    InterleaveAt(ws, gaps, g, i, k, 0);
    InterleaveAt(ws, gaps, g, i, k, 1);
    InterleaveAt(ws, gaps, g, i, k, 2);
    InterleaveAt(ws, gaps, g, i, k, 3);
  }

  /**
   * Decoding a FLOAT/VEC3 accessor whose stride is the element size plus
   * `g` recovers the words and skips whatever `g` bytes follow each element;
   * the buffer needs to hold the last element and nothing after it.
   */
  lemma StridedRoundTrip(m: Model, acc: Accessor, prior: seq<Word>, ws: seq<Word>, gaps: seq<seq<byte>>, g: nat)
    requires ViewResolves(m, acc) && IsVec3Float(acc)
    requires |ws| == 3 * acc.count && GapsFit(gaps, g, acc.count)
    requires Vec3Stride(m, acc) == 12 + g
    requires Base(m, acc) + |Interleave(ws, gaps, g)| <= |Data(m, acc)|
    requires Data(m, acc)[Base(m, acc)..Base(m, acc) + |Interleave(ws, gaps, g)|] == Interleave(ws, gaps, g)
    ensures Vec3Decodable(m, acc) && DecodeVec3(m, acc, prior) == ws
  {
    var size := 12 + g;
    assert |ws| / 3 == acc.count;
    if acc.count > 0 {
      OffsetShift(Base(m, acc), size, acc.count - 1);
    }
    assert Vec3Readable(m, acc);
    var r := DecodeVec3(m, acc, prior);
    assert |r| == |ws|;
    forall j | 0 <= j < |ws| ensures r[j] == ws[j] {
      var i, k := j / 3, j % 3;
      assert j == 3 * i + k && i < acc.count;
      StridedComponent(m, acc, ws, gaps, g, i, k);
    }
  }

  lemma StridedComponent(m: Model, acc: Accessor, ws: seq<Word>, gaps: seq<seq<byte>>, g: nat, i: nat, k: nat)
    requires Vec3Readable(m, acc)
    requires |ws| == 3 * acc.count && GapsFit(gaps, g, acc.count) && i < acc.count && k < 3
    requires Vec3Stride(m, acc) == 12 + g
    requires |ws| / 3 == acc.count
    requires Base(m, acc) + |Interleave(ws, gaps, g)| <= |Data(m, acc)|
    requires Data(m, acc)[Base(m, acc)..Base(m, acc) + |Interleave(ws, gaps, g)|] == Interleave(ws, gaps, g)
    ensures ComponentAt(m, acc, 3 * i + k) == ws[3 * i + k]
  {
    ComponentRelativeToBase(m, acc, i, k);
    InterleavedWordInBuffer(Data(m, acc), Base(m, acc), ws, gaps, g, i, k);
  }

  /** Component `k` of element `i`, located relative to the accessor's base. */
  lemma ComponentRelativeToBase(m: Model, acc: Accessor, i: nat, k: nat)
    requires Vec3Readable(m, acc)
    requires i < acc.count && k < 3
    ensures Base(m, acc) + Offset(0, Vec3Stride(m, acc), i) + 4 * k + 4 <= |Data(m, acc)|
    ensures ComponentAt(m, acc, 3 * i + k)
         == ReadWord(Data(m, acc), Base(m, acc) + Offset(0, Vec3Stride(m, acc), i) + 4 * k)
  {
    ComponentOfElement(m, acc, i, k);
    OffsetShift(Base(m, acc), Vec3Stride(m, acc), i);
  }

  lemma InterleavedWordInBuffer(data: seq<byte>, base: nat, ws: seq<Word>, gaps: seq<seq<byte>>, g: nat, i: nat, k: nat)
    requires |ws| % 3 == 0 && GapsFit(gaps, g, |ws| / 3)
    requires i < |ws| / 3 && k < 3
    requires base + |Interleave(ws, gaps, g)| <= |data|
    requires data[base..base + |Interleave(ws, gaps, g)|] == Interleave(ws, gaps, g)
    ensures base + Offset(0, 12 + g, i) + 4 * k + 4 <= |data|
    ensures ReadWord(data, base + Offset(0, 12 + g, i) + 4 * k) == ws[3 * i + k]
  {
    var off := Offset(0, 12 + g, i) + 4 * k;
    InterleaveWord(ws, gaps, g, i, k);
    ReadWordInSlice(data, base, Interleave(ws, gaps, g), off);
  }
}
