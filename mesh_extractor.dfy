/**
 * `loadGLB` after parsing: take mesh 0, primitive 0 of the parsed document
 * and decode its POSITION and NORMAL attributes and its index list into the
 * viewer's three buffers, each only when the primitive has it.
 */
module MeshExtractor {
  import opened Wrappers
  import opened Gltf
  import opened AccessorDecoder

  const POSITION: string := "POSITION"
  const NORMAL: string := "NORMAL"

  /** The process exit code for a file that does not parse or has no primitive to draw. */
  const EXIT_LOAD_FAILURE: int := 1

  /** The viewer's decoded geometry: flattened positions and normals, and vertex indices. */
  datatype MeshBuffers = MeshBuffers(positions: seq<Word>, normals: seq<Word>, indices: seq<u32>)

  const EMPTY: MeshBuffers := MeshBuffers([], [], [])

  predicate HasPrimitive(m: Model) {
    |m.meshes| > 0 && |m.meshes[0].primitives| > 0
  }

  /** The one primitive the viewer draws. */
  function FirstPrimitive(m: Model): Primitive
    requires HasPrimitive(m)
  {
    m.meshes[0].primitives[0]
  }

  /** If the primitive names attribute `name`, its accessor exists and can be decoded. */
  predicate AttributeDecodable(m: Model, prim: Primitive, name: string) {
    name in prim.attributes ==>
      && 0 <= prim.attributes[name] < |m.accessors|
      && Vec3Decodable(m, m.accessors[prim.attributes[name]])
  }

  /** If the primitive is indexed, its index accessor exists and can be decoded. */
  predicate IndicesDecodable(m: Model, prim: Primitive) {
    prim.indices > -1 ==>
      prim.indices < |m.accessors| && IndexDecodable(m, m.accessors[prim.indices])
  }

  /** Everything the extraction looks up is there, and every read stays inside its buffer. */
  predicate PrimitiveDecodable(m: Model, prim: Primitive) {
    && AttributeDecodable(m, prim, POSITION)
    && AttributeDecodable(m, prim, NORMAL)
    && IndicesDecodable(m, prim)
  }

  /** What loading needs of the parsed document; nothing, if there is no primitive. */
  predicate LoadDefined(parsed: Option<Model>) {
    parsed.Some? && HasPrimitive(parsed.value) ==>
      PrimitiveDecodable(parsed.value, FirstPrimitive(parsed.value))
  }

  /**
   * The buffers after extraction from `m`, starting from `prior`: each one is
   * decoded into only when the primitive has that attribute or an index list.
   */
  function Extract(m: Model, prior: MeshBuffers): MeshBuffers
    requires HasPrimitive(m) && PrimitiveDecodable(m, FirstPrimitive(m))
  {
    var prim := FirstPrimitive(m);
    var positions :=
      if POSITION in prim.attributes then DecodeVec3(m, m.accessors[prim.attributes[POSITION]], prior.positions)
      else prior.positions;
    var normals :=
      if NORMAL in prim.attributes then DecodeVec3(m, m.accessors[prim.attributes[NORMAL]], prior.normals)
      else prior.normals;
    var indices :=
      if prim.indices > -1 then DecodeIndices(m, m.accessors[prim.indices], prior.indices)
      else prior.indices;
    MeshBuffers(positions, normals, indices)
  }

  /**
   * `loadGLB` given the parser's result (`None` when it failed): `None` is the
   * exit with EXIT_LOAD_FAILURE, `Some` the buffers it leaves behind.
   */
  function Load(parsed: Option<Model>, prior: MeshBuffers): (r: Option<MeshBuffers>)
    requires LoadDefined(parsed)
    ensures r.None? <==> parsed.None? || |parsed.value.meshes| == 0 || |parsed.value.meshes[0].primitives| == 0
    ensures r.Some? ==> r.value == Extract(parsed.value, prior)
  {
    if parsed.None? || !HasPrimitive(parsed.value) then None
    else Some(Extract(parsed.value, prior))
  }

  /**
   * Only mesh 0, primitive 0 matters: documents that agree on it and on the
   * data it refers to load alike, whatever their other meshes and primitives.
   */
  lemma LoadReadsOnlyFirstPrimitive(m1: Model, m2: Model, prior: MeshBuffers)
    requires HasPrimitive(m1) && HasPrimitive(m2)
    requires FirstPrimitive(m1) == FirstPrimitive(m2)
    requires m1.buffers == m2.buffers && m1.bufferViews == m2.bufferViews && m1.accessors == m2.accessors
    requires LoadDefined(Some(m1))
    ensures LoadDefined(Some(m2)) && Load(Some(m1), prior) == Load(Some(m2), prior)
  {
    var prim := FirstPrimitive(m1);
    if POSITION in prim.attributes {
      DecodersReadOnlyData(m1, m2, m1.accessors[prim.attributes[POSITION]], prior);
    }
    if NORMAL in prim.attributes {
      DecodersReadOnlyData(m1, m2, m1.accessors[prim.attributes[NORMAL]], prior);
    }
    if prim.indices > -1 {
      DecodersReadOnlyData(m1, m2, m1.accessors[prim.indices], prior);
    }
  }

  /** The decoders see a document only through its buffers and buffer views. */
  lemma DecodersReadOnlyData(m1: Model, m2: Model, acc: Accessor, prior: MeshBuffers)
    requires m1.buffers == m2.buffers && m1.bufferViews == m2.bufferViews
    ensures Vec3Decodable(m1, acc) ==> DecodeVec3(m1, acc, prior.positions) == DecodeVec3(m2, acc, prior.positions)
    ensures Vec3Decodable(m1, acc) ==> DecodeVec3(m1, acc, prior.normals) == DecodeVec3(m2, acc, prior.normals)
    ensures IndexDecodable(m1, acc) ==> DecodeIndices(m1, acc, prior.indices) == DecodeIndices(m2, acc, prior.indices)
  {
    if Vec3Decodable(m1, acc) && IsVec3Float(acc) {
      assert forall j :: 0 <= j < 3 * acc.count ==> ComponentAt(m1, acc, j) == ComponentAt(m2, acc, j);
    }
    if IndexDecodable(m1, acc) && IsIndexType(acc) {
      assert forall i :: 0 <= i < acc.count ==> IndexAt(m1, acc, i) == IndexAt(m2, acc, i);
    }
  }

  /**
   * From the empty start-up buffers: a missing attribute or index list leaves
   * its buffer empty, and so does a present attribute in the wrong format.
   */
  lemma ExtractFromEmpty(m: Model)
    requires HasPrimitive(m) && PrimitiveDecodable(m, FirstPrimitive(m))
    ensures var prim, r := FirstPrimitive(m), Extract(m, EMPTY);
      && (POSITION !in prim.attributes || !IsVec3Float(m.accessors[prim.attributes[POSITION]]) ==> r.positions == [])
      && (NORMAL !in prim.attributes || !IsVec3Float(m.accessors[prim.attributes[NORMAL]]) ==> r.normals == [])
      && (prim.indices <= -1 ==> r.indices == [])
  {
  }

  /**
   * A present, well-formed POSITION attribute gives `3 * count` words, the
   * `k`-th component of vertex `i` read at `base + i * stride + 4 * k`.
   */
  lemma ExtractPositions(m: Model, prior: MeshBuffers, i: nat, k: nat)
    requires HasPrimitive(m) && PrimitiveDecodable(m, FirstPrimitive(m))
    requires POSITION in FirstPrimitive(m).attributes
    requires var acc := m.accessors[FirstPrimitive(m).attributes[POSITION]];
      IsVec3Float(acc) && i < acc.count && k < 3
    ensures var acc := m.accessors[FirstPrimitive(m).attributes[POSITION]];
      var r := Extract(m, prior);
      && |r.positions| == 3 * acc.count
      && Base(m, acc) + i * Vec3Stride(m, acc) + 4 * k + 4 <= |Data(m, acc)|
      && r.positions[3 * i + k] == ReadWord(Data(m, acc), Base(m, acc) + i * Vec3Stride(m, acc) + 4 * k)
  {
    var acc := m.accessors[FirstPrimitive(m).attributes[POSITION]];
    DecodeVec3Element(m, acc, prior.positions, i, k);
  }
}
