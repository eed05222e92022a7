/** Turning one glTF primitive into an engine mesh (src/Engine/Model.cpp,
    `process_mesh` and `load_material_textures`): vertices from the
    POSITION, NORMAL and TEXCOORD_0 accessors, indices widened to 32 bits or
    synthesised, and the material's textures. Float components are carried
    as their four bytes; nothing is computed on them. */
module GltfMesh {
  import opened Results
  import opened Bytes
  import opened GltfDocument
  import Textures

  /** The four bytes of an IEEE-754 single, uninterpreted. */
  type FloatBits = s: seq<byte> | |s| == 4 witness [0, 0, 0, 0]

  datatype Vec3 = Vec3(x: FloatBits, y: FloatBits, z: FloatBits)
  datatype Vec2 = Vec2(u: FloatBits, v: FloatBits)
  datatype Vertex = Vertex(position: Vec3, normal: Vec3, texCoords: Vec2)

  /** Indices as the engine stores them: `unsigned int`. */
  const U32_LIMIT: nat := 0x1_0000_0000
  type u32 = x: int | 0 <= x < U32_LIMIT

  /** What `process_mesh` returns. */
  datatype MeshData = MeshData(vertices: seq<Vertex>, indices: seq<u32>, textures: seq<Textures.Texture>)

  /** Why a primitive cannot be turned into a mesh: a required attribute is
      absent (the `std::out_of_range` of `attributes.at`), the index
      accessor has a component type other than u8/u16/u32, or a texture
      could not be built. */
  datatype MeshError =
    | MissingAttribute(name: string)
    | InvalidIndicesType
    | TextureFailed(cause: Textures.TextureError)

  // ---- Accessor data ----

  /** The bytes an accessor's data starts in, and where it starts. */
  datatype Stream = Stream(bytes: seq<byte>, start: nat)

  /** The accessor, its buffer view and the view's buffer all exist. */
  predicate Resolvable(doc: Document, a: int) {
    && 0 <= a < |doc.accessors|
    && doc.accessors[a].bufferView < |doc.bufferViews|
    && doc.bufferViews[doc.accessors[a].bufferView].buffer < |doc.buffers|
  }

  /** The accessor's data: its buffer, from the view's offset plus the
      accessor's offset. The view's stride is not consulted. */
  function StreamOf(doc: Document, a: int): Stream
    requires Resolvable(doc, a)
  {
    var acc := doc.accessors[a];
    var view := doc.bufferViews[acc.bufferView];
    Stream(doc.buffers[view.buffer].data, acc.byteOffset + view.byteOffset)
  }

  /** At least `n` bytes are available from the start of the stream. */
  predicate Covers(s: Stream, n: nat) {
    s.start + n <= |s.bytes|
  }

  /** Float number `k` of a tightly packed float stream. */
  function FloatAt(s: Stream, k: nat): FloatBits
    requires Covers(s, 4 * k + 4)
  {
    s.bytes[s.start + 4 * k .. s.start + 4 * k + 4]
  }

  // ---- Vertices ----

  /** The `n` vertices of a primitive: vertex `i` takes floats `3i..3i+2`
      of the position and normal streams and floats `2i, 2i+1` of the
      texture-coordinate stream. */
  function AssembleVertices(pos: Stream, nrm: Stream, tex: Stream, n: nat): (vs: seq<Vertex>)
    requires Covers(pos, 12 * n) && Covers(nrm, 12 * n) && Covers(tex, 8 * n)
    ensures |vs| == n
  {
    seq(n, i requires 0 <= i < n =>
      Vertex(
        Vec3(FloatAt(pos, 3 * i), FloatAt(pos, 3 * i + 1), FloatAt(pos, 3 * i + 2)),
        Vec3(FloatAt(nrm, 3 * i), FloatAt(nrm, 3 * i + 1), FloatAt(nrm, 3 * i + 2)),
        Vec2(FloatAt(tex, 2 * i), FloatAt(tex, 2 * i + 1))))
  }

  function Vec3Bytes(v: Vec3): seq<byte> {
    v.x + v.y + v.z
  }

  function Vec2Bytes(v: Vec2): seq<byte> {
    v.u + v.v
  }

  /** The bytes of the positions of `vs`, concatenated in order. */
  function PositionBytes(vs: seq<Vertex>): seq<byte> {
    if |vs| == 0 then [] else PositionBytes(vs[..|vs| - 1]) + Vec3Bytes(vs[|vs| - 1].position)
  }

  function NormalBytes(vs: seq<Vertex>): seq<byte> {
    if |vs| == 0 then [] else NormalBytes(vs[..|vs| - 1]) + Vec3Bytes(vs[|vs| - 1].normal)
  }

  function TexCoordBytes(vs: seq<Vertex>): seq<byte> {
    if |vs| == 0 then [] else TexCoordBytes(vs[..|vs| - 1]) + Vec2Bytes(vs[|vs| - 1].texCoords)
  }

  /** The vertices use exactly the first `12n`, `12n` and `8n` bytes of the
      three streams, tightly packed and in order: re-serialising the
      vertices reproduces those bytes. */
  lemma VerticesAreTightlyPacked(pos: Stream, nrm: Stream, tex: Stream, n: nat)
    requires Covers(pos, 12 * n) && Covers(nrm, 12 * n) && Covers(tex, 8 * n)
    ensures PositionBytes(AssembleVertices(pos, nrm, tex, n)) == pos.bytes[pos.start .. pos.start + 12 * n]
    ensures NormalBytes(AssembleVertices(pos, nrm, tex, n)) == nrm.bytes[nrm.start .. nrm.start + 12 * n]
    ensures TexCoordBytes(AssembleVertices(pos, nrm, tex, n)) == tex.bytes[tex.start .. tex.start + 8 * n]
  {
    PositionsPacked(pos, nrm, tex, n);
    NormalsPacked(pos, nrm, tex, n);
    TexCoordsPacked(pos, nrm, tex, n);
  }

  /** Assembling `n` vertices is assembling the first `n - 1` and then
      vertex `n - 1`. */
  lemma AssembledSplit(pos: Stream, nrm: Stream, tex: Stream, n: nat)
    requires n > 0 && Covers(pos, 12 * n) && Covers(nrm, 12 * n) && Covers(tex, 8 * n)
    ensures Covers(pos, 12 * (n - 1) + 12) && Covers(nrm, 12 * (n - 1) + 12) && Covers(tex, 8 * (n - 1) + 8)
    ensures var vs := AssembleVertices(pos, nrm, tex, n);
            var i := n - 1;
            && vs[..i] == AssembleVertices(pos, nrm, tex, i)
            && vs[i].position == Vec3(FloatAt(pos, 3 * i), FloatAt(pos, 3 * i + 1), FloatAt(pos, 3 * i + 2))
            && vs[i].normal == Vec3(FloatAt(nrm, 3 * i), FloatAt(nrm, 3 * i + 1), FloatAt(nrm, 3 * i + 2))
            && vs[i].texCoords == Vec2(FloatAt(tex, 2 * i), FloatAt(tex, 2 * i + 1))
  {
  }

  lemma {:induction false} PositionsPacked(pos: Stream, nrm: Stream, tex: Stream, n: nat)
    requires Covers(pos, 12 * n) && Covers(nrm, 12 * n) && Covers(tex, 8 * n)
    ensures PositionBytes(AssembleVertices(pos, nrm, tex, n)) == pos.bytes[pos.start .. pos.start + 12 * n]
  {
    if n > 0 {
      var vs := AssembleVertices(pos, nrm, tex, n);
      AssembledSplit(pos, nrm, tex, n);
      PositionsPacked(pos, nrm, tex, n - 1);
      assert PositionBytes(vs) == PositionBytes(vs[..n - 1]) + Vec3Bytes(vs[n - 1].position);
      Vec3Slice(pos, n - 1);
    }
  }

  lemma {:induction false} NormalsPacked(pos: Stream, nrm: Stream, tex: Stream, n: nat)
    requires Covers(pos, 12 * n) && Covers(nrm, 12 * n) && Covers(tex, 8 * n)
    ensures NormalBytes(AssembleVertices(pos, nrm, tex, n)) == nrm.bytes[nrm.start .. nrm.start + 12 * n]
  {
    if n > 0 {
      var vs := AssembleVertices(pos, nrm, tex, n);
      AssembledSplit(pos, nrm, tex, n);
      NormalsPacked(pos, nrm, tex, n - 1);
      assert NormalBytes(vs) == NormalBytes(vs[..n - 1]) + Vec3Bytes(vs[n - 1].normal);
      Vec3Slice(nrm, n - 1);
    }
  }

  lemma {:induction false} TexCoordsPacked(pos: Stream, nrm: Stream, tex: Stream, n: nat)
    requires Covers(pos, 12 * n) && Covers(nrm, 12 * n) && Covers(tex, 8 * n)
    ensures TexCoordBytes(AssembleVertices(pos, nrm, tex, n)) == tex.bytes[tex.start .. tex.start + 8 * n]
  {
    if n > 0 {
      var vs := AssembleVertices(pos, nrm, tex, n);
      AssembledSplit(pos, nrm, tex, n);
      TexCoordsPacked(pos, nrm, tex, n - 1);
      assert TexCoordBytes(vs) == TexCoordBytes(vs[..n - 1]) + Vec2Bytes(vs[n - 1].texCoords);
      Vec2Slice(tex, n - 1);
    }
  }

  lemma Vec3Slice(s: Stream, i: nat)
    requires Covers(s, 12 * i + 12)
    ensures s.bytes[s.start .. s.start + 12 * i] + Vec3Bytes(Vec3(FloatAt(s, 3 * i), FloatAt(s, 3 * i + 1), FloatAt(s, 3 * i + 2)))
            == s.bytes[s.start .. s.start + 12 * i + 12]
  {
    var a := s.start + 12 * i;
    assert s.bytes[s.start .. a + 12] == s.bytes[s.start .. a] + s.bytes[a .. a + 4] + s.bytes[a + 4 .. a + 8] + s.bytes[a + 8 .. a + 12];
  }

  lemma Vec2Slice(s: Stream, i: nat)
    requires Covers(s, 8 * i + 8)
    ensures s.bytes[s.start .. s.start + 8 * i] + Vec2Bytes(Vec2(FloatAt(s, 2 * i), FloatAt(s, 2 * i + 1)))
            == s.bytes[s.start .. s.start + 8 * i + 8]
  {
    var a := s.start + 8 * i;
    assert s.bytes[s.start .. a + 8] == s.bytes[s.start .. a] + s.bytes[a .. a + 4] + s.bytes[a + 4 .. a + 8];
  }

  // ---- Indices ----

  /** The byte width of an index component type; u8, u16 and u32 are the
      only ones the loader accepts (section 3.7.2.1 of the glTF 2.0
      specification allows exactly these for indices). */
  function IndexWidth(componentType: int): (w: Option<nat>)
    ensures w.Some? <==> componentType in {UNSIGNED_BYTE, UNSIGNED_SHORT, UNSIGNED_INT}
    ensures w.Some? ==> 1 <= w.value <= 4 && Pow256(w.value) <= U32_LIMIT
    ensures componentType == UNSIGNED_BYTE ==> w == Some(1)
    ensures componentType == UNSIGNED_SHORT ==> w == Some(2)
    ensures componentType == UNSIGNED_INT ==> w == Some(4)
  {
    if componentType == UNSIGNED_INT then Some(4)
    else if componentType == UNSIGNED_SHORT then Some(2)
    else if componentType == UNSIGNED_BYTE then Some(1)
    else None
  }

  /** The `j`-th little-endian element of width `w`. */
  function ElementAt(s: Stream, w: nat, j: nat): (v: nat)
    requires Covers(s, w * j + w)
    ensures v < Pow256(w)
  {
    LittleEndian(s.bytes[s.start + w * j .. s.start + w * j + w])
  }

  lemma CoversElement(s: Stream, w: nat, j: nat, count: nat)
    requires Covers(s, w * count) && j < count
    ensures Covers(s, w * j + w)
  {
    assert w * j + w == w * (j + 1) <= w * count;
  }

  /** Every one of `count` elements of width `w` lies within the stream. */
  lemma CoversAll(s: Stream, w: nat, count: nat)
    requires Covers(s, w * count)
    ensures forall j :: 0 <= j < count ==> Covers(s, w * j + w)
  {
    forall j | 0 <= j < count
      ensures Covers(s, w * j + w)
    {
      CoversElement(s, w, j, count);
    }
  }

  /** The indices of an index accessor with `count` elements, each
      zero-extended to 32 bits: element `j` is the little-endian value of
      the `w` bytes at `start + w * j`. */
  function DecodeIndices(s: Stream, componentType: int, count: nat): (r: Result<seq<u32>, MeshError>)
    requires IndexWidth(componentType).Some? ==> Covers(s, IndexWidth(componentType).value * count)
    ensures r.Err? <==> IndexWidth(componentType).None?
    ensures r.Err? ==> r.error == InvalidIndicesType
    ensures r.Ok? ==> |r.value| == count
    ensures r.Ok? ==> forall j :: 0 <= j < count ==> r.value[j] < Pow256(IndexWidth(componentType).value)
    ensures r.Ok? ==> forall j :: 0 <= j < count ==>
      && Covers(s, IndexWidth(componentType).value * j + IndexWidth(componentType).value)
      && r.value[j] == LittleEndian(s.bytes[s.start + IndexWidth(componentType).value * j ..
                                            s.start + IndexWidth(componentType).value * j + IndexWidth(componentType).value])
  {
    match IndexWidth(componentType)
    case None => Err(InvalidIndicesType)
    case Some(w) =>
      CoversAll(s, w, count);
      Ok(seq(count, j requires 0 <= j < count =>
        CoversElement(s, w, j, count);
        ElementAt(s, w, j) as u32))
  }

  /** The `w`-byte little-endian encoding of `vals`, back to back. */
  function EncodeIndices(vals: seq<nat>, w: nat): (bs: seq<byte>)
    requires forall j :: 0 <= j < |vals| ==> vals[j] < Pow256(w)
    ensures |bs| == w * |vals|
  {
    if |vals| == 0 then []
    else ToLittleEndian(vals[0], w) + EncodeIndices(vals[1..], w)
  }

  lemma {:induction false} EncodedElement(vals: seq<nat>, w: nat, j: nat)
    requires forall k :: 0 <= k < |vals| ==> vals[k] < Pow256(w)
    requires j < |vals|
    ensures w * j + w <= |EncodeIndices(vals, w)|
    ensures EncodeIndices(vals, w)[w * j .. w * j + w] == ToLittleEndian(vals[j], w)
  {
    var bs := EncodeIndices(vals, w);
    var head := ToLittleEndian(vals[0], w);
    assert bs == head + EncodeIndices(vals[1..], w);
    if j == 0 {
      assert bs[0 .. w] == head;
    } else {
      EncodedElement(vals[1..], w, j - 1);
      assert w * j == w + w * (j - 1);
      assert bs[w * j .. w * j + w] == EncodeIndices(vals[1..], w)[w * (j - 1) .. w * (j - 1) + w];
    }
  }

  lemma ProductNonNegative(a: nat, b: nat)
    ensures a * b >= 0
  {
  }

  /** A slice of the middle part of `pre + e + post`, shifted by `|pre|`. */
  lemma ShiftedSlice(pre: seq<byte>, e: seq<byte>, post: seq<byte>, a: nat, w: nat)
    requires a + w <= |e|
    ensures (pre + e + post)[|pre| + a .. |pre| + a + w] == e[a .. a + w]
  {
    var shifted := (pre + e + post)[|pre| + a .. |pre| + a + w];
    var part := e[a .. a + w];
    forall k | 0 <= k < w
      ensures shifted[k] == part[k]
    {
    }
  }

  /** If the `w` bytes at `start + a`, with `a = w * j`, encode `v`, then
      element `j` of the stream starting at `start` is `v`. */
  lemma ElementDecodes(bs: seq<byte>, start: nat, w: nat, j: nat, a: nat, v: nat)
    requires a == w * j && start + a + w <= |bs| && v < Pow256(w)
    requires bs[start + a .. start + a + w] == ToLittleEndian(v, w)
    ensures Covers(Stream(bs, start), w * j + w)
    ensures ElementAt(Stream(bs, start), w, j) == v
  {
    DecodeEncode(v, w);
  }

  /** Element `j` of an encoded index buffer, stored anywhere inside a
      larger buffer, reads back as `vals[j]`. */
  lemma ElementRoundTrip(pre: seq<byte>, vals: seq<nat>, post: seq<byte>, w: nat, j: nat)
    requires forall k :: 0 <= k < |vals| ==> vals[k] < Pow256(w)
    requires j < |vals|
    ensures Covers(Stream(pre + EncodeIndices(vals, w) + post, |pre|), w * j + w)
    ensures ElementAt(Stream(pre + EncodeIndices(vals, w) + post, |pre|), w, j) == vals[j]
  {
    EncodedElement(vals, w, j);
    ElementInside(pre, EncodeIndices(vals, w), post, w, j, vals[j]);
  }

  /** If element `j` of `e` encodes `v`, it still reads as `v` once `e`
      sits inside a larger buffer and is read from its own start. */
  lemma ElementInside(pre: seq<byte>, e: seq<byte>, post: seq<byte>, w: nat, j: nat, v: nat)
    requires w * j + w <= |e| && v < Pow256(w)
    requires e[w * j .. w * j + w] == ToLittleEndian(v, w)
    ensures Covers(Stream(pre + e + post, |pre|), w * j + w)
    ensures ElementAt(Stream(pre + e + post, |pre|), w, j) == v
  {
    ProductNonNegative(w, j);
    ShiftedSlice(pre, e, post, w * j, w);
    ElementDecodes(pre + e + post, |pre|, w, j, w * j, v);
  }

  /** Decoding an index buffer gives back the indices it encodes, whatever
      the component type and wherever the buffer sits inside the glTF
      buffer (the accessor's plus the view's byte offset). */
  lemma IndicesRoundTrip(pre: seq<byte>, vals: seq<nat>, post: seq<byte>, componentType: int)
    requires IndexWidth(componentType).Some?
    requires forall j :: 0 <= j < |vals| ==> vals[j] < Pow256(IndexWidth(componentType).value)
    ensures DecodeIndices(Stream(pre + EncodeIndices(vals, IndexWidth(componentType).value) + post, |pre|),
                          componentType, |vals|)
            == Ok(vals)
  {
    var w := IndexWidth(componentType).value;
    var bs := pre + EncodeIndices(vals, w) + post;
    assert |pre| + w * |vals| <= |bs|;
    AllElementsRoundTrip(pre, vals, post, w);
    DecodesTo(Stream(bs, |pre|), componentType, vals);
  }

  /** Every element of an encoded index buffer inside a larger buffer
      reads back as the value encoded. */
  lemma AllElementsRoundTrip(pre: seq<byte>, vals: seq<nat>, post: seq<byte>, w: nat)
    requires forall k :: 0 <= k < |vals| ==> vals[k] < Pow256(w)
    ensures forall j :: 0 <= j < |vals| ==> ReadsAs(Stream(pre + EncodeIndices(vals, w) + post, |pre|), w, j, vals[j])
  {
    var s := Stream(pre + EncodeIndices(vals, w) + post, |pre|);
    forall j | 0 <= j < |vals|
      ensures ReadsAs(s, w, j, vals[j])
    {
      ElementRoundTrip(pre, vals, post, w, j);
    }
  }

  /** Element `j` of width `w` lies within the stream and reads as `v`. */
  ghost predicate ReadsAs(s: Stream, w: nat, j: nat, v: nat) {
    Covers(s, w * j + w) && ElementAt(s, w, j) == v
  }

  /** A stream whose elements read as `vals` decodes to `vals`. */
  lemma DecodesTo(s: Stream, componentType: int, vals: seq<nat>)
    requires IndexWidth(componentType).Some?
    requires Covers(s, IndexWidth(componentType).value * |vals|)
    requires forall j :: 0 <= j < |vals| ==> ReadsAs(s, IndexWidth(componentType).value, j, vals[j])
    ensures DecodeIndices(s, componentType, |vals|) == Ok(vals)
  {
    var r := DecodeIndices(s, componentType, |vals|);
    assert forall j :: 0 <= j < |vals| ==> r.value[j] == vals[j];
    assert r.value == vals;
  }

  /** The same index values stored as u8, u16 or u32, at any offset, decode
      to identical sequences. */
  lemma IndexWidthIrrelevant(pre1: seq<byte>, post1: seq<byte>, pre2: seq<byte>, post2: seq<byte>,
                             vals: seq<nat>, type1: int, type2: int)
    requires IndexWidth(type1).Some? && IndexWidth(type2).Some?
    requires forall j :: 0 <= j < |vals| ==> vals[j] < Pow256(IndexWidth(type1).value)
    requires forall j :: 0 <= j < |vals| ==> vals[j] < Pow256(IndexWidth(type2).value)
    ensures DecodeIndices(Stream(pre1 + EncodeIndices(vals, IndexWidth(type1).value) + post1, |pre1|), type1, |vals|)
            == DecodeIndices(Stream(pre2 + EncodeIndices(vals, IndexWidth(type2).value) + post2, |pre2|), type2, |vals|)
  {
    IndicesRoundTrip(pre1, vals, post1, type1);
    IndicesRoundTrip(pre2, vals, post2, type2);
  }

  /** The indices synthesised for a primitive without an index accessor:
      `0, 1, ..., n-1`, each converted to `unsigned int`. */
  function IdentityIndices(n: nat): (r: seq<u32>)
    ensures |r| == n
    ensures forall i :: 0 <= i < n ==> r[i] == i % U32_LIMIT
    ensures forall i :: 0 <= i < n ==> r[i] < n
    ensures n <= U32_LIMIT ==> forall i :: 0 <= i < n ==> r[i] == i
  {
    seq(n, i requires 0 <= i < n => (i % U32_LIMIT) as u32)
  }

  // ---- Textures ----

  /** The index a texture kind name selects in `load_material_textures`,
      `-1` for a name it does not know. */
  function SlotTextureIndex(m: Material, kind: string): int {
    if kind == "baseColor" then m.baseColorTexture
    else if kind == "metallicRoughness" then m.metallicRoughnessTexture
    else if kind == "normal" then m.normalTexture
    else if kind == "occlusion" then m.occlusionTexture
    else if kind == "emissive" then m.emissiveTexture
    else -1
  }

  /** The engine texture type name for a kind; "texture_diffuse" unless
      the kind is one of the four others. */
  function TextureTypeName(kind: string): string {
    if kind == "normal" then "texture_normal"
    else if kind == "metallicRoughness" then "texture_metallicRoughness"
    else if kind == "occlusion" then "texture_occlusion"
    else if kind == "emissive" then "texture_emissive"
    else "texture_diffuse"
  }

  /** The texture a slot refers to and its image exist. */
  predicate SlotResolvable(doc: Document, m: Material, kind: string) {
    var t := SlotTextureIndex(m, kind);
    t >= 0 ==> t < |doc.textures| && doc.textures[t].source < |doc.images|
  }

  /** The texture built from the image behind a slot. */
  function SlotTexture(doc: Document, m: Material, kind: string): Result<Textures.Texture, Textures.TextureError>
    requires SlotTextureIndex(m, kind) >= 0 && SlotResolvable(doc, m, kind)
  {
    var image := doc.images[doc.textures[SlotTextureIndex(m, kind)].source];
    Textures.FromMemory(image.pixels, image.width, image.height, image.component,
                        TextureTypeName(kind), image.uri)
  }

  /** `load_material_textures`: the one texture of the slot `kind` names,
      or none when the slot is empty or the name unknown. */
  function LoadMaterialTextures(doc: Document, m: Material, kind: string): (r: Result<seq<Textures.Texture>, Textures.TextureError>)
    requires SlotResolvable(doc, m, kind)
    ensures SlotTextureIndex(m, kind) < 0 ==> r == Ok([])
    ensures SlotTextureIndex(m, kind) >= 0 ==>
      (r.Ok? <==> SlotTexture(doc, m, kind).Ok?) &&
      (r.Ok? ==> r.value == [SlotTexture(doc, m, kind).value]) &&
      (r.Err? ==> r.error == SlotTexture(doc, m, kind).error)
  {
    if SlotTextureIndex(m, kind) >= 0 then
      var t :- SlotTexture(doc, m, kind);
      Ok([t])
    else Ok([])
  }

  /** The base-color slot asks for the kind "albedo", which
      `load_material_textures` does not know, so it never yields a
      texture, whatever the material. */
  lemma AlbedoNeverLoads(doc: Document, m: Material)
    ensures SlotResolvable(doc, m, "albedo")
    ensures LoadMaterialTextures(doc, m, "albedo") == Ok([])
  {
  }

  /** The kinds `process_mesh` asks for after the base color, in order. */
  const CollectedKinds: seq<string> := ["metallicRoughness", "normal", "occlusion", "emissive"]

  /** The kinds among `kinds` whose slot in `m` holds a texture. */
  function FilledKinds(m: Material, kinds: seq<string>): (r: seq<string>)
    ensures |r| <= |kinds|
    ensures forall i :: 0 <= i < |r| ==> r[i] in kinds && SlotTextureIndex(m, r[i]) >= 0
  {
    if |kinds| == 0 then []
    else if SlotTextureIndex(m, kinds[0]) >= 0 then [kinds[0]] + FilledKinds(m, kinds[1..])
    else FilledKinds(m, kinds[1..])
  }

  /** Every slot `process_mesh` reads refers to a texture and image of the
      document. */
  predicate MaterialResolvable(doc: Document, material: int) {
    material >= 0 ==>
      && material < |doc.materials|
      && forall i :: 0 <= i < |CollectedKinds| ==> SlotResolvable(doc, doc.materials[material], CollectedKinds[i])
  }

  /** The kinds' textures appended to `acc`, slot by slot, stopping at
      the first texture that cannot be built. */
  function CollectSlots(doc: Document, m: Material, kinds: seq<string>, acc: seq<Textures.Texture>)
    : Result<seq<Textures.Texture>, Textures.TextureError>
    requires forall i :: 0 <= i < |kinds| ==> SlotResolvable(doc, m, kinds[i])
  {
    if |kinds| == 0 then Ok(acc)
    else
      var more :- if SlotTextureIndex(m, kinds[0]) >= 0 then LoadMaterialTextures(doc, m, kinds[0]) else Ok([]);
      CollectSlots(doc, m, kinds[1..], acc + more)
  }

  /** The texture collection of `process_mesh`: nothing without a
      material; otherwise the base-color request (which yields nothing)
      followed by the four other slots in order. */
  function MaterialTextures(doc: Document, material: int): (r: Result<seq<Textures.Texture>, Textures.TextureError>)
    requires MaterialResolvable(doc, material)
    ensures material < 0 ==> r == Ok([])
  {
    if material < 0 then Ok([])
    else
      var m := doc.materials[material];
      var base :- if m.baseColorTexture >= 0 then LoadMaterialTextures(doc, m, "albedo") else Ok([]);
      CollectSlots(doc, m, CollectedKinds, base)
  }

  /** Every kind of `ks` names a filled, resolvable slot. */
  ghost predicate FilledSlots(doc: Document, m: Material, ks: seq<string>) {
    forall i :: 0 <= i < |ks| ==> SlotTextureIndex(m, ks[i]) >= 0 && SlotResolvable(doc, m, ks[i])
  }

  /** The error of the first slot of `ks` whose texture cannot be built. */
  function FirstFailure(doc: Document, m: Material, ks: seq<string>): Option<Textures.TextureError>
    requires FilledSlots(doc, m, ks)
  {
    if |ks| == 0 then None
    else if SlotTexture(doc, m, ks[0]).Err? then Some(SlotTexture(doc, m, ks[0]).error)
    else FirstFailure(doc, m, ks[1..])
  }

  /** The textures of the slots of `ks`, one per slot, in order. */
  function SlotTextures(doc: Document, m: Material, ks: seq<string>): (ts: seq<Textures.Texture>)
    requires FilledSlots(doc, m, ks) && FirstFailure(doc, m, ks).None?
    ensures |ts| == |ks|
    ensures forall i :: 0 <= i < |ks| ==> SlotTexture(doc, m, ks[i]).Ok? && ts[i] == SlotTexture(doc, m, ks[i]).value
  {
    if |ks| == 0 then []
    else [SlotTexture(doc, m, ks[0]).value] + SlotTextures(doc, m, ks[1..])
  }

  lemma {:induction false} FilledKindsAreFilled(doc: Document, m: Material, kinds: seq<string>)
    requires forall i :: 0 <= i < |kinds| ==> SlotResolvable(doc, m, kinds[i])
    ensures FilledSlots(doc, m, FilledKinds(m, kinds))
  {
    if |kinds| > 0 {
      assert forall i :: 0 <= i < |kinds| - 1 ==> kinds[1..][i] == kinds[i + 1];
      FilledKindsAreFilled(doc, m, kinds[1..]);
    }
  }

  /** Collecting over `kinds` appends the textures of exactly the filled
      slots, in slot order, unless one cannot be built, in which case the
      first such failure is reported. */
  lemma {:induction false} CollectSlotsSpec(doc: Document, m: Material, kinds: seq<string>, acc: seq<Textures.Texture>)
    requires forall i :: 0 <= i < |kinds| ==> SlotResolvable(doc, m, kinds[i])
    ensures FilledSlots(doc, m, FilledKinds(m, kinds))
    ensures CollectSlots(doc, m, kinds, acc) ==
      match FirstFailure(doc, m, FilledKinds(m, kinds))
      case Some(e) => Err(e)
      case None => Ok(acc + SlotTextures(doc, m, FilledKinds(m, kinds)))
  {
    FilledKindsAreFilled(doc, m, kinds);
    if |kinds| > 0 {
      var k := kinds[0];
      var rest := kinds[1..];
      assert forall i :: 0 <= i < |rest| ==> rest[i] == kinds[i + 1];
      FilledKindsAreFilled(doc, m, rest);
      if SlotTextureIndex(m, k) >= 0 {
        assert FilledKinds(m, kinds) == [k] + FilledKinds(m, rest);
        assert ([k] + FilledKinds(m, rest))[1..] == FilledKinds(m, rest);
        var t := SlotTexture(doc, m, k);
        if t.Ok? {
          CollectSlotsSpec(doc, m, rest, acc + [t.value]);
          if FirstFailure(doc, m, FilledKinds(m, rest)).None? {
            assert acc + [t.value] + SlotTextures(doc, m, FilledKinds(m, rest))
                == acc + SlotTextures(doc, m, FilledKinds(m, kinds));
          }
        }
      } else {
        assert acc + [] == acc;
        CollectSlotsSpec(doc, m, rest, acc);
      }
    }
  }

  /** Textures come out in the order metallic-roughness, normal,
      occlusion, emissive, exactly one for each of those slots that holds a
      texture and none for the base color; the first texture that cannot be
      built aborts the collection. */
  lemma MaterialTexturesInSlotOrder(doc: Document, material: int)
    requires material >= 0 && MaterialResolvable(doc, material)
    ensures var m := doc.materials[material];
      var filled := FilledKinds(m, CollectedKinds);
      && (forall i :: 0 <= i < |filled| ==> filled[i] != "baseColor")
      && FilledSlots(doc, m, filled)
      && MaterialTextures(doc, material) ==
           match FirstFailure(doc, m, filled)
           case Some(e) => Err(e)
           case None => Ok(SlotTextures(doc, m, filled))
  {
    var m := doc.materials[material];
    MaterialTexturesCollect(doc, material);
    BaseColorNotCollected(m);
    CollectSlotsSpec(doc, m, CollectedKinds, []);
    if FirstFailure(doc, m, FilledKinds(m, CollectedKinds)).None? {
      assert [] + SlotTextures(doc, m, FilledKinds(m, CollectedKinds)) == SlotTextures(doc, m, FilledKinds(m, CollectedKinds));
    }
  }

  /** Since the base-color request yields nothing, a material's textures
      are those collected over the remaining kinds. */
  lemma MaterialTexturesCollect(doc: Document, material: int)
    requires material >= 0 && MaterialResolvable(doc, material)
    ensures MaterialTextures(doc, material) == CollectSlots(doc, doc.materials[material], CollectedKinds, [])
  {
    AlbedoNeverLoads(doc, doc.materials[material]);
  }

  /** The base color is not among the collected kinds. */
  lemma BaseColorNotCollected(m: Material)
    ensures forall i :: 0 <= i < |FilledKinds(m, CollectedKinds)| ==> FilledKinds(m, CollectedKinds)[i] != "baseColor"
  {
    assert "baseColor" !in CollectedKinds;
  }

  // ---- Whole primitive ----

  predicate HasRequiredAttributes(p: Primitive) {
    "POSITION" in p.attributes && "NORMAL" in p.attributes && "TEXCOORD_0" in p.attributes
  }

  /** Every table entry `process_mesh` dereferences exists and every read
      stays inside its buffer; it checks none of this itself. Lookups
      happen in source order and stop at the first missing attribute, so
      only what is reached is required. */
  predicate PrimitiveReadable(doc: Document, p: Primitive) {
    var attrs := p.attributes;
    && ("POSITION" in attrs ==> Resolvable(doc, attrs["POSITION"]))
    && ("POSITION" in attrs && "NORMAL" in attrs ==> Resolvable(doc, attrs["NORMAL"]))
    && (HasRequiredAttributes(p) ==>
          && Resolvable(doc, attrs["TEXCOORD_0"])
          && var n := doc.accessors[attrs["POSITION"]].count;
          && Covers(StreamOf(doc, attrs["POSITION"]), 12 * n)
          && Covers(StreamOf(doc, attrs["NORMAL"]), 12 * n)
          && Covers(StreamOf(doc, attrs["TEXCOORD_0"]), 8 * n)
          && (p.indices >= 0 ==>
                && Resolvable(doc, p.indices)
                && var w := IndexWidth(doc.accessors[p.indices].componentType);
                && (w.Some? ==> Covers(StreamOf(doc, p.indices), w.value * doc.accessors[p.indices].count)))
          && MaterialResolvable(doc, p.material))
  }

  /** The vertices of a primitive that has all three attributes. */
  function PrimitiveVertices(doc: Document, p: Primitive): (vs: seq<Vertex>)
    requires PrimitiveReadable(doc, p) && HasRequiredAttributes(p)
    ensures |vs| == doc.accessors[p.attributes["POSITION"]].count
  {
    var attrs := p.attributes;
    AssembleVertices(StreamOf(doc, attrs["POSITION"]), StreamOf(doc, attrs["NORMAL"]),
                     StreamOf(doc, attrs["TEXCOORD_0"]), doc.accessors[attrs["POSITION"]].count)
  }

  /** The indices of a primitive: decoded from its index accessor, or
      `0..n-1` for its `n` vertices when it has none. */
  function PrimitiveIndices(doc: Document, p: Primitive, vertexCount: nat): (r: Result<seq<u32>, MeshError>)
    requires PrimitiveReadable(doc, p) && HasRequiredAttributes(p)
    ensures p.indices < 0 ==> r == Ok(IdentityIndices(vertexCount))
  {
    if p.indices >= 0 then
      var acc := doc.accessors[p.indices];
      DecodeIndices(StreamOf(doc, p.indices), acc.componentType, acc.count)
    else Ok(IdentityIndices(vertexCount))
  }

  /** `process_mesh`: a missing attribute aborts (no normal or texture
      coordinate is ever defaulted), then the vertices, the indices and the
      textures are produced in that order, the first failure winning. */
  function ProcessMesh(doc: Document, p: Primitive): (r: Result<MeshData, MeshError>)
    requires PrimitiveReadable(doc, p)
    ensures "POSITION" !in p.attributes ==> r == Err(MissingAttribute("POSITION"))
    ensures "POSITION" in p.attributes && "NORMAL" !in p.attributes ==> r == Err(MissingAttribute("NORMAL"))
    ensures "POSITION" in p.attributes && "NORMAL" in p.attributes && "TEXCOORD_0" !in p.attributes ==>
              r == Err(MissingAttribute("TEXCOORD_0"))
    ensures r.Ok? <==>
      && HasRequiredAttributes(p)
      && PrimitiveIndices(doc, p, doc.accessors[p.attributes["POSITION"]].count).Ok?
      && MaterialTextures(doc, p.material).Ok?
    ensures HasRequiredAttributes(p) && PrimitiveIndices(doc, p, doc.accessors[p.attributes["POSITION"]].count).Err? ==>
      r == Err(InvalidIndicesType)
    ensures HasRequiredAttributes(p) && PrimitiveIndices(doc, p, doc.accessors[p.attributes["POSITION"]].count).Ok?
            && MaterialTextures(doc, p.material).Err? ==>
      r == Err(TextureFailed(MaterialTextures(doc, p.material).error))
    ensures r.Ok? ==>
      && |r.value.vertices| == doc.accessors[p.attributes["POSITION"]].count
      && r.value.vertices == PrimitiveVertices(doc, p)
      && r.value.indices == PrimitiveIndices(doc, p, |r.value.vertices|).value
      && r.value.textures == MaterialTextures(doc, p.material).value
  {
    if "POSITION" !in p.attributes then Err(MissingAttribute("POSITION"))
    else if "NORMAL" !in p.attributes then Err(MissingAttribute("NORMAL"))
    else if "TEXCOORD_0" !in p.attributes then Err(MissingAttribute("TEXCOORD_0"))
    else
      var vertices := PrimitiveVertices(doc, p);
      var indices :- PrimitiveIndices(doc, p, |vertices|);
      var textures := MaterialTextures(doc, p.material);
      if textures.Err? then Err(TextureFailed(textures.error))
      else Ok(MeshData(vertices, indices, textures.value))
  }

  // ---- Properties of a whole primitive ----

  /** Without an index accessor the mesh gets the indices `0..n-1` for its
      `n` vertices (given fewer than 2^32 vertices), so every index names a
      vertex. */
  lemma SynthesisedIndicesNameVertices(doc: Document, p: Primitive)
    requires PrimitiveReadable(doc, p) && p.indices < 0
    requires ProcessMesh(doc, p).Ok?
    ensures var mesh := ProcessMesh(doc, p).value;
      && |mesh.indices| == |mesh.vertices|
      && (forall i :: 0 <= i < |mesh.indices| ==> mesh.indices[i] < |mesh.vertices|)
      && (|mesh.vertices| <= U32_LIMIT ==> forall i :: 0 <= i < |mesh.indices| ==> mesh.indices[i] == i)
  {
  }

  /** The view's byte stride is never consulted: data is read tightly
      packed whatever stride a view declares. */
  lemma StrideIgnored(doc: Document, p: Primitive, v: nat, stride: nat)
    requires v < |doc.bufferViews| && PrimitiveReadable(doc, p)
    ensures var doc' := doc.(bufferViews := doc.bufferViews[v := doc.bufferViews[v].(byteStride := stride)]);
      PrimitiveReadable(doc', p) && ProcessMesh(doc', p) == ProcessMesh(doc, p)
  {
    var doc' := doc.(bufferViews := doc.bufferViews[v := doc.bufferViews[v].(byteStride := stride)]);
    assert forall a :: Resolvable(doc, a) ==> Resolvable(doc', a) && StreamOf(doc', a) == StreamOf(doc, a);
    if HasRequiredAttributes(p) && p.material >= 0 {
      var m := doc.materials[p.material];
      var base := if m.baseColorTexture >= 0 then LoadMaterialTextures(doc, m, "albedo") else Ok([]);
      if base.Ok? {
        CollectSlotsSameImages(doc, doc', m, CollectedKinds, base.value);
      }
    }
  }

  /** Texture collection reads only the texture and image tables. */
  lemma {:induction false} CollectSlotsSameImages(doc: Document, doc': Document, m: Material,
                                                  kinds: seq<string>, acc: seq<Textures.Texture>)
    requires doc.textures == doc'.textures && doc.images == doc'.images
    requires forall i :: 0 <= i < |kinds| ==> SlotResolvable(doc, m, kinds[i])
    ensures forall i :: 0 <= i < |kinds| ==> SlotResolvable(doc', m, kinds[i])
    ensures CollectSlots(doc', m, kinds, acc) == CollectSlots(doc, m, kinds, acc)
  {
    if |kinds| > 0 {
      assert forall i :: 0 <= i < |kinds| - 1 ==> kinds[1..][i] == kinds[i + 1];
      var more := if SlotTextureIndex(m, kinds[0]) >= 0 then LoadMaterialTextures(doc, m, kinds[0]) else Ok([]);
      if more.Ok? {
        CollectSlotsSameImages(doc, doc', m, kinds[1..], acc + more.value);
      }
    }
  }

  /** One vertex and a u8 index buffer holding 5: the index is past the
      last vertex, and the mesh is still built, because indices are not
      checked against the vertex count. */
  lemma IndicesNotRangeChecked()
    ensures var floats: seq<byte> := seq(32, i => 0);
      var doc := Document(
        [Buffer(floats), Buffer([5])],
        [BufferView(0, 0, 32, 0), BufferView(1, 0, 1, 0)],
        [Accessor(0, 0, FLOAT, 1), Accessor(0, 12, FLOAT, 1), Accessor(0, 24, FLOAT, 1),
         Accessor(1, 0, UNSIGNED_BYTE, 1)],
        [], [], [], [], [], [], -1);
      var p := Primitive(map["POSITION" := 0, "NORMAL" := 1, "TEXCOORD_0" := 2], 3, -1);
      && PrimitiveReadable(doc, p)
      && ProcessMesh(doc, p).Ok?
      && |ProcessMesh(doc, p).value.vertices| == 1
      && ProcessMesh(doc, p).value.indices == [5]
  {
    var floats: seq<byte> := seq(32, i => 0);
    var doc := Document(
      [Buffer(floats), Buffer([5])],
      [BufferView(0, 0, 32, 0), BufferView(1, 0, 1, 0)],
      [Accessor(0, 0, FLOAT, 1), Accessor(0, 12, FLOAT, 1), Accessor(0, 24, FLOAT, 1),
       Accessor(1, 0, UNSIGNED_BYTE, 1)],
      [], [], [], [], [], [], -1);
    var p := Primitive(map["POSITION" := 0, "NORMAL" := 1, "TEXCOORD_0" := 2], 3, -1);
    assert PrimitiveReadable(doc, p);
    var s := StreamOf(doc, 3);
    assert s.bytes[0..1] == [5];
    assert LittleEndian([5]) == 5;
    assert ElementAt(s, 1, 0) == 5;
  }

  // ---- Base color as intended ----

  /** The five kinds in the order `process_mesh` visits the slots, with the
      base color requested under the name `load_material_textures` knows. */
  const IntendedKinds: seq<string> := ["baseColor"] + CollectedKinds

  /** Every slot, the base color included, refers to a texture and image
      of the document. */
  predicate MaterialResolvableIntended(doc: Document, material: int) {
    material >= 0 ==>
      && material < |doc.materials|
      && forall i :: 0 <= i < |IntendedKinds| ==> SlotResolvable(doc, doc.materials[material], IntendedKinds[i])
  }

  /** The texture collection with the base-color request corrected. */
  function MaterialTexturesIntended(doc: Document, material: int): (r: Result<seq<Textures.Texture>, Textures.TextureError>)
    requires MaterialResolvableIntended(doc, material)
    ensures material < 0 ==> r == Ok([])
  {
    if material < 0 then Ok([])
    else CollectSlots(doc, doc.materials[material], IntendedKinds, [])
  }

  /** The textures the first of `kinds` contributes to a collection. */
  function FirstSlot(doc: Document, m: Material, kinds: seq<string>): Result<seq<Textures.Texture>, Textures.TextureError>
    requires |kinds| > 0 && SlotResolvable(doc, m, kinds[0])
  {
    if SlotTextureIndex(m, kinds[0]) >= 0 then LoadMaterialTextures(doc, m, kinds[0]) else Ok([])
  }

  lemma CollectSlotsStep(doc: Document, m: Material, kinds: seq<string>, acc: seq<Textures.Texture>)
    requires |kinds| > 0 && forall i :: 0 <= i < |kinds| ==> SlotResolvable(doc, m, kinds[i])
    ensures forall i :: 0 <= i < |kinds| - 1 ==> SlotResolvable(doc, m, kinds[1..][i])
    ensures var more := FirstSlot(doc, m, kinds);
      CollectSlots(doc, m, kinds, acc) ==
        if more.Err? then Err(more.error) else CollectSlots(doc, m, kinds[1..], acc + more.value)
  {
    assert forall i :: 0 <= i < |kinds| - 1 ==> kinds[1..][i] == kinds[i + 1];
  }

  /** Collection onto an accumulator: the accumulator followed by what
      collection onto nothing gives, or the same failure. */
  lemma {:induction false} CollectSlotsAcc(doc: Document, m: Material, kinds: seq<string>, acc: seq<Textures.Texture>)
    requires forall i :: 0 <= i < |kinds| ==> SlotResolvable(doc, m, kinds[i])
    ensures var r0 := CollectSlots(doc, m, kinds, []);
      CollectSlots(doc, m, kinds, acc) == if r0.Ok? then Ok(acc + r0.value) else r0
  {
    if |kinds| > 0 {
      CollectSlotsStep(doc, m, kinds, acc);
      CollectSlotsStep(doc, m, kinds, []);
      var more := FirstSlot(doc, m, kinds);
      if more.Ok? {
        var rest := kinds[1..];
        CollectSlotsAcc(doc, m, rest, acc + more.value);
        CollectSlotsAcc(doc, m, rest, [] + more.value);
        var r1 := CollectSlots(doc, m, rest, []);
        if r1.Ok? {
          assert acc + more.value + r1.value == acc + ([] + more.value + r1.value);
        }
      }
    } else {
      assert acc + [] == acc;
    }
  }

  /** With the corrected request a material's base-color texture is
      loaded, first and as "texture_diffuse", ahead of exactly what the
      as-written collection yields; a failure to build it is reported.
      Without a base-color texture both collections agree. */
  lemma BaseColorLoadsFirst(doc: Document, material: int)
    requires material >= 0 && MaterialResolvableIntended(doc, material)
    ensures MaterialResolvable(doc, material)
    ensures var m := doc.materials[material];
      var r := MaterialTexturesIntended(doc, material);
      m.baseColorTexture >= 0 ==>
        && (SlotTexture(doc, m, "baseColor").Err? ==> r == Err(SlotTexture(doc, m, "baseColor").error))
        && (SlotTexture(doc, m, "baseColor").Ok? ==>
              && r.Ok? == MaterialTextures(doc, material).Ok?
              && (r.Ok? ==>
                    && r.value == [SlotTexture(doc, m, "baseColor").value] + MaterialTextures(doc, material).value
                    && r.value[0].kind == "texture_diffuse"))
    ensures var m := doc.materials[material];
      m.baseColorTexture < 0 ==> MaterialTexturesIntended(doc, material) == MaterialTextures(doc, material)
  {
    var m := doc.materials[material];
    assert IntendedKinds[0] == "baseColor" && IntendedKinds[1..] == CollectedKinds;
    assert forall i :: 0 <= i < |CollectedKinds| ==> CollectedKinds[i] == IntendedKinds[i + 1];
    assert MaterialResolvable(doc, material);
    assert SlotTextureIndex(m, "baseColor") == m.baseColorTexture;
    AlbedoNeverLoads(doc, m);
    assert MaterialTextures(doc, material) == CollectSlots(doc, m, CollectedKinds, []);
    CollectSlotsStep(doc, m, IntendedKinds, []);
    if m.baseColorTexture >= 0 {
      var t := SlotTexture(doc, m, "baseColor");
      assert FirstSlot(doc, m, IntendedKinds) == if t.Ok? then Ok([t.value]) else Err(t.error);
      if t.Ok? {
        assert [] + [t.value] == [t.value];
        CollectSlotsAcc(doc, m, CollectedKinds, [t.value]);
        assert t.value.kind == TextureTypeName("baseColor");
      }
    } else {
      assert FirstSlot(doc, m, IntendedKinds) == Ok([]);
      var none: seq<Textures.Texture> := [];
      assert none + none == none;
    }
  }

  /** The slots the corrected request collects from are the base-color
      slot, when it holds a texture, followed by exactly the slots the
      as-written request collects from. */
  lemma IntendedKindsFilled(m: Material)
    ensures FilledKinds(m, IntendedKinds) ==
      (if m.baseColorTexture >= 0 then ["baseColor"] else []) + FilledKinds(m, CollectedKinds)
  {
    assert IntendedKinds[0] == "baseColor" && IntendedKinds[1..] == CollectedKinds;
  }
}
