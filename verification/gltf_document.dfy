/** The already-parsed glTF 2.0 document that the model loader consumes:
    the subset of the parser's in-memory asset that the loader reads. Every
    table reference is an index into the document's own tables; references
    the glTF 2.0 specification lets be absent are `int`s where `-1` means
    "none", as the parser stores them. */
module GltfDocument {
  import opened Bytes

  /** Accessor component type codes (section 3.6.2.2 of the glTF 2.0
      specification). */
  const BYTE: int := 5120
  const UNSIGNED_BYTE: int := 5121
  const SHORT: int := 5122
  const UNSIGNED_SHORT: int := 5123
  const UNSIGNED_INT: int := 5125
  const FLOAT: int := 5126

  datatype Buffer = Buffer(data: seq<byte>)

  /** A byte range of a buffer; the loader never reads `byteLength` or
      `byteStride`, they are kept so that this can be stated. */
  datatype BufferView = BufferView(buffer: nat, byteOffset: nat, byteLength: nat, byteStride: nat)

  datatype Accessor = Accessor(bufferView: nat, byteOffset: nat, componentType: int, count: nat)

  /** One drawable part of a mesh: attribute name to accessor index, an
      optional index accessor and an optional material. */
  datatype Primitive = Primitive(attributes: map<string, int>, indices: int, material: int)

  datatype Mesh = Mesh(primitives: seq<Primitive>)

  datatype Node = Node(mesh: int, children: seq<nat>)

  datatype Scene = Scene(nodes: seq<nat>)

  /** The texture references of a material, one per slot; `-1` for none. */
  datatype Material = Material(
    baseColorTexture: int,
    metallicRoughnessTexture: int,
    normalTexture: int,
    occlusionTexture: int,
    emissiveTexture: int)

  /** A glTF texture: a reference to the image it samples. */
  datatype Texture = Texture(source: nat)

  /** A decoded image as the parser delivers it. */
  datatype Image = Image(pixels: seq<byte>, width: int, height: int, component: int, uri: string)

  datatype Document = Document(
    buffers: seq<Buffer>,
    bufferViews: seq<BufferView>,
    accessors: seq<Accessor>,
    meshes: seq<Mesh>,
    nodes: seq<Node>,
    scenes: seq<Scene>,
    materials: seq<Material>,
    textures: seq<Texture>,
    images: seq<Image>,
    defaultScene: int)
}
