/** The engine's texture object (src/Engine/Texture.cpp): construction from
    in-memory pixels, with the emptiness check and the channel-count to
    pixel-format mapping, and construction from a file through an image
    decoder. The OpenGL upload is modelled by the arguments it receives. */
module Textures {
  import opened Results
  import opened Bytes

  /** The OpenGL pixel formats the engine uploads with. */
  datatype PixelFormat = Red | Rgb | Rgba

  /** The OpenGL enumerant of each format. */
  function GlEnum(f: PixelFormat): int {
    match f
    case Red => 0x1903
    case Rgb => 0x1907
    case Rgba => 0x1908
  }

  /** The number of 8-bit channels a pixel of format `f` carries. */
  function ChannelCount(f: PixelFormat): nat {
    match f
    case Red => 1
    case Rgb => 3
    case Rgba => 4
  }

  datatype TextureError = DataEmpty | UnsupportedChannels | DecodeFailed

  /** The text of the exception each failure raises. */
  function Message(e: TextureError): string {
    match e
    case DataEmpty => "Texture data is empty"
    case UnsupportedChannels => "Unsupported number of texture channels"
    case DecodeFailed => "Failed to load texture."
  }

  /** The arguments of the single `glTexImage2D` call that uploads a
      texture, and whether mipmaps are generated afterwards. */
  datatype Upload = Upload(
    internalFormat: PixelFormat,
    width: int,
    height: int,
    format: PixelFormat,
    pixels: seq<byte>,
    mipmaps: bool)

  /** A texture built from pixels in memory. */
  datatype Texture = Texture(
    width: int,
    height: int,
    channels: int,
    kind: string,
    path: string,
    data: seq<byte>,
    upload: Upload)

  /** The pixel format for a channel count, if the in-memory path supports
      it. */
  function FormatForChannels(channels: int): (r: Option<PixelFormat>)
    ensures r.Some? <==> channels == 1 || channels == 3 || channels == 4
    ensures r.Some? ==> ChannelCount(r.value) == channels
  {
    if channels == 1 then Some(Red)
    else if channels == 3 then Some(Rgb)
    else if channels == 4 then Some(Rgba)
    else None
  }

  /** Every format is chosen for exactly its own channel count. */
  lemma FormatChannelsRoundTrip(f: PixelFormat)
    ensures FormatForChannels(ChannelCount(f)) == Some(f)
  {
  }

  /** The in-memory constructor followed by `load_from_memory`. */
  function FromMemory(data: seq<byte>, width: int, height: int, channels: int,
                      kind: string, path: string): (r: Result<Texture, TextureError>)
    ensures |data| == 0 ==> r == Err(DataEmpty)
    ensures |data| > 0 && channels !in {1, 3, 4} ==> r == Err(UnsupportedChannels)
    ensures r.Ok? <==> |data| > 0 && channels in {1, 3, 4}
    ensures r.Ok? ==>
      && r.value.width == width && r.value.height == height
      && r.value.channels == channels && r.value.kind == kind
      && r.value.path == path && r.value.data == data
    ensures r.Ok? ==>
      && r.value.upload.internalFormat == r.value.upload.format
      && ChannelCount(r.value.upload.format) == channels
      && r.value.upload.width == width && r.value.upload.height == height
      && r.value.upload.pixels == data
  {
    if |data| == 0 then Err(DataEmpty)
    else
      match FormatForChannels(channels)
      case None => Err(UnsupportedChannels)
      case Some(format) =>
        Ok(Texture(width, height, channels, kind, path, data,
                   Upload(format, width, height, format, data, false)))
  }

  /** What the image decoder returns for a file it can read. */
  datatype DecodedImage = DecodedImage(width: int, height: int, channels: int, pixels: seq<byte>)

  /** A texture built from a file: its type name and its upload. */
  datatype FileTexture = FileTexture(kind: string, upload: Upload)

  /** The file constructor with `generate_texture`; `decoded` is what the
      image decoder produced for the file, `None` when it failed. */
  function FromFile(kind: string, decoded: Option<DecodedImage>): (r: Result<FileTexture, TextureError>)
    ensures decoded.None? <==> r == Err(DecodeFailed)
    ensures r.Ok? <==> decoded.Some?
    ensures r.Ok? ==>
      && r.value.kind == kind
      && (r.value.upload.format == Rgba <==> decoded.value.channels == 4)
      && (r.value.upload.format == Rgb <==> decoded.value.channels != 4)
      && r.value.upload.internalFormat == r.value.upload.format
      && r.value.upload.width == decoded.value.width && r.value.upload.height == decoded.value.height
      && r.value.upload.pixels == decoded.value.pixels
      && r.value.upload.mipmaps
  {
    match decoded
    case None => Err(DecodeFailed)
    case Some(img) =>
      var format := if img.channels == 4 then Rgba else Rgb;
      Ok(FileTexture(kind, Upload(format, img.width, img.height, format, img.pixels, true)))
  }

  /** The file and in-memory paths agree on the upload of a three- or
      four-channel image, except that only the file path generates
      mipmaps. A one-channel image is uploaded as RED from memory but as
      RGB from a file, and any other channel count, which the in-memory
      path rejects, is uploaded as RGB from a file. */
  lemma FileAndMemoryUploads(kind: string, path: string, img: DecodedImage)
    requires |img.pixels| > 0
    ensures var file := FromFile(kind, Some(img));
      var mem := FromMemory(img.pixels, img.width, img.height, img.channels, kind, path);
      && file.Ok?
      && (img.channels == 3 || img.channels == 4 ==> mem.Ok? && mem.value.upload == file.value.upload.(mipmaps := false))
      && (img.channels == 1 ==> mem.Ok? && mem.value.upload.format == Red && file.value.upload.format == Rgb)
      && (img.channels !in {1, 3, 4} ==> mem == Err(UnsupportedChannels) && file.value.upload.format == Rgb)
  {
  }
}
