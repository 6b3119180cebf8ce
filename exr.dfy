/** What the tools see of an OpenEXR file: the magic number that identifies
    it, the header's data window and channel list, and the float samples the
    decoder delivers for each channel. The decoder itself is not modelled. */
module Exr {
  import opened Base
  import opened Raster

  /** The OpenEXR magic number, the first four bytes of every OpenEXR file
      ("Magic Number" section of the OpenEXR file layout document). */
  const Magic: seq<byte> := [0x76, 0x2F, 0x31, 0x01]

  /** A file as the sniffer sees it: either opening or reading it raises, or
      it has some byte content. */
  datatype FileBytes = Unreadable | Readable(content: seq<byte>)

  /** `f.read(4)`: at most the first four bytes. */
  function ReadHead(content: seq<byte>): (r: seq<byte>)
    ensures |r| == if |content| < 4 then |content| else 4
    ensures r == content[..|r|]
  {
    if |content| < 4 then content else content[..4]
  }

  /** `is_exr_file_by_magic`: true exactly when the file can be read and its
      first four bytes are 76 2F 31 01. A shorter file or a failed read gives
      false, never an error. The path's extension plays no part. */
  function IsExrByMagic(f: FileBytes): (r: bool)
    ensures r <==> f.Readable? && |f.content| >= 4
                   && f.content[0] == 0x76 && f.content[1] == 0x2F
                   && f.content[2] == 0x31 && f.content[3] == 0x01
  {
    match f
    case Unreadable => false
    case Readable(content) => ReadHead(content) == Magic
  }

  /** The header's `dataWindow`: an inclusive pixel rectangle whose origin
      need not be (0, 0). */
  datatype Box = Box(minX: int, minY: int, maxX: int, maxY: int)

  function Width(b: Box): int { b.maxX - b.minX + 1 }

  function Height(b: Box): int { b.maxY - b.minY + 1 }

  /** The header fields the tools read: the data window and the channel
      names in the order the header lists them. */
  datatype Header = Header(dataWindow: Box, channels: seq<string>)

  /** An opened OpenEXR file: its header and, per channel the decoder can
      deliver, the samples of `exr_file.channel(name, FLOAT)`. */
  datatype ExrFile = ExrFile(header: Header, planes: map<string, seq<real>>)

  /** Decodes one channel as float32 and reshapes it to (height, width) taken
      from the data window. It succeeds exactly when the decoder delivers the
      channel and its sample count fits the window; the image is then that
      channel's samples and nothing else. */
  function DecodePlane(f: ExrFile, name: string): (r: Result<Array>)
    ensures r.Ok? <==> name in f.planes && 0 <= Height(f.header.dataWindow) && 0 <= Width(f.header.dataWindow)
                       && |f.planes[name]| == Height(f.header.dataWindow) * Width(f.header.dataWindow)
    ensures r.Ok? ==> WellFormed(r.value) && r.value.dtype == Float32
                      && r.value.shape == [Height(f.header.dataWindow), Width(f.header.dataWindow)]
                      && r.value.samples == f.planes[name]
  {
    if name !in f.planes then Err(ChannelReadFailed(name))
    else Reshape(f.planes[name], Height(f.header.dataWindow), Width(f.header.dataWindow))
  }
}
