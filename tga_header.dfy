/**
 * The fixed 18-byte TGA header (fields 1-5 of the TGA 2.0 file format):
 * reading it field by field in file order, validating it in the order the
 * C and C++ loaders check it, and writing one back out.
 */
module TgaHeader {
  import opened Wrappers
  import opened TgaFormat
  import opened TgaStream

  const HeaderSize: nat := 18

  datatype Header = Header(
    idLength: byte,
    mapType: byte,
    imageType: byte,
    mapFirstEntry: uint16,
    mapLength: uint16,
    mapEntrySize: byte,
    xOrigin: uint16,
    yOrigin: uint16,
    width: uint16,
    height: uint16,
    pixelDepth: byte,
    descriptor: byte)

  /** The twelve header reads in file order; None when any of them is short. */
  function ReadFields(src: seq<byte>): (r: Option<Header>)
    ensures r.Some? <==> |src| >= HeaderSize
  {
    var (idLength, p0) :- ReadU8(src, 0);
    var (mapType, p1) :- ReadU8(src, p0);
    var (imageType, p2) :- ReadU8(src, p1);
    var (mapFirstEntry, p3) :- ReadU16Le(src, p2);
    var (mapLength, p4) :- ReadU16Le(src, p3);
    var (mapEntrySize, p5) :- ReadU8(src, p4);
    var (xOrigin, p6) :- ReadU16Le(src, p5);
    var (yOrigin, p7) :- ReadU16Le(src, p6);
    var (width, p8) :- ReadU16Le(src, p7);
    var (height, p9) :- ReadU16Le(src, p8);
    var (pixelDepth, p10) :- ReadU8(src, p9);
    var (descriptor, _) :- ReadU8(src, p10);
    Some(Header(idLength, mapType, imageType, mapFirstEntry, mapLength, mapEntrySize,
                xOrigin, yOrigin, width, height, pixelDepth, descriptor))
  }

  /** Little-endian 16-bit value of the two bytes at `i`. */
  function Le16At(src: seq<byte>, i: nat): int
    requires i + 2 <= |src|
  {
    (src[i] as int) + (src[i + 1] as int) * 256
  }

  /** `load_header_n_format`: the header and its pixel format, or the first
      error in the fixed order short read, colour-map type, no data, image
      type, dimensions, pixel format. The contract states each outcome in
      terms of the raw header bytes (byte 1 map type, byte 2 image type,
      bytes 5-6 map length, byte 7 entry size, bytes 12-15 width and height,
      byte 16 depth). */
  function ParseHeader(src: seq<byte>): (r: Result<(Header, PixelFormat), Error>)
    ensures r == Failure(FileCannotRead) <==> |src| < HeaderSize
    ensures r == Failure(UnsupportedColorMapType) <==> |src| >= HeaderSize && src[1] > 1
    ensures r == Failure(NoData) <==> |src| >= HeaderSize && src[1] <= 1 && src[2] == 0
    ensures r == Failure(UnsupportedImageType) <==>
      |src| >= HeaderSize && src[1] <= 1 && src[2] != 0 && !IsSupportedImageType(src[2])
    ensures r == Failure(InvalidImageDimensions) <==>
      |src| >= HeaderSize && src[1] <= 1 && IsSupportedImageType(src[2])
      && (Le16At(src, 12) == 0 || Le16At(src, 14) == 0)
    ensures r == Failure(UnsupportedPixelFormat) <==>
      |src| >= HeaderSize && src[1] <= 1 && IsSupportedImageType(src[2])
      && Le16At(src, 12) != 0 && Le16At(src, 14) != 0
      && ResolvePixelFormat(src[2], src[16], src[7]).None?
    ensures r.Success? ==>
      var (h, f) := r.value;
      h.idLength == src[0] && h.mapType == src[1] && h.imageType == src[2]
      && h.mapFirstEntry == Le16At(src, 3) && h.mapLength == Le16At(src, 5)
      && h.mapEntrySize == src[7] && h.width == Le16At(src, 12) && h.height == Le16At(src, 14)
      && h.pixelDepth == src[16] && h.descriptor == src[17]
      && 1 <= h.width && 1 <= h.height
      && ResolvePixelFormat(h.imageType, h.pixelDepth, h.mapEntrySize) == Some(f)
  {
    match ReadFields(src)
    case None => Failure(FileCannotRead)
    case Some(h) =>
      if h.mapType > 1 then Failure(UnsupportedColorMapType)
      else if h.imageType == 0 then Failure(NoData)
      else if !IsSupportedImageType(h.imageType) then Failure(UnsupportedImageType)
      else if h.width <= 0 || h.height <= 0 then Failure(InvalidImageDimensions)
      else match ResolvePixelFormat(h.imageType, h.pixelDepth, h.mapEntrySize)
        case None => Failure(UnsupportedPixelFormat)
        case Some(f) => Success((h, f))
  }

  /** The 18 header bytes of `h` in file order, 16-bit fields little-endian. */
  function EncodeHeader(h: Header): (r: seq<byte>)
    ensures |r| == HeaderSize
  {
    [h.idLength, h.mapType, h.imageType] + Le16(h.mapFirstEntry) + Le16(h.mapLength)
    + [h.mapEntrySize] + Le16(h.xOrigin) + Le16(h.yOrigin) + Le16(h.width) + Le16(h.height)
    + [h.pixelDepth, h.descriptor]
  }

  /** Reading the fields of an encoded header gives the header back, whatever
      follows it. */
  lemma ReadFieldsOfEncoded(h: Header, rest: seq<byte>)
    ensures ReadFields(EncodeHeader(h) + rest) == Some(h)
  {
    var s := EncodeHeader(h) + rest;
    assert s[0] == h.idLength && s[1] == h.mapType && s[2] == h.imageType;
    assert s[3] == h.mapFirstEntry % 256 && s[4] == h.mapFirstEntry / 256;
    assert s[5] == h.mapLength % 256 && s[6] == h.mapLength / 256;
    assert s[7] == h.mapEntrySize;
    assert s[8] == h.xOrigin % 256 && s[9] == h.xOrigin / 256;
    assert s[10] == h.yOrigin % 256 && s[11] == h.yOrigin / 256;
    assert s[12] == h.width % 256 && s[13] == h.width / 256;
    assert s[14] == h.height % 256 && s[15] == h.height / 256;
    assert s[16] == h.pixelDepth && s[17] == h.descriptor;
  }

  /** Parsing an encoded header whose fields pass every check gives that
      header and its resolved format. */
  lemma ParseEncodedHeader(h: Header, rest: seq<byte>)
    requires h.mapType <= 1 && IsSupportedImageType(h.imageType) && h.width >= 1 && h.height >= 1
    requires ResolvePixelFormat(h.imageType, h.pixelDepth, h.mapEntrySize).Some?
    ensures ParseHeader(EncodeHeader(h) + rest)
         == Success((h, ResolvePixelFormat(h.imageType, h.pixelDepth, h.mapEntrySize).value))
  {
    ReadFieldsOfEncoded(h, rest);
  }

  /** The header the encoder emits for an image: every field zero except the
      image type (3 grayscale, 2 true colour), width, height, the depth
      `pixel_size * 8` and the descriptor (0x28 for ARGB32, else 0x20: origin
      at the top left, 8 alpha bits for ARGB32). */
  function SaveHeader(width: uint16, height: uint16, f: PixelFormat): (h: Header)
    ensures h.mapType == 0 && h.idLength == 0
    ensures ResolvePixelFormat(h.imageType, h.pixelDepth, h.mapEntrySize) == Some(f)
    ensures h.descriptor % 0x20 < 0x10 && h.descriptor % 0x40 >= 0x20
  {
    Header(0, 0, if f == BW8 || f == BW16 then 3 else 2, 0, 0, 0, 0, 0, width, height,
           PixelSize(f) * 8, if f == ARGB32 then 0x28 else 0x20)
  }
}
