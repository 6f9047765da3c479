/**
 * Shared vocabulary of the TGA codec: bytes, the five canonical pixel
 * formats, error codes, the image-type classifiers, BITS_TO_BYTES and the
 * (image type, pixel depth, map entry size) -> pixel format table that both
 * the C and the C++ implementation use.
 */
module TgaFormat {
  import opened Wrappers

  type byte = x: int | 0 <= x < 0x100
  type uint16 = x: int | 0 <= x < 0x1_0000

  /** Largest width or height an image may have. */
  const MaxDimension: int := 65535

  datatype PixelFormat = BW8 | BW16 | RGB555 | RGB24 | ARGB32

  /** Both implementations' error enumerations, merged (the C one has no
      ColorMapIndexFailed). */
  datatype Error =
    | NoError
    | OutOfMemory
    | FileCannotRead
    | FileCannotWrite
    | NoData
    | UnsupportedColorMapType
    | UnsupportedImageType
    | UnsupportedPixelFormat
    | InvalidImageDimensions
    | ColorMapIndexFailed

  /** The enumerator value of a format (declaration order, from 0). */
  function CodeOf(f: PixelFormat): (c: int)
    ensures 0 <= c < 5
  {
    match f
    case BW8 => 0
    case BW16 => 1
    case RGB555 => 2
    case RGB24 => 3
    case ARGB32 => 4
  }

  /** The format an enumerator value denotes; values outside the enumeration
      (a cast such as `(tga_pixel_format)100`) denote none. */
  function FormatOfCode(c: int): (r: Option<PixelFormat>)
    ensures r.Some? <==> 0 <= c < 5
    ensures r.Some? ==> CodeOf(r.value) == c
  {
    if c == 0 then Some(BW8)
    else if c == 1 then Some(BW16)
    else if c == 2 then Some(RGB555)
    else if c == 3 then Some(RGB24)
    else if c == 4 then Some(ARGB32)
    else None
  }

  lemma FormatCodeRoundTrip(f: PixelFormat)
    ensures FormatOfCode(CodeOf(f)) == Some(f)
  {
  }

  /** Bytes per pixel of a canonical format. */
  function PixelSize(f: PixelFormat): (n: nat)
    ensures 1 <= n <= 4
    ensures (n == 2) <==> (f == BW16 || f == RGB555)
  {
    match f
    case BW8 => 1
    case BW16 => 2
    case RGB555 => 2
    case RGB24 => 3
    case ARGB32 => 4
  }

  /** `pixel_format_to_pixel_size`: the pixel size of an enumerator value,
      or -1 for a value outside the enumeration. */
  function PixelSizeOfCode(c: int): (n: int)
    ensures n == -1 <==> FormatOfCode(c).None?
    ensures FormatOfCode(c).Some? ==> n == PixelSize(FormatOfCode(c).value)
  {
    if c == 0 then 1
    else if c == 1 || c == 2 then 2
    else if c == 3 then 3
    else if c == 4 then 4
    else -1
  }

  /** C division of integers, which truncates toward zero (Dafny's `/` is
      Euclidean). */
  function TruncDiv(a: int, d: int): int
    requires d > 0
  {
    if a >= 0 then a / d else -((-a) / d)
  }

  /** `BITS_TO_BYTES(n)`, i.e. `((n)-1)/8+1` in C arithmetic, on an 8-bit
      field: the number of whole bytes that hold `n` bits, except that 0 bits
      also give 1 byte. */
  function BitsToBytes(n: byte): (r: nat)
    ensures r == if n == 0 then 1 else (n + 7) / 8
    ensures r * 8 >= n && 1 <= r <= 32
  {
    TruncDiv(n - 1, 8) + 1
  }

  // Image-type classifiers (the IS_* macros).

  predicate IsSupportedImageType(t: byte) {
    t == 1 || t == 2 || t == 3 || t == 9 || t == 10 || t == 11
  }

  predicate IsColorMapped(t: byte) { t == 1 || t == 9 }

  predicate IsTrueColor(t: byte) { t == 2 || t == 10 }

  predicate IsGrayscale(t: byte) { t == 3 || t == 11 }

  predicate IsRle(t: byte) { t == 9 || t == 10 || t == 11 }

  /** Supported types are exactly those in one of the three categories, the
      categories are disjoint, and RLE types are supported. */
  lemma ClassifiersPartition(t: byte)
    ensures IsSupportedImageType(t) <==> (IsColorMapped(t) || IsTrueColor(t) || IsGrayscale(t))
    ensures !(IsColorMapped(t) && IsTrueColor(t))
    ensures !(IsColorMapped(t) && IsGrayscale(t))
    ensures !(IsTrueColor(t) && IsGrayscale(t))
    ensures IsRle(t) ==> IsSupportedImageType(t)
  {
  }

  /** `get_pixel_format` / `set_pixel_format`: the pixel format an image
      header describes, or None when the combination is not supported. */
  function ResolvePixelFormat(imageType: byte, pixelDepth: byte, mapEntrySize: byte): (r: Option<PixelFormat>)
    ensures r == Some(BW8) <==> IsGrayscale(imageType) && pixelDepth == 8
    ensures r == Some(BW16) <==> IsGrayscale(imageType) && pixelDepth == 16
    ensures r == Some(RGB555) <==>
      (IsColorMapped(imageType) && pixelDepth == 8 && (mapEntrySize == 15 || mapEntrySize == 16))
      || (IsTrueColor(imageType) && pixelDepth == 16)
    ensures r == Some(RGB24) <==>
      (IsColorMapped(imageType) && pixelDepth == 8 && mapEntrySize == 24)
      || (IsTrueColor(imageType) && pixelDepth == 24)
    ensures r == Some(ARGB32) <==>
      (IsColorMapped(imageType) && pixelDepth == 8 && mapEntrySize == 32)
      || (IsTrueColor(imageType) && pixelDepth == 32)
  {
    if IsColorMapped(imageType) then
      if pixelDepth == 8 then
        if mapEntrySize == 15 || mapEntrySize == 16 then Some(RGB555)
        else if mapEntrySize == 24 then Some(RGB24)
        else if mapEntrySize == 32 then Some(ARGB32)
        else None
      else None
    else if IsTrueColor(imageType) then
      if pixelDepth == 16 then Some(RGB555)
      else if pixelDepth == 24 then Some(RGB24)
      else if pixelDepth == 32 then Some(ARGB32)
      else None
    else if IsGrayscale(imageType) then
      if pixelDepth == 8 then Some(BW8)
      else if pixelDepth == 16 then Some(BW16)
      else None
    else None
  }

  /** The resolver ignores RLE-ness: types 9, 10 and 11 resolve exactly as
      1, 2 and 3 do, and unsupported types resolve to nothing. */
  lemma ResolverIgnoresRle(baseType: byte, pixelDepth: byte, mapEntrySize: byte)
    requires 1 <= baseType <= 3
    ensures ResolvePixelFormat(baseType + 8, pixelDepth, mapEntrySize)
         == ResolvePixelFormat(baseType, pixelDepth, mapEntrySize)
    ensures forall t: byte :: !IsSupportedImageType(t) ==> ResolvePixelFormat(t, pixelDepth, mapEntrySize).None?
  {
  }

  /** Whenever the table accepts a header, the sizes the decoders rely on
      agree: a colour-mapped image has 1-byte indices and map entries as wide
      as the resolved pixel, and any other image stores pixels exactly as wide
      as the resolved format. */
  lemma ResolvedSizesAgree(imageType: byte, pixelDepth: byte, mapEntrySize: byte)
    requires ResolvePixelFormat(imageType, pixelDepth, mapEntrySize).Some?
    ensures var f := ResolvePixelFormat(imageType, pixelDepth, mapEntrySize).value;
      if IsColorMapped(imageType)
      then BitsToBytes(pixelDepth) == 1 && BitsToBytes(mapEntrySize) == PixelSize(f)
      else BitsToBytes(pixelDepth) == PixelSize(f)
  {
  }

  /** `check_dimensions`: both sides within [1, MaxDimension]. */
  predicate CheckDimensions(width: int, height: int)
    ensures CheckDimensions(width, height) <==> 1 <= width <= MaxDimension && 1 <= height <= MaxDimension
  {
    !(width <= 0 || width > MaxDimension || height <= 0 || height > MaxDimension)
  }
}
