/**
 * A whole TGA file: what `load_image` / `Image::load` make of a byte
 * stream and what `save_image` writes for an image. The C and the C++
 * loader compute the same picture and differ only in the error a failed
 * colour-map lookup reports.
 */
module TgaCodec {
  import opened Wrappers
  import opened TgaFormat
  import opened TgaHeader
  import opened TgaColorMap
  import opened TgaDecodeSpec
  import opened TgaDecode
  import opened TgaPixels

  /** Which implementation's error reporting applies. */
  datatype Dialect = C | Cpp

  /** A decoded image: its dimensions, pixel format and row-major pixel
      bytes, origin at the top left. */
  datatype Picture = Picture(width: uint16, height: uint16, format: PixelFormat, data: seq<byte>)

  predicate WellFormed(p: Picture) {
    p.width >= 1 && p.height >= 1 && |p.data| == p.width * p.height * PixelSize(p.format)
  }

  /** The error a failed decode reports: the C decoders report every
      failure as FileCannotRead; the C++ ones report a failed lookup as
      ColorMapIndexFailed. */
  function DecodeError(d: Dialect, f: DecodeFailure): (e: Error)
    ensures e == ColorMapIndexFailed <==> d == Cpp && f == IndexFail
    ensures e != ColorMapIndexFailed ==> e == FileCannotRead
  {
    if d == Cpp && f == IndexFail then ColorMapIndexFailed else FileCannotRead
  }

  /** `descriptor & 0x10` (bit 4): pixels are stored right to left. */
  predicate RightToLeft(descriptor: byte) { descriptor % 0x20 >= 0x10 }

  /** `!(descriptor & 0x20)` (bit 5 clear): rows are stored bottom to top. */
  predicate BottomToTop(descriptor: byte) { descriptor % 0x40 < 0x20 }

  /** The stored buffer brought to a top-left origin: mirrored left to
      right when RightToLeft, then top to bottom when BottomToTop. */
  function Orient(s: seq<byte>, w: nat, h: nat, ps: nat, descriptor: byte): (r: seq<byte>)
    requires w >= 1 && ps >= 1 && |s| == w * h * ps
    ensures |r| == |s|
  {
    var s1 := if RightToLeft(descriptor) then FlippedH(s, w, h, ps) else s;
    if BottomToTop(descriptor) then FlippedV(s1, w, h, ps) else s1
  }

  /** Pixel `(x, y)` of the oriented image is the stored pixel counted from
      the right when RightToLeft and from the bottom when BottomToTop. */
  lemma OrientAt(s: seq<byte>, w: nat, h: nat, ps: nat, descriptor: byte, x: nat, y: nat, b: nat)
    requires ps >= 1 && |s| == w * h * ps && x < w && y < h && b < ps
    ensures var sx, sy := if RightToLeft(descriptor) then w - 1 - x else x,
                          if BottomToTop(descriptor) then h - 1 - y else y;
      ByteIndex(w, ps, x, y, b) < |s| && ByteIndex(w, ps, sx, sy, b) < |s|
      && Orient(s, w, h, ps, descriptor)[ByteIndex(w, ps, x, y, b)] == s[ByteIndex(w, ps, sx, sy, b)]
  {
    if RightToLeft(descriptor) && BottomToTop(descriptor) {
      FlippedVAt(FlippedH(s, w, h, ps), w, h, ps, x, y, b);
      FlippedHAt(s, w, h, ps, x, h - 1 - y, b);
    } else if RightToLeft(descriptor) {
      FlippedHAt(s, w, h, ps, x, y, b);
    } else if BottomToTop(descriptor) {
      FlippedVAt(s, w, h, ps, x, y, b);
    } else {
      ByteIndexSlot(w, h, ps, x, y, b);
    }
  }

  /** Orienting twice with the same descriptor restores the buffer. */
  lemma OrientInvolution(s: seq<byte>, w: nat, h: nat, ps: nat, descriptor: byte)
    requires w >= 1 && ps >= 1 && |s| == w * h * ps
    ensures Orient(Orient(s, w, h, ps, descriptor), w, h, ps, descriptor) == s
  {
    var hf, vf := RightToLeft(descriptor), BottomToTop(descriptor);
    if hf && vf {
      FlipsCommute(FlippedH(s, w, h, ps), w, h, ps);
      FlipHInvolution(s, w, h, ps);
      FlipVInvolution(s, w, h, ps);
    } else if hf {
      FlipHInvolution(s, w, h, ps);
    } else if vf {
      FlipVInvolution(s, w, h, ps);
    }
  }

  /** The decoder set-up of a validated header: stored pixels of
      `BITS_TO_BYTES(pixel_depth)` bytes that decode to pixels of the
      resolved format's size. */
  predicate Layout(h: Header, f: PixelFormat, cmap: Option<ColorMap>) {
    Ctx(BitsToBytes(h.pixelDepth), cmap) && OutWidth(BitsToBytes(h.pixelDepth), cmap) == PixelSize(f)
  }

  /** A header the format table accepts, with the colour map loaded for it,
      gives a consistent decoder set-up, and the map is present exactly for
      a colour-mapped image. */
  lemma LayoutOfHeader(h: Header, f: PixelFormat, src: seq<byte>, pos: nat)
    requires ResolvePixelFormat(h.imageType, h.pixelDepth, h.mapEntrySize) == Some(f)
    requires LoadColorMap(h, src, pos).Success?
    ensures Layout(h, f, LoadColorMap(h, src, pos).value.0)
    ensures LoadColorMap(h, src, pos).value.0.Some? <==> IsColorMapped(h.imageType)
  {
    ResolvedSizesAgree(h.imageType, h.pixelDepth, h.mapEntrySize);
  }

  /** The image data of `load_image` / `Image::load`: `w * h` pixels
      decoded run-length or raw, as the image type says; decoded data fills
      the `w * h * pixel_size` buffer exactly. */
  function DecodeData(h: Header, f: PixelFormat, src: seq<byte>, pos: nat, cmap: Option<ColorMap>): (r: Step)
    requires Layout(h, f, cmap)
    ensures r.Success? ==> |r.value.0| == h.width * h.height * PixelSize(f)
  {
    var n := h.width * h.height;
    var unitBytes := BitsToBytes(h.pixelDepth);
    if IsRle(h.imageType) then
      RleIsRawOfExpanded(src, pos, n, unitBytes, cmap);
      RleDecode(src, pos, n, unitBytes, cmap)
    else RawDecode(src, pos, n, PixelSize(f), unitBytes, cmap)
  }

  /** The decoder `load_image` / `Image::load` runs on the image's buffer:
      `decode_data_rle` for an RLE image type, `decode_data` otherwise. */
  method DecodeDataInto(data: array<byte>, h: Header, f: PixelFormat, src: seq<byte>, pos: nat, cmap: Option<ColorMap>)
    returns (r: Result<(), DecodeFailure>)
    requires Layout(h, f, cmap) && data.Length == h.width * h.height * PixelSize(f)
    modifies data
    ensures DecodeData(h, f, src, pos, cmap).Failure? ==> r == Failure(DecodeData(h, f, src, pos, cmap).error)
    ensures DecodeData(h, f, src, pos, cmap).Success? ==> r.Success? && data[..] == DecodeData(h, f, src, pos, cmap).value.0
  {
    var n, unitBytes, ps := h.width * h.height, BitsToBytes(h.pixelDepth), PixelSize(f);
    var decoded;
    if IsRle(h.imageType) {
      decoded := DecodeRleInto(data, src, pos, n, ps, unitBytes, cmap);
    } else {
      decoded := DecodeRawInto(data, src, pos, n, ps, unitBytes, cmap);
    }
    if decoded.Failure? {
      return Failure(decoded.error);
    }
    return Success(());
  }

  /** `load_image` / `Image::load` on the whole input: the header, the ID
      field skipped, the colour map, the image data, then the flips the
      descriptor asks for. */
  function DecodeImage(src: seq<byte>, d: Dialect): (r: Result<Picture, Error>)
    ensures r.Success? ==> WellFormed(r.value)
  {
    match ParseHeader(src)
    case Failure(e) => Failure(e)
    case Success((h, f)) => DecodeBody(h, f, src, d)
  }

  /** What follows an accepted header: the colour map after the ID field,
      then the decoded image data, flipped as the descriptor says. */
  function DecodeBody(h: Header, f: PixelFormat, src: seq<byte>, d: Dialect): (r: Result<Picture, Error>)
    requires ResolvePixelFormat(h.imageType, h.pixelDepth, h.mapEntrySize) == Some(f)
    requires h.width >= 1 && h.height >= 1
    ensures r.Success? ==> WellFormed(r.value) && r.value.width == h.width && r.value.height == h.height && r.value.format == f
  {
    match LoadColorMap(h, src, HeaderSize + h.idLength)
    case Failure(e) => Failure(e)
    case Success((cmap, pos)) =>
      LayoutOfHeader(h, f, src, HeaderSize + h.idLength);
      match DecodeData(h, f, src, pos, cmap)
      case Failure(e) => Failure(DecodeError(d, e))
      case Success((px, _)) =>
        Success(Picture(h.width, h.height, f, Orient(px, h.width, h.height, PixelSize(f), h.descriptor)))
  }

  /** DecodeBody when the colour map cannot be read. */
  lemma DecodeBodyMapFails(h: Header, f: PixelFormat, src: seq<byte>, d: Dialect)
    requires ResolvePixelFormat(h.imageType, h.pixelDepth, h.mapEntrySize) == Some(f)
    requires h.width >= 1 && h.height >= 1
    requires LoadColorMap(h, src, HeaderSize + h.idLength).Failure?
    ensures DecodeBody(h, f, src, d) == Failure(LoadColorMap(h, src, HeaderSize + h.idLength).error)
  {
  }

  /** DecodeBody once the colour map has been read: the decoded data,
      reported as the dialect reports a failure, flipped. */
  lemma DecodeBodyAfterMap(h: Header, f: PixelFormat, src: seq<byte>, d: Dialect, cmap: Option<ColorMap>, pos: nat)
    requires ResolvePixelFormat(h.imageType, h.pixelDepth, h.mapEntrySize) == Some(f)
    requires h.width >= 1 && h.height >= 1
    requires LoadColorMap(h, src, HeaderSize + h.idLength) == Success((cmap, pos))
    ensures Layout(h, f, cmap)
    ensures DecodeData(h, f, src, pos, cmap).Failure? ==>
      DecodeBody(h, f, src, d) == Failure(DecodeError(d, DecodeData(h, f, src, pos, cmap).error))
    ensures DecodeData(h, f, src, pos, cmap).Success? ==>
      DecodeBody(h, f, src, d)
      == Success(Picture(h.width, h.height, f, Orient(DecodeData(h, f, src, pos, cmap).value.0, h.width, h.height, PixelSize(f), h.descriptor)))
  {
    LayoutOfHeader(h, f, src, HeaderSize + h.idLength);
  }

  /** `save_image`: the encoder's header followed by the pixel bytes. */
  function EncodeImage(p: Picture): (r: seq<byte>)
    ensures |r| == HeaderSize + |p.data|
  {
    EncodeHeader(SaveHeader(p.width, p.height, p.format)) + p.data
  }

  /** The bytes `save_image` writes: all header bytes zero except byte 2
      (3 for a grayscale format, else 2), bytes 12-15 (width and height,
      little-endian), byte 16 (bits per pixel) and byte 17 (0x28 for
      ARGB32, else 0x20); then the pixels verbatim. */
  lemma EncodedLayout(p: Picture)
    ensures var r := EncodeImage(p);
      (forall i :: 0 <= i < 12 && i != 2 ==> r[i] == 0)
      && r[2] == (if p.format == BW8 || p.format == BW16 then 3 else 2)
      && r[12] == p.width % 256 && r[13] == p.width / 256
      && r[14] == p.height % 256 && r[15] == p.height / 256
      && r[16] == PixelSize(p.format) * 8
      && r[17] == (if p.format == ARGB32 then 0x28 else 0x20)
      && r[HeaderSize ..] == p.data
  {
  }

  /** The header `save_image` fills in, followed by the pixels, is the
      encoding of the image. */
  lemma SavedBytes(header: seq<byte>, p: Picture)
    requires |header| == HeaderSize
    requires forall i :: 0 <= i < 12 && i != 2 ==> header[i] == 0
    requires header[2] == (if p.format == BW8 || p.format == BW16 then 3 else 2)
    requires header[12] == p.width % 256 && header[13] == p.width / 256
    requires header[14] == p.height % 256 && header[15] == p.height / 256
    requires header[16] == PixelSize(p.format) * 8
    requires header[17] == (if p.format == ARGB32 then 0x28 else 0x20)
    ensures header + p.data == EncodeImage(p)
  {
    EncodedLayout(p);
    var e := EncodeImage(p);
    assert header == e[.. HeaderSize];
  }

  /** What the loader finds in a saved header, whatever follows it: the
      header and format back, no colour map, stored pixels as wide as the
      format's, raw data and no flip. */
  lemma SavedHeader(p: Picture, rest: seq<byte>)
    requires p.width >= 1 && p.height >= 1
    ensures var h := SaveHeader(p.width, p.height, p.format);
      var src := EncodeHeader(h) + rest;
      ParseHeader(src) == Success((h, p.format))
      && h.idLength == 0 && h.width == p.width && h.height == p.height
      && LoadColorMap(h, src, HeaderSize) == Success((None, HeaderSize))
      && BitsToBytes(h.pixelDepth) == PixelSize(p.format)
      && !IsRle(h.imageType) && !RightToLeft(h.descriptor) && !BottomToTop(h.descriptor)
  {
    var h := SaveHeader(p.width, p.height, p.format);
    ParseEncodedHeader(h, rest);
  }

  /** Saving and loading gives the image back, whatever follows the saved
      bytes: the saved header passes every check, has no ID field and no
      colour map, stores the pixels raw and asks for no flip. */
  lemma RoundTrip(p: Picture, d: Dialect, trailing: seq<byte>)
    requires WellFormed(p)
    ensures DecodeImage(EncodeImage(p) + trailing, d) == Success(p)
  {
    var h := SaveHeader(p.width, p.height, p.format);
    var src := EncodeImage(p) + trailing;
    assert src == EncodeHeader(h) + (p.data + trailing);
    SavedHeader(p, p.data + trailing);
    SavedData(p, h, src);
  }

  /** The pixel data behind a saved header reads back as the image's data. */
  lemma SavedData(p: Picture, h: Header, src: seq<byte>)
    requires WellFormed(p) && h == SaveHeader(p.width, p.height, p.format)
    requires HeaderSize + |p.data| <= |src| && src[HeaderSize .. HeaderSize + |p.data|] == p.data
    requires BitsToBytes(h.pixelDepth) == PixelSize(p.format) && !IsRle(h.imageType)
    ensures Layout(h, p.format, None)
    ensures DecodeData(h, p.format, src, HeaderSize, None) == Success((p.data, HeaderSize + |p.data|))
  {
    var n, ps := p.width * p.height, PixelSize(p.format);
    assert src[HeaderSize .. HeaderSize + n * ps] == p.data;
  }

  /** Loading any strict prefix of a saved image fails with FileCannotRead:
      in the header, or when the pixel data runs short. */
  lemma TruncatedFails(p: Picture, d: Dialect, k: nat)
    requires WellFormed(p) && k < |EncodeImage(p)|
    ensures DecodeImage(EncodeImage(p)[.. k], d) == Failure(FileCannotRead)
  {
    if k >= HeaderSize {
      var h := SaveHeader(p.width, p.height, p.format);
      var src := EncodeImage(p)[.. k];
      assert src == EncodeHeader(h) + p.data[.. k - HeaderSize];
      SavedHeader(p, p.data[.. k - HeaderSize]);
      assert DecodeData(h, p.format, src, HeaderSize, None) == Failure(ReadFail);
    }
  }

  /** Raw decoding without a colour map fails only on a short read. */
  lemma {:induction false} PixelsWithoutMap(src: seq<byte>, pos: nat, n: nat, unitBytes: nat)
    requires unitBytes >= 1
    ensures DecodePixels(src, pos, n, unitBytes, None).Failure? ==>
      DecodePixels(src, pos, n, unitBytes, None).error == ReadFail
    decreases n
  {
    if n > 0 && pos + unitBytes <= |src| {
      PixelsWithoutMap(src, pos + unitBytes, n - 1, unitBytes);
    }
  }

  /** Image data without a colour map fails only on a short read. */
  lemma DataWithoutMap(h: Header, f: PixelFormat, src: seq<byte>, pos: nat)
    requires Layout(h, f, None)
    ensures DecodeData(h, f, src, pos, None).Failure? ==> DecodeData(h, f, src, pos, None).error == ReadFail
  {
    var n := h.width * h.height;
    var unitBytes := BitsToBytes(h.pixelDepth);
    if IsRle(h.imageType) {
      RleIsRawOfExpanded(src, pos, n, unitBytes, None);
      var e := ExpandRle(src, pos, n, unitBytes);
      if e.Success? {
        PixelsWithoutMap(e.value.0, 0, n, unitBytes);
      } else {
        RleFailsOnExpansion(src, pos, n, unitBytes);
      }
    }
  }

  /** Without a colour map, an RLE stream whose packets run short fails
      with a short read. */
  lemma RleFailsOnExpansion(src: seq<byte>, pos: nat, n: nat, unitBytes: nat)
    requires unitBytes >= 1 && ExpandRle(src, pos, n, unitBytes).Failure?
    ensures RleDecode(src, pos, n, unitBytes, None) == Failure(ReadFail)
  {
    RleIsRawOfExpanded(src, pos, n, unitBytes, None);
    RleFailureWithoutMap(src, pos, n, 0, None, unitBytes);
  }

  /** Without a colour map, RLE decoding fails only on a short read. */
  lemma {:induction false} RleFailureWithoutMap(src: seq<byte>, pos: nat, n: nat, pending: nat,
                                                run: Option<seq<byte>>, unitBytes: nat)
    requires unitBytes >= 1
    ensures RleFrom(src, pos, n, pending, run, unitBytes, None).Failure? ==>
      RleFrom(src, pos, n, pending, run, unitBytes, None).error == ReadFail
    decreases n, if pending == 0 then 1 else 0
  {
    if n == 0 {
    } else if pending == 0 {
      if pos < |src| {
        var b := src[pos];
        if IsRunPacket(b) {
          if pos + 1 + unitBytes <= |src| {
            RleFailureWithoutMap(src, pos + 1 + unitBytes, n, PacketCount(b), Some(src[pos + 1 .. pos + 1 + unitBytes]), unitBytes);
          }
        } else {
          RleFailureWithoutMap(src, pos + 1, n, PacketCount(b), None, unitBytes);
        }
      }
    } else if run.Some? {
      RleFailureWithoutMap(src, pos, n - 1, pending - 1, run, unitBytes);
    } else if pos + unitBytes <= |src| {
      RleFailureWithoutMap(src, pos + unitBytes, n - 1, pending - 1, run, unitBytes);
    }
  }

  /** The two loaders agree on every input, except that where the C++ one
      reports a failed colour-map lookup the C one reports FileCannotRead;
      and a lookup can fail only in a colour-mapped image. */
  lemma DialectsAgree(src: seq<byte>)
    ensures DecodeImage(src, C)
         == if DecodeImage(src, Cpp) == Failure(ColorMapIndexFailed) then Failure(FileCannotRead)
            else DecodeImage(src, Cpp)
    ensures DecodeImage(src, Cpp) == Failure(ColorMapIndexFailed) ==> |src| >= HeaderSize && IsColorMapped(src[2])
  {
    match ParseHeader(src)
    case Failure(e) =>
    case Success((h, f)) =>
      var pos0 := HeaderSize + h.idLength;
      if LoadColorMap(h, src, pos0).Success? {
        var (cmap, pos) := LoadColorMap(h, src, pos0).value;
        LayoutOfHeader(h, f, src, pos0);
        if !IsColorMapped(h.imageType) {
          DataWithoutMap(h, f, src, pos);
        }
      }
  }
}
