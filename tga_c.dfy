/**
 * The C interface of `tgafunc.c`: the `tga_image` structure and the
 * functions on it. A null `tga_image *` is a null `Image?`; the file
 * `tga_load` opens is the byte sequence it holds, or None when it cannot
 * be opened; `tga_save` yields the bytes it writes.
 */
module TgaC {
  import opened Wrappers
  import opened TgaFormat
  import opened TgaHeader
  import opened TgaColorMap
  import opened TgaDecodeSpec
  import opened TgaDecode
  import opened TgaPixels
  import opened TgaCodec
  import opened Buffer
  import Arith

  /** `tga_image`: the pixel buffer and the image information. */
  class Image {
    var data: array<byte>
    var width: uint16
    var height: uint16
    var format: PixelFormat
    var bytesPerPixel: nat

    /** The structure describes its buffer: `bytes_per_pixel` is the
        format's pixel size and the buffer holds `w * h` pixels. */
    predicate Valid()
      reads this
    {
      width >= 1 && height >= 1 && bytesPerPixel == PixelSize(format)
      && data.Length == width * height * bytesPerPixel
    }

    /** The image the structure holds. */
    function Contents(): (p: Picture)
      reads this, data
      requires Valid()
      ensures WellFormed(p)
    {
      Picture(width, height, format, data[..])
    }

    /** The allocation and `memset` of `tga_create`, once its checks have
        passed: a zero-filled buffer of `w * h` pixels. */
    constructor Blank(w: uint16, h: uint16, f: PixelFormat)
      requires w >= 1 && h >= 1
      ensures Valid() && fresh(data)
      ensures width == w && height == h && format == f && data[..] == Zeros(data.Length)
    {
      var area: nat := w * h;
      data := new byte[area * PixelSize(f)];
      width, height, format, bytesPerPixel := w, h, f, PixelSize(f);
      new;
      Fill(data);
    }
  }

  /** `tga_create`: the dimensions are checked before the format (any
      enumerator value may be passed), and a new image is all zero bytes. */
  method Create(width: int, height: int, format: int) returns (r: Result<Image, Error>)
    ensures !CheckDimensions(width, height) ==> r == Failure(InvalidImageDimensions)
    ensures CheckDimensions(width, height) && FormatOfCode(format).None? ==> r == Failure(UnsupportedPixelFormat)
    ensures CheckDimensions(width, height) && FormatOfCode(format).Some? ==>
      r.Success? && fresh(r.value) && fresh(r.value.data) && r.value.Valid()
      && var f := FormatOfCode(format).value;
      r.value.Contents() == Picture(width, height, f, Zeros(width * height * PixelSize(f)))
  {
    if width <= 0 || width > MaxDimension || height <= 0 || height > MaxDimension {
      return Failure(InvalidImageDimensions);
    }
    var f := FormatOfCode(format);
    if f.None? {
      return Failure(UnsupportedPixelFormat);
    }
    var image := new Image.Blank(width, height, f.value);
    assert image.Contents().data == Zeros(width * height * PixelSize(f.value));
    return Success(image);
  }

  /** `tga_load` / `load_image`: the header is parsed and validated, the ID
      field skipped, the colour map read or skipped, the image created and
      filled by the raw or the RLE decoder, and flipped as the descriptor
      says. The image is exactly what DecodeImage computes. */
  method Load(file: Option<seq<byte>>) returns (r: Result<Image, Error>)
    ensures file.None? ==> r == Failure(FileCannotRead)
    ensures file.Some? && DecodeImage(file.value, C).Failure? ==> r == Failure(DecodeImage(file.value, C).error)
    ensures file.Some? && DecodeImage(file.value, C).Success? ==>
      r.Success? && fresh(r.value) && fresh(r.value.data) && r.value.Valid()
      && r.value.Contents() == DecodeImage(file.value, C).value
  {
    if file.None? {
      return Failure(FileCannotRead);
    }
    var src := file.value;
    var parsed := ParseHeader(src);
    if parsed.Failure? {
      return Failure(parsed.error);
    }
    var (h, f) := parsed.value;
    var loaded := LoadColorMap(h, src, HeaderSize + h.idLength);
    if loaded.Failure? {
      return Failure(loaded.error);
    }
    var (cmap, pos) := loaded.value;
    LayoutOfHeader(h, f, src, HeaderSize + h.idLength);
    // tga_create: a validated header always passes its checks.
    var image := new Image.Blank(h.width, h.height, f);
    var decoded := Decode(image, h, f, src, pos, cmap);
    if decoded.Failure? {
      return Failure(decoded.error);
    }
    return Success(image);
  }

  /** The decoding and flipping steps of `load_image` on a newly created
      image: the raw or RLE decoder fills the buffer, then the flips the
      descriptor asks for are applied. */
  method Decode(image: Image, h: Header, f: PixelFormat, src: seq<byte>, pos: nat, cmap: Option<ColorMap>)
    returns (r: Result<(), Error>)
    requires image.Valid() && Layout(h, f, cmap)
    requires image.width == h.width && image.height == h.height && image.format == f
    modifies image.data
    ensures image.Valid()
    ensures DecodeData(h, f, src, pos, cmap).Failure? ==> r == Failure(DecodeError(C, DecodeData(h, f, src, pos, cmap).error))
    ensures DecodeData(h, f, src, pos, cmap).Success? ==>
      r.Success? && image.data[..] == Orient(DecodeData(h, f, src, pos, cmap).value.0, h.width, h.height, PixelSize(f), h.descriptor)
  {
    var decoded := DecodeDataInto(image.data, h, f, src, pos, cmap);
    if decoded.Failure? {
      return Failure(DecodeError(C, decoded.error));
    }
    if RightToLeft(h.descriptor) {
      FlipH(image);
    }
    if BottomToTop(h.descriptor) {
      FlipV(image);
    }
    return Success(());
  }

  /** `tga_save` and `save_image`: a missing image is NoData; otherwise
      the 18-byte header, filled in field by field, and the pixel bytes. */
  method Save(image: Image?) returns (r: Result<seq<byte>, Error>)
    requires image != null ==> image.Valid()
    ensures image == null ==> r == Failure(NoData)
    ensures image != null ==> r == Success(EncodeImage(image.Contents()))
  {
    if image == null {
      return Failure(NoData);
    }
    var header := new byte[HeaderSize](_ => 0);
    header[2] := if image.format == BW8 || image.format == BW16 then 3 else 2;
    header[12] := image.width % 256;
    header[13] := image.width / 256;
    header[14] := image.height % 256;
    header[15] := image.height / 256;
    header[16] := image.bytesPerPixel * 8;
    header[17] := if image.format == ARGB32 then 0x28 else 0x20;
    SavedBytes(header[..], image.Contents());
    return Success(header[..] + image.data[..]);
  }

  /** A colour as `tga_get_pixel` reports and `tga_set_pixel` takes it. */
  datatype Color = Color(red: byte, green: byte, blue: byte, alpha: byte)

  /** IS_OPERABLE_PIXEL_FORMAT: the pixel accessors work on RGB24 and
      ARGB32 images only. */
  predicate Operable(f: PixelFormat) { f == RGB24 || f == ARGB32 }

  /** The colour at the clamped coordinates `(x, y)`, pixel bytes in the
      order blue, green, red, alpha; an RGB24 pixel reads as opaque. None
      for a format the accessors do not handle. */
  function ColorAt(p: Picture, x: int, y: int): (r: Option<Color>)
    requires WellFormed(p)
    ensures r.Some? <==> Operable(p.format)
  {
    if !Operable(p.format) then None
    else
      var o := PixelOffset(p.width, p.height, PixelSize(p.format), x, y);
      Some(Color(p.data[o + 2], p.data[o + 1], p.data[o], if p.format == ARGB32 then p.data[o + 3] else 255))
  }

  /** The bytes `tga_set_pixel` stores for a colour in format `f`. */
  function ColorBytes(c: Color, f: PixelFormat): (r: seq<byte>)
    requires Operable(f)
    ensures |r| == PixelSize(f)
  {
    if f == ARGB32 then [c.blue, c.green, c.red, c.alpha] else [c.blue, c.green, c.red]
  }

  /** The image with the pixel at the clamped coordinates `(x, y)` set to
      `c`; an image of another format is unchanged. */
  function WithColor(p: Picture, x: int, y: int, c: Color): (r: Picture)
    requires WellFormed(p)
    ensures WellFormed(r) && r.width == p.width && r.height == p.height && r.format == p.format
    ensures !Operable(p.format) ==> r == p
  {
    if !Operable(p.format) then p
    else
      var o := PixelOffset(p.width, p.height, PixelSize(p.format), x, y);
      p.(data := Splice(p.data, o, ColorBytes(c, p.format)))
  }

  /** Reading a pixel back after setting it gives the colour set, with
      alpha 255 in an RGB24 image. */
  lemma GetAfterSet(p: Picture, x: int, y: int, c: Color)
    requires WellFormed(p) && Operable(p.format)
    ensures ColorAt(WithColor(p, x, y, c), x, y) == Some(if p.format == ARGB32 then c else c.(alpha := 255))
  {
  }

  /** Setting a pixel leaves every other pixel's colour as it was. */
  lemma SetLeavesOtherPixels(p: Picture, x: int, y: int, c: Color, x2: nat, y2: nat)
    requires WellFormed(p) && x2 < p.width && y2 < p.height
    requires (x2, y2) != (Clamp(x, p.width), Clamp(y, p.height))
    ensures ColorAt(WithColor(p, x, y, c), x2, y2) == ColorAt(p, x2, y2)
  {
    if Operable(p.format) {
      var w, h, ps := p.width, p.height, PixelSize(p.format);
      var x1, y1 := Clamp(x, w), Clamp(y, h);
      var o1, o2 := PixelOffset(w, h, ps, x, y), PixelOffset(w, h, ps, x2, y2);
      assert o1 == PixelOffset(w, h, ps, x1, y1);
      PixelOffsetCoords(w, h, ps, x1, y1);
      PixelOffsetCoords(w, h, ps, x2, y2);
      SlotsApart(o1 / ps, o2 / ps, ps);
    }
  }

  /** Distinct pixel indices have non-overlapping slots. */
  lemma SlotsApart(q1: nat, q2: nat, ps: nat)
    requires q1 != q2
    ensures q1 * ps + ps <= q2 * ps || q2 * ps + ps <= q1 * ps
  {
    if q1 < q2 {
      Arith.MulLeMono(q1 + 1, q2, ps);
    } else {
      Arith.MulLeMono(q2 + 1, q1, ps);
    }
  }

  /** `tga_get_pixel`: nothing is reported for a missing image or a format
      the accessors do not handle. */
  method GetPixel(image: Image?, x: int, y: int) returns (r: Option<Color>)
    requires image != null ==> image.Valid()
    ensures image == null ==> r == None
    ensures image != null ==> r == ColorAt(image.Contents(), x, y)
  {
    if image == null || !Operable(image.format) {
      return None;
    }
    var o := PixelOffset(image.width, image.height, image.bytesPerPixel, x, y);
    var alpha := if image.format == ARGB32 then image.data[o + 3] else 255;
    return Some(Color(image.data[o + 2], image.data[o + 1], image.data[o], alpha));
  }

  /** `tga_set_pixel`: the pixel bytes are written blue, green, red and, in
      an ARGB32 image, alpha; nothing happens for a missing image or a format
      the accessors do not handle. */
  method SetPixel(image: Image?, x: int, y: int, c: Color)
    requires image != null ==> image.Valid()
    modifies if image != null then {image.data} else {}
    ensures image != null ==> image.Valid() && image.Contents() == WithColor(old(image.Contents()), x, y, c)
  {
    if image == null || !Operable(image.format) {
      return;
    }
    var o := PixelOffset(image.width, image.height, image.bytesPerPixel, x, y);
    ghost var before := image.data[..];
    image.data[o] := c.blue;
    image.data[o + 1] := c.green;
    image.data[o + 2] := c.red;
    if image.format == ARGB32 {
      image.data[o + 3] := c.alpha;
    }
    assert image.data[..] == Splice(before, o, ColorBytes(c, image.format));
  }

  /** `tga_image_flip_h`: the image mirrored left to right in place. */
  method FlipH(image: Image?)
    requires image != null ==> image.Valid()
    modifies if image != null then {image.data} else {}
    ensures image != null ==> image.data[..] == FlippedH(old(image.data[..]), image.width, image.height, image.bytesPerPixel)
  {
    if image == null {
      return;
    }
    FlipHInPlace(image.data, image.width, image.height, image.bytesPerPixel);
  }

  /** `tga_image_flip_v`: the image mirrored top to bottom in place. */
  method FlipV(image: Image?)
    requires image != null ==> image.Valid()
    modifies if image != null then {image.data} else {}
    ensures image != null ==> image.data[..] == FlippedV(old(image.data[..]), image.width, image.height, image.bytesPerPixel)
  {
    if image == null {
      return;
    }
    FlipVInPlace(image.data, image.width, image.height, image.bytesPerPixel);
  }
}
