/**
 * The C++ interface of `tgafunc_cpp.cpp`: the `tga::Image` class, whose
 * members update its pixel vector, its image information and its last
 * error in place. The file `load` opens is the byte sequence it holds, or
 * None when it cannot be opened; `save` yields the bytes it writes.
 */
module TgaCpp {
  import opened Wrappers
  import opened TgaFormat
  import opened TgaHeader
  import opened TgaColorMap
  import opened TgaDecodeSpec
  import opened TgaDecode
  import opened TgaPixels
  import opened TgaCodec
  import opened Buffer
  import Arith

  /** `(uint16_t)v`: `v` reduced modulo 2^16. */
  function ToUint16(v: int): (r: uint16)
    ensures (v - r) % 0x1_0000 == 0
    ensures 0 <= v < 0x1_0000 ==> r == v
  {
    v % 0x1_0000
  }

  /** One more than the largest `size_t` value of a 64-bit target. */
  const SizeModulus: int := 0x1_0000_0000_0000_0000

  /** `std::vector<uint8_t>::max_size()` on a 64-bit target: PTRDIFF_MAX.
      Asking `resize` for more throws `std::length_error`. */
  const MaxVectorSize: int := 0x7FFF_FFFF_FFFF_FFFF

  /** How the sized constructor ends: an object with its error and the
      byte count of its vector, or an exception out of `data.resize`. */
  datatype CtorOutcome = Constructed(err: Error, size: nat) | ResizeThrows

  /** The constructor as written. Bad dimensions return early. Otherwise
      `(size_t)width * height * pixel_size` is computed modulo 2^64, so an
      unknown format's pixel size of -1 asks for `2^64 - w * h` bytes; a
      count above `max_size()` makes `resize` throw, and only a resize
      that returns reaches `err = NO_ERROR`. */
  function ConstructorAsWritten(width: int, height: int, format: byte): (r: CtorOutcome)
    ensures r.ResizeThrows? ==> CheckDimensions(width, height)
    ensures r.Constructed? ==> r.size <= MaxVectorSize
    ensures r.Constructed? && CheckDimensions(width, height) ==> r.err == NoError
  {
    if !CheckDimensions(width, height) then Constructed(InvalidImageDimensions, 0)
    else
      var count := (width * height * PixelSizeOfCode(format)) % SizeModulus;
      if count > MaxVectorSize then ResizeThrows else Constructed(NoError, count)
  }

  /** As written, valid dimensions with an unknown format never report
      UNSUPPORTED_PIXEL_FORMAT: the resize asks for `2^64 - w * h` bytes,
      more than `max_size()`, and throws out of the constructor. */
  lemma ConstructorAsWrittenThrows(width: int, height: int, format: byte)
    requires CheckDimensions(width, height) && FormatOfCode(format).None?
    ensures (width * height * PixelSizeOfCode(format)) % SizeModulus == SizeModulus - width * height
    ensures ConstructorAsWritten(width, height, format) == ResizeThrows
  {
    var n := width * height;
    Arith.MulLeMonoInt(width, MaxDimension, height);
    Arith.MulLeMonoInt(height, MaxDimension, MaxDimension);
    Arith.DivModUnique(n * -1, SizeModulus, -1, SizeModulus - n);
  }

  /** With valid dimensions and a known format, the constructor as written
      does what the corrected one does: NO_ERROR and `w * h * size` bytes. */
  lemma ConstructorAsWrittenKnownFormat(width: int, height: int, format: byte)
    requires CheckDimensions(width, height) && FormatOfCode(format).Some?
    ensures ConstructorAsWritten(width, height, format)
         == Constructed(NoError, width * height * PixelSize(FormatOfCode(format).value))
  {
    var n := width * height;
    var size := PixelSize(FormatOfCode(format).value);
    Arith.MulLeMonoInt(width, MaxDimension, height);
    Arith.MulLeMonoInt(height, MaxDimension, MaxDimension);
    Arith.MulLeMonoInt(size, 4, n);
    Arith.DivModUnique(n * size, SizeModulus, 0, n * size);
  }

  /** A 1 x 1 image of format value 5: as written the resize asks for
      2^64 - 1 bytes and throws. */
  lemma ConstructorAsWrittenExample()
    ensures ConstructorAsWritten(1, 1, 5) == ResizeThrows
  {
    ConstructorAsWrittenThrows(1, 1, 5);
  }

  /** `tga::Image`: the pixel vector, the image information (width,
      height, pixel format as its enumerator value) and the last error. */
  class Image {
    var data: array<byte>
    var width: uint16
    var height: uint16
    var format: byte
    var err: Error

    /** The vector is empty, or holds the `w * h` pixels of a known format. */
    predicate Valid()
      reads this
    {
      data.Length == 0
      || (FormatOfCode(format).Some? && width >= 1 && height >= 1
          && data.Length == width * height * PixelSize(FormatOfCode(format).value))
    }

    /** The image a non-empty object holds. */
    function Contents(): (p: Picture)
      reads this, data
      requires Valid() && data.Length > 0
      ensures WellFormed(p)
    {
      Picture(width, height, FormatOfCode(format).value, data[..])
    }

    /** `Image(width, height, format)`, with the early return the code
        evidently intends for an unknown format: the information is the
        truncated arguments; bad dimensions, then an unknown format, leave
        the vector empty and set the error; otherwise the vector is
        resized to `w * h * pixel_size` zero bytes. */
    constructor (w: int, h: int, fmt: byte)
      ensures Valid() && fresh(data)
      ensures width == ToUint16(w) && height == ToUint16(h) && format == fmt
      ensures !CheckDimensions(w, h) ==> err == InvalidImageDimensions && data.Length == 0
      ensures CheckDimensions(w, h) && FormatOfCode(fmt).None? ==> err == UnsupportedPixelFormat && data.Length == 0
      ensures CheckDimensions(w, h) && FormatOfCode(fmt).Some? ==>
        err == NoError && data[..] == Zeros(w * h * PixelSize(FormatOfCode(fmt).value))
    {
      width, height, format := ToUint16(w), ToUint16(h), fmt;
      data := new byte[0];
      err := NoError;
      new;
      if !CheckDimensions(w, h) {
        err := InvalidImageDimensions;
        return;
      }
      var pixelSize := PixelSizeOfCode(fmt);
      if pixelSize == -1 {
        err := UnsupportedPixelFormat;
        return;
      }
      data := Resize(data, w * h * pixelSize);
      err := NoError;
    }

    /** `Image(filepath)`: a new object loaded from the file. The image
        information starts at zero here. */
    constructor FromFile(file: Option<seq<byte>>)
      ensures file.None? ==> err == FileCannotRead
      ensures file.Some? && DecodeImage(file.value, Cpp).Failure? ==> err == DecodeImage(file.value, Cpp).error
      ensures file.Some? && DecodeImage(file.value, Cpp).Success? ==>
        err == NoError && Valid() && data.Length > 0 && Contents() == DecodeImage(file.value, Cpp).value
    {
      width, height, format := 0, 0, 0;
      data := new byte[0];
      err := NoError;
      new;
      var _ := Load(file);
    }

    /** `load`: the header is parsed and validated (the information is set
        from it when it is accepted), the ID field skipped, the colour map
        read or skipped, the vector resized to `w * h * pixel_size`, the
        data decoded into it and flipped as the descriptor says. It
        succeeds exactly when DecodeImage does, with that image; otherwise
        `err` is the error DecodeImage reports. */
    method Load(file: Option<seq<byte>>) returns (ok: bool)
      modifies this
      ensures ok <==> file.Some? && DecodeImage(file.value, Cpp).Success?
      ensures !ok ==> err == if file.None? then FileCannotRead else DecodeImage(file.value, Cpp).error
      ensures ok ==> err == NoError && Valid() && data.Length > 0 && Contents() == DecodeImage(file.value, Cpp).value
      ensures file.None? || ParseHeader(file.value).Failure? ==>
        width == old(width) && height == old(height) && format == old(format) && data == old(data)
      ensures file.Some? && ParseHeader(file.value).Success? ==>
        var (h, f) := ParseHeader(file.value).value;
        width == h.width && height == h.height && format == CodeOf(f)
        && (LoadColorMap(h, file.value, HeaderSize + h.idLength).Failure? ==> data == old(data))
        && (LoadColorMap(h, file.value, HeaderSize + h.idLength).Success? ==>
              fresh(data) && data.Length == h.width * h.height * PixelSize(f))
    {
      if file.None? {
        err := FileCannotRead;
        return false;
      }
      var src := file.value;
      var parsed := ParseHeader(src);
      if parsed.Failure? {
        err := parsed.error;
        return false;
      }
      var (h, f) := parsed.value;
      ok := LoadBody(h, f, src);
      assert DecodeImage(src, Cpp) == DecodeBody(h, f, src, Cpp);
    }

    /** The part of `load` after the header is accepted: the image information
        is taken from the header, the colour map is read, the vector is resized
        and filled. */
    method LoadBody(h: Header, f: PixelFormat, src: seq<byte>) returns (ok: bool)
      requires ResolvePixelFormat(h.imageType, h.pixelDepth, h.mapEntrySize) == Some(f)
      requires h.width >= 1 && h.height >= 1
      modifies this
      ensures width == h.width && height == h.height && format == CodeOf(f)
      ensures ok <==> DecodeBody(h, f, src, Cpp).Success?
      ensures !ok ==> err == DecodeBody(h, f, src, Cpp).error
      ensures ok ==> err == NoError && Valid() && data.Length > 0 && Contents() == DecodeBody(h, f, src, Cpp).value
      ensures LoadColorMap(h, src, HeaderSize + h.idLength).Failure? ==> data == old(data)
      ensures LoadColorMap(h, src, HeaderSize + h.idLength).Success? ==>
        fresh(data) && data.Length == h.width * h.height * PixelSize(f)
    {
      width, height, format := h.width, h.height, CodeOf(f);
      FormatCodeRoundTrip(f);
      var loaded := LoadColorMap(h, src, HeaderSize + h.idLength);
      if loaded.Failure? {
        DecodeBodyMapFails(h, f, src, Cpp);
        err := loaded.error;
        return false;
      }
      var (cmap, pos) := loaded.value;
      DecodeBodyAfterMap(h, f, src, Cpp, cmap, pos);
      var decoded := LoadPixels(h, f, src, pos, cmap);
      if decoded.Failure? {
        err := decoded.error;
        return false;
      }
      err := NoError;
      return true;
    }

    /** The resize of the vector to `w * h * pixel_size` bytes, then the
        decoding and flipping steps of `load`. */
    method LoadPixels(h: Header, f: PixelFormat, src: seq<byte>, pos: nat, cmap: Option<ColorMap>)
      returns (r: Result<(), Error>)
      requires Layout(h, f, cmap) && h.width >= 1 && h.height >= 1
      requires width == h.width && height == h.height && format == CodeOf(f) && FormatOfCode(format) == Some(f)
      modifies this
      ensures width == old(width) && height == old(height) && format == old(format) && err == old(err)
      ensures fresh(data) && data.Length == h.width * h.height * PixelSize(f)
      ensures Valid() && data.Length > 0
      ensures DecodeData(h, f, src, pos, cmap).Failure? ==> r == Failure(DecodeError(Cpp, DecodeData(h, f, src, pos, cmap).error))
      ensures DecodeData(h, f, src, pos, cmap).Success? ==>
        r.Success? && data[..] == Orient(DecodeData(h, f, src, pos, cmap).value.0, h.width, h.height, PixelSize(f), h.descriptor)
    {
      var area: nat := h.width * h.height;
      data := Resize(data, area * PixelSize(f));
      r := Decode(h, f, src, pos, cmap);
    }

    /** The decoding and flipping steps of `load` on the resized vector:
        the raw or RLE decoder fills it, then the flips the descriptor
        asks for are applied. */
    method Decode(h: Header, f: PixelFormat, src: seq<byte>, pos: nat, cmap: Option<ColorMap>)
      returns (r: Result<(), Error>)
      requires Layout(h, f, cmap) && h.width >= 1 && h.height >= 1
      requires width == h.width && height == h.height && format == CodeOf(f) && FormatOfCode(format) == Some(f)
      requires data.Length == h.width * h.height * PixelSize(f)
      modifies data
      ensures Valid() && data.Length > 0
      ensures DecodeData(h, f, src, pos, cmap).Failure? ==> r == Failure(DecodeError(Cpp, DecodeData(h, f, src, pos, cmap).error))
      ensures DecodeData(h, f, src, pos, cmap).Success? ==>
        r.Success? && data[..] == Orient(DecodeData(h, f, src, pos, cmap).value.0, h.width, h.height, PixelSize(f), h.descriptor)
    {
      Arith.MulGrows(h.width * h.height, PixelSize(f));
      var decoded := DecodeDataInto(data, h, f, src, pos, cmap);
      if decoded.Failure? {
        return Failure(DecodeError(Cpp, decoded.error));
      }
      if RightToLeft(h.descriptor) {
        FlipH();
      }
      if BottomToTop(h.descriptor) {
        FlipV();
      }
      return Success(());
    }

    /** `save`: an empty vector is NoData; otherwise `save_image` writes the
        encoder's header and the pixel bytes, and the error is cleared. */
    method Save() returns (r: Result<seq<byte>, Error>)
      requires Valid()
      modifies this
      ensures data == old(data) && width == old(width) && height == old(height) && format == old(format)
      ensures data.Length == 0 ==> r == Failure(NoData) && err == NoData
      ensures data.Length > 0 ==> r == Success(EncodeImage(Contents())) && err == NoError
    {
      if data.Length == 0 {
        err := NoData;
        return Failure(NoData);
      }
      err := NoError;
      var f := FormatOfCode(format).value;
      var header := new byte[HeaderSize](_ => 0);
      header[2] := if f == BW8 || f == BW16 then 3 else 2;
      header[12] := width % 256;
      header[13] := width / 256;
      header[14] := height % 256;
      header[15] := height / 256;
      header[16] := PixelSizeOfCode(format) * 8;
      header[17] := if f == ARGB32 then 0x28 else 0x20;
      SavedBytes(header[..], Contents());
      return Success(header[..] + data[..]);
    }

    /** `flip_h`: nothing for an empty vector, else the image mirrored left
        to right in place. */
    method FlipH()
      requires Valid()
      modifies data
      ensures data.Length == 0 ==> data[..] == old(data[..])
      ensures data.Length > 0 ==>
        data[..] == FlippedH(old(data[..]), width, height, PixelSize(FormatOfCode(format).value))
    {
      if data.Length == 0 {
        return;
      }
      FlipHInPlace(data, width, height, PixelSizeOfCode(format));
    }

    /** `flip_v`: nothing for an empty vector, else the image mirrored top
        to bottom in place. */
    method FlipV()
      requires Valid()
      modifies data
      ensures data.Length == 0 ==> data[..] == old(data[..])
      ensures data.Length > 0 ==>
        data[..] == FlippedV(old(data[..]), width, height, PixelSize(FormatOfCode(format).value))
    {
      if data.Length == 0 {
        return;
      }
      FlipVInPlace(data, width, height, PixelSizeOfCode(format));
    }

    /** `get_pixel`: the offset into the vector of the pixel at the
        clamped coordinates; a whole pixel fits there, and an in-range
        pixel `(x, y)` is at `(y * w + x) * pixel_size`. */
    method GetPixel(x: int, y: int) returns (off: nat)
      requires Valid() && data.Length > 0
      ensures var ps := PixelSize(FormatOfCode(format).value);
        off == PixelOffset(width, height, ps, x, y) && off + ps <= data.Length
        && (0 <= x < width && 0 <= y < height ==> off == (y * width + x) * ps)
    {
      var cx := ClampCoordinate(x, width);
      var cy := ClampCoordinate(y, height);
      var pixelSize := PixelSizeOfCode(format);
      assert pixelSize == PixelSize(FormatOfCode(format).value);
      var q: nat := cy * width + cx;
      off := q * pixelSize;
      assert off == PixelOffset(width, height, pixelSize, x, y);
    }

    /** `last_error`. */
    function LastError(): Error
      reads this
    {
      err
    }

    /** `get_pixel_size`: `pixel_format_to_pixel_size` returned as a
        `uint8_t`, so an unknown format's -1 reads as 255. */
    function GetPixelSize(): (r: byte)
      reads this
      ensures FormatOfCode(format).Some? ==> r == PixelSize(FormatOfCode(format).value)
      ensures FormatOfCode(format).None? ==> r == 255
    {
      PixelSizeOfCode(format) % 256
    }

    /** `get_width`. */
    function GetWidth(): uint16
      reads this
    {
      width
    }

    /** `get_height`. */
    function GetHeight(): uint16
      reads this
    {
      height
    }

    /** `get_pixel_format`, as the enumerator value. */
    function GetPixelFormat(): byte
      reads this
    {
      format
    }

    /** `get_data`: the pixel bytes. */
    function GetData(): seq<byte>
      reads this, data
    {
      data[..]
    }
  }
}
