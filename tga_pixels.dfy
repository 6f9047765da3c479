/**
 * Pixel addressing and the orientation flips, shared by the C functions
 * (`get_pixel_pointer`, `tga_image_flip_h`, `tga_image_flip_v`) and the
 * C++ members (`Image::get_pixel`, `Image::flip_h`, `Image::flip_v`).
 * An image is a row-major buffer of `w * h` pixels of `ps` bytes each:
 * pixel `(x, y)` has pixel index `y * w + x` and starts at byte
 * `(y * w + x) * ps`.
 */
module TgaPixels {
  import opened TgaFormat
  import opened Buffer
  import Arith

  function Dist(a: int, b: int): nat {
    if a < b then b - a else a - b
  }

  /** One coordinate clamped into `[0, size - 1]`: the in-range coordinate
      nearest to `v`. */
  function Clamp(v: int, size: nat): (r: nat)
    requires size >= 1
    ensures r < size
    ensures 0 <= v < size ==> r == v
    ensures forall u :: 0 <= u < size ==> Dist(r, v) <= Dist(u, v)
  {
    if v < 0 then 0 else if v >= size then size - 1 else v
  }

  /** The clamping statements of `get_pixel_pointer` and `Image::get_pixel`
      for one coordinate. */
  method ClampCoordinate(v: int, size: nat) returns (c: nat)
    requires size >= 1
    ensures c == Clamp(v, size)
  {
    if v < 0 {
      c := 0;
    } else if v >= size {
      c := size - 1;
    } else {
      c := v;
    }
  }

  /** Byte `b` of pixel `(x, y)`. */
  function ByteIndex(w: nat, ps: nat, x: nat, y: nat, b: nat): nat {
    (y * w + x) * ps + b
  }

  /** Pixel `(x, y)` of an in-range pair lies inside the buffer. */
  lemma PixelInBounds(w: nat, h: nat, ps: nat, x: nat, y: nat)
    requires x < w && y < h
    ensures y * w + x < w * h
    ensures (y * w + x) * ps + ps <= w * h * ps
  {
    Arith.SlotInBounds(y, h, w);
    Arith.SlotInBounds(y * w + x, w * h, ps);
  }

  /** The first byte of the pixel with index `q`. */
  function SlotStart(q: nat, ps: nat): nat {
    q * ps
  }

  /** Byte `b` of the pixel with index `q` of a `w * h` image. */
  function Slot(w: nat, h: nat, ps: nat, q: nat, b: nat): (r: nat)
    requires q < w * h && b < ps
    ensures r == SlotStart(q, ps) + b && r < w * h * ps
  {
    Arith.SlotInBounds(q, w * h, ps);
    q * ps + b
  }

  /** Byte `b` of pixel `q` is byte `b` of the pixel at index `k / ps`. */
  lemma ByteSplit(q: nat, ps: nat, b: nat)
    requires b < ps
    ensures (q * ps + b) / ps == q && (q * ps + b) % ps == b
  {
    Arith.DivModUnique(q * ps + b, ps, q, b);
  }

  /** `get_pixel_pointer` / `Image::get_pixel`: the offset of the pixel at
      the clamped coordinates, computed without overflow. It always leaves
      room for a whole pixel inside the `w * h * ps` buffer. */
  function PixelOffset(w: nat, h: nat, ps: nat, x: int, y: int): (r: nat)
    requires w >= 1 && h >= 1
    ensures r + ps <= w * h * ps
    ensures 0 <= x < w && 0 <= y < h ==> r == (y * w + x) * ps
  {
    var cx, cy := Clamp(x, w), Clamp(y, h);
    var q: nat := cy * w + cx;
    PixelInBounds(w, h, ps, cx, cy);
    q * ps
  }

  /** The offset of an in-range pixel gives its coordinates back, so
      distinct in-range pixels never share bytes. */
  lemma PixelOffsetCoords(w: nat, h: nat, ps: nat, x: nat, y: nat)
    requires x < w && y < h && ps >= 1
    ensures PixelOffset(w, h, ps, x, y) % ps == 0
    ensures PixelOffset(w, h, ps, x, y) / ps % w == x
    ensures PixelOffset(w, h, ps, x, y) / ps / w == y
  {
    ByteSplit(y * w + x, ps, 0);
    Arith.Coords(x, y, w);
  }

  const Int32Modulus: int := 0x1_0000_0000

  /** The value a C `int` holds for `v`: `v` reduced into `[-2^31, 2^31)`
      modulo 2^32 (two's-complement wrap-around, what signed overflow does
      on the usual targets). */
  function WrapInt32(v: int): (r: int)
    ensures -0x8000_0000 <= r < 0x8000_0000
    ensures (v - r) % Int32Modulus == 0
    ensures -0x8000_0000 <= v < 0x8000_0000 ==> r == v
  {
    (v + 0x8000_0000) % Int32Modulus - 0x8000_0000
  }

  /** `(y * width + x) * bytes_per_pixel` as written: every step is C `int`
      arithmetic on the clamped coordinates. */
  function PixelOffsetAsWritten(w: nat, h: nat, ps: nat, x: int, y: int): (r: int)
    requires w >= 1 && h >= 1
    ensures -0x8000_0000 <= r < 0x8000_0000
    ensures ((Clamp(y, h) * w + Clamp(x, w)) * ps - r) % Int32Modulus == 0
  {
    var cx, cy := Clamp(x, w), Clamp(y, h);
    var row := WrapInt32(cy * w);
    var index := WrapInt32(row + cx);
    var out := WrapInt32(index * ps);
    StepsCongruent(cy * w, row, cx, index, ps, out);
    out
  }

  /** Three steps each congruent modulo 2^32 to the exact one (a row
      offset, plus a column, times a pixel size) end congruent to the exact
      result. */
  lemma StepsCongruent(row: int, a: int, x: int, index: int, ps: int, out: int)
    requires (row - a) % Int32Modulus == 0
    requires ((a + x) - index) % Int32Modulus == 0
    requires (index * ps - out) % Int32Modulus == 0
    ensures ((row + x) * ps - out) % Int32Modulus == 0
  {
    var sum := row + x;
    assert sum - (a + x) == row - a;
    CongruentTrans(sum, a + x, index);
    CongruentMul(sum, index, ps);
    CongruentTrans(sum * ps, index * ps, out);
  }

  /** Congruence modulo 2^32 is kept by multiplication. */
  lemma CongruentMul(a: int, b: int, c: int)
    requires (a - b) % Int32Modulus == 0
    ensures (a * c - b * c) % Int32Modulus == 0
  {
    var k := (a - b) / Int32Modulus;
    assert a - b == k * Int32Modulus;
    assert a * c - b * c == (k * c) * Int32Modulus by {
      assert a * c - b * c == (a - b) * c;
    }
    Arith.DivModUnique(a * c - b * c, Int32Modulus, k * c, 0);
  }

  /** Congruence modulo 2^32 is transitive. */
  lemma CongruentTrans(a: int, b: int, c: int)
    requires (a - b) % Int32Modulus == 0 && (b - c) % Int32Modulus == 0
    ensures (a - c) % Int32Modulus == 0
  {
    var k1, k2 := (a - b) / Int32Modulus, (b - c) / Int32Modulus;
    assert a - b == k1 * Int32Modulus && b - c == k2 * Int32Modulus;
    Arith.DivModUnique(a - c, Int32Modulus, k1 + k2, 0);
  }

  /** The `int` steps of the offset of an in-range pixel do not wrap while
      the whole buffer fits in an `int`. */
  lemma NoWrap(w: nat, h: nat, ps: nat, x: nat, y: nat)
    requires x < w && y < h && ps >= 1 && w * h * ps <= 0x8000_0000
    ensures WrapInt32(WrapInt32(WrapInt32(y * w) + x) * ps) == (y * w + x) * ps
  {
    PixelInBounds(w, h, ps, x, y);
    Arith.MulGrows(w * h, ps);
    Arith.MulLeMono(0, y, w);
    Arith.MulLeMono(0, y * w + x, ps);
    NoWrapSteps(y * w, x, ps, (y * w + x) * ps);
  }

  /** The three `int` steps leave in-range values unchanged. */
  lemma NoWrapSteps(row: int, x: int, ps: int, off: int)
    requires 0 <= row && 0 <= x && row + x < 0x8000_0000
    requires off == (row + x) * ps && 0 <= off < 0x8000_0000
    ensures WrapInt32(WrapInt32(WrapInt32(row) + x) * ps) == off
  {
    assert WrapInt32(row) == row;
    assert WrapInt32(row + x) == row + x;
  }

  /** While the whole buffer fits in an `int`, the offset as written is the
      true offset. */
  lemma PixelOffsetAsWrittenAgrees(w: nat, h: nat, ps: nat, x: int, y: int)
    requires w >= 1 && h >= 1 && ps >= 1 && w * h * ps <= 0x8000_0000
    ensures PixelOffsetAsWritten(w, h, ps, x, y) == PixelOffset(w, h, ps, x, y)
  {
    NoWrap(w, h, ps, Clamp(x, w), Clamp(y, h));
  }


  /** A 65535 x 65535 ARGB32 image, which `tga_create` accepts: the first
      pixel of the last row has offset 17179082760, but the `int`
      arithmetic yields -786424, before the start of the buffer. */
  lemma PixelOffsetAsWrittenOverflows()
    ensures PixelOffset(65535, 65535, 4, 0, 65534) == 17179082760
    ensures PixelOffsetAsWritten(65535, 65535, 4, 0, 65534) == -786424
  {
  }

  /** Pixel index of `(x, y)`. */
  function PixelIndex(w: nat, x: nat, y: nat): nat {
    y * w + x
  }

  /** An in-range pair of coordinates has an in-range pixel index. */
  lemma IndexBound(w: nat, h: nat, x: nat, y: nat)
    requires x < w && y < h
    ensures PixelIndex(w, x, y) < w * h
  {
    Arith.SlotInBounds(y, h, w);
  }

  /** The coordinates of a pixel index. */
  lemma IndexCoords(w: nat, x: nat, y: nat)
    requires x < w
    ensures PixelIndex(w, x, y) % w == x && PixelIndex(w, x, y) / w == y
  {
    Arith.Coords(x, y, w);
  }

  /** Every in-range pixel index is that of its coordinates. */
  lemma IndexOfCoords(w: nat, h: nat, q: nat)
    requires w >= 1 && q < w * h
    ensures q % w < w && q / w < h && PixelIndex(w, q % w, q / w) == q
  {
    Arith.RowBound(q, w, h);
  }

  /** Pixel index of the horizontal mirror of pixel `q`: same row, column
      `w - 1 - x`. */
  function MirrorX(w: nat, h: nat, q: nat): (r: nat)
    requires w >= 1 && q < w * h
    ensures r < w * h
  {
    IndexOfCoords(w, h, q);
    IndexBound(w, h, w - 1 - q % w, q / w);
    PixelIndex(w, w - 1 - q % w, q / w)
  }

  /** Pixel index of the vertical mirror of pixel `q`: same column, row
      `h - 1 - y`. */
  function MirrorY(w: nat, h: nat, q: nat): (r: nat)
    requires w >= 1 && q < w * h
    ensures r < w * h
  {
    IndexOfCoords(w, h, q);
    IndexBound(w, h, q % w, h - 1 - q / w);
    PixelIndex(w, q % w, h - 1 - q / w)
  }

  /** The mirrors of an in-range pixel, in coordinates. */
  lemma MirrorCoords(w: nat, h: nat, x: nat, y: nat)
    requires x < w && y < h
    ensures PixelIndex(w, x, y) < w * h
    ensures MirrorX(w, h, PixelIndex(w, x, y)) == PixelIndex(w, w - 1 - x, y)
    ensures MirrorY(w, h, PixelIndex(w, x, y)) == PixelIndex(w, x, h - 1 - y)
  {
    IndexBound(w, h, x, y);
    IndexCoords(w, x, y);
  }

  /** The mirror of pixel `q` in either direction. */
  function Mirror(w: nat, h: nat, q: nat, vertical: bool): (r: nat)
    requires w >= 1 && q < w * h
    ensures r < w * h
  {
    if vertical then MirrorY(w, h, q) else MirrorX(w, h, q)
  }

  /** A mirrored pixel's mirror is the pixel itself. */
  lemma MirrorInvolutive(w: nat, h: nat, q: nat, vertical: bool)
    requires w >= 1 && q < w * h
    ensures Mirror(w, h, Mirror(w, h, q, vertical), vertical) == q
  {
    if vertical {
      MirrorYInvolutive(w, h, q);
    } else {
      MirrorXInvolutive(w, h, q);
    }
  }

  lemma MirrorXInvolutive(w: nat, h: nat, q: nat)
    requires w >= 1 && q < w * h
    ensures MirrorX(w, h, MirrorX(w, h, q)) == q
  {
    var x, y := q % w, q / w;
    IndexOfCoords(w, h, q);
    MirrorCoords(w, h, x, y);
    MirrorCoords(w, h, w - 1 - x, y);
  }

  lemma MirrorYInvolutive(w: nat, h: nat, q: nat)
    requires w >= 1 && q < w * h
    ensures MirrorY(w, h, MirrorY(w, h, q)) == q
  {
    var x, y := q % w, q / w;
    IndexOfCoords(w, h, q);
    MirrorCoords(w, h, x, y);
    MirrorCoords(w, h, x, h - 1 - y);
  }

  /** The horizontal and vertical mirrors commute. */
  lemma MirrorsCommute(w: nat, h: nat, q: nat)
    requires w >= 1 && q < w * h
    ensures MirrorX(w, h, MirrorY(w, h, q)) == MirrorY(w, h, MirrorX(w, h, q))
  {
    var x, y := q % w, q / w;
    IndexOfCoords(w, h, q);
    MirrorCoords(w, h, x, y);
    MirrorCoords(w, h, x, h - 1 - y);
    MirrorCoords(w, h, w - 1 - x, y);
  }

  /** Byte `k` of a `w * h` image is byte `k % ps` of pixel `k / ps`. */
  lemma SlotOfByte(w: nat, h: nat, ps: nat, k: nat)
    requires ps >= 1 && k < w * h * ps
    ensures k / ps < w * h && k % ps < ps && Slot(w, h, ps, k / ps, k % ps) == k
  {
    Arith.RowBound(k, ps, w * h);
  }

  /** The pixel and byte a slot byte belongs to. */
  lemma SlotParts(w: nat, h: nat, ps: nat, q: nat, b: nat)
    requires q < w * h && b < ps
    ensures Slot(w, h, ps, q, b) / ps == q && Slot(w, h, ps, q, b) % ps == b
  {
    ByteSplit(q, ps, b);
  }

  /** The byte of the original that byte `k` of a mirrored image comes from:
      the same byte of the mirrored pixel. */
  function SourceByte(w: nat, h: nat, ps: nat, k: nat, vertical: bool): (r: nat)
    requires w >= 1 && ps >= 1 && k < w * h * ps
    ensures r < w * h * ps
  {
    SlotOfByte(w, h, ps, k);
    Slot(w, h, ps, Mirror(w, h, k / ps, vertical), k % ps)
  }

  /** Byte `b` of pixel `q` of a mirrored image is byte `b` of the mirror
      of `q`. */
  lemma SourceByteOfSlot(w: nat, h: nat, ps: nat, q: nat, b: nat, vertical: bool)
    requires w >= 1 && q < w * h && b < ps
    ensures SourceByte(w, h, ps, Slot(w, h, ps, q, b), vertical) == Slot(w, h, ps, Mirror(w, h, q, vertical), b)
  {
    SlotParts(w, h, ps, q, b);
  }

  /** The image mirrored left to right. */
  function FlippedH(s: seq<byte>, w: nat, h: nat, ps: nat): (r: seq<byte>)
    requires w >= 1 && ps >= 1 && |s| == w * h * ps
    ensures |r| == |s|
  {
    seq(|s|, k requires 0 <= k < |s| => s[SourceByte(w, h, ps, k, false)])
  }

  /** The image mirrored top to bottom. */
  function FlippedV(s: seq<byte>, w: nat, h: nat, ps: nat): (r: seq<byte>)
    requires w >= 1 && ps >= 1 && |s| == w * h * ps
    ensures |r| == |s|
  {
    seq(|s|, k requires 0 <= k < |s| => s[SourceByte(w, h, ps, k, true)])
  }

  /** Byte `b` of pixel `(x, y)` is byte `b` of its pixel index's slot. */
  lemma ByteIndexSlot(w: nat, h: nat, ps: nat, x: nat, y: nat, b: nat)
    requires x < w && y < h && b < ps
    ensures PixelIndex(w, x, y) < w * h
    ensures ByteIndex(w, ps, x, y, b) == Slot(w, h, ps, PixelIndex(w, x, y), b)
  {
    IndexBound(w, h, x, y);
  }

  /** The flips pixel by pixel: pixel `(x, y)` of the image mirrored left
      to right is pixel `(w - 1 - x, y)` of the original. */
  lemma FlippedHAt(s: seq<byte>, w: nat, h: nat, ps: nat, x: nat, y: nat, b: nat)
    requires ps >= 1 && |s| == w * h * ps && x < w && y < h && b < ps
    ensures ByteIndex(w, ps, x, y, b) < |s| && ByteIndex(w, ps, w - 1 - x, y, b) < |s|
      && FlippedH(s, w, h, ps)[ByteIndex(w, ps, x, y, b)] == s[ByteIndex(w, ps, w - 1 - x, y, b)]
  {
    ByteIndexSlot(w, h, ps, x, y, b);
    ByteIndexSlot(w, h, ps, w - 1 - x, y, b);
    MirrorCoords(w, h, x, y);
    SourceByteOfSlot(w, h, ps, PixelIndex(w, x, y), b, false);
  }

  /** Pixel `(x, y)` of the image mirrored top to bottom is pixel
      `(x, h - 1 - y)` of the original. */
  lemma FlippedVAt(s: seq<byte>, w: nat, h: nat, ps: nat, x: nat, y: nat, b: nat)
    requires ps >= 1 && |s| == w * h * ps && x < w && y < h && b < ps
    ensures ByteIndex(w, ps, x, y, b) < |s| && ByteIndex(w, ps, x, h - 1 - y, b) < |s|
      && FlippedV(s, w, h, ps)[ByteIndex(w, ps, x, y, b)] == s[ByteIndex(w, ps, x, h - 1 - y, b)]
  {
    ByteIndexSlot(w, h, ps, x, y, b);
    ByteIndexSlot(w, h, ps, x, h - 1 - y, b);
    MirrorCoords(w, h, x, y);
    SourceByteOfSlot(w, h, ps, PixelIndex(w, x, y), b, true);
  }

  /** Mirroring a byte index twice in the same direction gives it back. */
  lemma SourceByteInvolutive(w: nat, h: nat, ps: nat, k: nat, vertical: bool)
    requires w >= 1 && ps >= 1 && k < w * h * ps
    ensures SourceByte(w, h, ps, SourceByte(w, h, ps, k, vertical), vertical) == k
  {
    var q, b := k / ps, k % ps;
    SlotOfByte(w, h, ps, k);
    SourceByteOfSlot(w, h, ps, q, b, vertical);
    SourceByteOfSlot(w, h, ps, Mirror(w, h, q, vertical), b, vertical);
    MirrorInvolutive(w, h, q, vertical);
  }

  /** Mirroring a byte index in both directions does not depend on the
      order. */
  lemma SourceBytesCommute(w: nat, h: nat, ps: nat, k: nat)
    requires w >= 1 && ps >= 1 && k < w * h * ps
    ensures SourceByte(w, h, ps, SourceByte(w, h, ps, k, true), false)
         == SourceByte(w, h, ps, SourceByte(w, h, ps, k, false), true)
  {
    var q, b := k / ps, k % ps;
    SlotOfByte(w, h, ps, k);
    SourceByteOfSlot(w, h, ps, q, b, true);
    SourceByteOfSlot(w, h, ps, MirrorY(w, h, q), b, false);
    SourceByteOfSlot(w, h, ps, q, b, false);
    SourceByteOfSlot(w, h, ps, MirrorX(w, h, q), b, true);
    MirrorsCommute(w, h, q);
  }

  /** Flipping twice restores the image. */
  lemma FlipHInvolution(s: seq<byte>, w: nat, h: nat, ps: nat)
    requires w >= 1 && ps >= 1 && |s| == w * h * ps
    ensures FlippedH(FlippedH(s, w, h, ps), w, h, ps) == s
  {
    forall k | 0 <= k < |s| ensures FlippedH(FlippedH(s, w, h, ps), w, h, ps)[k] == s[k] {
      SourceByteInvolutive(w, h, ps, k, false);
    }
  }

  lemma FlipVInvolution(s: seq<byte>, w: nat, h: nat, ps: nat)
    requires w >= 1 && ps >= 1 && |s| == w * h * ps
    ensures FlippedV(FlippedV(s, w, h, ps), w, h, ps) == s
  {
    forall k | 0 <= k < |s| ensures FlippedV(FlippedV(s, w, h, ps), w, h, ps)[k] == s[k] {
      SourceByteInvolutive(w, h, ps, k, true);
    }
  }

  /** The two flips commute, so the order `load_image` applies them in does
      not matter. */
  lemma FlipsCommute(s: seq<byte>, w: nat, h: nat, ps: nat)
    requires w >= 1 && ps >= 1 && |s| == w * h * ps
    ensures FlippedH(FlippedV(s, w, h, ps), w, h, ps) == FlippedV(FlippedH(s, w, h, ps), w, h, ps)
  {
    forall k | 0 <= k < |s|
      ensures FlippedH(FlippedV(s, w, h, ps), w, h, ps)[k] == FlippedV(FlippedH(s, w, h, ps), w, h, ps)[k]
    {
      SourceBytesCommute(w, h, ps, k);
    }
  }

  // The in-place flips. The loops of `tga_image_flip_h` / `Image::flip_h`
  // swap pixel `(i, j)` with `(w - 1 - i, j)` for every column `i < w / 2`
  // and row `j`; those of the vertical flip swap `(j, i)` with
  // `(j, h - 1 - i)` for every row `i < h / 2` and column `j`. For both, a
  // "line" is a column (horizontal flip) or a row (vertical flip).

  /** Whether pixel `q` already holds its mirror once the flip has swapped
      the lines before `i` with their mirrors, and the first `j` pixels of
      line `i` with theirs. */
  predicate Done(w: nat, h: nat, i: nat, j: nat, q: nat, vertical: bool)
    requires w >= 1
  {
    var line, along, extent := if vertical then q / w else q % w, if vertical then q % w else q / w,
                               if vertical then h else w;
    line < i || line >= extent - i || ((line == i || line == extent - 1 - i) && along < j)
  }

  /** The buffer part way through a flip: byte `b` of every done pixel is
      byte `b` of its mirror in the original, every other byte is the
      original's. */
  ghost predicate Progress(cur: seq<byte>, orig: seq<byte>, w: nat, h: nat, ps: nat, i: nat, j: nat, vertical: bool)
    requires w >= 1 && |cur| == |orig| == w * h * ps
  {
    forall q, b {:trigger cur[Slot(w, h, ps, q, b)]} :: 0 <= q < w * h && 0 <= b < ps ==>
      cur[Slot(w, h, ps, q, b)]
      == if Done(w, h, i, j, q, vertical) then orig[Slot(w, h, ps, Mirror(w, h, q, vertical), b)]
         else orig[Slot(w, h, ps, q, b)]
  }

  /** Before the first step nothing is done. */
  lemma Start(orig: seq<byte>, w: nat, h: nat, ps: nat, vertical: bool)
    requires w >= 1 && |orig| == w * h * ps
    ensures Progress(orig, orig, w, h, ps, 0, 0, vertical)
  {
    forall q | 0 <= q < w * h ensures !Done(w, h, 0, 0, q, vertical) {
      Arith.RowBound(q, w, h);
    }
  }

  /** The loop bounds of step `(i, j)`. */
  predicate InLoop(w: nat, h: nat, i: nat, j: nat, vertical: bool) {
    if vertical then i < h / 2 && j < w else i < w / 2 && j < h
  }

  /** The two pixels step `(i, j)` swaps. */
  function SwapPair(w: nat, h: nat, i: nat, j: nat, vertical: bool): (r: (nat, nat))
    requires w >= 1 && InLoop(w, h, i, j, vertical)
    ensures r.0 < w * h && r.1 < w * h && r.0 != r.1
  {
    var (x1, y1, x2, y2) := if vertical then (j, i, j, h - 1 - i) else (i, j, w - 1 - i, j);
    PixelInBounds(w, h, 1, x1, y1);
    PixelInBounds(w, h, 1, x2, y2);
    Arith.Coords(x1, y1, w);
    Arith.Coords(x2, y2, w);
    (PixelIndex(w, x1, y1), PixelIndex(w, x2, y2))
  }

  /** The pair of step `(i, j)` are each other's mirrors, neither is done
      before the step and both are after it. */
  lemma PairFacts(w: nat, h: nat, i: nat, j: nat, vertical: bool)
    requires w >= 1 && InLoop(w, h, i, j, vertical)
    ensures var (q1, q2) := SwapPair(w, h, i, j, vertical);
      Mirror(w, h, q1, vertical) == q2 && Mirror(w, h, q2, vertical) == q1
      && !Done(w, h, i, j, q1, vertical) && !Done(w, h, i, j, q2, vertical)
      && Done(w, h, i, j + 1, q1, vertical) && Done(w, h, i, j + 1, q2, vertical)
  {
    var (x1, y1, x2, y2) := if vertical then (j, i, j, h - 1 - i) else (i, j, w - 1 - i, j);
    MirrorCoords(w, h, x1, y1);
    MirrorCoords(w, h, x2, y2);
    Arith.Coords(x1, y1, w);
    Arith.Coords(x2, y2, w);
  }

  /** The offsets the loops compute with `get_pixel_pointer` are the slots
      of the pair. */
  lemma PairOffsets(w: nat, h: nat, ps: nat, i: nat, j: nat, vertical: bool)
    requires w >= 1 && h >= 1 && InLoop(w, h, i, j, vertical)
    ensures var (q1, q2) := SwapPair(w, h, i, j, vertical);
      if vertical then
        PixelOffset(w, h, ps, j, i) == SlotStart(q1, ps) && PixelOffset(w, h, ps, j, h - 1 - i) == SlotStart(q2, ps)
      else
        PixelOffset(w, h, ps, i, j) == SlotStart(q1, ps) && PixelOffset(w, h, ps, w - 1 - i, j) == SlotStart(q2, ps)
  {
  }

  /** Step `(i, j)` changes the done set by its pair only. */
  lemma DoneOther(w: nat, h: nat, i: nat, j: nat, vertical: bool, q: nat)
    requires w >= 1 && InLoop(w, h, i, j, vertical) && q < w * h
    requires q != SwapPair(w, h, i, j, vertical).0 && q != SwapPair(w, h, i, j, vertical).1
    ensures Done(w, h, i, j, q, vertical) == Done(w, h, i, j + 1, q, vertical)
  {
    DoneChange(w, h, i, j, q, vertical);
    IndexOfCoords(w, h, q);
    if vertical {
      assert SwapPair(w, h, i, j, vertical) == (PixelIndex(w, j, i), PixelIndex(w, j, h - 1 - i));
    } else {
      assert SwapPair(w, h, i, j, vertical) == (PixelIndex(w, i, j), PixelIndex(w, w - 1 - i, j));
    }
  }

  /** Step `(i, j)` to `(i, j + 1)` marks done only the pixel at line `i` or
      its mirror line, position `j` along it. */
  lemma DoneChange(w: nat, h: nat, i: nat, j: nat, q: nat, vertical: bool)
    requires w >= 1
    ensures Done(w, h, i, j, q, vertical) != Done(w, h, i, j + 1, q, vertical) ==>
      if vertical then (q / w == i || q / w == h - 1 - i) && q % w == j
      else (q % w == i || q % w == w - 1 - i) && q / w == j
  {
  }

  /** Byte `b` of pixel `q` part way through a flip. */
  lemma ProgressAt(cur: seq<byte>, orig: seq<byte>, w: nat, h: nat, ps: nat, i: nat, j: nat, vertical: bool,
                   q: nat, b: nat)
    requires w >= 1 && |cur| == |orig| == w * h * ps && q < w * h && b < ps
    requires Progress(cur, orig, w, h, ps, i, j, vertical)
    ensures cur[Slot(w, h, ps, q, b)]
         == if Done(w, h, i, j, q, vertical) then orig[Slot(w, h, ps, Mirror(w, h, q, vertical), b)]
            else orig[Slot(w, h, ps, q, b)]
  {
  }

  /** Distinct pixels have disjoint slots. */
  lemma SlotDisjoint(q: nat, p: nat, ps: nat, b: nat)
    requires q != p && b < ps
    ensures !(SlotStart(p, ps) <= SlotStart(q, ps) + b < SlotStart(p, ps) + ps)
  {
    if q < p {
      Arith.SlotInBounds(q, p, ps);
    } else {
      Arith.SlotInBounds(p, q, ps);
    }
  }

  /** The slots of two distinct pixels of a `w * h` image lie inside the
      buffer and do not overlap. */
  predicate SlotPair(len: nat, ps: nat, q1: nat, q2: nat) {
    SlotStart(q1, ps) + ps <= len && SlotStart(q2, ps) + ps <= len
    && (SlotStart(q1, ps) + ps <= SlotStart(q2, ps) || SlotStart(q2, ps) + ps <= SlotStart(q1, ps))
  }

  lemma SlotPairOf(w: nat, h: nat, ps: nat, q1: nat, q2: nat)
    requires q1 < w * h && q2 < w * h && q1 != q2
    ensures SlotPair(w * h * ps, ps, q1, q2)
  {
    Arith.SlotInBounds(q1, w * h, ps);
    Arith.SlotInBounds(q2, w * h, ps);
    if q1 < q2 {
      Arith.SlotInBounds(q1, q2, ps);
    } else {
      Arith.SlotInBounds(q2, q1, ps);
    }
  }

  /** Byte `b` of the first pixel of a swapped pair holds the second's. */
  lemma StepAtFirst(cur: seq<byte>, w: nat, h: nat, ps: nat, b: nat, q1: nat, q2: nat)
    requires |cur| == w * h * ps && b < ps && q1 < w * h && q2 < w * h
    requires SlotPair(|cur|, ps, q1, q2)
    ensures Swapped(cur, SlotStart(q1, ps), SlotStart(q2, ps), ps)[Slot(w, h, ps, q1, b)] == cur[Slot(w, h, ps, q2, b)]
  {
    SwappedFirst(cur, SlotStart(q1, ps), SlotStart(q2, ps), ps, b);
  }

  /** Byte `b` of the second pixel of a swapped pair holds the first's. */
  lemma StepAtSecond(cur: seq<byte>, w: nat, h: nat, ps: nat, b: nat, q1: nat, q2: nat)
    requires |cur| == w * h * ps && b < ps && q1 < w * h && q2 < w * h
    requires SlotPair(|cur|, ps, q1, q2)
    ensures Swapped(cur, SlotStart(q1, ps), SlotStart(q2, ps), ps)[Slot(w, h, ps, q2, b)] == cur[Slot(w, h, ps, q1, b)]
  {
    SwappedSecond(cur, SlotStart(q1, ps), SlotStart(q2, ps), ps, b);
  }

  /** A byte outside the swapped pair keeps its value. */
  lemma StepAtOther(cur: seq<byte>, w: nat, h: nat, ps: nat, q: nat, b: nat, q1: nat, q2: nat)
    requires |cur| == w * h * ps && q < w * h && b < ps && q != q1 && q != q2
    requires SlotPair(|cur|, ps, q1, q2)
    ensures Swapped(cur, SlotStart(q1, ps), SlotStart(q2, ps), ps)[Slot(w, h, ps, q, b)] == cur[Slot(w, h, ps, q, b)]
  {
    SlotDisjoint(q, q1, ps, b);
    SlotDisjoint(q, q2, ps, b);
    SwappedAt(cur, SlotStart(q1, ps), SlotStart(q2, ps), ps, Slot(w, h, ps, q, b));
  }

  /** Step `(i, j)` of a flip: swapping the pair extends the done set by it. */
  lemma Step(cur: seq<byte>, orig: seq<byte>, w: nat, h: nat, ps: nat, i: nat, j: nat, vertical: bool)
    requires w >= 1 && |cur| == |orig| == w * h * ps
    requires InLoop(w, h, i, j, vertical)
    requires Progress(cur, orig, w, h, ps, i, j, vertical)
    ensures var (q1, q2) := SwapPair(w, h, i, j, vertical);
      SlotPair(|cur|, ps, q1, q2)
      && Progress(Swapped(cur, SlotStart(q1, ps), SlotStart(q2, ps), ps), orig, w, h, ps, i, j + 1, vertical)
  {
    var (q1, q2) := SwapPair(w, h, i, j, vertical);
    SlotPairOf(w, h, ps, q1, q2);
    PairFacts(w, h, i, j, vertical);
    var next := Swapped(cur, SlotStart(q1, ps), SlotStart(q2, ps), ps);
    forall q, b | 0 <= q < w * h && 0 <= b < ps
      ensures next[Slot(w, h, ps, q, b)]
           == if Done(w, h, i, j + 1, q, vertical) then orig[Slot(w, h, ps, Mirror(w, h, q, vertical), b)]
              else orig[Slot(w, h, ps, q, b)]
    {
      if q == q1 {
        StepAtFirst(cur, w, h, ps, b, q1, q2);
        ProgressAt(cur, orig, w, h, ps, i, j, vertical, q2, b);
      } else if q == q2 {
        StepAtSecond(cur, w, h, ps, b, q1, q2);
        ProgressAt(cur, orig, w, h, ps, i, j, vertical, q1, b);
      } else {
        DoneOther(w, h, i, j, vertical, q);
        StepAtOther(cur, w, h, ps, q, b, q1, q2);
        ProgressAt(cur, orig, w, h, ps, i, j, vertical, q, b);
      }
    }
  }

  /** A line whose every pixel is swapped leaves the done set of the next
      line unchanged. */
  lemma DoneNextLine(w: nat, h: nat, i: nat, q: nat, vertical: bool)
    requires w >= 1 && q < w * h
    ensures Done(w, h, i, if vertical then w else h, q, vertical) == Done(w, h, i + 1, 0, q, vertical)
  {
    Arith.RowBound(q, w, h);
  }

  /** Finishing the inner loop: the whole pair of lines `i` is done. */
  lemma NextLine(cur: seq<byte>, orig: seq<byte>, w: nat, h: nat, ps: nat, i: nat, vertical: bool)
    requires w >= 1 && |cur| == |orig| == w * h * ps
    requires Progress(cur, orig, w, h, ps, i, if vertical then w else h, vertical)
    ensures Progress(cur, orig, w, h, ps, i + 1, 0, vertical)
  {
    forall q {:trigger Mirror(w, h, q, vertical)} | 0 <= q < w * h
      ensures Done(w, h, i, if vertical then w else h, q, vertical) == Done(w, h, i + 1, 0, q, vertical)
    {
      DoneNextLine(w, h, i, q, vertical);
    }
  }

  /** A pixel not done after the last pair of lines is in the middle line of
      an odd extent, and is its own mirror. */
  lemma DoneFinal(w: nat, h: nat, q: nat, vertical: bool)
    requires w >= 1 && q < w * h
    requires !Done(w, h, if vertical then h / 2 else w / 2, 0, q, vertical)
    ensures Mirror(w, h, q, vertical) == q
  {
    var x, y := q % w, q / w;
    IndexOfCoords(w, h, q);
    MirrorCoords(w, h, x, y);
    if vertical {
      assert h - 1 - y == y;
    } else {
      assert w - 1 - x == x;
    }
  }


  /** After the last pair of lines every pixel holds its mirror. */
  lemma Finished(cur: seq<byte>, orig: seq<byte>, w: nat, h: nat, ps: nat, vertical: bool)
    requires w >= 1 && ps >= 1 && |cur| == |orig| == w * h * ps
    requires Progress(cur, orig, w, h, ps, if vertical then h / 2 else w / 2, 0, vertical)
    ensures cur == if vertical then FlippedV(orig, w, h, ps) else FlippedH(orig, w, h, ps)
  {
    var flipped := if vertical then FlippedV(orig, w, h, ps) else FlippedH(orig, w, h, ps);
    forall k | 0 <= k < |cur| ensures cur[k] == flipped[k] {
      FinishedAt(cur, orig, w, h, ps, vertical, k);
    }
  }

  /** Byte `k` of a finished flip is the byte the flip puts there. */
  lemma FinishedAt(cur: seq<byte>, orig: seq<byte>, w: nat, h: nat, ps: nat, vertical: bool, k: nat)
    requires w >= 1 && ps >= 1 && |cur| == |orig| == w * h * ps && k < |cur|
    requires Progress(cur, orig, w, h, ps, if vertical then h / 2 else w / 2, 0, vertical)
    ensures cur[k] == (if vertical then FlippedV(orig, w, h, ps) else FlippedH(orig, w, h, ps))[k]
  {
    Arith.RowBound(k, ps, w * h);
    var q, b := k / ps, k % ps;
    assert k == Slot(w, h, ps, q, b);
    assert SourceByte(w, h, ps, k, vertical) == Slot(w, h, ps, Mirror(w, h, q, vertical), b);
    ProgressAt(cur, orig, w, h, ps, if vertical then h / 2 else w / 2, 0, vertical, q, b);
    if !Done(w, h, if vertical then h / 2 else w / 2, 0, q, vertical) {
      DoneFinal(w, h, q, vertical);
    }
  }

  /** `tga_image_flip_h` / `Image::flip_h` on a `w * h * ps` buffer. */
  method FlipHInPlace(a: array<byte>, w: nat, h: nat, ps: nat)
    requires w >= 1 && h >= 1 && ps >= 1 && a.Length == w * h * ps
    modifies a
    ensures a[..] == FlippedH(old(a[..]), w, h, ps)
  {
    ghost var orig := a[..];
    Start(orig, w, h, ps, false);
    var flipNum := w / 2;
    var i := 0;
    while i < flipNum
      invariant 0 <= i <= flipNum
      invariant Progress(a[..], orig, w, h, ps, i, 0, false)
    {
      var j := 0;
      while j < h
        invariant 0 <= j <= h
        invariant Progress(a[..], orig, w, h, ps, i, j, false)
      {
        var p1 := PixelOffset(w, h, ps, i, j);
        var p2 := PixelOffset(w, h, ps, w - 1 - i, j);
        PairOffsets(w, h, ps, i, j, false);
        Step(a[..], orig, w, h, ps, i, j, false);
        SwapSlots(a, p1, p2, ps);
        j := j + 1;
      }
      NextLine(a[..], orig, w, h, ps, i, false);
      i := i + 1;
    }
    Finished(a[..], orig, w, h, ps, false);
  }

  /** `tga_image_flip_v` / `Image::flip_v` on a `w * h * ps` buffer. */
  method FlipVInPlace(a: array<byte>, w: nat, h: nat, ps: nat)
    requires w >= 1 && h >= 1 && ps >= 1 && a.Length == w * h * ps
    modifies a
    ensures a[..] == FlippedV(old(a[..]), w, h, ps)
  {
    ghost var orig := a[..];
    Start(orig, w, h, ps, true);
    var flipNum := h / 2;
    var i := 0;
    while i < flipNum
      invariant 0 <= i <= flipNum
      invariant Progress(a[..], orig, w, h, ps, i, 0, true)
    {
      var j := 0;
      while j < w
        invariant 0 <= j <= w
        invariant Progress(a[..], orig, w, h, ps, i, j, true)
      {
        var p1 := PixelOffset(w, h, ps, j, i);
        var p2 := PixelOffset(w, h, ps, j, h - 1 - i);
        PairOffsets(w, h, ps, i, j, true);
        Step(a[..], orig, w, h, ps, i, j, true);
        SwapSlots(a, p1, p2, ps);
        j := j + 1;
      }
      NextLine(a[..], orig, w, h, ps, i, true);
      i := i + 1;
    }
    Finished(a[..], orig, w, h, ps, true);
  }
}
