/**
 * What the image-data decoders (field 8 of the TGA 2.0 file format)
 * compute, as functions of the input stream: one pixel read and resolved
 * through the colour map, a raw block of pixels, and run-length packets
 * whose repeat count carries over from pixel to pixel. ExpandRle is an
 * independent, packet-level reading of the same RLE stream, and
 * RleIsRawOfExpanded proves that RLE decoding equals raw decoding of the
 * expanded pixel stream.
 */
module TgaDecodeSpec {
  import opened Wrappers
  import opened TgaFormat
  import opened TgaColorMap
  import Arith

  /** Why a decode stopped: a short read or a colour-map index with no entry. */
  datatype DecodeFailure = ReadFail | IndexFail

  /** Decoded bytes and the cursor after them, or the failure. */
  type Step = Result<(seq<byte>, nat), DecodeFailure>

  /** A decoding context: each stored pixel is `unitBytes` wide, and `cmap`
      is the colour map when the image is colour-mapped. */
  predicate Ctx(unitBytes: nat, cmap: Option<ColorMap>) {
    unitBytes >= 1 && (cmap.Some? ==> Valid(cmap.value))
  }

  /** Width of a decoded pixel: a map entry, or the stored pixel itself. */
  function OutWidth(unitBytes: nat, cmap: Option<ColorMap>): nat {
    if cmap.Some? then cmap.value.bytesPerEntry else unitBytes
  }

  /** The pixel a stored unit stands for: itself, or the map entry its first
      byte indexes. */
  function ResolveUnit(unit: seq<byte>, cmap: Option<ColorMap>): (r: Result<seq<byte>, DecodeFailure>)
    requires |unit| >= 1 && (cmap.Some? ==> Valid(cmap.value))
    ensures r.Success? ==> |r.value| == OutWidth(|unit|, cmap)
    ensures r.Failure? ==> r.error == IndexFail && cmap.Some?
    ensures cmap.None? ==> r == Success(unit)
  {
    match cmap
    case None => Success(unit)
    case Some(m) =>
      match Lookup(m, MapIndex(unit))
      case None => Failure(IndexFail)
      case Some(e) => Success(e)
  }

  /** Reads one pixel of `unitBytes` bytes at `pos` and resolves it. */
  function ReadPixel(src: seq<byte>, pos: nat, unitBytes: nat, cmap: Option<ColorMap>): (r: Step)
    requires Ctx(unitBytes, cmap)
    ensures r.Success? ==> r.value.1 == pos + unitBytes <= |src| && |r.value.0| == OutWidth(unitBytes, cmap)
    ensures r == Failure(ReadFail) <==> pos + unitBytes > |src|
  {
    if pos + unitBytes > |src| then Failure(ReadFail)
    else
      match ResolveUnit(src[pos .. pos + unitBytes], cmap)
      case Failure(e) => Failure(e)
      case Success(px) => Success((px, pos + unitBytes))
  }

  /** `px` followed by whatever `r` decodes. */
  function Prepend(px: seq<byte>, r: Step): Step {
    match r
    case Success((rest, p)) => Success((px + rest, p))
    case Failure(e) => Failure(e)
  }

  lemma PrependAssoc(a: seq<byte>, b: seq<byte>, r: Step)
    ensures Prepend(a, Prepend(b, r)) == Prepend(a + b, r)
  {
    if r.Success? {
      assert a + (b + r.value.0) == (a + b) + r.value.0;
    }
  }

  /** `m` copies of `px`, one after the other. */
  function Repeat(px: seq<byte>, m: nat): (r: seq<byte>)
    ensures |r| == m * |px|
  {
    if m == 0 then [] else px + Repeat(px, m - 1)
  }

  /** Raw decoding of `n` pixels, one read and one lookup after another; the
      first failure stops it. */
  function DecodePixels(src: seq<byte>, pos: nat, n: nat, unitBytes: nat, cmap: Option<ColorMap>): (r: Step)
    requires Ctx(unitBytes, cmap)
    ensures r.Success? ==> r.value.1 == pos + n * unitBytes
    ensures r.Success? ==> |r.value.0| == n * OutWidth(unitBytes, cmap)
    ensures n > 0 ==> (r.Success? ==> pos + n * unitBytes <= |src|)
    decreases n
  {
    if n == 0 then Success(([], pos))
    else
      match ReadPixel(src, pos, unitBytes, cmap)
      case Failure(e) => Failure(e)
      case Success((px, p)) => Prepend(px, DecodePixels(src, p, n - 1, unitBytes, cmap))
  }

  /** `decode_data`: a colour-mapped image decodes pixel by pixel; any other
      image is one bulk read of `n * pixelSize` bytes. */
  function RawDecode(src: seq<byte>, pos: nat, n: nat, pixelSize: nat, unitBytes: nat, cmap: Option<ColorMap>): (r: Step)
    requires Ctx(unitBytes, cmap)
    ensures r.Success? ==> pos <= r.value.1
    ensures cmap.None? ==> (r.Failure? ==> r.error == ReadFail) && (r.Success? ==> r.value.1 <= |src| && r.value.0 == src[pos .. r.value.1])
  {
    if cmap.Some? then DecodePixels(src, pos, n, unitBytes, cmap)
    else if pos + n * pixelSize > |src| then Failure(ReadFail)
    else Success((src[pos .. pos + n * pixelSize], pos + n * pixelSize))
  }

  /** The bulk read of a non-mapped image is the same as reading its pixels
      one at a time. */
  lemma {:induction false} BulkReadIsPerPixel(src: seq<byte>, pos: nat, n: nat, pixelSize: nat)
    requires pixelSize >= 1 && pos <= |src|
    ensures RawDecode(src, pos, n, pixelSize, pixelSize, None) == DecodePixels(src, pos, n, pixelSize, None)
    decreases n
  {
    if n > 0 {
      var rest := (n - 1) * pixelSize;
      assert n * pixelSize == pixelSize + rest && rest >= 0;
      if pos + pixelSize <= |src| {
        var px := src[pos .. pos + pixelSize];
        assert ReadPixel(src, pos, pixelSize, None) == Success((px, pos + pixelSize));
        BulkReadIsPerPixel(src, pos + pixelSize, n - 1, pixelSize);
        var tail := DecodePixels(src, pos + pixelSize, n - 1, pixelSize, None);
        assert DecodePixels(src, pos, n, pixelSize, None) == Prepend(px, tail);
        if pos + n * pixelSize <= |src| {
          assert src[pos .. pos + n * pixelSize] == px + src[pos + pixelSize .. pos + pixelSize + rest];
          assert tail == Success((src[pos + pixelSize .. pos + pixelSize + rest], pos + pixelSize + rest));
        } else {
          assert tail == Failure(ReadFail);
        }
      } else {
        assert RawDecode(src, pos, n, pixelSize, pixelSize, None) == Failure(ReadFail);
      }
    } else {
      assert src[pos .. pos] == [];
    }
  }

  /** Whether a packet header byte marks a run-length packet (`b & 0x80`). */
  predicate IsRunPacket(b: byte) { b >= 0x80 }

  /** The pixel count of a packet, `(b & 0x7F) + 1`. */
  function PacketCount(b: byte): (c: nat)
    ensures 1 <= c <= 128
  {
    b % 0x80 + 1
  }

  /** `decode_data_rle` from a loop state: `n` pixels still to go, `pending`
      pixels left in the current packet and, for a run-length packet, its
      resolved pixel (`run`; None for a raw packet). A new packet header is
      read whenever `pending` is 0. */
  function RleFrom(src: seq<byte>, pos: nat, n: nat, pending: nat, run: Option<seq<byte>>,
                   unitBytes: nat, cmap: Option<ColorMap>): (r: Step)
    requires Ctx(unitBytes, cmap)
    decreases n, if pending == 0 then 1 else 0
  {
    if n == 0 then Success(([], pos))
    else if pending == 0 then
      if pos >= |src| then Failure(ReadFail)
      else
        var b := src[pos];
        if IsRunPacket(b) then
          match ReadPixel(src, pos + 1, unitBytes, cmap)
          case Failure(e) => Failure(e)
          case Success((px, p)) => RleFrom(src, p, n, PacketCount(b), Some(px), unitBytes, cmap)
        else RleFrom(src, pos + 1, n, PacketCount(b), None, unitBytes, cmap)
    else if run.Some? then
      Prepend(run.value, RleFrom(src, pos, n - 1, pending - 1, run, unitBytes, cmap))
    else
      match ReadPixel(src, pos, unitBytes, cmap)
      case Failure(e) => Failure(e)
      case Success((px, p)) => Prepend(px, RleFrom(src, p, n - 1, pending - 1, run, unitBytes, cmap))
  }

  /** RLE decoding of `n` pixels from `pos`, starting between packets. */
  function RleDecode(src: seq<byte>, pos: nat, n: nat, unitBytes: nat, cmap: Option<ColorMap>): (r: Step)
    requires Ctx(unitBytes, cmap)
    ensures r.Success? ==> |r.value.0| == n * OutWidth(unitBytes, cmap) && pos <= r.value.1
  {
    RleFromSize(src, pos, n, 0, None, unitBytes, cmap);
    RleFrom(src, pos, n, 0, None, unitBytes, cmap)
  }

  /** From any loop state whose run pixel has the decoded width, the RLE
      decode yields exactly `n` pixels and never moves the cursor back. */
  lemma {:induction false} RleFromSize(src: seq<byte>, pos: nat, n: nat, pending: nat, run: Option<seq<byte>>,
                                       unitBytes: nat, cmap: Option<ColorMap>)
    requires Ctx(unitBytes, cmap) && (run.Some? ==> |run.value| == OutWidth(unitBytes, cmap))
    ensures var r := RleFrom(src, pos, n, pending, run, unitBytes, cmap);
      r.Success? ==> |r.value.0| == n * OutWidth(unitBytes, cmap) && pos <= r.value.1
    decreases n, if pending == 0 then 1 else 0
  {
    var w := OutWidth(unitBytes, cmap);
    if n > 0 {
      if pending == 0 {
        if pos < |src| {
          var b := src[pos];
          if IsRunPacket(b) {
            var first := ReadPixel(src, pos + 1, unitBytes, cmap);
            if first.Success? {
              RleFromSize(src, first.value.1, n, PacketCount(b), Some(first.value.0), unitBytes, cmap);
            }
          } else {
            RleFromSize(src, pos + 1, n, PacketCount(b), None, unitBytes, cmap);
          }
        }
      } else {
        Arith.MulSucc(n, w);
        if run.Some? {
          RleFromSize(src, pos, n - 1, pending - 1, run, unitBytes, cmap);
        } else {
          var first := ReadPixel(src, pos, unitBytes, cmap);
          if first.Success? {
            RleFromSize(src, first.value.1, n - 1, pending - 1, run, unitBytes, cmap);
          }
        }
      }
    }
  }

  function Min(a: nat, b: nat): nat { if a <= b then a else b }

  /** The number of bytes `m` stored pixels of `u` bytes each occupy. */
  function Span(m: nat, u: nat): nat { m * u }

  lemma SpanSplit(m: nat, n: nat, u: nat)
    requires m <= n
    ensures Span(m, u) + (n - m) * u == n * u
  {
  }

  lemma SpanSucc(m: nat, u: nat)
    requires m > 0
    ensures Span(m, u) == u + Span(m - 1, u)
  {
    Arith.MulSucc(m, u);
  }

  /** The stored (unresolved) pixel stream that the RLE packets from `pos`
      stand for: a run packet contributes its one stored pixel `count`
      times, a raw packet its `count` stored pixels; the last packet is cut
      off at `n` pixels. Only short reads can make it fail. */
  function ExpandRle(src: seq<byte>, pos: nat, n: nat, unitBytes: nat): (r: Step)
    requires unitBytes >= 1
    ensures r.Success? ==> |r.value.0| == n * unitBytes
    ensures r.Failure? ==> r.error == ReadFail
    decreases n
  {
    if n == 0 then Success(([], pos))
    else if pos >= |src| then Failure(ReadFail)
    else
      var b := src[pos];
      var m := Min(PacketCount(b), n);
      var stored := if IsRunPacket(b) then unitBytes else Span(m, unitBytes);
      if pos + 1 + stored > |src| then Failure(ReadFail)
      else
        var units := if IsRunPacket(b) then Repeat(src[pos + 1 .. pos + 1 + unitBytes], m)
                     else src[pos + 1 .. pos + 1 + stored];
        SpanSplit(m, n, unitBytes);
        Prepend(units, ExpandRle(src, pos + 1 + stored, n - m, unitBytes))
  }

  /** The decoded bytes of a step, without the cursor. */
  function Px(r: Step): Result<seq<byte>, DecodeFailure> {
    match r
    case Success((px, _)) => Success(px)
    case Failure(e) => Failure(e)
  }

  /** `r` with its cursor replaced by `p`. */
  function At(r: Step, p: nat): Step {
    match r
    case Success((px, _)) => Success((px, p))
    case Failure(e) => Failure(e)
  }

  /** `r` with its cursor moved on by `d`. */
  function Shift(r: Step, d: nat): Step {
    match r
    case Success((px, p)) => Success((px, p + d))
    case Failure(e) => Failure(e)
  }

  /** Raw decoding of `n` more pixels after the step `r`. */
  function DecodeAfter(src: seq<byte>, r: Step, n: nat, unitBytes: nat, cmap: Option<ColorMap>): Step
    requires Ctx(unitBytes, cmap)
  {
    match r
    case Failure(e) => Failure(e)
    case Success((px, p)) => Prepend(px, DecodePixels(src, p, n, unitBytes, cmap))
  }

  /** RLE decoding of `n` more pixels, from a packet boundary, after the step `r`. */
  function RleAfter(src: seq<byte>, r: Step, n: nat, unitBytes: nat, cmap: Option<ColorMap>): Step
    requires Ctx(unitBytes, cmap)
  {
    match r
    case Failure(e) => Failure(e)
    case Success((px, p)) => Prepend(px, RleDecode(src, p, n, unitBytes, cmap))
  }

  lemma PrependNil(r: Step)
    ensures Prepend([], r) == r
  {
    if r.Success? {
      assert [] + r.value.0 == r.value.0;
    }
  }

  lemma DecodeAfterPrepend(src: seq<byte>, px: seq<byte>, r: Step, n: nat, unitBytes: nat, cmap: Option<ColorMap>)
    requires Ctx(unitBytes, cmap)
    ensures DecodeAfter(src, Prepend(px, r), n, unitBytes, cmap) == Prepend(px, DecodeAfter(src, r, n, unitBytes, cmap))
  {
    if r.Success? {
      PrependAssoc(px, r.value.0, DecodePixels(src, r.value.1, n, unitBytes, cmap));
    }
  }

  lemma RleAfterPrepend(src: seq<byte>, px: seq<byte>, r: Step, n: nat, unitBytes: nat, cmap: Option<ColorMap>)
    requires Ctx(unitBytes, cmap)
    ensures RleAfter(src, Prepend(px, r), n, unitBytes, cmap) == Prepend(px, RleAfter(src, r, n, unitBytes, cmap))
  {
    if r.Success? {
      PrependAssoc(px, r.value.0, RleDecode(src, r.value.1, n, unitBytes, cmap));
    }
  }

  /** Decoding `n1 + n2` pixels is decoding `n1` and then `n2` more. */
  lemma {:induction false} DecodeSplit(src: seq<byte>, pos: nat, n1: nat, n2: nat, unitBytes: nat, cmap: Option<ColorMap>)
    requires Ctx(unitBytes, cmap)
    ensures DecodePixels(src, pos, n1 + n2, unitBytes, cmap)
         == DecodeAfter(src, DecodePixels(src, pos, n1, unitBytes, cmap), n2, unitBytes, cmap)
    decreases n1
  {
    if n1 == 0 {
      PrependNil(DecodePixels(src, pos, n2, unitBytes, cmap));
    } else {
      var first := ReadPixel(src, pos, unitBytes, cmap);
      if first.Success? {
        var (px, p) := first.value;
        DecodeSplit(src, p, n1 - 1, n2, unitBytes, cmap);
        DecodeAfterPrepend(src, px, DecodePixels(src, p, n1 - 1, unitBytes, cmap), n2, unitBytes, cmap);
      }
    }
  }

  /** Decoding depends only on the bytes after the cursor: a prefix `a` only
      moves the cursor. */
  lemma {:induction false} DecodeShift(a: seq<byte>, b: seq<byte>, q: nat, start: nat, k: nat,
                                       unitBytes: nat, cmap: Option<ColorMap>)
    requires Ctx(unitBytes, cmap) && start == |a| + q
    ensures DecodePixels(a + b, start, k, unitBytes, cmap) == Shift(DecodePixels(b, q, k, unitBytes, cmap), |a|)
    decreases k
  {
    if k > 0 {
      ReadPixelShift(a, b, q, unitBytes, cmap);
      var first := ReadPixel(b, q, unitBytes, cmap);
      if first.Success? {
        var (px, p) := first.value;
        var next := |a| + p;
        assert ReadPixel(a + b, start, unitBytes, cmap) == Success((px, next));
        var rest := DecodePixels(b, p, k - 1, unitBytes, cmap);
        assert DecodePixels(b, q, k, unitBytes, cmap) == Prepend(px, rest);
        assert DecodePixels(a + b, start, k, unitBytes, cmap) == Prepend(px, DecodePixels(a + b, next, k - 1, unitBytes, cmap));
        DecodeShift(a, b, p, next, k - 1, unitBytes, cmap);
        ShiftPrepend(px, rest, |a|);
      }
    }
  }

  /** A pixel read after a prefix `a` reads the same bytes. */
  lemma ReadPixelShift(a: seq<byte>, b: seq<byte>, q: nat, unitBytes: nat, cmap: Option<ColorMap>)
    requires Ctx(unitBytes, cmap)
    ensures ReadPixel(a + b, |a| + q, unitBytes, cmap) == Shift(ReadPixel(b, q, unitBytes, cmap), |a|)
  {
    if q + unitBytes <= |b| {
      assert (a + b)[|a| + q .. |a| + q + unitBytes] == b[q .. q + unitBytes];
    }
  }

  lemma ShiftPrepend(px: seq<byte>, r: Step, d: nat)
    ensures Shift(Prepend(px, r), d) == Prepend(px, Shift(r, d))
  {
  }


  /** Decoding depends only on the bytes it reads: reads that stay within `a`
      do not see what follows it. */
  lemma {:induction false} DecodeLocal(a: seq<byte>, b: seq<byte>, c: seq<byte>, q: nat, k: nat,
                                       unitBytes: nat, cmap: Option<ColorMap>)
    requires Ctx(unitBytes, cmap) && q + k * unitBytes <= |a|
    ensures DecodePixels(a + b, q, k, unitBytes, cmap) == DecodePixels(a + c, q, k, unitBytes, cmap)
    decreases k
  {
    if k > 0 {
      Arith.MulSucc(k, unitBytes);
      assert (a + b)[q .. q + unitBytes] == a[q .. q + unitBytes];
      assert (a + c)[q .. q + unitBytes] == a[q .. q + unitBytes];
      DecodeLocal(a, b, c, q + unitBytes, k - 1, unitBytes, cmap);
    }
  }

  /** `m` copies of a stored unit that resolves to `px` decode to `m` copies
      of `px`, whatever follows them. */
  lemma {:induction false} RepeatDecode(unit: seq<byte>, px: seq<byte>, m: nat, rest: seq<byte>,
                                        unitBytes: nat, cmap: Option<ColorMap>)
    requires Ctx(unitBytes, cmap) && |unit| == unitBytes && ResolveUnit(unit, cmap) == Success(px)
    ensures DecodePixels(Repeat(unit, m) + rest, 0, m, unitBytes, cmap) == Success((Repeat(px, m), Span(m, unitBytes)))
    decreases m
  {
    if m > 0 {
      var tail := Repeat(unit, m - 1) + rest;
      RepeatDecode(unit, px, m - 1, rest, unitBytes, cmap);
      DecodeUnitThen(unit, tail, px, Repeat(px, m - 1), Span(m - 1, unitBytes), m, cmap);
      RepeatAppend(unit, m, rest);
      SpanSucc(m, unitBytes);
    }
  }

  /** `m > 0` copies of `unit` before `rest` are `unit`, then the other
      copies before `rest`. */
  lemma RepeatAppend(unit: seq<byte>, m: nat, rest: seq<byte>)
    requires m > 0
    ensures Repeat(unit, m) + rest == unit + (Repeat(unit, m - 1) + rest)
  {
    var r := Repeat(unit, m - 1);
    assert Repeat(unit, m) == unit + r;
    assert (unit + r) + rest == unit + (r + rest);
  }

  /** A stored unit that resolves to `px` in front of `tail`: decoding `m`
      pixels gives `px` and then the `m - 1` pixels `tail` decodes to. */
  lemma DecodeUnitThen(unit: seq<byte>, tail: seq<byte>, px: seq<byte>, pxs: seq<byte>, q: nat, m: nat,
                       cmap: Option<ColorMap>)
    requires Ctx(|unit|, cmap) && ResolveUnit(unit, cmap) == Success(px) && m > 0
    requires DecodePixels(tail, 0, m - 1, |unit|, cmap) == Success((pxs, q))
    ensures DecodePixels(unit + tail, 0, m, |unit|, cmap) == Success((px + pxs, q + |unit|))
  {
    var u := |unit|;
    ReadFirstUnit(unit, tail, px, cmap);
    DecodeFirst(unit + tail, 0, m, px, u, u, cmap);
    DecodeShift(unit, tail, 0, |unit|, m - 1, u, cmap);
  }

  /** Decoding `n > 0` pixels is the first pixel, then the rest. */
  lemma DecodeFirst(src: seq<byte>, pos: nat, n: nat, px: seq<byte>, p: nat, unitBytes: nat, cmap: Option<ColorMap>)
    requires Ctx(unitBytes, cmap) && n > 0 && ReadPixel(src, pos, unitBytes, cmap) == Success((px, p))
    ensures DecodePixels(src, pos, n, unitBytes, cmap) == Prepend(px, DecodePixels(src, p, n - 1, unitBytes, cmap))
  {
  }

  /** The first pixel of `unit + tail` is the one `unit` resolves to. */
  lemma ReadFirstUnit(unit: seq<byte>, tail: seq<byte>, px: seq<byte>, cmap: Option<ColorMap>)
    requires Ctx(|unit|, cmap) && ResolveUnit(unit, cmap) == Success(px)
    ensures ReadPixel(unit + tail, 0, |unit|, cmap) == Success((px, |unit|))
  {
    assert (unit + tail)[0 .. |unit|] == unit;
  }

  /** Between packets the decoder state carries nothing over. */
  lemma RleRestart(src: seq<byte>, pos: nat, n: nat, run: Option<seq<byte>>, unitBytes: nat, cmap: Option<ColorMap>)
    requires Ctx(unitBytes, cmap)
    ensures RleFrom(src, pos, n, 0, run, unitBytes, cmap) == RleDecode(src, pos, n, unitBytes, cmap)
  {
  }

  /** The rest of a run-length packet with `k` pixels left: `min(k, n)`
      copies of its pixel, then decoding resumes at the next packet. */
  lemma {:induction false} RunTail(src: seq<byte>, pos: nat, n: nat, k: nat, px: seq<byte>,
                                   unitBytes: nat, cmap: Option<ColorMap>)
    requires Ctx(unitBytes, cmap) && k >= 1
    ensures RleFrom(src, pos, n, k, Some(px), unitBytes, cmap)
         == Prepend(Repeat(px, Min(k, n)), RleDecode(src, pos, n - Min(k, n), unitBytes, cmap))
    decreases n
  {
    if n == 0 {
      assert Repeat(px, 0) + [] == [];
    } else if k == 1 {
      RleRestart(src, pos, n - 1, Some(px), unitBytes, cmap);
      assert Repeat(px, 1) == px;
    } else {
      RunTail(src, pos, n - 1, k - 1, px, unitBytes, cmap);
      PrependAssoc(px, Repeat(px, Min(k - 1, n - 1)), RleDecode(src, pos, n - Min(k, n), unitBytes, cmap));
    }
  }

  /** The rest of a raw packet with `k` pixels left: `min(k, n)` pixels
      decoded as raw data, then decoding resumes at the next packet. */
  lemma {:induction false} RawTail(src: seq<byte>, pos: nat, n: nat, k: nat, unitBytes: nat, cmap: Option<ColorMap>)
    requires Ctx(unitBytes, cmap) && k >= 1
    ensures RleFrom(src, pos, n, k, None, unitBytes, cmap)
         == RleAfter(src, DecodePixels(src, pos, Min(k, n), unitBytes, cmap), n - Min(k, n), unitBytes, cmap)
    decreases n
  {
    if n == 0 {
      PrependNil(RleDecode(src, pos, 0, unitBytes, cmap));
    } else {
      var first := ReadPixel(src, pos, unitBytes, cmap);
      if first.Success? {
        var (px, p) := first.value;
        if k == 1 {
          RleRestart(src, p, n - 1, None, unitBytes, cmap);
          assert px + [] == px;
        } else {
          RawTail(src, p, n - 1, k - 1, unitBytes, cmap);
          RleAfterPrepend(src, px, DecodePixels(src, p, Min(k - 1, n - 1), unitBytes, cmap), n - Min(k, n), unitBytes, cmap);
        }
      }
    }
  }

  lemma AtPrependShift(px: seq<byte>, r: Step, d: nat, p: nat)
    ensures At(Prepend(px, Shift(r, d)), p) == Prepend(px, At(r, p))
  {
  }

  /** The RLE decoding `d` of `n` pixels agrees with the expansion `e`:
      both fail, or `d` is the raw decoding of the expanded stream, ending
      where the expansion ends. */
  predicate Agree(e: Step, d: Step, n: nat, unitBytes: nat, cmap: Option<ColorMap>)
    requires Ctx(unitBytes, cmap)
  {
    match e
    case Failure(_) => d.Failure?
    case Success((units, p)) => d == At(DecodePixels(units, 0, n, unitBytes, cmap), p)
  }

  /** `m` copies of the pixel `unit` resolves to, followed by what `d`
      decodes; fails when `unit` does not resolve. */
  function RunThen(unit: seq<byte>, m: nat, d: Step, cmap: Option<ColorMap>): Step
    requires |unit| >= 1 && (cmap.Some? ==> Valid(cmap.value))
  {
    match ResolveUnit(unit, cmap)
    case Failure(e) => Failure(e)
    case Success(px) => Prepend(Repeat(px, m), d)
  }

  /** A run-length packet header is followed by the one stored pixel of the
      packet, resolved once; RLE decoding then yields `min(count, n)` copies
      of it before the next packet. */
  lemma RunPacketDecode(src: seq<byte>, pos: nat, n: nat, m: nat, next: nat, unit: seq<byte>,
                        unitBytes: nat, cmap: Option<ColorMap>)
    requires Ctx(unitBytes, cmap) && n > 0 && pos < |src| && IsRunPacket(src[pos])
    requires m == Min(PacketCount(src[pos]), n)
    requires next == pos + 1 + unitBytes <= |src| && unit == src[pos + 1 .. next]
    ensures RleDecode(src, pos, n, unitBytes, cmap) == RunThen(unit, m, RleDecode(src, next, n - m, unitBytes, cmap), cmap)
  {
    var first := ResolveUnit(src[pos + 1 .. pos + 1 + unitBytes], cmap);
    assert RleDecode(src, pos, n, unitBytes, cmap)
        == match first
           case Failure(e) => Failure(e)
           case Success(px) => RleFrom(src, pos + 1 + unitBytes, n, PacketCount(src[pos]), Some(px), unitBytes, cmap);
    if first.Success? {
      RunTail(src, pos + 1 + unitBytes, n, PacketCount(src[pos]), first.value, unitBytes, cmap);
    }
  }

  /** A run-length packet expands to `min(count, n)` copies of its stored pixel. */
  lemma RunPacketExpand(src: seq<byte>, pos: nat, n: nat, m: nat, next: nat, unit: seq<byte>, unitBytes: nat)
    requires unitBytes >= 1 && n > 0 && pos < |src| && IsRunPacket(src[pos])
    requires m == Min(PacketCount(src[pos]), n)
    requires next == pos + 1 + unitBytes <= |src| && unit == src[pos + 1 .. next]
    ensures ExpandRle(src, pos, n, unitBytes) == Prepend(Repeat(unit, m), ExpandRle(src, next, n - m, unitBytes))
  {
    assert ExpandRle(src, pos, n, unitBytes) == Prepend(Repeat(unit, m), ExpandRle(src, next, n - m, unitBytes));
  }

  /** One run-length packet that is stored in full preserves the agreement. */
  lemma RunPacketStep(src: seq<byte>, pos: nat, n: nat, m: nat, unitBytes: nat, cmap: Option<ColorMap>)
    requires Ctx(unitBytes, cmap) && n > 0 && pos < |src| && IsRunPacket(src[pos])
    requires m == Min(PacketCount(src[pos]), n) && pos + 1 + unitBytes <= |src|
    requires Agree(ExpandRle(src, pos + 1 + unitBytes, n - m, unitBytes),
                   RleDecode(src, pos + 1 + unitBytes, n - m, unitBytes, cmap), n - m, unitBytes, cmap)
    ensures Agree(ExpandRle(src, pos, n, unitBytes), RleDecode(src, pos, n, unitBytes, cmap), n, unitBytes, cmap)
  {
    var u := unitBytes;
    var next := pos + 1 + u;
    var e, d := ExpandRle(src, next, n - m, u), RleDecode(src, next, n - m, u, cmap);
    var unit := src[pos + 1 .. next];
    assert |unit| == u;
    RunAgree(unit, m, n, e, d, cmap);
    RunPacketDecode(src, pos, n, m, next, unit, u, cmap);
    RunPacketExpand(src, pos, n, m, next, unit, u);
  }

  /** A run of `m` copies of `unit` in front of an expansion `e` that agrees
      with `d` agrees with the run's resolved pixels in front of `d`. */
  lemma RunAgree(unit: seq<byte>, m: nat, n: nat, e: Step, d: Step, cmap: Option<ColorMap>)
    requires Ctx(|unit|, cmap) && 1 <= m <= n
    requires Agree(e, d, n - m, |unit|, cmap)
    ensures Agree(Prepend(Repeat(unit, m), e), RunThen(unit, m, d, cmap), n, |unit|, cmap)
  {
    var first := ResolveUnit(unit, cmap);
    if e.Success? {
      var (rest, p) := e.value;
      if first.Success? {
        RunPacketJoin(unit, first.value, m, n, rest, p, cmap);
      } else {
        RunHeadFails(unit, m, n, rest, cmap);
      }
    }
  }

  /** When the run's pixel does not resolve, neither does the first pixel of
      its expansion. */
  lemma RunHeadFails(unit: seq<byte>, m: nat, n: nat, rest: seq<byte>, cmap: Option<ColorMap>)
    requires Ctx(|unit|, cmap) && ResolveUnit(unit, cmap).Failure? && 1 <= m <= n
    ensures DecodePixels(Repeat(unit, m) + rest, 0, n, |unit|, cmap) == Failure(ResolveUnit(unit, cmap).error)
  {
    var units := Repeat(unit, m) + rest;
    assert units[0 .. |unit|] == unit;
  }

  /** The expansion of a run packet followed by `rest` decodes to the run's
      pixels followed by the decoding of `rest`. */
  lemma RunPacketJoin(unit: seq<byte>, px: seq<byte>, m: nat, n: nat, rest: seq<byte>, p: nat, cmap: Option<ColorMap>)
    requires Ctx(|unit|, cmap) && ResolveUnit(unit, cmap) == Success(px) && m <= n
    ensures At(DecodePixels(Repeat(unit, m) + rest, 0, n, |unit|, cmap), p)
         == Prepend(Repeat(px, m), At(DecodePixels(rest, 0, n - m, |unit|, cmap), p))
  {
    var run := Repeat(unit, m);
    var tail := DecodePixels(rest, 0, n - m, |unit|, cmap);
    RunFront(unit, px, m, n, rest, cmap);
    DecodeShift(run, rest, 0, |run|, n - m, |unit|, cmap);
    AtPrependShift(Repeat(px, m), tail, |run|, p);
  }

  /** The run's `m` copies decode to `m` resolved pixels, before the rest. */
  lemma RunFront(unit: seq<byte>, px: seq<byte>, m: nat, n: nat, rest: seq<byte>, cmap: Option<ColorMap>)
    requires Ctx(|unit|, cmap) && ResolveUnit(unit, cmap) == Success(px) && m <= n
    ensures DecodePixels(Repeat(unit, m) + rest, 0, n, |unit|, cmap)
         == Prepend(Repeat(px, m), DecodePixels(Repeat(unit, m) + rest, |Repeat(unit, m)|, n - m, |unit|, cmap))
  {
    var u := |unit|;
    var units := Repeat(unit, m) + rest;
    DecodeSplit(units, 0, m, n - m, u, cmap);
    RepeatDecode(unit, px, m, rest, u, cmap);
    assert Span(m, u) == |Repeat(unit, m)|;
  }

  /** A raw packet header starts a packet of `PacketCount` stored pixels,
      which RLE decoding reads as raw data before the next packet. */
  lemma RawPacketDecode(src: seq<byte>, pos: nat, n: nat, unitBytes: nat, cmap: Option<ColorMap>)
    requires Ctx(unitBytes, cmap) && n > 0 && pos < |src| && !IsRunPacket(src[pos])
    ensures var m := Min(PacketCount(src[pos]), n);
      RleDecode(src, pos, n, unitBytes, cmap)
      == RleAfter(src, DecodePixels(src, pos + 1, m, unitBytes, cmap), n - m, unitBytes, cmap)
  {
    assert RleDecode(src, pos, n, unitBytes, cmap)
        == RleFrom(src, pos + 1, n, PacketCount(src[pos]), None, unitBytes, cmap);
    RawTail(src, pos + 1, n, PacketCount(src[pos]), unitBytes, cmap);
  }

  /** A raw packet stored in full expands to its stored pixels. */
  lemma RawPacketExpand(src: seq<byte>, pos: nat, n: nat, m: nat, next: nat, stored: seq<byte>, unitBytes: nat)
    requires unitBytes >= 1 && n > 0 && pos < |src| && !IsRunPacket(src[pos])
    requires m == Min(PacketCount(src[pos]), n)
    requires next == pos + 1 + Span(m, unitBytes) <= |src| && stored == src[pos + 1 .. next]
    ensures ExpandRle(src, pos, n, unitBytes) == Prepend(stored, ExpandRle(src, next, n - m, unitBytes))
  {
  }

  /** The pixels of `r`, when it succeeds, followed by what `d` decodes. */
  function FollowedBy(r: Step, d: Step): Step {
    match r
    case Failure(e) => Failure(e)
    case Success((px, _)) => Prepend(px, d)
  }

  /** RLE decoding of a raw packet decodes its stored pixels on their own,
      then the packets after it. */
  lemma RawPacketDecodeStored(src: seq<byte>, pos: nat, n: nat, m: nat, next: nat, stored: seq<byte>,
                              unitBytes: nat, cmap: Option<ColorMap>)
    requires Ctx(unitBytes, cmap) && n > 0 && pos < |src| && !IsRunPacket(src[pos])
    requires m == Min(PacketCount(src[pos]), n)
    requires next == pos + 1 + Span(m, unitBytes) <= |src| && stored == src[pos + 1 .. next]
    ensures RleDecode(src, pos, n, unitBytes, cmap)
         == FollowedBy(DecodePixels(stored, 0, m, unitBytes, cmap), RleDecode(src, next, n - m, unitBytes, cmap))
  {
    RawPacketDecode(src, pos, n, unitBytes, cmap);
    SliceDecode(src, pos + 1, m, [], unitBytes, cmap);
    assert stored + [] == stored;
  }

  /** One raw packet that is stored in full preserves the agreement. */
  lemma RawPacketStep(src: seq<byte>, pos: nat, n: nat, m: nat, unitBytes: nat, cmap: Option<ColorMap>)
    requires Ctx(unitBytes, cmap) && n > 0 && pos < |src| && !IsRunPacket(src[pos])
    requires m == Min(PacketCount(src[pos]), n) && pos + 1 + Span(m, unitBytes) <= |src|
    requires Agree(ExpandRle(src, pos + 1 + Span(m, unitBytes), n - m, unitBytes),
                   RleDecode(src, pos + 1 + Span(m, unitBytes), n - m, unitBytes, cmap), n - m, unitBytes, cmap)
    ensures Agree(ExpandRle(src, pos, n, unitBytes), RleDecode(src, pos, n, unitBytes, cmap), n, unitBytes, cmap)
  {
    var u := unitBytes;
    var next := pos + 1 + Span(m, u);
    var stored := src[pos + 1 .. next];
    var e, d := ExpandRle(src, next, n - m, u), RleDecode(src, next, n - m, u, cmap);
    assert |stored| == Span(m, u);
    RawAgree(stored, m, n, e, d, u, cmap);
    RawPacketDecodeStored(src, pos, n, m, next, stored, u, cmap);
    RawPacketExpand(src, pos, n, m, next, stored, u);
  }

  /** The `m` stored pixels of a raw packet in front of an expansion `e`
      that agrees with `d` agree with their decoding in front of `d`. */
  lemma RawAgree(stored: seq<byte>, m: nat, n: nat, e: Step, d: Step, unitBytes: nat, cmap: Option<ColorMap>)
    requires Ctx(unitBytes, cmap) && m <= n && |stored| == Span(m, unitBytes)
    requires Agree(e, d, n - m, unitBytes, cmap)
    ensures Agree(Prepend(stored, e), FollowedBy(DecodePixels(stored, 0, m, unitBytes, cmap), d), n, unitBytes, cmap)
  {
    if e.Success? {
      var (rest, p) := e.value;
      RawPacketJoin(stored, m, n, rest, p, unitBytes, cmap);
      DecodeLocal(stored, [], rest, 0, m, unitBytes, cmap);
      assert stored + [] == stored;
    }
  }

  /** Decoding `m` pixels at `q` reads only the `m * unitBytes` bytes there. */
  lemma SliceDecode(src: seq<byte>, q: nat, m: nat, rest: seq<byte>, unitBytes: nat, cmap: Option<ColorMap>)
    requires Ctx(unitBytes, cmap) && q + Span(m, unitBytes) <= |src|
    ensures DecodePixels(src, q, m, unitBytes, cmap)
         == Shift(DecodePixels(src[q .. q + Span(m, unitBytes)] + rest, 0, m, unitBytes, cmap), q)
  {
    var stored := src[q .. q + Span(m, unitBytes)];
    var after := src[q + Span(m, unitBytes) ..];
    assert src == src[.. q] + (stored + after);
    DecodeShift(src[.. q], stored + after, 0, q, m, unitBytes, cmap);
    DecodeLocal(stored, after, rest, 0, m, unitBytes, cmap);
  }

  /** A raw packet's stored pixels followed by `rest` decode to the packet's
      pixels followed by the decoding of `rest`. */
  lemma RawPacketJoin(stored: seq<byte>, m: nat, n: nat, rest: seq<byte>, p: nat, unitBytes: nat, cmap: Option<ColorMap>)
    requires Ctx(unitBytes, cmap) && m <= n && |stored| == Span(m, unitBytes)
    ensures At(DecodePixels(stored + rest, 0, n, unitBytes, cmap), p)
         == FollowedBy(DecodePixels(stored + rest, 0, m, unitBytes, cmap), At(DecodePixels(rest, 0, n - m, unitBytes, cmap), p))
  {
    var u := unitBytes;
    var units := stored + rest;
    var first, tail := DecodePixels(units, 0, m, u, cmap), DecodePixels(rest, 0, n - m, u, cmap);
    DecodeSplit(units, 0, m, n - m, u, cmap);
    assert DecodePixels(units, 0, n, u, cmap) == DecodeAfter(units, first, n - m, u, cmap);
    if first.Success? {
      var (px, q) := first.value;
      assert q == |stored|;
      DecodeShift(stored, rest, 0, q, n - m, u, cmap);
      assert DecodePixels(units, q, n - m, u, cmap) == Shift(tail, q);
      AtPrependShift(px, tail, q, p);
    }
  }

  /** A packet whose stored data is cut short fails both readings. */
  lemma ShortPacket(src: seq<byte>, pos: nat, n: nat, unitBytes: nat, cmap: Option<ColorMap>)
    requires Ctx(unitBytes, cmap) && n > 0
    requires pos < |src| ==>
      pos + 1 + (if IsRunPacket(src[pos]) then unitBytes else Span(Min(PacketCount(src[pos]), n), unitBytes)) > |src|
    ensures Agree(ExpandRle(src, pos, n, unitBytes), RleDecode(src, pos, n, unitBytes, cmap), n, unitBytes, cmap)
  {
    if pos < |src| && !IsRunPacket(src[pos]) {
      RawPacketDecode(src, pos, n, unitBytes, cmap);
    }
  }

  /** The agreement holds packet by packet, by induction on the pixels left. */
  lemma {:induction false} RleMatchesExpansion(src: seq<byte>, pos: nat, n: nat, unitBytes: nat, cmap: Option<ColorMap>)
    requires Ctx(unitBytes, cmap)
    ensures Agree(ExpandRle(src, pos, n, unitBytes), RleDecode(src, pos, n, unitBytes, cmap), n, unitBytes, cmap)
    decreases n
  {
    var u := unitBytes;
    if n > 0 && pos < |src| {
      var m := Min(PacketCount(src[pos]), n);
      if IsRunPacket(src[pos]) && pos + 1 + u <= |src| {
        RleMatchesExpansion(src, pos + 1 + u, n - m, u, cmap);
        RunPacketStep(src, pos, n, m, u, cmap);
      } else if !IsRunPacket(src[pos]) && pos + 1 + Span(m, u) <= |src| {
        RleMatchesExpansion(src, pos + 1 + Span(m, u), n - m, u, cmap);
        RawPacketStep(src, pos, n, m, u, cmap);
      } else {
        ShortPacket(src, pos, n, u, cmap);
      }
    } else if n > 0 {
      ShortPacket(src, pos, n, u, cmap);
    }
  }


  /** RLE decoding is raw decoding of the expanded stream: when the packets
      from `pos` expand to `units` ending at `p`, decoding them run-length
      gives what decoding `units` pixel by pixel gives, ending at `p`; when
      they are cut short, RLE decoding fails too. */
  lemma RleIsRawOfExpanded(src: seq<byte>, pos: nat, n: nat, unitBytes: nat, cmap: Option<ColorMap>)
    requires Ctx(unitBytes, cmap)
    ensures ExpandRle(src, pos, n, unitBytes).Failure? ==> RleDecode(src, pos, n, unitBytes, cmap).Failure?
    ensures ExpandRle(src, pos, n, unitBytes).Success? ==>
      var (units, p) := ExpandRle(src, pos, n, unitBytes).value;
      RleDecode(src, pos, n, unitBytes, cmap) == At(DecodePixels(units, 0, n, unitBytes, cmap), p)
  {
    RleMatchesExpansion(src, pos, n, unitBytes, cmap);
  }

  /** Without a colour map, RLE decoding yields exactly the expanded stream. */
  lemma RleTrueColorIsExpansion(src: seq<byte>, pos: nat, n: nat, unitBytes: nat)
    requires unitBytes >= 1
    ensures ExpandRle(src, pos, n, unitBytes).Failure? ==> RleDecode(src, pos, n, unitBytes, None).Failure?
    ensures ExpandRle(src, pos, n, unitBytes).Success? ==>
      RleDecode(src, pos, n, unitBytes, None) == ExpandRle(src, pos, n, unitBytes)
  {
    RleIsRawOfExpanded(src, pos, n, unitBytes, None);
    var e := ExpandRle(src, pos, n, unitBytes);
    if e.Success? {
      var units := e.value.0;
      BulkReadIsPerPixel(units, 0, n, unitBytes);
      assert units[0 .. n * unitBytes] == units;
    }
  }
}
