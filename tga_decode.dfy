/**
 * The image-data decoders as the loaders run them: `decode_data` and
 * `decode_data_rle` fill the image buffer in place, pixel by pixel, and
 * each is proved to leave in the buffer exactly what the corresponding
 * function of TgaDecodeSpec computes.
 */
module TgaDecode {
  import opened Wrappers
  import opened TgaFormat
  import opened TgaColorMap
  import opened TgaDecodeSpec
  import opened Buffer
  import Arith

  /** The pixel one decoding step stores: the unit read at `p` resolved
      through the colour map (`pixel_to_map_index`, then
      `try_get_color_from_map`), or the unit itself. */
  method ResolveAt(src: seq<byte>, p: nat, unitBytes: nat, cmap: Option<ColorMap>) returns (r: Step)
    requires Ctx(unitBytes, cmap)
    ensures r == ReadPixel(src, p, unitBytes, cmap)
  {
    if p + unitBytes > |src| {
      return Failure(ReadFail);
    }
    var unit := src[p .. p + unitBytes];
    if cmap.Some? {
      var entry := Lookup(cmap.value, MapIndex(unit));
      if entry.None? {
        return Failure(IndexFail);
      }
      return Success((entry.value, p + unitBytes));
    }
    return Success((unit, p + unitBytes));
  }

  /** The buffer after `k` of `n` pixels of width `w` is within bounds, and
      the next pixel ends at `(k + 1) * w`. */
  lemma OffsetStep(k: nat, n: nat, w: nat)
    requires k < n
    ensures k * w + w == (k + 1) * w <= n * w
  {
    Arith.SlotInBounds(k, n, w);
  }

  /** A decode that is `done` followed by `before`, where `before` is `px`
      followed by `tail`, is `done + px` followed by `tail`. */
  lemma PrependStep(whole: Step, done: seq<byte>, before: Step, px: seq<byte>, tail: Step)
    requires whole == Prepend(done, before) && before == Prepend(px, tail)
    ensures whole == Prepend(done + px, tail)
  {
    PrependAssoc(done, px, tail);
  }

  /** `decode_data`: a colour-mapped image is read one index at a time and
      each index is replaced by its map entry; any other image is one bulk
      read of `n * pixelSize` bytes. On success the buffer holds exactly
      the decoded pixels and the cursor is where RawDecode leaves it. */
  method DecodeRawInto(data: array<byte>, src: seq<byte>, pos: nat, n: nat, pixelSize: nat,
                       unitBytes: nat, cmap: Option<ColorMap>) returns (r: Result<nat, DecodeFailure>)
    requires Ctx(unitBytes, cmap) && data.Length == n * pixelSize
    requires cmap.Some? ==> cmap.value.bytesPerEntry == pixelSize
    modifies data
    ensures match RawDecode(src, pos, n, pixelSize, unitBytes, cmap)
      case Success((px, p)) => r == Success(p) && data[..] == px
      case Failure(e) => r == Failure(e)
  {
    if cmap.None? {
      if pos + n * pixelSize > |src| {
        return Failure(ReadFail);
      }
      CopyInto(data, 0, src[pos .. pos + n * pixelSize]);
      assert data[..] == data[.. n * pixelSize];
      return Success(pos + n * pixelSize);
    }
    var k: nat, p: nat, off: nat := 0, pos, 0;
    PrependNil(DecodePixels(src, pos, n, unitBytes, cmap));
    while k < n
      invariant 0 <= k <= n && off == k * pixelSize <= data.Length
      invariant DecodePixels(src, pos, n, unitBytes, cmap)
             == Prepend(data[.. off], DecodePixels(src, p, n - k, unitBytes, cmap))
    {
      var px := ResolveAt(src, p, unitBytes, cmap);
      if px.Failure? {
        return Failure(px.error);
      }
      OffsetStep(k, n, pixelSize);
      ghost var done := data[.. off];
      CopyInto(data, off, px.value.0);
      PrependAssoc(done, px.value.0, DecodePixels(src, px.value.1, n - k - 1, unitBytes, cmap));
      k, p, off := k + 1, px.value.1, off + pixelSize;
    }
    assert data[..] == data[.. off];
    assert data[.. off] + [] == data[.. off];
    return Success(p);
  }

  /** The RLE decoder's loop state in terms of RleFrom. */
  function RunOf(isRun: bool, buffer: seq<byte>): Option<seq<byte>> {
    if isRun then Some(buffer) else None
  }

  /** The packet-header step of `decode_data_rle`: reads the repetition
      count field and, for a run-length packet, reads and resolves its one
      pixel. Yields the cursor, the packet's pixel count, whether it is a
      run and the run's pixel. */
  method NextPacket(src: seq<byte>, p: nat, left: nat, unitBytes: nat, cmap: Option<ColorMap>)
    returns (r: Result<(nat, nat, bool, seq<byte>), DecodeFailure>)
    requires Ctx(unitBytes, cmap) && left > 0
    ensures r.Failure? ==> RleDecode(src, p, left, unitBytes, cmap) == Failure(r.error)
    ensures r.Success? ==>
      var (p', count, isRun, buffer) := r.value;
      count >= 1 && (isRun ==> |buffer| == OutWidth(unitBytes, cmap))
      && RleDecode(src, p, left, unitBytes, cmap) == RleFrom(src, p', left, count, RunOf(isRun, buffer), unitBytes, cmap)
  {
    if p >= |src| {
      return Failure(ReadFail);
    }
    var b := src[p];
    if IsRunPacket(b) {
      var px := ResolveAt(src, p + 1, unitBytes, cmap);
      if px.Failure? {
        return Failure(px.error);
      }
      return Success((px.value.1, PacketCount(b), true, px.value.0));
    }
    return Success((p + 1, PacketCount(b), false, []));
  }

  /** The per-pixel step of `decode_data_rle` inside a packet: a run copies
      its pixel, a raw packet reads and resolves the next one. */
  method PacketPixel(src: seq<byte>, p: nat, left: nat, pending: nat, isRun: bool, buffer: seq<byte>,
                     unitBytes: nat, cmap: Option<ColorMap>) returns (r: Step)
    requires Ctx(unitBytes, cmap) && left > 0 && pending > 0
    requires isRun ==> |buffer| == OutWidth(unitBytes, cmap)
    ensures r.Failure? ==> RleFrom(src, p, left, pending, RunOf(isRun, buffer), unitBytes, cmap) == Failure(r.error)
    ensures r.Success? ==>
      |r.value.0| == OutWidth(unitBytes, cmap)
      && RleFrom(src, p, left, pending, RunOf(isRun, buffer), unitBytes, cmap)
         == Prepend(r.value.0, RleFrom(src, r.value.1, left - 1, pending - 1, RunOf(isRun, buffer), unitBytes, cmap))
  {
    if isRun {
      return Success((buffer, p));
    }
    r := ResolveAt(src, p, unitBytes, cmap);
  }

  /** One iteration of the `decode_data_rle` loop: a packet header when
      the last packet is used up, then one pixel stored at `off`. */
  method RleStep(data: array<byte>, off: nat, src: seq<byte>, p: nat, left: nat, pending: nat,
                 isRun: bool, buffer: seq<byte>, unitBytes: nat, cmap: Option<ColorMap>)
    returns (r: Result<(nat, nat, bool, seq<byte>), DecodeFailure>)
    requires Ctx(unitBytes, cmap) && left > 0 && off + OutWidth(unitBytes, cmap) <= data.Length
    requires isRun ==> |buffer| == OutWidth(unitBytes, cmap)
    modifies data
    ensures r.Failure? ==> RleFrom(src, p, left, pending, RunOf(isRun, buffer), unitBytes, cmap) == Failure(r.error)
    ensures r.Success? ==>
      var (p', pending', isRun', buffer') := r.value;
      (isRun' ==> |buffer'| == OutWidth(unitBytes, cmap))
      && data[.. off + OutWidth(unitBytes, cmap)] == old(data[.. off]) + data[off .. off + OutWidth(unitBytes, cmap)]
      && RleFrom(src, p, left, pending, RunOf(isRun, buffer), unitBytes, cmap)
         == Prepend(data[off .. off + OutWidth(unitBytes, cmap)],
                    RleFrom(src, p', left - 1, pending', RunOf(isRun', buffer'), unitBytes, cmap))
  {
    var p, pending, isRun, buffer := p, pending, isRun, buffer;
    if pending == 0 {
      RleRestart(src, p, left, RunOf(isRun, buffer), unitBytes, cmap);
      var header := NextPacket(src, p, left, unitBytes, cmap);
      if header.Failure? {
        return Failure(header.error);
      }
      p, pending, isRun, buffer := header.value.0, header.value.1, header.value.2, header.value.3;
    }
    var px := PacketPixel(src, p, left, pending, isRun, buffer, unitBytes, cmap);
    if px.Failure? {
      return Failure(px.error);
    }
    CopyInto(data, off, px.value.0);
    assert data[off .. off + |px.value.0|] == px.value.0;
    return Success((px.value.1, pending - 1, isRun, buffer));
  }

  /** RleStep seen from the whole image: `whole`, the bytes before `off`
      followed by what the packet state still decodes, is afterwards the
      bytes before the next pixel followed by what the new state decodes. */
  method RleAdvance(data: array<byte>, off: nat, src: seq<byte>, p: nat, left: nat, pending: nat,
                    isRun: bool, buffer: seq<byte>, unitBytes: nat, cmap: Option<ColorMap>, ghost whole: Step)
    returns (r: Result<(nat, nat, bool, seq<byte>), DecodeFailure>)
    requires Ctx(unitBytes, cmap) && left > 0 && off + OutWidth(unitBytes, cmap) <= data.Length
    requires isRun ==> |buffer| == OutWidth(unitBytes, cmap)
    requires whole == Prepend(data[.. off], RleFrom(src, p, left, pending, RunOf(isRun, buffer), unitBytes, cmap))
    modifies data
    ensures r.Failure? ==> whole == Failure(r.error)
    ensures r.Success? ==>
      var (p', pending', isRun', buffer') := r.value;
      (isRun' ==> |buffer'| == OutWidth(unitBytes, cmap))
      && whole == Prepend(data[.. off + OutWidth(unitBytes, cmap)],
                          RleFrom(src, p', left - 1, pending', RunOf(isRun', buffer'), unitBytes, cmap))
  {
    ghost var done := data[.. off];
    ghost var before := RleFrom(src, p, left, pending, RunOf(isRun, buffer), unitBytes, cmap);
    r := RleStep(data, off, src, p, left, pending, isRun, buffer, unitBytes, cmap);
    if r.Success? {
      var w := OutWidth(unitBytes, cmap);
      PrependStep(whole, done, before, data[off .. off + w],
                  RleFrom(src, r.value.0, left - 1, r.value.1, RunOf(r.value.2, r.value.3), unitBytes, cmap));
    }
  }

  /** `decode_data_rle`: the loop keeps the packet state (`pending` pixels
      left, whether it is a run, the run's resolved pixel in `buffer`) and
      reads a packet header whenever `pending` is 0. On success the buffer
      holds exactly what RleDecode decodes. */
  method DecodeRleInto(data: array<byte>, src: seq<byte>, pos: nat, n: nat, pixelSize: nat,
                       unitBytes: nat, cmap: Option<ColorMap>) returns (r: Result<nat, DecodeFailure>)
    requires Ctx(unitBytes, cmap) && data.Length == n * pixelSize
    requires OutWidth(unitBytes, cmap) == pixelSize
    modifies data
    ensures match RleDecode(src, pos, n, unitBytes, cmap)
      case Success((px, p)) => r == Success(p) && data[..] == px
      case Failure(e) => r == Failure(e)
  {
    var k: nat, left: nat, p: nat, off: nat := 0, n, pos, 0;
    var pending: nat, isRun: bool, buffer: seq<byte> := 0, false, [];
    ghost var whole := RleDecode(src, pos, n, unitBytes, cmap);
    PrependNil(whole);
    while k < n
      invariant 0 <= k <= n && left == n - k && off == k * pixelSize <= data.Length
      invariant isRun ==> |buffer| == pixelSize
      invariant whole == Prepend(data[.. off], RleFrom(src, p, left, pending, RunOf(isRun, buffer), unitBytes, cmap))
    {
      OffsetStep(k, n, pixelSize);
      var step := RleAdvance(data, off, src, p, left, pending, isRun, buffer, unitBytes, cmap, whole);
      if step.Failure? {
        return Failure(step.error);
      }
      k, left, off := k + 1, left - 1, off + pixelSize;
      p, pending, isRun, buffer := step.value.0, step.value.1, step.value.2, step.value.3;
    }
    assert data[..] == data[.. off];
    assert data[.. off] + [] == data[.. off];
    return Success(p);
  }
}
