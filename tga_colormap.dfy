/**
 * The colour map (field 7 of the TGA 2.0 file format): sizing and loading
 * the block, and looking a pixel's index up in it.
 */
module TgaColorMap {
  import opened Wrappers
  import opened TgaFormat
  import opened TgaStream
  import opened TgaHeader
  import Arith

  const IndexModulus: int := 0x1_0000

  datatype ColorMap = ColorMap(firstIndex: uint16, entryCount: uint16, bytesPerEntry: nat, entries: seq<byte>)

  /** The table holds `entryCount` entries of `bytesPerEntry` bytes each. */
  predicate Valid(m: ColorMap) {
    m.bytesPerEntry >= 1 && |m.entries| == m.entryCount * m.bytesPerEntry
  }

  /** Size in bytes of the colour-map block a header announces. */
  function MapBlockSize(h: Header): nat {
    h.mapLength * BitsToBytes(h.mapEntrySize)
  }

  /** `pixel_to_map_index`: only 8-bit indices are supported, so the index
      is the first byte of the pixel as stored in the file. */
  function MapIndex(unit: seq<byte>): (index: uint16)
    requires |unit| >= 1
    ensures index < 256
  {
    unit[0]
  }

  /** `index -= first_index` on `uint16_t`: the subtraction wraps mod 2^16. */
  function WrappedOffset(index: uint16, first: uint16): (r: uint16)
    ensures (first + r) % IndexModulus == index
  {
    (index - first) % IndexModulus
  }

  /** The index value that entry `k` of a map starting at `first` has. */
  function IndexOfEntry(first: uint16, k: nat): uint16 {
    (first + k) % IndexModulus
  }

  /** The range check `index < 0 && index >= entry_count` exactly as
      written, on the unsigned wrapped offset. */
  predicate GuardAsWritten(offset: uint16, count: uint16) {
    offset < 0 && offset >= count
  }

  /** As written, the guard never rejects an index. */
  lemma GuardAsWrittenNeverRejects(offset: uint16, count: uint16)
    ensures !GuardAsWritten(offset, count)
  {
  }

  /** A concrete input the guard lets through: with one 3-byte entry at
      index 0, index 1 passes the guard and the copy of 3 bytes from offset
      3 runs past the 3-byte table. */
  lemma GuardAsWrittenReadsPastTable()
    ensures var m := ColorMap(0, 1, 3, [10, 20, 30]);
      var off := WrappedOffset(1, m.firstIndex);
      Valid(m) && !GuardAsWritten(off, m.entryCount)
      && off * m.bytesPerEntry + m.bytesPerEntry > |m.entries|
  {
  }

  /** Offsets are unique: the entry whose index is `index` is entry
      `WrappedOffset(index, first)`. */
  lemma WrappedOffsetOfEntry(first: uint16, k: nat)
    requires k < IndexModulus
    ensures WrappedOffset(IndexOfEntry(first, k), first) == k
  {
    var index := IndexOfEntry(first, k);
    if first + k < IndexModulus {
      assert index == first + k;
    } else {
      assert index == first + k - IndexModulus;
      Arith.DivModUnique(index - first, IndexModulus, -1, k);
    }
  }

  /** The wrapped offset is in range exactly when some entry has the index. */
  lemma OffsetInRangeIff(first: uint16, count: uint16, index: uint16)
    ensures WrappedOffset(index, first) < count
        <==> exists k :: 0 <= k < count && IndexOfEntry(first, k) == index
  {
    var off := WrappedOffset(index, first);
    if off < count {
      assert IndexOfEntry(first, off) == index;
    } else {
      forall k | 0 <= k < count ensures IndexOfEntry(first, k) != index {
        WrappedOffsetOfEntry(first, k);
      }
    }
  }

  /** Entry `k` of the table: `bytesPerEntry` bytes from `k * bytesPerEntry`. */
  function EntryAt(m: ColorMap, k: nat): (e: seq<byte>)
    requires Valid(m) && k < m.entryCount
    ensures |e| == m.bytesPerEntry
  {
    Arith.SlotInBounds(k, m.entryCount, m.bytesPerEntry);
    m.entries[k * m.bytesPerEntry .. k * m.bytesPerEntry + m.bytesPerEntry]
  }

  /** `try_get_color_from_map` with the range check the code evidently
      intends: the entry whose index is `index`, or None when no entry of
      the map has that index. */
  function Lookup(m: ColorMap, index: uint16): (r: Option<seq<byte>>)
    requires Valid(m)
    ensures r.Some? <==> exists k :: 0 <= k < m.entryCount && IndexOfEntry(m.firstIndex, k) == index
    ensures r.Some? ==>
      WrappedOffset(index, m.firstIndex) < m.entryCount
      && r.value == EntryAt(m, WrappedOffset(index, m.firstIndex))
  {
    OffsetInRangeIff(m.firstIndex, m.entryCount, index);
    var off := WrappedOffset(index, m.firstIndex);
    if off >= m.entryCount then None else Some(EntryAt(m, off))
  }

  /** The first index of a non-empty map resolves to entry 0. */
  lemma LookupFirstIndex(m: ColorMap)
    requires Valid(m) && m.entryCount >= 1
    ensures Lookup(m, m.firstIndex) == Some(m.entries[..m.bytesPerEntry])
    ensures Lookup(m, m.firstIndex) == Some(EntryAt(m, 0))
  {
    assert WrappedOffset(m.firstIndex, m.firstIndex) == 0;
    assert IndexOfEntry(m.firstIndex, 0) == m.firstIndex;
  }

  /** The index one past the last entry fails. */
  lemma LookupOnePastEnd(m: ColorMap)
    requires Valid(m)
    ensures Lookup(m, IndexOfEntry(m.firstIndex, m.entryCount)).None?
  {
    WrappedOffsetOfEntry(m.firstIndex, m.entryCount);
  }

  /** Colour-map handling of `load_image` / `Image::load`: a colour-mapped
      image reads its `MapBlockSize` bytes into a table; an image that is
      not colour-mapped but has map type 1 seeks past them; otherwise
      nothing is read. A short block reads as FileCannotRead; a seek does
      not fail. */
  function LoadColorMap(h: Header, src: seq<byte>, pos: nat): (r: Result<(Option<ColorMap>, nat), Error>)
    ensures r.Failure? ==> r.error == FileCannotRead
    ensures r.Failure? <==> IsColorMapped(h.imageType) && MapBlockSize(h) > 0 && pos + MapBlockSize(h) > |src|
    ensures r.Success? && IsColorMapped(h.imageType) ==>
      r.value.1 == pos + MapBlockSize(h) && r.value.0.Some?
      && var m := r.value.0.value;
      m.firstIndex == h.mapFirstEntry && m.entryCount == h.mapLength
      && m.bytesPerEntry == BitsToBytes(h.mapEntrySize) && Valid(m)
      && (MapBlockSize(h) > 0 ==> m.entries == src[pos .. pos + MapBlockSize(h)])
    ensures r.Success? && !IsColorMapped(h.imageType) ==>
      r.value == (None, if h.mapType == 1 then pos + MapBlockSize(h) else pos)
  {
    var size := MapBlockSize(h);
    if IsColorMapped(h.imageType) then
      match ReadBytes(src, pos, size)
      case None => Failure(FileCannotRead)
      case Some((entries, p)) =>
        Success((Some(ColorMap(h.mapFirstEntry, h.mapLength, BitsToBytes(h.mapEntrySize), entries)), p))
    else if h.mapType == 1 then
      Success((None, pos + size))
    else
      Success((None, pos))
  }
}
