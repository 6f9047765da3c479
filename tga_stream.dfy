/**
 * The input stream as an immutable byte sequence read through a cursor.
 * A read returns the value and the cursor after it, or None on a short
 * read (where the source sets its read-error flag or sees a short count).
 * A relative seek (`fseek`, `seekg` with `SEEK_CUR`) only moves the cursor:
 * on a file it succeeds even past the end, and the next read is short.
 */
module TgaStream {
  import opened Wrappers
  import opened TgaFormat

  /** `read_uint8`. */
  function ReadU8(src: seq<byte>, pos: nat): (r: Option<(byte, nat)>)
    ensures r.Some? <==> pos < |src|
    ensures r.Some? ==> r.value.0 == src[pos] && r.value.1 == pos + 1
  {
    if pos < |src| then Some((src[pos], pos + 1)) else None
  }

  /** `read_uint16_le`: `b0 + (b1 << 8)`. */
  function ReadU16Le(src: seq<byte>, pos: nat): (r: Option<(uint16, nat)>)
    ensures r.Some? <==> pos + 2 <= |src|
    ensures r.Some? ==> r.value.0 % 256 == src[pos] && r.value.0 / 256 == src[pos + 1]
    ensures r.Some? ==> r.value.1 == pos + 2
  {
    if pos + 2 <= |src| then Some(((src[pos] as int) + (src[pos + 1] as int) * 256, pos + 2)) else None
  }

  /** A bulk read of `n` bytes (`fread` of a block, `istream::read`). A
      read of zero bytes succeeds wherever the cursor is, and a cursor moved
      past the end by a seek makes every longer read short. */
  function ReadBytes(src: seq<byte>, pos: nat, n: nat): (r: Option<(seq<byte>, nat)>)
    ensures r.Some? <==> n == 0 || pos + n <= |src|
    ensures r.Some? ==> r.value.1 == pos + n && |r.value.0| == n
    ensures r.Some? ==> forall i :: 0 <= i < n ==> r.value.0[i] == src[pos + i]
  {
    if n == 0 then Some(([], pos))
    else if pos + n <= |src| then Some((src[pos..pos + n], pos + n))
    else None
  }

  /** The two little-endian bytes of a 16-bit value, as the encoder writes
      them (`v & 0xFF`, `(v >> 8) & 0xFF`). */
  function Le16(v: uint16): (r: seq<byte>)
    ensures |r| == 2
  {
    [v % 256, v / 256]
  }

  /** Reading back what `Le16` wrote gives the value. */
  lemma ReadU16LeOfLe16(v: uint16, prefix: seq<byte>, rest: seq<byte>)
    ensures ReadU16Le(prefix + Le16(v) + rest, |prefix|) == Some((v, |prefix| + 2))
  {
    var s := prefix + Le16(v) + rest;
    assert s[|prefix|] == v % 256 && s[|prefix| + 1] == v / 256;
  }
}
