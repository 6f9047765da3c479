/** The image buffer as the C and C++ code writes into it: `memcpy` of a
    run of bytes into an array at an offset. */
module Buffer {
  import opened TgaFormat

  /** `s` with the bytes from `off` on replaced by `xs`. */
  function Splice(s: seq<byte>, off: nat, xs: seq<byte>): (r: seq<byte>)
    requires off + |xs| <= |s|
    ensures |r| == |s|
    ensures forall k {:trigger r[k]} :: 0 <= k < |s| ==> r[k] == if off <= k < off + |xs| then xs[k - off] else s[k]
  {
    s[.. off] + xs + s[off + |xs| ..]
  }

  /** `memcpy(a + off, xs, |xs|)`: the bytes of `xs` land at `off` and no
      other byte changes. */
  method CopyInto(a: array<byte>, off: nat, xs: seq<byte>)
    requires off + |xs| <= a.Length
    modifies a
    ensures a[..] == Splice(old(a[..]), off, xs)
    ensures a[.. off + |xs|] == old(a[.. off]) + xs
  {
    var i := 0;
    while i < |xs|
      invariant 0 <= i <= |xs|
      invariant forall k :: 0 <= k < a.Length ==> a[k] == if off <= k < off + i then xs[k - off] else old(a[k])
    {
      a[off + i] := xs[i];
      i := i + 1;
    }
    assert a[..] == Splice(old(a[..]), off, xs);
    assert a[.. off + |xs|] == old(a[.. off]) + xs;
  }

  /** Two `width`-byte slots exchanged through a temporary, as the flips do
      it: `memcpy(temp, p1)`, `memcpy(p1, p2)`, `memcpy(p2, temp)`. */
  function Swapped(s: seq<byte>, o1: nat, o2: nat, width: nat): (r: seq<byte>)
    requires o1 + width <= |s| && o2 + width <= |s|
    ensures |r| == |s|
  {
    Splice(Splice(s, o1, s[o2 .. o2 + width]), o2, s[o1 .. o1 + width])
  }

  /** What a swap of two disjoint slots leaves at each byte: each slot
      holds the other's old bytes, every other byte is unchanged. */
  lemma SwappedAt(s: seq<byte>, o1: nat, o2: nat, width: nat, k: nat)
    requires o1 + width <= |s| && o2 + width <= |s| && k < |s|
    requires o1 + width <= o2 || o2 + width <= o1
    ensures Swapped(s, o1, o2, width)[k]
         == if o1 <= k < o1 + width then s[o2 + (k - o1)]
            else if o2 <= k < o2 + width then s[o1 + (k - o2)]
            else s[k]
  {
  }

  /** Byte `b` of the first slot after a swap is byte `b` of the second. */
  lemma SwappedFirst(s: seq<byte>, o1: nat, o2: nat, width: nat, b: nat)
    requires o1 + width <= |s| && o2 + width <= |s| && b < width
    requires o1 + width <= o2 || o2 + width <= o1
    ensures Swapped(s, o1, o2, width)[o1 + b] == s[o2 + b]
  {
    SwappedAt(s, o1, o2, width, o1 + b);
  }

  /** Byte `b` of the second slot after a swap is byte `b` of the first. */
  lemma SwappedSecond(s: seq<byte>, o1: nat, o2: nat, width: nat, b: nat)
    requires o1 + width <= |s| && o2 + width <= |s| && b < width
    requires o1 + width <= o2 || o2 + width <= o1
    ensures Swapped(s, o1, o2, width)[o2 + b] == s[o1 + b]
  {
    SwappedAt(s, o1, o2, width, o2 + b);
  }

  /** Swapping twice restores the buffer. */
  lemma SwapInvolution(s: seq<byte>, o1: nat, o2: nat, width: nat)
    requires o1 + width <= |s| && o2 + width <= |s|
    requires o1 + width <= o2 || o2 + width <= o1
    ensures Swapped(Swapped(s, o1, o2, width), o1, o2, width) == s
  {
    var t := Swapped(s, o1, o2, width);
    forall k | 0 <= k < |s| ensures Swapped(t, o1, o2, width)[k] == s[k] {
      SwappedAt(t, o1, o2, width, k);
      if o1 <= k < o1 + width {
        SwappedAt(s, o1, o2, width, o2 + (k - o1));
      } else if o2 <= k < o2 + width {
        SwappedAt(s, o1, o2, width, o1 + (k - o2));
      } else {
        SwappedAt(s, o1, o2, width, k);
      }
    }
  }

  /** The swap, in place. */
  method SwapSlots(a: array<byte>, o1: nat, o2: nat, width: nat)
    requires o1 + width <= a.Length && o2 + width <= a.Length
    modifies a
    ensures a[..] == Swapped(old(a[..]), o1, o2, width)
  {
    var temp := a[o1 .. o1 + width];
    CopyInto(a, o1, a[o2 .. o2 + width]);
    CopyInto(a, o2, temp);
  }

  /** `n` zero bytes. */
  function Zeros(n: nat): (r: seq<byte>)
    ensures |r| == n && forall k :: 0 <= k < n ==> r[k] == 0
  {
    seq(n, _ => 0)
  }

  /** `memset(a, 0, a.Length)`. */
  method Fill(a: array<byte>)
    modifies a
    ensures a[..] == Zeros(a.Length)
  {
    var i := 0;
    while i < a.Length
      invariant 0 <= i <= a.Length
      invariant forall k :: 0 <= k < i ==> a[k] == 0
    {
      a[i] := 0;
      i := i + 1;
    }
  }

  /** `std::vector::resize`: the first `n` bytes kept, zeros appended when
      the vector grows. */
  function Resized(s: seq<byte>, n: nat): (r: seq<byte>)
    ensures |r| == n
    ensures forall k :: 0 <= k < n ==> r[k] == if k < |s| then s[k] else 0
  {
    if n <= |s| then s[.. n] else s + Zeros(n - |s|)
  }

  /** The resize of a vector's storage into a new buffer. */
  method Resize(a: array<byte>, n: nat) returns (b: array<byte>)
    ensures fresh(b) && b.Length == n
    ensures b[..] == Resized(a[..], n)
  {
    b := new byte[n];
    var i := 0;
    while i < n
      invariant 0 <= i <= n
      invariant forall k :: 0 <= k < i ==> b[k] == if k < a.Length then a[k] else 0
    {
      b[i] := if i < a.Length then a[i] else 0;
      i := i + 1;
    }
  }
}
