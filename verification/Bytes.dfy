/** Octets, unsigned machine words and the big-endian accessors of the packet code. */
module Bytes {
  type byte = x: int | 0 <= x < 0x100
  type uint16 = x: int | 0 <= x < 0x1_0000
  type uint32 = x: int | 0 <= x < 0x1_0000_0000
  type uint64 = x: int | 0 <= x < 0x1_0000_0000_0000_0000

  function Min(a: int, b: int): int { if a <= b then a else b }

  function Max(a: int, b: int): int { if a <= b then b else a }

  /** The big-endian 16-bit word at index `i`. */
  function U16(b: seq<byte>, i: nat): (v: uint16)
    requires i + 2 <= |b|
  {
    b[i] as int * 0x100 + b[i + 1] as int
  }

  /** The big-endian 32-bit word at index `i`. */
  function U32(b: seq<byte>, i: nat): (v: uint32)
    requires i + 4 <= |b|
  {
    U16(b, i) * 0x1_0000 + U16(b, i + 2)
  }

  function Be16(v: uint16): (s: seq<byte>)
    ensures |s| == 2 && U16(s, 0) == v
  {
    [v / 0x100, v % 0x100]
  }

  function Be32(v: uint32): (s: seq<byte>)
    ensures |s| == 4 && U32(s, 0) == v
  {
    Be16(v / 0x1_0000) + Be16(v % 0x1_0000)
  }

  lemma Be16Inverse(b: seq<byte>, i: nat)
    requires i + 2 <= |b|
    ensures Be16(U16(b, i)) == b[i..i + 2]
  {
  }

  lemma Be32Inverse(b: seq<byte>, i: nat)
    requires i + 4 <= |b|
    ensures Be32(U32(b, i)) == b[i..i + 4]
  {
    Be16Inverse(b, i);
    Be16Inverse(b, i + 2);
    Halves(U16(b, i), U16(b, i + 2));
    assert b[i..i + 4] == b[i..i + 2] + b[i + 2..i + 4];
  }

  lemma Halves(high: uint16, low: uint16)
    ensures (high * 0x1_0000 + low) / 0x1_0000 == high
    ensures (high * 0x1_0000 + low) % 0x1_0000 == low
  {
  }

  function Zeros(n: nat): (b: seq<byte>)
    ensures |b| == n
  {
    seq(n, i => 0)
  }

  /** `b` with the bytes from index `i` on replaced by `s`: what Go's `copy(b[i:], s)` leaves. */
  function Overwrite(b: seq<byte>, i: nat, s: seq<byte>): (r: seq<byte>)
    requires i + |s| <= |b|
    ensures |r| == |b|
    ensures forall j :: 0 <= j < |b| ==> r[j] == if i <= j < i + |s| then s[j - i] else b[j]
  {
    b[..i] + s + b[i + |s|..]
  }

  lemma OverwritePrefix(b: seq<byte>, i: nat, s: seq<byte>)
    requires i + |s| <= |b|
    ensures Overwrite(b, i, s)[..i + |s|] == b[..i] + s
  {
  }

  /** Copies `src` over the bytes of `dst` from index `at`. */
  method CopyInto(dst: array<byte>, at: nat, src: seq<byte>)
    requires at + |src| <= dst.Length
    modifies dst
    ensures dst[..] == Overwrite(old(dst[..]), at, src)
  {
    for i := 0 to |src|
      invariant forall j :: 0 <= j < dst.Length ==>
                              dst[j] == if at <= j < at + i then src[j - at] else old(dst[j])
    {
      dst[at + i] := src[i];
    }
  }
}
