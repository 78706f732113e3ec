/** What the fragment parsers accept and read, stated on the bytes of any packet. */
module FragmentParsing {
  import opened Bytes
  import opened Fragments
  import IpHeaders
  import Ext = Ipv6Ext

  // ---- IPv4 ----

  /** The 13 bits of the fragment offset, in bytes. */
  function Offset4(p: seq<byte>): (n: nat)
    requires 8 <= |p|
  {
    8 * (p[6] as int % 32 * 256 + p[7] as int)
  }

  predicate More4(p: seq<byte>)
    requires 8 <= |p|
  {
    p[6] as int / 32 % 2 == 1
  }

  lemma FieldBits(high: byte, low: byte)
    ensures var field := high as int * 0x100 + low as int;
            && (field / 0x2000 % 2 == 1 <==> high as int / 32 % 2 == 1)
            && field % 0x2000 == high as int % 32 * 256 + low as int
            && (field % 0x4000 == 0 <==> high as int / 32 % 2 == 0 && high as int % 32 == 0 && low == 0)
            && (0x8000 <= field <==> 128 <= high)
  {
    var h, l := high as int, low as int;
    assert (h * 0x100 + l) / 0x2000 == h / 32;
    assert h == h / 64 * 64 + h / 32 % 2 * 32 + h % 32;
  }

  /** A piece of several: more follow, or it does not start the datagram. */
  predicate IsPiece4(p: seq<byte>)
  {
    20 <= |p| && p[0] / 16 == 4 && (More4(p) || Offset4(p) != 0)
  }

  /** Reserved bit clear, lengths that fit the packet and each other, and an end a 16-bit length can name. */
  predicate IsSound4(p: seq<byte>)
    requires 20 <= |p|
  {
    var header, total := p[0] as int % 16 * 4, U16(p, 2);
    && p[6] < 128 && 20 <= header < total <= |p| && (More4(p) ==> (total - header) % 8 == 0)
    && Offset4(p) + (total - header) <= 65535 - 20
  }

  function Identity4(input: Input): (k: Key)
    requires 20 <= |input.buffer.data|
  {
    var p := input.buffer.data;
    Key4(input.source, input.transferKey, input.provideMode, p[12..16], p[16..20], p[9],
         p[4] as int * 256 + p[5] as int)
  }

  lemma Reads4(input: Input)
    ensures var p := input.buffer.data;
            && (Parse4(input).NotFragment? <==> !IsPiece4(p))
            && (IsPiece4(p) && !IsSound4(p) ==> Parse4(input) == Malformed(Identity4(input)))
            && (IsPiece4(p) && IsSound4(p) ==>
                  var header := p[0] as int % 16 * 4;
                  Parse4(input) ==
                  Piece(Arrival(Identity4(input),
                                Fragment(Buffer(input.buffer.id, p[..U16(p, 2)]), header, header, Offset4(p), 0, 0),
                                More4(p), |p|)))
  {
    var p := input.buffer.data;
    if 20 <= |p| { FieldBits(p[6], p[7]); }
  }

  // ---- IPv6 ----

  /** A Fragment header that splits: an offset, or more to follow. */
  predicate Splits(p: seq<byte>, at: nat)
    requires at + 8 <= |p|
  {
    p[at + 3] as int % 2 == 1 || p[at + 2] != 0 || 8 <= p[at + 3]
  }

  /** The 13 bits of the fragment offset, in bytes. */
  function Offset6(p: seq<byte>, at: nat): (n: nat)
    requires at + 8 <= |p|
  {
    p[at + 2] as int * 256 + p[at + 3] as int / 8 * 8
  }

  lemma FieldBits6(high: byte, low: byte)
    ensures var field := high as int * 0x100 + low as int;
            && field - field % 8 == high as int * 256 + low as int / 8 * 8
            && field % 2 == low as int % 2
            && (field - field % 8 != 0 <==> high != 0 || 8 <= low)
  {
    var h, l := high as int, low as int;
    assert (h * 0x100 + l) % 8 == l % 8;
  }

  function Identity6(input: Input, at: nat): (k: Key)
    requires 40 <= at && at + 8 <= |input.buffer.data|
  {
    var p := input.buffer.data;
    Key6(input.source, input.transferKey, input.provideMode, p[8..24], p[24..40], U32(p, at + 4))
  }

  /**
   * A packet is a piece exactly where the walk ends at a Fragment header that splits, and sound where what follows is
   * not empty, whole unless it is the last, and ends where a 16-bit length can name it.
   */
  lemma Reads6(input: Input)
    requires !Parse6(input).NotFragment?
    ensures var p := input.buffer.data;
            && Ext.WalkOf(p).Some? && Ext.FragmentLayout(p, Ext.WalkOf(p).value)
            && var w := Ext.WalkOf(p).value;
               var at, end := w.fragment.value.headerOffset, Ext.PayloadEnd(p);
               var length := end - at - 8;
               && 40 <= at && at + 8 <= end <= |p| && Splits(p, at)
               && if length == 0 || (p[at + 3] as int % 2 == 1 && length % 8 != 0)
                     || 65535 < at - 40 + Offset6(p, at) + length
                  then Parse6(input) == Malformed(Identity6(input, at))
                  else
                    Parse6(input) ==
                    Piece(Arrival(Identity6(input, at),
                                  Fragment(Buffer(input.buffer.id, p[..end]), at, at + 8, Offset6(p, at),
                                           w.fragment.value.precedingNextHeaderFieldOffset, p[at]),
                                  p[at + 3] as int % 2 == 1, |p|))
  {
    var p := input.buffer.data;
    Ext.FragmentIsLaidOut(p);
    Ext.WalkBounds(p);
    var at := Ext.WalkOf(p).value.fragment.value.headerOffset;
    FieldBits6(p[at + 2], p[at + 3]);
  }

  /** An IPv6 packet the walk can follow is read whole or taken for a piece, never both; one it cannot is neither. */
  lemma WholeOrPiece6(input: Input)
    requires Ext.IsIpv6(input.buffer.data)
    ensures var p := input.buffer.data;
            if Ext.WalkOf(p).Some? then IpHeaders.ParseIpv6(p).Some? <==> Parse6(input).NotFragment?
            else IpHeaders.ParseIpv6(p).None? && Parse6(input).NotFragment?
  {
    Ext.PeeksAgreeWithWalk(input.buffer.data);
    IpHeaders.ParseIpv6IsWalk(input.buffer.data);
  }

  /** An IPv4 packet read whole is no piece; one that is no piece is read whole exactly when its lengths agree. */
  lemma WholeOrPiece4(input: Input)
    ensures var p := input.buffer.data;
            && (IpHeaders.ParseIpv4(p).Some? ==> Parse4(input).NotFragment?)
            && (Parse4(input).NotFragment? && 20 <= |p| && p[0] / 16 == 4 ==>
                  (IpHeaders.ParseIpv4(p).Some? <==>
                   20 <= p[0] as int % 16 * 4 <= U16(p, 2) <= |p|))
  {
    Reads4(input);
  }
}
