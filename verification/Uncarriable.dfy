/** Two pieces the IPv6 fragmenter makes that the receiver does not take for fragments. */
module Uncarriable {
  import opened Bytes
  import opened Options
  import opened Fragments
  import opened Fragmenter
  import opened PieceParsing
  import Ext = Ipv6Ext

  /** A UDP packet with the largest payload its length field can name. */
  function Largest(): (p: seq<byte>)
    ensures |p| == 40 + 0xffff
  {
    [0x60, 0, 0, 0, 0xff, 0xff, 17, 64] + Zeros(32) + Zeros(0xffff)
  }

  /** All but its last seven bytes, which a direct call with an MTU of 65576 cuts first. */
  const CUT: Cut := Cut(0, 65528)

  lemma LargestIsPlain()
    ensures Plain6(Largest(), 40 + 0xffff) && CutOf(CUT, 0xffff) && !Carriable(CUT)
    ensures RoundDown8(65576 - HEADER6 - 8) == 65528 && CutFrom(0xffff, 65528, 0)[0] == CUT
  {
    assert U16(Largest(), 4) == 0xffff;
  }

  /** The piece: a payload length of 65536 leaves zero in the field. */
  function Piece(identification: uint32): (p: seq<byte>)
  {
    [0x60, 0, 0, 0, 0, 0, Ext.NEXT_FRAGMENT, 64] + Zeros(32) + [17, 0, 0, 1] + Be32(identification) + Zeros(65528)
  }

  lemma PieceCarries(identification: uint32)
    ensures Plain6(Largest(), 40 + 0xffff) && CutOf(CUT, 0xffff)
    ensures CarriesCut6(Piece(identification), Largest(), 40 + 0xffff, identification, CUT)
  {
    LargestIsPlain();
    var p, q := Piece(identification), Largest();
    assert p[44..48] == Be32(identification);
    assert p[48..] == Zeros(65528) == q[40..40 + 65528];
    assert U16(p, 42) == 1 == Field6(CUT, 0xffff);
  }

  /** The fragmenter's own first piece is not taken for a fragment. */
  lemma FirstPieceLost(input: Input, identification: uint32)
    requires input.buffer.data == Piece(identification)
    ensures Parse6(input).NotFragment?
  {
    LargestIsPlain();
    PieceCarries(identification);
    UncarriablePiece6(Largest(), 40 + 0xffff, identification, CUT, input);
  }

  // ---- a packet that fits ----

  /** A UDP packet of eight zero bytes, and the one piece every allowed MTU makes of it. */
  const SMALL: seq<byte> := [0x60, 0, 0, 0, 0, 8, 17, 64] + Zeros(32) + Zeros(8)

  function OnlyPiece(identification: uint32): (p: seq<byte>)
  {
    [0x60, 0, 0, 0, 0, 16, Ext.NEXT_FRAGMENT, 64] + Zeros(32) + [17, 0, 0, 0] + Be32(identification) + Zeros(8)
  }

  lemma OnlyPieceCarries(identification: uint32)
    ensures Plain6(SMALL, 48) && CutOf(Cut(0, 8), 8)
    ensures forall size: nat :: 8 <= size ==> CutFrom(8, size, 0) == [Cut(0, 8)]
    ensures CarriesCut6(OnlyPiece(identification), SMALL, 48, identification, Cut(0, 8))
  {
    var p := OnlyPiece(identification);
    assert U16(SMALL, 4) == 8;
    assert p[44..48] == Be32(identification);
    assert p[48..] == Zeros(8) == SMALL[40..48];
    assert U16(p, 42) == 0 == Field6(Cut(0, 8), 8);
  }

  lemma OnlyPieceIsNoFragment(input: Input, identification: uint32)
    requires input.buffer.data == OnlyPiece(identification)
    ensures Parse6(input).NotFragment? && Ext.TransportOffset(input.buffer.data) == Some((17, 48, 56))
  {
    OnlyPieceCarries(identification);
    AtomicPiece6(SMALL, 48, identification, Cut(0, 8), input);
  }
}
