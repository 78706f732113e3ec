/** The reassembler's parser undoes the fragmenters, field by field. */
module PieceParsing {
  import opened Bytes
  import opened Options
  import opened Fragments
  import opened Fragmenter
  import Ext = Ipv6Ext

  /** A cut the fragmenter makes: non-empty, in multiples of 8 up to the last. */
  predicate Eightfold(cut: Cut, total: int)
  {
    cut.offset < cut.end <= total && cut.offset % 8 == 0 && (cut.end < total ==> (cut.end - cut.offset) % 8 == 0)
  }

  /** The whole payload in one cut. */
  predicate IsWhole(cut: Cut, total: int)
  {
    cut.offset == 0 && cut.end == total
  }

  /** A cut of several. */
  predicate Aligned(cut: Cut, total: int)
  {
    Eightfold(cut, total) && !IsWhole(cut, total)
  }

  lemma CutsEightfold(cuts: seq<Cut>, total: nat, size: nat, i: nat)
    requires 0 < size && size % 8 == 0 && Covers(cuts, total, size, 0) && AllCutOf(cuts, total) && i < |cuts|
    ensures Eightfold(cuts[i], total) && (IsWhole(cuts[i], total) <==> |cuts| == 1)
  {
    CutOffsets(total, size, cuts, i);
    if i > 0 { assert cuts[i].offset == cuts[i - 1].end && cuts[i - 1].offset < cuts[i - 1].end; }
  }

  // ---- IPv4 ----

  lemma FlagsDecode(offset: nat, more: bool)
    requires offset % 8 == 0 && offset < 0x1_0000 && (offset == 0 ==> more)
    ensures var field := offset / 8 + (if more then 0x2000 else 0);
            field < 0x8000 && field % 0x4000 != 0 && (field / 0x2000 % 2 == 1 <==> more) && field % 0x2000 * 8 == offset
  {
  }

  function Fragment4(buffer: Buffer, header: nat, offset: nat): (f: Fragment)
  {
    Fragment(buffer, header, header, offset, 0, 0)
  }

  lemma ParseFields4(input: Input, header: nat, offset: nat, more: bool)
    requires var p := input.buffer.data;
             && HEADER4 <= header < |p| <= 0xffff && p[0] / 16 == 4 && p[0] as int % 16 * 4 == header
             && U16(p, 2) == |p| && U16(p, 6) == offset / 8 + (if more then 0x2000 else 0)
             && offset % 8 == 0 && (offset == 0 ==> more) && offset + |p| - header <= 0xffff - HEADER4
             && (more ==> (|p| - header) % 8 == 0)
    ensures Parse4(input) ==
              Piece(Arrival(KeyOf4(input), Fragment4(input.buffer, header, offset), more, |input.buffer.data|))
  {
    var p := input.buffer.data;
    FlagsDecode(offset, more);
    assert p[..|p|] == p;
  }

  function KeyFor4(input: Input, packet: seq<byte>, identification: uint16): (k: Key)
    requires HEADER4 <= |packet|
  {
    Key4(input.source, input.transferKey, input.provideMode, packet[12..16], packet[16..20], packet[9], identification)
  }

  /** A fragment of `packet` parses to its place in the packet, under the packet's own key. */
  lemma Piece4Parses(packet: seq<byte>, header: nat, identification: uint16, cut: Cut, input: Input)
    requires Header4(packet, header) && CutOf(cut, |packet| - header) && Aligned(cut, |packet| - header)
    requires CarriesCut4(input.buffer.data, packet, header, identification, cut)
    ensures Parse4(input) ==
              Piece(Arrival(KeyFor4(input, packet, identification), Fragment4(input.buffer, header, cut.offset),
                            cut.end < |packet| - header, |input.buffer.data|))
  {
    var p := input.buffer.data;
    assert p[0] == packet[0] && p[9] == packet[9];
    assert p[12..16] == packet[12..16] && p[16..20] == packet[16..20];
    PieceFields4(p, packet, header, identification, cut);
    ParseFields4(input, header, cut.offset, cut.end < |packet| - header);
  }

  /** The one piece of a packet that fits is an ordinary packet again. */
  lemma WholePiece4(packet: seq<byte>, header: nat, identification: uint16, cut: Cut, input: Input)
    requires Header4(packet, header) && CutOf(cut, |packet| - header) && IsWhole(cut, |packet| - header)
    requires CarriesCut4(input.buffer.data, packet, header, identification, cut)
    ensures Parse4(input).NotFragment?
  {
    PieceFields4(input.buffer.data, packet, header, identification, cut);
  }

  /** A piece is a fragment if and only if it is not the whole payload. */
  lemma Piece4Exactly(packet: seq<byte>, header: nat, identification: uint16, cut: Cut, input: Input)
    requires Header4(packet, header) && CutOf(cut, |packet| - header) && Eightfold(cut, |packet| - header)
    requires CarriesCut4(input.buffer.data, packet, header, identification, cut)
    ensures Parse4(input).Piece? <==> !IsWhole(cut, |packet| - header)
  {
    if IsWhole(cut, |packet| - header) {
      WholePiece4(packet, header, identification, cut, input);
    } else {
      Piece4Parses(packet, header, identification, cut, input);
    }
  }

  // ---- IPv6 ----

  /** A piece whose payload length its header can carry. */
  predicate Carriable(cut: Cut)
  {
    8 + cut.end - cut.offset <= 0xffff
  }

  function Info6(packet: seq<byte>, identification: uint32, cut: Cut, total: int): (f: Ext.FragmentInfo)
    requires HEADER6 <= |packet|
  {
    Ext.FragmentInfo(HEADER6, 6, packet[6], cut.offset, cut.end < total, identification)
  }

  lemma Piece6Starts(packet: seq<byte>, declaredEnd: nat, identification: uint32, cut: Cut, p: seq<byte>)
    requires Plain6(packet, declaredEnd) && CutOf(cut, declaredEnd - HEADER6)
    requires CarriesCut6(p, packet, declaredEnd, identification, cut) && |p| <= HEADER6 + 0xffff
    ensures Ext.IsIpv6(p) && Ext.PayloadEnd(p) == |p| && p[6] == Ext.NEXT_FRAGMENT
  {
    assert p[0] == packet[0];
  }

  lemma Piece6Info(packet: seq<byte>, declaredEnd: nat, identification: uint32, cut: Cut, p: seq<byte>)
    requires Plain6(packet, declaredEnd) && CutOf(cut, declaredEnd - HEADER6) && Eightfold(cut, declaredEnd - HEADER6)
    requires CarriesCut6(p, packet, declaredEnd, identification, cut)
    ensures Ext.FragmentAt(p, HEADER6, 6) == Info6(packet, identification, cut, declaredEnd - HEADER6)
    ensures Ext.NonAtomic(Ext.FragmentAt(p, HEADER6, 6)) <==> !IsWhole(cut, declaredEnd - HEADER6)
  {
  }

  /** A Fragment header right after the fixed one ends the walk. */
  lemma FragmentStops(p: seq<byte>)
    requires Ext.IsIpv6(p) && Ext.PayloadEnd(p) == |p| && HEADER6 + 8 <= |p| && p[6] == Ext.NEXT_FRAGMENT
    requires Ext.NonAtomic(Ext.FragmentAt(p, HEADER6, 6))
    ensures var f := Ext.FragmentAt(p, HEADER6, 6);
            Ext.WalkOf(p) == Some(Ext.Walk(f.nextHeader, HEADER6 + 8, |p|, Some(f), true))
  {
    Ext.IterateStops(Ext.Stepper(p, |p|), Ext.Start(p), Ext.MAX_HEADERS);
  }

  lemma Piece6Walks(packet: seq<byte>, declaredEnd: nat, identification: uint32, cut: Cut, p: seq<byte>)
    requires Plain6(packet, declaredEnd) && CutOf(cut, declaredEnd - HEADER6) && Aligned(cut, declaredEnd - HEADER6)
    requires CarriesCut6(p, packet, declaredEnd, identification, cut) && |p| <= HEADER6 + 0xffff
    ensures Ext.WalkOf(p) ==
              Some(Ext.Walk(packet[6], HEADER6 + 8, |p|,
                            Some(Info6(packet, identification, cut, declaredEnd - HEADER6)), true))
  {
    Piece6Starts(packet, declaredEnd, identification, cut, p);
    Piece6Info(packet, declaredEnd, identification, cut, p);
    FragmentStops(p);
  }

  /** An atomic Fragment header is walked through like any other header. */
  lemma AtomicPasses(p: seq<byte>)
    requires Ext.IsIpv6(p) && Ext.PayloadEnd(p) == |p| && HEADER6 + 8 <= |p| && p[6] == Ext.NEXT_FRAGMENT
    requires !Ext.NonAtomic(Ext.FragmentAt(p, HEADER6, 6)) && !Ext.IsExtensionHeader(p[HEADER6])
    ensures Ext.WalkOf(p) ==
              Some(Ext.Walk(p[HEADER6], HEADER6 + 8, |p|, Some(Ext.FragmentAt(p, HEADER6, 6)), false))
  {
    var f := Ext.FragmentAt(p, HEADER6, 6);
    var next := Ext.Cursor(p[HEADER6], HEADER6 + 8, HEADER6, Some(f));
    assert Ext.StepOf(p, |p|, Ext.Start(p)) == Ext.Go(next);
    Ext.IterateGoes(Ext.Stepper(p, |p|), Ext.Start(p), Ext.MAX_HEADERS);
    Ext.IterateStops(Ext.Stepper(p, |p|), next, Ext.MAX_HEADERS - 1);
  }

  /** The one piece of a packet that fits is no fragment to the receiver: it reads as that packet's transport. */
  lemma AtomicPiece6(packet: seq<byte>, declaredEnd: nat, identification: uint32, cut: Cut, input: Input)
    requires Plain6(packet, declaredEnd) && CutOf(cut, declaredEnd - HEADER6) && Eightfold(cut, declaredEnd - HEADER6)
    requires IsWhole(cut, declaredEnd - HEADER6) && Carriable(cut)
    requires CarriesCut6(input.buffer.data, packet, declaredEnd, identification, cut)
    ensures Parse6(input).NotFragment?
    ensures var p := input.buffer.data;
            && Ext.TransportOffset(p) == Some((packet[6], HEADER6 + 8, |p|))
            && p[HEADER6 + 8..] == packet[HEADER6..declaredEnd]
  {
    var p := input.buffer.data;
    Piece6Starts(packet, declaredEnd, identification, cut, p);
    Piece6Info(packet, declaredEnd, identification, cut, p);
    AtomicPasses(p);
    Ext.PeeksAgreeWithWalk(p);
  }

  function KeyFor6(input: Input, packet: seq<byte>, identification: uint32): (k: Key)
    requires HEADER6 <= |packet|
  {
    Key6(input.source, input.transferKey, input.provideMode, packet[8..24], packet[24..40], identification)
  }

  function Fragment6(buffer: Buffer, packet: seq<byte>, offset: nat): (f: Fragment)
    requires HEADER6 <= |packet|
  {
    Fragment(buffer, HEADER6, HEADER6 + 8, offset, 6, packet[6])
  }

  lemma Piece6Parses(packet: seq<byte>, declaredEnd: nat, identification: uint32, cut: Cut, input: Input)
    requires Plain6(packet, declaredEnd) && CutOf(cut, declaredEnd - HEADER6) && Aligned(cut, declaredEnd - HEADER6)
    requires CarriesCut6(input.buffer.data, packet, declaredEnd, identification, cut)
    requires |input.buffer.data| <= HEADER6 + 0xffff
    ensures Parse6(input) ==
              Piece(Arrival(KeyFor6(input, packet, identification), Fragment6(input.buffer, packet, cut.offset),
                            cut.end < declaredEnd - HEADER6, |input.buffer.data|))
  {
    var p := input.buffer.data;
    Piece6Walks(packet, declaredEnd, identification, cut, p);
    Ext.PeeksAgreeWithWalk(p);
    PieceOf6Reads(packet, declaredEnd, identification, cut, input, Ext.WalkOf(p).value);
  }

  lemma PieceOf6Reads(packet: seq<byte>, declaredEnd: nat, identification: uint32, cut: Cut, input: Input,
                      walk: Ext.Walk)
    requires Plain6(packet, declaredEnd) && CutOf(cut, declaredEnd - HEADER6) && Aligned(cut, declaredEnd - HEADER6)
    requires CarriesCut6(input.buffer.data, packet, declaredEnd, identification, cut)
    requires walk ==
               Ext.Walk(packet[6], HEADER6 + 8, |input.buffer.data|,
                        Some(Info6(packet, identification, cut, declaredEnd - HEADER6)), true)
    ensures Ext.FragmentLayout(input.buffer.data, walk)
    ensures PieceOf6(input, walk) ==
              Piece(Arrival(KeyFor6(input, packet, identification), Fragment6(input.buffer, packet, cut.offset),
                            cut.end < declaredEnd - HEADER6, |input.buffer.data|))
  {
    var p := input.buffer.data;
    assert p[8..24] == packet[8..24] && p[24..40] == packet[24..40];
    assert p[..|p|] == p;
  }

  /** A piece whose payload length overflows its 16-bit field is not even taken for a fragment. */
  lemma UncarriablePiece6(packet: seq<byte>, end: nat, identification: uint32, cut: Cut, input: Input)
    requires Plain6(packet, end) && CutOf(cut, end - HEADER6) && !Carriable(cut)
    requires CarriesCut6(input.buffer.data, packet, end, identification, cut)
    ensures Parse6(input).NotFragment?
  {
    var p := input.buffer.data;
    var c := Ext.Start(p);
    assert U16(p, 4) < 8;
    assert Ext.StepOf(p, Ext.PayloadEnd(p), c) == Ext.Stop(None);
    Ext.IterateStops(Ext.Stepper(p, Ext.PayloadEnd(p)), c, Ext.MAX_HEADERS);
    Ext.PeeksAgreeWithWalk(p);
  }

  /** A piece is a fragment if and only if its length field can carry it and it is not the whole payload. */
  lemma Piece6Exactly(packet: seq<byte>, end: nat, identification: uint32, cut: Cut, input: Input)
    requires Plain6(packet, end) && CutOf(cut, end - HEADER6) && Eightfold(cut, end - HEADER6)
    requires CarriesCut6(input.buffer.data, packet, end, identification, cut)
    ensures Parse6(input).Piece? <==> Carriable(cut) && !IsWhole(cut, end - HEADER6)
  {
    if !Carriable(cut) {
      UncarriablePiece6(packet, end, identification, cut, input);
    } else if IsWhole(cut, end - HEADER6) {
      AtomicPiece6(packet, end, identification, cut, input);
    } else {
      Piece6Parses(packet, end, identification, cut, input);
    }
  }

  lemma CutExactly6(packet: seq<byte>, end: nat, identification: uint32, cuts: seq<Cut>, size: nat, p: seq<byte>,
                    i: nat, input: Input)
    requires Plain6(packet, end) && i < |cuts| && input.buffer.data == p
    requires 0 < size && size % 8 == 0 && Covers(cuts, end - HEADER6, size, 0) && AllCutOf(cuts, end - HEADER6)
    requires CarriesCut6(p, packet, end, identification, cuts[i])
    ensures Parse6(input).Piece? <==> 2 <= |cuts| && |p| <= HEADER6 + 0xffff
  {
    CutsEightfold(cuts, end - HEADER6, size, i);
    Piece6Exactly(packet, end, identification, cuts[i], input);
  }

  /** What `fragmentIpv6Packet` makes is a fragment if and only if it makes several and a length field carries it. */
  lemma FragmentedExactly6(packet: seq<byte>, end: nat, mtu: int, identification: uint32, pieces: seq<seq<byte>>,
                           i: nat, input: Input)
    requires Plain6(packet, end) && 8 <= RoundDown8(mtu - HEADER6 - 8) && |pieces| == |CutsFor6(packet, end, mtu)|
    requires CarriesCuts6(pieces, packet, end, identification, CutsFor6(packet, end, mtu))
    requires i < |pieces| && input.buffer.data == pieces[i]
    ensures Parse6(input).Piece? <==> 2 <= |pieces| && |pieces[i]| <= HEADER6 + 0xffff
  {
    var cuts, size := CutsFor6(packet, end, mtu), RoundDown8(mtu - HEADER6 - 8);
    CutsCover(end - HEADER6, size, 0);
    CutExactly6(packet, end, identification, cuts, size, pieces[i], i, input);
  }
}
