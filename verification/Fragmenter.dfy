/** Cutting a complete packet into fragments (`fragmentIpv4Packet`, `fragmentIpv6Packet`). */
module Fragmenter {
  import opened Bytes
  import opened Headers
  import opened Fragments
  import opened Assembly
  import Ext = Ipv6Ext

  datatype FragmentError = InvalidPacket | MtuTooSmall | HasExtensionHeaders
  datatype Outcome = Fragmented(pieces: seq<seq<byte>>) | Failed(error: FragmentError)

  /** The largest multiple of 8 that is at most `n`, as Go's `n &^ 7`. */
  function RoundDown8(n: int): (r: int)
    ensures r % 8 == 0 && r <= n < r + 8
  {
    n - n % 8
  }

  // ---- where to cut ----

  datatype Cut = Cut(offset: nat, end: nat)

  function CutFrom(total: nat, size: nat, offset: nat): (cuts: seq<Cut>)
    requires 0 < size && offset <= total
    decreases total - offset
  {
    if offset == total then []
    else
      var end := Min(offset + size, total);
      [Cut(offset, end)] + CutFrom(total, size, end)
  }

  /** The cuts tile [offset, total); all but the last are `size` long. */
  ghost predicate Covers(cuts: seq<Cut>, total: nat, size: nat, offset: nat)
  {
    && (cuts == [] <==> offset == total)
    && (forall i :: 0 <= i < |cuts| ==> cuts[i].offset < cuts[i].end <= total && cuts[i].end - cuts[i].offset <= size)
    && (cuts != [] ==> cuts[0].offset == offset)
    && (forall i :: 0 < i < |cuts| ==> cuts[i].offset == cuts[i - 1].end)
    && (forall i :: 0 <= i < |cuts| ==> (cuts[i].end < total <==> i < |cuts| - 1))
    && (forall i :: 0 <= i < |cuts| - 1 ==> cuts[i].end - cuts[i].offset == size)
  }

  lemma CoversCons(rest: seq<Cut>, total: nat, size: nat, offset: nat, end: nat)
    requires 0 < size && offset < total && end == Min(offset + size, total) && Covers(rest, total, size, end)
    ensures Covers([Cut(offset, end)] + rest, total, size, offset)
  {
    var cuts := [Cut(offset, end)] + rest;
    assert forall i :: 0 < i < |cuts| ==> cuts[i] == rest[i - 1];
    forall i | 0 < i < |cuts| ensures cuts[i].offset == cuts[i - 1].end {
      assert cuts[i] == rest[i - 1];
      if i > 1 { assert cuts[i - 1] == rest[i - 2] && rest[i - 1].offset == rest[i - 1 - 1].end; }
    }
  }

  lemma {:induction false} CutsCover(total: nat, size: nat, offset: nat)
    requires 0 < size && offset <= total
    ensures Covers(CutFrom(total, size, offset), total, size, offset)
    ensures AllCutOf(CutFrom(total, size, offset), total)
    decreases total - offset
  {
    if offset < total {
      var end := Min(offset + size, total);
      CutsCover(total, size, end);
      CoversCons(CutFrom(total, size, end), total, size, offset, end);
    }
  }

  lemma {:induction false} CutOffsets(total: nat, size: nat, cuts: seq<Cut>, i: nat)
    requires 0 < size && size % 8 == 0 && Covers(cuts, total, size, 0) && i < |cuts|
    ensures cuts[i].offset % 8 == 0
  {
    if i > 0 {
      CutOffsets(total, size, cuts, i - 1);
      assert cuts[i - 1].end - cuts[i - 1].offset == size;
      assert cuts[i].offset == cuts[i - 1].end;
    }
  }

  predicate CutOf(cut: Cut, total: int)
  {
    cut.offset <= cut.end <= total
  }

  predicate AllCutOf(cuts: seq<Cut>, total: int)
  {
    forall i :: 0 <= i < |cuts| ==> CutOf(cuts[i], total)
  }

  lemma NextCut(cuts: seq<Cut>, total: nat, size: nat, i: nat)
    requires 0 < size && Covers(cuts, total, size, 0) && i < |cuts|
    ensures cuts[i] == Cut(cuts[i].offset, Min(cuts[i].offset + size, total))
    ensures cuts[i].end == if i + 1 < |cuts| then cuts[i + 1].offset else total
  {
  }

  lemma AllCut(cuts: seq<Cut>, total: nat, size: nat, n: nat, offset: nat)
    requires 0 < size && Covers(cuts, total, size, 0) && n <= |cuts|
    requires total <= offset && offset == if n < |cuts| then cuts[n].offset else total
    ensures n == |cuts|
  {
  }

  // ---- IPv4 ----

  /** A well-formed header: version 4, and the header length it declares. */
  predicate Headed4(packet: seq<byte>, header: nat)
  {
    HEADER4 <= header <= |packet| && packet[0] / 16 == 4 && packet[0] as int % 16 * 4 == header
  }

  /** A packet whose length its header can carry. */
  predicate Header4(packet: seq<byte>, header: nat)
  {
    Headed4(packet, header) && |packet| <= 0xffff
  }

  /** Offset in 8-byte units, in 16 bits, with the more-fragments bit set unless this is the last cut. */
  function Flags4(cut: Cut, total: nat): (v: uint16)
    requires CutOf(cut, total)
  {
    var units := cut.offset / 8 % 0x1_0000;
    if cut.end < total && units / 0x2000 % 2 == 0 then units + 0x2000 else units
  }

  /** The header bytes a fragment copies: all but length, identification, flags and checksum. */
  predicate Copied4(j: int)
  {
    !(2 <= j < 8) && j != 10 && j != 11
  }

  /** `p` is the fragment of `packet` for `cut`, its header checksum included. */
  ghost predicate CarriesCut4(p: seq<byte>, packet: seq<byte>, header: nat, identification: uint16, cut: Cut)
    requires Headed4(packet, header) && CutOf(cut, |packet| - header)
  {
    && |p| == header + cut.end - cut.offset
    && U16(p, 2) == |p| % 0x1_0000 && U16(p, 4) == identification && U16(p, 6) == Flags4(cut, |packet| - header)
    && (forall j :: 0 <= j < header && Copied4(j) ==> p[j] == packet[j])
    && p[header..] == packet[header + cut.offset..header + cut.end]
    && p == HeaderSealed(p, header)
  }

  /** Where the packet fits its header, so do the length and the offset of every piece. */
  lemma PieceFields4(p: seq<byte>, packet: seq<byte>, header: nat, identification: uint16, cut: Cut)
    requires Header4(packet, header) && CutOf(cut, |packet| - header)
             && CarriesCut4(p, packet, header, identification, cut)
    ensures U16(p, 2) == |p| && U16(p, 6) == cut.offset / 8 + (if cut.end < |packet| - header then 0x2000 else 0)
  {
  }

  ghost predicate CarriesCuts4(ps: seq<seq<byte>>, packet: seq<byte>, header: nat, identification: uint16,
                               cuts: seq<Cut>)
    requires Headed4(packet, header) && AllCutOf(cuts, |packet| - header)
  {
    |ps| <= |cuts| && forall i :: 0 <= i < |ps| ==> CarriesCut4(ps[i], packet, header, identification, cuts[i])
  }

  method Stamp4(fragment: array<byte>, header: nat, identification: uint16, field: uint16)
    requires HEADER4 <= header <= fragment.Length && header <= 0xffff
    modifies fragment
    ensures var p := fragment[..];
            && U16(p, 2) == |p| % 0x1_0000 && U16(p, 4) == identification && U16(p, 6) == field
            && (forall j :: 0 <= j < |p| && Copied4(j) ==> p[j] == old(fragment[..])[j])
            && p == HeaderSealed(p, header)
  {
    Put16(fragment, 2, fragment.Length % 0x1_0000);
    Put16(fragment, 4, identification);
    Put16(fragment, 6, field);
    ghost var q := fragment[..];
    WriteIpv4HeaderChecksum(fragment, header);
    HeaderSealedForgets(q, fragment[..], header);
    assert U16(q, 2) == fragment.Length % 0x1_0000 && U16(q, 4) == identification && U16(q, 6) == field;
  }

  method BuildPiece4(packet: seq<byte>, header: nat, identification: uint16, cut: Cut) returns (p: seq<byte>)
    requires Headed4(packet, header) && CutOf(cut, |packet| - header)
    ensures CarriesCut4(p, packet, header, identification, cut)
  {
    var fragment := FromBytes(packet[..header] + packet[header + cut.offset..header + cut.end]);
    Stamp4(fragment, header, identification, Flags4(cut, |packet| - header));
    p := fragment[..];
  }

  method CutPieces4(packet: seq<byte>, header: nat, identification: uint16, size: nat, ghost cuts: seq<Cut>)
    returns (pieces: seq<seq<byte>>)
    requires Headed4(packet, header) && 0 < size
    requires Covers(cuts, |packet| - header, size, 0) && AllCutOf(cuts, |packet| - header)
    ensures |pieces| == |cuts| && CarriesCuts4(pieces, packet, header, identification, cuts)
  {
    var total := |packet| - header;
    pieces := [];
    var offset := 0;
    while offset < total
      invariant |pieces| <= |cuts| && 0 <= offset <= total
      invariant offset == if |pieces| < |cuts| then cuts[|pieces|].offset else total
      invariant CarriesCuts4(pieces, packet, header, identification, cuts)
    {
      var cut := Cut(offset, Min(offset + size, total));
      NextCut(cuts, total, size, |pieces|);
      assert cut == cuts[|pieces|];
      var fragment := BuildPiece4(packet, header, identification, cut);
      pieces := pieces + [fragment];
      offset := cut.end;
    }
    AllCut(cuts, total, size, |pieces|, offset);
  }

  /** The cuts the fragmenter makes for an MTU. */
  function CutsFor4(packet: seq<byte>, header: nat, mtu: int): (cuts: seq<Cut>)
    requires Headed4(packet, header) && 8 <= RoundDown8(mtu - header)
    ensures AllCutOf(cuts, |packet| - header)
  {
    CutsCover(|packet| - header, RoundDown8(mtu - header), 0);
    CutFrom(|packet| - header, RoundDown8(mtu - header), 0)
  }

  /** `fragmentIpv4Packet`. */
  method FragmentIpv4Packet(packet: seq<byte>, mtu: int, identification: uint16) returns (r: Outcome)
    ensures r == Failed(InvalidPacket) <==> forall header: nat :: !Headed4(packet, header)
    ensures r == Failed(MtuTooSmall) <==> exists header: nat :: Headed4(packet, header) && mtu < header + 8
    ensures r.Fragmented? <==> exists header: nat :: Headed4(packet, header) && header + 8 <= mtu
    ensures r.Fragmented? ==>
              var header := packet[0] as int % 16 * 4;
              && Headed4(packet, header) && 8 <= RoundDown8(mtu - header)
              && |r.pieces| == |CutsFor4(packet, header, mtu)|
              && CarriesCuts4(r.pieces, packet, header, identification, CutsFor4(packet, header, mtu))
  {
    if |packet| < HEADER4 || packet[0] / 16 != 4 { return Failed(InvalidPacket); }
    var header := packet[0] as int % 16 * 4;
    if header < HEADER4 || |packet| < header { return Failed(InvalidPacket); }
    assert Headed4(packet, header);
    var size := RoundDown8(mtu - header);
    if size < 8 { return Failed(MtuTooSmall); }
    CutsCover(|packet| - header, size, 0);
    var pieces := CutPieces4(packet, header, identification, size, CutsFor4(packet, header, mtu));
    r := Fragmented(pieces);
  }

  // ---- IPv6 ----

  /** A complete packet without extension headers, and the end its payload length declares. */
  predicate Plain6(packet: seq<byte>, declaredEnd: nat)
  {
    Ext.IsIpv6(packet) && HEADER6 <= declaredEnd == Ext.PayloadEnd(packet) && declaredEnd <= |packet|
      && !Ext.IsExtensionHeader(packet[6])
  }

  /** The byte offset, a multiple of 8, with the M bit unless this is the last cut. */
  function Field6(cut: Cut, total: nat): (v: uint16)
    requires CutOf(cut, total) && total <= 0xffff
  {
    cut.offset + (if cut.end < total then 1 else 0)
  }

  /** `p` is the fragment of `packet` for `cut`: base header, Fragment header, payload. */
  ghost predicate CarriesCut6(p: seq<byte>, packet: seq<byte>, declaredEnd: nat, identification: uint32, cut: Cut)
    requires Plain6(packet, declaredEnd) && CutOf(cut, declaredEnd - HEADER6)
  {
    && |p| == HEADER6 + 8 + cut.end - cut.offset
    && U16(p, 4) == (|p| - HEADER6) % 0x1_0000 && p[6] == Ext.NEXT_FRAGMENT
    && (forall j :: 0 <= j < HEADER6 && j != 4 && j != 5 && j != 6 ==> p[j] == packet[j])
    && p[HEADER6] == packet[6] && p[HEADER6 + 1] == 0
    && U16(p, HEADER6 + 2) == Field6(cut, declaredEnd - HEADER6) && U32(p, HEADER6 + 4) == identification
    && p[HEADER6 + 8..] == packet[HEADER6 + cut.offset..HEADER6 + cut.end]
  }

  ghost predicate CarriesCuts6(ps: seq<seq<byte>>, packet: seq<byte>, declaredEnd: nat, identification: uint32,
                               cuts: seq<Cut>)
    requires Plain6(packet, declaredEnd) && AllCutOf(cuts, declaredEnd - HEADER6)
  {
    |ps| <= |cuts| && forall i :: 0 <= i < |ps| ==> CarriesCut6(ps[i], packet, declaredEnd, identification, cuts[i])
  }

  method Stamp6(fragment: array<byte>, field: uint16, identification: uint32)
    requires HEADER6 + 8 <= fragment.Length
    modifies fragment
    ensures var p := fragment[..];
            && U16(p, 4) == (|p| - HEADER6) % 0x1_0000 && p[6] == Ext.NEXT_FRAGMENT
            && U16(p, HEADER6 + 2) == field && U32(p, HEADER6 + 4) == identification
            && forall j :: 0 <= j < |p| && !(4 <= j < 7) && !(HEADER6 + 2 <= j < HEADER6 + 8) ==>
                 p[j] == old(fragment[..])[j]
  {
    Put16(fragment, 4, (fragment.Length - HEADER6) % 0x1_0000);
    fragment[6] := Ext.NEXT_FRAGMENT;
    Put16(fragment, HEADER6 + 2, field);
    ghost var q := fragment[..];
    assert U16(q, 4) == (|q| - HEADER6) % 0x1_0000 && U16(q, HEADER6 + 2) == field;
    Put32(fragment, HEADER6 + 4, identification);
    assert fragment[..][HEADER6 + 4..HEADER6 + 8] == Be32(identification);
  }

  method BuildPiece6(packet: seq<byte>, declaredEnd: nat, identification: uint32, cut: Cut) returns (p: seq<byte>)
    requires Plain6(packet, declaredEnd) && CutOf(cut, declaredEnd - HEADER6)
    ensures CarriesCut6(p, packet, declaredEnd, identification, cut)
  {
    var fragment := FromBytes(packet[..HEADER6] + [packet[6], 0, 0, 0, 0, 0, 0, 0]
                              + packet[HEADER6 + cut.offset..HEADER6 + cut.end]);
    Stamp6(fragment, Field6(cut, declaredEnd - HEADER6), identification);
    p := fragment[..];
  }

  method CutPieces6(packet: seq<byte>, declaredEnd: nat, identification: uint32, size: nat, ghost cuts: seq<Cut>)
    returns (pieces: seq<seq<byte>>)
    requires Plain6(packet, declaredEnd) && 0 < size
    requires Covers(cuts, declaredEnd - HEADER6, size, 0) && AllCutOf(cuts, declaredEnd - HEADER6)
    ensures |pieces| == |cuts| && CarriesCuts6(pieces, packet, declaredEnd, identification, cuts)
  {
    var total := declaredEnd - HEADER6;
    pieces := [];
    var offset := 0;
    while offset < total
      invariant |pieces| <= |cuts| && 0 <= offset <= total
      invariant offset == if |pieces| < |cuts| then cuts[|pieces|].offset else total
      invariant CarriesCuts6(pieces, packet, declaredEnd, identification, cuts)
    {
      var cut := Cut(offset, Min(offset + size, total));
      NextCut(cuts, total, size, |pieces|);
      assert cut == cuts[|pieces|];
      var fragment := BuildPiece6(packet, declaredEnd, identification, cut);
      pieces := pieces + [fragment];
      offset := cut.end;
    }
    AllCut(cuts, total, size, |pieces|, offset);
  }

  function CutsFor6(packet: seq<byte>, declaredEnd: nat, mtu: int): (cuts: seq<Cut>)
    requires Plain6(packet, declaredEnd) && 8 <= RoundDown8(mtu - HEADER6 - 8)
    ensures AllCutOf(cuts, declaredEnd - HEADER6)
  {
    CutsCover(declaredEnd - HEADER6, RoundDown8(mtu - HEADER6 - 8), 0);
    CutFrom(declaredEnd - HEADER6, RoundDown8(mtu - HEADER6 - 8), 0)
  }

  /** `fragmentIpv6Packet`. */
  method FragmentIpv6Packet(packet: seq<byte>, mtu: int, identification: uint32) returns (r: Outcome)
    ensures r == Failed(InvalidPacket) <==> !Ext.IsIpv6(packet) || |packet| < Ext.PayloadEnd(packet)
    ensures r == Failed(HasExtensionHeaders) <==>
            Ext.IsIpv6(packet) && Ext.PayloadEnd(packet) <= |packet| && Ext.IsExtensionHeader(packet[6])
    ensures r == Failed(MtuTooSmall) <==> (exists end: nat :: Plain6(packet, end)) && mtu < HEADER6 + 16
    ensures r.Fragmented? <==> (exists end: nat :: Plain6(packet, end)) && HEADER6 + 16 <= mtu
    ensures r.Fragmented? ==>
              var end := Ext.PayloadEnd(packet);
              && Plain6(packet, end) && 8 <= RoundDown8(mtu - HEADER6 - 8)
              && |r.pieces| == |CutsFor6(packet, end, mtu)|
              && CarriesCuts6(r.pieces, packet, end, identification, CutsFor6(packet, end, mtu))
  {
    if |packet| < HEADER6 || packet[0] / 16 != 6 { return Failed(InvalidPacket); }
    var declaredEnd := Ext.PayloadEnd(packet);
    if |packet| < declaredEnd { return Failed(InvalidPacket); }
    if Ext.IsExtensionHeader(packet[6]) { return Failed(HasExtensionHeaders); }
    assert Plain6(packet, declaredEnd);
    var size := RoundDown8(mtu - HEADER6 - 8);
    if size < 8 { return Failed(MtuTooSmall); }
    CutsCover(declaredEnd - HEADER6, size, 0);
    var pieces := CutPieces6(packet, declaredEnd, identification, size, CutsFor6(packet, declaredEnd, mtu));
    r := Fragmented(pieces);
  }
}
