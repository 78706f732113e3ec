/** UDP end to end: packetize, carry the fragments in any order, reassemble, parse. */
module UdpEndToEnd {
  import opened Bytes
  import opened Options
  import opened Headers
  import opened IpHeaders
  import opened Fragments
  import opened ReassemblyRuns
  import opened Fragmenter
  import opened Feeds
  import opened PieceParsing
  import opened RoundTrip
  import opened Udp

  ghost function CutsOf(v: Version, p: seq<byte>, mtu: int): (cuts: seq<Cut>)
    requires if v.Ip4? then Header4(p, IPV4_HEADER) && 8 <= RoundDown8(mtu - IPV4_HEADER)
             else Plain6(p, |p|) && 8 <= RoundDown8(mtu - HEADER6 - 8)
  {
    if v.Ip4? then CutsFor4(p, IPV4_HEADER, mtu) else CutsFor6(p, |p|, mtu)
  }

  /** The bytes of payload in every piece but the last. */
  function PieceSize(v: Version, mtu: int): (size: int)
  {
    if v.Ip4? then RoundDown8(mtu - IPV4_HEADER) else RoundDown8(mtu - HEADER6 - 8)
  }

  ghost predicate Datagram(s: Stream, payload: seq<byte>, mtu: int, identification: uint32, p: seq<byte>,
                           pieces: seq<seq<byte>>)
  {
    && IsUdpPacket(s, p, payload) && PlanFor(s.version, |payload|, mtu) == Plan.Cut
    && PiecesOf(s.version, p, mtu, identification, pieces)
  }

  /** An oversized datagram is cut into at least two pieces, aligned and carriable. */
  lemma PiecesCut(s: Stream, payload: seq<byte>, mtu: int, identification: uint32, p: seq<byte>, pieces: seq<seq<byte>>)
    requires Datagram(s, payload, mtu, identification, p, pieces) && |pieces| <= MAX_FRAGMENTS
    ensures if s.version.Ip4?
            then
              Cut4(pieces, p, IPV4_HEADER, identification % 0x1_0000, CutsOf(s.version, p, mtu),
                   PieceSize(s.version, mtu))
            else Cut6(pieces, p, |p|, identification, CutsOf(s.version, p, mtu), PieceSize(s.version, mtu))
  {
    if s.version.Ip4? {
      PiecesCut4(p, mtu, identification % 0x1_0000, pieces);
    } else {
      PiecesCut6(p, mtu, identification, pieces);
    }
  }

  lemma PiecesCut4(p: seq<byte>, mtu: int, identification: uint16, pieces: seq<seq<byte>>)
    requires Header4(p, IPV4_HEADER) && 8 <= RoundDown8(mtu - IPV4_HEADER) && mtu < |p| && |pieces| <= MAX_FRAGMENTS
    requires var cuts := CutsFor4(p, IPV4_HEADER, mtu);
             |pieces| == |cuts| && CarriesCuts4(pieces, p, IPV4_HEADER, identification, cuts)
    ensures Cut4(pieces, p, IPV4_HEADER, identification, CutsFor4(p, IPV4_HEADER, mtu), RoundDown8(mtu - IPV4_HEADER))
  {
    CutsCutting(CutsFor4(p, IPV4_HEADER, mtu), |p| - IPV4_HEADER, RoundDown8(mtu - IPV4_HEADER));
  }

  lemma PiecesCut6(p: seq<byte>, mtu: int, identification: uint32, pieces: seq<seq<byte>>)
    requires Plain6(p, |p|) && 8 <= RoundDown8(mtu - HEADER6 - 8) && mtu < |p| && |pieces| <= MAX_FRAGMENTS
    requires var cuts := CutsFor6(p, |p|, mtu); |pieces| == |cuts| && CarriesCuts6(pieces, p, |p|, identification, cuts)
    ensures Cut6(pieces, p, |p|, identification, CutsFor6(p, |p|, mtu), RoundDown8(mtu - HEADER6 - 8))
  {
    var cuts, size := CutsFor6(p, |p|, mtu), RoundDown8(mtu - HEADER6 - 8);
    CutsCutting(cuts, |p| - HEADER6, size);
    AllCarriable(cuts, |p| - HEADER6, size);
  }

  lemma CutsCutting(cuts: seq<Cut>, total: nat, size: nat)
    requires 0 < size < total && size % 8 == 0 && cuts == CutFrom(total, size, 0) && |cuts| <= MAX_FRAGMENTS
    ensures Cutting(cuts, total, size)
  {
    CutsCover(total, size, 0);
    AtLeastTwo(cuts, total, size);
  }

  lemma AllCarriable(cuts: seq<Cut>, total: nat, size: nat)
    requires Cutting(cuts, total, size) && 8 + size <= 0xffff
    ensures forall i :: 0 <= i < |cuts| ==> Carriable(cuts[i])
  {
    forall i | 0 <= i < |cuts| ensures Carriable(cuts[i]) {
      assert cuts[i].end - cuts[i].offset <= size;
    }
  }

  lemma AtLeastTwo(cuts: seq<Cut>, total: nat, size: nat)
    requires 0 < size < total && Covers(cuts, total, size, 0)
    ensures 2 <= |cuts|
  {
    assert cuts[0].end - cuts[0].offset <= size && cuts[0].offset == 0;
  }

  /** Every piece fits the MTU. */
  lemma PiecesFitMtu(s: Stream, payload: seq<byte>, mtu: int, identification: uint32, p: seq<byte>,
                     pieces: seq<seq<byte>>, i: nat)
    requires Datagram(s, payload, mtu, identification, p, pieces) && i < |pieces|
    ensures |pieces[i]| <= mtu
  {
    if s.version.Ip4? {
      Piece4Fits(p, mtu, identification % 0x1_0000, pieces, i);
    } else {
      Piece6Fits(p, mtu, identification, pieces, i);
    }
  }

  lemma Piece4Fits(p: seq<byte>, mtu: int, identification: uint16, pieces: seq<seq<byte>>, i: nat)
    requires Header4(p, IPV4_HEADER) && 8 <= RoundDown8(mtu - IPV4_HEADER) && i < |pieces|
    requires CarriesCuts4(pieces, p, IPV4_HEADER, identification, CutsFor4(p, IPV4_HEADER, mtu))
    ensures |pieces[i]| <= mtu
  {
    var cuts, size := CutsFor4(p, IPV4_HEADER, mtu), RoundDown8(mtu - IPV4_HEADER);
    CutsCover(|p| - IPV4_HEADER, size, 0);
    assert CarriesCut4(pieces[i], p, IPV4_HEADER, identification, cuts[i]);
    assert cuts[i].end - cuts[i].offset <= size;
  }

  lemma Piece6Fits(p: seq<byte>, mtu: int, identification: uint32, pieces: seq<seq<byte>>, i: nat)
    requires Plain6(p, |p|) && 8 <= RoundDown8(mtu - HEADER6 - 8) && i < |pieces|
    requires CarriesCuts6(pieces, p, |p|, identification, CutsFor6(p, |p|, mtu))
    ensures |pieces[i]| <= mtu
  {
    var cuts, size := CutsFor6(p, |p|, mtu), RoundDown8(mtu - HEADER6 - 8);
    CutsCover(|p| - HEADER6, size, 0);
    assert CarriesCut6(pieces[i], p, |p|, identification, cuts[i]);
    assert cuts[i].end - cuts[i].offset <= size;
  }

  /** The message the receiver reassembles the pieces into. */
  ghost function MessageOf(s: Stream, from: Sender, p: seq<byte>, mtu: int, identification: uint32,
                           pieces: seq<seq<byte>>): (m: Message)
    requires PiecesOf(s.version, p, mtu, identification, pieces)
  {
    if s.version.Ip4? then Message4(from, p, IPV4_HEADER, identification % 0x1_0000, pieces, CutsOf(s.version, p, mtu))
    else Message6(from, p, |p|, identification, pieces, CutsOf(s.version, p, mtu))
  }

  /** Each piece, handed to the reassembler from the sender, is the part of the message at its place. */
  lemma PiecesAreParts(s: Stream, payload: seq<byte>, mtu: int, identification: uint32, p: seq<byte>,
                       pieces: seq<seq<byte>>, from: Sender,
                       i: nat, input: Input)
    requires Datagram(s, payload, mtu, identification, p, pieces) && |pieces| <= MAX_FRAGMENTS
    requires i < |pieces| && SentBy(input, from) && input.buffer.data == pieces[i]
    ensures IsPart(MessageOf(s, from, p, mtu, identification, pieces), i, input)
    ensures Parse(MessageOf(s, from, p, mtu, identification, pieces).family, input).arrival.cost == |pieces[i]|
  {
    PiecesCut(s, payload, mtu, identification, p, pieces);
    var cuts, size := CutsOf(s.version, p, mtu), PieceSize(s.version, mtu);
    if s.version.Ip4? {
      PiecesAreParts4(from, pieces, p, IPV4_HEADER, identification % 0x1_0000, cuts, size, i, input);
    } else {
      PiecesAreParts6(from, pieces, p, |p|, identification, cuts, size, i, input);
    }
  }

  /** A restored IPv4 datagram reads as the one that was cut. */
  lemma RestoredReceived(s: Stream, p: seq<byte>, payload: seq<byte>, identification: uint16, q: seq<byte>)
    requires s.version.Ip4? && IsUdpPacket(s, p, payload) && Describable(s.version, |payload|)
    requires Header4(p, IPV4_HEADER) && Restored4(p, IPV4_HEADER, identification, q)
    ensures Receive(s.version, q) == Some(Sent(s, payload))
  {
    UdpReceived(s, p, payload);
    RestoredParses(p, identification, q);
  }

  lemma RestoredParses(p: seq<byte>, identification: uint16, q: seq<byte>)
    requires Header4(p, IPV4_HEADER) && U16(p, 2) == |p| && U16(p, 6) == 0
             && Restored4(p, IPV4_HEADER, identification, q)
    ensures ParseIpv4(q) == ParseIpv4(p)
  {
    assert q[0] == p[0] && q[9] == p[9];
    assert q[12..16] == p[12..16] && q[16..20] == p[16..20];
    assert q[IPV4_HEADER..|q|] == q[IPV4_HEADER..] && p[IPV4_HEADER..|p|] == p[IPV4_HEADER..];
  }

  lemma EndToEnd4(s: Stream, payload: seq<byte>, mtu: int, identification: uint32, p: seq<byte>,
                  pieces: seq<seq<byte>>, from: Sender, f: Feed)
    requires s.version.Ip4? && Datagram(s, payload, mtu, identification, p, pieces) && |pieces| <= MAX_FRAGMENTS
    requires IsFeed(MessageOf(s, from, p, mtu, identification, pieces), f) && Completes(f, |pieces|)
    ensures var r := ResultOf(f.before.store, f.event);
            && r.Completed? && Receive(s.version, r.packet) == Some(Sent(s, payload))
            && Restored4(p, IPV4_HEADER, identification % 0x1_0000, r.packet)
  {
    PiecesCut(s, payload, mtu, identification, p, pieces);
    RoundTrip4(from, pieces, p, IPV4_HEADER, identification % 0x1_0000, CutsOf(s.version, p, mtu),
               PieceSize(s.version, mtu), f);
    RestoredReceived(s, p, payload, identification % 0x1_0000, ResultOf(f.before.store, f.event).packet);
  }

  lemma EndToEnd6(s: Stream, payload: seq<byte>, mtu: int, identification: uint32, p: seq<byte>,
                  pieces: seq<seq<byte>>, from: Sender, f: Feed)
    requires s.version.Ip6? && Datagram(s, payload, mtu, identification, p, pieces) && |pieces| <= MAX_FRAGMENTS
    requires IsFeed(MessageOf(s, from, p, mtu, identification, pieces), f) && Completes(f, |pieces|)
    ensures var r := ResultOf(f.before.store, f.event);
            r.Completed? && r.packet == p && Receive(s.version, p) == Some(Sent(s, payload))
  {
    PiecesCut(s, payload, mtu, identification, p, pieces);
    RoundTrip6(from, pieces, p, |p|, identification, CutsOf(s.version, p, mtu), PieceSize(s.version, mtu), f);
    assert p[..|p|] == p;
    UdpReceived(s, p, payload);
  }

  /**
   * For every payload and MTU where `DataPackets` fragments, in every undisturbed feed of the pieces
   * the last missing one gives back the datagram: byte for byte over IPv6, up to the rewritten header
   * fields over IPv4, and in both parsing to the ports, addresses and payload that were sent.
   */
  lemma EndToEnd(s: Stream, payload: seq<byte>, mtu: int, identification: uint32, p: seq<byte>, pieces: seq<seq<byte>>,
                 from: Sender, f: Feed)
    requires Datagram(s, payload, mtu, identification, p, pieces) && |pieces| <= MAX_FRAGMENTS
    requires IsFeed(MessageOf(s, from, p, mtu, identification, pieces), f) && Completes(f, |pieces|)
    ensures var r := ResultOf(f.before.store, f.event);
            && r.Completed? && Receive(s.version, r.packet) == Some(Sent(s, payload))
            && if s.version.Ip6? then r.packet == p else Restored4(p, IPV4_HEADER, identification % 0x1_0000, r.packet)
  {
    if s.version.Ip4? {
      EndToEnd4(s, payload, mtu, identification, p, pieces, from, f);
    } else {
      EndToEnd6(s, payload, mtu, identification, p, pieces, from, f);
    }
  }
}
