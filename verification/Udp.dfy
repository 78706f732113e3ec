/** UDP datagrams of a stream: building, parsing, and IP fragmentation when they exceed the MTU. */
module Udp {
  import opened Bytes
  import opened Options
  import opened Checksum
  import opened Headers
  import opened IpHeaders
  import opened Fragments
  import opened Assembly
  import opened Fragmenter

  const UDP_HEADER: nat := 8

  /** The identity of a UDP stream; packets go from its destination to its source. */
  datatype Stream = Stream(version: Version, sourceIp: seq<byte>, sourcePort: uint16, destinationIp: seq<byte>,
                           destinationPort: uint16)

  predicate ValidStream(s: Stream)
  {
    Addresses(s.version, s.sourceIp, s.destinationIp)
  }

  // ---- one datagram ----

  /** `t` is a UDP datagram with its checksum in place. */
  ghost predicate IsUdp(t: seq<byte>, sourcePort: uint16, destinationPort: uint16, payload: seq<byte>, pseudo: nat)
  {
    && |t| == UDP_HEADER + |payload| && U16(t, 0) == sourcePort && U16(t, 2) == destinationPort
       && U16(t, 4) == |t| % 0x1_0000
    && t[UDP_HEADER..] == payload
    && (|t| <= 0xffff ==> t == SealedUdp(pseudo, t, 6))
  }

  ghost predicate IsUdpPacket(s: Stream, p: seq<byte>, payload: seq<byte>)
  {
    var h := HeaderSize(s.version);
    && HasHeader(s.version, p, UDP, s.destinationIp, s.sourceIp)
    && |p| == h + UDP_HEADER + |payload|
    && IsUdp(p[h..], s.destinationPort, s.sourcePort, payload,
             Pseudo(UDP, s.destinationIp, s.sourceIp, UDP_HEADER + |payload|))
  }

  lemma HeaderKept(v: Version, p: seq<byte>, q: seq<byte>, protocol: byte, src: seq<byte>, dst: seq<byte>)
    requires HasHeader(v, p, protocol, src, dst) && |p| == |q| && p[..HeaderSize(v)] == q[..HeaderSize(v)]
    ensures HasHeader(v, q, protocol, src, dst)
  {
    var h := HeaderSize(v);
    assert forall i :: 0 <= i < h ==> q[i] == p[..h][i];
    if v.Ip6? {
      assert q[8..24] == q[..h][8..24] && q[24..40] == q[..h][24..40];
    } else {
      assert q[12..16] == q[..h][12..16] && q[16..20] == q[..h][16..20];
      assert HeaderSealed(p, h)[..h] == Sealed(0, p[..h], 10);
      assert q == q[..h] + q[h..];
    }
  }

  method WriteUdp(packet: array<byte>, h: nat, sourcePort: uint16, destinationPort: uint16, payload: seq<byte>)
    requires h + UDP_HEADER + |payload| == packet.Length
    modifies packet
    ensures packet[..h] == old(packet[..h])
    ensures var t := packet[h..];
            && |t| == UDP_HEADER + |payload| && U16(t, 0) == sourcePort && U16(t, 2) == destinationPort
               && U16(t, 4) == |t| % 0x1_0000
            && U16(t, 6) == 0 && t[UDP_HEADER..] == payload
  {
    Put16(packet, h, sourcePort);
    Put16(packet, h + 2, destinationPort);
    Put16(packet, h + 4, (UDP_HEADER + |payload|) % 0x1_0000);
    packet[h + 6], packet[h + 7] := 0, 0;
    CopyInto(packet, h + UDP_HEADER, payload);
  }

  method SealUdp(packet: array<byte>, h: nat, v: Version, src: seq<byte>, dst: seq<byte>)
    requires h + UDP_HEADER <= packet.Length && Addresses(v, src, dst) && U16(packet[h..], 6) == 0
    modifies packet
    ensures packet[..h] == old(packet[..h])
    ensures packet[h..][..6] == old(packet[h..])[..6] && packet[h..][8..] == old(packet[h..])[8..]
    ensures var t := packet[h..];
            |t| <= 0xffff ==> t == SealedUdp(Pseudo(UDP, src, dst, |t|), t, 6)
  {
    ghost var t := packet[h..];
    var checksum := TransportChecksum(UDP, src, dst, packet[h..]);
    if checksum == 0 { checksum := 0xffff; }
    Put16(packet, h + 6, checksum);
    assert packet[h..] == Overwrite(t, 6, Be16(checksum));
    if |t| <= 0xffff {
      ChecksumExact(v, UDP, src, dst, t);
      SealedUdpHere(Pseudo(UDP, src, dst, |t|), t, packet[h..], checksum);
    }
  }

  lemma SealedUdpHere(pseudo: nat, t: seq<byte>, u: seq<byte>, checksum: uint16)
    requires UDP_HEADER <= |t| && U16(t, 6) == 0 && u == Overwrite(t, 6, Be16(checksum))
    requires var sum := Checksum.Finish(pseudo + Words(t)); checksum == if sum == 0 then 0xffff else sum
    ensures u == SealedUdp(pseudo, u, 6)
  {
    assert Overwrite(t, 6, Be16(0)) == t;
    SealedUdpForgets(pseudo, t, u);
  }

  lemma SealedUdpForgets(pseudo: nat, t: seq<byte>, u: seq<byte>)
    requires UDP_HEADER <= |t| == |u| && forall i :: 0 <= i < |t| && i != 6 && i != 7 ==> t[i] == u[i]
    ensures SealedUdp(pseudo, t, 6) == SealedUdp(pseudo, u, 6)
  {
    assert Overwrite(t, 6, Be16(0)) == Overwrite(u, 6, Be16(0));
  }

  /** `udpPacket`. */
  method UdpPacket(s: Stream, payload: seq<byte>) returns (p: seq<byte>)
    requires ValidStream(s)
    ensures IsUdpPacket(s, p, payload)
  {
    var h := HeaderSize(s.version);
    var packet := new byte[h + UDP_HEADER + |payload|];
    WriteHeader(s.version, packet, UDP, s.destinationIp, s.sourceIp);
    ghost var written := packet[..];
    WriteUdp(packet, h, s.destinationPort, s.sourcePort, payload);
    ghost var t := packet[h..];
    SealUdp(packet, h, s.version, s.destinationIp, s.sourceIp);
    p := packet[..];
    HeaderKept(s.version, written, p, UDP, s.destinationIp, s.sourceIp);
    SameFields(t, p[h..], payload);
  }

  lemma SameFields(t: seq<byte>, u: seq<byte>, payload: seq<byte>)
    requires |t| == |u| == UDP_HEADER + |payload| && t[..6] == u[..6] && t[8..] == u[8..]
    ensures U16(u, 0) == U16(t, 0) && U16(u, 2) == U16(t, 2) && U16(u, 4) == U16(t, 4)
    ensures t[UDP_HEADER..] == payload ==> u[UDP_HEADER..] == payload
  {
    assert forall i :: 0 <= i < 6 ==> u[i] == u[..6][i] == t[..6][i] == t[i];
  }

  datatype UdpParsed = UdpParsed(sourcePort: uint16, destinationPort: uint16, payload: seq<byte>)

  /** `parseUdpPacket`. */
  function ParseUdp(t: seq<byte>): (r: Option<UdpParsed>)
  {
    if |t| < UDP_HEADER then None
    else
      var length := U16(t, 4);
      if length < UDP_HEADER || |t| < length then None
      else Some(UdpParsed(U16(t, 0), U16(t, 2), t[UDP_HEADER..length]))
  }

  /** Addresses, ports and payload as the receiver reads them. */
  datatype Received = Received(src: seq<byte>, dst: seq<byte>, udp: UdpParsed)

  function Receive(v: Version, p: seq<byte>): (r: Option<Received>)
  {
    match ParseIp(v, p)
    case None => None
    case Some(d) =>
      if d.protocol != UDP then None
      else
        match ParseUdp(d.transport)
        case None => None
        case Some(u) => Some(Received(d.src, d.dst, u))
  }

  function Sent(s: Stream, payload: seq<byte>): (r: Received)
  {
    Received(s.destinationIp, s.sourceIp, UdpParsed(s.destinationPort, s.sourcePort, payload))
  }

  /** The largest datagram the IP length field can describe. */
  predicate Describable(v: Version, n: nat)
  {
    UDP_HEADER + n + (if v.Ip4? then IPV4_HEADER else 0) <= 0xffff
  }

  lemma UdpReceived(s: Stream, p: seq<byte>, payload: seq<byte>)
    requires IsUdpPacket(s, p, payload) && Describable(s.version, |payload|)
    ensures Receive(s.version, p) == Some(Sent(s, payload))
  {
    BuiltParses(s.version, p, UDP, s.destinationIp, s.sourceIp);
    UdpParses(p[HeaderSize(s.version)..], s.destinationPort, s.sourcePort, payload,
              Pseudo(UDP, s.destinationIp, s.sourceIp, UDP_HEADER + |payload|));
  }

  lemma UdpParses(t: seq<byte>, sourcePort: uint16, destinationPort: uint16, payload: seq<byte>, pseudo: nat)
    requires IsUdp(t, sourcePort, destinationPort, payload, pseudo) && |t| <= 0xffff
    ensures ParseUdp(t) == Some(UdpParsed(sourcePort, destinationPort, payload))
  {
    assert t[UDP_HEADER..|t|] == t[UDP_HEADER..];
  }

  /** The checksum of every describable datagram verifies and is never sent as zero. */
  lemma UdpVerifies(s: Stream, p: seq<byte>, payload: seq<byte>)
    requires IsUdpPacket(s, p, payload) && Describable(s.version, |payload|)
    ensures var t := p[HeaderSize(s.version)..];
            Verifies(Pseudo(UDP, s.destinationIp, s.sourceIp, |t|), t) && U16(t, 6) != 0
  {
    var t := p[HeaderSize(s.version)..];
    SealedVerifies(Pseudo(UDP, s.destinationIp, s.sourceIp, |t|), t, 6);
    assert U16(t[6..8], 0) == U16(t, 6);
  }

  // ---- packetization ----

  datatype DataError = MtuBelowHeaders | PayloadTooLarge | CannotFragment(error: FragmentError)
  datatype Packets = Packets(packets: seq<seq<byte>>) | Refused(error: DataError)

  function HeaderBytes(v: Version): (n: nat) { HeaderSize(v) + UDP_HEADER }

  /** What becomes of a payload of `n` bytes under an MTU. */
  datatype Plan = Whole | Cut | Refuse(why: DataError)

  function PlanFor(v: Version, n: nat, mtu: int): (plan: Plan)
  {
    if mtu <= HeaderBytes(v) then Refuse(MtuBelowHeaders)
    else if v.Ip6? && 0xffff - UDP_HEADER < n then Refuse(PayloadTooLarge)
    else if n <= mtu - HeaderBytes(v) then Plan.Whole
    else if v.Ip6? then if mtu < HEADER6 + 16 then Refuse(CannotFragment(MtuTooSmall)) else Plan.Cut
    else if 0xffff - IPV4_HEADER - UDP_HEADER < n then Refuse(PayloadTooLarge)
    else Plan.Cut
  }

  /**
   * A payload goes whole exactly when its packet fits the MTU, and for IPv6 its length field; it goes in fragments
   * exactly when it does not fit but the datagram can be described and a fragment can carry eight bytes of it.
   */
  lemma PlanExactly(v: Version, n: nat, mtu: int)
    ensures PlanFor(v, n, mtu).Whole? <==>
            HeaderBytes(v) < mtu && HeaderBytes(v) + n <= mtu && (v.Ip6? ==> Describable(v, n))
    ensures PlanFor(v, n, mtu).Cut? <==>
            HeaderBytes(v) < mtu < HeaderBytes(v) + n && Describable(v, n) && (v.Ip6? ==> HEADER6 + 8 + 8 <= mtu)
    ensures PlanFor(v, n, mtu) == Refuse(MtuBelowHeaders) <==> mtu <= HeaderBytes(v)
    ensures PlanFor(v, n, mtu) == Refuse(PayloadTooLarge) <==>
            HeaderBytes(v) < mtu && !Describable(v, n) && (v.Ip4? ==> mtu < HeaderBytes(v) + n)
  {
  }

  /** The pieces of the datagram `p` that `fragmentIpv4Packet` or `fragmentIpv6Packet` makes. */
  ghost predicate PiecesOf(v: Version, p: seq<byte>, mtu: int, identification: uint32, pieces: seq<seq<byte>>)
  {
    if v.Ip4? then
      && Header4(p, IPV4_HEADER) && 8 <= RoundDown8(mtu - IPV4_HEADER)
      && |pieces| == |CutsFor4(p, IPV4_HEADER, mtu)|
      && CarriesCuts4(pieces, p, IPV4_HEADER, identification % 0x1_0000, CutsFor4(p, IPV4_HEADER, mtu))
    else
      && Plain6(p, |p|) && 8 <= RoundDown8(mtu - HEADER6 - 8)
      && |pieces| == |CutsFor6(p, |p|, mtu)|
      && CarriesCuts6(pieces, p, |p|, identification, CutsFor6(p, |p|, mtu))
  }

  lemma UdpFragmentable(s: Stream, p: seq<byte>, payload: seq<byte>)
    requires IsUdpPacket(s, p, payload) && Describable(s.version, |payload|)
    ensures if s.version.Ip4? then Header4(p, IPV4_HEADER) else Plain6(p, |p|)
  {
    if s.version.Ip4? {
      Fragmentable4(p, s.destinationIp, s.sourceIp);
    } else {
      Fragmentable6(p, s.destinationIp, s.sourceIp);
    }
  }

  lemma Fragmentable4(p: seq<byte>, src: seq<byte>, dst: seq<byte>)
    requires HasHeader(Ip4, p, UDP, src, dst) && |p| <= 0xffff
    ensures Header4(p, IPV4_HEADER)
  {
  }

  lemma Fragmentable6(p: seq<byte>, src: seq<byte>, dst: seq<byte>)
    requires HasHeader(Ip6, p, UDP, src, dst) && |p| <= HEADER6 + 0xffff
    ensures Plain6(p, |p|)
  {
  }

  /** `DataPackets`: one datagram, or its fragments when it exceeds the MTU, or a refusal. */
  method DataPackets(s: Stream, payload: seq<byte>, mtu: int, identification: uint32)
    returns (r: Packets, ghost p: seq<byte>)
    requires ValidStream(s)
    ensures match PlanFor(s.version, |payload|, mtu)
            case Refuse(why) => r == Refused(why)
            case Whole => IsUdpPacket(s, p, payload) && r == Packets([p])
            case Cut =>
              && IsUdpPacket(s, p, payload) && r.Packets?
              && PiecesOf(s.version, p, mtu, identification, r.packets)
  {
    p := [];
    var header := HeaderBytes(s.version);
    if mtu <= header { return Refused(MtuBelowHeaders), p; }
    if s.version.Ip6? && 0xffff - UDP_HEADER < |payload| { return Refused(PayloadTooLarge), p; }
    if |payload| <= mtu - header {
      var packet := UdpPacket(s, payload);
      return Packets([packet]), packet;
    }
    if s.version.Ip4? && 0xffff - IPV4_HEADER - UDP_HEADER < |payload| { return Refused(PayloadTooLarge), p; }
    var packet := UdpPacket(s, payload);
    UdpFragmentable(s, packet, payload);
    r := FragmentDatagram(s.version, packet, mtu, identification);
    p := packet;
  }

  method FragmentDatagram(v: Version, packet: seq<byte>, mtu: int, identification: uint32) returns (r: Packets)
    requires if v.Ip4? then Header4(packet, IPV4_HEADER) else Plain6(packet, |packet|)
    ensures if (if v.Ip4? then mtu < IPV4_HEADER + 8 else mtu < HEADER6 + 16)
            then r == Refused(CannotFragment(MtuTooSmall))
            else r.Packets? && PiecesOf(v, packet, mtu, identification, r.packets)
  {
    var outcome;
    if v.Ip6? {
      assert Plain6(packet, |packet|);
      outcome := FragmentIpv6Packet(packet, mtu, identification);
    } else {
      assert Header4(packet, IPV4_HEADER);
      outcome := FragmentIpv4Packet(packet, mtu, identification % 0x1_0000);
    }
    r := match outcome case Fragmented(pieces) => Packets(pieces) case Failed(e) => Refused(CannotFragment(e));
  }
}
