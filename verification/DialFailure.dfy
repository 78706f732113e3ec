/** Recognising the dial-failure signal (`providerDialFailureEgressPath`, `providerDialFailureReturnPath`). */
module DialFailure {
  import opened Bytes
  import opened Options
  import opened Checksum
  import opened Headers
  import opened IpHeaders
  import opened Unreachable
  import Tcp
  import Ext = Ipv6Ext

  // ---- parsing ----

  /** `ipIcmpBody`. */
  function IcmpBody(p: seq<byte>): (r: Option<seq<byte>>)
  {
    if p == [] then None
    else if p[0] / 16 == 4 then
      if |p| < IPV4_HEADER then None
      else
        var header := p[0] as int % 16 * 4;
        if header < IPV4_HEADER || |p| < header || p[9] != ICMP then None else Some(p[header..])
    else if p[0] / 16 == 6 then
      match Ext.TransportOffset(p)
      case None => None
      case Some(w) =>
        if w.0 != ICMPV6 then None
        else
          Ext.PeeksAgreeWithWalk(p);
          Ext.WalkBounds(p);
          Some(p[w.1..w.2])
    else None
  }

  /** `ipv6EmbedForWalk`: the length field clamped to the bytes present. */
  function Clamped(e: seq<byte>): (r: seq<byte>)
    requires IPV6_HEADER <= |e|
    ensures |r| == |e|
  {
    if |e| < IPV6_HEADER + U16(e, 4) then Overwrite(e, 4, Be16((|e| - IPV6_HEADER) % 0x1_0000)) else e
  }

  /** Protocol and offset of the transport of an embedded IPv6 datagram. */
  function EmbeddedTransport(e: seq<byte>): (r: Option<(byte, nat)>)
    requires IPV6_HEADER <= |e|
  {
    if !Ext.IsExtensionHeader(e[6]) then Some((e[6], IPV6_HEADER))
    else
      match Ext.WalkOf(Clamped(e))
      case None => None
      case Some(w) => if w.fragmented then None else Some((w.nextHeader, w.transportOffset))
  }

  /** A flow from its version, protocol number, addresses and the first eight transport bytes. */
  function FlowOf(version: int, protocol: byte, src: seq<byte>, dst: seq<byte>, t: seq<byte>): (r: Option<Path>)
    requires 8 <= |t|
  {
    if protocol == TCP then Some(Path(version, TcpFlow, src, U16(t, 0), dst, U16(t, 2), U32(t, 4)))
    else if protocol == UDP then Some(Path(version, UdpFlow, src, U16(t, 0), dst, U16(t, 2), 0))
    else None
  }

  /** `ipParseIcmpEmbeddedPath`. */
  function EmbeddedPath(e: seq<byte>): (r: Option<Path>)
  {
    if e == [] then None
    else if e[0] / 16 == 4 then
      if |e| < IPV4_HEADER then None
      else
        var header := e[0] as int % 16 * 4;
        if header < IPV4_HEADER || |e| < header + 8 then None else FlowOf(4, e[9], e[12..16], e[16..20], e[header..])
    else if e[0] / 16 == 6 then
      if |e| < IPV6_HEADER + 8 then None
      else
        match EmbeddedTransport(e)
        case None => None
        case Some(w) => if |e| < w.1 + 8 then None else FlowOf(6, w.0, e[8..24], e[24..40], e[w.1..])
    else None
  }

  /** `ipParseIcmpUnreachable`. */
  function ParseUnreachable(p: seq<byte>): (r: Option<Path>)
  {
    match IcmpBody(p)
    case None => None
    case Some(icmp) =>
      if |icmp| < ICMP_HEADER then None
      else if icmp[0] != (if p[0] / 16 == 4 then 3 else 1) then None
      else EmbeddedPath(icmp[ICMP_HEADER..])
  }

  // ---- a signal parses to its flow ----

  lemma Header4Reads(protocol: byte, src: seq<byte>, dst: seq<byte>, size: nat)
    requires Addresses(Ip4, src, dst) && IPV4_HEADER <= size
    ensures var b := Header(Ip4, protocol, src, dst, size);
            b[0] == 0x45 && b[9] == protocol && b[12..16] == src && b[16..20] == dst
  {
    var b, bare := Header(Ip4, protocol, src, dst, size),
      [0x45, 0] + Be16(size % 0x1_0000) + [0, 0, 0, 0, 64, protocol, 0, 0] + src + dst;
    assert bare[12..16] == src && bare[16..20] == dst;
    assert b[12..16] == bare[12..16] && b[16..20] == bare[16..20];
  }

  lemma Header6Reads(protocol: byte, src: seq<byte>, dst: seq<byte>, size: nat)
    requires Addresses(Ip6, src, dst) && IPV6_HEADER <= size
    ensures var b := Header(Ip6, protocol, src, dst, size);
            b[0] == 0x60 && U16(b, 4) == (size - IPV6_HEADER) % 0x1_0000 && b[6] == protocol && b[8..24] == src
              && b[24..40] == dst
  {
    var b := Header(Ip6, protocol, src, dst, size);
    assert b[4..6] == Be16((size - IPV6_HEADER) % 0x1_0000);
  }

  /** What the parsers read of a header. */
  lemma HeaderReads(v: Version, protocol: byte, src: seq<byte>, dst: seq<byte>, t: seq<byte>)
    requires Addresses(v, src, dst)
    ensures var p := Packet(v, protocol, src, dst, t);
            if v.Ip4? then p[0] == 0x45 && p[9] == protocol && p[12..16] == src && p[16..20] == dst
            else p[0] == 0x60 && U16(p, 4) == |t| % 0x1_0000 && p[6] == protocol && p[8..24] == src && p[24..40] == dst
  {
    var b, p := Header(v, protocol, src, dst, HeaderSize(v) + |t|), Packet(v, protocol, src, dst, t);
    assert p == b + t;
    if v.Ip4? {
      Header4Reads(protocol, src, dst, HeaderSize(v) + |t|);
      assert p[12..16] == b[12..16] && p[16..20] == b[16..20];
    } else {
      Header6Reads(protocol, src, dst, HeaderSize(v) + |t|);
      assert p[8..24] == b[8..24] && p[24..40] == b[24..40];
    }
  }

  lemma BodyOf4(p: seq<byte>, t: seq<byte>)
    requires IPV4_HEADER <= |p| && p[0] == 0x45 && p[9] == ICMP && p[IPV4_HEADER..] == t
    ensures IcmpBody(p) == Some(t)
  {
  }

  lemma BodyOf6(p: seq<byte>, t: seq<byte>)
    requires |p| == IPV6_HEADER + |t| && |t| <= 0xffff && p[0] == 0x60 && U16(p, 4) == |t| && p[6] == ICMPV6
             && p[IPV6_HEADER..] == t
    ensures IcmpBody(p) == Some(t)
  {
    assert p[IPV6_HEADER..|p|] == t;
  }

  lemma BodyOfPacket(v: Version, src: seq<byte>, dst: seq<byte>, t: seq<byte>)
    requires Addresses(v, src, dst) && |t| <= 0xffff
    ensures IcmpBody(Packet(v, IcmpProtocol(v), src, dst, t)) == Some(t)
  {
    HeaderReads(v, IcmpProtocol(v), src, dst, t);
    if v.Ip4? {
      BodyOf4(Packet(v, IcmpProtocol(v), src, dst, t), t);
    } else {
      BodyOf6(Packet(v, IcmpProtocol(v), src, dst, t), t);
    }
  }

  lemma FlowOfPacket(v: Version, protocol: byte, src: seq<byte>, dst: seq<byte>, t: seq<byte>)
    requires Addresses(v, src, dst) && 8 <= |t| && !Ext.IsExtensionHeader(protocol)
    ensures EmbeddedPath(Packet(v, protocol, src, dst, t)) == FlowOf(if v.Ip4? then 4 else 6, protocol, src, dst, t)
  {
    HeaderReads(v, protocol, src, dst, t);
  }

  lemma BareReads(f: Path)
    ensures var t := Bare(f);
            && U16(t, 0) == f.sourcePort % 0x1_0000 && U16(t, 2) == f.destinationPort % 0x1_0000
            && (f.protocol.TcpFlow? ==> U32(t, 4) == f.number)
  {
    if f.protocol.TcpFlow? {
      Tcp.PortsRead(SynFields(f));
      assert forall i :: 0 <= i < 12 ==> Bare(f)[i] == Tcp.Ports(SynFields(f))[i];
    }
  }

  lemma TransportReads(f: Path)
    requires Supported(f)
    ensures FlowOf(f.version, TransportOf(f), Source(f), Destination(f), Transport(f)) == Some(Normal(f))
  {
    BareReads(f);
  }

  lemma EmbedReads(f: Path)
    requires Supported(f)
    ensures EmbeddedPath(Embed(f)) == Some(Normal(f))
  {
    FlowOfPacket(VersionOf(f), TransportOf(f), Source(f), Destination(f), Transport(f));
    TransportReads(f);
  }

  lemma ReplyReads(v: Version, src: seq<byte>, dst: seq<byte>, t: seq<byte>)
    requires Addresses(v, src, dst) && ICMP_HEADER <= |t| <= 0xffff && t[0] == Kind(v)
    ensures ParseUnreachable(Packet(v, IcmpProtocol(v), src, dst, t)) == EmbeddedPath(t[ICMP_HEADER..])
  {
    BodyOfPacket(v, src, dst, t);
    HeaderReads(v, IcmpProtocol(v), src, dst, t);
  }

  /** The signal of a flow names that flow. */
  lemma SignalParses(f: Path)
    requires Supported(f)
    ensures ParseUnreachable(Signal(f)) == Some(Normal(f))
  {
    EmbedSize(f);
    ReplyReads(VersionOf(f), Destination(f), Source(f), MessageOf(f));
    EmbedReads(f);
  }

  /** Only the wire form of a flow shows in its signal. */
  lemma NormalSignal(f: Path)
    requires Supported(f)
    ensures Supported(Normal(f)) && Signal(Normal(f)) == Signal(f)
  {
    var g := Normal(f);
    assert Source(g) == Source(f) && Destination(g) == Destination(f);
    assert Bare(g) == Bare(f);
  }

  // ---- recognising ----

  /** `packet` is the signal of some flow. */
  ghost predicate IsSignal(packet: seq<byte>)
  {
    exists f :: Supported(f) && Signal(f) == packet
  }

  /** `providerDialFailureEgressPath`: accepted exactly when it is the signal of a flow, and then that flow. */
  method EgressPath(packet: seq<byte>) returns (r: Option<Path>)
    ensures r.Some? <==> IsSignal(packet)
    ensures forall f :: Supported(f) && Signal(f) == packet ==> r == Some(Normal(f))
  {
    r := ParseUnreachable(packet);
    forall f | Supported(f) && Signal(f) == packet ensures r == Some(Normal(f)) && Signal(Normal(f)) == packet {
      SignalParses(f);
      NormalSignal(f);
    }
    if r.Some? {
      var signal := BuildUnreachable(r.value);
      if signal != Some(packet) { r := None; }
    }
  }

  function Reverse(f: Path): (r: Path)
  {
    Path(f.version, f.protocol, f.destinationIp, f.destinationPort, f.sourceIp, f.sourcePort, 0)
  }

  /** `providerDialFailureReturnPath`: the return direction, for the exact signal of this flow. */
  method ReturnPath(flow: Option<Path>, packet: seq<byte>) returns (r: Option<Path>)
    ensures r.Some? <==> flow.Some? && Supported(flow.value) && packet == Signal(flow.value)
    ensures r.Some? ==> r.value == Reverse(flow.value)
  {
    if flow.None? { return None; }
    var signal := BuildUnreachable(flow.value);
    if signal != Some(packet) { return None; }
    r := Some(Reverse(flow.value));
  }

  /** Two flows with one signal are one flow on the wire. */
  lemma SignalNamesFlow(f: Path, g: Path)
    requires Supported(f) && Supported(g) && Signal(f) == Signal(g)
    ensures Normal(f) == Normal(g)
  {
    SignalParses(f);
    SignalParses(g);
  }

  // ---- a stack that took the signal from the wire would accept it ----

  lemma TransportVerifies(f: Path)
    ensures Verifies(Pseudo(TransportOf(f), Source(f), Destination(f), |Transport(f)|), Transport(f))
  {
    SealedVerifies(Pseudo(TransportOf(f), Source(f), Destination(f), |Bare(f)|), Bare(f),
                   if f.protocol.TcpFlow? then 16 else 6);
  }

  lemma MessageVerifies(f: Path)
    ensures var v := VersionOf(f); Verifies(IcmpPseudo(v, Destination(f), Source(f), |MessageOf(f)|), MessageOf(f))
  {
    var v := VersionOf(f);
    var pseudo := IcmpPseudo(v, Destination(f), Source(f), ICMP_HEADER + |Embed(f)|);
    SealedVerifies(pseudo, [Kind(v), Code(v, f.protocol.TcpFlow?)] + [0, 0] + Be32(0) + Embed(f), 2);
  }

  lemma HeaderVerifies(protocol: byte, src: seq<byte>, dst: seq<byte>, t: seq<byte>)
    requires Addresses(Ip4, src, dst)
    ensures Verifies(0, Packet(Ip4, protocol, src, dst, t)[..IPV4_HEADER])
  {
    var size := HeaderSize(Ip4) + |t|;
    SealedVerifies(0, [0x45, 0] + Be16(size % 0x1_0000) + [0, 0, 0, 0, 64, protocol, 0, 0] + src + dst, 10);
    assert Packet(Ip4, protocol, src, dst, t)[..IPV4_HEADER] == Header(Ip4, protocol, src, dst, size);
  }

  /** The checksums of the message, of the datagram in it, and of both IPv4 headers verify. */
  lemma SignalVerifies(f: Path)
    ensures var v := VersionOf(f);
            && Verifies(IcmpPseudo(v, Destination(f), Source(f), |MessageOf(f)|), MessageOf(f))
            && Verifies(Pseudo(TransportOf(f), Source(f), Destination(f), |Transport(f)|), Transport(f))
    ensures VersionOf(f).Ip4? ==> Verifies(0, Signal(f)[..IPV4_HEADER]) && Verifies(0, Embed(f)[..IPV4_HEADER])
  {
    MessageVerifies(f);
    TransportVerifies(f);
    if VersionOf(f).Ip4? {
      HeaderVerifies(IcmpProtocol(Ip4), Destination(f), Source(f), MessageOf(f));
      HeaderVerifies(TransportOf(f), Source(f), Destination(f), Transport(f));
    }
  }

  /** The signal comes from the flow's destination. */
  lemma SignalReads(f: Path)
    requires Supported(f)
    ensures var v := VersionOf(f);
            ParseIp(v, Signal(f)) == Some(Datagram(IcmpProtocol(v), Destination(f), Source(f), MessageOf(f)))
  {
    EmbedSize(f);
    ReplyParses(VersionOf(f), Destination(f), Source(f), MessageOf(f));
  }

  lemma ReplyParses(v: Version, src: seq<byte>, dst: seq<byte>, t: seq<byte>)
    requires Addresses(v, src, dst) && |t| <= 1000
    ensures ParseIp(v, Packet(v, IcmpProtocol(v), src, dst, t)) == Some(Datagram(IcmpProtocol(v), src, dst, t))
  {
    PacketParses(v, IcmpProtocol(v), src, dst, t);
  }

  lemma CodeOf(f: Path)
    ensures 2 <= |MessageOf(f)| && MessageOf(f)[1] == Code(VersionOf(f), f.protocol.TcpFlow?)
  {
  }

  /** The code a packet carries, if it is the signal of `f`. */
  function CodeIn(f: Path): (c: byte)
    ensures c == Code(VersionOf(f), f.protocol.TcpFlow?)
  {
    CodeOf(f);
    MessageOf(f)[1]
  }

  /** Its code tells a failed TCP dial from a UDP teardown. */
  lemma SignalCode(f: Path, g: Path)
    requires Supported(f) && Supported(g) && f.version == g.version
    ensures CodeIn(f) == CodeIn(g) <==> f.protocol == g.protocol
  {
  }

  /**
   * The type and code bytes of the packet: host unreachable and no route for TCP, port unreachable for UDP, as RFC 792
   * and RFC 4443 number them.
   */
  lemma SignalBytes(f: Path)
    requires Supported(f)
    ensures f.version == 4 ==>
              22 <= |Signal(f)| && Signal(f)[20] == 3 && Signal(f)[21] == (if f.protocol.TcpFlow? then 1 else 3)
    ensures f.version == 6 ==>
              42 <= |Signal(f)| && Signal(f)[40] == 1 && Signal(f)[41] == (if f.protocol.TcpFlow? then 0 else 4)
  {
    var h := HeaderSize(VersionOf(f));
    assert Signal(f)[h] == Signal(f)[h..][0] && Signal(f)[h + 1] == Signal(f)[h..][1];
  }

  lemma PacketParses(v: Version, protocol: byte, src: seq<byte>, dst: seq<byte>, t: seq<byte>)
    requires Addresses(v, src, dst) && !Ext.IsExtensionHeader(protocol) && HeaderSize(v) + |t| <= 0xffff
    ensures ParseIp(v, Packet(v, protocol, src, dst, t)) == Some(Datagram(protocol, src, dst, t))
  {
    var p := Packet(v, protocol, src, dst, t);
    HeaderReads(v, protocol, src, dst, t);
    assert p[HeaderSize(v)..|p|] == t;
    if v.Ip4? { Header4Fields(protocol, src, dst, t); }
  }

  lemma Header4Fields(protocol: byte, src: seq<byte>, dst: seq<byte>, t: seq<byte>)
    requires Addresses(Ip4, src, dst) && IPV4_HEADER + |t| <= 0xffff
    ensures var p := Packet(Ip4, protocol, src, dst, t); U16(p, 2) == |p| && U16(p, 6) == 0
  {
    var p, size := Packet(Ip4, protocol, src, dst, t), IPV4_HEADER + |t|;
    var bare := [0x45, 0] + Be16(size) + [0, 0, 0, 0, 64, protocol, 0, 0] + src + dst;
    assert size % 0x1_0000 == size;
    assert p[2] == bare[2] && p[3] == bare[3] && p[6] == bare[6] && p[7] == bare[7];
    assert bare[2..4] == Be16(size);
  }
}
