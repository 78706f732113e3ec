/** The destination-unreachable a provider answers a failed dial with (`ipOosUnreachable`). */
module Unreachable {
  import opened Bytes
  import opened Options
  import opened Checksum
  import opened Headers
  import opened IpHeaders
  import opened Assembly
  import opened Tcp

  const ICMP_HEADER: nat := 8
  const UDP_HEADER: nat := 8
  const SYN_WINDOW: uint16 := 4096

  datatype Protocol = TcpFlow | UdpFlow | OtherFlow

  /** `IpPath`: addresses and ports as the caller holds them, in the flow's own direction. */
  datatype Path = Path(version: int, protocol: Protocol, sourceIp: seq<byte>, sourcePort: int,
                       destinationIp: seq<byte>, destinationPort: int, number: uint32)

  /** The flows a signal can be built for. */
  predicate Supported(f: Path)
  {
    (f.version == 4 || f.version == 6) && !f.protocol.OtherFlow?
  }

  function VersionOf(f: Path): (v: Version) { if f.version == 4 then Ip4 else Ip6 }

  const MAPPED: seq<byte> := [0, 0, 0, 0, 0, 0, 0, 0, 0, 0, 0xff, 0xff]
  const ZERO4: seq<byte> := [0, 0, 0, 0]

  /** The wire form of an address (`To4`, `To16`); the header keeps its zeros where there is none. */
  function Wire(v: Version, ip: seq<byte>): (w: seq<byte>)
    ensures |w| == AddressSize(v)
  {
    match v
    case Ip4 => if |ip| == 4 then ip else if |ip| == 16 && ip[..12] == MAPPED then ip[12..] else ZERO4
    case Ip6 => if |ip| == 16 then ip else if |ip| == 4 then MAPPED + ip else ZERO4 + ZERO4 + ZERO4 + ZERO4
  }

  function Source(f: Path): (a: seq<byte>)
    ensures |a| == AddressSize(VersionOf(f))
  {
    Wire(VersionOf(f), f.sourceIp)
  }

  function Destination(f: Path): (a: seq<byte>)
    ensures |a| == AddressSize(VersionOf(f))
  {
    Wire(VersionOf(f), f.destinationIp)
  }

  /** The flow as the wire tells it: addresses in wire form, ports in 16 bits, a sequence number only for TCP. */
  function Normal(f: Path): (r: Path)
  {
    f.(sourceIp := Source(f), sourcePort := f.sourcePort % 0x1_0000,
       destinationIp := Destination(f), destinationPort := f.destinationPort % 0x1_0000,
       number := if f.protocol.TcpFlow? then f.number else 0)
  }

  // ---- the bytes ----

  /** The header `writeIpv4Header` or `writeIpv6Header` leaves on a packet of `size` bytes. */
  function Header(v: Version, protocol: byte, src: seq<byte>, dst: seq<byte>, size: nat): (b: seq<byte>)
    requires Addresses(v, src, dst) && HeaderSize(v) <= size
    ensures |b| == HeaderSize(v)
  {
    match v
    case Ip4 => Sealed(0, [0x45, 0] + Be16(size % 0x1_0000) + [0, 0, 0, 0, 64, protocol, 0, 0] + src + dst, 10)
    case Ip6 => [0x60, 0, 0, 0] + Be16((size - IPV6_HEADER) % 0x1_0000) + [protocol, 64] + src + dst
  }

  function Packet(v: Version, protocol: byte, src: seq<byte>, dst: seq<byte>, t: seq<byte>): (p: seq<byte>)
    requires Addresses(v, src, dst)
    ensures |p| == HeaderSize(v) + |t| && p[HeaderSize(v)..] == t
  {
    Header(v, protocol, src, dst, HeaderSize(v) + |t|) + t
  }

  function SynFields(f: Path): (s: Fields)
  {
    Fields(f.sourcePort % 0x1_0000, f.destinationPort % 0x1_0000, f.number, 0, FLAG_SYN, SYN_WINDOW)
  }

  /** The SYN, or an empty UDP datagram, before its checksum. */
  function Bare(f: Path): (t: seq<byte>)
    ensures |t| == if f.protocol.TcpFlow? then TCP_HEADER else UDP_HEADER
  {
    if f.protocol.TcpFlow? then Ports(SynFields(f)) + Control(SynFields(f), [])
    else Be16(f.sourcePort % 0x1_0000) + Be16(f.destinationPort % 0x1_0000) + Be16(UDP_HEADER) + [0, 0]
  }

  function TransportOf(f: Path): (n: byte) { if f.protocol.TcpFlow? then TCP else UDP }

  /** The transport with its checksum; UDP stores all ones for zero. */
  function SealTransport(tcp: bool, pseudo: nat, t: seq<byte>): (r: seq<byte>)
    requires if tcp then TCP_HEADER <= |t| else UDP_HEADER <= |t|
    ensures |r| == |t|
    ensures forall i :: 0 <= i < 6 ==> r[i] == t[i]
    ensures tcp ==> r[6] == t[6] && r[7] == t[7]
  {
    if tcp then Sealed(pseudo, t, 16) else SealedUdp(pseudo, t, 6)
  }

  function Transport(f: Path): (t: seq<byte>)
    ensures |t| == |Bare(f)|
  {
    SealTransport(f.protocol.TcpFlow?, Pseudo(TransportOf(f), Source(f), Destination(f), |Bare(f)|), Bare(f))
  }

  /** The original datagram: an empty UDP packet, or the SYN with the flow's own sequence number. */
  function Embed(f: Path): (e: seq<byte>)
  {
    Packet(VersionOf(f), TransportOf(f), Source(f), Destination(f), Transport(f))
  }

  function IcmpProtocol(v: Version): (n: byte) { if v.Ip4? then ICMP else ICMPV6 }

  function Kind(v: Version): (n: byte) { if v.Ip4? then 3 else 1 }

  /** Host unreachable or no route for TCP, port unreachable for UDP. */
  function Code(v: Version, tcp: bool): (n: byte) { if v.Ip4? then (if tcp then 1 else 3) else (if tcp then 0 else 4) }

  /** ICMPv4 sums the message alone, ICMPv6 the pseudo header too. */
  function IcmpPseudo(v: Version, src: seq<byte>, dst: seq<byte>, length: nat): (n: nat)
  {
    if v.Ip4? then 0 else Pseudo(ICMPV6, src, dst, length)
  }

  function Message(kind: byte, code: byte, embed: seq<byte>, pseudo: nat): (t: seq<byte>)
    ensures |t| == ICMP_HEADER + |embed| && t[0] == kind && t[1] == code && t[ICMP_HEADER..] == embed
  {
    Sealed(pseudo, [kind, code] + [0, 0] + Be32(0) + embed, 2)
  }

  function MessageOf(f: Path): (t: seq<byte>)
  {
    var v := VersionOf(f);
    Message(Kind(v), Code(v, f.protocol.TcpFlow?), Embed(f),
            IcmpPseudo(v, Destination(f), Source(f), ICMP_HEADER + |Embed(f)|))
  }

  /** The signal of a flow, addressed from its destination back to its source. */
  function Signal(f: Path): (p: seq<byte>)
  {
    Packet(VersionOf(f), IcmpProtocol(VersionOf(f)), Destination(f), Source(f), MessageOf(f))
  }

  // ---- building them ----

  lemma WordBytes(b: seq<byte>, i: nat, v: uint16)
    requires i + 2 <= |b| && U16(b, i) == v
    ensures b[i] == Be16(v)[0] && b[i + 1] == Be16(v)[1]
  {
    Be16Inverse(b, i);
  }

  lemma SealedSame(pseudo: nat, a: seq<byte>, b: seq<byte>, at: nat)
    requires at + 2 <= |a| == |b| && a == Sealed(pseudo, a, at)
    requires forall i :: 0 <= i < |a| && i != at && i != at + 1 ==> a[i] == b[i]
    ensures a == Sealed(pseudo, b, at)
  {
    assert Overwrite(a, at, Be16(0)) == Overwrite(b, at, Be16(0));
  }

  lemma HeaderIs4(p: seq<byte>, protocol: byte, src: seq<byte>, dst: seq<byte>)
    requires HasHeader4(p, protocol, src, dst) && Addresses(Ip4, src, dst)
    ensures p[..20] == Header(Ip4, protocol, src, dst, |p|)
  {
    WordBytes(p, 2, |p| % 0x1_0000);
    WordBytes(p, 4, 0);
    WordBytes(p, 6, 0);
    assert forall i :: 12 <= i < 16 ==> p[i] == p[12..16][i - 12];
    assert forall i :: 16 <= i < 20 ==> p[i] == p[16..20][i - 16];
    assert p[..20] == Sealed(0, p[..20], 10);
    SealedSame(0, p[..20], [0x45, 0] + Be16(|p| % 0x1_0000) + [0, 0, 0, 0, 64, protocol, 0, 0] + src + dst, 10);
  }

  lemma HeaderIs6(p: seq<byte>, protocol: byte, src: seq<byte>, dst: seq<byte>)
    requires HasHeader6(p, protocol, src, dst) && Addresses(Ip6, src, dst)
    ensures p[..40] == Header(Ip6, protocol, src, dst, |p|)
  {
    WordBytes(p, 2, 0);
    WordBytes(p, 4, (|p| - IPV6_HEADER) % 0x1_0000);
    assert p[..40] == p[..8] + p[8..24] + p[24..40];
    assert p[..8] == [0x60, 0, 0, 0] + Be16((|p| - IPV6_HEADER) % 0x1_0000) + [protocol, 64];
  }

  /** The header is the only one its writer's contract allows. */
  lemma HeaderIs(v: Version, p: seq<byte>, protocol: byte, src: seq<byte>, dst: seq<byte>)
    requires HasHeader(v, p, protocol, src, dst) && Addresses(v, src, dst)
    ensures p[..HeaderSize(v)] == Header(v, protocol, src, dst, |p|)
  {
    match v
    case Ip4 => HeaderIs4(p, protocol, src, dst);
    case Ip6 => HeaderIs6(p, protocol, src, dst);
  }

  /** `ipTransportPacket`. */
  method NewPacket(v: Version, protocol: byte, src: seq<byte>, dst: seq<byte>, n: nat) returns (packet: array<byte>)
    requires Addresses(v, src, dst)
    ensures fresh(packet) && packet.Length == HeaderSize(v) + n
    ensures packet[..HeaderSize(v)] == Header(v, protocol, src, dst, HeaderSize(v) + n)
  {
    packet := new byte[HeaderSize(v) + n];
    WriteHeader(v, packet, protocol, src, dst);
    HeaderIs(v, packet[..], protocol, src, dst);
  }

  method WriteBare(packet: array<byte>, h: nat, f: Path)
    requires packet.Length == h + |Bare(f)|
    modifies packet
    ensures packet[..h] == old(packet[..h]) && packet[h..] == Bare(f)
  {
    ghost var b := packet[..];
    if f.protocol.TcpFlow? {
      WritePorts(packet, h, SynFields(f));
      WriteControl(packet, h + 12, SynFields(f), []);
      Adjacent(b, h, Ports(SynFields(f)), Control(SynFields(f), []));
    } else {
      WriteUdpHeader(packet, h, f.sourcePort % 0x1_0000, f.destinationPort % 0x1_0000);
    }
    Overwritten(b, packet[..], h, Bare(f));
  }

  method WriteUdpHeader(packet: array<byte>, h: nat, sourcePort: uint16, destinationPort: uint16)
    requires packet.Length == h + UDP_HEADER
    modifies packet
    ensures packet[..] ==
              Overwrite(old(packet[..]), h, Be16(sourcePort) + Be16(destinationPort) + Be16(UDP_HEADER) + [0, 0])
  {
    ghost var b := packet[..];
    Put16(packet, h, sourcePort);
    Put16(packet, h + 2, destinationPort);
    Adjacent(b, h, Be16(sourcePort), Be16(destinationPort));
    Put16(packet, h + 4, UDP_HEADER);
    Adjacent(b, h, Be16(sourcePort) + Be16(destinationPort), Be16(UDP_HEADER));
    PutPair(packet, h + 6, 0, 0);
    Adjacent(b, h, Be16(sourcePort) + Be16(destinationPort) + Be16(UDP_HEADER), [0, 0]);
  }

  /** A place that is zero: sealing it sums the block as it stands. */
  lemma ZeroPlace(t: seq<byte>, at: nat)
    requires at + 2 <= |t| && t[at] == 0 && t[at + 1] == 0
    ensures Overwrite(t, at, Be16(0)) == t
  {
  }

  lemma BareIsZero(f: Path)
    ensures var t := Bare(f);
            if f.protocol.TcpFlow? then t[16] == 0 && t[17] == 0 else t[6] == 0 && t[7] == 0
  {
  }

  lemma PutInTail(b: seq<byte>, p: seq<byte>, h: nat, at: nat, s: seq<byte>)
    requires h + at + |s| <= |b| && p == Overwrite(b, h + at, s)
    ensures p[..h] == b[..h] && p[h..] == Overwrite(b[h..], at, s)
  {
  }

  method StoreChecksum(packet: array<byte>, h: nat, at: nat, checksum: uint16)
    requires h + at + 2 <= packet.Length
    modifies packet
    ensures packet[..h] == old(packet[..h]) && packet[h..] == Overwrite(old(packet[h..]), at, Be16(checksum))
  {
    ghost var b := packet[..];
    Put16(packet, h + at, checksum);
    PutInTail(b, packet[..], h, at, Be16(checksum));
  }

  method SealInto(packet: array<byte>, h: nat, f: Path)
    requires packet.Length == h + |Bare(f)| && packet[h..] == Bare(f)
    modifies packet
    ensures packet[..h] == old(packet[..h]) && packet[h..] == Transport(f)
  {
    var t := packet[h..];
    var checksum := TransportChecksum(TransportOf(f), Source(f), Destination(f), t);
    ChecksumExact(VersionOf(f), TransportOf(f), Source(f), Destination(f), t);
    BareIsZero(f);
    if f.protocol.TcpFlow? {
      ZeroPlace(t, 16);
      StoreChecksum(packet, h, 16, checksum);
    } else {
      ZeroPlace(t, 6);
      if checksum == 0 { checksum := 0xffff; }
      StoreChecksum(packet, h, 6, checksum);
    }
  }

  /** `ipOosTcpPacketSequence`, `ipOosUdpPacket`. */
  method BuildEmbed(f: Path) returns (e: seq<byte>)
    ensures e == Embed(f)
  {
    var v := VersionOf(f);
    var h := HeaderSize(v);
    var packet := NewPacket(v, TransportOf(f), Source(f), Destination(f),
                            if f.protocol.TcpFlow? then TCP_HEADER else UDP_HEADER);
    WriteBare(packet, h, f);
    SealInto(packet, h, f);
    assert packet[..] == packet[..h] + packet[h..];
    e := packet[..];
  }

  method WriteMessage(packet: array<byte>, h: nat, kind: byte, code: byte, embed: seq<byte>)
    requires h + ICMP_HEADER + |embed| == packet.Length
    modifies packet
    ensures packet[..h] == old(packet[..h])
    ensures packet[h..] == [kind, code] + [0, 0] + Be32(0) + embed
  {
    ghost var b := packet[..];
    PutPair(packet, h, kind, code);
    PutPair(packet, h + 2, 0, 0);
    Adjacent(b, h, [kind, code], [0, 0]);
    Put32(packet, h + 4, 0);
    Adjacent(b, h, [kind, code] + [0, 0], Be32(0));
    CopyInto(packet, h + ICMP_HEADER, embed);
    Adjacent(b, h, [kind, code] + [0, 0] + Be32(0), embed);
    Overwritten(b, packet[..], h, [kind, code] + [0, 0] + Be32(0) + embed);
  }

  method MessageChecksum(v: Version, src: seq<byte>, dst: seq<byte>, t: seq<byte>) returns (r: uint16)
    requires Addresses(v, src, dst) && |t| <= 0xffff
    ensures r == Finish(IcmpPseudo(v, src, dst, |t|) + Words(t))
  {
    if v.Ip4? {
      var sum := ChecksumAdd(0, t);
      AccumulatorIsExact(0, t);
      r := ChecksumFinish(sum);
    } else {
      r := TransportChecksum(ICMPV6, src, dst, t);
      ChecksumExact(v, ICMPV6, src, dst, t);
    }
  }

  method BuildMessage(packet: array<byte>, h: nat, v: Version, src: seq<byte>, dst: seq<byte>, kind: byte, code: byte,
                      embed: seq<byte>)
    requires h + ICMP_HEADER + |embed| == packet.Length && Addresses(v, src, dst) && |embed| <= 100
    modifies packet
    ensures packet[..h] == old(packet[..h])
    ensures packet[h..] == Message(kind, code, embed, IcmpPseudo(v, src, dst, ICMP_HEADER + |embed|))
  {
    WriteMessage(packet, h, kind, code, embed);
    var t := packet[h..];
    var checksum := MessageChecksum(v, src, dst, t);
    ZeroPlace(t, 2);
    StoreChecksum(packet, h, 2, checksum);
  }

  method BuildReply(v: Version, src: seq<byte>, dst: seq<byte>, kind: byte, code: byte, embed: seq<byte>)
    returns (p: seq<byte>)
    requires Addresses(v, src, dst) && |embed| <= 100
    ensures p == Packet(v, IcmpProtocol(v), src, dst,
                        Message(kind, code, embed, IcmpPseudo(v, src, dst, ICMP_HEADER + |embed|)))
  {
    var h := HeaderSize(v);
    var packet := NewPacket(v, IcmpProtocol(v), src, dst, ICMP_HEADER + |embed|);
    BuildMessage(packet, h, v, src, dst, kind, code, embed);
    assert packet[..] == packet[..h] + packet[h..];
    p := packet[..];
  }

  lemma EmbedSize(f: Path)
    ensures |Embed(f)| == HeaderSize(VersionOf(f)) + if f.protocol.TcpFlow? then TCP_HEADER else UDP_HEADER
  {
  }

  /** `ipOosUnreachable`. */
  method BuildUnreachable(f: Path) returns (r: Option<seq<byte>>)
    ensures r == if Supported(f) then Some(Signal(f)) else None
  {
    if !Supported(f) { return None; }
    var v := VersionOf(f);
    var embed := BuildEmbed(f);
    EmbedSize(f);
    var p := BuildReply(v, Destination(f), Source(f), Kind(v), Code(v, f.protocol.TcpFlow?), embed);
    r := Some(p);
  }
}
