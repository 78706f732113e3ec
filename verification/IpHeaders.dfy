/** Writing and reading IP headers, and the transport checksum over the pseudo header. */
module IpHeaders {
  import opened Bytes
  import opened Options
  import opened Checksum
  import opened Headers
  import opened Assembly
  import Ext = Ipv6Ext

  const ICMP: byte := 1
  const TCP: byte := 6
  const UDP: byte := 17
  const ICMPV6: byte := 58

  datatype Version = Ip4 | Ip6

  function HeaderSize(v: Version): (n: nat) { if v.Ip4? then IPV4_HEADER else IPV6_HEADER }

  function AddressSize(v: Version): (n: nat) { if v.Ip4? then 4 else 16 }

  predicate Addresses(v: Version, src: seq<byte>, dst: seq<byte>)
  {
    |src| == |dst| == AddressSize(v)
  }

  // ---- the pseudo header ----

  function Pseudo(protocol: byte, src: seq<byte>, dst: seq<byte>, length: nat): (n: nat)
  {
    Words(src) + Words(dst) + protocol + length
  }

  /** `transportChecksum`: a wrapping sum, exact for every transport an IP packet can carry. */
  method TransportChecksum(protocol: byte, src: seq<byte>, dst: seq<byte>, transport: seq<byte>) returns (r: uint16)
    ensures r == Finish((Pseudo(protocol, src, dst, |transport|) + Words(transport)) % 0x1_0000_0000)
  {
    var sum := ChecksumAdd(0, src);
    sum := ChecksumAdd(sum, dst);
    sum := (sum + protocol) % 0x1_0000_0000;
    sum := (sum + |transport| % 0x1_0000_0000) % 0x1_0000_0000;
    sum := ChecksumAdd(sum, transport);
    WrapSum(Words(src), Words(dst), protocol, |transport|, Words(transport));
    r := ChecksumFinish(sum);
  }

  /** Wrapping after every addition is wrapping once. */
  lemma WrapSum(a: nat, b: nat, c: nat, d: nat, e: nat)
    ensures ((((a % 0x1_0000_0000 + b) % 0x1_0000_0000 + c) % 0x1_0000_0000 + d % 0x1_0000_0000) % 0x1_0000_0000
             + e) % 0x1_0000_0000
            == (a + b + c + d + e) % 0x1_0000_0000
  {
    WrapAdd(a, b);
    WrapAdd(a + b, c);
    WrapAdd(d, (a + b + c) % 0x1_0000_0000);
    WrapAdd(a + b + c, d);
    WrapAdd(a + b + c + d, e);
  }

  lemma ChecksumExact(v: Version, protocol: byte, src: seq<byte>, dst: seq<byte>, transport: seq<byte>)
    requires Addresses(v, src, dst) && |transport| <= 0xffff
    ensures (Pseudo(protocol, src, dst, |transport|) + Words(transport)) % 0x1_0000_0000
            == Pseudo(protocol, src, dst, |transport|) + Words(transport)
  {
    WordsBound(src);
    WordsBound(dst);
    AccumulatorIsExact(Pseudo(protocol, src, dst, |transport|), transport);
  }

  // ---- writing ----

  /** The IPv4 header `writeIpv4Header` leaves: no options, hop limit 64, checksum in place. */
  ghost predicate HasHeader4(p: seq<byte>, protocol: byte, src: seq<byte>, dst: seq<byte>)
  {
    && IPV4_HEADER <= |p| && p[0] == 0x45 && p[1] == 0 && U16(p, 2) == |p| % 0x1_0000 && U16(p, 4) == 0
       && U16(p, 6) == 0
    && p[8] == 64 && p[9] == protocol && p[12..16] == src && p[16..20] == dst
    && p == HeaderSealed(p, IPV4_HEADER)
  }

  ghost predicate HasHeader6(p: seq<byte>, protocol: byte, src: seq<byte>, dst: seq<byte>)
  {
    && IPV6_HEADER <= |p| && p[0] == 0x60 && p[1] == 0 && U16(p, 2) == 0 && U16(p, 4) == (|p| - IPV6_HEADER) % 0x1_0000
    && p[6] == protocol && p[7] == 64 && p[8..24] == src && p[24..40] == dst
  }

  ghost predicate HasHeader(v: Version, p: seq<byte>, protocol: byte, src: seq<byte>, dst: seq<byte>)
  {
    if v.Ip4? then HasHeader4(p, protocol, src, dst) else HasHeader6(p, protocol, src, dst)
  }

  method WriteFixed4(packet: array<byte>, protocol: byte)
    requires IPV4_HEADER <= packet.Length
    modifies packet
    ensures var p := packet[..];
            && p[0] == 0x45 && p[1] == 0 && U16(p, 2) == |p| % 0x1_0000 && U16(p, 4) == 0 && U16(p, 6) == 0
            && p[8] == 64 && p[9] == protocol && p[20..] == old(packet[20..])
  {
    packet[0], packet[1] := 0x45, 0;
    Put16(packet, 2, packet.Length % 0x1_0000);
    assert U16(packet[..], 2) == packet.Length % 0x1_0000;
    packet[4], packet[5], packet[6], packet[7] := 0, 0, 0, 0;
    packet[8], packet[9], packet[10], packet[11] := 64, protocol, 0, 0;
  }

  method WriteIpv4Header(packet: array<byte>, protocol: byte, src: seq<byte>, dst: seq<byte>)
    requires IPV4_HEADER <= packet.Length && Addresses(Ip4, src, dst)
    modifies packet
    ensures HasHeader4(packet[..], protocol, src, dst)
    ensures packet[20..] == old(packet[20..])
  {
    WriteFixed4(packet, protocol);
    CopyInto(packet, 12, src);
    CopyInto(packet, 16, dst);
    ghost var q := packet[..];
    assert q[12..16] == src && q[16..20] == dst;
    WriteIpv4HeaderChecksum(packet, IPV4_HEADER);
    HeaderSealedForgets(q, packet[..], IPV4_HEADER);
    assert packet[..][12..16] == q[12..16] && packet[..][16..20] == q[16..20];
  }

  method WriteIpv6Header(packet: array<byte>, protocol: byte, src: seq<byte>, dst: seq<byte>)
    requires IPV6_HEADER <= packet.Length && Addresses(Ip6, src, dst)
    modifies packet
    ensures HasHeader6(packet[..], protocol, src, dst)
    ensures packet[40..] == old(packet[40..])
  {
    packet[0], packet[1], packet[2], packet[3] := 0x60, 0, 0, 0;
    Put16(packet, 4, (packet.Length - IPV6_HEADER) % 0x1_0000);
    packet[6], packet[7] := protocol, 64;
    CopyInto(packet, 8, src);
    CopyInto(packet, 24, dst);
    assert packet[..][8..24] == src && packet[..][24..40] == dst;
  }

  method WriteHeader(v: Version, packet: array<byte>, protocol: byte, src: seq<byte>, dst: seq<byte>)
    requires HeaderSize(v) <= packet.Length && Addresses(v, src, dst)
    modifies packet
    ensures HasHeader(v, packet[..], protocol, src, dst)
    ensures packet[HeaderSize(v)..] == old(packet[HeaderSize(v)..])
  {
    match v
    case Ip4 => WriteIpv4Header(packet, protocol, src, dst);
    case Ip6 => WriteIpv6Header(packet, protocol, src, dst);
  }

  // ---- reading ----

  datatype Datagram = Datagram(protocol: byte, src: seq<byte>, dst: seq<byte>, transport: seq<byte>)

  /** `parseIpv4`. */
  function ParseIpv4(p: seq<byte>): (r: Option<Datagram>)
  {
    if |p| < IPV4_HEADER then None
    else
      var header, total := p[0] as int % 16 * 4, U16(p, 2);
      if header < IPV4_HEADER || total < header || |p| < total then None
      else if U16(p, 6) % 0x4000 != 0 then None
      else Some(Datagram(p[9], p[12..16], p[16..20], p[header..total]))
  }

  /** `parseIpv6`. */
  function ParseIpv6(p: seq<byte>): (r: Option<Datagram>)
  {
    if |p| < IPV6_HEADER then None
    else if !Ext.IsExtensionHeader(p[6]) then
      var end := IPV6_HEADER + U16(p, 4);
      if |p| < end then None else Some(Datagram(p[6], p[8..24], p[24..40], p[IPV6_HEADER..end]))
    else
      match Ext.WalkOf(p)
      case None => None
      case Some(w) =>
        if w.fragmented then None
        else
          Ext.WalkBounds(p);
          Some(Datagram(w.nextHeader, p[8..24], p[24..40], p[w.transportOffset..w.payloadEnd]))
  }

  function ParseIp(v: Version, p: seq<byte>): (r: Option<Datagram>)
  {
    if v.Ip4? then ParseIpv4(p) else ParseIpv6(p)
  }

  /** A packet its length field can describe parses back to what it was built from. */
  lemma BuiltParses(v: Version, p: seq<byte>, protocol: byte, src: seq<byte>, dst: seq<byte>)
    requires HasHeader(v, p, protocol, src, dst) && !Ext.IsExtensionHeader(protocol)
    requires |p| - (if v.Ip4? then 0 else IPV6_HEADER) <= 0xffff
    ensures ParseIp(v, p) == Some(Datagram(protocol, src, dst, p[HeaderSize(v)..]))
  {
    assert p[..|p|] == p;
  }

  /** On a version-6 packet the parser finds what the extension walk finds, whichever path it takes. */
  lemma ParseIpv6IsWalk(p: seq<byte>)
    requires Ext.IsIpv6(p)
    ensures ParseIpv6(p).Some? <==> Ext.WalkOf(p).Some? && !Ext.WalkOf(p).value.fragmented
    ensures ParseIpv6(p).Some? ==>
              var w, d := Ext.WalkOf(p).value, ParseIpv6(p).value;
              && w.transportOffset <= w.payloadEnd <= |p| && d.transport == p[w.transportOffset..w.payloadEnd]
              && d.protocol == w.nextHeader && d.src == p[8..24] && d.dst == p[24..40]
  {
    Ext.PeeksAgreeWithWalk(p);
    Ext.WalkBounds(p);
  }
}
