/** The flow hash of an unfragmented packet, stated on what the IP parser reads from it. */
module FlowParsed {
  import opened Bytes
  import opened Options
  import opened IpHeaders
  import opened FlowHash
  import Ext = Ipv6Ext

  /** The version nibble is that of `v`. */
  predicate OfVersion(v: Version, p: seq<byte>)
  {
    p != [] && p[0] / 16 == if v.Ip4? then 4 else 6
  }

  /** The bytes that tell flows between two addresses apart: ports, or the identifier of an echo. */
  function FlowBytes(d: Datagram, echo: bool): (b: seq<byte>)
  {
    if HasPorts(d.protocol) && 4 <= |d.transport| then d.transport[..4]
    else if echo && 6 <= |d.transport| then d.transport[4..6]
    else []
  }

  /** An ICMP packet whose header follows the IP header directly. */
  predicate IsEcho(v: Version, p: seq<byte>, d: Datagram)
  {
    if v.Ip4? then d.protocol == 1 else 6 < |p| && p[6] == 58
  }

  lemma Parsed4Hash(fnv: Hasher, p: seq<byte>, d: Datagram)
    requires OfVersion(Ip4, p) && ParseIpv4(p) == Some(d)
    requires (HasPorts(d.protocol) ==> 4 <= |d.transport|) && (IsEcho(Ip4, p, d) ==> 6 <= |d.transport|)
    ensures var b := FlowBytes(d, IsEcho(Ip4, p, d));
            HashOf(fnv, p) ==
            if b == [] then fnv.hash(d.src + d.dst) else fnv.mix(fnv.hash(d.src + d.dst), fnv.hash(b))
  {
    var h, total, t := p[0] as int % 16 * 4, U16(p, 2), d.transport;
    assert p[12..16] + p[16..20] == p[12..20] && t == p[h..total];
    if 4 <= |t| { assert t[..4] == p[h..h + 4]; }
    if 6 <= |t| { assert t[4..6] == p[h + 4..h + 6]; }
  }

  lemma Parsed6Hash(fnv: Hasher, p: seq<byte>, d: Datagram)
    requires OfVersion(Ip6, p) && ParseIpv6(p) == Some(d)
    requires (HasPorts(d.protocol) ==> 4 <= |d.transport|) && (IsEcho(Ip6, p, d) ==> 6 <= |d.transport|)
    ensures var b := FlowBytes(d, IsEcho(Ip6, p, d));
            HashOf(fnv, p) ==
            if b == [] then fnv.hash(d.src + d.dst) else fnv.mix(fnv.hash(d.src + d.dst), fnv.hash(b))
  {
    var t := d.transport;
    assert p[8..24] + p[24..40] == p[8..40];
    ParseIpv6IsWalk(p);
    Ext.WalkBounds(p);
    if Ext.IsExtensionHeader(p[6]) {
      var at := Ext.WalkOf(p).value.transportOffset;
      if 4 <= |t| { assert t[..4] == p[at..at + 4]; }
    } else {
      var end := 40 + U16(p, 4);
      assert t == p[40..end];
      if 4 <= |t| { assert t[..4] == p[40..44]; }
      if 6 <= |t| { assert t[4] == p[44] && t[5] == p[45] && t[4..6] == p[44..46]; }
    }
  }

  /** Unfragmented packets of one flow are pinned together, whatever IP options or extension headers they carry. */
  lemma FlowPinsTogether(fnv: Hasher, v: Version, p: seq<byte>, q: seq<byte>, d: Datagram, e: Datagram)
    requires OfVersion(v, p) && OfVersion(v, q) && ParseIp(v, p) == Some(d) && ParseIp(v, q) == Some(e)
    requires d.src == e.src && d.dst == e.dst && HasPorts(d.protocol) && HasPorts(e.protocol)
    requires 4 <= |d.transport| && 4 <= |e.transport| && d.transport[..4] == e.transport[..4]
    ensures HashOf(fnv, p) == HashOf(fnv, q)
  {
    if v.Ip4? {
      Parsed4Hash(fnv, p, d);
      Parsed4Hash(fnv, q, e);
    } else {
      Parsed6Hash(fnv, p, d);
      Parsed6Hash(fnv, q, e);
    }
  }
}
