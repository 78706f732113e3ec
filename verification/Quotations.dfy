/** ICMP errors quote the start of the packet they are about; what the quotation says of its flow. */
module Quotations {
  import opened Bytes
  import opened Options
  import opened Headers
  import opened IpHeaders
  import opened Unreachable
  import opened DialFailure
  import FlowParsed
  import Ext = Ipv6Ext

  // ---- which quotations name a flow ----

  lemma ClampedFits(e: seq<byte>)
    requires IPV6_HEADER <= |e|
    ensures var c := Clamped(e);
            && Ext.PayloadEnd(c) == Min(Ext.PayloadEnd(e), |e|) && c[0] == e[0] && c[6] == e[6]
            && forall i :: 8 <= i < |e| ==> c[i] == e[i]
  {
    var c := Clamped(e);
    if |e| < IPV6_HEADER + U16(e, 4) { assert c[4..6] == Be16(|e| - IPV6_HEADER); }
  }

  /** A chain of at most 15 extension headers leads to a transport of that protocol. */
  ghost predicate LeadsTo(q: seq<byte>, protocol: byte, at: nat)
  {
    exists hs :: Ext.Carries(q, hs) && Ext.Count(hs) <= 15 && protocol == Ext.Target(hs)
                 && at == IPV6_HEADER + |Ext.Chain(hs)|
  }

  function FirstTwo(w: Option<(byte, nat, nat)>): (r: Option<(byte, nat)>)
  {
    if w.None? then None else Some((w.value.0, w.value.1))
  }

  lemma LeadsFound(q: seq<byte>, protocol: byte, at: nat)
    requires LeadsTo(q, protocol, at)
    ensures FirstTwo(Ext.TransportOffset(q)) == Some((protocol, at))
  {
    var hs :| Ext.Carries(q, hs) && Ext.Count(hs) <= 15 && protocol == Ext.Target(hs)
              && at == IPV6_HEADER + |Ext.Chain(hs)|;
    Ext.WalkFindsTransport(q, hs);
  }

  lemma FoundLeads(q: seq<byte>)
    requires Ext.TransportOffset(q).Some?
    ensures LeadsTo(q, Ext.TransportOffset(q).value.0, Ext.TransportOffset(q).value.1)
  {
    Ext.WalkAcceptsExactlyChains(q);
    var hs :| Ext.Carries(q, hs) && Ext.Count(hs) <= 15;
    Ext.WalkFindsTransport(q, hs);
  }

  lemma LeadsExactly(q: seq<byte>, protocol: byte, at: nat)
    ensures LeadsTo(q, protocol, at) <==> FirstTwo(Ext.TransportOffset(q)) == Some((protocol, at))
  {
    if LeadsTo(q, protocol, at) { LeadsFound(q, protocol, at); }
    if Ext.TransportOffset(q).Some? { FoundLeads(q); }
  }

  lemma EmbeddedLeads(e: seq<byte>, protocol: byte, at: nat)
    requires IPV6_HEADER <= |e| && e[0] / 16 == 6
    ensures LeadsTo(Clamped(e), protocol, at) <==> EmbeddedTransport(e) == Some((protocol, at))
  {
    ClampedFits(e);
    assert EmbeddedTransport(e) == FirstTwo(Ext.TransportOffset(Clamped(e)));
    LeadsExactly(Clamped(e), protocol, at);
  }

  lemma LeadsPast(q: seq<byte>, protocol: byte, at: nat)
    requires LeadsTo(q, protocol, at)
    ensures Ext.IsIpv6(q) && IPV6_HEADER <= at <= Ext.PayloadEnd(q) <= |q|
  {
  }

  /** The headers lead to eight bytes of a transport, which say `f`. */
  ghost predicate Quotes6(e: seq<byte>, f: Path, protocol: byte, at: nat)
  {
    && IPV6_HEADER + 8 <= at + 8 <= |e| && LeadsTo(Clamped(e), protocol, at)
    && FlowOf(6, protocol, e[8..24], e[24..40], e[at..]) == Some(f)
  }

  lemma PathOfTransport(e: seq<byte>, protocol: byte, at: nat)
    requires IPV6_HEADER + 8 <= at + 8 <= |e| && e[0] / 16 == 6 && EmbeddedTransport(e) == Some((protocol, at))
    ensures EmbeddedPath(e) == FlowOf(6, protocol, e[8..24], e[24..40], e[at..])
  {
  }

  lemma QuotedNames6(e: seq<byte>, protocol: byte, at: nat)
    requires IPV6_HEADER + 8 <= at + 8 <= |e| && e[0] / 16 == 6 && LeadsTo(Clamped(e), protocol, at)
    ensures EmbeddedPath(e) == FlowOf(6, protocol, e[8..24], e[24..40], e[at..])
  {
    assert EmbeddedTransport(e) == Some((protocol, at)) by { EmbeddedLeads(e, protocol, at); }
    PathOfTransport(e, protocol, at);
  }

  lemma NamesQuoted6(e: seq<byte>, f: Path)
    requires e != [] && e[0] / 16 == 6 && EmbeddedPath(e) == Some(f)
    ensures exists protocol, at :: Quotes6(e, f, protocol, at)
  {
    var w := EmbeddedTransport(e).value;
    EmbeddedLeads(e, w.0, w.1);
    LeadsPast(Clamped(e), w.0, w.1);
    assert Quotes6(e, f, w.0, w.1);
  }

  /** A quoted IPv6 packet names a flow exactly when its headers and eight transport bytes are there, unfragmented. */
  lemma Quoted6Exactly(e: seq<byte>, f: Path)
    requires e != [] && e[0] / 16 == 6
    ensures EmbeddedPath(e) == Some(f) <==> exists protocol, at :: Quotes6(e, f, protocol, at)
  {
    if EmbeddedPath(e) == Some(f) { NamesQuoted6(e, f); }
    forall protocol, at | Quotes6(e, f, protocol, at) ensures EmbeddedPath(e) == Some(f) {
      QuotedNames6(e, protocol, at);
    }
  }

  // ---- a quotation of a packet names its flow ----

  /** Only the first eight bytes of the transport are read. */
  lemma EightAreEnough(version: int, protocol: byte, src: seq<byte>, dst: seq<byte>, t: seq<byte>, u: seq<byte>)
    requires 8 <= |t| && 8 <= |u| && t[..8] == u[..8]
    ensures FlowOf(version, protocol, src, dst, t) == FlowOf(version, protocol, src, dst, u)
  {
    assert forall i :: 0 <= i < 8 ==> t[i] == t[..8][i] == u[..8][i] == u[i];
  }

  lemma Quotation4(p: seq<byte>, d: Datagram, n: nat)
    requires p != [] && p[0] / 16 == 4 && ParseIpv4(p) == Some(d) && 8 <= |d.transport|
    requires p[0] as int % 16 * 4 + 8 <= n <= |p|
    ensures EmbeddedPath(p[..n]) == FlowOf(4, d.protocol, d.src, d.dst, d.transport)
  {
    var e, h, total := p[..n], p[0] as int % 16 * 4, U16(p, 2);
    assert d.transport == p[h..total];
    assert e[h..][..8] == p[h..h + 8] == d.transport[..8];
    assert e[12..16] == p[12..16] && e[16..20] == p[16..20];
    EightAreEnough(4, d.protocol, d.src, d.dst, e[h..], d.transport);
  }

  lemma QuotationCarries(p: seq<byte>, hs: Ext.Headers, n: nat)
    requires Ext.Carries(p, hs) && IPV6_HEADER + |Ext.Chain(hs)| <= n <= |p|
    ensures Ext.Carries(Clamped(p[..n]), hs)
  {
    var e, k := p[..n], |Ext.Chain(hs)|;
    ClampedFits(e);
    assert U16(e, 4) == U16(p, 4);
    assert Clamped(e)[IPV6_HEADER..IPV6_HEADER + k] == p[IPV6_HEADER..IPV6_HEADER + k];
  }

  lemma QuotationLeads(p: seq<byte>, protocol: byte, at: nat, n: nat)
    requires LeadsTo(p, protocol, at) && IPV6_HEADER <= at <= n <= |p|
    ensures LeadsTo(Clamped(p[..n]), protocol, at)
  {
    var hs :| Ext.Carries(p, hs) && Ext.Count(hs) <= 15 && protocol == Ext.Target(hs)
              && at == IPV6_HEADER + |Ext.Chain(hs)|;
    QuotationCarries(p, hs, n);
  }

  lemma ParsedOffset(p: seq<byte>, d: Datagram, w: Option<(byte, nat, nat)>)
    requires Ext.IsIpv6(p) && ParseIpv6(p) == Some(d) && w == Ext.TransportOffset(p)
    ensures w.Some? && w.value.1 <= w.value.2 <= |p| && d.transport == p[w.value.1..w.value.2]
    ensures d.src == p[8..24] && d.dst == p[24..40]
  {
    Ext.PeeksAgreeWithWalk(p);
    ParseIpv6IsWalk(p);
  }

  lemma ParsedLeads(p: seq<byte>, d: Datagram, at: nat) returns (end: nat)
    requires Ext.IsIpv6(p) && ParseIpv6(p) == Some(d) && LeadsTo(p, d.protocol, at)
    ensures at <= end <= |p| && d.transport == p[at..end] && d.src == p[8..24] && d.dst == p[24..40]
  {
    var w := Ext.TransportOffset(p);
    ParsedOffset(p, d, w);
    LeadsFound(p, d.protocol, at);
    end := w.value.2;
  }

  lemma SameEight(p: seq<byte>, at: nat, end: nat, n: nat)
    requires at + 8 <= n <= |p| && at + 8 <= end <= |p|
    ensures p[..n][at..][..8] == p[at..end][..8]
  {
  }

  lemma Quotation6(p: seq<byte>, d: Datagram, at: nat, n: nat)
    requires ParseIpv6(p) == Some(d) && LeadsTo(p, d.protocol, at) && 8 <= |d.transport|
    requires at + 8 <= n <= |p|
    ensures EmbeddedPath(p[..n]) == FlowOf(6, d.protocol, d.src, d.dst, d.transport)
  {
    var e := p[..n];
    LeadsPast(p, d.protocol, at);
    var end := ParsedLeads(p, d, at);
    QuotationLeads(p, d.protocol, at, n);
    QuotedNames6(e, d.protocol, at);
    SameEight(p, at, end, n);
    assert e[8..24] == p[8..24] && e[24..40] == p[24..40];
    EightAreEnough(6, d.protocol, d.src, d.dst, e[at..], d.transport);
  }

  /** Where the transport of a packet starts. */
  ghost predicate StartsAt(v: Version, p: seq<byte>, protocol: byte, at: nat)
  {
    if v.Ip4? then p != [] && at == p[0] as int % 16 * 4 else LeadsTo(p, protocol, at)
  }

  /**
   * The start of any unfragmented packet, cut anywhere after the eighth byte of its transport, names the flow the whole
   * packet has, whatever options or extension headers come before.
   */
  lemma QuotationNamesFlow(v: Version, p: seq<byte>, d: Datagram, at: nat, n: nat)
    requires FlowParsed.OfVersion(v, p) && ParseIp(v, p) == Some(d) && 8 <= |d.transport|
    requires StartsAt(v, p, d.protocol, at) && at + 8 <= n <= |p|
    ensures EmbeddedPath(p[..n]) == FlowOf(if v.Ip4? then 4 else 6, d.protocol, d.src, d.dst, d.transport)
  {
    if v.Ip4? { Quotation4(p, d, n); } else { Quotation6(p, d, at, n); }
  }
}
