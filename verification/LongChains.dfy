/** A UDP flow that sixteen extension headers move to another hash. */
module LongChains {
  import opened Bytes
  import opened FlowHash
  import Ext = Ipv6Ext

  /** `n` empty destination-options headers before UDP. */
  function Options(n: nat): (hs: Ext.Headers)
  {
    if n == 0 then Ext.Last(UDP) else Ext.More(Ext.OptionHeader(60, 0, Zeros(6)), Options(n - 1))
  }

  lemma {:induction false} OptionsAre(n: nat)
    ensures Ext.ValidChain(Options(n), false) && Ext.Count(Options(n)) == n && |Ext.Chain(Options(n))| == 8 * n
    ensures Ext.Target(Options(n)) == UDP && Ext.FirstKind(Options(n)) == if n == 0 then UDP else 60
  {
    if n > 0 { OptionsAre(n - 1); }
  }

  /** The payload length field can name `n` headers and the datagram. */
  predicate Nameable(n: nat) { 8 * n + 8 <= 0xffff }

  /** A packet between unspecified addresses: the headers, and an empty UDP datagram between ports zero. */
  function Packet(n: nat): (p: seq<byte>)
    requires Nameable(n)
  {
    OptionsAre(n);
    [0x60, 0, 0, 0] + Be16(8 * n + 8) + [Ext.FirstKind(Options(n)), 64] + Zeros(32) + Ext.Chain(Options(n)) + Zeros(8)
  }

  lemma PacketReads(kind: byte, chain: seq<byte>, p: seq<byte>)
    requires |chain| + 8 <= 0xffff
    requires p == [0x60, 0, 0, 0] + Be16(|chain| + 8) + [kind, 64] + Zeros(32) + chain + Zeros(8)
    ensures Ext.IsIpv6(p) && Ext.PayloadEnd(p) == |p| == 48 + |chain| && p[6] == kind && p[8..40] == Zeros(32)
    ensures Ext.Slice(p, 40, chain) && p[40 + |chain|..44 + |chain|] == [0, 0, 0, 0]
  {
    assert p[4..6] == Be16(|chain| + 8);
    assert p[40..40 + |chain|] == chain;
  }

  lemma PacketCarries(n: nat)
    requires Nameable(n)
    ensures var p := Packet(n);
            && Ext.Carries(p, Options(n)) && p[8..40] == Zeros(32) && TransportAt(Options(n)) + 4 <= |p|
            && p[TransportAt(Options(n))..TransportAt(Options(n)) + 4] == [0, 0, 0, 0]
  {
    OptionsAre(n);
    PacketReads(Ext.FirstKind(Options(n)), Ext.Chain(Options(n)), Packet(n));
  }

  lemma FnvSteps(data: seq<byte>, b: byte)
    ensures Fnv(data + [b]) == FnvStep(Fnv(data), b)
  {
    assert (data + [b])[..|data|] == data;
  }

  /** The hash of four zero bytes. */
  lemma FnvOfZeros()
    ensures Fnv([0, 0, 0, 0]) == 1268118805
  {
    assert Fnv([]) == OFFSET32;
    FnvSteps([], 0);
    FnvSteps([0], 0);
    FnvSteps([0, 0], 0);
    FnvSteps([0, 0, 0], 0);
    assert [] + [0] == [0] && [0] + [0] == [0, 0] && [0, 0] + [0] == [0, 0, 0] && [0, 0, 0] + [0] == [0, 0, 0, 0];
  }

  lemma SameFlows(n: nat)
    requires Nameable(n)
    ensures SameFlow(Packet(0), Options(0), Packet(n), Options(n))
  {
    OptionsAre(0);
    OptionsAre(n);
    PacketCarries(0);
    PacketCarries(n);
  }

  /** Between ports zero only the length of the chain matters. */
  lemma ZeroPorts(p: seq<byte>, hs: Ext.Headers, q: seq<byte>, gs: Ext.Headers)
    requires SameFlow(p, hs, q, gs) && Ext.Count(hs) <= 15
    requires p[TransportAt(hs)..TransportAt(hs) + 4] == [0, 0, 0, 0]
    ensures HashOf(FNV, p) == HashOf(FNV, q) <==> Ext.Count(gs) <= 15
  {
    FnvLawful();
    FnvOfZeros();
    ExtensionHeadersKeepHash(FNV, p, hs, q, gs);
  }

  /** The headers keep the hash of this flow if and only if there are at most fifteen. */
  lemma MovedExactly(n: nat)
    requires Nameable(n)
    ensures SameFlow(Packet(0), Options(0), Packet(n), Options(n))
    ensures HashOf(FNV, Packet(0)) == HashOf(FNV, Packet(n)) <==> n <= 15
  {
    SameFlows(n);
    OptionsAre(0);
    OptionsAre(n);
    PacketCarries(0);
    ZeroPorts(Packet(0), Options(0), Packet(n), Options(n));
  }
}
