/** Pinning packets to shards (`flowHash`): what pins together must hash together. */
module FlowHash {
  import opened Bytes
  import opened Options
  import opened Fragments
  import Ext = Ipv6Ext

  const OFFSET32: bv32 := 2166136261
  const PRIME32: bv32 := 16777619

  const TCP: byte := 6
  const UDP: byte := 17

  /** A hash of bytes and the way hashes are combined; what is proved of shards holds for any. */
  datatype Hasher = Hasher(hash: seq<byte> -> bv32, mix: (bv32, bv32) -> bv32)

  /** Mixing keeps a hash exactly when what is mixed in is zero. */
  ghost predicate Lawful(fnv: Hasher)
  {
    forall h, x :: fnv.mix(h, x) == h <==> x == 0
  }

  function FoldBytes(step: (bv32, byte) -> bv32, start: bv32, data: seq<byte>): (h: bv32)
  {
    if data == [] then start else step(FoldBytes(step, start, data[..|data| - 1]), data[|data| - 1])
  }

  function FnvStep(h: bv32, b: byte): (r: bv32) { (h ^ (b as bv32)) * PRIME32 }

  /** FNV-1a, the hash of the source. */
  function Fnv(data: seq<byte>): (h: bv32) { FoldBytes(FnvStep, OFFSET32, data) }

  function Xor(h: bv32, x: bv32): (r: bv32) { h ^ x }

  const FNV: Hasher := Hasher(Fnv, Xor)

  lemma FnvLawful()
    ensures Lawful(FNV)
  {
    forall h: bv32, x: bv32 ensures Xor(h, x) == h <==> x == 0 { XorKeeps(h, x); }
  }

  lemma XorKeeps(h: bv32, x: bv32)
    ensures h ^ x == h <==> x == 0
  {
  }

  method Hash(step: (bv32, byte) -> bv32, start: bv32, data: seq<byte>) returns (h: bv32)
    ensures h == FoldBytes(step, start, data)
  {
    h := start;
    for i := 0 to |data|
      invariant h == FoldBytes(step, start, data[..i])
    {
      assert data[..i + 1][..i] == data[..i];
      h := step(h, data[i]);
    }
    assert data[..|data|] == data;
  }

  predicate HasPorts(protocol: byte) { protocol == TCP || protocol == UDP }

  /** `h` with `packet[from..to]` mixed in, or as it is where the packet ends before. */
  function Mixed(fnv: Hasher, h: bv32, packet: seq<byte>, from: nat, to: nat): (r: bv32)
    requires from <= to
  {
    if to <= |packet| then fnv.mix(h, fnv.hash(packet[from..to])) else h
  }

  function HashOf4(fnv: Hasher, packet: seq<byte>): (h: bv32)
    requires HEADER4 <= |packet|
  {
    var h := fnv.hash(packet[12..20]);
    var header := packet[0] as int % 16 * 4;
    if U16(packet, 6) % 0x4000 != 0 then fnv.mix(fnv.mix(h, fnv.hash(packet[9..10])), fnv.hash(packet[4..6]))
    else if packet[9] == 1 then Mixed(fnv, h, packet, header + 4, header + 6)
    else if HasPorts(packet[9]) then Mixed(fnv, h, packet, header, header + 4)
    else h
  }

  function HashOf6(fnv: Hasher, packet: seq<byte>): (h: bv32)
    requires HEADER6 <= |packet|
  {
    var h := fnv.hash(packet[8..40]);
    if Ext.IsExtensionHeader(packet[6]) && Ext.WalkOf(packet).Some? then
      var walk := Ext.WalkOf(packet).value;
      if walk.fragmented && walk.fragment.Some? then fnv.mix(h, fnv.hash(Be32(walk.fragment.value.identification)))
      else if HasPorts(walk.nextHeader) then Mixed(fnv, h, packet, walk.transportOffset, walk.transportOffset + 4)
      else h
    else if packet[6] == 58 then Mixed(fnv, h, packet, 44, 46)
    else if HasPorts(packet[6]) then Mixed(fnv, h, packet, 40, 44)
    else h
  }

  /** `flowHash`. */
  function HashOf(fnv: Hasher, packet: seq<byte>): (h: bv32)
  {
    if |packet| < 20 then 0
    else if packet[0] / 16 == 4 then HashOf4(fnv, packet)
    else if packet[0] / 16 == 6 && HEADER6 <= |packet| then HashOf6(fnv, packet)
    else 0
  }

  // ---- fragments of one datagram ----

  /** The reassembly key of a fragment, well formed or not. */
  function KeyOf(family: Family, input: Input): (k: Option<Key>)
  {
    match Parse(family, input)
    case NotFragment => None
    case Malformed(k) => Some(k)
    case Piece(a) => Some(a.key)
  }

  lemma Hash4OfKey(fnv: Hasher, input: Input)
    requires IsFragment4(input.buffer.data)
    ensures var p := input.buffer.data;
            var k := KeyOf4(input);
            HashOf(fnv, p) ==
              fnv.mix(fnv.mix(fnv.hash(k.sourceIp + k.destinationIp), fnv.hash([k.protocol])),
                      fnv.hash(Be16(k.identification)))
  {
    var p := input.buffer.data;
    assert p[12..16] + p[16..20] == p[12..20] && p[9..10] == [p[9]];
    Be16Inverse(p, 4);
  }

  lemma Hash6OfKey(fnv: Hasher, input: Input)
    requires Ext.IsFragmentPacket(input.buffer.data)
    ensures var p := input.buffer.data;
            Ext.WalkOf(p).value.fragment.Some?
            && var k := KeyOf6(input, Ext.WalkOf(p).value.fragment.value.identification);
               HashOf(fnv, p) == fnv.mix(fnv.hash(k.sourceIp + k.destinationIp), fnv.hash(Be32(k.identification)))
  {
    var p := input.buffer.data;
    Ext.FragmentIsLaidOut(p);
    assert p[8..24] + p[24..40] == p[8..40];
  }

  /** Fragments with equal reassembly keys are pinned to one shard. */
  lemma EqualKeysPinTogether(fnv: Hasher, family: Family, a: Input, b: Input)
    requires KeyOf(family, a).Some? && KeyOf(family, a) == KeyOf(family, b)
    ensures HashOf(fnv, a.buffer.data) == HashOf(fnv, b.buffer.data)
  {
    if family.V4? {
      Hash4OfKey(fnv, a);
      Hash4OfKey(fnv, b);
    } else {
      Hash6OfKey(fnv, a);
      Hash6OfKey(fnv, b);
    }
  }

  // ---- extension headers ----

  /** The transport header starts at this index. */
  function TransportAt(hs: Ext.Headers): (at: nat) { HEADER6 + |Ext.Chain(hs)| }

  /** The hash of a TCP or UDP packet goes by addresses and ports, through up to 15 extension headers. */
  lemma HashOfChain(fnv: Hasher, packet: seq<byte>, hs: Ext.Headers)
    requires Ext.Carries(packet, hs) && HasPorts(Ext.Target(hs)) && Ext.Count(hs) <= 15
    ensures HashOf(fnv, packet) == Mixed(fnv, fnv.hash(packet[8..40]), packet, TransportAt(hs), TransportAt(hs) + 4)
  {
    if hs.Last? {
      assert Ext.Chain(hs) == [];
    } else {
      Ext.WalkFindsTransport(packet, hs);
      MoreIsExtension(hs);
      HashOfWalk(fnv, packet, Ext.Target(hs), TransportAt(hs));
    }
  }

  lemma HashOfWalk(fnv: Hasher, packet: seq<byte>, protocol: byte, at: nat)
    requires Ext.IsIpv6(packet) && Ext.IsExtensionHeader(packet[6]) && HasPorts(protocol)
    requires Ext.TransportOffset(packet) == Some((protocol, at, Ext.PayloadEnd(packet)))
    ensures HashOf(fnv, packet) == Mixed(fnv, fnv.hash(packet[8..40]), packet, at, at + 4)
  {
  }

  lemma MoreIsExtension(hs: Ext.Headers)
    requires hs.More? && Ext.ValidChain(hs, false)
    ensures Ext.IsExtensionHeader(Ext.FirstKind(hs))
  {
  }

  /** From the 16th extension header on the ports are no longer found. */
  lemma HashOfLongChain(fnv: Hasher, packet: seq<byte>, hs: Ext.Headers)
    requires Ext.Carries(packet, hs) && Ext.Count(hs) >= 16
    ensures HashOf(fnv, packet) == fnv.hash(packet[8..40])
  {
    Ext.WalkFindsTransport(packet, hs);
    MoreIsExtension(hs);
    ExtensionIsNoTransport(packet[6]);
  }

  lemma ExtensionIsNoTransport(kind: byte)
    requires Ext.IsExtensionHeader(kind)
    ensures kind != 58 && !HasPorts(kind)
  {
  }

  /** The same addresses, protocol and ports. */
  ghost predicate SameFlow(p: seq<byte>, hs: Ext.Headers, q: seq<byte>, gs: Ext.Headers)
  {
    && Ext.Carries(p, hs) && Ext.Carries(q, gs) && p[8..40] == q[8..40]
    && HasPorts(Ext.Target(hs)) && Ext.Target(gs) == Ext.Target(hs)
    && TransportAt(hs) + 4 <= |p| && TransportAt(gs) + 4 <= |q|
    && p[TransportAt(hs)..TransportAt(hs) + 4] == q[TransportAt(gs)..TransportAt(gs) + 4]
  }

  /**
   * Adding or dropping extension headers keeps a TCP or UDP flow on its shard as long as there are at
   * most 15; a longer chain keeps its hash exactly when the ports hash to zero.
   */
  lemma ExtensionHeadersKeepHash(fnv: Hasher, p: seq<byte>, hs: Ext.Headers, q: seq<byte>, gs: Ext.Headers)
    requires Lawful(fnv) && SameFlow(p, hs, q, gs) && Ext.Count(hs) <= 15
    ensures HashOf(fnv, p) == HashOf(fnv, q) <==>
              Ext.Count(gs) <= 15 || fnv.hash(p[TransportAt(hs)..TransportAt(hs) + 4]) == 0
  {
    HashOfChain(fnv, p, hs);
    HashOfEither(fnv, q, gs);
  }

  lemma HashOfEither(fnv: Hasher, packet: seq<byte>, hs: Ext.Headers)
    requires Ext.Carries(packet, hs) && HasPorts(Ext.Target(hs)) && TransportAt(hs) + 4 <= |packet|
    ensures HashOf(fnv, packet) ==
              if Ext.Count(hs) <= 15
              then fnv.mix(fnv.hash(packet[8..40]), fnv.hash(packet[TransportAt(hs)..TransportAt(hs) + 4]))
              else fnv.hash(packet[8..40])
  {
    if Ext.Count(hs) <= 15 { HashOfChain(fnv, packet, hs); } else { HashOfLongChain(fnv, packet, hs); }
  }
}
