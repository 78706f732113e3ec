/** IP header writers and the transport checksum over the pseudo header. */
module Headers {
  import opened Bytes
  import opened Checksum

  const IPV4_HEADER: nat := 20
  const IPV6_HEADER: nat := 40

  /** `p` with the checksum of its first `n` bytes stored at 10. */
  function HeaderSealed(p: seq<byte>, n: nat): (r: seq<byte>)
    requires 12 <= n <= |p|
    ensures |r| == |p| && r[n..] == p[n..]
    ensures forall i :: 0 <= i < |p| && i != 10 && i != 11 ==> r[i] == p[i]
  {
    Sealed(0, p[..n], 10) + p[n..]
  }

  lemma HeaderSealedVerifies(p: seq<byte>, n: nat)
    requires 12 <= n <= |p|
    ensures Verifies(0, HeaderSealed(p, n)[..n])
  {
    SealedVerifies(0, p[..n], 10);
    assert HeaderSealed(p, n)[..n] == Sealed(0, p[..n], 10);
  }

  /** Sealing forgets whatever the checksum field held. */
  lemma HeaderSealedForgets(p: seq<byte>, q: seq<byte>, n: nat)
    requires 12 <= n <= |p| == |q|
    requires forall i :: 0 <= i < |p| && i != 10 && i != 11 ==> p[i] == q[i]
    ensures HeaderSealed(p, n) == HeaderSealed(q, n)
  {
    assert Overwrite(p[..n], 10, Be16(0)) == Overwrite(q[..n], 10, Be16(0));
    assert p[n..] == q[n..];
  }

  /** `writeIpv4HeaderChecksum` on the first `n` bytes of `packet`. */
  method WriteIpv4HeaderChecksum(packet: array<byte>, n: nat)
    requires 12 <= n <= packet.Length && n <= 0xffff
    modifies packet
    ensures packet[..] == HeaderSealed(old(packet[..]), n)
  {
    ghost var p := packet[..];
    packet[10], packet[11] := 0, 0;
    assert packet[..n] == Overwrite(p[..n], 10, Be16(0));
    AccumulatorIsExact(0, packet[..n]);
    var sum := ChecksumAdd(0, packet[..n]);
    var checksum := ChecksumFinish(sum);
    packet[10], packet[11] := checksum / 0x100, checksum % 0x100;
    assert packet[..n] == Sealed(0, p[..n], 10);
    assert packet[..] == packet[..n] + packet[n..];
    assert packet[n..] == p[n..];
  }
}
