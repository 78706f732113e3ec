/** TCP segments of the synthetic endpoint: building, parsing and segmentation. */
module Tcp {
  import opened Bytes
  import opened Options
  import opened Checksum
  import opened Headers
  import opened IpHeaders
  import opened Assembly
  import opened TcpOptions
  import Udp

  const TCP_HEADER: nat := 20
  const STAMP_OPTION: nat := 12
  const FLAG_FIN: byte := 0x01
  const FLAG_SYN: byte := 0x02
  const FLAG_RST: byte := 0x04
  const FLAG_ACK: byte := 0x10

  /** The fixed part of a TCP header but for its length and checksum. */
  datatype Fields = Fields(sourcePort: uint16, destinationPort: uint16, number: uint32, ack: uint32, flags: byte,
                           window: uint16)

  /** Whole header words of at most 40 bytes. */
  predicate ValidOptions(options: seq<byte>)
  {
    |options| % 4 == 0 && |options| <= 40
  }

  /** `t` has the header and the data of a segment, whatever its checksum. */
  ghost predicate HasSegment(t: seq<byte>, f: Fields, options: seq<byte>, payload: seq<byte>)
  {
    && ValidOptions(options) && |t| == TCP_HEADER + |options| + |payload|
    && U16(t, 0) == f.sourcePort && U16(t, 2) == f.destinationPort && U32(t, 4) == f.number && U32(t, 8) == f.ack
    && t[12] as int == (5 + |options| / 4) * 16 && t[13] == f.flags && U16(t, 14) == f.window && U16(t, 18) == 0
    && t[TCP_HEADER..TCP_HEADER + |options|] == options && t[TCP_HEADER + |options|..] == payload
  }

  ghost predicate IsTcp(t: seq<byte>, f: Fields, options: seq<byte>, payload: seq<byte>, pseudo: nat)
  {
    HasSegment(t, f, options, payload) && (|t| <= 0xffff ==> t == Sealed(pseudo, t, 16))
  }

  /** The segment in a packet between two addresses. */
  ghost predicate IsTcpPacket(v: Version, src: seq<byte>, dst: seq<byte>, p: seq<byte>, f: Fields, options: seq<byte>,
                              payload: seq<byte>)
  {
    var h := HeaderSize(v);
    && HasHeader(v, p, TCP, src, dst)
    && |p| == h + TCP_HEADER + |options| + |payload|
    && IsTcp(p[h..], f, options, payload, Pseudo(TCP, src, dst, TCP_HEADER + |options| + |payload|))
  }

  // ---- writing ----

  /** Ports and sequence numbers. */
  function Ports(f: Fields): (b: seq<byte>)
    ensures |b| == 12
  {
    Be16(f.sourcePort) + Be16(f.destinationPort) + Be32(f.number) + Be32(f.ack)
  }

  /** Header length, flags, window, and the checksum and urgent fields as zero. */
  function Control(f: Fields, options: seq<byte>): (b: seq<byte>)
    requires ValidOptions(options)
    ensures |b| == 8
  {
    [(5 + (|options| + 3) / 4) * 16, f.flags] + Be16(f.window) + [0, 0] + [0, 0]
  }

  lemma PortsRead(f: Fields)
    ensures var b := Ports(f);
            U16(b, 0) == f.sourcePort && U16(b, 2) == f.destinationPort && U32(b, 4) == f.number && U32(b, 8) == f.ack
  {
    var b := Ports(f);
    assert b[4..8] == Be32(f.number) && b[8..12] == Be32(f.ack);
    WordAt(b, 4);
    WordAt(b, 8);
  }

  lemma WordAt(t: seq<byte>, i: nat)
    requires i + 4 <= |t|
    ensures U32(t, i) == U32(t[i..i + 4], 0)
  {
  }

  lemma SegmentWritten(f: Fields, options: seq<byte>, payload: seq<byte>)
    requires ValidOptions(options)
    ensures var t := Ports(f) + Control(f, options) + options + payload;
            HasSegment(t, f, options, payload) && U16(t, 16) == 0
  {
    var p, c := Ports(f), Control(f, options);
    var t := p + c + options + payload;
    PortsRead(f);
    assert forall i :: 0 <= i < 12 ==> t[i] == p[i];
    assert t[12] == c[0] && t[13] == c[1] && t[14] == c[2] && t[15] == c[3] && t[16] == t[17] == t[18] == t[19] == 0;
    assert t[TCP_HEADER..TCP_HEADER + |options|] == options && t[TCP_HEADER + |options|..] == payload;
  }

  /** Two adjacent writes are one. */
  lemma Adjacent(b: seq<byte>, i: nat, s: seq<byte>, t: seq<byte>)
    requires i + |s| + |t| <= |b|
    ensures Overwrite(Overwrite(b, i, s), i + |s|, t) == Overwrite(b, i, s + t)
  {
  }

  method WritePorts(packet: array<byte>, h: nat, f: Fields)
    requires h + 12 <= packet.Length
    modifies packet
    ensures packet[..] == Overwrite(old(packet[..]), h, Ports(f))
  {
    ghost var b := packet[..];
    Put16(packet, h, f.sourcePort);
    Put16(packet, h + 2, f.destinationPort);
    Adjacent(b, h, Be16(f.sourcePort), Be16(f.destinationPort));
    Put32(packet, h + 4, f.number);
    Adjacent(b, h, Be16(f.sourcePort) + Be16(f.destinationPort), Be32(f.number));
    Put32(packet, h + 8, f.ack);
    Adjacent(b, h, Be16(f.sourcePort) + Be16(f.destinationPort) + Be32(f.number), Be32(f.ack));
  }

  method PutPair(packet: array<byte>, at: nat, x: byte, y: byte)
    requires at + 2 <= packet.Length
    modifies packet
    ensures packet[..] == Overwrite(old(packet[..]), at, [x, y])
  {
    packet[at], packet[at + 1] := x, y;
  }

  method WriteControl(packet: array<byte>, h: nat, f: Fields, options: seq<byte>)
    requires h + 8 <= packet.Length && ValidOptions(options)
    modifies packet
    ensures packet[..] == Overwrite(old(packet[..]), h, Control(f, options))
  {
    ghost var b := packet[..];
    var size: byte := (5 + (|options| + 3) / 4) * 16;
    PutPair(packet, h, size, f.flags);
    Put16(packet, h + 2, f.window);
    Adjacent(b, h, [size, f.flags], Be16(f.window));
    PutPair(packet, h + 4, 0, 0);
    Adjacent(b, h, [size, f.flags] + Be16(f.window), [0, 0]);
    PutPair(packet, h + 6, 0, 0);
    Adjacent(b, h, [size, f.flags] + Be16(f.window) + [0, 0], [0, 0]);
  }

  /** `writeTcpHeader` and the data after it. */
  method WriteTcp(packet: array<byte>, h: nat, f: Fields, options: seq<byte>, payload: seq<byte>)
    requires ValidOptions(options) && h + TCP_HEADER + |options| + |payload| == packet.Length
    modifies packet
    ensures packet[..h] == old(packet[..h])
    ensures HasSegment(packet[h..], f, options, payload) && U16(packet[h..], 16) == 0
  {
    ghost var b := packet[..];
    WritePorts(packet, h, f);
    WriteControl(packet, h + 12, f, options);
    Adjacent(b, h, Ports(f), Control(f, options));
    CopyInto(packet, h + TCP_HEADER, options);
    Adjacent(b, h, Ports(f) + Control(f, options), options);
    CopyInto(packet, h + TCP_HEADER + |options|, payload);
    Adjacent(b, h, Ports(f) + Control(f, options) + options, payload);
    Overwritten(b, packet[..], h, Ports(f) + Control(f, options) + options + payload);
    SegmentWritten(f, options, payload);
  }

  lemma Overwritten(b: seq<byte>, r: seq<byte>, h: nat, s: seq<byte>)
    requires h + |s| == |b| && r == Overwrite(b, h, s)
    ensures r[..h] == b[..h] && r[h..] == s
  {
  }

  lemma SealedForgets(pseudo: nat, t: seq<byte>, u: seq<byte>)
    requires TCP_HEADER <= |t| == |u| && forall i :: 0 <= i < |t| && i != 16 && i != 17 ==> t[i] == u[i]
    ensures Sealed(pseudo, t, 16) == Sealed(pseudo, u, 16)
  {
    assert Overwrite(t, 16, Be16(0)) == Overwrite(u, 16, Be16(0));
  }

  lemma SealedHere(pseudo: nat, t: seq<byte>, u: seq<byte>, checksum: uint16)
    requires TCP_HEADER <= |t| && U16(t, 16) == 0 && u == Overwrite(t, 16, Be16(checksum))
             && checksum == Finish(pseudo + Words(t))
    ensures u == Sealed(pseudo, u, 16)
  {
    assert Overwrite(t, 16, Be16(0)) == t;
    SealedForgets(pseudo, t, u);
  }

  lemma SegmentKept(t: seq<byte>, u: seq<byte>, f: Fields, options: seq<byte>, payload: seq<byte>)
    requires HasSegment(t, f, options, payload) && |u| == |t|
             && forall i :: 0 <= i < |t| && i != 16 && i != 17 ==> t[i] == u[i]
    ensures HasSegment(u, f, options, payload)
  {
    assert u[TCP_HEADER..TCP_HEADER + |options|] == options && u[TCP_HEADER + |options|..] == payload;
  }

  method SealTcp(packet: array<byte>, h: nat, v: Version, src: seq<byte>, dst: seq<byte>)
    requires h + TCP_HEADER <= packet.Length && Addresses(v, src, dst) && U16(packet[h..], 16) == 0
    modifies packet
    ensures packet[..h] == old(packet[..h])
    ensures forall i :: 0 <= i < packet.Length - h && i != 16 && i != 17 ==> packet[h..][i] == old(packet[h..])[i]
    ensures var t := packet[h..];
            |t| <= 0xffff ==> t == Sealed(Pseudo(TCP, src, dst, |t|), t, 16)
  {
    ghost var t := packet[h..];
    var checksum := TransportChecksum(TCP, src, dst, packet[h..]);
    Put16(packet, h + 16, checksum);
    assert packet[h..] == Overwrite(t, 16, Be16(checksum));
    if |t| <= 0xffff {
      ChecksumExact(v, TCP, src, dst, t);
      SealedHere(Pseudo(TCP, src, dst, |t|), t, packet[h..], checksum);
    }
  }

  /** The body of every segment builder: IP header, TCP header, data, checksum over all of it. */
  method BuildTcp(v: Version, src: seq<byte>, dst: seq<byte>, f: Fields, options: seq<byte>, payload: seq<byte>)
    returns (p: seq<byte>)
    requires Addresses(v, src, dst) && ValidOptions(options)
    ensures IsTcpPacket(v, src, dst, p, f, options, payload)
  {
    var h := HeaderSize(v);
    var packet := new byte[h + TCP_HEADER + |options| + |payload|];
    WriteHeader(v, packet, TCP, src, dst);
    ghost var written := packet[..];
    WriteTcp(packet, h, f, options, payload);
    ghost var t := packet[h..];
    SealTcp(packet, h, v, src, dst);
    p := packet[..];
    Udp.HeaderKept(v, written, p, TCP, src, dst);
    SegmentKept(t, p[h..], f, options, payload);
  }

  // ---- reading ----

  datatype TcpParsed = TcpParsed(fields: Fields, options: TcpOptions, payload: seq<byte>)

  /** `parseTcpPacket`. */
  function ParseTcp(t: seq<byte>): (r: Option<TcpParsed>)
  {
    if |t| < TCP_HEADER then None
    else
      var header := t[12] as int / 16 * 4;
      if header < TCP_HEADER || |t| < header then None
      else
        Some(TcpParsed(Fields(U16(t, 0), U16(t, 2), U32(t, 4), U32(t, 8), t[13], U16(t, 14)),
                       ParseOptions(NO_OPTIONS, t[TCP_HEADER..header]), t[header..]))
  }

  lemma SegmentParses(t: seq<byte>, f: Fields, options: seq<byte>, payload: seq<byte>)
    requires HasSegment(t, f, options, payload)
    ensures ParseTcp(t) == Some(TcpParsed(f, ParseOptions(NO_OPTIONS, options), payload))
  {
  }

  datatype Received = Received(src: seq<byte>, dst: seq<byte>, tcp: TcpParsed)

  function Receive(v: Version, p: seq<byte>): (r: Option<Received>)
  {
    match ParseIp(v, p)
    case None => None
    case Some(d) =>
      if d.protocol != TCP then None
      else
        match ParseTcp(d.transport)
        case None => None
        case Some(t) => Some(Received(d.src, d.dst, t))
  }

  /** Packets whose length the IP header can describe. */
  predicate Describable(v: Version, size: nat)
  {
    size - (if v.Ip4? then 0 else IPV6_HEADER) <= 0xffff
  }

  /** Every describable segment is read back as it was built. */
  lemma TcpReceived(v: Version, src: seq<byte>, dst: seq<byte>, p: seq<byte>, f: Fields, options: seq<byte>,
                    payload: seq<byte>)
    requires IsTcpPacket(v, src, dst, p, f, options, payload) && Describable(v, |p|)
    ensures Receive(v, p) == Some(Received(src, dst, TcpParsed(f, ParseOptions(NO_OPTIONS, options), payload)))
  {
    BuiltParses(v, p, TCP, src, dst);
    SegmentParses(p[HeaderSize(v)..], f, options, payload);
  }

  lemma SegmentVerifies(t: seq<byte>, f: Fields, options: seq<byte>, payload: seq<byte>, pseudo: nat)
    requires IsTcp(t, f, options, payload, pseudo) && |t| <= 0xffff
    ensures Verifies(pseudo, t)
  {
    SealedVerifies(pseudo, t, 16);
  }

  /** And its checksum verifies. */
  lemma TcpVerifies(v: Version, src: seq<byte>, dst: seq<byte>, p: seq<byte>, f: Fields, options: seq<byte>,
                    payload: seq<byte>)
    requires IsTcpPacket(v, src, dst, p, f, options, payload) && Describable(v, |p|)
    ensures var t := p[HeaderSize(v)..]; Verifies(Pseudo(TCP, src, dst, |t|), t)
  {
    var t := p[HeaderSize(v)..];
    SegmentVerifies(t, f, options, payload, Pseudo(TCP, src, dst, |t|));
  }
}
