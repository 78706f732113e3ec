/** The packets, datagrams and segments the parsers accept, as layouts: accepted exactly when laid out so. */
module HeaderReading {
  import opened Bytes
  import opened Options
  import opened IpHeaders
  import opened TcpOptions
  import opened OptionReading
  import opened Udp
  import Tcp

  // ---- IPv4 ----

  /** A header of its own length with its options, the transport up to the total length, and bytes past it. */
  ghost predicate Lays4(p: seq<byte>, d: Datagram, head: seq<byte>, trailer: seq<byte>)
  {
    && 20 <= |head| && p == head + d.transport + trailer
    && |head| == 4 * (head[0] as int % 16) && U16(head, 2) == |head| + |d.transport|
    && U16(head, 6) / 0x2000 % 2 == 0 && U16(head, 6) % 0x2000 == 0
    && d.protocol == head[9] && d.src == head[12..16] && d.dst == head[16..20]
  }

  lemma UnfragmentedWord(w: uint16)
    ensures w % 0x4000 == 0 <==> w / 0x2000 % 2 == 0 && w % 0x2000 == 0
  {
  }

  lemma Laid4Parses(p: seq<byte>, d: Datagram, head: seq<byte>, trailer: seq<byte>)
    requires Lays4(p, d, head, trailer)
    ensures ParseIpv4(p) == Some(d)
  {
    var h := |head|;
    assert forall i :: 0 <= i < 20 ==> p[i] == head[i];
    assert p[12..16] == head[12..16] && p[16..20] == head[16..20];
    assert p[h..h + |d.transport|] == d.transport;
    UnfragmentedWord(U16(head, 6));
  }

  lemma ParsedIsLaid4(p: seq<byte>, d: Datagram)
    requires ParseIpv4(p) == Some(d)
    ensures exists head, trailer :: Lays4(p, d, head, trailer)
  {
    var header, total := p[0] as int % 16 * 4, U16(p, 2);
    var head, trailer := p[..header], p[total..];
    assert forall i :: 0 <= i < 20 ==> p[i] == head[i];
    assert p[12..16] == head[12..16] && p[16..20] == head[16..20];
    assert p == head + d.transport + trailer;
    UnfragmentedWord(U16(p, 6));
    assert Lays4(p, d, head, trailer);
  }

  /** Options in the header and bytes past the total length are passed over; a fragment is not accepted. */
  lemma Parse4Exactly(p: seq<byte>, d: Datagram)
    ensures ParseIpv4(p) == Some(d) <==> exists head, trailer :: Lays4(p, d, head, trailer)
  {
    if ParseIpv4(p) == Some(d) { ParsedIsLaid4(p, d); }
    forall head, trailer | Lays4(p, d, head, trailer) ensures ParseIpv4(p) == Some(d) {
      Laid4Parses(p, d, head, trailer);
    }
  }

  // ---- UDP ----

  function UdpHead(u: UdpParsed, length: uint16, checksum: uint16): (b: seq<byte>)
  {
    Be16(u.sourcePort) + Be16(u.destinationPort) + Be16(length) + Be16(checksum)
  }

  /** The ports, the length of the header and the payload, any checksum, the payload, and bytes past it. */
  ghost predicate LaysUdp(t: seq<byte>, u: UdpParsed, checksum: uint16, trailer: seq<byte>)
  {
    8 + |u.payload| <= 0xffff && t == UdpHead(u, 8 + |u.payload|, checksum) + u.payload + trailer
  }

  lemma LaidUdpParses(t: seq<byte>, u: UdpParsed, checksum: uint16, trailer: seq<byte>)
    requires LaysUdp(t, u, checksum, trailer)
    ensures ParseUdp(t) == Some(u)
  {
    var head := UdpHead(u, 8 + |u.payload|, checksum);
    assert head[0..2] == Be16(u.sourcePort) && head[2..4] == Be16(u.destinationPort)
           && head[4..6] == Be16(8 + |u.payload|);
    assert forall i :: 0 <= i < 8 ==> t[i] == head[i];
    assert t[8..8 + |u.payload|] == u.payload;
  }

  lemma ParsedIsLaidUdp(t: seq<byte>, u: UdpParsed)
    requires ParseUdp(t) == Some(u)
    ensures LaysUdp(t, u, U16(t, 6), t[U16(t, 4)..])
  {
    Be16Inverse(t, 0);
    Be16Inverse(t, 2);
    Be16Inverse(t, 4);
    Be16Inverse(t, 6);
    assert t[..8] == t[0..2] + t[2..4] + t[4..6] + t[6..8];
    assert t == t[..8] + t[8..U16(t, 4)] + t[U16(t, 4)..];
  }

  /** A datagram is accepted exactly when its length field covers its header and lies within what there is. */
  lemma ParseUdpExactly(t: seq<byte>, u: UdpParsed)
    ensures ParseUdp(t) == Some(u) <==> exists checksum, trailer :: LaysUdp(t, u, checksum, trailer)
  {
    if ParseUdp(t) == Some(u) { ParsedIsLaidUdp(t, u); }
    forall checksum, trailer | LaysUdp(t, u, checksum, trailer) ensures ParseUdp(t) == Some(u) {
      LaidUdpParses(t, u, checksum, trailer);
    }
  }

  // ---- TCP ----

  predicate HasFields(head: seq<byte>, f: Tcp.Fields)
  {
    && |head| == 20
    && head[0..2] == Be16(f.sourcePort) && head[2..4] == Be16(f.destinationPort)
    && head[4..8] == Be32(f.number) && head[8..12] == Be32(f.ack) && head[13] == f.flags
    && head[14..16] == Be16(f.window)
  }

  /** The fixed header, options of the length it says that list what was read, and the payload. */
  ghost predicate LaysTcp(t: seq<byte>, x: Tcp.TcpParsed, head: seq<byte>, options: seq<byte>, items: seq<Item>,
                          tail: seq<byte>)
  {
    && HasFields(head, x.fields) && t == head + options + x.payload
    && 20 + |options| == 4 * (head[12] as int / 16)
    && Lists(options, items, tail) && x.options == Says(NO_OPTIONS, items)
  }

  lemma FieldsRead(head: seq<byte>, t: seq<byte>, f: Tcp.Fields)
    requires 20 <= |t| && head == t[..20]
    ensures HasFields(head, f) <==> f == Tcp.Fields(U16(t, 0), U16(t, 2), U32(t, 4), U32(t, 8), t[13], U16(t, 14))
  {
    Be16Inverse(t, 0);
    Be16Inverse(t, 2);
    Be32Inverse(t, 4);
    Be32Inverse(t, 8);
    Be16Inverse(t, 14);
    assert head[0..2] == t[0..2] && head[2..4] == t[2..4] && head[4..8] == t[4..8] && head[8..12] == t[8..12]
           && head[14..16] == t[14..16];
  }

  lemma LaidTcpParses(t: seq<byte>, x: Tcp.TcpParsed, head: seq<byte>, options: seq<byte>, items: seq<Item>,
                      tail: seq<byte>)
    requires LaysTcp(t, x, head, options, items, tail)
    ensures Tcp.ParseTcp(t) == Some(x)
  {
    var h := 20 + |options|;
    assert head == t[..20] && t[12] == head[12];
    FieldsRead(head, t, x.fields);
    assert t[20..h] == options && t[h..] == x.payload;
    OptionsExactly(NO_OPTIONS, items, tail);
  }

  lemma ParsedIsLaidTcp(t: seq<byte>, x: Tcp.TcpParsed) returns (head: seq<byte>, options: seq<byte>, items: seq<Item>,
                                                                 tail: seq<byte>)
    requires Tcp.ParseTcp(t) == Some(x)
    ensures LaysTcp(t, x, head, options, items, tail)
  {
    var h := t[12] as int / 16 * 4;
    head, options := t[..20], t[20..h];
    FieldsRead(head, t, x.fields);
    assert t == head + options + x.payload;
    items, tail := EveryList(options);
    OptionsExactly(NO_OPTIONS, items, tail);
  }

  /** A segment is accepted exactly when its header length covers the fixed header and lies within what there is. */
  lemma ParseTcpExactly(t: seq<byte>, x: Tcp.TcpParsed)
    ensures Tcp.ParseTcp(t) == Some(x) <==>
            exists head, options, items, tail :: LaysTcp(t, x, head, options, items, tail)
  {
    if Tcp.ParseTcp(t) == Some(x) {
      var head, options, items, tail := ParsedIsLaidTcp(t, x);
    }
    forall head, options, items, tail | LaysTcp(t, x, head, options, items, tail) ensures Tcp.ParseTcp(t) == Some(x) {
      LaidTcpParses(t, x, head, options, items, tail);
    }
  }
}
