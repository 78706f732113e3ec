/** Completing a datagram: the tiling test, the assembled packet, and the fragments handed back. */
module Assembly {
  import opened Bytes
  import opened Headers
  import opened Fragments
  import opened Datagrams

  /** The fragments cover [0, final) in order, with no gap and no overlap. */
  ghost predicate Tiles(fs: seq<Fragment>, final: int)
  {
    && fs != [] && fs[0].offset == 0 && End(fs[|fs| - 1]) == final
    && forall i :: 0 < i < |fs| ==> fs[i].offset == End(fs[i - 1])
  }

  ghost predicate Complete(d: Datagram)
  {
    d.firstPrefix != 0 && 0 <= d.final && Tiles(Sorted(d.fragments), d.final)
  }

  method IsTiling(fs: seq<Fragment>, final: nat) returns (b: bool)
    requires fs != []
    ensures b <==> Tiles(fs, final)
  {
    var position: int := 0;
    for i := 0 to |fs|
      invariant position == if i == 0 then 0 else End(fs[i - 1])
      invariant i > 0 ==> fs[0].offset == 0
      invariant forall j :: 0 < j < i ==> fs[j].offset == End(fs[j - 1])
    {
      if fs[i].offset != position {
        return false;
      }
      position := position + Length(fs[i]);
    }
    return position == final;
  }

  /** The payloads one after the other. */
  function Body(fs: seq<Fragment>): (b: seq<byte>)
  {
    if fs == [] then [] else Body(fs[..|fs| - 1]) + Payload(fs[|fs| - 1])
  }

  ghost predicate AllLengths(fs: seq<Fragment>)
  {
    forall i :: 0 <= i < |fs| ==> fs[i].start < |fs[i].buffer.data|
  }

  /** Under a tiling each payload lands at its own offset. */
  lemma {:induction false} TilesEnds(fs: seq<Fragment>, final: int, i: nat)
    requires Tiles(fs, final) && AllLengths(fs) && i < |fs|
    ensures End(fs[i]) <= final
    decreases |fs| - i
  {
    if i + 1 < |fs| {
      TilesEnds(fs, final, i + 1);
      assert fs[i + 1].offset == End(fs[i]);
    }
  }

  lemma {:induction false} BodyAt(fs: seq<Fragment>, final: int, i: nat)
    requires Tiles(fs, final) && AllLengths(fs) && i <= |fs|
    ensures |Body(fs[..i])| == if i < |fs| then fs[i].offset else final
  {
    if i > 0 {
      BodyAt(fs, final, i - 1);
      assert fs[..i][..i - 1] == fs[..i - 1];
    }
  }

  // ---- the assembled packet ----

  function Rewritten4(p: seq<byte>, prefix: nat): (r: seq<byte>)
    requires HEADER4 <= prefix <= |p|
    ensures |r| == |p|
  {
    HeaderSealed(Overwrite(Overwrite(p, 2, Be16(|p| % 0x1_0000)), 6, Be16(0)), prefix)
  }

  function Rewritten6(p: seq<byte>, link: nat, nextHeader: byte): (r: seq<byte>)
    requires link < |p| && HEADER6 <= |p|
    ensures |r| == |p|
  {
    Overwrite(p[link := nextHeader], 4, Be16((|p| - HEADER6) % 0x1_0000))
  }

  /** The packet the tiling `fs` makes: the offset-zero fragment's prefix, then the payloads. */
  function Whole(family: Family, fs: seq<Fragment>): (p: seq<byte>)
  {
    if fs == [] || !WellFormed(family, fs[0]) then []
    else
      var f := fs[0];
      var p := f.buffer.data[..f.prefix] + Body(fs);
      if family.V4? then Rewritten4(p, f.prefix) else Rewritten6(p, f.link, f.nextHeader)
  }

  method CopyFragments(packet: array<byte>, fs: seq<Fragment>, prefix: nat, final: nat)
    requires Tiles(fs, final) && AllLengths(fs) && packet.Length == prefix + final
    requires prefix <= |fs[0].buffer.data|
    modifies packet
    ensures packet[..] == fs[0].buffer.data[..prefix] + Body(fs)
  {
    var header := fs[0].buffer.data[..prefix];
    Append(packet, 0, header);
    ghost var written := header;
    assert written == Written(header, fs, 0) && packet[..0] == [];
    for i := 0 to |fs|
      invariant written == Written(header, fs, i) && |written| == prefix + Reached(fs, final, i) <= packet.Length
      invariant packet[..|written|] == written
    {
      WrittenGrows(header, fs, final, i);
      Append(packet, prefix + fs[i].offset, Payload(fs[i]));
      written := written + Payload(fs[i]);
    }
    assert fs[..|fs|] == fs && packet[..] == packet[..|written|];
  }

  /** Where the payloads before the `i`-th end. */
  function Reached(fs: seq<Fragment>, final: nat, i: nat): (n: int)
    requires i <= |fs|
  {
    if i < |fs| then fs[i].offset else final
  }

  function Written(header: seq<byte>, fs: seq<Fragment>, i: nat): (w: seq<byte>)
    requires i <= |fs|
  {
    header + Body(fs[..i])
  }

  /** Extends the part of `packet` already written, which ends at `at`, by `src`. */
  method Append(packet: array<byte>, at: nat, src: seq<byte>)
    requires at + |src| <= packet.Length
    modifies packet
    ensures packet[..at + |src|] == old(packet[..at]) + src
  {
    CopyInto(packet, at, src);
    OverwritePrefix(old(packet[..]), at, src);
  }

  lemma WrittenGrows(header: seq<byte>, fs: seq<Fragment>, final: nat, i: nat)
    requires Tiles(fs, final) && AllLengths(fs) && i < |fs|
    ensures |Written(header, fs, i + 1)| == |header| + Reached(fs, final, i + 1) <= |header| + final
    ensures Written(header, fs, i + 1) == Written(header, fs, i) + Payload(fs[i])
  {
    BodyAt(fs, final, i + 1);
    BodyGrows(fs, i);
    if i + 1 < |fs| { TilesEnds(fs, final, i + 1); }
  }

  lemma BodyGrows(fs: seq<Fragment>, i: nat)
    requires i < |fs|
    ensures Body(fs[..i + 1]) == Body(fs[..i]) + Payload(fs[i])
  {
    assert fs[..i + 1][..i] == fs[..i];
  }

  method Put16(packet: array<byte>, at: nat, v: uint16)
    requires at + 2 <= packet.Length
    modifies packet
    ensures packet[..] == Overwrite(old(packet[..]), at, Be16(v))
  {
    packet[at], packet[at + 1] := v / 0x100, v % 0x100;
  }

  method Rewrite4(packet: array<byte>, prefix: nat)
    requires HEADER4 <= prefix <= packet.Length <= 0xffff
    modifies packet
    ensures packet[..] == Rewritten4(old(packet[..]), prefix)
  {
    ghost var p := packet[..];
    assert |p| % 0x1_0000 == packet.Length;
    Put16(packet, 2, packet.Length);
    Put16(packet, 6, 0);
    ghost var q := packet[..];
    assert q == Overwrite(Overwrite(p, 2, Be16(|p| % 0x1_0000)), 6, Be16(0));
    WriteIpv4HeaderChecksum(packet, prefix);
    assert packet[..] == HeaderSealed(q, prefix);
  }

  method Rewrite6(packet: array<byte>, link: nat, nextHeader: byte)
    requires link < packet.Length && HEADER6 <= packet.Length <= HEADER6 + 0xffff
    modifies packet
    ensures packet[..] == Rewritten6(old(packet[..]), link, nextHeader)
  {
    Put8(packet, link, nextHeader);
    Put16(packet, 4, packet.Length - HEADER6);
  }

  method Put8(packet: array<byte>, at: nat, v: byte)
    requires at < packet.Length
    modifies packet
    ensures packet[..] == old(packet[..])[at := v]
  {
    packet[at] := v;
  }

  /** Allocates and fills the reassembled packet of the tiling `fs`. */
  method Assemble(family: Family, fs: seq<Fragment>, final: nat) returns (p: seq<byte>)
    requires Tiles(fs, final) && AllLengths(fs) && WellFormed(family, fs[0]) && Fits(family, fs[0].prefix, final)
    ensures p == Whole(family, fs)
  {
    var prefix := fs[0].prefix;
    var packet := new byte[prefix + final];
    CopyFragments(packet, fs, prefix, final);
    if family.V4? {
      Rewrite4(packet, prefix);
    } else {
      Rewrite6(packet, fs[0].link, fs[0].nextHeader);
    }
    p := packet[..];
  }

  /** The length field of either family holds the length of the packet, which fits 16 bits. */
  lemma RewrittenLength4(p: seq<byte>, prefix: nat)
    requires HEADER4 <= prefix <= |p| <= 0xffff
    ensures U16(Rewritten4(p, prefix), 2) == |p|
  {
    assert Be16(|p|) == [|p| / 0x100, |p| % 0x100];
  }

  lemma RewrittenLength6(p: seq<byte>, link: nat, nextHeader: byte)
    requires 6 <= link < |p| && HEADER6 <= |p| <= HEADER6 + 0xffff
    ensures U16(Rewritten6(p, link, nextHeader), 4) == |p| - HEADER6
  {
    assert Be16(|p| - HEADER6) == [(|p| - HEADER6) / 0x100, (|p| - HEADER6) % 0x100];
  }

  lemma WholeLength(family: Family, fs: seq<Fragment>, final: nat)
    requires Tiles(fs, final) && AllLengths(fs) && WellFormed(family, fs[0])
    ensures |Whole(family, fs)| == fs[0].prefix + final
  {
    BodyAt(fs, final, |fs|);
    assert fs[..|fs|] == fs;
  }

  // ---- fragments handed back on completion ----

  function WithoutDontFragment(field: uint16): (r: uint16) { field - field / 0x4000 % 2 * 0x4000 }

  function Stamped4(p: seq<byte>, identification: uint16, field: uint16, header: nat): (r: seq<byte>)
    requires HEADER4 <= header <= |p|
    ensures |r| == |p|
  {
    HeaderSealed(Overwrite(Overwrite(p, 4, Be16(identification)), 6, Be16(field)), header)
  }

  function Reissued4(p: seq<byte>, identification: uint16): (r: seq<byte>)
    requires 0 < |p| && HEADER4 <= p[0] as int % 16 * 4 <= |p|
    ensures |r| == |p|
  {
    Stamped4(p, identification, WithoutDontFragment(U16(p, 6)), p[0] as int % 16 * 4)
  }

  function Reissued6(p: seq<byte>, prefix: nat, identification: uint32): (r: seq<byte>)
    requires prefix + 8 <= |p|
    ensures |r| == |p|
  {
    Overwrite(p, prefix + 4, Be32(identification))
  }

  /** A completed fragment under a fresh identification, in its own buffer. */
  function Reissued(family: Family, f: Fragment, identification: uint32): (b: Buffer)
    ensures b.id == f.buffer.id
  {
    Buffer(f.buffer.id,
           if !WellFormed(family, f) then f.buffer.data
           else if family.V4? then Reissued4(f.buffer.data, identification % 0x1_0000)
           else Reissued6(f.buffer.data, f.prefix, identification))
  }

  method Put32(packet: array<byte>, at: nat, v: uint32)
    requires at + 4 <= packet.Length
    modifies packet
    ensures packet[..] == Overwrite(old(packet[..]), at, Be32(v))
  {
    ghost var p := packet[..];
    Put16(packet, at, v / 0x1_0000);
    Put16(packet, at + 2, v % 0x1_0000);
    assert packet[..] == Overwrite(p, at, Be32(v));
  }

  method FromBytes(data: seq<byte>) returns (packet: array<byte>)
    ensures fresh(packet) && packet[..] == data
  {
    packet := new byte[|data|](i requires 0 <= i < |data| => data[i]);
  }

  method Stamp4(packet: array<byte>, identification: uint16, field: uint16, header: nat)
    requires HEADER4 <= header <= packet.Length && header <= 0xffff
    modifies packet
    ensures packet[..] == Stamped4(old(packet[..]), identification, field, header)
  {
    Put16(packet, 4, identification);
    Put16(packet, 6, field);
    WriteIpv4HeaderChecksum(packet, header);
  }

  method Reissue4(packet: array<byte>, identification: uint16)
    requires 0 < packet.Length <= 0xffff && HEADER4 <= packet[0] as int % 16 * 4 <= packet.Length
    modifies packet
    ensures packet[..] == Reissued4(old(packet[..]), identification)
  {
    var header := packet[0] as int % 16 * 4;
    var field := U16(packet[..], 6);
    Stamp4(packet, identification, WithoutDontFragment(field), header);
  }

  /** Gives a completed fragment its new identification, and IPv4 a header without DF. */
  method Reissue(family: Family, f: Fragment, identification: uint32) returns (b: Buffer)
    requires WellFormed(family, f)
    ensures b == Reissued(family, f, identification)
  {
    var packet := FromBytes(f.buffer.data);
    if family.V4? {
      Reissue4(packet, identification % 0x1_0000);
    } else {
      Put32(packet, f.prefix + 4, identification);
    }
    b := Buffer(f.buffer.id, packet[..]);
  }
}
