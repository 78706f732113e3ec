/** What one IP fragment carries, and how a partly received datagram takes another one. */
module Fragments {
  import opened Bytes
  import opened Transfer
  import Ext = Ipv6Ext

  const HEADER4: nat := 20
  const HEADER6: nat := 40
  const MAX_FRAGMENTS: nat := 64

  datatype Family = V4 | V6

  datatype Key =
    | Key4(source: TransferPath, transferKey: TransferKey, provideMode: ProvideMode,
           sourceIp: seq<byte>, destinationIp: seq<byte>, protocol: byte, identification: uint32)
    | Key6(source: TransferPath, transferKey: TransferKey, provideMode: ProvideMode,
           sourceIp: seq<byte>, destinationIp: seq<byte>, identification: uint32)

  /** A pooled allocation: an identity and the bytes it holds. */
  datatype Buffer = Buffer(id: nat, data: seq<byte>)

  /**
   * A fragment retained in its own buffer. `prefix` is the header size (IPv4) or the size of the
   * unfragmentable part (IPv6); the payload runs from `start` to the end of the buffer. `link` and
   * `nextHeader` are the IPv6 Next Header byte to rewrite and its value, both 0 for IPv4.
   */
  datatype Fragment = Fragment(buffer: Buffer, prefix: nat, start: nat, offset: nat, link: nat, nextHeader: byte)

  function Length(f: Fragment): (n: int) { |f.buffer.data| - f.start }

  function End(f: Fragment): (n: int) { f.offset + Length(f) }

  function Payload(f: Fragment): (p: seq<byte>)
  {
    if f.start <= |f.buffer.data| then f.buffer.data[f.start..] else []
  }

  /** A fragment as it arrives: `cost` is the whole buffer before trailing bytes are cut off. */
  datatype Arrival = Arrival(key: Key, fragment: Fragment, more: bool, cost: nat)

  datatype Input = Input(
    source: TransferPath, transferKey: TransferKey, provideMode: ProvideMode,
    buffer: Buffer, now: int, retainCompleted: bool, identification: uint32)

  datatype Parsed = NotFragment | Malformed(bad: Key) | Piece(arrival: Arrival)

  // ---- parsing ----

  predicate IsFragment4(p: seq<byte>)
  {
    HEADER4 <= |p| && p[0] / 16 == 4 && U16(p, 6) % 0x4000 != 0
  }

  function KeyOf4(input: Input): (k: Key)
    requires HEADER4 <= |input.buffer.data|
  {
    var p := input.buffer.data;
    Key4(input.source, input.transferKey, input.provideMode, p[12..16], p[16..20], p[9], U16(p, 4))
  }

  function Parse4(input: Input): (r: Parsed)
  {
    var p := input.buffer.data;
    if !IsFragment4(p) then NotFragment
    else
      var key := KeyOf4(input);
      var field := U16(p, 6);
      var header, total := p[0] % 16 * 4, U16(p, 2);
      var more, offset := field / 0x2000 % 2 == 1, field % 0x2000 * 8;
      if 0x8000 <= field then Malformed(key)
      else if header < HEADER4 || total < header || |p| < total then Malformed(key)
      else if total == header || (more && (total - header) % 8 != 0)
             || 0xffff - HEADER4 < offset + total - header then Malformed(key)
      else Piece(Arrival(key, Fragment(Buffer(input.buffer.id, p[..total]), header, header, offset, 0, 0), more, |p|))
  }

  function KeyOf6(input: Input, identification: uint32): (k: Key)
    requires HEADER6 <= |input.buffer.data|
  {
    var p := input.buffer.data;
    Key6(input.source, input.transferKey, input.provideMode, p[8..24], p[24..40], identification)
  }

  function PieceOf6(input: Input, walk: Ext.Walk): (r: Parsed)
    requires Ext.FragmentLayout(input.buffer.data, walk)
  {
    var p := input.buffer.data;
    var info := walk.fragment.value;
    var key := KeyOf6(input, info.identification);
    var length := walk.payloadEnd - walk.transportOffset;
    if length <= 0 || (info.moreFragments && length % 8 != 0)
       || 0xffff < info.headerOffset - HEADER6 + info.offset + length then
      Malformed(key)
    else
      Piece(Arrival(key,
                    Fragment(Buffer(input.buffer.id, p[..walk.payloadEnd]), info.headerOffset, walk.transportOffset,
                             info.offset, info.precedingNextHeaderFieldOffset, info.nextHeader),
                    info.moreFragments, |p|))
  }

  function Parse6(input: Input): (r: Parsed)
  {
    if !Ext.IsFragmentPacket(input.buffer.data) then NotFragment
    else
      Ext.FragmentIsLaidOut(input.buffer.data);
      PieceOf6(input, Ext.WalkOf(input.buffer.data).value)
  }

  function Parse(family: Family, input: Input): (r: Parsed)
  {
    if family.V4? then Parse4(input) else Parse6(input)
  }

  /** The reassembled packet with this prefix and payload size has a length its header can carry. */
  predicate Fits(family: Family, prefix: int, final: int)
  {
    if family.V4? then final <= 0xffff - prefix else prefix - HEADER6 + final <= 0xffff
  }

  predicate WellFormed(family: Family, f: Fragment)
  {
    && f.start < |f.buffer.data|
    && f.offset % 8 == 0
    && match family
       case V4 =>
         && HEADER4 <= f.prefix == f.start == f.buffer.data[0] % 16 * 4 && |f.buffer.data| <= 0xffff
         && Fits(family, HEADER4, End(f)) && f.link == 0
       case V6 =>
         && 6 <= f.link < f.prefix && HEADER6 <= f.prefix && f.start == f.prefix + Ext.FRAGMENT_HEADER
         && Fits(family, f.prefix, End(f))
  }

  predicate WellFormedArrival(family: Family, a: Arrival)
  {
    && WellFormed(family, a.fragment)
    && (a.more ==> Length(a.fragment) % 8 == 0)
    && (a.fragment.offset == 0 ==> a.more)
    && |a.fragment.buffer.data| <= a.cost
    && (family.V4? <==> a.key.Key4?)
  }

  predicate FitsInput(family: Family, input: Input, r: Parsed)
  {
    r.Piece? ==>
      && WellFormedArrival(family, r.arrival)
      && r.arrival.cost == |input.buffer.data|
      && r.arrival.fragment.buffer.id == input.buffer.id
      && r.arrival.fragment.buffer.data <= input.buffer.data
      && r.arrival.key.source == input.source
  }

  /** Every piece the parser lets through is well formed, keyed to its source and no larger than its buffer. */
  lemma ParseWellFormed(family: Family, input: Input)
    ensures FitsInput(family, input, Parse(family, input))
  {
    if family.V4? {
      ParseWellFormed4(input);
    } else if Ext.IsFragmentPacket(input.buffer.data) {
      Ext.FragmentIsLaidOut(input.buffer.data);
      PieceWellFormed6(input, Ext.WalkOf(input.buffer.data).value);
    }
  }

  lemma ParseWellFormed4(input: Input)
    ensures FitsInput(V4, input, Parse4(input))
  {
    var p := input.buffer.data;
    if IsFragment4(p) {
      FlagsAndOffset(U16(p, 6));
    }
  }

  lemma FlagsAndOffset(field: uint16)
    requires field % 0x4000 != 0
    ensures field % 0x2000 == 0 ==> field / 0x2000 % 2 == 1
  {
  }

  lemma PieceWellFormed6(input: Input, walk: Ext.Walk)
    requires Ext.FragmentLayout(input.buffer.data, walk)
    ensures FitsInput(V6, input, PieceOf6(input, walk))
  {
  }
}
