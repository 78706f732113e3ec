/** TCP options: the parser (`parseTcpOptions`) and the options the endpoint writes. */
module TcpOptions {
  import opened Bytes
  import opened Options

  const END: byte := 0
  const NOP: byte := 1
  const MSS: byte := 2
  const WINDOW_SCALE: byte := 3
  const TIMESTAMP: byte := 8
  const MIN_MSS: nat := 536
  const MAX_SCALE: nat := 14

  datatype Stamp = Stamp(value: uint32, echo: uint32)

  /** The options the endpoint understands; a later one replaces an earlier one. */
  datatype TcpOptions = TcpOptions(mss: Option<nat>, scale: Option<nat>, stamp: Option<Stamp>)

  const NO_OPTIONS: TcpOptions := TcpOptions(None, None, None)

  /** One option of `length` bytes at the start of `o`. */
  function Take(acc: TcpOptions, o: seq<byte>, length: nat): (r: TcpOptions)
    requires 2 <= length <= |o|
  {
    if o[0] == MSS && length == 4 then acc.(mss := Some(Max(U16(o, 2), MIN_MSS)))
    else if o[0] == WINDOW_SCALE && length == 3 then acc.(scale := Some(Min(o[2], MAX_SCALE)))
    else if o[0] == TIMESTAMP && length == 10 then acc.(stamp := Some(Stamp(U32(o, 2), U32(o, 6))))
    else acc
  }

  /** A malformed tail stops the parse without spoiling what came before. */
  function ParseOptions(acc: TcpOptions, o: seq<byte>): (r: TcpOptions)
    decreases |o|
  {
    if o == [] || o[0] == END then acc
    else if o[0] == NOP then ParseOptions(acc, o[1..])
    else if |o| < 2 || o[1] < 2 || |o| < o[1] as int then acc
    else ParseOptions(Take(acc, o, o[1]), o[o[1]..])
  }

  /** `parseTcpOptions`. */
  method ParseTcpOptions(options: seq<byte>) returns (r: TcpOptions)
    ensures r == ParseOptions(NO_OPTIONS, options)
  {
    r := NO_OPTIONS;
    var rest := options;
    while rest != []
      invariant ParseOptions(r, rest) == ParseOptions(NO_OPTIONS, options)
      decreases |rest|
    {
      if rest[0] == END { return; }
      if rest[0] == NOP {
        rest := rest[1..];
      } else {
        if |rest| < 2 { return; }
        var length := rest[1];
        if length < 2 || |rest| < length as int { return; }
        r := Take(r, rest, length);
        rest := rest[length..];
      }
    }
  }

  // ---- what is written ----

  function MssOption(mss: uint16): (o: seq<byte>) { [MSS, 4] + Be16(mss) }

  function StampOption(s: Stamp): (o: seq<byte>) { [TIMESTAMP, 10] + Be32(s.value) + Be32(s.echo) }

  function ScaleOption(scale: byte): (o: seq<byte>) { [WINDOW_SCALE, 3, scale] }

  lemma ParseMss(acc: TcpOptions, mss: uint16, rest: seq<byte>)
    ensures ParseOptions(acc, MssOption(mss) + rest) == ParseOptions(acc.(mss := Some(Max(mss, MIN_MSS))), rest)
  {
    var o := MssOption(mss) + rest;
    assert o[2..4] == Be16(mss) && o[4..] == rest;
    assert U16(o, 2) == mss;
  }

  lemma ParseStamp(acc: TcpOptions, s: Stamp, rest: seq<byte>)
    ensures ParseOptions(acc, StampOption(s) + rest) == ParseOptions(acc.(stamp := Some(s)), rest)
  {
    var o := StampOption(s) + rest;
    assert o[2..6] == Be32(s.value) && o[6..10] == Be32(s.echo) && o[10..] == rest;
    assert U32(o, 2) == U32(o[2..6], 0) && U32(o, 6) == U32(o[6..10], 0);
  }

  lemma ParseScale(acc: TcpOptions, scale: byte, rest: seq<byte>)
    ensures ParseOptions(acc, ScaleOption(scale) + rest) ==
              ParseOptions(acc.(scale := Some(Min(scale, MAX_SCALE))), rest)
  {
    var o := ScaleOption(scale) + rest;
    assert o[3..] == rest;
  }

  lemma ParseNop(acc: TcpOptions, rest: seq<byte>)
    ensures ParseOptions(acc, [NOP] + rest) == ParseOptions(acc, rest)
  {
    assert ([NOP] + rest)[1..] == rest;
  }

  /** What the handshake negotiates: the scale and the timestamps only where the client offered them. */
  datatype Negotiated = Negotiated(mss: uint16, scale: Option<byte>, stamp: Option<Stamp>)

  function StampPart(n: Negotiated): (o: seq<byte>) { if n.stamp.None? then [] else StampOption(n.stamp.value) }

  function ScalePart(n: Negotiated): (o: seq<byte>)
  {
    if n.scale.None? then [] else (if n.stamp.Some? then [NOP] else []) + ScaleOption(n.scale.value)
  }

  /** The byte count the options are rounded up from; the alignment byte before the scale hides in the rounding. */
  function OptionBytes(n: Negotiated): (size: nat)
  {
    4 + (if n.scale.Some? then 3 else 0) + (if n.stamp.Some? then 10 else 0)
  }

  function Padded(size: nat): (r: nat)
    ensures r % 4 == 0 && size <= r < size + 4
  {
    (size + 3) / 4 * 4
  }

  /** The options of a SYN-ACK, zero padded to a header word. */
  function SynAckOptions(n: Negotiated): (o: seq<byte>)
    ensures |o| == Padded(OptionBytes(n)) <= 20
  {
    var used := MssOption(n.mss) + (StampPart(n) + ScalePart(n));
    used + seq(Padded(OptionBytes(n)) - |used|, i => 0)
  }

  /** The options of a SYN-ACK parse back to what was negotiated, the MSS floored and the scale capped. */
  lemma SynAckOptionsParse(n: Negotiated)
    ensures ParseOptions(NO_OPTIONS, SynAckOptions(n)) ==
            TcpOptions(Some(Max(n.mss, MIN_MSS)),
                       (if n.scale.None? then None else Some(Min(n.scale.value, MAX_SCALE))), n.stamp)
  {
    var pad: seq<byte> := seq(Padded(OptionBytes(n)) - |MssOption(n.mss) + (StampPart(n) + ScalePart(n))|, i => 0);
    var a := NO_OPTIONS.(mss := Some(Max(n.mss, MIN_MSS)));
    var b := a.(stamp := n.stamp);
    assert SynAckOptions(n) == MssOption(n.mss) + (StampPart(n) + (ScalePart(n) + pad));
    ParseMss(NO_OPTIONS, n.mss, StampPart(n) + (ScalePart(n) + pad));
    if n.stamp.Some? {
      ParseStamp(a, n.stamp.value, ScalePart(n) + pad);
    } else {
      assert StampPart(n) + (ScalePart(n) + pad) == ScalePart(n) + pad;
    }
    ParseScalePart(b, n, pad);
  }

  lemma ParseScalePart(acc: TcpOptions, n: Negotiated, pad: seq<byte>)
    requires (pad == [] || pad[0] == END) && acc.scale.None?
    ensures ParseOptions(acc, ScalePart(n) + pad) ==
            acc.(scale := if n.scale.None? then None else Some(Min(n.scale.value, MAX_SCALE)))
  {
    if n.scale.Some? {
      if n.stamp.Some? {
        assert ScalePart(n) + pad == [NOP] + (ScaleOption(n.scale.value) + pad);
        ParseNop(acc, ScaleOption(n.scale.value) + pad);
      } else {
        assert ScalePart(n) + pad == ScaleOption(n.scale.value) + pad;
      }
      ParseScale(acc, n.scale.value, pad);
    } else {
      assert ScalePart(n) + pad == pad;
    }
  }

  /** `tcpOptionsBytes`: two NOPs and the timestamp, once negotiated. */
  function SegmentOptions(stamp: Option<Stamp>): (o: seq<byte>)
    ensures |o| == if stamp.None? then 0 else 12
  {
    if stamp.None? then [] else [NOP, NOP] + StampOption(stamp.value)
  }

  lemma SegmentOptionsParse(stamp: Option<Stamp>)
    ensures ParseOptions(NO_OPTIONS, SegmentOptions(stamp)) == NO_OPTIONS.(stamp := stamp)
  {
    if stamp.Some? {
      var o := StampOption(stamp.value);
      assert SegmentOptions(stamp) == [NOP] + ([NOP] + (o + []));
      ParseNop(NO_OPTIONS, [NOP] + (o + []));
      ParseNop(NO_OPTIONS, o + []);
      ParseStamp(NO_OPTIONS, stamp.value, []);
    }
  }
}
