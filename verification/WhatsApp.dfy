/** The incremental parser of a WhatsApp client stream (`whatsAppStream`). */
module WhatsApp {
  import opened Bytes
  import opened Options

  const MAX_ROUTING_INFO: nat := 1024
  const VERSION_LIMIT: nat := 16
  const HEADER_LENGTH: nat := 4
  const LENGTH_SIZE: nat := 3
  const MAX_VARINT_SIZE: nat := 3
  const EPHEMERAL_LENGTH: nat := 32
  const MIN_HELLO_FRAME: nat := 36
  const MAX_HELLO_FRAME: nat := 65536
  const CLIENT_HELLO_TAG: byte := 18
  const EPHEMERAL_TAG: byte := 10

  const EDGE_HEADER: seq<byte> := [69, 68, 0, 1]
  const HEADER_MAGIC: seq<byte> := [87, 65]

  datatype Field =
    | Start | EdgeHeader | RoutingLength | RoutingInfo | Header
    | FrameLength | HelloTag | HelloLength | EphemeralHeader | Ephemeral

  /** The counters kept between segments. */
  datatype State = State(field: Field, index: nat, helloLengthSize: nat, value: nat, frameLength: nat)

  const INITIAL: State := State(Start, 0, 0, 0, 0)

  /** What every reachable state satisfies; without it the skipping fields would not advance. */
  predicate ValidState(s: State)
  {
    match s.field
    case Start => s.value == 0 && s.frameLength == 0 && s.helloLengthSize == 0
    case EdgeHeader => 1 <= s.index < 4 && s.value == 0 && s.frameLength == 0 && s.helloLengthSize == 0
    case RoutingLength =>
      s.index < LENGTH_SIZE && s.value < Power256(s.index) && s.frameLength == 0 && s.helloLengthSize == 0
    case RoutingInfo => 0 < s.value <= MAX_ROUTING_INFO && s.index == 0 && s.frameLength == 0 && s.helloLengthSize == 0
    case Header => s.index < HEADER_LENGTH && s.value == 0 && s.frameLength == 0 && s.helloLengthSize == 0
    case FrameLength =>
      s.index < LENGTH_SIZE && s.frameLength < Power256(s.index) && s.value == 0 && s.helloLengthSize == 0
    case HelloTag => s.index == 0 && s.value == 0 && s.helloLengthSize == 0
    case HelloLength => s.index == 0 && s.helloLengthSize < MAX_VARINT_SIZE && s.value < Power128(s.helloLengthSize)
    case EphemeralHeader => s.index < 2
    case Ephemeral => 0 < s.value <= EPHEMERAL_LENGTH
  }

  function Power256(n: nat): (p: nat) { if n == 0 then 1 else if n == 1 then 0x100 else 0x1_0000 }

  function Power128(n: nat): (p: nat) { if n == 0 then 1 else if n == 1 then 0x80 else 0x4000 }

  // ---- one byte ----

  datatype Outcome = Fail | Go(state: State) | Done

  function FeedStart(s: State, c: byte): (r: Outcome)
    requires ValidState(s) && s.field == Start
    ensures r.Go? ==> ValidState(r.state)
  {
    if c == EDGE_HEADER[0] then Go(s.(field := EdgeHeader, index := 1))
    else if c == HEADER_MAGIC[0] then Go(s.(field := Header, index := 1))
    else Fail
  }

  function FeedEdgeHeader(s: State, c: byte): (r: Outcome)
    requires ValidState(s) && s.field == EdgeHeader
    ensures r.Go? ==> ValidState(r.state)
  {
    if c != EDGE_HEADER[s.index] then Fail
    else if s.index + 1 == 4 then Go(s.(field := RoutingLength, index := 0))
    else Go(s.(index := s.index + 1))
  }

  function FeedRoutingLength(s: State, c: byte): (r: Outcome)
    requires ValidState(s) && s.field == RoutingLength
    ensures r.Go? ==> ValidState(r.state)
  {
    var v := s.value * 0x100 + c;
    if s.index + 1 != LENGTH_SIZE then Go(s.(value := v, index := s.index + 1))
    else if MAX_ROUTING_INFO < v then Fail
    else Go(s.(value := v, index := 0, field := if v == 0 then Header else RoutingInfo))
  }

  function FeedRoutingInfo(s: State): (r: Outcome)
    requires ValidState(s) && s.field == RoutingInfo
    ensures r.Go? ==> ValidState(r.state)
  {
    Go(s.(value := s.value - 1, field := if s.value == 1 then Header else RoutingInfo))
  }

  function FeedHeader(s: State, c: byte): (r: Outcome)
    requires ValidState(s) && s.field == Header
    ensures r.Go? ==> ValidState(r.state)
  {
    if s.index < 2 && c != HEADER_MAGIC[s.index] then Fail
    else if 2 <= s.index && VERSION_LIMIT <= c then Fail
    else if s.index + 1 == HEADER_LENGTH then Go(s.(field := FrameLength, index := 0))
    else Go(s.(index := s.index + 1))
  }

  function FeedFrameLength(s: State, c: byte): (r: Outcome)
    requires ValidState(s) && s.field == FrameLength
    ensures r.Go? ==> ValidState(r.state)
  {
    var v := s.frameLength * 0x100 + c;
    if s.index + 1 != LENGTH_SIZE then Go(s.(frameLength := v, index := s.index + 1))
    else if v < MIN_HELLO_FRAME || MAX_HELLO_FRAME < v then Fail
    else Go(s.(frameLength := v, index := 0, field := HelloTag))
  }

  function FeedHelloTag(s: State, c: byte): (r: Outcome)
    requires ValidState(s) && s.field == HelloTag
    ensures r.Go? ==> ValidState(r.state)
  {
    if c != CLIENT_HELLO_TAG then Fail else Go(s.(field := HelloLength))
  }

  /** The shifted bits never meet those already set, so or-ing them in is adding. */
  function FeedHelloLength(s: State, c: byte): (r: Outcome)
    requires ValidState(s) && s.field == HelloLength
    ensures r.Go? ==> ValidState(r.state)
  {
    var v, size := s.value + c as int % 0x80 * Power128(s.helloLengthSize), s.helloLengthSize + 1;
    if 0x80 <= c then
      if size == MAX_VARINT_SIZE then Fail else Go(s.(value := v, helloLengthSize := size))
    else if 1 < size && c == 0 then Fail
    else if 1 + size + v != s.frameLength then Fail
    else Go(s.(value := v, helloLengthSize := size, field := EphemeralHeader))
  }

  function FeedEphemeralHeader(s: State, c: byte): (r: Outcome)
    requires ValidState(s) && s.field == EphemeralHeader
    ensures r.Go? ==> ValidState(r.state)
  {
    if c != (if s.index == 1 then EPHEMERAL_LENGTH else EPHEMERAL_TAG) then Fail
    else if s.index + 1 == 2 then Go(s.(field := Ephemeral, index := 0, value := EPHEMERAL_LENGTH))
    else Go(s.(index := s.index + 1))
  }

  function FeedEphemeral(s: State): (r: Outcome)
    requires ValidState(s) && s.field == Ephemeral
    ensures r.Go? ==> ValidState(r.state)
  {
    if s.value == 1 then Done else Go(s.(value := s.value - 1))
  }

  function Feed(s: State, c: byte): (r: Outcome)
    requires ValidState(s)
    ensures r.Go? ==> ValidState(r.state)
  {
    match s.field
    case Start => FeedStart(s, c)
    case EdgeHeader => FeedEdgeHeader(s, c)
    case RoutingLength => FeedRoutingLength(s, c)
    case RoutingInfo => FeedRoutingInfo(s)
    case Header => FeedHeader(s, c)
    case FrameLength => FeedFrameLength(s, c)
    case HelloTag => FeedHelloTag(s, c)
    case HelloLength => FeedHelloLength(s, c)
    case EphemeralHeader => FeedEphemeralHeader(s, c)
    case Ephemeral => FeedEphemeral(s)
  }

  // ---- whole segments ----

  datatype Verdict = Mismatch | NeedMore(state: State) | Matched(end: nat)

  /** The verdict on `b`, a byte at a time; a match says where the key ends. */
  function Parse(s: State, b: seq<byte>): (r: Verdict)
    requires ValidState(s)
    ensures r.NeedMore? ==> ValidState(r.state)
    ensures r.Matched? ==> 0 < r.end <= |b|
    decreases |b|
  {
    if b == [] then NeedMore(s)
    else
      match Feed(s, b[0])
      case Fail => Mismatch
      case Done => Matched(1)
      case Go(t) => Later(Parse(t, b[1..]), 1)
  }

  function Later(r: Verdict, n: nat): (v: Verdict)
  {
    if r.Matched? then Matched(r.end + n) else r
  }

  /** What a first segment leaves open the second one decides. */
  lemma {:induction false} ParseConcat(s: State, a: seq<byte>, b: seq<byte>)
    requires ValidState(s)
    ensures Parse(s, a + b) == match Parse(s, a)
                               case NeedMore(t) => Later(Parse(t, b), |a|)
                               case r => r
    decreases |a|
  {
    if a == [] {
      assert a + b == b;
    } else {
      var step := Feed(s, a[0]);
      assert (a + b)[1..] == a[1..] + b;
      if step.Go? { ParseConcat(step.state, a[1..], b); }
    }
  }

  function Join(segments: seq<seq<byte>>): (b: seq<byte>)
  {
    if segments == [] then [] else segments[0] + Join(segments[1..])
  }

  /**
   * The verdict of feeding one segment after the other until the parser stops, with the position in the whole stream.
   */
  function ParseSegments(s: State, segments: seq<seq<byte>>): (r: Verdict)
    requires ValidState(s)
    decreases |segments|
  {
    if segments == [] then NeedMore(s)
    else
      match Parse(s, segments[0])
      case NeedMore(t) => Later(ParseSegments(t, segments[1..]), |segments[0]|)
      case r => r
  }

  /** The verdict never depends on where the segments end. */
  lemma {:induction false} SegmentationIndependent(s: State, segments: seq<seq<byte>>)
    requires ValidState(s)
    ensures ParseSegments(s, segments) == Parse(s, Join(segments))
    decreases |segments|
  {
    if segments != [] {
      ParseConcat(s, segments[0], Join(segments[1..]));
      var r := Parse(s, segments[0]);
      if r.NeedMore? { SegmentationIndependent(r.state, segments[1..]); }
    }
  }

  // ---- the parser object ----

  lemma OneByte(s: State, b: seq<byte>)
    requires ValidState(s) && b != []
    ensures Parse(s, b) == match Feed(s, b[0])
                           case Fail => Mismatch
                           case Done => Matched(1)
                           case Go(t) => Later(Parse(t, b[1..]), 1)
  {
  }

  lemma OneByteAt(s: State, b: seq<byte>, i: nat)
    requires ValidState(s) && i < |b| && s.field != Ephemeral
    ensures Parse(s, b[i..]) == match Feed(s, b[i])
                                case Go(t) => Later(Parse(t, b[i + 1..]), 1)
                                case _ => Mismatch
  {
    OneByte(s, b[i..]);
    assert b[i..][1..] == b[i + 1..];
    NoMatchYet(s, b[i]);
  }

  /** Skipping several bytes of the routing info at once is skipping them one by one. */
  lemma {:induction false} SkipRouting(s: State, b: seq<byte>, n: nat)
    requires ValidState(s) && s.field == RoutingInfo && n <= s.value && n <= |b|
    ensures ValidState(AfterRouting(s, n)) && Parse(s, b) == Later(Parse(AfterRouting(s, n), b[n..]), n)
    decreases n
  {
    if n == 0 {
      assert b[0..] == b;
    } else {
      OneByte(s, b);
      if n > 1 {
        SkipRouting(AfterRouting(s, 1), b[1..], n - 1);
        assert b[1..][n - 1..] == b[n..];
      }
    }
  }

  function AfterRouting(s: State, n: nat): (t: State)
    requires n <= s.value
  {
    s.(value := s.value - n, field := if s.value == n then Header else RoutingInfo)
  }

  lemma {:induction false} SkipKey(s: State, b: seq<byte>, n: nat)
    requires ValidState(s) && s.field == Ephemeral && n <= s.value && n <= |b|
    ensures Parse(s, b) == if n == s.value then Matched(n) else Later(Parse(s.(value := s.value - n), b[n..]), n)
    decreases n
  {
    if n == 0 {
      assert b[0..] == b;
    } else if s.value > 1 {
      SkipKey(s.(value := s.value - 1), b[1..], n - 1);
      assert b[1..][n - 1..] == b[n..];
    }
  }

  class WhatsAppStream {
    var field: Field
    var index: nat
    var helloLengthSize: nat
    var value: nat
    var frameLength: nat

    constructor ()
      ensures Now() == INITIAL
    {
      field, index, helloLengthSize, value, frameLength := Start, 0, 0, 0, 0;
    }

    function Now(): (s: State)
      reads this
    {
      State(field, index, helloLengthSize, value, frameLength)
    }

    /** One byte of any field but the two that are skipped in bulk. */
    method Read(c: byte) returns (ok: bool)
      requires ValidState(Now()) && field != RoutingInfo && field != Ephemeral
      modifies this
      ensures ok <==> old(Feed(Now(), c)).Go?
      ensures ok ==> old(Feed(Now(), c)) == Go(Now())
    {
      match field {
      case Start =>
        if c == EDGE_HEADER[0] {
          field := EdgeHeader;
        } else if c == HEADER_MAGIC[0] {
          field := Header;
        } else {
          return false;
        }
        index := 1;
      case EdgeHeader =>
        if c != EDGE_HEADER[index] { return false; }
        index := index + 1;
        if index == |EDGE_HEADER| { field, index := RoutingLength, 0; }
      case RoutingLength =>
        value, index := value * 0x100 + c, index + 1;
        if index == LENGTH_SIZE {
          if MAX_ROUTING_INFO < value { return false; }
          field, index := RoutingInfo, 0;
          if value == 0 { field := Header; }
        }
      case Header =>
        if index < |HEADER_MAGIC| {
          if c != HEADER_MAGIC[index] { return false; }
        } else if VERSION_LIMIT <= c {
          return false;
        }
        index := index + 1;
        if index == HEADER_LENGTH { field, index := FrameLength, 0; }
      case FrameLength =>
        frameLength, index := frameLength * 0x100 + c, index + 1;
        if index == LENGTH_SIZE {
          if frameLength < MIN_HELLO_FRAME || MAX_HELLO_FRAME < frameLength { return false; }
          field, index := HelloTag, 0;
        }
      case HelloTag =>
        if c != CLIENT_HELLO_TAG { return false; }
        field := HelloLength;
      case HelloLength =>
        value := value + c as int % 0x80 * Power128(helloLengthSize);
        helloLengthSize := helloLengthSize + 1;
        if 0x80 <= c {
          return helloLengthSize != MAX_VARINT_SIZE;
        }
        if 1 < helloLengthSize && c == 0 { return false; }
        if 1 + helloLengthSize + value != frameLength { return false; }
        field := EphemeralHeader;
      case EphemeralHeader =>
        var expected := if index == 1 then EPHEMERAL_LENGTH else EPHEMERAL_TAG;
        if c != expected { return false; }
        index := index + 1;
        if index == 2 { field, index, value := Ephemeral, 0, EPHEMERAL_LENGTH; }
      }
      return true;
    }

    method SkipInfo(b: seq<byte>, i: nat) returns (j: nat)
      requires ValidState(Now()) && i < |b| && field == RoutingInfo
      modifies this
      ensures ValidState(Now()) && i < j <= |b| && old(Parse(Now(), b[i..])) == Later(Parse(Now(), b[j..]), j - i)
    {
      var skip := Min(|b| - i, value);
      SkipRouting(Now(), b[i..], skip);
      assert b[i..][skip..] == b[i + skip..];
      value := value - skip;
      if value == 0 { field := Header; }
      j := i + skip;
    }

    method SkipEphemeral(b: seq<byte>, i: nat) returns (j: nat)
      requires ValidState(Now()) && i < |b| && field == Ephemeral
      modifies this
      ensures i < j <= |b| && field == Ephemeral
      ensures if value == 0 then Later(old(Parse(Now(), b[i..])), i) == Matched(j)
              else ValidState(Now()) && old(Parse(Now(), b[i..])) == Later(Parse(Now(), b[j..]), j - i)
    {
      var skip := Min(|b| - i, value);
      SkipKey(Now(), b[i..], skip);
      assert b[i..][skip..] == b[i + skip..];
      value := value - skip;
      j := i + skip;
    }

    /** One turn of the loop: the position it reaches, or the verdict it stops with. */
    method Advance(b: seq<byte>, i: nat) returns (j: nat, verdict: Option<Verdict>)
      requires ValidState(Now()) && i < |b|
      modifies this
      ensures match verdict
              case Some(v) => !v.NeedMore? && Later(old(Parse(Now(), b[i..])), i) == v
              case None =>
                && ValidState(Now()) && i < j <= |b|
                && old(Parse(Now(), b[i..])) == Later(Parse(Now(), b[j..]), j - i)
    {
      if field == RoutingInfo {
        j := SkipInfo(b, i);
        return j, None;
      } else if field == Ephemeral {
        j := SkipEphemeral(b, i);
        return j, if value == 0 then Some(Matched(j)) else None;
      } else {
        OneByteAt(Now(), b, i);
        var ok := Read(b[i]);
        return i + 1, if ok then None else Some(Mismatch);
      }
    }

    /** `consume`: the next segment of the stream. */
    method Consume(b: seq<byte>) returns (verdict: Verdict)
      requires ValidState(Now())
      modifies this
      ensures verdict == old(Parse(Now(), b))
      ensures verdict.NeedMore? ==> verdict.state == Now()
    {
      ghost var s := Now();
      var i := 0;
      assert b[0..] == b;
      while i < |b|
        invariant 0 <= i <= |b| && ValidState(Now())
        invariant Parse(s, b) == Later(Parse(Now(), b[i..]), i)
      {
        var j, stopped := Advance(b, i);
        if stopped.Some? { return stopped.value; }
        i := j;
      }
      assert b[i..] == [];
      verdict := NeedMore(Now());
    }
  }

  /** Only the last byte of the key completes a match. */
  lemma NoMatchYet(s: State, c: byte)
    requires ValidState(s) && s.field != Ephemeral
    ensures !Feed(s, c).Done?
  {
  }

  /** `whatsAppNoise`: a first payload that carries the whole stream prefix, and where its key ends. */
  method Noise(b: seq<byte>) returns (end: nat, ok: bool)
    ensures ok <==> Parse(INITIAL, b).Matched?
    ensures ok ==> Parse(INITIAL, b) == Matched(end)
  {
    var stream := new WhatsAppStream();
    var verdict := stream.Consume(b);
    end := match verdict case Mismatch => 0 case NeedMore(_) => |b| case Matched(e) => e;
    ok := verdict.Matched?;
  }

  /** Follows a stream through its segments until the parser stops. */
  method Follow(segments: seq<seq<byte>>) returns (verdict: Verdict, ghost position: nat)
    ensures Later(verdict, position) == Parse(INITIAL, Join(segments))
  {
    var stream := new WhatsAppStream();
    SegmentationIndependent(INITIAL, segments);
    position := 0;
    assert segments[0..] == segments;
    for i := 0 to |segments|
      invariant ValidState(stream.Now())
      invariant Later(ParseSegments(stream.Now(), segments[i..]), position) == Parse(INITIAL, Join(segments))
    {
      assert segments[i..][1..] == segments[i + 1..];
      verdict := stream.Consume(segments[i]);
      if !verdict.NeedMore? { return; }
      position := position + |segments[i]|;
    }
    verdict := NeedMore(stream.Now());
  }
}
