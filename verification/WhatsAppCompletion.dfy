/** Which states of the stream parser some continuation still completes. */
module WhatsAppCompletion {
  import opened Bytes
  import opened WhatsApp
  import opened WhatsAppGrammar

  // ---- the condition ----

  /** `frame` is tag, a canonical length of `size` bytes with value `n`, and `n` bytes. */
  predicate Announces(frame: nat, size: nat, n: int)
  {
    frame == 1 + size + n && match size
                             case 1 => 0 <= n < 0x80
                             case 2 => 0x80 <= n < 0x4000
                             case _ => 0x4000 <= n < 0x20_0000
  }

  /** Some canonical length agrees with the frame length; 130 and 16387 have none. */
  predicate Encodable(frame: nat)
  {
    2 <= frame <= 4 + 0x1f_ffff && frame != 130 && frame != 16387
  }

  /** The length bytes read so far begin a canonical length that agrees with the frame. */
  predicate LengthOpen(s: State)
  {
    match s.helloLengthSize
    case 0 => Encodable(s.frameLength)
    case 1 =>
      || (Announces(s.frameLength, 2, s.frameLength - 3) && (s.frameLength - 3) % 0x80 == s.value)
      || (Announces(s.frameLength, 3, s.frameLength - 4) && (s.frameLength - 4) % 0x80 == s.value)
    case _ => Announces(s.frameLength, 3, s.frameLength - 4) && (s.frameLength - 4) % 0x4000 == s.value
  }

  /** What a caller can read off the kept counters: the lengths read so far can still come out right. */
  predicate Completable(s: State)
  {
    match s.field
    case RoutingLength => s.index == 0 || (s.index == 1 && s.value == 0) || (s.index == 2 && s.value <= 4)
    case FrameLength => s.index == 0 || (s.index == 1 && s.frameLength <= 1) || (s.index == 2 && s.frameLength <= 0x100)
    case HelloTag => Encodable(s.frameLength)
    case HelloLength => LengthOpen(s)
    case _ => true
  }

  lemma EncodableIsAnnounced(frame: nat)
    ensures Encodable(frame) <==>
              Announces(frame, 1, frame - 2) || Announces(frame, 2, frame - 3) || Announces(frame, 3, frame - 4)
  {
  }

  // ---- a match needs it ----

  lemma LengthNeeds(s: State, c: byte)
    requires ValidState(s) && s.field == HelloLength && Feed(s, c).Go? && Completable(Feed(s, c).state)
    ensures Completable(s)
  {
    var F := s.frameLength;
    if c < 0x80 {
      LastByte(s, c);
    } else if s.helloLengthSize == 0 {
    } else {
      Digits(s.value, c as int % 0x80, F - 4);
    }
  }

  lemma LastByte(s: State, c: byte)
    requires ValidState(s) && s.field == HelloLength && c < 0x80 && Feed(s, c).Go?
    ensures LengthOpen(s)
  {
    if s.helloLengthSize == 1 { TopDigit(s.value, c, 0x80); }
    if s.helloLengthSize == 2 { TopDigit(s.value, c, 0x4000); }
  }

  lemma TopDigit(low: nat, digit: nat, p: nat)
    requires low < p && digit < 0x80 && p in {0x80, 0x4000}
    ensures (low + digit * p) % p == low && low + digit * p < 0x80 * p && (0 < digit ==> p <= low + digit * p)
  {
  }

  /** Two digits of 7 bits read off a number of 14 bits or more. */
  lemma Digits(low: nat, high: nat, n: int)
    requires low < 0x80 && high < 0x80 && 0 <= n && n % 0x4000 == low + high * 0x80
    ensures n % 0x80 == low
  {
    var k := n / 0x4000;
    assert n == (k * 0x80 + high) * 0x80 + low;
  }

  lemma FeedNeeds(s: State, c: byte)
    requires ValidState(s) && Feed(s, c).Go? && Completable(Feed(s, c).state)
    ensures Completable(s)
  {
    if s.field == HelloLength { LengthNeeds(s, c); }
  }

  lemma {:induction false} MatchNeeds(s: State, more: seq<byte>)
    requires ValidState(s) && Parse(s, more).Matched?
    ensures Completable(s)
    decreases |more|
  {
    var r := Feed(s, more[0]);
    if r.Go? {
      MatchNeeds(r.state, more[1..]);
      FeedNeeds(s, more[0]);
    }
  }

  // ---- and is always to be had with it ----

  function LengthByte(s: State): (c: int)
    requires s.field == HelloLength
  {
    var F := s.frameLength;
    match s.helloLengthSize
    case 0 => if F < 130 then F - 2 else if F < 16387 then 0x80 + (F - 3) % 0x80 else 0x80 + (F - 4) % 0x80
    case 1 => if Announces(F, 2, F - 3) && (F - 3) % 0x80 == s.value then (F - 3) / 0x80
              else 0x80 + (F - 4) / 0x80 % 0x80
    case _ => (F - 4) / 0x4000
  }

  /** The length byte chosen is read, and leaves the length open or complete. */
  ghost predicate LengthGoesOn(s: State)
    requires ValidState(s) && s.field == HelloLength
  {
    && 0 <= LengthByte(s) < 0x100
    && var r := Feed(s, LengthByte(s));
       && r.Go? && Completable(r.state) && r.state.field in {HelloLength, EphemeralHeader}
       && (r.state.field == HelloLength ==> r.state.helloLengthSize > s.helloLengthSize)
  }

  lemma FirstAdvances(s: State)
    requires ValidState(s) && s.field == HelloLength && s.helloLengthSize == 0 && LengthOpen(s)
    ensures LengthGoesOn(s)
  {
    var F := s.frameLength;
    if 130 <= F { Continues(if F < 16387 then (F - 3) % 0x80 else (F - 4) % 0x80); }
  }

  lemma Continues(digit: nat)
    requires digit < 0x80
    ensures (0x80 + digit) % 0x80 == digit
  {
  }

  lemma SecondAdvances(s: State)
    requires ValidState(s) && s.field == HelloLength && s.helloLengthSize == 1 && LengthOpen(s)
    ensures LengthGoesOn(s)
  {
    var F := s.frameLength;
    if !(Announces(F, 2, F - 3) && (F - 3) % 0x80 == s.value) {
      Regroup(F - 4);
      Continues((F - 4) / 0x80 % 0x80);
    }
  }

  lemma LengthAdvances(s: State)
    requires ValidState(s) && s.field == HelloLength && LengthOpen(s)
    ensures LengthGoesOn(s)
  {
    if s.helloLengthSize == 0 { FirstAdvances(s); } else if s.helloLengthSize == 1 { SecondAdvances(s); }
  }

  lemma Regroup(n: nat)
    ensures n % 0x4000 == n % 0x80 + n / 0x80 % 0x80 * 0x80
  {
    var k := n / 0x80;
    assert n == k * 0x80 + n % 0x80 && k == k / 0x80 * 0x80 + k % 0x80;
  }

  /** A byte the field accepts that keeps the stream completable. */
  function NextByte(s: State): (c: byte)
    requires ValidState(s) && Completable(s)
  {
    match s.field
    case Start => HEADER_MAGIC[0]
    case EdgeHeader => EDGE_HEADER[s.index]
    case RoutingLength => 0
    case RoutingInfo => 0
    case Header => if s.index < 2 then HEADER_MAGIC[s.index] else 0
    case FrameLength => if s.index == 2 && s.frameLength == 0 then MIN_HELLO_FRAME else 0
    case HelloTag => CLIENT_HELLO_TAG
    case HelloLength => LengthAdvances(s); LengthByte(s)
    case EphemeralHeader => if s.index == 1 then EPHEMERAL_LENGTH else EPHEMERAL_TAG
    case Ephemeral => 0
  }

  function Rank(f: Field): (n: nat)
  {
    match f
    case Start => 9 case EdgeHeader => 8 case RoutingLength => 7 case RoutingInfo => 6 case Header => 5
    case FrameLength => 4 case HelloTag => 3 case HelloLength => 2 case EphemeralHeader => 1 case Ephemeral => 0
  }

  /** What is left of the field. */
  function Left(s: State): (n: int)
  {
    if s.field.RoutingInfo? || s.field.Ephemeral? then s.value
    else if s.field.HelloLength? then 3 - s.helloLengthSize
    else 4 - s.index
  }

  lemma Advances(s: State)
    requires ValidState(s) && Completable(s)
    ensures var r := Feed(s, NextByte(s));
            r.Done? || (r.Go? && Completable(r.state)
                        && (Rank(r.state.field) < Rank(s.field)
                            || (r.state.field == s.field && 0 <= Left(r.state) < Left(s))))
  {
    if s.field == HelloLength { LengthAdvances(s); }
  }

  /** A continuation that completes the prefix. */
  lemma {:induction false} Completion(s: State) returns (more: seq<byte>)
    requires ValidState(s) && Completable(s)
    ensures Parse(s, more).Matched?
    decreases Rank(s.field), Left(s)
  {
    Advances(s);
    var c := NextByte(s);
    var r := Feed(s, c);
    if r.Done? { return [c]; }
    var rest := Completion(r.state);
    more := [c] + rest;
    assert more[1..] == rest;
  }

  /** In every state, some continuation completes the prefix if and only if the state is completable. */
  lemma CanStillMatch(s: State)
    requires ValidState(s)
    ensures (exists more :: Parse(s, more).Matched?) <==> Completable(s)
  {
    if Completable(s) { var more := Completion(s); }
    forall more | Parse(s, more).Matched? ensures Completable(s) { MatchNeeds(s, more); }
  }

  /** A stream read so far can still be brought into the grammar exactly when the state it leaves is completable. */
  lemma OpenStreamsComplete(b: seq<byte>)
    requires Parse(INITIAL, b).NeedMore?
    ensures (exists more, end :: PrefixAt(b + more, 0, end)) <==> Completable(Parse(INITIAL, b).state)
  {
    var s := Parse(INITIAL, b).state;
    if Completable(s) {
      var more := Completion(s);
      ParseConcat(INITIAL, b, more);
      MatchesExactlyGrammar(b + more, |b| + Parse(s, more).end);
    }
    forall more, end | PrefixAt(b + more, 0, end) ensures Completable(s) {
      ParseConcat(INITIAL, b, more);
      MatchesExactlyGrammar(b + more, end);
      MatchNeeds(s, more);
    }
  }

  /** Of the frame lengths in range, all but 130 and 16387 begin a frame of the grammar. */
  lemma FrameLengthsThatComplete(frame: nat)
    requires MIN_HELLO_FRAME <= frame <= MAX_HELLO_FRAME
    ensures (exists b: seq<byte>, i: nat, end: nat :: i + 3 <= |b| && U24(b, i) == frame && FrameAt(b, i, end))
            <==> frame !in {130, 16387}
  {
    forall b: seq<byte>, i: nat, end: nat | i + 3 <= |b| && U24(b, i) == frame && FrameAt(b, i, end)
      ensures frame !in {130, 16387}
    {
      if frame in {130, 16387} { NeverCompletes(b, i, end); }
    }
    if frame !in {130, 16387} {
      var s := State(HelloTag, 0, 0, 0, frame);
      var more := Completion(s);
      var b: seq<byte> := [frame / 0x1_0000, frame / 0x100 % 0x100, frame % 0x100] + more;
      var end := 3 + Parse(s, more).end;
      assert b[3..] == more && U24(b, 0) == frame;
      TagMatches(s, b, 3, end);
      assert FrameAt(b, 0, end);
    }
  }

  // ---- streams that are dead and still wait ----

  /** A header, the frame length 36, the hello tag and a length byte that continues. */
  const DEAD: seq<byte> := [87, 65, 0, 0, 0, 0, 36, 18, 0x80]

  /** Each byte of `b` takes one state of `ts` to the next. */
  ghost predicate Trace(ts: seq<State>, b: seq<byte>)
  {
    && |ts| == |b| + 1 && (forall i :: 0 <= i < |ts| ==> ValidState(ts[i]))
    && forall i :: 0 <= i < |b| ==> Feed(ts[i], b[i]) == Go(ts[i + 1])
  }

  lemma {:induction false} TraceWaits(ts: seq<State>, b: seq<byte>)
    requires Trace(ts, b)
    ensures Parse(ts[0], b) == NeedMore(ts[|b|])
    decreases |b|
  {
    if b != [] {
      assert Feed(ts[0], b[0]) == Go(ts[0 + 1]);
      forall i | 0 <= i < |b[1..]| ensures Feed(ts[1..][i], b[1..][i]) == Go(ts[1..][i + 1]) {
        assert Feed(ts[i + 1], b[i + 1]) == Go(ts[i + 1 + 1]);
      }
      TraceWaits(ts[1..], b[1..]);
    }
  }

  lemma DeadWaits()
    ensures Parse(INITIAL, DEAD) == NeedMore(State(HelloLength, 0, 1, 0, 36))
  {
    TraceWaits([INITIAL, State(Header, 1, 0, 0, 0), State(Header, 2, 0, 0, 0), State(Header, 3, 0, 0, 0),
                State(FrameLength, 0, 0, 0, 0), State(FrameLength, 1, 0, 0, 0), State(FrameLength, 2, 0, 0, 0),
                State(HelloTag, 0, 0, 0, 36), State(HelloLength, 0, 0, 0, 36), State(HelloLength, 0, 1, 0, 36)], DEAD);
  }

  /** The prefix waits for more, and nothing completes it. */
  lemma DeadStream(more: seq<byte>, end: nat)
    ensures Parse(INITIAL, DEAD).NeedMore? && !PrefixAt(DEAD + more, 0, end)
  {
    DeadWaits();
    OpenStreamsComplete(DEAD);
  }
}
