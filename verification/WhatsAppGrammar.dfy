/** The stream prefixes the parser matches, as a grammar. */
module WhatsAppGrammar {
  import opened Bytes
  import opened WhatsApp

  // ---- the grammar, over the bytes of `b` from `i` to `end` ----

  function U24(b: seq<byte>, i: nat): (v: nat)
    requires i + 3 <= |b|
  {
    b[i] as int * 0x1_0000 + b[i + 1] as int * 0x100 + b[i + 2]
  }

  predicate KeyAt(b: seq<byte>, i: nat, end: nat, n: nat)
  {
    i + n == end <= |b|
  }

  predicate HelloAt(b: seq<byte>, i: nat, end: nat)
  {
    i + 2 <= end <= |b| && b[i] == EPHEMERAL_TAG && b[i + 1] == EPHEMERAL_LENGTH
      && KeyAt(b, i + 2, end, EPHEMERAL_LENGTH)
  }

  /** A canonical varint of `size` bytes, at most three, with value `n`. */
  predicate VarintAt(b: seq<byte>, i: nat, size: nat, n: int)
  {
    && 1 <= size <= MAX_VARINT_SIZE && i + size <= |b|
    && match size
       case 1 => b[i] < 0x80 && n == b[i] as int
       case 2 => 0x80 <= b[i] && 0 < b[i + 1] < 0x80 && n == b[i] as int % 0x80 + b[i + 1] as int * 0x80
       case _ => 0x80 <= b[i] && 0x80 <= b[i + 1] && 0 < b[i + 2] < 0x80
                 && n == b[i] as int % 0x80 + b[i + 1] as int % 0x80 * 0x80 + b[i + 2] as int * 0x4000
  }

  predicate LengthAt(b: seq<byte>, i: nat, end: nat, frame: nat)
  {
    || (VarintAt(b, i, 1, frame - 2) && HelloAt(b, i + 1, end))
    || (VarintAt(b, i, 2, frame - 3) && HelloAt(b, i + 2, end))
    || (VarintAt(b, i, 3, frame - 4) && HelloAt(b, i + 3, end))
  }

  predicate TagAt(b: seq<byte>, i: nat, end: nat, frame: nat)
  {
    i < end <= |b| && b[i] == CLIENT_HELLO_TAG && LengthAt(b, i + 1, end, frame)
  }

  predicate FrameAt(b: seq<byte>, i: nat, end: nat)
  {
    i + 3 <= end <= |b| && MIN_HELLO_FRAME <= U24(b, i) <= MAX_HELLO_FRAME && TagAt(b, i + 3, end, U24(b, i))
  }

  predicate HeaderAt(b: seq<byte>, i: nat, end: nat)
  {
    && i + 4 <= end <= |b| && b[i] == HEADER_MAGIC[0] && b[i + 1] == HEADER_MAGIC[1]
    && b[i + 2] < VERSION_LIMIT && b[i + 3] < VERSION_LIMIT && FrameAt(b, i + 4, end)
  }

  predicate RoutingAt(b: seq<byte>, i: nat, end: nat)
  {
    i + 3 <= end <= |b| && U24(b, i) <= MAX_ROUTING_INFO && HeaderAt(b, i + 3 + U24(b, i), end)
  }

  predicate PrefixAt(b: seq<byte>, i: nat, end: nat)
  {
    || HeaderAt(b, i, end)
    || (i + 4 <= end <= |b| && b[i..i + 4] == EDGE_HEADER && RoutingAt(b, i + 4, end))
  }

  // ---- the parser matches the grammar, field by field from the last ----

  /** From position `i` in state `s` the parser matches with the key ending at `end`. */
  predicate Matches(s: State, b: seq<byte>, i: nat, end: nat)
    requires ValidState(s)
  {
    i <= end && i <= |b| && Parse(s, b[i..]) == Matched(end - i)
  }

  lemma Next(s: State, b: seq<byte>, i: nat, end: nat)
    requires ValidState(s) && s.field != Ephemeral
    ensures Matches(s, b, i, end) <==>
              i < |b| && i < end && Feed(s, b[i]).Go? && Matches(Feed(s, b[i]).state, b, i + 1, end)
  {
    if i < |b| { OneByteAt(s, b, i); }
  }

  lemma KeyMatches(s: State, b: seq<byte>, i: nat, end: nat)
    requires ValidState(s) && s.field == Ephemeral
    ensures Matches(s, b, i, end) <==> KeyAt(b, i, end, s.value)
  {
    if i <= |b| {
      var n := Min(|b| - i, s.value);
      SkipKey(s, b[i..], n);
      assert i + n == |b| ==> b[i..][n..] == [];
    }
  }

  lemma HelloMatches(s: State, b: seq<byte>, i: nat, end: nat)
    requires ValidState(s) && s.field == EphemeralHeader && s.index == 0
    ensures Matches(s, b, i, end) <==> HelloAt(b, i, end)
  {
    Next(s, b, i, end);
    if i < |b| && b[i] == EPHEMERAL_TAG {
      var t := s.(index := 1);
      Next(t, b, i + 1, end);
      if i + 1 < |b| && b[i + 1] == EPHEMERAL_LENGTH {
        KeyMatches(s.(field := Ephemeral, value := EPHEMERAL_LENGTH), b, i + 2, end);
      }
    }
  }

  lemma LastLengthByte(s: State, b: seq<byte>, i: nat, end: nat)
    requires ValidState(s) && s.field == HelloLength
    ensures i < |b| && b[i] < 0x80 ==>
              (Matches(s, b, i, end) <==>
                 (s.helloLengthSize > 0 ==> b[i] > 0)
                 && 2 + s.helloLengthSize + s.value + b[i] as int * Power128(s.helloLengthSize) == s.frameLength
                    && HelloAt(b, i + 1, end))
    ensures i < |b| && 0x80 <= b[i] && s.helloLengthSize == 2 ==> !Matches(s, b, i, end)
    ensures |b| <= i ==> !Matches(s, b, i, end)
  {
    Next(s, b, i, end);
    if i < |b| && Feed(s, b[i]).Go? && b[i] < 0x80 { HelloMatches(Feed(s, b[i]).state, b, i + 1, end); }
  }

  lemma LengthMatches(s: State, b: seq<byte>, i: nat, end: nat)
    requires ValidState(s) && s.field == HelloLength && s.helloLengthSize == 0
    ensures Matches(s, b, i, end) <==> LengthAt(b, i, end, s.frameLength)
  {
    LastLengthByte(s, b, i, end);
    if i < |b| && 0x80 <= b[i] {
      var t := s.(value := b[i] as int % 0x80, helloLengthSize := 1);
      Next(s, b, i, end);
      LastLengthByte(t, b, i + 1, end);
      if i + 1 < |b| && 0x80 <= b[i + 1] {
        Next(t, b, i + 1, end);
        LastLengthByte(t.(value := t.value + b[i + 1] as int % 0x80 * 0x80, helloLengthSize := 2), b, i + 2, end);
      }
    }
  }

  lemma TagMatches(s: State, b: seq<byte>, i: nat, end: nat)
    requires ValidState(s) && s.field == HelloTag
    ensures Matches(s, b, i, end) <==> TagAt(b, i, end, s.frameLength)
  {
    Next(s, b, i, end);
    if i < |b| && b[i] == CLIENT_HELLO_TAG { LengthMatches(s.(field := HelloLength), b, i + 1, end); }
  }

  lemma FirstFrameByte(s: State, b: seq<byte>, i: nat, end: nat)
    requires ValidState(s) && s.field == FrameLength && s.index == 0
    ensures Matches(s, b, i, end) <==>
              i < |b| && i < end && Matches(s.(frameLength := b[i] as int, index := 1), b, i + 1, end)
  {
    Next(s, b, i, end);
  }

  lemma SecondFrameByte(s: State, b: seq<byte>, i: nat, end: nat)
    requires ValidState(s) && s.field == FrameLength && s.index == 1 && s.frameLength < 0x100
    ensures Matches(s, b, i, end) <==>
            i < |b| && i < end && Matches(s.(frameLength := s.frameLength * 0x100 + b[i], index := 2), b, i + 1, end)
  {
    Next(s, b, i, end);
  }

  lemma TwoFrameBytes(s: State, b: seq<byte>, i: nat, end: nat)
    requires ValidState(s) && s.field == FrameLength && s.index == 0
    ensures Matches(s, b, i, end) <==>
            i + 1 < |b| && i + 1 < end
            && Matches(s.(frameLength := b[i] as int * 0x100 + b[i + 1], index := 2), b, i + 2, end)
  {
    FirstFrameByte(s, b, i, end);
    if i < |b| { SecondFrameByte(s.(frameLength := b[i] as int, index := 1), b, i + 1, end); }
  }

  lemma FrameMatches(s: State, b: seq<byte>, i: nat, end: nat)
    requires ValidState(s) && s.field == FrameLength && s.index == 0
    ensures Matches(s, b, i, end) <==> FrameAt(b, i, end)
  {
    TwoFrameBytes(s, b, i, end);
    if i + 1 < |b| {
      Next(s.(frameLength := b[i] as int * 0x100 + b[i + 1], index := 2), b, i + 2, end);
      if i + 2 < |b| && MIN_HELLO_FRAME <= U24(b, i) <= MAX_HELLO_FRAME {
        TagMatches(s.(frameLength := U24(b, i), field := HelloTag), b, i + 3, end);
      }
    }
  }

  /** The header from its third byte. */
  lemma VersionMatches(s: State, b: seq<byte>, i: nat, end: nat)
    requires ValidState(s) && s.field == Header && s.index == 2
    ensures Matches(s, b, i, end) <==>
              i + 2 <= end <= |b| && b[i] < VERSION_LIMIT && b[i + 1] < VERSION_LIMIT && FrameAt(b, i + 2, end)
  {
    Next(s, b, i, end);
    if i < |b| && b[i] < VERSION_LIMIT {
      Next(s.(index := 3), b, i + 1, end);
      if i + 1 < |b| && b[i + 1] < VERSION_LIMIT { FrameMatches(s.(field := FrameLength, index := 0), b, i + 2, end); }
    }
  }

  lemma SecondMagicMatches(s: State, b: seq<byte>, i: nat, end: nat)
    requires ValidState(s) && s.field == Header && s.index == 1 && 0 < i
    ensures i <= |b| && b[i - 1] == HEADER_MAGIC[0] ==> (Matches(s, b, i, end) <==> HeaderAt(b, i - 1, end))
  {
    Next(s, b, i, end);
    if i < |b| && b[i] == HEADER_MAGIC[1] { VersionMatches(s.(index := 2), b, i + 1, end); }
  }

  lemma HeaderMatches(s: State, b: seq<byte>, i: nat, end: nat)
    requires ValidState(s) && s.field == Header && s.index == 0
    ensures Matches(s, b, i, end) <==> HeaderAt(b, i, end)
  {
    Next(s, b, i, end);
    if i < |b| && b[i] == HEADER_MAGIC[0] { SecondMagicMatches(s.(index := 1), b, i + 1, end); }
  }

  lemma InfoMatches(s: State, b: seq<byte>, i: nat, end: nat)
    requires ValidState(s) && s.field == RoutingInfo
    ensures Matches(s, b, i, end) <==> HeaderAt(b, i + s.value, end)
  {
    if i <= |b| {
      var n := Min(|b| - i, s.value);
      SkipRouting(s, b[i..], n);
      assert b[i..][n..] == b[i + n..];
      if n == s.value { HeaderMatches(AfterRouting(s, n), b, i + n, end); }
    }
  }

  lemma FirstRoutingByte(s: State, b: seq<byte>, i: nat, end: nat)
    requires ValidState(s) && s.field == RoutingLength && s.index == 0
    ensures Matches(s, b, i, end) <==>
              i < |b| && i < end && Matches(s.(value := b[i] as int, index := 1), b, i + 1, end)
  {
    Next(s, b, i, end);
  }

  lemma SecondRoutingByte(s: State, b: seq<byte>, i: nat, end: nat)
    requires ValidState(s) && s.field == RoutingLength && s.index == 1 && s.value < 0x100
    ensures Matches(s, b, i, end) <==>
            i < |b| && i < end && Matches(s.(value := s.value * 0x100 + b[i], index := 2), b, i + 1, end)
  {
    Next(s, b, i, end);
  }

  lemma TwoRoutingBytes(s: State, b: seq<byte>, i: nat, end: nat)
    requires ValidState(s) && s.field == RoutingLength && s.index == 0
    ensures Matches(s, b, i, end) <==>
            i + 1 < |b| && i + 1 < end
            && Matches(s.(value := b[i] as int * 0x100 + b[i + 1], index := 2), b, i + 2, end)
  {
    FirstRoutingByte(s, b, i, end);
    if i < |b| {
      var t := s.(value := b[i] as int, index := 1);
      SecondRoutingByte(t, b, i + 1, end);
    }
  }

  lemma RoutingMatches(s: State, b: seq<byte>, i: nat, end: nat)
    requires ValidState(s) && s.field == RoutingLength && s.index == 0
    ensures Matches(s, b, i, end) <==> RoutingAt(b, i, end)
  {
    TwoRoutingBytes(s, b, i, end);
    if i + 1 < |b| {
      Next(s.(value := b[i] as int * 0x100 + b[i + 1], index := 2), b, i + 2, end);
      if i + 2 < |b| && U24(b, i) <= MAX_ROUTING_INFO { AfterRoutingLength(s, b, i, end); }
    }
  }

  lemma AfterRoutingLength(s: State, b: seq<byte>, i: nat, end: nat)
    requires ValidState(s) && s.field == RoutingLength && s.index == 0 && i + 3 <= |b| && U24(b, i) <= MAX_ROUTING_INFO
    ensures var t := s.(value := U24(b, i), field := if U24(b, i) == 0 then Header else RoutingInfo);
            ValidState(t) && (Matches(t, b, i + 3, end) <==> HeaderAt(b, i + 3 + U24(b, i), end))
  {
    var t := s.(value := U24(b, i), field := if U24(b, i) == 0 then Header else RoutingInfo);
    if U24(b, i) == 0 { HeaderMatches(t, b, i + 3, end); } else { InfoMatches(t, b, i + 3, end); }
  }

  lemma EdgeMatches(s: State, b: seq<byte>, i: nat, end: nat)
    requires ValidState(s) && s.field == EdgeHeader && s.index == 1 && 0 < i
    ensures i <= |b| && b[i - 1] == EDGE_HEADER[0] ==>
              (Matches(s, b, i, end) <==>
                 i + 3 <= end <= |b| && b[i - 1..i + 3] == EDGE_HEADER && RoutingAt(b, i + 3, end))
  {
    Next(s, b, i, end);
    if i < |b| && b[i] == EDGE_HEADER[1] {
      Next(s.(index := 2), b, i + 1, end);
      if i + 1 < |b| && b[i + 1] == EDGE_HEADER[2] {
        Next(s.(index := 3), b, i + 2, end);
        if i + 2 < |b| && b[i + 2] == EDGE_HEADER[3] {
          RoutingMatches(s.(field := RoutingLength, index := 0), b, i + 3, end);
        }
      }
    }
  }

  /** A stream matches with its key ending at `end` exactly when its first `end` bytes are in the grammar. */
  lemma MatchesExactlyGrammar(b: seq<byte>, end: nat)
    ensures Parse(INITIAL, b) == Matched(end) <==> PrefixAt(b, 0, end)
  {
    assert b[0..] == b;
    Next(INITIAL, b, 0, end);
    if 0 < |b| && b[0] == EDGE_HEADER[0] {
      EdgeMatches(INITIAL.(field := EdgeHeader, index := 1), b, 1, end);
    } else if 0 < |b| && b[0] == HEADER_MAGIC[0] {
      SecondMagicMatches(INITIAL.(field := Header, index := 1), b, 1, end);
    }
  }

  /** A stream is in the grammar up to at most one position. */
  lemma OneEnd(b: seq<byte>, end: nat, other: nat)
    requires PrefixAt(b, 0, end) && PrefixAt(b, 0, other)
    ensures end == other
  {
    MatchesExactlyGrammar(b, end);
    MatchesExactlyGrammar(b, other);
  }

  /** After a mismatch nothing that follows can complete a prefix; before a match nothing has. */
  lemma VerdictIsFinal(b: seq<byte>, more: seq<byte>, end: nat)
    ensures Parse(INITIAL, b).Mismatch? ==> !PrefixAt(b + more, 0, end)
    ensures Parse(INITIAL, b).NeedMore? ==> !PrefixAt(b, 0, end)
    ensures PrefixAt(b, 0, end) ==> Parse(INITIAL, b + more) == Matched(end)
  {
    ParseConcat(INITIAL, b, more);
    MatchesExactlyGrammar(b, end);
    MatchesExactlyGrammar(b + more, end);
  }

  /** For every division into segments, the stream matches at `end` exactly when it is in the grammar up to there. */
  lemma SegmentsMatchGrammar(segments: seq<seq<byte>>, end: nat)
    ensures ParseSegments(INITIAL, segments) == Matched(end) <==> PrefixAt(Join(segments), 0, end)
  {
    SegmentationIndependent(INITIAL, segments);
    MatchesExactlyGrammar(Join(segments), end);
  }

  /** Two frame lengths pass their own check although no canonical hello length can agree with them. */
  lemma NeverCompletes(b: seq<byte>, i: nat, end: nat)
    requires i + 3 <= |b| && U24(b, i) in {130, 16387}
    ensures MIN_HELLO_FRAME <= U24(b, i) <= MAX_HELLO_FRAME && !FrameAt(b, i, end)
  {
  }
}
