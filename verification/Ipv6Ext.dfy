/** The IPv6 extension-header walker of ip_ipv6_ext.go and the peeks built on it. */
module Ipv6Ext {
  import opened Bytes
  import opened Options

  const BASE_HEADER: nat := 40
  const FRAGMENT_HEADER: nat := 8
  const MAX_HEADERS: nat := 16
  const NEXT_FRAGMENT: byte := 44
  const NEXT_AUTHENTICATION: byte := 51

  datatype FragmentInfo = FragmentInfo(
    headerOffset: nat,
    precedingNextHeaderFieldOffset: nat,
    nextHeader: byte,
    offset: nat,
    moreFragments: bool,
    identification: uint32)

  /** `fragment` is present when a Fragment header was walked, atomic or not. */
  datatype Walk = Walk(
    nextHeader: byte,
    transportOffset: nat,
    payloadEnd: nat,
    fragment: Option<FragmentInfo>,
    fragmented: bool)

  /** Hop-by-hop, routing, destination options, mobility, host identity and shim6. */
  predicate IsOptionHeader(nextHeader: byte)
  {
    nextHeader == 0 || nextHeader == 43 || nextHeader == 60 || nextHeader == 135 || nextHeader == 139
      || nextHeader == 140
  }

  predicate IsExtensionHeader(nextHeader: byte)
  {
    IsOptionHeader(nextHeader) || nextHeader == NEXT_FRAGMENT || nextHeader == NEXT_AUTHENTICATION
  }

  predicate IsIpv6(packet: seq<byte>)
  {
    BASE_HEADER <= |packet| && packet[0] / 16 == 6
  }

  function PayloadEnd(packet: seq<byte>): (end: nat)
    requires BASE_HEADER <= |packet|
  {
    BASE_HEADER + U16(packet, 4)
  }

  /** The byte length of an option or authentication header at `offset`. */
  function HeaderLength(packet: seq<byte>, nextHeader: byte, offset: nat): (n: nat)
    requires offset + 2 <= |packet|
    ensures n >= 8
  {
    if nextHeader == NEXT_AUTHENTICATION then (packet[offset + 1] as int + 2) * 4
    else (packet[offset + 1] as int + 1) * 8
  }

  function FragmentAt(packet: seq<byte>, offset: nat, link: nat): (f: FragmentInfo)
    requires offset + FRAGMENT_HEADER <= |packet|
  {
    var field := U16(packet, offset + 2);
    FragmentInfo(offset, link, packet[offset], field - field % 8, field % 2 == 1, U32(packet, offset + 4))
  }

  predicate NonAtomic(f: FragmentInfo)
  {
    f.offset != 0 || f.moreFragments
  }

  /** Where the walk is: the type and offset of the header it reads next, and the byte naming that type. */
  datatype Cursor = Cursor(next: byte, offset: nat, link: nat, fragment: Option<FragmentInfo>)

  datatype Step = Stop(walk: Option<Walk>) | Go(cursor: Cursor)

  /** One iteration of the walk. */
  function StepOf(packet: seq<byte>, end: nat, c: Cursor): (r: Step)
  {
    if |packet| < end then Stop(None)
    else if !IsExtensionHeader(c.next) then Stop(Some(Walk(c.next, c.offset, end, c.fragment, false)))
    else if end < c.offset + 8 then Stop(None)
    else if c.next == NEXT_FRAGMENT then
      var f := FragmentAt(packet, c.offset, c.link);
      if c.fragment.Some? then Stop(None)
      else if NonAtomic(f) then Stop(Some(Walk(f.nextHeader, c.offset + FRAGMENT_HEADER, end, Some(f), true)))
      else Go(Cursor(f.nextHeader, c.offset + FRAGMENT_HEADER, c.offset, Some(f)))
    else
      var n := HeaderLength(packet, c.next, c.offset);
      if end < c.offset + n then Stop(None)
      else Go(Cursor(packet[c.offset], c.offset + n, c.offset, c.fragment))
  }

  function Stepper(packet: seq<byte>, end: nat): (step: Cursor -> Step)
  {
    (c: Cursor) => StepOf(packet, end, c)
  }

  /** A cursor and the number of headers the walk may still read. */
  datatype Progress = Progress(cursor: Cursor, left: nat)

  /** At most `p.left` steps from `p.cursor`. */
  function Iterate(step: Cursor -> Step, p: Progress): (r: Option<Walk>)
    decreases p.left
  {
    if p.left == 0 then None
    else
      match step(p.cursor)
      case Stop(walk) => walk
      case Go(next) => Iterate(step, Progress(next, p.left - 1))
  }

  lemma IterateStops(step: Cursor -> Step, c: Cursor, left: nat)
    requires step(c).Stop? && left > 0
    ensures Iterate(step, Progress(c, left)) == step(c).walk
  {
  }

  lemma IterateGoes(step: Cursor -> Step, c: Cursor, left: nat)
    requires step(c).Go? && left > 0
    ensures Iterate(step, Progress(c, left)) == Iterate(step, Progress(step(c).cursor, left - 1))
  {
  }

  function Start(packet: seq<byte>): (c: Cursor)
    requires BASE_HEADER <= |packet|
  {
    Cursor(packet[6], BASE_HEADER, 6, None)
  }

  function WalkOf(packet: seq<byte>): (r: Option<Walk>)
  {
    if !IsIpv6(packet) || |packet| < PayloadEnd(packet) then None
    else Iterate(Stepper(packet, PayloadEnd(packet)), Progress(Start(packet), MAX_HEADERS))
  }

  method WalkExtensionHeaders(packet: seq<byte>) returns (r: Option<Walk>)
    ensures r == WalkOf(packet)
  {
    if |packet| < BASE_HEADER || packet[0] / 16 != 6 { return None; }
    var end: nat := BASE_HEADER + U16(packet, 4);
    if |packet| < end { return None; }
    var next: byte, offset: nat, link: nat := packet[6], BASE_HEADER, 6;
    var fragment: Option<FragmentInfo> := None;
    for i := 0 to MAX_HEADERS
      invariant WalkOf(packet) ==
                  Iterate(Stepper(packet, end), Progress(Cursor(next, offset, link, fragment), MAX_HEADERS - i))
    {
      ghost var c := Cursor(next, offset, link, fragment);
      if IsOptionHeader(next) || next == NEXT_AUTHENTICATION {
        if end < offset + 8 { return None; }
        var n := HeaderLength(packet, next, offset);
        if end < offset + n { return None; }
        next, link, offset := packet[offset], offset, offset + n;
      } else if next == NEXT_FRAGMENT {
        if end < offset + FRAGMENT_HEADER { return None; }
        if fragment.Some? { return None; }
        var f := FragmentAt(packet, offset, link);
        fragment := Some(f);
        next, link, offset := packet[offset], offset, offset + FRAGMENT_HEADER;
        if NonAtomic(f) {
          return Some(Walk(next, offset, end, fragment, true));
        }
      } else {
        return Some(Walk(next, offset, end, fragment, false));
      }
      assert StepOf(packet, end, c) == Go(Cursor(next, offset, link, fragment));
    }
    return None;
  }

  // ---- the peeks ----

  /** `ipv6TransportOffset`: protocol, offset and end of an unfragmented packet. */
  function TransportOffset(packet: seq<byte>): (r: Option<(byte, nat, nat)>)
  {
    if !IsIpv6(packet) then None
    else if !IsExtensionHeader(packet[6]) then
      if |packet| < PayloadEnd(packet) then None else Some((packet[6], BASE_HEADER, PayloadEnd(packet)))
    else
      match WalkOf(packet)
      case None => None
      case Some(w) => if w.fragmented then None else Some((w.nextHeader, w.transportOffset, w.payloadEnd))
  }

  /** `isIpv6FragmentPacket`. */
  predicate IsFragmentPacket(packet: seq<byte>)
  {
    IsIpv6(packet) && IsExtensionHeader(packet[6]) && WalkOf(packet).Some? && WalkOf(packet).value.fragmented
  }

  /** The no-extension shortcuts give what the full walk gives, on every packet. */
  lemma PeeksAgreeWithWalk(packet: seq<byte>)
    ensures TransportOffset(packet) ==
            (match WalkOf(packet)
             case Some(w) => if w.fragmented then None else Some((w.nextHeader, w.transportOffset, w.payloadEnd))
             case None => None)
    ensures IsFragmentPacket(packet) <==> WalkOf(packet).Some? && WalkOf(packet).value.fragmented
  {
    if IsIpv6(packet) && PayloadEnd(packet) <= |packet| && !IsExtensionHeader(packet[6]) {
      assert WalkOf(packet) == Some(Walk(packet[6], BASE_HEADER, PayloadEnd(packet), None, false));
    }
  }

  ghost predicate WalkInBounds(packet: seq<byte>, w: Walk)
  {
    && BASE_HEADER <= w.transportOffset <= w.payloadEnd <= |packet|
    && (w.fragmented ==> w.fragment.Some?)
    && (w.fragment.Some? ==>
          var f := w.fragment.value;
          && BASE_HEADER <= f.headerOffset
          && f.headerOffset + FRAGMENT_HEADER <= w.transportOffset
          && 6 <= f.precedingNextHeaderFieldOffset < f.headerOffset
          && f.offset % 8 == 0
          && packet[f.precedingNextHeaderFieldOffset] == NEXT_FRAGMENT
          && f == FragmentAt(packet, f.headerOffset, f.precedingNextHeaderFieldOffset))
    && (w.fragmented ==>
          w.transportOffset == w.fragment.value.headerOffset + FRAGMENT_HEADER && NonAtomic(w.fragment.value))
    && (!w.fragmented ==> !IsExtensionHeader(w.nextHeader))
  }

  ghost predicate CursorInBounds(packet: seq<byte>, end: nat, c: Cursor)
  {
    && BASE_HEADER <= c.offset <= end <= |packet|
    && 6 <= c.link < c.offset && packet[c.link] == c.next
    && (c.fragment.Some? ==>
          !NonAtomic(c.fragment.value) && WalkInBounds(packet, Walk(6, c.offset, end, c.fragment, false)))
  }

  lemma StepInBounds(packet: seq<byte>, end: nat, c: Cursor)
    requires CursorInBounds(packet, end, c)
    ensures match StepOf(packet, end, c)
            case Stop(walk) => walk.Some? ==> walk.value.payloadEnd == end && WalkInBounds(packet, walk.value)
            case Go(next) => CursorInBounds(packet, end, next)
  {
  }

  lemma {:induction false} WalkFromBounds(packet: seq<byte>, end: nat, c: Cursor, left: nat)
    requires CursorInBounds(packet, end, c)
    ensures var r := Iterate(Stepper(packet, end), Progress(c, left));
            r.Some? ==> r.value.payloadEnd == end && WalkInBounds(packet, r.value)
    decreases left
  {
    if left != 0 {
      StepInBounds(packet, end, c);
      var step := StepOf(packet, end, c);
      if step.Go? { WalkFromBounds(packet, end, step.cursor, left - 1); }
    }
  }

  /** Every offset of a successful walk lies inside the packet, in the order 40 <= transport <= end <= length. */
  lemma WalkBounds(packet: seq<byte>)
    ensures WalkOf(packet).Some? ==> WalkInBounds(packet, WalkOf(packet).value)
    ensures WalkOf(packet).Some? ==> WalkOf(packet).value.payloadEnd == PayloadEnd(packet)
  {
    if IsIpv6(packet) && PayloadEnd(packet) <= |packet| {
      WalkFromBounds(packet, PayloadEnd(packet), Start(packet), MAX_HEADERS);
    }
  }

  /** Where the parts of a non-atomic fragment lie. */
  predicate FragmentLayout(packet: seq<byte>, w: Walk)
  {
    && w.fragment.Some?
    && var f := w.fragment.value;
       && BASE_HEADER <= f.headerOffset && w.transportOffset == f.headerOffset + FRAGMENT_HEADER
       && w.transportOffset <= w.payloadEnd <= |packet|
       && 6 <= f.precedingNextHeaderFieldOffset < f.headerOffset
       && packet[f.precedingNextHeaderFieldOffset] == NEXT_FRAGMENT
       && f.offset % 8 == 0 && NonAtomic(f)
  }

  lemma FragmentIsLaidOut(packet: seq<byte>)
    requires IsFragmentPacket(packet)
    ensures FragmentLayout(packet, WalkOf(packet).value)
  {
    WalkBounds(packet);
  }

  // ---- the language the walk accepts ----

  /** One extension header as a sender writes it, without its Next Header byte. */
  datatype Header =
    | OptionHeader(kind: byte, length: byte, body: seq<byte>)
    | Authentication(length: byte, body: seq<byte>)
    | AtomicFragment(reserved: byte, bits: byte, identification: uint32)

  predicate WellFormed(h: Header)
  {
    match h
    case OptionHeader(kind, length, body) => IsOptionHeader(kind) && |body| == length as int * 8 + 6
    case Authentication(length, body) => |body| == length as int * 4 + 6
    case AtomicFragment(_, bits, _) => bits < 8 && bits % 2 == 0
  }

  function Kind(h: Header): (k: byte)
  {
    match h
    case OptionHeader(kind, _, _) => kind
    case Authentication(_, _) => NEXT_AUTHENTICATION
    case AtomicFragment(_, _, _) => NEXT_FRAGMENT
  }

  function Encode(h: Header, next: byte): (s: seq<byte>)
  {
    match h
    case OptionHeader(_, length, body) => [next, length] + body
    case Authentication(length, body) => [next, length] + body
    case AtomicFragment(reserved, bits, id) => [next, reserved, 0, bits] + Be32(id)
  }

  /** A chain of headers ending in a header of type `last`. */
  datatype Headers = Last(last: byte) | More(head: Header, tail: Headers)

  function FirstKind(hs: Headers): (k: byte)
  {
    if hs.Last? then hs.last else Kind(hs.head)
  }

  function Target(hs: Headers): (k: byte)
  {
    if hs.Last? then hs.last else Target(hs.tail)
  }

  function Count(hs: Headers): (n: nat)
  {
    if hs.Last? then 0 else 1 + Count(hs.tail)
  }

  /** The bytes of the chain, up to the header it leads to. */
  function Chain(hs: Headers): (s: seq<byte>)
  {
    if hs.Last? then [] else Encode(hs.head, FirstKind(hs.tail)) + Chain(hs.tail)
  }

  ghost predicate ValidChain(hs: Headers, fragmentSeen: bool)
  {
    if hs.Last? then !IsExtensionHeader(hs.last)
    else
      && WellFormed(hs.head)
      && (hs.head.AtomicFragment? ==> !fragmentSeen)
      && ValidChain(hs.tail, fragmentSeen || hs.head.AtomicFragment?)
  }

  predicate Slice(packet: seq<byte>, at: nat, s: seq<byte>)
  {
    at + |s| <= |packet| && packet[at..at + |s|] == s
  }

  lemma SliceSplit(packet: seq<byte>, at: nat, a: seq<byte>, b: seq<byte>)
    ensures Slice(packet, at, a + b) <==> Slice(packet, at, a) && Slice(packet, at + |a|, b)
  {
    var n := at + |a| + |b|;
    if n <= |packet| {
      assert packet[at..n] == packet[at..at + |a|] + packet[at + |a|..n];
      if Slice(packet, at, a + b) {
        assert a == (a + b)[..|a|] == packet[at..n][..|a|];
        assert b == (a + b)[|a|..] == packet[at..n][|a|..];
      }
    }
  }

  lemma HeaderAt(packet: seq<byte>, at: nat, h: Header, next: byte)
    requires WellFormed(h) && Slice(packet, at, Encode(h, next))
    ensures |Encode(h, next)| >= 8 && packet[at] == next
    ensures h.AtomicFragment? ==> |Encode(h, next)| == 8 && U16(packet, at + 2) < 8 && U16(packet, at + 2) % 2 == 0
    ensures !h.AtomicFragment? ==> HeaderLength(packet, Kind(h), at) == |Encode(h, next)|
  {
    var e := Encode(h, next);
    assert packet[at] == e[0] && packet[at + 1] == e[1] && packet[at + 2] == e[2] && packet[at + 3] == e[3];
  }

  function Seen(packet: seq<byte>, c: Cursor): (r: Option<FragmentInfo>)
  {
    if c.next == NEXT_FRAGMENT && c.offset + FRAGMENT_HEADER <= |packet| then Some(FragmentAt(packet, c.offset, c.link))
    else c.fragment
  }

  /** The cursor past the header at `c` that ends at `offset`. */
  function Past(packet: seq<byte>, c: Cursor, next: byte, n: nat): (r: Cursor)
  {
    Cursor(next, c.offset + n, c.offset, Seen(packet, c))
  }

  /** One header of a chain is one step of the walk. */
  lemma HeaderIsStep(packet: seq<byte>, end: nat, h: Header, next: byte, c: Cursor)
    requires WellFormed(h) && c.next == Kind(h) && (h.AtomicFragment? ==> c.fragment.None?)
    requires Slice(packet, c.offset, Encode(h, next)) && c.offset + |Encode(h, next)| <= end <= |packet|
    ensures StepOf(packet, end, c) == Go(Past(packet, c, next, |Encode(h, next)|))
    ensures Past(packet, c, next, |Encode(h, next)|).fragment.Some? <==> c.fragment.Some? || h.AtomicFragment?
  {
    HeaderAt(packet, c.offset, h, next);
  }

  /** The cursor past the first header of the chain. */
  function AfterHead(packet: seq<byte>, hs: Headers, c: Cursor): (r: Cursor)
    requires hs.More?
  {
    Past(packet, c, FirstKind(hs.tail), |Encode(hs.head, FirstKind(hs.tail))|)
  }

  /** The cursor at the header the chain leads to. */
  function AtTarget(packet: seq<byte>, hs: Headers, c: Cursor): (r: Cursor)
    decreases hs
  {
    if hs.Last? then c else AtTarget(packet, hs.tail, AfterHead(packet, hs, c))
  }

  lemma {:induction false} TargetOffset(packet: seq<byte>, hs: Headers, c: Cursor)
    requires c.next == FirstKind(hs)
    ensures AtTarget(packet, hs, c).offset == c.offset + |Chain(hs)|
    ensures AtTarget(packet, hs, c).next == Target(hs)
    decreases hs
  {
    if hs.More? { TargetOffset(packet, hs.tail, AfterHead(packet, hs, c)); }
  }

  ghost predicate ChainAt(packet: seq<byte>, end: nat, hs: Headers, c: Cursor)
  {
    && ValidChain(hs, c.fragment.Some?) && c.next == FirstKind(hs)
    && Slice(packet, c.offset, Chain(hs)) && c.offset + |Chain(hs)| <= end <= |packet|
  }

  lemma ChainHead(packet: seq<byte>, end: nat, hs: Headers, c: Cursor)
    requires ChainAt(packet, end, hs, c) && hs.More?
    ensures StepOf(packet, end, c) == Go(AfterHead(packet, hs, c))
    ensures ChainAt(packet, end, hs.tail, AfterHead(packet, hs, c))
    ensures AfterHead(packet, hs, c).offset + |Chain(hs.tail)| == c.offset + |Chain(hs)|
  {
    var e := Encode(hs.head, FirstKind(hs.tail));
    SliceSplit(packet, c.offset, e, Chain(hs.tail));
    HeaderIsStep(packet, end, hs.head, FirstKind(hs.tail), c);
  }

  /** `step` goes through the chain one header at a time. */
  ghost predicate Follows(step: Cursor -> Step, packet: seq<byte>, hs: Headers, c: Cursor)
    decreases hs
  {
    hs.More? ==> step(c) == Go(AfterHead(packet, hs, c)) && Follows(step, packet, hs.tail, AfterHead(packet, hs, c))
  }

  lemma {:induction false} ChainIsFollowed(packet: seq<byte>, end: nat, hs: Headers, c: Cursor)
    requires ChainAt(packet, end, hs, c)
    ensures Follows(Stepper(packet, end), packet, hs, c)
    decreases hs
  {
    if hs.More? {
      ChainHead(packet, end, hs, c);
      ChainIsFollowed(packet, end, hs.tail, AfterHead(packet, hs, c));
    }
  }

  /** A chain of at most `left - 1` headers is walked to its end. */
  lemma {:induction false} FollowedIsWalked(step: Cursor -> Step, packet: seq<byte>, hs: Headers, c: Cursor, left: nat)
    requires Follows(step, packet, hs, c)
    ensures Iterate(step, Progress(c, left)) ==
            if Count(hs) < left then Iterate(step, Progress(AtTarget(packet, hs, c), left - Count(hs))) else None
    decreases left
  {
    if left != 0 && hs.More? {
      FollowedIsWalked(step, packet, hs.tail, AfterHead(packet, hs, c), left - 1);
    }
  }

  /** The header found at `at` by a step of the walk. */
  function Decoded(packet: seq<byte>, next: byte, at: nat): (h: Header)
    requires IsExtensionHeader(next) && at + 8 <= |packet|
    requires next != NEXT_FRAGMENT ==> at + HeaderLength(packet, next, at) <= |packet|
  {
    if next == NEXT_FRAGMENT then AtomicFragment(packet[at + 1], packet[at + 3], U32(packet, at + 4))
    else
      var body := packet[at + 2..at + HeaderLength(packet, next, at)];
      if next == NEXT_AUTHENTICATION then Authentication(packet[at + 1], body)
      else OptionHeader(next, packet[at + 1], body)
  }

  lemma DecodedIsThere(packet: seq<byte>, next: byte, at: nat)
    requires IsExtensionHeader(next) && at + 8 <= |packet|
    requires next != NEXT_FRAGMENT ==> at + HeaderLength(packet, next, at) <= |packet|
    requires next == NEXT_FRAGMENT ==> !NonAtomic(FragmentAt(packet, at, 0))
    ensures var h := Decoded(packet, next, at);
            WellFormed(h) && Kind(h) == next && Slice(packet, at, Encode(h, packet[at]))
  {
    if next == NEXT_FRAGMENT {
      Be32Inverse(packet, at + 4);
    }
  }

  /** A step that goes on to another header reads one well-formed header. */
  lemma StepIsHeader(packet: seq<byte>, end: nat, c: Cursor)
    requires c.offset <= end <= |packet| && StepOf(packet, end, c).Go?
    ensures IsExtensionHeader(c.next) && c.offset + 8 <= end
    ensures c.next != NEXT_FRAGMENT ==> c.offset + HeaderLength(packet, c.next, c.offset) <= end
    ensures c.next == NEXT_FRAGMENT ==> c.fragment.None? && !NonAtomic(FragmentAt(packet, c.offset, 0))
    ensures var h := Decoded(packet, c.next, c.offset);
            && WellFormed(h) && Kind(h) == c.next
            && Slice(packet, c.offset, Encode(h, packet[c.offset]))
            && c.offset + |Encode(h, packet[c.offset])| <= end
            && StepOf(packet, end, c) == Go(Past(packet, c, packet[c.offset], |Encode(h, packet[c.offset])|))
  {
    DecodedIsThere(packet, c.next, c.offset);
  }

  /** `step` goes along `cs` and stops at its end. */
  ghost predicate Trace(step: Cursor -> Step, cs: seq<Cursor>, walk: Option<Walk>)
  {
    && cs != []
    && (forall i :: 0 <= i < |cs| - 1 ==> step(cs[i]) == Go(cs[i + 1]))
    && step(cs[|cs| - 1]) == Stop(walk)
  }

  lemma {:induction false} IterateTrace(step: Cursor -> Step, c: Cursor, left: nat) returns (cs: seq<Cursor>)
    requires Iterate(step, Progress(c, left)).Some?
    ensures |cs| <= left && Trace(step, cs, Iterate(step, Progress(c, left))) && cs[0] == c
    decreases left
  {
    match step(c)
    case Stop(_) => cs := [c];
    case Go(next) =>
      var rest := IterateTrace(step, next, left - 1);
      cs := [c] + rest;
  }

  /** A header at `at` followed by a chain is a longer chain. */
  lemma SliceJoin(packet: seq<byte>, at: nat, h: Header, rest: Headers)
    requires Slice(packet, at, Encode(h, FirstKind(rest)))
             && Slice(packet, at + |Encode(h, FirstKind(rest))|, Chain(rest))
    ensures Slice(packet, at, Chain(More(h, rest)))
            && |Chain(More(h, rest))| == |Encode(h, FirstKind(rest))| + |Chain(rest)|
  {
    SliceSplit(packet, at, Encode(h, FirstKind(rest)), Chain(rest));
  }

  /** The chain read from `c` is the header read by one step and the chain read after it. */
  lemma ConsHeader(packet: seq<byte>, end: nat, c: Cursor, d: Cursor, rest: Headers) returns (hs: Headers)
    requires StepOf(packet, end, c) == Go(d) && c.offset <= end && ChainAt(packet, end, rest, d)
    ensures ChainAt(packet, end, hs, c)
    ensures hs.More? && hs.tail == rest && c.offset + |Chain(hs)| == d.offset + |Chain(rest)|
  {
    StepIsHeader(packet, end, c);
    var h := Decoded(packet, c.next, c.offset);
    hs := More(h, rest);
    SliceJoin(packet, c.offset, h, rest);
    ConsValid(h, rest, c, d);
  }

  lemma ConsValid(h: Header, rest: Headers, c: Cursor, d: Cursor)
    requires WellFormed(h) && ValidChain(rest, d.fragment.Some?) && Kind(h) == c.next
    requires c.next == NEXT_FRAGMENT ==> c.fragment.None? && d.fragment.Some?
    requires c.next != NEXT_FRAGMENT ==> d.fragment == c.fragment
    ensures ValidChain(More(h, rest), c.fragment.Some?)
  {
  }

  lemma StopIsTransport(packet: seq<byte>, end: nat, c: Cursor)
    requires var step := StepOf(packet, end, c); step.Stop? && step.walk.Some? && !step.walk.value.fragmented
    requires c.offset <= end
    ensures ChainAt(packet, end, Last(c.next), c)
    ensures StepOf(packet, end, c).walk == Some(Walk(c.next, c.offset, end, c.fragment, false))
  {
  }

  ghost predicate ChainTo(packet: seq<byte>, end: nat, hs: Headers, c: Cursor, w: Walk)
  {
    && ChainAt(packet, end, hs, c)
    && Target(hs) == w.nextHeader && c.offset + |Chain(hs)| == w.transportOffset && end == w.payloadEnd
  }

  /** A trace that ends at a transport header has read a valid chain, one header a step. */
  lemma {:induction false} TraceIsChain(packet: seq<byte>, end: nat, cs: seq<Cursor>, w: Walk, i: nat)
    returns (hs: Headers)
    requires Trace(Stepper(packet, end), cs, Some(w)) && !w.fragmented && i < |cs|
    requires forall j :: 0 <= j < |cs| ==> cs[j].offset <= end
    ensures Count(hs) + 1 + i == |cs| && ChainTo(packet, end, hs, cs[i], w)
    decreases |cs| - i
  {
    if i + 1 == |cs| {
      StopIsTransport(packet, end, cs[i]);
      return Last(cs[i].next);
    }
    var rest := TraceIsChain(packet, end, cs, w, i + 1);
    hs := ConsHeader(packet, end, cs[i], cs[i + 1], rest);
  }

  lemma {:induction false} TraceInBounds(packet: seq<byte>, end: nat, cs: seq<Cursor>, w: Walk, i: nat)
    requires Trace(Stepper(packet, end), cs, Some(w)) && i < |cs| && CursorInBounds(packet, end, cs[0])
    ensures CursorInBounds(packet, end, cs[i])
  {
    if i > 0 {
      TraceInBounds(packet, end, cs, w, i - 1);
      assert StepOf(packet, end, cs[i - 1]) == Go(cs[i - 1 + 1]);
      StepInBounds(packet, end, cs[i - 1]);
    }
  }

  /** `packet` declares the chain `hs`, complete within its payload. */
  ghost predicate Carries(packet: seq<byte>, hs: Headers)
  {
    && IsIpv6(packet) && PayloadEnd(packet) <= |packet|
    && ValidChain(hs, false)
    && packet[6] == FirstKind(hs)
    && Slice(packet, BASE_HEADER, Chain(hs))
    && BASE_HEADER + |Chain(hs)| <= PayloadEnd(packet)
  }

  lemma {:induction false} TargetIsTransport(hs: Headers, fragmentSeen: bool)
    requires ValidChain(hs, fragmentSeen)
    ensures !IsExtensionHeader(Target(hs))
  {
    if hs.More? { TargetIsTransport(hs.tail, fragmentSeen || hs.head.AtomicFragment?); }
  }

  lemma TransportStops(packet: seq<byte>, end: nat, t: Cursor)
    requires end <= |packet| && !IsExtensionHeader(t.next)
    ensures Stepper(packet, end)(t) == Stop(Some(Walk(t.next, t.offset, end, t.fragment, false)))
  {
  }

  lemma FollowedStops(step: Cursor -> Step, packet: seq<byte>, hs: Headers, c: Cursor, left: nat, t: Cursor)
    requires Follows(step, packet, hs, c) && t == AtTarget(packet, hs, c) && step(t).Stop?
    ensures Iterate(step, Progress(c, left)) == if Count(hs) < left then step(t).walk else None
  {
    FollowedIsWalked(step, packet, hs, c, left);
    if Count(hs) < left { IterateStops(step, t, left - Count(hs)); }
  }

  /** The walk goes through a chain of fewer than `left` headers and stops at its transport, or runs out. */
  lemma IterateFinds(packet: seq<byte>, end: nat, hs: Headers, c: Cursor, left: nat)
    requires ChainAt(packet, end, hs, c)
    ensures Iterate(Stepper(packet, end), Progress(c, left)) ==
              if Count(hs) < left
              then Some(Walk(Target(hs), c.offset + |Chain(hs)|, end, AtTarget(packet, hs, c).fragment, false))
              else None
  {
    ChainIsFollowed(packet, end, hs, c);
    TargetOffset(packet, hs, c);
    TargetIsTransport(hs, c.fragment.Some?);
    TransportStops(packet, end, AtTarget(packet, hs, c));
    FollowedStops(Stepper(packet, end), packet, hs, c, left, AtTarget(packet, hs, c));
  }

  lemma ChainAtStart(packet: seq<byte>, hs: Headers)
    requires Carries(packet, hs)
    ensures ChainAt(packet, PayloadEnd(packet), hs, Start(packet))
  {
  }

  /** What the walk makes of a chain of `count` headers and `size` bytes that leads to `target`. */
  predicate Ends(r: Option<Walk>, count: nat, size: nat, target: byte, end: nat)
  {
    if count <= 15 then r.Some? && r.value == Walk(target, BASE_HEADER + size, end, r.value.fragment, false)
       else r.None?
  }

  lemma WalkEnds(packet: seq<byte>, hs: Headers)
    requires Carries(packet, hs)
    ensures Ends(WalkOf(packet), Count(hs), |Chain(hs)|, Target(hs), PayloadEnd(packet))
  {
    ChainAtStart(packet, hs);
    IterateFinds(packet, PayloadEnd(packet), hs, Start(packet), MAX_HEADERS);
  }

  lemma EndsTransport(packet: seq<byte>, count: nat, size: nat, target: byte, end: nat)
    requires Ends(WalkOf(packet), count, size, target, end)
    ensures count <= 15 ==> TransportOffset(packet) == Some((target, BASE_HEADER + size, end))
  {
    PeeksAgreeWithWalk(packet);
  }

  /** The walk finds the end of every valid chain of at most 15 headers, and fails on a longer one. */
  lemma WalkFindsTransport(packet: seq<byte>, hs: Headers)
    requires Carries(packet, hs)
    ensures Count(hs) <= 15 ==>
              TransportOffset(packet) == Some((Target(hs), BASE_HEADER + |Chain(hs)|, PayloadEnd(packet)))
    ensures Count(hs) >= 16 ==> WalkOf(packet) == None
  {
    var count, size, target, end := Count(hs), |Chain(hs)|, Target(hs), PayloadEnd(packet);
    assert Ends(WalkOf(packet), count, size, target, end) by { WalkEnds(packet, hs); }
    assert count <= 15 ==> TransportOffset(packet) == Some((target, BASE_HEADER + size, end)) by {
      EndsTransport(packet, count, size, target, end);
    }
  }

  /** The walk reaches a transport header if and only if the packet carries a valid chain of at most 15 headers. */
  lemma WalkAcceptsExactlyChains(packet: seq<byte>)
    ensures TransportOffset(packet).Some? <==> exists hs :: Carries(packet, hs) && Count(hs) <= 15
  {
    PeeksAgreeWithWalk(packet);
    if TransportOffset(packet).Some? {
      var end := PayloadEnd(packet);
      var cs := IterateTrace(Stepper(packet, end), Start(packet), MAX_HEADERS);
      forall j | 0 <= j < |cs| ensures cs[j].offset <= end {
        TraceInBounds(packet, end, cs, WalkOf(packet).value, j);
      }
      var hs := TraceIsChain(packet, end, cs, WalkOf(packet).value, 0);
      assert Carries(packet, hs);
    }
    forall hs | Carries(packet, hs) && Count(hs) <= 15
      ensures TransportOffset(packet).Some?
    {
      WalkFindsTransport(packet, hs);
    }
  }
}
