/** The parts of one message arriving among any other traffic, in any order and with retransmissions. */
module Feeds {
  import opened Fragments
  import opened Datagrams
  import opened Assembly
  import opened Reassembly
  import opened ReassemblyInvariants
  import opened ReassemblyRuns
  import opened Parts

  /** A packet to reassemble: its key and its parts in order. */
  datatype Message = Message(family: Family, key: Key, parts: seq<Fragment>, final: int)

  ghost predicate ValidMessage(m: Message)
  {
    Division(m.family, m.parts, m.final)
  }

  /** A run of the cache that says which events carry parts of the message. */
  datatype Feed =
    | Begin(store: Store)
    | Other(before: Feed, event: Event, store: Store)
    | Part(before: Feed, index: nat, event: Event, store: Store)

  /** The parts that have arrived, in order of first arrival. */
  function Got(f: Feed): (got: seq<nat>)
  {
    match f
    case Begin(_) => []
    case Other(before, _, _) => Got(before)
    case Part(before, i, _, _) => if i in Got(before) then Got(before) else Got(before) + [i]
  }

  /** When the first part arrived. */
  function Opened(f: Feed): (time: int)
  {
    match f
    case Begin(_) => 0
    case Other(before, _, _) => Opened(before)
    case Part(before, _, e, _) => if Got(before) == [] then e.input.now else Opened(before)
  }

  /** The input belongs to the datagram `k`. */
  predicate Concerns(family: Family, input: Input, k: Key)
  {
    match Parse(family, input)
    case NotFragment => false
    case Malformed(bad) => bad == k
    case Piece(a) => a.key == k
  }

  ghost predicate IsPart(m: Message, i: nat, input: Input)
  {
    var parsed := Parse(m.family, input);
    parsed.Piece? && parsed.arrival.key == m.key && PartOf(m.parts, i, parsed.arrival)
  }

  /** The budget and the source's quota have room for the arriving fragment. */
  ghost predicate Admitted(s: Store, e: Event, a: Arrival)
  {
    if a.key in Swept(s, e.releases).datagrams then Room(Swept(s, e.releases), a) else Room(Evicted(s, e.releases), a)
  }

  /**
   * The message is not disturbed: other traffic neither expires nor evicts it, its parts come
   * within the timeout of the first one, and each finds room in the budget when it arrives.
   */
  ghost predicate IsFeed(m: Message, f: Feed)
  {
    match f
    case Begin(s) => Inv(s) && s.family == m.family && m.key !in s.datagrams
    case Other(before, e, t) =>
      && IsFeed(m, before) && Stepped(before.store, e, t)
      && !Concerns(m.family, e.input, m.key)
      && (m.key in before.store.datagrams ==> m.key in t.datagrams)
    case Part(before, i, e, t) =>
      && IsFeed(m, before) && Stepped(before.store, e, t)
      && IsPart(m, i, e.input)
      && |Got(before)| < |m.parts|
      && (Got(before) != [] ==> e.input.now - Opened(before) < TIMEOUT)
      && Admitted(before.store, e, Parse(m.family, e.input).arrival)
  }

  /** `d` holds exactly the parts `got`. */
  ghost predicate Collected(m: Message, d: Datagram, got: seq<nat>)
  {
    exists idx :: Holds(d, m.parts, m.final, idx) && SameSet(idx, got) && |idx| == |got|
  }

  /** What the cache holds under the key of the message. */
  ghost predicate Tracks(m: Message, s: Store, got: seq<nat>, since: int)
  {
    if got == [] || |got| == |m.parts| then m.key !in s.datagrams
    else m.key in s.datagrams && s.datagrams[m.key].createdAt == since && Collected(m, s.datagrams[m.key], got)
  }

  // ---- taking one part ----

  lemma TakeKnown(m: Message, s: Store, d: Datagram, got: seq<nat>, i: nat, a: Arrival, input: Input)
    requires ValidMessage(m) && s.family == m.family && a.key == m.key
    requires Collected(m, d, got) && PartOf(m.parts, i, a) && i in got
    ensures var (r, t) := Take(s, d, a, input);
            r == Held && m.key in t.datagrams && t.datagrams[m.key] == d.(updatedAt := input.now)
  {
    var idx :| Holds(d, m.parts, m.final, idx) && SameSet(idx, got) && |idx| == |got|;
    OfferKnown(m.family, d, m.parts, m.final, idx, i, a, input.now);
  }

  lemma CollectedLater(m: Message, d: Datagram, got: seq<nat>, now: int)
    requires Collected(m, d, got)
    ensures Collected(m, d.(updatedAt := now), got)
  {
    var idx :| Holds(d, m.parts, m.final, idx) && SameSet(idx, got) && |idx| == |got|;
    assert Holds(d.(updatedAt := now), m.parts, m.final, idx);
  }

  lemma SettledHolds(d: Datagram, ps: seq<Fragment>, final: int, idx: seq<nat>) returns (jdx: seq<nat>)
    requires Holds(d, ps, final, idx)
    ensures Holds(Settled(d), ps, final, jdx) && SameSet(jdx, idx) && |jdx| == |idx|
  {
    if d.firstPrefix != 0 && 0 <= d.final {
      jdx := SortedMatches(d.fragments, ps, idx);
    } else {
      jdx := idx;
    }
  }

  /** A missing part is kept, and completes the message exactly when it is the last. */
  lemma OfferMissing(m: Message, d: Datagram, got: seq<nat>, i: nat, a: Arrival, now: int)
    requires ValidMessage(m) && Collected(m, d, got) && PartOf(m.parts, i, a) && i !in got
    ensures var e := With(d, a, now);
            && Offer(m.family, d, a, now) == Keep(e)
            && (Complete(e) <==> |got| + 1 == |m.parts|)
            && (Complete(e) ==> Whole(m.family, Sorted(e.fragments)) == Whole(m.family, m.parts))
            && Collected(m, Settled(e), got + [i])
  {
    var idx :| Holds(d, m.parts, m.final, idx) && SameSet(idx, got) && |idx| == |got|;
    assert i !in idx;
    OfferNew(m.family, d, m.parts, m.final, idx, i, a, now);
    var e := With(d, a, now);
    CompleteIffAll(m.family, e, m.parts, m.final, idx + [i]);
    var jdx := SettledHolds(e, m.parts, m.final, idx + [i]);
    assert SameSet(jdx, got + [i]);
  }

  lemma TakeKept(s: Store, d: Datagram, a: Arrival, input: Input, e: Datagram)
    requires Offer(s.family, d, a, input.now) == Keep(e)
    ensures var (r, t) := Take(s, d, a, input);
            if Complete(e)
            then r.Completed? && r.packet == Whole(s.family, Sorted(e.fragments)) && a.key !in t.datagrams
            else r == Held && a.key in t.datagrams && t.datagrams[a.key] == Settled(e)
  {
  }

  lemma TakeMissing(m: Message, s: Store, d: Datagram, got: seq<nat>, i: nat, a: Arrival, input: Input)
    requires ValidMessage(m) && s.family == m.family && a.key == m.key
    requires Collected(m, d, got) && PartOf(m.parts, i, a) && i !in got
    ensures var (r, t) := Take(s, d, a, input);
            if |got| + 1 == |m.parts| then r.Completed? && r.packet == Whole(m.family, m.parts) && m.key !in t.datagrams
            else r == Held && m.key in t.datagrams && t.datagrams[m.key] == Settled(With(d, a, input.now))
  {
    OfferMissing(m, d, got, i, a, input.now);
    TakeKept(s, d, a, input, With(d, a, input.now));
  }

  lemma FreshCollected(m: Message, now: int)
    requires ValidMessage(m)
    ensures Collected(m, Fresh(now), [])
  {
    assert Holds(Fresh(now), m.parts, m.final, []);
    assert SameSet([], []);
  }

  /** What the arrival of part `i` must answer. */
  ghost predicate Answers(m: Message, got: seq<nat>, i: nat, r: Result)
  {
    if i !in got && |got| + 1 == |m.parts| then r.Completed? && r.packet == Whole(m.family, m.parts)
    else r == Held
  }

  function Added(got: seq<nat>, i: nat): (r: seq<nat>)
  {
    if i in got then got else got + [i]
  }

  lemma TakePart(m: Message, s: Store, d: Datagram, got: seq<nat>, i: nat, a: Arrival, input: Input)
    requires ValidMessage(m) && s.family == m.family && a.key == m.key
    requires Collected(m, d, got) && PartOf(m.parts, i, a) && |got| < |m.parts|
    ensures var (r, t) := Take(s, d, a, input);
            Answers(m, got, i, r) && Tracks(m, t, Added(got, i), d.createdAt)
  {
    if i in got {
      TakeKnown(m, s, d, got, i, a, input);
      CollectedLater(m, d, got, input.now);
    } else {
      OfferMissing(m, d, got, i, a, input.now);
      TakeMissing(m, s, d, got, i, a, input);
    }
  }

  // ---- one event ----

  lemma PartStep(m: Message, s: Store, e: Event, i: nat, got: seq<nat>, since: int)
    requires ValidMessage(m) && Inv(s) && s.family == m.family && Tracks(m, s, got, since)
    requires Legal(s, e.input, e.releases) && IsPart(m, i, e.input) && |got| < |m.parts|
    requires (got != [] ==> e.input.now - since < TIMEOUT) && Admitted(s, e, Parse(m.family, e.input).arrival)
    ensures var (r, t) := Step(s, e.input, e.releases);
            Answers(m, got, i, r) && Tracks(m, t, Added(got, i), if got == [] then e.input.now else since)
  {
    var a := Parse(m.family, e.input).arrival;
    StepPieceReady(s, a, e.input, e.releases);
    SweptDatagrams(s, e.input, e.releases);
    if got == [] {
      FreshCollected(m, e.input.now);
      TakePart(m, Evicted(s, e.releases), Fresh(e.input.now), got, i, a, e.input);
    } else {
      var t := Swept(s, e.releases);
      TakePart(m, t, t.datagrams[m.key], got, i, a, e.input);
    }
  }

  /** An event of another datagram leaves this one as it is, or gone. */
  lemma StepFrame(s: Store, e: Event, k: Key)
    requires Inv(s) && Legal(s, e.input, e.releases) && !Concerns(s.family, e.input, k)
    ensures var t := Step(s, e.input, e.releases).1;
            k in t.datagrams ==> k in s.datagrams && t.datagrams[k] == s.datagrams[k]
  {
    var parsed := Parse(s.family, e.input);
    if !parsed.NotFragment? { SweptDatagrams(s, e.input, e.releases); }
    if parsed.Piece? { PieceFrame(s, parsed.arrival, e, k); }
  }

  lemma TakeFrame(s: Store, d: Datagram, a: Arrival, input: Input, k: Key)
    requires a.key != k
    ensures var t := Take(s, d, a, input).1;
            k in t.datagrams ==> k in s.datagrams && t.datagrams[k] == s.datagrams[k]
  {
    TakeTouches(s, d, a, input);
  }

  lemma PieceFrame(s: Store, a: Arrival, e: Event, k: Key)
    requires Inv(s) && Legal(s, e.input, e.releases) && Parse(s.family, e.input) == Piece(a) && a.key != k
    ensures var t := StepPiece(s, a, e.input, e.releases).1;
            k in t.datagrams ==> k in s.datagrams && t.datagrams[k] == s.datagrams[k]
  {
    SweptDatagrams(s, e.input, e.releases);
    var t := Swept(s, e.releases);
    if a.key in t.datagrams {
      TakeFrame(t, t.datagrams[a.key], a, e.input, k);
    } else {
      EvictedInv(s, e.releases, a);
      TakeFrame(Evicted(s, e.releases), Fresh(e.input.now), a, e.input, k);
    }
  }

  // ---- whole feeds ----

  lemma {:induction false} FeedTracks(m: Message, f: Feed)
    requires ValidMessage(m) && IsFeed(m, f)
    ensures Inv(f.store) && f.store.family == m.family
    ensures Tracks(m, f.store, Got(f), Opened(f))
  {
    match f
    case Begin(s) =>
    case Other(before, e, t) =>
      FeedTracks(m, before);
      SteppedInv(before.store, e, t);
      StepFrame(before.store, e, m.key);
    case Part(before, i, e, t) =>
      FeedTracks(m, before);
      SteppedInv(before.store, e, t);
      PartStep(m, before.store, e, i, Got(before), Opened(before));
  }

  /**
   * Whatever the order, the repetitions and the other traffic, the arrival of the last missing
   * part gives back the whole packet and every earlier one is held.
   */
  lemma FeedDelivers(m: Message, f: Feed)
    requires ValidMessage(m) && IsFeed(m, f) && f.Part?
    ensures Answers(m, Got(f.before), f.index, ResultOf(f.before.store, f.event))
  {
    FeedTracks(m, f.before);
    PartStep(m, f.before.store, f.event, f.index, Got(f.before), Opened(f.before));
  }
}
