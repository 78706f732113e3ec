/** The exact budget with which no order and no retransmission of a lone message meets a refusal. */
module SoloBudgets {
  import opened Fragments
  import opened Reassembly
  import opened ReassemblyInvariants
  import opened ReassemblyRuns
  import opened Feeds
  import opened SoloFeeds

  /** No part is refused. */
  ghost predicate Unrefused(f: Feed)
  {
    match f
    case Begin(_) => true
    case Other(before, _, _) => Unrefused(before)
    case Part(before, _, e, _) => Unrefused(before) && ResultOf(before.store, e) != Rejected
  }

  lemma {:induction false} SoloUnrefused(m: Message, f: Feed)
    requires ValidMessage(m) && IsSolo(m, f)
    ensures Unrefused(f)
  {
    if f.Part? {
      SoloUnrefused(m, f.before);
      SoloExact(m, f.before, f.index, f.event);
    }
  }

  // ---- the worst deliveries ----

  /** The numbers below `k` but for `j`. */
  function Others(j: nat, k: nat): (r: seq<nat>)
  {
    if k == 0 then [] else if k - 1 == j then Others(j, k - 1) else Others(j, k - 1) + [k - 1]
  }

  lemma {:induction false} OthersAre(j: nat, k: nat)
    ensures |Others(j, k)| == (if j < k then k - 1 else k)
    ensures forall x: nat {:trigger x in Others(j, k)} :: x in Others(j, k) <==> x < k && x != j
  {
    if k > 0 { OthersAre(j, k - 1); }
  }

  lemma {:induction false} OthersCharged(ps: seq<Fragment>, j: nat, k: nat)
    requires j < |ps| && k <= |ps|
    ensures Charged(ps, Others(j, |ps|), k) == Size(ps, k) - if j < k then |ps[j].buffer.data| else 0
  {
    OthersAre(j, |ps|);
    if k > 0 { OthersCharged(ps, j, k - 1); }
  }

  const NONE: Releases := Releases([], [], [], [])

  /** Part `i` comes next and nothing has to be released for it. */
  ghost function Next(f: Feed, input: nat -> Input, i: nat): (r: Feed)
  {
    Part(f, i, Event(input(i), NONE), Step(f.store, input(i), NONE).1)
  }

  /** What takes a feed and a part to the feed with that part next. */
  ghost function NextOf(input: nat -> Input): (next: (Feed, nat) -> Feed)
  {
    (f: Feed, i: nat) => Next(f, input, i)
  }

  ghost predicate Appends(next: (Feed, nat) -> Feed)
  {
    forall f: Feed, i: nat :: next(f, i).Part? && next(f, i).before == f && next(f, i).index == i
  }

  /** The parts below `k` but for `j`, in order. */
  function Played(s: Store, next: (Feed, nat) -> Feed, j: nat, k: nat): (f: Feed)
  {
    if k == 0 then Begin(s)
    else if k - 1 == j then Played(s, next, j, k - 1)
    else next(Played(s, next, j, k - 1), k - 1)
  }

  lemma {:induction false} PlayedGot(s: Store, next: (Feed, nat) -> Feed, j: nat, k: nat)
    requires Appends(next)
    ensures Got(Played(s, next, j, k)) == Others(j, k) && StartOf(Played(s, next, j, k)) == s
  {
    if k > 0 {
      PlayedGot(s, next, j, k - 1);
      OthersAre(j, k - 1);
    }
  }

  /** Every part can be sent, charged its own bytes and all at one time. */
  ghost predicate Supplies(m: Message, input: nat -> Input)
  {
    forall i: nat :: i < |m.parts| ==>
      && IsPart(m, i, input(i)) && Parse(m.family, input(i)).arrival.cost == |m.parts[i].buffer.data|
      && input(i).now == 0
  }

  ghost predicate IsEmpty(m: Message, s: Store)
  {
    Inv(s) && s.family == m.family && s.datagrams == map[]
  }

  /** The feed goes on with any part. */
  ghost predicate GoesOn(m: Message, s: Store, f: Feed)
  {
    && IsSolo(m, f) && IsTimely(m, f) && SameSettings(s, f.store) && StartOf(f) == s
    && |Got(f)| < |m.parts| && (Got(f) != [] ==> Opened(f) == 0)
  }

  lemma NextLegal(m: Message, s: Store, f: Feed, input: nat -> Input, i: nat)
    requires ValidMessage(m) && Supplies(m, input) && GoesOn(m, s, f) && i < |m.parts|
    ensures Legal(f.store, input(i), NONE)
  {
    SoloIsFeed(m, f);
    FeedTracks(m, f);
    LoneLegal(m, f.store, input(i));
  }

  /** Nothing is stale, and besides its own datagram there is nothing to evict. */
  lemma LoneLegal(m: Message, s: Store, input: Input)
    requires s.family == m.family && Alone(m, s) && Parse(m.family, input).Piece?
    requires Parse(m.family, input).arrival.key == m.key
    requires m.key in s.datagrams ==> !Stale(s.datagrams[m.key], input.now)
    ensures Legal(s, input, NONE)
  {
    if m.key !in s.datagrams { assert s.datagrams == map[]; }
  }

  lemma NextTimely(m: Message, s: Store, f: Feed, input: nat -> Input, i: nat)
    requires ValidMessage(m) && Supplies(m, input) && GoesOn(m, s, f) && i < |m.parts|
    ensures IsTimely(m, Next(f, input, i)) && NextPart(m, f, i, Event(input(i), NONE))
    ensures Stepped(f.store, Event(input(i), NONE), Next(f, input, i).store)
  {
    NextLegal(m, s, f, input, i);
  }

  lemma NextGoesOn(m: Message, s: Store, f: Feed, input: nat -> Input, i: nat)
    requires ValidMessage(m) && Supplies(m, input) && GoesOn(m, s, f) && i < |m.parts|
    requires ResultOf(f.store, Event(input(i), NONE)) != Rejected && |Got(Next(f, input, i))| < |m.parts|
    ensures GoesOn(m, s, Next(f, input, i))
  {
    NextTimely(m, s, f, input, i);
    SoloExact(m, f, i, Event(input(i), NONE));
    SoloIsFeed(m, f);
    FeedTracks(m, f);
    StepSettings(f.store, input(i), NONE);
  }

  /** As far as they are timely, neither the parts but for `j` nor part `i` after them is refused. */
  ghost predicate Passes(m: Message, s: Store, next: (Feed, nat) -> Feed, i: nat, j: nat)
  {
    && (forall k: nat {:trigger Played(s, next, j, k)} ::
          k <= |m.parts| && IsTimely(m, Played(s, next, j, k)) ==> Unrefused(Played(s, next, j, k)))
    && (IsTimely(m, next(Played(s, next, j, |m.parts|), i)) ==> Unrefused(next(Played(s, next, j, |m.parts|), i)))
  }

  lemma BeginGoesOn(m: Message, s: Store)
    requires ValidMessage(m) && IsEmpty(m, s)
    ensures GoesOn(m, s, Begin(s))
  {
  }

  lemma PassedGoesOn(m: Message, s: Store, f: Feed, input: nat -> Input, i: nat, g: Feed)
    requires ValidMessage(m) && Supplies(m, input) && GoesOn(m, s, f) && i < |m.parts| && i !in Got(f)
    requires g == Next(f, input, i) && (IsTimely(m, g) ==> Unrefused(g)) && |Got(f)| + 1 < |m.parts|
    ensures GoesOn(m, s, g)
  {
    NextTimely(m, s, f, input, i);
    NextGoesOn(m, s, f, input, i);
  }

  lemma {:induction false} PlayedKeeps(s: Store, next: (Feed, nat) -> Feed, j: nat, n: nat, ok: Feed -> bool)
    requires ok(Begin(s))
    requires forall k: nat :: k < n && k != j && ok(Played(s, next, j, k)) ==> ok(next(Played(s, next, j, k), k))
    ensures ok(Played(s, next, j, n))
  {
    if n > 0 {
      PlayedKeeps(s, next, j, n - 1, ok);
      var k := n - 1;
      assert ok(Played(s, next, j, k));
    }
  }

  lemma PlayedStep(m: Message, s: Store, input: nat -> Input, next: (Feed, nat) -> Feed, i: nat, j: nat, k: nat,
                   f: Feed)
    requires ValidMessage(m) && Supplies(m, input) && j < |m.parts| && k < |m.parts| && k != j
    requires next == NextOf(input) && Passes(m, s, next, i, j) && f == Played(s, next, j, k) && GoesOn(m, s, f)
    ensures GoesOn(m, s, next(f, k))
  {
    PlayedGot(s, next, j, k);
    OthersAre(j, k);
    OthersAre(j, k + 1);
    assert next(f, k) == Played(s, next, j, k + 1);
    PassedGoesOn(m, s, f, input, k, next(f, k));
  }

  lemma PlayedGoesOn(m: Message, s: Store, input: nat -> Input, next: (Feed, nat) -> Feed, i: nat, j: nat)
    requires ValidMessage(m) && Supplies(m, input) && IsEmpty(m, s) && i < |m.parts| && j < |m.parts|
    requires next == NextOf(input) && Passes(m, s, next, i, j)
    ensures GoesOn(m, s, Played(s, next, j, |m.parts|))
  {
    BeginGoesOn(m, s);
    var ok := (f: Feed) => GoesOn(m, s, f);
    forall k: nat | k < |m.parts| && k != j && ok(Played(s, next, j, k)) ensures ok(next(Played(s, next, j, k), k)) {
      PlayedStep(m, s, input, next, i, j, k, Played(s, next, j, k));
    }
    PlayedKeeps(s, next, j, |m.parts|, ok);
  }

  /** If the parts but for `j` and then part `i` pass, the parts fit with `i` in place of `j`. */
  lemma PassingFits(m: Message, s: Store, input: nat -> Input, next: (Feed, nat) -> Feed, i: nat, j: nat)
    requires ValidMessage(m) && Supplies(m, input) && IsEmpty(m, s) && i < |m.parts| && j < |m.parts|
    requires next == NextOf(input) && Passes(m, s, next, i, j)
    ensures Swaps(m, s, i, j)
  {
    var f := Played(s, next, j, |m.parts|);
    PlayedGoesOn(m, s, input, next, i, j);
    PlayedGot(s, next, j, |m.parts|);
    LastFits(m, s, f, input, i, j);
  }

  lemma LastFits(m: Message, s: Store, f: Feed, input: nat -> Input, i: nat, j: nat)
    requires ValidMessage(m) && Supplies(m, input) && GoesOn(m, s, f) && i < |m.parts| && j < |m.parts|
    requires Got(f) == Others(j, |m.parts|) && (IsTimely(m, Next(f, input, i)) ==> Unrefused(Next(f, input, i)))
    ensures Swaps(m, s, i, j)
  {
    NextTimely(m, s, f, input, i);
    SoloExact(m, f, i, Event(input(i), NONE));
    OthersCharged(m.parts, j, |m.parts|);
  }

  // ---- the exact condition ----

  /** With room for any part in place of any other, nothing timely is refused. */
  lemma RoomyUnrefused(m: Message, f: Feed)
    requires ValidMessage(m) && IsTimely(m, f) && Roomy(m, StartOf(f))
    ensures Unrefused(f)
  {
    TimelyIsSolo(m, f);
    SoloUnrefused(m, f);
  }

  /** Nothing timely from `s` on is refused. */
  ghost predicate NeverRefused(m: Message, s: Store)
  {
    forall f :: IsTimely(m, f) && StartOf(f) == s ==> Unrefused(f)
  }

  lemma NeverRefusedPasses(m: Message, s: Store, next: (Feed, nat) -> Feed, i: nat, j: nat)
    requires NeverRefused(m, s) && Appends(next)
    ensures Passes(m, s, next, i, j)
  {
    forall k: nat ensures StartOf(Played(s, next, j, k)) == s { PlayedGot(s, next, j, k); }
  }

  /**
   * No delivery of the parts within the timeout into an empty cache is refused, whatever the order and the
   * retransmissions, if and only if they fit the budget with any part in place of any other.
   */
  lemma NeverRefusedExactly(m: Message, s: Store, input: nat -> Input)
    requires ValidMessage(m) && Supplies(m, input) && IsEmpty(m, s)
    ensures NeverRefused(m, s) <==> Roomy(m, s)
  {
    if Roomy(m, s) {
      forall f | IsTimely(m, f) && StartOf(f) == s ensures Unrefused(f) { RoomyUnrefused(m, f); }
    }
    if NeverRefused(m, s) {
      forall i: nat, j: nat | i < |m.parts| && j < |m.parts| ensures Swaps(m, s, i, j) {
        NeverRefusedPasses(m, s, NextOf(input), i, j);
        PassingFits(m, s, input, NextOf(input), i, j);
      }
    }
  }
}
