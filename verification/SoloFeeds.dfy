/** One message with nothing else in the cache: exactly when its parts are refused. */
module SoloFeeds {
  import opened Fragments
  import opened Datagrams
  import opened Retention
  import opened Reassembly
  import opened ReassemblyInvariants
  import opened ReassemblyRuns
  import opened Indexes
  import opened Parts
  import opened Feeds

  /** Bytes of the parts below `n` that have arrived. */
  function Charged(ps: seq<Fragment>, got: seq<nat>, n: nat): (bytes: nat)
    requires n <= |ps|
  {
    if n == 0 then 0 else Charged(ps, got, n - 1) + (if n - 1 in got then |ps[n - 1].buffer.data| else 0)
  }

  /** The arriving fragment fits beside the parts already retained, in the budget and in its source's quota. */
  predicate Affordable(m: Message, s: Store, got: seq<nat>, cost: nat)
  {
    && Charged(m.parts, got, |m.parts|) + cost <= Limit(s)
    && (0 < s.maxRetainedBytesPerSource ==> Charged(m.parts, got, |m.parts|) + cost <= s.maxRetainedBytesPerSource)
  }

  ghost predicate Alone(m: Message, s: Store)
  {
    s.datagrams.Keys <= {m.key}
  }

  /** Only parts of the message arrive, in time, each affordable when it arrives. */
  ghost predicate IsSolo(m: Message, f: Feed)
  {
    match f
    case Begin(s) => Inv(s) && s.family == m.family && s.datagrams == map[]
    case Other(_, _, _) => false
    case Part(before, i, e, t) =>
      && IsSolo(m, before) && Stepped(before.store, e, t)
      && NextPart(m, before, i, e)
      && Affordable(m, before.store, Got(before), Parse(m.family, e.input).arrival.cost)
  }

  /** The message is unfinished and part `i` of it arrives within the timeout. */
  ghost predicate NextPart(m: Message, f: Feed, i: nat, e: Event)
  {
    && IsPart(m, i, e.input) && |Got(f)| < |m.parts|
    && (Got(f) != [] ==> e.input.now - Opened(f) < TIMEOUT)
  }

  // ---- what is charged ----

  lemma {:induction false} ChargedSame(ps: seq<Fragment>, got: seq<nat>, idx: seq<nat>, n: nat)
    requires n <= |ps| && SameSet(got, idx)
    ensures Charged(ps, got, n) == Charged(ps, idx, n)
  {
    if n > 0 { ChargedSame(ps, got, idx, n - 1); }
  }

  lemma {:induction false} ChargedAdded(ps: seq<Fragment>, idx: seq<nat>, i: nat, n: nat)
    requires n <= |ps| && i < |ps| && i !in idx
    ensures Charged(ps, idx + [i], n) == Charged(ps, idx, n) + if i < n then |ps[i].buffer.data| else 0
  {
    if n > 0 {
      ChargedAdded(ps, idx, i, n - 1);
      assert n - 1 in idx + [i] <==> n - 1 in idx || n - 1 == i;
    }
  }

  lemma {:induction false} ChargedNone(ps: seq<Fragment>, n: nat)
    requires n <= |ps|
    ensures Charged(ps, [], n) == 0
  {
    if n > 0 { ChargedNone(ps, n - 1); }
  }

  lemma {:induction false} LoadIsCharged(k: Key, fs: seq<Fragment>, ps: seq<Fragment>, idx: seq<nat>)
    requires Matches(fs, ps, idx)
    ensures Load(AllBytes, k, fs) == Charged(ps, idx, |ps|)
    decreases |fs|
  {
    if fs == [] {
      assert idx == [];
      ChargedNone(ps, |ps|);
    } else {
      var n := |fs| - 1;
      LoadIsCharged(k, fs[..n], ps, idx[..n]);
      assert idx == idx[..n] + [idx[n]];
      ChargedAdded(ps, idx[..n], idx[n], |ps|);
      assert Same(fs[n], ps[idx[n]]);
    }
  }

  lemma CollectedIsCharged(m: Message, k: Key, d: Datagram, got: seq<nat>)
    requires Collected(m, d, got)
    ensures Load(AllBytes, k, d.fragments) == Charged(m.parts, got, |m.parts|)
  {
    var idx :| Holds(d, m.parts, m.final, idx) && SameSet(idx, got) && |idx| == |got|;
    LoadIsCharged(k, d.fragments, m.parts, idx);
    ChargedSame(m.parts, got, idx, |m.parts|);
  }

  lemma OnlyTotal(me: Measure, m: map<Key, Datagram>, k: Key)
    requires m.Keys <= {k}
    ensures Total(me, m) == LoadAt(me, m, k)
  {
    if k in m {
      TotalRemove(me, m, k);
      assert m - {k} == map[];
    } else {
      assert m == map[];
    }
  }

  lemma SoloTotals(m: Message, t: Store, got: seq<nat>)
    requires Alone(m, t)
    requires if got == [] then m.key !in t.datagrams else m.key in t.datagrams && Collected(m, t.datagrams[m.key], got)
    ensures Total(AllBytes, t.datagrams) == Charged(m.parts, got, |m.parts|)
    ensures Total(BytesOf(m.key.source), t.datagrams) == Charged(m.parts, got, |m.parts|)
  {
    OnlyTotal(AllBytes, t.datagrams, m.key);
    OnlyTotal(BytesOf(m.key.source), t.datagrams, m.key);
    if got == [] {
      ChargedNone(m.parts, |m.parts|);
    } else {
      CollectedIsCharged(m, m.key, t.datagrams[m.key], got);
      LoadWithinAll(m.key.source, m.key, t.datagrams[m.key].fragments);
    }
  }

  // ---- the exact condition ----

  lemma RoomIffAffordable(m: Message, s: Store, t: Store, got: seq<nat>, a: Arrival)
    requires SameSettings(s, t) && Alone(m, t) && a.key == m.key
    requires if got == [] then m.key !in t.datagrams else m.key in t.datagrams && Collected(m, t.datagrams[m.key], got)
    ensures Room(t, a) <==> Affordable(m, s, got, a.cost)
  {
    SoloTotals(m, t, got);
  }

  lemma AdmittedIffAffordable(m: Message, s: Store, e: Event, i: nat, got: seq<nat>, since: int)
    requires ValidMessage(m) && Inv(s) && s.family == m.family && Alone(m, s) && Tracks(m, s, got, since)
    requires Legal(s, e.input, e.releases) && IsPart(m, i, e.input) && |got| < |m.parts|
    requires got != [] ==> e.input.now - since < TIMEOUT
    ensures var a := Parse(m.family, e.input).arrival;
            Admitted(s, e, a) <==> Affordable(m, s, got, a.cost)
  {
    var a := Parse(m.family, e.input).arrival;
    StepPieceReady(s, a, e.input, e.releases);
    SweptDatagrams(s, e.input, e.releases);
    if got == [] {
      EvictedInv(s, e.releases, a);
      RoomIffAffordable(m, s, Evicted(s, e.releases), got, a);
    } else {
      RoomIffAffordable(m, s, Swept(s, e.releases), got, a);
    }
  }

  lemma {:induction false} SoloIsFeed(m: Message, f: Feed)
    requires ValidMessage(m) && IsSolo(m, f)
    ensures IsFeed(m, f) && Alone(m, f.store)
  {
    if f.Part? {
      SoloIsFeed(m, f.before);
      FeedTracks(m, f.before);
      AdmittedIffAffordable(m, f.before.store, f.event, f.index, Got(f.before), Opened(f.before));
      SoloStays(m, f.before.store, f.event, f.index);
    }
  }

  lemma SoloStays(m: Message, s: Store, e: Event, i: nat)
    requires Inv(s) && s.family == m.family && Alone(m, s) && Legal(s, e.input, e.releases) && IsPart(m, i, e.input)
    ensures Alone(m, Step(s, e.input, e.releases).1)
  {
    forall k | k in Step(s, e.input, e.releases).1.datagrams && k != m.key ensures false {
      StepFrame(s, e, k);
    }
  }

  /**
   * A part of a lone message is refused exactly when it does not fit beside the parts retained so
   * far, a retransmission included; otherwise the last missing part delivers the packet.
   */
  lemma SoloExact(m: Message, f: Feed, i: nat, e: Event)
    requires ValidMessage(m) && IsSolo(m, f) && Legal(f.store, e.input, e.releases) && NextPart(m, f, i, e)
    ensures ResultOf(f.store, e) == Rejected <==> !Affordable(m, f.store, Got(f), Parse(m.family, e.input).arrival.cost)
    ensures ResultOf(f.store, e) != Rejected ==> Answers(m, Got(f), i, ResultOf(f.store, e))
  {
    SoloIsFeed(m, f);
    FeedTracks(m, f);
    AdmittedIffAffordable(m, f.store, e, i, Got(f), Opened(f));
    if Admitted(f.store, e, Parse(m.family, e.input).arrival) {
      PartStep(m, f.store, e, i, Got(f), Opened(f));
    }
  }

  // ---- when the bytes of the parts are enough ----

  predicate Budgeted(s: Store, bytes: int)
  {
    bytes <= Limit(s) && (0 < s.maxRetainedBytesPerSource ==> bytes <= s.maxRetainedBytesPerSource)
  }

  function Size(ps: seq<Fragment>, n: nat): (bytes: nat)
    requires n <= |ps|
  {
    if n == 0 then 0 else Size(ps, n - 1) + |ps[n - 1].buffer.data|
  }

  lemma {:induction false} ChargedAtMost(ps: seq<Fragment>, got: seq<nat>, i: nat, n: nat)
    requires i < n <= |ps| && i !in got
    ensures Charged(ps, got, n) + |ps[i].buffer.data| <= Size(ps, n)
  {
    if i < n - 1 { ChargedAtMost(ps, got, i, n - 1); } else { ChargedBelow(ps, got, n - 1); }
  }

  lemma {:induction false} ChargedBelow(ps: seq<Fragment>, got: seq<nat>, n: nat)
    requires n <= |ps|
    ensures Charged(ps, got, n) <= Size(ps, n)
  {
    if n > 0 { ChargedBelow(ps, got, n - 1); }
  }

  /** Without retransmissions it is enough that all the parts together fit the budget and the quota. */
  lemma DistinctPartsFit(m: Message, s: Store, got: seq<nat>, i: nat, a: Arrival)
    requires PartOf(m.parts, i, a) && i !in got && a.cost == |a.fragment.buffer.data|
    requires Budgeted(s, Size(m.parts, |m.parts|))
    ensures Affordable(m, s, got, a.cost)
  {
    ChargedAtMost(m.parts, got, i, |m.parts|);
  }

  /** With retransmissions it is enough that the parts fit with the repeated one in place of one that is missing. */
  lemma RepeatedPartFits(m: Message, s: Store, got: seq<nat>, i: nat, missing: nat, a: Arrival)
    requires PartOf(m.parts, i, a) && missing < |m.parts| && missing !in got && a.cost == |a.fragment.buffer.data|
    requires Budgeted(s, Size(m.parts, |m.parts|) - |m.parts[missing].buffer.data| + a.cost)
    ensures Affordable(m, s, got, a.cost)
  {
    ChargedAtMost(m.parts, got, missing, |m.parts|);
  }

  // ---- a budget that is enough for every order ----

  /** Only parts of the message arrive, in time, each charged its own bytes; whether they fit is not said. */
  ghost predicate IsTimely(m: Message, f: Feed)
  {
    match f
    case Begin(s) => Inv(s) && s.family == m.family && s.datagrams == map[]
    case Other(_, _, _) => false
    case Part(before, i, e, t) =>
      && IsTimely(m, before) && Stepped(before.store, e, t) && NextPart(m, before, i, e)
      && i < |m.parts| && Parse(m.family, e.input).arrival.cost == |m.parts[i].buffer.data|
  }

  function StartOf(f: Feed): (s: Store) { if f.Begin? then f.store else StartOf(f.before) }

  /** The parts fit the budget and the quota with `i` once more in place of `j`. */
  predicate Swaps(m: Message, s: Store, i: nat, j: nat)
    requires i < |m.parts| && j < |m.parts|
  {
    Budgeted(s, Size(m.parts, |m.parts|) - |m.parts[j].buffer.data| + |m.parts[i].buffer.data|)
  }

  /** The parts fit with any of them in place of any other, so that together they fit as well. */
  ghost predicate Roomy(m: Message, s: Store)
  {
    forall i: nat, j: nat :: i < |m.parts| && j < |m.parts| ==> Swaps(m, s, i, j)
  }

  /** With that much room no order and no retransmission meets a refusal. */
  lemma {:induction false} TimelyIsSolo(m: Message, f: Feed)
    requires ValidMessage(m) && IsTimely(m, f) && Roomy(m, StartOf(f))
    ensures IsSolo(m, f) && SameSettings(StartOf(f), f.store)
  {
    if f.Part? {
      TimelyIsSolo(m, f.before);
      SoloIsFeed(m, f.before);
      FeedTracks(m, f.before);
      StepSettings(f.before.store, f.event.input, f.event.releases);
      var j := SomeMissing(Got(f.before), |m.parts|);
      ChargedAtMost(m.parts, Got(f.before), j, |m.parts|);
      assert Swaps(m, StartOf(f), f.index, j);
    }
  }
}
