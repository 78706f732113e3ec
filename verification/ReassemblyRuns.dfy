/** Whole runs of the reassembly cache, over any interleaving of fragments of any number of datagrams. */
module ReassemblyRuns {
  import opened Bytes
  import opened Fragments
  import opened Datagrams
  import opened Assembly
  import opened Retention
  import opened Reassembly
  import opened ReassemblyInvariants

  // ---- one step ----

  lemma StepPieceReady(s: Store, a: Arrival, input: Input, ev: Releases)
    requires Inv(s) && Legal(s, input, ev) && Parse(s.family, input) == Piece(a)
    ensures var t := Swept(s, ev);
            && Inv(t) && SameSettings(s, t)
            && (a.key in t.datagrams && Room(t, a) ==> Ready(t, t.datagrams[a.key], a))
    ensures a.key !in Swept(s, ev).datagrams ==>
              var u := Evicted(s, ev);
              Inv(u) && SameSettings(s, u) && a.key !in u.datagrams && (Room(u, a) ==> Ready(u, Fresh(input.now), a))
  {
    ParseWellFormed(s.family, input);
    SweptInv(s, ev);
    var t := Swept(s, ev);
    if a.key in t.datagrams {
      assert Sound(t.family, a.key, t.datagrams[a.key]);
    } else {
      EvictedInv(s, ev, a);
      assert Partial(s.family, Fresh(input.now));
    }
  }

  lemma StepInv(s: Store, input: Input, ev: Releases)
    requires Inv(s) && Legal(s, input, ev)
    ensures Inv(Step(s, input, ev).1)
  {
    match Parse(s.family, input)
    case NotFragment =>
    case Malformed(k) =>
      SweptInv(s, ev);
      DropInv(Swept(s, ev), k);
      ReturnInv(Drop(Swept(s, ev), k), input.buffer.id);
    case Piece(a) =>
      StepPieceReady(s, a, input, ev);
      StepPieceInv(s, a, input, ev);
  }

  lemma StepPieceInv(s: Store, a: Arrival, input: Input, ev: Releases)
    requires Inv(s) && Legal(s, input, ev) && Parse(s.family, input) == Piece(a)
    ensures Inv(StepPiece(s, a, input, ev).1)
  {
    StepPieceReady(s, a, input, ev);
    var t := Swept(s, ev);
    if a.key in t.datagrams {
      if Room(t, a) {
        TakeInv(t, t.datagrams[a.key], a, input);
      } else {
        DropInv(t, a.key);
        ReturnInv(Drop(t, a.key), input.buffer.id);
      }
    } else {
      var u := Evicted(s, ev);
      if Room(u, a) { TakeInv(u, Fresh(input.now), a, input); } else { ReturnInv(u, input.buffer.id); }
    }
  }

  lemma StepSettings(s: Store, input: Input, ev: Releases)
    requires Inv(s) && Legal(s, input, ev)
    ensures SameSettings(s, Step(s, input, ev).1)
  {
    match Parse(s.family, input)
    case NotFragment =>
    case Malformed(k) =>
      SweptInv(s, ev);
      DropInv(Swept(s, ev), k);
    case Piece(a) =>
      StepPieceReady(s, a, input, ev);
      var t := Swept(s, ev);
      if a.key in t.datagrams {
        DropInv(t, a.key);
        TakeSettings(t, t.datagrams[a.key], a, input);
      } else {
        TakeSettings(Evicted(s, ev), Fresh(input.now), a, input);
      }
  }

  // ---- ownership ----

  function One(b: bool): (n: nat) { if b then 1 else 0 }

  function CountIds(bs: seq<Buffer>, id: nat): (n: nat)
  {
    if bs == [] then 0 else CountIds(bs[..|bs| - 1], id) + One(bs[|bs| - 1].id == id)
  }

  /** Copies of the buffer `id` that leave with the result. */
  function PassedOn(input: Input, r: Result, id: nat): (n: nat)
  {
    match r
    case Unfragmented => One(input.buffer.id == id)
    case Completed(_, fragments) => CountIds(fragments, id)
    case _ => 0
  }

  lemma {:induction false} HandedBackIds(family: Family, k: Key, fs: seq<Fragment>, identification: uint32, id: nat)
    ensures CountIds(HandedBack(family, fs, identification), id) == Load(CopiesOf(id), k, fs)
  {
    if fs != [] {
      var n := |fs| - 1;
      HandedBackIds(family, k, fs[..n], identification, id);
      assert HandedBack(family, fs, identification)[..n] == HandedBack(family, fs[..n], identification);
    }
  }

  ghost predicate Owns(s: Store, input: Input, r: Result, t: Store, id: nat)
  {
    Answered(t, id) + PassedOn(input, r, id) == Answered(s, id) + One(input.buffer.id == id)
  }

  /** `d` is what the cache holds under `k`, if it holds anything. */
  ghost predicate Current(s: Store, k: Key, d: Datagram)
  {
    if k in s.datagrams then d == s.datagrams[k] else d.fragments == []
  }

  lemma RejectOwns(s: Store, d: Datagram, k: Key, input: Input, id: nat)
    requires Current(s, k, d)
    ensures Owns(s, input, Rejected, Return(Drop(Put(s, k, d), k), input.buffer.id), id)
  {
    TotalStore(CopiesOf(id), s.datagrams, k, d);
    DropAnswered(Put(s, k, d), k, id);
  }

  lemma DuplicateOwns(s: Store, d: Datagram, k: Key, input: Input, id: nat)
    requires Current(s, k, d)
    ensures Owns(s, input, Held, Return(Put(s, k, d.(updatedAt := input.now)), input.buffer.id), id)
  {
    TotalStore(CopiesOf(id), s.datagrams, k, d.(updatedAt := input.now));
  }

  lemma HoldOwns(s: Store, d: Datagram, e: Datagram, k: Key, input: Input, id: nat)
    requires Current(s, k, d)
    requires Load(CopiesOf(id), k, e.fragments) == Load(CopiesOf(id), k, d.fragments) + One(input.buffer.id == id)
    ensures Owns(s, input, Held, Put(s, k, Settled(e)), id)
  {
    LoadSettled(CopiesOf(id), k, e);
    TotalStore(CopiesOf(id), s.datagrams, k, Settled(e));
  }

  lemma FinishOwns(s: Store, d: Datagram, e: Datagram, k: Key, input: Input, id: nat)
    requires Current(s, k, d)
    requires Load(CopiesOf(id), k, e.fragments) == Load(CopiesOf(id), k, d.fragments) + One(input.buffer.id == id)
    ensures Owns(s, input, Finish(s, e, k, input).0, Finish(s, e, k, input).1, id)
  {
    var fs := Sorted(e.fragments);
    LoadSorted(CopiesOf(id), k, e.fragments);
    TotalDrop(CopiesOf(id), s.datagrams, k);
    HandedBackIds(s.family, k, fs, input.identification, id);
    IdsAreCopies(k, fs, id);
  }

  lemma TakeOwns(s: Store, d: Datagram, a: Arrival, input: Input, id: nat)
    requires a.fragment.buffer.id == input.buffer.id && Current(s, a.key, d)
    ensures var (r, t) := Take(s, d, a, input); Owns(s, input, r, t, id)
  {
    match Offer(s.family, d, a, input.now)
    case Reject => RejectOwns(s, d, a.key, input, id);
    case Duplicate(e) => DuplicateOwns(s, d, a.key, input, id);
    case Keep(e) =>
      LoadGrows(CopiesOf(id), a.key, d, a, input.now);
      if Complete(e) { FinishOwns(s, d, e, a.key, input, id); } else { HoldOwns(s, d, e, a.key, input, id); }
  }

  lemma EvictedAnswered(s: Store, ev: Releases, id: nat)
    ensures Answered(Swept(s, ev), id) == Answered(s, id)
    ensures Answered(Evicted(s, ev), id) == Answered(s, id)
  {
    var t := Swept(s, ev);
    DropAllAnswered(s, ev.expired, id);
    DropAllAnswered(t, ev.slot, id);
    DropAllAnswered(DropAll(t, ev.slot), ev.space, id);
    DropAllAnswered(DropAll(DropAll(t, ev.slot), ev.space), ev.share, id);
  }

  lemma StepPieceOwns(s: Store, a: Arrival, input: Input, ev: Releases, id: nat)
    requires Inv(s) && Legal(s, input, ev) && Parse(s.family, input) == Piece(a)
    ensures var (r, t) := StepPiece(s, a, input, ev); Owns(s, input, r, t, id)
  {
    ParseWellFormed(s.family, input);
    EvictedAnswered(s, ev, id);
    var t := Swept(s, ev);
    if a.key in t.datagrams {
      if Room(t, a) {
        TakeOwns(t, t.datagrams[a.key], a, input, id);
      } else {
        DropAnswered(t, a.key, id);
      }
    } else {
      EvictedInv(s, ev, a);
      if Room(Evicted(s, ev), a) { TakeOwns(Evicted(s, ev), Fresh(input.now), a, input, id); }
    }
  }

  /** Each input buffer is afterwards retained, returned or passed on, and so is every buffer held before. */
  lemma StepOwns(s: Store, input: Input, ev: Releases, id: nat)
    requires Inv(s) && Legal(s, input, ev)
    ensures var (r, t) := Step(s, input, ev); Owns(s, input, r, t, id)
  {
    match Parse(s.family, input)
    case NotFragment =>
    case Malformed(k) =>
      EvictedAnswered(s, ev, id);
      DropAnswered(Swept(s, ev), k, id);
    case Piece(a) => StepPieceOwns(s, a, input, ev, id);
  }

  // ---- what a step leaves alone ----

  /** Outside `k` nothing changes; under `k` only the age is kept and fragments come from `d` or `f`. */
  ghost predicate Touches(m: map<Key, Datagram>, k: Key, d: Datagram, f: Fragment, n: map<Key, Datagram>)
  {
    && (forall j :: j in n && j != k ==> j in m && n[j] == m[j])
    && (forall j :: j in m && j != k ==> j in n)
    && (k in n ==>
          && n[k].createdAt == d.createdAt
          && forall i :: 0 <= i < |n[k].fragments| ==> n[k].fragments[i] in d.fragments || n[k].fragments[i] == f)
  }

  lemma SettledMembers(d: Datagram, a: Arrival, now: int)
    ensures var fs := Settled(With(d, a, now)).fragments;
            forall i :: 0 <= i < |fs| ==> fs[i] in d.fragments || fs[i] == a.fragment
  {
    var e := With(d, a, now);
    forall i | 0 <= i < |Settled(e).fragments|
      ensures Settled(e).fragments[i] in d.fragments || Settled(e).fragments[i] == a.fragment
    {
      SortedFacts(e.fragments);
      var j := SameMembers(Sorted(e.fragments), e.fragments, i);
    }
  }

  lemma TakeTouches(s: Store, d: Datagram, a: Arrival, input: Input)
    ensures Touches(s.datagrams, a.key, d, a.fragment, Take(s, d, a, input).1.datagrams)
  {
    SettledMembers(d, a, input.now);
  }

  lemma SweptDatagrams(s: Store, input: Input, ev: Releases)
    requires Legal(s, input, ev) && !Parse(s.family, input).NotFragment?
    ensures forall k :: k in Swept(s, ev).datagrams <==> k in s.datagrams && !Stale(s.datagrams[k], input.now)
    ensures forall k :: k in Swept(s, ev).datagrams ==> Swept(s, ev).datagrams[k] == s.datagrams[k]
  {
    DropAllDatagrams(s, ev.expired);
  }

  ghost predicate AllFresh(m: map<Key, Datagram>, now: int)
  {
    forall k :: k in m ==> !Stale(m[k], now)
  }

  lemma TakeFresh(s: Store, d: Datagram, a: Arrival, input: Input)
    requires AllFresh(s.datagrams, input.now) && !Stale(d, input.now)
    ensures AllFresh(Take(s, d, a, input).1.datagrams, input.now)
  {
    TakeTouches(s, d, a, input);
  }

  lemma StepPieceFresh(s: Store, a: Arrival, input: Input, ev: Releases)
    requires Inv(s) && Legal(s, input, ev) && Parse(s.family, input) == Piece(a)
    ensures AllFresh(StepPiece(s, a, input, ev).1.datagrams, input.now)
  {
    SweptDatagrams(s, input, ev);
    var t := Swept(s, ev);
    assert AllFresh(t.datagrams, input.now);
    if a.key in t.datagrams {
      if Room(t, a) { TakeFresh(t, t.datagrams[a.key], a, input); }
    } else {
      EvictedInv(s, ev, a);
      var u := Evicted(s, ev);
      assert AllFresh(u.datagrams, input.now);
      if Room(u, a) { TakeFresh(u, Fresh(input.now), a, input); }
    }
  }

  /** After a fragment is processed no datagram is 15 seconds old or more. */
  lemma StepFresh(s: Store, input: Input, ev: Releases)
    requires Inv(s) && Legal(s, input, ev) && !Parse(s.family, input).NotFragment?
    ensures AllFresh(Step(s, input, ev).1.datagrams, input.now)
  {
    SweptDatagrams(s, input, ev);
    var parsed := Parse(s.family, input);
    if parsed.Piece? { StepPieceFresh(s, parsed.arrival, input, ev); }
  }

  // ---- where retained fragments come from ----

  /** `input` is a well-formed fragment `f` of the datagram `k`. */
  ghost predicate Carries(family: Family, input: Input, k: Key, f: Fragment)
  {
    var parsed := Parse(family, input);
    parsed.Piece? && parsed.arrival.key == k && parsed.arrival.fragment == f
  }

  ghost predicate CameIn(family: Family, history: seq<Input>, k: Key, f: Fragment)
  {
    exists i :: 0 <= i < |history| && Carries(family, history[i], k, f)
  }

  ghost predicate AllCameIn(family: Family, history: seq<Input>, k: Key, fs: seq<Fragment>)
  {
    forall i :: 0 <= i < |fs| ==> CameIn(family, history, k, fs[i])
  }

  ghost predicate Traceable(s: Store, history: seq<Input>)
  {
    forall k :: k in s.datagrams ==> AllCameIn(s.family, history, k, s.datagrams[k].fragments)
  }

  lemma CameInLater(family: Family, history: seq<Input>, input: Input, k: Key, fs: seq<Fragment>)
    requires AllCameIn(family, history, k, fs)
    ensures AllCameIn(family, history + [input], k, fs)
  {
    forall i | 0 <= i < |fs| ensures CameIn(family, history + [input], k, fs[i]) {
      var j :| 0 <= j < |history| && Carries(family, history[j], k, fs[i]);
      assert (history + [input])[j] == history[j];
    }
  }

  lemma CameInNow(family: Family, history: seq<Input>, input: Input, a: Arrival)
    requires Parse(family, input) == Piece(a)
    ensures CameIn(family, history + [input], a.key, a.fragment)
  {
    assert Carries(family, (history + [input])[|history|], a.key, a.fragment);
  }

  lemma TakeTraceable(s: Store, d: Datagram, a: Arrival, input: Input, history: seq<Input>)
    requires Parse(s.family, input) == Piece(a)
    requires Traceable(s, history + [input]) && AllCameIn(s.family, history + [input], a.key, d.fragments)
    ensures Traceable(Take(s, d, a, input).1, history + [input])
  {
    CameInNow(s.family, history, input, a);
    TakeTouches(s, d, a, input);
    TakeSettings(s, d, a, input);
    var n := Take(s, d, a, input).1.datagrams;
    if a.key in n {
      TouchedCameIn(s.family, history + [input], a.key, d.fragments, a.fragment, n[a.key].fragments);
    }
  }

  lemma TouchedCameIn(family: Family, history: seq<Input>, k: Key, fs: seq<Fragment>, f: Fragment, gs: seq<Fragment>)
    requires AllCameIn(family, history, k, fs) && CameIn(family, history, k, f)
    requires forall i :: 0 <= i < |gs| ==> gs[i] in fs || gs[i] == f
    ensures AllCameIn(family, history, k, gs)
  {
    forall i | 0 <= i < |gs| ensures CameIn(family, history, k, gs[i]) {
      if gs[i] != f {
        var j :| 0 <= j < |fs| && fs[j] == gs[i];
      }
    }
  }

  lemma StoreLater(s: Store, t: Store, history: seq<Input>, input: Input)
    requires Traceable(s, history) && t.family == s.family
    requires forall k :: k in t.datagrams ==> k in s.datagrams && t.datagrams[k] == s.datagrams[k]
    ensures Traceable(t, history + [input])
  {
    forall k | k in t.datagrams ensures AllCameIn(t.family, history + [input], k, t.datagrams[k].fragments) {
      CameInLater(s.family, history, input, k, s.datagrams[k].fragments);
    }
  }

  lemma StepTraceable(s: Store, input: Input, ev: Releases, history: seq<Input>)
    requires Inv(s) && Legal(s, input, ev) && Traceable(s, history)
    ensures Traceable(Step(s, input, ev).1, history + [input])
  {
    StoreLater(s, s, history, input);
    var parsed := Parse(s.family, input);
    if !parsed.NotFragment? {
      SweptDatagrams(s, input, ev);
      SweptInv(s, ev);
      StoreLater(s, Swept(s, ev), history, input);
    }
    if parsed.Piece? { StepPieceTraceable(s, parsed.arrival, input, ev, history); }
  }

  lemma StepPieceTraceable(s: Store, a: Arrival, input: Input, ev: Releases, history: seq<Input>)
    requires Inv(s) && Legal(s, input, ev) && Parse(s.family, input) == Piece(a)
    requires Traceable(s, history) && Traceable(Swept(s, ev), history + [input])
    ensures Traceable(StepPiece(s, a, input, ev).1, history + [input])
  {
    StepPieceReady(s, a, input, ev);
    var t := Swept(s, ev);
    if a.key in t.datagrams {
      if Room(t, a) { TakeTraceable(t, t.datagrams[a.key], a, input, history); }
    } else {
      EvictedInv(s, ev, a);
      var u := Evicted(s, ev);
      assert Traceable(u, history + [input]);
      if Room(u, a) { TakeTraceable(u, Fresh(input.now), a, input, history); }
    }
  }

  // ---- what a completed packet is made of ----

  /** `p` is the packet of the well-formed tiling `fs` of at most 64 fragments, and its length fits its header. */
  ghost predicate Assembles(family: Family, fs: seq<Fragment>, p: seq<byte>)
  {
    && 0 < |fs| <= MAX_FRAGMENTS && Tiles(fs, End(fs[|fs| - 1]))
    && (forall i :: 0 <= i < |fs| ==> WellFormed(family, fs[i]))
    && Fits(family, fs[0].prefix, End(fs[|fs| - 1]))
    && p == Whole(family, fs)
  }

  lemma CompleteAssembles(family: Family, e: Datagram)
    requires Partial(family, e) && Complete(e)
    ensures Assembles(family, Sorted(e.fragments), Whole(family, Sorted(e.fragments)))
  {
    var fs := Sorted(e.fragments);
    SettledPartial(family, e);
    assert Settled(e).fragments == fs;
    assert FirstIs(e, fs[0]);
  }

  lemma TakeAssembles(s: Store, d: Datagram, a: Arrival, input: Input) returns (fs: seq<Fragment>)
    requires Ready(s, d, a) && Take(s, d, a, input).0.Completed?
    ensures Assembles(s.family, fs, Take(s, d, a, input).0.packet)
    ensures Take(s, d, a, input).0.fragments ==
              if input.retainCompleted then HandedBack(s.family, fs, input.identification) else []
    ensures multiset(fs) == multiset(d.fragments) + multiset{a.fragment}
  {
    OfferKeepsPartial(s.family, d, a, input.now);
    var e := With(d, a, input.now);
    fs := Sorted(e.fragments);
    CompleteAssembles(s.family, e);
    SortedFacts(e.fragments);
  }

  /** The fragments retained under `k` that have not timed out. */
  function HeldFor(s: Store, k: Key, now: int): (fs: seq<Fragment>)
  {
    if k in s.datagrams && !Stale(s.datagrams[k], now) then s.datagrams[k].fragments else []
  }

  lemma MadeOf(fs: seq<Fragment>, held: seq<Fragment>, f: Fragment)
    requires multiset(fs) == multiset(held) + multiset{f}
    ensures forall i :: 0 <= i < |fs| ==> fs[i] in held || fs[i] == f
  {
    forall i | 0 <= i < |fs| ensures fs[i] in held || fs[i] == f { assert fs[i] in multiset(fs); }
  }

  lemma StepAssembles(s: Store, input: Input, ev: Releases) returns (fs: seq<Fragment>)
    requires Inv(s) && Legal(s, input, ev) && Step(s, input, ev).0.Completed?
    ensures Parse(s.family, input).Piece? && Assembles(s.family, fs, Step(s, input, ev).0.packet)
    ensures Step(s, input, ev).0.fragments ==
              if input.retainCompleted then HandedBack(s.family, fs, input.identification) else []
    ensures var a := Parse(s.family, input).arrival;
            multiset(fs) == multiset(HeldFor(s, a.key, input.now)) + multiset{a.fragment}
  {
    var a := Parse(s.family, input).arrival;
    StepPieceReady(s, a, input, ev);
    SweptDatagrams(s, input, ev);
    var t := Swept(s, ev);
    if a.key in t.datagrams {
      fs := TakeAssembles(t, t.datagrams[a.key], a, input);
    } else {
      fs := TakeAssembles(Evicted(s, ev), Fresh(input.now), a, input);
    }
  }

  lemma MadeOfArrived(s: Store, input: Input, history: seq<Input>, fs: seq<Fragment>)
    requires Traceable(s, history) && Parse(s.family, input).Piece?
    requires var a := Parse(s.family, input).arrival;
             multiset(fs) == multiset(HeldFor(s, a.key, input.now)) + multiset{a.fragment}
    ensures AllCameIn(s.family, history + [input], Parse(s.family, input).arrival.key, fs)
  {
    var a := Parse(s.family, input).arrival;
    var held := HeldFor(s, a.key, input.now);
    CameInNow(s.family, history, input, a);
    CameInLater(s.family, history, input, a.key, held);
    MadeOf(fs, held, a.fragment);
    TouchedCameIn(s.family, history + [input], a.key, held, a.fragment, fs);
  }

  // ---- runs ----

  datatype Event = Event(input: Input, releases: Releases)

  ghost predicate Stepped(s: Store, e: Event, t: Store)
  {
    Legal(s, e.input, e.releases) && t == Step(s, e.input, e.releases).1
  }

  ghost function ResultOf(s: Store, e: Event): (r: Result)
  {
    Step(s, e.input, e.releases).0
  }

  ghost predicate Starts(s: Store)
  {
    s.datagrams == map[] && s.returned == multiset{}
  }

  /** A run: an empty cache, then one event and the cache it leaves at a time. */
  datatype Run = Start(store: Store) | Then(before: Run, event: Event, store: Store)

  ghost predicate IsRun(r: Run)
  {
    match r
    case Start(s) => Starts(s)
    case Then(before, e, t) => IsRun(before) && Stepped(before.store, e, t)
  }

  function Inputs(r: Run): (inputs: seq<Input>)
  {
    if r.Start? then [] else Inputs(r.before) + [r.event.input]
  }

  lemma StartInv(s: Store)
    requires Starts(s)
    ensures Inv(s) && Traceable(s, []) && forall id :: Answered(s, id) == 0
  {
  }

  lemma SteppedInv(s: Store, e: Event, t: Store)
    requires Inv(s) && Stepped(s, e, t)
    ensures Inv(t) && SameSettings(s, t)
  {
    StepInv(s, e.input, e.releases);
    StepSettings(s, e.input, e.releases);
  }

  lemma SteppedTraceable(s: Store, e: Event, t: Store, history: seq<Input>)
    requires Inv(s) && Stepped(s, e, t) && Traceable(s, history)
    ensures Traceable(t, history + [e.input])
  {
    StepTraceable(s, e.input, e.releases, history);
  }

  /** Every reachable cache satisfies the invariant. */
  lemma {:induction false} RunInv(r: Run)
    requires IsRun(r)
    ensures Inv(r.store)
  {
    match r
    case Start(s) => StartInv(s);
    case Then(before, e, t) =>
      RunInv(before);
      SteppedInv(before.store, e, t);
  }

  lemma {:induction false} RunTraceable(r: Run)
    requires IsRun(r)
    ensures Traceable(r.store, Inputs(r))
  {
    match r
    case Start(s) => StartInv(s);
    case Then(before, e, t) =>
      RunInv(before);
      RunTraceable(before);
      SteppedTraceable(before.store, e, t, Inputs(before));
  }

  /**
   * In every run, a reassembled packet is the packet of a gapless tiling of well-formed fragments: exactly the
   * completing one and those the cache still retains under its key, none of them timed out, all of which arrived.
   */
  lemma RunSound(r: Run) returns (fs: seq<Fragment>)
    requires IsRun(r) && r.Then? && ResultOf(r.before.store, r.event).Completed?
    ensures Assembles(r.before.store.family, fs, ResultOf(r.before.store, r.event).packet)
    ensures Parse(r.before.store.family, r.event.input).Piece?
    ensures var a := Parse(r.before.store.family, r.event.input).arrival;
            && multiset(fs) == multiset(HeldFor(r.before.store, a.key, r.event.input.now)) + multiset{a.fragment}
            && AllCameIn(r.before.store.family, Inputs(r), a.key, fs)
  {
    RunInv(r.before);
    RunTraceable(r.before);
    fs := StepAssembles(r.before.store, r.event.input, r.event.releases);
    MadeOfArrived(r.before.store, r.event.input, Inputs(r.before), fs);
  }

  /** After a fragment is processed no datagram is 15 seconds old or more. */
  lemma RunFresh(r: Run)
    requires IsRun(r) && r.Then? && ResultOf(r.before.store, r.event) != Unfragmented
    ensures forall k :: k in r.store.datagrams ==>
              r.event.input.now - r.store.datagrams[k].createdAt < 15_000_000_000
  {
    RunInv(r.before);
    StepFresh(r.before.store, r.event.input, r.event.releases);
  }

  /** How often the buffer `id` was handed in over the run. */
  function Arrived(r: Run, id: nat): (n: nat)
  {
    if r.Start? then 0 else Arrived(r.before, id) + One(r.event.input.buffer.id == id)
  }

  /** How often it left with a result. */
  ghost function Left(r: Run, id: nat): (n: nat)
  {
    if r.Start? then 0 else Left(r.before, id) + PassedOn(r.event.input, ResultOf(r.before.store, r.event), id)
  }

  /** In every run, each buffer handed in is retained, returned or passed on, exactly as often as it came. */
  lemma {:induction false} RunOwns(r: Run, id: nat)
    requires IsRun(r)
    ensures Arrived(r, id) == r.store.returned[id] + Total(CopiesOf(id), r.store.datagrams) + Left(r, id)
  {
    match r
    case Start(s) =>
      StartInv(s);
      assert Answered(s, id) == 0;
    case Then(before, e, t) =>
      RunInv(before);
      RunOwns(before, id);
      StepOwns(before.store, e.input, e.releases, id);
  }
}
