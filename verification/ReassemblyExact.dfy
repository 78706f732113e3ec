/** What every packet does to the reassembly cache, stated on the bytes retained and the bytes that arrive. */
module ReassemblyExact {
  import opened Fragments
  import opened Datagrams
  import opened Assembly
  import opened Coverage
  import opened Reassembly
  import opened ReassemblyInvariants
  import opened ReassemblyRuns
  import opened Feeds

  // ---- the end a datagram knows is that of its last fragment ----

  /** The final length is known exactly when a fragment without the more-fragments flag is there, and is its end. */
  ghost predicate Announced(family: Family, d: Datagram)
  {
    && (forall i :: 0 <= i < |d.fragments| && !HasMore(family, d.fragments[i]) ==> d.final == End(d.fragments[i]))
    && (0 <= d.final ==> HasLast(family, d.fragments))
  }

  ghost predicate HasLast(family: Family, fs: seq<Fragment>)
  {
    exists i :: 0 <= i < |fs| && !HasMore(family, fs[i])
  }

  ghost predicate AllAnnounced(s: Store)
  {
    forall k :: k in s.datagrams ==> Announced(s.family, s.datagrams[k])
  }

  lemma EndedAnnounced(family: Family, d: Datagram, a: Arrival, now: int)
    requires Partial(family, d) && Announced(family, d) && WellFormedArrival(family, a)
    requires (a.more <==> HasMore(family, a.fragment)) && !WrongEnd(d, a)
    requires forall i :: 0 <= i < |d.fragments| ==> !Overlap(a.fragment, d.fragments[i])
    ensures Announced(family, With(d, a, now))
  {
    var e, n := With(d, a, now), |d.fragments|;
    forall i | 0 <= i < |e.fragments| && !HasMore(family, e.fragments[i]) ensures e.final == End(e.fragments[i]) {
      if i < n { assert e.fragments[i] == d.fragments[i] && !Overlap(a.fragment, d.fragments[i]); }
    }
    if 0 <= e.final && a.more {
      var i :| 0 <= i < n && !HasMore(family, d.fragments[i]);
      assert e.fragments[i] == d.fragments[i];
    }
    if !a.more { assert e.fragments[n] == a.fragment; }
  }

  lemma WithAnnounced(family: Family, d: Datagram, a: Arrival, now: int)
    requires Partial(family, d) && Announced(family, d) && WellFormedArrival(family, a)
    requires (a.more <==> HasMore(family, a.fragment)) && Offer(family, d, a, now).Keep?
    ensures Announced(family, With(d, a, now))
  {
    ScanClear(d.fragments, a.fragment, 0);
    EndedAnnounced(family, d, a, now);
  }

  lemma SettledAnnounced(family: Family, d: Datagram)
    requires Announced(family, d)
    ensures Announced(family, Settled(d))
  {
    SortedFacts(d.fragments);
    var fs := Sorted(d.fragments);
    forall i | 0 <= i < |fs| && !HasMore(family, fs[i]) ensures d.final == End(fs[i]) {
      var j := SameMembers(fs, d.fragments, i);
    }
    if 0 <= d.final {
      var i :| 0 <= i < |d.fragments| && !HasMore(family, d.fragments[i]);
      var j := SameMembers(d.fragments, fs, i);
    }
  }

  /** What an admitted fragment leaves in the cache, by what its datagram makes of it. */
  lemma TakeLeaves(s: Store, d: Datagram, a: Arrival, input: Input)
    ensures var (r, t) := Take(s, d, a, input);
            && t.family == s.family
            && match Offer(s.family, d, a, input.now)
               case Reject => r == Rejected && t.datagrams == s.datagrams - {a.key}
               case Duplicate(e) => r == Held && t.datagrams == s.datagrams[a.key := e]
               case Keep(e) =>
                 if Complete(e) then r.Completed? && t.datagrams == s.datagrams - {a.key}
                 else r == Held && t.datagrams == s.datagrams[a.key := Settled(e)]
  {
    assert s.datagrams[a.key := d] - {a.key} == s.datagrams - {a.key};
  }

  lemma TakeAnnounced(s: Store, d: Datagram, a: Arrival, input: Input)
    requires Partial(s.family, d) && WellFormedArrival(s.family, a)
    requires AllAnnounced(s) && Announced(s.family, d) && (a.more <==> HasMore(s.family, a.fragment))
    ensures AllAnnounced(Take(s, d, a, input).1)
  {
    TakeLeaves(s, d, a, input);
    if Offer(s.family, d, a, input.now).Keep? {
      OfferKeepsPartial(s.family, d, a, input.now);
      WithAnnounced(s.family, d, a, input.now);
      SettledAnnounced(s.family, With(d, a, input.now));
    }
  }

  lemma StepAnnounced(s: Store, input: Input, ev: Releases)
    requires Inv(s) && AllAnnounced(s) && Legal(s, input, ev)
    ensures AllAnnounced(Step(s, input, ev).1)
  {
    var parsed := Parse(s.family, input);
    if !parsed.NotFragment? {
      SweptDatagrams(s, input, ev);
      SweptInv(s, ev);
    }
    if parsed.Piece? { StepPieceAnnounced(s, parsed.arrival, input, ev); }
  }

  lemma StepPieceAnnounced(s: Store, a: Arrival, input: Input, ev: Releases)
    requires Inv(s) && AllAnnounced(s) && Legal(s, input, ev) && Parse(s.family, input) == Piece(a)
    ensures AllAnnounced(StepPiece(s, a, input, ev).1)
  {
    MoreIsFlag(s.family, input);
    StepPieceReady(s, a, input, ev);
    SweptDatagrams(s, input, ev);
    var t := Swept(s, ev);
    if a.key in t.datagrams {
      if Room(t, a) { TakeAnnounced(t, t.datagrams[a.key], a, input); }
    } else {
      EvictedInv(s, ev, a);
      var u := Evicted(s, ev);
      if Room(u, a) { TakeAnnounced(u, Fresh(input.now), a, input); }
    }
  }

  lemma {:induction false} RunAnnounced(r: Run)
    requires IsRun(r)
    ensures AllAnnounced(r.store)
  {
    if r.Then? {
      RunInv(r.before);
      RunAnnounced(r.before);
      StepAnnounced(r.before.store, r.event.input, r.event.releases);
    }
  }

  // ---- what a datagram makes of a fragment ----

  /** An exact copy of what is held. */
  ghost predicate Repeats(held: seq<Fragment>, f: Fragment)
  {
    exists i :: 0 <= i < |held| && held[i].offset == f.offset && Payload(held[i]) == Payload(f)
  }

  ghost predicate MeetsAny(held: seq<Fragment>, f: Fragment)
  {
    exists i :: 0 <= i < |held| && Meets(f, held[i])
  }

  /** Another last fragment, a last one before the end of what is held, or one past the last. */
  ghost predicate EndsWrong(family: Family, held: seq<Fragment>, f: Fragment)
  {
    exists i :: 0 <= i < |held| &&
      if HasMore(family, f) then !HasMore(family, held[i]) && End(held[i]) <= End(f)
      else !HasMore(family, held[i]) || End(f) < End(held[i])
  }

  /** With the first and the last fragment both there, the packet is longer than its length field can name. */
  ghost predicate Oversized(family: Family, fs: seq<Fragment>)
  {
    exists i, j :: 0 <= i < |fs| && 0 <= j < |fs| && fs[i].offset == 0 && !HasMore(family, fs[j])
                   && !Fits(family, fs[i].prefix, End(fs[j]))
  }

  /** The fragment contradicts what is held, by a shared byte position or otherwise. */
  ghost predicate Contradicts(family: Family, held: seq<Fragment>, f: Fragment)
  {
    if MeetsAny(held, f) then !Repeats(held, f)
    else |held| >= MAX_FRAGMENTS || EndsWrong(family, held, f) || Oversized(family, held + [f])
  }

  lemma {:induction false} ScanMeets(fs: seq<Fragment>, f: Fragment, i: nat)
    requires 0 < Length(f) && i <= |fs| && Separate(fs) && AllLengths(fs)
    ensures ScanFrom(fs, f, i).Repeat? <==>
            exists j :: i <= j < |fs| && fs[j].offset == f.offset && Payload(fs[j]) == Payload(f)
    decreases |fs| - i
  {
    if i < |fs| {
      ScanMeets(fs, f, i + 1);
      if Overlap(f, fs[i]) {
        forall j | i < j < |fs| ensures !(fs[j].offset == f.offset && Payload(fs[j]) == Payload(f)) {
          assert !Overlap(fs[i], fs[j]);
        }
      }
    }
  }

  lemma ScanExactly(family: Family, d: Datagram, f: Fragment)
    requires Partial(family, d) && WellFormed(family, f)
    ensures ScanFrom(d.fragments, f, 0).Repeat? <==> Repeats(d.fragments, f)
    ensures ScanFrom(d.fragments, f, 0).Clear? <==> !MeetsAny(d.fragments, f)
  {
    var fs := d.fragments;
    forall i | 0 <= i < |fs| ensures fs[i].start < |fs[i].buffer.data| { assert WellFormed(family, fs[i]); }
    ScanMeets(fs, f, 0);
    ScanClear(fs, f, 0);
    forall i | 0 <= i < |fs| ensures Meets(f, fs[i]) <==> Overlap(f, fs[i]) { MeetsIsOverlap(f, fs[i]); }
  }

  lemma EndExactly(family: Family, d: Datagram, a: Arrival)
    requires Partial(family, d) && Announced(family, d) && (a.more <==> HasMore(family, a.fragment))
    requires WellFormedArrival(family, a) && forall i :: 0 <= i < |d.fragments| ==> !Overlap(a.fragment, d.fragments[i])
    ensures WrongEnd(d, a) <==> EndsWrong(family, d.fragments, a.fragment)
  {
    var fs := d.fragments;
    if 0 <= d.final {
      var i :| 0 <= i < |fs| && !HasMore(family, fs[i]);
      assert d.final == End(fs[i]) && WellFormed(family, fs[i]) && !Overlap(a.fragment, fs[i]);
    }
    if EndsWrong(family, fs, a.fragment) {
      var i :| 0 <= i < |fs| && if a.more then !HasMore(family, fs[i]) && End(fs[i]) <= End(a.fragment)
                                else !HasMore(family, fs[i]) || End(a.fragment) < End(fs[i]);
      assert WellFormed(family, fs[i]) && !Overlap(a.fragment, fs[i]);
    }
  }

  lemma SizeExactly(family: Family, d: Datagram)
    requires Announced(family, d) && (forall i :: 0 <= i < |d.fragments| ==> WellFormed(family, d.fragments[i]))
    requires d.firstPrefix != 0 ==> exists i :: 0 <= i < |d.fragments| && d.fragments[i].offset == 0
    requires forall i :: 0 <= i < |d.fragments| && d.fragments[i].offset == 0 ==> FirstIs(d, d.fragments[i])
    ensures TooLong(family, d) <==> Oversized(family, d.fragments)
  {
    var fs := d.fragments;
    if TooLong(family, d) {
      var i :| 0 <= i < |fs| && fs[i].offset == 0;
      var j :| 0 <= j < |fs| && !HasMore(family, fs[j]);
    }
    if Oversized(family, fs) {
      var i, j :| 0 <= i < |fs| && 0 <= j < |fs| && fs[i].offset == 0 && !HasMore(family, fs[j])
                  && !Fits(family, fs[i].prefix, End(fs[j]));
      assert WellFormed(family, fs[i]) && WellFormed(family, fs[j]);
    }
  }

  lemma WithFirst(family: Family, d: Datagram, a: Arrival, now: int)
    requires Partial(family, d) && WellFormedArrival(family, a)
    requires forall i :: 0 <= i < |d.fragments| ==> !Overlap(a.fragment, d.fragments[i])
    ensures var e := With(d, a, now);
            && (forall i :: 0 <= i < |e.fragments| ==> WellFormed(family, e.fragments[i]))
            && (e.firstPrefix != 0 ==> exists i :: 0 <= i < |e.fragments| && e.fragments[i].offset == 0)
            && (forall i :: 0 <= i < |e.fragments| && e.fragments[i].offset == 0 ==> FirstIs(e, e.fragments[i]))
  {
    var e, n := With(d, a, now), |d.fragments|;
    assert e.fragments[n] == a.fragment;
    forall i | 0 <= i < |e.fragments| && e.fragments[i].offset == 0 ensures FirstIs(e, e.fragments[i]) {
      if i < n { assert e.fragments[i] == d.fragments[i] && !Overlap(a.fragment, d.fragments[i]); }
    }
    if e.firstPrefix != 0 && a.fragment.offset != 0 {
      var i :| 0 <= i < n && d.fragments[i].offset == 0;
      assert e.fragments[i].offset == 0;
    }
  }

  /** A datagram takes a fragment for a repetition, refuses it, or keeps it, exactly as the bytes say. */
  lemma OfferExactly(family: Family, d: Datagram, a: Arrival, now: int)
    requires Partial(family, d) && Announced(family, d) && WellFormedArrival(family, a)
    requires a.more <==> HasMore(family, a.fragment)
    ensures Offer(family, d, a, now) ==
              if Contradicts(family, d.fragments, a.fragment) then Reject
              else if Repeats(d.fragments, a.fragment) then Duplicate(d.(updatedAt := now))
              else Keep(With(d, a, now))
  {
    var f := a.fragment;
    ScanExactly(family, d, f);
    RepeatsMeets(family, d, f);
    SecondHeaderUnreachable(family, d, a);
    if !MeetsAny(d.fragments, f) {
      ScanClear(d.fragments, f, 0);
      EndExactly(family, d, a);
      if !WrongEnd(d, a) {
        EndedAnnounced(family, d, a, now);
        WithFirst(family, d, a, now);
        SizeExactly(family, With(d, a, now));
      }
    }
  }

  lemma RepeatsMeets(family: Family, d: Datagram, f: Fragment)
    requires Partial(family, d) && WellFormed(family, f)
    ensures Repeats(d.fragments, f) ==> MeetsAny(d.fragments, f)
  {
    if Repeats(d.fragments, f) {
      var i :| 0 <= i < |d.fragments| && d.fragments[i].offset == f.offset && Payload(d.fragments[i]) == Payload(f);
      assert WellFormed(family, d.fragments[i]);
      assert Bears(f, f.offset) && Bears(d.fragments[i], f.offset);
    }
  }

  /** Every byte up to the end of the last fragment is there. */
  ghost predicate AllThere(family: Family, fs: seq<Fragment>)
  {
    exists i :: 0 <= i < |fs| && !HasMore(family, fs[i]) && CoversUpTo(fs, End(fs[i]))
  }

  lemma SortedTilesExactly(family: Family, d: Datagram)
    requires Partial(family, d) && Announced(family, d) && HasLast(family, d.fragments)
    ensures Tiles(Sorted(d.fragments), d.final) <==> CoversUpTo(d.fragments, d.final)
    ensures 0 < d.final
  {
    var fs, gs := d.fragments, Sorted(d.fragments);
    SortedFacts(fs);
    CoversSame(fs, gs, d.final);
    forall x | 0 <= x < |gs| ensures End(gs[x]) <= d.final && gs[x].start < |gs[x].buffer.data| {
      var y := SameMembers(gs, fs, x);
      assert WellFormed(family, fs[y]);
    }
    var i :| 0 <= i < |fs| && !HasMore(family, fs[i]);
    assert WellFormed(family, fs[i]);
    var j := SameMembers(fs, gs, i);
    TilesExactly(gs, d.final);
  }

  lemma CompleteExactly(family: Family, d: Datagram)
    requires Partial(family, d) && Announced(family, d)
    ensures Complete(d) <==> AllThere(family, d.fragments)
  {
    if HasLast(family, d.fragments) {
      SortedTilesExactly(family, d);
      if CoversUpTo(d.fragments, d.final) { CoveredIsFirst(family, d); }
      var i :| 0 <= i < |d.fragments| && !HasMore(family, d.fragments[i]);
    }
  }

  lemma CoveredIsFirst(family: Family, d: Datagram)
    requires Partial(family, d) && 0 < d.final && CoversUpTo(d.fragments, d.final)
    ensures d.firstPrefix != 0
  {
    assert Borne(d.fragments, 0);
    var i :| 0 <= i < |d.fragments| && Bears(d.fragments[i], 0);
    assert WellFormed(family, d.fragments[i]) && FirstIs(d, d.fragments[i]);
  }

  // ---- what the cache makes of a packet ----

  /** The answer to a fragment and what is left under its key, from what was held there. */
  ghost predicate Answers(family: Family, held: seq<Fragment>, since: int, a: Arrival, now: int, r: Result,
                          left: map<Key, Datagram>)
  {
    if Contradicts(family, held, a.fragment) then r == Rejected && a.key !in left
    else if Repeats(held, a.fragment) then
      r == Held && a.key in left && left[a.key].fragments == held && Dated(left[a.key], since, now)
    else if AllThere(family, held + [a.fragment]) then r.Completed? && a.key !in left
    else
      && r == Held && a.key in left && Dated(left[a.key], since, now)
      && multiset(left[a.key].fragments) == multiset(held) + multiset{a.fragment}
  }

  predicate Dated(d: Datagram, since: int, now: int)
  {
    d.createdAt == since && d.updatedAt == now
  }

  lemma TakeAnswers(s: Store, d: Datagram, a: Arrival, input: Input)
    requires Partial(s.family, d) && Announced(s.family, d) && WellFormedArrival(s.family, a)
    requires a.more <==> HasMore(s.family, a.fragment)
    ensures var (r, t) := Take(s, d, a, input);
            Answers(s.family, d.fragments, d.createdAt, a, input.now, r, t.datagrams)
  {
    TakeLeaves(s, d, a, input);
    OfferExactly(s.family, d, a, input.now);
    if Offer(s.family, d, a, input.now).Keep? {
      var e := With(d, a, input.now);
      OfferKeepsPartial(s.family, d, a, input.now);
      WithAnnounced(s.family, d, a, input.now);
      CompleteExactly(s.family, e);
      SortedFacts(e.fragments);
    }
  }

  /** When the fragments held under `k` began to arrive; now, if there are none. */
  function SinceOf(s: Store, k: Key, now: int): (since: int)
  {
    if k in s.datagrams && !Stale(s.datagrams[k], now) then s.datagrams[k].createdAt else now
  }

  /** A packet that is no fragment passes by; a malformed one and one without room drop their datagram. */
  ghost predicate Processed(s: Store, e: Event, r: Result, t: Store)
  {
    match Parse(s.family, e.input)
    case NotFragment => r == Unfragmented && t == s
    case Malformed(k) => r == Rejected && k !in t.datagrams
    case Piece(a) =>
      if !Admitted(s, e, a) then r == Rejected && a.key !in t.datagrams
      else
        var held, since := HeldFor(s, a.key, e.input.now), SinceOf(s, a.key, e.input.now);
        Answers(s.family, held, since, a, e.input.now, r, t.datagrams)
  }

  lemma StepExactly(s: Store, e: Event)
    requires Inv(s) && AllAnnounced(s) && Legal(s, e.input, e.releases)
    ensures var (r, t) := Step(s, e.input, e.releases); Processed(s, e, r, t)
  {
    var parsed := Parse(s.family, e.input);
    if parsed.Piece? { PieceExactly(s, e, parsed.arrival); }
  }

  lemma PieceExactly(s: Store, e: Event, a: Arrival)
    requires Inv(s) && AllAnnounced(s) && Legal(s, e.input, e.releases) && Parse(s.family, e.input) == Piece(a)
    ensures var (r, t) := StepPiece(s, a, e.input, e.releases);
            if !Admitted(s, e, a) then r == Rejected && a.key !in t.datagrams
            else
              Answers(s.family, HeldFor(s, a.key, e.input.now), SinceOf(s, a.key, e.input.now), a, e.input.now, r,
                      t.datagrams)
  {
    MoreIsFlag(s.family, e.input);
    ParseWellFormed(s.family, e.input);
    StepPieceReady(s, a, e.input, e.releases);
    SweptDatagrams(s, e.input, e.releases);
    var t := Swept(s, e.releases);
    if a.key in t.datagrams {
      TakeAnswers(t, t.datagrams[a.key], a, e.input);
    } else {
      TakeAnswers(Evicted(s, e.releases), Fresh(e.input.now), a, e.input);
    }
  }

  /**
   * In every run each packet is answered, and its datagram left, exactly as the bytes retained under its key and not
   * timed out say: a shared byte position poisons the datagram unless the fragment is an exact copy.
   */
  lemma RunExactly(r: Run)
    requires IsRun(r) && r.Then?
    ensures Processed(r.before.store, r.event, ResultOf(r.before.store, r.event), r.store)
  {
    RunInv(r.before);
    RunAnnounced(r.before);
    StepExactly(r.before.store, r.event);
  }
}
