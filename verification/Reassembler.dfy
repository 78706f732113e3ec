/** The reassembler object: the cache with its running byte counters, one per family. */
module Reassembler {
  import opened Bytes
  import opened Options
  import opened Transfer
  import opened Fragments
  import opened Datagrams
  import opened Assembly
  import opened Retention
  import opened Reassembly
  import opened ReassemblyInvariants
  import opened ReassemblyRuns

  function BytesFor(m: map<TransferPath, int>, source: TransferPath): (n: int)
  {
    if source in m then m[source] else 0
  }

  /** The per-source counters are exact, and a source with nothing retained has none. */
  ghost predicate CountsBySource(m: map<TransferPath, int>, datagrams: map<Key, Datagram>)
  {
    forall source :: BytesFor(m, source) == Total(BytesOf(source), datagrams) && (source in m ==> 0 < m[source])
  }

  /** Fragments that weigh, in every measure, what the cache holds under `k`; or that and `f`. */
  ghost predicate LoadsSame(m: map<Key, Datagram>, k: Key, fs: seq<Fragment>)
  {
    forall me :: Load(me, k, fs) == LoadAt(me, m, k)
  }

  ghost predicate LoadsMore(m: map<Key, Datagram>, k: Key, fs: seq<Fragment>, f: Fragment)
  {
    forall me :: Load(me, k, fs) == LoadAt(me, m, k) + Weight(me, k, f)
  }

  lemma SettledLoadsMore(s: Store, d: Datagram, a: Arrival, now: int)
    requires Current(s, a.key, d)
    ensures LoadsMore(s.datagrams, a.key, Settled(With(d, a, now)).fragments, a.fragment)
  {
    var fs := Settled(With(d, a, now)).fragments;
    forall me ensures Load(me, a.key, fs) == LoadAt(me, s.datagrams, a.key) + Weight(me, a.key, a.fragment) {
      LoadGrows(me, a.key, d, a, now);
      LoadSettled(me, a.key, With(d, a, now));
    }
  }

  // ---- release loops ----

  lemma {:induction false} DropAllSnoc(s: Store, ks: seq<Key>, k: Key)
    ensures DropAll(s, ks + [k]) == Drop(DropAll(s, ks), k)
    decreases |ks|
  {
    if ks == [] {
      assert [k][1..] == [];
    } else {
      DropAllSnoc(Drop(s, ks[0]), ks[1..], k);
      assert (ks + [k])[1..] == ks[1..] + [k];
    }
  }

  lemma CalledForSnoc(s: Store, need: Need, ks: seq<Key>, k: Key)
    requires AllCalledFor(s, need, ks) && Short(DropAll(s, ks), need) && Oldest(DropAll(s, ks), need, k)
    ensures AllCalledFor(s, need, ks + [k])
  {
    forall i | 0 <= i < |ks| + 1 ensures CalledFor(s, need, ks + [k], i) {
      assert (ks + [k])[..i] == ks[..i];
      if i < |ks| { assert CalledFor(s, need, ks, i); } else { assert ks[..i] == ks; }
    }
  }

  class Reassembler {
    const family: Family
    var maxRetainedBytes: int
    var maxRetainedBytesPerSource: int
    var datagrams: map<Key, Datagram>
    var retainedByteCount: int
    var retainedBytesBySource: map<TransferPath, int>
    /** The buffers handed back to the message pool. */
    var returned: multiset<nat>

    ghost function State(): (s: Store)
      reads this
    {
      Store(family, maxRetainedBytes, maxRetainedBytesPerSource, datagrams, returned)
    }

    ghost predicate Counted()
      reads this
    {
      retainedByteCount == Total(AllBytes, datagrams) && CountsBySource(retainedBytesBySource, datagrams)
    }

    ghost predicate Valid()
      reads this
    {
      Inv(State()) && Counted()
    }

    constructor (family: Family, maxRetainedBytes: int, maxRetainedBytesPerSource: int)
      ensures Valid() && Starts(State())
      ensures this.family == family && this.maxRetainedBytes == maxRetainedBytes
      ensures this.maxRetainedBytesPerSource == maxRetainedBytesPerSource
    {
      this.family := family;
      this.maxRetainedBytes := maxRetainedBytes;
      this.maxRetainedBytesPerSource := maxRetainedBytesPerSource;
      datagrams, retainedByteCount, retainedBytesBySource, returned := map[], 0, map[], multiset{};
      new;
      StartInv(State());
    }

    /** Takes the datagram out of the cache and its bytes off the counters. */
    method Detach(k: Key) returns (fs: seq<Fragment>)
      requires Counted()
      modifies this`datagrams, this`retainedByteCount, this`retainedBytesBySource
      ensures Counted() && datagrams == old(datagrams) - {k}
      ensures fs == if k in old(datagrams) then old(datagrams)[k].fragments else []
    {
      if k !in datagrams {
        assert datagrams - {k} == datagrams;
        return [];
      }
      fs := datagrams[k].fragments;
      datagrams := datagrams - {k};
      for i := 0 to |fs|
        invariant datagrams == old(datagrams) - {k}
        invariant retainedByteCount == old(retainedByteCount) - Load(AllBytes, k, fs[..i])
        invariant LessBySource(old(retainedBytesBySource), retainedBytesBySource, k, fs, i)
      {
        DetachRoom(old(datagrams), k, fs, i);
        TakenOff(old(datagrams), old(retainedBytesBySource), retainedBytesBySource, k, fs, i);
        retainedByteCount := retainedByteCount - |fs[i].buffer.data|;
        var retained := BytesFor(retainedBytesBySource, k.source) - |fs[i].buffer.data|;
        if 0 < retained {
          retainedBytesBySource := retainedBytesBySource[k.source := retained];
        } else {
          retainedBytesBySource := retainedBytesBySource - {k.source};
        }
      }
      assert fs[..|fs|] == fs;
      DetachedCounts(old(datagrams), old(retainedBytesBySource), retainedBytesBySource, k, fs);
    }

    method Release(k: Key)
      requires Counted()
      modifies this`datagrams, this`retainedByteCount, this`retainedBytesBySource, this`returned
      ensures Counted() && State() == Drop(old(State()), k)
    {
      var fs := Detach(k);
      for i := 0 to |fs|
        invariant Counted() && datagrams == old(datagrams) - {k}
        invariant returned == old(returned) + Ids(fs[..i])
      {
        assert fs[..i + 1][..i] == fs[..i];
        returned := returned + multiset{fs[i].buffer.id};
      }
      assert fs[..|fs|] == fs;
      if k !in old(datagrams) { assert datagrams == old(datagrams); }
    }

    /** Drops what is 15 seconds old or more, counted from the first fragment. */
    method Expire(now: int) returns (ghost ks: seq<Key>)
      requires Counted()
      modifies this`datagrams, this`retainedByteCount, this`retainedBytesBySource, this`returned
      ensures Counted() && State() == DropAll(old(State()), ks)
      ensures forall k :: k in ks <==> k in old(datagrams) && Stale(old(datagrams)[k], now)
    {
      ks := [];
      var pending := datagrams.Keys;
      while pending != {}
        invariant Counted() && State() == DropAll(old(State()), ks)
        invariant forall k :: k in pending ==>
                    k in datagrams && k in old(datagrams) && datagrams[k] == old(datagrams)[k]
        invariant forall k :: k in ks <==> k in old(datagrams) && k !in pending && Stale(old(datagrams)[k], now)
        decreases |pending|
      {
        var k :| k in pending;
        pending := pending - {k};
        if Stale(datagrams[k], now) {
          Release(k);
          DropAllSnoc(old(State()), ks, k);
          ks := ks + [k];
        }
      }
    }

    function IsShort(need: Need): (b: bool)
      reads this
    {
      match need
      case Slot => MAX_DATAGRAMS <= |datagrams|
      case Space(cost) =>
        Limit(Store(family, maxRetainedBytes, maxRetainedBytesPerSource, datagrams, returned)) < retainedByteCount
          + cost
      case Share(source, cost) => 0 < maxRetainedBytesPerSource < BytesFor(retainedBytesBySource, source) + cost
    }

    lemma IsShortIsShort(need: Need)
      requires Counted()
      ensures IsShort(need) <==> Short(State(), need)
    {
      if need.Share? { assert BytesFor(retainedBytesBySource, need.source) == Total(BytesOf(need.source), datagrams); }
    }

    /** Evicts the least recently updated datagram, of the needing source or of all. */
    method ReleaseOldest(need: Need) returns (found: bool, ghost k: Key)
      requires Counted()
      modifies this`datagrams, this`retainedByteCount, this`retainedBytesBySource, this`returned
      ensures Counted()
      ensures found ==> Oldest(old(State()), need, k) && State() == Drop(old(State()), k)
      ensures !found ==> State() == old(State()) && forall j :: j in datagrams ==> !Eligible(need, j)
    {
      found := false;
      var oldest: Option<Key> := None;
      var pending := datagrams.Keys;
      while pending != {}
        invariant pending <= datagrams.Keys
        invariant oldest.None? ==> forall j :: j in datagrams.Keys - pending ==> !Eligible(need, j)
        invariant oldest.Some? ==> oldest.value in datagrams && Eligible(need, oldest.value)
        invariant oldest.Some? ==> forall j :: j in datagrams.Keys - pending && Eligible(need, j) ==>
                                                 datagrams[oldest.value].updatedAt <= datagrams[j].updatedAt
        decreases |pending|
      {
        var j :| j in pending;
        pending := pending - {j};
        if Eligible(need, j) && (oldest.None? || datagrams[j].updatedAt < datagrams[oldest.value].updatedAt) {
          oldest := Some(j);
        }
      }
      k := if oldest.Some? then oldest.value else Key6(NO_PATH, 0, 0, [], [], 0);
      if oldest.Some? {
        found := true;
        Release(oldest.value);
      }
    }

    /** Releases datagrams until `need` is met or nothing eligible is left. */
    method ReleaseUntil(need: Need) returns (ghost ks: seq<Key>)
      requires Counted()
      modifies this`datagrams, this`retainedByteCount, this`retainedBytesBySource, this`returned
      ensures Counted() && Makes(old(State()), need, ks) && State() == DropAll(old(State()), ks)
    {
      ks := [];
      var more := true;
      while more && IsShort(need)
        invariant Counted() && AllCalledFor(old(State()), need, ks) && State() == DropAll(old(State()), ks)
        invariant !more ==> forall j :: j in datagrams ==> !Eligible(need, j)
        decreases |datagrams|, more
      {
        IsShortIsShort(need);
        ghost var k;
        ghost var m := datagrams;
        more, k := ReleaseOldest(need);
        if more {
          CalledForSnoc(old(State()), need, ks, k);
          DropAllSnoc(old(State()), ks, k);
          ks := ks + [k];
          assert datagrams.Keys == m.Keys - {k};
        }
      }
      IsShortIsShort(need);
    }

    // ---- taking a fragment ----

    /** Stores a datagram with the fragments already counted under `k`. */
    method Replace(k: Key, d: Datagram)
      requires Counted() && LoadsSame(datagrams, k, d.fragments)
      modifies this`datagrams
      ensures Counted() && datagrams == old(datagrams)[k := d]
    {
      StoredCounts(datagrams, retainedBytesBySource, k, d);
      assert Counted();
      datagrams := datagrams[k := d];
    }

    /** Stores a datagram with one more fragment, charging that fragment's bytes. */
    method Retain(k: Key, d: Datagram, f: Fragment)
      requires Counted() && 0 < |f.buffer.data|
      requires LoadsMore(datagrams, k, d.fragments, f)
      modifies this`datagrams, this`retainedByteCount, this`retainedBytesBySource
      ensures Counted() && datagrams == old(datagrams)[k := d]
    {
      RetainedCounts(datagrams, retainedBytesBySource, k, d, f);
      datagrams := datagrams[k := d];
      retainedByteCount := retainedByteCount + |f.buffer.data|;
      retainedBytesBySource := retainedBytesBySource[k.source := BytesFor(retainedBytesBySource, k.source)
                                                     + |f.buffer.data|];
    }

    method Refuse(d: Datagram, a: Arrival, input: Input)
      requires Counted() && Current(State(), a.key, d)
      modifies this`datagrams, this`retainedByteCount, this`retainedBytesBySource, this`returned
      ensures Counted() && State() == Return(Drop(Put(old(State()), a.key, d), a.key), input.buffer.id)
    {
      Replace(a.key, d);
      Release(a.key);
      returned := returned + multiset{input.buffer.id};
    }

    method ReissueAll(fs: seq<Fragment>, identification: uint32) returns (bs: seq<Buffer>)
      requires forall i :: 0 <= i < |fs| ==> WellFormed(family, fs[i])
      ensures bs == HandedBack(family, fs, identification)
    {
      bs := [];
      for i := 0 to |fs|
        invariant |bs| == i && forall j :: 0 <= j < i ==> bs[j] == Reissued(family, fs[j], identification)
      {
        var b := Reissue(family, fs[i], identification);
        bs := bs + [b];
      }
    }

    /** Writes the whole packet and gives up the datagram's fragments, to the pool or to the caller. */
    method Complete(e: Datagram, fs: seq<Fragment>, k: Key, input: Input) returns (r: Result)
      requires Counted() && k in datagrams && datagrams[k].fragments == fs == Sorted(e.fragments)
      requires Assembles(family, fs, Whole(family, fs))
      modifies this`datagrams, this`retainedByteCount, this`retainedBytesBySource, this`returned
      ensures Counted() && (r, State()) == Finish(old(State()), e, k, input)
    {
      var p := Assemble(family, fs, End(fs[|fs| - 1]));
      if input.retainCompleted {
        var retained := Detach(k);
        var bs := ReissueAll(retained, input.identification);
        r := Completed(p, bs);
      } else {
        Release(k);
        r := Completed(p, []);
      }
    }

    method ScanFragments(fs: seq<Fragment>, f: Fragment) returns (r: Scan)
      ensures r == ScanFrom(fs, f, 0)
    {
      for i := 0 to |fs|
        invariant ScanFrom(fs, f, 0) == ScanFrom(fs, f, i)
      {
        if SameRange(f, fs[i]) {
          return if Payload(f) == Payload(fs[i]) then Repeat else Conflict;
        }
        if Overlap(f, fs[i]) { return Conflict; }
      }
      return Clear;
    }

    method EndIsWrong(d: Datagram, a: Arrival) returns (b: bool)
      ensures b == WrongEnd(d, a)
    {
      if a.more { return 0 <= d.final <= End(a.fragment); }
      if 0 <= d.final && d.final != End(a.fragment) { return true; }
      for i := 0 to |d.fragments|
        invariant forall j :: 0 <= j < i ==> End(d.fragments[j]) <= End(a.fragment)
      {
        if End(a.fragment) < End(d.fragments[i]) { return true; }
      }
      return false;
    }

    /** Charges and stores the fragment, sorting once both ends of the datagram are known. */
    method RetainSorted(d: Datagram, a: Arrival, now: int)
      requires Counted() && Current(State(), a.key, d) && 0 < |a.fragment.buffer.data|
      modifies this`datagrams, this`retainedByteCount, this`retainedBytesBySource
      ensures Counted() && State() == Put(old(State()), a.key, Settled(With(d, a, now)))
    {
      SettledLoadsMore(State(), d, a, now);
      Retain(a.key, Settled(With(d, a, now)), a.fragment);
    }

    /** Completes the datagram if it tiles. */
    method TryComplete(e: Datagram, k: Key, input: Input) returns (r: Result)
      requires Counted() && k in datagrams && datagrams[k] == Settled(e) && Partial(family, e) && e.fragments != []
      modifies this`datagrams, this`retainedByteCount, this`retainedBytesBySource, this`returned
      ensures Counted()
      ensures (r, State()) == if Assembly.Complete(e) then Finish(old(State()), e, k, input) else (Held, old(State()))
    {
      if e.firstPrefix == 0 || e.final < 0 { return Held; }
      var fs := Sorted(e.fragments);
      var tiles := IsTiling(fs, e.final);
      if !tiles { return Held; }
      CompleteAssembles(family, e);
      r := Complete(e, fs, k, input);
    }

    /** What the datagram makes of the fragment. */
    method Judge(d: Datagram, a: Arrival, now: int) returns (v: Verdict)
      ensures v == Offer(family, d, a, now)
    {
      var scan := ScanFragments(d.fragments, a.fragment);
      if scan.Repeat? { return Duplicate(d.(updatedAt := now)); }
      if scan.Conflict? || MAX_FRAGMENTS <= |d.fragments| { return Reject; }
      var wrong := EndIsWrong(d, a);
      if wrong || SecondHeader(d, a.fragment) || TooLong(family, With(d, a, now)) { return Reject; }
      return Keep(With(d, a, now));
    }

    method Hold(d: Datagram, a: Arrival, input: Input) returns (r: Result)
      requires Counted() && Current(State(), a.key, d) && Partial(family, d) && WellFormedArrival(family, a)
      requires Offer(family, d, a, input.now) == Keep(With(d, a, input.now))
      modifies this`datagrams, this`retainedByteCount, this`retainedBytesBySource, this`returned
      ensures Counted()
      ensures var e := With(d, a, input.now);
              (r, State()) == if Assembly.Complete(e) then Finish(old(State()), e, a.key, input)
                              else (Held, Put(old(State()), a.key, Settled(e)))
    {
      KeptIsPartial(family, d, a, input.now);
      FinishPut(State(), With(d, a, input.now), a.key, input);
      RetainSorted(d, a, input.now);
      r := TryComplete(With(d, a, input.now), a.key, input);
    }

    method TakeFragment(d: Datagram, a: Arrival, input: Input) returns (r: Result)
      requires Counted() && Current(State(), a.key, d) && Partial(family, d) && WellFormedArrival(family, a)
      modifies this`datagrams, this`retainedByteCount, this`retainedBytesBySource, this`returned
      ensures Counted() && (r, State()) == Take(old(State()), d, a, input)
    {
      var verdict := Judge(d, a, input.now);
      match verdict
      case Reject =>
        Refuse(d, a, input);
        r := Rejected;
      case Duplicate(e) =>
        returned := returned + multiset{input.buffer.id};
        Replace(a.key, e);
        r := Held;
      case Keep(e) =>
        r := Hold(d, a, input);
    }

    // ---- one packet ----

    method MakeDatagramRoom(now: int) returns (ghost ks: seq<Key>)
      requires Counted() && AllFresh(datagrams, now)
      modifies this`datagrams, this`retainedByteCount, this`retainedBytesBySource, this`returned
      ensures Counted() && Makes(old(State()), Slot, ks) && State() == DropAll(old(State()), ks)
    {
      ghost var expired := Expire(now);
      assert expired == [];
      ks := ReleaseUntil(Slot);
    }

    /** Makes room for the first fragment of a datagram. */
    method Admit(a: Arrival, now: int, ghost expired: seq<Key>) returns (admitted: bool, ghost ev: Releases)
      requires Counted() && AllFresh(datagrams, now) && 0 < maxRetainedBytes
      modifies this`datagrams, this`retainedByteCount, this`retainedBytesBySource, this`returned
      ensures Counted() && ev.expired == expired && LegalEvictions(old(State()), a, ev)
      ensures State() == DropAll(DropAll(DropAll(old(State()), ev.slot), ev.space), ev.share)
      ensures admitted <==> Room(State(), a)
    {
      ghost var slot := MakeDatagramRoom(now);
      ghost var space, share := [], [];
      if a.cost <= maxRetainedBytes {
        space := ReleaseUntil(Space(a.cost));
        share := ReleaseUntil(Share(a.key.source, a.cost));
      }
      ev := Releases(expired, slot, space, share);
      IsShortIsShort(Space(a.cost));
      IsShortIsShort(Share(a.key.source, a.cost));
      admitted := !IsShort(Space(a.cost)) && !IsShort(Share(a.key.source, a.cost));
    }

    /** A fragment of a datagram already in the cache. */
    method Extend(a: Arrival, input: Input) returns (r: Result)
      requires Valid() && a.key in datagrams && WellFormedArrival(family, a)
      modifies this`datagrams, this`retainedByteCount, this`retainedBytesBySource, this`returned
      ensures Counted()
      ensures (r, State()) == if Room(old(State()), a) then Take(old(State()), old(datagrams)[a.key], a, input)
                              else (Rejected, Return(Drop(old(State()), a.key), input.buffer.id))
    {
      IsShortIsShort(Space(a.cost));
      IsShortIsShort(Share(a.key.source, a.cost));
      assert Sound(family, a.key, datagrams[a.key]);
      if IsShort(Space(a.cost)) || IsShort(Share(a.key.source, a.cost)) {
        Release(a.key);
        returned := returned + multiset{input.buffer.id};
        r := Rejected;
      } else {
        r := TakeFragment(datagrams[a.key], a, input);
      }
    }

    /** The first fragment of a datagram. */
    method Open(a: Arrival, input: Input, ghost expired: seq<Key>) returns (r: Result, ghost ev: Releases)
      requires Counted() && a.key !in datagrams && WellFormedArrival(family, a)
      requires AllFresh(datagrams, input.now) && 0 < maxRetainedBytes
      modifies this`datagrams, this`retainedByteCount, this`retainedBytesBySource, this`returned
      ensures Counted() && ev.expired == expired && LegalEvictions(old(State()), a, ev)
      ensures var u := DropAll(DropAll(DropAll(old(State()), ev.slot), ev.space), ev.share);
              (r, State()) == if Room(u, a) then Take(u, Fresh(input.now), a, input)
                              else (Rejected, Return(u, input.buffer.id))
    {
      var admitted;
      admitted, ev := Admit(a, input.now, expired);
      DropAllDatagrams(old(State()), ev.slot);
      DropAllDatagrams(DropAll(old(State()), ev.slot), ev.space);
      DropAllDatagrams(DropAll(DropAll(old(State()), ev.slot), ev.space), ev.share);
      if admitted {
        r := TakeFragment(Fresh(input.now), a, input);
      } else {
        returned := returned + multiset{input.buffer.id};
        r := Rejected;
      }
    }

    /** The sweep before any fragment is looked at. */
    method Sweep(now: int) returns (ghost ev: Releases)
      requires Valid()
      modifies this
      ensures Valid() && 0 < maxRetainedBytes && AllFresh(datagrams, now)
      ensures ev == Releases(ev.expired, [], [], []) && State() == Swept(old(State()), ev)
      ensures forall k :: k in ev.expired <==> k in old(datagrams) && Stale(old(datagrams)[k], now)
    {
      ghost var s := State();
      ghost var expired := Expire(now);
      ev := Releases(expired, [], [], []);
      SweptInv(s, ev);
      DropAllDatagrams(s, expired);
      if maxRetainedBytes <= 0 { maxRetainedBytes := MAX_RETAINED; }
    }

    method ProcessPiece(a: Arrival, input: Input) returns (r: Result, ghost ev: Releases)
      requires Valid() && Parse(family, input) == Piece(a)
      modifies this
      ensures Counted() && Legal(old(State()), input, ev) && (r, State()) == StepPiece(old(State()), a, input, ev)
    {
      ParseWellFormed(family, input);
      ev := Sweep(input.now);
      if a.key in datagrams {
        r := Extend(a, input);
      } else {
        r, ev := Open(a, input, ev.expired);
      }
    }

    method ProcessMalformed(k: Key, input: Input) returns (ghost ev: Releases)
      requires Valid() && Parse(family, input) == Malformed(k)
      modifies this
      ensures Counted() && Legal(old(State()), input, ev)
      ensures State() == Return(Drop(Swept(old(State()), ev), k), input.buffer.id)
    {
      ev := Sweep(input.now);
      Release(k);
      returned := returned + multiset{input.buffer.id};
    }

    method Dispatch(input: Input) returns (r: Result, ghost ev: Releases)
      requires Valid()
      modifies this
      ensures Counted() && Legal(old(State()), input, ev) && (r, State()) == Step(old(State()), input, ev)
    {
      ev := Releases([], [], [], []);
      match Parse(family, input)
      case NotFragment =>
        r := Unfragmented;
      case Malformed(k) =>
        ev := ProcessMalformed(k, input);
        r := Rejected;
      case Piece(a) =>
        r, ev := ProcessPiece(a, input);
    }

    /** `processResultAt`: what one packet does to the cache, and what comes back for it. */
    method Process(input: Input) returns (r: Result, ghost ev: Releases)
      requires Valid()
      modifies this
      ensures Valid()
      ensures Stepped(old(State()), Event(input, ev), State())
      ensures r == ResultOf(old(State()), Event(input, ev))
    {
      r, ev := Dispatch(input);
      StepInv(old(State()), input, ev);
    }

    /** Gives every retained buffer back to the pool. */
    method Close()
      requires Counted()
      modifies this
      ensures Counted() && datagrams == map[]
      ensures forall id :: returned[id] == Answered(old(State()), id)
    {
      while datagrams.Keys != {}
        invariant Counted() && forall id :: Answered(State(), id) == Answered(old(State()), id)
        decreases |datagrams|
      {
        var k :| k in datagrams.Keys;
        ghost var s := State();
        Release(k);
        assert datagrams.Keys == s.datagrams.Keys - {k};
        forall id ensures Answered(State(), id) == Answered(s, id) { DropAnswered(s, k, id); }
      }
      assert datagrams == map[];
      forall id ensures returned[id] == Answered(old(State()), id) { assert Answered(State(), id) == returned[id]; }
    }
  }

  lemma KeptIsPartial(family: Family, d: Datagram, a: Arrival, now: int)
    requires Partial(family, d) && WellFormedArrival(family, a) && Offer(family, d, a, now) == Keep(With(d, a, now))
    ensures Partial(family, With(d, a, now))
  {
    OfferKeepsPartial(family, d, a, now);
  }

  /** Finishing does not depend on what the cache holds under the key. */
  lemma FinishPut(s: Store, e: Datagram, k: Key, input: Input)
    ensures Finish(Put(s, k, Settled(e)), e, k, input) == Finish(s, e, k, input)
  {
    assert s.datagrams[k := Settled(e)] - {k} == s.datagrams - {k};
  }

  lemma StoredCounts(m: map<Key, Datagram>, counts: map<TransferPath, int>, k: Key, d: Datagram)
    requires CountsBySource(counts, m) && LoadsSame(m, k, d.fragments)
    ensures CountsBySource(counts, m[k := d]) && Total(AllBytes, m[k := d]) == Total(AllBytes, m)
  {
    TotalStore(AllBytes, m, k, d);
    forall source ensures Total(BytesOf(source), m[k := d]) == Total(BytesOf(source), m) {
      TotalStore(BytesOf(source), m, k, d);
    }
  }

  lemma RetainedCounts(m: map<Key, Datagram>, counts: map<TransferPath, int>, k: Key, d: Datagram, f: Fragment)
    requires CountsBySource(counts, m) && 0 < |f.buffer.data|
    requires LoadsMore(m, k, d.fragments, f)
    ensures CountsBySource(counts[k.source := BytesFor(counts, k.source) + |f.buffer.data|], m[k := d])
    ensures Total(AllBytes, m[k := d]) == Total(AllBytes, m) + |f.buffer.data|
  {
    TotalStore(AllBytes, m, k, d);
    forall source ensures Total(BytesOf(source), m[k := d]) == Total(BytesOf(source), m)
           + (if source == k.source then |f.buffer.data| else 0) {
      TotalStore(BytesOf(source), m, k, d);
    }
  }

  /** After `i` fragments of `k` are taken off, its source's counter is down by just those. */
  ghost predicate LessBySource(before: map<TransferPath, int>, after: map<TransferPath, int>, k: Key,
                               fs: seq<Fragment>, i: nat)
    requires i <= |fs|
  {
    forall source ::
      && BytesFor(after, source) == BytesFor(before, source) - Load(BytesOf(source), k, fs[..i])
      && (source in after ==> 0 < after[source])
  }

  lemma DetachRoom(m: map<Key, Datagram>, k: Key, fs: seq<Fragment>, i: nat)
    requires k in m && fs == m[k].fragments && i < |fs|
    ensures Load(BytesOf(k.source), k, fs[..i + 1]) <= Total(BytesOf(k.source), m)
    ensures forall source :: Load(BytesOf(source), k, fs[..i + 1]) ==
                             Load(BytesOf(source), k, fs[..i]) + (if source == k.source then |fs[i].buffer.data| else 0)
    ensures Load(AllBytes, k, fs[..i + 1]) == Load(AllBytes, k, fs[..i]) + |fs[i].buffer.data|
  {
    assert fs[..i + 1][..i] == fs[..i];
    TotalRemove(BytesOf(k.source), m, k);
    LoadPrefix(BytesOf(k.source), k, fs, i + 1);
  }

  lemma TakenOff(m: map<Key, Datagram>, before: map<TransferPath, int>, now: map<TransferPath, int>, k: Key,
                 fs: seq<Fragment>, i: nat)
    requires k in m && fs == m[k].fragments && i < |fs| && CountsBySource(before, m)
             && LessBySource(before, now, k, fs, i)
    ensures var left := BytesFor(now, k.source) - |fs[i].buffer.data|;
            LessBySource(before, if 0 < left then now[k.source := left] else now - {k.source}, k, fs, i + 1)
  {
    DetachRoom(m, k, fs, i);
  }

  lemma {:induction false} LoadPrefix(me: Measure, k: Key, fs: seq<Fragment>, i: nat)
    requires i <= |fs|
    ensures Load(me, k, fs[..i]) <= Load(me, k, fs)
    decreases |fs| - i
  {
    if i < |fs| {
      LoadPrefix(me, k, fs, i + 1);
      assert fs[..i + 1][..i] == fs[..i];
    } else {
      assert fs[..i] == fs;
    }
  }

  lemma DetachedCounts(m: map<Key, Datagram>, before: map<TransferPath, int>, after: map<TransferPath, int>, k: Key,
                       fs: seq<Fragment>)
    requires k in m && fs == m[k].fragments && CountsBySource(before, m) && LessBySource(before, after, k, fs, |fs|)
    ensures CountsBySource(after, m - {k})
    ensures Total(AllBytes, m - {k}) == Total(AllBytes, m) - Load(AllBytes, k, fs)
  {
    TotalDrop(AllBytes, m, k);
    assert fs[..|fs|] == fs;
    forall source ensures BytesFor(after, source) == Total(BytesOf(source), m - {k})
           && (source in after ==> 0 < after[source]) {
      TotalDrop(BytesOf(source), m, k);
    }
  }
}
