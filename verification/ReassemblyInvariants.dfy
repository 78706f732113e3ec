/** What every step of the reassembly cache keeps. */
module ReassemblyInvariants {
  import opened Fragments
  import opened Datagrams
  import opened Assembly
  import opened Retention
  import opened Reassembly

  // ---- releasing ----

  predicate SameSettings(s: Store, t: Store)
  {
    s.family == t.family && Limit(s) == Limit(t) && s.maxRetainedBytesPerSource == t.maxRetainedBytesPerSource
  }

  /** The buffers of identity `id` the cache still answers for: retained, or already returned. */
  ghost function Answered(s: Store, id: nat): (n: nat)
  {
    s.returned[id] + Total(CopiesOf(id), s.datagrams)
  }

  lemma DropWithinBudget(s: Store, k: Key)
    requires WithinBudget(s)
    ensures WithinBudget(Drop(s, k))
  {
    TotalDrop(AllBytes, s.datagrams, k);
    forall source ensures Total(BytesOf(source), s.datagrams - {k}) <= Total(BytesOf(source), s.datagrams) {
      TotalDrop(BytesOf(source), s.datagrams, k);
    }
  }

  lemma DropInv(s: Store, k: Key)
    requires Inv(s)
    ensures Inv(Drop(s, k)) && SameSettings(s, Drop(s, k))
  {
    DropWithinBudget(s, k);
    if k in s.datagrams {
      assert (s.datagrams - {k}).Keys == s.datagrams.Keys - {k};
      assert |s.datagrams - {k}| == |s.datagrams| - 1;
    }
  }

  lemma DropAnswered(s: Store, k: Key, id: nat)
    ensures Answered(Drop(s, k), id) == Answered(s, id)
  {
    TotalDrop(CopiesOf(id), s.datagrams, k);
    if k in s.datagrams { IdsAreCopies(k, s.datagrams[k].fragments, id); }
  }

  lemma {:induction false} DropAllInv(s: Store, ks: seq<Key>)
    requires Inv(s)
    ensures Inv(DropAll(s, ks)) && SameSettings(s, DropAll(s, ks))
    decreases |ks|
  {
    if ks != [] {
      DropInv(s, ks[0]);
      DropAllInv(Drop(s, ks[0]), ks[1..]);
    }
  }

  lemma {:induction false} DropAllAnswered(s: Store, ks: seq<Key>, id: nat)
    ensures Answered(DropAll(s, ks), id) == Answered(s, id)
    decreases |ks|
  {
    if ks != [] {
      DropAnswered(s, ks[0], id);
      DropAllAnswered(Drop(s, ks[0]), ks[1..], id);
    }
  }

  /** Exactly the named datagrams are gone; the others are as they were. */
  lemma {:induction false} DropAllDatagrams(s: Store, ks: seq<Key>)
    ensures DropAll(s, ks).datagrams == s.datagrams - set k | k in ks
    decreases |ks|
  {
    if ks != [] {
      DropAllDatagrams(Drop(s, ks[0]), ks[1..]);
      assert ks == [ks[0]] + ks[1..];
      var rest := set k | k in ks[1..];
      assert (set k | k in ks) == {ks[0]} + rest;
      assert s.datagrams - {ks[0]} - rest == s.datagrams - ({ks[0]} + rest);
    }
  }

  lemma SlotRoom(s: Store, ks: seq<Key>)
    requires Makes(s, Slot, ks)
    ensures |DropAll(s, ks).datagrams| < MAX_DATAGRAMS
  {
    var m := DropAll(s, ks).datagrams;
    assert forall k :: k in m ==> Eligible(Slot, k);
    assert m.Keys == {} ==> |m| == 0;
  }

  // ---- the two sweeps before a fragment is taken ----

  lemma SweptInv(s: Store, ev: Releases)
    requires Inv(s)
    ensures Inv(Swept(s, ev)) && SameSettings(s, Swept(s, ev))
  {
    DropAllInv(s, ev.expired);
    var t := DropAll(s, ev.expired);
    assert WithinBudget(t);
    assert Swept(s, ev).datagrams == t.datagrams;
  }

  lemma EvictedInv(s: Store, ev: Releases, a: Arrival)
    requires Inv(s) && LegalEvictions(Swept(s, ev), a, ev)
    ensures Inv(Evicted(s, ev)) && SameSettings(s, Evicted(s, ev))
    ensures |Evicted(s, ev).datagrams| < MAX_DATAGRAMS
    ensures forall k :: k in Evicted(s, ev).datagrams ==>
              k in Swept(s, ev).datagrams && Evicted(s, ev).datagrams[k] == Swept(s, ev).datagrams[k]
  {
    var t := Swept(s, ev);
    var u := DropAll(t, ev.slot);
    var v := DropAll(u, ev.space);
    SweptInv(s, ev);
    DropAllInv(t, ev.slot);
    DropAllInv(u, ev.space);
    DropAllInv(v, ev.share);
    SlotRoom(t, ev.slot);
    DropAllDatagrams(t, ev.slot);
    DropAllDatagrams(u, ev.space);
    DropAllDatagrams(v, ev.share);
    SubmapSize(u.datagrams, DropAll(v, ev.share).datagrams);
  }

  lemma SubmapSize(m: map<Key, Datagram>, n: map<Key, Datagram>)
    requires n.Keys <= m.Keys
    ensures |n| <= |m|
  {
    assert m.Keys == n.Keys + (m.Keys - n.Keys);
  }

  // ---- taking a fragment ----

  /** `d` is what the cache holds under the key, or a new datagram for which there is a slot. */
  ghost predicate Ready(s: Store, d: Datagram, a: Arrival)
  {
    && Inv(s) && WellFormedArrival(s.family, a) && Room(s, a)
    && Partial(s.family, d)
    && Load(AllBytes, a.key, d.fragments) == LoadAt(AllBytes, s.datagrams, a.key)
    && (a.key in s.datagrams ==> d == s.datagrams[a.key])
    && (a.key !in s.datagrams ==>
          |s.datagrams| < MAX_DATAGRAMS && d.fragments == [] && d.final == -1 && d.firstPrefix == 0)
  }

  lemma LoadGrows(me: Measure, k: Key, d: Datagram, a: Arrival, now: int)
    ensures Load(me, k, With(d, a, now).fragments) == Load(me, k, d.fragments) + Weight(me, k, a.fragment)
  {
    assert With(d, a, now).fragments[..|d.fragments|] == d.fragments;
  }

  lemma LoadSettled(me: Measure, k: Key, d: Datagram)
    ensures Load(me, k, Settled(d).fragments) == Load(me, k, d.fragments)
  {
    LoadSorted(me, k, d.fragments);
  }

  lemma SettledPartial(family: Family, d: Datagram)
    requires Partial(family, d)
    ensures Partial(family, Settled(d)) && |Settled(d).fragments| == |d.fragments|
  {
    var fs, gs := d.fragments, Sorted(d.fragments);
    SortedFacts(fs);
    forall i | 0 <= i < |gs|
      ensures WellFormed(family, gs[i]) && (0 <= d.final ==> End(gs[i]) <= d.final)
              && (gs[i].offset == 0 ==> FirstIs(d, gs[i]))
    {
      var j := SameMembers(gs, fs, i);
    }
    if d.firstPrefix != 0 {
      var i :| 0 <= i < |fs| && fs[i].offset == 0;
      var j := SameMembers(fs, gs, i);
    }
  }

  /** Storing a datagram no heavier than there is room for keeps the budgets. */
  lemma PutWithinBudget(s: Store, k: Key, d: Datagram, cost: nat)
    requires WithinBudget(s) && !Short(s, Space(cost)) && !Short(s, Share(k.source, cost))
    requires Load(AllBytes, k, d.fragments) <= LoadAt(AllBytes, s.datagrams, k) + cost
    ensures WithinBudget(Put(s, k, d))
  {
    TotalStore(AllBytes, s.datagrams, k, d);
    if 0 < s.maxRetainedBytesPerSource {
      forall source
        ensures Total(BytesOf(source), s.datagrams[k := d]) <= s.maxRetainedBytesPerSource
      {
        TotalStore(BytesOf(source), s.datagrams, k, d);
        LoadWithinAll(source, k, d.fragments);
        if k in s.datagrams { LoadWithinAll(source, k, s.datagrams[k].fragments); }
      }
    }
  }

  lemma StoreSize(m: map<Key, Datagram>, k: Key, d: Datagram)
    ensures |m[k := d]| == if k in m then |m| else |m| + 1
  {
    assert m[k := d].Keys == m.Keys + {k};
    if k in m { assert m.Keys + {k} == m.Keys; }
  }

  lemma PutSound(family: Family, m: map<Key, Datagram>, k: Key, d: Datagram)
    requires AllSound(family, m) && Sound(family, k, d)
    ensures AllSound(family, m[k := d])
  {
  }

  lemma PutInv(s: Store, k: Key, e: Datagram, cost: nat)
    requires Inv(s) && Sound(s.family, k, e) && (k in s.datagrams || |s.datagrams| < MAX_DATAGRAMS)
    requires !Short(s, Space(cost)) && !Short(s, Share(k.source, cost))
    requires Load(AllBytes, k, e.fragments) <= LoadAt(AllBytes, s.datagrams, k) + cost
    ensures Inv(Put(s, k, e))
  {
    PutWithinBudget(s, k, e, cost);
    StoreSize(s.datagrams, k, e);
    PutSound(s.family, s.datagrams, k, e);
  }

  /** Taking a datagram out keeps the invariant, whatever becomes of its buffers. */
  lemma RemoveInv(s: Store, k: Key, returned: multiset<nat>)
    requires Inv(s)
    ensures Inv(s.(datagrams := s.datagrams - {k}, returned := returned))
  {
    DropInv(s, k);
    if k !in s.datagrams { assert s.datagrams - {k} == s.datagrams; }
    var t := s.(datagrams := s.datagrams - {k}, returned := returned);
    assert t.datagrams == Drop(s, k).datagrams;
    assert WithinBudget(t);
  }

  lemma ReturnInv(s: Store, id: nat)
    requires Inv(s)
    ensures Inv(Return(s, id))
  {
    assert WithinBudget(Return(s, id));
  }

  lemma TakeSettings(s: Store, d: Datagram, a: Arrival, input: Input)
    ensures SameSettings(s, Take(s, d, a, input).1)
  {
  }

  lemma TakeInv(s: Store, d: Datagram, a: Arrival, input: Input)
    requires Ready(s, d, a)
    ensures Inv(Take(s, d, a, input).1)
  {
    OfferKeepsPartial(s.family, d, a, input.now);
    match Offer(s.family, d, a, input.now)
    case Reject =>
      RejectInv(s, d, a, input);
    case Duplicate(e) =>
      PutInv(s, a.key, e, a.cost);
      ReturnInv(Put(s, a.key, e), input.buffer.id);
    case Keep(e) =>
      if Complete(e) {
        RemoveInv(s, a.key, Finish(s, e, a.key, input).1.returned);
      } else {
        KeepInv(s, d, a, input, e);
      }
  }

  lemma RejectInv(s: Store, d: Datagram, a: Arrival, input: Input)
    requires Inv(s)
    ensures Inv(Return(Drop(Put(s, a.key, d), a.key), input.buffer.id))
  {
    var t := Return(Drop(Put(s, a.key, d), a.key), input.buffer.id);
    assert t.datagrams == s.datagrams - {a.key};
    RemoveInv(s, a.key, t.returned);
  }

  lemma KeepInv(s: Store, d: Datagram, a: Arrival, input: Input, e: Datagram)
    requires Ready(s, d, a) && e == With(d, a, input.now) && Partial(s.family, e)
    ensures Inv(Put(s, a.key, Settled(e)))
  {
    LoadGrows(AllBytes, a.key, d, a, input.now);
    LoadSettled(AllBytes, a.key, e);
    SettledPartial(s.family, e);
    PutInv(s, a.key, Settled(e), a.cost);
  }
}
