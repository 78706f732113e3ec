/** Which fragments the cache has room for, and which datagrams make way for them. */
module ReassemblyAdmission {
  import opened Transfer
  import opened Fragments
  import opened Datagrams
  import opened Retention
  import opened Reassembly
  import opened ReassemblyInvariants
  import opened ReassemblyRuns
  import opened Feeds
  import opened ReassemblyExact

  /** The datagrams that have not timed out. */
  function LiveOf(s: Store, now: int): (m: map<Key, Datagram>)
  {
    map k | k in s.datagrams && now - s.datagrams[k].createdAt < TIMEOUT :: s.datagrams[k]
  }

  lemma SweptIsLive(s: Store, input: Input, ev: Releases)
    requires Legal(s, input, ev) && !Parse(s.family, input).NotFragment?
    ensures Swept(s, ev).datagrams == LiveOf(s, input.now)
    ensures Limit(Swept(s, ev)) == Limit(s)
    ensures Swept(s, ev).maxRetainedBytesPerSource == s.maxRetainedBytesPerSource
  {
    SweptDatagrams(s, input, ev);
    SweptKeeps(s, ev.expired);
  }

  lemma {:induction false} SweptKeeps(s: Store, ks: seq<Key>)
    ensures Limit(DropAll(s, ks)) == Limit(s)
    ensures DropAll(s, ks).maxRetainedBytesPerSource == s.maxRetainedBytesPerSource
    decreases |ks|
  {
    if ks != [] { SweptKeeps(Drop(s, ks[0]), ks[1..]); }
  }

  // ---- releasing makes room ----

  lemma {:induction false} DropAllLess(me: Measure, s: Store, ks: seq<Key>)
    ensures Total(me, DropAll(s, ks).datagrams) <= Total(me, s.datagrams)
    decreases |ks|
  {
    if ks != [] {
      TotalDrop(me, s.datagrams, ks[0]);
      DropAllLess(me, Drop(s, ks[0]), ks[1..]);
    }
  }

  lemma {:induction false} NoneOfSource(source: TransferPath, m: map<Key, Datagram>)
    requires forall k :: k in m ==> k.source != source
    ensures Total(BytesOf(source), m) == 0
    decreases |m|
  {
    if m != map[] {
      var k :| k in m;
      TotalRemove(BytesOf(source), m, k);
      LoadWithinAll(source, k, m[k].fragments);
      NoneOfSource(source, m - {k});
    }
  }

  /** Once the release loop for space is over there is space, if the budget can hold the fragment at all. */
  lemma SpaceIsMade(s: Store, cost: nat, ks: seq<Key>)
    requires Makes(s, Space(cost), ks) && cost <= Limit(s)
    ensures !Short(DropAll(s, ks), Space(cost))
  {
    SweptKeeps(s, ks);
    var t := DropAll(s, ks);
    if t.datagrams != map[] {
      var k :| k in t.datagrams;
      assert Eligible(Space(cost), k);
    }
  }

  lemma ShareIsMade(s: Store, source: TransferPath, cost: nat, ks: seq<Key>)
    requires Makes(s, Share(source, cost), ks)
    ensures Short(DropAll(s, ks), Share(source, cost)) <==> 0 < s.maxRetainedBytesPerSource < cost
  {
    SweptKeeps(s, ks);
    var t := DropAll(s, ks);
    if Short(t, Share(source, cost)) {
      forall k | k in t.datagrams ensures k.source != source { assert !Eligible(Share(source, cost), k); }
      NoneOfSource(source, t.datagrams);
    }
  }

  lemma EvictedHasRoom(t: Store, a: Arrival, ev: Releases)
    requires LegalEvictions(t, a, ev)
    ensures var w := DropAll(DropAll(DropAll(t, ev.slot), ev.space), ev.share);
            Room(w, a) <==>
            a.cost <= Limit(t) && (0 < t.maxRetainedBytesPerSource ==> a.cost <= t.maxRetainedBytesPerSource)
  {
    var u := DropAll(t, ev.slot);
    var v := DropAll(u, ev.space);
    var w := DropAll(v, ev.share);
    SweptKeeps(t, ev.slot);
    SweptKeeps(u, ev.space);
    SweptKeeps(v, ev.share);
    if a.cost <= Limit(t) {
      SpaceIsMade(u, a.cost, ev.space);
      DropAllLess(AllBytes, v, ev.share);
      ShareIsMade(v, a.key.source, a.cost, ev.share);
    }
  }

  /** The bytes fit beside those retained in `m`, in the budget and in the quota of their source. */
  ghost predicate FitsBeside(s: Store, m: map<Key, Datagram>, source: TransferPath, cost: nat)
  {
    && Total(AllBytes, m) + cost <= Limit(s)
    && (0 < s.maxRetainedBytesPerSource ==> Total(BytesOf(source), m) + cost <= s.maxRetainedBytesPerSource)
  }

  /**
   * A fragment of a datagram that is held has room exactly beside everything that has not timed out; one of a new
   * datagram exactly when budget and quota could hold it alone, since older datagrams make way for it.
   */
  lemma AdmittedExactly(s: Store, e: Event, a: Arrival)
    requires Legal(s, e.input, e.releases) && Parse(s.family, e.input) == Piece(a)
    ensures var m := LiveOf(s, e.input.now);
            Admitted(s, e, a) <==> FitsBeside(s, if a.key in m then m else map[], a.key.source, a.cost)
  {
    SweptIsLive(s, e.input, e.releases);
    if a.key !in LiveOf(s, e.input.now) { EvictedHasRoom(Swept(s, e.releases), a, e.releases); }
  }

  // ---- who makes way ----

  lemma ReleasedOldest(s: Store, need: Need, ks: seq<Key>, k: Key, j: Key)
    requires Makes(s, need, ks) && k in s.datagrams && k !in DropAll(s, ks).datagrams
    requires j in DropAll(s, ks).datagrams
    ensures j in s.datagrams && Eligible(need, k)
    ensures Eligible(need, j) ==> s.datagrams[k].updatedAt <= s.datagrams[j].updatedAt
  {
    DropAllDatagrams(s, ks);
    var i :| 0 <= i < |ks| && ks[i] == k && k !in ks[..i] by { FirstPosition(ks, k); }
    DropAllDatagrams(s, ks[..i]);
    assert CalledFor(s, need, ks, i);
    assert j !in ks[..i];
  }

  lemma {:induction false} FirstPosition(ks: seq<Key>, k: Key)
    requires k in ks
    ensures exists i :: 0 <= i < |ks| && ks[i] == k && k !in ks[..i]
    decreases |ks|
  {
    var n := |ks| - 1;
    if k in ks[..n] {
      FirstPosition(ks[..n], k);
      var i :| 0 <= i < n && ks[..n][i] == k && k !in ks[..n][..i];
      assert ks[..n][..i] == ks[..i];
    } else {
      assert ks[n] == k;
    }
  }

  /** With room there is no release. */
  lemma NoNeedNoRelease(s: Store, need: Need, ks: seq<Key>)
    requires Makes(s, need, ks) && !Short(s, need)
    ensures ks == []
  {
    assert ks[..0] == [];
    assert ks != [] ==> CalledFor(s, need, ks, 0);
  }

  lemma EvictedWay(t: Store, a: Arrival, ev: Releases, k: Key, j: Key)
    requires LegalEvictions(t, a, ev) && k in t.datagrams
    requires var w := DropAll(DropAll(DropAll(t, ev.slot), ev.space), ev.share); k !in w.datagrams && j in w.datagrams
    ensures j in t.datagrams
    ensures k.source != a.key.source || j.source == k.source ==> t.datagrams[k].updatedAt <= t.datagrams[j].updatedAt
  {
    var u := DropAll(t, ev.slot);
    var v := DropAll(u, ev.space);
    DropAllDatagrams(t, ev.slot);
    DropAllDatagrams(u, ev.space);
    DropAllDatagrams(v, ev.share);
    if k !in u.datagrams {
      ReleasedOldest(t, Slot, ev.slot, k, j);
    } else if k !in v.datagrams {
      ReleasedOldest(u, Space(a.cost), ev.space, k, j);
    } else {
      ReleasedOldest(v, Share(a.key.source, a.cost), ev.share, k, j);
    }
  }

  /** What a piece leaves of the other datagrams: all of them if its own is held, and those not evicted otherwise. */
  lemma OthersLeft(s: Store, e: Event, a: Arrival, k: Key)
    requires Legal(s, e.input, e.releases) && Parse(s.family, e.input) == Piece(a) && k != a.key
    ensures var m, t := LiveOf(s, e.input.now), Step(s, e.input, e.releases).1;
            var w := if a.key in m then m else Evicted(s, e.releases).datagrams;
            (k in t.datagrams <==> k in w) && (k in w ==> t.datagrams[k] == w[k])
  {
    SweptIsLive(s, e.input, e.releases);
    TakeOthers(Swept(s, e.releases), Swept(s, e.releases).datagrams, a, e.input, k);
    TakeOthers(Evicted(s, e.releases), map[a.key := Fresh(e.input.now)], a, e.input, k);
  }

  lemma TakeOthers(s: Store, ds: map<Key, Datagram>, a: Arrival, input: Input, k: Key)
    requires k != a.key
    ensures a.key in ds ==>
              var t := Take(s, ds[a.key], a, input).1;
              (k in t.datagrams <==> k in s.datagrams) && (k in s.datagrams ==> t.datagrams[k] == s.datagrams[k])
  {
    if a.key in ds { TakeLeaves(s, ds[a.key], a, input); }
  }

  /** A new datagram displaces the least recently updated: of all, or of its own source where that has its fill. */
  lemma MakesWay(s: Store, e: Event, a: Arrival, k: Key, j: Key)
    requires Legal(s, e.input, e.releases) && Parse(s.family, e.input) == Piece(a) && k != a.key && j != a.key
    requires var m, t := LiveOf(s, e.input.now), Step(s, e.input, e.releases).1;
             a.key !in m && k in m && k !in t.datagrams && j in t.datagrams
    ensures var m := LiveOf(s, e.input.now);
            j in m && (k.source != a.key.source || j.source == k.source ==> m[k].updatedAt <= m[j].updatedAt)
  {
    SweptIsLive(s, e.input, e.releases);
    OthersLeft(s, e, a, k);
    OthersLeft(s, e, a, j);
    EvictedWay(Swept(s, e.releases), a, e.releases, k, j);
  }
}
