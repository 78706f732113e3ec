/** The parts of one packet as a datagram collects them, in any order and any number of times. */
module Parts {
  import opened Indexes
  import opened Fragments
  import opened Datagrams
  import opened Assembly

  /** All the parts of a packet, in order. */
  ghost predicate Division(family: Family, ps: seq<Fragment>, final: int)
  {
    && 2 <= |ps| <= MAX_FRAGMENTS
    && (forall i :: 0 <= i < |ps| ==> WellFormed(family, ps[i]))
    && Tiles(ps, final)
    && Fits(family, ps[0].prefix, final)
  }

  /** The same bytes in another buffer. */
  predicate Same(f: Fragment, g: Fragment)
  {
    f == g.(buffer := Buffer(f.buffer.id, g.buffer.data))
  }

  ghost predicate PartOf(ps: seq<Fragment>, i: nat, a: Arrival)
  {
    i < |ps| && Same(a.fragment, ps[i]) && (a.more <==> i < |ps| - 1)
  }

  lemma {:induction false} PartsOrdered(family: Family, ps: seq<Fragment>, final: int, i: nat, j: nat)
    requires Division(family, ps, final) && i < j < |ps|
    ensures ps[i].offset < End(ps[i]) <= ps[j].offset < End(ps[j]) <= final
  {
    assert WellFormed(family, ps[i]) && WellFormed(family, ps[j]);
    assert ps[j].offset == End(ps[j - 1]);
    TilesEnds(ps, final, j);
    if i < j - 1 { PartsOrdered(family, ps, final, i, j - 1); }
  }

  // ---- what has been collected ----

  /** `fs[i]` is the part number `idx[i]`. */
  ghost predicate Matches(fs: seq<Fragment>, ps: seq<Fragment>, idx: seq<nat>)
  {
    && |fs| == |idx| && Distinct(idx) && Within(idx, |ps|)
    && forall i :: 0 <= i < |idx| ==> Same(fs[i], ps[idx[i]])
  }

  ghost predicate KnowsEnd(d: Datagram, final: int, last: bool)
  {
    d.final == if last then final else -1
  }

  ghost predicate KnowsFirst(d: Datagram, p: Fragment, first: bool)
  {
    if first then FirstIs(d, p) else d.firstPrefix == 0
  }

  /** `d` holds the parts `idx` of the division `ps` and nothing else. */
  ghost predicate Holds(d: Datagram, ps: seq<Fragment>, final: int, idx: seq<nat>)
  {
    && ps != []
    && Matches(d.fragments, ps, idx)
    && KnowsEnd(d, final, |ps| - 1 in idx)
    && KnowsFirst(d, ps[0], 0 in idx)
  }

  /** A part not yet held leaves room for itself. */
  lemma MissingPart(idx: seq<nat>, n: nat, i: nat)
    requires Distinct(idx) && Within(idx, n) && i < n && i !in idx
    ensures |idx| < n && Distinct(idx + [i]) && Within(idx + [i], n)
  {
    DistinctBound(idx + [i], n);
  }

  // ---- offering a part ----

  lemma PartsApart(family: Family, ps: seq<Fragment>, final: int, i: nat, j: nat, f: Fragment, g: Fragment)
    requires Division(family, ps, final) && i < |ps| && j < |ps| && i != j && Same(f, ps[i]) && Same(g, ps[j])
    ensures !Overlap(f, g) && !SameRange(f, g)
  {
    if i < j { PartsOrdered(family, ps, final, i, j); } else { PartsOrdered(family, ps, final, j, i); }
  }

  lemma {:induction false} ScanKnown(family: Family, ps: seq<Fragment>, final: int, fs: seq<Fragment>, idx: seq<nat>,
                                     f: Fragment, i: nat, at: nat, k: nat)
    requires Division(family, ps, final) && Matches(fs, ps, idx) && i < |ps| && Same(f, ps[i])
    requires k <= at < |idx| && idx[at] == i
    ensures ScanFrom(fs, f, k) == Repeat
    decreases |fs| - k
  {
    if k < at {
      PartsApart(family, ps, final, i, idx[k], f, fs[k]);
      ScanKnown(family, ps, final, fs, idx, f, i, at, k + 1);
    }
  }

  /** A part already held is an exact retransmission. */
  lemma OfferKnown(family: Family, d: Datagram, ps: seq<Fragment>, final: int, idx: seq<nat>, i: nat, a: Arrival,
                   now: int)
    requires Division(family, ps, final) && Holds(d, ps, final, idx) && PartOf(ps, i, a) && i in idx
    ensures Offer(family, d, a, now) == Duplicate(d.(updatedAt := now))
  {
    var at :| 0 <= at < |idx| && idx[at] == i;
    ScanKnown(family, ps, final, d.fragments, idx, a.fragment, i, at, 0);
  }

  lemma NewPartClear(family: Family, d: Datagram, ps: seq<Fragment>, final: int, idx: seq<nat>, i: nat, a: Arrival)
    requires Division(family, ps, final) && Holds(d, ps, final, idx) && PartOf(ps, i, a) && i !in idx
    ensures ScanFrom(d.fragments, a.fragment, 0).Clear?
  {
    forall j | 0 <= j < |d.fragments| ensures !Overlap(a.fragment, d.fragments[j]) {
      PartsApart(family, ps, final, i, idx[j], a.fragment, d.fragments[j]);
    }
    assert WellFormed(family, ps[i]);
    ScanClear(d.fragments, a.fragment, 0);
  }

  lemma NewPartEnds(family: Family, d: Datagram, ps: seq<Fragment>, final: int, idx: seq<nat>, i: nat, a: Arrival)
    requires Division(family, ps, final) && Holds(d, ps, final, idx) && PartOf(ps, i, a) && i !in idx
    ensures !WrongEnd(d, a)
  {
    var n := |ps| - 1;
    if i < n {
      PartsOrdered(family, ps, final, i, n);
    } else {
      forall j | 0 <= j < |d.fragments| ensures End(d.fragments[j]) <= final {
        assert Same(d.fragments[j], ps[idx[j]]);
        TilesEnds(ps, final, idx[j]);
      }
    }
  }

  lemma NewPartFirst(family: Family, ps: seq<Fragment>, final: int, i: nat)
    requires Division(family, ps, final) && i < |ps|
    ensures ps[i].offset == 0 <==> i == 0
  {
    if i > 0 { PartsOrdered(family, ps, final, 0, i); }
  }

  lemma WithHolds(family: Family, d: Datagram, ps: seq<Fragment>, final: int, idx: seq<nat>, i: nat, a: Arrival,
                  now: int)
    requires Division(family, ps, final) && Holds(d, ps, final, idx) && PartOf(ps, i, a) && i !in idx
    ensures Holds(With(d, a, now), ps, final, idx + [i])
    ensures |d.fragments| < MAX_FRAGMENTS && !SecondHeader(d, a.fragment) && !TooLong(family, With(d, a, now))
  {
    MissingPart(idx, |ps|, i);
    NewPartFirst(family, ps, final, i);
    assert forall j :: j in idx + [i] <==> j in idx || j == i;
  }

  /** A part not yet held is kept. */
  lemma OfferNew(family: Family, d: Datagram, ps: seq<Fragment>, final: int, idx: seq<nat>, i: nat, a: Arrival,
                 now: int)
    requires Division(family, ps, final) && Holds(d, ps, final, idx) && PartOf(ps, i, a) && i !in idx
    ensures Offer(family, d, a, now) == Keep(With(d, a, now))
    ensures Holds(With(d, a, now), ps, final, idx + [i])
  {
    NewPartClear(family, d, ps, final, idx, i, a);
    NewPartEnds(family, d, ps, final, idx, i, a);
    WithHolds(family, d, ps, final, idx, i, a, now);
  }

  // ---- sorting ----

  ghost predicate SameSet(idx: seq<nat>, jdx: seq<nat>)
  {
    forall i :: i in idx <==> i in jdx
  }

  lemma InsertMatches(fs: seq<Fragment>, ps: seq<Fragment>, idx: seq<nat>, f: Fragment, i: nat) returns (jdx: seq<nat>)
    requires Matches(fs, ps, idx) && i < |ps| && i !in idx && Same(f, ps[i])
    ensures Matches(Insert(fs, f), ps, jdx) && SameSet(jdx, idx + [i])
  {
    var k := Position(fs, f.offset, 0);
    jdx := idx[..k] + [i] + idx[k..];
    assert idx == idx[..k] + idx[k..];
    InsertDistinct(idx, k, i);
    forall x | 0 <= x < |jdx| ensures Same(Insert(fs, f)[x], ps[jdx[x]]) {
      if k < x { assert jdx[x] == idx[x - 1]; }
    }
  }

  lemma InsertDistinct(idx: seq<nat>, k: nat, i: nat)
    requires Distinct(idx) && k <= |idx| && i !in idx
    ensures Distinct(idx[..k] + [i] + idx[k..])
  {
    var jdx := idx[..k] + [i] + idx[k..];
    forall x, y | 0 <= x < y < |jdx| ensures jdx[x] != jdx[y] {
      var u, v := if x < k then x else x - 1, if y < k then y else y - 1;
      assert x != k ==> jdx[x] == idx[u];
      assert y != k ==> jdx[y] == idx[v];
    }
  }

  /** Sorting only reorders the parts held. */
  lemma {:induction false} SortedMatches(fs: seq<Fragment>, ps: seq<Fragment>, idx: seq<nat>) returns (jdx: seq<nat>)
    requires Matches(fs, ps, idx)
    ensures Matches(Sorted(fs), ps, jdx) && SameSet(jdx, idx)
    decreases |fs|
  {
    if fs == [] {
      jdx := [];
    } else {
      var n := |fs| - 1;
      var kdx := SortedMatches(fs[..n], ps, idx[..n]);
      assert idx == idx[..n] + [idx[n]];
      jdx := InsertMatches(Sorted(fs[..n]), ps, kdx, fs[n], idx[n]);
    }
  }

  ghost predicate Increasing(idx: seq<nat>)
  {
    forall i, j :: 0 <= i < j < |idx| ==> idx[i] < idx[j]
  }

  lemma SortedIncreasing(family: Family, ps: seq<Fragment>, final: int, fs: seq<Fragment>, idx: seq<nat>)
    requires Division(family, ps, final) && Matches(fs, ps, idx) && Ascending(fs)
    ensures Increasing(idx)
  {
    forall i, j | 0 <= i < j < |idx| ensures idx[i] < idx[j] {
      assert Same(fs[i], ps[idx[i]]) && Same(fs[j], ps[idx[j]]);
      assert fs[i].offset <= fs[j].offset;
      if idx[j] < idx[i] { PartsOrdered(family, ps, final, idx[j], idx[i]); }
    }
  }

  /** An increasing sequence of all the numbers below `n` counts. */
  lemma {:induction false} IncreasingCounts(idx: seq<nat>, n: nat, i: nat)
    requires Increasing(idx) && Within(idx, n) && |idx| == n && i < n
    ensures idx[i] == i
  {
    IncreasingAtLeast(idx, i);
    IncreasingAtMost(idx, n, i);
  }

  lemma {:induction false} IncreasingAtLeast(idx: seq<nat>, i: nat)
    requires Increasing(idx) && i < |idx|
    ensures i <= idx[i]
  {
    if i > 0 {
      IncreasingAtLeast(idx, i - 1);
      assert idx[i - 1] < idx[i];
    }
  }

  lemma {:induction false} IncreasingAtMost(idx: seq<nat>, n: nat, i: nat)
    requires Increasing(idx) && Within(idx, n) && |idx| == n && i < n
    ensures idx[i] <= i
    decreases n - i
  {
    if i + 1 < n {
      IncreasingAtMost(idx, n, i + 1);
      assert idx[i] < idx[i + 1];
    }
  }

  /** Parts that tile the payload are all the parts, each in its place. */
  lemma {:induction false} TilingCounts(family: Family, ps: seq<Fragment>, final: int, fs: seq<Fragment>,
                                        idx: seq<nat>, i: nat)
    requires Division(family, ps, final) && Matches(fs, ps, idx) && Tiles(fs, final) && i < |idx|
    ensures idx[i] == i
  {
    assert Same(fs[i], ps[idx[i]]);
    if i == 0 {
      NewPartFirst(family, ps, final, idx[0]);
    } else {
      TilingCounts(family, ps, final, fs, idx, i - 1);
      assert Same(fs[i - 1], ps[i - 1]);
      TilingGoesOn(family, ps, final, fs, idx, i);
      PartsDiffer(family, ps, final, idx[i], i);
    }
  }

  lemma PartsDiffer(family: Family, ps: seq<Fragment>, final: int, i: nat, j: nat)
    requires Division(family, ps, final) && i < |ps| && j < |ps|
    ensures ps[i].offset == ps[j].offset ==> i == j
  {
    if i < j { PartsOrdered(family, ps, final, i, j); }
    if j < i { PartsOrdered(family, ps, final, j, i); }
  }

  lemma TilingGoesOn(family: Family, ps: seq<Fragment>, final: int, fs: seq<Fragment>, idx: seq<nat>, i: nat)
    requires Division(family, ps, final) && Matches(fs, ps, idx) && 0 < i < |idx| && idx[i - 1] == i - 1
    ensures i < |ps| && ps[i].offset == End(ps[i - 1])
  {
    DistinctBound(idx, |ps|);
  }

  /** The datagram is complete exactly when it holds every part. */
  lemma CompleteIffAll(family: Family, d: Datagram, ps: seq<Fragment>, final: int, idx: seq<nat>)
    requires Division(family, ps, final) && Holds(d, ps, final, idx)
    ensures Complete(d) <==> |idx| == |ps|
    ensures |idx| == |ps| ==> Whole(family, Sorted(d.fragments)) == Whole(family, ps)
  {
    var fs := Sorted(d.fragments);
    var jdx := SortedMatches(d.fragments, ps, idx);
    SortedFacts(d.fragments);
    SortedIncreasing(family, ps, final, fs, jdx);
    if |idx| == |ps| {
      AllIsComplete(family, ps, final, fs, jdx);
      DistinctBound(idx, |ps|);
      assert WellFormed(family, ps[0]);
    } else if Complete(d) {
      CompleteIsAll(family, ps, final, fs, jdx);
    }
  }

  lemma AllIsComplete(family: Family, ps: seq<Fragment>, final: int, fs: seq<Fragment>, idx: seq<nat>)
    requires Division(family, ps, final) && Matches(fs, ps, idx) && Increasing(idx) && |idx| == |ps|
    ensures Tiles(fs, final) && Whole(family, fs) == Whole(family, ps)
  {
    forall i | 0 <= i < |ps| ensures Same(fs[i], ps[i]) { IncreasingCounts(idx, |ps|, i); }
    TilesSame(fs, ps, final);
    WholeSame(family, fs, ps);
  }

  ghost predicate AllSame(fs: seq<Fragment>, gs: seq<Fragment>)
  {
    |fs| == |gs| && forall i :: 0 <= i < |fs| ==> Same(fs[i], gs[i])
  }

  lemma TilesSame(fs: seq<Fragment>, gs: seq<Fragment>, final: int)
    requires AllSame(fs, gs) && Tiles(gs, final)
    ensures Tiles(fs, final)
  {
    assert Same(fs[0], gs[0]) && Same(fs[|fs| - 1], gs[|fs| - 1]);
    forall i | 0 < i < |fs| ensures fs[i].offset == End(fs[i - 1]) {
      assert Same(fs[i], gs[i]) && Same(fs[i - 1], gs[i - 1]);
    }
  }

  lemma CompleteIsAll(family: Family, ps: seq<Fragment>, final: int, fs: seq<Fragment>, idx: seq<nat>)
    requires Division(family, ps, final) && Matches(fs, ps, idx) && Tiles(fs, final)
    ensures |idx| == |ps|
  {
    var n := |idx| - 1;
    DistinctBound(idx, |ps|);
    TilingCounts(family, ps, final, fs, idx, n);
    assert Same(fs[n], ps[n]);
    if n < |ps| - 1 { PartsOrdered(family, ps, final, n, |ps| - 1); }
  }

  lemma {:induction false} BodySame(fs: seq<Fragment>, gs: seq<Fragment>)
    requires AllSame(fs, gs)
    ensures Body(fs) == Body(gs)
  {
    if fs != [] {
      var n := |fs| - 1;
      BodySame(fs[..n], gs[..n]);
    }
  }

  lemma WholeSame(family: Family, fs: seq<Fragment>, gs: seq<Fragment>)
    requires AllSame(fs, gs)
    ensures Whole(family, fs) == Whole(family, gs)
  {
    BodySame(fs, gs);
    if fs != [] { assert Same(fs[0], gs[0]); }
  }
}
