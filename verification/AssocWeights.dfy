/** What two nodes weigh, stated on the observations and the activity of their entities. */
module AssocWeights {
  import opened Bytes
  import opened Indexes
  import opened AssocPairs
  import opened AssocSplit
  import opened AssocGraph
  import opened AssocClusters
  import opened AssocClustering
  import AssocCsr
  import Chains

  // ---- observations ----

  /** The pair joins an entity of `x` and one of `y`. */
  predicate Joins(p: Pair, ids: seq<int>, x: nat, y: nat)
    requires High(p) < |ids| && Low(p) < |ids|
  {
    (ids[High(p)] == x && ids[Low(p)] == y) || (ids[High(p)] == y && ids[Low(p)] == x)
  }

  /** How often entities of `x` and `y` were seen together. */
  function Seen(ps: seq<Pair>, ids: seq<int>, x: nat, y: nat): (n: nat)
    requires ValidPairs(ps, |ids|)
  {
    if ps == [] then 0
    else
      var p := ps[|ps| - 1];
      Seen(ps[..|ps| - 1], ids, x, y) + if Joins(p, ids, x, y) then p.count else 0
  }

  /** Keys as `ipAssocPackNodePair` packs them, the smaller index first. */
  predicate Canonical(ps: seq<Pair>)
  {
    forall i :: 0 <= i < |ps| ==> High(ps[i]) < Low(ps[i])
  }

  lemma KeyIs(p: Pair, x: uint32, y: uint32)
    requires High(p) < Low(p)
    ensures p.key == PackPair(x, y) <==> (High(p) == x && Low(p) == y) || (High(p) == y && Low(p) == x)
  {
    assert p.key == High(p) * TWO32 + Low(p);
  }

  lemma PackIs(a: uint32, b: uint32, x: uint32, y: uint32)
    ensures PackPair(a, b) == PackPair(x, y) <==> (a == x && b == y) || (a == y && b == x)
  {
  }

  lemma SumMapPair(ps: seq<Pair>, p: Pair, ids: seq<int>, x: uint32, y: uint32)
    requires High(p) < |ids| && Low(p) < |ids| && ValidIds(ids, TWO32) && x != y
    ensures Sum(ps + MapPair(p, ids), PackPair(x, y)) ==
            Sum(ps, PackPair(x, y)) + if Joins(p, ids, x, y) then p.count else 0
  {
    var a, b := ids[High(p)], ids[Low(p)];
    PackIs(a, b, x, y);
    if a == b { assert ps + [] == ps; } else { SumSnoc(ps, Pair(PackPair(a, b), p.count), PackPair(x, y)); }
  }

  /** The observations of a node pair are those of its entity pairs. */
  lemma {:induction false} MappedSum(ps: seq<Pair>, ids: seq<int>, x: uint32, y: uint32)
    requires ValidPairs(ps, |ids|) && ValidIds(ids, TWO32) && x != y
    ensures Sum(Mapped(ps, ids), PackPair(x, y)) == Seen(ps, ids, x, y)
  {
    if ps != [] {
      var n := |ps| - 1;
      MappedSum(ps[..n], ids, x, y);
      SumMapPair(Mapped(ps[..n], ids), ps[n], ids, x, y);
    }
  }

  // ---- coalescing keeps them, modulo 2^32 ----

  /** The sums of the keys of `c` that join `x` and `y`. */
  function SeenBy(c: seq<Pair>, ps: seq<Pair>, ids: seq<int>, x: nat, y: nat): (n: nat)
    requires ValidPairs(c, |ids|)
  {
    if c == [] then 0
    else
      var p := c[|c| - 1];
      SeenBy(c[..|c| - 1], ps, ids, x, y) + if Joins(p, ids, x, y) then Sum(ps, p.key) else 0
  }

  lemma {:induction false} SeenByNone(c: seq<Pair>, ids: seq<int>, x: nat, y: nat)
    requires ValidPairs(c, |ids|)
    ensures SeenBy(c, [], ids, x, y) == 0
  {
    if c != [] { SeenByNone(c[..|c| - 1], ids, x, y); }
  }

  /** One more observation adds to the one key it has. */
  lemma {:induction false} SeenByMore(c: seq<Pair>, ps: seq<Pair>, p: Pair, ids: seq<int>, x: nat, y: nat)
    requires ValidPairs(c, |ids|) && Increasing(c) && High(p) < |ids| && Low(p) < |ids|
    ensures SeenBy(c, ps + [p], ids, x, y) ==
            SeenBy(c, ps, ids, x, y) + if Has(c, p.key) && Joins(p, ids, x, y) then p.count else 0
  {
    if c != [] {
      var n := |c| - 1;
      SeenByMore(c[..n], ps, p, ids, x, y);
      SumSnoc(ps, p, c[n].key);
      if c[n].key == p.key {
        assert High(c[n]) == High(p) && Low(c[n]) == Low(p);
        assert Has(c, p.key) && !Has(c[..n], p.key);
      } else {
        HasLast(c, p.key);
      }
    }
  }

  lemma HasLast(c: seq<Pair>, key: nat)
    requires c != [] && c[|c| - 1].key != key
    ensures Has(c, key) <==> Has(c[..|c| - 1], key)
  {
    if Has(c, key) {
      var i :| 0 <= i < |c| && c[i].key == key;
      assert c[..|c| - 1][i].key == key;
    }
  }

  lemma {:induction false} SeenByAll(c: seq<Pair>, ps: seq<Pair>, ids: seq<int>, x: nat, y: nat)
    requires ValidPairs(c, |ids|) && Increasing(c) && ValidPairs(ps, |ids|)
    requires forall i :: 0 <= i < |ps| ==> Has(c, ps[i].key)
    ensures SeenBy(c, ps, ids, x, y) == Seen(ps, ids, x, y)
  {
    if ps == [] {
      SeenByNone(c, ids, x, y);
    } else {
      var n := |ps| - 1;
      SeenByAll(c, ps[..n], ids, x, y);
      SeenByMore(c, ps[..n], ps[n], ids, x, y);
      assert ps == ps[..n] + [ps[n]];
    }
  }

  lemma AddMod(a: nat, b: nat, c: nat)
    requires a % TWO32 == b % TWO32
    ensures (a + c % TWO32) % TWO32 == (b + c) % TWO32
  {
    WrapSum(a, c % TWO32);
    WrapSum(b, c);
    WrapSum(c, b % TWO32);
  }

  lemma {:induction false} SeenWraps(c: seq<Pair>, ps: seq<Pair>, ids: seq<int>, x: nat, y: nat)
    requires ValidPairs(c, |ids|) && forall i :: 0 <= i < |c| ==> c[i].count == Sum(ps, c[i].key) % TWO32
    ensures Seen(c, ids, x, y) % TWO32 == SeenBy(c, ps, ids, x, y) % TWO32
  {
    if c != [] {
      var n := |c| - 1;
      SeenWraps(c[..n], ps, ids, x, y);
      if Joins(c[n], ids, x, y) { AddMod(Seen(c[..n], ids, x, y), SeenBy(c[..n], ps, ids, x, y), Sum(ps, c[n].key)); }
    }
  }

  /** Coalescing loses no observation of any two nodes, modulo 2^32. */
  lemma CoalescedSeen(c: seq<Pair>, ps: seq<Pair>, ids: seq<int>, x: nat, y: nat)
    requires Coalesces(c, ps) && ValidPairs(c, |ids|) && ValidPairs(ps, |ids|)
    ensures Seen(c, ids, x, y) % TWO32 == Seen(ps, ids, x, y) % TWO32
  {
    forall i | 0 <= i < |ps| ensures Has(c, ps[i].key) { assert Has(ps, ps[i].key); }
    SeenWraps(c, ps, ids, x, y);
    SeenByAll(c, ps, ids, x, y);
  }

  // ---- node pairs ----

  lemma {:induction false} SumNone(ps: seq<Pair>, key: nat)
    requires !Has(ps, key)
    ensures Sum(ps, key) == 0
  {
    if ps != [] {
      assert ps[|ps| - 1].key != key;
      HasLast(ps, key);
      SumNone(ps[..|ps| - 1], key);
    }
  }

  lemma {:induction false} SumOne(ps: seq<Pair>, i: nat)
    requires Increasing(ps) && i < |ps|
    ensures Sum(ps, ps[i].key) == ps[i].count
  {
    var n := |ps| - 1;
    if i == n {
      assert !Has(ps[..n], ps[n].key);
      SumNone(ps[..n], ps[n].key);
    } else {
      SumOne(ps[..n], i);
    }
  }

  lemma CoalescedSum(c: seq<Pair>, ps: seq<Pair>, key: nat)
    requires Coalesces(c, ps)
    ensures Sum(c, key) == Sum(ps, key) % TWO32
  {
    if Has(c, key) {
      var i :| 0 <= i < |c| && c[i].key == key;
      SumOne(c, i);
    } else {
      SumNone(c, key);
      SumNone(ps, key);
    }
  }

  lemma {:induction false} IdentitySeen(ps: seq<Pair>, ids: seq<int>, x: uint32, y: uint32)
    requires ValidPairs(ps, |ids|) && Canonical(ps) && forall i :: 0 <= i < |ids| ==> ids[i] == i
    ensures Sum(ps, PackPair(x, y)) == Seen(ps, ids, x, y)
  {
    if ps != [] {
      IdentitySeen(ps[..|ps| - 1], ids, x, y);
      KeyIs(ps[|ps| - 1], x, y);
    }
  }

  lemma {:induction false} MappedCanonical(ps: seq<Pair>, ids: seq<int>)
    requires ValidPairs(ps, |ids|) && ValidIds(ids, TWO32)
    ensures Canonical(Mapped(ps, ids))
  {
    if ps != [] { MappedCanonical(ps[..|ps| - 1], ids); }
  }

  lemma CoalescedCanonical(c: seq<Pair>, ps: seq<Pair>)
    requires Coalesces(c, ps) && Canonical(ps)
    ensures Canonical(c)
  {
    forall i | 0 <= i < |c| ensures High(c[i]) < Low(c[i]) {
      assert Has(ps, c[i].key);
      var j :| 0 <= j < |ps| && ps[j].key == c[i].key;
      assert High(ps[j]) == High(c[i]) && Low(ps[j]) == Low(c[i]);
    }
  }

  /** The count of a node pair is that of the observations of its entities, modulo 2^32. */
  lemma NodePairCount(m: Matrix, u: Universe, ps: seq<Pair>, x: uint32, y: uint32)
    requires ValidMatrix(m) && NodesByName(m, u) && PairsOf(m, u, ps) && Canonical(m.pairs) && x != y
    ensures Increasing(ps) && Canonical(ps) && Sum(ps, PackPair(x, y)) == Seen(m.pairs, u.ids, x, y) % TWO32
  {
    var c :| IsNodePairs(m, u, c, ps);
    if Unmerged(m, u) && ps == c {
      CoalescedCanonical(c, m.pairs);
      CoalescedSum(c, m.pairs, PackPair(x, y));
      IdentitySeen(m.pairs, u.ids, x, y);
    } else {
      MappedCanonical(c, u.ids);
      CoalescedCanonical(ps, Mapped(c, u.ids));
      CoalescedSum(ps, Mapped(c, u.ids), PackPair(x, y));
      MappedSum(c, u.ids, x, y);
      CoalescedSeen(c, m.pairs, u.ids, x, y);
    }
  }

  // ---- weights ----

  /** `w` is how often the rarer of two was seen with the other, at most once for each time it was active. */
  predicate IsRate(w: real, seen: nat, rarer: nat)
  {
    if seen == 0 || rarer == 0 then w == 0.0 else w * rarer as real == Min(seen, rarer) as real
  }

  lemma ProbabilityIsRate(p: Pair, nodeCounts: seq<nat>)
    requires High(p) < |nodeCounts| && Low(p) < |nodeCounts| && Associates(p, nodeCounts)
    ensures IsRate(Probability(p, nodeCounts), p.count, Min(nodeCounts[High(p)], nodeCounts[Low(p)]))
  {
    Ratio(p.count as real, Min(nodeCounts[High(p)], nodeCounts[Low(p)]) as real);
  }

  lemma Ratio(n: real, c: real)
    requires 0.0 < c
    ensures n / c * c == n && (n / c <= 1.0 <==> n <= c)
  {
    var q := n / c;
    if q <= 1.0 { assert (1.0 - q) * c >= 0.0; } else { assert (q - 1.0) * c > 0.0; }
  }

  lemma {:induction false} AssociationIsRate(ps: seq<Pair>, nodeCounts: seq<nat>, keep: seq<bool>, x: uint32, y: uint32)
    requires ValidPairs(ps, |nodeCounts|) && |keep| == |nodeCounts| && Increasing(ps) && Canonical(ps)
    requires x < |keep| && y < |keep| && x != y
    ensures var seen := if keep[Min(x, y)] then Sum(ps, PackPair(x, y)) else 0;
            IsRate(Association(ps, nodeCounts, keep, x, y), seen, Min(nodeCounts[x], nodeCounts[y]))
  {
    if ps != [] {
      var n := |ps| - 1;
      var p := ps[n];
      AssociationIsRate(ps[..n], nodeCounts, keep, x, y);
      KeyIs(p, x, y);
      SamePair(High(p), Low(p), x, y);
      if p.key == PackPair(x, y) {
        assert !Has(ps[..n], p.key);
        SumNone(ps[..n], p.key);
        if Associates(p, nodeCounts) { ProbabilityIsRate(p, nodeCounts); }
      }
    }
  }

  /** The activity of the less active of two nodes. */
  function Rarer(m: Matrix, u: Universe, x: nat, y: nat): (n: nat)
    requires |u.ids| == |m.counts|
  {
    Min(NodeCount(u.ids, m.counts, x), NodeCount(u.ids, m.counts, y))
  }

  /** What the clustering pass says of its graph. */
  ghost predicate Graphs(m: Matrix, u: Universe, g: Graph, adj: Adjacency, most: int)
  {
    && ValidMatrix(m) && NodesByName(m, u) && PairsOf(m, u, g.pairs) && |g.nodeCounts| == u.n == |adj|
    && IsCounts(g.nodeCounts, u.ids, m.counts) && ValidGraph(g, most) && Weighted(adj, g) && Canonical(m.pairs)
  }

  lemma KeyAssociates(p: Pair, nodeCounts: seq<nat>, x: uint32, y: uint32)
    requires High(p) < Low(p) < |nodeCounts| && x < |nodeCounts| && y < |nodeCounts| && x != y
    ensures p.key == PackPair(x, y) <==> {High(p), Low(p)} == {x, y}
    ensures p.key == PackPair(x, y) ==>
              (Associates(p, nodeCounts) <==> 0 < p.count && 0 < Min(nodeCounts[x], nodeCounts[y]))
  {
    KeyIs(p, x, y);
    SamePair(High(p), Low(p), x, y);
  }

  lemma PairBond(ps: seq<Pair>, nodeCounts: seq<nat>, x: uint32, y: uint32)
    requires ValidPairs(ps, |nodeCounts|) && Increasing(ps) && Canonical(ps) && x != y
    requires x < |nodeCounts| && y < |nodeCounts|
    ensures Bond(ps, nodeCounts, x, y) <==> 0 < Sum(ps, PackPair(x, y)) && 0 < Min(nodeCounts[x], nodeCounts[y])
  {
    var key, active := PackPair(x, y), 0 < Min(nodeCounts[x], nodeCounts[y]);
    forall k | 0 <= k < |ps|
      ensures Associates(ps[k], nodeCounts) && {High(ps[k]), Low(ps[k])} == {x, y} <==>
                ps[k].key == key && 0 < ps[k].count && active
    {
      KeyAssociates(ps[k], nodeCounts, x, y);
    }
    if Has(ps, key) {
      var k :| 0 <= k < |ps| && ps[k].key == key;
      SumOne(ps, k);
    } else {
      SumNone(ps, key);
    }
    if Bond(ps, nodeCounts, x, y) {
      var k :| 0 <= k < |ps| && Associates(ps[k], nodeCounts) && {High(ps[k]), Low(ps[k])} == {x, y};
      SumOne(ps, k);
    }
  }

  /** Two nodes are bonded exactly when they were seen together and both were active. */
  lemma BondExactly(m: Matrix, u: Universe, g: Graph, adj: Adjacency, most: int, x: uint32, y: uint32)
    requires Graphs(m, u, g, adj, most) && x < u.n && y < u.n && x != y
    ensures Bond(g.pairs, g.nodeCounts, x, y) <==>
              0 < Seen(m.pairs, u.ids, x, y) % TWO32 && 0 < Rarer(m, u, x, y)
  {
    NodePairCount(m, u, g.pairs, x, y);
    PairBond(g.pairs, g.nodeCounts, x, y);
  }

  lemma BondedKept(g: Graph, most: int, x: nat, y: nat)
    requires ValidGraph(g, most) && x < |g.roots| && y < |g.roots| && Bond(g.pairs, g.nodeCounts, x, y)
    ensures g.roots[x] == g.roots[y] && g.keep[x] == g.keep[y]
  {
    var rel := Bonds(g.pairs, g.nodeCounts);
    Chains.LinkedSelf(rel, |g.roots|, x);
    Chains.LinkedHop(rel, |g.roots|, x, x, y);
    assert Clusterable(g.roots, x, most) <==> Clusterable(g.roots, y, most);
  }

  // ---- which components are clustered ----

  function RootedAt(roots: seq<nat>, r: nat): (s: set<nat>)
  {
    set i: nat | i < |roots| && roots[i] == r
  }

  lemma {:induction false} SizeIsCardinality(roots: seq<nat>, r: nat)
    ensures SizeOf(roots, r) == |RootedAt(roots, r)|
    decreases |roots|
  {
    if roots == [] {
      assert RootedAt(roots, r) == {};
    } else {
      var n := |roots| - 1;
      var before, all := RootedAt(roots[..n], r), RootedAt(roots, r);
      SizeIsCardinality(roots[..n], r);
      assert all == if roots[n] == r then before + {n} else before;
      assert n !in before;
    }
  }

  /** The nodes linked to `x` by associations, directly or through others, and itself. */
  ghost function Reach(g: Graph, x: nat): (s: set<nat>)
    requires ValidPairs(g.pairs, |g.nodeCounts|)
  {
    set y: nat | y < |g.nodeCounts| && Chains.Linked(Bonds(g.pairs, g.nodeCounts), |g.nodeCounts|, x, y)
  }

  /**
   * A node is clustered with others exactly when associations link between two and `most` nodes to it; and two nodes
   * that are so are in one component exactly when they are linked.
   */
  lemma NumberedExactly(g: Graph, most: int, x: nat, y: nat)
    requires ValidGraph(g, most) && x < |g.comps| && y < |g.comps|
    ensures g.comps[x] == -1 || 0 <= g.comps[x] < g.count
    ensures 0 <= g.comps[x] <==> 2 <= |Reach(g, x)| <= most
    ensures 0 <= g.comps[x] ==> (g.comps[x] == g.comps[y] <==> y in Reach(g, x))
  {
    var r := g.roots[x];
    SizeIsCardinality(g.roots, r);
    assert RootedAt(g.roots, r) == Reach(g, x);
    if g.roots[x] == g.roots[y] { assert Clusterable(g.roots, x, most) <==> Clusterable(g.roots, y, most); }
  }

  /** What two nodes of the graph weigh: the rate of their observations in a kept component, nothing elsewhere. */
  lemma WeightExactly(m: Matrix, u: Universe, g: Graph, adj: Adjacency, most: int, x: uint32, y: uint32)
    requires Graphs(m, u, g, adj, most) && x < u.n && y < u.n && x != y
    ensures var seen := Seen(m.pairs, u.ids, x, y) % TWO32;
            IsRate(Weight(adj[x], y), if g.keep[x] then seen else 0, Rarer(m, u, x, y))
  {
    NodePairCount(m, u, g.pairs, x, y);
    AssociationIsRate(g.pairs, g.nodeCounts, g.keep, x, y);
    BondExactly(m, u, g, adj, most, x, y);
    if Bond(g.pairs, g.nodeCounts, x, y) { BondedKept(g, most, x, y); }
  }

  // ---- a component of two nodes ----

  lemma {:induction false} NoSelf(ps: seq<Pair>, nodeCounts: seq<nat>, keep: seq<bool>, x: nat)
    requires ValidPairs(ps, |nodeCounts|) && |keep| == |nodeCounts|
    ensures Association(ps, nodeCounts, keep, x, x) == 0.0
  {
    if ps != [] { NoSelf(ps[..|ps| - 1], nodeCounts, keep, x); }
  }

  /** Of two nodes each has the other's association for its mean. */
  lemma MeanOfTwo(adj: Adjacency, x: nat, y: nat)
    requires x < |adj| && y < |adj| && x != y && Weight(adj[x], x) == 0.0
    ensures Mean(adj, {x, y}, 2, x) == Weight(adj[x], y)
  {
    MassRemove(adj[x], {x, y}, x);
    assert {x, y} - {x} == {y};
  }

  /** The nodes weigh each other alike and themselves nothing. */
  predicate TwoSided(adj: Adjacency, x: nat, y: nat)
    requires x < |adj| && y < |adj|
  {
    Weight(adj[x], x) == 0.0 == Weight(adj[y], y) && Weight(adj[x], y) == Weight(adj[y], x)
  }

  /** Two nodes are cohesive exactly when their association meets the threshold. */
  lemma CohesiveTwo(adj: Adjacency, threshold: real, nodes: seq<nat>, x: nat, y: nat)
    requires x < |adj| && y < |adj| && x != y && (nodes == [x, y] || nodes == [y, x])
    requires TwoSided(adj, x, y)
    ensures IsCohesive(adj, nodes, threshold) <==> threshold <= Weight(adj[x], y)
  {
    assert Members(nodes) == {x, y} == {y, x};
    MeanOfTwo(adj, x, y);
    MeanOfTwo(adj, y, x);
    assert nodes[0] in {x, y} && nodes[1] in {x, y};
  }

  /** Seen together at least the threshold times the activity of the rarer one. */
  predicate Enough(threshold: real, seen: nat, rarer: nat)
  {
    threshold * rarer as real <= seen as real
  }

  lemma RateMeets(w: real, seen: nat, rarer: nat, threshold: real)
    requires IsRate(w, seen, rarer) && 0 < seen && 0 < rarer && threshold <= 1.0
    ensures threshold <= w <==> Enough(threshold, seen, rarer)
  {
    var c := rarer as real;
    if threshold <= w { assert (w - threshold) * c >= 0.0; } else { assert (threshold - w) * c > 0.0; }
    assert (1.0 - threshold) * c >= 0.0;
  }

  /** The nodes numbered `c` are `x` and `y`. */
  ghost predicate TwoOf(comps: seq<int>, c: nat, x: nat, y: nat)
  {
    && x < |comps| && y < |comps| && x != y
    && forall z: nat :: z < |comps| ==> (comps[z] == c <==> z == x || z == y)
  }

  /** The only two nodes of a component are bonded with each other. */
  lemma TwoAreBonded(g: Graph, most: int, c: nat, x: nat, y: nat)
    requires ValidGraph(g, most) && c < g.count && TwoOf(g.comps, c, x, y)
    ensures Bond(g.pairs, g.nodeCounts, x, y) && g.keep[x]
  {
    var rel, n := Bonds(g.pairs, g.nodeCounts), |g.roots|;
    assert g.keep[x] && g.keep[y] && g.comps[x] == g.comps[y] == c;
    assert Chains.Linked(rel, n, x, y);
    var chain :| Chains.IsChain(rel, n, chain) && Chains.First(chain) == x && Chains.Last(chain) == y;
    var z := Chains.Last(chain.chain);
    assert Bond(g.pairs, g.nodeCounts, z, y);
    BondDiffers(g.pairs, g.nodeCounts, z, y);
    ChainInside(rel, n, chain.chain);
    BondedKept(g, most, z, y);
    assert g.comps[z] == g.comps[y];
  }

  lemma ChainInside(rel: Chains.Relation, n: nat, chain: Chains.Chain)
    requires Chains.IsChain(rel, n, chain)
    ensures Chains.Last(chain) < n
  {
  }

  lemma BondDiffers(ps: seq<Pair>, nodeCounts: seq<nat>, x: nat, y: nat)
    requires ValidPairs(ps, |nodeCounts|) && Bond(ps, nodeCounts, x, y)
    ensures x != y
  {
    var k :| 0 <= k < |ps| && Associates(ps[k], nodeCounts) && {High(ps[k]), Low(ps[k])} == {x, y};
    assert High(ps[k]) in {x, y} && Low(ps[k]) in {x, y};
  }

  /** A list of distinct numbers among two that has both is one of the two orders. */
  lemma BothOrders(nodes: seq<nat>, x: nat, y: nat)
    requires Distinct(nodes) && x in nodes && y in nodes && x != y && forall z :: z in nodes ==> z == x || z == y
    ensures nodes == [x, y] || nodes == [y, x]
  {
    MembersSize(nodes);
    assert Members(nodes) == {x, y};
  }

  lemma OnlyOne(nodes: seq<nat>, x: nat)
    requires Distinct(nodes) && x in nodes && forall z :: z in nodes ==> z == x
    ensures nodes == [x]
  {
    MembersSize(nodes);
    assert Members(nodes) == {x};
  }

  /** The nodes are in one cluster. */
  ghost predicate OneCluster(owner: map<nat, seq<nat>>, x: nat, y: nat)
  {
    x in owner && y in owner[x]
  }

  /** Where two nodes are not in one cluster, no cluster of several took either. */
  lemma ApartIsLoose(comps: seq<int>, owner: map<nat, seq<nat>>, n: nat, c: nat, x: nat, y: nat)
    requires Owners(owner, n) && OneComponent(owner, comps) && TwoOf(comps, c, x, y) && !OneCluster(owner, x, y)
    ensures Loose(owner, x)
  {
    if x in owner {
      assert OwnedBy(owner, n, x, owner[x]) && AllBeside(comps, x, owner[x]);
      OnlyOne(owner[x], x);
    }
  }

  lemma ApartBothWays(owner: map<nat, seq<nat>>, n: nat, x: nat, y: nat)
    requires Owners(owner, n) && OneCluster(owner, x, y)
    ensures OneCluster(owner, y, x)
  {
    assert OwnedBy(owner, n, x, owner[x]);
    var i :| 0 <= i < |owner[x]| && owner[x][i] == y;
    assert owner[owner[x][i]] == owner[x];
  }

  lemma TogetherIsCohesive(u: Universe, adj: Adjacency, threshold: real, comps: seq<int>, owner: map<nat, seq<nat>>,
                           c: nat, x: nat, y: nat)
    requires Owners(owner, u.n) && OneComponent(owner, comps) && Justified(u, owner, adj, threshold)
    requires TwoOf(comps, c, x, y) && OneCluster(owner, x, y)
    ensures IsCohesive(adj, owner[x], threshold) && (owner[x] == [x, y] || owner[x] == [y, x])
  {
    assert OwnedBy(owner, u.n, x, owner[x]) && AllBeside(comps, x, owner[x]);
    BothOrders(owner[x], x, y);
  }

  lemma IndicesAre(comps: seq<int>, c: nat, x: nat, y: nat)
    requires TwoOf(comps, c, x, y)
    ensures forall z: nat :: z in AssocCsr.Indices(comps, c) <==> z == x || z == y
  {
    AssocCsr.IndicesContain(comps, x);
    AssocCsr.IndicesContain(comps, y);
  }

  lemma ApartIsLeft(adj: Adjacency, threshold: real, comps: seq<int>, owner: map<nat, seq<nat>>, n: nat, c: nat, x: nat,
                    y: nat) returns (left: seq<nat>)
    requires Owners(owner, n) && OneComponent(owner, comps) && TwoOf(comps, c, x, y) && !OneCluster(owner, x, y)
    requires Exhausted(adj, threshold, AssocCsr.Indices(comps, c), owner)
    ensures (left == [x, y] || left == [y, x]) && Peels(adj, threshold, left)
  {
    IndicesAre(comps, c, x, y);
    ApartIsLoose(comps, owner, n, c, x, y);
    if OneCluster(owner, y, x) { ApartBothWays(owner, n, y, x); }
    ApartIsLoose(comps, owner, n, c, y, x);
    left :| LeftOver(AssocCsr.Indices(comps, c), owner, left) && (|left| < 2 || Peels(adj, threshold, left));
    assert x in left && y in left;
    BothOrders(left, x, y);
  }

  lemma ClusteredIffMet(u: Universe, adj: Adjacency, threshold: real, comps: seq<int>, owner: map<nat, seq<nat>>,
                        c: nat, x: nat, y: nat)
    requires Owners(owner, u.n) && Justified(u, owner, adj, threshold) && OneComponent(owner, comps)
    requires Exhausted(adj, threshold, AssocCsr.Indices(comps, c), owner) && TwoOf(comps, c, x, y)
    requires x < |adj| && y < |adj| && TwoSided(adj, x, y)
    ensures OneCluster(owner, x, y) <==> threshold <= Weight(adj[x], y)
  {
    if OneCluster(owner, x, y) {
      TogetherIsCohesive(u, adj, threshold, comps, owner, c, x, y);
      CohesiveTwo(adj, threshold, owner[x], x, y);
    } else {
      var left := ApartIsLeft(adj, threshold, comps, owner, u.n, c, x, y);
      CohesiveTwo(adj, threshold, left, x, y);
      if IsCohesive(adj, left, threshold) { CohesiveNeverPeels(adj, threshold, left); }
    }
  }

  lemma TwoWeights(g: Graph, adj: Adjacency, x: nat, y: nat)
    requires ValidPairs(g.pairs, |g.nodeCounts|) && |g.keep| == |g.nodeCounts| && Weighted(adj, g)
    requires x < |adj| && y < |adj|
    ensures TwoSided(adj, x, y)
  {
    NoSelf(g.pairs, g.nodeCounts, g.keep, x);
    NoSelf(g.pairs, g.nodeCounts, g.keep, y);
    AssociationSymmetric(g.pairs, g.nodeCounts, g.keep, x, y);
  }

  /**
   * The two nodes of a component end in one cluster if and only if they were seen together at least the threshold
   * times the activity of the rarer one.
   */
  lemma TwoNodesExactly(m: Matrix, u: Universe, g: Graph, adj: Adjacency, most: int, threshold: real,
                        owner: map<nat, seq<nat>>, c: nat, x: uint32, y: uint32)
    requires Graphs(m, u, g, adj, most) && threshold <= 1.0 && Owners(owner, u.n)
    requires Justified(u, owner, adj, threshold) && AllExhausted(adj, threshold, g.comps, g.count, owner)
    requires OneComponent(owner, g.comps) && c < g.count && TwoOf(g.comps, c, x, y)
    ensures OneCluster(owner, x, y) <==> Enough(threshold, Seen(m.pairs, u.ids, x, y) % TWO32, Rarer(m, u, x, y))
  {
    var seen, rarer, w := Seen(m.pairs, u.ids, x, y) % TWO32, Rarer(m, u, x, y), Weight(adj[x], y);
    assert IsRate(w, seen, rarer) && 0 < seen && 0 < rarer by {
      TwoAreBonded(g, most, c, x, y);
      BondExactly(m, u, g, adj, most, x, y);
      WeightExactly(m, u, g, adj, most, x, y);
    }
    RateMeets(w, seen, rarer, threshold);
    TwoWeights(g, adj, x, y);
    ClusteredIffMet(u, adj, threshold, g.comps, owner, c, x, y);
  }

  // ---- clusters of any size ----

  /** The associations of a row with the nodes, one by one. */
  function WeightSum(row: seq<Edge>, nodes: seq<nat>): (w: real)
    decreases |nodes|
  {
    if nodes == [] then 0.0 else WeightSum(row, nodes[..|nodes| - 1]) + Weight(row, nodes[|nodes| - 1])
  }

  lemma {:induction false} NoMass(row: seq<Edge>)
    ensures Mass(row, {}) == 0.0
  {
    if row != [] { NoMass(row[..|row| - 1]); }
  }

  lemma {:induction false} MassIsSum(row: seq<Edge>, nodes: seq<nat>)
    requires Distinct(nodes)
    ensures Mass(row, Members(nodes)) == WeightSum(row, nodes)
    decreases |nodes|
  {
    if nodes == [] {
      assert Members(nodes) == {};
      NoMass(row);
    } else {
      var n := |nodes| - 1;
      MassIsSum(row, nodes[..n]);
      assert nodes == nodes[..n] + [nodes[n]];
      assert Members(nodes[..n]) == Members(nodes) - {nodes[n]};
      MassRemove(row, Members(nodes), nodes[n]);
    }
  }

  /** The associations with `others` nodes reach the threshold on average. */
  predicate AddsUp(threshold: real, others: nat, sum: real) { threshold * others as real <= sum }

  lemma Divides(m: real, others: nat, threshold: real)
    requires 0 < others
    ensures threshold <= m / others as real <==> AddsUp(threshold, others, m)
  {
    var k := others as real;
    assert m == m / k * k;
    if threshold <= m / k { assert 0.0 <= (m / k - threshold) * k; } else { assert 0.0 < (threshold - m / k) * k; }
  }

  lemma MeetsMean(adj: Adjacency, nodes: seq<nat>, threshold: real, node: nat)
    requires Distinct(nodes) && 2 <= |nodes| && node < |adj|
    ensures threshold <= Mean(adj, Members(nodes), |nodes|, node) <==>
            AddsUp(threshold, |nodes| - 1, WeightSum(adj[node], nodes))
  {
    var mass, others := Mass(adj[node], Members(nodes)), |nodes| - 1;
    assert mass == WeightSum(adj[node], nodes) by { MassIsSum(adj[node], nodes); }
    assert Mean(adj, Members(nodes), |nodes|, node) == mass / others as real;
    Divides(mass, others, threshold);
  }

  /**
   * A cluster of any size is cohesive exactly when each member's associations with the members add up to the threshold
   * times the number of the others.
   */
  lemma CohesiveExactly(adj: Adjacency, nodes: seq<nat>, threshold: real)
    requires Within(nodes, |adj|) && Distinct(nodes) && 2 <= |nodes|
    ensures Cohesive(adj, nodes, threshold) <==>
            forall i :: 0 <= i < |nodes| ==> AddsUp(threshold, |nodes| - 1, WeightSum(adj[nodes[i]], nodes))
  {
    forall i | 0 <= i < |nodes|
      ensures threshold <= Mean(adj, Members(nodes), |nodes|, nodes[i]) <==>
              AddsUp(threshold, |nodes| - 1, WeightSum(adj[nodes[i]], nodes)) {
      MeetsMean(adj, nodes, threshold, nodes[i]);
    }
  }
}
