/** The association graph of the merged nodes: pairs, components and symmetric adjacency. */
module AssocGraph {
  import opened Bytes
  import opened UnionFind
  import opened AssocPairs
  import opened AssocNodes
  import opened AssocSplit
  import AssocCsr
  import Chains

  function High(p: Pair): (a: nat) { p.key / TWO32 }

  function Low(p: Pair): (b: nat) { p.key % TWO32 }

  /** Pairs of two different indices below `n`. */
  predicate ValidPairs(ps: seq<Pair>, n: nat)
  {
    forall i :: 0 <= i < |ps| ==> High(ps[i]) < n && Low(ps[i]) < n && High(ps[i]) != Low(ps[i])
  }

  lemma CoalescedValid(c: seq<Pair>, ps: seq<Pair>, n: nat)
    requires Coalesces(c, ps) && ValidPairs(ps, n)
    ensures ValidPairs(c, n)
  {
    forall i | 0 <= i < |c| ensures High(c[i]) < n && Low(c[i]) < n && High(c[i]) != Low(c[i]) {
      assert Has(ps, c[i].key);
      var j :| 0 <= j < |ps| && ps[j].key == c[i].key;
      assert High(ps[j]) == High(c[i]) && Low(ps[j]) == Low(c[i]);
    }
  }

  predicate ValidIds(ids: seq<int>, n: nat)
  {
    forall i :: 0 <= i < |ids| ==> 0 <= ids[i] < n
  }

  /** The observation on node numbers, none where both entities are of one node. */
  function MapPair(p: Pair, ids: seq<int>): (r: seq<Pair>)
    requires High(p) < |ids| && Low(p) < |ids| && ValidIds(ids, TWO32)
  {
    var a, b := ids[High(p)], ids[Low(p)];
    if a == b then [] else [Pair(PackPair(a, b), p.count)]
  }

  /** Every observation of two different nodes, on node numbers. */
  function Mapped(ps: seq<Pair>, ids: seq<int>): (r: seq<Pair>)
    requires ValidPairs(ps, |ids|) && ValidIds(ids, TWO32)
  {
    if ps == [] then [] else Mapped(ps[..|ps| - 1], ids) + MapPair(ps[|ps| - 1], ids)
  }

  lemma MapPairValid(p: Pair, ids: seq<int>, n: nat)
    requires High(p) < |ids| && Low(p) < |ids| && ValidIds(ids, n) && n < TWO32
    ensures ValidPairs(MapPair(p, ids), n)
  {
  }

  /** The pairs of different nodes, on node numbers, each node pair once with all of its observations. */
  method Remap(ps: seq<Pair>, ids: seq<int>, n: nat) returns (r: seq<Pair>)
    requires ValidPairs(ps, |ids|) && n < TWO32 && ValidIds(ids, n)
    ensures ValidPairs(r, n) && Coalesces(r, Mapped(ps, ids))
  {
    var remapped: seq<Pair> := [];
    for i := 0 to |ps|
      invariant ValidPairs(remapped, n) && remapped == Mapped(ps[..i], ids)
    {
      assert ps[..i + 1][..i] == ps[..i];
      MapPairValid(ps[i], ids, n);
      remapped := remapped + MapPair(ps[i], ids);
    }
    assert ps[..|ps|] == ps;
    r := Coalesce(remapped);
    CoalescedValid(r, remapped, n);
  }

  // ---- node counts ----

  /** The activity of all the entities of a node. */
  function NodeCount(ids: seq<int>, counts: seq<nat>, node: int): (n: nat)
    requires |ids| == |counts|
  {
    if ids == [] then 0
    else
      var k := |ids| - 1;
      NodeCount(ids[..k], counts[..k], node) + if ids[k] == node then counts[k] else 0
  }

  ghost predicate IsCounts(nodeCounts: seq<nat>, ids: seq<int>, counts: seq<nat>)
    requires |ids| == |counts|
  {
    forall k :: 0 <= k < |nodeCounts| ==> nodeCounts[k] == NodeCount(ids, counts, k)
  }

  lemma CountsStep(nodeCounts: seq<nat>, ids: seq<int>, counts: seq<nat>, i: nat)
    requires |ids| == |counts| && i < |ids| && 0 <= ids[i] < |nodeCounts| && IsCounts(nodeCounts, ids[..i], counts[..i])
    ensures IsCounts(nodeCounts[ids[i] := nodeCounts[ids[i]] + counts[i]], ids[..i + 1], counts[..i + 1])
  {
    assert ids[..i + 1][..i] == ids[..i] && counts[..i + 1][..i] == counts[..i];
  }

  method NodeCounts(ids: seq<int>, counts: seq<nat>, n: nat) returns (nodeCounts: seq<nat>)
    requires |ids| == |counts| && forall i :: 0 <= i < |ids| ==> 0 <= ids[i] < n
    ensures |nodeCounts| == n && IsCounts(nodeCounts, ids, counts)
  {
    nodeCounts := seq(n, i => 0);
    for i := 0 to |ids|
      invariant |nodeCounts| == n && IsCounts(nodeCounts, ids[..i], counts[..i])
    {
      CountsStep(nodeCounts, ids, counts, i);
      nodeCounts := nodeCounts[ids[i] := nodeCounts[ids[i]] + counts[i]];
    }
    assert ids[..|ids|] == ids && counts[..|counts|] == counts;
  }

  // ---- components ----

  /** The pair associates its nodes: it was observed, and both nodes were active. */
  predicate Associates(p: Pair, nodeCounts: seq<nat>)
    requires High(p) < |nodeCounts| && Low(p) < |nodeCounts|
  {
    0 < p.count && 0 < Min(nodeCounts[High(p)], nodeCounts[Low(p)])
  }

  ghost predicate Together(ps: seq<Pair>, nodeCounts: seq<nat>, roots: seq<nat>, upto: nat)
    requires ValidPairs(ps, |nodeCounts|) && |roots| == |nodeCounts|
  {
    forall i :: 0 <= i < upto && i < |ps| && Associates(ps[i], nodeCounts) ==> roots[High(ps[i])] == roots[Low(ps[i])]
  }

  lemma TogetherUnion(ps: seq<Pair>, nodeCounts: seq<nat>, roots: seq<nat>, i: nat)
    requires ValidPairs(ps, |nodeCounts|) && |roots| == |nodeCounts| && i < |ps| && Together(ps, nodeCounts, roots, i)
    ensures Together(ps, nodeCounts, Replaced(roots, roots[Low(ps[i])], roots[High(ps[i])]), i + 1)
  {
  }

  /** Some pair associates the two nodes. */
  ghost predicate Bond(ps: seq<Pair>, nodeCounts: seq<nat>, i: nat, j: nat)
    requires ValidPairs(ps, |nodeCounts|)
  {
    exists k :: 0 <= k < |ps| && Associates(ps[k], nodeCounts) && {High(ps[k]), Low(ps[k])} == {i, j}
  }

  ghost function Bonds(ps: seq<Pair>, nodeCounts: seq<nat>): (rel: Chains.Relation)
    requires ValidPairs(ps, |nodeCounts|)
  {
    (i: nat, j: nat) => Bond(ps, nodeCounts, i, j)
  }

  lemma PairBonds(ps: seq<Pair>, nodeCounts: seq<nat>, k: nat)
    requires ValidPairs(ps, |nodeCounts|) && k < |ps| && Associates(ps[k], nodeCounts)
    ensures Bonds(ps, nodeCounts)(High(ps[k]), Low(ps[k])) && Bonds(ps, nodeCounts)(Low(ps[k]), High(ps[k]))
  {
    assert {High(ps[k]), Low(ps[k])} == {Low(ps[k]), High(ps[k])};
  }

  lemma TogetherRespects(ps: seq<Pair>, nodeCounts: seq<nat>, roots: seq<nat>)
    requires ValidPairs(ps, |nodeCounts|) && |roots| == |nodeCounts| && Together(ps, nodeCounts, roots, |ps|)
    ensures Chains.Respects(Bonds(ps, nodeCounts), roots)
  {
    forall i: nat, j: nat | i < |roots| && j < |roots| && Bonds(ps, nodeCounts)(i, j) ensures roots[i] == roots[j] {
      var k :| 0 <= k < |ps| && Associates(ps[k], nodeCounts) && {High(ps[k]), Low(ps[k])} == {i, j};
      SamePair(High(ps[k]), Low(ps[k]), i, j);
    }
  }

  /** Two nodes are in one component exactly when a chain of associations links them. */
  method Components(ps: seq<Pair>, nodeCounts: seq<nat>) returns (sets: Sets)
    requires ValidPairs(ps, |nodeCounts|)
    ensures fresh(sets) && sets.Valid() && |sets.parent| == |nodeCounts|
            && Chains.Classes(Bonds(ps, nodeCounts), sets.Roots())
  {
    sets := new Sets(|nodeCounts|);
    Chains.SingleOnlyLinked(Bonds(ps, nodeCounts), sets.Roots());
    for i := 0 to |ps|
      invariant sets.Valid() && |sets.parent| == |nodeCounts| && Together(ps, nodeCounts, sets.Roots(), i)
      invariant Chains.OnlyLinked(Bonds(ps, nodeCounts), sets.Roots())
    {
      if Associates(ps[i], nodeCounts) {
        PairBonds(ps, nodeCounts, i);
        Chains.UnionOnlyLinked(Bonds(ps, nodeCounts), sets.Roots(), High(ps[i]), Low(ps[i]));
        TogetherUnion(ps, nodeCounts, sets.Roots(), i);
        sets.Union(High(ps[i]), Low(ps[i]));
      }
    }
    TogetherRespects(ps, nodeCounts, sets.Roots());
    Chains.RootsAreClasses(Bonds(ps, nodeCounts), sets.Roots());
  }

  /** How many elements have the root `r`. */
  function SizeOf(roots: seq<nat>, r: nat): (n: nat)
  {
    if roots == [] then 0 else SizeOf(roots[..|roots| - 1], r) + if roots[|roots| - 1] == r then 1 else 0
  }

  lemma SizeSnoc(roots: seq<nat>, i: nat, r: nat)
    requires i < |roots|
    ensures SizeOf(roots[..i + 1], r) == SizeOf(roots[..i], r) + if roots[i] == r then 1 else 0
  {
    assert roots[..i + 1][..i] == roots[..i];
  }

  ghost predicate IsSizes(sizes: seq<nat>, roots: seq<nat>)
  {
    forall r :: 0 <= r < |sizes| ==> sizes[r] == SizeOf(roots, r)
  }

  lemma SizesStep(sizes: seq<nat>, roots: seq<nat>, i: nat)
    requires i < |roots| && roots[i] < |sizes| && IsSizes(sizes, roots[..i])
    ensures IsSizes(sizes[roots[i] := sizes[roots[i]] + 1], roots[..i + 1])
  {
    var after := sizes[roots[i] := sizes[roots[i]] + 1];
    forall r | 0 <= r < |after| ensures after[r] == SizeOf(roots[..i + 1], r) {
      SizeSnoc(roots, i, r);
    }
  }

  /** Components of two nodes or more are clustered, degenerate ones skipped. */
  ghost predicate IsKeep(keep: seq<bool>, roots: seq<nat>, most: int)
  {
    |keep| <= |roots| && forall i :: 0 <= i < |keep| ==> (keep[i] <==> Clusterable(roots, i, most))
  }

  predicate Clusterable(roots: seq<nat>, i: nat, most: int)
    requires i < |roots|
  {
    2 <= SizeOf(roots, roots[i]) <= most
  }

  lemma KeepClosed(keep: seq<bool>, roots: seq<nat>, most: int)
    requires Rooted(roots) && IsKeep(keep, roots, most) && |keep| == |roots|
    ensures Closed(keep, roots)
  {
    forall i | 0 <= i < |roots| ensures keep[i] == keep[roots[i]] {
      assert Clusterable(roots, i, most) <==> Clusterable(roots, roots[i], most);
    }
  }

  method CountSizes(sets: Sets) returns (sizes: seq<nat>)
    requires sets.Valid() && Rooted(sets.Roots())
    modifies sets
    ensures sets.Valid() && sets.Roots() == old(sets.Roots()) && |sets.parent| == old(|sets.parent|)
    ensures |sizes| == |sets.parent| && IsSizes(sizes, sets.Roots())
  {
    var n := |sets.parent|;
    ghost var roots := sets.Roots();
    sizes := seq(n, i => 0);
    for i := 0 to n
      invariant sets.Valid() && sets.Roots() == roots && |sets.parent| == n && |sizes| == n
                && IsSizes(sizes, roots[..i])
    {
      SizesStep(sizes, roots, i);
      var r := sets.Find(i);
      sizes := sizes[r := sizes[r] + 1];
    }
    assert roots[..n] == roots;
  }

  method KeepOne(sets: Sets, sizes: seq<nat>, most: int, i: nat) returns (b: bool)
    requires sets.Valid() && Rooted(sets.Roots()) && i < |sets.parent| == |sizes| && IsSizes(sizes, sets.Roots())
    modifies sets
    ensures sets.Valid() && sets.Roots() == old(sets.Roots()) && |sets.parent| == old(|sets.parent|)
    ensures b <==> Clusterable(sets.Roots(), i, most)
  {
    var r := sets.Find(i);
    b := 2 <= sizes[r] <= most;
  }

  lemma KeepStep(keep: seq<bool>, roots: seq<nat>, most: int, b: bool)
    requires |keep| < |roots| && IsKeep(keep, roots, most) && (b <==> Clusterable(roots, |keep|, most))
    ensures IsKeep(keep + [b], roots, most)
  {
  }

  method KeepNodes(sets: Sets, most: int) returns (keep: seq<bool>)
    requires sets.Valid() && Rooted(sets.Roots())
    modifies sets
    ensures sets.Valid() && sets.Roots() == old(sets.Roots()) && |sets.parent| == old(|sets.parent|)
    ensures |keep| == |sets.parent| && IsKeep(keep, sets.Roots(), most) && Closed(keep, sets.Roots())
  {
    ghost var roots := sets.Roots();
    var sizes := CountSizes(sets);
    var n := |sets.parent|;
    keep := [];
    for i := 0 to n
      invariant sets.Valid() && sets.Roots() == roots && |sets.parent| == n && |keep| == i && IsKeep(keep, roots, most)
    {
      var b := KeepOne(sets, sizes, most, i);
      KeepStep(keep, roots, most, b);
      keep := keep + [b];
    }
    KeepClosed(keep, roots, most);
  }

  // ---- adjacency ----

  /** One direction of an association. */
  datatype Half = Half(from: nat, to: nat, p: real)

  /** How often the rarer node was seen with the other, at most 1. */
  function Probability(p: Pair, nodeCounts: seq<nat>): (q: real)
    requires High(p) < |nodeCounts| && Low(p) < |nodeCounts| && Associates(p, nodeCounts)
    ensures 0.0 < q <= 1.0
  {
    var q := p.count as real / Min(nodeCounts[High(p)], nodeCounts[Low(p)]) as real;
    if q <= 1.0 then q else 1.0
  }

  function HalfWeight(hs: seq<Half>, a: nat, b: nat): (w: real)
  {
    if hs == [] then 0.0
    else
      var h := hs[|hs| - 1];
      HalfWeight(hs[..|hs| - 1], a, b) + if h.from == a && h.to == b then h.p else 0.0
  }

  /** The association of the nodes `a` and `b`, from the pairs of kept components. */
  function Association(ps: seq<Pair>, nodeCounts: seq<nat>, keep: seq<bool>, a: nat, b: nat): (w: real)
    requires ValidPairs(ps, |nodeCounts|) && |keep| == |nodeCounts|
  {
    if ps == [] then 0.0
    else
      var p := ps[|ps| - 1];
      Association(ps[..|ps| - 1], nodeCounts, keep, a, b)
      + if {High(p), Low(p)} == {a, b} && Associates(p, nodeCounts) && keep[High(p)] then Probability(p, nodeCounts)
        else 0.0
  }

  /** The half edges weigh every two nodes as they are associated. */
  ghost predicate Weighs(hs: seq<Half>, ps: seq<Pair>, nodeCounts: seq<nat>, keep: seq<bool>)
    requires ValidPairs(ps, |nodeCounts|) && |keep| == |nodeCounts|
  {
    forall a: nat, b: nat :: HalfWeight(hs, a, b) == Association(ps, nodeCounts, keep, a, b)
  }

  lemma HalfSnoc(hs: seq<Half>, h: Half, a: nat, b: nat)
    ensures HalfWeight(hs + [h], a, b) == HalfWeight(hs, a, b) + if h.from == a && h.to == b then h.p else 0.0
  {
    assert (hs + [h])[..|hs|] == hs;
  }

  lemma WeighsStep(hs: seq<Half>, ps: seq<Pair>, nodeCounts: seq<nat>, keep: seq<bool>, i: nat)
    requires ValidPairs(ps, |nodeCounts|) && |keep| == |nodeCounts| && i < |ps| && Weighs(hs, ps[..i], nodeCounts, keep)
    ensures var a, b := High(ps[i]), Low(ps[i]);
            if Associates(ps[i], nodeCounts) && keep[a] then
              var q := Probability(ps[i], nodeCounts);
              Weighs(hs + [Half(a, b, q)] + [Half(b, a, q)], ps[..i + 1], nodeCounts, keep)
            else Weighs(hs, ps[..i + 1], nodeCounts, keep)
  {
    var a, b := High(ps[i]), Low(ps[i]);
    assert ps[..i + 1][..i] == ps[..i];
    if Associates(ps[i], nodeCounts) && keep[a] {
      var p := Probability(ps[i], nodeCounts);
      var gs := hs + [Half(a, b, p)];
      forall x: nat, y: nat
        ensures HalfWeight(gs + [Half(b, a, p)], x, y) == Association(ps[..i + 1], nodeCounts, keep, x, y) {
        HalfSnoc(hs, Half(a, b, p), x, y);
        HalfSnoc(gs, Half(b, a, p), x, y);
        SamePair(a, b, x, y);
      }
    }
  }

  lemma SamePair(a: nat, b: nat, x: nat, y: nat)
    requires a != b
    ensures {a, b} == {x, y} <==> (a == x && b == y) || (a == y && b == x)
  {
    assert a in {a, b} && b in {a, b} && x in {x, y} && y in {x, y};
  }

  lemma {:induction false} AssociationSymmetric(ps: seq<Pair>, nodeCounts: seq<nat>, keep: seq<bool>, a: nat, b: nat)
    requires ValidPairs(ps, |nodeCounts|) && |keep| == |nodeCounts|
    ensures Association(ps, nodeCounts, keep, a, b) == Association(ps, nodeCounts, keep, b, a)
  {
    if ps != [] {
      AssociationSymmetric(ps[..|ps| - 1], nodeCounts, keep, a, b);
      assert {a, b} == {b, a};
    }
  }

  ghost predicate ValidHalves(hs: seq<Half>, n: nat)
  {
    forall i :: 0 <= i < |hs| ==> hs[i].from < n && hs[i].to < n
  }

  /** Both directions of every association in a kept component. */
  method Halves(ps: seq<Pair>, nodeCounts: seq<nat>, keep: seq<bool>) returns (hs: seq<Half>)
    requires ValidPairs(ps, |nodeCounts|) && |keep| == |nodeCounts|
    ensures ValidHalves(hs, |nodeCounts|) && Weighs(hs, ps, nodeCounts, keep)
  {
    hs := [];
    for i := 0 to |ps|
      invariant ValidHalves(hs, |nodeCounts|) && Weighs(hs, ps[..i], nodeCounts, keep)
    {
      var a, b := High(ps[i]), Low(ps[i]);
      WeighsStep(hs, ps, nodeCounts, keep, i);
      if Associates(ps[i], nodeCounts) && keep[a] {
        var p := Probability(ps[i], nodeCounts);
        hs := hs + [Half(a, b, p)] + [Half(b, a, p)];
      }
    }
    assert ps[..|ps|] == ps;
  }

  function EdgesAt(hs: seq<Half>, row: seq<nat>): (es: seq<Edge>)
    requires forall i :: 0 <= i < |row| ==> row[i] < |hs|
  {
    seq(|row|, i requires 0 <= i < |row| => Edge(hs[row[i]].to, hs[row[i]].p))
  }

  function Froms(hs: seq<Half>): (keys: seq<int>)
  {
    seq(|hs|, i requires 0 <= i < |hs| => hs[i].from)
  }

  /** The row of `a` weighs `b` as the half edges from `a` do. */
  lemma {:induction false} RowWeight(hs: seq<Half>, a: nat, b: nat)
    ensures Weight(EdgesAt(hs, AssocCsr.Indices(Froms(hs), a)), b) == HalfWeight(hs, a, b)
  {
    if hs != [] {
      var n := |hs| - 1;
      var row, prior := AssocCsr.Indices(Froms(hs), a), AssocCsr.Indices(Froms(hs[..n]), a);
      RowWeight(hs[..n], a, b);
      assert Froms(hs)[..n] == Froms(hs[..n]);
      if hs[n].from == a {
        assert row == prior + [n];
        assert EdgesAt(hs, row)[..|prior|] == EdgesAt(hs[..n], prior);
      } else {
        assert EdgesAt(hs, row) == EdgesAt(hs[..n], prior);
      }
    }
  }

  /** The packed rows as an adjacency. */
  method Adjacent(hs: seq<Half>, n: nat) returns (adj: Adjacency)
    requires ValidHalves(hs, n)
    ensures |adj| == n && forall a: nat, b: nat :: a < n ==> Weight(adj[a], b) == HalfWeight(hs, a, b)
  {
    var table := AssocCsr.Build(Froms(hs), n);
    adj := [];
    for k := 0 to n
      invariant |adj| == k && forall a: nat :: a < k ==> adj[a] == EdgesAt(hs, AssocCsr.Indices(Froms(hs), a))
    {
      assert AssocCsr.HasRow(table, k) && AssocCsr.Row(table, k) == AssocCsr.Indices(Froms(hs), k);
      adj := adj + [EdgesAt(hs, AssocCsr.Row(table, k))];
    }
    forall a: nat, b: nat | a < n ensures Weight(adj[a], b) == HalfWeight(hs, a, b) { RowWeight(hs, a, b); }
  }

  /** The adjacency of the kept components: each two nodes weigh what they are associated, in both directions. */
  method BuildAdjacency(ps: seq<Pair>, nodeCounts: seq<nat>, keep: seq<bool>) returns (adj: Adjacency)
    requires ValidPairs(ps, |nodeCounts|) && |keep| == |nodeCounts|
    ensures |adj| == |nodeCounts| && Symmetric(adj)
    ensures forall a: nat, b: nat :: a < |adj| ==> Weight(adj[a], b) == Association(ps, nodeCounts, keep, a, b)
  {
    var hs := Halves(ps, nodeCounts, keep);
    adj := Adjacent(hs, |nodeCounts|);
    forall a, b | 0 <= a < |adj| && 0 <= b < |adj| ensures Weight(adj[a], b) == Weight(adj[b], a) {
      AssociationSymmetric(ps, nodeCounts, keep, a, b);
    }
  }
}
