/** Splitting weakly associated members off a cluster (`splitIpAssocCluster`), over exact probabilities. */
module AssocSplit {
  import opened Indexes

  datatype Edge = Edge(node: nat, p: real)

  /** The association edges of each node. */
  type Adjacency = seq<seq<Edge>>

  /** The association of a node with all of `s`. */
  function Mass(row: seq<Edge>, s: set<nat>): (m: real)
  {
    if row == [] then 0.0
    else Mass(row[..|row| - 1], s) + if row[|row| - 1].node in s then row[|row| - 1].p else 0.0
  }

  /** The association of a node with the node `n`. */
  function Weight(row: seq<Edge>, n: nat): (w: real) { Mass(row, {n}) }

  ghost predicate Symmetric(adj: Adjacency)
  {
    forall a, b :: 0 <= a < |adj| && 0 <= b < |adj| ==> Weight(adj[a], b) == Weight(adj[b], a)
  }

  lemma {:induction false} MassRemove(row: seq<Edge>, s: set<nat>, n: nat)
    requires n in s
    ensures Mass(row, s - {n}) == Mass(row, s) - Weight(row, n)
  {
    if row != [] { MassRemove(row[..|row| - 1], s, n); }
  }

  lemma MassSnoc(row: seq<Edge>, i: nat, s: set<nat>)
    requires i < |row|
    ensures Mass(row[..i + 1], s) == Mass(row[..i], s) + if row[i].node in s then row[i].p else 0.0
  {
    assert row[..i + 1][..i] == row[..i];
  }

  // ---- clusters ----

  /** The mean association of `node` with the others of a cluster of `size` members `s`. */
  function Mean(adj: Adjacency, s: set<nat>, size: nat, node: nat): (m: real)
    requires node < |adj| && 2 <= size
  {
    Mass(adj[node], s) / (size - 1) as real
  }

  /** No member of `nodes` has a lower mean than `node`. */
  ghost predicate Weakest(adj: Adjacency, nodes: seq<nat>, node: nat)
    requires Within(nodes, |adj|) && 2 <= |nodes|
  {
    node in nodes && forall i :: 0 <= i < |nodes| ==>
                       Mean(adj, Members(nodes), |nodes|, node) <= Mean(adj, Members(nodes), |nodes|, nodes[i])
  }

  /** The first member of the lowest mean. */
  ghost predicate FirstWeakest(adj: Adjacency, nodes: seq<nat>, k: nat)
    requires Within(nodes, |adj|) && 2 <= |nodes|
  {
    && k < |nodes| && Weakest(adj, nodes, nodes[k])
    && forall j :: 0 <= j < k ==>
         Mean(adj, Members(nodes), |nodes|, nodes[k]) < Mean(adj, Members(nodes), |nodes|, nodes[j])
  }

  /** Every member's mean association with the rest meets the threshold. */
  ghost predicate Cohesive(adj: Adjacency, nodes: seq<nat>, threshold: real)
    requires Within(nodes, |adj|)
  {
    2 <= |nodes| && forall i :: 0 <= i < |nodes| ==> threshold <= Mean(adj, Members(nodes), |nodes|, nodes[i])
  }

  ghost predicate SumsUp(adj: Adjacency, cluster: seq<nat>, sums: map<nat, real>)
    requires Within(cluster, |adj|)
  {
    forall i :: 0 <= i < |cluster| ==> cluster[i] in sums && sums[cluster[i]] == Mass(adj[cluster[i]], Members(cluster))
  }

  // ---- the sums ----

  method RowSum(row: seq<Edge>, s: set<nat>) returns (sum: real)
    ensures sum == Mass(row, s)
  {
    sum := 0.0;
    for i := 0 to |row|
      invariant sum == Mass(row[..i], s)
    {
      MassSnoc(row, i, s);
      if row[i].node in s { sum := sum + row[i].p; }
    }
    assert row[..|row|] == row;
  }

  method InitialSums(adj: Adjacency, cluster: seq<nat>) returns (sums: map<nat, real>)
    requires Within(cluster, |adj|)
    ensures SumsUp(adj, cluster, sums)
  {
    sums := map[];
    for i := 0 to |cluster|
      invariant forall j :: 0 <= j < i ==>
                  cluster[j] in sums && sums[cluster[j]] == Mass(adj[cluster[j]], Members(cluster))
    {
      var sum := RowSum(adj[cluster[i]], Members(cluster));
      sums := sums[cluster[i] := sum];
    }
  }

  /** Takes the associations of a removed node out of its neighbours' sums. */
  method TakeOut(row: seq<Edge>, s: set<nat>, sums: map<nat, real>) returns (after: map<nat, real>)
    requires forall n :: n in s ==> n in sums
    ensures forall n :: n in s ==> n in after && after[n] == sums[n] - Weight(row, n)
  {
    after := sums;
    for i := 0 to |row|
      invariant forall n :: n in s ==> n in after && after[n] == sums[n] - Weight(row[..i], n)
    {
      forall n | n in s
        ensures Weight(row[..i + 1], n) == Weight(row[..i], n) + if row[i].node == n then row[i].p else 0.0 {
        MassSnoc(row, i, {n});
      }
      if row[i].node in s { after := after[row[i].node := after[row[i].node] - row[i].p]; }
    }
    assert row[..|row|] == row;
  }

  /** The first member with the lowest mean, and that mean. */
  method FindWeakest(adj: Adjacency, cluster: seq<nat>, sums: map<nat, real>) returns (k: nat, mean: real)
    requires Within(cluster, |adj|) && 2 <= |cluster| && SumsUp(adj, cluster, sums)
    ensures k < |cluster| && mean == Mean(adj, Members(cluster), |cluster|, cluster[k]) && FirstWeakest(adj, cluster, k)
  {
    k := 0;
    mean := sums[cluster[0]] / (|cluster| - 1) as real;
    for i := 1 to |cluster|
      invariant k < i && mean == Mean(adj, Members(cluster), |cluster|, cluster[k])
      invariant forall j :: 0 <= j < i ==> mean <= Mean(adj, Members(cluster), |cluster|, cluster[j])
      invariant forall j :: 0 <= j < k ==> mean < Mean(adj, Members(cluster), |cluster|, cluster[j])
    {
      var m := sums[cluster[i]] / (|cluster| - 1) as real;
      if m < mean { k, mean := i, m; }
    }
  }

  /** A cluster without its `k`th member. */
  function Without(cluster: seq<nat>, k: nat): (r: seq<nat>)
    requires k < |cluster|
  {
    cluster[..k] + cluster[k + 1..]
  }

  lemma WithoutMembers(cluster: seq<nat>, k: nat)
    requires Distinct(cluster) && k < |cluster|
    ensures Members(Without(cluster, k)) == Members(cluster) - {cluster[k]}
    ensures Distinct(Without(cluster, k)) && |Without(cluster, k)| == |cluster| - 1
    ensures multiset(Without(cluster, k)) + multiset{cluster[k]} == multiset(cluster)
  {
    var r := Without(cluster, k);
    assert cluster == cluster[..k] + [cluster[k]] + cluster[k + 1..];
    assert forall i :: 0 <= i < |r| ==> r[i] == cluster[if i < k then i else i + 1];
    forall n | n in cluster && n != cluster[k] ensures n in r {
      var i :| 0 <= i < |cluster| && cluster[i] == n;
      assert r[if i < k then i else i - 1] == n;
    }
  }

  // ---- the split loop ----

  /** A pool and the weakest members split off it, one at a time. */
  datatype Peel = Whole(nodes: seq<nat>) | Off(before: Peel, k: nat, nodes: seq<nat>)

  function PoolOf(p: Peel): (pool: seq<nat>) { if p.Whole? then p.nodes else PoolOf(p.before) }

  /** The members split off, in the order they went. */
  function Removed(p: Peel): (r: seq<nat>)
  {
    if p.Whole? then [] else Removed(p.before) + if p.k < |p.before.nodes| then [p.before.nodes[p.k]] else []
  }

  /** Every member split off was the weakest left, with a mean below the threshold. */
  ghost predicate IsPeel(adj: Adjacency, threshold: real, p: Peel)
  {
    match p
    case Whole(nodes) => Within(nodes, |adj|)
    case Off(before, k, nodes) =>
      && IsPeel(adj, threshold, before) && Within(before.nodes, |adj|)
      && 2 <= |before.nodes| && k < |before.nodes| && nodes == Without(before.nodes, k)
      && FirstWeakest(adj, before.nodes, k)
      && Mean(adj, Members(before.nodes), |before.nodes|, before.nodes[k]) < threshold
  }

  /** Removing the member `k` keeps the sums of the others. */
  lemma SumsWithout(adj: Adjacency, cluster: seq<nat>, k: nat, sums: map<nat, real>, after: map<nat, real>)
    requires Symmetric(adj) && Within(cluster, |adj|) && Distinct(cluster) && k < |cluster|
             && SumsUp(adj, cluster, sums)
    requires forall n: nat :: n in Members(cluster) - {cluster[k]} ==>
               n in after && n in sums && after[n] == sums[n] - Weight(adj[cluster[k]], n)
    ensures Within(Without(cluster, k), |adj|) && SumsUp(adj, Without(cluster, k), after)
  {
    var r: seq<nat> := Without(cluster, k);
    WithoutMembers(cluster, k);
    forall i | 0 <= i < |r| ensures r[i] < |adj| && r[i] in after && after[r[i]] == Mass(adj[r[i]], Members(r))
    {
      var j := if i < k then i else i + 1;
      assert r[i] == cluster[j];
      MassRemove(adj[r[i]], Members(cluster), cluster[k]);
      assert r[i] in Members(r);
    }
  }

  ghost predicate Splits(pool: seq<nat>, cluster: seq<nat>, rest: seq<nat>)
  {
    multiset(cluster) + multiset(rest) == multiset(pool)
  }

  lemma SplitsOff(pool: seq<nat>, cluster: seq<nat>, rest: seq<nat>, k: nat)
    requires Splits(pool, cluster, rest) && Distinct(cluster) && k < |cluster|
    ensures Splits(pool, Without(cluster, k), rest + [cluster[k]])
  {
    WithoutMembers(cluster, k);
  }

  lemma SplitsAll(pool: seq<nat>, cluster: seq<nat>, rest: seq<nat>)
    requires Splits(pool, cluster, rest)
    ensures Splits(pool, [], rest + cluster)
  {
  }

  /** One member fewer: the sums, the parts and the record of the removal. */
  method SplitOff(adj: Adjacency, threshold: real, cluster: seq<nat>, sums: map<nat, real>, k: nat, ghost peel: Peel)
    returns (next: seq<nat>, after: map<nat, real>, ghost peel': Peel)
    requires Symmetric(adj) && Within(cluster, |adj|) && Distinct(cluster) && 2 <= |cluster|
             && SumsUp(adj, cluster, sums)
    requires FirstWeakest(adj, cluster, k) && Mean(adj, Members(cluster), |cluster|, cluster[k]) < threshold
    requires IsPeel(adj, threshold, peel) && peel.nodes == cluster
    ensures next == Without(cluster, k) && Within(next, |adj|) && Distinct(next) && SumsUp(adj, next, after)
    ensures IsPeel(adj, threshold, peel') && peel'.nodes == next && PoolOf(peel') == PoolOf(peel)
    ensures Removed(peel') == Removed(peel) + [cluster[k]]
  {
    next := Without(cluster, k);
    WithoutMembers(cluster, k);
    var s := Members(cluster) - {cluster[k]};
    after := TakeOut(adj[cluster[k]], s, sums);
    SumsWithout(adj, cluster, k, sums, after);
    peel' := Off(peel, k, next);
  }

  lemma AllAtLeastWeakest(adj: Adjacency, cluster: seq<nat>, k: nat, threshold: real)
    requires Within(cluster, |adj|) && 2 <= |cluster| && FirstWeakest(adj, cluster, k)
    requires threshold <= Mean(adj, Members(cluster), |cluster|, cluster[k])
    ensures Cohesive(adj, cluster, threshold)
  {
  }

  /** `splitIpAssocCluster`: the surviving cluster, cohesive or empty, and everything split off. */
  method Split(adj: Adjacency, pool: seq<nat>, threshold: real)
    returns (cluster: seq<nat>, rest: seq<nat>, ghost peel: Peel)
    requires Symmetric(adj) && Within(pool, |adj|) && Distinct(pool)
    ensures Splits(pool, cluster, rest)
    ensures IsPeel(adj, threshold, peel) && PoolOf(peel) == pool
    ensures if cluster == [] then |peel.nodes| < 2 && rest == Removed(peel) + peel.nodes
            else
              && cluster == peel.nodes && rest == Removed(peel)
              && Within(cluster, |adj|) && Cohesive(adj, cluster, threshold)
  {
    cluster, rest, peel := pool, [], Whole(pool);
    var sums := InitialSums(adj, cluster);
    while 2 <= |cluster|
      invariant Within(cluster, |adj|) && Distinct(cluster) && SumsUp(adj, cluster, sums) && Splits(pool, cluster, rest)
      invariant IsPeel(adj, threshold, peel) && PoolOf(peel) == pool && peel.nodes == cluster && rest == Removed(peel)
      decreases |cluster|
    {
      var k, mean := FindWeakest(adj, cluster, sums);
      if threshold <= mean {
        AllAtLeastWeakest(adj, cluster, k, threshold);
        return;
      }
      SplitsOff(pool, cluster, rest, k);
      rest := rest + [cluster[k]];
      cluster, sums, peel := SplitOff(adj, threshold, cluster, sums, k, peel);
    }
    SplitsAll(pool, cluster, rest);
    rest := rest + cluster;
    cluster := [];
  }
}
