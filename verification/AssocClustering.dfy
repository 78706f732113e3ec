/** The clustering pass (`clusterIpAssocScratch`) from end to end. */
module AssocClustering {
  import opened Indexes
  import opened AssocNames
  import opened AssocPairs
  import opened AssocNodes
  import opened AssocSplit
  import opened AssocGraph
  import opened AssocClusters
  import AssocCsr
  import Chains

  /** The aggregated matrix: entities with their addresses, base names and activity, and the pairs seen together. */
  datatype Matrix = Matrix(addrs: seq<Addr>, names: Names, counts: seq<nat>, pairs: seq<Pair>)

  ghost predicate ValidMatrix(m: Matrix)
  {
    && |m.addrs| == |m.names| == |m.counts| < TWO32
    && (forall e, f :: 0 <= e < f < |m.addrs| ==> m.addrs[e] != m.addrs[f])
    && ValidPairs(m.pairs, |m.addrs|)
  }

  /** The nodes: entities share one exactly when shared base names link them. */
  ghost predicate NodesByName(m: Matrix, u: Universe)
  {
    && ValidUniverse(u) && u.addrs == m.addrs
    && forall e, f :: 0 <= e < |u.ids| && 0 <= f < |u.ids| ==> (u.ids[e] == u.ids[f] <==> Linked(m.names, e, f))
  }

  lemma NumbersUniverse(m: Matrix, roots: seq<nat>, keep: seq<bool>, ids: seq<int>, n: nat)
    requires ValidMatrix(m) && NameClasses(m.names, roots) && Numbers(ids, roots, keep, n)
             && forall i :: 0 <= i < |keep| ==> keep[i]
    ensures (forall i :: 0 <= i < |ids| ==> 0 <= ids[i] < n) && NodesByName(m, Universe(ids, n, m.addrs))
  {
    var u := Universe(ids, n, m.addrs);
    forall k | 0 <= k < n ensures AssocCsr.Indices(u.ids, k) != [] {
      assert Used(ids, k);
      var e :| 0 <= e < |ids| && ids[e] == k;
      AssocCsr.IndicesContain(u.ids, e);
    }
  }

  /** Without a name merge every entity is the node of its own number. */
  ghost predicate Unmerged(m: Matrix, u: Universe)
  {
    u.n == |m.addrs| == |u.ids| && forall i :: 0 <= i < |u.ids| ==> u.ids[i] == i
  }

  /** The observations of the entity pairs, summed, and then of the node pairs where entities were merged. */
  ghost predicate PairsOf(m: Matrix, u: Universe, ps: seq<Pair>)
    requires ValidMatrix(m) && NodesByName(m, u)
  {
    exists c :: IsNodePairs(m, u, c, ps)
  }

  ghost predicate IsNodePairs(m: Matrix, u: Universe, c: seq<Pair>, ps: seq<Pair>)
    requires ValidMatrix(m) && NodesByName(m, u)
  {
    && Coalesces(c, m.pairs) && ValidPairs(c, |u.ids|)
    && ((Unmerged(m, u) && ps == c) || (ValidIds(u.ids, TWO32) && Coalesces(ps, Mapped(c, u.ids))))
  }

  /** Merges entities by name and numbers the nodes. */
  method BuildNodes(m: Matrix) returns (u: Universe, merged: bool)
    requires ValidMatrix(m)
    ensures NodesByName(m, u) && (!merged ==> Unmerged(m, u))
  {
    var sets;
    sets, merged := MergeByName(m.names);
    SetsRooted(sets);
    var keep := seq(|m.addrs|, i => true);
    var ids, n := Number(sets, keep);
    NumbersUniverse(m, sets.Roots(), keep, ids, n);
    u := Universe(ids, n, m.addrs);
  }

  /** The node pairs, merged where entities were. */
  method BuildPairs(m: Matrix, u: Universe, merged: bool) returns (ps: seq<Pair>)
    requires ValidMatrix(m) && NodesByName(m, u) && u.n < TWO32 && (!merged ==> Unmerged(m, u))
    ensures ValidPairs(ps, u.n) && PairsOf(m, u, ps)
  {
    ps := Coalesce(m.pairs);
    ghost var c := ps;
    CoalescedValid(ps, m.pairs, |m.addrs|);
    if merged { ps := Remap(ps, u.ids, u.n); }
    assert IsNodePairs(m, u, c, ps);
  }

  /** The node pairs, the activity of the nodes, the components, and which of them are worth clustering. */
  datatype Graph = Graph(pairs: seq<Pair>, nodeCounts: seq<nat>, roots: seq<nat>, keep: seq<bool>, comps: seq<int>,
                         count: nat)

  /** Components are linked by associations; those of 2 to `most` nodes are kept, and numbered. */
  ghost predicate ValidGraph(g: Graph, most: int)
  {
    && ValidPairs(g.pairs, |g.nodeCounts|) && |g.keep| == |g.nodeCounts| == |g.roots|
    && Chains.Classes(Bonds(g.pairs, g.nodeCounts), g.roots) && IsKeep(g.keep, g.roots, most)
    && Numbers(g.comps, g.roots, g.keep, g.count)
  }

  /** Two nodes weigh what they are associated. */
  ghost predicate Weighted(adj: Adjacency, g: Graph)
    requires ValidPairs(g.pairs, |g.nodeCounts|) && |g.keep| == |g.nodeCounts|
  {
    |adj| == |g.nodeCounts| && forall a: nat, b: nat :: a < |adj| ==>
                                 Weight(adj[a], b) == Association(g.pairs, g.nodeCounts, g.keep, a, b)
  }

  /** The components worth clustering, numbered, and their adjacency. */
  method BuildGraph(ps: seq<Pair>, nodeCounts: seq<nat>, most: int)
    returns (adj: Adjacency, comps: seq<int>, count: nat, ghost g: Graph)
    requires ValidPairs(ps, |nodeCounts|)
    ensures |adj| == |nodeCounts| == |comps| && Symmetric(adj) && AssocCsr.Keyed(comps, count)
    ensures g.pairs == ps && g.nodeCounts == nodeCounts && g.comps == comps && g.count == count
    ensures ValidGraph(g, most) && Weighted(adj, g)
  {
    var sets := Components(ps, nodeCounts);
    SetsRooted(sets);
    ghost var roots := sets.Roots();
    var keep := KeepNodes(sets, most);
    adj := BuildAdjacency(ps, nodeCounts, keep);
    comps, count := Number(sets, keep);
    g := Graph(ps, nodeCounts, roots, keep, comps, count);
  }

  /** Entities that share base names, directly or through others, are in one cluster. */
  ghost predicate NamesTogether(m: Matrix, members: map<Addr, seq<Addr>>)
    requires |m.addrs| == |m.names|
  {
    forall e, f :: 0 <= e < |m.addrs| && 0 <= f < |m.addrs| && e != f && Linked(m.names, e, f) ==>
      m.addrs[e] in members && m.addrs[f] in members[m.addrs[e]]
  }

  lemma AllNamesTogether(m: Matrix, u: Universe, members: map<Addr, seq<Addr>>, owner: map<nat, seq<nat>>)
    requires |m.addrs| == |m.names| && NodesByName(m, u)
    requires Owners(owner, u.n) && Reflects(u, members, owner) && NamesClustered(u, owner, u.n)
    ensures NamesTogether(m, members)
  {
    forall e, f | 0 <= e < |m.addrs| && 0 <= f < |m.addrs| && e != f && Linked(m.names, e, f)
      ensures m.addrs[e] in members && m.addrs[f] in members[m.addrs[e]]
    {
      NodeTogether(u, members, owner, e, f);
    }
  }

  lemma SharingIsLinked(names: Names, e: nat, f: nat)
    requires Shares(names, e, f)
    ensures Linked(names, e, f)
  {
    Chains.LinkedSelf(Sharing(names), |names|, e);
    Chains.LinkedHop(Sharing(names), |names|, e, e, f);
  }

  lemma NodesBounded(m: Matrix, u: Universe)
    requires ValidMatrix(m) && NodesByName(m, u)
    ensures u.n <= |u.ids|
  {
    var firsts := seq(u.n, k requires 0 <= k < u.n => AssocCsr.Indices(u.ids, k)[0]);
    forall i, j | 0 <= i < j < u.n ensures firsts[i] != firsts[j] {
      assert u.ids[firsts[i]] == i && u.ids[firsts[j]] == j;
    }
    DistinctBound(firsts, |u.ids|);
  }

  /**
   * The whole pass: disjoint clusters of two entities or more, entities linked by shared names always
   * together, every cluster either one such node or a group of nodes of one component that all meet the
   * threshold, and the nodes of a component that no such group took a pool without a cluster.
   */
  method ClusterEntities(m: Matrix, threshold: real, most: int)
    returns (members: map<Addr, seq<Addr>>, ghost u: Universe, ghost g: Graph, ghost adj: Adjacency,
             ghost owner: map<nat, seq<nat>>)
    requires ValidMatrix(m)
    ensures Clusters(members) && NamesTogether(m, members) && forall a :: a in members ==> a in m.addrs
    ensures NodesByName(m, u) && PairsOf(m, u, g.pairs) && |g.nodeCounts| == u.n
            && IsCounts(g.nodeCounts, u.ids, m.counts)
    ensures ValidGraph(g, most) && Weighted(adj, g)
    ensures Owners(owner, u.n) && Reflects(u, members, owner) && Justified(u, owner, adj, threshold)
    ensures AllExhausted(adj, threshold, g.comps, g.count, owner) && OneComponent(owner, g.comps)
  {
    var nodes, merged := BuildNodes(m);
    NodesBounded(m, nodes);
    var ps := BuildPairs(m, nodes, merged);
    var nodeCounts := NodeCounts(nodes.ids, m.counts, nodes.n);
    var edges, comps, count;
    edges, comps, count, g := BuildGraph(ps, nodeCounts, most);
    var table := AssocCsr.Build(nodes.ids, nodes.n);
    members, owner := ClusterComponents(nodes, table, edges, threshold, comps, count);
    ghost var before := owner;
    members, owner := ClusterNames(nodes, table, members, owner, edges, threshold);
    SinglesKeep(before, owner, comps, nodes.n);
    AllExhaustedLater(edges, threshold, comps, count, before, owner);
    u, adj := nodes, edges;
    OwnersCluster(u, members, owner, adj, threshold);
    AllNamesTogether(m, u, members, owner);
  }
}
