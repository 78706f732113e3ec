/** Emitting clusters of nodes as clusters of entities, each entity in at most one. */
module AssocClusters {
  import opened Indexes
  import opened AssocCsr
  import opened AssocSplit

  /** Addresses are only ever compared. */
  type Addr = nat

  /** The nodes of `n`, the entities of each, and their addresses. */
  datatype Universe = Universe(ids: seq<nat>, n: nat, addrs: seq<Addr>)

  ghost predicate ValidUniverse(u: Universe)
  {
    && |u.ids| == |u.addrs|
    && (forall e :: 0 <= e < |u.ids| ==> 0 <= u.ids[e] < u.n)
    && (forall e, f :: 0 <= e < f < |u.addrs| ==> u.addrs[e] != u.addrs[f])
    && (forall k :: 0 <= k < u.n ==> Indices(u.ids, k) != [])
  }

  /** The entities of some nodes, node after node. */
  function Entities(u: Universe, nodes: seq<nat>): (es: seq<nat>)
    ensures forall i :: 0 <= i < |es| ==> es[i] < |u.ids|
  {
    if nodes == [] then [] else Entities(u, nodes[..|nodes| - 1]) + Indices(u.ids, nodes[|nodes| - 1])
  }

  function Addresses(u: Universe, es: seq<nat>): (r: seq<Addr>)
    requires |u.ids| == |u.addrs| && forall i :: 0 <= i < |es| ==> es[i] < |u.ids|
  {
    seq(|es|, i requires 0 <= i < |es| => u.addrs[es[i]])
  }

  function ClusterOf(u: Universe, nodes: seq<nat>): (r: seq<Addr>)
    requires |u.ids| == |u.addrs|
  {
    Addresses(u, Entities(u, nodes))
  }

  lemma {:induction false} EntitiesAre(u: Universe, nodes: seq<nat>, e: nat)
    requires e < |u.ids|
    ensures e in Entities(u, nodes) <==> u.ids[e] in nodes
  {
    if nodes != [] {
      var k := |nodes| - 1;
      EntitiesAre(u, nodes[..k], e);
      assert nodes == nodes[..k] + [nodes[k]];
      if u.ids[e] == nodes[k] { IndicesContain(u.ids, e); }
    }
  }

  lemma {:induction false} EntitiesDistinct(u: Universe, nodes: seq<nat>)
    requires Distinct(nodes)
    ensures Distinct(Entities(u, nodes))
  {
    if nodes != [] {
      var k := |nodes| - 1;
      EntitiesDistinct(u, nodes[..k]);
      IndicesAscend(u.ids, nodes[k]);
      var before, row := Entities(u, nodes[..k]), Indices(u.ids, nodes[k]);
      forall i, j | 0 <= i < |before| && 0 <= j < |row| ensures before[i] != row[j] {
        EntitiesAre(u, nodes[..k], before[i]);
        assert nodes[k] !in nodes[..k];
      }
      JoinDistinct(before, row);
    }
  }

  lemma JoinDistinct(a: seq<nat>, b: seq<nat>)
    requires Distinct(a) && Distinct(b) && forall i, j :: 0 <= i < |a| && 0 <= j < |b| ==> a[i] != b[j]
    ensures Distinct(a + b)
  {
  }

  lemma {:induction false} EntitiesCount(u: Universe, nodes: seq<nat>)
    requires ValidUniverse(u) && Within(nodes, u.n)
    ensures |nodes| <= |Entities(u, nodes)|
  {
    if nodes != [] { EntitiesCount(u, nodes[..|nodes| - 1]); }
  }

  lemma ClusterHas(u: Universe, nodes: seq<nat>, e: nat)
    requires ValidUniverse(u) && e < |u.addrs|
    ensures u.addrs[e] in ClusterOf(u, nodes) <==> u.ids[e] in nodes
  {
    EntitiesAre(u, nodes, e);
    var es := Entities(u, nodes);
    if e in es {
      var i :| 0 <= i < |es| && es[i] == e;
      assert ClusterOf(u, nodes)[i] == u.addrs[e];
    }
    if u.addrs[e] in ClusterOf(u, nodes) {
      var i :| 0 <= i < |es| && ClusterOf(u, nodes)[i] == u.addrs[e];
      assert u.addrs[es[i]] == u.addrs[e];
    }
  }

  lemma ClusterDistinct(u: Universe, nodes: seq<nat>)
    requires ValidUniverse(u) && Distinct(nodes)
    ensures Distinct(ClusterOf(u, nodes))
  {
    EntitiesDistinct(u, nodes);
  }

  // ---- which cluster each node went to ----

  /** The cluster each emitted node went to: every member of a cluster went to that cluster. */
  ghost predicate Owners(owner: map<nat, seq<nat>>, n: nat)
  {
    forall x :: x in owner ==> OwnedBy(owner, n, x, owner[x])
  }

  ghost predicate OwnedBy(owner: map<nat, seq<nat>>, n: nat, x: nat, nodes: seq<nat>)
  {
    x < n && x in nodes && Distinct(nodes) && Within(nodes, n)
      && forall i :: 0 <= i < |nodes| ==> nodes[i] in owner && owner[nodes[i]] == nodes
  }

  ghost function Own(owner: map<nat, seq<nat>>, nodes: seq<nat>): (r: map<nat, seq<nat>>)
  {
    map x | x in owner.Keys + Members(nodes) :: if x in nodes then nodes else owner[x]
  }

  lemma OwnMore(owner: map<nat, seq<nat>>, n: nat, nodes: seq<nat>)
    requires Owners(owner, n) && Distinct(nodes) && Within(nodes, n)
             && forall i :: 0 <= i < |nodes| ==> nodes[i] !in owner
    ensures Owners(Own(owner, nodes), n)
  {
    var after := Own(owner, nodes);
    forall x | x in after ensures OwnedBy(after, n, x, after[x]) {
      if x !in nodes {
        assert OwnedBy(owner, n, x, owner[x]);
        forall i | 0 <= i < |owner[x]| ensures owner[x][i] in after && after[owner[x][i]] == owner[x] {
          assert owner[x][i] in owner;
        }
      }
    }
  }

  /** `members` is what the clusters in `owner` come to, entity by entity. */
  ghost predicate Reflects(u: Universe, members: map<Addr, seq<Addr>>, owner: map<nat, seq<nat>>)
    requires |u.ids| == |u.addrs|
  {
    && (forall e :: 0 <= e < |u.ids| ==> ReflectsAt(u, members, owner, e))
    && forall a :: a in members ==> a in u.addrs
  }

  ghost predicate ReflectsAt(u: Universe, members: map<Addr, seq<Addr>>, owner: map<nat, seq<nat>>, e: nat)
    requires |u.ids| == |u.addrs| && e < |u.ids|
  {
    && (u.addrs[e] in members <==> u.ids[e] in owner)
    && (u.addrs[e] in members ==> members[u.addrs[e]] == ClusterOf(u, owner[u.ids[e]]))
  }

  // ---- emit ----

  function AllTo(members: map<Addr, seq<Addr>>, cluster: seq<Addr>, upto: nat): (r: map<Addr, seq<Addr>>)
    requires upto <= |cluster|
  {
    if upto == 0 then members else AllTo(members, cluster, upto - 1)[cluster[upto - 1] := cluster]
  }

  lemma {:induction false} AllToIs(members: map<Addr, seq<Addr>>, cluster: seq<Addr>, upto: nat, a: Addr)
    requires upto <= |cluster|
    ensures a in AllTo(members, cluster, upto) <==> a in members || a in cluster[..upto]
    ensures a in AllTo(members, cluster, upto) ==>
              AllTo(members, cluster, upto)[a] == if a in cluster[..upto] then cluster else members[a]
  {
    if upto > 0 {
      AllToIs(members, cluster, upto - 1, a);
      assert cluster[..upto] == cluster[..upto - 1] + [cluster[upto - 1]];
    }
  }

  lemma EmitReflects(u: Universe, members: map<Addr, seq<Addr>>, owner: map<nat, seq<nat>>, nodes: seq<nat>)
    requires ValidUniverse(u) && Reflects(u, members, owner)
    ensures var cluster := ClusterOf(u, nodes);
            Reflects(u, AllTo(members, cluster, |cluster|), Own(owner, nodes))
  {
    var cluster := ClusterOf(u, nodes);
    var after := AllTo(members, cluster, |cluster|);
    assert cluster[..|cluster|] == cluster;
    forall e | 0 <= e < |u.ids| ensures ReflectsAt(u, after, Own(owner, nodes), e) {
      assert ReflectsAt(u, members, owner, e);
      AllToIs(members, cluster, |cluster|, u.addrs[e]);
      ClusterHas(u, nodes, e);
    }
    forall a | a in after ensures a in u.addrs {
      AllToIs(members, cluster, |cluster|, a);
      if a in cluster {
        var i :| 0 <= i < |cluster| && cluster[i] == a;
        assert u.addrs[Entities(u, nodes)[i]] == a;
      }
    }
  }

  method CollectAddresses(u: Universe, table: Table, nodes: seq<nat>) returns (cluster: seq<Addr>)
    requires ValidUniverse(u) && Packs(table, u.ids, u.n) && Within(nodes, u.n)
    ensures cluster == ClusterOf(u, nodes)
  {
    cluster := [];
    for i := 0 to |nodes|
      invariant cluster == ClusterOf(u, nodes[..i])
    {
      assert nodes[..i + 1][..i] == nodes[..i];
      assert HasRow(table, nodes[i]) && Row(table, nodes[i]) == Indices(u.ids, nodes[i]);
      cluster := AppendRow(u, cluster, Row(table, nodes[i]), Entities(u, nodes[..i]));
    }
    assert nodes[..|nodes|] == nodes;
  }

  method AppendRow(u: Universe, cluster: seq<Addr>, row: seq<nat>, ghost es: seq<nat>) returns (r: seq<Addr>)
    requires |u.ids| == |u.addrs| && (forall i :: 0 <= i < |row| ==> row[i] < |u.ids|)
             && (forall i :: 0 <= i < |es| ==> es[i] < |u.ids|)
    requires cluster == Addresses(u, es)
    ensures r == Addresses(u, es + row)
  {
    r := cluster;
    assert es + row[..0] == es;
    for m := 0 to |row|
      invariant r == Addresses(u, es + row[..m])
    {
      assert es + row[..m + 1] == (es + row[..m]) + [row[m]];
      r := r + [u.addrs[row[m]]];
    }
    assert row[..|row|] == row;
  }

  /** `emit`: every entity of the nodes gets the whole cluster. */
  method Emit(u: Universe, table: Table, members: map<Addr, seq<Addr>>, nodes: seq<nat>,
              ghost owner: map<nat, seq<nat>>)
    returns (members': map<Addr, seq<Addr>>, ghost owner': map<nat, seq<nat>>)
    requires ValidUniverse(u) && Packs(table, u.ids, u.n)
    requires Owners(owner, u.n) && Reflects(u, members, owner)
    requires Distinct(nodes) && Within(nodes, u.n) && forall i :: 0 <= i < |nodes| ==> nodes[i] !in owner
    ensures owner' == Own(owner, nodes) && Owners(owner', u.n) && Reflects(u, members', owner')
  {
    var cluster := CollectAddresses(u, table, nodes);
    members' := members;
    for i := 0 to |cluster|
      invariant members' == AllTo(members, cluster, i)
    {
      members' := members'[cluster[i] := cluster];
    }
    EmitReflects(u, members, owner, nodes);
    OwnMore(owner, u.n, nodes);
    owner' := Own(owner, nodes);
  }

  // ---- the pool loop ----

  /** Every emitted cluster is cohesive. */
  ghost predicate CohesiveOwners(owner: map<nat, seq<nat>>, adj: Adjacency, threshold: real)
  {
    forall x :: x in owner ==> IsCohesive(adj, owner[x], threshold)
  }

  ghost predicate IsCohesive(adj: Adjacency, nodes: seq<nat>, threshold: real)
  {
    Within(nodes, |adj|) && Cohesive(adj, nodes, threshold)
  }

  lemma CohesiveMore(owner: map<nat, seq<nat>>, adj: Adjacency, threshold: real, nodes: seq<nat>)
    requires CohesiveOwners(owner, adj, threshold) && IsCohesive(adj, nodes, threshold)
    ensures CohesiveOwners(Own(owner, nodes), adj, threshold)
  {
  }

  ghost predicate Unowned(nodes: seq<nat>, owner: map<nat, seq<nat>>)
  {
    forall i :: 0 <= i < |nodes| ==> nodes[i] !in owner
  }

  /** What the clusters of one pool leave: clusters as they were, and new ones inside the pool. */
  ghost predicate Grows(owner: map<nat, seq<nat>>, after: map<nat, seq<nat>>, pool: seq<nat>)
  {
    && (forall x :: x in owner ==> x in after && after[x] == owner[x])
    && (forall x :: x in after ==> x in owner || (x in pool && forall y :: y in after[x] ==> y in pool))
  }

  /** A pool split in two: distinct members, none in both. */
  lemma SplitParts(pool: seq<nat>, cluster: seq<nat>, rest: seq<nat>, n: nat)
    requires Splits(pool, cluster, rest) && Distinct(pool) && Within(pool, n)
    ensures Distinct(cluster) && Distinct(rest) && Within(cluster, n) && Within(rest, n)
    ensures |cluster| + |rest| == |pool|
    ensures forall x :: x in pool <==> x in cluster || x in rest
    ensures forall x :: !(x in cluster && x in rest)
  {
    Counts(pool);
    forall x ensures x in pool <==> x in multiset(pool) {}
    assert |multiset(cluster) + multiset(rest)| == |multiset(pool)|;
    OnceDistinct(cluster, multiset(pool));
    OnceDistinct(rest, multiset(pool));
    forall x: nat ensures !(x in cluster && x in rest) { InBoth(cluster, rest, x); }
    forall i | 0 <= i < |cluster| ensures cluster[i] < n { assert cluster[i] in multiset(pool); }
    forall i | 0 <= i < |rest| ensures rest[i] < n { assert rest[i] in multiset(pool); }
  }

  lemma {:induction false} Counts(s: seq<nat>)
    requires Distinct(s)
    ensures forall x :: multiset(s)[x] <= 1
  {
    if s != [] {
      var k := |s| - 1;
      Counts(s[..k]);
      assert s == s[..k] + [s[k]];
      assert s[k] !in s[..k];
    }
  }

  lemma OnceDistinct(s: seq<nat>, m: multiset<nat>)
    requires multiset(s) <= m && forall x :: m[x] <= 1
    ensures Distinct(s)
  {
    forall i, j | 0 <= i < j < |s| ensures s[i] != s[j] { Twice(s, i, j); }
  }

  lemma Twice(s: seq<nat>, i: nat, j: nat)
    requires i < j < |s|
    ensures s[i] == s[j] ==> multiset(s)[s[i]] >= 2
  {
    assert s == s[..i] + [s[i]] + s[i + 1..j] + [s[j]] + s[j + 1..];
  }

  lemma InBoth(a: seq<nat>, b: seq<nat>, x: nat)
    ensures x in a && x in b ==> (multiset(a) + multiset(b))[x] >= 2
  {
    assert x in a ==> x in multiset(a);
    assert x in b ==> x in multiset(b);
  }

  /** Every node is clustered or left over. */
  ghost predicate Covered(nodes: seq<nat>, owner: map<nat, seq<nat>>, left: seq<nat>)
  {
    forall x :: x in nodes ==> x in owner || x in left
  }

  /** Splitting the weakest members off the pool leaves no cluster. */
  ghost predicate Peels(adj: Adjacency, threshold: real, pool: seq<nat>)
  {
    exists peel :: IsPeel(adj, threshold, peel) && PoolOf(peel) == pool && |peel.nodes| < 2
  }

  /** No cluster of several nodes took the node. */
  ghost predicate Loose(owner: map<nat, seq<nat>>, x: nat)
  {
    x !in owner || owner[x] == [x]
  }

  /** `left` lists the loose nodes of the component, each once. */
  ghost predicate LeftOver(component: seq<nat>, owner: map<nat, seq<nat>>, left: seq<nat>)
  {
    Distinct(left) && forall x :: x in left <==> x in component && Loose(owner, x)
  }

  /** The nodes of the component no cluster took are fewer than two, or a pool no cluster survives in. */
  ghost predicate Exhausted(adj: Adjacency, threshold: real, component: seq<nat>, owner: map<nat, seq<nat>>)
  {
    exists left :: LeftOver(component, owner, left) && (|left| < 2 || Peels(adj, threshold, left))
  }

  lemma ExhaustedLater(adj: Adjacency, threshold: real, component: seq<nat>, owner: map<nat, seq<nat>>,
                       after: map<nat, seq<nat>>)
    requires Exhausted(adj, threshold, component, owner)
    requires forall x :: x in component ==> (Loose(owner, x) <==> Loose(after, x))
    ensures Exhausted(adj, threshold, component, after)
  {
    var left :| LeftOver(component, owner, left) && (|left| < 2 || Peels(adj, threshold, left));
    assert LeftOver(component, after, left);
  }

  lemma {:induction false} PeelBegins(adj: Adjacency, threshold: real, p: Peel)
    requires IsPeel(adj, threshold, p) && p.Off?
    ensures Within(PoolOf(p), |adj|) && !Cohesive(adj, PoolOf(p), threshold)
  {
    if p.before.Off? { PeelBegins(adj, threshold, p.before); }
  }

  /** So the nodes left over are never a cohesive group themselves. */
  lemma CohesiveNeverPeels(adj: Adjacency, threshold: real, pool: seq<nat>)
    requires IsCohesive(adj, pool, threshold)
    ensures !Peels(adj, threshold, pool)
  {
    forall p | IsPeel(adj, threshold, p) && PoolOf(p) == pool ensures 2 <= |p.nodes| {
      if p.Off? { PeelBegins(adj, threshold, p); }
    }
  }

  /** When the pool loop stops, the pool is what it leaves. */
  lemma PoolIsLeft(adj: Adjacency, threshold: real, component: seq<nat>, owner: map<nat, seq<nat>>, pool: seq<nat>)
    requires CohesiveOwners(owner, adj, threshold) && Covered(component, owner, pool)
    requires Distinct(pool) && Unowned(pool, owner) && forall x :: x in pool ==> x in component
    requires |pool| < 2 || Peels(adj, threshold, pool)
    ensures Exhausted(adj, threshold, component, owner)
  {
    forall x | x in component ensures x in pool <==> Loose(owner, x) {
      if x in owner { assert IsCohesive(adj, owner[x], threshold); }
    }
    assert LeftOver(component, owner, pool);
  }

  /** One turn of the pool loop: split, emit the survivors, go on with the rest. */
  method ClusterPool(u: Universe, table: Table, adj: Adjacency, threshold: real, pool: seq<nat>,
                     members: map<Addr, seq<Addr>>, ghost owner: map<nat, seq<nat>>)
    returns (rest: seq<nat>, members': map<Addr, seq<Addr>>, ghost owner': map<nat, seq<nat>>)
    requires ValidUniverse(u) && Packs(table, u.ids, u.n) && |adj| == u.n && Symmetric(adj)
    requires Owners(owner, u.n) && Reflects(u, members, owner) && CohesiveOwners(owner, adj, threshold)
    requires Distinct(pool) && Within(pool, u.n) && Unowned(pool, owner)
    ensures Owners(owner', u.n) && Reflects(u, members', owner') && CohesiveOwners(owner', adj, threshold)
    ensures Distinct(rest) && Within(rest, u.n) && Unowned(rest, owner') && |rest| <= |pool|
            && forall x :: x in rest ==> x in pool
    ensures Grows(owner, owner', pool) && Covered(pool, owner', rest)
    ensures |rest| == |pool| ==> owner' == owner && Peels(adj, threshold, pool)
  {
    members', owner' := members, owner;
    var cluster;
    ghost var peel;
    cluster, rest, peel := Split(adj, pool, threshold);
    SplitParts(pool, cluster, rest, u.n);
    PoolTaken(pool, cluster, rest, owner);
    if 2 <= |cluster| {
      members', owner' := Emit(u, table, members, cluster, owner);
      CohesiveMore(owner, adj, threshold, cluster);
    } else {
      assert Peels(adj, threshold, pool);
    }
  }

  /** Once the survivors own their cluster, the pool is covered by them and the rest. */
  lemma PoolTaken(pool: seq<nat>, cluster: seq<nat>, rest: seq<nat>, owner: map<nat, seq<nat>>)
    requires (forall x :: x in pool <==> x in cluster || x in rest) && (forall x :: !(x in cluster && x in rest))
             && Unowned(pool, owner)
    ensures Unowned(cluster, owner)
    ensures var after := Own(owner, cluster);
            Grows(owner, after, pool) && Covered(pool, after, rest) && Unowned(rest, after)
    ensures cluster == [] ==> Grows(owner, owner, pool) && Covered(pool, owner, rest) && Unowned(rest, owner)
  {
    forall x | x in rest ensures x !in owner && x !in cluster { assert x in pool; }
    forall x | x in cluster ensures x !in owner { assert x in pool; }
  }

  method ClusterComponent(u: Universe, table: Table, adj: Adjacency, threshold: real, component: seq<nat>,
                          members: map<Addr, seq<Addr>>, ghost owner: map<nat, seq<nat>>)
    returns (members': map<Addr, seq<Addr>>, ghost owner': map<nat, seq<nat>>)
    requires ValidUniverse(u) && Packs(table, u.ids, u.n) && |adj| == u.n && Symmetric(adj)
    requires Owners(owner, u.n) && Reflects(u, members, owner) && CohesiveOwners(owner, adj, threshold)
    requires Distinct(component) && Within(component, u.n) && Unowned(component, owner)
    ensures Owners(owner', u.n) && Reflects(u, members', owner') && CohesiveOwners(owner', adj, threshold)
    ensures Grows(owner, owner', component) && Exhausted(adj, threshold, component, owner')
  {
    members', owner' := members, owner;
    var pool := component;
    while 2 <= |pool|
      invariant Owners(owner', u.n) && Reflects(u, members', owner') && CohesiveOwners(owner', adj, threshold)
      invariant Distinct(pool) && Within(pool, u.n) && Unowned(pool, owner') && forall x :: x in pool ==> x in component
      invariant Grows(owner, owner', component) && Covered(component, owner', pool)
      decreases |pool|
    {
      var rest;
      rest, members', owner' := ClusterPool(u, table, adj, threshold, pool, members', owner');
      if |rest| == |pool| {
        PoolIsLeft(adj, threshold, component, owner', pool);
        return;
      }
      pool := rest;
    }
    PoolIsLeft(adj, threshold, component, owner', pool);
  }

  /** Components one after the other: each is a row of `table`. */
  ghost predicate Untouched(comps: seq<int>, owner: map<nat, seq<nat>>, from: nat)
  {
    forall x :: 0 <= x < |comps| && from <= comps[x] ==> x !in owner
  }

  lemma ComponentRow(comps: seq<int>, owner: map<nat, seq<nat>>, c: nat)
    requires Untouched(comps, owner, c)
    ensures var row := Indices(comps, c); Distinct(row) && Within(row, |comps|) && Unowned(row, owner)
  {
    IndicesAscend(comps, c);
  }

  lemma UntouchedLater(comps: seq<int>, owner: map<nat, seq<nat>>, after: map<nat, seq<nat>>, c: nat)
    requires Untouched(comps, owner, c) && Grows(owner, after, Indices(comps, c))
    ensures Untouched(comps, after, c + 1)
  {
    forall x | 0 <= x < |comps| && c + 1 <= comps[x] ensures x !in after {
      assert x !in Indices(comps, c);
    }
  }

  ghost predicate AllExhausted(adj: Adjacency, threshold: real, comps: seq<int>, upto: nat, owner: map<nat, seq<nat>>)
  {
    forall c :: 0 <= c < upto ==> Exhausted(adj, threshold, Indices(comps, c), owner)
  }

  lemma AllExhaustedLater(adj: Adjacency, threshold: real, comps: seq<int>, upto: nat, owner: map<nat, seq<nat>>,
                          after: map<nat, seq<nat>>)
    requires AllExhausted(adj, threshold, comps, upto, owner)
    requires forall x :: 0 <= x < |comps| && comps[x] < upto ==> (Loose(owner, x) <==> Loose(after, x))
    ensures AllExhausted(adj, threshold, comps, upto, after)
  {
    forall c | 0 <= c < upto ensures Exhausted(adj, threshold, Indices(comps, c), after) {
      ExhaustedLater(adj, threshold, Indices(comps, c), owner, after);
    }
  }

  /** The nodes of a cluster are in one component. */
  ghost predicate OneComponent(owner: map<nat, seq<nat>>, comps: seq<int>)
  {
    forall x :: x in owner ==> AllBeside(comps, x, owner[x])
  }

  ghost predicate AllBeside(comps: seq<int>, x: nat, nodes: seq<nat>)
  {
    x < |comps| && forall y :: y in nodes ==> y < |comps| && comps[y] == comps[x]
  }

  /** Clustering one component touches no other. */
  lemma ElsewhereKept(comps: seq<int>, owner: map<nat, seq<nat>>, after: map<nat, seq<nat>>, c: nat)
    requires Grows(owner, after, Indices(comps, c))
    ensures forall x :: 0 <= x < |comps| && comps[x] < c ==> (Loose(owner, x) <==> Loose(after, x))
  {
    forall x: nat | x < |comps| && comps[x] < c ensures Loose(owner, x) <==> Loose(after, x) {
      assert x !in Indices(comps, c);
      if x in after { assert x in owner && after[x] == owner[x]; }
    }
  }

  /** And its clusters stay inside it. */
  lemma StaysInComponent(comps: seq<int>, owner: map<nat, seq<nat>>, after: map<nat, seq<nat>>, c: nat)
    requires Grows(owner, after, Indices(comps, c)) && OneComponent(owner, comps)
    ensures OneComponent(after, comps)
  {
    forall x | x in after ensures AllBeside(comps, x, after[x]) {
      if x !in owner {
        InComponent(comps, c, x);
        forall y | y in after[x] ensures y < |comps| && comps[y] == c { InComponent(comps, c, y); }
      }
    }
  }

  lemma InComponent(comps: seq<int>, c: nat, x: nat)
    requires x in Indices(comps, c)
    ensures x < |comps| && comps[x] == c
  {
    var row := Indices(comps, c);
    var j :| 0 <= j < |row| && row[j] == x;
  }

  method ClusterComponents(u: Universe, table: Table, adj: Adjacency, threshold: real, comps: seq<int>, count: nat)
    returns (members: map<Addr, seq<Addr>>, ghost owner: map<nat, seq<nat>>)
    requires ValidUniverse(u) && Packs(table, u.ids, u.n) && |adj| == u.n && Symmetric(adj)
    requires |comps| == u.n && Keyed(comps, count)
    ensures Owners(owner, u.n) && Reflects(u, members, owner) && CohesiveOwners(owner, adj, threshold)
    ensures AllExhausted(adj, threshold, comps, count, owner) && OneComponent(owner, comps)
  {
    members, owner := map[], map[];
    var pools := Build(comps, count);
    for c := 0 to count
      invariant Owners(owner, u.n) && Reflects(u, members, owner) && CohesiveOwners(owner, adj, threshold)
      invariant Untouched(comps, owner, c) && AllExhausted(adj, threshold, comps, c, owner)
                && OneComponent(owner, comps)
    {
      assert HasRow(pools, c) && Row(pools, c) == Indices(comps, c);
      ComponentRow(comps, owner, c);
      ghost var before := owner;
      members, owner := ClusterComponent(u, table, adj, threshold, Row(pools, c), members, owner);
      UntouchedLater(comps, before, owner, c);
      ElsewhereKept(comps, before, owner, c);
      StaysInComponent(comps, before, owner, c);
      AllExhaustedLater(adj, threshold, comps, c, before, owner);
    }
  }

  // ---- nodes of several entities ----

  ghost predicate NamesClustered(u: Universe, owner: map<nat, seq<nat>>, upto: nat)
  {
    forall k :: 0 <= k < upto && 2 <= |Indices(u.ids, k)| ==> k in owner
  }

  /** Every cluster is cohesive, or one node of several entities. */
  ghost predicate Justified(u: Universe, owner: map<nat, seq<nat>>, adj: Adjacency, threshold: real)
  {
    forall x :: x in owner ==> IsCohesive(adj, owner[x], threshold) || (owner[x] == [x] && 2 <= |Indices(u.ids, x)|)
  }

  lemma JustifiedMore(u: Universe, owner: map<nat, seq<nat>>, adj: Adjacency, threshold: real, k: nat)
    requires Justified(u, owner, adj, threshold) && 2 <= |Indices(u.ids, k)|
    ensures Justified(u, Own(owner, [k]), adj, threshold)
  {
  }

  lemma NamesMore(u: Universe, owner: map<nat, seq<nat>>, k: nat)
    requires NamesClustered(u, owner, k)
    ensures NamesClustered(u, Own(owner, [k]), k + 1)
  {
  }

  /** Clusters as they were, and new ones of one node. */
  ghost predicate AddsSingles(owner: map<nat, seq<nat>>, after: map<nat, seq<nat>>)
  {
    && (forall x :: x in owner ==> x in after && after[x] == owner[x])
    && (forall x :: x in after && x !in owner ==> after[x] == [x])
  }

  lemma SinglesMore(owner: map<nat, seq<nat>>, after: map<nat, seq<nat>>, k: nat)
    requires AddsSingles(owner, after) && k !in after
    ensures AddsSingles(owner, Own(after, [k]))
  {
  }

  lemma SinglesKeep(owner: map<nat, seq<nat>>, after: map<nat, seq<nat>>, comps: seq<int>, n: nat)
    requires AddsSingles(owner, after) && OneComponent(owner, comps) && Owners(after, n) && |comps| == n
    ensures OneComponent(after, comps) && forall x :: Loose(owner, x) <==> Loose(after, x)
  {
    forall x | x in after ensures AllBeside(comps, x, after[x]) {
      assert OwnedBy(after, n, x, after[x]);
    }
  }

  /** Nodes of several entities that no cluster took become clusters of their own. */
  method ClusterNames(u: Universe, table: Table, members: map<Addr, seq<Addr>>, ghost owner: map<nat, seq<nat>>,
                      ghost adj: Adjacency, ghost threshold: real)
    returns (members': map<Addr, seq<Addr>>, ghost owner': map<nat, seq<nat>>)
    requires ValidUniverse(u) && Packs(table, u.ids, u.n)
    requires Owners(owner, u.n) && Reflects(u, members, owner) && CohesiveOwners(owner, adj, threshold)
    ensures Owners(owner', u.n) && Reflects(u, members', owner') && NamesClustered(u, owner', u.n)
            && Justified(u, owner', adj, threshold)
    ensures AddsSingles(owner, owner')
  {
    members', owner' := members, owner;
    for k := 0 to u.n
      invariant AddsSingles(owner, owner')
      invariant Owners(owner', u.n) && Reflects(u, members', owner') && NamesClustered(u, owner', k)
                && Justified(u, owner', adj, threshold)
    {
      assert HasRow(table, k) && Row(table, k) == Indices(u.ids, k);
      if 2 <= |Row(table, k)| {
        var e := Row(table, k)[0];
        assert u.ids[e] == k && ReflectsAt(u, members', owner', e);
        if u.addrs[e] !in members' {
          JustifiedMore(u, owner', adj, threshold, k);
          NamesMore(u, owner', k);
          SinglesMore(owner, owner', k);
          members', owner' := Emit(u, table, members', [k], owner');
        }
      }
    }
  }

  // ---- what the clusters promise ----

  /** Clusters are disjoint and of two entities or more; each entity's entry is its own cluster. */
  ghost predicate Clusters(members: map<Addr, seq<Addr>>)
  {
    forall a :: a in members ==>
      && a in members[a] && 2 <= |members[a]| && Distinct(members[a])
      && forall b :: b in members[a] ==> b in members && members[b] == members[a]
  }

  lemma OwnersCluster(u: Universe, members: map<Addr, seq<Addr>>, owner: map<nat, seq<nat>>, adj: Adjacency,
                      threshold: real)
    requires ValidUniverse(u) && Owners(owner, u.n) && Reflects(u, members, owner)
             && Justified(u, owner, adj, threshold)
    ensures Clusters(members)
  {
    forall a | a in members
      ensures a in members[a] && 2 <= |members[a]| && Distinct(members[a])
      ensures forall b :: b in members[a] ==> b in members && members[b] == members[a]
    {
      var e :| 0 <= e < |u.addrs| && u.addrs[e] == a;
      assert ReflectsAt(u, members, owner, e);
      ClusterAt(u, members, owner, adj, threshold, e);
    }
  }

  lemma ClusterAt(u: Universe, members: map<Addr, seq<Addr>>, owner: map<nat, seq<nat>>, adj: Adjacency,
                  threshold: real, e: nat)
    requires ValidUniverse(u) && Owners(owner, u.n) && Reflects(u, members, owner)
             && Justified(u, owner, adj, threshold)
    requires e < |u.ids| && u.ids[e] in owner
    ensures var a := u.addrs[e];
            && a in members && a in members[a] && 2 <= |members[a]| && Distinct(members[a])
            && forall b :: b in members[a] ==> b in members && members[b] == members[a]
  {
    var a, x := u.addrs[e], u.ids[e];
    assert ReflectsAt(u, members, owner, e) && OwnedBy(owner, u.n, x, owner[x]);
    ClusterHas(u, owner[x], e);
    ClusterDistinct(u, owner[x]);
    TwoEntities(u, owner, adj, threshold, x);
    forall b | b in members[a] ensures b in members && members[b] == members[a] {
      var es := Entities(u, owner[x]);
      var i :| 0 <= i < |members[a]| && members[a][i] == b;
      var f := es[i];
      EntitiesAre(u, owner[x], f);
      assert u.addrs[f] == b && ReflectsAt(u, members, owner, f);
    }
  }

  lemma TwoEntities(u: Universe, owner: map<nat, seq<nat>>, adj: Adjacency, threshold: real, x: nat)
    requires ValidUniverse(u) && Owners(owner, u.n) && Justified(u, owner, adj, threshold) && x in owner
    ensures 2 <= |ClusterOf(u, owner[x])|
  {
    assert OwnedBy(owner, u.n, x, owner[x]);
    if owner[x] == [x] {
      assert [x][..0] == [];
      assert Entities(u, [x]) == Entities(u, []) + Indices(u.ids, x);
    } else {
      EntitiesCount(u, owner[x]);
    }
  }

  /** Two entities of one node are in one cluster. */
  lemma NodeTogether(u: Universe, members: map<Addr, seq<Addr>>, owner: map<nat, seq<nat>>, e: nat, f: nat)
    requires ValidUniverse(u) && Owners(owner, u.n) && Reflects(u, members, owner) && NamesClustered(u, owner, u.n)
    requires e < |u.ids| && f < |u.ids| && e != f && u.ids[e] == u.ids[f]
    ensures u.addrs[e] in members && u.addrs[f] in members[u.addrs[e]]
  {
    var x := u.ids[e];
    SeveralEntities(u.ids, e, f);
    assert x in owner && ReflectsAt(u, members, owner, e) && OwnedBy(owner, u.n, x, owner[x]);
    ClusterHas(u, owner[x], f);
  }

  lemma SeveralEntities(ids: seq<nat>, e: nat, f: nat)
    requires e < |ids| && f < |ids| && e != f && ids[e] == ids[f]
    ensures 2 <= |Indices(ids, ids[e])|
  {
    IndicesContain(ids, e);
    IndicesContain(ids, f);
    var row := Indices(ids, ids[e]);
    var i :| 0 <= i < |row| && row[i] == e;
    var j :| 0 <= j < |row| && row[j] == f;
    assert i != j;
  }
}
