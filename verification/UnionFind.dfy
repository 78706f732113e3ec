/** The path-halving union-find of the association clustering. */
module UnionFind {

  /** Every parent pointer leads to a higher rank, so every chain ends at a root. */
  ghost predicate Forest(parent: seq<nat>, rank: seq<nat>, top: nat)
  {
    && |parent| == |rank|
    && (forall i :: 0 <= i < |parent| ==> parent[i] < |parent| && rank[i] < top)
    && (forall i :: 0 <= i < |parent| && parent[i] != i ==> rank[i] < rank[parent[i]])
  }

  ghost function Root(parent: seq<nat>, rank: seq<nat>, top: nat, i: nat): (r: nat)
    requires Forest(parent, rank, top) && i < |parent|
    ensures r < |parent| && parent[r] == r
    decreases top - rank[i]
  {
    if parent[i] == i then i else Root(parent, rank, top, parent[i])
  }

  /** Pointing `k` at its grandparent keeps the forest and every root. */
  lemma Halved(parent: seq<nat>, rank: seq<nat>, top: nat, k: nat)
    requires Forest(parent, rank, top) && k < |parent|
    ensures Forest(parent[k := parent[parent[k]]], rank, top)
    ensures forall i :: 0 <= i < |parent| ==>
              Root(parent[k := parent[parent[k]]], rank, top, i) == Root(parent, rank, top, i)
  {
    var q := parent[k := parent[parent[k]]];
    assert Forest(q, rank, top);
    forall i | 0 <= i < |parent| ensures Root(q, rank, top, i) == Root(parent, rank, top, i) {
      HalvedRoot(parent, rank, top, k, i);
    }
  }

  lemma {:induction false} HalvedRoot(parent: seq<nat>, rank: seq<nat>, top: nat, k: nat, i: nat)
    requires Forest(parent, rank, top) && k < |parent| && i < |parent|
    requires Forest(parent[k := parent[parent[k]]], rank, top)
    ensures Root(parent[k := parent[parent[k]]], rank, top, i) == Root(parent, rank, top, i)
    decreases top - rank[i]
  {
    var q := parent[k := parent[parent[k]]];
    if parent[i] != i {
      HalvedRoot(parent, rank, top, k, parent[i]);
      if i == k && parent[parent[k]] != parent[k] {
        HalvedRoot(parent, rank, top, k, parent[parent[k]]);
        assert Root(parent, rank, top, parent[k]) == Root(parent, rank, top, parent[parent[k]]);
      }
    }
  }

  /** The ranks after the tree of `ra` is lifted above `rb`. */
  ghost function Lifted(parent: seq<nat>, rank: seq<nat>, top: nat, ra: nat, lift: nat): (r: seq<nat>)
    requires Forest(parent, rank, top)
  {
    seq(|rank|, i requires 0 <= i < |rank| => if Root(parent, rank, top, i) == ra then rank[i] + lift else rank[i])
  }

  /** Hanging the root `rb` under the root `ra` merges their trees and no others. */
  lemma Joined(parent: seq<nat>, rank: seq<nat>, top: nat, ra: nat, rb: nat) returns (rank': seq<nat>, top': nat)
    requires Forest(parent, rank, top) && ra < |parent| && rb < |parent| && ra != rb && parent[ra] == ra
             && parent[rb] == rb
    ensures Forest(parent[rb := ra], rank', top')
    ensures forall i :: 0 <= i < |parent| ==>
                          Root(parent[rb := ra], rank', top', i) ==
                            if Root(parent, rank, top, i) == rb then ra else Root(parent, rank, top, i)
  {
    rank', top' := Lifted(parent, rank, top, ra, rank[rb] + 1), top + rank[rb] + 1;
    JoinedForest(parent, rank, top, ra, rb);
    forall i | 0 <= i < |parent|
      ensures Root(parent[rb := ra], rank', top', i) ==
                if Root(parent, rank, top, i) == rb then ra else Root(parent, rank, top, i)
    {
      JoinedRoot(parent, rank, top, ra, rb, rank', top', i);
    }
  }

  lemma JoinedForest(parent: seq<nat>, rank: seq<nat>, top: nat, ra: nat, rb: nat)
    requires Forest(parent, rank, top) && ra < |parent| && rb < |parent| && ra != rb && parent[ra] == ra
             && parent[rb] == rb
    ensures Forest(parent[rb := ra], Lifted(parent, rank, top, ra, rank[rb] + 1), top + rank[rb] + 1)
  {
    var q, rank' := parent[rb := ra], Lifted(parent, rank, top, ra, rank[rb] + 1);
    assert Root(parent, rank, top, ra) == ra && Root(parent, rank, top, rb) == rb;
    forall i | 0 <= i < |q| && q[i] != i ensures rank'[i] < rank'[q[i]] {
      if i != rb { assert Root(parent, rank, top, i) == Root(parent, rank, top, parent[i]); }
    }
  }

  lemma {:induction false} JoinedRoot(parent: seq<nat>, rank: seq<nat>, top: nat, ra: nat, rb: nat, rank': seq<nat>,
                                      top': nat, i: nat)
    requires Forest(parent, rank, top) && ra < |parent| && rb < |parent| && ra != rb && parent[ra] == ra
             && parent[rb] == rb
    requires Forest(parent[rb := ra], rank', top') && i < |parent|
    ensures Root(parent[rb := ra], rank', top', i) ==
              if Root(parent, rank, top, i) == rb then ra else Root(parent, rank, top, i)
    decreases top - rank[i]
  {
    if parent[i] != i {
      JoinedRoot(parent, rank, top, ra, rb, rank', top', parent[i]);
    } else if i == rb {
      assert Root(parent[rb := ra], rank', top', ra) == ra;
    }
  }

  class Sets {
    var parent: seq<nat>
    ghost var rank: seq<nat>
    ghost var top: nat

    ghost predicate Valid()
      reads this
    {
      Forest(parent, rank, top)
    }

    /** The root of every element. */
    ghost function Roots(): (r: seq<nat>)
      requires Valid()
      reads this
    {
      AllRoots(parent, rank, top)
    }

    /** Each of the `n` elements is a set of its own. */
    constructor (n: nat)
      ensures Valid() && |parent| == n && Roots() == seq(n, i => i)
    {
      parent := seq(n, i => i);
      rank := seq(n, i => 0);
      top := 1;
    }

    /** `find`: the root, halving the path on the way and changing no root. */
    method Find(start: nat) returns (root: nat)
      requires Valid() && start < |parent|
      modifies this
      ensures Valid() && Roots() == old(Roots()) && |parent| == old(|parent|)
      ensures root == Roots()[start] && root < |parent| && parent[root] == root
    {
      root := start;
      ghost var roots := Roots();
      while parent[root] != root
        invariant Valid() && root < |parent| == |roots| && rank == old(rank) && top == old(top)
        invariant Roots() == roots && roots[root] == roots[start]
        decreases top - rank[root]
      {
        root := Halve(root);
      }
      assert Root(parent, rank, top, root) == root;
    }

    method Halve(k: nat) returns (next: nat)
      requires Valid() && k < |parent| && parent[k] != k
      modifies this`parent
      ensures Valid() && |parent| == old(|parent|) && Roots() == old(Roots())
      ensures next < |parent| && rank[k] < rank[next] && Roots()[next] == Roots()[k]
    {
      HalvedRoots(parent, rank, top, k);
      parent := parent[k := parent[parent[k]]];
      next := parent[k];
    }

    method Join(ra: nat, rb: nat)
      requires Valid() && ra < |parent| && rb < |parent| && ra != rb && parent[ra] == ra && parent[rb] == rb
      modifies this
      ensures Valid() && |parent| == old(|parent|) && Roots() == Replaced(old(Roots()), rb, ra)
    {
      ghost var rank', top' := Joined(parent, rank, top, ra, rb);
      ghost var roots := Roots();
      rank, top := rank', top';
      parent := parent[rb := ra];
      assert Roots() == Replaced(roots, rb, ra);
    }

    /** `union`: merges the sets of `a` and `b`, under the root of `a`. */
    method Union(a: nat, b: nat)
      requires Valid() && a < |parent| && b < |parent|
      modifies this
      ensures Valid() && |parent| == old(|parent|)
      ensures Roots() == Replaced(old(Roots()), old(Roots())[b], old(Roots())[a])
    {
      var ra := Find(a);
      var rb := Find(b);
      if ra != rb {
        Join(ra, rb);
      } else {
        assert Replaced(Roots(), rb, ra) == Roots();
      }
    }
  }

  ghost function AllRoots(parent: seq<nat>, rank: seq<nat>, top: nat): (r: seq<nat>)
    requires Forest(parent, rank, top)
    ensures |r| == |parent| && forall i :: 0 <= i < |r| ==> r[i] == Root(parent, rank, top, i)
  {
    seq(|parent|, i requires 0 <= i < |parent| => Root(parent, rank, top, i))
  }

  /** The roots after all those equal to `from` become `to`. */
  function Replaced(roots: seq<nat>, from: nat, to: nat): (r: seq<nat>)
    ensures |r| == |roots| && forall i :: 0 <= i < |r| ==> r[i] == if roots[i] == from then to else roots[i]
  {
    seq(|roots|, i requires 0 <= i < |roots| => if roots[i] == from then to else roots[i])
  }

  lemma HalvedRoots(parent: seq<nat>, rank: seq<nat>, top: nat, k: nat)
    requires Forest(parent, rank, top) && k < |parent| && parent[k] != k
    ensures var q := parent[k := parent[parent[k]]];
            && Forest(q, rank, top) && AllRoots(q, rank, top) == AllRoots(parent, rank, top)
            && AllRoots(q, rank, top)[q[k]] == AllRoots(parent, rank, top)[k] && rank[k] < rank[q[k]]
  {
    Halved(parent, rank, top, k);
    var q := parent[k := parent[parent[k]]];
    if parent[parent[k]] != parent[k] {
      assert Root(parent, rank, top, k) == Root(parent, rank, top, parent[parent[k]]);
    }
  }
}
