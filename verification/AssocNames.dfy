/** Merging entities that share a base name, transitively across names. */
module AssocNames {
  import opened UnionFind
  import Chains

  type Name = string

  /** The base names of each entity. */
  type Names = seq<seq<Name>>

  ghost predicate Shares(names: Names, i: nat, j: nat)
  {
    i < |names| && j < |names| && exists n :: n in names[i] && n in names[j]
  }

  ghost function Sharing(names: Names): (rel: Chains.Relation) { (i: nat, j: nat) => Shares(names, i, j) }

  /** A chain of entities links them, each sharing a name with the next. */
  ghost predicate Linked(names: Names, i: nat, j: nat)
  {
    Chains.Linked(Sharing(names), |names|, i, j)
  }

  // ---- the merge loop ----

  /** Same root only where linked. */
  ghost predicate OnlyLinked(names: Names, roots: seq<nat>)
  {
    |roots| == |names| && Chains.OnlyLinked(Sharing(names), roots)
  }

  /** The name `n` of entity `e` has been merged. */
  ghost predicate Merged(roots: seq<nat>, first: map<Name, nat>, e: nat, n: Name)
  {
    e < |roots| && n in first && first[n] < |roots| && roots[first[n]] == roots[e]
  }

  ghost predicate AllMerged(roots: seq<nat>, first: map<Name, nat>, e: nat, names: seq<Name>, upto: nat)
  {
    forall k :: 0 <= k < upto && k < |names| ==> Merged(roots, first, e, names[k])
  }

  ghost predicate Firsts(names: Names, first: map<Name, nat>)
  {
    forall n :: n in first ==> first[n] < |names| && n in names[first[n]]
  }

  /** Merging two entities that share a name links nothing that was not linked. */
  lemma UnionOnlyLinked(names: Names, roots: seq<nat>, a: nat, b: nat)
    requires OnlyLinked(names, roots) && a < |names| && b < |names| && Shares(names, a, b)
    ensures OnlyLinked(names, Replaced(roots, roots[b], roots[a]))
  {
    assert Shares(names, b, a);
    Chains.UnionOnlyLinked(Sharing(names), roots, a, b);
  }

  /** What was merged stays merged. */
  lemma MergedLater(roots: seq<nat>, first: map<Name, nat>, a: nat, b: nat, e: nat, n: Name)
    requires Merged(roots, first, e, n) && a < |roots| && b < |roots|
    ensures Merged(Replaced(roots, roots[b], roots[a]), first, e, n)
  {
  }

  ghost predicate Progress(names: Names, roots: seq<nat>, first: map<Name, nat>, e: nat)
  {
    forall d :: 0 <= d < e && d < |names| ==> AllMerged(roots, first, d, names[d], |names[d]|)
  }

  lemma ProgressUnion(names: Names, roots: seq<nat>, first: map<Name, nat>, e: nat, a: nat, b: nat)
    requires Progress(names, roots, first, e) && a < |roots| && b < |roots|
    ensures Progress(names, Replaced(roots, roots[b], roots[a]), first, e)
  {
    forall d | 0 <= d < e && d < |names|
      ensures AllMerged(Replaced(roots, roots[b], roots[a]), first, d, names[d], |names[d]|) {
      MergedUnion(roots, first, d, names[d], |names[d]|, a, b);
    }
  }

  lemma MergedUnion(roots: seq<nat>, first: map<Name, nat>, e: nat, names: seq<Name>, upto: nat, a: nat, b: nat)
    requires AllMerged(roots, first, e, names, upto) && a < |roots| && b < |roots|
    ensures AllMerged(Replaced(roots, roots[b], roots[a]), first, e, names, upto)
  {
    forall k | 0 <= k < upto && k < |names| ensures Merged(Replaced(roots, roots[b], roots[a]), first, e, names[k]) {
      MergedLater(roots, first, a, b, e, names[k]);
    }
  }

  /** Every element is still its own root. */
  ghost predicate Single(roots: seq<nat>)
  {
    forall i :: 0 <= i < |roots| ==> roots[i] == i
  }

  /** One name of entity `e`: merge with the first that had it, or be the first. */
  method MergeName(names: Names, sets: Sets, first: map<Name, nat>, e: nat, k: nat)
    returns (first': map<Name, nat>, merged: bool)
    requires e < |names| && k < |names[e]|
    requires sets.Valid() && OnlyLinked(names, sets.Roots()) && Firsts(names, first)
    requires Progress(names, sets.Roots(), first, e) && AllMerged(sets.Roots(), first, e, names[e], k)
    modifies sets
    ensures sets.Valid() && OnlyLinked(names, sets.Roots()) && Firsts(names, first')
    ensures Progress(names, sets.Roots(), first', e) && AllMerged(sets.Roots(), first', e, names[e], k + 1)
    ensures !merged ==> sets.Roots() == old(sets.Roots())
  {
    merged := false;
    var n := names[e][k];
    ghost var roots := sets.Roots();
    if n in first {
      assert Shares(names, first[n], e);
      UnionOnlyLinked(names, roots, first[n], e);
      ProgressUnion(names, roots, first, e, first[n], e);
      MergedUnion(roots, first, e, names[e], k, first[n], e);
      sets.Union(first[n], e);
      merged := true;
      first' := first;
      assert Merged(sets.Roots(), first', e, n);
    } else {
      first' := first[n := e];
      assert Merged(roots, first', e, n);
    }
  }

  method MergeEntity(names: Names, sets: Sets, first: map<Name, nat>, e: nat)
    returns (first': map<Name, nat>, merged: bool)
    requires e < |names|
    requires sets.Valid() && OnlyLinked(names, sets.Roots()) && Firsts(names, first)
             && Progress(names, sets.Roots(), first, e)
    modifies sets
    ensures sets.Valid() && OnlyLinked(names, sets.Roots()) && Firsts(names, first')
            && Progress(names, sets.Roots(), first', e + 1)
    ensures !merged ==> sets.Roots() == old(sets.Roots())
  {
    first', merged := first, false;
    for k := 0 to |names[e]|
      invariant sets.Valid() && OnlyLinked(names, sets.Roots()) && Firsts(names, first')
      invariant Progress(names, sets.Roots(), first', e) && AllMerged(sets.Roots(), first', e, names[e], k)
      invariant !merged ==> sets.Roots() == old(sets.Roots())
    {
      var one;
      first', one := MergeName(names, sets, first', e, k);
      merged := merged || one;
    }
  }

  /** The roots tell exactly which entities are linked through shared names. */
  ghost predicate NameClasses(names: Names, roots: seq<nat>)
  {
    |roots| == |names| && forall i, j :: 0 <= i < |names| && 0 <= j < |names| ==>
                            (roots[i] == roots[j] <==> Linked(names, i, j))
  }

  lemma ProgressShares(names: Names, roots: seq<nat>, first: map<Name, nat>, i: nat, j: nat)
    requires Progress(names, roots, first, |names|) && Shares(names, i, j)
    ensures i < |roots| && j < |roots| && roots[i] == roots[j]
  {
    var n :| n in names[i] && n in names[j];
    var k :| 0 <= k < |names[i]| && names[i][k] == n;
    var l :| 0 <= l < |names[j]| && names[j][l] == n;
    assert AllMerged(roots, first, i, names[i], |names[i]|) && AllMerged(roots, first, j, names[j], |names[j]|);
    assert Merged(roots, first, i, names[i][k]) && Merged(roots, first, j, names[j][l]);
  }

  lemma MergedClasses(names: Names, roots: seq<nat>, first: map<Name, nat>)
    requires OnlyLinked(names, roots) && Progress(names, roots, first, |names|)
    ensures NameClasses(names, roots)
  {
    forall i: nat, j: nat | i < |roots| && j < |roots| && Sharing(names)(i, j) ensures roots[i] == roots[j] {
      ProgressShares(names, roots, first, i, j);
    }
    Chains.RootsAreClasses(Sharing(names), roots);
  }

  /** Two entities end in one set exactly when a chain of shared names links them. */
  method MergeByName(names: Names) returns (sets: Sets, merged: bool)
    ensures fresh(sets) && sets.Valid() && |sets.parent| == |names| && NameClasses(names, sets.Roots())
    ensures !merged ==> Single(sets.Roots())
  {
    merged := false;
    sets := new Sets(|names|);
    var first: map<Name, nat> := map[];
    Chains.SingleOnlyLinked(Sharing(names), sets.Roots());
    for e := 0 to |names|
      invariant sets.Valid() && OnlyLinked(names, sets.Roots()) && Firsts(names, first)
                && Progress(names, sets.Roots(), first, e)
      invariant !merged ==> Single(sets.Roots())
    {
      var one;
      first, one := MergeEntity(names, sets, first, e);
      merged := merged || one;
    }
    MergedClasses(names, sets.Roots(), first);
  }
}
