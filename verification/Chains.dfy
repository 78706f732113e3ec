/** Chains of related elements, and union-find roots that tell exactly which elements a chain links. */
module Chains {
  import opened UnionFind

  type Relation = (nat, nat) -> bool

  datatype Chain = Here(element: nat) | Hop(chain: Chain, to: nat)

  function First(c: Chain): (i: nat) { if c.Here? then c.element else First(c.chain) }

  function Last(c: Chain): (i: nat) { if c.Here? then c.element else c.to }

  /** Elements below `n`, each related to the next. */
  ghost predicate IsChain(rel: Relation, n: nat, c: Chain)
  {
    match c
    case Here(i) => i < n
    case Hop(d, j) => IsChain(rel, n, d) && j < n && rel(Last(d), j)
  }

  ghost predicate Linked(rel: Relation, n: nat, i: nat, j: nat)
  {
    exists c :: IsChain(rel, n, c) && First(c) == i && Last(c) == j
  }

  lemma LinkedSelf(rel: Relation, n: nat, i: nat)
    requires i < n
    ensures Linked(rel, n, i, i)
  {
    assert IsChain(rel, n, Here(i)) && First(Here(i)) == i && Last(Here(i)) == i;
  }

  lemma LinkedHop(rel: Relation, n: nat, i: nat, j: nat, k: nat)
    requires Linked(rel, n, i, j) && k < n && rel(j, k)
    ensures Linked(rel, n, i, k)
  {
    var c :| IsChain(rel, n, c) && First(c) == i && Last(c) == j;
    assert IsChain(rel, n, Hop(c, k)) && First(Hop(c, k)) == i && Last(Hop(c, k)) == k;
  }

  lemma LinkedTrans(rel: Relation, n: nat, i: nat, j: nat, k: nat)
    requires Linked(rel, n, i, j) && Linked(rel, n, j, k)
    ensures Linked(rel, n, i, k)
  {
    var c :| IsChain(rel, n, c) && First(c) == j && Last(c) == k;
    LinkedAlong(rel, n, i, c);
  }

  lemma {:induction false} LinkedAlong(rel: Relation, n: nat, i: nat, c: Chain)
    requires IsChain(rel, n, c) && Linked(rel, n, i, First(c))
    ensures Linked(rel, n, i, Last(c))
  {
    if c.Hop? {
      LinkedAlong(rel, n, i, c.chain);
      LinkedHop(rel, n, i, Last(c.chain), c.to);
    }
  }

  // ---- roots ----

  /** Same root only where linked. */
  ghost predicate OnlyLinked(rel: Relation, roots: seq<nat>)
  {
    forall i, j :: 0 <= i < |roots| && 0 <= j < |roots| && roots[i] == roots[j] ==> Linked(rel, |roots|, i, j)
  }

  /** Merging two related elements links nothing that was not linked. */
  lemma UnionOnlyLinked(rel: Relation, roots: seq<nat>, a: nat, b: nat)
    requires OnlyLinked(rel, roots) && a < |roots| && b < |roots| && rel(a, b) && rel(b, a)
    ensures OnlyLinked(rel, Replaced(roots, roots[b], roots[a]))
  {
    var after := Replaced(roots, roots[b], roots[a]);
    forall i, j | 0 <= i < |after| && 0 <= j < |after| && after[i] == after[j] ensures Linked(rel, |roots|, i, j) {
      if roots[i] != roots[j] {
        if roots[i] == roots[b] { JoinLinked(rel, |roots|, i, b, a, j); } else { JoinLinked(rel, |roots|, i, a, b, j); }
      }
    }
  }

  lemma JoinLinked(rel: Relation, n: nat, i: nat, a: nat, b: nat, j: nat)
    requires Linked(rel, n, i, a) && b < n && rel(a, b) && Linked(rel, n, b, j)
    ensures Linked(rel, n, i, j)
  {
    LinkedHop(rel, n, i, a, b);
    LinkedTrans(rel, n, i, b, j);
  }

  /** Related elements have one root. */
  ghost predicate Respects(rel: Relation, roots: seq<nat>)
  {
    forall i: nat, j: nat :: i < |roots| && j < |roots| && rel(i, j) ==> roots[i] == roots[j]
  }

  /** The roots tell exactly which elements are linked. */
  ghost predicate Classes(rel: Relation, roots: seq<nat>)
  {
    forall i, j :: 0 <= i < |roots| && 0 <= j < |roots| ==> (roots[i] == roots[j] <==> Linked(rel, |roots|, i, j))
  }

  lemma {:induction false} ChainHasOneRoot(rel: Relation, roots: seq<nat>, c: Chain)
    requires Respects(rel, roots) && IsChain(rel, |roots|, c)
    ensures First(c) < |roots| && Last(c) < |roots| && roots[First(c)] == roots[Last(c)]
  {
    if c.Hop? { ChainHasOneRoot(rel, roots, c.chain); }
  }

  lemma RootsAreClasses(rel: Relation, roots: seq<nat>)
    requires OnlyLinked(rel, roots) && Respects(rel, roots)
    ensures Classes(rel, roots)
  {
    forall i, j | 0 <= i < |roots| && 0 <= j < |roots| && Linked(rel, |roots|, i, j) ensures roots[i] == roots[j] {
      var c :| IsChain(rel, |roots|, c) && First(c) == i && Last(c) == j;
      ChainHasOneRoot(rel, roots, c);
    }
  }

  /** Elements that are all their own root are linked only to themselves. */
  lemma SingleOnlyLinked(rel: Relation, roots: seq<nat>)
    requires forall i :: 0 <= i < |roots| ==> roots[i] == i
    ensures OnlyLinked(rel, roots)
  {
    forall i | 0 <= i < |roots| ensures Linked(rel, |roots|, i, i) { LinkedSelf(rel, |roots|, i); }
  }
}
