/** Dense numbers for the sets of a union-find. */
module AssocNodes {
  import opened UnionFind

  /** A root is its own root. */
  ghost predicate Rooted(roots: seq<nat>)
  {
    forall i :: 0 <= i < |roots| ==> roots[i] < |roots| && roots[roots[i]] == roots[i]
  }

  lemma SetsRooted(sets: Sets)
    requires sets.Valid()
    ensures Rooted(sets.Roots())
  {
    var roots := sets.Roots();
    forall i | 0 <= i < |roots| ensures roots[i] < |roots| && roots[roots[i]] == roots[i] {
      var r := Root(sets.parent, sets.rank, sets.top, i);
      assert Root(sets.parent, sets.rank, sets.top, r) == r;
    }
  }

  /** The sets to number, all of a set or none of it. */
  ghost predicate Closed(keep: seq<bool>, roots: seq<nat>)
    requires Rooted(roots)
  {
    |keep| == |roots| && forall i :: 0 <= i < |roots| ==> keep[i] == keep[roots[i]]
  }

  /** What the numbering loop keeps. */
  ghost predicate Numbering(ids: seq<int>, roots: seq<nat>, count: nat)
    requires Rooted(roots)
  {
    && |ids| == |roots|
    && (forall i :: 0 <= i < |ids| ==> -1 <= ids[i] < count)
    && (forall i :: 0 <= i < |ids| && 0 <= ids[i] ==> ids[roots[i]] == ids[i])
    && (forall i, j :: 0 <= i < |ids| && 0 <= j < |ids| && 0 <= ids[i] && ids[i] == ids[j] ==> roots[i] == roots[j])
    && (forall c :: 0 <= c < count ==> Used(ids, c))
  }

  ghost predicate Used(ids: seq<int>, c: int)
  {
    exists i :: 0 <= i < |ids| && ids[i] == c
  }

  ghost predicate Covers(ids: seq<int>, keep: seq<bool>, upto: nat)
  {
    |ids| == |keep| && forall i :: 0 <= i < |ids| ==> (keep[i] && i < upto ==> 0 <= ids[i]) && (!keep[i] ==> ids[i] < 0)
  }

  lemma NumberRoot(ids: seq<int>, roots: seq<nat>, count: nat, r: nat)
    requires Rooted(roots) && Numbering(ids, roots, count) && r < |ids| && roots[r] == r && ids[r] < 0
    ensures Numbering(ids[r := count], roots, count + 1)
  {
    var after := ids[r := count];
    forall c | 0 <= c < count + 1 ensures Used(after, c) {
      if c < count {
        assert Used(ids, c);
        var i :| 0 <= i < |ids| && ids[i] == c;
        assert after[i] == c;
      } else {
        assert after[r] == c;
      }
    }
  }

  lemma NumberMember(ids: seq<int>, roots: seq<nat>, count: nat, i: nat)
    requires Rooted(roots) && Numbering(ids, roots, count) && i < |ids| && 0 <= ids[roots[i]]
    ensures Numbering(ids[i := ids[roots[i]]], roots, count)
  {
    var after := ids[i := ids[roots[i]]];
    assert 0 <= ids[i] ==> after == ids;
    forall c | 0 <= c < count ensures Used(after, c) {
      assert Used(ids, c);
      var j :| 0 <= j < |ids| && ids[j] == c;
      assert after[j] == c;
    }
  }

  /** The ids of the kept elements: equal exactly for elements of one set, with no number unused. */
  ghost predicate Numbers(ids: seq<int>, roots: seq<nat>, keep: seq<bool>, count: nat)
  {
    && |ids| == |roots| == |keep|
    && (forall i :: 0 <= i < |ids| ==> if keep[i] then 0 <= ids[i] < count else ids[i] == -1)
    && (forall i, j :: 0 <= i < |ids| && 0 <= j < |ids| && keep[i] && keep[j] ==>
          (ids[i] == ids[j] <==> roots[i] == roots[j]))
    && (forall c :: 0 <= c < count ==> Used(ids, c))
  }

  lemma NumberingNumbers(ids: seq<int>, roots: seq<nat>, keep: seq<bool>, count: nat)
    requires Rooted(roots) && Numbering(ids, roots, count) && Covers(ids, keep, |ids|)
    ensures Numbers(ids, roots, keep, count)
  {
    forall i, j | 0 <= i < |ids| && 0 <= j < |ids| && keep[i] && keep[j]
      ensures ids[i] == ids[j] <==> roots[i] == roots[j] {
      assert ids[roots[i]] == ids[i] && ids[roots[j]] == ids[j];
    }
  }

  /** `c` is the number of an element before `upto`. */
  ghost predicate UsedBefore(ids: seq<int>, upto: nat, c: int)
  {
    exists i :: 0 <= i < upto && i < |ids| && ids[i] == c
  }

  /** Numbers come in order of first element: every smaller number is that of an element before. */
  ghost predicate FirstComeFirst(ids: seq<int>, upto: nat)
  {
    forall i :: 0 <= i < upto && i < |ids| ==> AllUsedBefore(ids, i, ids[i])
  }

  /** The numbers below `count` are those of elements before `upto`. */
  ghost predicate AllUsedBefore(ids: seq<int>, upto: nat, count: int)
  {
    forall c :: 0 <= c < count ==> UsedBefore(ids, upto, c)
  }

  /** One more element, with a number in use or the next one, keeps the order. */
  lemma OrderGrows(ids: seq<int>, after: seq<int>, i: nat, count: nat, count': nat)
    requires FirstComeFirst(ids, i) && AllUsedBefore(ids, i, count) && i < |ids| == |after| && after[..i] == ids[..i]
    requires after[i] < count' && count <= count' && (count < count' ==> count' == count + 1 && after[i] == count)
    ensures FirstComeFirst(after, i + 1) && AllUsedBefore(after, i + 1, count')
  {
    forall k, c | 0 <= k <= i && 0 <= c && UsedBefore(ids, k, c) ensures UsedBefore(after, k, c) {
      var j :| 0 <= j < k && j < |ids| && ids[j] == c;
      assert after[j] == after[..i][j] == ids[..i][j];
    }
    forall k | 0 <= k < i + 1 ensures AllUsedBefore(after, k, after[k]) {
      if k < i { assert after[k] == after[..i][k] == ids[..i][k]; }
      assert AllUsedBefore(ids, k, after[k]);
    }
    var next := i + 1;
    forall c | 0 <= c < count' ensures UsedBefore(after, next, c) {
      if c < count {
        assert UsedBefore(ids, i, c);
        var j :| 0 <= j < i && j < |after| && after[j] == c;
      } else {
        assert after[i] == c;
      }
    }
  }

  /** Nothing to merge and nothing left out. */
  ghost predicate Identity(roots: seq<nat>, keep: seq<bool>)
  {
    |roots| == |keep| && forall i :: 0 <= i < |keep| ==> keep[i] && roots[i] == i
  }

  /** The first `upto` elements have their numbers. */
  ghost predicate Numbered(ids: seq<int>, roots: seq<nat>, keep: seq<bool>, count: nat, upto: nat)
    requires Rooted(roots)
  {
    && Numbering(ids, roots, count) && Covers(ids, keep, upto)
    && (Identity(roots, keep) ==> count == upto && forall j :: 0 <= j < |ids| ==> ids[j] == if j < upto then j else -1)
  }

  /** And they are in order. */
  ghost predicate Ordered(ids: seq<int>, count: nat, upto: nat)
  {
    FirstComeFirst(ids, upto) && AllUsedBefore(ids, upto, count)
  }

  lemma NumberedNone(roots: seq<nat>, keep: seq<bool>)
    requires Rooted(roots) && |keep| == |roots|
    ensures Numbered(seq(|keep|, i => -1), roots, keep, 0, 0)
  {
  }

  lemma NumberedSkip(ids: seq<int>, roots: seq<nat>, keep: seq<bool>, count: nat, i: nat)
    requires Rooted(roots) && Numbered(ids, roots, keep, count, i) && i < |keep| && !keep[i]
    ensures Numbered(ids, roots, keep, count, i + 1)
  {
  }

  method NumberOne(ids: seq<int>, count: nat, i: nat, root: nat, ghost roots: seq<nat>, ghost keep: seq<bool>)
    returns (ids': seq<int>, count': nat)
    requires Rooted(roots) && Closed(keep, roots) && Numbered(ids, roots, keep, count, i)
    requires i < |roots| && root == roots[i] && keep[i] && Ordered(ids, count, i)
    ensures Numbered(ids', roots, keep, count', i + 1) && Ordered(ids', count', i + 1)
  {
    ids', count' := ids, count;
    if ids'[root] < 0 {
      NumberRoot(ids', roots, count', root);
      ids' := ids'[root := count'];
      count' := count' + 1;
    }
    NumberMember(ids', roots, count', i);
    ids' := ids'[i := ids'[root]];
    OrderGrows(ids, ids', i, count, count');
  }

  /** Numbers the kept sets in order of their first element. */
  method Number(sets: Sets, keep: seq<bool>) returns (ids: seq<int>, count: nat)
    requires sets.Valid() && Rooted(sets.Roots()) && Closed(keep, sets.Roots())
    modifies sets
    ensures sets.Valid() && sets.Roots() == old(sets.Roots()) && |sets.parent| == old(|sets.parent|)
    ensures Numbers(ids, sets.Roots(), keep, count)
    ensures FirstComeFirst(ids, |ids|)
    ensures Identity(sets.Roots(), keep) ==> count == |keep| && forall i :: 0 <= i < |keep| ==> ids[i] == i
  {
    ghost var roots := sets.Roots();
    NumberedNone(roots, keep);
    ids, count := seq(|keep|, i => -1), 0;
    for i := 0 to |keep|
      invariant sets.Valid() && sets.Roots() == roots && |sets.parent| == |roots|
      invariant Numbered(ids, roots, keep, count, i) && Ordered(ids, count, i)
    {
      if keep[i] {
        var root := sets.Find(i);
        ids, count := NumberOne(ids, count, i, root, roots, keep);
      } else {
        NumberedSkip(ids, roots, keep, count, i);
        OrderGrows(ids, ids, i, count, count);
      }
    }
    NumberingNumbers(ids, roots, keep, count);
  }
}
