/** Sequences of distinct numbers below a bound. */
module Indexes {
  ghost predicate Distinct(s: seq<nat>)
  {
    forall i, j :: 0 <= i < j < |s| ==> s[i] != s[j]
  }

  predicate Within(s: seq<nat>, n: nat)
  {
    forall i :: 0 <= i < |s| ==> s[i] < n
  }

  function Members(s: seq<nat>): (m: set<nat>) { set i | i in s }

  function Upto(n: nat): (r: set<nat>)
    ensures |r| == n && forall i {:trigger i in r} :: i in r <==> 0 <= i < n
  {
    if n == 0 then {} else Upto(n - 1) + {n - 1}
  }

  lemma {:induction false} MembersSize(s: seq<nat>)
    requires Distinct(s)
    ensures |Members(s)| == |s|
  {
    if s != [] {
      var k := |s| - 1;
      MembersSize(s[..k]);
      assert s == s[..k] + [s[k]];
      assert s[k] !in s[..k];
      assert Members(s) == Members(s[..k]) + {s[k]};
    }
  }

  lemma {:induction false} MembersAtMost(s: seq<nat>)
    ensures |Members(s)| <= |s|
  {
    if s != [] {
      var k := |s| - 1;
      MembersAtMost(s[..k]);
      assert s == s[..k] + [s[k]];
      assert Members(s) == Members(s[..k]) + {s[k]};
    }
  }

  /** Fewer than `n` numbers leave one below `n` out. */
  lemma SomeMissing(s: seq<nat>, n: nat) returns (j: nat)
    requires |s| < n
    ensures j < n && j !in s
  {
    MembersAtMost(s);
    if Upto(n) <= Members(s) {
      SubsetSize(Upto(n), Members(s));
    }
    j :| j in Upto(n) && j !in Members(s);
  }

  lemma SubsetSize(a: set<nat>, b: set<nat>)
    requires a <= b
    ensures |a| <= |b| && (|a| == |b| ==> a == b)
  {
    assert b == a + (b - a);
    assert |b| == |a| + |b - a|;
  }

  /** Distinct numbers below `n` are at most `n`, and all of them when just as many. */
  lemma DistinctBound(s: seq<nat>, n: nat)
    requires Distinct(s) && Within(s, n)
    ensures |s| <= n
    ensures |s| == n ==> forall i {:trigger i in s} :: 0 <= i < n ==> i in s
  {
    MembersSize(s);
    SubsetSize(Members(s), Upto(n));
    if |s| == n {
      forall i | 0 <= i < n ensures i in s { assert i in Members(s); }
    }
  }
}
