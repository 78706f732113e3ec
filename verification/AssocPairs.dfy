/** Aggregating pair observations: sort by key, sum duplicates in place. */
module AssocPairs {
  import opened Bytes

  const TWO32: nat := 0x1_0000_0000

  datatype Pair = Pair(key: uint64, count: uint32)

  /** `ipAssocPackNodePair`: the smaller index in the high half. */
  function PackPair(i: uint32, j: uint32): (key: uint64)
    ensures key / TWO32 == Min(i, j) && key % TWO32 == Max(i, j)
  {
    Min(i, j) * TWO32 + Max(i, j)
  }

  /** The exact sum of the counts observed for a key. */
  function Sum(ps: seq<Pair>, key: nat): (n: nat)
  {
    if ps == [] then 0 else Sum(ps[..|ps| - 1], key) + if ps[|ps| - 1].key == key then ps[|ps| - 1].count else 0
  }

  predicate Has(ps: seq<Pair>, key: nat)
  {
    exists i :: 0 <= i < |ps| && ps[i].key == key
  }

  lemma SumSnoc(ps: seq<Pair>, p: Pair, key: nat)
    ensures Sum(ps + [p], key) == Sum(ps, key) + if p.key == key then p.count else 0
  {
    assert (ps + [p])[..|ps|] == ps;
  }

  lemma {:induction false} SumJoin(a: seq<Pair>, b: seq<Pair>, key: nat)
    ensures Sum(a + b, key) == Sum(a, key) + Sum(b, key)
  {
    if b == [] {
      assert a + b == a;
    } else {
      var n := |b| - 1;
      SumJoin(a, b[..n], key);
      assert a + b == (a + b[..n]) + [b[n]];
      SumSnoc(a + b[..n], b[n], key);
    }
  }

  lemma {:induction false} SumAbsent(ps: seq<Pair>, key: nat)
    requires !Has(ps, key)
    ensures Sum(ps, key) == 0
  {
    if ps != [] {
      var n := |ps| - 1;
      assert ps == ps[..n] + [ps[n]];
      HasSnoc(ps[..n], ps[n], key);
      SumAbsent(ps[..n], key);
    }
  }

  // ---- sorting ----

  ghost predicate Ascending(ps: seq<Pair>)
  {
    forall i, j :: 0 <= i < j < |ps| ==> ps[i].key <= ps[j].key
  }

  /** The same observations in another order. */
  ghost predicate SameSums(a: seq<Pair>, b: seq<Pair>)
  {
    |a| == |b| && forall key: nat :: Sum(a, key) == Sum(b, key) && (Has(a, key) <==> Has(b, key))
  }

  method InsertPair(ps: seq<Pair>, p: Pair) returns (r: seq<Pair>)
    requires Ascending(ps)
    ensures Ascending(r) && SameSums(r, ps + [p])
  {
    var k := 0;
    while k < |ps| && ps[k].key <= p.key
      invariant 0 <= k <= |ps| && forall i :: 0 <= i < k ==> ps[i].key <= p.key
    {
      k := k + 1;
    }
    r := ps[..k] + [p] + ps[k..];
    InsertedAscending(ps, p, k);
    forall key: nat ensures Sum(r, key) == Sum(ps + [p], key) && (Has(r, key) <==> Has(ps + [p], key)) {
      InsertedSum(ps, p, k, key);
    }
  }

  lemma InsertedAscending(ps: seq<Pair>, p: Pair, k: nat)
    requires Ascending(ps) && k <= |ps| && (forall i :: 0 <= i < k ==> ps[i].key <= p.key)
             && (k < |ps| ==> p.key < ps[k].key)
    ensures Ascending(ps[..k] + [p] + ps[k..])
  {
    var r := ps[..k] + [p] + ps[k..];
    forall i, j | 0 <= i < j < |r| ensures r[i].key <= r[j].key {
      if j < k { assert r[i] == ps[i] && r[j] == ps[j]; }
      else if k < i { assert r[i] == ps[i - 1] && r[j] == ps[j - 1]; }
      else if i < k < j { assert r[i] == ps[i] && r[j] == ps[j - 1]; }
      else if i == k { assert r[j] == ps[j - 1] && (k < j - 1 ==> ps[k].key <= ps[j - 1].key); }
    }
  }

  lemma InsertedSum(ps: seq<Pair>, p: Pair, k: nat, key: nat)
    requires k <= |ps|
    ensures Sum(ps[..k] + [p] + ps[k..], key) == Sum(ps + [p], key)
    ensures Has(ps[..k] + [p] + ps[k..], key) <==> Has(ps + [p], key)
  {
    var r := ps[..k] + [p] + ps[k..];
    assert ps == ps[..k] + ps[k..];
    SumJoin(ps[..k], ps[k..], key);
    SumJoin(ps[..k] + [p], ps[k..], key);
    SumSnoc(ps[..k], p, key);
    SumSnoc(ps, p, key);
    HasInserted(ps, p, k, key);
  }

  lemma HasInserted(ps: seq<Pair>, p: Pair, k: nat, key: nat)
    requires k <= |ps|
    ensures Has(ps[..k] + [p] + ps[k..], key) <==> Has(ps + [p], key)
  {
    var r := ps[..k] + [p] + ps[k..];
    if Has(r, key) {
      var i :| 0 <= i < |r| && r[i].key == key;
      var j := if i < k then i else if i == k then |ps| else i - 1;
      assert (ps + [p])[j] == r[i];
    }
    if Has(ps + [p], key) {
      var j :| 0 <= j < |ps + [p]| && (ps + [p])[j].key == key;
      var i := if j == |ps| then k else if j < k then j else j + 1;
      assert r[i] == (ps + [p])[j];
    }
  }

  /** What the library sort leaves: the same observations by ascending key. */
  method SortPairs(ps: seq<Pair>) returns (r: seq<Pair>)
    ensures Ascending(r) && SameSums(r, ps)
  {
    r := [];
    for i := 0 to |ps|
      invariant Ascending(r) && SameSums(r, ps[..i])
    {
      ghost var before := r;
      r := InsertPair(r, ps[i]);
      SameSumsSnoc(before, ps[..i], ps[i]);
      assert ps[..i + 1] == ps[..i] + [ps[i]];
    }
    assert ps[..|ps|] == ps;
  }

  lemma SameSumsSnoc(a: seq<Pair>, b: seq<Pair>, p: Pair)
    requires SameSums(a, b)
    ensures SameSums(a + [p], b + [p])
  {
    forall key: nat ensures Sum(a + [p], key) == Sum(b + [p], key) && (Has(a + [p], key) <==> Has(b + [p], key)) {
      SumSnoc(a, p, key);
      SumSnoc(b, p, key);
      HasSnoc(a, p, key);
      HasSnoc(b, p, key);
    }
  }

  lemma HasSnoc(ps: seq<Pair>, p: Pair, key: nat)
    ensures Has(ps + [p], key) <==> Has(ps, key) || p.key == key
  {
    var r := ps + [p];
    assert r[|ps|] == p;
    if Has(ps, key) {
      var i :| 0 <= i < |ps| && ps[i].key == key;
      assert r[i].key == key;
    }
  }

  // ---- compaction ----

  /** Each key once, ascending. */
  ghost predicate Increasing(ps: seq<Pair>)
  {
    forall i, j :: 0 <= i < j < |ps| ==> ps[i].key < ps[j].key
  }

  /** `c` holds every key of `ps` once, with its count summed in 32 bits. */
  ghost predicate Coalesces(c: seq<Pair>, ps: seq<Pair>)
  {
    && Increasing(c)
    && (forall i :: 0 <= i < |c| ==> Has(ps, c[i].key) && c[i].count == Sum(ps, c[i].key) % TWO32)
    && (forall key: nat :: Has(ps, key) ==> Has(c, key))
  }

  /** The sum of one more observation wraps like the sum of all. */
  lemma WrapSum(total: nat, count: nat)
    ensures (total % TWO32 + count) % TWO32 == (total + count) % TWO32
  {
  }

  /** The last key of `c` repeats: its count grows in place. */
  lemma GrowsLast(c: seq<Pair>, ps: seq<Pair>, p: Pair)
    requires Coalesces(c, ps) && c != [] && c[|c| - 1].key == p.key
    ensures var n := |c| - 1;
            Coalesces(c[n := Pair(p.key, (c[n].count + p.count) % TWO32)], ps + [p])
  {
    var n := |c| - 1;
    var d := c[n := Pair(p.key, (c[n].count + p.count) % TWO32)];
    forall i | 0 <= i < |d| ensures Has(ps + [p], d[i].key) && d[i].count == Sum(ps + [p], d[i].key) % TWO32 {
      SumSnoc(ps, p, d[i].key);
      HasSnoc(ps, p, d[i].key);
      assert c[i].key == d[i].key;
      if i == n { WrapSum(Sum(ps, p.key), p.count); }
    }
    forall key: nat | Has(ps + [p], key) ensures Has(d, key) {
      HasSnoc(ps, p, key);
      if key == p.key { assert d[n].key == key; } else {
        var i :| 0 <= i < |c| && c[i].key == key;
        assert d[i].key == key;
      }
    }
  }

  lemma AddsLast(c: seq<Pair>, ps: seq<Pair>, p: Pair)
    requires Coalesces(c, ps) && (forall i :: 0 <= i < |c| ==> c[i].key < p.key)
    ensures Coalesces(c + [p], ps + [p])
  {
    var d := c + [p];
    assert !Has(c, p.key);
    assert !Has(ps, p.key);
    SumAbsent(ps, p.key);
    forall i | 0 <= i < |d| ensures Has(ps + [p], d[i].key) && d[i].count == Sum(ps + [p], d[i].key) % TWO32 {
      SumSnoc(ps, p, d[i].key);
      HasSnoc(ps, p, d[i].key);
      if i < |c| { assert d[i] == c[i] && c[i].key < p.key; }
    }
    forall key: nat | Has(ps + [p], key) ensures Has(d, key) {
      HasSnoc(ps, p, key);
      HasSnoc(c, p, key);
    }
  }

  /** One turn of the compaction: `c` coalesces `done`, and `p` is next. */
  method CoalesceOne(c: seq<Pair>, p: Pair, ghost done: seq<Pair>) returns (d: seq<Pair>)
    requires Coalesces(c, done) && (c != [] ==> c[|c| - 1].key <= p.key)
    ensures Coalesces(d, done + [p]) && d != [] && d[|d| - 1].key == p.key
  {
    var n := |c|;
    if 0 < n && c[n - 1].key == p.key {
      GrowsLast(c, done, p);
      d := c[n - 1 := Pair(p.key, (c[n - 1].count + p.count) % TWO32)];
    } else {
      assert forall i :: 0 <= i < |c| ==> c[i].key < p.key;
      AddsLast(c, done, p);
      d := c + [p];
    }
  }

  /** `coalesceIpAssocPairs`: each observed key once, ascending, with its total kept modulo 2^32. */
  method Coalesce(pairs: seq<Pair>) returns (c: seq<Pair>)
    ensures Coalesces(c, pairs)
  {
    var sorted := SortPairs(pairs);
    c := [];
    for i := 0 to |sorted|
      invariant Coalesces(c, sorted[..i])
      invariant c != [] ==> 0 < i && c[|c| - 1].key == sorted[i - 1].key
    {
      assert sorted[..i + 1] == sorted[..i] + [sorted[i]];
      c := CoalesceOne(c, sorted[i], sorted[..i]);
    }
    assert sorted[..|sorted|] == sorted;
    SameCoalesces(c, sorted, pairs);
  }

  lemma SameCoalesces(c: seq<Pair>, a: seq<Pair>, b: seq<Pair>)
    requires Coalesces(c, a) && SameSums(a, b)
    ensures Coalesces(c, b)
  {
  }

  /** The totals themselves are kept when none of them reaches 2^32. */
  lemma TotalsKept(c: seq<Pair>, pairs: seq<Pair>, i: nat)
    requires Coalesces(c, pairs) && i < |c|
    ensures c[i].count == Sum(pairs, c[i].key) <==> Sum(pairs, c[i].key) < TWO32
  {
  }

  lemma OneObserved(p: Pair)
    ensures Coalesces([p], [p]) && Sum([p], p.key) == p.count
  {
    AddsLast([], [], p);
    SumSnoc([], p, p.key);
    assert [] + [p] == [p];
  }

  lemma TwoObserved(p: Pair, q: Pair)
    requires p.key == q.key
    ensures Coalesces([Pair(p.key, (p.count + q.count) % TWO32)], [p] + [q])
            && Sum([p] + [q], p.key) == p.count + q.count
  {
    OneObserved(p);
    GrowsLast([p], [p], q);
    SumSnoc([p], q, p.key);
    assert [p][0 := Pair(p.key, (p.count + q.count) % TWO32)] == [Pair(p.key, (p.count + q.count) % TWO32)];
  }

  /** Two observations of 2^31 coalesce to zero. */
  lemma TotalLost(key: uint64)
    ensures var p := Pair(key, 0x8000_0000);
            Coalesces([Pair(key, 0)], [p] + [p]) && Sum([p] + [p], key) == TWO32
  {
    TwoObserved(Pair(key, 0x8000_0000), Pair(key, 0x8000_0000));
  }
}
