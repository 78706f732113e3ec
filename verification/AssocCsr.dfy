/** Rows of a table packed one after the other, filled by counting (compressed sparse rows). */
module AssocCsr {

  /** The positions of `k` in `keys`, ascending. */
  function Indices(keys: seq<int>, k: int): (r: seq<nat>)
    ensures forall j :: 0 <= j < |r| ==> r[j] < |keys| && keys[r[j]] == k
  {
    if keys == [] then []
    else
      var n := |keys| - 1;
      Indices(keys[..n], k) + if keys[n] == k then [n] else []
  }

  /** How many keys lie in [0, k). */
  function Below(keys: seq<int>, k: int): (n: nat)
  {
    if keys == [] then 0 else Below(keys[..|keys| - 1], k) + if 0 <= keys[|keys| - 1] < k then 1 else 0
  }

  lemma IndicesSnoc(keys: seq<int>, i: nat, k: int)
    requires i < |keys|
    ensures Indices(keys[..i + 1], k) == Indices(keys[..i], k) + if keys[i] == k then [i] else []
  {
    assert keys[..i + 1][..i] == keys[..i];
  }

  lemma {:induction false} IndicesGrow(keys: seq<int>, i: nat, k: int)
    requires i <= |keys|
    ensures |Indices(keys[..i], k)| <= |Indices(keys, k)|
    decreases |keys| - i
  {
    if i < |keys| {
      IndicesSnoc(keys, i, k);
      IndicesGrow(keys, i + 1, k);
    } else {
      assert keys[..i] == keys;
    }
  }

  lemma {:induction false} BelowStep(keys: seq<int>, k: nat)
    ensures Below(keys, k + 1) == Below(keys, k) + |Indices(keys, k)|
  {
    if keys != [] { BelowStep(keys[..|keys| - 1], k); }
  }

  /** Every position is in the row of its key, and in no other. */
  lemma {:induction false} IndicesContain(keys: seq<int>, i: nat)
    requires i < |keys|
    ensures i in Indices(keys, keys[i])
  {
    var n := |keys| - 1;
    if i < n { IndicesContain(keys[..n], i); }
  }

  lemma {:induction false} IndicesAscend(keys: seq<int>, k: int)
    ensures forall x, y :: 0 <= x < y < |Indices(keys, k)| ==> Indices(keys, k)[x] < Indices(keys, k)[y]
  {
    if keys != [] { IndicesAscend(keys[..|keys| - 1], k); }
  }

  /** A packed table of `n` rows. */
  datatype Table = Table(starts: seq<nat>, items: seq<nat>)

  predicate HasRow(t: Table, k: nat)
  {
    k + 1 < |t.starts| && t.starts[k] <= t.starts[k + 1] <= |t.items|
  }

  function Row(t: Table, k: nat): (r: seq<nat>)
    requires HasRow(t, k)
  {
    t.items[t.starts[k]..t.starts[k + 1]]
  }

  /** Row `k` lists the positions of `k`. */
  ghost predicate Packs(t: Table, keys: seq<int>, n: nat)
  {
    forall k: nat :: k < n ==> HasRow(t, k) && Row(t, k) == Indices(keys, k)
  }

  predicate Keyed(keys: seq<int>, n: nat)
  {
    forall i :: 0 <= i < |keys| ==> -1 <= keys[i] < n
  }

  ghost predicate IsStarts(starts: seq<nat>, keys: seq<int>, n: nat)
  {
    |starts| == n + 1 && forall k :: 0 <= k <= n ==> starts[k] == Below(keys, k)
  }

  /** `starts[k + 1]` is the size of row `k`. */
  ghost predicate IsSizes(starts: seq<nat>, keys: seq<int>, n: nat)
  {
    |starts| == n + 1 && starts[0] == 0 && forall j :: 1 <= j <= n ==> starts[j] == RowSize(keys, j)
  }

  function RowSize(keys: seq<int>, j: nat): (size: nat)
    requires 0 < j
  {
    |Indices(keys, j - 1)|
  }

  /** One more key grows one row by one. */
  lemma RowGrows(keys: seq<int>, i: nat, j: nat)
    requires i < |keys| && 0 < j
    ensures RowSize(keys[..i + 1], j) == RowSize(keys[..i], j) + if keys[i] == j - 1 then 1 else 0
  {
    IndicesSnoc(keys, i, j - 1);
  }

  lemma SizesStep(starts: seq<nat>, keys: seq<int>, n: nat, i: nat)
    requires i < |keys| && -1 <= keys[i] < n && IsSizes(starts, keys[..i], n)
    ensures IsSizes(if 0 <= keys[i] then starts[keys[i] + 1 := starts[keys[i] + 1] + 1] else starts, keys[..i + 1], n)
  {
    forall j | 1 <= j <= n ensures RowSize(keys[..i + 1], j) == starts[j] + if keys[i] == j - 1 then 1 else 0 {
      RowGrows(keys, i, j);
    }
  }

  lemma NoSizes(n: nat)
    ensures IsSizes(seq(n + 1, i => 0), [], n)
  {
  }

  /** Row sizes shifted by one. */
  method Sizes(keys: seq<int>, n: nat) returns (starts: seq<nat>)
    requires Keyed(keys, n)
    ensures IsSizes(starts, keys, n)
  {
    starts := seq(n + 1, i => 0);
    NoSizes(n);
    assert keys[..0] == [];
    for i := 0 to |keys|
      invariant IsSizes(starts, keys[..i], n)
    {
      SizesStep(starts, keys, n, i);
      if 0 <= keys[i] { starts := starts[keys[i] + 1 := starts[keys[i] + 1] + 1]; }
    }
    assert keys[..|keys|] == keys;
  }

  /** Row sizes, then running totals. */
  method Starts(keys: seq<int>, n: nat) returns (starts: seq<nat>)
    requires Keyed(keys, n)
    ensures IsStarts(starts, keys, n)
  {
    starts := Sizes(keys, n);
    BelowZero(keys);
    for k := 0 to n
      invariant |starts| == n + 1
      invariant forall j :: 0 <= j <= k ==> starts[j] == Below(keys, j)
      invariant forall j :: k < j <= n ==> starts[j] == RowSize(keys, j)
    {
      BelowStep(keys, k);
      starts := starts[k + 1 := starts[k + 1] + starts[k]];
    }
  }

  lemma {:induction false} BelowZero(keys: seq<int>)
    ensures Below(keys, 0) == 0
  {
    if keys != [] { BelowZero(keys[..|keys| - 1]); }
  }

  lemma {:induction false} BelowAll(keys: seq<int>, j: nat, k: nat)
    requires j <= k
    ensures Below(keys, j) <= Below(keys, k)
  {
    if keys != [] { BelowAll(keys[..|keys| - 1], j, k); }
  }

  /** The rows filled so far with the first `i` keys. */
  ghost predicate Filled(items: seq<nat>, starts: seq<nat>, fill: seq<nat>, keys: seq<int>, n: nat, i: nat)
    requires i <= |keys|
  {
    && |fill| == n && |starts| == n + 1 && |items| == starts[n]
    && forall k :: 0 <= k < n ==>
         FilledRow(items, starts[k], fill[k], starts[k + 1], Indices(keys[..i], k), |Indices(keys, k)|)
  }

  ghost predicate FilledRow(items: seq<nat>, start: nat, fill: nat, end: nat, row: seq<nat>, size: nat)
  {
    start + |row| == fill <= end == start + size && end <= |items| && items[start..fill] == row
  }

  lemma FilledStart(items: seq<nat>, starts: seq<nat>, keys: seq<int>, n: nat)
    requires Keyed(keys, n) && IsStarts(starts, keys, n) && |items| == starts[n]
    ensures Filled(items, starts, starts[..n], keys, n, 0)
  {
    forall k | 0 <= k < n
      ensures FilledRow(items, starts[k], starts[..n][k], starts[k + 1], Indices(keys[..0], k), |Indices(keys, k)|) {
      BelowStep(keys, k);
      BelowAll(keys, k + 1, n);
      assert keys[..0] == [];
    }
  }

  /** Writing position `i` at the end of its row leaves the other rows alone. */
  lemma FilledStep(items: seq<nat>, starts: seq<nat>, fill: seq<nat>, keys: seq<int>, n: nat, i: nat)
    requires i < |keys| && Keyed(keys, n) && IsStarts(starts, keys, n) && Filled(items, starts, fill, keys, n, i)
             && 0 <= keys[i]
    ensures fill[keys[i]] < |items|
    ensures Filled(items[fill[keys[i]] := i], starts, fill[keys[i] := fill[keys[i]] + 1], keys, n, i + 1)
  {
    var key := keys[i];
    RowHasRoom(items, starts, fill, keys, n, i);
    var items', fill' := items[fill[key] := i], fill[key := fill[key] + 1];
    forall k | 0 <= k < n
      ensures FilledRow(items', starts[k], fill'[k], starts[k + 1], Indices(keys[..i + 1], k), |Indices(keys, k)|) {
      IndicesSnoc(keys, i, k);
      assert FilledRow(items, starts[k], fill[k], starts[k + 1], Indices(keys[..i], k), |Indices(keys, k)|);
      if k == key {
        assert items'[starts[k]..fill'[k]] == items[starts[k]..fill[k]] + [i];
      } else {
        RowsApart(starts, keys, n, k, key);
        assert items'[starts[k]..fill[k]] == items[starts[k]..fill[k]];
      }
    }
  }

  lemma RowHasRoom(items: seq<nat>, starts: seq<nat>, fill: seq<nat>, keys: seq<int>, n: nat, i: nat)
    requires i < |keys| && Keyed(keys, n) && IsStarts(starts, keys, n) && Filled(items, starts, fill, keys, n, i)
             && 0 <= keys[i]
    ensures starts[keys[i]] <= fill[keys[i]] < starts[keys[i] + 1] <= |items|
  {
    var k := keys[i];
    assert FilledRow(items, starts[k], fill[k], starts[k + 1], Indices(keys[..i], k), |Indices(keys, k)|);
    IndicesSnoc(keys, i, k);
    IndicesGrow(keys, i + 1, k);
  }

  lemma RowsApart(starts: seq<nat>, keys: seq<int>, n: nat, j: nat, k: nat)
    requires IsStarts(starts, keys, n) && j < n && k < n && j != k
    ensures starts[j + 1] <= starts[k] || starts[k + 1] <= starts[j]
  {
    if j < k { BelowAll(keys, j + 1, k); } else { BelowAll(keys, k + 1, j); }
  }

  lemma FilledSkip(items: seq<nat>, starts: seq<nat>, fill: seq<nat>, keys: seq<int>, n: nat, i: nat)
    requires i < |keys| && Filled(items, starts, fill, keys, n, i) && keys[i] < 0
    ensures Filled(items, starts, fill, keys, n, i + 1)
  {
    forall k | 0 <= k < n
      ensures FilledRow(items, starts[k], fill[k], starts[k + 1], Indices(keys[..i + 1], k), |Indices(keys, k)|) {
      IndicesSnoc(keys, i, k);
      assert FilledRow(items, starts[k], fill[k], starts[k + 1], Indices(keys[..i], k), |Indices(keys, k)|);
    }
  }

  lemma FilledPacks(items: seq<nat>, starts: seq<nat>, fill: seq<nat>, keys: seq<int>, n: nat)
    requires Filled(items, starts, fill, keys, n, |keys|)
    ensures Packs(Table(starts, items), keys, n)
  {
    assert keys[..|keys|] == keys;
    forall k: nat | k < n ensures HasRow(Table(starts, items), k) && Row(Table(starts, items), k) == Indices(keys, k) {
      assert FilledRow(items, starts[k], fill[k], starts[k + 1], Indices(keys, k), |Indices(keys, k)|);
    }
  }

  /** Packs the positions of `keys` into rows by key; negative keys are left out. */
  method Build(keys: seq<int>, n: nat) returns (t: Table)
    requires Keyed(keys, n)
    ensures Packs(t, keys, n)
  {
    var starts := Starts(keys, n);
    var items: seq<nat> := seq(starts[n], i => 0);
    var fill := starts[..n];
    FilledStart(items, starts, keys, n);
    for i := 0 to |keys|
      invariant Filled(items, starts, fill, keys, n, i)
    {
      if 0 <= keys[i] {
        FilledStep(items, starts, fill, keys, n, i);
        items, fill := items[fill[keys[i]] := i], fill[keys[i] := fill[keys[i]] + 1];
      } else {
        FilledSkip(items, starts, fill, keys, n, i);
      }
    }
    FilledPacks(items, starts, fill, keys, n);
    t := Table(starts, items);
  }
}
