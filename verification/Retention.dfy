/** Sums over the fragments a reassembly cache retains. */
module Retention {
  import opened Transfer
  import opened Fragments
  import opened Datagrams

  /** What a sum over retained fragments counts: bytes, one source's bytes, or the copies of one buffer. */
  datatype Measure = AllBytes | BytesOf(source: TransferPath) | CopiesOf(id: nat)

  function Weight(me: Measure, k: Key, f: Fragment): (n: nat)
  {
    match me
    case AllBytes => |f.buffer.data|
    case BytesOf(source) => if k.source == source then |f.buffer.data| else 0
    case CopiesOf(id) => if f.buffer.id == id then 1 else 0
  }

  function Load(me: Measure, k: Key, fs: seq<Fragment>): (n: nat)
  {
    if fs == [] then 0 else Load(me, k, fs[..|fs| - 1]) + Weight(me, k, fs[|fs| - 1])
  }

  ghost function Total(me: Measure, m: map<Key, Datagram>): (n: nat)
    decreases |m|
  {
    if m == map[] then 0
    else
      var k :| k in m;
      Load(me, k, m[k].fragments) + Total(me, m - {k})
  }

  lemma {:induction false} TotalRemove(me: Measure, m: map<Key, Datagram>, k: Key)
    requires k in m
    ensures Total(me, m) == Load(me, k, m[k].fragments) + Total(me, m - {k})
    decreases |m|
  {
    var j :| j in m && Total(me, m) == Load(me, j, m[j].fragments) + Total(me, m - {j});
    if j != k {
      TotalRemove(me, m - {j}, k);
      TotalRemove(me, m - {k}, j);
      assert m - {j} - {k} == m - {k} - {j};
    }
  }

  function LoadAt(me: Measure, m: map<Key, Datagram>, k: Key): (n: nat)
  {
    if k in m then Load(me, k, m[k].fragments) else 0
  }

  /** Storing under `k` replaces the load of what was there. */
  lemma TotalStore(me: Measure, m: map<Key, Datagram>, k: Key, d: Datagram)
    ensures Total(me, m[k := d]) == Total(me, m) - LoadAt(me, m, k) + Load(me, k, d.fragments)
  {
    TotalRemove(me, m[k := d], k);
    if k in m {
      TotalRemove(me, m, k);
      assert m[k := d] - {k} == m - {k};
    } else {
      assert m[k := d] - {k} == m;
    }
  }

  lemma TotalDrop(me: Measure, m: map<Key, Datagram>, k: Key)
    ensures Total(me, m - {k}) == Total(me, m) - LoadAt(me, m, k)
  {
    if k in m { TotalRemove(me, m, k); } else { assert m - {k} == m; }
  }

  lemma {:induction false} LoadWithinAll(source: TransferPath, k: Key, fs: seq<Fragment>)
    ensures Load(BytesOf(source), k, fs) == if k.source == source then Load(AllBytes, k, fs) else 0
  {
    if fs != [] { LoadWithinAll(source, k, fs[..|fs| - 1]); }
  }

  /** Sorting moves fragments, not bytes or buffers. */
  lemma {:induction false} LoadSorted(me: Measure, k: Key, fs: seq<Fragment>)
    ensures Load(me, k, Sorted(fs)) == Load(me, k, fs)
  {
    if fs != [] {
      var n := |fs| - 1;
      var gs := Sorted(fs[..n]);
      LoadSorted(me, k, fs[..n]);
      var i := Position(gs, fs[n].offset, 0);
      LoadInsert(me, k, gs[..i], fs[n], gs[i..]);
      assert gs == gs[..i] + gs[i..];
    }
  }

  lemma {:induction false} LoadInsert(me: Measure, k: Key, a: seq<Fragment>, f: Fragment, b: seq<Fragment>)
    ensures Load(me, k, a + [f] + b) == Load(me, k, a + b) + Weight(me, k, f)
  {
    if b == [] {
      assert (a + [f] + b)[..|a|] == a && a + b == a;
    } else {
      var n := |b| - 1;
      LoadInsert(me, k, a, f, b[..n]);
      assert (a + [f] + b)[..|a| + 1 + n] == a + [f] + b[..n];
      assert (a + b)[..|a| + n] == a + b[..n];
    }
  }

  function Ids(fs: seq<Fragment>): (m: multiset<nat>)
  {
    if fs == [] then multiset{} else Ids(fs[..|fs| - 1]) + multiset{fs[|fs| - 1].buffer.id}
  }

  lemma {:induction false} IdsAreCopies(k: Key, fs: seq<Fragment>, id: nat)
    ensures Ids(fs)[id] == Load(CopiesOf(id), k, fs)
  {
    if fs != [] { IdsAreCopies(k, fs[..|fs| - 1], id); }
  }
}
