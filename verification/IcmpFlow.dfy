/** The ICMP flow caps one NAT shares across its buffers (`icmpFlowTracker`). */
module IcmpFlow {
  import opened Options
  import opened Transfer

  /** A flow and the source it belongs to. */
  datatype Flow = Flow(id: nat, source: TransferPath)

  datatype Settings = Settings(userLimit: int, globalLimit: int)

  /** The tracked flows, in order of registration. */
  type Order = map<Flow, nat>

  /** When each flow was last active, as read during one registration. */
  type Activity = Flow -> int

  function FlowsOf(order: Order, source: TransferPath): (s: set<Flow>)
  {
    set f | f in order && f.source == source
  }

  function CountOf(order: Order, source: TransferPath): (n: nat) { |FlowsOf(order, source)| }

  // ---- eviction ----

  /** A flow is eligible anywhere, or of one source only. */
  predicate Eligible(only: Option<TransferPath>, f: Flow)
  {
    only.None? || f.source == only.value
  }

  /** Less recently active, ties broken by registration. */
  predicate Before(at: Activity, order: Order, f: Flow, g: Flow)
    requires f in order && g in order
  {
    at(f) < at(g) || (at(f) == at(g) && order[f] < order[g])
  }

  ghost predicate Oldest(at: Activity, order: Order, only: Option<TransferPath>, f: Flow)
  {
    && f in order && Eligible(only, f)
    && forall g :: g in order && Eligible(only, g) && g != f ==> Before(at, order, f, g)
  }

  /** `r` is the oldest eligible flow among those seen. */
  ghost predicate Best(at: Activity, order: Order, only: Option<TransferPath>, seen: set<Flow>, r: Option<Flow>)
  {
    && seen <= order.Keys
    && match r
       case None => forall f :: f in seen ==> !Eligible(only, f)
       case Some(b) =>
         && b in seen && Eligible(only, b)
         && forall g :: g in seen && Eligible(only, g) && g != b ==> Before(at, order, b, g)
  }

  lemma BestKeeps(at: Activity, order: Order, only: Option<TransferPath>, seen: set<Flow>, r: Option<Flow>, f: Flow)
    requires Best(at, order, only, seen, r) && f in order && f !in seen
    requires Eligible(only, f) ==> r.Some? && Before(at, order, r.value, f)
    ensures Best(at, order, only, seen + {f}, r)
  {
  }

  lemma BestChanges(at: Activity, order: Order, only: Option<TransferPath>, seen: set<Flow>, r: Option<Flow>, f: Flow)
    requires Best(at, order, only, seen, r) && f in order && f !in seen && Eligible(only, f)
    requires r.Some? ==> Before(at, order, f, r.value)
    ensures Best(at, order, only, seen + {f}, Some(f))
  {
  }

  predicate UserFull(order: Order, source: TransferPath, settings: Settings)
  {
    0 < settings.userLimit <= CountOf(order, source)
  }

  predicate GlobalFull(order: Order, settings: Settings)
  {
    0 < settings.globalLimit <= |order|
  }

  /** What an eviction loop goes by: the source that is full, or everything. */
  ghost predicate CalledFor(at: Activity, order: Order, source: TransferPath, settings: Settings, f: Flow)
  {
    if UserFull(order, source, settings) then Oldest(at, order, Some(source), f)
    else GlobalFull(order, settings) && Oldest(at, order, None, f)
  }

  function Without(order: Order, victims: seq<Flow>): (r: Order)
  {
    if victims == [] then order else Without(order, victims[..|victims| - 1]) - {victims[|victims| - 1]}
  }

  /** Each victim was called for after the ones before it. */
  ghost predicate ChosenBy(called: (Order, Flow) -> bool, order: Order, victims: seq<Flow>)
  {
    if victims == [] then true
    else
      var n := |victims| - 1;
      ChosenBy(called, order, victims[..n]) && called(Without(order, victims[..n]), victims[n])
  }

  ghost function Caller(at: Activity, source: TransferPath, settings: Settings): (called: (Order, Flow) -> bool)
  {
    (order, f) => CalledFor(at, order, source, settings, f)
  }

  ghost predicate Chosen(at: Activity, order: Order, source: TransferPath, settings: Settings, victims: seq<Flow>)
  {
    ChosenBy(Caller(at, source, settings), order, victims)
  }

  /** The victims in order: each was called for, and after them there is room. */
  ghost predicate Evicts(at: Activity, order: Order, source: TransferPath, settings: Settings, victims: seq<Flow>)
  {
    && Chosen(at, order, source, settings, victims)
    && !UserFull(Without(order, victims), source, settings) && !GlobalFull(Without(order, victims), settings)
  }

  lemma ChosenMore(at: Activity, order: Order, source: TransferPath, settings: Settings, victims: seq<Flow>, f: Flow)
    requires Chosen(at, order, source, settings, victims) && CalledFor(at, Without(order, victims), source, settings, f)
    ensures Chosen(at, order, source, settings, victims + [f])
    ensures Without(order, victims + [f]) == Without(order, victims) - {f}
  {
    ChosenByMore(Caller(at, source, settings), order, victims, f);
  }

  lemma ChosenByMore(called: (Order, Flow) -> bool, order: Order, victims: seq<Flow>, f: Flow)
    requires ChosenBy(called, order, victims) && called(Without(order, victims), f)
    ensures ChosenBy(called, order, victims + [f])
    ensures Without(order, victims + [f]) == Without(order, victims) - {f}
  {
    assert (victims + [f])[..|victims|] == victims;
  }

  // ---- counting ----

  predicate Injective(order: Order, next: nat)
  {
    && (forall f :: f in order ==> order[f] <= next)
    && (forall f, g :: f in order && g in order && f != g ==> order[f] != order[g])
  }

  predicate Counted(order: Order, perSource: map<TransferPath, nat>)
  {
    && (forall s :: s in perSource ==> 0 < perSource[s] == CountOf(order, s))
    && (forall f :: f in order ==> f.source in perSource)
  }

  lemma CountRemove(order: Order, f: Flow, s: TransferPath)
    requires f in order
    ensures CountOf(order - {f}, s) == CountOf(order, s) - if f.source == s then 1 else 0
    ensures |order - {f}| == |order| - 1
  {
    if f.source == s {
      assert FlowsOf(order - {f}, s) == FlowsOf(order, s) - {f};
    } else {
      assert FlowsOf(order - {f}, s) == FlowsOf(order, s);
    }
    assert (order - {f}).Keys == order.Keys - {f};
  }

  lemma SizeAdd(s: set<Flow>, t: set<Flow>, f: Flow)
    requires f !in s && t == s + {f}
    ensures |t| == |s| + 1
  {
  }

  lemma OrderAdd(order: Order, f: Flow, n: nat)
    requires f !in order
    ensures |order[f := n]| == |order| + 1
  {
    SizeAdd(order.Keys, order[f := n].Keys, f);
  }

  lemma CountAdd(order: Order, f: Flow, n: nat, s: TransferPath)
    requires f !in order
    ensures CountOf(order[f := n], s) == CountOf(order, s) + if f.source == s then 1 else 0
  {
    var before, after := FlowsOf(order, s), FlowsOf(order[f := n], s);
    if f.source == s {
      assert after == before + {f};
      SizeAdd(before, after, f);
    } else {
      assert after == before;
    }
  }

  /** The per-source counts once a flow is dropped. */
  function Decremented(perSource: map<TransferPath, nat>, s: TransferPath): (r: map<TransferPath, nat>)
    requires s in perSource && 0 < perSource[s]
  {
    if perSource[s] == 1 then perSource - {s} else perSource[s := perSource[s] - 1]
  }

  lemma CountedRemove(order: Order, perSource: map<TransferPath, nat>, f: Flow)
    requires f in order && Counted(order, perSource)
    ensures Counted(order - {f}, Decremented(perSource, f.source)) && |order - {f}| == |order| - 1
  {
    var after := Decremented(perSource, f.source);
    CountRemove(order, f, f.source);
    forall s | s in after ensures 0 < after[s] == CountOf(order - {f}, s) { CountRemove(order, f, s); }
    forall g | g in order - {f} ensures g.source in after {
      if g.source == f.source {
        assert {f, g} <= FlowsOf(order, f.source);
        TwoMembers(FlowsOf(order, f.source), f, g);
      }
    }
  }

  lemma TwoMembers(s: set<Flow>, f: Flow, g: Flow)
    requires f in s && g in s && f != g
    ensures 2 <= |s|
  {
    assert s == {f, g} + (s - {f, g});
    assert |s| == |{f, g}| + |s - {f, g}|;
  }

  function Incremented(perSource: map<TransferPath, nat>, s: TransferPath): (r: map<TransferPath, nat>)
  {
    perSource[s := (if s in perSource then perSource[s] else 0) + 1]
  }

  lemma CountedAdd(order: Order, perSource: map<TransferPath, nat>, f: Flow, n: nat)
    requires f !in order && Counted(order, perSource)
    ensures Counted(order[f := n], Incremented(perSource, f.source)) && |order[f := n]| == |order| + 1
  {
    var after := Incremented(perSource, f.source);
    CountAdd(order, f, n, f.source);
    OrderAdd(order, f, n);
    if f.source !in perSource { assert FlowsOf(order, f.source) == {}; }
    forall s | s in after ensures 0 < after[s] == CountOf(order[f := n], s) { CountAdd(order, f, n, s); }
  }

  // ---- the tracker ----

  ghost predicate Consistent(total: int, order: Order, perSource: map<TransferPath, nat>, next: nat)
  {
    total == |order| && Counted(order, perSource) && Injective(order, next)
  }

  lemma ConsistentRemove(total: int, order: Order, perSource: map<TransferPath, nat>, next: nat, f: Flow)
    requires Consistent(total, order, perSource, next) && f in order
    ensures f.source in perSource && 0 < perSource[f.source]
    ensures Consistent(total - 1, order - {f}, Decremented(perSource, f.source), next)
  {
    CountedRemove(order, perSource, f);
  }

  lemma ConsistentAdd(total: int, order: Order, perSource: map<TransferPath, nat>, next: nat, f: Flow)
    requires Consistent(total, order, perSource, next) && f !in order
    ensures Consistent(total + 1, order[f := next + 1], Incremented(perSource, f.source), next + 1)
  {
    CountedAdd(order, perSource, f, next + 1);
    InjectiveAdd(order, next, f);
  }

  lemma Smaller(order: Order, f: Flow)
    requires f in order
    ensures |order - {f}| < |order|
  {
    assert (order - {f}).Keys == order.Keys - {f};
  }

  lemma InjectiveAdd(order: Order, next: nat, f: Flow)
    requires Injective(order, next) && f !in order
    ensures Injective(order[f := next + 1], next + 1)
  {
    var after := order[f := next + 1];
    forall g | g in after ensures after[g] <= next + 1 {}
    forall g, h | g in after && h in after && g != h ensures after[g] != after[h] {}
  }

  lemma {:induction false} WithoutKeeps(order: Order, victims: seq<Flow>, f: Flow)
    requires f !in order
    ensures f !in Without(order, victims)
  {
    if victims != [] { WithoutKeeps(order, victims[..|victims| - 1], f); }
  }

  lemma BestSettles(at: Activity, order: Order, next: nat, only: Option<TransferPath>, seen: set<Flow>,
                    r: Option<Flow>, f: Flow)
    requires Best(at, order, only, seen, r) && Injective(order, next) && f in order && f !in seen
    ensures var wins := Eligible(only, f)
              && (r.None? || at(f) < at(r.value) || (at(f) == at(r.value) && order[f] < order[r.value]));
            Best(at, order, only, seen + {f}, if wins then Some(f) else r)
  {
    if r.None? {
    } else if Before(at, order, f, r.value) {
      if Eligible(only, f) {
        BestChanges(at, order, only, seen, r, f);
      } else {
        BestKeeps(at, order, only, seen, r, f);
      }
    } else {
      BestKeeps(at, order, only, seen, r, f);
    }
  }

  /** The search of `pick`, over the flows in any order. */
  method PickFrom(order: Order, ghost next: nat, at: Activity, only: Option<TransferPath>) returns (r: Option<Flow>)
    requires Injective(order, next)
    ensures Best(at, order, only, order.Keys, r)
  {
    r := None;
    var left := order.Keys;
    ghost var seen := {};
    while left != {}
      invariant left <= order.Keys && seen == order.Keys - left && Best(at, order, only, seen, r)
      decreases |left|
    {
      var f :| f in left;
      left := left - {f};
      BestSettles(at, order, next, only, seen, r, f);
      if Eligible(only, f) && (r.None? || at(f) < at(r.value) || (at(f) == at(r.value) && order[f] < order[r.value])) {
        r := Some(f);
      }
      seen := seen + {f};
    }
    assert seen == order.Keys;
  }

  class Tracker {
    var total: int
    var perSource: map<TransferPath, nat>
    var order: Order
    var nextOrder: nat

    ghost predicate Valid()
      reads this
    {
      Consistent(total, order, perSource, nextOrder)
    }

    constructor ()
      ensures Valid() && order == map[] && nextOrder == 0
    {
      total, perSource, order, nextOrder := 0, map[], map[], 0;
    }

    /** `pick`: the oldest eligible flow, visiting the flows in any order. */
    method Pick(at: Activity, only: Option<TransferPath>) returns (r: Option<Flow>)
      requires Valid()
      ensures match r
              case Some(f) => Oldest(at, order, only, f)
              case None => forall f :: f in order ==> !Eligible(only, f)
    {
      r := PickFrom(order, nextOrder, at, only);
    }

    method Update(total': int, order': Order, perSource': map<TransferPath, nat>, next': nat)
      requires Consistent(total', order', perSource', next')
      modifies this
      ensures Valid() && order == order' && nextOrder == next'
    {
      total, order, perSource, nextOrder := total', order', perSource', next';
    }

    /** `drop`: takes a tracked flow out of the counts. */
    method Drop(f: Flow)
      requires Valid() && f in order
      modifies this
      ensures Valid() && order == old(order) - {f} && nextOrder == old(nextOrder)
    {
      ConsistentRemove(total, order, perSource, nextOrder, f);
      Update(total - 1, order - {f}, Decremented(perSource, f.source), nextOrder);
    }

    /** `release`: idempotent, only the first release of a flow counts. */
    method Release(f: Flow)
      requires Valid()
      modifies this
      ensures Valid() && order == old(order) - {f} && nextOrder == old(nextOrder)
    {
      if f !in order { return; }
      Drop(f);
    }

    /** Whether the source's own cap is reached. */
    method SourceFull(source: TransferPath, settings: Settings) returns (b: bool)
      requires Valid()
      ensures b <==> UserFull(order, source, settings)
    {
      var n := if source in perSource then perSource[source] else 0;
      if source !in perSource { assert FlowsOf(order, source) == {}; }
      b := 0 < settings.userLimit <= n;
    }

    /** Drops the oldest eligible flow, of which there is one. */
    method EvictOldest(only: Option<TransferPath>, at: Activity, ghost some: Flow) returns (victim: Flow)
      requires Valid() && some in order && Eligible(only, some)
      modifies this
      ensures Valid() && nextOrder == old(nextOrder) && order == old(order) - {victim}
              && Oldest(at, old(order), only, victim)
    {
      var picked := Pick(at, only);
      victim := picked.value;
      Drop(victim);
    }

    /** Oldest flows of the source until its cap admits one more. */
    method EvictOfSource(source: TransferPath, settings: Settings, at: Activity) returns (victims: seq<Flow>)
      requires Valid()
      modifies this
      ensures Valid() && nextOrder == old(nextOrder) && order == Without(old(order), victims)
      ensures Chosen(at, old(order), source, settings, victims) && !UserFull(order, source, settings)
    {
      ghost var start := order;
      victims := [];
      var full := SourceFull(source, settings);
      while full
        invariant Valid() && nextOrder == old(nextOrder) && order == Without(start, victims)
        invariant Chosen(at, start, source, settings, victims) && (full <==> UserFull(order, source, settings))
        decreases |order|
      {
        ghost var before := order;
        ghost var some :| some in FlowsOf(order, source);
        var victim := EvictOldest(Some(source), at, some);
        Smaller(before, victim);
        ChosenMore(at, start, source, settings, victims, victim);
        victims := victims + [victim];
        full := SourceFull(source, settings);
      }
    }

    /** Oldest flows anywhere until the global cap admits one more. */
    method EvictAnywhere(source: TransferPath, settings: Settings, at: Activity, first: seq<Flow>, ghost start: Order)
      returns (victims: seq<Flow>)
      requires Valid() && order == Without(start, first)
      requires Chosen(at, start, source, settings, first) && !UserFull(order, source, settings)
      modifies this
      ensures Valid() && nextOrder == old(nextOrder) && order == Without(start, victims)
      ensures Evicts(at, start, source, settings, victims)
    {
      victims := first;
      while 0 < settings.globalLimit <= total
        invariant Valid() && nextOrder == old(nextOrder) && order == Without(start, victims)
        invariant Chosen(at, start, source, settings, victims) && !UserFull(order, source, settings)
        decreases |order|
      {
        ghost var before := order;
        ghost var some :| some in order.Keys;
        var victim := EvictOldest(None, at, some);
        Smaller(before, victim);
        ChosenMore(at, start, source, settings, victims, victim);
        CountRemove(before, victim, source);
        victims := victims + [victim];
      }
    }

    /** `evictFor`: oldest flows of the source until its cap admits one more, then oldest flows anywhere. */
    method EvictFor(source: TransferPath, settings: Settings, at: Activity) returns (victims: seq<Flow>)
      requires Valid()
      modifies this
      ensures Valid() && nextOrder == old(nextOrder)
      ensures order == Without(old(order), victims) && Evicts(at, old(order), source, settings, victims)
    {
      ghost var start := order;
      victims := EvictOfSource(source, settings, at);
      victims := EvictAnywhere(source, settings, at, victims, start);
    }

    /** `register`: the victims are then canceled outside the lock. */
    method Register(f: Flow, settings: Settings, at: Activity) returns (victims: seq<Flow>)
      requires Valid() && f !in order
      modifies this
      ensures Valid() && Evicts(at, old(order), f.source, settings, victims)
      ensures nextOrder == old(nextOrder) + 1 && order == Without(old(order), victims)[f := nextOrder]
    {
      ghost var start := order;
      victims := EvictFor(f.source, settings, at);
      WithoutKeeps(start, victims, f);
      Admit(f);
    }

    method Admit(f: Flow)
      requires Valid() && f !in order
      modifies this
      ensures Valid() && nextOrder == old(nextOrder) + 1 && order == old(order)[f := nextOrder]
    {
      ConsistentAdd(total, order, perSource, nextOrder, f);
      Update(total + 1, order[f := nextOrder + 1], Incremented(perSource, f.source), nextOrder + 1);
    }
  }
}
