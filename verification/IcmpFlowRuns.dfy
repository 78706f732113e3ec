/** Runs of the ICMP flow tracker under fixed settings: registrations, cancels, closes and evictions in any order. */
module IcmpFlowRuns {
  import opened Transfer
  import opened IcmpFlow

  datatype Event =
    | Registers(flow: Flow, at: Activity, victims: seq<Flow>)
    | Releases(flow: Flow)   // a cancel, a close, or the cancel of a victim

  datatype Run = Start | Then(before: Run, event: Event, order: Order)

  ghost function Tracked(r: Run): (o: Order) { if r.Start? then map[] else r.order }

  /** The flows registered so far; each registers once. */
  ghost function Registered(r: Run): (s: set<Flow>)
  {
    if r.Start? then {}
    else Registered(r.before) + if r.event.Registers? then {r.event.flow} else {}
  }

  /** The flows canceled, closed or evicted so far. */
  ghost function Gone(r: Run): (s: set<Flow>)
  {
    if r.Start? then {}
    else Gone(r.before) + match r.event
                          case Registers(_, _, victims) => set f | f in victims
                          case Releases(f) => if f in Registered(r.before) then {f} else {}
  }

  ghost predicate IsRun(r: Run, settings: Settings)
  {
    r.Then? ==>
      && IsRun(r.before, settings)
      && match r.event
         case Registers(f, at, victims) =>
           && f !in Registered(r.before)
           && Evicts(at, Tracked(r.before), f.source, settings, victims)
           && r.order == Without(Tracked(r.before), victims)[f := |Registered(r.before)| + 1]
         case Releases(f) => r.order == Tracked(r.before) - {f}
  }

  // ---- one decrement per flow ----

  lemma {:induction false} WithoutKeys(order: Order, victims: seq<Flow>)
    ensures Without(order, victims).Keys == order.Keys - set f | f in victims
  {
    if victims != [] {
      var n := |victims| - 1;
      WithoutKeys(order, victims[..n]);
      assert victims == victims[..n] + [victims[n]];
    }
  }

  ghost predicate OnlyTracked(called: (Order, Flow) -> bool)
  {
    forall o: Order, f: Flow :: called(o, f) ==> f in o
  }

  lemma {:induction false} ChosenTracked(called: (Order, Flow) -> bool, order: Order, victims: seq<Flow>)
    requires OnlyTracked(called) && ChosenBy(called, order, victims)
    ensures forall f :: f in victims ==> f in order
  {
    if victims != [] {
      var n := |victims| - 1;
      ChosenTracked(called, order, victims[..n]);
      WithoutKeys(order, victims[..n]);
      assert victims == victims[..n] + [victims[n]];
    }
  }

  lemma VictimsTracked(at: Activity, order: Order, source: TransferPath, settings: Settings, victims: seq<Flow>)
    requires Chosen(at, order, source, settings, victims)
    ensures forall f :: f in victims ==> f in order
  {
    assert OnlyTracked(Caller(at, source, settings));
    ChosenTracked(Caller(at, source, settings), order, victims);
  }

  /** The tracked flows are those registered and not yet gone. */
  ghost predicate Settled(tracked: set<Flow>, registered: set<Flow>, gone: set<Flow>)
  {
    gone <= registered && tracked == registered - gone
  }

  lemma SettledRegister(tracked: set<Flow>, registered: set<Flow>, gone: set<Flow>, victims: set<Flow>, f: Flow)
    requires Settled(tracked, registered, gone) && victims <= tracked && f !in registered
    ensures Settled(tracked - victims + {f}, registered + {f}, gone + victims)
  {
  }

  lemma SettledRelease(tracked: set<Flow>, registered: set<Flow>, gone: set<Flow>, f: Flow)
    requires Settled(tracked, registered, gone)
    ensures Settled(tracked - {f}, registered, gone + if f in registered then {f} else {})
  {
  }

  lemma RegisterSettles(before: Order, after: Order, registered: set<Flow>, gone: set<Flow>, victims: seq<Flow>,
                        f: Flow, n: nat)
    requires Settled(before.Keys, registered, gone) && f !in registered && after == Without(before, victims)[f := n]
    requires forall v :: v in victims ==> v in before
    ensures Settled(after.Keys, registered + {f}, gone + set v | v in victims)
  {
    WithoutKeys(before, victims);
    SettledRegister(before.Keys, registered, gone, (set v | v in victims), f);
  }

  lemma {:induction false} RunSettled(r: Run, settings: Settings)
    requires IsRun(r, settings)
    ensures Settled(Tracked(r).Keys, Registered(r), Gone(r))
  {
    if r.Then? {
      RunSettled(r.before, settings);
      match r.event
      case Registers(f, at, victims) =>
        VictimsTracked(at, Tracked(r.before), f.source, settings, victims);
        RegisterSettles(Tracked(r.before), r.order, Registered(r.before), Gone(r.before), victims, f,
                        |Registered(r.before)| + 1);
      case Releases(f) =>
        SettledRelease(Tracked(r.before).Keys, Registered(r.before), Gone(r.before), f);
    }
  }

  /**
   * In every run the count is the registered flows less those gone, each decremented once however often it is
   * released.
   */
  lemma DecrementedOnce(r: Run, settings: Settings)
    requires IsRun(r, settings)
    ensures |Tracked(r)| == |Registered(r)| - |Gone(r)|
  {
    RunSettled(r, settings);
    Difference(Tracked(r).Keys, Registered(r), Gone(r));
  }

  lemma Difference(tracked: set<Flow>, registered: set<Flow>, gone: set<Flow>)
    requires Settled(tracked, registered, gone)
    ensures |tracked| == |registered| - |gone|
  {
    assert registered == tracked + gone;
    assert |tracked + gone| == |tracked| + |gone|;
  }

  // ---- caps ----

  ghost predicate Capped(order: Order, settings: Settings)
  {
    && (0 < settings.globalLimit ==> |order| <= settings.globalLimit)
    && (0 < settings.userLimit ==> forall s :: CountOf(order, s) <= settings.userLimit)
  }

  lemma CappedRemove(order: Order, settings: Settings, f: Flow)
    requires Capped(order, settings)
    ensures Capped(order - {f}, settings)
  {
    if f in order {
      CountRemove(order, f, f.source);
      forall s ensures CountOf(order - {f}, s) <= CountOf(order, s) { CountRemove(order, f, s); }
    } else {
      assert order - {f} == order;
    }
  }

  lemma {:induction false} CappedWithout(order: Order, settings: Settings, victims: seq<Flow>)
    requires Capped(order, settings)
    ensures Capped(Without(order, victims), settings)
  {
    if victims != [] {
      var n := |victims| - 1;
      CappedWithout(order, settings, victims[..n]);
      CappedRemove(Without(order, victims[..n]), settings, victims[n]);
    }
  }

  lemma CappedAdd(order: Order, settings: Settings, f: Flow, n: nat)
    requires Capped(order, settings) && f !in order && !UserFull(order, f.source, settings)
             && !GlobalFull(order, settings)
    ensures Capped(order[f := n], settings)
  {
    OrderAdd(order, f, n);
    var after := order[f := n];
    forall s ensures 0 < settings.userLimit ==> CountOf(after, s) <= settings.userLimit { CountAdd(order, f, n, s); }
  }

  /** In every run under fixed settings both caps hold at every step. */
  lemma {:induction false} RunCapped(r: Run, settings: Settings)
    requires IsRun(r, settings)
    ensures Capped(Tracked(r), settings)
  {
    match r
    case Start => NothingCapped(settings);
    case Then(before, event, order) =>
      RunCapped(before, settings);
      RunSettled(before, settings);
      match event
      case Registers(f, at, victims) =>
        CappedWithout(Tracked(before), settings, victims);
        WithoutKeeps(Tracked(before), victims, f);
        CappedAdd(Without(Tracked(before), victims), settings, f, |Registered(before)| + 1);
      case Releases(f) => CappedRemove(Tracked(before), settings, f);
  }

  lemma NothingCapped(settings: Settings)
    ensures Capped(map[], settings)
  {
    forall s ensures CountOf(map[], s) == 0 { assert FlowsOf(map[], s) == {}; }
  }

  // ---- who is evicted ----

  lemma {:induction false} ChosenPrefix(called: (Order, Flow) -> bool, order: Order, victims: seq<Flow>, n: nat)
    requires ChosenBy(called, order, victims) && n < |victims|
    ensures called(Without(order, victims[..n]), victims[n])
  {
    if n < |victims| - 1 {
      ChosenPrefix(called, order, victims[..|victims| - 1], n);
      assert victims[..|victims| - 1][..n] == victims[..n];
    }
  }

  /** Within the caps, one flow gone is room enough. */
  lemma OneIsEnough(order: Order, source: TransferPath, settings: Settings, f: Flow)
    requires Capped(order, settings) && f in order
    requires UserFull(order, source, settings) ==> f.source == source
    ensures !UserFull(order - {f}, source, settings) && !GlobalFull(order - {f}, settings)
  {
    CountRemove(order, f, source);
  }

  /** No flow of the group was active earlier, and of those active as early none registered earlier. */
  ghost predicate LeastRecent(at: Activity, order: Order, f: Flow, group: set<Flow>)
  {
    && f in order && f in group
    && forall g :: g in order && g in group ==> at(f) <= at(g) && (at(f) == at(g) ==> order[f] <= order[g])
  }

  /** A registration evicts nothing if there is room. */
  ghost predicate MakesRoom(at: Activity, order: Order, source: TransferPath, settings: Settings, victims: seq<Flow>)
  {
    if 0 < settings.userLimit && CountOf(order, source) == settings.userLimit then
      |victims| == 1 && LeastRecent(at, order, victims[0], FlowsOf(order, source))
    else if 0 < settings.globalLimit && |order| == settings.globalLimit then
      |victims| == 1 && LeastRecent(at, order, victims[0], order.Keys)
    else victims == []
  }

  lemma SecondCalled(at: Activity, order: Order, source: TransferPath, settings: Settings, victims: seq<Flow>)
    requires Chosen(at, order, source, settings, victims) && 1 < |victims|
    ensures CalledFor(at, order - {victims[0]}, source, settings, victims[1])
  {
    ChosenPrefix(Caller(at, source, settings), order, victims, 1);
    assert victims[..1] == [victims[0]] && victims[..1][..0] == [];
  }

  lemma VictimsExactly(at: Activity, order: Order, source: TransferPath, settings: Settings, victims: seq<Flow>)
    requires Capped(order, settings) && Evicts(at, order, source, settings, victims)
    ensures MakesRoom(at, order, source, settings, victims)
  {
    if victims != [] {
      ChosenPrefix(Caller(at, source, settings), order, victims, 0);
      assert victims[..0] == [] && CalledFor(at, order, source, settings, victims[0]);
      if |victims| > 1 { SecondCalled(at, order, source, settings, victims); }
      OneIsEnough(order, source, settings, victims[0]);
    }
  }

  /**
   * In every run a registration evicts at most one flow. At the source's cap it is the least recently active flow of
   * that source; otherwise, at the global cap, the least recently active of all; with room, none.
   */
  lemma EvictsExactly(r: Run, settings: Settings)
    requires IsRun(r, settings) && r.Then? && r.event.Registers?
    ensures MakesRoom(r.event.at, Tracked(r.before), r.event.flow.source, settings, r.event.victims)
  {
    RunCapped(r.before, settings);
    VictimsExactly(r.event.at, Tracked(r.before), r.event.flow.source, settings, r.event.victims);
  }

  // ---- the counts add up ----

  ghost function SumOf(counts: map<TransferPath, nat>): (n: nat)
    decreases |counts|
  {
    if counts == map[] then 0
    else
      var s :| s in counts;
      counts[s] + SumOf(counts - {s})
  }

  /** The flows of the given sources. */
  function FlowsIn(order: Order, sources: set<TransferPath>): (s: set<Flow>)
  {
    set f | f in order && f.source in sources
  }

  lemma {:induction false} SumIsFlows(order: Order, counts: map<TransferPath, nat>)
    requires forall s :: s in counts ==> counts[s] == CountOf(order, s)
    ensures SumOf(counts) == |FlowsIn(order, counts.Keys)|
    decreases |counts|
  {
    if counts == map[] {
      assert FlowsIn(order, counts.Keys) == {};
    } else {
      var s :| s in counts && SumOf(counts) == counts[s] + SumOf(counts - {s});
      SumIsFlows(order, counts - {s});
      assert FlowsIn(order, counts.Keys) == FlowsIn(order, (counts - {s}).Keys) + FlowsOf(order, s);
      assert FlowsIn(order, (counts - {s}).Keys) !! FlowsOf(order, s);
    }
  }

  /** The total is the sum of the per-source counts. */
  lemma TotalIsSum(total: int, order: Order, perSource: map<TransferPath, nat>, next: nat)
    requires Consistent(total, order, perSource, next)
    ensures total == SumOf(perSource)
  {
    SumIsFlows(order, perSource);
    assert FlowsIn(order, perSource.Keys) == order.Keys;
  }
}
