/** The two actors of the association tracker: the clustering pass and the memory shedder. */
module AssocPublish {
  import opened AssocClusters

  type Members = map<Addr, seq<Addr>>

  /** Activity is numbered in the order it is recorded. */
  type Activity = nat

  /** A published snapshot; `derived` is the activity its clusters were computed from. */
  datatype Snapshot = Snapshot(version: nat, members: Members, derived: seq<Activity>)

  /** Where a clustering pass stands: outside the lock with its aggregate, or with the previous snapshot read. */
  datatype Pass =
    | Idle
    | Clustering(generation: nat, aggregate: seq<Activity>)
    | Loaded(generation: nat, aggregate: seq<Activity>, previous: Snapshot)

  /**
   * `recorded` activities so far, of which `blocks` holds the live ones; `shedAt` were recorded before the latest
   * shed.
   */
  datatype State = State(
    recorded: nat, shedAt: nat, blocks: seq<Activity>, dirty: bool, generation: nat, published: Snapshot, pass: Pass)

  const EMPTY: Snapshot := Snapshot(0, map[], [])

  const INITIAL: State := State(0, 0, [], false, 0, EMPTY, Idle)

  /** One step under the lock, or one atomic load of the published snapshot. */
  datatype Step =
    | Record(live: seq<Activity>)   // activity enters the newest block; old blocks may drop out
    | Capture                       // the pass aggregates the blocks
    | Load                          // the pass has its clusters and reads the previous snapshot
    | Publish                       // the pass publishes unless a shed came between
    | Abort                         // teardown stops the pass
    | Shed

  /** What the clustering makes of an aggregate. */
  type Clusterer = seq<Activity> -> Members

  ghost predicate Enabled(s: State, step: Step)
  {
    match step
    case Record(live) => forall i :: 0 <= i < |live| ==> live[i] in s.blocks
    case Capture => s.pass.Idle? && s.dirty
    case Load => s.pass.Clustering?
    case Publish => s.pass.Loaded?
    case Abort => !s.pass.Idle?
    case Shed => true
  }

  ghost function Next(cluster: Clusterer, s: State, step: Step): (t: State)
    requires Enabled(s, step)
  {
    match step
    case Record(live) => s.(recorded := s.recorded + 1, blocks := live + [s.recorded], dirty := true)
    case Capture => s.(dirty := false, pass := Clustering(s.generation, s.blocks))
    case Load =>
      if cluster(s.pass.aggregate) == s.published.members then s.(pass := Idle)
      else s.(pass := Loaded(s.pass.generation, s.pass.aggregate, s.published))
    case Publish =>
      if s.pass.generation != s.generation then s.(pass := Idle)
      else
        s.(pass := Idle,
           published := Snapshot(s.pass.previous.version + 1, cluster(s.pass.aggregate), s.pass.aggregate))
    case Abort => s.(pass := Idle)
    case Shed =>
      s.(blocks := [], dirty := false, generation := s.generation + 1, shedAt := s.recorded,
         published := if s.published.members == map[] then s.published
                      else Snapshot(s.published.version + 1, map[], []))
  }

  // ---- what every step keeps ----

  predicate Since(activities: seq<Activity>, shedAt: nat, recorded: nat)
  {
    forall i :: 0 <= i < |activities| ==> shedAt <= activities[i] < recorded
  }

  ghost predicate Inv(cluster: Clusterer, s: State)
  {
    && s.shedAt <= s.recorded && Since(s.blocks, s.shedAt, s.recorded)
    && (!s.pass.Idle? ==> s.pass.generation <= s.generation)
    && (!s.pass.Idle? && s.pass.generation == s.generation ==> Since(s.pass.aggregate, s.shedAt, s.recorded))
    && (s.pass.Loaded? && s.pass.generation == s.generation ==> s.pass.previous == s.published)
    && Fresh(cluster, s)
  }

  /** The published clusters are empty, or computed from activity recorded after the latest shed. */
  ghost predicate Fresh(cluster: Clusterer, s: State)
  {
    s.published.members == map[] || (s.published.members == cluster(s.published.derived)
                                     && Since(s.published.derived, s.shedAt, s.recorded))
  }

  lemma StepInv(cluster: Clusterer, s: State, step: Step)
    requires Inv(cluster, s) && Enabled(s, step)
    ensures Inv(cluster, Next(cluster, s, step))
  {
    if step.Record? {
      forall i | 0 <= i < |step.live| ensures s.shedAt <= step.live[i] < s.recorded { assert step.live[i] in s.blocks; }
    }
  }

  /** A step publishes nothing, or the next version. */
  lemma StepVersion(cluster: Clusterer, s: State, step: Step)
    requires Inv(cluster, s) && Enabled(s, step)
    ensures var t := Next(cluster, s, step);
            t.published == s.published || t.published.version == s.published.version + 1
  {
  }

  // ---- runs ----

  datatype Run = Start | Then(before: Run, step: Step, state: State)

  function At(r: Run): (s: State) { if r.Start? then INITIAL else r.state }

  ghost predicate IsRun(cluster: Clusterer, r: Run)
  {
    r.Then? ==>
      && IsRun(cluster, r.before) && Enabled(At(r.before), r.step)
      && r.state == Next(cluster, At(r.before), r.step)
  }

  /** How many publications the run made, by the pass or by the shedder. */
  ghost function Publications(r: Run): (n: nat)
  {
    if r.Start? then 0 else Publications(r.before) + if At(r).published != At(r.before).published then 1 else 0
  }

  lemma {:induction false} RunInv(cluster: Clusterer, r: Run)
    requires IsRun(cluster, r)
    ensures Inv(cluster, At(r))
  {
    if r.Then? {
      RunInv(cluster, r.before);
      StepInv(cluster, At(r.before), r.step);
    }
  }

  /** Under every interleaving, consumers see no clusters or clusters of activity since the latest shed. */
  lemma RunFresh(cluster: Clusterer, r: Run)
    requires IsRun(cluster, r)
    ensures Fresh(cluster, At(r))
  {
    RunInv(cluster, r);
  }

  /** Under every interleaving, the version counts the publications: it rises by exactly one at each. */
  lemma {:induction false} RunVersion(cluster: Clusterer, r: Run)
    requires IsRun(cluster, r)
    ensures At(r).published.version == Publications(r)
  {
    if r.Then? {
      RunInv(cluster, r.before);
      RunVersion(cluster, r.before);
      StepVersion(cluster, At(r.before), r.step);
    }
  }

  /** Right after a shed nothing is published, whatever pass is under way. */
  lemma ShedEmpties(cluster: Clusterer, r: Run)
    requires IsRun(cluster, r) && r.Then? && r.step.Shed?
    ensures At(r).published.members == map[] && At(r).blocks == []
  {
  }

  /** A shed publishes the empty clusters exactly where there were any. */
  lemma ShedPublishes(cluster: Clusterer, r: Run)
    requires IsRun(cluster, r) && r.Then? && r.step.Shed?
    ensures At(r).published != At(r.before).published <==> At(r.before).published.members != map[]
    ensures At(r).published.members == map[]
    ensures At(r).published != At(r.before).published ==>
              At(r).published.version == At(r.before).published.version + 1
  {
  }

  // ---- what a pass publishes ----

  /** The activity the latest pass captured. */
  function CapturedBy(r: Run): (aggregate: seq<Activity>)
  {
    if r.Start? then [] else if r.step.Capture? then At(r.before).blocks else CapturedBy(r.before)
  }

  /** A shed came since the latest capture. */
  predicate ShedSince(r: Run)
  {
    r.Then? && !r.step.Capture? && (r.step.Shed? || ShedSince(r.before))
  }

  /** What was published when a pass last looked. */
  function SeenAtLoad(r: Run): (members: Members)
  {
    if r.Start? then map[] else if r.step.Load? then At(r.before).published.members else SeenAtLoad(r.before)
  }

  /** Activity came since the latest capture or shed. */
  predicate ActiveSince(r: Run)
  {
    r.Then? && !r.step.Capture? && !r.step.Shed? && (r.step.Record? || ActiveSince(r.before))
  }

  /** What the pass under way holds, by what happened. */
  ghost predicate Follows(cluster: Clusterer, s: State, r: Run)
  {
    && (s.dirty <==> ActiveSince(r))
    && (!s.pass.Idle? ==>
          s.pass.aggregate == CapturedBy(r) && (s.pass.generation == s.generation <==> !ShedSince(r)))
    && (s.pass.Loaded? ==> s.pass.previous.members == SeenAtLoad(r) && cluster(s.pass.aggregate) != SeenAtLoad(r))
  }

  lemma {:induction false} RunFollows(cluster: Clusterer, r: Run)
    requires IsRun(cluster, r)
    ensures Follows(cluster, At(r), r)
  {
    if r.Then? {
      RunInv(cluster, r.before);
      RunFollows(cluster, r.before);
    }
  }

  /** A pass comes to its own end with this step. */
  predicate Ends(r: Run)
  {
    r.Then? && !At(r.before).pass.Idle? && At(r).pass.Idle? && !r.step.Abort?
  }

  /**
   * A pass that reaches its end publishes if and only if no shed came since its capture and its clusters differ from
   * those it saw; without a shed its clusters are then the ones published, derived from what it captured.
   */
  lemma PassExactly(cluster: Clusterer, r: Run)
    requires IsRun(cluster, r) && Ends(r)
    ensures var clusters := cluster(CapturedBy(r));
            && (At(r).published != At(r.before).published <==> !ShedSince(r.before) && clusters != SeenAtLoad(r))
            && (At(r).published != At(r.before).published ==>
                  At(r).published == Snapshot(At(r.before).published.version + 1, clusters, CapturedBy(r)))
            && (!ShedSince(r.before) ==> At(r).published.members == clusters)
  {
    RunInv(cluster, r.before);
    RunFollows(cluster, r.before);
  }

  /** And it always can: the steps of a pass are open to it whatever the others do. */
  lemma PassGoesOn(cluster: Clusterer, r: Run)
    requires IsRun(cluster, r)
    ensures Enabled(At(r), Capture) <==> At(r).pass.Idle? && ActiveSince(r)
    ensures !At(r).pass.Idle? ==> Enabled(At(r), Load) || Enabled(At(r), Publish)
    ensures At(r).pass.Loaded? ==> Next(cluster, At(r), Publish).pass.Idle?
    ensures At(r).pass.Clustering? ==> !Next(cluster, At(r), Load).pass.Clustering?
  {
    RunFollows(cluster, r);
  }

  /** Only a pass at its end and a shed change what is published. */
  lemma OnlyThesePublish(cluster: Clusterer, r: Run)
    requires IsRun(cluster, r) && r.Then? && At(r).published != At(r.before).published
    ensures Ends(r) || r.step.Shed?
  {
  }
}
