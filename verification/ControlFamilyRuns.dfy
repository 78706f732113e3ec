/** The demotion ledger over whole runs: one strike per live interval, intervals that never overlap. */
module ControlFamilyRuns {
  import opened Options
  import opened ControlBackoff
  import opened ControlFamily

  datatype State = State(policy: Policy, demoted: Demotions, clock: int)

  datatype Event =
    | Demotes(family: Family, probe: Probe)
    | Undemotes(family: Family)
    | Clears
    | Reading(probe: Probe)
    | SetsPolicy(policy: Policy)

  function Next(s: State, e: Event, now: int): (t: State)
  {
    match e
    case Demotes(f, probe) => State(s.policy, AfterDemote(s.policy, s.demoted, f, now, probe), now)
    case Undemotes(f) => State(s.policy, s.demoted - {f}, now)
    case Clears => State(s.policy, map[], now)
    case Reading(probe) => State(s.policy, AfterRead(s.demoted, now, probe), now)
    case SetsPolicy(p) => State(p, s.demoted, now)
  }

  /** A run: time never goes back. */
  datatype Run = Start(state: State) | Then(before: Run, event: Event, now: int, state: State)

  predicate IsRun(r: Run)
  {
    match r
    case Start(s) => s.demoted == map[]
    case Then(before, e, now, t) => IsRun(before) && before.state.clock <= now && t == Next(before.state, e, now)
  }

  /** The step struck the family once more. */
  predicate Strikes(r: Run, f: Family)
  {
    r.Then? && ControlFamily.Strikes(r.before.state.demoted, f) < ControlFamily.Strikes(r.state.demoted, f)
  }

  predicate Removes(r: Run, f: Family)
  {
    r.Then? && f in r.before.state.demoted && f !in r.state.demoted
  }

  /** While a family is demoted: from the strike until the demotion expires or is taken back. */
  datatype Interval = Interval(from: int, to: int)

  function Intervals(r: Run, f: Family): (spans: seq<Interval>)
  {
    if r.Start? then []
    else
      var before := Intervals(r.before, f);
      if Strikes(r, f) && f in r.state.demoted then before + [Interval(r.now, r.state.demoted[f].until)]
      else if Removes(r, f) then Cut(before, r.now)
      else before
  }

  /** The last interval ends by `now`. */
  function Cut(spans: seq<Interval>, now: int): (r: seq<Interval>)
  {
    if spans != [] && now < spans[|spans| - 1].to then spans[|spans| - 1 := spans[|spans| - 1].(to := now)] else spans
  }

  lemma CutEnds(spans: seq<Interval>, now: int)
    requires Disjoint(spans) && forall i :: 0 <= i < |spans| ==> spans[i].from <= now
    ensures var r := Cut(spans, now);
            |r| == |spans| && Disjoint(r) && forall i :: 0 <= i < |r| ==> r[i].from <= now && r[i].to <= now
  {
    var r, n := Cut(spans, now), |spans| - 1;
    forall i | 0 <= i < |r| ensures r[i].from <= now && r[i].to <= now {
      if i < n { assert spans[i].to <= spans[n].from; }
    }
  }

  ghost predicate Disjoint(spans: seq<Interval>)
  {
    && (forall i :: 0 <= i < |spans| ==> spans[i].from <= spans[i].to)
    && (forall i, j :: 0 <= i < j < |spans| ==> spans[i].to <= spans[j].from)
  }

  /** The intervals of `f` agree with its entry. */
  ghost predicate Tracks(r: Run, f: Family)
  {
    var spans, m := Intervals(r, f), r.state.demoted;
    && Disjoint(spans)
    && (forall i :: 0 <= i < |spans| ==> spans[i].from <= r.state.clock)
    && (if f in m then spans != [] && spans[|spans| - 1].to == m[f].until && 0 < m[f].strikes <= |spans|
        else forall i :: 0 <= i < |spans| ==> spans[i].to <= r.state.clock)
  }

  lemma StepKinds(s: State, e: Event, now: int, f: Family)
    ensures var t := Next(s, e, now);
            || (f in t.demoted && f in s.demoted && t.demoted[f] == s.demoted[f])
            || f !in t.demoted
            || (f in t.demoted && t.demoted[f].strikes == ControlFamily.Strikes(s.demoted, f) + 1
                && !Live(s.demoted, f, now)
                && now + BASE <= t.demoted[f].until <= now + MAX)
  {
    if e.Demotes? && e.family == f { BackoffIsPromised(ControlFamily.Strikes(s.demoted, f) + 1); }
  }

  lemma {:induction false} RunTracks(r: Run, f: Family)
    requires IsRun(r)
    ensures Tracks(r, f)
  {
    if r.Then? {
      RunTracks(r.before, f);
      StepKinds(r.before.state, r.event, r.now, f);
      if Strikes(r, f) { StrikeTracks(r, f); } else if Removes(r, f) { RemoveTracks(r, f); } else { KeepTracks(r, f); }
    }
  }

  lemma StrikeTracks(r: Run, f: Family)
    requires IsRun(r) && r.Then? && Tracks(r.before, f) && Strikes(r, f)
    ensures Tracks(r, f)
  {
    StepKinds(r.before.state, r.event, r.now, f);
    var before := Intervals(r.before, f);
    forall i | 0 <= i < |before| ensures before[i].to <= r.now {
      if f in r.before.state.demoted && i < |before| - 1 { assert before[i].to <= before[|before| - 1].from; }
    }
  }

  lemma RemoveTracks(r: Run, f: Family)
    requires IsRun(r) && r.Then? && Tracks(r.before, f) && Removes(r, f)
    ensures Tracks(r, f)
  {
    CutEnds(Intervals(r.before, f), r.now);
  }

  lemma KeepTracks(r: Run, f: Family)
    requires IsRun(r) && r.Then? && Tracks(r.before, f) && !Strikes(r, f) && !Removes(r, f)
    ensures Tracks(r, f)
  {
    StepKinds(r.before.state, r.event, r.now, f);
  }

  /** In every run the live intervals of one family never overlap; each begins with exactly one strike. */
  lemma LiveIntervalsDisjoint(r: Run, f: Family)
    requires IsRun(r)
    ensures Disjoint(Intervals(r, f))
    ensures Strikes(r, f) ==>
              && ControlFamily.Strikes(r.state.demoted, f) == ControlFamily.Strikes(r.before.state.demoted, f) + 1
              && !Live(r.before.state.demoted, f, r.now)
              && |Intervals(r, f)| == |Intervals(r.before, f)| + 1
    ensures !Strikes(r, f) && r.Then? ==> |Intervals(r, f)| == |Intervals(r.before, f)|
  {
    RunTracks(r, f);
    if r.Then? { StepKinds(r.before.state, r.event, r.now, f); }
  }

  /** How often the family was struck since it was last taken off the ledger. */
  function Streak(r: Run, f: Family): (n: nat)
  {
    if r.Start? || Removes(r, f) then 0
    else Streak(r.before, f) + if Strikes(r, f) then 1 else 0
  }

  /**
   * In every run a family is struck exactly by a demotion under Auto while it is not live and the other family is
   * usable. Its entry counts the strikes since it was last removed, and the new interval lasts what the backoff
   * promises for that count.
   */
  lemma {:induction false} StruckExactly(r: Run, f: Family)
    requires IsRun(r)
    ensures ControlFamily.Strikes(r.state.demoted, f) == Streak(r, f)
    ensures r.Then? ==>
              (Strikes(r, f) <==> && r.event.Demotes? && r.event.family == f && r.before.state.policy.Auto?
                                  && Usable(r.event.probe, Other(f)) && !Live(r.before.state.demoted, f, r.now))
    ensures Strikes(r, f) ==> Live(r.state.demoted, f, r.now)
                              && r.state.demoted[f].until == r.now + Promised(Streak(r, f))
  {
    if r.Then? {
      StruckExactly(r.before, f);
      StepKinds(r.before.state, r.event, r.now, f);
      RunTracks(r, f);
      if Strikes(r, f) { BackoffIsPromised(Streak(r, f)); }
    }
  }

  /**
   * A family leaves the ledger exactly when it is taken off, the ledger is cleared, or it alone is live at a read at
   * which the other family is not usable; nothing else in the ledger changes at a read.
   */
  lemma RemovedExactly(r: Run, f: Family)
    requires IsRun(r) && r.Then? && f in r.before.state.demoted
    ensures var m := r.before.state.demoted;
            Removes(r, f) <==>
            match r.event
            case Undemotes(g) => f == g
            case Clears => true
            case Reading(probe) =>
              Live(m, f, r.now) && !Live(m, Other(f), r.now) && !Usable(probe, Other(f))
            case _ => false
    ensures !Removes(r, f) && !Strikes(r, f) ==> r.state.demoted[f] == r.before.state.demoted[f]
  {
    StepKinds(r.before.state, r.event, r.now, f);
  }

  /** At the end of a run a family is live exactly when its last interval reaches past the clock. */
  lemma LiveIsLastInterval(r: Run, f: Family)
    requires IsRun(r)
    ensures Live(r.state.demoted, f, r.state.clock) <==>
            Intervals(r, f) != [] && r.state.clock < Intervals(r, f)[|Intervals(r, f)| - 1].to
  {
    RunTracks(r, f);
  }

  predicate BothLive(m: Demotions, now: int)
  {
    Live(m, V4, now) && Live(m, V6, now)
  }

  /**
   * A step makes both families live exactly when it is a demotion that is recorded, under Auto and with the
   * other family usable at that moment, while the other family is itself live.
   */
  lemma BecomesBothLive(s: State, e: Event, now: int)
    requires !BothLive(s.demoted, now)
    ensures BothLive(Next(s, e, now).demoted, now) <==>
            e.Demotes? && s.policy.Auto? && Usable(e.probe, Other(e.family)) && Live(s.demoted, Other(e.family), now)
  {
    if e.Demotes? { BackoffIsPromised(ControlFamily.Strikes(s.demoted, e.family) + 1); }
  }

  /** In a run both families are live exactly when each has an interval that reaches past the clock. */
  lemma BothLiveInRun(r: Run)
    requires IsRun(r)
    ensures BothLive(r.state.demoted, r.state.clock) <==>
              Reaches(Intervals(r, V4), r.state.clock) && Reaches(Intervals(r, V6), r.state.clock)
  {
    LiveIsLastInterval(r, V4);
    LiveIsLastInterval(r, V6);
  }

  predicate Reaches(spans: seq<Interval>, now: int)
  {
    spans != [] && now < spans[|spans| - 1].to
  }

  /** Both families can be demoted at once, by two steps of one device on which both were usable. */
  lemma BothCanBeLive()
    ensures exists r :: IsRun(r) && BothLive(r.state.demoted, r.state.clock)
  {
    var both := Probe(true, true);
    var s0 := State(Auto, map[], 0);
    var r1 := Then(Start(s0), Demotes(V6, both), 1, Next(s0, Demotes(V6, both), 1));
    var r2 := Then(r1, Demotes(V4, both), 2, Next(r1.state, Demotes(V4, both), 2));
    BackoffIsPromised(1);
    assert IsRun(r2) && BothLive(r2.state.demoted, r2.state.clock);
  }

  /** And then nothing is narrowed. */
  lemma BothLiveNarrowsNothing(m: Demotions, network: string, now: int, probe: Probe)
    requires Agnostic(network) && BothLive(m, now)
    ensures Dialed(Auto, m, network, false, now, probe) == Some(network) && AfterRead(m, now, probe) == m
  {
  }
}
