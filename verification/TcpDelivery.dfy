/** What the endpoint takes from its client: which segments it accepts, and when the whole stream has come through. */
module TcpDelivery {
  import opened Bytes
  import opened TcpStream
  import opened TcpStreamRuns

  // ---- before the SYN ----

  /** Nothing but a SYN moves a fresh sequence: it opens if the SYN is answered, and is over if not. */
  lemma WaitsForSyn(c: Settings, s: State, e: Event)
    requires s.phase.Waiting?
    ensures var t := Step(c, s, e);
            if e.Arrive? && e.segment.syn
            then && t.phase == (if e.answered then Open else Dead)
                 && t.sendSeq == Add(e.segment.number, 1) && t.receiveSeq == Add(e.segment.number, 1)
                 && t.queued == s.queued && t.sent == s.sent && t.loop == s.loop
            else t == s
  {
  }

  // ---- one iteration of the loop ----

  /** A segment goes through the loop: it arrives, its FIN is counted, its data is written and counted. */
  function Iterated(c: Settings, s: State, g: Segment, d: Delivery): (t: State)
  {
    Step(c, Step(c, Step(c, Step(c, s, Arrive(g, true)), CountFin), Write(d)), CountData)
  }

  /** The segment starts where the bytes queued end. */
  predicate Continues(s: State, g: Segment)
  {
    !g.syn && g.number == Add(s.start, 1 + |s.queued|)
  }

  /** What the loop leaves alone. */
  predicate Beside(s: State, t: State)
  {
    t.start == s.start && t.sent == s.sent && t.receiveSeq == s.receiveSeq && t.eof == s.eof
  }

  /** Where the loop goes with an accepted segment. */
  function Entered(g: Segment): (l: Loop)
  {
    if g.fin then AtFin(g) else if g.payload != [] then AtWrite(g) else Idle
  }

  lemma ArriveTakes(c: Settings, s: State, g: Segment)
    requires Inv(s) && s.phase.Open? && s.loop.Idle? && !g.rst && Continues(s, g)
    ensures var t := Step(c, s, Arrive(g, true));
            && Beside(s, t) && t.phase.Open? && t.loop == Entered(g) && t.queued == s.queued && t.sendSeq == s.sendSeq
  {
  }

  lemma FinTakes(c: Settings, s: State, g: Segment)
    requires s.phase.Open? && s.loop == Entered(g)
    ensures var t := Step(c, s, CountFin);
            && Beside(s, t) && t.queued == s.queued && t.sendSeq == (if g.fin then Add(s.sendSeq, 1) else s.sendSeq)
            && t.loop == (if g.payload != [] then AtWrite(g) else Idle)
            && t.phase == (if g.fin && g.payload == [] then Draining else Open)
  {
  }

  lemma WriteTakes(c: Settings, s: State, d: Delivery)
    requires s.phase.Open? && s.loop.AtWrite? && !d.Cancelled?
    ensures var t := Step(c, s, Write(d));
            && Beside(s, t) && t.phase.Open? && t.loop == AtCount(s.loop.segment)
            && t.queued == s.queued + s.loop.segment.payload && t.sendSeq == s.sendSeq
  {
  }

  lemma CountTakes(c: Settings, s: State)
    requires s.phase.Open? && s.loop.AtCount?
    ensures var t, g := Step(c, s, CountData), s.loop.segment;
            && Beside(s, t) && t.loop.Idle? && t.queued == s.queued && t.sendSeq == Add(s.sendSeq, |g.payload|)
            && t.phase == (if g.fin then Draining else Open)
  {
  }

  /** The iteration is over once nothing is left to write. */
  lemma NothingToWrite(c: Settings, s: State, d: Delivery)
    requires s.loop.Idle?
    ensures Step(c, Step(c, s, Write(d)), CountData) == s
  {
  }

  lemma WrittenTakes(c: Settings, s: State, d: Delivery)
    requires s.phase.Open? && s.loop.AtWrite? && !d.Cancelled?
    ensures var t, g := Step(c, Step(c, s, Write(d)), CountData), s.loop.segment;
            && Beside(s, t) && t.loop.Idle? && t.queued == s.queued + g.payload
            && t.sendSeq == Add(s.sendSeq, |g.payload|) && t.phase == (if g.fin then Draining else Open)
  {
    WriteTakes(c, s, d);
    CountTakes(c, Step(c, s, Write(d)));
  }

  /** The segment is in the loop with its FIN counted. */
  predicate FinCounted(s: State, t: State, g: Segment)
  {
    && Beside(s, t) && t.queued == s.queued && t.sendSeq == (if g.fin then Add(s.sendSeq, 1) else s.sendSeq)
    && t.loop == (if g.payload != [] then AtWrite(g) else Idle)
    && t.phase == (if g.fin && g.payload == [] then Draining else Open)
  }

  /** The segment is queued whole, counted with its FIN, and the loop is idle, or left after a FIN. */
  predicate Took(s: State, t: State, g: Segment)
  {
    && Beside(s, t) && t.queued == s.queued + g.payload && t.sendSeq == Add(s.sendSeq, |g.payload| + Fin(g))
    && t.phase == (if g.fin then Draining else Open) && t.loop.Idle?
  }

  lemma FirstHalf(c: Settings, s: State, g: Segment)
    requires Inv(s) && s.phase.Open? && s.loop.Idle? && !g.rst && Continues(s, g)
    ensures FinCounted(s, Step(c, Step(c, s, Arrive(g, true)), CountFin), g)
  {
    ArriveTakes(c, s, g);
    FinTakes(c, Step(c, s, Arrive(g, true)), g);
  }

  lemma SecondHalf(c: Settings, s: State, f: State, g: Segment, d: Delivery)
    requires FinCounted(s, f, g) && !d.Cancelled?
    ensures Took(s, Step(c, Step(c, f, Write(d)), CountData), g)
  {
    AddAdd(s.sendSeq, Fin(g), |g.payload|);
    assert Add(s.sendSeq, 0) == s.sendSeq;
    if g.payload == [] {
      NothingToWrite(c, f, d);
      assert s.queued + g.payload == s.queued;
    } else {
      WrittenTakes(c, f, d);
    }
  }

  /** A segment that continues the stream is queued whole and counted with its FIN, after which the loop is left. */
  lemma IterationTakes(c: Settings, s: State, g: Segment, d: Delivery)
    requires Inv(s) && s.phase.Open? && s.loop.Idle? && !d.Cancelled? && !g.rst && Continues(s, g)
    ensures Took(s, Iterated(c, s, g, d), g)
  {
    var f := Step(c, Step(c, s, Arrive(g, true)), CountFin);
    FirstHalf(c, s, g);
    SecondHalf(c, s, f, g, d);
  }

  lemma IterationInv(c: Settings, s: State, g: Segment, d: Delivery)
    requires Inv(s)
    ensures Inv(Iterated(c, s, g, d))
  {
    var a := Step(c, s, Arrive(g, true));
    StepInv(c, s, Arrive(g, true));
    var f := Step(c, a, CountFin);
    StepInv(c, a, CountFin);
    var w := Step(c, f, Write(d));
    StepInv(c, f, Write(d));
    StepInv(c, w, CountData);
  }

  /** Any other segment changes nothing, unless it is a RST, which ends the sequence wherever it points. */
  lemma IterationLeaves(c: Settings, s: State, g: Segment, d: Delivery)
    requires Inv(s) && s.phase.Open? && s.loop.Idle? && (g.rst || !Continues(s, g))
    ensures Iterated(c, s, g, d) == if g.rst then s.(phase := Dead) else s
  {
  }

  // ---- the other goroutines ----

  datatype Upward = Upward(phase: Phase, loop: Loop, start: uint32, sendSeq: uint32, counted: nat, queued: seq<byte>)

  function Up(s: State): (u: Upward) { Upward(s.phase, s.loop, s.start, s.sendSeq, s.counted, s.queued) }

  /** Steps of the other goroutines, and the timer as long as it does not close the sequence. */
  predicate Aside(e: Event)
  {
    e.Data? || e.Eof? || e.PureAck? || (e.ScaleDown? && !e.close)
  }

  function After(c: Settings, s: State, es: seq<Event>): (t: State)
    decreases |es|
  {
    if es == [] then s else After(c, Step(c, s, es[0]), es[1..])
  }

  function LoopEvents(es: seq<Event>): (r: seq<Event>)
  {
    if es == [] then [] else (if Aside(es[0]) then [] else [es[0]]) + LoopEvents(es[1..])
  }

  lemma AsideKeeps(c: Settings, s: State, e: Event)
    requires Aside(e)
    ensures Up(Step(c, s, e)) == Up(s)
  {
  }

  lemma UpAlone(c: Settings, s: State, t: State, e: Event)
    requires Up(s) == Up(t) && !Aside(e)
    ensures Up(Step(c, s, e)) == Up(Step(c, t, e))
  {
    match e
    case Arrive(g, answered) => ArriveUp(c, s, t, g, answered);
    case CountData => CountUp(c, s, t);
    case _ =>
  }

  lemma ArriveUp(c: Settings, s: State, t: State, g: Segment, answered: bool)
    requires Up(s) == Up(t)
    ensures Up(Step(c, s, Arrive(g, answered))) == Up(Step(c, t, Arrive(g, answered)))
  {
  }

  lemma CountUp(c: Settings, s: State, t: State)
    requires Up(s) == Up(t)
    ensures Up(Step(c, s, CountData)) == Up(Step(c, t, CountData))
  {
  }

  /** Whatever the other goroutines do in between, the upward stream is what the loop alone would make it. */
  lemma {:induction false} LoopAlone(c: Settings, s: State, t: State, es: seq<Event>)
    requires Up(s) == Up(t)
    ensures Up(After(c, s, es)) == Up(After(c, t, LoopEvents(es)))
    decreases |es|
  {
    if es != [] {
      var s' := Step(c, s, es[0]);
      if Aside(es[0]) {
        AsideKeeps(c, s, es[0]);
        LoopAlone(c, s', t, es[1..]);
        assert LoopEvents(es) == LoopEvents(es[1..]);
      } else {
        UpAlone(c, s, t, es[0]);
        LoopAlone(c, s', Step(c, t, es[0]), es[1..]);
        assert LoopEvents(es)[1..] == LoopEvents(es[1..]);
      }
    }
  }

  // ---- the whole stream ----

  /** The stream the client sends, piece by piece. */
  function Flat(pieces: seq<seq<byte>>, k: nat): (b: seq<byte>)
    requires k <= |pieces|
  {
    if k == 0 then [] else Flat(pieces, k - 1) + pieces[k - 1]
  }

  lemma {:induction false} FlatGrows(pieces: seq<seq<byte>>, j: nat, k: nat)
    requires j < k <= |pieces| && forall i :: 0 <= i < |pieces| ==> pieces[i] != []
    ensures |Flat(pieces, j)| < |Flat(pieces, k)|
    decreases k
  {
    if j < k - 1 { FlatGrows(pieces, j, k - 1); }
  }

  /** A segment of the client, the number of the piece it carries, and how its data is written. */
  datatype Sending = Sending(segment: Segment, piece: nat, delivery: Delivery)

  predicate Carries(start: uint32, pieces: seq<seq<byte>>, x: Sending)
  {
    && x.piece < |pieces| && !x.delivery.Cancelled?
    && !x.segment.syn && !x.segment.rst && !x.segment.fin && x.segment.payload == pieces[x.piece]
    && x.segment.number == Add(start, 1 + |Flat(pieces, x.piece)|)
  }

  predicate AllCarry(start: uint32, pieces: seq<seq<byte>>, xs: seq<Sending>)
  {
    forall i :: 0 <= i < |xs| ==> Carries(start, pieces, xs[i])
  }

  predicate Cut(pieces: seq<seq<byte>>)
  {
    (forall i :: 0 <= i < |pieces| ==> pieces[i] != []) && |Flat(pieces, |pieces|)| < TWO32
  }

  function Fed(c: Settings, s: State, xs: seq<Sending>): (t: State)
    decreases |xs|
  {
    if xs == [] then s else Fed(c, Iterated(c, s, xs[0].segment, xs[0].delivery), xs[1..])
  }

  /** How many pieces have come in order, `k` having come before. */
  function Reached(xs: seq<Sending>, k: nat): (r: nat)
    ensures k <= r
    decreases |xs|
  {
    if xs == [] then k else Reached(xs[1..], if xs[0].piece == k then k + 1 else k)
  }

  lemma SameOffset(pieces: seq<seq<byte>>, start: uint32, j: nat, k: nat)
    requires Cut(pieces) && j <= |pieces| && k <= |pieces|
    requires Add(start, 1 + |Flat(pieces, j)|) == Add(start, 1 + |Flat(pieces, k)|)
    ensures j == k
  {
    var n := |pieces|;
    if j < n { FlatGrows(pieces, j, n); }
    if k < n { FlatGrows(pieces, k, n); }
    AddInjective(start, 1 + |Flat(pieces, j)|, 1 + |Flat(pieces, k)|);
    if j < k { FlatGrows(pieces, j, k); } else if k < j { FlatGrows(pieces, k, j); }
  }

  /** The endpoint stands where the first `k` pieces have been queued. */
  predicate Holds(s: State, pieces: seq<seq<byte>>, k: nat)
  {
    Inv(s) && s.phase.Open? && s.loop.Idle? && k <= |pieces| && s.queued == Flat(pieces, k)
  }

  lemma FedOne(c: Settings, s: State, pieces: seq<seq<byte>>, k: nat, x: Sending)
    requires Cut(pieces) && Holds(s, pieces, k) && Carries(s.start, pieces, x)
    ensures var t := Iterated(c, s, x.segment, x.delivery);
            Holds(t, pieces, if x.piece == k then k + 1 else k) && t.start == s.start
  {
    if x.piece == k {
      IterationTakes(c, s, x.segment, x.delivery);
      IterationInv(c, s, x.segment, x.delivery);
    } else {
      if Continues(s, x.segment) { SameOffset(pieces, s.start, x.piece, k); }
      IterationLeaves(c, s, x.segment, x.delivery);
    }
  }

  /**
   * Pieces lost, repeated and reordered in any way: the endpoint has queued exactly the pieces that came in order, each
   * after all before it.
   */
  lemma {:induction false} FedExactly(c: Settings, s: State, pieces: seq<seq<byte>>, k: nat, xs: seq<Sending>)
    requires Cut(pieces) && Holds(s, pieces, k) && AllCarry(s.start, pieces, xs)
    ensures Holds(Fed(c, s, xs), pieces, Reached(xs, k))
    decreases |xs|
  {
    if xs != [] {
      FedOne(c, s, pieces, k, xs[0]);
      FedExactly(c, Iterated(c, s, xs[0].segment, xs[0].delivery), pieces, if xs[0].piece == k then k + 1 else k,
                 xs[1..]);
    }
  }

  /** The positions of pieces `k` to `n - 1`, one after the other. */
  ghost predicate InTurn(xs: seq<Sending>, k: nat, n: nat, at: seq<nat>)
  {
    && k + |at| == n
    && (forall i :: 0 <= i < |at| ==> at[i] < |xs| && xs[at[i]].piece == k + i)
    && (forall i, j :: 0 <= i < j < |at| ==> at[i] < at[j])
  }

  function Shifted(at: seq<nat>): (r: seq<nat>) { seq(|at|, i requires 0 <= i < |at| => at[i] + 1) }

  lemma {:induction false} ReachedInTurn(xs: seq<Sending>, k: nat) returns (at: seq<nat>)
    ensures InTurn(xs, k, Reached(xs, k), at)
    decreases |xs|
  {
    at := [];
    if xs != [] {
      var more;
      if xs[0].piece == k {
        more := ReachedInTurn(xs[1..], k + 1);
        at := [0] + Shifted(more);
      } else {
        more := ReachedInTurn(xs[1..], k);
        at := Shifted(more);
      }
    }
  }

  lemma {:induction false} InTurnReached(xs: seq<Sending>, k: nat, n: nat, at: seq<nat>)
    requires InTurn(xs, k, n, at)
    ensures n <= Reached(xs, k)
    decreases |xs|
  {
    if at != [] {
      var first := at[0] == 0;
      var rest := if first then at[1..] else at;
      var more := seq(|rest|, i requires 0 <= i < |rest| => if rest[i] > 0 then rest[i] - 1 else 0);
      forall i | 0 <= i < |rest| ensures rest[i] > 0 {
        if first { assert at[0] < at[i + 1]; } else if i > 0 { assert at[0] < at[i]; }
      }
      if xs[0].piece == k && !first {
        assert InTurn(xs[1..], k + 1, n, more[1..]);
        InTurnReached(xs[1..], k + 1, n, more[1..]);
      } else {
        assert InTurn(xs[1..], if first then k + 1 else k, n, more);
        InTurnReached(xs[1..], if first then k + 1 else k, n, more);
      }
    }
  }

  /**
   * The whole stream comes through if and only if every piece came, at some time after all the pieces before it had
   * come in their turn.
   */
  lemma StreamComesThrough(c: Settings, s: State, pieces: seq<seq<byte>>, xs: seq<Sending>)
    requires Cut(pieces) && Holds(s, pieces, 0) && AllCarry(s.start, pieces, xs)
    ensures Fed(c, s, xs).queued == Flat(pieces, |pieces|) <==> exists at :: InTurn(xs, 0, |pieces|, at)
  {
    FedExactly(c, s, pieces, 0, xs);
    var r, n := Reached(xs, 0), |pieces|;
    var at := ReachedInTurn(xs, 0);
    if r < n { FlatGrows(pieces, r, n); }
    forall at | InTurn(xs, 0, n, at) ensures r == n { InTurnReached(xs, 0, n, at); }
  }

  // ---- what the client is told ----

  /** The step sends the client the number expected next. */
  predicate Tells(s: State, e: Event)
  {
    !s.phase.Waiting? && (e.PureAck? || (e.Data? && !s.eof && Room(s, |e.payload|)))
  }

  /** How much was counted when the client was last told. */
  function Told(c: Settings, run: Run): (n: nat)
  {
    match run
    case Begin(_) => 0
    case Then(before, e) => if Tells(StateOf(c, before), e) then StateOf(c, before).counted else Told(c, before)
  }

  /** The number last told is that of the byte after the first `n`. */
  predicate ToldIs(s: State, n: nat)
  {
    && n <= s.counted
    && if s.phase.Waiting? then n == 0 && s.counted == 0 else s.ackedSendSeq == Add(s.start, 1 + n)
  }

  lemma ToldStep(c: Settings, s: State, e: Event, n: nat)
    requires Inv(s) && ToldIs(s, n)
    ensures ToldIs(Step(c, s, e), if Tells(s, e) then s.counted else n)
  {
    if e.CountData? && s.phase.Open? && s.loop.AtCount? {
      CountTold(c, s);
    }
  }

  lemma CountTold(c: Settings, s: State)
    requires s.phase.Open? && s.loop.AtCount?
    ensures var t := Step(c, s, CountData);
            && s.counted <= t.counted && t.ackedSendSeq == s.ackedSendSeq && t.start == s.start && !t.phase.Waiting?
  {
  }

  /** In every run the number last told follows all that was counted at that moment, and is never past what is now. */
  lemma {:induction false} RunTold(c: Settings, run: Run)
    ensures ToldIs(StateOf(c, run), Told(c, run))
  {
    match run
    case Begin(_) =>
    case Then(before, e) =>
      RunTold(c, before);
      RunInv(c, before);
      var s := StateOf(c, before);
      ToldStep(c, s, e, Told(c, before));
      assert StateOf(c, run) == Step(c, s, e);
  }
}
