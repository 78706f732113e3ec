/** What holds of the synthetic TCP endpoint over whole runs. */
module TcpStreamRuns {
  import opened Bytes
  import opened Options
  import opened TcpStream
  import TcpConnection

  /** A sequence from its creation on. */
  datatype Run = Begin(initialWindow: uint32) | Then(before: Run, event: Event)

  /** A fresh sequence: the configured window, or the least one, within the bounds. */
  function Fresh(c: Settings, initialWindow: uint32): (s: State)
  {
    var window := if initialWindow == 0 then c.minWindow else initialWindow;
    State(Waiting, Idle, 0, 0, 0, [], 0, 0, [], false, 0, 0, 0, Agreed(0, 0, false, false, 0),
          Min(Max(window, c.minWindow), c.maxWindow), 0, 0)
  }

  function StateOf(c: Settings, run: Run): (s: State)
  {
    match run
    case Begin(w) => Fresh(c, w)
    case Then(before, e) => Step(c, StateOf(c, before), e)
  }

  /**
   * In every run, whatever the goroutines do between two steps of the loop, both frontiers count exactly what passed
   * them, modulo 2^32.
   */
  lemma {:induction false} RunInv(c: Settings, run: Run)
    ensures Inv(StateOf(c, run))
  {
    match run
    case Begin(w) =>
    case Then(before, e) =>
      RunInv(c, before);
      StepInv(c, StateOf(c, before), e);
  }

  // ---- which segments are queued ----

  /** The step queues the data of the segment the loop is at. */
  predicate Queues(s: State, e: Event)
  {
    e.Write? && s.phase.Open? && s.loop.AtWrite? && !e.delivery.Cancelled?
  }

  function Taken(c: Settings, run: Run): (g: seq<Segment>)
  {
    match run
    case Begin(w) => []
    case Then(before, e) =>
      var s := StateOf(c, before);
      if Queues(s, e) then Taken(c, before) + [s.loop.segment] else Taken(c, before)
  }

  function Payloads(g: seq<Segment>): (b: seq<byte>)
  {
    if g == [] then [] else Payloads(g[..|g| - 1]) + g[|g| - 1].payload
  }

  /** Each segment starts where those before it end. */
  ghost predicate InOrder(start: uint32, g: seq<Segment>)
  {
    g != [] ==>
      && g[|g| - 1].number == Add(start, 1 + |Payloads(g[..|g| - 1])|) && g[|g| - 1].payload != []
      && InOrder(start, g[..|g| - 1])
  }

  lemma StepQueues(c: Settings, s: State, e: Event)
    ensures Step(c, s, e).queued == if Queues(s, e) then s.queued + s.loop.segment.payload else s.queued
    ensures !s.phase.Waiting? ==> Step(c, s, e).start == s.start && !Step(c, s, e).phase.Waiting?
    ensures s.phase.Dead? ==> Step(c, s, e).phase.Dead?
  {
  }

  /** The bytes queued are the data of the segments taken, each of which started exactly at the frontier. */
  lemma {:induction false} QueuedIsTaken(c: Settings, run: Run)
    ensures var s := StateOf(c, run); s.queued == Payloads(Taken(c, run)) && InOrder(s.start, Taken(c, run))
    ensures StateOf(c, run).phase.Waiting? ==> Taken(c, run) == []
  {
    match run
    case Begin(w) =>
    case Then(before, e) =>
      var s := StateOf(c, before);
      QueuedIsTaken(c, before);
      RunInv(c, before);
      StepQueues(c, s, e);
      if Queues(s, e) { Appended(s.start, Taken(c, before), s.loop.segment); }
  }

  lemma Appended(start: uint32, g: seq<Segment>, x: Segment)
    requires InOrder(start, g) && x.number == Add(start, 1 + |Payloads(g)|) && x.payload != []
    ensures InOrder(start, g + [x]) && Payloads(g + [x]) == Payloads(g) + x.payload
  {
    assert (g + [x])[..|g|] == g;
  }

  lemma {:induction false} OrderedAt(start: uint32, g: seq<Segment>, i: nat)
    requires InOrder(start, g) && i < |g|
    ensures g[i].number == Add(start, 1 + |Payloads(g[..i])|) && g[i].payload != []
    ensures |Payloads(g[..i])| + |g[i].payload| <= |Payloads(g)|
    decreases |g|
  {
    if i < |g| - 1 {
      OrderedAt(start, g[..|g| - 1], i);
      assert g[..|g| - 1][..i] == g[..i];
    }
  }

  /** In every run, a segment whose data was queued and that arrives again within 2^32 bytes is not accepted. */
  lemma RepeatAddsNothing(c: Settings, run: Run, i: nat, answered: bool)
    requires i < |Taken(c, run)| && StateOf(c, run).phase.Open? && StateOf(c, run).loop.Idle?
    requires |StateOf(c, run).queued| < |Payloads(Taken(c, run)[..i])| + TWO32
    ensures Step(c, StateOf(c, run), Arrive(Taken(c, run)[i], answered)).loop.Idle?
  {
    var s, g := StateOf(c, run), Taken(c, run);
    RunInv(c, run);
    QueuedIsTaken(c, run);
    OrderedAt(s.start, g, i);
    if g[i].number == s.sendSeq { AddInjective(s.start, 1 + |s.queued|, 1 + |Payloads(g[..i])|); }
  }

  // ---- the client's stream ----

  /**
   * From byte `at` on, `g` carries the client's stream, a FIN coming with its last byte; or it is numbered past the
   * FIN, as the client's acknowledgements then are.
   */
  predicate Carries(g: Segment, stream: seq<byte>, at: nat)
  {
    || at == |stream| + 1
    || (at + |g.payload| <= |stream| && g.payload == stream[at..at + |g.payload|]
        && (g.fin ==> at + |g.payload| == |stream|))
  }

  /** `g` is `o` numbers past the SYN, within 2^32 of the frontier; what it holds matters unless that was passed. */
  predicate Sends(s: State, g: Segment, stream: seq<byte>, o: nat)
  {
    && g.number == Add(s.start, o) && o < 1 + |s.queued| + TWO32 && 1 + |s.queued| < o + TWO32
    && (|s.queued| < o ==> Carries(g, stream, o - 1))
  }

  ghost predicate IsFromClient(s: State, g: Segment, stream: seq<byte>)
  {
    exists o: nat :: Sends(s, g, stream, o)
  }

  /**
   * The run of a client that sends `stream` in any order and as often as it likes, with probes and acknowledgements,
   * with SYNs at any time and with resets.
   */
  ghost predicate Client(c: Settings, run: Run, stream: seq<byte>)
  {
    match run
    case Begin(w) => true
    case Then(before, e) =>
      var s := StateOf(c, before);
      && Client(c, before, stream)
      && (e.Arrive? && s.phase.Open? && s.loop.Idle? && !e.segment.syn && !e.segment.rst ==>
            IsFromClient(s, e.segment, stream))
  }

  /** The upstream side has a prefix of the stream, and all of it once the FIN was taken. */
  predicate HasPrefix(s: State, stream: seq<byte>)
  {
    s.queued <= stream && (s.phase.Draining? ==> s.queued == stream)
  }

  /** The segment the loop is at continues that prefix. */
  predicate Continues(s: State, stream: seq<byte>)
  {
    match s.loop
    case Idle => true
    case AtCount(g) => g.fin ==> s.queued == stream
    case _ =>
      && s.queued + s.loop.segment.payload <= stream
      && (s.loop.segment.fin ==> s.queued + s.loop.segment.payload == stream)
  }

  /** Near the frontier, a segment is next exactly when it starts at the frontier. */
  lemma NextIffAtFrontier(s: State, g: Segment, stream: seq<byte>, o: nat)
    requires Inv(s) && s.phase.Open? && s.loop.Idle? && Sends(s, g, stream, o)
    ensures g.number == s.sendSeq <==> o == 1 + |s.queued|
  {
    if g.number == s.sendSeq { AddInjective(s.start, o, 1 + |s.queued|); }
  }

  lemma AcceptedContinues(s: State, g: Segment, stream: seq<byte>)
    requires Inv(s) && s.phase.Open? && s.loop.Idle? && HasPrefix(s, stream) && s.sendSeq == g.number
    requires IsFromClient(s, g, stream)
    ensures Continues(OnNext(s, g), stream)
  {
    var o: nat :| Sends(s, g, stream, o);
    NextIffAtFrontier(s, g, stream, o);
  }

  lemma PrefixStep(c: Settings, s: State, e: Event, stream: seq<byte>)
    requires Inv(s) && HasPrefix(s, stream) && Continues(s, stream)
    requires e.Arrive? && s.phase.Open? && s.loop.Idle? && !e.segment.syn && !e.segment.rst ==>
               IsFromClient(s, e.segment, stream)
    ensures HasPrefix(Step(c, s, e), stream) && Continues(Step(c, s, e), stream)
  {
    if e.Arrive? && s.phase.Open? && s.loop.Idle? && !e.segment.rst && !e.segment.syn && e.segment.number == s.sendSeq {
      AcceptedContinues(s, e.segment, stream);
    }
  }

  lemma {:induction false} StreamContinues(c: Settings, run: Run, stream: seq<byte>)
    requires Client(c, run, stream)
    ensures HasPrefix(StateOf(c, run), stream) && Continues(StateOf(c, run), stream)
  {
    match run
    case Begin(w) =>
    case Then(before, e) =>
      StreamContinues(c, before, stream);
      RunInv(c, before);
      PrefixStep(c, StateOf(c, before), e, stream);
  }

  /** Lost, repeated and reordered segments never corrupt the stream. */
  lemma StreamIntegrity(c: Settings, run: Run, stream: seq<byte>)
    requires Client(c, run, stream)
    ensures HasPrefix(StateOf(c, run), stream)
  {
    StreamContinues(c, run, stream);
  }

  // ---- what a segment built now acknowledges ----

  /** The next number expected has passed a byte of the stream that is not queued. */
  predicate AcksUnqueued(s: State, stream: seq<byte>)
  {
    |s.queued| < |stream| && |s.queued| < s.counted
  }

  /**
   * In every run of a client, a byte that is not queued is acknowledged exactly while a FIN that came with data was
   * counted and the data not yet written.
   */
  lemma AcksUnqueuedExactly(c: Settings, run: Run, stream: seq<byte>)
    requires Client(c, run, stream)
    ensures var s := StateOf(c, run);
            AcksUnqueued(s, stream) <==> s.loop.AtWrite? && s.loop.segment.fin
  {
    RunInv(c, run);
    StreamContinues(c, run, stream);
  }

  /** After a SYN, the stream `[7]` in one segment with the FIN; its FIN is counted and acknowledged. */
  function EarlyAck(): (run: Run)
  {
    Then(Then(Then(Opened(), Arrive(LAST, true)), CountFin), PureAck)
  }

  function Opened(): (run: Run) { Then(Begin(0), Arrive(Plain(0, true, []), true)) }

  const LAST: Segment := Plain(1, false, [7]).(fin := true)

  lemma EarlyAckState(c: Settings)
    ensures Client(c, EarlyAck(), [7])
    ensures var s := StateOf(c, EarlyAck()); s.ackedSendSeq == Add(s.start, 2 + |s.queued|) && s.queued == []
    ensures var s := StateOf(c, EarlyAck()); s.phase.Open? && s.loop.AtWrite? && s.loop.segment.fin
  {
    var arrived := Then(Opened(), Arrive(LAST, true));
    var s, t := StateOf(c, Opened()), StateOf(c, arrived);
    assert StateOf(c, Begin(0)) == Fresh(c, 0) && Add(0, 1) == 1;
    assert s == OnSyn(c, Fresh(c, 0), Plain(0, true, []));
    assert Client(c, Opened(), [7]) && s.phase.Open? && s.loop.Idle? && s.start == 0 && s.sendSeq == 1;
    assert Sends(s, LAST, [7], 1);
    assert Client(c, arrived, [7]) && t == OnNext(s, LAST);
    assert StateOf(c, Then(arrived, CountFin)) == OnFin(t);
    assert EarlyAck() == Then(Then(arrived, CountFin), PureAck);
  }

  /** The byte was acknowledged, the write is cancelled, and whatever follows the byte is never queued. */
  lemma AckedNeverQueued(c: Settings, later: seq<Event>)
    ensures AcksUnqueued(StateOf(c, EarlyAck()), [7])
    ensures StateOf(c, After(Then(EarlyAck(), Write(Cancelled)), later)).queued == []
  {
    EarlyAckState(c);
    AcksUnqueuedExactly(c, EarlyAck(), [7]);
    DeadQueuesNothing(c, Then(EarlyAck(), Write(Cancelled)), later);
  }

  lemma {:induction false} DeadQueuesNothing(c: Settings, run: Run, later: seq<Event>)
    requires StateOf(c, run).phase.Dead?
    ensures StateOf(c, After(run, later)).queued == StateOf(c, run).queued
    decreases |later|
  {
    if later != [] {
      StepQueues(c, StateOf(c, run), later[0]);
      DeadQueuesNothing(c, Then(run, later[0]), later[1..]);
    }
  }

  /** What was queued stays queued, so the acknowledged position never moves back. */
  lemma {:induction false} QueuedGrows(c: Settings, run: Run, later: seq<Event>)
    ensures StateOf(c, run).queued <= StateOf(c, After(run, later)).queued
    decreases |later|
  {
    if later != [] {
      StepQueues(c, StateOf(c, run), later[0]);
      QueuedGrows(c, Then(run, later[0]), later[1..]);
    }
  }

  function After(run: Run, later: seq<Event>): (r: Run)
    decreases |later|
  {
    if later == [] then run else After(Then(run, later[0]), later[1..])
  }

  // ---- the client's window ----

  lemma SubAdd(a: uint32, b: uint32, n: nat)
    ensures Sub(Add(a, n), b) == Add(Sub(a, b), n)
  {
    SameRemainder(a + n - b, (a + n) / TWO32);
    SameRemainder(a - b + n, (a - b) / TWO32);
  }

  lemma SameRemainder(x: int, turns: int)
    ensures (x - turns * TWO32) % TWO32 == x % TWO32
  {
  }

  /** Data goes out only as far as the window last advertised, and is counted. */
  lemma DataWithinWindow(c: Settings, s: State, payload: seq<byte>)
    ensures var t := Step(c, s, Data(payload));
            t.sent != s.sent ==>
              t.sent == s.sent + payload && Sub(t.receiveSeq, t.receiveSeqAck) <= t.receiveWindow
                && t.ackedSendSeq == t.sendSeq
  {
    SubAdd(s.receiveSeq, s.receiveSeqAck, |payload|);
  }

  // ---- the endpoint's own window ----

  predicate Bounded(c: Settings, s: State)
  {
    c.minWindow <= s.window <= c.maxWindow
  }

  /** Doubling wraps at 2^32; the bounds survive a resize exactly when it does not wrap below the least window. */
  lemma ResizeBounded(c: Settings, s: State)
    requires Bounded(c, s)
    ensures Bounded(c, Resize(c, s)) <==>
            !(s.window <= Add(s.blocking, s.nonBlocking) && s.window <= s.nonBlocking && s.window * 2 >= TWO32
              && s.window * 2 - TWO32 < c.minWindow)
  {
  }

  /**
   * A payload written counts toward the window as waiting or not; once a window's worth is counted the window doubles,
   * in 32 bits, if all of it went at once, halves if half of it waited, and stays otherwise.
   */
  lemma WindowFollowsWrites(c: Settings, s: State, d: Delivery)
    requires s.phase.Open? && s.loop.AtWrite? && !d.Cancelled?
    ensures var n, w := |s.loop.segment.payload|, s.window;
            var atOnce := if d.Immediate? then Add(s.nonBlocking, n) else s.nonBlocking;
            var waited := if d.Waited? then Add(s.blocking, n) else s.blocking;
            var t := Step(c, Step(c, s, Write(d)), CountData);
            if Add(waited, atOnce) < w then t.window == w && t.nonBlocking == atOnce && t.blocking == waited
            else
              && t.nonBlocking == 0 == t.blocking
              && t.window == if w <= atOnce then Min(w * 2 % TWO32, c.maxWindow)
                             else if w / 2 <= waited then Max(w / 2, c.minWindow) else w
  {
  }

  /** An idle scale-down falls back to the least window and forgets the counts; at the least window it does nothing. */
  lemma ScaleDownExactly(c: Settings, s: State, close: bool)
    requires s.phase.Open? && s.loop.Idle?
    ensures var t := Step(c, s, ScaleDown(close));
            && t.window == c.minWindow && (t.phase.Dead? <==> close)
            && (s.window != c.minWindow ==> t.nonBlocking == 0 == t.blocking)
            && (s.window == c.minWindow && !close ==> t == s)
  {
  }

  /** The settings under which doubling never leaves the bounds. */
  predicate Safe(c: Settings)
  {
    c.minWindow == 0 || c.maxWindow < 0x8000_0000
  }

  lemma StepBounded(c: Settings, s: State, e: Event)
    requires Bounded(c, s) && Safe(c)
    ensures Bounded(c, Step(c, s, e))
  {
    if e.CountData? { ResizeBounded(c, s); }
  }

  /** With a least window of zero or a largest one below 2^31 the window stays within its bounds in every run. */
  lemma {:induction false} WindowBounded(c: Settings, run: Run)
    requires c.minWindow <= c.maxWindow && Safe(c)
    ensures Bounded(c, StateOf(c, run))
  {
    match run
    case Begin(w) =>
    case Then(before, e) =>
      WindowBounded(c, before);
      StepBounded(c, StateOf(c, before), e);
  }

  // ---- otherwise some run leaves them ----

  function Plain(number: uint32, syn: bool, payload: seq<byte>): (g: Segment)
  {
    Segment(number, 0, syn, false, false, false, 0, None, None, None, payload)
  }

  /** The next byte, taken by the channel at once. */
  function OneByte(c: Settings, run: Run): (r: Run)
  {
    Then(Then(Then(run, Arrive(Plain(StateOf(c, run).sendSeq, false, [0]), true)), Write(Immediate)), CountData)
  }

  /** A window of 2^31 or more, a SYN, and then `k` segments of one byte. */
  function Fed(c: Settings, k: nat): (run: Run)
  {
    if k == 0 then Then(Begin(0x8000_0000), Arrive(Plain(0, true, []), true)) else OneByte(c, Fed(c, k - 1))
  }

  /** Nothing has been resized yet. */
  predicate Filling(s: State, window: uint32, k: nat)
  {
    s.phase.Open? && s.loop.Idle? && s.window == window && s.nonBlocking == k && s.blocking == 0
  }

  lemma FillStep(c: Settings, run: Run, window: uint32, k: nat)
    requires Filling(StateOf(c, run), window, k) && k + 1 <= window
    ensures var t := StateOf(c, OneByte(c, run));
            if k + 1 < window then Filling(t, window, k + 1) else t.window == Min((window * 2) % TWO32, c.maxWindow)
  {
    var arrived := Then(run, Arrive(Plain(StateOf(c, run).sendSeq, false, [0]), true));
    var written := Then(arrived, Write(Immediate));
    assert StateOf(c, arrived).loop.AtWrite?;
    assert StateOf(c, written).nonBlocking == k + 1;
    assert StateOf(c, OneByte(c, run)) == OnCount(c, StateOf(c, written));
  }

  lemma {:induction false} FedFills(c: Settings, k: nat)
    requires c.minWindow <= c.maxWindow && 0x8000_0000 <= c.maxWindow && k < Max(0x8000_0000, c.minWindow)
    ensures Filling(StateOf(c, Fed(c, k)), Max(0x8000_0000, c.minWindow), k)
  {
    if k > 0 {
      FedFills(c, k - 1);
      FillStep(c, Fed(c, k - 1), Max(0x8000_0000, c.minWindow), k - 1);
    }
  }

  /** After as many bytes as the window the doubling wraps. */
  lemma FedWraps(c: Settings)
    requires c.minWindow <= c.maxWindow && 0x8000_0000 <= c.maxWindow
    ensures var w := Max(0x8000_0000, c.minWindow);
            StateOf(c, Fed(c, w)).window == Min(w * 2 - TWO32, c.maxWindow)
  {
    var w := Max(0x8000_0000, c.minWindow);
    FedFills(c, w - 1);
    FillStep(c, Fed(c, w - 1), w, w - 1);
  }

  /** The window stays within its bounds in every run if and only if the least is zero or the largest below 2^31. */
  lemma AlwaysBoundedExactly(c: Settings)
    requires c.minWindow <= c.maxWindow
    ensures (forall run :: Bounded(c, StateOf(c, run))) <==> Safe(c)
  {
    if Safe(c) {
      forall run ensures Bounded(c, StateOf(c, run)) { WindowBounded(c, run); }
    } else {
      FedWraps(c);
      assert !Bounded(c, StateOf(c, Fed(c, Max(0x8000_0000, c.minWindow))));
    }
  }

  /** With bounds 1 and 2^31 a run of one-byte segments brings the window to zero. */
  lemma WindowWraps()
    ensures exists run :: StateOf(Settings(1, 0x8000_0000), run).window == 0
  {
    FedWraps(Settings(1, 0x8000_0000));
  }

  lemma TwiceProduct(q: nat, p: nat)
    ensures q * (2 * p) == 2 * (q * p)
  {
  }

  lemma {:induction false} ShiftedBounds(v: nat, k: nat)
    ensures TcpConnection.Shifted(v, k) * Pow2(k) <= v < (TcpConnection.Shifted(v, k) + 1) * Pow2(k)
  {
    if k > 0 {
      ShiftedBounds(v / 2, k - 1);
      HalvedBounds(v, TcpConnection.Shifted(v / 2, k - 1), Pow2(k - 1));
    }
  }

  lemma HalvedBounds(v: nat, q: nat, p: nat)
    requires q * p <= v / 2 < (q + 1) * p
    ensures q * (2 * p) <= v < (q + 1) * (2 * p)
  {
    TwiceProduct(q, p);
    TwiceProduct(q + 1, p);
  }

  lemma ProductMonotone(a: nat, b: nat, p: nat)
    requires a < b && 0 < p
    ensures a * p < b * p
  {
  }

  /** The window field never promises more than the window, and loses only the bits the scale drops. */
  lemma AdvertisedWindow(c: TcpConnection.Connection, largest: nat)
    ensures TcpConnection.EncodedWindow(c) * Pow2(c.windowScale) <= c.windowSize
    ensures c.windowSize <= largest && c.windowScale == ScaleFor(largest) ==>
              c.windowSize < (TcpConnection.EncodedWindow(c) + 1) * Pow2(c.windowScale)
  {
    var q, k := TcpConnection.Shifted(c.windowSize, c.windowScale), c.windowScale;
    ShiftedBounds(c.windowSize, k);
    if q > 0xffff { ProductMonotone(0xffff, q, Pow2(k)); }
  }
}
