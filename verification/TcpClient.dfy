/** What the endpoint holds of its client, stated on the segments it received. */
module TcpClient {
  import opened Bytes
  import opened Options
  import opened TcpStream
  import opened TcpStreamRuns

  /** The SYN that opens the sequence. */
  predicate Opens(s: State, e: Event) { s.phase.Waiting? && e.Arrive? && e.segment.syn }

  /** The loop accepts the segment: it is next, and neither SYN nor RST. */
  predicate Accepts(s: State, e: Event)
  {
    && e.Arrive? && s.phase.Open? && s.loop.Idle?
    && e.segment.number == s.sendSeq && !e.segment.syn && !e.segment.rst
  }

  /** The SYN the run opened with. */
  function SynOf(c: Settings, run: Run): (r: Option<Segment>)
  {
    match run
    case Begin(_) => None
    case Then(before, e) => if Opens(StateOf(c, before), e) then Some(e.segment) else SynOf(c, before)
  }

  /** The client has acknowledged everything before this number. */
  function AckedBy(g: Segment): (number: uint32) { if g.syn then g.number else g.ackNumber }

  /** The segment that speaks for the client: the SYN, then each accepted acknowledgement that is not behind. */
  function SpeakerOf(c: Settings, run: Run): (r: Option<Segment>)
  {
    match run
    case Begin(_) => None
    case Then(before, e) =>
      var s, last := StateOf(c, before), SpeakerOf(c, before);
      if Opens(s, e) then Some(e.segment)
      else if Accepts(s, e) && e.segment.ack && last.Some? && AckedBy(last.value) <= e.segment.ackNumber
      then Some(e.segment)
      else last
  }

  /** The window the client offers: the field of a segment, in units of the scale its SYN offered. */
  function Offered(syn: Segment, g: Segment): (window: uint32)
  {
    (g.window * Pow2(match syn.scale case None => 0 case Some(k) => k)) % TWO32
  }

  /** What the handshake settled, by what the SYN carried. */
  predicate Settles(c: Settings, syn: Segment, a: Agreed)
  {
    && a.peerMss == (match syn.mss case None => 0 case Some(n) => n)
    && a.receiveScale == (match syn.scale case None => 0 case Some(k) => k)
    && (a.enableTimestamp <==> syn.stamp.Some?) && (a.enableWindowScale <==> syn.scale.Some?)
    && (syn.scale.None? ==> a.windowScale == 0)
    && (syn.scale.Some? ==> c.maxWindow <= 0xffff * Pow2(a.windowScale))
    && (0 < a.windowScale ==> 0xffff * Pow2(a.windowScale - 1) < c.maxWindow)
  }

  /** The endpoint's view of the client. */
  predicate Knows(c: Settings, s: State, syn: Option<Segment>, speaker: Option<Segment>)
  {
    if s.phase.Waiting? then syn.None? && speaker.None?
    else
      && syn.Some? && speaker.Some? && s.start == syn.value.number
      && s.receiveWindow == Offered(syn.value, speaker.value) && s.receiveSeqAck == AckedBy(speaker.value)
      && Settles(c, syn.value, s.agreed)
  }

  lemma KnowsStep(c: Settings, s: State, e: Event, syn: Option<Segment>, speaker: Option<Segment>)
    requires Knows(c, s, syn, speaker) && (s.phase.Waiting? ==> s.loop.Idle?)
    ensures var syn' := if Opens(s, e) then Some(e.segment) else syn;
            var speaker' :=
              if Opens(s, e) then Some(e.segment)
              else if Accepts(s, e) && e.segment.ack && speaker.Some? && AckedBy(speaker.value) <= e.segment.ackNumber
              then Some(e.segment)
              else speaker;
            Knows(c, Step(c, s, e), syn', speaker')
  {
  }

  /**
   * In every run the window that gates sending is the field of the last accepted acknowledgement that was not behind,
   * or of the SYN, scaled as the SYN offered; and the acknowledged position and the options are theirs.
   */
  lemma {:induction false} RunKnows(c: Settings, run: Run)
    ensures Knows(c, StateOf(c, run), SynOf(c, run), SpeakerOf(c, run))
  {
    match run
    case Begin(_) =>
    case Then(before, e) =>
      RunKnows(c, before);
      RunInv(c, before);
      KnowsStep(c, StateOf(c, before), e, SynOf(c, before), SpeakerOf(c, before));
  }

  /** Data goes out only as far past the client's acknowledgement as the window it offered with it. */
  lemma SendsWithinOffer(c: Settings, run: Run, payload: seq<byte>)
    requires StateOf(c, Then(run, Data(payload))).sent != StateOf(c, run).sent
    ensures SynOf(c, run).Some? && SpeakerOf(c, run).Some?
    ensures var t := StateOf(c, Then(run, Data(payload)));
            && t.sent == StateOf(c, run).sent + payload
            && Sub(t.receiveSeq, AckedBy(SpeakerOf(c, run).value)) <=
                 Offered(SynOf(c, run).value, SpeakerOf(c, run).value)
  {
    RunKnows(c, run);
    DataWithinWindow(c, StateOf(c, run), payload);
  }

  /** And it goes out whenever it fits, the window and the stream being open. */
  lemma SendsWhatFits(c: Settings, run: Run, payload: seq<byte>)
    requires !StateOf(c, run).phase.Waiting? && !StateOf(c, run).eof
    requires SynOf(c, run).Some? && SpeakerOf(c, run).Some?
    requires Add(Sub(StateOf(c, run).receiveSeq, AckedBy(SpeakerOf(c, run).value)), |payload|) <=
               Offered(SynOf(c, run).value, SpeakerOf(c, run).value)
    ensures StateOf(c, Then(run, Data(payload))).sent == StateOf(c, run).sent + payload
  {
    RunKnows(c, run);
  }

  // ---- timestamps ----

  /** The echoed stamp came with the SYN or with an accepted acknowledgement. */
  ghost predicate Came(c: Settings, run: Run, stamp: uint32)
  {
    match run
    case Begin(_) => false
    case Then(before, e) =>
      || Came(c, before, stamp)
      || ((Opens(StateOf(c, before), e) || Accepts(StateOf(c, before), e)) && e.segment.stamp == Some(stamp))
  }

  lemma {:induction false} EchoCame(c: Settings, run: Run)
    ensures var t := StateOf(c, run).timestampRecent; t == 0 || Came(c, run, t)
  {
    if run.Then? { EchoCame(c, run.before); }
  }

  /** The echo never moves back: a later one is less than 2^31 ahead, and it takes every stamp that is. */
  lemma EchoMovesForward(c: Settings, s: State, e: Event)
    requires !s.phase.Waiting?
    ensures var t := Step(c, s, e);
            && (s.timestampRecent != 0 ==> Sub(t.timestampRecent, s.timestampRecent) < 0x8000_0000)
            && (t.timestampRecent != s.timestampRecent ==> Accepts(s, e) && e.segment.stamp == Some(t.timestampRecent))
            && (Accepts(s, e) && e.segment.ack && s.receiveSeqAck <= e.segment.ackNumber && s.agreed.enableTimestamp
                && e.segment.stamp.Some? && Sub(e.segment.stamp.value, s.timestampRecent) < 0x8000_0000 ==>
                  t.timestampRecent == e.segment.stamp.value)
  {
  }
}
