/**
 * The synthetic TCP endpoint (`TcpSequence.Run`) as a state machine. Each step is one critical section of the sequence
 * lock or the write to the upstream channel, so the steps of the goroutines interleave as they can in the source.
 */
module TcpStream {
  import opened Bytes
  import opened Options

  const TWO32: nat := 0x1_0000_0000

  /** What the loop reads of a parsed segment. */
  datatype Segment = Segment(
    number: uint32, ackNumber: uint32, syn: bool, ack: bool, fin: bool, rst: bool,
    window: uint16, mss: Option<uint32>, scale: Option<nat>, stamp: Option<uint32>, payload: seq<byte>)

  /** Whether the write channel took the payload at once, after waiting, or never. */
  datatype Delivery = Immediate | Waited | Cancelled

  datatype Settings = Settings(minWindow: uint32, maxWindow: uint32)

  /** Before the SYN; in the loop; after a FIN; after a RST, a close or a cancellation. */
  datatype Phase = Waiting | Open | Draining | Dead

  /** What the handshake settles. */
  datatype Agreed = Agreed(peerMss: uint32, receiveScale: nat, enableTimestamp: bool, enableWindowScale: bool,
                           windowScale: nat)

  /**
   * Where the loop is with a segment it accepted: about to count its FIN, to write its data, or to count the data
   * written.
   */
  datatype Loop = Idle | AtFin(segment: Segment) | AtWrite(segment: Segment) | AtCount(segment: Segment)

  /**
   * `start` is the number of the client's SYN; `queued` and `sent` are what went up and down so far; `counted` is how
   * far `sendSeq` has come past the SYN.
   */
  datatype State = State(
    phase: Phase, loop: Loop, start: uint32, sendSeq: uint32, counted: nat, queued: seq<byte>,
    receiveSeq: uint32, receiveSeqAck: uint32, sent: seq<byte>, eof: bool,
    receiveWindow: uint32, timestampRecent: uint32, ackedSendSeq: uint32, agreed: Agreed,
    window: uint32, nonBlocking: uint32, blocking: uint32)

  /**
   * A segment is received, and answered if it is the first SYN; the three steps the loop takes with one it accepts; and
   * what the timer and the other goroutines do.
   */
  datatype Event =
    | Arrive(segment: Segment, answered: bool)
    | CountFin
    | Write(delivery: Delivery)
    | CountData
    | ScaleDown(close: bool)
    | Data(payload: seq<byte>)
    | Eof
    | PureAck

  // ---- sequence arithmetic ----

  /** Addition modulo 2^32. */
  function Add(a: uint32, n: nat): (r: uint32) { (a + n) % TWO32 }

  function Sub(a: uint32, b: uint32): (r: uint32) { (a - b) % TWO32 }

  lemma AddAdd(a: uint32, m: nat, n: nat)
    ensures Add(Add(a, m), n) == Add(a, m + n)
  {
  }

  /** Within 2^32 of each other, equal numbers are equal positions. */
  lemma AddInjective(a: uint32, m: nat, n: nat)
    requires Add(a, m) == Add(a, n) && m < n + TWO32 && n < m + TWO32
    ensures m == n
  {
    var d: int := m - n;
    assert d % TWO32 == 0 by {
      assert (a + m) - (a + n) == d;
    }
  }

  function Pow2(n: nat): (r: nat)
    ensures 1 <= r
  {
    if n == 0 then 1 else 2 * Pow2(n - 1)
  }

  /** The parser leaves zero where an option is absent. */
  function OrZero(o: Option<nat>): (n: nat) { if o.Some? then o.value else 0 }

  /** A 16-bit window field shifted left in 32 bits. */
  function Scaled(w: uint16, scale: nat): (r: uint32) { (w * Pow2(scale)) % TWO32 }

  // ---- the steps ----

  /** The least shift that brings the largest window into 16 bits. */
  function ScaleFor(largest: nat): (k: nat)
    ensures largest <= 0xffff * Pow2(k)
    ensures 0 < k ==> 0xffff * Pow2(k - 1) < largest
  {
    if largest <= 0xffff then 0 else Least(largest, 0)
  }

  function Least(largest: nat, k: nat): (r: nat)
    requires 0xffff * Pow2(k) < largest
    ensures k < r && largest <= 0xffff * Pow2(r) && 0xffff * Pow2(r - 1) < largest
    decreases largest - 0xffff * Pow2(k)
  {
    if largest <= 0xffff * Pow2(k + 1) then k + 1 else Least(largest, k + 1)
  }

  /** Options the SYN carries; both scales are off unless it offers one. */
  function Agree(c: Settings, g: Segment): (a: Agreed)
  {
    Agreed(if g.mss.Some? then g.mss.value else 0, OrZero(g.scale), g.stamp.Some?, g.scale.Some?,
           if g.scale.Some? then ScaleFor(c.maxWindow) else 0)
  }

  /** The SYN sets both frontiers; SYN and FIN consume one number. */
  function OnSyn(c: Settings, s: State, g: Segment): (r: State)
  {
    s.(phase := Open, start := g.number, sendSeq := Add(g.number, 1), counted := 0, ackedSendSeq := Add(g.number, 1),
       receiveSeq := Add(g.number, 1), receiveSeqAck := g.number,
       receiveWindow := Scaled(g.window, OrZero(g.scale)),
       timestampRecent := (if g.stamp.Some? then g.stamp.value else 0),
       agreed := Agree(c, g))
  }

  /** `updateTimestampRecentWithLock`: the echoed value does not move backward. */
  function Recent(s: State, g: Segment): (r: uint32)
  {
    if s.agreed.enableTimestamp && g.stamp.Some?
       && (s.timestampRecent == 0 || Sub(g.stamp.value, s.timestampRecent) < 0x8000_0000)
    then g.stamp.value
    else s.timestampRecent
  }

  /** An acknowledgement that is not behind, by plain unsigned comparison. */
  function OnAck(s: State, g: Segment): (r: State)
  {
    if g.ack && s.receiveSeqAck <= g.ackNumber then
      s.(receiveWindow := Scaled(g.window, s.agreed.receiveScale), receiveSeqAck := g.ackNumber,
         timestampRecent := Recent(s, g))
    else s
  }

  /** The window after a payload was counted: doubled when the channel kept up, halved when it did not. */
  function Resize(c: Settings, s: State): (r: State)
  {
    if Add(s.blocking, s.nonBlocking) < s.window then s
    else
      var window := if s.window <= s.nonBlocking then Min((s.window * 2) % TWO32, c.maxWindow)
                    else if s.window / 2 <= s.blocking then Max(s.window / 2, c.minWindow)
                    else s.window;
      s.(window := window, nonBlocking := 0, blocking := 0)
  }

  /** `sendSeq` passes `n` more numbers. */
  function Counted(s: State, n: nat): (r: State)
  {
    s.(sendSeq := Add(s.sendSeq, n), counted := s.counted + n)
  }

  /** The iteration is over; after a FIN the loop is left. */
  function Finished(s: State, fin: bool): (r: State)
  {
    s.(loop := Idle, phase := if fin then Draining else s.phase)
  }

  /** A segment at the frontier is accepted. */
  function OnNext(s: State, g: Segment): (r: State)
  {
    OnAck(s, g).(loop := if g.fin then AtFin(g) else if g.payload != [] then AtWrite(g) else Idle)
  }

  function OnSegment(s: State, g: Segment): (r: State)
  {
    if g.rst then s.(phase := Dead)
    else if s.sendSeq != g.number || g.syn then s
    else OnNext(s, g)
  }

  /** The FIN is counted ahead of the data that comes with it. */
  function OnFin(s: State): (r: State)
    requires s.loop.AtFin?
  {
    var g, t := s.loop.segment, Counted(s, 1);
    if g.payload != [] then t.(loop := AtWrite(g)) else Finished(t, true)
  }

  /** A cancelled write ends the loop where it stands. */
  function OnWrite(s: State, d: Delivery): (r: State)
    requires s.loop.AtWrite?
  {
    var payload := s.loop.segment.payload;
    if d.Cancelled? then s.(phase := Dead)
    else
      var t := s.(loop := AtCount(s.loop.segment), queued := s.queued + payload);
      if d.Waited? then t.(blocking := Add(s.blocking, |payload|))
      else t.(nonBlocking := Add(s.nonBlocking, |payload|))
  }

  function OnCount(c: Settings, s: State): (r: State)
    requires s.loop.AtCount?
  {
    Finished(Counted(Resize(c, s), |s.loop.segment.payload|), s.loop.segment.fin)
  }

  /** Room for `n` more bytes in the client's window. */
  predicate Room(s: State, n: nat)
  {
    Add(Sub(s.receiveSeq, s.receiveSeqAck), n) <= s.receiveWindow
  }

  function Step(c: Settings, s: State, e: Event): (r: State)
  {
    match e
    case Arrive(g, answered) =>
      if s.phase.Waiting? then
        if !g.syn then s else if answered then OnSyn(c, s, g) else OnSyn(c, s, g).(phase := Dead)
      else if s.phase.Open? && s.loop.Idle? then OnSegment(s, g)
      else s
    case CountFin => if s.phase.Open? && s.loop.AtFin? then OnFin(s) else s
    case Write(d) => if s.phase.Open? && s.loop.AtWrite? then OnWrite(s, d) else s
    case CountData => if s.phase.Open? && s.loop.AtCount? then OnCount(c, s) else s
    case ScaleDown(close) =>
      if !s.phase.Open? || !s.loop.Idle? then s
      else
        var t := if s.window != c.minWindow then s.(window := c.minWindow, nonBlocking := 0, blocking := 0) else s;
        if close then t.(phase := Dead) else t
    case Data(payload) =>
      if s.phase.Waiting? || s.eof || !Room(s, |payload|) then s
      else s.(sent := s.sent + payload, receiveSeq := Add(s.receiveSeq, |payload|), ackedSendSeq := s.sendSeq)
    case Eof =>
      if s.phase.Waiting? || s.eof then s else s.(eof := true, receiveSeq := Add(s.receiveSeq, 1))
    case PureAck =>
      if s.phase.Waiting? then s else s.(ackedSendSeq := s.sendSeq)
  }

  // ---- what every step keeps ----

  /** What the FIN adds. */
  function Fin(g: Segment): (n: nat) { if g.fin then 1 else 0 }

  /** `g` starts right after the bytes queued. */
  predicate IsNext(s: State, g: Segment)
  {
    g.number == Add(s.start, 1 + |s.queued|)
  }

  /**
   * How far the count is from the bytes queued: level between segments, one ahead once a FIN was counted, and behind
   * while data just written is not counted yet.
   */
  predicate Level(s: State)
  {
    match s.loop
    case Idle => s.counted == |s.queued| + if s.phase.Draining? then 1 else 0
    case AtFin(g) => s.counted == |s.queued| && s.phase.Open? && g.fin && IsNext(s, g)
    case AtWrite(g) =>
      s.counted == |s.queued| + Fin(g) && (s.phase.Open? || s.phase.Dead?) && g.payload != [] && IsNext(s, g)
    case AtCount(g) => s.counted + |g.payload| == |s.queued| + Fin(g) && s.phase.Open? && g.payload != []
  }

  /** Upstream: the next number expected follows the SYN and what was counted. */
  predicate Upstream(s: State)
  {
    Level(s) && (!s.phase.Waiting? ==> s.sendSeq == Add(s.start, 1 + s.counted))
  }

  /** Downstream: the next number to send counts the SYN, the bytes sent, and the FIN. */
  predicate Downstream(s: State)
  {
    !s.phase.Waiting? ==> s.receiveSeq == Add(s.start, 1 + |s.sent| + if s.eof then 1 else 0)
  }

  predicate Inv(s: State)
  {
    Upstream(s) && Downstream(s) && (s.phase.Waiting? ==> s.queued == [] && s.loop.Idle? && s.sent == [] && !s.eof)
  }

  lemma ArriveInv(s: State, g: Segment)
    requires Inv(s) && s.phase.Open? && s.loop.Idle?
    ensures Inv(OnSegment(s, g))
  {
  }

  lemma FinInv(s: State)
    requires Inv(s) && s.phase.Open? && s.loop.AtFin?
    ensures Inv(OnFin(s))
  {
    AddAdd(s.start, 1 + s.counted, 1);
  }

  lemma WriteInv(s: State, d: Delivery)
    requires Inv(s) && s.phase.Open? && s.loop.AtWrite?
    ensures Inv(OnWrite(s, d))
  {
  }

  lemma CountInv(c: Settings, s: State)
    requires Inv(s) && s.phase.Open? && s.loop.AtCount?
    ensures Inv(OnCount(c, s))
  {
    AddAdd(s.start, 1 + s.counted, |s.loop.segment.payload|);
  }

  lemma StepInv(c: Settings, s: State, e: Event)
    requires Inv(s)
    ensures Inv(Step(c, s, e))
  {
    match e
    case Arrive(g, answered) => if s.phase.Open? && s.loop.Idle? { ArriveInv(s, g); }
    case CountFin => if s.phase.Open? && s.loop.AtFin? { FinInv(s); }
    case Write(d) => if s.phase.Open? && s.loop.AtWrite? { WriteInv(s, d); }
    case CountData => if s.phase.Open? && s.loop.AtCount? { CountInv(c, s); }
    case ScaleDown(close) =>
    case Data(payload) => if !s.phase.Waiting? { AddAdd(s.start, 1 + |s.sent|, |payload|); }
    case Eof => if !s.phase.Waiting? { AddAdd(s.start, 1 + |s.sent|, 1); }
    case PureAck =>
  }
}
