/** `TcpSequence`: the synthetic endpoint as an object, one method for each step its goroutines take. */
module TcpSequences {
  import opened Bytes
  import opened Options
  import opened IpHeaders
  import opened TcpStream
  import Runs = TcpStreamRuns
  import Tcp
  import opened TcpConnection

  /** The flow's addresses and ports; segments to the client go from its destination to its source. */
  datatype Flow = Flow(version: Version, sourceIp: seq<byte>, sourcePort: uint16, destinationIp: seq<byte>,
                       destinationPort: uint16)

  predicate ValidFlow(f: Flow)
  {
    Addresses(f.version, f.destinationIp, f.sourceIp)
  }

  /** What the segment builders read of the endpoint. */
  function ViewOf(f: Flow, s: State): (c: Connection)
  {
    Connection(f.version, f.sourceIp, f.sourcePort, f.destinationIp, f.destinationPort, s.sendSeq, s.receiveSeq,
               s.window, s.agreed.windowScale, s.agreed.enableWindowScale, s.agreed.enableTimestamp, s.timestampRecent,
               s.agreed.peerMss)
  }

  class TcpSequence {
    const settings: Settings
    const flow: Flow
    const mtu: int

    var phase: Phase
    var loop: Loop
    var start: uint32
    var sendSeq: uint32
    var counted: nat
    var queued: seq<byte>
    var receiveSeq: uint32
    var receiveSeqAck: uint32
    var sent: seq<byte>
    var eof: bool
    var receiveWindow: uint32
    var timestampRecent: uint32
    var ackedSendSeq: uint32
    var agreed: Agreed
    var window: uint32
    var nonBlocking: uint32
    var blocking: uint32

    function Now(): (s: State)
      reads this
    {
      State(phase, loop, start, sendSeq, counted, queued, receiveSeq, receiveSeqAck, sent, eof, receiveWindow,
            timestampRecent, ackedSendSeq, agreed, window, nonBlocking, blocking)
    }

    constructor (settings: Settings, flow: Flow, mtu: int, initialWindow: uint32)
      ensures Now() == Runs.Fresh(settings, initialWindow)
      ensures this.settings == settings && this.flow == flow && this.mtu == mtu
    {
      this.settings, this.flow, this.mtu := settings, flow, mtu;
      phase, loop, start, sendSeq, counted, queued := Waiting, Idle, 0, 0, 0, [];
      receiveSeq, receiveSeqAck, sent, eof := 0, 0, [], false;
      receiveWindow, timestampRecent, ackedSendSeq, agreed := 0, 0, 0, Agreed(0, 0, false, false, 0);
      window := Min(Max(if initialWindow == 0 then settings.minWindow else initialWindow, settings.minWindow),
                    settings.maxWindow);
      nonBlocking, blocking := 0, 0;
    }

    method OpenUpstream(g: Segment)
      modifies this`phase, this`start, this`sendSeq, this`counted, this`ackedSendSeq
      ensures Now() ==
                old(Now()).(phase := Open, start := g.number, sendSeq := Add(g.number, 1), counted := 0,
                            ackedSendSeq := Add(g.number, 1))
    {
      phase, start, counted := Open, g.number, 0;
      sendSeq := Add(g.number, 1);
      ackedSendSeq := sendSeq;
    }

    method OpenDownstream(g: Segment)
      modifies this`receiveSeq, this`receiveSeqAck, this`receiveWindow
      ensures Now() ==
                old(Now()).(receiveSeq := g.number, receiveSeqAck := g.number,
                            receiveWindow := Scaled(g.window, OrZero(g.scale)))
    {
      receiveSeq, receiveSeqAck := g.number, g.number;
      receiveWindow := Scaled(g.window, OrZero(g.scale));
    }

    method OpenAt(g: Segment)
      modifies this
      ensures Now() == OnSyn(settings, old(Now()), g).(receiveSeq := g.number)
    {
      OpenUpstream(g);
      OpenDownstream(g);
      timestampRecent := if g.stamp.Some? then g.stamp.value else 0;
      agreed := Agree(settings, g);
    }

    /**
     * The first SYN opens the sequence and is answered before its number is counted; the sequence ends
     * if the MTU cannot carry the answer or upstream cannot be dialed. Anything else is ignored.
     */
    method HandleSyn(g: Segment, dialed: bool, stamp: uint32) returns (r: Option<seq<byte>>)
      requires phase.Waiting? && ValidFlow(flow)
      modifies this
      ensures Now() == Step(settings, old(Now()), Arrive(g, r.Some?))
      ensures r.Some? <==> g.syn && dialed && HeaderSize(flow.version) + Tcp.TCP_HEADER < mtu
      ensures r.Some? ==> Answers(ViewOf(flow, Now().(receiveSeq := g.number)), r.value, mtu, stamp)
    {
      if !g.syn { return None; }
      OpenAt(g);
      r := SynAck(ViewOf(flow, Now()), mtu, stamp);
      receiveSeq := Add(receiveSeq, 1);
      if r.None? || !dialed {
        phase := Dead;
        r := None;
      }
    }

    method Acknowledge(g: Segment)
      modifies this`receiveWindow, this`receiveSeqAck, this`timestampRecent
      ensures Now() == OnAck(old(Now()), g)
    {
      if g.ack && receiveSeqAck <= g.ackNumber {
        receiveWindow, receiveSeqAck := Scaled(g.window, agreed.receiveScale), g.ackNumber;
        if agreed.enableTimestamp && g.stamp.Some?
           && (timestampRecent == 0 || Sub(g.stamp.value, timestampRecent) < 0x8000_0000) {
          timestampRecent := g.stamp.value;
        }
      }
    }

    method ResizeWindow()
      modifies this`window, this`nonBlocking, this`blocking
      ensures Now() == Resize(settings, old(Now()))
    {
      if window <= Add(blocking, nonBlocking) {
        if window <= nonBlocking {
          window := Min((window * 2) % TcpStream.TWO32, settings.maxWindow);
        } else if window / 2 <= blocking {
          window := Max(window / 2, settings.minWindow);
        }
        nonBlocking, blocking := 0, 0;
      }
    }

    /** The first section of an iteration: a segment that is not next is dropped, one that is gives its window. */
    method HandleSegment(g: Segment)
      requires phase.Open? && loop.Idle?
      modifies this
      ensures Now() == Step(settings, old(Now()), Arrive(g, true))
    {
      if g.rst {
        phase := Dead;
        return;
      }
      if sendSeq != g.number || g.syn { return; }
      Acknowledge(g);
      if g.fin { loop := AtFin(g); } else if g.payload != [] { loop := AtWrite(g); }
    }

    method Advance(n: nat)
      modifies this`sendSeq, this`counted
      ensures Now() == Counted(old(Now()), n)
    {
      sendSeq := Add(sendSeq, n);
      counted := counted + n;
    }

    method Finish(fin: bool)
      modifies this`loop, this`phase
      ensures Now() == Finished(old(Now()), fin)
    {
      loop := Idle;
      if fin { phase := Draining; }
    }

    /** The second: a FIN is counted. */
    method HandleFin()
      requires phase.Open? && loop.AtFin?
      modifies this
      ensures Now() == Step(settings, old(Now()), CountFin)
    {
      var g := loop.segment;
      Advance(1);
      if g.payload != [] { loop := AtWrite(g); } else { Finish(true); }
    }

    /** Without the lock: the payload goes to the channel, or the sequence is cancelled while it waits. */
    method WritePayload(d: Delivery)
      requires phase.Open? && loop.AtWrite?
      modifies this
      ensures Now() == Step(settings, old(Now()), Write(d))
    {
      var payload := loop.segment.payload;
      if d.Cancelled? {
        phase := Dead;
        return;
      }
      queued := queued + payload;
      if d.Waited? { blocking := Add(blocking, |payload|); } else { nonBlocking := Add(nonBlocking, |payload|); }
      loop := AtCount(loop.segment);
    }

    /** The third: the window is resized and the payload counted. */
    method CountPayload()
      requires phase.Open? && loop.AtCount?
      modifies this
      ensures Now() == Step(settings, old(Now()), CountData)
    {
      var g := loop.segment;
      ResizeWindow();
      Advance(|g.payload|);
      Finish(g.fin);
    }

    method HandleScaleDown(close: bool)
      requires phase.Open? && loop.Idle?
      modifies this
      ensures Now() == Step(settings, old(Now()), ScaleDown(close))
    {
      if window != settings.minWindow {
        window, nonBlocking, blocking := settings.minWindow, 0, 0;
      }
      if close { phase := Dead; }
    }

    /** Data from upstream, once the client's window has room: segments acknowledge everything queued so far. */
    method HandleRead(payload: seq<byte>, stamp: nat -> uint32) returns (r: Option<seq<seq<byte>>>)
      requires !phase.Waiting? && !eof && ValidFlow(flow) && Room(Now(), |payload|)
      modifies this
      ensures r.Some? <==> HeaderBytes(ViewOf(flow, old(Now()))) < mtu
      ensures Now() == if r.Some? then Step(settings, old(Now()), Data(payload)) else old(Now())
      ensures r.Some? ==> Sent(ViewOf(flow, old(Now())), payload, mtu, r.value, stamp)
    {
      r := DataPackets(ViewOf(flow, Now()), payload, mtu, stamp);
      if r.Some? {
        sent := sent + payload;
        receiveSeq := Add(receiveSeq, |payload|);
        ackedSendSeq := sendSeq;
      }
    }

    /** End of the upstream data: the FIN is sent before its number is counted. */
    method HandleEof(stamp: uint32) returns (p: seq<byte>)
      requires !phase.Waiting? && !eof && ValidFlow(flow)
      modifies this
      ensures Now() == Step(settings, old(Now()), Eof)
      ensures IsControl(ViewOf(flow, old(Now())), p, Tcp.FLAG_FIN + Tcp.FLAG_ACK, stamp)
    {
      p := Control(ViewOf(flow, Now()), Tcp.FLAG_FIN + Tcp.FLAG_ACK, stamp);
      CountEof();
    }

    method CountEof()
      requires !phase.Waiting? && !eof
      modifies this`eof, this`receiveSeq
      ensures Now() == Step(settings, old(Now()), Eof)
    {
      eof := true;
      receiveSeq := Add(receiveSeq, 1);
    }

    method HandlePureAck(stamp: uint32) returns (p: seq<byte>)
      requires !phase.Waiting? && ValidFlow(flow)
      modifies this
      ensures Now() == Step(settings, old(Now()), PureAck)
      ensures IsControl(ViewOf(flow, old(Now())), p, Tcp.FLAG_ACK, stamp)
    {
      p := Control(ViewOf(flow, Now()), Tcp.FLAG_ACK, stamp);
      ackedSendSeq := sendSeq;
    }
  }

  /** The receiver of `p` reads the acknowledgement number `ack`. */
  predicate ReadsAck(v: Version, p: seq<byte>, ack: uint32)
  {
    match Tcp.Receive(v, p)
    case None => false
    case Some(r) => r.tcp.fields.ack == ack
  }

  /** A segment built in `s` reads as acknowledging what was counted. */
  lemma AckReads(s: State, f: Flow, p: seq<byte>, number: uint32, flags: byte, window: uint16, options: seq<byte>,
                 payload: seq<byte>)
    requires Upstream(s) && !s.phase.Waiting? && Tcp.Describable(f.version, |p|)
    requires Sends(ViewOf(f, s), p, FieldsOf(ViewOf(f, s), number, flags, window), options, payload)
    ensures ReadsAck(f.version, p, Add(s.start, 1 + s.counted))
  {
    ReceivedAs(ViewOf(f, s), p, FieldsOf(ViewOf(f, s), number, flags, window), options, payload);
  }

  /**
   * From every segment built in a run the client reads, past the SYN, as many numbers as were counted. They take in a
   * byte that is not queued exactly while the data of a counted FIN is not yet written.
   */
  lemma AckReadExactly(c: Settings, run: Runs.Run, s: State, stream: seq<byte>, f: Flow, p: seq<byte>, number: uint32,
                       flags: byte, window: uint16, options: seq<byte>, payload: seq<byte>)
    requires Runs.Client(c, run, stream) && s == Runs.StateOf(c, run) && !s.phase.Waiting?
    requires Sends(ViewOf(f, s), p, FieldsOf(ViewOf(f, s), number, flags, window), options, payload)
    requires Tcp.Describable(f.version, |p|)
    ensures ReadsAck(f.version, p, Add(s.start, 1 + s.counted))
    ensures Runs.AcksUnqueued(s, stream) <==> s.loop.AtWrite? && s.loop.segment.fin
  {
    Runs.RunInv(c, run);
    Runs.AcksUnqueuedExactly(c, run, stream);
    AckReads(s, f, p, number, flags, window, options, payload);
  }

  /** The data segments of one read continue the numbering of everything sent before. */
  lemma SegmentsContinue(c: Settings, run: Runs.Run, f: Flow, offset: nat)
    requires var s := Runs.StateOf(c, run); !s.phase.Waiting? && !s.eof
    ensures var s := Runs.StateOf(c, run); Number(ViewOf(f, s), offset) == Add(s.start, 1 + |s.sent| + offset)
  {
    Runs.RunInv(c, run);
    var s := Runs.StateOf(c, run);
    AddAdd(s.start, 1 + |s.sent|, offset);
  }
}
