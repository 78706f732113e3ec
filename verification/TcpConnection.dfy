/** The segments a synthetic TCP endpoint sends (`ConnectionState`). */
module TcpConnection {
  import opened Bytes
  import opened Options
  import opened IpHeaders
  import opened Opt = TcpOptions
  import opened Tcp
  import opened Fragmenter

  const TWO32: nat := 0x1_0000_0000

  /** What the builders read of a connection; segments go from its destination to its source. */
  datatype Connection = Connection(
    version: Version, sourceIp: seq<byte>, sourcePort: uint16, destinationIp: seq<byte>, destinationPort: uint16,
    sendSeq: uint32, receiveSeq: uint32, windowSize: uint32, windowScale: nat,
    enableWindowScale: bool, enableTimestamp: bool, timestampRecent: uint32, peerMss: uint32)

  predicate ValidConnection(c: Connection)
  {
    Addresses(c.version, c.destinationIp, c.sourceIp)
  }

  function Shifted(v: nat, n: nat): (r: nat)
    ensures r <= v
  {
    if n == 0 then v else Shifted(v / 2, n - 1)
  }

  /** `encodedWindowSize`. */
  function EncodedWindow(c: Connection): (w: uint16) { Min(Shifted(c.windowSize, c.windowScale), 0xffff) }

  function FieldsOf(c: Connection, number: uint32, flags: byte, window: uint16): (f: Fields)
  {
    Fields(c.destinationPort, c.sourcePort, number, c.sendSeq, flags, window)
  }

  function StampOf(c: Connection, stamp: uint32): (s: Option<Stamp>)
  {
    if c.enableTimestamp then Some(Stamp(stamp, c.timestampRecent)) else None
  }

  ghost predicate Sends(c: Connection, p: seq<byte>, f: Fields, options: seq<byte>, payload: seq<byte>)
  {
    IsTcpPacket(c.version, c.destinationIp, c.sourceIp, p, f, options, payload)
  }

  // ---- handshake ----

  function NegotiatedOf(c: Connection, mtu: int, stamp: uint32): (n: Negotiated)
  {
    Negotiated((mtu - HeaderSize(c.version) - TCP_HEADER) % 0x1_0000,
               if c.enableWindowScale then Some(c.windowScale % 0x100) else None,
               StampOf(c, stamp))
  }

  ghost predicate Answers(c: Connection, p: seq<byte>, mtu: int, stamp: uint32)
  {
    Sends(c, p, SynAckFields(c), SynAckOptions(NegotiatedOf(c, mtu, stamp)), [])
  }

  /** `SynAck`: refused when the MTU cannot carry the fixed headers; the window field is not scaled. */
  method SynAck(c: Connection, mtu: int, stamp: uint32) returns (r: Option<seq<byte>>)
    requires ValidConnection(c)
    ensures r.None? <==> mtu <= HeaderSize(c.version) + TCP_HEADER
    ensures r.Some? ==> Answers(c, r.value, mtu, stamp)
  {
    var mss := mtu - HeaderSize(c.version) - TCP_HEADER;
    if mss <= 0 { return None; }
    var p := BuildTcp(c.version, c.destinationIp, c.sourceIp, SynAckFields(c),
                      SynAckOptions(NegotiatedOf(c, mtu, stamp)), []);
    r := Some(p);
  }

  function SynAckFields(c: Connection): (f: Fields)
  {
    FieldsOf(c, c.receiveSeq, FLAG_SYN + FLAG_ACK, Min(c.windowSize, 0xffff))
  }

  /** What the options of a SYN-ACK say to the peer: the MSS floored at 536, the scale capped at 14, the timestamps. */
  function Offer(c: Connection, mtu: int, stamp: uint32): (o: Opt.TcpOptions)
  {
    TcpOptions(Some(Max(mtu - HeaderSize(c.version) - TCP_HEADER, MIN_MSS)),
               if c.enableWindowScale then Some(Min(c.windowScale, MAX_SCALE)) else None,
               StampOf(c, stamp))
  }

  lemma OfferParses(c: Connection, mtu: int, stamp: uint32)
    requires HeaderSize(c.version) + TCP_HEADER < mtu <= HeaderSize(c.version) + TCP_HEADER + 0xffff
             && c.windowScale < 0x100
    ensures ParseOptions(NO_OPTIONS, SynAckOptions(NegotiatedOf(c, mtu, stamp))) == Offer(c, mtu, stamp)
  {
    SynAckOptionsParse(NegotiatedOf(c, mtu, stamp));
  }

  /** A packet that reads back as its fields, the meaning of its options, and its data. */
  ghost predicate ReadsAs(c: Connection, p: seq<byte>, f: Fields, options: Opt.TcpOptions, payload: seq<byte>)
  {
    Receive(c.version, p) == Some(Received(c.destinationIp, c.sourceIp, TcpParsed(f, options, payload)))
  }

  lemma ReceivedAs(c: Connection, p: seq<byte>, f: Fields, o: seq<byte>, payload: seq<byte>)
    requires Sends(c, p, f, o, payload) && Describable(c.version, |p|)
    ensures ReadsAs(c, p, f, ParseOptions(NO_OPTIONS, o), payload)
  {
    TcpReceived(c.version, c.destinationIp, c.sourceIp, p, f, o, payload);
  }

  lemma EmptyIsDescribable(c: Connection, p: seq<byte>, f: Fields, o: seq<byte>)
    requires Sends(c, p, f, o, [])
    ensures Describable(c.version, |p|)
  {
  }

  /** The peer reads a SYN-ACK as what was negotiated. */
  lemma SynAckReceived(c: Connection, mtu: int, stamp: uint32, p: seq<byte>)
    requires Answers(c, p, mtu, stamp)
    requires HeaderSize(c.version) + TCP_HEADER < mtu <= HeaderSize(c.version) + TCP_HEADER + 0xffff
             && c.windowScale < 0x100
    ensures ReadsAs(c, p, SynAckFields(c), Offer(c, mtu, stamp), [])
  {
    EmptyIsDescribable(c, p, SynAckFields(c), SynAckOptions(NegotiatedOf(c, mtu, stamp)));
    ReceivedAs(c, p, SynAckFields(c), SynAckOptions(NegotiatedOf(c, mtu, stamp)), []);
    OfferParses(c, mtu, stamp);
  }

  // ---- acknowledgements ----

  ghost predicate IsControl(c: Connection, p: seq<byte>, flags: byte, stamp: uint32)
  {
    Sends(c, p, FieldsOf(c, c.receiveSeq, flags, EncodedWindow(c)), SegmentOptions(StampOf(c, stamp)), [])
  }

  /** `PureAck`, `FinAck`: an empty segment with the negotiated timestamp. */
  method Control(c: Connection, flags: byte, stamp: uint32) returns (p: seq<byte>)
    requires ValidConnection(c)
    ensures IsControl(c, p, flags, stamp)
  {
    p := BuildTcp(c.version, c.destinationIp, c.sourceIp, FieldsOf(c, c.receiveSeq, flags, EncodedWindow(c)),
                  SegmentOptions(StampOf(c, stamp)), []);
  }

  /** `RstAck`: no options. */
  method RstAck(c: Connection) returns (p: seq<byte>)
    requires ValidConnection(c)
    ensures Sends(c, p, FieldsOf(c, c.receiveSeq, FLAG_RST + FLAG_ACK, EncodedWindow(c)), [], [])
  {
    p := BuildTcp(c.version, c.destinationIp, c.sourceIp,
                  FieldsOf(c, c.receiveSeq, FLAG_RST + FLAG_ACK, EncodedWindow(c)), [], []);
  }

  // ---- data ----

  /** A data segment whose first byte has the sequence number `number`. */
  ghost predicate SendsData(c: Connection, p: seq<byte>, payload: seq<byte>, number: uint32, stamp: uint32)
  {
    Sends(c, p, FieldsOf(c, number, FLAG_ACK, EncodedWindow(c)), SegmentOptions(StampOf(c, stamp)), payload)
  }

  /** `tcpPacket`. */
  method TcpPacket(c: Connection, payload: seq<byte>, number: uint32, stamp: uint32) returns (p: seq<byte>)
    requires ValidConnection(c)
    ensures SendsData(c, p, payload, number, stamp)
  {
    p := BuildTcp(c.version, c.destinationIp, c.sourceIp, FieldsOf(c, number, FLAG_ACK, EncodedWindow(c)),
                  SegmentOptions(StampOf(c, stamp)), payload);
  }

  function OptionSize(c: Connection): (n: nat) { if c.enableTimestamp then STAMP_OPTION else 0 }

  function HeaderBytes(c: Connection): (n: nat) { HeaderSize(c.version) + TCP_HEADER + OptionSize(c) }

  /** Data bytes per segment: what the MTU leaves, within the peer's MSS less our options, at least one. */
  function Budget(c: Connection, mtu: int): (n: nat)
    requires HeaderBytes(c) < mtu
    ensures 1 <= n <= mtu - HeaderBytes(c)
  {
    var room := mtu - HeaderBytes(c);
    if c.peerMss == 0 then room else Min(room, Max(1, c.peerMss - OptionSize(c)))
  }

  /** Sequence numbers count modulo 2^32. */
  function Number(c: Connection, offset: nat): (n: uint32) { (c.receiveSeq + offset) % TWO32 }

  /** Where the data is cut; nothing to send is one empty segment. */
  function CutsOf(n: nat, budget: nat): (cuts: seq<Cut>)
    requires 0 < budget
  {
    if n == 0 then [Cut(0, 0)] else CutFrom(n, budget, 0)
  }

  ghost predicate Segments(c: Connection, payload: seq<byte>, cuts: seq<Cut>, packets: seq<seq<byte>>,
                           stamp: nat -> uint32)
  {
    && |packets| <= |cuts| && AllCutOf(cuts, |payload|)
    && forall i :: 0 <= i < |packets| ==>
         SendsData(c, packets[i], payload[cuts[i].offset..cuts[i].end], Number(c, cuts[i].offset), stamp(i))
  }

  /** All of `payload`, segment by segment. */
  ghost predicate Sent(c: Connection, payload: seq<byte>, mtu: int, packets: seq<seq<byte>>, stamp: nat -> uint32)
  {
    && HeaderBytes(c) < mtu
    && |packets| == |CutsOf(|payload|, Budget(c, mtu))|
       && Segments(c, payload, CutsOf(|payload|, Budget(c, mtu)), packets, stamp)
  }

  /** `DataPackets`; `stamp` is the clock reading of each segment. */
  method DataPackets(c: Connection, payload: seq<byte>, mtu: int, stamp: nat -> uint32)
    returns (r: Option<seq<seq<byte>>>)
    requires ValidConnection(c)
    ensures r.None? <==> mtu <= HeaderBytes(c)
    ensures r.Some? ==> Sent(c, payload, mtu, r.value, stamp)
  {
    if mtu <= HeaderBytes(c) { return None; }
    var budget, n := Budget(c, mtu), |payload|;
    if n <= budget {
      var p := TcpPacket(c, payload, c.receiveSeq, stamp(0));
      OneCut(n, budget);
      assert payload[0..n] == payload;
      return Some([p]);
    }
    ghost var cuts := CutFrom(n, budget, 0);
    CutsCover(n, budget, 0);
    var packets := CutSegments(c, payload, budget, stamp, cuts);
    r := Some(packets);
  }

  lemma OneCut(n: nat, budget: nat)
    requires n <= budget && 0 < budget
    ensures CutsOf(n, budget) == [Cut(0, n)]
  {
    if n > 0 { assert CutFrom(n, budget, n) == []; }
  }

  method CutSegments(c: Connection, payload: seq<byte>, budget: nat, stamp: nat -> uint32, ghost cuts: seq<Cut>)
    returns (packets: seq<seq<byte>>)
    requires ValidConnection(c) && 0 < budget && Covers(cuts, |payload|, budget, 0) && AllCutOf(cuts, |payload|)
    ensures |packets| == |cuts| && Segments(c, payload, cuts, packets, stamp)
  {
    packets := [];
    var i := 0;
    while i < |payload|
      invariant |packets| <= |cuts| && 0 <= i <= |payload|
      invariant i == if |packets| < |cuts| then cuts[|packets|].offset else |payload|
      invariant Segments(c, payload, cuts, packets, stamp)
    {
      var j := Min(i + budget, |payload|);
      NextCut(cuts, |payload|, budget, |packets|);
      var p := TcpPacket(c, payload[i..j], Number(c, i), stamp(|packets|));
      packets := packets + [p];
      i := j;
    }
    AllCut(cuts, |payload|, budget, |packets|, i);
  }

  // ---- what the segments add up to ----

  /** The data of the segments one after the other. */
  function Joined(payload: seq<byte>, cuts: seq<Cut>, n: nat): (b: seq<byte>)
    requires n <= |cuts| && AllCutOf(cuts, |payload|)
  {
    if n == 0 then [] else Joined(payload, cuts, n - 1) + payload[cuts[n - 1].offset..cuts[n - 1].end]
  }

  lemma {:induction false} JoinedIsPrefix(payload: seq<byte>, cuts: seq<Cut>, budget: nat, n: nat)
    requires 0 < budget && Covers(cuts, |payload|, budget, 0) && AllCutOf(cuts, |payload|) && 0 < n <= |cuts|
    ensures Joined(payload, cuts, n) == payload[..cuts[n - 1].end]
  {
    if n == 1 {
      assert Joined(payload, cuts, 0) == [];
    } else {
      JoinedIsPrefix(payload, cuts, budget, n - 1);
      assert cuts[n - 1].offset == cuts[n - 2].end;
      assert payload[..cuts[n - 1].offset] + payload[cuts[n - 1].offset..cuts[n - 1].end] == payload[..cuts[n - 1].end];
    }
  }

  /** The cuts follow one another without a gap, none larger than the budget. */
  ghost predicate Contiguous(cuts: seq<Cut>, budget: nat)
  {
    forall i :: 0 <= i < |cuts| ==>
                  && cuts[i].end - cuts[i].offset <= budget
                  && cuts[i].offset == if i == 0 then 0 else cuts[i - 1].end
  }

  lemma CutsAddUp(payload: seq<byte>, budget: nat)
    requires 0 < budget
    ensures var cuts := CutsOf(|payload|, budget);
            AllCutOf(cuts, |payload|) && Contiguous(cuts, budget) && Joined(payload, cuts, |cuts|) == payload
  {
    var n := |payload|;
    var cuts := CutsOf(n, budget);
    if n == 0 {
      assert Joined(payload, cuts, 1) == Joined(payload, cuts, 0) + payload[0..0];
    } else {
      CutsCover(n, budget, 0);
      JoinedIsPrefix(payload, cuts, budget, |cuts|);
      assert cuts[|cuts| - 1].end == n && payload[..n] == payload;
    }
  }

  lemma SegmentSize(c: Connection, p: seq<byte>, payload: seq<byte>, number: uint32, stamp: uint32)
    requires SendsData(c, p, payload, number, stamp)
    ensures |p| == HeaderBytes(c) + |payload|
  {
  }

  /** The segments concatenate to the input, numbered without a gap, each within the MTU and the peer's budget. */
  lemma SegmentsAddUp(c: Connection, payload: seq<byte>, mtu: int, packets: seq<seq<byte>>, stamp: nat -> uint32)
    requires Sent(c, payload, mtu, packets, stamp)
    ensures var cuts := CutsOf(|payload|, Budget(c, mtu));
            Contiguous(cuts, Budget(c, mtu)) && Joined(payload, cuts, |cuts|) == payload
    ensures forall i :: 0 <= i < |packets| ==> |packets[i]| <= mtu
  {
    CutsAddUp(payload, Budget(c, mtu));
    forall i | 0 <= i < |packets| ensures |packets[i]| <= mtu {
      PacketFits(c, payload, mtu, CutsOf(|payload|, Budget(c, mtu)), packets, stamp, i);
    }
  }

  lemma PacketFits(c: Connection, payload: seq<byte>, mtu: int, cuts: seq<Cut>, packets: seq<seq<byte>>,
                   stamp: nat -> uint32, i: nat)
    requires HeaderBytes(c) < mtu && i < |packets| && Contiguous(cuts, Budget(c, mtu))
             && Segments(c, payload, cuts, packets, stamp)
    ensures |packets[i]| <= mtu
  {
    SegmentSize(c, packets[i], payload[cuts[i].offset..cuts[i].end], Number(c, cuts[i].offset), stamp(i));
  }

  /** The packet keeps within the MTU, its data and our options within the peer's MSS; one byte always may. */
  predicate MayCarry(c: Connection, mtu: int, n: nat)
  {
    HeaderBytes(c) + n <= mtu && (c.peerMss == 0 || n <= 1 || n + OptionSize(c) <= c.peerMss)
  }

  lemma BudgetIsMost(c: Connection, mtu: int, n: nat)
    requires HeaderBytes(c) < mtu
    ensures MayCarry(c, mtu, n) <==> n <= Budget(c, mtu)
  {
  }

  /** Every segment carries what it may, and each but the last could not carry one byte more. */
  lemma SegmentsAreFull(c: Connection, payload: seq<byte>, mtu: int, packets: seq<seq<byte>>, stamp: nat -> uint32)
    requires Sent(c, payload, mtu, packets, stamp)
    ensures forall i :: 0 <= i < |packets| ==> HeaderBytes(c) <= |packets[i]|
                                               && MayCarry(c, mtu, |packets[i]| - HeaderBytes(c))
    ensures forall i :: 0 <= i < |packets| - 1 ==> !MayCarry(c, mtu, |packets[i]| - HeaderBytes(c) + 1)
  {
    var budget := Budget(c, mtu);
    var cuts := CutsOf(|payload|, budget);
    if payload != [] { CutsCover(|payload|, budget, 0); }
    forall i | 0 <= i < |packets|
      ensures HeaderBytes(c) <= |packets[i]| && MayCarry(c, mtu, |packets[i]| - HeaderBytes(c))
      ensures i < |packets| - 1 ==> !MayCarry(c, mtu, |packets[i]| - HeaderBytes(c) + 1) {
      var n := cuts[i].end - cuts[i].offset;
      SegmentSize(c, packets[i], payload[cuts[i].offset..cuts[i].end], Number(c, cuts[i].offset), stamp(i));
      assert n <= budget && (i < |packets| - 1 ==> n == budget);
      BudgetIsMost(c, mtu, n);
      BudgetIsMost(c, mtu, n + 1);
    }
  }

  /** Every describable segment is read back with its ports, numbers, timestamps and data. */
  lemma SegmentReceived(c: Connection, p: seq<byte>, payload: seq<byte>, number: uint32, stamp: uint32)
    requires SendsData(c, p, payload, number, stamp) && Describable(c.version, |p|)
    ensures ReadsAs(c, p, FieldsOf(c, number, FLAG_ACK, EncodedWindow(c)), NO_OPTIONS.(stamp := StampOf(c, stamp)),
                    payload)
  {
    ReceivedAs(c, p, FieldsOf(c, number, FLAG_ACK, EncodedWindow(c)), SegmentOptions(StampOf(c, stamp)), payload);
    SegmentOptionsParse(StampOf(c, stamp));
  }

  /** The data a receiver reads from the first `n` packets. */
  function Delivered(read: seq<byte> -> seq<byte>, packets: seq<seq<byte>>, n: nat): (b: seq<byte>)
    requires n <= |packets|
  {
    if n == 0 then [] else Delivered(read, packets, n - 1) + read(packets[n - 1])
  }

  function DataOf(r: Option<Received>): (b: seq<byte>) { if r.Some? then r.value.tcp.payload else [] }

  /** The data of the segment in a packet. */
  function Reader(v: Version): (read: seq<byte> -> seq<byte>) { p => DataOf(Receive(v, p)) }

  lemma SegmentData(c: Connection, p: seq<byte>, payload: seq<byte>, number: uint32, stamp: uint32)
    requires SendsData(c, p, payload, number, stamp) && Describable(c.version, |p|)
    ensures Reader(c.version)(p) == payload
  {
    SegmentReceived(c, p, payload, number, stamp);
  }

  /** The `i`-th packet reads back as the `i`-th cut. */
  ghost predicate Carries(read: seq<byte> -> seq<byte>, p: seq<byte>, payload: seq<byte>, cut: Cut)
  {
    cut.offset <= cut.end <= |payload| && read(p) == payload[cut.offset..cut.end]
  }

  lemma SegmentsCarry(c: Connection, payload: seq<byte>, cuts: seq<Cut>, packets: seq<seq<byte>>, stamp: nat -> uint32,
                      i: nat)
    requires Segments(c, payload, cuts, packets, stamp) && i < |packets| && Describable(c.version, |packets[i]|)
    ensures Carries(Reader(c.version), packets[i], payload, cuts[i])
  {
    SegmentData(c, packets[i], payload[cuts[i].offset..cuts[i].end], Number(c, cuts[i].offset), stamp(i));
  }

  lemma {:induction false} DeliveredIsJoined(read: seq<byte> -> seq<byte>, payload: seq<byte>, cuts: seq<Cut>,
                                             packets: seq<seq<byte>>, n: nat)
    requires n <= |packets| <= |cuts| && AllCutOf(cuts, |payload|)
    requires forall i :: 0 <= i < |packets| ==> Carries(read, packets[i], payload, cuts[i])
    ensures Delivered(read, packets, n) == Joined(payload, cuts, n)
  {
    if n > 0 {
      DeliveredIsJoined(read, payload, cuts, packets, n - 1);
      assert Carries(read, packets[n - 1], payload, cuts[n - 1]);
    }
  }

  /** What is segmented under an MTU the IP header can describe is received whole and in order. */
  lemma DataDelivered(c: Connection, payload: seq<byte>, mtu: int, packets: seq<seq<byte>>, stamp: nat -> uint32)
    requires Sent(c, payload, mtu, packets, stamp) && Describable(c.version, mtu)
    ensures Delivered(Reader(c.version), packets, |packets|) == payload
  {
    var cuts := CutsOf(|payload|, Budget(c, mtu));
    SegmentsAddUp(c, payload, mtu, packets, stamp);
    forall i | 0 <= i < |packets| ensures Carries(Reader(c.version), packets[i], payload, cuts[i]) {
      SegmentsCarry(c, payload, cuts, packets, stamp, i);
    }
    DeliveredIsJoined(Reader(c.version), payload, cuts, packets, |packets|);
  }
}
