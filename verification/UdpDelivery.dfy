/** UDP end to end through a cache with room: every timely order with any retransmissions delivers. */
module UdpDelivery {
  import opened Bytes
  import opened Options
  import Headers
  import opened IpHeaders
  import opened Fragments
  import opened Reassembly
  import opened ReassemblyRuns
  import opened Feeds
  import opened SoloFeeds
  import opened SoloBudgets
  import opened RoundTrip
  import opened Udp
  import opened E = UdpEndToEnd

  /** An empty cache that receives pieces from the sender, in any order and any number of times, until all are there. */
  ghost predicate IsDelivery(family: Family, pieces: seq<seq<byte>>, from: Sender, f: Feed)
  {
    match f
    case Begin(s) => Inv(s) && s.family == family && s.datagrams == map[]
    case Other(_, _, _) => false
    case Part(before, i, e, t) =>
      && IsDelivery(family, pieces, from, before) && Stepped(before.store, e, t)
      && i < |pieces| && e.input.buffer.data == pieces[i] && SentBy(e.input, from) && |Got(before)| < |pieces|
      && (Got(before) != [] ==> e.input.now - Opened(before) < TIMEOUT)
  }

  function SizeOf(pieces: seq<seq<byte>>, n: nat): (bytes: nat)
    requires n <= |pieces|
  {
    if n == 0 then 0 else SizeOf(pieces, n - 1) + |pieces[n - 1]|
  }

  /** The pieces fit with `i` once more in place of `j`. */
  predicate SwapFits(s: Store, pieces: seq<seq<byte>>, i: nat, j: nat)
    requires i < |pieces| && j < |pieces|
  {
    Budgeted(s, SizeOf(pieces, |pieces|) - |pieces[j]| + |pieces[i]|)
  }

  /** The pieces fit the budget and the quota of one source with any of them in place of any other. */
  ghost predicate HasRoom(s: Store, pieces: seq<seq<byte>>)
  {
    forall i: nat, j: nat :: i < |pieces| && j < |pieces| ==> SwapFits(s, pieces, i, j)
  }

  /** The pieces are the parts of the message, byte for byte and charged as such. */
  ghost predicate PiecesMake(m: Message, pieces: seq<seq<byte>>, from: Sender)
  {
    && |m.parts| == |pieces| && (forall i :: 0 <= i < |pieces| ==> m.parts[i].buffer.data == pieces[i])
    && forall i: nat, input: Input :: i < |pieces| && IsPiece(pieces[i], from, input) ==>
         IsCharged(m, i, input, |pieces[i]|)
  }

  ghost predicate IsPiece(piece: seq<byte>, from: Sender, input: Input)
  {
    input.buffer.data == piece && SentBy(input, from)
  }

  ghost predicate IsCharged(m: Message, i: nat, input: Input, cost: nat)
  {
    IsPart(m, i, input) && Parse(m.family, input).arrival.cost == cost
  }

  lemma {:induction false} DeliveryIsTimely(m: Message, pieces: seq<seq<byte>>, from: Sender, f: Feed)
    requires PiecesMake(m, pieces, from) && IsDelivery(m.family, pieces, from, f)
    ensures IsTimely(m, f)
  {
    if f.Part? {
      DeliveryIsTimely(m, pieces, from, f.before);
      assert IsPiece(pieces[f.index], from, f.event.input);
      assert IsCharged(m, f.index, f.event.input, |pieces[f.index]|);
    }
  }

  lemma {:induction false} SizesAgree(ps: seq<Fragment>, pieces: seq<seq<byte>>, n: nat)
    requires n <= |ps| == |pieces| && forall i :: 0 <= i < |pieces| ==> ps[i].buffer.data == pieces[i]
    ensures Size(ps, n) == SizeOf(pieces, n)
  {
    if n > 0 { SizesAgree(ps, pieces, n - 1); }
  }

  lemma RoomIsRoomy(m: Message, pieces: seq<seq<byte>>, from: Sender, s: Store)
    requires PiecesMake(m, pieces, from)
    ensures HasRoom(s, pieces) <==> Roomy(m, s)
  {
    SizesAgree(m.parts, pieces, |pieces|);
    forall i: nat, j: nat | i < |pieces| && j < |pieces| ensures SwapFits(s, pieces, i, j) <==> Swaps(m, s, i, j) {}
  }

  lemma MessageIsMade(s: Stream, payload: seq<byte>, mtu: int, identification: uint32, p: seq<byte>,
                      pieces: seq<seq<byte>>, from: Sender)
    requires E.Datagram(s, payload, mtu, identification, p, pieces) && |pieces| <= MAX_FRAGMENTS
    ensures PiecesMake(MessageOf(s, from, p, mtu, identification, pieces), pieces, from)
  {
    var m := MessageOf(s, from, p, mtu, identification, pieces);
    forall i: nat, input: Input | i < |pieces| && IsPiece(pieces[i], from, input)
      ensures IsCharged(m, i, input, |pieces[i]|) {
      PiecesAreParts(s, payload, mtu, identification, p, pieces, from, i, input);
    }
  }

  lemma MessageIsValid(s: Stream, payload: seq<byte>, mtu: int, identification: uint32, p: seq<byte>,
                       pieces: seq<seq<byte>>, from: Sender)
    requires E.Datagram(s, payload, mtu, identification, p, pieces) && |pieces| <= MAX_FRAGMENTS
    ensures ValidMessage(MessageOf(s, from, p, mtu, identification, pieces))
  {
    PiecesCut(s, payload, mtu, identification, p, pieces);
    if s.version.Ip4? {
      Message4Valid(from, pieces, p, Headers.IPV4_HEADER, identification % 0x1_0000, CutsOf(s.version, p, mtu),
                    PieceSize(s.version, mtu));
    } else {
      Message6Valid(from, pieces, p, |p|, identification, CutsOf(s.version, p, mtu), PieceSize(s.version, mtu));
    }
  }

  /** A delivery into a cache with room is an undisturbed feed of the message. */
  lemma DeliveryIsFeed(m: Message, pieces: seq<seq<byte>>, from: Sender, f: Feed)
    requires ValidMessage(m) && PiecesMake(m, pieces, from)
    requires IsDelivery(m.family, pieces, from, f) && HasRoom(StartOf(f), pieces)
    ensures IsFeed(m, f)
  {
    DeliveryIsTimely(m, pieces, from, f);
    RoomIsRoomy(m, pieces, from, StartOf(f));
    TimelyIsSolo(m, f);
    SoloIsFeed(m, f);
  }

  function FamilyOf(v: Version): (family: Family) { if v.Ip4? then V4 else V6 }

  /**
   * Into an empty cache with room for any piece in place of any other, in every order within the timeout and with
   * any retransmissions, the last missing piece gives back the datagram with its ports, addresses and payload.
   */
  lemma EveryOrderDelivers(s: Stream, payload: seq<byte>, mtu: int, identification: uint32, p: seq<byte>,
                           pieces: seq<seq<byte>>, from: Sender, f: Feed)
    requires E.Datagram(s, payload, mtu, identification, p, pieces) && |pieces| <= MAX_FRAGMENTS
    requires IsDelivery(FamilyOf(s.version), pieces, from, f) && HasRoom(StartOf(f), pieces) && Completes(f, |pieces|)
    ensures var r := ResultOf(f.before.store, f.event);
            && r.Completed? && Receive(s.version, r.packet) == Some(Sent(s, payload))
            && if s.version.Ip6? then r.packet == p
               else Restored4(p, Headers.IPV4_HEADER, identification % 0x1_0000, r.packet)
  {
    MessageIsMade(s, payload, mtu, identification, p, pieces, from);
    MessageIsValid(s, payload, mtu, identification, p, pieces, from);
    DeliveryIsFeed(MessageOf(s, from, p, mtu, identification, pieces), pieces, from, f);
    EndToEnd(s, payload, mtu, identification, p, pieces, from, f);
  }

  // ---- and with less room some delivery is refused ----

  function PieceInput(pieces: seq<seq<byte>>, from: Sender, i: nat): (input: Input)
  {
    var data := if i < |pieces| then pieces[i] else [];
    Input(from.source, from.transferKey, from.provideMode, Buffer(0, data), 0, false, 0)
  }

  function PieceInputs(pieces: seq<seq<byte>>, from: Sender): (inputs: nat -> Input)
  {
    (i: nat) => PieceInput(pieces, from, i)
  }

  /** Every event hands in the piece it says. */
  ghost predicate HandsIn(pieces: seq<seq<byte>>, from: Sender, f: Feed)
  {
    f.Part? ==> f.index < |pieces| && IsPiece(pieces[f.index], from, f.event.input) && HandsIn(pieces, from, f.before)
  }

  lemma {:induction false} TimelyIsDelivery(m: Message, pieces: seq<seq<byte>>, from: Sender, f: Feed)
    requires IsTimely(m, f) && |m.parts| == |pieces| && HandsIn(pieces, from, f)
    ensures IsDelivery(m.family, pieces, from, f)
  {
    if f.Part? { TimelyIsDelivery(m, pieces, from, f.before); }
  }

  lemma PlayedHandsIn(pieces: seq<seq<byte>>, from: Sender, s: Store, next: (Feed, nat) -> Feed, j: nat, n: nat)
    requires next == NextOf(PieceInputs(pieces, from)) && n <= |pieces|
    ensures HandsIn(pieces, from, Played(s, next, j, n))
  {
    PlayedKeeps(s, next, j, n, f => HandsIn(pieces, from, f));
  }

  /** No delivery of the pieces from `s` on is refused. */
  ghost predicate NoneRefused(family: Family, pieces: seq<seq<byte>>, from: Sender, s: Store)
  {
    forall f :: IsDelivery(family, pieces, from, f) && StartOf(f) == s ==> Unrefused(f)
  }

  lemma TimelyUnrefused(m: Message, pieces: seq<seq<byte>>, from: Sender, s: Store, f: Feed)
    requires NoneRefused(m.family, pieces, from, s) && |m.parts| == |pieces| && HandsIn(pieces, from, f)
    requires StartOf(f) == s && IsTimely(m, f)
    ensures Unrefused(f)
  {
    TimelyIsDelivery(m, pieces, from, f);
  }

  lemma NoneRefusedPasses(m: Message, pieces: seq<seq<byte>>, from: Sender, s: Store, next: (Feed, nat) -> Feed, i: nat,
                          j: nat)
    requires next == NextOf(PieceInputs(pieces, from)) && |m.parts| == |pieces| && i < |pieces|
    requires NoneRefused(m.family, pieces, from, s)
    ensures Passes(m, s, next, i, j)
  {
    forall k: nat | k <= |m.parts| && IsTimely(m, Played(s, next, j, k)) ensures Unrefused(Played(s, next, j, k)) {
      PlayedGot(s, next, j, k);
      PlayedHandsIn(pieces, from, s, next, j, k);
      TimelyUnrefused(m, pieces, from, s, Played(s, next, j, k));
    }
    var f := Played(s, next, j, |m.parts|);
    PlayedGot(s, next, j, |m.parts|);
    PlayedHandsIn(pieces, from, s, next, j, |m.parts|);
    if IsTimely(m, next(f, i)) { TimelyUnrefused(m, pieces, from, s, next(f, i)); }
  }

  lemma PiecesSupply(m: Message, pieces: seq<seq<byte>>, from: Sender)
    requires PiecesMake(m, pieces, from)
    ensures Supplies(m, PieceInputs(pieces, from))
  {
    forall i: nat | i < |m.parts| ensures IsCharged(m, i, PieceInput(pieces, from, i), |pieces[i]|) {
      assert IsPiece(pieces[i], from, PieceInput(pieces, from, i));
    }
  }

  lemma RoomRefusesNone(m: Message, pieces: seq<seq<byte>>, from: Sender, s: Store)
    requires ValidMessage(m) && PiecesMake(m, pieces, from) && Roomy(m, s)
    ensures NoneRefused(m.family, pieces, from, s)
  {
    forall f | IsDelivery(m.family, pieces, from, f) && StartOf(f) == s ensures Unrefused(f) {
      DeliveryIsTimely(m, pieces, from, f);
      RoomyUnrefused(m, f);
    }
  }

  lemma NoneRefusedHasRoom(m: Message, pieces: seq<seq<byte>>, from: Sender, s: Store, input: nat -> Input)
    requires ValidMessage(m) && PiecesMake(m, pieces, from) && IsEmpty(m, s) && input == PieceInputs(pieces, from)
    requires NoneRefused(m.family, pieces, from, s)
    ensures Roomy(m, s)
  {
    PiecesSupply(m, pieces, from);
    forall i: nat, j: nat | i < |m.parts| && j < |m.parts| ensures Swaps(m, s, i, j) {
      NoneRefusedPasses(m, pieces, from, s, NextOf(input), i, j);
      PassingFits(m, s, input, NextOf(input), i, j);
    }
  }

  /**
   * For every datagram cut into pieces and every empty cache: no piece is ever refused, in whatever order within the
   * timeout and with whatever retransmissions, if and only if the pieces fit with any of them in place of any other.
   */
  lemma HarmlessExactly(s: Stream, payload: seq<byte>, mtu: int, identification: uint32, p: seq<byte>,
                        pieces: seq<seq<byte>>, from: Sender, store: Store)
    requires E.Datagram(s, payload, mtu, identification, p, pieces) && |pieces| <= MAX_FRAGMENTS
    requires Inv(store) && store.family == FamilyOf(s.version) && store.datagrams == map[]
    ensures NoneRefused(FamilyOf(s.version), pieces, from, store) <==> HasRoom(store, pieces)
  {
    MessageIsMade(s, payload, mtu, identification, p, pieces, from);
    MessageIsValid(s, payload, mtu, identification, p, pieces, from);
    var m := MessageOf(s, from, p, mtu, identification, pieces);
    RoomIsRoomy(m, pieces, from, store);
    if Roomy(m, store) { RoomRefusesNone(m, pieces, from, store); }
    if NoneRefused(m.family, pieces, from, store) {
      NoneRefusedHasRoom(m, pieces, from, store, PieceInputs(pieces, from));
    }
  }
}
