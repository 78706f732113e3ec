/** Cutting a packet and reassembling the pieces gives the packet back, in every undisturbed feed. */
module RoundTrip {
  import opened Bytes
  import opened Transfer
  import opened Headers
  import opened Fragments
  import opened Assembly
  import opened ReassemblyRuns
  import opened Fragmenter
  import opened PieceParsing
  import opened Feeds

  /** Whom the pieces come from. */
  datatype Sender = Sender(source: TransferPath, transferKey: TransferKey, provideMode: ProvideMode)

  predicate SentBy(input: Input, from: Sender)
  {
    input.source == from.source && input.transferKey == from.transferKey && input.provideMode == from.provideMode
  }

  /** Cuts of a payload of `total` bytes into 2 to 64 aligned pieces. */
  ghost predicate Cutting(cuts: seq<Cut>, total: nat, size: nat)
  {
    0 < size && size % 8 == 0 && Covers(cuts, total, size, 0) && AllCutOf(cuts, total) && 2 <= |cuts| <= MAX_FRAGMENTS
  }

  ghost predicate AllAligned(cuts: seq<Cut>, total: int)
  {
    forall i :: 0 <= i < |cuts| ==> Aligned(cuts[i], total)
  }

  lemma CuttingAligned(cuts: seq<Cut>, total: nat, size: nat)
    requires Cutting(cuts, total, size)
    ensures AllAligned(cuts, total)
  {
    forall i | 0 <= i < |cuts| ensures Aligned(cuts[i], total) { CutsEightfold(cuts, total, size, i); }
  }

  predicate PlacedAt(f: Fragment, cut: Cut, payload: seq<byte>)
  {
    && CutOf(cut, |payload|) && f.start < |f.buffer.data|
    && f.offset == cut.offset && Payload(f) == payload[cut.offset..cut.end]
  }

  /** Fragments placed as the cuts say, each payload the bytes of its cut. */
  ghost predicate Placed(ps: seq<Fragment>, cuts: seq<Cut>, payload: seq<byte>)
  {
    |ps| == |cuts| && forall i :: 0 <= i < |ps| ==> PlacedAt(ps[i], cuts[i], payload)
  }

  lemma PlacedTiles(ps: seq<Fragment>, cuts: seq<Cut>, payload: seq<byte>, size: nat)
    requires Cutting(cuts, |payload|, size) && Placed(ps, cuts, payload)
    ensures Tiles(ps, |payload|)
  {
    forall i | 0 <= i < |ps| ensures End(ps[i]) == cuts[i].end {
      assert PlacedAt(ps[i], cuts[i], payload);
      assert |Payload(ps[i])| == cuts[i].end - cuts[i].offset;
    }
    var n := |ps| - 1;
    assert cuts[n].end == |payload|;
    forall i | 0 < i < |ps| ensures ps[i].offset == End(ps[i - 1]) {
      assert cuts[i].offset == cuts[i - 1].end;
    }
  }

  lemma {:induction false} PlacedBodyUpto(ps: seq<Fragment>, cuts: seq<Cut>, payload: seq<byte>, size: nat, n: nat)
    requires Cutting(cuts, |payload|, size) && Placed(ps, cuts, payload) && n < |ps|
    ensures Body(ps[..n + 1]) == payload[..cuts[n].end]
  {
    BodyGrows(ps, n);
    assert PlacedAt(ps[n], cuts[n], payload);
    if n == 0 {
      assert ps[..0] == [];
    } else {
      PlacedBodyUpto(ps, cuts, payload, size, n - 1);
      assert cuts[n].offset == cuts[n - 1].end;
      SliceJoin(payload, cuts[n].offset, cuts[n].end);
    }
  }

  lemma SliceJoin(b: seq<byte>, i: nat, j: nat)
    requires i <= j <= |b|
    ensures b[..i] + b[i..j] == b[..j]
  {
  }

  lemma PlacedBody(ps: seq<Fragment>, cuts: seq<Cut>, payload: seq<byte>, size: nat)
    requires Cutting(cuts, |payload|, size) && Placed(ps, cuts, payload)
    ensures Body(ps) == payload
  {
    var n := |ps| - 1;
    PlacedBodyUpto(ps, cuts, payload, size, n);
    assert ps[..n + 1] == ps && cuts[n].end == |payload|;
  }

  // ---- IPv4 ----

  ghost function Parts4(pieces: seq<seq<byte>>, header: nat, cuts: seq<Cut>): (ps: seq<Fragment>)
    requires |pieces| == |cuts|
  {
    seq(|cuts|, i requires 0 <= i < |cuts| => Fragment4(Buffer(0, pieces[i]), header, cuts[i].offset))
  }

  ghost predicate Cut4(pieces: seq<seq<byte>>, packet: seq<byte>, header: nat, identification: uint16, cuts: seq<Cut>,
                       size: nat)
  {
    && Header4(packet, header) && Cutting(cuts, |packet| - header, size)
    && |pieces| == |cuts| && CarriesCuts4(pieces, packet, header, identification, cuts)
  }

  ghost function Message4(from: Sender, packet: seq<byte>, header: nat, identification: uint16, pieces: seq<seq<byte>>,
                          cuts: seq<Cut>): (m: Message)
    requires |pieces| == |cuts| && HEADER4 <= |packet|
  {
    Message(V4,
            Key4(from.source, from.transferKey, from.provideMode, packet[12..16], packet[16..20], packet[9],
                 identification),
            Parts4(pieces, header, cuts), |packet| - header)
  }

  lemma Parts4Placed(pieces: seq<seq<byte>>, packet: seq<byte>, header: nat, identification: uint16, cuts: seq<Cut>,
                     size: nat)
    requires Cut4(pieces, packet, header, identification, cuts, size)
    ensures Placed(Parts4(pieces, header, cuts), cuts, packet[header..])
  {
    var ps := Parts4(pieces, header, cuts);
    forall i | 0 <= i < |ps| ensures PlacedAt(ps[i], cuts[i], packet[header..]) {
      assert CarriesCut4(pieces[i], packet, header, identification, cuts[i]);
      SliceOfDrop(packet, header, cuts[i]);
    }
  }

  lemma SliceOfDrop(b: seq<byte>, header: nat, cut: Cut)
    requires header <= |b| && CutOf(cut, |b| - header)
    ensures b[header..][cut.offset..cut.end] == b[header + cut.offset..header + cut.end]
  {
  }

  lemma Part4WellFormed(piece: seq<byte>, packet: seq<byte>, header: nat, identification: uint16, cut: Cut)
    requires Header4(packet, header) && CutOf(cut, |packet| - header) && Aligned(cut, |packet| - header)
    requires CarriesCut4(piece, packet, header, identification, cut)
    ensures WellFormed(V4, Fragment4(Buffer(0, piece), header, cut.offset))
  {
  }

  lemma Message4Valid(from: Sender, pieces: seq<seq<byte>>, packet: seq<byte>, header: nat, identification: uint16,
                      cuts: seq<Cut>, size: nat)
    requires Cut4(pieces, packet, header, identification, cuts, size)
    ensures ValidMessage(Message4(from, packet, header, identification, pieces, cuts))
  {
    var ps := Parts4(pieces, header, cuts);
    Parts4Placed(pieces, packet, header, identification, cuts, size);
    PlacedTiles(ps, cuts, packet[header..], size);
    CuttingAligned(cuts, |packet| - header, size);
    forall i | 0 <= i < |ps| ensures WellFormed(V4, ps[i]) {
      assert Aligned(cuts[i], |packet| - header);
      Part4WellFormed(pieces[i], packet, header, identification, cuts[i]);
    }
  }

  /** Every piece, handed in by the sender, is the part of the message at its place. */
  lemma PiecesAreParts4(from: Sender, pieces: seq<seq<byte>>, packet: seq<byte>, header: nat, identification: uint16,
                        cuts: seq<Cut>, size: nat,
                        i: nat, input: Input)
    requires Cut4(pieces, packet, header, identification, cuts, size)
    requires i < |pieces| && SentBy(input, from) && input.buffer.data == pieces[i]
    ensures IsPart(Message4(from, packet, header, identification, pieces, cuts), i, input)
    ensures Parse4(input).arrival.cost == |pieces[i]|
  {
    CuttingAligned(cuts, |packet| - header, size);
    assert Aligned(cuts[i], |packet| - header) && CutOf(cuts[i], |packet| - header);
    Piece4Parses(packet, header, identification, cuts[i], input);
    assert cuts[i].end < |packet| - header <==> i < |cuts| - 1;
  }

  /** `q` is `packet` but for identification, flags, total length and header checksum. */
  ghost predicate Restored4(packet: seq<byte>, header: nat, identification: uint16, q: seq<byte>)
    requires Header4(packet, header)
  {
    && |q| == |packet| && U16(q, 2) == |q| && U16(q, 4) == identification && U16(q, 6) == 0
    && (forall j :: 0 <= j < header && Copied4(j) ==> q[j] == packet[j])
    && q[header..] == packet[header..]
    && q == HeaderSealed(q, header)
  }

  lemma Rewritten4Restores(p: seq<byte>, packet: seq<byte>, header: nat, identification: uint16)
    requires Header4(packet, header) && |p| == |packet| && U16(p, 4) == identification
    requires (forall j :: 0 <= j < header && Copied4(j) ==> p[j] == packet[j]) && p[header..] == packet[header..]
    ensures Restored4(packet, header, identification, Rewritten4(p, header))
  {
    var q := Overwrite(Overwrite(p, 2, Be16(|p| % 0x1_0000)), 6, Be16(0));
    var r := HeaderSealed(q, header);
    HeaderSealedForgets(q, r, header);
    RewrittenLength4(p, header);
    assert r[header..] == q[header..] == p[header..];
  }

  lemma First4Restores(f: Fragment, body: seq<byte>, packet: seq<byte>, header: nat, identification: uint16, cut: Cut)
    requires Header4(packet, header) && CutOf(cut, |packet| - header)
    requires CarriesCut4(f.buffer.data, packet, header, identification, cut) && body == packet[header..]
    ensures Restored4(packet, header, identification, Rewritten4(f.buffer.data[..header] + body, header))
  {
    var p := f.buffer.data[..header] + body;
    assert p[header..] == body;
    Rewritten4Restores(p, packet, header, identification);
  }

  lemma Whole4Restores(from: Sender, pieces: seq<seq<byte>>, packet: seq<byte>, header: nat, identification: uint16,
                       cuts: seq<Cut>, size: nat)
    requires Cut4(pieces, packet, header, identification, cuts, size)
    ensures Restored4(packet, header, identification,
                      Whole(V4, Message4(from, packet, header, identification, pieces, cuts).parts))
  {
    var ps := Parts4(pieces, header, cuts);
    Message4Valid(from, pieces, packet, header, identification, cuts, size);
    Parts4Placed(pieces, packet, header, identification, cuts, size);
    PlacedBody(ps, cuts, packet[header..], size);
    First4Restores(ps[0], Body(ps), packet, header, identification, cuts[0]);
    WholeIs(V4, ps);
  }

  lemma WholeIs(family: Family, ps: seq<Fragment>)
    requires ps != [] && WellFormed(family, ps[0])
    ensures var f := ps[0];
            var p := f.buffer.data[..f.prefix] + Body(ps);
            Whole(family, ps) == if family.V4? then Rewritten4(p, f.prefix) else Rewritten6(p, f.link, f.nextHeader)
  {
  }

  ghost predicate Completes(f: Feed, n: nat)
  {
    f.Part? && f.index !in Got(f.before) && |Got(f.before)| + 1 == n
  }

  /**
   * In every undisturbed feed of the pieces `fragmentIpv4Packet` makes, in any order and with
   * retransmissions, the last missing one gives the packet back.
   */
  lemma RoundTrip4(from: Sender, pieces: seq<seq<byte>>, packet: seq<byte>, header: nat, identification: uint16,
                   cuts: seq<Cut>, size: nat, f: Feed)
    requires Cut4(pieces, packet, header, identification, cuts, size)
    requires IsFeed(Message4(from, packet, header, identification, pieces, cuts), f) && Completes(f, |pieces|)
    ensures var r := ResultOf(f.before.store, f.event);
            r.Completed? && Restored4(packet, header, identification, r.packet)
  {
    var m := Message4(from, packet, header, identification, pieces, cuts);
    Message4Valid(from, pieces, packet, header, identification, cuts, size);
    FeedDelivers(m, f);
    Whole4Restores(from, pieces, packet, header, identification, cuts, size);
  }

  // ---- IPv6 ----

  ghost function Parts6(pieces: seq<seq<byte>>, packet: seq<byte>, cuts: seq<Cut>): (ps: seq<Fragment>)
    requires |pieces| == |cuts| && HEADER6 <= |packet|
  {
    seq(|cuts|, i requires 0 <= i < |cuts| => Fragment6(Buffer(0, pieces[i]), packet, cuts[i].offset))
  }

  ghost predicate Cut6(pieces: seq<seq<byte>>, packet: seq<byte>, end: nat, identification: uint32, cuts: seq<Cut>,
                       size: nat)
  {
    && Plain6(packet, end) && Cutting(cuts, end - HEADER6, size)
    && |pieces| == |cuts| && CarriesCuts6(pieces, packet, end, identification, cuts)
    && forall i :: 0 <= i < |cuts| ==> Carriable(cuts[i])
  }

  ghost function Message6(from: Sender, packet: seq<byte>, end: nat, identification: uint32, pieces: seq<seq<byte>>,
                          cuts: seq<Cut>): (m: Message)
    requires |pieces| == |cuts| && HEADER6 <= |packet|
  {
    Message(V6,
            Key6(from.source, from.transferKey, from.provideMode, packet[8..24], packet[24..40], identification),
            Parts6(pieces, packet, cuts), end - HEADER6)
  }

  lemma Parts6Placed(pieces: seq<seq<byte>>, packet: seq<byte>, end: nat, identification: uint32, cuts: seq<Cut>,
                     size: nat)
    requires Cut6(pieces, packet, end, identification, cuts, size)
    ensures Placed(Parts6(pieces, packet, cuts), cuts, packet[HEADER6..end])
  {
    var ps := Parts6(pieces, packet, cuts);
    forall i | 0 <= i < |ps| ensures PlacedAt(ps[i], cuts[i], packet[HEADER6..end]) {
      assert CarriesCut6(pieces[i], packet, end, identification, cuts[i]);
      SliceOfDrop(packet[..end], HEADER6, cuts[i]);
    }
  }

  lemma Message6Valid(from: Sender, pieces: seq<seq<byte>>, packet: seq<byte>, end: nat, identification: uint32,
                      cuts: seq<Cut>, size: nat)
    requires Cut6(pieces, packet, end, identification, cuts, size)
    ensures ValidMessage(Message6(from, packet, end, identification, pieces, cuts))
  {
    var ps := Parts6(pieces, packet, cuts);
    Parts6Placed(pieces, packet, end, identification, cuts, size);
    PlacedTiles(ps, cuts, packet[HEADER6..end], size);
    CuttingAligned(cuts, end - HEADER6, size);
    forall i | 0 <= i < |ps| ensures WellFormed(V6, ps[i]) {
      assert CarriesCut6(pieces[i], packet, end, identification, cuts[i]) && Aligned(cuts[i], end - HEADER6);
    }
  }

  lemma PiecesAreParts6(from: Sender, pieces: seq<seq<byte>>, packet: seq<byte>, end: nat, identification: uint32,
                        cuts: seq<Cut>, size: nat,
                        i: nat, input: Input)
    requires Cut6(pieces, packet, end, identification, cuts, size)
    requires i < |pieces| && SentBy(input, from) && input.buffer.data == pieces[i]
    ensures IsPart(Message6(from, packet, end, identification, pieces, cuts), i, input)
    ensures Parse6(input).arrival.cost == |pieces[i]|
  {
    CuttingAligned(cuts, end - HEADER6, size);
    assert Aligned(cuts[i], end - HEADER6) && CutOf(cuts[i], end - HEADER6) && Carriable(cuts[i]);
    Piece6Parses(packet, end, identification, cuts[i], input);
    assert cuts[i].end < end - HEADER6 <==> i < |cuts| - 1;
  }

  lemma Rewritten6Restores(p: seq<byte>, packet: seq<byte>, end: nat)
    requires Plain6(packet, end) && |p| == end
    requires (forall j :: 0 <= j < HEADER6 && !(4 <= j < 7) ==> p[j] == packet[j])
             && p[HEADER6..] == packet[HEADER6..end]
    ensures Rewritten6(p, 6, packet[6]) == packet[..end]
  {
    Be16Inverse(packet, 4);
    assert packet[4..6] == Be16(end - HEADER6);
    var r := Rewritten6(p, 6, packet[6]);
    assert r[4..6] == packet[4..6] && r[4] == r[4..6][0] && r[5] == r[4..6][1];
    assert r[HEADER6..] == p[HEADER6..];
    forall j | 0 <= j < end ensures r[j] == packet[j] {
      if HEADER6 <= j { assert p[j] == p[HEADER6..][j - HEADER6]; }
    }
  }

  lemma First6Restores(f: Fragment, body: seq<byte>, packet: seq<byte>, end: nat, identification: uint32, cut: Cut)
    requires Plain6(packet, end) && CutOf(cut, end - HEADER6)
    requires CarriesCut6(f.buffer.data, packet, end, identification, cut) && body == packet[HEADER6..end]
    ensures Rewritten6(f.buffer.data[..HEADER6] + body, 6, packet[6]) == packet[..end]
  {
    var p := f.buffer.data[..HEADER6] + body;
    assert p[HEADER6..] == body;
    Rewritten6Restores(p, packet, end);
  }

  lemma Whole6Restores(from: Sender, pieces: seq<seq<byte>>, packet: seq<byte>, end: nat, identification: uint32,
                       cuts: seq<Cut>, size: nat)
    requires Cut6(pieces, packet, end, identification, cuts, size)
    ensures Whole(V6, Message6(from, packet, end, identification, pieces, cuts).parts) == packet[..end]
  {
    var ps := Parts6(pieces, packet, cuts);
    Message6Valid(from, pieces, packet, end, identification, cuts, size);
    Parts6Placed(pieces, packet, end, identification, cuts, size);
    PlacedBody(ps, cuts, packet[HEADER6..end], size);
    First6Restores(ps[0], Body(ps), packet, end, identification, cuts[0]);
    WholeIs(V6, ps);
  }

  /** The IPv6 pieces give back the declared packet byte for byte. */
  lemma RoundTrip6(from: Sender, pieces: seq<seq<byte>>, packet: seq<byte>, end: nat, identification: uint32,
                   cuts: seq<Cut>, size: nat, f: Feed)
    requires Cut6(pieces, packet, end, identification, cuts, size)
    requires IsFeed(Message6(from, packet, end, identification, pieces, cuts), f) && Completes(f, |pieces|)
    ensures var r := ResultOf(f.before.store, f.event);
            r.Completed? && r.packet == packet[..end]
  {
    var m := Message6(from, packet, end, identification, pieces, cuts);
    Message6Valid(from, pieces, packet, end, identification, cuts, size);
    FeedDelivers(m, f);
    Whole6Restores(from, pieces, packet, end, identification, cuts, size);
  }
}
