/**
 * "Exact retransmissions are harmless" fails when the budget is tight: the budget is checked before
 * the fragment is recognised, and a refused fragment takes its whole datagram with it.
 */
module Retransmission {
  import opened Bytes
  import opened Transfer
  import opened Fragments
  import opened Reassembly
  import opened ReassemblyInvariants
  import opened ReassemblyRuns
  import opened PieceParsing
  import opened Feeds
  import opened SoloFeeds

  /** A first fragment of 36 bytes and a last one of 28, of one datagram of 24 payload bytes. */
  predicate TwoFragments(first: seq<byte>, last: seq<byte>)
  {
    && |first| == 36 && first[0] == 0x45 && U16(first, 2) == 36 && U16(first, 6) == 0x2000
    && |last| == 28 && last[0] == 0x45 && U16(last, 2) == 28 && U16(last, 6) == 2
  }

  lemma ThereAreTwoFragments()
    ensures TwoFragments([0x45, 0, 0, 36, 0, 7, 0x20, 0, 64, 17, 0, 0, 10, 0, 0, 1, 10, 0, 0, 2,
                          0, 0, 0, 0, 0, 0, 0, 0, 0, 0, 0, 0, 0, 0, 0, 0],
                         [0x45, 0, 0, 28, 0, 7, 0, 2, 64, 17, 0, 0, 10, 0, 0, 1, 10, 0, 0, 2,
                          0, 0, 0, 0, 0, 0, 0, 0])
  {
  }

  function InputOf(first: seq<byte>): (input: Input)
  {
    Input(NO_PATH, 0, 0, Buffer(1, first), 0, false, 0)
  }

  function MessageOf(first: seq<byte>, last: seq<byte>): (m: Message)
    requires TwoFragments(first, last)
  {
    Message(V4, KeyOf4(InputOf(first)), [Fragment4(Buffer(0, first), 20, 0), Fragment4(Buffer(0, last), 20, 16)], 24)
  }

  /** An empty cache whose budget holds both fragments exactly. */
  ghost function TightStore(): (s: Store) { Store(V4, 64, 0, map[], multiset{}) }

  function Arrive(first: seq<byte>): (e: Event) { Event(InputOf(first), Releases([], [], [], [])) }

  /** The first fragment has arrived. */
  ghost function FirstHeld(first: seq<byte>): (f: Feed)
  {
    Part(Begin(TightStore()), 0, Arrive(first), Step(TightStore(), InputOf(first), Releases([], [], [], [])).1)
  }

  lemma MessageValid(first: seq<byte>, last: seq<byte>)
    requires TwoFragments(first, last)
    ensures ValidMessage(MessageOf(first, last))
    ensures Size(MessageOf(first, last).parts, 2) == 64
  {
    var ps := MessageOf(first, last).parts;
    assert Size(ps, 1) == 36;
    assert WellFormed(V4, ps[0]) && WellFormed(V4, ps[1]);
  }

  lemma FirstIsPart(first: seq<byte>, last: seq<byte>)
    requires TwoFragments(first, last)
    ensures IsPart(MessageOf(first, last), 0, InputOf(first))
    ensures Parse4(InputOf(first)).arrival.cost == 36
  {
    ParseFields4(InputOf(first), 20, 0, true);
  }

  lemma FirstLegal(first: seq<byte>, last: seq<byte>)
    requires TwoFragments(first, last)
    ensures Legal(TightStore(), InputOf(first), Releases([], [], [], []))
  {
    FirstIsPart(first, last);
  }

  lemma FirstIsHeld(first: seq<byte>, last: seq<byte>)
    requires TwoFragments(first, last)
    ensures IsSolo(MessageOf(first, last), FirstHeld(first)) && Got(FirstHeld(first)) == [0]
    ensures ResultOf(TightStore(), Arrive(first)) == Held
  {
    var m := MessageOf(first, last);
    MessageValid(first, last);
    FirstIsPart(first, last);
    FirstLegal(first, last);
    StartInv(TightStore());
    assert IsSolo(m, Begin(TightStore()));
    ChargedNone(m.parts, 2);
    SoloExact(m, Begin(TightStore()), 0, Arrive(first));
  }

  lemma AgainLegal(m: Message, s: Store, first: seq<byte>)
    requires s.family == V4 && m.key in s.datagrams && s.datagrams[m.key].createdAt == 0 && Alone(m, s)
    requires IsPart(m, 0, InputOf(first)) && m.family == V4
    ensures Legal(s, InputOf(first), Releases([], [], [], []))
  {
  }

  lemma FirstStore(first: seq<byte>, last: seq<byte>)
    requires TwoFragments(first, last)
    ensures var m, s := MessageOf(first, last), FirstHeld(first).store;
            && s.family == V4 && m.key in s.datagrams && s.datagrams[m.key].createdAt == 0 && Alone(m, s)
            && SameSettings(TightStore(), s)
  {
    var m, f := MessageOf(first, last), FirstHeld(first);
    MessageValid(first, last);
    FirstIsHeld(first, last);
    SoloIsFeed(m, f);
    FeedTracks(m, f);
    SteppedInv(TightStore(), Arrive(first), f.store);
  }

  /** Both fragments fit the budget, the first is held, and its exact retransmission is refused. */
  lemma RetransmissionRefused(first: seq<byte>, last: seq<byte>)
    requires TwoFragments(first, last)
    ensures Budgeted(TightStore(), Size(MessageOf(first, last).parts, 2))
    ensures ResultOf(TightStore(), Arrive(first)) == Held
    ensures ResultOf(FirstHeld(first).store, Arrive(first)) == Rejected
  {
    var m, f := MessageOf(first, last), FirstHeld(first);
    MessageValid(first, last);
    FirstIsPart(first, last);
    FirstIsHeld(first, last);
    FirstStore(first, last);
    AgainLegal(m, f.store, first);
    FirstCharged(m);
    SoloExact(m, f, 0, Arrive(first));
  }

  lemma FirstCharged(m: Message)
    requires |m.parts| == 2
    ensures Charged(m.parts, [0], 2) == |m.parts[0].buffer.data|
  {
    assert Charged(m.parts, [0], 1) == |m.parts[0].buffer.data| + Charged(m.parts, [0], 0);
  }
}
