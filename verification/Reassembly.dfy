/** The reassembly cache as a state machine: one step per packet, whatever the arrival order. */
module Reassembly {
  import opened Bytes
  import opened Transfer
  import opened Fragments
  import opened Datagrams
  import opened Assembly
  import opened Retention

  const TIMEOUT: int := 15_000_000_000
  const MAX_DATAGRAMS: nat := 16
  const MAX_RETAINED: int := 64 * 1024

  /** `returned` counts the buffers given back to the message pool so far. */
  datatype Store = Store(
    family: Family, maxRetainedBytes: int, maxRetainedBytesPerSource: int,
    datagrams: map<Key, Datagram>, returned: multiset<nat>)

  datatype Result = Unfragmented | Rejected | Held | Completed(packet: seq<byte>, fragments: seq<Buffer>)

  /** The byte budget: a setting of zero or less means the default. */
  function Limit(s: Store): (n: int)
  {
    if s.maxRetainedBytes <= 0 then MAX_RETAINED else s.maxRetainedBytes
  }

  ghost predicate Sound(family: Family, k: Key, d: Datagram)
  {
    Partial(family, d) && d.fragments != [] && (family.V4? <==> k.Key4?)
  }

  ghost predicate WithinBudget(s: Store)
  {
    && Total(AllBytes, s.datagrams) <= Limit(s)
    && (0 < s.maxRetainedBytesPerSource ==>
          forall source :: Total(BytesOf(source), s.datagrams) <= s.maxRetainedBytesPerSource)
  }

  ghost predicate AllSound(family: Family, m: map<Key, Datagram>)
  {
    forall k :: k in m ==> Sound(family, k, m[k])
  }

  ghost predicate Inv(s: Store)
  {
    && AllSound(s.family, s.datagrams)
    && |s.datagrams| <= MAX_DATAGRAMS
    && WithinBudget(s)
  }

  // ---- releasing datagrams ----

  function Return(s: Store, id: nat): (r: Store)
  {
    s.(returned := s.returned + multiset{id})
  }

  function Drop(s: Store, k: Key): (r: Store)
  {
    if k in s.datagrams then s.(datagrams := s.datagrams - {k}, returned := s.returned + Ids(s.datagrams[k].fragments))
    else s
  }

  function DropAll(s: Store, ks: seq<Key>): (r: Store)
    decreases |ks|
  {
    if ks == [] then s else DropAll(Drop(s, ks[0]), ks[1..])
  }

  predicate Stale(d: Datagram, now: int)
  {
    TIMEOUT <= now - d.createdAt
  }

  /** What a release loop makes room for. */
  datatype Need = Slot | Space(cost: nat) | Share(source: TransferPath, cost: nat)

  ghost predicate Short(s: Store, need: Need)
  {
    match need
    case Slot => MAX_DATAGRAMS <= |s.datagrams|
    case Space(cost) => Limit(s) < Total(AllBytes, s.datagrams) + cost
    case Share(source, cost) => 0 < s.maxRetainedBytesPerSource < Total(BytesOf(source), s.datagrams) + cost
  }

  predicate Eligible(need: Need, k: Key)
  {
    need.Share? ==> k.source == need.source
  }

  ghost predicate Oldest(s: Store, need: Need, k: Key)
  {
    && k in s.datagrams && Eligible(need, k)
    && forall j :: j in s.datagrams && Eligible(need, j) ==> s.datagrams[k].updatedAt <= s.datagrams[j].updatedAt
  }

  /** The `i`th release was called for and took an oldest datagram. */
  ghost predicate CalledFor(s: Store, need: Need, ks: seq<Key>, i: nat)
    requires i < |ks|
  {
    Short(DropAll(s, ks[..i]), need) && Oldest(DropAll(s, ks[..i]), need, ks[i])
  }

  ghost predicate AllCalledFor(s: Store, need: Need, ks: seq<Key>)
  {
    forall i :: 0 <= i < |ks| ==> CalledFor(s, need, ks, i)
  }

  /** The release loop is over: there is room, or nothing is left that it may release. */
  ghost predicate Settles(s: Store, need: Need)
  {
    Short(s, need) ==> forall k :: k in s.datagrams ==> !Eligible(need, k)
  }

  /** `ks` is what the loop released: an oldest datagram at a time, until there is room or nothing left. */
  ghost predicate Makes(s: Store, need: Need, ks: seq<Key>)
  {
    AllCalledFor(s, need, ks) && Settles(DropAll(s, ks), need)
  }

  /**
   * The datagrams one step released: expired ones, then those dropped for a slot, for space and for the source's
   * share.
   */
  datatype Releases = Releases(expired: seq<Key>, slot: seq<Key>, space: seq<Key>, share: seq<Key>)

  // ---- one step ----

  ghost function Swept(s: Store, ev: Releases): (r: Store)
  {
    DropAll(s, ev.expired).(maxRetainedBytes := Limit(s))
  }

  ghost function Evicted(s: Store, ev: Releases): (r: Store)
  {
    DropAll(DropAll(DropAll(Swept(s, ev), ev.slot), ev.space), ev.share)
  }

  ghost predicate Room(s: Store, a: Arrival)
  {
    !Short(s, Space(a.cost)) && !Short(s, Share(a.key.source, a.cost))
  }

  ghost predicate LegalEvictions(t: Store, a: Arrival, ev: Releases)
  {
    var u := DropAll(t, ev.slot);
    var v := DropAll(u, ev.space);
    && Makes(t, Slot, ev.slot)
    && if Limit(t) < a.cost then ev.space == [] && ev.share == []
       else Makes(u, Space(a.cost), ev.space) && Makes(v, Share(a.key.source, a.cost), ev.share)
  }

  ghost predicate Legal(s: Store, input: Input, ev: Releases)
  {
    var parsed := Parse(s.family, input);
    && (!parsed.NotFragment? ==>
          forall k :: k in ev.expired <==> k in s.datagrams && Stale(s.datagrams[k], input.now))
    && (parsed.Piece? && parsed.arrival.key !in Swept(s, ev).datagrams ==>
          LegalEvictions(Swept(s, ev), parsed.arrival, ev))
  }

  function Put(s: Store, k: Key, d: Datagram): (r: Store)
  {
    s.(datagrams := s.datagrams[k := d])
  }

  /** A datagram whose ends are both known is kept sorted. */
  function Settled(d: Datagram): (r: Datagram)
  {
    if d.firstPrefix != 0 && 0 <= d.final then d.(fragments := Sorted(d.fragments)) else d
  }

  function HandedBack(family: Family, fs: seq<Fragment>, identification: uint32): (bs: seq<Buffer>)
  {
    seq(|fs|, i requires 0 <= i < |fs| => Reissued(family, fs[i], identification))
  }

  function Finish(s: Store, d: Datagram, k: Key, input: Input): (r: (Result, Store))
  {
    var fs := Sorted(d.fragments);
    var t := s.(datagrams := s.datagrams - {k});
    if input.retainCompleted then (Completed(Whole(s.family, fs), HandedBack(s.family, fs, input.identification)), t)
    else (Completed(Whole(s.family, fs), []), t.(returned := t.returned + Ids(fs)))
  }

  /** Offering an admitted fragment to its datagram, new or not. */
  ghost function Take(s: Store, d: Datagram, a: Arrival, input: Input): (r: (Result, Store))
  {
    match Offer(s.family, d, a, input.now)
    case Reject => (Rejected, Return(Drop(Put(s, a.key, d), a.key), input.buffer.id))
    case Duplicate(e) => (Held, Return(Put(s, a.key, e), input.buffer.id))
    case Keep(e) =>
      if Complete(e) then Finish(s, e, a.key, input)
      else (Held, Put(s, a.key, Settled(e)))
  }

  ghost function StepPiece(s: Store, a: Arrival, input: Input, ev: Releases): (r: (Result, Store))
  {
    var t := Swept(s, ev);
    if a.key in t.datagrams then
      if Room(t, a) then Take(t, t.datagrams[a.key], a, input)
      else (Rejected, Return(Drop(t, a.key), input.buffer.id))
    else
      var u := Evicted(s, ev);
      if Room(u, a) then Take(u, Fresh(input.now), a, input)
      else (Rejected, Return(u, input.buffer.id))
  }

  ghost function Step(s: Store, input: Input, ev: Releases): (r: (Result, Store))
  {
    match Parse(s.family, input)
    case NotFragment => (Unfragmented, s)
    case Malformed(k) => (Rejected, Return(Drop(Swept(s, ev), k), input.buffer.id))
    case Piece(a) => StepPiece(s, a, input, ev)
  }
}
