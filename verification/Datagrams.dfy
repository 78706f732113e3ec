/** A partly received datagram: taking a fragment, recognising completion, writing the whole packet. */
module Datagrams {
  import opened Bytes
  import opened Fragments

  datatype Datagram = Datagram(
    createdAt: int, updatedAt: int, fragments: seq<Fragment>,
    firstPrefix: nat, firstLink: nat, firstNextHeader: byte, final: int)

  function Fresh(now: int): (d: Datagram)
  {
    Datagram(now, now, [], 0, 0, 0, -1)
  }

  // ---- overlap ----

  predicate SameRange(f: Fragment, g: Fragment) { f.offset == g.offset && End(f) == End(g) }

  predicate Overlap(f: Fragment, g: Fragment) { f.offset < End(g) && g.offset < End(f) }

  datatype Scan = Clear | Repeat | Conflict

  /** The first retained fragment that meets `f` decides. */
  function ScanFrom(fs: seq<Fragment>, f: Fragment, i: nat): (r: Scan)
    decreases |fs| - i
  {
    if |fs| <= i then Clear
    else if SameRange(f, fs[i]) then if Payload(f) == Payload(fs[i]) then Repeat else Conflict
    else if Overlap(f, fs[i]) then Conflict
    else ScanFrom(fs, f, i + 1)
  }

  ghost predicate Separate(fs: seq<Fragment>)
  {
    forall i, j :: 0 <= i < j < |fs| ==> !Overlap(fs[i], fs[j])
  }

  /** A scan is clear exactly when nothing retained overlaps. */
  lemma {:induction false} ScanClear(fs: seq<Fragment>, f: Fragment, i: nat)
    requires 0 < Length(f) && i <= |fs|
    ensures ScanFrom(fs, f, i).Clear? <==> forall j :: i <= j < |fs| ==> !Overlap(f, fs[j])
    decreases |fs| - i
  {
    if i < |fs| { ScanClear(fs, f, i + 1); }
  }

  // ---- taking a fragment ----

  datatype Verdict = Reject | Duplicate(same: Datagram) | Keep(datagram: Datagram)

  predicate Outlies(fs: seq<Fragment>, end: int)
  {
    exists i :: 0 <= i < |fs| && end < End(fs[i])
  }

  function With(d: Datagram, a: Arrival, now: int): (r: Datagram)
  {
    var f := a.fragment;
    Datagram(d.createdAt, now, d.fragments + [f],
             if f.offset == 0 then f.prefix else d.firstPrefix,
             if f.offset == 0 then f.link else d.firstLink,
             if f.offset == 0 then f.nextHeader else d.firstNextHeader,
             if a.more then d.final else End(f))
  }

  predicate WrongEnd(d: Datagram, a: Arrival)
  {
    if a.more then 0 <= d.final <= End(a.fragment)
    else (0 <= d.final && d.final != End(a.fragment)) || Outlies(d.fragments, End(a.fragment))
  }

  predicate SecondHeader(d: Datagram, f: Fragment)
  {
    f.offset == 0 && d.firstPrefix != 0 && d.firstPrefix != f.prefix
  }

  predicate TooLong(family: Family, d: Datagram)
  {
    d.firstPrefix != 0 && 0 <= d.final && !Fits(family, d.firstPrefix, d.final)
  }

  function Offer(family: Family, d: Datagram, a: Arrival, now: int): (r: Verdict)
  {
    match ScanFrom(d.fragments, a.fragment, 0)
    case Repeat => Duplicate(d.(updatedAt := now))
    case Conflict => Reject
    case Clear =>
      if MAX_FRAGMENTS <= |d.fragments| || WrongEnd(d, a) || SecondHeader(d, a.fragment)
         || TooLong(family, With(d, a, now)) then Reject
      else Keep(With(d, a, now))
  }

  /** What every step keeps of a datagram that may still be empty. */
  ghost predicate Partial(family: Family, d: Datagram)
  {
    && |d.fragments| <= MAX_FRAGMENTS
    && (forall i :: 0 <= i < |d.fragments| ==> WellFormed(family, d.fragments[i]))
    && Separate(d.fragments)
    && -1 <= d.final
    && (0 <= d.final ==> forall i :: 0 <= i < |d.fragments| ==> End(d.fragments[i]) <= d.final)
    && (d.firstPrefix != 0 ==> exists i :: 0 <= i < |d.fragments| && d.fragments[i].offset == 0)
    && (forall i :: 0 <= i < |d.fragments| && d.fragments[i].offset == 0 ==> FirstIs(d, d.fragments[i]))
    && !TooLong(family, d)
  }

  predicate FirstIs(d: Datagram, f: Fragment)
  {
    d.firstPrefix == f.prefix && d.firstLink == f.link && d.firstNextHeader == f.nextHeader
  }

  /** The check for a second, different header size never fires: overlap catches it first. */
  lemma SecondHeaderUnreachable(family: Family, d: Datagram, a: Arrival)
    requires Partial(family, d) && WellFormed(family, a.fragment)
    ensures ScanFrom(d.fragments, a.fragment, 0).Clear? ==> !SecondHeader(d, a.fragment)
  {
    ScanClear(d.fragments, a.fragment, 0);
    if d.firstPrefix != 0 && a.fragment.offset == 0 {
      var i :| 0 <= i < |d.fragments| && d.fragments[i].offset == 0;
      assert WellFormed(family, d.fragments[i]);
      assert Overlap(a.fragment, d.fragments[i]);
    }
  }

  lemma OfferKeepsPartial(family: Family, d: Datagram, a: Arrival, now: int)
    requires Partial(family, d) && WellFormedArrival(family, a)
    ensures var r := Offer(family, d, a, now);
            && (r.Keep? ==> r.datagram == With(d, a, now) && Partial(family, r.datagram))
            && (r.Duplicate? ==> Partial(family, r.same) && d.fragments != [])
            && (d.fragments == [] && d.final == -1 && d.firstPrefix == 0 ==> r.Keep?)
  {
    var f := a.fragment;
    ScanClear(d.fragments, f, 0);
    SecondHeaderUnreachable(family, d, a);
    var r := Offer(family, d, a, now);
    if r.Keep? {
      WithKeepsPartial(family, d, a, now);
    }
  }

  lemma WithKeepsPartial(family: Family, d: Datagram, a: Arrival, now: int)
    requires Partial(family, d) && WellFormedArrival(family, a) && |d.fragments| < MAX_FRAGMENTS
    requires forall j :: 0 <= j < |d.fragments| ==> !Overlap(a.fragment, d.fragments[j])
    requires !WrongEnd(d, a) && !TooLong(family, With(d, a, now))
    ensures Partial(family, With(d, a, now))
  {
    var e := With(d, a, now);
    var n := |d.fragments|;
    assert e.fragments[n] == a.fragment;
    forall i | 0 <= i < |e.fragments| && e.fragments[i].offset == 0
      ensures FirstIs(e, e.fragments[i])
    {
      if i < n {
        assert WellFormed(family, d.fragments[i]) && !Overlap(a.fragment, d.fragments[i]);
      }
    }
    if e.firstPrefix != 0 && a.fragment.offset != 0 {
      var i :| 0 <= i < |d.fragments| && d.fragments[i].offset == 0;
      assert e.fragments[i].offset == 0;
    }
    if 0 <= e.final {
      forall i | 0 <= i < |e.fragments| ensures End(e.fragments[i]) <= e.final {
        if i < n { assert e.fragments[i] == d.fragments[i]; }
      }
    }
  }

  // ---- sorting by offset ----

  function Position(fs: seq<Fragment>, offset: int, i: nat): (k: nat)
    requires i <= |fs|
    ensures i <= k <= |fs|
    ensures forall j :: i <= j < k ==> fs[j].offset <= offset
    ensures k < |fs| ==> offset < fs[k].offset
    decreases |fs| - i
  {
    if i == |fs| || offset < fs[i].offset then i else Position(fs, offset, i + 1)
  }

  function Insert(fs: seq<Fragment>, f: Fragment): (r: seq<Fragment>)
  {
    var k := Position(fs, f.offset, 0);
    fs[..k] + [f] + fs[k..]
  }

  /** The fragments in ascending order of offset, as the library sort leaves them. */
  function Sorted(fs: seq<Fragment>): (r: seq<Fragment>)
    ensures |r| == |fs|
  {
    if fs == [] then [] else Insert(Sorted(fs[..|fs| - 1]), fs[|fs| - 1])
  }

  ghost predicate Ascending(fs: seq<Fragment>)
  {
    forall i, j :: 0 <= i < j < |fs| ==> fs[i].offset <= fs[j].offset
  }

  lemma InsertMultiset(fs: seq<Fragment>, f: Fragment)
    ensures multiset(Insert(fs, f)) == multiset(fs) + multiset{f}
  {
    var k := Position(fs, f.offset, 0);
    assert fs == fs[..k] + fs[k..];
  }

  lemma InsertAscending(fs: seq<Fragment>, f: Fragment)
    requires Ascending(fs)
    ensures Ascending(Insert(fs, f))
  {
    var k, r := Position(fs, f.offset, 0), Insert(fs, f);
    forall i, j | 0 <= i < j < |r| ensures r[i].offset <= r[j].offset {
      if j < k { assert r[i] == fs[i] && r[j] == fs[j]; }
      else if j == k { assert r[i] == fs[i]; }
      else if i < k { assert r[i] == fs[i] && r[j] == fs[j - 1]; }
      else if i == k { assert r[j] == fs[j - 1] && (k < j - 1 ==> fs[k].offset <= fs[j - 1].offset); }
      else { assert r[i] == fs[i - 1] && r[j] == fs[j - 1]; }
    }
  }

  lemma InsertSeparate(fs: seq<Fragment>, f: Fragment)
    requires Separate(fs) && forall i :: 0 <= i < |fs| ==> !Overlap(f, fs[i])
    ensures Separate(Insert(fs, f))
  {
    var k, r := Position(fs, f.offset, 0), Insert(fs, f);
    forall i, j | 0 <= i < j < |r| ensures !Overlap(r[i], r[j]) {
      var x, y := if i < k then i else i - 1, if j < k then j else j - 1;
      assert i != k ==> r[i] == fs[x];
      assert j != k ==> r[j] == fs[y];
    }
  }

  lemma {:induction false} SortedFacts(fs: seq<Fragment>)
    ensures multiset(Sorted(fs)) == multiset(fs)
    ensures Ascending(Sorted(fs))
    ensures Separate(fs) ==> Separate(Sorted(fs))
  {
    if fs != [] {
      var n := |fs| - 1;
      var gs := Sorted(fs[..n]);
      SortedFacts(fs[..n]);
      InsertMultiset(gs, fs[n]);
      InsertAscending(gs, fs[n]);
      assert fs == fs[..n] + [fs[n]];
      if Separate(fs) {
        forall i | 0 <= i < n ensures !Overlap(fs[n], gs[i]) {
          var j := SameMembers(gs, fs[..n], i);
        }
        InsertSeparate(gs, fs[n]);
      }
    }
  }

  lemma SameMembers(fs: seq<Fragment>, gs: seq<Fragment>, i: nat) returns (j: nat)
    requires multiset(fs) == multiset(gs) && i < |fs|
    ensures j < |gs| && gs[j] == fs[i]
  {
    assert fs[i] in multiset(gs);
    j :| 0 <= j < |gs| && gs[j] == fs[i];
  }
}
