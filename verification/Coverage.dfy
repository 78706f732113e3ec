/** Fragments as sets of byte positions: meeting, covering, and which fragment is the last. */
module Coverage {
  import opened Bytes
  import opened Fragments
  import opened Datagrams
  import opened Assembly
  import Ext = Ipv6Ext

  /** The fragment carries the byte at position `p` of the datagram. */
  predicate Bears(f: Fragment, p: int)
  {
    f.offset <= p < f.offset + |Payload(f)|
  }

  /** Some byte is carried by both. */
  ghost predicate Meets(f: Fragment, g: Fragment)
  {
    exists p :: Bears(f, p) && Bears(g, p)
  }

  lemma MeetsIsOverlap(f: Fragment, g: Fragment)
    requires f.start < |f.buffer.data| && g.start < |g.buffer.data|
    ensures Meets(f, g) <==> Overlap(f, g)
  {
    if Overlap(f, g) {
      var p := if f.offset <= g.offset then g.offset else f.offset;
      assert Bears(f, p) && Bears(g, p);
    }
  }

  /** The more-fragments flag, as it stands in the fragment's own header. */
  predicate HasMore(family: Family, f: Fragment)
  {
    if family.V4? then 7 <= |f.buffer.data| && f.buffer.data[6] as int / 32 % 2 == 1
    else f.prefix + 4 <= |f.buffer.data| && f.buffer.data[f.prefix + 3] as int % 2 == 1
  }

  lemma FlagBit(high: byte, low: byte)
    ensures (high as int * 0x100 + low as int) / 0x2000 % 2 == high as int / 32 % 2
    ensures (high as int * 0x100 + low as int) % 2 == low as int % 2
  {
    var h, l := high as int, low as int;
    assert (h * 0x100 + l) / 0x2000 == h / 32;
  }

  /** The parsers read that flag. */
  lemma MoreIsFlag(family: Family, input: Input)
    requires Parse(family, input).Piece?
    ensures var a := Parse(family, input).arrival; a.more <==> HasMore(family, a.fragment)
  {
    var p := input.buffer.data;
    ParseWellFormed(family, input);
    if family.V4? {
      FlagBit(p[6], p[7]);
    } else {
      Ext.FragmentIsLaidOut(p);
      Ext.WalkBounds(p);
      var f := Ext.WalkOf(p).value.fragment.value;
      FlagBit(p[f.headerOffset + 2], p[f.headerOffset + 3]);
    }
  }

  // ---- covering ----

  /** Every byte below `end` is carried by some fragment. */
  ghost predicate CoversUpTo(fs: seq<Fragment>, end: int)
  {
    forall p :: 0 <= p < end ==> Borne(fs, p)
  }

  ghost predicate Borne(fs: seq<Fragment>, p: int)
  {
    exists i :: 0 <= i < |fs| && Bears(fs[i], p)
  }

  lemma BorneSame(fs: seq<Fragment>, gs: seq<Fragment>, p: int)
    requires multiset(fs) == multiset(gs) && Borne(fs, p)
    ensures Borne(gs, p)
  {
    var i :| 0 <= i < |fs| && Bears(fs[i], p);
    var j := SameMembers(fs, gs, i);
  }

  lemma CoversSame(fs: seq<Fragment>, gs: seq<Fragment>, end: int)
    requires multiset(fs) == multiset(gs)
    ensures CoversUpTo(fs, end) <==> CoversUpTo(gs, end)
  {
    forall p ensures Borne(fs, p) <==> Borne(gs, p) {
      if Borne(fs, p) { BorneSame(fs, gs, p); }
      if Borne(gs, p) { BorneSame(gs, fs, p); }
    }
  }

  lemma {:induction false} TilingBears(fs: seq<Fragment>, n: nat, p: int)
    requires n < |fs| && AllLengths(fs) && fs[0].offset == 0
    requires forall i :: 0 < i <= n ==> fs[i].offset == End(fs[i - 1])
    requires 0 <= p < End(fs[n])
    ensures Borne(fs, p)
  {
    if fs[n].offset <= p {
      assert Bears(fs[n], p);
    } else {
      TilingBears(fs, n - 1, p);
    }
  }

  /** In order and apart, what comes next starts where the last one ends. */
  lemma NextStarts(fs: seq<Fragment>, end: int, i: nat)
    requires Ascending(fs) && Separate(fs) && AllLengths(fs) && CoversUpTo(fs, end)
    requires 0 < i < |fs| && forall j :: 0 <= j < |fs| ==> End(fs[j]) <= end
    ensures fs[i].offset == End(fs[i - 1])
  {
    var p := End(fs[i - 1]);
    assert fs[i - 1].offset <= fs[i].offset && !Overlap(fs[i - 1], fs[i]);
    assert Borne(fs, p);
    var j :| 0 <= j < |fs| && Bears(fs[j], p);
    if i < j { assert fs[i].offset <= fs[j].offset; }
  }

  lemma FirstStarts(fs: seq<Fragment>, end: int)
    requires Ascending(fs) && CoversUpTo(fs, end) && 0 < end
    ensures fs != [] && fs[0].offset == 0
  {
    assert Borne(fs, 0);
    var j :| 0 <= j < |fs| && Bears(fs[j], 0);
    assert fs[0].offset <= fs[j].offset;
  }

  /** Fragments in order and apart tile the datagram exactly when they cover it. */
  lemma TilesExactly(fs: seq<Fragment>, end: int)
    requires Ascending(fs) && Separate(fs) && AllLengths(fs) && 0 < end
    requires (forall j :: 0 <= j < |fs| ==> End(fs[j]) <= end) && exists j :: 0 <= j < |fs| && End(fs[j]) == end
    ensures Tiles(fs, end) <==> CoversUpTo(fs, end)
  {
    if Tiles(fs, end) {
      forall p | 0 <= p < end ensures Borne(fs, p) { TilingBears(fs, |fs| - 1, p); }
    }
    if CoversUpTo(fs, end) {
      FirstStarts(fs, end);
      forall i | 0 < i < |fs| ensures fs[i].offset == End(fs[i - 1]) { NextStarts(fs, end, i); }
      var j :| 0 <= j < |fs| && End(fs[j]) == end;
      if j < |fs| - 1 { assert fs[j].offset <= fs[|fs| - 1].offset && !Overlap(fs[j], fs[|fs| - 1]); }
    }
  }
}
