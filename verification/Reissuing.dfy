/** Fragments handed back on completion are the same pieces under another identification. */
module Reissuing {
  import opened Bytes
  import opened Options
  import opened Fragments
  import opened Assembly
  import opened FragmentParsing
  import Ext = Ipv6Ext

  /** The same fragment in a new buffer. */
  function Moved(f: Fragment, b: Buffer): (g: Fragment) { f.(buffer := b) }

  predicate SameSender(a: Input, b: Input)
  {
    a.source == b.source && a.transferKey == b.transferKey && a.provideMode == b.provideMode
  }

  lemma ReissuedData(family: Family, input: Input, a: Arrival, identification: uint32)
    requires Parse(family, input) == Piece(a)
    ensures WellFormed(family, a.fragment)
    ensures Reissued(family, a.fragment, identification).data ==
              if family.V4? then Reissued4(a.fragment.buffer.data, identification % 0x1_0000)
              else Reissued6(a.fragment.buffer.data, a.fragment.prefix, identification)
  {
    ParseWellFormed(family, input);
  }

  // ---- IPv4 ----

  lemma DontFragmentBit(high: byte, low: byte)
    requires high < 128
    ensures var field := WithoutDontFragment(high as int * 0x100 + low as int);
            && field < 0x1_0000 && field / 0x100 == high as int - high as int / 64 * 64 && field % 0x100 == low as int
  {
    var h, l := high as int, low as int;
    assert (h * 0x100 + l) / 0x4000 == h / 64;
  }

  /** What the reissued header keeps of the old one. */
  lemma Reissued4Bytes(p: seq<byte>, identification: uint16)
    requires 20 <= |p| && HEADER4 <= p[0] as int % 16 * 4 <= |p| && p[6] < 128
    ensures var q := Reissued4(p, identification);
            && |q| == |p| && U16(q, 4) == identification && q[7] == p[7]
            && q[6] as int == p[6] as int - p[6] as int / 64 * 64
            && forall i :: 0 <= i < |p| && !(4 <= i < 7) && i != 10 && i != 11 ==> q[i] == p[i]
  {
    DontFragmentBit(p[6], p[7]);
  }

  /** Everything but identification, don't-fragment bit and checksum is as before. */
  predicate Kept4(p: seq<byte>, q: seq<byte>)
  {
    && 20 <= |p| == |q| && q[6] as int == p[6] as int - p[6] as int / 64 * 64 && q[7] == p[7]
    && forall i :: 0 <= i < |p| && !(4 <= i < 7) && i != 10 && i != 11 ==> q[i] == p[i]
  }

  lemma KeptIsSound4(p: seq<byte>, q: seq<byte>)
    requires Kept4(p, q) && IsPiece4(p) && IsSound4(p)
    ensures IsPiece4(q) && IsSound4(q) && Offset4(q) == Offset4(p) && (More4(q) <==> More4(p))
    ensures U16(q, 2) == U16(p, 2) && q[0] == p[0]
  {
    var h := p[6] as int;
    assert (h - h / 64 * 64) % 32 == h % 32 && (h - h / 64 * 64) / 32 % 2 == h / 32 % 2;
  }

  /** What the parser made of a piece is what it makes of the piece cut to its own length. */
  lemma CutIsSound4(p: seq<byte>)
    requires IsPiece4(p) && IsSound4(p)
    ensures var t := p[..U16(p, 2)];
            IsPiece4(t) && IsSound4(t) && Offset4(t) == Offset4(p) && (More4(t) <==> More4(p)) && U16(t, 2) == |t|
  {
  }

  /** A piece of exactly its own length. */
  predicate IsTrim4(p: seq<byte>)
  {
    IsPiece4(p) && IsSound4(p) && U16(p, 2) == |p|
  }

  function Trimmed4(b: Buffer): (f: Fragment)
    requires IsTrim4(b.data)
  {
    var header := b.data[0] as int % 16 * 4;
    Fragment(b, header, header, Offset4(b.data), 0, 0)
  }

  lemma TrimParses4(input: Input)
    requires IsTrim4(input.buffer.data)
    ensures Parse4(input) == Piece(Arrival(Identity4(input), Trimmed4(input.buffer), More4(input.buffer.data),
                                           |input.buffer.data|))
  {
    Reads4(input);
    assert input.buffer.data[..|input.buffer.data|] == input.buffer.data;
  }

  lemma PieceIsTrim4(input: Input, a: Arrival)
    requires Parse4(input) == Piece(a)
    ensures IsTrim4(a.fragment.buffer.data) && a.fragment == Trimmed4(a.fragment.buffer)
    ensures a.key == Identity4(input) && a.fragment.buffer.data <= input.buffer.data
    ensures a.more <==> More4(a.fragment.buffer.data)
  {
    Reads4(input);
    CutIsSound4(input.buffer.data);
  }

  lemma KeyKept4(input: Input, again: Input, p: seq<byte>, identification: uint16)
    requires SameSender(input, again) && p <= input.buffer.data && Kept4(p, again.buffer.data)
    requires U16(again.buffer.data, 4) == identification
    ensures Identity4(again) == Identity4(input).(identification := identification)
  {
    var q, r := again.buffer.data, input.buffer.data;
    assert q[12..16] == p[12..16] == r[12..16] && q[16..20] == p[16..20] == r[16..20] && q[9] == p[9] == r[9];
  }

  lemma TrimKept4(f: Fragment, b: Buffer)
    requires IsTrim4(f.buffer.data) && f == Trimmed4(f.buffer) && Kept4(f.buffer.data, b.data)
    ensures IsTrim4(b.data) && Trimmed4(b) == Moved(f, b) && (More4(b.data) <==> More4(f.buffer.data))
    ensures Payload(Moved(f, b)) == Payload(f)
  {
    KeptIsSound4(f.buffer.data, b.data);
    assert b.data[f.start..] == f.buffer.data[f.start..];
  }

  lemma Reissued4Parses(input: Input, a: Arrival, identification: uint32, again: Input)
    requires Parse4(input) == Piece(a) && SameSender(input, again)
    requires again.buffer == Reissued(V4, a.fragment, identification)
    ensures Parse4(again) == Piece(Arrival(a.key.(identification := identification % 0x1_0000),
                                           Moved(a.fragment, again.buffer), a.more, |a.fragment.buffer.data|))
    ensures Payload(Moved(a.fragment, again.buffer)) == Payload(a.fragment)
  {
    var f, b, id := a.fragment, again.buffer, identification % 0x1_0000;
    assert IsTrim4(f.buffer.data) && f == Trimmed4(f.buffer) && a.key == Identity4(input)
                 && f.buffer.data <= input.buffer.data && (a.more <==> More4(f.buffer.data)) by {
      PieceIsTrim4(input, a);
    }
    assert Kept4(f.buffer.data, b.data) && U16(b.data, 4) == id by {
      PieceIsTrim4(input, a);
      ReissuedData(V4, input, a, identification);
      Reissued4Bytes(f.buffer.data, id);
    }
    TrimKept4(f, b);
    KeyKept4(input, again, f.buffer.data, id);
    TrimParses4(again);
  }

  // ---- IPv6 ----

  /** Up to `end` the packets differ at most in the identification of a Fragment header at `at`. */
  predicate Kept6(p: seq<byte>, q: seq<byte>, end: nat, at: nat)
  {
    && end <= |p| && end <= |q| && at + 8 <= end
    && forall i :: 0 <= i < end && !(at + 4 <= i < at + 8) ==> q[i] == p[i]
  }

  lemma {:induction false} FragmentAhead(p: seq<byte>, end: nat, c: Ext.Cursor, left: nat, w: Ext.Walk)
    requires Ext.CursorInBounds(p, end, c) && w.fragmented && w.fragment.Some?
    requires Ext.Iterate(Ext.Stepper(p, end), Ext.Progress(c, left)) == Some(w)
    ensures c.fragment.None? && c.offset <= w.fragment.value.headerOffset
    decreases left
  {
    var step := Ext.StepOf(p, end, c);
    if step.Go? {
      Ext.StepInBounds(p, end, c);
      FragmentAhead(p, end, step.cursor, left - 1, w);
    }
  }

  function Renamed(w: Ext.Walk, identification: uint32): (r: Ext.Walk)
    requires w.fragment.Some?
  {
    w.(fragment := Some(w.fragment.value.(identification := identification)))
  }

  lemma StopKept(p: seq<byte>, q: seq<byte>, end: nat, at: nat, c: Ext.Cursor, w: Ext.Walk)
    requires Kept6(p, q, end, at) && Ext.CursorInBounds(p, end, c) && w.fragmented && w.fragment.Some?
    requires Ext.StepOf(p, end, c) == Ext.Stop(Some(w)) && w.fragment.value.headerOffset == at
    ensures Ext.StepOf(q, end, c) == Ext.Stop(Some(Renamed(w, U32(q, at + 4))))
  {
    assert q[at] == p[at] && q[at + 2] == p[at + 2] && q[at + 3] == p[at + 3];
  }

  lemma GoKept(p: seq<byte>, q: seq<byte>, end: nat, at: nat, c: Ext.Cursor, next: Ext.Cursor)
    requires Kept6(p, q, end, at) && Ext.CursorInBounds(p, end, c) && next.fragment.None? && next.offset <= at
    requires Ext.StepOf(p, end, c) == Ext.Go(next)
    ensures Ext.StepOf(q, end, c) == Ext.Go(next)
  {
    assert q[c.offset] == p[c.offset] && q[c.offset + 1] == p[c.offset + 1];
  }

  lemma {:induction false} WalkKept(p: seq<byte>, q: seq<byte>, end: nat, at: nat, c: Ext.Cursor, left: nat,
                                    w: Ext.Walk)
    requires Kept6(p, q, end, at) && Ext.CursorInBounds(p, end, c) && w.fragmented && w.fragment.Some?
    requires Ext.Iterate(Ext.Stepper(p, end), Ext.Progress(c, left)) == Some(w)
    requires w.fragment.value.headerOffset == at
    ensures Ext.Iterate(Ext.Stepper(q, end), Ext.Progress(c, left)) == Some(Renamed(w, U32(q, at + 4)))
    decreases left
  {
    var step := Ext.StepOf(p, end, c);
    if step.Stop? {
      StopKept(p, q, end, at, c, w);
    } else {
      Ext.StepInBounds(p, end, c);
      FragmentAhead(p, end, step.cursor, left - 1, w);
      GoKept(p, q, end, at, c, step.cursor);
      WalkKept(p, q, end, at, step.cursor, left - 1, w);
    }
  }

  lemma FragmentKept(p: seq<byte>, q: seq<byte>, at: nat, w: Ext.Walk)
    requires Ext.IsFragmentPacket(p) && Ext.WalkOf(p) == Some(w) && w.fragment.Some?
    requires w.fragment.value.headerOffset == at && at >= 40 && Kept6(p, q, Ext.PayloadEnd(p), at)
    ensures Ext.PayloadEnd(q) == Ext.PayloadEnd(p) && Ext.IsFragmentPacket(q)
    ensures Ext.WalkOf(q) == Some(Renamed(w, U32(q, at + 4)))
  {
    assert q[0] == p[0] && q[4] == p[4] && q[5] == p[5] && q[6] == p[6];
    WalkKept(p, q, Ext.PayloadEnd(p), at, Ext.Start(p), Ext.MAX_HEADERS, w);
  }

  lemma Reissued6Kept(r: seq<byte>, end: nat, at: nat, identification: uint32)
    requires 40 <= at && at + 8 <= end <= |r|
    ensures var q := Reissued6(r[..end], at, identification);
            Kept6(r, q, end, at) && |q| == end && U32(q, at + 4) == identification
  {
    var q := Reissued6(r[..end], at, identification);
    assert q[at + 4..at + 8] == Be32(identification);
  }

  /** The payload after the Fragment header at `at` is sound up to `end`. */
  predicate IsSound6(p: seq<byte>, at: nat, end: nat)
    requires at + 8 <= end <= |p| && 40 <= at
  {
    var length := end - at - 8;
    length != 0 && (p[at + 3] as int % 2 == 1 ==> length % 8 == 0) && at - 40 + Offset6(p, at) + length <= 65535
  }

  /** The walk of `p` ends at the Fragment header at `at`, named by the byte at `link`. */
  ghost predicate EndsAt(p: seq<byte>, at: nat, link: nat)
  {
    && Ext.IsFragmentPacket(p) && Ext.WalkOf(p).Some? && Ext.WalkOf(p).value.fragment.Some?
    && 40 <= at && at + 8 <= Ext.PayloadEnd(p) <= |p|
    && var f := Ext.WalkOf(p).value.fragment.value;
       f.headerOffset == at && f.precedingNextHeaderFieldOffset == link
  }

  function FragmentOf6(p: seq<byte>, b: Buffer, at: nat, link: nat): (f: Fragment)
    requires at + 8 <= |p|
  {
    Fragment(b, at, at + 8, Offset6(p, at), link, p[at])
  }

  lemma PieceEndsAt(input: Input, a: Arrival) returns (at: nat, link: nat)
    requires Parse6(input) == Piece(a)
    ensures EndsAt(input.buffer.data, at, link)
    ensures var p := input.buffer.data;
            var end := Ext.PayloadEnd(p);
            && IsSound6(p, at, end) && a.key == Identity6(input, at) && (a.more <==> p[at + 3] as int % 2 == 1)
            && a.fragment == FragmentOf6(p, Buffer(input.buffer.id, p[..end]), at, link)
  {
    Reads6(input);
    var f := Ext.WalkOf(input.buffer.data).value.fragment.value;
    at, link := f.headerOffset, f.precedingNextHeaderFieldOffset;
  }

  lemma EndsAtParses(input: Input, at: nat, link: nat)
    requires EndsAt(input.buffer.data, at, link) && Ext.PayloadEnd(input.buffer.data) == |input.buffer.data|
    requires IsSound6(input.buffer.data, at, |input.buffer.data|)
    ensures var p := input.buffer.data;
            Parse6(input) == Piece(Arrival(Identity6(input, at), FragmentOf6(p, input.buffer, at, link),
                                           p[at + 3] as int % 2 == 1, |p|))
  {
    Reads6(input);
    assert input.buffer.data[..|input.buffer.data|] == input.buffer.data;
  }

  lemma EndsAtKept(p: seq<byte>, q: seq<byte>, at: nat, link: nat)
    requires EndsAt(p, at, link) && Kept6(p, q, Ext.PayloadEnd(p), at) && |q| == Ext.PayloadEnd(p)
    ensures EndsAt(q, at, link) && Ext.PayloadEnd(q) == |q|
  {
    FragmentKept(p, q, at, Ext.WalkOf(p).value);
  }

  lemma SoundKept(p: seq<byte>, q: seq<byte>, at: nat, end: nat)
    requires 40 <= at && Kept6(p, q, end, at)
    ensures IsSound6(q, at, end) <==> IsSound6(p, at, end)
    ensures Offset6(q, at) == Offset6(p, at) && q[at] == p[at] && q[at + 3] == p[at + 3]
  {
    assert q[at] == p[at] && q[at + 2] == p[at + 2] && q[at + 3] == p[at + 3];
  }

  lemma KeyKept6(input: Input, again: Input, at: nat, end: nat)
    requires SameSender(input, again) && 40 <= at && Kept6(input.buffer.data, again.buffer.data, end, at)
    ensures Identity6(again, at) == Identity6(input, at).(identification := U32(again.buffer.data, at + 4))
  {
    var p, q := input.buffer.data, again.buffer.data;
    assert q[8..24] == p[8..24] && q[24..40] == p[24..40];
  }

  lemma Reissued6Parses(input: Input, a: Arrival, identification: uint32, again: Input)
    requires Parse6(input) == Piece(a) && SameSender(input, again)
    requires again.buffer == Reissued(V6, a.fragment, identification)
    ensures Parse6(again) == Piece(Arrival(a.key.(identification := identification),
                                           Moved(a.fragment, again.buffer), a.more, |a.fragment.buffer.data|))
    ensures Payload(Moved(a.fragment, again.buffer)) == Payload(a.fragment)
  {
    var p, q, end := input.buffer.data, again.buffer.data, Ext.PayloadEnd(input.buffer.data);
    var at, link := PieceEndsAt(input, a);
    assert q == Reissued6(p[..end], at, identification) by { ReissuedData(V6, input, a, identification); }
    Reissued6Kept(p, end, at, identification);
    EndsAtKept(p, q, at, link);
    SoundKept(p, q, at, end);
    KeyKept6(input, again, at, end);
    EndsAtParses(again, at, link);
    assert q[at + 8..] == p[..end][at + 8..];
  }

  /** A fragment handed back parses to the same piece, under the new identification. */
  lemma ReissuedParses(family: Family, input: Input, a: Arrival, identification: uint32, again: Input)
    requires Parse(family, input) == Piece(a) && SameSender(input, again)
    requires again.buffer == Reissued(family, a.fragment, identification)
    ensures var id := if family.V4? then identification % 0x1_0000 else identification;
            Parse(family, again) == Piece(Arrival(a.key.(identification := id), Moved(a.fragment, again.buffer), a.more,
                                                  |a.fragment.buffer.data|))
    ensures Payload(Moved(a.fragment, again.buffer)) == Payload(a.fragment)
  {
    if family.V4? {
      Reissued4Parses(input, a, identification, again);
    } else {
      Reissued6Parses(input, a, identification, again);
    }
  }
}
