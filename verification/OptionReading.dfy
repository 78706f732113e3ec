/** What the option parser reads from any bytes: of each option it knows the last one, up to where the list stops. */
module OptionReading {
  import opened Bytes
  import opened Options
  import opened TcpOptions

  /** One byte of padding, or an option of any kind with its data. */
  datatype Item = Gap | Entry(kind: byte, data: seq<byte>)

  predicate WellFormed(i: Item)
  {
    i.Entry? ==> i.kind != END && i.kind != NOP && |i.data| <= 253
  }

  predicate AllWellFormed(items: seq<Item>)
  {
    forall i :: 0 <= i < |items| ==> WellFormed(items[i])
  }

  function Encode(i: Item): (b: seq<byte>)
    requires WellFormed(i)
  {
    if i.Gap? then [NOP] else [i.kind, |i.data| + 2] + i.data
  }

  function EncodeAll(items: seq<Item>): (b: seq<byte>)
    requires AllWellFormed(items)
  {
    if items == [] then [] else Encode(items[0]) + EncodeAll(items[1..])
  }

  /** The list ends here: with an end option, or where the next option cannot be whole. */
  predicate Stops(tail: seq<byte>)
  {
    || tail == [] || tail[0] == END
    || (tail[0] != NOP && (|tail| == 1 || tail[1] < 2 || |tail| < tail[1] as int))
  }

  /** The data of the last option of that kind and size. */
  function LastOf(items: seq<Item>, kind: byte, size: nat): (r: Option<seq<byte>>)
    ensures r.Some? ==> |r.value| == size
    decreases |items|
  {
    if items == [] then None
    else if LastOf(items[1..], kind, size).Some? then LastOf(items[1..], kind, size)
    else if items[0].Entry? && items[0].kind == kind && |items[0].data| == size then Some(items[0].data)
    else None
  }

  /** What the list says, over what was read before it. */
  function Says(was: TcpOptions, items: seq<Item>): (r: TcpOptions)
  {
    var mss, scale, stamp := LastOf(items, MSS, 2), LastOf(items, WINDOW_SCALE, 1), LastOf(items, TIMESTAMP, 8);
    TcpOptions(if mss.Some? then Some(Max(U16(mss.value, 0), 536)) else was.mss,
               if scale.Some? then Some(Min(scale.value[0], 14)) else was.scale,
               if stamp.Some? then Some(Stamp(U32(stamp.value, 0), U32(stamp.value, 4))) else was.stamp)
  }

  lemma LastOfOne(i: Item, kind: byte, size: nat)
    ensures LastOf([i], kind, size) ==
            if i.Entry? && i.kind == kind && |i.data| == size then Some(i.data) else None
  {
    assert [i][1..] == [];
  }

  lemma SaysOne(i: Item)
    ensures LastOf([i], MSS, 2) == (if i.Entry? && i.kind == MSS && |i.data| == 2 then Some(i.data) else None)
    ensures LastOf([i], WINDOW_SCALE, 1) ==
            (if i.Entry? && i.kind == WINDOW_SCALE && |i.data| == 1 then Some(i.data) else None)
    ensures LastOf([i], TIMESTAMP, 8) ==
            (if i.Entry? && i.kind == TIMESTAMP && |i.data| == 8 then Some(i.data) else None)
  {
    LastOfOne(i, MSS, 2);
    LastOfOne(i, WINDOW_SCALE, 1);
    LastOfOne(i, TIMESTAMP, 8);
  }

  lemma StopsParse(acc: TcpOptions, tail: seq<byte>)
    requires Stops(tail)
    ensures ParseOptions(acc, tail) == acc
  {
  }

  lemma TakesEntry(acc: TcpOptions, i: Item, rest: seq<byte>)
    requires WellFormed(i) && i.Entry?
    ensures Take(acc, Encode(i) + rest, |i.data| + 2) == Says(acc, [i])
  {
    var o := Encode(i) + rest;
    assert o[2..2 + |i.data|] == i.data;
    SaysOne(i);
  }

  lemma ReadsItem(acc: TcpOptions, i: Item, rest: seq<byte>)
    requires WellFormed(i)
    ensures ParseOptions(acc, Encode(i) + rest) == ParseOptions(Says(acc, [i]), rest)
  {
    var o := Encode(i) + rest;
    assert o[|Encode(i)|..] == rest;
    SaysOne(i);
    if i.Entry? { TakesEntry(acc, i, rest); }
  }

  lemma SaysCons(acc: TcpOptions, items: seq<Item>)
    requires items != []
    ensures Says(Says(acc, [items[0]]), items[1..]) == Says(acc, items)
  {
    SaysOne(items[0]);
  }

  /** The options of a list are the last of each kind the endpoint knows, whatever stops the list. */
  lemma {:induction false} OptionsExactly(acc: TcpOptions, items: seq<Item>, tail: seq<byte>)
    requires AllWellFormed(items) && Stops(tail)
    ensures ParseOptions(acc, EncodeAll(items) + tail) == Says(acc, items)
    decreases |items|
  {
    if items == [] {
      assert EncodeAll(items) + tail == tail;
      StopsParse(acc, tail);
    } else {
      var rest := EncodeAll(items[1..]) + tail;
      assert EncodeAll(items) + tail == Encode(items[0]) + rest;
      ReadsItem(acc, items[0], rest);
      OptionsExactly(Says(acc, [items[0]]), items[1..], tail);
      SaysCons(acc, items);
    }
  }

  /** The bytes are that list and something that stops it. */
  ghost predicate Lists(o: seq<byte>, items: seq<Item>, tail: seq<byte>)
  {
    AllWellFormed(items) && Stops(tail) && o == EncodeAll(items) + tail
  }

  /** Any bytes are a list of options and something that stops it. */
  lemma {:induction false} EveryList(o: seq<byte>) returns (items: seq<Item>, tail: seq<byte>)
    ensures Lists(o, items, tail)
    decreases |o|
  {
    if Stops(o) {
      items, tail := [], o;
    } else {
      var first := if o[0] == NOP then Gap else Entry(o[0], o[2..o[1]]);
      var size := |Encode(first)|;
      assert o == Encode(first) + o[size..];
      var more;
      more, tail := EveryList(o[size..]);
      items := [first] + more;
      assert items[1..] == more;
    }
  }

  /** On any bytes the parser reads the last of each option it knows. */
  lemma ReadsLast(o: seq<byte>)
    ensures exists items, tail :: Lists(o, items, tail) && ParseOptions(NO_OPTIONS, o) == Says(NO_OPTIONS, items)
  {
    var items, tail := EveryList(o);
    OptionsExactly(NO_OPTIONS, items, tail);
  }
}
