/** Fields of every wire type, groups within groups included, and what a decoder makes of those it does not know. */
module UnknownFields {
  import opened Bytes
  import opened Options
  import opened Wire
  import opened TransferFrames

  /** A value of any wire type; a group holds fields of its own. */
  datatype Raw = RawNumber(v: uint64) | RawBytes(b: seq<byte>) | Fixed64(b: seq<byte>) | Fixed32(b: seq<byte>)
               | Group(fields: RawFields)

  datatype RawFields = Nil | Cons(number: nat, value: Raw, rest: RawFields)

  predicate WellFormed(v: Raw)
    decreases v
  {
    match v
    case RawNumber(_) => true
    case RawBytes(b) => |b| < TWO64
    case Fixed64(b) => |b| == 8
    case Fixed32(b) => |b| == 4
    case Group(fs) => AllWellFormed(fs)
  }

  predicate AllWellFormed(fs: RawFields)
    decreases fs
  {
    fs.Cons? ==> 1 <= fs.number <= MAX_NUMBER && WellFormed(fs.value) && AllWellFormed(fs.rest)
  }

  function TypeOf(v: Raw): (t: nat)
  {
    match v
    case RawNumber(_) => 0
    case Fixed64(_) => 1
    case RawBytes(_) => 2
    case Group(_) => 3
    case Fixed32(_) => 5
  }

  /** A group ends with the end tag of its own number. */
  function EncodeRaw(number: nat, v: Raw): (b: seq<byte>)
    decreases v
  {
    match v
    case RawNumber(n) => Varint(n)
    case RawBytes(s) => Varint(|s|) + s
    case Fixed64(s) => s
    case Fixed32(s) => s
    case Group(fs) => EncodeAll(fs) + Varint(number * 8 + 4)
  }

  function EncodeAll(fs: RawFields): (b: seq<byte>)
    decreases fs
  {
    if fs.Nil? then []
    else Varint(fs.number * 8 + TypeOf(fs.value)) + (EncodeRaw(fs.number, fs.value) + EncodeAll(fs.rest))
  }

  /** How many groups lie one within the other. */
  function Levels(v: Raw): (n: nat)
    decreases v
  {
    if v.Group? then 1 + MostLevels(v.fields) else 0
  }

  function MostLevels(fs: RawFields): (n: nat)
    decreases fs
  {
    if fs.Nil? then 0 else Max(Levels(fs.value), MostLevels(fs.rest))
  }

  lemma TagReads(number: nat, wireType: nat, rest: seq<byte>)
    requires 1 <= number <= MAX_NUMBER && wireType < 8
    ensures ConsumeTag(Varint(number * 8 + wireType) + rest) ==
            Some(Tag(number, wireType, |Varint(number * 8 + wireType)|))
  {
    VarintRoundTrip(number * 8 + wireType, rest);
  }

  // ---- skipping, one layer at a time ----

  type Skipper = (nat, nat, seq<byte>, int) -> Option<nat>

  type Grouper = (nat, seq<byte>, int) -> Option<nat>

  function Added(size: nat, n: Option<nat>): (r: Option<nat>) { if n.None? then None else Some(size + n.value) }

  /** A value, when `group` skips the fields of a group up to its end. */
  function ValueLayer(group: Grouper, number: nat, wireType: nat, b: seq<byte>, depth: int): (r: Option<nat>)
  {
    match wireType
    case 0 => if ConsumeVarint(b).Some? then Some(ConsumeVarint(b).value.size) else None
    case 1 => if |b| < 8 then None else Some(8)
    case 2 => if ConsumeBytes(b).Some? then Some(ConsumeBytes(b).value.size) else None
    case 3 => if depth < 0 then None else group(number, b, depth)
    case 5 => if |b| < 4 then None else Some(4)
    case _ => None
  }

  /** One field of a group and what follows, or its end. */
  function GroupLayer(skip: Skipper, group: Grouper, number: nat, b: seq<byte>, depth: int): (r: Option<nat>)
  {
    match ConsumeTag(b)
    case None => None
    case Some(tag) =>
      var rest := b[tag.size..];
      if tag.wireType == END_GROUP_TYPE then if tag.number == number then Some(tag.size) else None
      else
        match skip(tag.number, tag.wireType, rest, depth - 1)
        case None => None
        case Some(n) => if n <= |rest| then Added(tag.size + n, group(number, rest[n..], depth)) else None
  }

  ghost predicate Layered(skip: Skipper, group: Grouper)
  {
    && (forall number: nat, wireType: nat, b: seq<byte>, depth: int
          {:trigger ValueLayer(group, number, wireType, b, depth)} ::
          skip(number, wireType, b, depth) == ValueLayer(group, number, wireType, b, depth))
    && (forall number: nat, b: seq<byte>, depth: int {:trigger GroupLayer(skip, group, number, b, depth)} ::
          group(number, b, depth) == GroupLayer(skip, group, number, b, depth))
  }

  lemma GroupIsLayer(number: nat, b: seq<byte>, depth: int)
    ensures SkipGroup(number, b, depth) == GroupLayer(SkipValue, SkipGroup, number, b, depth)
  {
  }

  lemma ValueIsLayer(number: nat, wireType: nat, b: seq<byte>, depth: int)
    ensures SkipValue(number, wireType, b, depth) == ValueLayer(SkipGroup, number, wireType, b, depth)
  {
  }

  lemma SkipIsLayered()
    ensures Layered(SkipValue, SkipGroup)
  {
    forall number: nat, wireType: nat, b: seq<byte>, depth: int
      ensures SkipValue(number, wireType, b, depth) == ValueLayer(SkipGroup, number, wireType, b, depth) {
      ValueIsLayer(number, wireType, b, depth);
    }
    forall number: nat, b: seq<byte>, depth: int
      ensures SkipGroup(number, b, depth) == GroupLayer(SkipValue, SkipGroup, number, b, depth) {
      GroupIsLayer(number, b, depth);
    }
  }

  lemma Spread(t: seq<byte>, w: seq<byte>, rest: seq<byte>, end: seq<byte>)
    ensures t + (w + rest) + end == t + (w + (rest + end)) && t + (w + rest) == t + w + rest
  {
  }

  lemma GroupEnds(skip: Skipper, group: Grouper, number: nat, rest: seq<byte>, depth: int)
    requires Layered(skip, group) && 1 <= number <= MAX_NUMBER
    ensures group(number, Varint(number * 8 + 4) + rest, depth) == Some(|Varint(number * 8 + 4)|)
  {
    TagReads(number, 4, rest);
    assert GroupLayer(skip, group, number, Varint(number * 8 + 4) + rest, depth) == Some(|Varint(number * 8 + 4)|);
  }

  lemma GroupSteps(skip: Skipper, group: Grouper, number: nat, tag: Tag, t: seq<byte>, w: seq<byte>, after: seq<byte>,
                   depth: int, n: Option<nat>)
    requires Layered(skip, group) && ConsumeTag(t + (w + after)) == Some(tag) && tag.size == |t|
    requires tag.wireType != END_GROUP_TYPE && (n.Some? ==> n.value == |w|)
    requires skip(tag.number, tag.wireType, w + after, depth - 1) == n
    ensures group(number, t + (w + after), depth) ==
            if n.Some? then Added(|t| + |w|, group(number, after, depth)) else None
  {
    Dropped(t, w + after);
    Dropped(w, after);
    assert group(number, t + (w + after), depth) == GroupLayer(skip, group, number, t + (w + after), depth);
  }

  lemma {:induction false} ValueSkips(skip: Skipper, group: Grouper, number: nat, v: Raw, rest: seq<byte>, depth: int)
    requires Layered(skip, group) && 1 <= number <= MAX_NUMBER && WellFormed(v)
    ensures skip(number, TypeOf(v), EncodeRaw(number, v) + rest, depth) ==
            if Levels(v) <= depth + 1 || Levels(v) == 0 then Some(|EncodeRaw(number, v)|) else None
    decreases v
  {
    var b := EncodeRaw(number, v) + rest;
    assert skip(number, TypeOf(v), b, depth) == ValueLayer(group, number, TypeOf(v), b, depth);
    match v
    case RawNumber(n) => VarintRoundTrip(n, rest);
    case RawBytes(s) => BytesRoundTrip(s, rest);
    case Fixed64(s) =>
    case Fixed32(s) =>
    case Group(fs) =>
      Associate(EncodeAll(fs), Varint(number * 8 + 4), rest);
      if depth >= 0 { GroupSkips(skip, group, number, fs, rest, depth); }
  }

  lemma {:induction false} GroupSkips(skip: Skipper, group: Grouper, number: nat, fs: RawFields, rest: seq<byte>,
                                      depth: int)
    requires Layered(skip, group) && 1 <= number <= MAX_NUMBER && AllWellFormed(fs) && 0 <= depth
    ensures group(number, EncodeAll(fs) + (Varint(number * 8 + 4) + rest), depth) ==
            if MostLevels(fs) <= depth then Some(|EncodeAll(fs)| + |Varint(number * 8 + 4)|) else None
    decreases fs
  {
    var end := Varint(number * 8 + 4) + rest;
    if fs.Nil? {
      assert EncodeAll(fs) + end == end;
      GroupEnds(skip, group, number, rest, depth);
    } else {
      var t, w := Varint(fs.number * 8 + TypeOf(fs.value)), EncodeRaw(fs.number, fs.value);
      var after := EncodeAll(fs.rest) + end;
      var n := if Levels(fs.value) <= depth then Some(|w|) else None;
      ValueSkips(skip, group, fs.number, fs.value, after, depth - 1);
      TagReads(fs.number, TypeOf(fs.value), w + after);
      GroupSteps(skip, group, number, Tag(fs.number, TypeOf(fs.value), |t|), t, w, after, depth, n);
      GroupSkips(skip, group, number, fs.rest, rest, depth);
      Spread(t, w, EncodeAll(fs.rest), end);
    }
  }

  /**
   * A value of any wire type is skipped whole, whatever follows, if its groups are at most `depth + 1` deep, and
   * refused otherwise.
   */
  lemma SkipsExactly(number: nat, v: Raw, rest: seq<byte>, depth: int)
    requires 1 <= number <= MAX_NUMBER && WellFormed(v)
    ensures SkipValue(number, TypeOf(v), EncodeRaw(number, v) + rest, depth) ==
            if Levels(v) <= depth + 1 || Levels(v) == 0 then Some(|EncodeRaw(number, v)|) else None
  {
    SkipIsLayered();
    ValueSkips(SkipValue, SkipGroup, number, v, rest, depth);
  }

  /** A group that is ended with another number is refused. */
  lemma WrongEnd(number: nat, other: nat, rest: seq<byte>, depth: int)
    requires 1 <= other <= MAX_NUMBER && other != number
    ensures SkipGroup(number, Varint(other * 8 + 4) + rest, depth) == None
  {
    TagReads(other, 4, rest);
  }

  // ---- whole messages ----

  function SeenAs(v: Raw): (value: Value)
  {
    match v
    case RawNumber(n) => Varint64(n)
    case RawBytes(s) => Bytes(s)
    case _ => Skipped(TypeOf(v))
  }

  function SeenAll(fs: RawFields): (r: seq<Field>)
  {
    if fs.Nil? then [] else [Field(fs.number, SeenAs(fs.value))] + SeenAll(fs.rest)
  }

  /** What a tag and a value give, when skipping the value comes to `n`. */
  lemma ValueSeen(tag: Tag, v: Raw, rest: seq<byte>, n: Option<nat>)
    requires 1 <= tag.number <= MAX_NUMBER && WellFormed(v) && tag.wireType == TypeOf(v)
    requires n == if Levels(v) <= RECURSION_LIMIT + 1 then Some(|EncodeRaw(tag.number, v)|) else None
    requires SkipValue(tag.number, TypeOf(v), EncodeRaw(tag.number, v) + rest, RECURSION_LIMIT) == n
    ensures FieldAfter(tag, EncodeRaw(tag.number, v) + rest) ==
            if n.Some? then Some(Head(Field(tag.number, SeenAs(v)), tag.size + n.value)) else None
  {
    match v
    case RawNumber(k) => VarintRoundTrip(k, rest);
    case RawBytes(s) => BytesRoundTrip(s, rest);
    case _ =>
  }

  lemma FieldStarts(t: seq<byte>, rest: seq<byte>, tag: Tag, h: Option<Head>)
    requires ConsumeTag(t + rest) == Some(tag) && tag.size == |t| && FieldAfter(tag, rest) == h
    ensures ConsumeField(t + rest) == h
  {
    Dropped(t, rest);
  }

  /** A field of any wire type at the start of a message. */
  lemma FieldReads(number: nat, v: Raw, rest: seq<byte>)
    requires 1 <= number <= MAX_NUMBER && WellFormed(v)
    ensures var t, w := Varint(number * 8 + TypeOf(v)), EncodeRaw(number, v);
            ConsumeField(t + (w + rest)) ==
            if Levels(v) <= RECURSION_LIMIT + 1 then Some(Head(Field(number, SeenAs(v)), |t| + |w|)) else None
  {
    var t, w := Varint(number * 8 + TypeOf(v)), EncodeRaw(number, v);
    var tag := Tag(number, TypeOf(v), |t|);
    TagReads(number, TypeOf(v), w + rest);
    SkipsExactly(number, v, rest, RECURSION_LIMIT);
    ValueSeen(tag, v, rest, if Levels(v) <= RECURSION_LIMIT + 1 then Some(|w|) else None);
    FieldStarts(t, w + rest, tag,
                if Levels(v) <= RECURSION_LIMIT + 1 then Some(Head(Field(number, SeenAs(v)), |t| + |w|)) else None);
  }

  /** A message of fields of any wire type parses to them, unless a group in it is nested too deeply. */
  lemma {:induction false} MessageReads(fs: RawFields)
    requires AllWellFormed(fs)
    ensures ParseFields(EncodeAll(fs)) ==
            if MostLevels(fs) <= RECURSION_LIMIT + 1 then Some(SeenAll(fs)) else None
    decreases fs
  {
    if fs.Cons? {
      var t, w, rest := Varint(fs.number * 8 + TypeOf(fs.value)), EncodeRaw(fs.number, fs.value), EncodeAll(fs.rest);
      var h := if Levels(fs.value) <= RECURSION_LIMIT + 1
               then Some(Head(Field(fs.number, SeenAs(fs.value)), |t| + |w|)) else None;
      assert ConsumeField(EncodeAll(fs)) == h by { FieldReads(fs.number, fs.value, rest); }
      Spread(t, w, rest, []);
      Dropped(t + w, rest);
      ParseCons(EncodeAll(fs), h, rest);
      MessageReads(fs.rest);
    }
  }

  // ---- what is not known passes by ----

  predicate Known(number: nat) { 1 <= number <= 8 }

  /** The message without the fields of other numbers. */
  function OnlyKnown(fs: RawFields): (r: RawFields)
  {
    if fs.Nil? then Nil
    else if Known(fs.number) then Cons(fs.number, fs.value, OnlyKnown(fs.rest))
    else OnlyKnown(fs.rest)
  }

  lemma {:induction false} KnownKept(fs: RawFields)
    requires AllWellFormed(fs)
    ensures AllWellFormed(OnlyKnown(fs)) && MostLevels(OnlyKnown(fs)) <= MostLevels(fs)
    decreases fs
  {
    if fs.Cons? { KnownKept(fs.rest); }
  }

  lemma {:induction false} UnknownIgnored(decodePath: bool, t: TransferFrame, fs: RawFields)
    ensures Fold(TakerOf(decodePath), t, SeenAll(OnlyKnown(fs))) == Fold(TakerOf(decodePath), t, SeenAll(fs))
    decreases fs
  {
    if fs.Cons? {
      var f := Field(fs.number, SeenAs(fs.value));
      var u := TakeTransfer(decodePath, t, f);
      assert SeenAll(fs)[1..] == SeenAll(fs.rest);
      if Known(fs.number) { assert SeenAll(OnlyKnown(fs))[1..] == SeenAll(OnlyKnown(fs.rest)); }
      if u.Some? { UnknownIgnored(decodePath, u.value, fs.rest); }
    }
  }

  /**
   * Fields a transfer frame does not have, of any wire type and wherever they stand, change nothing: the frame is
   * accepted as without them, and read as without them. A group nested too deeply spoils it.
   */
  lemma UnknownPassBy(fs: RawFields, decodePath: bool)
    requires AllWellFormed(fs)
    ensures UnmarshalTransferFrame(EncodeAll(fs), decodePath) ==
            if MostLevels(fs) <= RECURSION_LIMIT + 1
            then UnmarshalTransferFrame(EncodeAll(OnlyKnown(fs)), decodePath) else None
  {
    MessageReads(fs);
    KnownKept(fs);
    MessageReads(OnlyKnown(fs));
    if MostLevels(fs) <= RECURSION_LIMIT + 1 { UnknownIgnored(decodePath, NO_TRANSFER, fs); }
  }
}
