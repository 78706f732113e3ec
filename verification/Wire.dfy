/** The Protocol Buffers wire format: varints, tags, fields, and the fold a decoder makes over them. */
module Wire {
  import opened Bytes
  import opened Options

  const VARINT_TYPE: nat := 0
  const FIXED64_TYPE: nat := 1
  const BYTES_TYPE: nat := 2
  const START_GROUP_TYPE: nat := 3
  const END_GROUP_TYPE: nat := 4
  const FIXED32_TYPE: nat := 5
  const MAX_NUMBER: nat := 0x7fff_ffff
  const RECURSION_LIMIT: int := 10000
  const TWO64: nat := 0x1_0000_0000_0000_0000

  // ---- varints ----

  /** The canonical encoding, seven bits a byte from the low end. */
  function Varint(v: nat): (b: seq<byte>)
    ensures 0 < |b|
  {
    if v < 0x80 then [v] else [v % 0x80 + 0x80] + Varint(v / 0x80)
  }

  function Power128(n: nat): (p: nat)
    ensures 0 < p
  {
    if n == 0 then 1 else 0x80 * Power128(n - 1)
  }

  datatype Number = Number(value: nat, size: nat)

  /** A number of at most `limit` bytes at the start of `b`: its exact value and encoded size. */
  function ReadNumber(b: seq<byte>, limit: nat): (r: Option<Number>)
    ensures r.Some? ==> 0 < r.value.size <= |b| && r.value.size <= limit
    decreases |b|
  {
    if b == [] || limit == 0 then None
    else if b[0] < 0x80 then Some(Number(b[0], 1))
    else
      match ReadNumber(b[1..], limit - 1)
      case None => None
      case Some(n) => Some(Number(b[0] as int % 0x80 + 0x80 * n.value, n.size + 1))
  }

  /** Ten bytes hold any 64-bit number. */
  const MAX_VARINT: nat := 10

  /** `protowire.ConsumeVarint`: at most ten bytes and at most 64 bits. */
  function ConsumeVarint(b: seq<byte>): (r: Option<Number>)
    ensures r.Some? ==> 0 < r.value.size <= |b| && r.value.value < TWO64
  {
    var r := ReadNumber(b, MAX_VARINT);
    if r.Some? && r.value.value < TWO64 then r else None
  }

  lemma {:induction false} ReadVarint(v: nat, rest: seq<byte>, limit: nat)
    requires 0 < limit && v < Power128(limit)
    ensures |Varint(v)| <= limit
    ensures ReadNumber(Varint(v) + rest, limit) == Some(Number(v, |Varint(v)|))
    decreases limit
  {
    if v >= 0x80 {
      var b := Varint(v) + rest;
      assert Power128(1) == 0x80;
      ReadVarint(v / 0x80, rest, limit - 1);
      assert b[1..] == Varint(v / 0x80) + rest;
    }
  }

  lemma TenBytesAreEnough()
    ensures TWO64 <= Power128(MAX_VARINT)
  {
    assert Power128(2) == 0x4000;
    assert Power128(4) == 0x1000_0000;
    assert Power128(6) == 0x400_0000_0000;
    assert Power128(8) == 0x100_0000_0000_0000;
    assert Power128(10) == 0x40_0000_0000_0000_0000;
  }

  lemma VarintRoundTrip(v: uint64, rest: seq<byte>)
    ensures ConsumeVarint(Varint(v) + rest) == Some(Number(v, |Varint(v)|))
  {
    TenBytesAreEnough();
    ReadVarint(v, rest, MAX_VARINT);
  }

  /** `protoAppendVarint`. */
  method AppendVarint(b: seq<byte>, v: nat) returns (r: seq<byte>)
    ensures r == b + Varint(v)
  {
    r := b;
    var w := v;
    while 0x80 <= w
      invariant r + Varint(w) == b + Varint(v)
      decreases w
    {
      r := r + [w % 0x80 + 0x80];
      w := w / 0x80;
    }
    r := r + [w];
  }

  /** `protoSizeVarint`. */
  method SizeVarint(v: nat) returns (n: nat)
    ensures n == |Varint(v)|
  {
    n := 1;
    var w := v;
    while 0x80 <= w
      invariant n + |Varint(w)| == 1 + |Varint(v)|
      decreases w
    {
      w := w / 0x80;
      n := n + 1;
    }
  }

  // ---- fields ----

  /** What a decoder sees of one field; values of the other wire types are only skipped. */
  datatype Value = Varint64(v: uint64) | Bytes(b: seq<byte>) | Skipped(wireType: nat)
  datatype Field = Field(number: nat, value: Value)

  datatype Tag = Tag(number: nat, wireType: nat, size: nat)

  /** `protowire.ConsumeTag`. */
  function ConsumeTag(b: seq<byte>): (r: Option<Tag>)
    ensures r.Some? ==> 0 < r.value.size <= |b| && 1 <= r.value.number <= MAX_NUMBER && r.value.wireType < 8
  {
    match ConsumeVarint(b)
    case None => None
    case Some(n) =>
      var number := n.value / 8;
      if 1 <= number <= MAX_NUMBER then Some(Tag(number, n.value % 8, n.size)) else None
  }

  datatype Chunk = Chunk(content: seq<byte>, size: nat)

  /** `protowire.ConsumeBytes`. */
  function ConsumeBytes(b: seq<byte>): (r: Option<Chunk>)
    ensures r.Some? ==> 0 < r.value.size <= |b| && |r.value.content| < r.value.size
  {
    match ConsumeVarint(b)
    case None => None
    case Some(n) =>
      if |b| - n.size < n.value then None else Some(Chunk(b[n.size..n.size + n.value], n.size + n.value))
  }

  /** `protowire.ConsumeFieldValue`: the size of a value of any wire type. */
  function SkipValue(number: nat, wireType: nat, b: seq<byte>, depth: int): (r: Option<nat>)
    ensures r.Some? ==> r.value <= |b|
    decreases |b|, 1
  {
    match wireType
    case 0 => if ConsumeVarint(b).Some? then Some(ConsumeVarint(b).value.size) else None
    case 1 => if |b| < 8 then None else Some(8)
    case 2 => if ConsumeBytes(b).Some? then Some(ConsumeBytes(b).value.size) else None
    case 3 => if depth < 0 then None else SkipGroup(number, b, depth)
    case 5 => if |b| < 4 then None else Some(4)
    case _ => None
  }

  function SkipGroup(number: nat, b: seq<byte>, depth: int): (r: Option<nat>)
    ensures r.Some? ==> r.value <= |b|
    decreases |b|, 0
  {
    match ConsumeTag(b)
    case None => None
    case Some(tag) =>
      var rest := b[tag.size..];
      if tag.wireType == END_GROUP_TYPE then if tag.number == number then Some(tag.size) else None
      else
        match SkipValue(tag.number, tag.wireType, rest, depth - 1)
        case None => None
        case Some(n) =>
          match SkipGroup(number, rest[n..], depth)
          case None => None
          case Some(k) => Some(tag.size + n + k)
  }

  datatype Head = Head(field: Field, size: nat)

  function NumberHead(tag: Tag, n: Option<Number>): (r: Option<Head>)
    requires n.Some? ==> n.value.value < TWO64
  {
    if n.None? then None else Some(Head(Field(tag.number, Varint64(n.value.value)), tag.size + n.value.size))
  }

  function BytesHead(tag: Tag, c: Option<Chunk>): (r: Option<Head>)
  {
    if c.None? then None else Some(Head(Field(tag.number, Bytes(c.value.content)), tag.size + c.value.size))
  }

  function SkippedHead(tag: Tag, n: Option<nat>): (r: Option<Head>)
  {
    if n.None? then None else Some(Head(Field(tag.number, Skipped(tag.wireType)), tag.size + n.value))
  }

  /** The field whose tag precedes `rest`. */
  function FieldAfter(tag: Tag, rest: seq<byte>): (r: Option<Head>)
    ensures r.Some? ==> tag.size <= r.value.size <= tag.size + |rest|
  {
    if tag.wireType == VARINT_TYPE then NumberHead(tag, ConsumeVarint(rest))
    else if tag.wireType == BYTES_TYPE then BytesHead(tag, ConsumeBytes(rest))
    else SkippedHead(tag, SkipValue(tag.number, tag.wireType, rest, RECURSION_LIMIT))
  }

  /** Skipping a field moves past what reading it consumes. */
  lemma SkipIsRead(tag: Tag, rest: seq<byte>)
    ensures match SkipValue(tag.number, tag.wireType, rest, RECURSION_LIMIT)
            case None => FieldAfter(tag, rest) == None
            case Some(n) => FieldAfter(tag, rest).Some? && FieldAfter(tag, rest).value.size == tag.size + n
                            && FieldAfter(tag, rest).value.field.number == tag.number
  {
  }

  /** The field at the start of `b`. */
  function ConsumeField(b: seq<byte>): (r: Option<Head>)
    ensures r.Some? ==> 0 < r.value.size <= |b|
  {
    match ConsumeTag(b)
    case None => None
    case Some(tag) => FieldAfter(tag, b[tag.size..])
  }

  /** All the fields of a message, or nothing if it is malformed. */
  function ParseFields(b: seq<byte>): (r: Option<seq<Field>>)
    decreases |b|
  {
    if b == [] then Some([])
    else
      match ConsumeField(b)
      case None => None
      case Some(h) =>
        match ParseFields(b[h.size..])
        case None => None
        case Some(fs) => Some([h.field] + fs)
  }

  // ---- encoding ----

  predicate Encodable(f: Field)
  {
    1 <= f.number < 0x1000_0000 && !f.value.Skipped? && (f.value.Bytes? ==> |f.value.b| < TWO64)
  }

  function EncodeField(f: Field): (b: seq<byte>)
  {
    match f.value
    case Varint64(v) => Varint(f.number * 8 + VARINT_TYPE) + Varint(v)
    case Bytes(s) => Varint(f.number * 8 + BYTES_TYPE) + (Varint(|s|) + s)
    case Skipped(_) => []
  }

  predicate AllEncodable(fs: seq<Field>)
  {
    forall i :: 0 <= i < |fs| ==> Encodable(fs[i])
  }

  function Flatten<T>(encode: T -> seq<byte>, xs: seq<T>): (b: seq<byte>)
  {
    if xs == [] then [] else encode(xs[0]) + Flatten(encode, xs[1..])
  }

  function EncodeFields(fs: seq<Field>): (b: seq<byte>)
  {
    Flatten(EncodeField, fs)
  }

  lemma {:induction false} FlattenConcat<T>(encode: T -> seq<byte>, xs: seq<T>, ys: seq<T>)
    ensures Flatten(encode, xs + ys) == Flatten(encode, xs) + Flatten(encode, ys)
  {
    if xs == [] {
      assert xs + ys == ys;
    } else {
      FlattenConcat(encode, xs[1..], ys);
      assert (xs + ys)[1..] == xs[1..] + ys;
    }
  }

  lemma Associate(a: seq<byte>, b: seq<byte>, c: seq<byte>)
    ensures a + b + c == a + (b + c)
  {
  }

  lemma TagRoundTrip(number: nat, wireType: nat, rest: seq<byte>)
    requires 1 <= number < 0x1000_0000 && wireType < 8
    ensures ConsumeTag(Varint(number * 8 + wireType) + rest) ==
              Some(Tag(number, wireType, |Varint(number * 8 + wireType)|))
  {
    VarintRoundTrip(number * 8 + wireType, rest);
  }

  lemma BytesRoundTrip(s: seq<byte>, rest: seq<byte>)
    requires |s| < TWO64
    ensures ConsumeBytes(Varint(|s|) + s + rest) == Some(Chunk(s, |Varint(|s|)| + |s|))
  {
    var b := Varint(|s|) + s + rest;
    assert b == Varint(|s|) + (s + rest);
    VarintRoundTrip(|s|, s + rest);
    var n := |Varint(|s|)|;
    assert b[n..n + |s|] == s;
  }

  lemma TaggedVarint(t: seq<byte>, w: seq<byte>, rest: seq<byte>, number: nat, v: uint64)
    requires ConsumeTag(t + (w + rest)) == Some(Tag(number, VARINT_TYPE, |t|))
    requires ConsumeVarint(w + rest) == Some(Number(v, |w|))
    ensures ConsumeField(t + w + rest) == Some(Head(Field(number, Varint64(v)), |t + w|))
  {
    Associate(t, w, rest);
    assert (t + (w + rest))[|t|..] == w + rest;
  }

  lemma TaggedBytes(t: seq<byte>, w: seq<byte>, rest: seq<byte>, number: nat, s: seq<byte>)
    requires ConsumeTag(t + (w + rest)) == Some(Tag(number, BYTES_TYPE, |t|))
    requires ConsumeBytes(w + rest) == Some(Chunk(s, |w|))
    ensures ConsumeField(t + w + rest) == Some(Head(Field(number, Bytes(s)), |t + w|))
  {
    Associate(t, w, rest);
    assert (t + (w + rest))[|t|..] == w + rest;
  }

  lemma FieldRoundTrip(f: Field, rest: seq<byte>)
    requires Encodable(f)
    ensures ConsumeField(EncodeField(f) + rest) == Some(Head(f, |EncodeField(f)|))
  {
    match f.value
    case Varint64(v) =>
      TagRoundTrip(f.number, VARINT_TYPE, Varint(v) + rest);
      VarintRoundTrip(v, rest);
      TaggedVarint(Varint(f.number * 8 + VARINT_TYPE), Varint(v), rest, f.number, v);
    case Bytes(s) =>
      TagRoundTrip(f.number, BYTES_TYPE, Varint(|s|) + s + rest);
      BytesRoundTrip(s, rest);
      TaggedBytes(Varint(f.number * 8 + BYTES_TYPE), Varint(|s|) + s, rest, f.number, s);
  }

  lemma Dropped(t: seq<byte>, rest: seq<byte>)
    ensures (t + rest)[|t|..] == rest
  {
  }

  /** A message is its first field and the rest. */
  lemma ParseCons(b: seq<byte>, h: Option<Head>, rest: seq<byte>)
    requires b != [] && ConsumeField(b) == h && (h.Some? ==> h.value.size <= |b| && b[h.value.size..] == rest)
    ensures ParseFields(b) == if h.None? || ParseFields(rest).None? then None
                              else Some([h.value.field] + ParseFields(rest).value)
  {
  }

  /** Parsing gives back the fields that were encoded, in order. */
  lemma {:induction false} FieldsRoundTrip(fs: seq<Field>)
    requires AllEncodable(fs)
    ensures ParseFields(EncodeFields(fs)) == Some(fs)
  {
    if fs != [] {
      var first, rest := EncodeField(fs[0]), EncodeFields(fs[1..]);
      FieldRoundTrip(fs[0], rest);
      Dropped(first, rest);
      ParseCons(first + rest, Some(Head(fs[0], |first|)), rest);
      FieldsRoundTrip(fs[1..]);
      assert fs == [fs[0]] + fs[1..];
    }
  }

  // ---- decoding is a fold ----

  function Fold<T>(take: (T, Field) -> Option<T>, t: T, fs: seq<Field>): (r: Option<T>)
    decreases |fs|
  {
    if fs == [] then Some(t)
    else
      match take(t, fs[0])
      case None => None
      case Some(u) => Fold(take, u, fs[1..])
  }

  function Decode<T>(take: (T, Field) -> Option<T>, t: T, b: seq<byte>): (r: Option<T>)
  {
    match ParseFields(b)
    case None => None
    case Some(fs) => Fold(take, t, fs)
  }

  /** One turn of a decode loop. */
  lemma DecodeStep<T>(take: (T, Field) -> Option<T>, t: T, b: seq<byte>)
    requires b != []
    ensures Decode(take, t, b) == match ConsumeField(b)
                                  case None => None
                                  case Some(h) =>
                                    (match take(t, h.field)
                                     case None => None
                                     case Some(u) => Decode(take, u, b[h.size..]))
  {
    if ConsumeField(b).Some? {
      var h := ConsumeField(b).value;
      var rest := ParseFields(b[h.size..]);
      if rest.Some? { assert ([h.field] + rest.value)[1..] == rest.value; }
    }
  }
}
