/** The decode loops of transfer frames, each a fold over the fields of its message. */
module TransferDecoding {
  import opened Bytes
  import opened Options
  import opened Wire
  import opened TransferFrames

  /** A known field must have its own wire type. */
  function VarintOf(tag: Tag, rest: seq<byte>): (r: Option<Number>)
  {
    if tag.wireType == VARINT_TYPE then ConsumeVarint(rest) else None
  }

  function BytesOf(tag: Tag, rest: seq<byte>): (r: Option<Chunk>)
  {
    if tag.wireType == BYTES_TYPE then ConsumeBytes(rest) else None
  }

  /** What one turn of a loop leaves: the message so far and the bytes still to read. */
  datatype Turn<T> = Turn(message: T, rest: seq<byte>)

  ghost predicate Turned<T>(take: (T, Field) -> Option<T>, t: T, b: seq<byte>, r: Option<Turn<T>>)
  {
    match r
    case None => Decode(take, t, b) == None
    case Some(turn) => |turn.rest| < |b| && Decode(take, t, b) == Decode(take, turn.message, turn.rest)
  }

  /** The field at hand was consumed and taken as `u`. */
  lemma Took<T>(take: (T, Field) -> Option<T>, t: T, b: seq<byte>, h: Head, u: T)
    requires b != [] && ConsumeField(b) == Some(h) && take(t, h.field) == Some(u)
    ensures Turned(take, t, b, Some(Turn(u, b[h.size..])))
  {
    DecodeStep(take, t, b);
  }

  /** The field at hand is malformed or not taken. */
  lemma Refused<T>(take: (T, Field) -> Option<T>, t: T, b: seq<byte>)
    requires b != [] && (ConsumeField(b).Some? ==> take(t, ConsumeField(b).value.field) == None)
    ensures Turned(take, t, b, None)
  {
    DecodeStep(take, t, b);
  }

  lemma NoTag<T>(take: (T, Field) -> Option<T>, t: T, b: seq<byte>)
    requires b != [] && ConsumeTag(b) == None
    ensures Turned(take, t, b, None)
  {
    Refused(take, t, b);
  }

  lemma FieldOf(b: seq<byte>, tag: Tag)
    requires ConsumeTag(b) == Some(tag)
    ensures ConsumeField(b) == FieldAfter(tag, b[tag.size..])
  {
  }

  lemma VarintFieldOf(b: seq<byte>, tag: Tag, n: Number)
    requires ConsumeTag(b) == Some(tag) && VarintOf(tag, b[tag.size..]) == Some(n)
    ensures n.value < TWO64 && tag.size + n.size <= |b|
    ensures ConsumeField(b) == Some(Head(Field(tag.number, Varint64(n.value)), tag.size + n.size))
  {
  }

  lemma BytesFieldOf(b: seq<byte>, tag: Tag, c: Chunk)
    requires ConsumeTag(b) == Some(tag) && BytesOf(tag, b[tag.size..]) == Some(c)
    ensures tag.size + c.size <= |b|
    ensures ConsumeField(b) == Some(Head(Field(tag.number, Bytes(c.content)), tag.size + c.size))
  {
  }

  lemma TookVarint<T>(take: (T, Field) -> Option<T>, t: T, b: seq<byte>, tag: Tag, n: Number, u: T)
    requires b != [] && ConsumeTag(b) == Some(tag) && VarintOf(tag, b[tag.size..]) == Some(n)
    requires n.value < TWO64 && take(t, Field(tag.number, Varint64(n.value))) == Some(u)
    ensures tag.size + n.size <= |b| && Turned(take, t, b, Some(Turn(u, b[tag.size + n.size..])))
  {
    VarintFieldOf(b, tag, n);
    Took(take, t, b, Head(Field(tag.number, Varint64(n.value)), tag.size + n.size), u);
  }

  lemma TookBytes<T>(take: (T, Field) -> Option<T>, t: T, b: seq<byte>, tag: Tag, c: Chunk, u: T)
    requires b != [] && ConsumeTag(b) == Some(tag) && BytesOf(tag, b[tag.size..]) == Some(c)
    requires take(t, Field(tag.number, Bytes(c.content))) == Some(u)
    ensures tag.size + c.size <= |b| && Turned(take, t, b, Some(Turn(u, b[tag.size + c.size..])))
  {
    BytesFieldOf(b, tag, c);
    Took(take, t, b, Head(Field(tag.number, Bytes(c.content)), tag.size + c.size), u);
  }

  lemma RefusedBytes<T>(take: (T, Field) -> Option<T>, t: T, b: seq<byte>, tag: Tag, c: Chunk)
    requires b != [] && ConsumeTag(b) == Some(tag) && BytesOf(tag, b[tag.size..]) == Some(c)
    requires take(t, Field(tag.number, Bytes(c.content))) == None
    ensures Turned(take, t, b, None)
  {
    BytesFieldOf(b, tag, c);
    Refused(take, t, b);
  }

  /** The message takes this field only as a varint. */
  ghost predicate WantsVarint<T>(take: (T, Field) -> Option<T>, t: T, number: nat)
  {
    forall x: Value :: !x.Varint64? ==> take(t, Field(number, x)) == None
  }

  ghost predicate WantsBytes<T>(take: (T, Field) -> Option<T>, t: T, number: nat)
  {
    forall x: Value :: !x.Bytes? ==> take(t, Field(number, x)) == None
  }

  lemma NotVarint<T>(take: (T, Field) -> Option<T>, t: T, b: seq<byte>, tag: Tag)
    requires b != [] && ConsumeTag(b) == Some(tag) && VarintOf(tag, b[tag.size..]) == None
             && WantsVarint(take, t, tag.number)
    ensures Turned(take, t, b, None)
  {
    FieldOf(b, tag);
    Refused(take, t, b);
  }

  lemma NotBytes<T>(take: (T, Field) -> Option<T>, t: T, b: seq<byte>, tag: Tag)
    requires b != [] && ConsumeTag(b) == Some(tag) && BytesOf(tag, b[tag.size..]) == None
             && WantsBytes(take, t, tag.number)
    ensures Turned(take, t, b, None)
  {
    FieldOf(b, tag);
    Refused(take, t, b);
  }

  /** Reads a known varint field and puts it in its place. */
  method PutVarint<T>(ghost take: (T, Field) -> Option<T>, t: T, b: seq<byte>, tag: Tag, put: uint64 -> T)
    returns (r: Option<Turn<T>>)
    requires b != [] && ConsumeTag(b) == Some(tag) && WantsVarint(take, t, tag.number)
    requires forall v: uint64 :: take(t, Field(tag.number, Varint64(v))) == Some(put(v))
    ensures Turned(take, t, b, r)
  {
    var v := VarintOf(tag, b[tag.size..]);
    match v
    case None =>
      NotVarint(take, t, b, tag);
      r := None;
    case Some(n) =>
      TookVarint(take, t, b, tag, n, put(n.value));
      r := Some(Turn(put(n.value), b[tag.size + n.size..]));
  }

  /** Reads a known bytes field and puts a copy in its place. */
  method PutBytes<T>(ghost take: (T, Field) -> Option<T>, t: T, b: seq<byte>, tag: Tag, put: seq<byte> -> T)
    returns (r: Option<Turn<T>>)
    requires b != [] && ConsumeTag(b) == Some(tag) && WantsBytes(take, t, tag.number)
    requires forall s: seq<byte> :: take(t, Field(tag.number, Bytes(s))) == Some(put(s))
    ensures Turned(take, t, b, r)
  {
    var v := BytesOf(tag, b[tag.size..]);
    match v
    case None =>
      NotBytes(take, t, b, tag);
      r := None;
    case Some(c) =>
      TookBytes(take, t, b, tag, c, put(c.content));
      r := Some(Turn(put(c.content), b[tag.size + c.size..]));
  }

  /** Puts what was decoded from a nested message in its place. */
  method PutNested<T>(ghost take: (T, Field) -> Option<T>, ghost t: T, b: seq<byte>, tag: Tag, c: Chunk, u: Option<T>)
    returns (r: Option<Turn<T>>)
    requires b != [] && ConsumeTag(b) == Some(tag) && BytesOf(tag, b[tag.size..]) == Some(c)
    requires take(t, Field(tag.number, Bytes(c.content))) == u
    ensures Turned(take, t, b, r)
  {
    match u
    case None =>
      RefusedBytes(take, t, b, tag, c);
      r := None;
    case Some(m) =>
      TookBytes(take, t, b, tag, c, m);
      r := Some(Turn(m, b[tag.size + c.size..]));
  }

  /** Skips a field the message does not know. */
  method Skip<T>(ghost take: (T, Field) -> Option<T>, t: T, b: seq<byte>, tag: Tag) returns (r: Option<Turn<T>>)
    requires b != [] && ConsumeTag(b) == Some(tag)
    requires forall x: Value :: take(t, Field(tag.number, x)) == Some(t)
    ensures Turned(take, t, b, r)
  {
    FieldOf(b, tag);
    SkipIsRead(tag, b[tag.size..]);
    var n := SkipValue(tag.number, tag.wireType, b[tag.size..], RECURSION_LIMIT);
    match n
    case None =>
      Refused(take, t, b);
      r := None;
    case Some(k) =>
      Took(take, t, b, ConsumeField(b).value, t);
      r := Some(Turn(t, b[tag.size + k..]));
  }

  // ---- tags ----

  method TurnTag(t: uint64, b: seq<byte>) returns (r: Option<Turn<uint64>>)
    requires b != []
    ensures Turned(TakeTag, t, b, r)
  {
    var tag := ConsumeTag(b);
    if tag.None? { NoTag<uint64>(TakeTag, t, b); return None; }
    if tag.value.number == 1 {
      r := PutVarint<uint64>(TakeTag, t, b, tag.value, v => v);
    } else {
      r := Skip<uint64>(TakeTag, t, b, tag.value);
    }
  }

  /** `decodeTag`. */
  method DecodeTagLoop(b: seq<byte>) returns (r: Option<uint64>)
    ensures r == DecodeTag(b)
  {
    var t: uint64, rest := 0, b;
    while rest != []
      invariant DecodeTag(b) == Decode(TakeTag, t, rest)
      decreases |rest|
    {
      var turn := TurnTag(t, rest);
      if turn.None? { return None; }
      t, rest := turn.value.message, turn.value.rest;
    }
    r := Some(t);
  }

  // ---- frames ----

  method TurnFrame(f: Frame, b: seq<byte>) returns (r: Option<Turn<Frame>>)
    requires b != []
    ensures Turned(TakeFrame, f, b, r)
  {
    var tag := ConsumeTag(b);
    if tag.None? { NoTag(TakeFrame, f, b); return None; }
    match tag.value.number
    case 1 => r := PutVarint(TakeFrame, f, b, tag.value, v => f.(messageType := ToInt32(v)));
    case 2 => r := PutBytes(TakeFrame, f, b, tag.value, s => f.(messageBytes := s));
    case 3 => r := PutVarint(TakeFrame, f, b, tag.value, v => f.(raw := DecodeBool(v)));
    case _ => r := Skip(TakeFrame, f, b, tag.value);
  }

  /** `decodeFrame`. */
  method DecodeFrameLoop(b: seq<byte>) returns (r: Option<Frame>)
    ensures r == DecodeFrame(b)
  {
    var f: Frame, rest := NO_FRAME, b;
    while rest != []
      invariant DecodeFrame(b) == Decode(TakeFrame, f, rest)
      decreases |rest|
    {
      var turn := TurnFrame(f, rest);
      if turn.None? { return None; }
      f, rest := turn.value.message, turn.value.rest;
    }
    r := Some(f);
  }

  // ---- paths ----

  method TurnPath(p: PathMessage, b: seq<byte>) returns (r: Option<Turn<PathMessage>>)
    requires b != []
    ensures Turned(TakePath, p, b, r)
  {
    var tag := ConsumeTag(b);
    if tag.None? { NoTag(TakePath, p, b); return None; }
    match tag.value.number
    case 1 => r := PutBytes(TakePath, p, b, tag.value, s => p.(destinationId := s));
    case 2 => r := PutBytes(TakePath, p, b, tag.value, s => p.(sourceId := s));
    case 3 => r := PutBytes(TakePath, p, b, tag.value, s => p.(streamId := s));
    case _ => r := Skip(TakePath, p, b, tag.value);
  }

  /** `decodeTransferPathProto`. */
  method DecodePathLoop(b: seq<byte>) returns (r: Option<PathMessage>)
    ensures r == DecodePath(b)
  {
    var p: PathMessage, rest := NO_IDS, b;
    while rest != []
      invariant DecodePath(b) == Decode(TakePath, p, rest)
      decreases |rest|
    {
      var turn := TurnPath(p, rest);
      if turn.None? { return None; }
      p, rest := turn.value.message, turn.value.rest;
    }
    r := Some(p);
  }

  // ---- packs ----

  method TurnPack(p: Pack, b: seq<byte>) returns (r: Option<Turn<Pack>>)
    requires b != []
    ensures Turned(TakePack, p, b, r)
  {
    var tag := ConsumeTag(b);
    if tag.None? { NoTag(TakePack, p, b); return None; }
    match tag.value.number
    case 1 => r := PutBytes(TakePack, p, b, tag.value, s => p.(messageId := s));
    case 2 => r := PutBytes(TakePack, p, b, tag.value, s => p.(sequenceId := s));
    case 9 => r := PutBytes(TakePack, p, b, tag.value, s => p.(contractId := s));
    case 3 => r := PutVarint(TakePack, p, b, tag.value, v => p.(sequenceNumber := v));
    case 4 => r := PutVarint(TakePack, p, b, tag.value, v => p.(head := DecodeBool(v)));
    case 6 => r := PutVarint(TakePack, p, b, tag.value, v => p.(nack := DecodeBool(v)));
    case 5 => r := TurnPackFrame(p, b, tag.value);
    case 7 => r := TurnPackFrame(p, b, tag.value);
    case 8 => r := TurnPackTag(p, b, tag.value);
    case _ => r := Skip(TakePack, p, b, tag.value);
  }

  method TurnPackFrame(p: Pack, b: seq<byte>, tag: Tag) returns (r: Option<Turn<Pack>>)
    requires b != [] && ConsumeTag(b) == Some(tag) && tag.number in {5, 7}
    ensures Turned(TakePack, p, b, r)
  {
    var c := BytesOf(tag, b[tag.size..]);
    if c.None? { NotBytes(TakePack, p, b, tag); return None; }
    var f := DecodeFrameLoop(c.value.content);
    var q :=
      if f.None? then None
      else if tag.number == 5 then Some(p.(frames := p.frames + [f.value]))
      else Some(p.(contractFrame := f));
    r := PutNested(TakePack, p, b, tag, c.value, q);
  }

  method TurnPackTag(p: Pack, b: seq<byte>, tag: Tag) returns (r: Option<Turn<Pack>>)
    requires b != [] && ConsumeTag(b) == Some(tag) && tag.number == 8
    ensures Turned(TakePack, p, b, r)
  {
    var c := BytesOf(tag, b[tag.size..]);
    if c.None? { NotBytes(TakePack, p, b, tag); return None; }
    var t := DecodeTagLoop(c.value.content);
    r := PutNested(TakePack, p, b, tag, c.value, if t.None? then None else Some(p.(tag := t)));
  }

  /** `decodePack`. */
  method DecodePackLoop(b: seq<byte>) returns (r: Option<Pack>)
    ensures r == DecodePack(b)
  {
    var p: Pack, rest := NO_PACK, b;
    while rest != []
      invariant DecodePack(b) == Decode(TakePack, p, rest)
      decreases |rest|
    {
      var turn := TurnPack(p, rest);
      if turn.None? { return None; }
      p, rest := turn.value.message, turn.value.rest;
    }
    r := Some(p);
  }

  // ---- acks ----

  method TurnAck(a: Ack, b: seq<byte>) returns (r: Option<Turn<Ack>>)
    requires b != []
    ensures Turned(TakeAck, a, b, r)
  {
    var tag := ConsumeTag(b);
    if tag.None? { NoTag(TakeAck, a, b); return None; }
    match tag.value.number
    case 1 => r := PutBytes(TakeAck, a, b, tag.value, s => a.(messageId := s));
    case 2 => r := PutBytes(TakeAck, a, b, tag.value, s => a.(sequenceId := s));
    case 3 => r := PutVarint(TakeAck, a, b, tag.value, v => a.(selective := DecodeBool(v)));
    case 4 => r := TurnAckTag(a, b, tag.value);
    case _ => r := Skip(TakeAck, a, b, tag.value);
  }

  method TurnAckTag(a: Ack, b: seq<byte>, tag: Tag) returns (r: Option<Turn<Ack>>)
    requires b != [] && ConsumeTag(b) == Some(tag) && tag.number == 4
    ensures Turned(TakeAck, a, b, r)
  {
    var c := BytesOf(tag, b[tag.size..]);
    if c.None? { NotBytes(TakeAck, a, b, tag); return None; }
    var t := DecodeTagLoop(c.value.content);
    r := PutNested(TakeAck, a, b, tag, c.value, if t.None? then None else Some(a.(tag := t)));
  }

  /** `decodeAck`. */
  method DecodeAckLoop(b: seq<byte>) returns (r: Option<Ack>)
    ensures r == DecodeAck(b)
  {
    var a: Ack, rest := NO_ACK, b;
    while rest != []
      invariant DecodeAck(b) == Decode(TakeAck, a, rest)
      decreases |rest|
    {
      var turn := TurnAck(a, rest);
      if turn.None? { return None; }
      a, rest := turn.value.message, turn.value.rest;
    }
    r := Some(a);
  }

  // ---- transfer frames ----

  method TurnTransfer(decodePath: bool, t: TransferFrame, b: seq<byte>) returns (r: Option<Turn<TransferFrame>>)
    requires b != []
    ensures Turned(TakerOf(decodePath), t, b, r)
  {
    ghost var take := TakerOf(decodePath);
    var tag := ConsumeTag(b);
    if tag.None? { NoTag(take, t, b); return None; }
    match tag.value.number
    case 3 => r := PutVarint(take, t, b, tag.value, v => t);
    case 7 => r := PutVarint(take, t, b, tag.value, v => t.(sessionRole := Some(ToInt32(v))));
    case 8 => r := PutVarint(take, t, b, tag.value, v => t.(companion := Some(DecodeBool(v))));
    case _ =>
      if tag.value.number in {1, 2, 4, 5, 6} {
        r := TurnTransferBytes(decodePath, t, b, tag.value);
      } else {
        r := Skip(take, t, b, tag.value);
      }
  }

  method TurnTransferBytes(decodePath: bool, t: TransferFrame, b: seq<byte>, tag: Tag)
    returns (r: Option<Turn<TransferFrame>>)
    requires b != [] && ConsumeTag(b) == Some(tag) && tag.number in {1, 2, 4, 5, 6}
    ensures Turned(TakerOf(decodePath), t, b, r)
  {
    ghost var take := TakerOf(decodePath);
    var c := BytesOf(tag, b[tag.size..]);
    if c.None? { NotBytes(take, t, b, tag); return None; }
    var u := DecodeInto(decodePath, t, tag.number, c.value.content);
    r := PutNested(take, t, b, tag, c.value, u);
  }

  /** Decodes a nested message into its place. */
  method DecodeInto(decodePath: bool, t: TransferFrame, number: nat, content: seq<byte>)
    returns (r: Option<TransferFrame>)
    requires number in {1, 2, 4, 5, 6}
    ensures r == TakeTransfer(decodePath, t, Field(number, Bytes(content)))
  {
    match number
    case 1 =>
      if !decodePath { return Some(t); }
      var p := DecodePathLoop(content);
      r := if p.Some? then Some(t.(path := p)) else None;
    case 2 =>
      var f := DecodeFrameLoop(content);
      r := if f.Some? then Some(t.(frame := f)) else None;
    case 4 =>
      var p := DecodePackLoop(content);
      r := if p.Some? then Some(t.(pack := p)) else None;
    case 5 =>
      var a := DecodeAckLoop(content);
      r := if a.Some? then Some(t.(ack := a)) else None;
    case _ =>
      r := Some(t.(encrypted := content));
  }

  /** `unmarshalTransferFrame`. */
  method Unmarshal(b: seq<byte>, decodePath: bool) returns (r: Option<TransferFrame>)
    ensures r == UnmarshalTransferFrame(b, decodePath)
  {
    var t, rest := NO_TRANSFER, b;
    while rest != []
      invariant UnmarshalTransferFrame(b, decodePath) == Decode(TakerOf(decodePath), t, rest)
      decreases |rest|
    {
      var turn := TurnTransfer(decodePath, t, rest);
      if turn.None? { return None; }
      t, rest := turn.value.message, turn.value.rest;
    }
    r := Some(t);
  }
}
