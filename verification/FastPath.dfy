/** The allocation-free routing parser (`parseFilteredTransferPath`) and how it refines the full decoder. */
module FastPath {
  import opened Bytes
  import opened Options
  import opened Transfer
  import opened Wire

  // ---- what the parser computes ----

  /** A number of at most ten bytes; bits beyond the 64th are shifted out. */
  function FastVarint(b: seq<byte>): (r: Option<Number>)
    ensures r.Some? ==> 0 < r.value.size <= |b| && r.value.value < TWO64
  {
    match ReadNumber(b, MAX_VARINT)
    case None => None
    case Some(n) => Some(Number(Wrap(n.value), n.size))
  }

  function Wrap(v: nat): (w: uint64)
  {
    if v < TWO64 then v else Wrap(v - TWO64)
  }

  lemma {:induction false} WrapIsMod(v: nat)
    ensures Wrap(v) == v % TWO64
  {
    if v >= TWO64 { WrapIsMod(v - TWO64); }
  }

  function FastBytes(b: seq<byte>): (r: Option<Chunk>)
    ensures r.Some? ==> 0 < r.value.size <= |b| && |r.value.content| < r.value.size
  {
    match FastVarint(b)
    case None => None
    case Some(n) =>
      if |b| - n.size < n.value then None else Some(Chunk(b[n.size..n.size + n.value], n.size + n.value))
  }

  /** The size of a skipped value; groups are refused. */
  function FastSkip(wireType: nat, b: seq<byte>): (r: Option<nat>)
    ensures r.Some? ==> r.value <= |b|
  {
    match wireType
    case 0 => if FastVarint(b).Some? then Some(FastVarint(b).value.size) else None
    case 1 => if |b| < 8 then None else Some(8)
    case 2 => if FastBytes(b).Some? then Some(FastBytes(b).value.size) else None
    case 5 => if |b| < 4 then None else Some(4)
    case _ => None
  }

  function SetId(p: TransferPath, number: nat, id: Id): (q: TransferPath)
  {
    if number == 1 then p.(destinationId := id) else if number == 2 then p.(sourceId := id) else p.(streamId := id)
  }

  /** What a field changes, and the size of its value. */
  datatype Step<T> = Step(state: T, size: nat)

  /** A field of the path: an id of exactly 16 bytes, or anything but a group. */
  function IdField(p: TransferPath, number: nat, wireType: nat, b: seq<byte>): (r: Option<Step<TransferPath>>)
    ensures r.Some? ==> r.value.size <= |b|
  {
    if 1 <= number <= 3 then
      if wireType != BYTES_TYPE then None
      else
        match FastBytes(b)
        case None => None
        case Some(c) => if |c.content| != 16 then None else Some(Step(SetId(p, number, c.content), c.size))
    else
      match FastSkip(wireType, b)
      case None => None
      case Some(n) => Some(Step(p, n))
  }

  /** Field after field until nothing is left. */
  function Loop<S>(field: (S, seq<byte>) -> Option<Step<S>>, s: S, b: seq<byte>): (r: Option<S>)
    decreases |b|
  {
    if b == [] then Some(s)
    else
      match field(s, b)
      case None => None
      case Some(step) => if 0 < step.size <= |b| then Loop(field, step.state, b[step.size..]) else None
  }

  /** A tag, then a value read by `value` for the field number and the wire type. */
  function Tagged<S>(value: (S, nat, nat, seq<byte>) -> Option<Step<S>>, s: S, b: seq<byte>): (r: Option<Step<S>>)
  {
    match FastVarint(b)
    case None => None
    case Some(tag) =>
      match value(s, tag.value / 8, tag.value % 8, b[tag.size..])
      case None => None
      case Some(step) => Some(Step(step.state, tag.size + step.size))
  }

  function IdStep(p: TransferPath, b: seq<byte>): (r: Option<Step<TransferPath>>) { Tagged(IdField, p, b) }

  /** The ids of an encoded path, over those of `p`. */
  function FastIds(p: TransferPath, b: seq<byte>): (r: Option<TransferPath>) { Loop(IdStep, p, b) }

  /** The path so far, and whether there was one. */
  datatype Found = Found(path: TransferPath, present: bool)

  /** The body of a path under its length, whose ids `ids` reads. */
  function PathBody(ids: (TransferPath, seq<byte>) -> Option<TransferPath>, found: Found,
                    b: seq<byte>): (r: Option<Step<Found>>)
  {
    match FastBytes(b)
    case None => None
    case Some(c) =>
      match ids(found.path, c.content)
      case None => None
      case Some(p) => Some(Step(Found(p, true), c.size))
  }

  /** A field of the frame: the path, or anything but a group. */
  function PathField(found: Found, number: nat, wireType: nat, b: seq<byte>): (r: Option<Step<Found>>)
  {
    if number != 1 then
      match FastSkip(wireType, b)
      case None => None
      case Some(n) => Some(Step(found, n))
    else if wireType != BYTES_TYPE then None
    else PathBody(FastIds, found, b)
  }

  function PathStep(found: Found, b: seq<byte>): (r: Option<Step<Found>>) { Tagged(PathField, found, b) }

  function FastPath(found: Found, b: seq<byte>): (r: Option<Found>) { Loop(PathStep, found, b) }

  const NOTHING: Found := Found(NO_PATH, false)

  function ParseFiltered(b: seq<byte>): (r: Option<Found>) { FastPath(NOTHING, b) }

  // ---- the index-based parser ----

  /** The number whose digits, low first, are the low seven bits of `d`. */
  function DigitsValue(d: seq<byte>): (v: nat)
  {
    if d == [] then 0 else d[0] as int % 0x80 + 0x80 * DigitsValue(d[1..])
  }

  lemma {:induction false} DigitsSnoc(d: seq<byte>, c: byte)
    ensures DigitsValue(d + [c]) == DigitsValue(d) + c as int % 0x80 * Power128(|d|)
  {
    if d == [] {
      assert d + [c] == [c] && [c][1..] == [];
    } else {
      DigitsSnoc(d[1..], c);
      assert (d + [c])[1..] == d[1..] + [c];
      Distribute(DigitsValue(d[1..]), c as int % 0x80, Power128(|d| - 1));
    }
  }

  lemma Distribute(high: nat, digit: nat, power: nat)
    ensures 0x80 * (high + digit * power) == 0x80 * high + digit * (0x80 * power)
  {
  }

  /** Every byte of `d` announces another one. */
  predicate Continues(d: seq<byte>)
  {
    forall i :: 0 <= i < |d| ==> 0x80 <= d[i]
  }

  lemma {:induction false} ReadEnds(d: seq<byte>, c: byte, rest: seq<byte>, limit: nat)
    requires Continues(d) && c < 0x80 && |d| < limit
    ensures ReadNumber(d + [c] + rest, limit) == Some(Number(DigitsValue(d + [c]), |d| + 1))
    decreases |d|
  {
    var b := d + [c] + rest;
    if d == [] {
      assert b[0] == c && (d + [c])[1..] == [];
    } else {
      assert b[1..] == d[1..] + [c] + rest && (d + [c])[1..] == d[1..] + [c];
      ReadEnds(d[1..], c, rest, limit - 1);
    }
  }

  lemma {:induction false} ReadFails(d: seq<byte>, rest: seq<byte>, limit: nat)
    requires Continues(d) && (rest == [] || |d| == limit) && |d| <= limit
    ensures ReadNumber(d + rest, limit) == None
    decreases |d|
  {
    if d != [] {
      assert (d + rest)[1..] == d[1..] + rest;
      ReadFails(d[1..], rest, limit - 1);
    }
  }

  lemma VarintEnds(b: seq<byte>, i: nat, j: nat, limit: nat)
    requires i <= j < limit <= |b| && j - i < 10 && Continues(b[i..j]) && b[j] < 0x80
    ensures FastVarint(b[i..limit]) == Some(Number(DigitsValue(b[i..j + 1]) % TWO64, j + 1 - i))
  {
    WrapIsMod(DigitsValue(b[i..j + 1]));
    assert b[i..limit] == b[i..j] + [b[j]] + b[j + 1..limit] && b[i..j + 1] == b[i..j] + [b[j]];
    ReadEnds(b[i..j], b[j], b[j + 1..limit], MAX_VARINT);
  }

  lemma VarintFails(b: seq<byte>, i: nat, j: nat, limit: nat)
    requires i <= j <= limit <= |b| && j - i <= 10 && Continues(b[i..j]) && (j == limit || j - i == 10)
    ensures FastVarint(b[i..limit]) == None
  {
    assert b[i..limit] == b[i..j] + b[j..limit];
    ReadFails(b[i..j], b[j..limit], MAX_VARINT);
  }

  /** `readVarint`: bits at or above the 64th are lost in the shift. */
  method ReadVarintAt(b: seq<byte>, i: nat, limit: nat) returns (r: Option<Number>)
    requires i <= limit <= |b|
    ensures r == FastVarint(b[i..limit])
  {
    var v, shift, power, j := 0, 0, 1, i;
    while true
      invariant i <= j <= limit && j - i <= 10 && shift == 7 * (j - i) && power == Power128(j - i)
      invariant Continues(b[i..j]) && v == DigitsValue(b[i..j]) % TWO64
      decreases limit - j
    {
      if limit <= j || 63 < shift {
        VarintFails(b, i, j, limit);
        return None;
      }
      assert b[i..j + 1] == b[i..j] + [b[j]];
      DigitsSnoc(b[i..j], b[j]);
      v := Shifted(v, b[j], power, DigitsValue(b[i..j]));
      if b[j] < 0x80 {
        VarintEnds(b, i, j, limit);
        return Some(Number(v, j + 1 - i));
      }
      j := j + 1;
      shift := shift + 7;
      power := 0x80 * power;
    }
  }

  method Shifted(v: nat, c: byte, power: nat, ghost exact: nat) returns (w: nat)
    requires v == exact % TWO64
    ensures w == (exact + c as int % 0x80 * power) % TWO64
  {
    w := (v + c as int % 0x80 * power) % TWO64;
    ModAdd(exact, c as int % 0x80 * power);
  }

  lemma ModAdd(a: nat, b: nat)
    ensures (a % TWO64 + b) % TWO64 == (a + b) % TWO64
  {
  }

  /** `readVarint` on what is left before the limit. */
  method ReadVarint(b: seq<byte>) returns (r: Option<Number>)
    ensures r == FastVarint(b)
  {
    assert b[0..|b|] == b;
    r := ReadVarintAt(b, 0, |b|);
  }

  method ReadBytes(b: seq<byte>) returns (r: Option<Chunk>)
    ensures r == FastBytes(b)
  {
    var n := ReadVarint(b);
    if n.None? || |b| - n.value.size < n.value.value { return None; }
    r := Some(Chunk(b[n.value.size..n.value.size + n.value.value], n.value.size + n.value.value));
  }

  /** `skipField`. */
  method SkipField(wireType: nat, b: seq<byte>) returns (r: Option<nat>)
    ensures r == FastSkip(wireType, b)
  {
    match wireType
    case 0 =>
      var n := ReadVarint(b);
      r := if n.None? then None else Some(n.value.size);
    case 1 =>
      r := if |b| < 8 then None else Some(8);
    case 2 =>
      var c := ReadBytes(b);
      r := if c.None? then None else Some(c.value.size);
    case 5 =>
      r := if |b| < 4 then None else Some(4);
    case _ =>
      r := None;
  }

  method ReadIdField(p: TransferPath, number: nat, wireType: nat, b: seq<byte>) returns (r: Option<Step<TransferPath>>)
    ensures r == IdField(p, number, wireType, b)
  {
    if 1 <= number <= 3 {
      if wireType != BYTES_TYPE { return None; }
      var c := ReadBytes(b);
      if c.None? || |c.value.content| != 16 { return None; }
      return Some(Step(SetId(p, number, c.value.content), c.value.size));
    }
    var n := SkipField(wireType, b);
    r := if n.None? then None else Some(Step(p, n.value));
  }

  /** From `b` in state `s` the loop goes on as `r` says. */
  ghost predicate GoesOn<S>(field: (S, seq<byte>) -> Option<Step<S>>, s: S, b: seq<byte>, r: Option<Step<S>>)
  {
    match r
    case None => Loop(field, s, b) == None
    case Some(step) => 0 < step.size <= |b| && Loop(field, s, b) == Loop(field, step.state, b[step.size..])
  }

  lemma LoopStep<S>(field: (S, seq<byte>) -> Option<Step<S>>, s: S, b: seq<byte>, r: Option<Step<S>>)
    requires b != [] && field(s, b) == r && (r.Some? ==> 0 < r.value.size <= |b|)
    ensures GoesOn(field, s, b, r)
  {
  }

  method ReadId(p: TransferPath, b: seq<byte>) returns (r: Option<Step<TransferPath>>)
    requires b != []
    ensures GoesOn(IdStep, p, b, r)
  {
    var tag := ReadVarint(b);
    if tag.None? { LoopStep(IdStep, p, b, None); return None; }
    var step := ReadIdField(p, tag.value.value / 8, tag.value.value % 8, b[tag.value.size..]);
    r := if step.None? then None else Some(Step(step.value.state, tag.value.size + step.value.size));
    LoopStep(IdStep, p, b, r);
  }

  method ReadIds(p: TransferPath, b: seq<byte>) returns (r: Option<TransferPath>)
    ensures r == FastIds(p, b)
  {
    var q, rest := p, b;
    while rest != []
      invariant Loop(IdStep, p, b) == Loop(IdStep, q, rest)
      decreases |rest|
    {
      var step := ReadId(q, rest);
      if step.None? { return None; }
      q, rest := step.value.state, rest[step.value.size..];
    }
    r := Some(q);
  }

  method ReadPathBody(found: Found, b: seq<byte>) returns (r: Option<Step<Found>>)
    ensures r == PathBody(FastIds, found, b)
    ensures r.Some? ==> r.value.size <= |b|
  {
    var c := ReadBytes(b);
    if c.None? { return None; }
    var p := ReadIds(found.path, c.value.content);
    r := if p.None? then None else Some(Step(Found(p.value, true), c.value.size));
  }

  method ReadPathField(found: Found, number: nat, wireType: nat, b: seq<byte>) returns (r: Option<Step<Found>>)
    ensures r == PathField(found, number, wireType, b)
    ensures r.Some? ==> r.value.size <= |b|
  {
    if number != 1 {
      var n := SkipField(wireType, b);
      return if n.None? then None else Some(Step(found, n.value));
    }
    if wireType != BYTES_TYPE { return None; }
    r := ReadPathBody(found, b);
  }

  method ReadPath(found: Found, b: seq<byte>) returns (r: Option<Step<Found>>)
    requires b != []
    ensures GoesOn(PathStep, found, b, r)
  {
    var tag := ReadVarint(b);
    if tag.None? { LoopStep(PathStep, found, b, None); return None; }
    var step := ReadPathField(found, tag.value.value / 8, tag.value.value % 8, b[tag.value.size..]);
    r := if step.None? then None else Some(Step(step.value.state, tag.value.size + step.value.size));
    LoopStep(PathStep, found, b, r);
  }

  /** `parseFilteredTransferPath`. */
  method ParseFilteredTransferPath(b: seq<byte>) returns (r: Option<Found>)
    ensures r == ParseFiltered(b)
  {
    var found, rest := NOTHING, b;
    while rest != []
      invariant Loop(PathStep, NOTHING, b) == Loop(PathStep, found, rest)
      decreases |rest|
    {
      var step := ReadPath(found, rest);
      if step.None? { return None; }
      found, rest := step.value.state, rest[step.value.size..];
    }
    r := Some(found);
  }
}
