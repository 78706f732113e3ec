/** What the decoders read from any list of fields: of each number the last one, if every field has its own type. */
module TransferExact {
  import opened Bytes
  import opened Options
  import opened Wire
  import opened TransferFrames

  /** The value of the last field of that number. */
  function LastOf(fs: seq<Field>, number: nat): (v: Option<Value>)
    decreases |fs|
  {
    if fs == [] then None
    else
      match LastOf(fs[1..], number)
      case Some(v) => Some(v)
      case None => if fs[0].number == number then Some(fs[0].value) else None
  }

  /** The contents of all the fields of that number, in order. */
  function AllOf(fs: seq<Field>, number: nat): (bs: seq<seq<byte>>)
    decreases |fs|
  {
    if fs == [] then []
    else (if fs[0].number == number && fs[0].value.Bytes? then [fs[0].value.b] else []) + AllOf(fs[1..], number)
  }

  // ---- reading one value ----

  function BytesOr(v: Option<Value>, was: seq<byte>): (b: seq<byte>)
  {
    if v.Some? && v.value.Bytes? then v.value.b else was
  }

  function NumberOr(v: Option<Value>, was: uint64): (n: uint64)
  {
    if v.Some? && v.value.Varint64? then v.value.v else was
  }

  /** Any number but zero is true. */
  function FlagOr(v: Option<Value>, was: bool): (b: bool)
  {
    if v.Some? && v.value.Varint64? then v.value.v != 0 else was
  }

  /** The low 32 bits in two's complement. */
  function Signed(v: uint64): (n: int)
  {
    var low := v % 0x1_0000_0000;
    if low < 0x8000_0000 then low else low - 0x1_0000_0000
  }

  lemma SignedIsInt32(v: uint64)
    ensures ToInt32(v) == Signed(v)
  {
  }

  // ---- the types of the fields ----

  /** A field of one of the numbers has a varint, one of the others a byte string. */
  predicate Typed(f: Field, varints: set<nat>, strings: set<nat>)
  {
    (f.number in varints ==> f.value.Varint64?) && (f.number in strings ==> f.value.Bytes?)
  }

  predicate TagOk(f: Field) { Typed(f, {1}, {}) }

  predicate FrameOk(f: Field) { Typed(f, {1, 3}, {2}) }

  predicate PathOk(f: Field) { Typed(f, {}, {1, 2, 3}) }

  predicate AllOk(ok: Field -> bool, fs: seq<Field>)
  {
    forall i :: 0 <= i < |fs| ==> ok(fs[i])
  }

  lemma AllOkCons(ok: Field -> bool, fs: seq<Field>)
    requires fs != []
    ensures AllOk(ok, fs) <==> ok(fs[0]) && AllOk(ok, fs[1..])
  {
    forall i | 0 < i < |fs| ensures fs[i] == fs[1..][i - 1] {}
  }

  lemma {:induction false} LastOk(ok: Field -> bool, fs: seq<Field>, number: nat)
    requires AllOk(ok, fs) && LastOf(fs, number).Some?
    ensures ok(Field(number, LastOf(fs, number).value))
    decreases |fs|
  {
    AllOkCons(ok, fs);
    if LastOf(fs[1..], number).Some? {
      LastOk(ok, fs[1..], number);
    } else {
      assert fs[0] == Field(number, fs[0].value);
    }
  }

  /** Every last value is of a field that is there. */
  lemma LastsOk(ok: Field -> bool, fs: seq<Field>)
    requires AllOk(ok, fs)
    ensures forall number: nat {:trigger LastOf(fs, number)} ::
              LastOf(fs, number).Some? ==> ok(Field(number, LastOf(fs, number).value))
  {
    forall number: nat | LastOf(fs, number).Some? ensures ok(Field(number, LastOf(fs, number).value)) {
      LastOk(ok, fs, number);
    }
  }

  /** The last field of each number. */
  function Lasts(fs: seq<Field>): (of: nat -> Option<Value>) { (n: nat) => LastOf(fs, n) }

  /** The one field. */
  function One(f: Field): (of: nat -> Option<Value>) { (n: nat) => if f.number == n then Some(f.value) else None }

  /** `c` finds what `b` finds, and otherwise what `a` does. */
  ghost predicate Chained(a: nat -> Option<Value>, b: nat -> Option<Value>, c: nat -> Option<Value>)
  {
    forall n: nat :: c(n) == if b(n).Some? then b(n) else a(n)
  }

  lemma LastsChained(fs: seq<Field>)
    requires fs != []
    ensures Chained(One(fs[0]), Lasts(fs[1..]), Lasts(fs))
  {
  }

  predicate Strings(v: Option<Value>) { v.Some? ==> v.value.Bytes? }

  predicate Numbers(v: Option<Value>) { v.Some? ==> v.value.Varint64? }

  // ---- tags, frames and paths ----

  lemma {:induction false} TagExactly(t: uint64, fs: seq<Field>)
    ensures Fold(TakeTag, t, fs) == if AllOk(TagOk, fs) then Some(NumberOr(LastOf(fs, 1), t)) else None
    decreases |fs|
  {
    if fs != [] {
      AllOkCons(TagOk, fs);
      if TagOk(fs[0]) {
        TagExactly(TakeTag(t, fs[0]).value, fs[1..]);
        if AllOk(TagOk, fs[1..]) { LastsOk(TagOk, fs[1..]); }
      }
    }
  }

  function FrameRead(was: Frame, fs: seq<Field>): (f: Frame)
  {
    var t := LastOf(fs, 1);
    Frame(if t.Some? && t.value.Varint64? then Signed(t.value.v) else was.messageType,
          BytesOr(LastOf(fs, 2), was.messageBytes), FlagOr(LastOf(fs, 3), was.raw))
  }

  lemma {:induction false} FrameExactly(t: Frame, fs: seq<Field>)
    ensures Fold(TakeFrame, t, fs) == if AllOk(FrameOk, fs) then Some(FrameRead(t, fs)) else None
    decreases |fs|
  {
    if fs != [] {
      AllOkCons(FrameOk, fs);
      if FrameOk(fs[0]) {
        FrameExactly(TakeFrame(t, fs[0]).value, fs[1..]);
        if AllOk(FrameOk, fs[1..]) { LastsOk(FrameOk, fs[1..]); }
      }
    }
  }

  function PathRead(was: PathMessage, fs: seq<Field>): (p: PathMessage)
  {
    PathMessage(BytesOr(LastOf(fs, 1), was.destinationId), BytesOr(LastOf(fs, 2), was.sourceId),
                BytesOr(LastOf(fs, 3), was.streamId))
  }

  lemma {:induction false} PathExactly(t: PathMessage, fs: seq<Field>)
    ensures Fold(TakePath, t, fs) == if AllOk(PathOk, fs) then Some(PathRead(t, fs)) else None
    decreases |fs|
  {
    if fs != [] {
      AllOkCons(PathOk, fs);
      if PathOk(fs[0]) {
        PathExactly(TakePath(t, fs[0]).value, fs[1..]);
        if AllOk(PathOk, fs[1..]) { LastsOk(PathOk, fs[1..]); }
      }
    }
  }

  // ---- packs and acks ----

  predicate ReadsFrame(f: Field) { f.value.Bytes? && DecodeFrame(f.value.b).Some? }

  predicate ReadsTag(f: Field) { f.value.Bytes? && DecodeTag(f.value.b).Some? }

  function FrameOr(v: Option<Value>, was: Option<Frame>): (f: Option<Frame>)
  {
    if v.Some? && v.value.Bytes? then DecodeFrame(v.value.b) else was
  }

  function TagOr(v: Option<Value>, was: Option<uint64>): (t: Option<uint64>)
  {
    if v.Some? && v.value.Bytes? then DecodeTag(v.value.b) else was
  }

  /** The frames of the contents that are frames, in order. */
  function FramesIn(bs: seq<seq<byte>>): (fs: seq<Frame>)
  {
    if bs == [] then []
    else (if DecodeFrame(bs[0]).Some? then [DecodeFrame(bs[0]).value] else []) + FramesIn(bs[1..])
  }

  predicate PackOk(f: Field)
  {
    && Typed(f, {3, 4, 6}, {1, 2, 5, 7, 8, 9})
    && (f.number in {5, 7} ==> ReadsFrame(f)) && (f.number == 8 ==> ReadsTag(f))
  }

  /** The members of a pack, each by the field of its number, if there is one. */
  function PackBy(was: Pack, of: nat -> Option<Value>, frames: seq<Frame>): (p: Pack)
  {
    Pack(BytesOr(of(1), was.messageId), BytesOr(of(2), was.sequenceId), NumberOr(of(3), was.sequenceNumber),
         FlagOr(of(4), was.head), was.frames + frames, FlagOr(of(6), was.nack), FrameOr(of(7), was.contractFrame),
         TagOr(of(8), was.tag), BytesOr(of(9), was.contractId))
  }

  function PackRead(was: Pack, fs: seq<Field>): (p: Pack) { PackBy(was, Lasts(fs), FramesIn(AllOf(fs, 5))) }

  lemma PackTakes(t: Pack, f: Field)
    ensures TakePack(t, f).Some? <==> PackOk(f)
    ensures PackOk(f) ==> TakePack(t, f).value == PackBy(t, One(f), FirstFrame(f))
  {
  }

  predicate PackTyped(of: nat -> Option<Value>)
  {
    && Strings(of(1)) && Strings(of(2)) && Strings(of(7)) && Strings(of(8)) && Strings(of(9))
    && Numbers(of(3)) && Numbers(of(4)) && Numbers(of(6))
  }

  lemma PackLasts(fs: seq<Field>)
    requires AllOk(PackOk, fs)
    ensures PackTyped(Lasts(fs))
  {
    LastsOk(PackOk, fs);
  }

  lemma PackChains(t: Pack, a: nat -> Option<Value>, b: nat -> Option<Value>, c: nat -> Option<Value>, xs: seq<Frame>,
                   ys: seq<Frame>)
    requires Chained(a, b, c) && PackTyped(b)
    ensures PackBy(PackBy(t, a, xs), b, ys) == PackBy(t, c, xs + ys)
  {
    assert t.frames + xs + ys == t.frames + (xs + ys);
  }

  lemma FramesJoin(b: seq<byte>, bs: seq<seq<byte>>)
    requires DecodeFrame(b).Some?
    ensures FramesIn([b] + bs) == [DecodeFrame(b).value] + FramesIn(bs)
  {
    assert ([b] + bs)[1..] == bs;
  }

  lemma PackJoins(t: Pack, fs: seq<Field>)
    requires fs != [] && PackOk(fs[0]) && AllOk(PackOk, fs[1..])
    ensures TakePack(t, fs[0]).Some? && PackRead(TakePack(t, fs[0]).value, fs[1..]) == PackRead(t, fs)
  {
    var f, rest := fs[0], fs[1..];
    var xs, ys, zs := FirstFrame(f), FramesIn(AllOf(rest, 5)), FramesIn(AllOf(fs, 5));
    assert TakePack(t, f) == Some(PackBy(t, One(f), xs)) by { PackTakes(t, f); }
    assert zs == xs + ys by { FramesChain(fs); }
    PackLasts(rest);
    LastsChained(fs);
    PackChains(t, One(f), Lasts(rest), Lasts(fs), xs, ys);
  }

  function FirstFrame(f: Field): (frames: seq<Frame>)
  {
    if f.number == 5 && ReadsFrame(f) then [DecodeFrame(f.value.b).value] else []
  }

  lemma FramesChain(fs: seq<Field>)
    requires fs != [] && PackOk(fs[0])
    ensures FramesIn(AllOf(fs, 5)) == FirstFrame(fs[0]) + FramesIn(AllOf(fs[1..], 5))
  {
    if fs[0].number == 5 {
      FramesJoin(fs[0].value.b, AllOf(fs[1..], 5));
    } else {
      assert AllOf(fs, 5) == AllOf(fs[1..], 5);
    }
  }

  lemma {:induction false} PackExactly(t: Pack, fs: seq<Field>)
    ensures Fold(TakePack, t, fs) == if AllOk(PackOk, fs) then Some(PackRead(t, fs)) else None
    decreases |fs|
  {
    if fs == [] {
      assert t.frames + [] == t.frames;
    } else {
      AllOkCons(PackOk, fs);
      PackTakes(t, fs[0]);
      if PackOk(fs[0]) {
        PackExactly(TakePack(t, fs[0]).value, fs[1..]);
        if AllOk(PackOk, fs[1..]) { PackJoins(t, fs); }
      }
    }
  }

  predicate AckOk(f: Field)
  {
    Typed(f, {3}, {1, 2, 4}) && (f.number == 4 ==> ReadsTag(f))
  }

  function AckRead(was: Ack, fs: seq<Field>): (a: Ack)
  {
    Ack(BytesOr(LastOf(fs, 1), was.messageId), BytesOr(LastOf(fs, 2), was.sequenceId),
        FlagOr(LastOf(fs, 3), was.selective), TagOr(LastOf(fs, 4), was.tag))
  }

  lemma {:induction false} AckExactly(t: Ack, fs: seq<Field>)
    ensures Fold(TakeAck, t, fs) == if AllOk(AckOk, fs) then Some(AckRead(t, fs)) else None
    decreases |fs|
  {
    if fs != [] {
      AllOkCons(AckOk, fs);
      if AckOk(fs[0]) {
        AckExactly(TakeAck(t, fs[0]).value, fs[1..]);
        if AllOk(AckOk, fs[1..]) { LastsOk(AckOk, fs[1..]); }
      }
    }
  }

  // ---- transfer frames ----

  /** Every field has its type, and what is nested in it decodes; the path only if it is read. */
  predicate TransferOk(decodePath: bool, f: Field)
  {
    && Typed(f, {3, 7, 8}, {1, 2, 4, 5, 6})
    && (f.number == 1 && decodePath ==> DecodePath(f.value.b).Some?)
    && (f.number == 2 ==> DecodeFrame(f.value.b).Some?)
    && (f.number == 4 ==> DecodePack(f.value.b).Some?) && (f.number == 5 ==> DecodeAck(f.value.b).Some?)
  }

  function OkFor(decodePath: bool): (ok: Field -> bool) { f => TransferOk(decodePath, f) }

  /** The members of a frame, each by the field of its number, if there is one. */
  function TransferBy(decodePath: bool, was: TransferFrame, of: nat -> Option<Value>): (t: TransferFrame)
  {
    TransferFrame(
      if decodePath && of(1).Some? && of(1).value.Bytes? then DecodePath(of(1).value.b) else was.path,
      FrameOr(of(2), was.frame),
      if of(4).Some? && of(4).value.Bytes? then DecodePack(of(4).value.b) else was.pack,
      if of(5).Some? && of(5).value.Bytes? then DecodeAck(of(5).value.b) else was.ack,
      BytesOr(of(6), was.encrypted),
      if of(7).Some? && of(7).value.Varint64? then Some(Signed(of(7).value.v)) else was.sessionRole,
      if of(8).Some? && of(8).value.Varint64? then Some(of(8).value.v != 0) else was.companion)
  }

  function TransferRead(decodePath: bool, was: TransferFrame, fs: seq<Field>): (t: TransferFrame)
  {
    TransferBy(decodePath, was, Lasts(fs))
  }

  lemma TransferTakes(decodePath: bool, t: TransferFrame, f: Field)
    ensures TakeTransfer(decodePath, t, f).Some? <==> TransferOk(decodePath, f)
    ensures TransferOk(decodePath, f) ==> TakeTransfer(decodePath, t, f).value == TransferBy(decodePath, t, One(f))
  {
    if f.value.Varint64? { SignedIsInt32(f.value.v); }
  }

  predicate TransferTyped(of: nat -> Option<Value>)
  {
    && Strings(of(1)) && Strings(of(2)) && Strings(of(4)) && Strings(of(5)) && Strings(of(6))
    && Numbers(of(7)) && Numbers(of(8))
  }

  lemma TransferLasts(decodePath: bool, fs: seq<Field>)
    requires AllOk(OkFor(decodePath), fs)
    ensures TransferTyped(Lasts(fs))
  {
    LastsOk(OkFor(decodePath), fs);
  }

  lemma TransferChains(decodePath: bool, t: TransferFrame, a: nat -> Option<Value>, b: nat -> Option<Value>,
                       c: nat -> Option<Value>)
    requires Chained(a, b, c) && TransferTyped(b)
    ensures TransferBy(decodePath, TransferBy(decodePath, t, a), b) == TransferBy(decodePath, t, c)
  {
  }

  lemma TransferJoins(decodePath: bool, t: TransferFrame, fs: seq<Field>)
    requires fs != [] && TransferOk(decodePath, fs[0]) && AllOk(OkFor(decodePath), fs[1..])
    ensures TakeTransfer(decodePath, t, fs[0]).Some?
    ensures TransferRead(decodePath, TakeTransfer(decodePath, t, fs[0]).value, fs[1..]) ==
            TransferRead(decodePath, t, fs)
  {
    TransferTakes(decodePath, t, fs[0]);
    TransferLasts(decodePath, fs[1..]);
    LastsChained(fs);
    TransferChains(decodePath, t, One(fs[0]), Lasts(fs[1..]), Lasts(fs));
  }

  lemma {:induction false} TransferExactly(decodePath: bool, t: TransferFrame, fs: seq<Field>)
    ensures Fold(TakerOf(decodePath), t, fs) ==
            if AllOk(OkFor(decodePath), fs) then Some(TransferRead(decodePath, t, fs)) else None
    decreases |fs|
  {
    if fs != [] {
      AllOkCons(OkFor(decodePath), fs);
      TransferTakes(decodePath, t, fs[0]);
      if TransferOk(decodePath, fs[0]) {
        TransferExactly(decodePath, TakeTransfer(decodePath, t, fs[0]).value, fs[1..]);
        if AllOk(OkFor(decodePath), fs[1..]) { TransferJoins(decodePath, t, fs); }
      }
    }
  }

  /**
   * On every buffer: it is accepted if and only if its fields can be read and each has its type, and then every member
   * of the frame is what the last field of its number says.
   */
  lemma UnmarshalExactly(b: seq<byte>, decodePath: bool)
    ensures UnmarshalTransferFrame(b, decodePath) ==
            match ParseFields(b)
            case None => None
            case Some(fs) =>
              if AllOk(OkFor(decodePath), fs) then Some(TransferRead(decodePath, NO_TRANSFER, fs)) else None
  {
    if ParseFields(b).Some? { TransferExactly(decodePath, NO_TRANSFER, ParseFields(b).value); }
  }

  /** The same for what is nested in a frame. */
  lemma NestedExactly(b: seq<byte>)
    ensures ParseFields(b).None? ==>
              DecodePath(b) == None && DecodeFrame(b) == None && DecodeTag(b) == None && DecodePack(b) == None
              && DecodeAck(b) == None
    ensures ParseFields(b).Some? ==>
              var fs := ParseFields(b).value;
              && DecodePath(b) == (if AllOk(PathOk, fs) then Some(PathRead(NO_IDS, fs)) else None)
              && DecodeFrame(b) == (if AllOk(FrameOk, fs) then Some(FrameRead(NO_FRAME, fs)) else None)
              && DecodeTag(b) == (if AllOk(TagOk, fs) then Some(NumberOr(LastOf(fs, 1), 0)) else None)
              && DecodePack(b) == (if AllOk(PackOk, fs) then Some(PackRead(NO_PACK, fs)) else None)
              && DecodeAck(b) == (if AllOk(AckOk, fs) then Some(AckRead(NO_ACK, fs)) else None)
  {
    if ParseFields(b).Some? {
      var fs := ParseFields(b).value;
      PathExactly(NO_IDS, fs);
      FrameExactly(NO_FRAME, fs);
      TagExactly(0, fs);
      PackExactly(NO_PACK, fs);
      AckExactly(NO_ACK, fs);
    }
  }

  /** An encrypted frame: path, ciphertext, role and companion flag come back as they were encoded. */
  lemma EncryptedRoundTrip(path: seq<byte>, cipher: seq<byte>, role: uint64, companion: bool, decodePath: bool,
                           fs: seq<Field>)
    requires |path| < TWO64 && |cipher| < TWO64 && DecodePath(path).Some?
    requires fs == [BytesField(1, path), BytesField(6, cipher), VarintField(7, role),
                    VarintField(8, if companion then 1 else 0)]
    ensures UnmarshalTransferFrame(EncodeFields(fs), decodePath) ==
            Some(TransferFrame(if decodePath then DecodePath(path) else None, None, None, None, cipher,
                               Some(Signed(role)), Some(companion)))
  {
    FieldsRoundTrip(fs);
    UnmarshalExactly(EncodeFields(fs), decodePath);
    FourOk(fs, decodePath);
    FourLast(fs);
    FourRead(decodePath, Lasts(fs), path, cipher, role, if companion then 1 else 0);
  }

  lemma FourOk(fs: seq<Field>, decodePath: bool)
    requires |fs| == 4 && fs[0].number == 1 && fs[1].number == 6 && fs[2].number == 7 && fs[3].number == 8
    requires fs[0].value.Bytes? && DecodePath(fs[0].value.b).Some? && fs[1].value.Bytes?
    requires fs[2].value.Varint64? && fs[3].value.Varint64?
    ensures AllOk(OkFor(decodePath), fs)
  {
    forall i | 0 <= i < |fs| ensures TransferOk(decodePath, fs[i]) {}
  }

  lemma FourRead(decodePath: bool, of: nat -> Option<Value>, path: seq<byte>, cipher: seq<byte>, role: uint64,
                 companion: uint64)
    requires of(1) == Some(Bytes(path)) && of(6) == Some(Bytes(cipher)) && of(2) == of(4) == of(5) == None
    requires of(7) == Some(Varint64(role)) && of(8) == Some(Varint64(companion))
    ensures TransferBy(decodePath, NO_TRANSFER, of) ==
            TransferFrame(if decodePath then DecodePath(path) else None, None, None, None, cipher, Some(Signed(role)),
                          Some(companion != 0))
  {
  }

  lemma FourLast(fs: seq<Field>)
    requires |fs| == 4 && fs[0].number == 1 && fs[1].number == 6 && fs[2].number == 7 && fs[3].number == 8
    ensures LastOf(fs, 1) == Some(fs[0].value) && LastOf(fs, 6) == Some(fs[1].value)
    ensures LastOf(fs, 7) == Some(fs[2].value) && LastOf(fs, 8) == Some(fs[3].value)
    ensures LastOf(fs, 2) == LastOf(fs, 4) == LastOf(fs, 5) == None
  {
    var a, b, c := fs[1..], fs[1..][1..], fs[1..][1..][1..];
    assert a[0] == fs[1] && b[0] == fs[2] && c[0] == fs[3] && c[1..] == [];
    forall n: nat ensures LastOf(c, n) == if n == 8 then Some(fs[3].value) else None { LastCons(c, n); }
    forall n: nat ensures LastOf(b, n) == if n == 7 then Some(fs[2].value) else LastOf(c, n) { LastCons(b, n); }
    forall n: nat ensures LastOf(a, n) == if n == 6 then Some(fs[1].value) else LastOf(b, n) { LastCons(a, n); }
  }

  lemma LastCons(fs: seq<Field>, number: nat)
    requires fs != []
    ensures LastOf(fs, number) ==
            if LastOf(fs[1..], number).Some? then LastOf(fs[1..], number)
            else if fs[0].number == number then Some(fs[0].value) else None
  {
  }
}
