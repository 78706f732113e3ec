/** Decoding an encoded transfer frame recovers every field the decoder reads. */
module TransferRoundTrip {
  import opened Bytes
  import opened Options
  import opened Transfer
  import opened Wire
  import opened TransferFrames
  import opened TransferEncoding

  // ---- folds over the pieces of a message ----

  lemma FoldCons<T>(take: (T, Field) -> Option<T>, t: T, f: Field, rest: seq<Field>, u: T)
    requires take(t, f) == Some(u)
    ensures Fold(take, t, [f] + rest) == Fold(take, u, rest)
  {
    assert ([f] + rest)[1..] == rest;
  }

  lemma FoldIf<T>(take: (T, Field) -> Option<T>, t: T, present: bool, f: Field, rest: seq<Field>, u: T)
    requires present ==> take(t, f) == Some(u)
    ensures Fold(take, t, If(present, f) + rest) == Fold(take, if present then u else t, rest)
  {
    if present { FoldCons(take, t, f, rest, u); } else { assert [] + rest == rest; }
  }

  lemma FoldLast<T>(take: (T, Field) -> Option<T>, t: T, present: bool, f: Field, u: T)
    requires present ==> take(t, f) == Some(u)
    ensures Fold(take, t, If(present, f)) == Some(if present then u else t)
  {
    FoldIf(take, t, present, f, [], u);
    assert If(present, f) + [] == If(present, f);
  }

  // ---- messages that fit in memory are encodable ----

  lemma {:induction false} PartWithin<T>(encode: T -> seq<byte>, xs: seq<T>, i: nat)
    requires i < |xs|
    ensures |encode(xs[i])| <= |Flatten(encode, xs)|
  {
    if i > 0 { PartWithin(encode, xs[1..], i - 1); }
  }

  predicate Numbered(fs: seq<Field>)
  {
    forall i :: 0 <= i < |fs| ==> 1 <= fs[i].number < 10 && !fs[i].value.Skipped?
  }

  /** The encoding fits a slice of the machine. */
  predicate Fits(fs: seq<Field>) { |EncodeFields(fs)| < TWO64 }

  lemma FitsEncodable(fs: seq<Field>)
    requires Numbered(fs) && Fits(fs)
    ensures AllEncodable(fs)
  {
    forall i | 0 <= i < |fs| ensures Encodable(fs[i]) {
      PartWithin(EncodeField, fs, i);
    }
  }

  lemma ChildFits(fs: seq<Field>, f: Field, child: seq<Field>)
    requires f in fs && f.value == Bytes(EncodeFields(child)) && Fits(fs)
    ensures Fits(child)
  {
    var i :| 0 <= i < |fs| && fs[i] == f;
    PartWithin(EncodeField, fs, i);
  }

  /** What a decoder makes of an encoded message is the fold over its fields. */
  lemma DecodeEncoded<T>(take: (T, Field) -> Option<T>, t: T, fs: seq<Field>)
    requires Numbered(fs) && Fits(fs)
    ensures Decode(take, t, EncodeFields(fs)) == Fold(take, t, fs)
  {
    FitsEncodable(fs);
    FieldsRoundTrip(fs);
  }

  // ---- the nested messages ----

  lemma FrameRoundTrip(f: Frame)
    requires Fits(FrameFields(f))
    ensures DecodeFrame(EncodeFields(FrameFields(f))) == Some(f)
  {
    DecodeEncoded(TakeFrame, NO_FRAME, FrameFields(f));
    EnumRoundTrip(f.messageType);
    var t := NO_FRAME.(messageType := f.messageType);
    var u := t.(messageBytes := f.messageBytes);
    FoldIf(TakeFrame, NO_FRAME, f.messageType != 0, VarintField(1, ToUint64(f.messageType)),
           If(f.messageBytes != [], BytesField(2, f.messageBytes)) + If(f.raw, VarintField(3, 1)), t);
    FoldIf(TakeFrame, t, f.messageBytes != [], BytesField(2, f.messageBytes), If(f.raw, VarintField(3, 1)), u);
    FoldLast(TakeFrame, u, f.raw, VarintField(3, 1), u.(raw := true));
  }

  lemma TagRoundTrip(sendTime: uint64)
    requires Fits(TagFields(sendTime))
    ensures DecodeTag(EncodeFields(TagFields(sendTime))) == Some(sendTime)
  {
    DecodeEncoded(TakeTag, 0, TagFields(sendTime));
    FoldLast(TakeTag, 0, sendTime != 0, VarintField(1, sendTime), sendTime);
  }

  function IdBytes(id: Id): (b: seq<byte>) { if id == ZERO_ID then [] else id }

  function PathMessageOf(p: TransferPath): (m: PathMessage)
  {
    PathMessage(IdBytes(p.destinationId), IdBytes(p.sourceId), IdBytes(p.streamId))
  }

  /** The ids of a path come back, the zero ones as absent. */
  lemma PathRoundTrip(p: TransferPath)
    requires Fits(PathFields(p))
    ensures DecodePath(EncodeFields(PathFields(p))) == Some(PathMessageOf(p))
    ensures PathFrom(Some(PathMessageOf(p))) == Some(p)
  {
    DecodeEncoded(TakePath, NO_IDS, PathFields(p));
    FoldPath(p);
  }

  lemma FoldPath(p: TransferPath)
    ensures Fold(TakePath, NO_IDS, PathFields(p)) == Some(PathMessageOf(p))
  {
    var t := NO_IDS.(destinationId := IdBytes(p.destinationId));
    var u := t.(sourceId := IdBytes(p.sourceId));
    FoldIf(TakePath, NO_IDS, p.destinationId != ZERO_ID, BytesField(1, p.destinationId),
           If(p.sourceId != ZERO_ID, BytesField(2, p.sourceId))
           + If(p.streamId != ZERO_ID, BytesField(3, p.streamId)), t);
    FoldIf(TakePath, t, p.sourceId != ZERO_ID, BytesField(2, p.sourceId),
           If(p.streamId != ZERO_ID, BytesField(3, p.streamId)), u);
    FoldLast(TakePath, u, p.streamId != ZERO_ID, BytesField(3, p.streamId), u.(streamId := p.streamId));
  }

  // ---- packs ----

  function PackOf(m: SendPack): (p: Pack)
  {
    Pack(m.messageId, m.sequenceId, m.sequenceNumber, m.head, m.frames, m.nack, m.contractFrame, Some(m.tagSendTime),
         match m.contractId case None => [] case Some(id) => id)
  }

  predicate FramesFit(frames: seq<Frame>)
  {
    forall i :: 0 <= i < |frames| ==> Fits(FrameFields(frames[i]))
  }

  /** Taking the field `fs[i]` adds `xs[i]`, whatever was taken before. */
  ghost predicate Adds<T(!new), X(!new)>(take: (T, Field) -> Option<T>, add: (T, X) -> T, fs: seq<Field>, xs: seq<X>)
  {
    |fs| == |xs| && forall t, i :: 0 <= i < |fs| ==> take(t, fs[i]) == Some(add(t, xs[i]))
  }

  function AddAll<T, X>(add: (T, X) -> T, t: T, xs: seq<X>): (r: T)
  {
    if xs == [] then t else AddAll(add, add(t, xs[0]), xs[1..])
  }

  lemma {:induction false} FoldRepeated<T(!new), X(!new)>(
    take: (T, Field) -> Option<T>, add: (T, X) -> T, t: T, fs: seq<Field>, xs: seq<X>, rest: seq<Field>)
    requires Adds(take, add, fs, xs)
    ensures Fold(take, t, fs + rest) == Fold(take, AddAll(add, t, xs), rest)
    decreases |fs|
  {
    if fs == [] {
      assert fs + rest == rest;
    } else {
      assert fs + rest == [fs[0]] + (fs[1..] + rest);
      FoldCons(take, t, fs[0], fs[1..] + rest, add(t, xs[0]));
      FoldRepeated(take, add, add(t, xs[0]), fs[1..], xs[1..], rest);
    }
  }

  function AddFrame(p: Pack, f: Frame): (q: Pack) { p.(frames := p.frames + [f]) }

  lemma {:induction false} AddFrames(p: Pack, frames: seq<Frame>)
    ensures AddAll(AddFrame, p, frames) == p.(frames := p.frames + frames)
    decreases |frames|
  {
    if frames == [] {
      assert p.frames + frames == p.frames;
    } else {
      AddFrames(AddFrame(p, frames[0]), frames[1..]);
      assert p.frames + [frames[0]] + frames[1..] == p.frames + frames;
    }
  }

  lemma TakeOneFrame(p: Pack, f: Frame)
    requires Fits(FrameFields(f))
    ensures TakePack(p, FrameField(5, f)) == Some(AddFrame(p, f))
  {
    FrameRoundTrip(f);
  }

  lemma FoldFrames(p: Pack, frames: seq<Frame>, rest: seq<Field>)
    requires FramesFit(frames)
    ensures Fold(TakePack, p, FramesFields(frames) + rest) == Fold(TakePack, p.(frames := p.frames + frames), rest)
  {
    var fs := FramesFields(frames);
    forall q: Pack, i | 0 <= i < |fs| ensures TakePack(q, fs[i]) == Some(AddFrame(q, frames[i])) {
      assert Fits(FrameFields(frames[i]));
      TakeOneFrame(q, frames[i]);
    }
    FoldRepeated(TakePack, AddFrame, p, fs, frames, rest);
    AddFrames(p, frames);
  }

  lemma TakeContractFrame(p: Pack, f: Frame)
    requires Fits(FrameFields(f))
    ensures TakePack(p, FrameField(7, f)) == Some(p.(contractFrame := Some(f)))
  {
    FrameRoundTrip(f);
  }

  lemma FoldContractFrame(p: Pack, f: Option<Frame>, rest: seq<Field>)
    requires p.contractFrame == None && (f.Some? ==> Fits(FrameFields(f.value)))
    ensures Fold(TakePack, p, ContractFrameFields(f) + rest) == Fold(TakePack, p.(contractFrame := f), rest)
  {
    match f
    case None => assert ContractFrameFields(f) + rest == rest;
    case Some(frame) =>
      TakeContractFrame(p, frame);
      FoldCons(TakePack, p, FrameField(7, frame), rest, p.(contractFrame := f));
  }

  lemma FoldPackTail(p: Pack, m: SendPack)
    requires p.contractFrame == None && p.contractId == [] && p.nack == false
    requires (m.contractFrame.Some? ==> Fits(FrameFields(m.contractFrame.value))) && Fits(TagFields(m.tagSendTime))
    ensures Fold(TakePack, p, PackTail(m)) ==
            Some(p.(nack := m.nack, contractFrame := m.contractFrame, tag := Some(m.tagSendTime),
                    contractId := PackOf(m).contractId))
  {
    var ids := ContractIdFields(m.contractId);
    var tag := BytesField(8, EncodeFields(TagFields(m.tagSendTime)));
    var p1 := p.(nack := m.nack);
    var p2 := p1.(contractFrame := m.contractFrame);
    var p3 := p2.(tag := Some(m.tagSendTime));
    FoldIf(TakePack, p, m.nack, VarintField(6, 1), ContractFrameFields(m.contractFrame) + ([tag] + ids), p1);
    FoldContractFrame(p1, m.contractFrame, [tag] + ids);
    TakePackTag(p2, m.tagSendTime);
    FoldCons(TakePack, p2, tag, ids, p3);
    FoldContractId(p3, m.contractId);
  }

  lemma TakePackTag(p: Pack, sendTime: uint64)
    requires Fits(TagFields(sendTime))
    ensures TakePack(p, BytesField(8, EncodeFields(TagFields(sendTime)))) == Some(p.(tag := Some(sendTime)))
  {
    TagRoundTrip(sendTime);
  }

  lemma FoldContractId(p: Pack, id: Option<Id>)
    requires p.contractId == []
    ensures Fold(TakePack, p, ContractIdFields(id)) ==
              Some(p.(contractId := match id case None => [] case Some(i) => i))
  {
    if id.Some? { FoldLast(TakePack, p, true, BytesField(9, id.value), p.(contractId := id.value)); }
  }

  lemma FoldPack(m: SendPack)
    requires FramesFit(m.frames)
    requires (m.contractFrame.Some? ==> Fits(FrameFields(m.contractFrame.value))) && Fits(TagFields(m.tagSendTime))
    ensures Fold(TakePack, NO_PACK, PackFields(m)) == Some(PackOf(m))
  {
    var tail := FramesFields(m.frames) + PackTail(m);
    var rest := If(m.sequenceNumber != 0, VarintField(3, m.sequenceNumber)) + (If(m.head, VarintField(4, 1)) + tail);
    var p1 := NO_PACK.(messageId := m.messageId);
    var p2 := p1.(sequenceId := m.sequenceId);
    var p3 := p2.(sequenceNumber := m.sequenceNumber);
    var p4 := p3.(head := m.head);
    var p5 := p4.(frames := m.frames);
    assert PackFields(m) == [BytesField(1, m.messageId)] + ([BytesField(2, m.sequenceId)] + rest);
    FoldCons(TakePack, NO_PACK, BytesField(1, m.messageId), [BytesField(2, m.sequenceId)] + rest, p1);
    FoldCons(TakePack, p1, BytesField(2, m.sequenceId), rest, p2);
    FoldIf(TakePack, p2, m.sequenceNumber != 0, VarintField(3, m.sequenceNumber),
           If(m.head, VarintField(4, 1)) + tail, p3);
    FoldIf(TakePack, p3, m.head, VarintField(4, 1), tail, p4);
    FoldFrames(p4, m.frames, PackTail(m));
    assert p4.frames + m.frames == m.frames;
    FoldPackTail(p5, m);
  }

  lemma NumberedJoin(a: seq<Field>, b: seq<Field>)
    requires Numbered(a) && Numbered(b)
    ensures Numbered(a + b)
  {
  }

  lemma PackNumbered(m: SendPack)
    ensures Numbered(PackFields(m))
  {
    PackIsHeadFramesTail(m);
    NumberedJoin(PackHead(m), FramesFields(m.frames));
    NumberedJoin(PackHead(m) + FramesFields(m.frames), PackTail(m));
  }

  lemma PackFramesFit(m: SendPack)
    requires Fits(PackFields(m))
    ensures FramesFit(m.frames)
  {
    forall i | 0 <= i < |m.frames| ensures Fits(FrameFields(m.frames[i])) {
      FrameWithin(m, i);
      ChildFits(PackFields(m), FrameField(5, m.frames[i]), FrameFields(m.frames[i]));
    }
  }

  lemma FrameWithin(m: SendPack, i: nat)
    requires i < |m.frames|
    ensures FrameField(5, m.frames[i]) in PackFields(m)
  {
    PackIsHeadFramesTail(m);
    assert FramesFields(m.frames)[i] == FrameField(5, m.frames[i]);
  }

  lemma PackParts(m: SendPack)
    requires Fits(PackFields(m))
    ensures (m.contractFrame.Some? ==> Fits(FrameFields(m.contractFrame.value))) && Fits(TagFields(m.tagSendTime))
  {
    var fs := PackFields(m);
    PackIsHeadFramesTail(m);
    if m.contractFrame.Some? {
      ChildFits(fs, FrameField(7, m.contractFrame.value), FrameFields(m.contractFrame.value));
    }
    ChildFits(fs, BytesField(8, EncodeFields(TagFields(m.tagSendTime))), TagFields(m.tagSendTime));
  }

  lemma PackRoundTrip(m: SendPack)
    requires Fits(PackFields(m))
    ensures DecodePack(EncodeFields(PackFields(m))) == Some(PackOf(m))
  {
    PackNumbered(m);
    PackFramesFit(m);
    PackParts(m);
    DecodeEncoded(TakePack, NO_PACK, PackFields(m));
    FoldPack(m);
  }

  // ---- acks ----

  function AckOf(m: SendAck): (a: Ack)
  {
    Ack(m.messageId, m.sequenceId, m.selective, m.tag)
  }

  /** The receive window, field 8, is encoded but skipped, and disturbs nothing. */
  lemma AckRoundTrip(m: SendAck)
    requires Fits(AckFields(m))
    ensures DecodeAck(EncodeFields(AckFields(m))) == Some(AckOf(m))
  {
    DecodeEncoded(TakeAck, NO_ACK, AckFields(m));
    FoldAck(m);
  }

  lemma FoldAckTag(a: Ack, m: SendAck)
    requires Fits(AckFields(m)) && a.tag == None
    ensures Fold(TakeAck, a, AckTagFields(m.tag) + WindowFields(m.receiveWindow)) ==
              Fold(TakeAck, a.(tag := m.tag), WindowFields(m.receiveWindow))
  {
    var window := WindowFields(m.receiveWindow);
    if m.tag.Some? {
      var tag := BytesField(4, EncodeFields(TagFields(m.tag.value)));
      ChildFits(AckFields(m), tag, TagFields(m.tag.value));
      TagRoundTrip(m.tag.value);
      FoldCons(TakeAck, a, tag, window, a.(tag := m.tag));
    } else {
      assert AckTagFields(m.tag) + window == window;
    }
  }

  lemma FoldAck(m: SendAck)
    requires Fits(AckFields(m))
    ensures Fold(TakeAck, NO_ACK, AckFields(m)) == Some(AckOf(m))
  {
    var window := WindowFields(m.receiveWindow);
    var rest := If(m.selective, VarintField(3, 1)) + (AckTagFields(m.tag) + window);
    var a1 := NO_ACK.(messageId := m.messageId);
    var a2 := a1.(sequenceId := m.sequenceId);
    var a3 := a2.(selective := m.selective);
    assert AckFields(m) == [BytesField(1, m.messageId)] + ([BytesField(2, m.sequenceId)] + rest);
    FoldCons(TakeAck, NO_ACK, BytesField(1, m.messageId), [BytesField(2, m.sequenceId)] + rest, a1);
    FoldCons(TakeAck, a1, BytesField(2, m.sequenceId), rest, a2);
    FoldIf(TakeAck, a2, m.selective, VarintField(3, 1), AckTagFields(m.tag) + window, a3);
    FoldAckTag(a3, m);
    if m.receiveWindow.Some? { FoldLast(TakeAck, AckOf(m), true, VarintField(8, m.receiveWindow.value), AckOf(m)); }
  }

  // ---- whole frames ----

  function PackTransfer(m: SendPack, decodePath: bool): (t: TransferFrame)
  {
    TransferFrame(if decodePath then Some(PathMessageOf(m.path)) else None, None, Some(PackOf(m)), None, [],
                  m.sessionRole, if m.companion then Some(true) else None)
  }

  function AckTransfer(m: SendAck, decodePath: bool): (t: TransferFrame)
  {
    TransferFrame(if decodePath then Some(PathMessageOf(m.path)) else None, None, None, Some(AckOf(m)), [], None, None)
  }

  lemma TakePathField(p: TransferPath, decodePath: bool, t: TransferFrame)
    requires Fits(PathFields(p)) && t.path == None
    ensures TakerOf(decodePath)(t, BytesField(1, EncodeFields(PathFields(p)))) ==
            Some(t.(path := if decodePath then Some(PathMessageOf(p)) else None))
  {
    PathRoundTrip(p);
  }

  /** The first three fields of a frame: path, message type, and the pack or ack. */
  lemma FoldTransfer(p: TransferPath, decodePath: bool, messageType: uint64, body: Field, t: TransferFrame,
                     rest: seq<Field>)
    requires Fits(PathFields(p))
    requires var u := NO_TRANSFER.(path := if decodePath then Some(PathMessageOf(p)) else None);
             TakerOf(decodePath)(u, body) == Some(t)
    ensures Fold(TakerOf(decodePath), NO_TRANSFER,
                 [BytesField(1, EncodeFields(PathFields(p))), VarintField(3, messageType), body] + rest)
            == Fold(TakerOf(decodePath), t, rest)
  {
    var take := TakerOf(decodePath);
    var path, kind := BytesField(1, EncodeFields(PathFields(p))), VarintField(3, messageType);
    var u := NO_TRANSFER.(path := if decodePath then Some(PathMessageOf(p)) else None);
    assert [path, kind, body] + rest == [path] + ([kind] + ([body] + rest));
    TakePathField(p, decodePath, NO_TRANSFER);
    FoldCons(take, NO_TRANSFER, path, [kind] + ([body] + rest), u);
    FoldCons(take, u, kind, [body] + rest, u);
    FoldCons(take, u, body, rest, t);
  }

  lemma FoldRole(decodePath: bool, t: TransferFrame, role: Option<int32>, companion: bool)
    requires t.sessionRole == None && t.companion == None
    ensures Fold(TakerOf(decodePath), t, RoleFields(role) + If(companion, VarintField(8, 1))) ==
            Some(t.(sessionRole := role, companion := if companion then Some(true) else None))
  {
    var u := t.(sessionRole := role);
    if role.Some? {
      EnumRoundTrip(role.value);
      FoldCons(TakerOf(decodePath), t, VarintField(7, ToUint64(role.value)), If(companion, VarintField(8, 1)), u);
    } else {
      assert RoleFields(role) + If(companion, VarintField(8, 1)) == If(companion, VarintField(8, 1));
    }
    FoldLast(TakerOf(decodePath), u, companion, VarintField(8, 1), u.(companion := Some(true)));
  }

  lemma TakePackField(m: SendPack, decodePath: bool, t: TransferFrame)
    requires Fits(PackFields(m))
    ensures TakerOf(decodePath)(t, BytesField(4, EncodeFields(PackFields(m)))) == Some(t.(pack := Some(PackOf(m))))
  {
    PackRoundTrip(m);
  }

  lemma TakeAckField(m: SendAck, decodePath: bool, t: TransferFrame)
    requires Fits(AckFields(m))
    ensures TakerOf(decodePath)(t, BytesField(5, EncodeFields(AckFields(m)))) == Some(t.(ack := Some(AckOf(m))))
  {
    AckRoundTrip(m);
  }

  lemma PackFrameFits(m: SendPack)
    requires Fits(PackFrameFields(m))
    ensures Fits(PathFields(m.path)) && Fits(PackFields(m))
  {
    var fs := PackFrameFields(m);
    ChildFits(fs, fs[0], PathFields(m.path));
    ChildFits(fs, fs[2], PackFields(m));
  }

  lemma PackFrameNumbered(m: SendPack)
    ensures Numbered(PackFrameFields(m))
  {
    var tail := RoleFields(m.sessionRole) + If(m.companion, VarintField(8, 1));
    NumberedJoin(RoleFields(m.sessionRole), If(m.companion, VarintField(8, 1)));
    ThreeNumbered(EncodeFields(PathFields(m.path)), TRANSFER_PACK, EncodeFields(PackFields(m)), tail);
  }

  lemma ThreeNumbered(path: seq<byte>, messageType: uint64, body: seq<byte>, rest: seq<Field>)
    requires Numbered(rest)
    ensures Numbered([BytesField(1, path), VarintField(3, messageType), BytesField(4, body)] + rest)
  {
  }

  lemma AckFrameFits(m: SendAck)
    requires Fits(AckFrameFields(m))
    ensures Numbered(AckFrameFields(m)) && Fits(PathFields(m.path)) && Fits(AckFields(m))
  {
    var fs := AckFrameFields(m);
    ChildFits(fs, fs[0], PathFields(m.path));
    ChildFits(fs, fs[2], AckFields(m));
  }

  /** A pack frame decodes to every field it was built from. */
  lemma PackFrameRoundTrip(m: SendPack, decodePath: bool)
    requires Fits(PackFrameFields(m))
    ensures UnmarshalTransferFrame(EncodeFields(PackFrameFields(m)), decodePath) == Some(PackTransfer(m, decodePath))
  {
    PackFrameFits(m);
    PackFrameNumbered(m);
    var u := NO_TRANSFER.(path := if decodePath then Some(PathMessageOf(m.path)) else None);
    TakePackField(m, decodePath, u);
    DecodeEncoded(TakerOf(decodePath), NO_TRANSFER, PackFrameFields(m));
    var t := u.(pack := Some(PackOf(m)));
    FoldTransfer(m.path, decodePath, TRANSFER_PACK, BytesField(4, EncodeFields(PackFields(m))), t,
                 RoleFields(m.sessionRole) + If(m.companion, VarintField(8, 1)));
    FoldRole(decodePath, t, m.sessionRole, m.companion);
  }

  /** An ack frame decodes to every field the decoder reads. */
  lemma AckFrameRoundTrip(m: SendAck, decodePath: bool)
    requires Fits(AckFrameFields(m))
    ensures UnmarshalTransferFrame(EncodeFields(AckFrameFields(m)), decodePath) == Some(AckTransfer(m, decodePath))
  {
    AckFrameFits(m);
    var u := NO_TRANSFER.(path := if decodePath then Some(PathMessageOf(m.path)) else None);
    TakeAckField(m, decodePath, u);
    DecodeEncoded(TakerOf(decodePath), NO_TRANSFER, AckFrameFields(m));
    FoldTransfer(m.path, decodePath, TRANSFER_ACK, BytesField(5, EncodeFields(AckFields(m))),
                 u.(ack := Some(AckOf(m))), []);
    assert AckFrameFields(m) == AckFrameFields(m) + [];
  }
}
