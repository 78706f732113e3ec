/** Transfer frames as protobuf messages: what is sent, its fields, and what a receiver decodes. */
module TransferFrames {
  import opened Bytes
  import opened Options
  import opened Transfer
  import opened Wire

  type int32 = x: int | -0x8000_0000 <= x < 0x8000_0000

  /** Go's `uint64(x)` of an int32: sign extension. */
  function ToUint64(x: int32): (v: uint64)
  {
    if x < 0 then x + TWO64 else x
  }

  /** Go's `int32(v)` of a uint64: truncation to the low 32 bits. */
  function ToInt32(v: uint64): (x: int32)
  {
    var low := v % 0x1_0000_0000;
    if 0x8000_0000 <= low then low - 0x1_0000_0000 else low
  }

  lemma EnumRoundTrip(x: int32)
    ensures ToInt32(ToUint64(x)) == x
  {
  }

  function DecodeBool(v: uint64): (b: bool) { v != 0 }

  // ---- what is sent ----

  datatype Frame = Frame(messageType: int32, messageBytes: seq<byte>, raw: bool)

  datatype SendPack = SendPack(
    path: TransferPath, messageId: Id, sequenceId: Id, sequenceNumber: uint64, head: bool, nack: bool,
    frames: seq<Frame>, contractFrame: Option<Frame>, tagSendTime: uint64, contractId: Option<Id>,
    sessionRole: Option<int32>, companion: bool)

  datatype SendAck = SendAck(
    path: TransferPath, messageId: Id, sequenceId: Id, selective: bool, tag: Option<uint64>,
    receiveWindow: Option<uint64>)

  // ---- its fields, in field-number order ----

  function If(present: bool, f: Field): (fs: seq<Field>) { if present then [f] else [] }

  function VarintField(number: nat, v: uint64): (f: Field) { Field(number, Varint64(v)) }

  function BytesField(number: nat, b: seq<byte>): (f: Field) { Field(number, Bytes(b)) }

  function FrameFields(f: Frame): (fs: seq<Field>)
  {
    If(f.messageType != 0, VarintField(1, ToUint64(f.messageType)))
    + (If(f.messageBytes != [], BytesField(2, f.messageBytes)) + If(f.raw, VarintField(3, 1)))
  }

  function PathFields(p: TransferPath): (fs: seq<Field>)
  {
    If(p.destinationId != ZERO_ID, BytesField(1, p.destinationId))
    + (If(p.sourceId != ZERO_ID, BytesField(2, p.sourceId)) + If(p.streamId != ZERO_ID, BytesField(3, p.streamId)))
  }

  function TagFields(sendTime: uint64): (fs: seq<Field>)
  {
    If(sendTime != 0, VarintField(1, sendTime))
  }

  function FrameField(number: nat, f: Frame): (field: Field)
  {
    BytesField(number, EncodeFields(FrameFields(f)))
  }

  function FramesFields(frames: seq<Frame>): (fs: seq<Field>)
  {
    seq(|frames|, i requires 0 <= i < |frames| => FrameField(5, frames[i]))
  }

  function ContractFrameFields(f: Option<Frame>): (fs: seq<Field>)
  {
    match f case None => [] case Some(frame) => [FrameField(7, frame)]
  }

  function ContractIdFields(id: Option<Id>): (fs: seq<Field>)
  {
    match id case None => [] case Some(i) => [BytesField(9, i)]
  }

  function PackFields(m: SendPack): (fs: seq<Field>)
  {
    [BytesField(1, m.messageId), BytesField(2, m.sequenceId)]
    + (If(m.sequenceNumber != 0, VarintField(3, m.sequenceNumber))
       + (If(m.head, VarintField(4, 1)) + (FramesFields(m.frames) + PackTail(m))))
  }

  function PackTail(m: SendPack): (fs: seq<Field>)
  {
    If(m.nack, VarintField(6, 1))
    + (ContractFrameFields(m.contractFrame)
       + ([BytesField(8, EncodeFields(TagFields(m.tagSendTime)))] + ContractIdFields(m.contractId)))
  }

  function RoleFields(role: Option<int32>): (fs: seq<Field>)
  {
    match role case None => [] case Some(r) => [VarintField(7, ToUint64(r))]
  }

  const TRANSFER_PACK: uint64 := 0
  const TRANSFER_ACK: uint64 := 1

  function PackFrameFields(m: SendPack): (fs: seq<Field>)
  {
    [BytesField(1, EncodeFields(PathFields(m.path))), VarintField(3, TRANSFER_PACK),
     BytesField(4, EncodeFields(PackFields(m)))]
    + (RoleFields(m.sessionRole) + If(m.companion, VarintField(8, 1)))
  }

  function AckTagFields(tag: Option<uint64>): (fs: seq<Field>)
  {
    match tag case None => [] case Some(t) => [BytesField(4, EncodeFields(TagFields(t)))]
  }

  function WindowFields(window: Option<uint64>): (fs: seq<Field>)
  {
    match window case None => [] case Some(w) => [VarintField(8, w)]
  }

  function AckFields(m: SendAck): (fs: seq<Field>)
  {
    [BytesField(1, m.messageId), BytesField(2, m.sequenceId)]
    + (If(m.selective, VarintField(3, 1)) + (AckTagFields(m.tag) + WindowFields(m.receiveWindow)))
  }

  function AckFrameFields(m: SendAck): (fs: seq<Field>)
  {
    [BytesField(1, EncodeFields(PathFields(m.path))), VarintField(3, TRANSFER_ACK),
     BytesField(5, EncodeFields(AckFields(m)))]
  }

  // ---- what is decoded ----

  /** Ids as received; an empty one is an absent one. */
  datatype PathMessage = PathMessage(destinationId: seq<byte>, sourceId: seq<byte>, streamId: seq<byte>)

  datatype Pack = Pack(
    messageId: seq<byte>, sequenceId: seq<byte>, sequenceNumber: uint64, head: bool, frames: seq<Frame>, nack: bool,
    contractFrame: Option<Frame>, tag: Option<uint64>, contractId: seq<byte>)

  datatype Ack = Ack(messageId: seq<byte>, sequenceId: seq<byte>, selective: bool, tag: Option<uint64>)

  datatype TransferFrame = TransferFrame(
    path: Option<PathMessage>, frame: Option<Frame>, pack: Option<Pack>, ack: Option<Ack>,
    encrypted: seq<byte>, sessionRole: Option<int32>, companion: Option<bool>)

  const NO_FRAME: Frame := Frame(0, [], false)
  const NO_IDS: PathMessage := PathMessage([], [], [])
  const NO_PACK: Pack := Pack([], [], 0, false, [], false, None, None, [])
  const NO_ACK: Ack := Ack([], [], false, None)
  const NO_TRANSFER: TransferFrame := TransferFrame(None, None, None, None, [], None, None)

  /** The value of a known field, which must have the field's own wire type. */
  function TakeTag(sendTime: uint64, f: Field): (r: Option<uint64>)
  {
    if f.number != 1 then Some(sendTime) else if f.value.Varint64? then Some(f.value.v) else None
  }

  function TakeFrame(frame: Frame, f: Field): (r: Option<Frame>)
  {
    match f.number
    case 1 => if f.value.Varint64? then Some(frame.(messageType := ToInt32(f.value.v))) else None
    case 2 => if f.value.Bytes? then Some(frame.(messageBytes := f.value.b)) else None
    case 3 => if f.value.Varint64? then Some(frame.(raw := DecodeBool(f.value.v))) else None
    case _ => Some(frame)
  }

  function TakePath(p: PathMessage, f: Field): (r: Option<PathMessage>)
  {
    if !(1 <= f.number <= 3) then Some(p)
    else if !f.value.Bytes? then None
    else if f.number == 1 then Some(p.(destinationId := f.value.b))
    else if f.number == 2 then Some(p.(sourceId := f.value.b))
    else Some(p.(streamId := f.value.b))
  }

  function DecodeTag(b: seq<byte>): (r: Option<uint64>) { Decode(TakeTag, 0, b) }

  function DecodeFrame(b: seq<byte>): (r: Option<Frame>) { Decode(TakeFrame, NO_FRAME, b) }

  function DecodePath(b: seq<byte>): (r: Option<PathMessage>) { Decode(TakePath, NO_IDS, b) }

  function TakePack(p: Pack, f: Field): (r: Option<Pack>)
  {
    match f.number
    case 1 => if f.value.Bytes? then Some(p.(messageId := f.value.b)) else None
    case 2 => if f.value.Bytes? then Some(p.(sequenceId := f.value.b)) else None
    case 3 => if f.value.Varint64? then Some(p.(sequenceNumber := f.value.v)) else None
    case 4 => if f.value.Varint64? then Some(p.(head := DecodeBool(f.value.v))) else None
    case 5 =>
      if f.value.Bytes? && DecodeFrame(f.value.b).Some?
      then Some(p.(frames := p.frames + [DecodeFrame(f.value.b).value]))
      else None
    case 6 => if f.value.Varint64? then Some(p.(nack := DecodeBool(f.value.v))) else None
    case 7 =>
      if f.value.Bytes? && DecodeFrame(f.value.b).Some?
      then Some(p.(contractFrame := DecodeFrame(f.value.b)))
      else None
    case 8 => if f.value.Bytes? && DecodeTag(f.value.b).Some? then Some(p.(tag := DecodeTag(f.value.b))) else None
    case 9 => if f.value.Bytes? then Some(p.(contractId := f.value.b)) else None
    case _ => Some(p)
  }

  function TakeAck(a: Ack, f: Field): (r: Option<Ack>)
  {
    match f.number
    case 1 => if f.value.Bytes? then Some(a.(messageId := f.value.b)) else None
    case 2 => if f.value.Bytes? then Some(a.(sequenceId := f.value.b)) else None
    case 3 => if f.value.Varint64? then Some(a.(selective := DecodeBool(f.value.v))) else None
    case 4 => if f.value.Bytes? && DecodeTag(f.value.b).Some? then Some(a.(tag := DecodeTag(f.value.b))) else None
    case _ => Some(a)
  }

  function DecodePack(b: seq<byte>): (r: Option<Pack>) { Decode(TakePack, NO_PACK, b) }

  function DecodeAck(b: seq<byte>): (r: Option<Ack>) { Decode(TakeAck, NO_ACK, b) }

  function TakeTransfer(decodePath: bool, t: TransferFrame, f: Field): (r: Option<TransferFrame>)
  {
    match f.number
    case 1 =>
      if !f.value.Bytes? then None
      else if !decodePath then Some(t)
      else if DecodePath(f.value.b).Some? then Some(t.(path := DecodePath(f.value.b))) else None
    case 2 => if f.value.Bytes? && DecodeFrame(f.value.b).Some? then Some(t.(frame := DecodeFrame(f.value.b))) else None
    case 3 => if f.value.Varint64? then Some(t) else None
    case 4 => if f.value.Bytes? && DecodePack(f.value.b).Some? then Some(t.(pack := DecodePack(f.value.b))) else None
    case 5 => if f.value.Bytes? && DecodeAck(f.value.b).Some? then Some(t.(ack := DecodeAck(f.value.b))) else None
    case 6 => if f.value.Bytes? then Some(t.(encrypted := f.value.b)) else None
    case 7 => if f.value.Varint64? then Some(t.(sessionRole := Some(ToInt32(f.value.v)))) else None
    case 8 => if f.value.Varint64? then Some(t.(companion := Some(DecodeBool(f.value.v)))) else None
    case _ => Some(t)
  }

  function TakerOf(decodePath: bool): (take: (TransferFrame, Field) -> Option<TransferFrame>)
  {
    (t, f) => TakeTransfer(decodePath, t, f)
  }

  function UnmarshalTransferFrame(b: seq<byte>, decodePath: bool): (r: Option<TransferFrame>)
  {
    Decode(TakerOf(decodePath), NO_TRANSFER, b)
  }

  /** `TransferPathFromProtobuf`: absent ids are zero, present ones must be 16 bytes long. */
  function IdFrom(b: seq<byte>): (r: Option<Id>)
  {
    if b == [] then Some(ZERO_ID) else if |b| == 16 then Some(b) else None
  }

  function PathFrom(p: Option<PathMessage>): (r: Option<TransferPath>)
  {
    if p.None? then None
    else
      var d, s, t := IdFrom(p.value.destinationId), IdFrom(p.value.sourceId), IdFrom(p.value.streamId);
      if d.Some? && s.Some? && t.Some? then Some(TransferPath(d.value, s.value, t.value)) else None
  }
}
