/** The encoders of transfer frames: a size pass and an append pass that agree to the byte. */
module TransferEncoding {
  import opened Bytes
  import opened Transfer
  import opened Wire
  import opened TransferFrames

  lemma Snoc(fs: seq<Field>, f: Field)
    ensures EncodeFields(fs + [f]) == EncodeFields(fs) + EncodeField(f)
  {
    FlattenConcat(EncodeField, fs, [f]);
    assert EncodeField(f) + [] == EncodeField(f);
  }

  // ---- the size pass: `n` counts the fields `fs` so far ----

  method SizeTag(number: nat) returns (n: nat)
    ensures n == |Varint(number * 8)|
  {
    n := SizeVarint(number * 8);
  }

  /** The wire type does not change the size of a tag. */
  lemma TagSize(number: nat, wireType: nat)
    requires wireType < 8
    ensures |Varint(number * 8 + wireType)| == |Varint(number * 8)|
  {
    if number >= 0x10 { assert (number * 8 + wireType) / 0x80 == number * 8 / 0x80; }
  }

  method SizeVarintField(n: nat, number: nat, v: uint64, ghost fs: seq<Field>) returns (r: nat)
    requires n == |EncodeFields(fs)|
    ensures r == |EncodeFields(fs + [VarintField(number, v)])|
  {
    var tag := SizeTag(number);
    var size := SizeVarint(v);
    r := n + tag + size;
    TagSize(number, VARINT_TYPE);
    Snoc(fs, VarintField(number, v));
  }

  method SizeBytesField(n: nat, number: nat, size: nat, ghost fs: seq<Field>, ghost b: seq<byte>) returns (r: nat)
    requires n == |EncodeFields(fs)| && size == |b|
    ensures r == |EncodeFields(fs + [BytesField(number, b)])|
  {
    var tag := SizeTag(number);
    var prefix := SizeVarint(size);
    r := n + tag + prefix + size;
    TagSize(number, BYTES_TYPE);
    Snoc(fs, BytesField(number, b));
  }

  /** `sizeFrame`. */
  method SizeFrame(f: Frame) returns (n: nat)
    ensures n == |EncodeFields(FrameFields(f))|
  {
    n := 0;
    ghost var fs: seq<Field> := [];
    if f.messageType != 0 {
      n := SizeVarintField(n, 1, ToUint64(f.messageType), fs);
      fs := fs + [VarintField(1, ToUint64(f.messageType))];
    }
    if f.messageBytes != [] {
      n := SizeBytesField(n, 2, |f.messageBytes|, fs, f.messageBytes);
      fs := fs + [BytesField(2, f.messageBytes)];
    }
    if f.raw {
      n := SizeVarintField(n, 3, 1, fs);
      fs := fs + [VarintField(3, 1)];
    }
    assert fs == FrameFields(f);
  }

  /** `sizeTransferPath`. */
  method SizePath(p: TransferPath) returns (n: nat)
    ensures n == |EncodeFields(PathFields(p))|
  {
    n := 0;
    ghost var fs: seq<Field> := [];
    if p.destinationId != ZERO_ID {
      n := SizeBytesField(n, 1, 16, fs, p.destinationId);
      fs := fs + [BytesField(1, p.destinationId)];
    }
    if p.sourceId != ZERO_ID {
      n := SizeBytesField(n, 2, 16, fs, p.sourceId);
      fs := fs + [BytesField(2, p.sourceId)];
    }
    if p.streamId != ZERO_ID {
      n := SizeBytesField(n, 3, 16, fs, p.streamId);
      fs := fs + [BytesField(3, p.streamId)];
    }
    assert fs == PathFields(p);
  }

  /** `sizeTagBody`. */
  method SizeTagBody(sendTime: uint64) returns (n: nat)
    ensures n == |EncodeFields(TagFields(sendTime))|
  {
    n := 0;
    if sendTime != 0 { n := SizeVarintField(0, 1, sendTime, []); }
    assert TagFields(sendTime) == [] + TagFields(sendTime);
  }

  lemma MappedSnoc(field: Frame -> Field, frames: seq<Frame>, i: nat, gs: seq<Field>, hs: seq<Field>)
    requires i < |frames| && |gs| == i + 1 && |hs| == i
    requires forall j :: 0 <= j <= i ==> gs[j] == field(frames[j])
    requires forall j :: 0 <= j < i ==> hs[j] == field(frames[j])
    ensures gs == hs + [field(frames[i])]
  {
  }

  lemma FramesSnoc(fs: seq<Field>, frames: seq<Frame>, i: nat)
    requires i < |frames|
    ensures fs + FramesFields(frames[..i + 1]) == fs + FramesFields(frames[..i]) + [FrameField(5, frames[i])]
  {
    var gs, hs := FramesFields(frames[..i + 1]), FramesFields(frames[..i]);
    MappedSnoc((f: Frame) => FrameField(5, f), frames, i, gs, hs);
    LastJoins(fs, hs, FrameField(5, frames[i]));
  }

  lemma LastJoins(a: seq<Field>, b: seq<Field>, f: Field)
    ensures a + (b + [f]) == a + b + [f]
  {
  }

  method SizeFrames(n: nat, frames: seq<Frame>, ghost fs: seq<Field>) returns (r: nat)
    requires n == |EncodeFields(fs)|
    ensures r == |EncodeFields(fs + FramesFields(frames))|
  {
    r := n;
    assert fs + FramesFields([]) == fs && frames[..0] == [];
    for i := 0 to |frames|
      invariant r == |EncodeFields(fs + FramesFields(frames[..i]))|
    {
      var size := SizeFrame(frames[i]);
      r := SizeBytesField(r, 5, size, fs + FramesFields(frames[..i]), EncodeFields(FrameFields(frames[i])));
      FramesSnoc(fs, frames, i);
    }
    assert frames[..|frames|] == frames;
  }

  function PackHead(m: SendPack): (fs: seq<Field>)
  {
    [BytesField(1, m.messageId), BytesField(2, m.sequenceId)]
    + If(m.sequenceNumber != 0, VarintField(3, m.sequenceNumber)) + If(m.head, VarintField(4, 1))
  }

  lemma PackIsHeadFramesTail(m: SendPack)
    ensures PackFields(m) == PackHead(m) + FramesFields(m.frames) + PackTail(m)
  {
  }

  method SizePackHead(m: SendPack) returns (n: nat)
    ensures n == |EncodeFields(PackHead(m))|
  {
    n := SizeBytesField(0, 1, 16, [], m.messageId);
    n := SizeBytesField(n, 2, 16, [] + [BytesField(1, m.messageId)], m.sequenceId);
    ghost var fs := [BytesField(1, m.messageId), BytesField(2, m.sequenceId)];
    assert fs == [] + [BytesField(1, m.messageId)] + [BytesField(2, m.sequenceId)];
    if m.sequenceNumber != 0 {
      n := SizeVarintField(n, 3, m.sequenceNumber, fs);
      fs := fs + [VarintField(3, m.sequenceNumber)];
    }
    if m.head {
      n := SizeVarintField(n, 4, 1, fs);
      fs := fs + [VarintField(4, 1)];
    }
    assert fs == PackHead(m);
  }

  /** The fields of a pack after its frames, in two halves. */
  lemma PackTailHalves(before: seq<Field>, m: SendPack)
    ensures before + NackFields(m) + TagIdFields(m) == before + PackTail(m)
  {
  }

  function NackFields(m: SendPack): (fs: seq<Field>)
  {
    If(m.nack, VarintField(6, 1)) + ContractFrameFields(m.contractFrame)
  }

  function TagIdFields(m: SendPack): (fs: seq<Field>)
  {
    [BytesField(8, EncodeFields(TagFields(m.tagSendTime)))] + ContractIdFields(m.contractId)
  }

  method SizeNack(n: nat, m: SendPack, ghost start: seq<Field>) returns (r: nat)
    requires n == |EncodeFields(start)|
    ensures r == |EncodeFields(start + NackFields(m))|
  {
    r := n;
    ghost var fs := start;
    if m.nack {
      r := SizeVarintField(r, 6, 1, fs);
      fs := fs + [VarintField(6, 1)];
    }
    if m.contractFrame.Some? {
      var size := SizeFrame(m.contractFrame.value);
      r := SizeBytesField(r, 7, size, fs, EncodeFields(FrameFields(m.contractFrame.value)));
      fs := fs + [FrameField(7, m.contractFrame.value)];
    }
    assert fs == start + NackFields(m);
  }

  method SizePackTail(n: nat, m: SendPack, ghost start: seq<Field>) returns (r: nat)
    requires n == |EncodeFields(start)|
    ensures r == |EncodeFields(start + PackTail(m))|
  {
    r := SizeNack(n, m, start);
    ghost var fs := start + NackFields(m);
    var tagBody := SizeTagBody(m.tagSendTime);
    r := SizeBytesField(r, 8, tagBody, fs, EncodeFields(TagFields(m.tagSendTime)));
    fs := fs + [BytesField(8, EncodeFields(TagFields(m.tagSendTime)))];
    if m.contractId.Some? {
      r := SizeBytesField(r, 9, 16, fs, m.contractId.value);
      fs := fs + [BytesField(9, m.contractId.value)];
    }
    assert fs == start + NackFields(m) + TagIdFields(m);
    PackTailHalves(start, m);
  }

  /** `sizePack`. */
  method SizePack(m: SendPack) returns (n: nat)
    ensures n == |EncodeFields(PackFields(m))|
  {
    n := SizePackHead(m);
    n := SizeFrames(n, m.frames, PackHead(m));
    n := SizePackTail(n, m, PackHead(m) + FramesFields(m.frames));
    PackIsHeadFramesTail(m);
  }

  /** `size` of a pack frame. */
  method SizePackFrame(m: SendPack) returns (n: nat)
    ensures n == |EncodeFields(PackFrameFields(m))|
  {
    ghost var fs: seq<Field> := [];
    var pathSize := SizePath(m.path);
    n := SizeBytesField(0, 1, pathSize, fs, EncodeFields(PathFields(m.path)));
    fs := fs + [BytesField(1, EncodeFields(PathFields(m.path)))];
    n := SizeVarintField(n, 3, TRANSFER_PACK, fs);
    fs := fs + [VarintField(3, TRANSFER_PACK)];
    var packSize := SizePack(m);
    n := SizeBytesField(n, 4, packSize, fs, EncodeFields(PackFields(m)));
    fs := fs + [BytesField(4, EncodeFields(PackFields(m)))];
    if m.sessionRole.Some? {
      n := SizeVarintField(n, 7, ToUint64(m.sessionRole.value), fs);
      fs := fs + [VarintField(7, ToUint64(m.sessionRole.value))];
    }
    if m.companion {
      n := SizeVarintField(n, 8, 1, fs);
      fs := fs + [VarintField(8, 1)];
    }
    assert fs == PackFrameFields(m);
  }

  /** `sizeAck`. */
  method SizeAck(m: SendAck) returns (n: nat)
    ensures n == |EncodeFields(AckFields(m))|
  {
    ghost var fs: seq<Field> := [];
    n := SizeBytesField(0, 1, 16, fs, m.messageId);
    fs := fs + [BytesField(1, m.messageId)];
    n := SizeBytesField(n, 2, 16, fs, m.sequenceId);
    fs := fs + [BytesField(2, m.sequenceId)];
    if m.selective {
      n := SizeVarintField(n, 3, 1, fs);
      fs := fs + [VarintField(3, 1)];
    }
    if m.tag.Some? {
      var tagBody := SizeTagBody(m.tag.value);
      n := SizeBytesField(n, 4, tagBody, fs, EncodeFields(TagFields(m.tag.value)));
      fs := fs + [BytesField(4, EncodeFields(TagFields(m.tag.value)))];
    }
    if m.receiveWindow.Some? {
      n := SizeVarintField(n, 8, m.receiveWindow.value, fs);
      fs := fs + [VarintField(8, m.receiveWindow.value)];
    }
    assert fs == AckFields(m);
  }

  /** `size` of an ack frame. */
  method SizeAckFrame(m: SendAck) returns (n: nat)
    ensures n == |EncodeFields(AckFrameFields(m))|
  {
    ghost var fs: seq<Field> := [];
    var pathSize := SizePath(m.path);
    n := SizeBytesField(0, 1, pathSize, fs, EncodeFields(PathFields(m.path)));
    fs := fs + [BytesField(1, EncodeFields(PathFields(m.path)))];
    n := SizeVarintField(n, 3, TRANSFER_ACK, fs);
    fs := fs + [VarintField(3, TRANSFER_ACK)];
    var ackSize := SizeAck(m);
    n := SizeBytesField(n, 5, ackSize, fs, EncodeFields(AckFields(m)));
    fs := fs + [BytesField(5, EncodeFields(AckFields(m)))];
    assert fs == AckFrameFields(m);
  }

  // ---- the append pass: `b` is `start` and the fields `fs` so far ----

  method AppendTag(b: seq<byte>, number: nat, wireType: nat) returns (r: seq<byte>)
    requires wireType < 8
    ensures r == b + Varint(number * 8 + wireType)
  {
    r := AppendVarint(b, number * 8 + wireType);
  }

  method AppendVarintField(b: seq<byte>, number: nat, v: uint64, ghost start: seq<byte>, ghost fs: seq<Field>)
    returns (r: seq<byte>)
    requires b == start + EncodeFields(fs)
    ensures r == start + EncodeFields(fs + [VarintField(number, v)])
  {
    r := AppendTag(b, number, VARINT_TYPE);
    r := AppendVarint(r, v);
    Snoc(fs, VarintField(number, v));
  }

  method AppendBytesField(b: seq<byte>, number: nat, s: seq<byte>, ghost start: seq<byte>, ghost fs: seq<Field>)
    returns (r: seq<byte>)
    requires b == start + EncodeFields(fs)
    ensures r == start + EncodeFields(fs + [BytesField(number, s)])
  {
    r := AppendPrefix(b, number, |s|);
    r := r + s;
    PrefixThenBody(b, r, number, s, start, fs);
  }

  /** The tag and the length prefix of a nested body of `size` bytes. */
  method AppendPrefix(b: seq<byte>, number: nat, size: nat) returns (r: seq<byte>)
    ensures r == b + Varint(number * 8 + BYTES_TYPE) + Varint(size)
  {
    r := AppendTag(b, number, BYTES_TYPE);
    r := AppendVarint(r, size);
  }

  lemma PrefixThenBody(b: seq<byte>, r: seq<byte>, number: nat, body: seq<byte>, start: seq<byte>, fs: seq<Field>)
    requires b == start + EncodeFields(fs)
    requires r == b + Varint(number * 8 + BYTES_TYPE) + Varint(|body|) + body
    ensures r == start + EncodeFields(fs + [BytesField(number, body)])
  {
    Snoc(fs, BytesField(number, body));
    Regroup(start, EncodeFields(fs), Varint(number * 8 + BYTES_TYPE), Varint(|body|), body);
  }

  lemma Regroup(a: seq<byte>, b: seq<byte>, c: seq<byte>, d: seq<byte>, e: seq<byte>)
    ensures a + b + c + d + e == a + (b + (c + (d + e)))
  {
  }

  /** `appendFrame`. */
  method AppendFrame(b: seq<byte>, f: Frame) returns (r: seq<byte>)
    ensures r == b + EncodeFields(FrameFields(f))
  {
    r := b;
    ghost var fs: seq<Field> := [];
    if f.messageType != 0 {
      r := AppendVarintField(r, 1, ToUint64(f.messageType), b, fs);
      fs := fs + [VarintField(1, ToUint64(f.messageType))];
    }
    if f.messageBytes != [] {
      r := AppendBytesField(r, 2, f.messageBytes, b, fs);
      fs := fs + [BytesField(2, f.messageBytes)];
    }
    if f.raw {
      r := AppendVarintField(r, 3, 1, b, fs);
      fs := fs + [VarintField(3, 1)];
    }
    assert fs == FrameFields(f);
  }

  /** `appendTransferPath`. */
  method AppendPath(b: seq<byte>, p: TransferPath) returns (r: seq<byte>)
    ensures r == b + EncodeFields(PathFields(p))
  {
    r := b;
    ghost var fs: seq<Field> := [];
    if p.destinationId != ZERO_ID {
      r := AppendBytesField(r, 1, p.destinationId, b, fs);
      fs := fs + [BytesField(1, p.destinationId)];
    }
    if p.sourceId != ZERO_ID {
      r := AppendBytesField(r, 2, p.sourceId, b, fs);
      fs := fs + [BytesField(2, p.sourceId)];
    }
    if p.streamId != ZERO_ID {
      r := AppendBytesField(r, 3, p.streamId, b, fs);
      fs := fs + [BytesField(3, p.streamId)];
    }
    assert fs == PathFields(p);
  }

  /** `appendTagBody`. */
  method AppendTagBody(b: seq<byte>, sendTime: uint64) returns (r: seq<byte>)
    ensures r == b + EncodeFields(TagFields(sendTime))
  {
    r := b;
    if sendTime != 0 { r := AppendVarintField(b, 1, sendTime, b, []); }
    assert TagFields(sendTime) == [] + TagFields(sendTime);
  }

  /** A nested frame under its length prefix. */
  method AppendFrameField(b: seq<byte>, number: nat, f: Frame, ghost start: seq<byte>, ghost fs: seq<Field>)
    returns (r: seq<byte>)
    requires b == start + EncodeFields(fs)
    ensures r == start + EncodeFields(fs + [FrameField(number, f)])
  {
    var size := SizeFrame(f);
    r := AppendPrefix(b, number, size);
    r := AppendFrame(r, f);
    PrefixThenBody(b, r, number, EncodeFields(FrameFields(f)), start, fs);
  }

  method AppendTagField(b: seq<byte>, number: nat, sendTime: uint64, ghost start: seq<byte>, ghost fs: seq<Field>)
    returns (r: seq<byte>)
    requires b == start + EncodeFields(fs)
    ensures r == start + EncodeFields(fs + [BytesField(number, EncodeFields(TagFields(sendTime)))])
  {
    var size := SizeTagBody(sendTime);
    r := AppendPrefix(b, number, size);
    r := AppendTagBody(r, sendTime);
    PrefixThenBody(b, r, number, EncodeFields(TagFields(sendTime)), start, fs);
  }

  method AppendPathField(b: seq<byte>, p: TransferPath) returns (r: seq<byte>)
    ensures r == b + EncodeFields([BytesField(1, EncodeFields(PathFields(p)))])
  {
    var size := SizePath(p);
    r := AppendPrefix(b, 1, size);
    r := AppendPath(r, p);
    assert b == b + EncodeFields([]);
    PrefixThenBody(b, r, 1, EncodeFields(PathFields(p)), b, []);
    assert [] + [BytesField(1, EncodeFields(PathFields(p)))] == [BytesField(1, EncodeFields(PathFields(p)))];
  }

  method AppendFrames(b: seq<byte>, frames: seq<Frame>, ghost start: seq<byte>, ghost fs: seq<Field>)
    returns (r: seq<byte>)
    requires b == start + EncodeFields(fs)
    ensures r == start + EncodeFields(fs + FramesFields(frames))
  {
    r := b;
    assert fs + FramesFields([]) == fs && frames[..0] == [];
    for i := 0 to |frames|
      invariant r == start + EncodeFields(fs + FramesFields(frames[..i]))
    {
      r := AppendFrameField(r, 5, frames[i], start, fs + FramesFields(frames[..i]));
      FramesSnoc(fs, frames, i);
    }
    assert frames[..|frames|] == frames;
  }

  method AppendPackHead(b: seq<byte>, m: SendPack) returns (r: seq<byte>)
    ensures r == b + EncodeFields(PackHead(m))
  {
    ghost var fs: seq<Field> := [];
    assert b == b + EncodeFields([]);
    r := AppendBytesField(b, 1, m.messageId, b, fs);
    fs := fs + [BytesField(1, m.messageId)];
    r := AppendBytesField(r, 2, m.sequenceId, b, fs);
    fs := fs + [BytesField(2, m.sequenceId)];
    if m.sequenceNumber != 0 {
      r := AppendVarintField(r, 3, m.sequenceNumber, b, fs);
      fs := fs + [VarintField(3, m.sequenceNumber)];
    }
    if m.head {
      r := AppendVarintField(r, 4, 1, b, fs);
      fs := fs + [VarintField(4, 1)];
    }
    assert fs == PackHead(m);
  }

  method AppendNack(b: seq<byte>, m: SendPack, ghost start: seq<byte>, ghost before: seq<Field>) returns (r: seq<byte>)
    requires b == start + EncodeFields(before)
    ensures r == start + EncodeFields(before + NackFields(m))
  {
    r := b;
    ghost var fs := before;
    if m.nack {
      r := AppendVarintField(r, 6, 1, start, fs);
      fs := fs + [VarintField(6, 1)];
    }
    if m.contractFrame.Some? {
      r := AppendFrameField(r, 7, m.contractFrame.value, start, fs);
      fs := fs + [FrameField(7, m.contractFrame.value)];
    }
    assert fs == before + NackFields(m);
  }

  method AppendPackTail(b: seq<byte>, m: SendPack, ghost start: seq<byte>, ghost before: seq<Field>)
    returns (r: seq<byte>)
    requires b == start + EncodeFields(before)
    ensures r == start + EncodeFields(before + PackTail(m))
  {
    r := AppendNack(b, m, start, before);
    ghost var fs := before + NackFields(m);
    r := AppendTagField(r, 8, m.tagSendTime, start, fs);
    fs := fs + [BytesField(8, EncodeFields(TagFields(m.tagSendTime)))];
    if m.contractId.Some? {
      r := AppendBytesField(r, 9, m.contractId.value, start, fs);
      fs := fs + [BytesField(9, m.contractId.value)];
    }
    assert fs == before + NackFields(m) + TagIdFields(m);
    PackTailHalves(before, m);
  }

  /** `appendPack`. */
  method AppendPack(b: seq<byte>, m: SendPack) returns (r: seq<byte>)
    ensures r == b + EncodeFields(PackFields(m))
  {
    r := AppendPackHead(b, m);
    r := AppendFrames(r, m.frames, b, PackHead(m));
    r := AppendPackTail(r, m, b, PackHead(m) + FramesFields(m.frames));
    PackIsHeadFramesTail(m);
  }

  method AppendPackField(b: seq<byte>, m: SendPack, ghost start: seq<byte>, ghost fs: seq<Field>) returns (r: seq<byte>)
    requires b == start + EncodeFields(fs)
    ensures r == start + EncodeFields(fs + [BytesField(4, EncodeFields(PackFields(m)))])
  {
    var size := SizePack(m);
    r := AppendPrefix(b, 4, size);
    r := AppendPack(r, m);
    PrefixThenBody(b, r, 4, EncodeFields(PackFields(m)), start, fs);
  }

  /** `append` of a pack frame. */
  method AppendPackFrame(b: seq<byte>, m: SendPack) returns (r: seq<byte>)
    ensures r == b + EncodeFields(PackFrameFields(m))
  {
    r := AppendPathField(b, m.path);
    ghost var fs := [BytesField(1, EncodeFields(PathFields(m.path)))];
    r := AppendVarintField(r, 3, TRANSFER_PACK, b, fs);
    fs := fs + [VarintField(3, TRANSFER_PACK)];
    r := AppendPackField(r, m, b, fs);
    fs := fs + [BytesField(4, EncodeFields(PackFields(m)))];
    if m.sessionRole.Some? {
      r := AppendVarintField(r, 7, ToUint64(m.sessionRole.value), b, fs);
      fs := fs + [VarintField(7, ToUint64(m.sessionRole.value))];
    }
    if m.companion {
      r := AppendVarintField(r, 8, 1, b, fs);
      fs := fs + [VarintField(8, 1)];
    }
    assert fs == PackFrameFields(m);
  }

  /** `appendAck`. */
  method AppendAck(b: seq<byte>, m: SendAck) returns (r: seq<byte>)
    ensures r == b + EncodeFields(AckFields(m))
  {
    ghost var fs: seq<Field> := [];
    assert b == b + EncodeFields([]);
    r := AppendBytesField(b, 1, m.messageId, b, fs);
    fs := fs + [BytesField(1, m.messageId)];
    r := AppendBytesField(r, 2, m.sequenceId, b, fs);
    fs := fs + [BytesField(2, m.sequenceId)];
    if m.selective {
      r := AppendVarintField(r, 3, 1, b, fs);
      fs := fs + [VarintField(3, 1)];
    }
    if m.tag.Some? {
      r := AppendTagField(r, 4, m.tag.value, b, fs);
      fs := fs + [BytesField(4, EncodeFields(TagFields(m.tag.value)))];
    }
    if m.receiveWindow.Some? {
      r := AppendVarintField(r, 8, m.receiveWindow.value, b, fs);
      fs := fs + [VarintField(8, m.receiveWindow.value)];
    }
    assert fs == AckFields(m);
  }

  method AppendAckField(b: seq<byte>, m: SendAck, ghost start: seq<byte>, ghost fs: seq<Field>) returns (r: seq<byte>)
    requires b == start + EncodeFields(fs)
    ensures r == start + EncodeFields(fs + [BytesField(5, EncodeFields(AckFields(m)))])
  {
    var size := SizeAck(m);
    r := AppendPrefix(b, 5, size);
    r := AppendAck(r, m);
    PrefixThenBody(b, r, 5, EncodeFields(AckFields(m)), start, fs);
  }

  /** `append` of an ack frame. */
  method AppendAckFrame(b: seq<byte>, m: SendAck) returns (r: seq<byte>)
    ensures r == b + EncodeFields(AckFrameFields(m))
  {
    r := AppendPathField(b, m.path);
    ghost var fs := [BytesField(1, EncodeFields(PathFields(m.path)))];
    r := AppendVarintField(r, 3, TRANSFER_ACK, b, fs);
    fs := fs + [VarintField(3, TRANSFER_ACK)];
    r := AppendAckField(r, m, b, fs);
    fs := fs + [BytesField(5, EncodeFields(AckFields(m)))];
    assert fs == AckFrameFields(m);
  }

  /** `marshalSendPackTransferFrame`: the size pass is exact, so the pooled buffer never grows. */
  method MarshalPack(m: SendPack) returns (out: seq<byte>, size: nat)
    ensures out == EncodeFields(PackFrameFields(m)) && |out| == size
  {
    size := SizePackFrame(m);
    out := AppendPackFrame([], m);
  }

  /** `marshalSendAckTransferFrame`. */
  method MarshalAck(m: SendAck) returns (out: seq<byte>, size: nat)
    ensures out == EncodeFields(AckFrameFields(m)) && |out| == size
  {
    size := SizeAckFrame(m);
    out := AppendAckFrame([], m);
  }
}
