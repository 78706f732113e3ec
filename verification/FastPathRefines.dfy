/** The routing parser refines the full decoder wherever both accept. */
module FastPathRefines {
  import opened Bytes
  import opened Options
  import opened Transfer
  import opened Wire
  import opened TransferFrames
  import opened TransferRoundTrip
  import opened FastPath

  // ---- the fields the fast parser visits are the fields of the message ----

  predicate IsGroup(v: Value) { v == Skipped(START_GROUP_TYPE) }

  function TakeId(p: TransferPath, f: Field): (r: Option<TransferPath>)
  {
    if 1 <= f.number <= 3 then
      if f.value.Bytes? && |f.value.b| == 16 then Some(SetId(p, f.number, f.value.b)) else None
    else if IsGroup(f.value) then None
    else Some(p)
  }

  function TakeFound(found: Found, f: Field): (r: Option<Found>)
  {
    if f.number == 1 then
      if f.value.Bytes? && FastIds(found.path, f.value.b).Some?
      then Some(Found(FastIds(found.path, f.value.b).value, true))
      else None
    else if IsGroup(f.value) then None
    else Some(found)
  }

  /** What reading a field of `size` bytes makes of the state, when `u` is what taking it makes. */
  function Stepped<S>(u: Option<S>, size: nat): (r: Option<Step<S>>)
  {
    if u.None? then None else Some(Step(u.value, size))
  }

  lemma NumbersAgree(b: seq<byte>)
    requires ConsumeVarint(b).Some?
    ensures FastVarint(b) == ConsumeVarint(b)
  {
  }

  lemma BytesAgree(b: seq<byte>)
    requires ConsumeBytes(b).Some?
    ensures FastBytes(b) == ConsumeBytes(b)
  {
    NumbersAgree(b);
  }

  lemma SkipsAgree(tag: Tag, b: seq<byte>, h: Head)
    requires FieldAfter(tag, b) == Some(h)
    ensures tag.size <= h.size && h.field.number == tag.number
    ensures FastSkip(tag.wireType, b) == if IsGroup(h.field.value) then None else Some(h.size - tag.size)
  {
    if tag.wireType == VARINT_TYPE { NumbersAgree(b); }
    if tag.wireType == BYTES_TYPE { BytesAgree(b); }
  }

  lemma IdFieldAgrees(p: TransferPath, tag: Tag, b: seq<byte>, h: Head)
    requires FieldAfter(tag, b) == Some(h)
    ensures tag.size <= h.size && IdField(p, tag.number, tag.wireType, b) == Stepped(TakeId(p, h.field),
          h.size - tag.size)
  {
    SkipsAgree(tag, b, h);
    if tag.wireType == BYTES_TYPE { BytesAgree(b); }
  }

  lemma PathFieldAgrees(found: Found, tag: Tag, b: seq<byte>, h: Head)
    requires FieldAfter(tag, b) == Some(h)
    ensures tag.size <= h.size && PathField(found, tag.number, tag.wireType, b) == Stepped(TakeFound(found, h.field),
          h.size - tag.size)
  {
    SkipsAgree(tag, b, h);
    if tag.wireType == BYTES_TYPE { BytesAgree(b); }
  }

  ghost predicate ValueAgreesAt<S>(value: (S, nat, nat, seq<byte>) -> Option<Step<S>>, take: (S, Field) -> Option<S>,
                                   s: S, tag: Tag, b: seq<byte>, h: Head)
  {
    FieldAfter(tag, b) == Some(h) ==>
      tag.size <= h.size && value(s, tag.number, tag.wireType, b) == Stepped(take(s, h.field), h.size - tag.size)
  }

  /** `value` reads exactly the value the message has and makes of it what `take` makes. */
  ghost predicate ValueAgrees<S(!new)>(value: (S, nat, nat, seq<byte>) -> Option<Step<S>>,
                                       take: (S, Field) -> Option<S>)
  {
    forall s, tag, b, h :: ValueAgreesAt(value, take, s, tag, b, h)
  }

  ghost predicate FieldAgreesAt<S>(field: (S, seq<byte>) -> Option<Step<S>>, take: (S, Field) -> Option<S>, s: S,
                                   b: seq<byte>, h: Head)
  {
    ConsumeField(b) == Some(h) ==> field(s, b) == Stepped(take(s, h.field), h.size)
  }

  ghost predicate FieldAgrees<S(!new)>(field: (S, seq<byte>) -> Option<Step<S>>, take: (S, Field) -> Option<S>)
  {
    forall s, b, h :: FieldAgreesAt(field, take, s, b, h)
  }

  lemma TaggedAgrees<S(!new)>(value: (S, nat, nat, seq<byte>) -> Option<Step<S>>, take: (S, Field) -> Option<S>, s: S,
                              b: seq<byte>, h: Head)
    requires ValueAgrees(value, take) && ConsumeField(b) == Some(h)
    ensures Tagged(value, s, b) == Stepped(take(s, h.field), h.size)
  {
    var tag := ConsumeTag(b).value;
    NumbersAgree(b);
    assert ValueAgreesAt(value, take, s, tag, b[tag.size..], h);
  }

  /** Where the message parses, the loop is the fold over its fields. */
  lemma {:induction false} LoopIsFold<S(!new)>(field: (S, seq<byte>) -> Option<Step<S>>, take: (S, Field) -> Option<S>,
                                               s: S, b: seq<byte>, fs: seq<Field>)
    requires FieldAgrees(field, take) && ParseFields(b) == Some(fs)
    ensures Loop(field, s, b) == Fold(take, s, fs)
    decreases |b|
  {
    if b != [] {
      var h := ConsumeField(b).value;
      var rest := b[h.size..];
      assert fs == [h.field] + ParseFields(rest).value && fs[1..] == ParseFields(rest).value;
      assert FieldAgreesAt(field, take, s, b, h);
      if take(s, fs[0]).Some? { LoopIsFold(field, take, take(s, fs[0]).value, rest, fs[1..]); }
    }
  }

  lemma IdValuesAgree()
    ensures ValueAgrees(IdField, TakeId)
  {
    forall p: TransferPath, tag: Tag, b: seq<byte>, h: Head ensures ValueAgreesAt(IdField, TakeId, p, tag, b, h) {
      if FieldAfter(tag, b) == Some(h) { IdFieldAgrees(p, tag, b, h); }
    }
  }

  lemma IdsAgree()
    ensures FieldAgrees(IdStep, TakeId)
  {
    IdValuesAgree();
    forall p: TransferPath, b: seq<byte>, h: Head ensures FieldAgreesAt(IdStep, TakeId, p, b, h) {
      if ConsumeField(b) == Some(h) { TaggedAgrees(IdField, TakeId, p, b, h); }
    }
  }

  lemma PathValuesAgree()
    ensures ValueAgrees(PathField, TakeFound)
  {
    forall found: Found, tag: Tag, b: seq<byte>, h: Head ensures ValueAgreesAt(PathField, TakeFound, found, tag, b, h) {
      if FieldAfter(tag, b) == Some(h) { PathFieldAgrees(found, tag, b, h); }
    }
  }

  lemma PathsAgree()
    ensures FieldAgrees(PathStep, TakeFound)
  {
    PathValuesAgree();
    forall found: Found, b: seq<byte>, h: Head ensures FieldAgreesAt(PathStep, TakeFound, found, b, h) {
      if ConsumeField(b) == Some(h) { TaggedAgrees(PathField, TakeFound, found, b, h); }
    }
  }

  lemma FastIdsIsFold(p: TransferPath, b: seq<byte>, fs: seq<Field>)
    requires ParseFields(b) == Some(fs)
    ensures FastIds(p, b) == Fold(TakeId, p, fs)
  {
    IdsAgree();
    LoopIsFold(IdStep, TakeId, p, b, fs);
  }

  lemma FastPathIsFold(found: Found, b: seq<byte>, fs: seq<Field>)
    requires ParseFields(b) == Some(fs)
    ensures FastPath.FastPath(found, b) == Fold(TakeFound, found, fs)
  {
    PathsAgree();
    LoopIsFold(PathStep, TakeFound, found, b, fs);
  }

  // ---- one path field ----

  /** The decoded ids `m` and the parsed path `p` name the same path. */
  predicate SamePath(m: PathMessage, p: TransferPath)
  {
    IdFrom(m.destinationId) == Some(p.destinationId) && IdFrom(m.sourceId) == Some(p.sourceId)
      && IdFrom(m.streamId) == Some(p.streamId)
  }

  lemma {:induction false} FoldsSamePath(m: PathMessage, p: TransferPath, fs: seq<Field>)
    requires SamePath(m, p) && Fold(TakePath, m, fs).Some? && Fold(TakeId, p, fs).Some?
    ensures SamePath(Fold(TakePath, m, fs).value, Fold(TakeId, p, fs).value)
    decreases |fs|
  {
    if fs != [] {
      TakesSamePath(m, p, fs[0]);
      FoldsSamePath(TakePath(m, fs[0]).value, TakeId(p, fs[0]).value, fs[1..]);
    }
  }

  lemma TakesSamePath(m: PathMessage, p: TransferPath, f: Field)
    requires SamePath(m, p) && TakePath(m, f).Some? && TakeId(p, f).Some?
    ensures SamePath(TakePath(m, f).value, TakeId(p, f).value)
  {
  }

  /** On a path both accept, the ids agree. */
  lemma PathBodiesAgree(b: seq<byte>)
    requires DecodePath(b).Some? && FastIds(NO_PATH, b).Some?
    ensures PathFrom(DecodePath(b)) == FastIds(NO_PATH, b)
  {
    var fs := ParseFields(b).value;
    FastIdsIsFold(NO_PATH, b, fs);
    FoldsSamePath(NO_IDS, NO_PATH, fs);
  }

  /** The contents of the path fields of a frame. */
  function PathsOf(fs: seq<Field>): (paths: seq<seq<byte>>)
  {
    if fs == [] then []
    else if fs[0].number == 1 && fs[0].value.Bytes? then [fs[0].value.b] + PathsOf(fs[1..])
    else PathsOf(fs[1..])
  }

  /** The fast parser merges all the path fields, later ids over earlier ones. */
  function Merged(found: Found, paths: seq<seq<byte>>): (r: Option<Found>)
    decreases |paths|
  {
    if paths == [] then Some(found)
    else
      match FastIds(found.path, paths[0])
      case None => None
      case Some(p) => Merged(Found(p, true), paths[1..])
  }

  lemma {:induction false} FoundIsMerged(found: Found, fs: seq<Field>)
    requires Fold(TakeFound, found, fs).Some?
    ensures Merged(found, PathsOf(fs)) == Fold(TakeFound, found, fs)
    decreases |fs|
  {
    if fs != [] { FoundIsMerged(TakeFound(found, fs[0]).value, fs[1..]); }
  }

  /** The full decoder keeps the last path field only. */
  function LastPath(path: Option<PathMessage>, paths: seq<seq<byte>>): (r: Option<PathMessage>)
  {
    if paths == [] then path else DecodePath(paths[|paths| - 1])
  }

  lemma TakenPath(t: TransferFrame, f: Field, u: TransferFrame)
    requires TakeTransfer(true, t, f) == Some(u)
    ensures u.path == (if f.number == 1 then DecodePath(f.value.b) else t.path) && (f.number == 1 ==> f.value.Bytes?)
  {
  }

  lemma {:induction false} TransferKeepsLast(t: TransferFrame, fs: seq<Field>)
    requires Fold(TakerOf(true), t, fs).Some?
    ensures Fold(TakerOf(true), t, fs).value.path == LastPath(t.path, PathsOf(fs))
    ensures forall i :: 0 <= i < |PathsOf(fs)| ==> DecodePath(PathsOf(fs)[i]).Some?
    decreases |fs|
  {
    if fs != [] {
      var u := TakeTransfer(true, t, fs[0]).value;
      TakenPath(t, fs[0], u);
      TransferKeepsLast(u, fs[1..]);
    }
  }

  /** On every buffer both accept, the fast parser merges the path fields and the decoder keeps the last. */
  lemma BothAccept(b: seq<byte>, found: Found, t: TransferFrame)
    requires ParseFiltered(b) == Some(found) && UnmarshalTransferFrame(b, true) == Some(t)
    ensures ParseFields(b).Some?
    ensures var paths := PathsOf(ParseFields(b).value);
            Merged(NOTHING, paths) == Some(found) && t.path == LastPath(None, paths)
  {
    var fs := ParseFields(b).value;
    FastPathIsFold(NOTHING, b, fs);
    FoundIsMerged(NOTHING, fs);
    TransferKeepsLast(NO_TRANSFER, fs);
  }

  /** On every buffer both accept with exactly one path field, the paths are equal. */
  lemma FastPathRefinesDecoder(b: seq<byte>, found: Found, t: TransferFrame)
    requires ParseFiltered(b) == Some(found) && UnmarshalTransferFrame(b, true) == Some(t)
    requires |PathsOf(ParseFields(b).value)| == 1
    ensures found.present && PathFrom(t.path) == Some(found.path)
  {
    BothAccept(b, found, t);
    var fs := ParseFields(b).value;
    TransferKeepsLast(NO_TRANSFER, fs);
    OnePath(found, PathsOf(fs));
    PathBodiesAgree(PathsOf(fs)[0]);
  }

  lemma OnePath(found: Found, paths: seq<seq<byte>>)
    requires |paths| == 1 && Merged(NOTHING, paths) == Some(found)
    ensures FastIds(NO_PATH, paths[0]) == Some(found.path) && found.present
  {
    assert paths[1..] == [];
  }

  // ---- several path fields ----

  /** `p` is `e` with the ids `m` has put over it. */
  predicate Overlaid(p: TransferPath, m: PathMessage, e: TransferPath)
  {
    && p.destinationId == (if m.destinationId == [] then e.destinationId else m.destinationId)
    && p.sourceId == (if m.sourceId == [] then e.sourceId else m.sourceId)
    && p.streamId == (if m.streamId == [] then e.streamId else m.streamId)
  }

  lemma TakesOverlay(m: PathMessage, p: TransferPath, e: TransferPath, f: Field)
    requires Overlaid(p, m, e) && TakePath(m, f).Some? && TakeId(p, f).Some?
    ensures Overlaid(TakeId(p, f).value, TakePath(m, f).value, e)
  {
  }

  lemma {:induction false} FoldsOverlay(m: PathMessage, p: TransferPath, e: TransferPath, fs: seq<Field>)
    requires Overlaid(p, m, e) && Fold(TakePath, m, fs).Some? && Fold(TakeId, p, fs).Some?
    ensures Overlaid(Fold(TakeId, p, fs).value, Fold(TakePath, m, fs).value, e)
    decreases |fs|
  {
    if fs != [] {
      TakesOverlay(m, p, e, fs[0]);
      FoldsOverlay(TakePath(m, fs[0]).value, TakeId(p, fs[0]).value, e, fs[1..]);
    }
  }

  /** The fast parser puts the ids of a path field over those it has. */
  lemma BodyOverlays(e: TransferPath, b: seq<byte>)
    requires DecodePath(b).Some? && FastIds(e, b).Some?
    ensures Overlaid(FastIds(e, b).value, DecodePath(b).value, e)
  {
    var fs := ParseFields(b).value;
    FastIdsIsFold(e, b, fs);
    FoldsOverlay(NO_IDS, e, e, fs);
  }

  lemma {:induction false} MergedLast(found: Found, paths: seq<seq<byte>>)
    requires paths != [] && Merged(found, paths).Some?
    ensures var n := |paths| - 1;
            && Merged(found, paths[..n]).Some?
            && FastIds(Merged(found, paths[..n]).value.path, paths[n]) == Some(Merged(found, paths).value.path)
    decreases |paths|
  {
    var n := |paths| - 1;
    if n > 0 {
      assert paths[..n][1..] == paths[1..][..n - 1];
      MergedLast(Found(FastIds(found.path, paths[0]).value, true), paths[1..]);
    } else {
      assert paths[1..] == [] && paths[..n] == [];
    }
  }

  /** An id the last path field leaves out was not set before either. */
  predicate LeavesOutOnlyZero(m: PathMessage, e: TransferPath)
  {
    && (m.destinationId == [] ==> e.destinationId == ZERO_ID)
    && (m.sourceId == [] ==> e.sourceId == ZERO_ID)
    && (m.streamId == [] ==> e.streamId == ZERO_ID)
  }

  lemma OverlayIsLast(p: TransferPath, m: PathMessage, e: TransferPath)
    requires Overlaid(p, m, e)
    ensures PathFrom(Some(m)) == Some(p) <==> LeavesOutOnlyZero(m, e)
  {
  }

  lemma LastOverEarlier(paths: seq<seq<byte>>, found: Found, path: Option<PathMessage>)
    requires paths != [] && Merged(NOTHING, paths) == Some(found) && path == LastPath(None, paths) && path.Some?
    ensures var n := |paths| - 1;
            && Merged(NOTHING, paths[..n]).Some?
            && (PathFrom(path) == Some(found.path) <==>
                LeavesOutOnlyZero(path.value, Merged(NOTHING, paths[..n]).value.path))
  {
    var n := |paths| - 1;
    MergedLast(NOTHING, paths);
    var e := Merged(NOTHING, paths[..n]).value.path;
    BodyOverlays(e, paths[n]);
    OverlayIsLast(found.path, path.value, e);
  }

  /**
   * On every buffer both accept with a path field, the paths are equal if and only if every id the last path
   * field leaves out is zero in the merge of the earlier ones.
   */
  lemma PathsEqualExactly(b: seq<byte>, found: Found, t: TransferFrame)
    requires ParseFiltered(b) == Some(found) && UnmarshalTransferFrame(b, true) == Some(t)
    requires PathsOf(ParseFields(b).value) != []
    ensures var paths := PathsOf(ParseFields(b).value);
            var n := |paths| - 1;
            && DecodePath(paths[n]).Some? && Merged(NOTHING, paths[..n]).Some?
            && (PathFrom(t.path) == Some(found.path) <==>
                LeavesOutOnlyZero(DecodePath(paths[n]).value, Merged(NOTHING, paths[..n]).value.path))
  {
    BothAccept(b, found, t);
    var fs := ParseFields(b).value;
    assert DecodePath(PathsOf(fs)[|PathsOf(fs)| - 1]).Some? by { TransferKeepsLast(NO_TRANSFER, fs); }
    LastOverEarlier(PathsOf(fs), found, t.path);
  }

  // ---- encoded frames ----

  lemma FoldIds(p: TransferPath)
    ensures Fold(TakeId, NO_PATH, PathFields(p)) == Some(p)
  {
    var t := NO_PATH.(destinationId := p.destinationId);
    var u := t.(sourceId := p.sourceId);
    FoldIf(TakeId, NO_PATH, p.destinationId != ZERO_ID, BytesField(1, p.destinationId),
           If(p.sourceId != ZERO_ID, BytesField(2, p.sourceId))
           + If(p.streamId != ZERO_ID, BytesField(3, p.streamId)), t);
    FoldIf(TakeId, t, p.sourceId != ZERO_ID, BytesField(2, p.sourceId),
           If(p.streamId != ZERO_ID, BytesField(3, p.streamId)), u);
    FoldLast(TakeId, u, p.streamId != ZERO_ID, BytesField(3, p.streamId), p);
  }

  lemma EncodedIds(p: TransferPath)
    requires Fits(PathFields(p))
    ensures FastIds(NO_PATH, EncodeFields(PathFields(p))) == Some(p)
  {
    FitsEncodable(PathFields(p));
    FieldsRoundTrip(PathFields(p));
    FastIdsIsFold(NO_PATH, EncodeFields(PathFields(p)), PathFields(p));
    FoldIds(p);
  }

  /** Fields that are neither paths nor groups pass by. */
  predicate Passing(fs: seq<Field>)
  {
    forall i :: 0 <= i < |fs| ==> fs[i].number != 1 && !fs[i].value.Skipped?
  }

  lemma {:induction false} FoldPassing(found: Found, fs: seq<Field>)
    requires Passing(fs)
    ensures Fold(TakeFound, found, fs) == Some(found)
  {
    if fs != [] { FoldPassing(found, fs[1..]); }
  }

  /** A frame that starts with the encoded path and has no other. */
  lemma FrameIsRouted(p: TransferPath, rest: seq<Field>)
    requires Fits(PathFields(p)) && Passing(rest)
    requires var fs := [BytesField(1, EncodeFields(PathFields(p)))] + rest; Numbered(fs) && Fits(fs)
    ensures ParseFiltered(EncodeFields([BytesField(1, EncodeFields(PathFields(p)))] + rest)) == Some(Found(p, true))
  {
    var path := BytesField(1, EncodeFields(PathFields(p)));
    var fs := [path] + rest;
    FitsEncodable(fs);
    FieldsRoundTrip(fs);
    FastPathIsFold(NOTHING, EncodeFields(fs), fs);
    EncodedIds(p);
    FoldCons(TakeFound, NOTHING, path, rest, Found(p, true));
    FoldPassing(Found(p, true), rest);
  }

  /** The fast parser finds the path of every encoded pack frame. */
  lemma PackIsRouted(m: SendPack)
    requires Fits(PackFrameFields(m))
    ensures ParseFiltered(EncodeFields(PackFrameFields(m))) == Some(Found(m.path, true))
  {
    PackFrameFits(m);
    PackFrameNumbered(m);
    var rest := PackFrameFields(m)[1..];
    assert PackFrameFields(m) == [BytesField(1, EncodeFields(PathFields(m.path)))] + rest;
    PackRestPasses(m);
    FrameIsRouted(m.path, rest);
  }

  lemma PackRestPasses(m: SendPack)
    ensures Passing(PackFrameFields(m)[1..])
  {
    var tail := RoleFields(m.sessionRole) + If(m.companion, VarintField(8, 1));
    var body := BytesField(4, EncodeFields(PackFields(m)));
    TailPasses(BytesField(1, EncodeFields(PathFields(m.path))), VarintField(3, TRANSFER_PACK), body, tail);
  }

  lemma TailPasses(path: Field, messageType: Field, body: Field, tail: seq<Field>)
    requires Passing(tail) && Passing([messageType, body])
    ensures Passing(([path, messageType, body] + tail)[1..])
  {
    var fs := ([path, messageType, body] + tail)[1..];
    forall i | 0 <= i < |fs| ensures fs[i].number != 1 && !fs[i].value.Skipped? {
      if i < 2 { assert fs[i] == [messageType, body][i]; } else { assert fs[i] == tail[i - 2]; }
    }
  }

  /** And of every encoded ack frame. */
  lemma AckIsRouted(m: SendAck)
    requires Fits(AckFrameFields(m))
    ensures ParseFiltered(EncodeFields(AckFrameFields(m))) == Some(Found(m.path, true))
  {
    AckFrameFits(m);
    var rest := [VarintField(3, TRANSFER_ACK), BytesField(5, EncodeFields(AckFields(m)))];
    assert AckFrameFields(m) == [BytesField(1, EncodeFields(PathFields(m.path)))] + rest;
    FrameIsRouted(m.path, rest);
  }

  // ---- two path fields ----

  lemma MergesTwo(destination: Id, source: Id, a: seq<byte>, b: seq<byte>)
    requires FastIds(NO_PATH, a) == Some(NO_PATH.(destinationId := destination))
    requires FastIds(NO_PATH.(destinationId := destination), b) == Some(TransferPath(destination, source, ZERO_ID))
    ensures Fold(TakeFound, NOTHING, [BytesField(1, a), BytesField(1, b)]) ==
              Some(Found(TransferPath(destination, source, ZERO_ID), true))
  {
    var p := Found(NO_PATH.(destinationId := destination), true);
    var q := Found(TransferPath(destination, source, ZERO_ID), true);
    assert [BytesField(1, a), BytesField(1, b)] == [BytesField(1, a)] + [BytesField(1, b)];
    FoldCons(TakeFound, NOTHING, BytesField(1, a), [BytesField(1, b)], p);
    FoldLast(TakeFound, p, true, BytesField(1, b), q);
  }

  lemma KeepsLastOfTwo(a: seq<byte>, b: seq<byte>)
    requires DecodePath(a).Some? && DecodePath(b).Some?
    ensures Fold(TakerOf(true), NO_TRANSFER, [BytesField(1, a), BytesField(1, b)]) ==
              Some(NO_TRANSFER.(path := DecodePath(b)))
  {
    var t := NO_TRANSFER.(path := DecodePath(a));
    assert [BytesField(1, a), BytesField(1, b)] == [BytesField(1, a)] + [BytesField(1, b)];
    FoldCons(TakerOf(true), NO_TRANSFER, BytesField(1, a), [BytesField(1, b)], t);
    FoldLast(TakerOf(true), t, true, BytesField(1, b), NO_TRANSFER.(path := DecodePath(b)));
  }

  /** An encoded path that holds the id `id` in field `number` only. */
  function OneId(number: nat, id: Id): (b: seq<byte>) { EncodeFields([BytesField(number, id)]) }

  lemma OneIdReads(number: nat, id: Id, p: TransferPath)
    requires 1 <= number <= 3
    ensures |OneId(number, id)| == 18
    ensures FastIds(p, OneId(number, id)) == Some(SetId(p, number, id))
    ensures DecodePath(OneId(number, id)) == TakePath(NO_IDS, BytesField(number, id))
  {
    var f := BytesField(number, id);
    OneFieldSize(number, id);
    FitsEncodable([f]);
    FieldsRoundTrip([f]);
    FastIdsIsFold(p, OneId(number, id), [f]);
    FoldLast(TakeId, p, true, f, SetId(p, number, id));
    FoldLast(TakePath, NO_IDS, true, f, TakePath(NO_IDS, f).value);
  }

  lemma OneFieldSize(number: nat, b: seq<byte>)
    requires 1 <= number <= 3 && |b| < 0x80
    ensures |EncodeFields([BytesField(number, b)])| == 2 + |b|
  {
    var f := BytesField(number, b);
    assert Varint(number * 8 + BYTES_TYPE) == [number * 8 + BYTES_TYPE] && Varint(|b|) == [|b|];
    assert |EncodeField(f)| == 2 + |b|;
    assert [f][1..] == [];
    assert Flatten(EncodeField, [f]) == EncodeField(f) + Flatten(EncodeField, [f][1..]);
  }

  /** With two path fields both accept and the paths differ: the fast parser merges what the decoder replaces. */
  lemma TwoPathFieldsDiffer(destination: Id, source: Id)
    requires destination != ZERO_ID && source != ZERO_ID
    ensures var b := EncodeFields([BytesField(1, OneId(1, destination)), BytesField(1, OneId(2, source))]);
            && ParseFiltered(b) == Some(Found(TransferPath(destination, source, ZERO_ID), true))
            && UnmarshalTransferFrame(b, true).Some?
            && PathFrom(UnmarshalTransferFrame(b, true).value.path) == Some(TransferPath(ZERO_ID, source, ZERO_ID))
  {
    var x, y := OneId(1, destination), OneId(2, source);
    var fs := [BytesField(1, x), BytesField(1, y)];
    OneIdReads(1, destination, NO_PATH);
    OneIdReads(2, source, NO_PATH.(destinationId := destination));
    TwoFit(x, y);
    FitsEncodable(fs);
    FieldsRoundTrip(fs);
    FastPathIsFold(NOTHING, EncodeFields(fs), fs);
    MergesTwo(destination, source, x, y);
    KeepsLastOfTwo(x, y);
    assert DecodePath(y) == Some(PathMessage([], source, []));
    assert UnmarshalTransferFrame(EncodeFields(fs), true) == Some(NO_TRANSFER.(path := DecodePath(y)));
    assert ParseFiltered(EncodeFields(fs)) == Some(Found(TransferPath(destination, source, ZERO_ID), true));
  }

  lemma TwoFit(x: seq<byte>, y: seq<byte>)
    requires |x| == |y| == 18
    ensures Fits([BytesField(1, x), BytesField(1, y)])
  {
    OneFieldSize(1, x);
    OneFieldSize(1, y);
    FlattenConcat(EncodeField, [BytesField(1, x)], [BytesField(1, y)]);
    assert [BytesField(1, x), BytesField(1, y)] == [BytesField(1, x)] + [BytesField(1, y)];
  }
}
