/** RawExtension, TypeMeta and Unknown: optional bytes and a nested message. */
module RuntimeMessages {
  import opened Options
  import opened Varints
  import opened Codecs

  // ----- TypeMeta -----

  datatype TypeMetaValue = TypeMetaValue(apiVersion: Option<bytes>, kind: Option<bytes>, unknownFields: bytes)

  const EMPTY_TYPE_META := TypeMetaValue(None, None, [])

  function TypeMetaKind(field: int): Kind {
    if field == 1 || field == 2 then BytesField else UnknownField
  }

  function TypeMetaApply(m: TypeMetaValue, r: Record): Outcome<TypeMetaValue> {
    if r.Chunk? && r.field == 1 then Outcome(m.(apiVersion := Some(Payload(r))), None)
    else if r.Chunk? && r.field == 2 then Outcome(m.(kind := Some(Payload(r))), None)
    else Outcome(m, None)
  }

  function TypeMetaKeep(m: TypeMetaValue, x: bytes): TypeMetaValue {
    m.(unknownFields := m.unknownFields + x)
  }

  const TYPE_META: Codec<TypeMetaValue> := Codec(TypeMetaKind, TypeMetaApply, TypeMetaKeep)

  function EncodeTypeMeta(m: TypeMetaValue): bytes {
    OptChunk(1, m.apiVersion) + OptChunk(2, m.kind) + m.unknownFields
  }

  ghost predicate ValidTypeMeta(m: TypeMetaValue) {
    OnlyUnknown(TypeMetaKind, m.unknownFields)
  }

  lemma TypeMetaLaws()
    ensures Extends(TYPE_META) && Shifts(TYPE_META) && Keeps(TYPE_META)
    ensures Preserves(TYPE_META, ValidTypeMeta)
    ensures Bounded(TYPE_META, m => |EncodeTypeMeta(m)|)
  {
    hide OnlyUnknown, VarintOf;
    assert UsesPayload(TYPE_META);
    PayloadLaws(TYPE_META);
    forall m: TypeMetaValue, x, y
      ensures TypeMetaKeep(m, []) == m && TypeMetaKeep(TypeMetaKeep(m, x), y) == TypeMetaKeep(m, x + y)
    {
      assert m.unknownFields + [] == m.unknownFields;
      assert m.unknownFields + x + y == m.unknownFields + (x + y);
    }
    forall m: TypeMetaValue, x | ValidTypeMeta(m) && OnlyUnknown(TypeMetaKind, x)
      ensures ValidTypeMeta(TypeMetaKeep(m, x))
    {
      UnknownAppend(TypeMetaKind, m.unknownFields, x);
    }
  }

  lemma TypeMetaRoundTrip(m: TypeMetaValue)
    requires ValidTypeMeta(m) && |EncodeTypeMeta(m)| <= MAX_INT
    ensures Decode(TYPE_META, 0, EncodeTypeMeta(m), EMPTY_TYPE_META) == Outcome(m, None)
  {
    hide OnlyUnknown, Decode;
    TypeMetaLaws();
    var a, b, u := OptChunk(1, m.apiVersion), OptChunk(2, m.kind), m.unknownFields;
    var m1 := EMPTY_TYPE_META.(apiVersion := m.apiVersion);
    var m2 := m1.(kind := m.kind);
    DecodeOptChunk(TYPE_META, 1, m.apiVersion, EMPTY_TYPE_META, m1);
    DecodeOptChunk(TYPE_META, 2, m.kind, m1, m2);
    DecodeThen(TYPE_META, a, b, EMPTY_TYPE_META, m1, m2);
    DecodeUnknown(TYPE_META, u, m2);
    assert [] + u == u;
    DecodeThen(TYPE_META, a + b, u, EMPTY_TYPE_META, m2, m);
  }

  /** Whatever bytes were accepted, encoding the result is not longer and decodes to it again. */
  lemma TypeMetaStable(s: bytes)
    requires |s| <= MAX_INT && Decode(TYPE_META, 0, s, EMPTY_TYPE_META).err.None?
    ensures var o := Decode(TYPE_META, 0, s, EMPTY_TYPE_META);
            |EncodeTypeMeta(o.msg)| <= |s| && Decode(TYPE_META, 0, EncodeTypeMeta(o.msg), EMPTY_TYPE_META) == o
  {
    hide Decode;
    TypeMetaLaws();
    DecodePreserves(TYPE_META, 0, s, EMPTY_TYPE_META, ValidTypeMeta);
    DecodeBounded(TYPE_META, 0, s, EMPTY_TYPE_META, m => |EncodeTypeMeta(m)|);
    TypeMetaRoundTrip(Decode(TYPE_META, 0, s, EMPTY_TYPE_META).msg);
  }

  /** Unknown records of an accepted input are kept, byte for byte and in order. */
  lemma TypeMetaFieldsKept(s: bytes, m: TypeMetaValue)
    requires Decode(TYPE_META, 0, s, m).err.None?
    ensures Decode(TYPE_META, 0, s, m).msg.unknownFields ==
            m.unknownFields + Concat(UnknownRecords(TypeMetaKind, 0, s))
  {
    hide Decode, UnknownRecords;
    UnknownRecordsKept(TYPE_META, 0, s, m, (v: TypeMetaValue) => v.unknownFields);
  }

  // ----- RawExtension -----

  datatype RawExtensionValue = RawExtensionValue(raw: Option<bytes>, unknownFields: bytes)

  const EMPTY_RAW_EXTENSION := RawExtensionValue(None, [])

  function RawExtensionKind(field: int): Kind {
    if field == 1 then BytesField else UnknownField
  }

  function RawExtensionApply(m: RawExtensionValue, r: Record): Outcome<RawExtensionValue> {
    if r.Chunk? && r.field == 1 then Outcome(m.(raw := Some(Payload(r))), None) else Outcome(m, None)
  }

  function RawExtensionKeep(m: RawExtensionValue, x: bytes): RawExtensionValue {
    m.(unknownFields := m.unknownFields + x)
  }

  const RAW_EXTENSION: Codec<RawExtensionValue> := Codec(RawExtensionKind, RawExtensionApply, RawExtensionKeep)

  function EncodeRawExtension(m: RawExtensionValue): bytes {
    OptChunk(1, m.raw) + m.unknownFields
  }

  ghost predicate ValidRawExtension(m: RawExtensionValue) {
    OnlyUnknown(RawExtensionKind, m.unknownFields)
  }

  lemma RawExtensionLaws()
    ensures Extends(RAW_EXTENSION) && Shifts(RAW_EXTENSION) && Keeps(RAW_EXTENSION)
    ensures Preserves(RAW_EXTENSION, ValidRawExtension)
    ensures Bounded(RAW_EXTENSION, m => |EncodeRawExtension(m)|)
  {
    hide OnlyUnknown, VarintOf;
    assert UsesPayload(RAW_EXTENSION);
    PayloadLaws(RAW_EXTENSION);
    forall m: RawExtensionValue, x, y
      ensures RawExtensionKeep(m, []) == m
      ensures RawExtensionKeep(RawExtensionKeep(m, x), y) == RawExtensionKeep(m, x + y)
    {
      assert m.unknownFields + [] == m.unknownFields;
      assert m.unknownFields + x + y == m.unknownFields + (x + y);
    }
    forall m: RawExtensionValue, x | ValidRawExtension(m) && OnlyUnknown(RawExtensionKind, x)
      ensures ValidRawExtension(RawExtensionKeep(m, x))
    {
      UnknownAppend(RawExtensionKind, m.unknownFields, x);
    }
  }

  lemma RawExtensionRoundTrip(m: RawExtensionValue)
    requires ValidRawExtension(m) && |EncodeRawExtension(m)| <= MAX_INT
    ensures Decode(RAW_EXTENSION, 0, EncodeRawExtension(m), EMPTY_RAW_EXTENSION) == Outcome(m, None)
  {
    hide OnlyUnknown, Decode;
    RawExtensionLaws();
    var m1 := EMPTY_RAW_EXTENSION.(raw := m.raw);
    DecodeOptChunk(RAW_EXTENSION, 1, m.raw, EMPTY_RAW_EXTENSION, m1);
    DecodeUnknown(RAW_EXTENSION, m.unknownFields, m1);
    assert [] + m.unknownFields == m.unknownFields;
    DecodeThen(RAW_EXTENSION, OptChunk(1, m.raw), m.unknownFields, EMPTY_RAW_EXTENSION, m1, m);
  }

  lemma RawExtensionStable(s: bytes)
    requires |s| <= MAX_INT && Decode(RAW_EXTENSION, 0, s, EMPTY_RAW_EXTENSION).err.None?
    ensures var o := Decode(RAW_EXTENSION, 0, s, EMPTY_RAW_EXTENSION);
            |EncodeRawExtension(o.msg)| <= |s|
            && Decode(RAW_EXTENSION, 0, EncodeRawExtension(o.msg), EMPTY_RAW_EXTENSION) == o
  {
    hide Decode;
    RawExtensionLaws();
    DecodePreserves(RAW_EXTENSION, 0, s, EMPTY_RAW_EXTENSION, ValidRawExtension);
    DecodeBounded(RAW_EXTENSION, 0, s, EMPTY_RAW_EXTENSION, m => |EncodeRawExtension(m)|);
    RawExtensionRoundTrip(Decode(RAW_EXTENSION, 0, s, EMPTY_RAW_EXTENSION).msg);
  }

  /** Unknown records of an accepted input are kept, byte for byte and in order. */
  lemma RawExtensionFieldsKept(s: bytes, m: RawExtensionValue)
    requires Decode(RAW_EXTENSION, 0, s, m).err.None?
    ensures Decode(RAW_EXTENSION, 0, s, m).msg.unknownFields ==
            m.unknownFields + Concat(UnknownRecords(RawExtensionKind, 0, s))
  {
    hide Decode, UnknownRecords;
    UnknownRecordsKept(RAW_EXTENSION, 0, s, m, (v: RawExtensionValue) => v.unknownFields);
  }

  // ----- Unknown -----

  datatype UnknownValue = UnknownValue(
    typeMeta: Option<TypeMetaValue>, raw: Option<bytes>,
    contentEncoding: Option<bytes>, contentType: Option<bytes>, unknownFields: bytes)

  const EMPTY_UNKNOWN := UnknownValue(None, None, None, None, [])

  function UnknownKind(field: int): Kind {
    if 1 <= field <= 4 then BytesField else UnknownField
  }

  function TypeMetaOf(m: UnknownValue): TypeMetaValue {
    if m.typeMeta.None? then EMPTY_TYPE_META else m.typeMeta.value
  }

  /** A second TypeMeta record is decoded into the TypeMeta that is already there. */
  function UnknownApply(m: UnknownValue, r: Record): Outcome<UnknownValue> {
    if !r.Chunk? then Outcome(m, None)
    else if r.field == 1 then
      var o := Decode(TYPE_META, 0, Payload(r), TypeMetaOf(m));
      Outcome(m.(typeMeta := Some(o.msg)), o.err)
    else if r.field == 2 then Outcome(m.(raw := Some(Payload(r))), None)
    else if r.field == 3 then Outcome(m.(contentEncoding := Some(Payload(r))), None)
    else if r.field == 4 then Outcome(m.(contentType := Some(Payload(r))), None)
    else Outcome(m, None)
  }

  function UnknownKeep(m: UnknownValue, x: bytes): UnknownValue {
    m.(unknownFields := m.unknownFields + x)
  }

  const UNKNOWN: Codec<UnknownValue> := Codec(UnknownKind, UnknownApply, UnknownKeep)

  function EncodedTypeMeta(m: UnknownValue): Option<bytes> {
    if m.typeMeta.None? then None else Some(EncodeTypeMeta(m.typeMeta.value))
  }

  function EncodeUnknown(m: UnknownValue): bytes {
    OptChunk(1, EncodedTypeMeta(m)) + OptChunk(2, m.raw) + OptChunk(3, m.contentEncoding)
    + OptChunk(4, m.contentType) + m.unknownFields
  }

  ghost predicate ValidUnknown(m: UnknownValue) {
    OnlyUnknown(UnknownKind, m.unknownFields) && (m.typeMeta.Some? ==> ValidTypeMeta(m.typeMeta.value))
  }

  lemma UnknownMergeLaws()
    ensures Extends(UNKNOWN) && Shifts(UNKNOWN) && Keeps(UNKNOWN)
  {
    hide Decode;
    assert UsesPayload(UNKNOWN);
    PayloadLaws(UNKNOWN);
    forall m: UnknownValue, x, y
      ensures UnknownKeep(m, []) == m && UnknownKeep(UnknownKeep(m, x), y) == UnknownKeep(m, x + y)
    {
      assert m.unknownFields + [] == m.unknownFields;
      assert m.unknownFields + x + y == m.unknownFields + (x + y);
    }
  }

  lemma UnknownPreserves()
    ensures Preserves(UNKNOWN, ValidUnknown)
  {
    hide Decode, OnlyUnknown;
    TypeMetaLaws();
    forall m: UnknownValue, r: Record | ValidUnknown(m) && (r.Number? || IsChunk(r))
      ensures ValidUnknown(UnknownApply(m, r).msg)
    {
      EmptyTypeMeta();
      DecodePreserves(TYPE_META, 0, Payload(r), TypeMetaOf(m), ValidTypeMeta);
    }
    forall m: UnknownValue, x | ValidUnknown(m) && OnlyUnknown(UnknownKind, x)
      ensures ValidUnknown(UnknownKeep(m, x))
    {
      UnknownAppend(UnknownKind, m.unknownFields, x);
    }
  }

  lemma UnknownBounded()
    ensures Bounded(UNKNOWN, m => |EncodeUnknown(m)|)
  {
    hide Decode, VarintOf, EncodeTypeMeta;
    TypeMetaLaws();
    forall m: UnknownValue, r: Record | (r.Number? || IsChunk(r)) && UnknownApply(m, r).err.None?
      ensures |EncodeUnknown(UnknownApply(m, r).msg)| <= |EncodeUnknown(m)| + RecordSize(r)
    {
      if r.Chunk? && r.field == 1 {
        NestedBounded(TypeMetaOf(m), Payload(r));
        EmptyTypeMeta();
      }
    }
  }

  lemma EmptyTypeMeta()
    ensures EncodeTypeMeta(EMPTY_TYPE_META) == [] && ValidTypeMeta(EMPTY_TYPE_META)
  {
  }

  lemma NestedBounded(tm: TypeMetaValue, s: bytes)
    requires Decode(TYPE_META, 0, s, tm).err.None?
    ensures var n, k := |EncodeTypeMeta(tm)|, |EncodeTypeMeta(Decode(TYPE_META, 0, s, tm).msg)|;
            k <= n + |s| && |VarintOf(k)| <= |VarintOf(n)| + |VarintOf(|s|)|
            && (n == 0 ==> |VarintOf(k)| <= |VarintOf(|s|)|)
  {
    hide Decode, VarintOf, EncodeTypeMeta;
    TypeMetaLaws();
    DecodeBounded(TYPE_META, 0, s, tm, m => |EncodeTypeMeta(m)|);
    var n, k := |EncodeTypeMeta(tm)|, |EncodeTypeMeta(Decode(TYPE_META, 0, s, tm).msg)|;
    VarintMonotone(k, n + |s|);
    VarintOfSum(n, |s|);
  }

  lemma UnknownRoundTrip(m: UnknownValue)
    requires ValidUnknown(m) && |EncodeUnknown(m)| <= MAX_INT
    ensures Decode(UNKNOWN, 0, EncodeUnknown(m), EMPTY_UNKNOWN) == Outcome(m, None)
  {
    hide OnlyUnknown, Decode, OptChunk, EncodeTypeMeta;
    UnknownMergeLaws();
    var m1 := EMPTY_UNKNOWN.(typeMeta := m.typeMeta);
    var m2 := m1.(raw := m.raw);
    var m3 := m2.(contentEncoding := m.contentEncoding);
    var m4 := m3.(contentType := m.contentType);
    if m.typeMeta.Some? {
      OptChunkSize(1, EncodedTypeMeta(m));
      TypeMetaRoundTrip(m.typeMeta.value);
    }
    var a := OptChunk(1, EncodedTypeMeta(m));
    DecodeOptChunk(UNKNOWN, 1, EncodedTypeMeta(m), EMPTY_UNKNOWN, m1);
    DecodeOptChunk(UNKNOWN, 2, m.raw, m1, m2);
    DecodeThen(UNKNOWN, a, OptChunk(2, m.raw), EMPTY_UNKNOWN, m1, m2);
    a := a + OptChunk(2, m.raw);
    DecodeOptChunk(UNKNOWN, 3, m.contentEncoding, m2, m3);
    DecodeThen(UNKNOWN, a, OptChunk(3, m.contentEncoding), EMPTY_UNKNOWN, m2, m3);
    a := a + OptChunk(3, m.contentEncoding);
    DecodeOptChunk(UNKNOWN, 4, m.contentType, m3, m4);
    DecodeThen(UNKNOWN, a, OptChunk(4, m.contentType), EMPTY_UNKNOWN, m3, m4);
    a := a + OptChunk(4, m.contentType);
    DecodeUnknown(UNKNOWN, m.unknownFields, m4);
    assert [] + m.unknownFields == m.unknownFields;
    DecodeThen(UNKNOWN, a, m.unknownFields, EMPTY_UNKNOWN, m4, m);
  }

  /** Whatever bytes were accepted, encoding the result is not longer and decodes to it again. */
  lemma UnknownStable(s: bytes)
    requires |s| <= MAX_INT && Decode(UNKNOWN, 0, s, EMPTY_UNKNOWN).err.None?
    ensures var o := Decode(UNKNOWN, 0, s, EMPTY_UNKNOWN);
            |EncodeUnknown(o.msg)| <= |s| && Decode(UNKNOWN, 0, EncodeUnknown(o.msg), EMPTY_UNKNOWN) == o
  {
    hide Decode;
    UnknownPreserves();
    UnknownBounded();
    DecodePreserves(UNKNOWN, 0, s, EMPTY_UNKNOWN, ValidUnknown);
    DecodeBounded(UNKNOWN, 0, s, EMPTY_UNKNOWN, m => |EncodeUnknown(m)|);
    UnknownRoundTrip(Decode(UNKNOWN, 0, s, EMPTY_UNKNOWN).msg);
  }

  /** Decoding a ++ b is decoding a and then b into the same message, nested TypeMeta included. */
  lemma UnknownConcatIsMerge(a: bytes, b: bytes, m: UnknownValue)
    requires |a| + |b| <= MAX_INT && Decode(UNKNOWN, 0, a, m).err.None?
    ensures Agree(Decode(UNKNOWN, 0, a + b, m), Decode(UNKNOWN, 0, b, Decode(UNKNOWN, 0, a, m).msg))
  {
    hide Decode;
    UnknownMergeLaws();
    ConcatIsMerge(UNKNOWN, 0, a, b, m);
  }

  /** Unknown records of an accepted input are kept, byte for byte and in order. */
  lemma UnknownFieldsKept(s: bytes, m: UnknownValue)
    requires Decode(UNKNOWN, 0, s, m).err.None?
    ensures Decode(UNKNOWN, 0, s, m).msg.unknownFields == m.unknownFields + Concat(UnknownRecords(UnknownKind, 0, s))
  {
    hide Decode, UnknownRecords;
    UnknownRecordsKept(UNKNOWN, 0, s, m, (v: UnknownValue) => v.unknownFields);
  }
}
