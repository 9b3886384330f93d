/** What each message makes of a sequence of records, read off the records themselves: of a single field
    the last record wins, repeated fields are collected in order, other records are kept. */
module Meanings {
  import opened Options
  import opened Varints
  import opened Skipping
  import opened Codecs
  import opened Records
  import opened RuntimeMessages
  import opened IntOrStrings
  import opened LabelSelectors

  lemma FieldShape(f: Field)
    requires WellFormed(f)
    ensures TagOf(f) % 8 == 0 ==> f.Scalar? && ReadVarint(f.body).Ok?
    ensures TagOf(f) % 8 == 2 <==> f.Delimited?
    ensures f.Delimited? ==> (f.payload + [])[..|f.payload|] == f.payload
  {
  }

  lemma Append(u: bytes, x: bytes, y: bytes)
    ensures u + x + y == u + (x + y) && [] + y == y && u + [] == u
  {
  }

  // ----- TypeMeta: apiVersion = 1, kind = 2 -----

  function TypeMetaSchema(): int -> Kind {
    Schema({}, {1, 2})
  }

  ghost function TypeMetaOfFields(fs: Fields, m: TypeMetaValue): TypeMetaValue {
    TypeMetaValue(Else(LastPayload(fs, 1), m.apiVersion), Else(LastPayload(fs, 2), m.kind),
                  m.unknownFields + OtherBytes(fs, {1, 2}))
  }

  lemma {:induction false} TypeMetaFold(fs: Fields, m: TypeMetaValue)
    requires AllBelong(TypeMetaKind, fs)
    ensures Fold(TYPE_META, fs, m) == Outcome(TypeMetaOfFields(fs, m), None)
    decreases fs
  {
    hide WellFormed, Bytes, NumberOf, TagOf, ReadVarint;
    match fs {
      case Nil => Append(m.unknownFields, [], []);
      case Cons(f, tail) =>
        FieldShape(f);
        Append(m.unknownFields, Bytes(f), OtherBytes(tail, {1, 2}));
        TypeMetaFold(tail, Step(TYPE_META, m, RecordOf(TypeMetaKind, 0, f, [])).msg);
    }
  }

  lemma TypeMetaReads()
    ensures UsesPayload(TYPE_META) && NeverFails(TYPE_META)
    ensures forall n :: TypeMetaKind(n) == TypeMetaSchema()(n)
  {
  }

  lemma TypeMetaMeaning(fs: Fields, m: TypeMetaValue)
    requires AllBelong(TypeMetaSchema(), fs) && |AllBytes(fs)| <= MAX_INT
    ensures Decode(TYPE_META, 0, AllBytes(fs), m) == Outcome(TypeMetaOfFields(fs, m), None)
  {
    TypeMetaReads();
    hide Decode, AllBelong, AllBytes, Fold, TypeMetaSchema, UsesPayload, TypeMetaOfFields;
    SameSchema(TypeMetaKind, TypeMetaSchema(), fs);
    DecodeIsFold(TYPE_META, 0, fs, m);
    TypeMetaFold(fs, m);
  }

  /** Exactly the sequences of records with positive numbers are accepted in which 1 and 2 are delimited. */
  lemma TypeMetaAccepts(s: bytes, m: TypeMetaValue)
    requires |s| <= MAX_INT
    ensures Decode(TYPE_META, 0, s, m).err.None? <==> exists fs :: AllBelong(TypeMetaSchema(), fs) && AllBytes(fs) == s
  {
    TypeMetaReads();
    hide Decode, AllBelong, AllBytes, TypeMetaSchema, UsesPayload, NeverFails;
    AcceptsExactly(TYPE_META, s, m);
    forall fs ensures AllBelong(TypeMetaKind, fs) == AllBelong(TypeMetaSchema(), fs) {
      SameSchema(TypeMetaKind, TypeMetaSchema(), fs);
    }
  }

  // ----- RawExtension: raw = 1 -----

  function RawExtensionSchema(): int -> Kind {
    Schema({}, {1})
  }

  ghost function RawExtensionOfFields(fs: Fields, m: RawExtensionValue): RawExtensionValue {
    RawExtensionValue(Else(LastPayload(fs, 1), m.raw), m.unknownFields + OtherBytes(fs, {1}))
  }

  lemma {:induction false} RawExtensionFold(fs: Fields, m: RawExtensionValue)
    requires AllBelong(RawExtensionKind, fs)
    ensures Fold(RAW_EXTENSION, fs, m) == Outcome(RawExtensionOfFields(fs, m), None)
    decreases fs
  {
    hide WellFormed, Bytes, NumberOf, TagOf, ReadVarint;
    match fs {
      case Nil => Append(m.unknownFields, [], []);
      case Cons(f, tail) =>
        FieldShape(f);
        Append(m.unknownFields, Bytes(f), OtherBytes(tail, {1}));
        RawExtensionFold(tail, Step(RAW_EXTENSION, m, RecordOf(RawExtensionKind, 0, f, [])).msg);
    }
  }

  lemma RawExtensionReads()
    ensures UsesPayload(RAW_EXTENSION) && NeverFails(RAW_EXTENSION)
    ensures forall n :: RawExtensionKind(n) == RawExtensionSchema()(n)
  {
  }

  lemma RawExtensionMeaning(fs: Fields, m: RawExtensionValue)
    requires AllBelong(RawExtensionSchema(), fs) && |AllBytes(fs)| <= MAX_INT
    ensures Decode(RAW_EXTENSION, 0, AllBytes(fs), m) == Outcome(RawExtensionOfFields(fs, m), None)
  {
    RawExtensionReads();
    hide Decode, AllBelong, AllBytes, Fold, RawExtensionSchema, UsesPayload, RawExtensionOfFields;
    SameSchema(RawExtensionKind, RawExtensionSchema(), fs);
    DecodeIsFold(RAW_EXTENSION, 0, fs, m);
    RawExtensionFold(fs, m);
  }

  lemma RawExtensionAccepts(s: bytes, m: RawExtensionValue)
    requires |s| <= MAX_INT
    ensures Decode(RAW_EXTENSION, 0, s, m).err.None? <==>
            exists fs :: AllBelong(RawExtensionSchema(), fs) && AllBytes(fs) == s
  {
    RawExtensionReads();
    hide Decode, AllBelong, AllBytes, RawExtensionSchema, UsesPayload, NeverFails;
    AcceptsExactly(RAW_EXTENSION, s, m);
    forall fs ensures AllBelong(RawExtensionKind, fs) == AllBelong(RawExtensionSchema(), fs) {
      SameSchema(RawExtensionKind, RawExtensionSchema(), fs);
    }
  }

  // ----- IntOrString: type = 1 (int64), intVal = 2 (int32), strVal = 3 -----

  function IntOrStringSchema(): int -> Kind {
    Schema({1, 2}, {3})
  }

  ghost function IntOrStringOfFields(fs: Fields, m: IntOrStringValue): IntOrStringValue {
    IntOrStringValue(
      if LastNumber(fs, 1).Some? then Some(ToInt64(LastNumber(fs, 1).value)) else m.typ,
      if LastNumber(fs, 2).Some? then Some(ToInt32(LastNumber(fs, 2).value)) else m.intVal,
      Else(LastPayload(fs, 3), m.strVal),
      m.unknownFields + OtherBytes(fs, {1, 2, 3}))
  }

  lemma {:induction false} IntOrStringFold(fs: Fields, m: IntOrStringValue)
    requires AllBelong(IntOrStringKind, fs)
    ensures Fold(INT_OR_STRING, fs, m) == Outcome(IntOrStringOfFields(fs, m), None)
    decreases fs
  {
    hide WellFormed, Bytes, NumberOf, TagOf, ReadVarint, ToInt32;
    match fs {
      case Nil => Append(m.unknownFields, [], []);
      case Cons(f, tail) =>
        FieldShape(f);
        Append(m.unknownFields, Bytes(f), OtherBytes(tail, {1, 2, 3}));
        IntOrStringFold(tail, Step(INT_OR_STRING, m, RecordOf(IntOrStringKind, 0, f, [])).msg);
    }
  }

  lemma IntOrStringReads()
    ensures UsesPayload(INT_OR_STRING) && NeverFails(INT_OR_STRING)
    ensures forall n :: IntOrStringKind(n) == IntOrStringSchema()(n)
  {
  }

  lemma IntOrStringMeaning(fs: Fields, m: IntOrStringValue)
    requires AllBelong(IntOrStringSchema(), fs) && |AllBytes(fs)| <= MAX_INT
    ensures Decode(INT_OR_STRING, 0, AllBytes(fs), m) == Outcome(IntOrStringOfFields(fs, m), None)
  {
    IntOrStringReads();
    hide Decode, AllBelong, AllBytes, Fold, IntOrStringSchema, UsesPayload, IntOrStringOfFields;
    SameSchema(IntOrStringKind, IntOrStringSchema(), fs);
    DecodeIsFold(INT_OR_STRING, 0, fs, m);
    IntOrStringFold(fs, m);
  }

  lemma IntOrStringAccepts(s: bytes, m: IntOrStringValue)
    requires |s| <= MAX_INT
    ensures Decode(INT_OR_STRING, 0, s, m).err.None? <==>
            exists fs :: AllBelong(IntOrStringSchema(), fs) && AllBytes(fs) == s
  {
    IntOrStringReads();
    hide Decode, AllBelong, AllBytes, IntOrStringSchema, UsesPayload, NeverFails;
    AcceptsExactly(INT_OR_STRING, s, m);
    forall fs ensures AllBelong(IntOrStringKind, fs) == AllBelong(IntOrStringSchema(), fs) {
      SameSchema(IntOrStringKind, IntOrStringSchema(), fs);
    }
  }

  // ----- LabelSelectorRequirement: key = 1, operator = 2, values = 3 (repeated) -----

  function RequirementSchema(): int -> Kind {
    Schema({}, {1, 2, 3})
  }

  ghost function RequirementOfFields(fs: Fields, m: RequirementValue): RequirementValue {
    RequirementValue(Else(LastPayload(fs, 1), m.key), Else(LastPayload(fs, 2), m.operator),
                     m.values + Payloads(fs, 3), m.unknownFields + OtherBytes(fs, {1, 2, 3}))
  }

  lemma {:induction false} RequirementFold(fs: Fields, m: RequirementValue)
    requires AllBelong(RequirementKind, fs)
    ensures Fold(REQUIREMENT, fs, m) == Outcome(RequirementOfFields(fs, m), None)
    decreases fs
  {
    hide WellFormed, Bytes, NumberOf, TagOf, ReadVarint;
    match fs {
      case Nil =>
        Append(m.unknownFields, [], []);
        assert m.values + [] == m.values;
      case Cons(f, tail) =>
        FieldShape(f);
        Append(m.unknownFields, Bytes(f), OtherBytes(tail, {1, 2, 3}));
        AppendPayload(m.values, f, tail, 3);
        RequirementFold(tail, Step(REQUIREMENT, m, RecordOf(RequirementKind, 0, f, [])).msg);
    }
  }

  lemma AppendPayload(before: seq<bytes>, f: Field, tail: Fields, number: int)
    ensures before + Payloads(Cons(f, tail), number) ==
            (if f.Delimited? && NumberOf(f) == number then before + [f.payload] else before) + Payloads(tail, number)
  {
    hide NumberOf;
  }

  lemma RequirementReads()
    ensures UsesPayload(REQUIREMENT) && NeverFails(REQUIREMENT)
    ensures forall n :: RequirementKind(n) == RequirementSchema()(n)
  {
  }

  lemma RequirementMeaning(fs: Fields, m: RequirementValue)
    requires AllBelong(RequirementSchema(), fs) && |AllBytes(fs)| <= MAX_INT
    ensures Decode(REQUIREMENT, 0, AllBytes(fs), m) == Outcome(RequirementOfFields(fs, m), None)
  {
    RequirementReads();
    hide Decode, AllBelong, AllBytes, Fold, RequirementSchema, UsesPayload, RequirementOfFields;
    SameSchema(RequirementKind, RequirementSchema(), fs);
    DecodeIsFold(REQUIREMENT, 0, fs, m);
    RequirementFold(fs, m);
  }

  lemma RequirementAccepts(s: bytes, m: RequirementValue)
    requires |s| <= MAX_INT
    ensures Decode(REQUIREMENT, 0, s, m).err.None? <==>
            exists fs :: AllBelong(RequirementSchema(), fs) && AllBytes(fs) == s
  {
    RequirementReads();
    hide Decode, AllBelong, AllBytes, RequirementSchema, UsesPayload, NeverFails;
    AcceptsExactly(REQUIREMENT, s, m);
    forall fs ensures AllBelong(RequirementKind, fs) == AllBelong(RequirementSchema(), fs) {
      SameSchema(RequirementKind, RequirementSchema(), fs);
    }
  }

  // ----- Unknown: typeMeta = 1 (nested), raw = 2, contentEncoding = 3, contentType = 4 -----

  function UnknownSchema(): int -> Kind {
    Schema({}, {1, 2, 3, 4})
  }

  ghost predicate IsTypeMeta(p: bytes) {
    Decode(TYPE_META, 0, p, EMPTY_TYPE_META).err.None?
  }

  /** All payloads, one after another, are read into the TypeMeta that is there, or into a new one. */
  ghost function Merged(before: Option<TypeMetaValue>, payloads: seq<bytes>): Option<TypeMetaValue> {
    if payloads == [] then before
    else Some(Decode(TYPE_META, 0, Concat(payloads), if before.None? then EMPTY_TYPE_META else before.value).msg)
  }

  ghost function UnknownOfFields(fs: Fields, m: UnknownValue): UnknownValue {
    UnknownValue(Merged(m.typeMeta, Payloads(fs, 1)), Else(LastPayload(fs, 2), m.raw),
                 Else(LastPayload(fs, 3), m.contentEncoding), Else(LastPayload(fs, 4), m.contentType),
                 m.unknownFields + OtherBytes(fs, {1, 2, 3, 4}))
  }

  lemma AcceptedByAll(p: bytes, m: TypeMetaValue)
    requires |p| <= MAX_INT
    ensures Decode(TYPE_META, 0, p, m).err.None? <==> IsTypeMeta(p)
  {
    hide Decode;
    TypeMetaAccepts(p, m);
    TypeMetaAccepts(p, EMPTY_TYPE_META);
  }

  lemma {:induction false} PayloadsFit(fs: Fields, number: int)
    ensures |Concat(Payloads(fs, number))| <= |AllBytes(fs)|
    ensures forall p | p in Payloads(fs, number) :: |p| <= |AllBytes(fs)|
    decreases fs
  {
    hide NumberOf;
    if fs.Cons? {
      PayloadsFit(fs.tail, number);
      var rest := Payloads(fs.tail, number);
      if fs.head.Delimited? && NumberOf(fs.head) == number {
        assert ([fs.head.payload] + rest)[1..] == rest;
      } else {
        assert [] + rest == rest;
      }
    }
  }

  lemma MergedStep(before: Option<TypeMetaValue>, p: bytes, rest: seq<bytes>)
    requires IsTypeMeta(p) && |p| + |Concat(rest)| <= MAX_INT
    ensures var m := if before.None? then EMPTY_TYPE_META else before.value;
            Merged(before, [p] + rest) == Merged(Some(Decode(TYPE_META, 0, p, m).msg), rest)
  {
    hide Decode;
    var m := if before.None? then EMPTY_TYPE_META else before.value;
    assert ([p] + rest)[1..] == rest;
    if rest == [] {
      assert p + [] == p;
    } else {
      AcceptedByAll(p, m);
      TypeMetaLaws();
      ConcatIsMerge(TYPE_META, 0, p, Concat(rest), m);
    }
  }

  lemma {:induction false} UnknownFold(fs: Fields, m: UnknownValue)
    requires AllBelong(UnknownKind, fs) && |AllBytes(fs)| <= MAX_INT
    ensures Fold(UNKNOWN, fs, m).err.None? <==> forall p | p in Payloads(fs, 1) :: IsTypeMeta(p)
    ensures Fold(UNKNOWN, fs, m).err.None? ==> Fold(UNKNOWN, fs, m).msg == UnknownOfFields(fs, m)
    decreases fs
  {
    hide WellFormed, Bytes, NumberOf, TagOf, ReadVarint, Decode, IsTypeMeta, Merged;
    match fs {
      case Nil =>
        Append(m.unknownFields, [], []);
        NothingMerged(m.typeMeta);
      case Cons(f, tail) =>
        FieldShape(f);
        Append(m.unknownFields, Bytes(f), OtherBytes(tail, {1, 2, 3, 4}));
        UnknownStep(f, tail, m);
        var o := Step(UNKNOWN, m, RecordOf(UnknownKind, 0, f, []));
        if o.err.None? { UnknownFold(tail, o.msg); }
    }
  }

  lemma NothingMerged(before: Option<TypeMetaValue>)
    ensures Merged(before, []) == before
  {
  }

  lemma UnknownStep(f: Field, tail: Fields, m: UnknownValue)
    requires Belongs(UnknownKind, f) && |AllBytes(Cons(f, tail))| <= MAX_INT
    ensures var o := Step(UNKNOWN, m, RecordOf(UnknownKind, 0, f, []));
            var ps, rest := Payloads(Cons(f, tail), 1), Payloads(tail, 1);
            && (o.err.None? <==> (NumberOf(f) == 1 ==> f.Delimited? && IsTypeMeta(f.payload)))
            && (forall p :: p in ps <==> p in rest || (f.Delimited? && NumberOf(f) == 1 && p == f.payload))
            && (o.err.None? ==> Merged(m.typeMeta, ps) == Merged(o.msg.typeMeta, rest))
  {
    PayloadsFit(Cons(f, tail), 1);
    PayloadsCons(f, tail, 1);
    if NumberOf(f) == 1 {
      NestedStep(f, m);
      hide Decode, NumberOf, AllBytes, Payloads, Step, Belongs, IsTypeMeta, Merged;
      if IsTypeMeta(f.payload) { MergedStep(m.typeMeta, f.payload, Payloads(tail, 1)); }
    } else {
      OtherFieldStep(f, m);
    }
  }

  lemma PayloadsCons(f: Field, tail: Fields, number: int)
    ensures Payloads(Cons(f, tail), number) ==
            if f.Delimited? && NumberOf(f) == number then [f.payload] + Payloads(tail, number) else Payloads(tail, number)
    ensures f.Delimited? && NumberOf(f) == number ==>
              Concat([f.payload] + Payloads(tail, number)) == f.payload + Concat(Payloads(tail, number))
  {
    hide NumberOf;
    if f.Delimited? {
      assert ([f.payload] + Payloads(tail, number))[1..] == Payloads(tail, number);
    }
  }

  lemma NestedStep(f: Field, m: UnknownValue)
    requires Belongs(UnknownKind, f) && NumberOf(f) == 1 && (f.Delimited? ==> |f.payload| <= MAX_INT)
    ensures f.Delimited?
    ensures var o := Step(UNKNOWN, m, RecordOf(UnknownKind, 0, f, []));
            var before := if m.typeMeta.None? then EMPTY_TYPE_META else m.typeMeta.value;
            && (o.err.None? <==> IsTypeMeta(f.payload))
            && o.msg.typeMeta == Some(Decode(TYPE_META, 0, f.payload, before).msg)
  {
    hide Decode, NumberOf, ReadVarint;
    FieldShape(f);
    AcceptedByAll(f.payload, TypeMetaOf(m));
  }

  lemma OtherFieldStep(f: Field, m: UnknownValue)
    requires Belongs(UnknownKind, f) && NumberOf(f) != 1
    ensures var o := Step(UNKNOWN, m, RecordOf(UnknownKind, 0, f, []));
            o.err.None? && o.msg.typeMeta == m.typeMeta
  {
    hide Decode, NumberOf, ReadVarint;
  }

  lemma UnknownReads()
    ensures UsesPayload(UNKNOWN)
    ensures forall n :: UnknownKind(n) == UnknownSchema()(n)
  {
    hide Decode;
  }

  /** The records are accepted exactly if every nested payload is one of a TypeMeta. */
  lemma UnknownMeaning(fs: Fields, m: UnknownValue)
    requires AllBelong(UnknownSchema(), fs) && |AllBytes(fs)| <= MAX_INT
    ensures var o := Decode(UNKNOWN, 0, AllBytes(fs), m);
            && (o.err.None? <==> forall p | p in Payloads(fs, 1) :: IsTypeMeta(p))
            && (o.err.None? ==> o.msg == UnknownOfFields(fs, m))
  {
    UnknownReads();
    hide Decode, AllBelong, AllBytes, Fold, UnknownSchema, UsesPayload, UnknownOfFields, IsTypeMeta, Payloads;
    SameSchema(UnknownKind, UnknownSchema(), fs);
    DecodeIsFold(UNKNOWN, 0, fs, m);
    UnknownFold(fs, m);
  }

  lemma UnknownAccepts(s: bytes, m: UnknownValue)
    requires |s| <= MAX_INT
    ensures Decode(UNKNOWN, 0, s, m).err.None? <==>
            exists fs :: AllBelong(UnknownSchema(), fs) && AllBytes(fs) == s && forall p | p in Payloads(fs, 1) :: IsTypeMeta(p)
  {
    UnknownReads();
    hide Decode, AllBelong, AllBytes, UnknownSchema, UsesPayload, IsTypeMeta, Payloads, UnknownOfFields;
    if Decode(UNKNOWN, 0, s, m).err.None? {
      var fs := FieldsOfInput(UNKNOWN, 0, s, m);
      SameSchema(UnknownKind, UnknownSchema(), fs);
      UnknownMeaning(fs, m);
    }
    if fs :| AllBelong(UnknownSchema(), fs) && AllBytes(fs) == s && forall p | p in Payloads(fs, 1) :: IsTypeMeta(p) {
      UnknownMeaning(fs, m);
    }
  }

  /** Two TypeMeta records mean what one with both payloads means: the second is merged into the first. */
  lemma TypeMetaRecordsMerge(p: bytes, q: bytes, m: UnknownValue)
    requires IsTypeMeta(p) && |ChunkField(1, p) + ChunkField(1, q)| <= MAX_INT
    ensures Agree(Decode(UNKNOWN, 0, ChunkField(1, p) + ChunkField(1, q), m),
                  Decode(UNKNOWN, 0, ChunkField(1, p + q), m))
  {
    hide Decode, VarintOf;
    VarintOfSum(|p|, |q|);
    var tm := if m.typeMeta.None? then EMPTY_TYPE_META else m.typeMeta.value;
    AcceptedByAll(p, tm);
    UnknownMergeLaws();
    TypeMetaLaws();
    ConcatIsMerge(TYPE_META, 0, p, q, tm);
    DecodeChunk(UNKNOWN, 1, p, m);
    DecodeChunk(UNKNOWN, 1, p + q, m);
    ConcatIsMerge(UNKNOWN, 0, ChunkField(1, p), ChunkField(1, q), m);
    DecodeChunk(UNKNOWN, 1, q, m.(typeMeta := Some(Decode(TYPE_META, 0, p, tm).msg)));
  }

  /** A record for an existing TypeMeta changes the fields it has records for, and keeps the others. */
  lemma NestedFieldsKept(gs: Fields, m: UnknownValue)
    requires AllBelong(TypeMetaSchema(), gs) && |ChunkField(1, AllBytes(gs))| <= MAX_INT && m.typeMeta.Some?
    ensures var tm := m.typeMeta.value;
            Decode(UNKNOWN, 0, ChunkField(1, AllBytes(gs)), m) == Outcome(m.(typeMeta := Some(TypeMetaValue(
              Else(LastPayload(gs, 1), tm.apiVersion), Else(LastPayload(gs, 2), tm.kind),
              tm.unknownFields + OtherBytes(gs, {1, 2})))), None)
  {
    hide Decode, AllBelong, AllBytes, TypeMetaSchema;
    TypeMetaMeaning(gs, m.typeMeta.value);
    DecodeChunk(UNKNOWN, 1, AllBytes(gs), m);
  }

  // ----- map entries: key = 1, value = 2 -----

  /** Numbers need not be positive here; records with other numbers are skipped. */
  ghost predicate EntryFits(gs: Fields) {
    match gs
    case Nil => true
    case Cons(g, tail) => WellFormed(g) && (NumberOf(g) == 1 || NumberOf(g) == 2 ==> TagOf(g) % 8 == 2) && EntryFits(tail)
  }

  ghost function ElseBytes(o: Option<bytes>, before: bytes): bytes {
    if o.Some? then o.value else before
  }

  lemma EntryFieldMeaning(base: nat, g: Field, t: bytes, limit: nat, key: bytes, value: bytes)
    requires WellFormed(g) && (NumberOf(g) == 1 || NumberOf(g) == 2 ==> TagOf(g) % 8 == 2)
    requires |Bytes(g)| <= limit <= |Bytes(g) + t| && base + |Bytes(g)| <= MAX_INT
    ensures ReadEntryField(base, Bytes(g) + t, limit, key, value) == Ok(Entry(
              if NumberOf(g) == 1 && g.Delimited? then g.payload else key,
              if NumberOf(g) == 2 && g.Delimited? then g.payload else value, |Bytes(g)|))
  {
    hide ReadVarint, SkipRecord, ReadChunk, WellFormed, ToInt32;
    TagOfField(g, t);
    FieldShape(g);
    if NumberOf(g) == 1 || NumberOf(g) == 2 {
      ChunkIsRead(base, g, t);
      assert (g.payload + t)[..|g.payload|] == g.payload;
    } else {
      FieldIsSkipped(g, t);
    }
  }

  /** The last key and the last value count; what is not there stays. */
  lemma {:induction false} EntryMeaning(base: nat, gs: Fields, t: bytes, key: bytes, value: bytes)
    requires EntryFits(gs) && base + |AllBytes(gs)| <= MAX_INT
    ensures ReadEntry(base, AllBytes(gs) + t, |AllBytes(gs)|, key, value) ==
            Ok((ElseBytes(LastPayload(gs, 1), key), ElseBytes(LastPayload(gs, 2), value)))
    decreases gs
  {
    hide ReadEntryField, WellFormed, Bytes, NumberOf, TagOf;
    if gs.Cons? {
      var g, tail := gs.head, gs.tail;
      var s, rest, limit := AllBytes(gs) + t, AllBytes(tail) + t, |AllBytes(gs)|;
      assert s == Bytes(g) + rest;
      TagOfField(g, []);
      EntryFieldMeaning(base, g, rest, limit, key, value);
      assert s[|Bytes(g)|..] == rest;
      var Entry(k, v, n) := ReadEntryField(base, s, limit, key, value).value;
      EntryMeaning(base + n, tail, t, k, v);
    }
  }

  /** A string of an entry: a tag with number 1 or 2 and any wire type, a length, and the text, which may
      run past the entry. */
  ghost predicate IsText(b: bytes, tag: bytes, len: bytes, text: bytes) {
    && b == tag + len + text && IsVarint(tag) && IsVarint(len) && ReadVarint(len).value.value == |text| <= MAX_INT
    && (TextNumber(tag) == 1 || TextNumber(tag) == 2)
  }

  ghost function TextNumber(tag: bytes): int32
    requires IsVarint(tag)
  {
    ToInt32(ReadVarint(tag).value.value / 8)
  }

  lemma TextIsRead(base: nat, tag: bytes, len: bytes, text: bytes, t: bytes, limit: nat, key: bytes, value: bytes)
    requires IsText(tag + len + text, tag, len, text)
    requires limit <= |tag + len + text + t| && base + |tag + len + text| <= MAX_INT
    ensures ReadEntryField(base, tag + len + text + t, limit, key, value) == Ok(Entry(
              if TextNumber(tag) == 1 then text else key, if TextNumber(tag) == 2 then text else value,
              |tag + len + text|))
  {
    hide ReadVarint, ToInt32, SkipRecord;
    ReadsTwoVarints(tag, len, text + t);
    var s := tag + len + text + t;
    assert s == tag + len + (text + t);
    ReadsVarint(tag, len + text + t);
    assert s == tag + (len + text + t);
    assert s[|tag|..][|len|..] == text + t;
    assert (text + t)[..|text|] == text;
  }

  /** A record that is skipped inside an entry, and ends inside it. */
  ghost predicate IsSkipped(b: bytes, f: Field) {
    WellFormed(f) && Bytes(f) == b && NumberOf(f) != 1 && NumberOf(f) != 2
  }

  lemma SkippedIsRead(base: nat, f: Field, t: bytes, limit: nat, key: bytes, value: bytes)
    requires IsSkipped(Bytes(f), f) && |Bytes(f)| <= limit <= |Bytes(f) + t| && base + |Bytes(f)| <= MAX_INT
    ensures ReadEntryField(base, Bytes(f) + t, limit, key, value) == Ok(Entry(key, value, |Bytes(f)|))
  {
    hide ReadVarint, SkipRecord, ReadChunk, WellFormed, ToInt32;
    TagOfField(f, t);
    FieldIsSkipped(f, t);
  }

  /** The next n bytes are read as one field of an entry exactly when they are a string, of any wire type
      and wherever it ends, or a record with another number that ends inside the entry. */
  lemma EntryFieldExactly(base: nat, s: bytes, limit: nat, n: nat, key: bytes, value: bytes)
    requires limit <= |s| && n <= |s| && base + n <= MAX_INT
    ensures ReadEntryField(base, s, limit, key, value).Ok? && ReadEntryField(base, s, limit, key, value).value.size == n <==>
            || (exists tag, len, text :: IsText(s[..n], tag, len, text))
            || (n <= limit && exists f :: IsSkipped(s[..n], f))
  {
    hide ReadEntryField, IsText, IsSkipped;
    assert s[..n] + s[n..] == s;
    if ReadEntryField(base, s, limit, key, value).Ok? && ReadEntryField(base, s, limit, key, value).value.size == n {
      FieldOfEntry(base, s, limit, key, value);
    }
    if tag, len, text :| IsText(s[..n], tag, len, text) {
      assert s[..n] == tag + len + text by { TextParts(s[..n], tag, len, text); }
      TextIsRead(base, tag, len, text, s[n..], limit, key, value);
    }
    if n <= limit && exists f :: IsSkipped(s[..n], f) {
      var f :| IsSkipped(s[..n], f);
      assert Bytes(f) == s[..n] by { SkippedParts(s[..n], f); }
      SkippedIsRead(base, f, s[n..], limit, key, value);
    }
  }

  lemma TextParts(b: bytes, tag: bytes, len: bytes, text: bytes)
    requires IsText(b, tag, len, text)
    ensures b == tag + len + text
  {
  }

  lemma SkippedParts(b: bytes, f: Field)
    requires IsSkipped(b, f)
    ensures b == Bytes(f)
  {
  }

  lemma FieldOfEntry(base: nat, s: bytes, limit: nat, key: bytes, value: bytes)
    requires limit <= |s| && ReadEntryField(base, s, limit, key, value).Ok?
    ensures var n := ReadEntryField(base, s, limit, key, value).value.size;
            || (exists tag, len, text :: IsText(s[..n], tag, len, text))
            || (n <= limit && exists f :: IsSkipped(s[..n], f))
  {
    hide ReadVarint, SkipRecord, ToInt32;
    var n := ReadEntryField(base, s, limit, key, value).value.size;
    var k := ReadVarint(s).value.size;
    PrefixIsVarint(s);
    var number := FieldNumber(ReadVarint(s).value.value);
    if number == 1 || number == 2 {
      PrefixIsVarint(s[k..]);
      var l := ReadVarint(s[k..]).value.size;
      assert s[k..][..l] == s[k..k + l];
      var tag, len, text := s[..k], s[k..k + l], s[k + l..n];
      assert s[..n] == tag + len + text;
      assert TextNumber(tag) == number && ReadVarint(len) == ReadVarint(s[k..]);
      assert n == k + l + ToInt64(ReadVarint(len).value.value);
      assert IsText(s[..n], tag, len, text);
    } else {
      var f := SkippedIsField(s);
      assert s[..n] + s[n..] == s;
      TagOfField(f, s[n..]);
      assert IsSkipped(s[..n], f);
    }
  }

  // ----- LabelSelector: matchLabels = 1 (map), matchExpressions = 2 (repeated, nested) -----

  function SelectorSchema(): int -> Kind {
    Schema({}, {1, 2})
  }

  /** The entries set one after another; a missing key or value is empty. */
  ghost function LabelsOf(es: seq<Fields>, labels: map<bytes, bytes>): map<bytes, bytes> {
    if es == [] then labels
    else LabelsOf(es[1..], labels[ElseBytes(LastPayload(es[0], 1), []) := ElseBytes(LastPayload(es[0], 2), [])])
  }

  ghost function ExpressionsOf(rs: seq<Fields>): seq<Option<RequirementValue>> {
    if rs == [] then [] else [Some(RequirementOfFields(rs[0], EMPTY_REQUIREMENT))] + ExpressionsOf(rs[1..])
  }

  /** es are the records of the map entries, rs those of the nested messages. */
  ghost predicate Nested(fs: Fields, es: seq<Fields>, rs: seq<Fields>) {
    match fs
    case Nil => es == [] && rs == []
    case Cons(f, tail) =>
      if f.Delimited? && NumberOf(f) == 1 then
        es != [] && EntryFits(es[0]) && AllBytes(es[0]) == f.payload && Nested(tail, es[1..], rs)
      else if f.Delimited? && NumberOf(f) == 2 then
        rs != [] && AllBelong(RequirementSchema(), rs[0]) && AllBytes(rs[0]) == f.payload && Nested(tail, es, rs[1..])
      else
        Nested(tail, es, rs)
  }

  lemma EntryStep(base: nat, f: Field, t: bytes, e: Fields, m: SelectorValue)
    requires Belongs(SelectorKind, f) && NumberOf(f) == 1 && base + |Bytes(f)| <= MAX_INT
    requires f.Delimited? ==> EntryFits(e) && AllBytes(e) == f.payload
    ensures f.Delimited?
    ensures Step(SELECTOR, m, RecordOf(SelectorKind, base, f, t)) == Outcome(m.(matchLabels :=
              m.matchLabels[ElseBytes(LastPayload(e, 1), []) := ElseBytes(LastPayload(e, 2), [])]), None)
  {
    hide Decode, ReadEntry, ReadVarint, NumberOf, EntryFits, LastPayload;
    FieldShape(f);
    EntryMeaning(base + |f.tag| + |f.len|, e, t, [], []);
  }

  lemma ExpressionStep(base: nat, f: Field, t: bytes, e: Fields, m: SelectorValue)
    requires Belongs(SelectorKind, f) && NumberOf(f) == 2 && base + |Bytes(f)| <= MAX_INT
    requires f.Delimited? ==> AllBelong(RequirementSchema(), e) && AllBytes(e) == f.payload
    ensures f.Delimited?
    ensures Step(SELECTOR, m, RecordOf(SelectorKind, base, f, t)) == Outcome(m.(matchExpressions :=
              m.matchExpressions + [Some(RequirementOfFields(e, EMPTY_REQUIREMENT))]), None)
  {
    hide Decode, ReadEntry, ReadVarint, NumberOf, AllBelong, RequirementSchema, RequirementOfFields;
    FieldShape(f);
    assert (f.payload + t)[..|f.payload|] == f.payload;
    RequirementMeaning(e, EMPTY_REQUIREMENT);
  }

  lemma OtherStep(base: nat, f: Field, t: bytes, m: SelectorValue)
    requires Belongs(SelectorKind, f) && NumberOf(f) != 1 && NumberOf(f) != 2
    ensures Step(SELECTOR, m, RecordOf(SelectorKind, base, f, t)) ==
            Outcome(m.(unknownFields := m.unknownFields + Bytes(f)), None)
  {
    hide NumberOf;
  }

  lemma ExpressionsCons(before: seq<Option<RequirementValue>>, rs: seq<Fields>)
    ensures before + ExpressionsOf(rs) == if rs == [] then before else
            before + [Some(RequirementOfFields(rs[0], EMPTY_REQUIREMENT))] + ExpressionsOf(rs[1..])
  {
    hide RequirementOfFields;
  }

  lemma {:induction false} SelectorRecords(base: nat, fs: Fields, es: seq<Fields>, rs: seq<Fields>, m: SelectorValue)
    requires AllBelong(SelectorKind, fs) && Nested(fs, es, rs) && base + |AllBytes(fs)| <= MAX_INT
    ensures Decode(SELECTOR, base, AllBytes(fs), m) == Outcome(SelectorValue(
              LabelsOf(es, m.matchLabels), m.matchExpressions + ExpressionsOf(rs),
              m.unknownFields + OtherBytes(fs, {1, 2})), None)
    decreases fs
  {
    hide ReadRecord, Step, Belongs, Bytes, NumberOf, EntryFits, RequirementSchema, RequirementOfFields, LastPayload;
    ExpressionsCons(m.matchExpressions, rs);
    match fs {
      case Nil => Append(m.unknownFields, [], []);
      case Cons(f, tail) =>
        var t := AllBytes(tail);
        TagOfRecord(SelectorKind, f);
        ReadsField(SelectorKind, base, f, t);
        assert (Bytes(f) + t)[|Bytes(f)|..] == t;
        Append(m.unknownFields, Bytes(f), OtherBytes(tail, {1, 2}));
        ChunkShape(f);
        var m1 := Step(SELECTOR, m, RecordOf(SelectorKind, base, f, t)).msg;
        if NumberOf(f) == 1 {
          EntryStep(base, f, t, es[0], m);
          SelectorRecords(base + |Bytes(f)|, tail, es[1..], rs, m1);
        } else if NumberOf(f) == 2 {
          ExpressionStep(base, f, t, rs[0], m);
          SelectorRecords(base + |Bytes(f)|, tail, es, rs[1..], m1);
        } else {
          OtherStep(base, f, t, m);
          SelectorRecords(base + |Bytes(f)|, tail, es, rs, m1);
        }
    }
  }

  lemma ChunkShape(f: Field)
    requires Belongs(SelectorKind, f)
    ensures NumberOf(f) == 1 || NumberOf(f) == 2 ==> f.Delimited?
  {
    hide NumberOf;
  }

  /** For inputs whose entries and nested messages are sequences of records themselves. */
  lemma SelectorMeaning(fs: Fields, es: seq<Fields>, rs: seq<Fields>, m: SelectorValue)
    requires AllBelong(SelectorSchema(), fs) && Nested(fs, es, rs) && |AllBytes(fs)| <= MAX_INT
    ensures Decode(SELECTOR, 0, AllBytes(fs), m) == Outcome(SelectorValue(
              LabelsOf(es, m.matchLabels), m.matchExpressions + ExpressionsOf(rs),
              m.unknownFields + OtherBytes(fs, {1, 2})), None)
  {
    SelectorReads();
    hide Decode, AllBelong, AllBytes, SelectorSchema, Nested;
    SameSchema(SelectorKind, SelectorSchema(), fs);
    SelectorRecords(0, fs, es, rs, m);
  }

  lemma SelectorReads()
    ensures forall n :: SelectorKind(n) == SelectorSchema()(n)
  {
  }

  /** What EntryFieldExactly says of the next n bytes. */
  ghost predicate IsEntryField(s: bytes, limit: nat, n: nat)
    requires n <= |s|
  {
    || (exists tag, len, text :: IsText(s[..n], tag, len, text))
    || (n <= limit && exists f :: IsSkipped(s[..n], f))
  }

  /** s begins with fields of an entry that reach its end, or pass it. */
  ghost predicate EntryReads(s: bytes, limit: int)
    requires limit <= |s|
    decreases |s|
  {
    limit <= 0 || exists n :: 1 <= n <= |s| && IsEntryField(s, limit, n) && EntryReads(s[n..], limit - n)
  }

  lemma {:induction false} EntryAccepts(base: nat, s: bytes, limit: int, key: bytes, value: bytes)
    requires limit <= |s| && base + |s| <= MAX_INT
    ensures ReadEntry(base, s, limit, key, value).Ok? <==> EntryReads(s, limit)
    decreases |s|
  {
    hide ReadEntryField, IsText, IsSkipped, IsEntryField;
    if limit > 0 {
      if ReadEntryField(base, s, limit, key, value).Ok? {
        var Entry(k, v, n) := ReadEntryField(base, s, limit, key, value).value;
        EntryFieldIs(base, s, limit, n, key, value);
        EntryAccepts(base + n, s[n..], limit - n, k, v);
      }
      if n :| 1 <= n <= |s| && IsEntryField(s, limit, n) && EntryReads(s[n..], limit - n) {
        EntryFieldIs(base, s, limit, n, key, value);
      }
    }
  }

  lemma EntryFieldIs(base: nat, s: bytes, limit: nat, n: nat, key: bytes, value: bytes)
    requires limit <= |s| && n <= |s| && base + n <= MAX_INT
    ensures ReadEntryField(base, s, limit, key, value).Ok? && ReadEntryField(base, s, limit, key, value).value.size == n <==>
            IsEntryField(s, limit, n)
  {
    hide ReadEntryField, IsText, IsSkipped;
    EntryFieldExactly(base, s, limit, n, key, value);
  }

  ghost predicate RecordsOf(p: bytes, gs: Fields) {
    AllBelong(RequirementSchema(), gs) && AllBytes(gs) == p
  }

  ghost predicate IsRequirement(p: bytes) {
    exists gs :: RecordsOf(p, gs)
  }

  /** Every entry can be read, up to its end or past it, and every nested message is one. */
  ghost predicate Acceptable(fs: Fields) {
    match fs
    case Nil => true
    case Cons(f, tail) =>
      && (f.Delimited? && NumberOf(f) == 1 ==> EntryReads(f.payload + AllBytes(tail), |f.payload|))
      && (f.Delimited? && NumberOf(f) == 2 ==> IsRequirement(f.payload))
      && Acceptable(tail)
  }

  lemma RequirementIsRead(p: bytes)
    requires |p| <= MAX_INT
    ensures IsRequirement(p) <==> Decode(REQUIREMENT, 0, p, EMPTY_REQUIREMENT).err.None?
  {
    RequirementReads();
    hide Decode, AllBelong, AllBytes, RequirementSchema, UsesPayload, NeverFails, RequirementOfFields;
    if gs :| RecordsOf(p, gs) {
      RequirementMeaning(gs, EMPTY_REQUIREMENT);
    }
    if Decode(REQUIREMENT, 0, p, EMPTY_REQUIREMENT).err.None? {
      var gs := FieldsOfInput(REQUIREMENT, 0, p, EMPTY_REQUIREMENT);
      SameSchema(RequirementKind, RequirementSchema(), gs);
      assert RecordsOf(p, gs);
    }
  }

  lemma StepAccepts(base: nat, f: Field, t: bytes, m: SelectorValue)
    requires Belongs(SelectorKind, f) && base + |Bytes(f)| + |t| <= MAX_INT
    ensures Step(SELECTOR, m, RecordOf(SelectorKind, base, f, t)).err.None? <==>
            && (f.Delimited? && NumberOf(f) == 1 ==> EntryReads(f.payload + t, |f.payload|))
            && (f.Delimited? && NumberOf(f) == 2 ==> IsRequirement(f.payload))
  {
    hide Decode, ReadEntry, ReadVarint, NumberOf, EntryReads, IsRequirement;
    FieldShape(f);
    if NumberOf(f) == 1 {
      EntryAccepts(base + |f.tag| + |f.len|, f.payload + t, |f.payload|, [], []);
    } else if NumberOf(f) == 2 {
      assert (f.payload + t)[..|f.payload|] == f.payload;
      RequirementIsRead(f.payload);
    }
  }

  lemma {:induction false} AcceptableDecodes(base: nat, fs: Fields, m: SelectorValue)
    requires AllBelong(SelectorKind, fs) && base + |AllBytes(fs)| <= MAX_INT
    ensures Decode(SELECTOR, base, AllBytes(fs), m).err.None? <==> Acceptable(fs)
    decreases fs
  {
    hide ReadRecord, Step, Belongs, Bytes, NumberOf, IsRequirement, EntryReads;
    match fs {
      case Nil =>
      case Cons(f, tail) =>
        var t := AllBytes(tail);
        TagOfRecord(SelectorKind, f);
        ReadsField(SelectorKind, base, f, t);
        assert (Bytes(f) + t)[|Bytes(f)|..] == t;
        StepAccepts(base, f, t, m);
        AcceptableDecodes(base + |Bytes(f)|, tail, Step(SELECTOR, m, RecordOf(SelectorKind, base, f, t)).msg);
    }
  }

  /** The accepted inputs of LabelSelector, overrunning entries included. */
  lemma SelectorAccepts(s: bytes, m: SelectorValue)
    requires |s| <= MAX_INT
    ensures Decode(SELECTOR, 0, s, m).err.None? <==>
            exists fs :: AllBelong(SelectorSchema(), fs) && AllBytes(fs) == s && Acceptable(fs)
  {
    SelectorReads();
    hide Decode, AllBelong, AllBytes, SelectorSchema, Acceptable;
    if Decode(SELECTOR, 0, s, m).err.None? {
      var fs := FieldsOfInput(SELECTOR, 0, s, m);
      SameSchema(SelectorKind, SelectorSchema(), fs);
      AcceptableDecodes(0, fs, m);
    }
    if fs :| AllBelong(SelectorSchema(), fs) && AllBytes(fs) == s && Acceptable(fs) {
      SameSchema(SelectorKind, SelectorSchema(), fs);
      AcceptableDecodes(0, fs, m);
    }
  }

  // ----- the bytes that are written -----

  function Tagged(tag: byte, o: Option<bytes>): bytes {
    if o.None? then [] else [tag] + VarintOf(|o.value|) + o.value
  }

  function TaggedNumber(tag: byte, o: Option<uint64>): bytes {
    if o.None? then [] else [tag] + VarintOf(o.value)
  }

  /** Present fields in the order of their numbers, each behind its tag byte; unknown records last. */
  lemma RuntimeLayouts(t: TypeMetaValue, r: RawExtensionValue, u: UnknownValue)
    ensures EncodeTypeMeta(t) == Tagged(0x0a, t.apiVersion) + Tagged(0x12, t.kind) + t.unknownFields
    ensures EncodeRawExtension(r) == Tagged(0x0a, r.raw) + r.unknownFields
    ensures EncodeUnknown(u) ==
            Tagged(0x0a, if u.typeMeta.None? then None else Some(EncodeTypeMeta(u.typeMeta.value)))
            + Tagged(0x12, u.raw) + Tagged(0x1a, u.contentEncoding) + Tagged(0x22, u.contentType) + u.unknownFields
  {
    hide VarintOf;
  }

  lemma IntOrStringLayout(m: IntOrStringValue)
    ensures EncodeIntOrString(m) ==
            TaggedNumber(0x08, if m.typ.None? then None else Some(ToUint64(m.typ.value)))
            + TaggedNumber(0x10, if m.intVal.None? then None else Some(ToUint64(m.intVal.value)))
            + Tagged(0x1a, m.strVal) + m.unknownFields
  {
    hide VarintOf, ToUint64;
  }

  /** Repeated fields: one record per element, in order; a nil element has an empty payload. */
  lemma SelectorLayouts(r: RequirementValue, v: bytes, m: SelectorValue, order: seq<bytes>, e: Option<RequirementValue>)
    requires IsOrder(order, m.matchLabels)
    ensures EncodeRequirement(r) ==
            Tagged(0x0a, r.key) + Tagged(0x12, r.operator) + EncodeValues(r.values) + r.unknownFields
    ensures EncodeValues([]) == [] && EncodeValues(r.values + [v]) == EncodeValues(r.values) + Tagged(0x1a, Some(v))
    ensures EncodeSelector(m, order) ==
            EncodeLabels(order, m.matchLabels) + EncodeExpressions(m.matchExpressions) + m.unknownFields
    ensures EncodeExpressions([]) == [] && EncodeExpressions(m.matchExpressions + [e]) ==
            EncodeExpressions(m.matchExpressions)
            + Tagged(0x12, Some(if e.None? then [] else EncodeRequirement(e.value)))
  {
    EncodeValuesAppend(r.values, v);
    EncodeExpressionsAppend(m.matchExpressions, e);
    RequirementLayout(r);
    hide VarintOf, EncodeValues, EncodeExpressions, EncodeLabels, EncodeRequirement;
  }

  lemma RequirementLayout(r: RequirementValue)
    ensures EncodeRequirement(r) ==
            Tagged(0x0a, r.key) + Tagged(0x12, r.operator) + EncodeValues(r.values) + r.unknownFields
    ensures EncodeValues([]) == [] && EncodeExpressions([]) == []
  {
    hide VarintOf;
  }

  /** One record per map entry, with the key and the value as fields of its own. */
  lemma LabelsLayout(order: seq<bytes>, labels: map<bytes, bytes>)
    requires IsOrder(order, labels)
    ensures EncodeLabels([], labels) == []
    ensures order != [] ==> order[0] in labels && forall k | k in order[1..] :: k in labels
    ensures order != [] ==>
      EncodeLabels(order, labels) ==
      Tagged(0x0a, Some(Tagged(0x0a, Some(order[0])) + Tagged(0x12, Some(labels[order[0]]))))
      + EncodeLabels(order[1..], labels)
  {
    hide VarintOf;
    if order != [] {
      assert order[0] in order && forall k | k in order[1..] :: k in order;
    }
  }
}
