/** The record loop common to all generated messages, and the laws that hold of it whatever
    the message does with its fields. */
module Codecs {
  import opened Options
  import opened Varints
  import opened Skipping

  /** What a message expects under a field number. */
  datatype Kind = VarintField | BytesField | UnknownField

  /** A record as the loop hands it to the message. A chunk is the first len bytes of rest,
      all the bytes that follow the length; base is the absolute position of rest. */
  datatype Record =
    | Number(field: int, value: uint64)
    | Chunk(field: int, base: nat, len: nat, rest: bytes)
    | Raw(raw: bytes)

  /** The message after decoding: fields decoded before an error stay in it. */
  datatype Outcome<+M> = Outcome(msg: M, err: Option<Error>)

  /** A message type: its fields, what a known record does, where unknown bytes are kept. */
  datatype Codec<!M> = Codec(
    kind: int -> Kind,
    apply: (M, Record) -> Outcome<M>,
    keep: (M, bytes) -> M)

  function Payload(r: Record): bytes {
    if IsChunk(r) then r.rest[..r.len] else []
  }

  predicate IsChunk(r: Record) {
    r.Chunk? && r.len <= |r.rest|
  }

  function FieldNumber(wire: uint64): int32 {
    ToInt32(wire / 8)
  }

  /** A length prefix at the start of s: the chunk it announces and the bytes up to its end. */
  function ReadChunk(field: int, base: nat, s: bytes): (r: Result<Sized<Record>>)
    ensures r.Ok? ==> 1 <= r.value.size <= |s| && r.value.value.Chunk?
    ensures r.Ok? ==>
              r.value.value.len <= |r.value.value.rest| && r.value.value.base + |r.value.value.rest| == base + |s|
  {
    match ReadVarint(s)
    case Err(e) => Err(e)
    case Ok(Sized(v, n)) =>
      var len := ToInt64(v);
      if len < 0 || base + n + len > MAX_INT then Err(InvalidLength)
      else if n + len > |s| then Err(UnexpectedEOF)
      else Ok(Sized(Chunk(field, base + n, len, s[n..]), n + len))
  }

  /** An unknown record, kept whole. */
  function ReadRaw(base: nat, s: bytes): (r: Result<Sized<Record>>)
    ensures r.Ok? ==> 1 <= r.value.size <= |s| && r.value.value == Raw(s[..r.value.size])
  {
    match SkipRecord(s)
    case Err(e) => Err(e)
    case Ok(n) =>
      if base + n > MAX_INT then Err(InvalidLength)
      else if n > |s| then Err(UnexpectedEOF)
      else Ok(Sized(Raw(s[..n]), n))
  }

  datatype Tag = Tag(field: int, wireType: nat, size: nat)

  /** The tag at the start of a record. */
  function ReadTag(s: bytes): (r: Result<Tag>)
    ensures r.Ok? ==> 1 <= r.value.size <= |s| && r.value.field > 0
  {
    match ReadVarint(s)
    case Err(e) => Err(e)
    case Ok(Sized(wire, n)) =>
      var fieldNum, wireType := FieldNumber(wire), wire % 8;
      if wireType == 4 then Err(EndGroupForNonGroup)
      else if fieldNum <= 0 then Err(IllegalTag)
      else Ok(Tag(fieldNum, wireType, n))
  }

  /** The record at the start of s, which is preceded by base bytes. */
  function ReadRecord(kind: int -> Kind, base: nat, s: bytes): (r: Result<Sized<Record>>)
    ensures r.Ok? ==> 1 <= r.value.size <= |s|
    ensures r.Ok? && r.value.value.Chunk? ==>
              r.value.value.len <= |r.value.value.rest| && r.value.value.base + |r.value.value.rest| == base + |s|
  {
    match ReadTag(s)
    case Err(e) => Err(e)
    case Ok(Tag(fieldNum, wireType, n)) =>
      match kind(fieldNum)
      case VarintField =>
        if wireType != 0 then Err(WrongWireType) else After(n, ReadNumber(fieldNum, s[n..]))
      case BytesField =>
        if wireType != 2 then Err(WrongWireType) else After(n, ReadChunk(fieldNum, base + n, s[n..]))
      case UnknownField => ReadRaw(base, s)
  }

  function ReadNumber(field: int, s: bytes): (r: Result<Sized<Record>>)
    ensures r.Ok? ==> 1 <= r.value.size <= |s| && r.value.value.Number?
  {
    match ReadVarint(s)
    case Err(e) => Err(e)
    case Ok(Sized(v, n)) => Ok(Sized(Number(field, v), n))
  }

  function After<T>(n: nat, r: Result<Sized<T>>): Result<Sized<T>> {
    match r
    case Err(e) => Err(e)
    case Ok(Sized(v, k)) => Ok(Sized(v, n + k))
  }

  function Step<M>(c: Codec<M>, m: M, r: Record): Outcome<M> {
    if r.Raw? then Outcome(c.keep(m, r.raw), None) else c.apply(m, r)
  }

  /** UnmarshalVT of s into m; base bytes of the slice have been consumed already. */
  function Decode<M>(c: Codec<M>, base: nat, s: bytes, m: M): (o: Outcome<M>)
    decreases |s|
  {
    if s == [] then Outcome(m, None)
    else match ReadRecord(c.kind, base, s)
      case Err(e) => Outcome(m, Some(e))
      case Ok(Sized(r, n)) =>
        var o := Step(c, m, r);
        if o.err.Some? then o else Decode(c, base + n, s[n..], o.msg)
  }

  // ----- bytes after a record, and the position of a record, do not matter -----

  ghost function WithRest(r: Record, t: bytes): Record {
    if r.Chunk? then r.(rest := r.rest + t) else r
  }

  ghost predicate AtAnyBase(r: Record, r': Record) {
    if r.Chunk? then
      && r'.Chunk? && r' == r.(base := r'.base)
      && r.base + |r.rest| <= MAX_INT && r'.base + |r'.rest| <= MAX_INT
    else r' == r
  }

  lemma ReadChunkExtend(field: int, base: nat, s: bytes, t: bytes)
    requires ReadChunk(field, base, s).Ok?
    ensures var Sized(r, n) := ReadChunk(field, base, s).value;
            ReadChunk(field, base, s + t) == Ok(Sized(WithRest(r, t), n))
  {
    hide ReadVarint;
    ReadVarintExtend(s, t);
    var n := ReadVarint(s).value.size;
    assert (s + t)[n..] == s[n..] + t;
  }

  lemma ReadRawExtend(base: nat, s: bytes, t: bytes)
    requires ReadRaw(base, s).Ok?
    ensures ReadRaw(base, s + t) == ReadRaw(base, s)
  {
    hide SkipRecord;
    SkipExtend(s, t);
    var n := SkipRecord(s).value;
    assert (s + t)[..n] == s[..n];
  }

  lemma ReadTagPrefix(s: bytes, t: bytes)
    requires ReadTag(s).Ok?
    ensures ReadTag(s[..ReadTag(s).value.size] + t) == ReadTag(s)
    ensures ReadTag(s + t) == ReadTag(s)
  {
    hide ReadVarint, FieldNumber;
    ReadVarintPrefix(s, t);
    ReadVarintExtend(s, t);
  }

  lemma ReadRecordExtend(kind: int -> Kind, base: nat, s: bytes, t: bytes)
    requires ReadRecord(kind, base, s).Ok?
    ensures var Sized(r, n) := ReadRecord(kind, base, s).value;
            ReadRecord(kind, base, s + t) == Ok(Sized(WithRest(r, t), n))
  {
    hide ReadVarint, ReadChunk, ReadRaw, ReadTag;
    ReadTagPrefix(s, t);
    var Tag(fieldNum, _, n) := ReadTag(s).value;
    assert (s + t)[n..] == s[n..] + t;
    match kind(fieldNum) {
      case VarintField => ReadVarintExtend(s[n..], t);
      case BytesField => ReadChunkExtend(fieldNum, base + n, s[n..], t);
      case UnknownField => ReadRawExtend(base, s, t);
    }
  }

  lemma ReadRecordShift(kind: int -> Kind, base: nat, base': nat, s: bytes)
    requires base + |s| <= MAX_INT && base' + |s| <= MAX_INT
    ensures var r, r' := ReadRecord(kind, base, s), ReadRecord(kind, base', s);
            if r.Ok? then r'.Ok? && r.value.size == r'.value.size && AtAnyBase(r.value.value, r'.value.value)
            else r'.Err?
  {
    hide ReadVarint, SkipRecord, ReadTag;
  }

  /** What a message does with a chunk depends on the bytes after it only when it fails. */
  ghost predicate Extends<M(!new)>(c: Codec<M>) {
    forall m, r: Record, t: bytes | IsChunk(r) && c.apply(m, r).err.None? ::
      c.apply(m, WithRest(r, t)) == c.apply(m, r)
  }

  /** The absolute position of a chunk only decides which error is reported. */
  ghost predicate Shifts<M(!new)>(c: Codec<M>) {
    forall m, r: Record, r': Record | IsChunk(r) && AtAnyBase(r, r') ::
      Agree(c.apply(m, r), c.apply(m, r'))
  }

  /** The message looks at nothing but the field and the payload of a chunk. */
  ghost predicate UsesPayload<M(!new)>(c: Codec<M>) {
    forall m, r: Record, r': Record | IsChunk(r) && IsChunk(r') && r.field == r'.field && Payload(r) == Payload(r') ::
      c.apply(m, r) == c.apply(m, r')
  }

  lemma PayloadLaws<M(!new)>(c: Codec<M>)
    requires UsesPayload(c)
    ensures Extends(c) && Shifts(c)
  {
    forall m, r: Record, t: bytes | IsChunk(r) && c.apply(m, r).err.None?
      ensures c.apply(m, WithRest(r, t)) == c.apply(m, r)
    {
      assert Payload(WithRest(r, t)) == Payload(r);
    }
    forall m, r: Record, r': Record | IsChunk(r) && AtAnyBase(r, r')
      ensures Agree(c.apply(m, r), c.apply(m, r'))
    {
      assert Payload(r) == Payload(r');
    }
  }

  ghost predicate Agree<M>(o: Outcome<M>, o': Outcome<M>) {
    o.msg == o'.msg && (o.err.None? <==> o'.err.None?)
  }

  lemma {:induction false} DecodeShift<M(!new)>(c: Codec<M>, base: nat, base': nat, s: bytes, m: M)
    requires Shifts(c) && base + |s| <= MAX_INT && base' + |s| <= MAX_INT
    ensures Agree(Decode(c, base, s, m), Decode(c, base', s, m))
    decreases |s|
  {
    hide ReadRecord;
    if s != [] {
      ReadRecordShift(c.kind, base, base', s);
      if ReadRecord(c.kind, base, s).Ok? {
        var Sized(r, n) := ReadRecord(c.kind, base, s).value;
        var r' := ReadRecord(c.kind, base', s).value.value;
        assert Agree(Step(c, m, r), Step(c, m, r'));
        DecodeShift(c, base + n, base' + n, s[n..], Step(c, m, r).msg);
      }
    }
  }

  /** Decoding a ++ b is decoding a and then b into the result. */
  lemma {:induction false} ConcatIsMerge<M(!new)>(c: Codec<M>, base: nat, a: bytes, b: bytes, m: M)
    requires Extends(c) && Shifts(c) && base + |a| + |b| <= MAX_INT
    requires Decode(c, base, a, m).err.None?
    ensures Agree(Decode(c, base, a + b, m), Decode(c, 0, b, Decode(c, base, a, m).msg))
    decreases |a|
  {
    hide ReadRecord;
    if a == [] {
      assert a + b == b;
      DecodeShift(c, base, 0, b, m);
    } else {
      var Sized(r, n) := ReadRecord(c.kind, base, a).value;
      ReadRecordExtend(c.kind, base, a, b);
      assert Step(c, m, WithRest(r, b)) == Step(c, m, r);
      ConcatIsMerge(c, base + n, a[n..], b, Step(c, m, r).msg);
      assert (a + b)[n..] == a[n..] + b;
    }
  }

  /** Two successful decodings in a row, as one. */
  lemma DecodeThen<M(!new)>(c: Codec<M>, a: bytes, b: bytes, m: M, m1: M, m2: M)
    requires Extends(c) && Shifts(c) && |a| + |b| <= MAX_INT
    requires Decode(c, 0, a, m) == Outcome(m1, None)
    requires Decode(c, 0, b, m1) == Outcome(m2, None)
    ensures Decode(c, 0, a + b, m) == Outcome(m2, None)
  {
    ConcatIsMerge(c, 0, a, b, m);
  }

  lemma DecodeNothing<M>(c: Codec<M>, m: M)
    ensures Decode(c, 0, [], m) == Outcome(m, None)
  {
  }

  // ----- canonical records -----

  function NumberField(field: nat, v: uint64): (s: bytes)
    requires 1 <= field < 16
    ensures |s| == 1 + |VarintOf(v)|
  {
    [8 * field] + VarintOf(v)
  }

  function ChunkField(field: nat, payload: bytes): (s: bytes)
    requires 1 <= field < 16
    ensures |s| == 1 + |VarintOf(|payload|)| + |payload|
  {
    [8 * field + 2] + VarintOf(|payload|) + payload
  }

  function OptChunk(field: nat, o: Option<bytes>): (s: bytes)
    requires 1 <= field < 16
  {
    if o.None? then [] else ChunkField(field, o.value)
  }

  lemma ChunkIsOptChunk(field: nat, payload: bytes)
    requires 1 <= field < 16
    ensures OptChunk(field, Some(payload)) == ChunkField(field, payload)
  {
  }

  lemma OptChunkSize(field: nat, o: Option<bytes>)
    requires 1 <= field < 16
    ensures o.Some? ==> |o.value| < |OptChunk(field, o)|
  {
  }

  lemma ReadShortTag(field: nat, wireType: nat, t: bytes)
    requires 1 <= field < 16 && wireType < 8 && wireType != 4
    ensures ReadTag([8 * field + wireType] + t) == Ok(Tag(field, wireType, 1))
  {
    var b := 8 * field + wireType;
    ReadVarintOfVarint(b, t);
    assert VarintOf(b) == [b] && b / 8 == field && b % 8 == wireType;
    hide ReadVarint, VarintOf;
    assert FieldNumber(b) == field;
  }

  lemma DecodeNumber<M>(c: Codec<M>, field: nat, v: uint64, m: M)
    requires 1 <= field < 16 && c.kind(field) == VarintField
    ensures Decode(c, 0, NumberField(field, v), m) == c.apply(m, Number(field, v))
  {
    hide ReadVarint, ReadTag, ReadRaw, ReadChunk;
    var s := NumberField(field, v);
    ReadShortTag(field, 0, VarintOf(v));
    assert s[1..] == VarintOf(v);
    ReadVarintOfVarint(v, []);
    assert VarintOf(v) + [] == VarintOf(v);
    assert ReadRecord(c.kind, 0, s) == Ok(Sized(Number(field, v), |s|));
    assert s[|s|..] == [];
  }

  lemma DecodeChunk<M>(c: Codec<M>, field: nat, payload: bytes, m: M)
    requires 1 <= field < 16 && c.kind(field) == BytesField
    requires |ChunkField(field, payload)| <= MAX_INT
    ensures Decode(c, 0, ChunkField(field, payload), m) ==
            c.apply(m, ChunkOf(field, payload))
  {
    hide ReadVarint, ReadTag, ReadRaw;
    var s, len := ChunkField(field, payload), VarintOf(|payload|);
    assert s == [8 * field + 2] + (len + payload);
    ReadShortTag(field, 2, len + payload);
    assert s[1..] == len + payload;
    ReadVarintOfVarint(|payload|, payload);
    assert (len + payload)[|len|..] == payload;
    assert s[|s|..] == [];
  }

  function OptNumber(field: nat, o: Option<uint64>): (s: bytes)
    requires 1 <= field < 16
  {
    if o.None? then [] else NumberField(field, o.value)
  }

  lemma DecodeOptNumber<M>(c: Codec<M>, field: nat, o: Option<uint64>, m: M, m1: M)
    requires 1 <= field < 16 && c.kind(field) == VarintField
    requires if o.None? then m1 == m else c.apply(m, Number(field, o.value)) == Outcome(m1, None)
    ensures Decode(c, 0, OptNumber(field, o), m) == Outcome(m1, None)
  {
    if o.Some? { DecodeNumber(c, field, o.value, m); }
  }

  /** A canonical chunk decodes like the record whose payload is followed by nothing. */
  function ChunkOf(field: nat, payload: bytes): (r: Record)
    ensures IsChunk(r) && Payload(r) == payload
  {
    Chunk(field, 1 + |VarintOf(|payload|)|, |payload|, payload)
  }

  lemma DecodeOptChunk<M>(c: Codec<M>, field: nat, o: Option<bytes>, m: M, m1: M)
    requires 1 <= field < 16 && c.kind(field) == BytesField
    requires |OptChunk(field, o)| <= MAX_INT
    requires if o.None? then m1 == m else c.apply(m, ChunkOf(field, o.value)) == Outcome(m1, None)
    ensures Decode(c, 0, OptChunk(field, o), m) == Outcome(m1, None)
  {
    if o.Some? { DecodeChunk(c, field, o.value, m); }
  }

  // ----- unknown records -----

  /** A sequence of complete records with field numbers the message does not know. */
  predicate OnlyUnknown(kind: int -> Kind, u: bytes)
    decreases |u|
  {
    u == [] ||
    (var r := ReadRecord(kind, 0, u);
     r.Ok? && r.value.value.Raw? && OnlyUnknown(kind, u[r.value.size..]))
  }

  ghost predicate Keeps<M(!new)>(c: Codec<M>) {
    && (forall m :: c.keep(m, []) == m)
    && (forall m, x, y :: c.keep(c.keep(m, x), y) == c.keep(m, x + y))
  }

  lemma {:induction false} DecodeUnknown<M(!new)>(c: Codec<M>, u: bytes, m: M)
    requires Keeps(c) && Extends(c) && Shifts(c) && OnlyUnknown(c.kind, u) && |u| <= MAX_INT
    ensures Decode(c, 0, u, m) == Outcome(c.keep(m, u), None)
    decreases |u|
  {
    hide ReadRecord;
    if u != [] {
      var Sized(r, n) := ReadRecord(c.kind, 0, u).value;
      RawIsPrefix(c.kind, 0, u);
      DecodeUnknown(c, u[n..], c.keep(m, u[..n]));
      DecodeShift(c, n, 0, u[n..], c.keep(m, u[..n]));
      assert u[..n] + u[n..] == u;
    }
  }

  lemma RawIsPrefix(kind: int -> Kind, base: nat, s: bytes)
    requires ReadRecord(kind, base, s).Ok? && ReadRecord(kind, base, s).value.value.Raw?
    ensures ReadRecord(kind, base, s).value.value == Raw(s[..ReadRecord(kind, base, s).value.size])
  {
    hide ReadTag;
  }

  /** The bytes of a record skipped as unknown form one complete unknown record. */
  lemma RawIsUnknown(kind: int -> Kind, base: nat, s: bytes)
    requires ReadRecord(kind, base, s).Ok? && ReadRecord(kind, base, s).value.value.Raw?
    ensures OnlyUnknown(kind, ReadRecord(kind, base, s).value.value.raw)
  {
    hide ReadVarint, SkipRecord, ReadTag;
    var n, k := ReadRecord(kind, base, s).value.size, ReadTag(s).value.size;
    SkipIgnoresSuffix(s, []);
    assert s[..n] + [] == s[..n];
    TagInRecord(s);
    ReadTagPrefix(s, s[k..n]);
    assert s[..k] + s[k..n] == s[..n];
    assert s[..n][..n] == s[..n];
    assert s[..n][n..] == [];
  }

  /** A skipped record contains its tag. */
  lemma TagInRecord(s: bytes)
    requires SkipRecord(s).Ok? && ReadTag(s).Ok?
    ensures ReadTag(s).value.size <= SkipRecord(s).value
  {
    hide ReadVarint, FieldNumber;
  }

  lemma {:induction false} UnknownAppend(kind: int -> Kind, u: bytes, x: bytes)
    requires OnlyUnknown(kind, u) && OnlyUnknown(kind, x)
    ensures OnlyUnknown(kind, u + x)
    decreases |u|
  {
    hide ReadRecord;
    if u == [] {
      assert u + x == x;
    } else {
      var n := ReadRecord(kind, 0, u).value.size;
      ReadRecordExtend(kind, 0, u, x);
      assert (u + x)[n..] == u[n..] + x;
      UnknownAppend(kind, u[n..], x);
    }
  }

  /** The unknown records among the records of s, each whole and in order. */
  function UnknownRecords(kind: int -> Kind, base: nat, s: bytes): seq<bytes>
    decreases |s|
  {
    if s == [] || ReadRecord(kind, base, s).Err? then []
    else
      var Sized(r, n) := ReadRecord(kind, base, s).value;
      (if r.Raw? then [s[..n]] else []) + UnknownRecords(kind, base + n, s[n..])
  }

  function Concat(xs: seq<bytes>): bytes {
    if xs == [] then [] else xs[0] + Concat(xs[1..])
  }

  /** unknown gives the bytes that keep appends to, and that no known field touches. */
  ghost predicate Collects<M(!new)>(c: Codec<M>, unknown: M -> bytes) {
    && (forall m, r: Record | r.Number? || IsChunk(r) :: unknown(c.apply(m, r).msg) == unknown(m))
    && (forall m, x :: unknown(c.keep(m, x)) == unknown(m) + x)
  }

  lemma StepCollects<M(!new)>(c: Codec<M>, m: M, r: Record, unknown: M -> bytes)
    requires Collects(c, unknown) && (r.Chunk? ==> IsChunk(r))
    ensures unknown(Step(c, m, r).msg) == unknown(m) + if r.Raw? then r.raw else []
  {
    assert unknown(m) + [] == unknown(m);
  }

  /** Concat of the unknown records, one record further. */
  lemma ConcatUnfolds(kind: int -> Kind, base: nat, s: bytes)
    requires s != [] && ReadRecord(kind, base, s).Ok?
    ensures var Sized(r, n) := ReadRecord(kind, base, s).value;
            Concat(UnknownRecords(kind, base, s)) ==
            (if r.Raw? then r.raw else []) + Concat(UnknownRecords(kind, base + n, s[n..]))
  {
    hide ReadRecord;
    var Sized(r, n) := ReadRecord(kind, base, s).value;
    var rest := UnknownRecords(kind, base + n, s[n..]);
    if r.Raw? {
      RawIsPrefix(kind, base, s);
      assert ([s[..n]] + rest)[1..] == rest;
    } else {
      assert [] + rest == rest && [] + Concat(rest) == Concat(rest);
    }
  }

  /** An accepted input leaves exactly its unknown records behind, byte for byte and in order, whatever
      known fields stand between them. */
  lemma {:induction false} UnknownRecordsKept<M(!new)>(c: Codec<M>, base: nat, s: bytes, m: M, unknown: M -> bytes)
    requires Collects(c, unknown) && Decode(c, base, s, m).err.None?
    ensures unknown(Decode(c, base, s, m).msg) == unknown(m) + Concat(UnknownRecords(c.kind, base, s))
    decreases |s|
  {
    hide ReadRecord, Step, UnknownRecords, Collects;
    if s == [] {
      NoRecords(c.kind, base);
      assert unknown(m) + [] == unknown(m);
    } else {
      var Sized(r, n) := ReadRecord(c.kind, base, s).value;
      StepCollects(c, m, r, unknown);
      ConcatUnfolds(c.kind, base, s);
      UnknownRecordsKept(c, base + n, s[n..], Step(c, m, r).msg, unknown);
    }
  }

  lemma NoRecords(kind: int -> Kind, base: nat)
    ensures Concat(UnknownRecords(kind, base, [])) == []
  {
  }

  // ----- invariants and sizes of decoded messages -----

  /** What records and unknown chunks keep true of a message, decoding keeps true,
      even when it fails. */
  ghost predicate Preserves<M(!new)>(c: Codec<M>, inv: M -> bool) {
    && (forall m, r: Record | inv(m) && (r.Number? || IsChunk(r)) :: inv(c.apply(m, r).msg))
    && (forall m, x | inv(m) && OnlyUnknown(c.kind, x) :: inv(c.keep(m, x)))
  }

  lemma {:induction false} DecodePreserves<M(!new)>(c: Codec<M>, base: nat, s: bytes, m: M, inv: M -> bool)
    requires Preserves(c, inv) && inv(m)
    ensures inv(Decode(c, base, s, m).msg)
    decreases |s|
  {
    hide ReadRecord, OnlyUnknown;
    if s != [] && ReadRecord(c.kind, base, s).Ok? {
      var Sized(r, n) := ReadRecord(c.kind, base, s).value;
      if r.Raw? {
        RawIsUnknown(c.kind, base, s);
      }
      var o := Step(c, m, r);
      assert inv(o.msg);
      if o.err.None? {
        DecodePreserves(c, base + n, s[n..], o.msg, inv);
      }
    }
  }

  /** The length of the canonical form of a record. */
  function RecordSize(r: Record): nat {
    match r
    case Number(_, value) => 1 + |VarintOf(value)|
    case Chunk(_, _, len, _) => 1 + |VarintOf(len)| + len
    case Raw(raw) => |raw|
  }

  lemma RecordIsMinimal(kind: int -> Kind, base: nat, s: bytes)
    requires ReadRecord(kind, base, s).Ok?
    ensures RecordSize(ReadRecord(kind, base, s).value.value) <= ReadRecord(kind, base, s).value.size
  {
    hide ReadVarint, ReadTag, ReadRaw;
    var Tag(fieldNum, _, n) := ReadTag(s).value;
    if kind(fieldNum) != UnknownField {
      ReadVarintMinimal(s[n..]);
    } else {
      RawIsPrefix(kind, base, s);
    }
  }

  /** No record makes a message larger than its own canonical form. */
  ghost predicate Bounded<M(!new)>(c: Codec<M>, size: M -> nat) {
    && (forall m, r: Record | (r.Number? || IsChunk(r)) && c.apply(m, r).err.None? ::
          size(c.apply(m, r).msg) <= size(m) + RecordSize(r))
    && (forall m, x :: size(c.keep(m, x)) <= size(m) + |x|)
  }

  lemma {:induction false} DecodeBounded<M(!new)>(c: Codec<M>, base: nat, s: bytes, m: M, size: M -> nat)
    requires Bounded(c, size) && Decode(c, base, s, m).err.None?
    ensures size(Decode(c, base, s, m).msg) <= size(m) + |s|
    decreases |s|
  {
    hide ReadRecord, RecordSize;
    if s != [] {
      var Sized(r, n) := ReadRecord(c.kind, base, s).value;
      RecordIsMinimal(c.kind, base, s);
      assert size(Step(c, m, r).msg) <= size(m) + n by {
        if r.Raw? { RawIsPrefix(c.kind, base, s); }
      }
      DecodeBounded(c, base + n, s[n..], Step(c, m, r).msg, size);
    }
  }

  // ----- the pieces of the loop -----

  /** What the loop over dAtA makes of m from iNdEx on. */
  function DecodeAt<M>(c: Codec<M>, dAtA: bytes, iNdEx: nat, m: M): Outcome<M>
    requires iNdEx <= |dAtA|
  {
    Decode(c, iNdEx, dAtA[iNdEx..], m)
  }

  lemma DecodeEnds<M>(c: Codec<M>, dAtA: bytes, m: M)
    ensures DecodeAt(c, dAtA, 0, m) == Decode(c, 0, dAtA, m)
    ensures DecodeAt(c, dAtA, |dAtA|, m) == Outcome(m, None)
  {
    assert dAtA[0..] == dAtA;
  }

  /** One iteration, by the kind of the field whose tag was read. */
  lemma DecodeIteration<M>(c: Codec<M>, dAtA: bytes, iNdEx: nat, m: M)
    requires iNdEx < |dAtA|
    ensures DecodeAt(c, dAtA, iNdEx, m) ==
            match ReadTag(dAtA[iNdEx..])
            case Err(e) => Outcome(m, Some(e))
            case Ok(Tag(fieldNum, wireType, n)) =>
              var i := iNdEx + n;
              match c.kind(fieldNum)
              case VarintField =>
                if wireType != 0 then Outcome(m, Some(WrongWireType))
                else Continue(c, dAtA, i, m, ReadNumber(fieldNum, dAtA[i..]))
              case BytesField =>
                if wireType != 2 then Outcome(m, Some(WrongWireType))
                else Continue(c, dAtA, i, m, ReadChunk(fieldNum, i, dAtA[i..]))
              case UnknownField => Continue(c, dAtA, iNdEx, m, ReadRaw(iNdEx, dAtA[iNdEx..]))
  {
    hide ReadTag, ReadNumber, ReadChunk, ReadRaw;
    var s := dAtA[iNdEx..];
    if ReadTag(s).Ok? {
      var n := ReadTag(s).value.size;
      assert s[n..] == dAtA[iNdEx + n..];
      if ReadRecord(c.kind, iNdEx, s).Ok? {
        var k := ReadRecord(c.kind, iNdEx, s).value.size;
        assert s[k..] == dAtA[iNdEx + k..];
      }
    }
  }

  function Continue<M>(c: Codec<M>, dAtA: bytes, iNdEx: nat, m: M, r: Result<Sized<Record>>): Outcome<M>
    requires iNdEx <= |dAtA|
    requires r.Ok? ==> iNdEx + r.value.size <= |dAtA|
  {
    match r
    case Err(e) => Outcome(m, Some(e))
    case Ok(Sized(record, n)) =>
      var o := Step(c, m, record);
      if o.err.Some? then o else DecodeAt(c, dAtA, iNdEx + n, o.msg)
  }

  /** The head of every iteration: the tag, its two checks, and the position after it. */
  method NextTag(dAtA: bytes, iNdEx: nat) returns (r: Result<Tag>)
    requires iNdEx <= |dAtA|
    ensures r == ReadTag(dAtA[iNdEx..])
  {
    hide ReadVarint;
    var wire := ReadUint64(dAtA, iNdEx);
    if wire.Err? {
      return Err(wire.error);
    }
    var fieldNum := FieldNumber(wire.value.value);
    var wireType := wire.value.value % 8;
    if wireType == 4 {
      return Err(EndGroupForNonGroup);
    }
    if fieldNum <= 0 {
      return Err(IllegalTag);
    }
    return Ok(Tag(fieldNum, wireType, wire.value.size));
  }

  /** A length and the end of the slice it announces, with the negative and overflow checks. */
  method NextSlice(dAtA: bytes, iNdEx: nat, ghost field: int) returns (r: Result<(nat, nat)>)
    requires iNdEx <= |dAtA| <= MAX_INT
    ensures match ReadChunk(field, iNdEx, dAtA[iNdEx..])
            case Err(e) => r == Err(e)
            case Ok(Sized(record, n)) =>
              && r.Ok? && iNdEx <= r.value.0 <= r.value.1 == iNdEx + n
              && record == Chunk(field, r.value.0, r.value.1 - r.value.0, dAtA[r.value.0..])
  {
    hide ReadVarint;
    var v := ReadUint64(dAtA, iNdEx);
    if v.Err? {
      return Err(v.error);
    }
    var start := iNdEx + v.value.size;
    assert dAtA[iNdEx..][v.value.size..] == dAtA[start..];
    var len := ToInt64(v.value.value);
    if len < 0 {
      return Err(InvalidLength);
    }
    var postIndex := AddInt(start, len);
    if postIndex < 0 {
      return Err(InvalidLength);
    }
    if postIndex > |dAtA| {
      return Err(UnexpectedEOF);
    }
    return Ok((start, postIndex));
  }

  lemma SlicePayload(dAtA: bytes, field: int, start: nat, postIndex: nat)
    requires start <= postIndex <= |dAtA|
    ensures var r := Chunk(field, start, postIndex - start, dAtA[start..]);
            IsChunk(r) && Payload(r) == dAtA[start..postIndex]
  {
  }

  /** The wire type check of a bytes field, its slice, and the payload. */
  method NextPayload(dAtA: bytes, iNdEx: nat, wireType: nat, ghost field: int) returns (r: Result<(bytes, nat)>)
    requires iNdEx <= |dAtA| <= MAX_INT
    ensures r.Ok? ==> |r.value.0| <= MAX_INT && r.value.1 <= |dAtA|
    ensures if wireType != 2 then r == Err(WrongWireType) else
            match ReadChunk(field, iNdEx, dAtA[iNdEx..])
            case Err(e) => r == Err(e)
            case Ok(Sized(record, n)) => IsChunk(record) && record.field == field && r == Ok((Payload(record), iNdEx + n))
  {
    if wireType != 2 {
      return Err(WrongWireType);
    }
    var slice := NextSlice(dAtA, iNdEx, field);
    if slice.Err? {
      return Err(slice.error);
    }
    var (start, postIndex) := slice.value;
    SlicePayload(dAtA, field, start, postIndex);
    return Ok((dAtA[start..postIndex], postIndex));
  }

  /** The default branch: skip the whole record from its tag on. */
  method NextUnknown(dAtA: bytes, preIndex: nat) returns (r: Result<nat>)
    requires preIndex <= |dAtA| <= MAX_INT
    ensures match ReadRaw(preIndex, dAtA[preIndex..])
            case Err(e) => r == Err(e)
            case Ok(Sized(record, n)) => r == Ok(n) && record == Raw(dAtA[preIndex..preIndex + n])
  {
    hide SkipRecord;
    var skippy := Skip(dAtA[preIndex..]);
    if skippy.Err? {
      return Err(skippy.error);
    }
    SkipIsInt(dAtA[preIndex..]);
    var end := AddInt(preIndex, skippy.value);
    if end < 0 {
      return Err(InvalidLength);
    }
    if end > |dAtA| {
      return Err(UnexpectedEOF);
    }
    assert dAtA[preIndex..][..skippy.value] == dAtA[preIndex..preIndex + skippy.value];
    return Ok(skippy.value);
  }

  lemma SkipIsInt(s: bytes)
    requires SkipRecord(s).Ok?
    ensures SkipRecord(s).value <= MAX_INT
  {
    SkipBounded(0, s, 0);
  }

  // ----- writing records backwards -----

  /** Tag and length in front of a payload of the given size that ends up right behind them. */
  method PutPrefix(dAtA: array<byte>, end: nat, field: nat, size: nat) returns (i: nat)
    requires 1 <= field < 16 && size <= MAX_INT
    requires 1 + |VarintOf(size)| <= end <= dAtA.Length
    modifies dAtA
    ensures Wrote(old(dAtA[..]), dAtA[..], i, end, [8 * field + 2] + VarintOf(size))
  {
    i := EncodeVarint(dAtA, end, size);
    ghost var mid := dAtA[..];
    i := i - 1;
    SetByte(dAtA, i, 8 * field + 2);
    WroteByte(mid, i, 8 * field + 2);
    WroteThen(old(dAtA[..]), mid, dAtA[..], i, i + 1, end, [8 * field + 2], VarintOf(size));
  }

  lemma WroteByte(before: bytes, i: nat, b: byte)
    requires i < |before|
    ensures Wrote(before, before[i := b], i, i + 1, [b])
  {
    assert before[i := b] == before[..i] + [b] + before[i + 1..];
  }

  /** The optional chunk in front of what is already written from end to n. */
  method PutOptChunk(dAtA: array<byte>, end: nat, field: nat, o: Option<bytes>,
                     ghost before: bytes, ghost n: nat, ghost written: bytes) returns (i: nat)
    requires 1 <= field < 16
    requires |OptChunk(field, o)| <= end <= dAtA.Length <= MAX_INT
    requires Wrote(before, dAtA[..], end, n, written)
    modifies dAtA
    ensures i == end - |OptChunk(field, o)|
    ensures Wrote(before, dAtA[..], i, n, OptChunk(field, o) + written)
  {
    i := end;
    if o.Some? {
      ghost var start := dAtA[..];
      i := i - |o.value|;
      Copy(dAtA, i, o.value);
      ghost var mid, k := dAtA[..], i;
      i := PutPrefix(dAtA, i, field, |o.value|);
      WroteThen(start, mid, dAtA[..], i, k, end, [8 * field + 2] + VarintOf(|o.value|), o.value);
      WroteThen(before, start, dAtA[..], i, end, n, ChunkField(field, o.value), written);
    } else {
      assert [] + written == written;
    }
  }

  lemma WroteNothing(before: bytes, i: nat)
    requires i <= |before|
    ensures Wrote(before, before, i, i, [])
  {
    assert before == before[..i] + [] + before[i..];
  }

  method PutOptNumber(dAtA: array<byte>, end: nat, field: nat, o: Option<uint64>,
                      ghost before: bytes, ghost n: nat, ghost written: bytes) returns (i: nat)
    requires 1 <= field < 16
    requires |OptNumber(field, o)| <= end <= dAtA.Length
    requires Wrote(before, dAtA[..], end, n, written)
    modifies dAtA
    ensures i == end - |OptNumber(field, o)|
    ensures Wrote(before, dAtA[..], i, n, OptNumber(field, o) + written)
  {
    i := end;
    if o.Some? {
      ghost var start := dAtA[..];
      i := EncodeVarint(dAtA, i, o.value);
      ghost var mid := dAtA[..];
      i := i - 1;
      SetByte(dAtA, i, 8 * field);
      WroteByte(mid, i, 8 * field);
      WroteThen(start, mid, dAtA[..], i, i + 1, end, [8 * field], VarintOf(o.value));
      WroteThen(before, start, dAtA[..], i, end, n, NumberField(field, o.value), written);
    } else {
      assert [] + written == written;
    }
  }

  /** The size pass for one optional chunk. */
  function ChunkSize(o: Option<bytes>): (n: nat)
    ensures forall f | 1 <= f < 16 :: n == |OptChunk(f, o)|
  {
    if o.None? then 0 else
      SovIsLength(|o.value|);
      1 + |o.value| + Sov(|o.value|)
  }

  function NumberSize(o: Option<uint64>): (n: nat)
    ensures forall f | 1 <= f < 16 :: n == |OptNumber(f, o)|
  {
    if o.None? then 0 else
      SovIsLength(o.value);
      1 + Sov(o.value)
  }
}
