/** Which records the decoders accept, in terms of the wire grammar: a message is read from a sequence of
    grammar records, and a record is taken by its number and its wire type alone. */
module Records {
  import opened Options
  import opened Varints
  import opened Skipping
  import opened Codecs

  // ----- what is read off a grammar record -----

  ghost function FirstTag(f: Field): bytes {
    match f
    case Scalar(tag, _) => tag
    case Delimited(tag, _, _) => tag
    case Group(start, _, _) => start
  }

  ghost function TagOf(f: Field): uint64 {
    if ReadVarint(FirstTag(f)).Ok? then ReadVarint(FirstTag(f)).value.value else 0
  }

  /** The tag without its wire type, as a 32-bit number. */
  ghost function NumberOf(f: Field): int32 {
    ToInt32(TagOf(f) / 8)
  }

  /** A record the message may consist of: its number is positive, and known numbers have their wire type. */
  ghost predicate Belongs(kind: int -> Kind, f: Field) {
    && WellFormed(f) && NumberOf(f) > 0
    && match kind(NumberOf(f))
       case VarintField => TagOf(f) % 8 == 0
       case BytesField => TagOf(f) % 8 == 2
       case UnknownField => true
  }

  ghost function RecordOf(kind: int -> Kind, base: nat, f: Field, t: bytes): Record
    requires Belongs(kind, f)
  {
    match kind(NumberOf(f))
    case VarintField => Number(NumberOf(f), ReadVarint(f.body).value.value)
    case BytesField => Chunk(NumberOf(f), base + |f.tag| + |f.len|, |f.payload|, f.payload + t)
    case UnknownField => Raw(Bytes(f))
  }

  // ----- a record is read exactly if it is one -----

  lemma TagOfField(f: Field, t: bytes)
    requires WellFormed(f)
    ensures 1 <= |FirstTag(f)| <= |Bytes(f)| && ReadVarint(FirstTag(f)).Ok?
    ensures ReadVarint(Bytes(f) + t) == ReadVarint(FirstTag(f)) == Ok(Sized(TagOf(f), |FirstTag(f)|))
    ensures TagOf(f) % 8 != 4
  {
    hide ReadVarint;
    match f {
      case Scalar(tag, body) =>
        ReadsVarint(tag, body + t);
        assert tag + body + t == tag + (body + t);
      case Delimited(tag, len, payload) =>
        ReadsVarint(tag, len + payload + t);
        assert tag + len + payload + t == tag + (len + payload + t);
      case Group(start, fields, end) =>
        ReadsVarint(start, AllBytes(fields) + end + t);
        assert start + AllBytes(fields) + end + t == start + (AllBytes(fields) + end + t);
    }
  }

  lemma TagIsRead(f: Field, t: bytes)
    requires WellFormed(f) && NumberOf(f) > 0
    ensures ReadTag(Bytes(f) + t) == Ok(Tag(NumberOf(f), TagOf(f) % 8, |FirstTag(f)|))
  {
    TagOfField(f, t);
    hide ReadVarint, WellFormed, Bytes, ToInt32;
  }

  lemma ReadsField(kind: int -> Kind, base: nat, f: Field, t: bytes)
    requires Belongs(kind, f) && base + |Bytes(f)| <= MAX_INT
    ensures ReadRecord(kind, base, Bytes(f) + t) == Ok(Sized(RecordOf(kind, base, f, t), |Bytes(f)|))
  {
    hide ReadTag, ReadVarint, SkipRecord, ToInt32, TagOf, NumberOf, ReadNumber, ReadChunk, ReadRaw;
    TagIsRead(f, t);
    TagOfField(f, t);
    var s := Bytes(f) + t;
    match kind(NumberOf(f)) {
      case VarintField =>
        NumberIsRead(f, t);
      case BytesField =>
        ChunkIsRead(base, f, t);
      case UnknownField =>
        FieldIsSkipped(f, t);
        RawIsRead(base, s, |Bytes(f)|);
        assert s[..|Bytes(f)|] == Bytes(f);
    }
  }

  lemma NumberIsRead(f: Field, t: bytes)
    requires WellFormed(f) && TagOf(f) % 8 == 0
    ensures f.Scalar? && |Bytes(f)| == |f.tag| + |f.body| && ReadVarint(f.body).Ok?
    ensures ReadNumber(NumberOf(f), (Bytes(f) + t)[|FirstTag(f)|..]) ==
            Ok(Sized(Number(NumberOf(f), ReadVarint(f.body).value.value), |f.body|))
  {
    hide ReadVarint, ToInt32;
    ReadsTwoVarints(f.tag, f.body, t);
  }

  lemma ChunkIsRead(base: nat, f: Field, t: bytes)
    requires WellFormed(f) && TagOf(f) % 8 == 2 && base + |Bytes(f)| <= MAX_INT
    ensures f.Delimited? && |Bytes(f)| == |f.tag| + |f.len| + |f.payload|
    ensures ReadChunk(NumberOf(f), base + |f.tag|, (Bytes(f) + t)[|FirstTag(f)|..]) ==
            Ok(Sized(Chunk(NumberOf(f), base + |f.tag| + |f.len|, |f.payload|, f.payload + t), |f.len| + |f.payload|))
  {
    hide ReadVarint, ToInt32;
    ReadsTwoVarints(f.tag, f.len, f.payload + t);
    assert f.tag + f.len + f.payload + t == f.tag + f.len + (f.payload + t);
    var rest := (Bytes(f) + t)[|f.tag|..];
    assert rest[|f.len|..] == f.payload + t;
  }

  lemma FieldIsSkipped(f: Field, t: bytes)
    requires WellFormed(f) && |Bytes(f)| <= MAX_INT
    ensures SkipRecord(Bytes(f) + t) == Ok(|Bytes(f)|)
  {
    SkipsField(f, 0, t, 0);
  }

  lemma RawIsRead(base: nat, s: bytes, n: nat)
    requires SkipRecord(s) == Ok(n) && base + n <= MAX_INT && n <= |s|
    ensures ReadRaw(base, s) == Ok(Sized(Raw(s[..n]), n))
  {
  }

  /** From a record that was read, the grammar record is recovered. */
  lemma FieldOfRecord(kind: int -> Kind, base: nat, s: bytes) returns (f: Field)
    requires ReadRecord(kind, base, s).Ok?
    ensures Belongs(kind, f) && Bytes(f) == s[..ReadRecord(kind, base, s).value.size]
  {
    hide ReadVarint, SkipRecord, ToInt32;
    var n := ReadRecord(kind, base, s).value.size;
    var k := ReadTag(s).value.size;
    PrefixIsVarint(s);
    match kind(ReadTag(s).value.field) {
      case VarintField =>
        PrefixIsVarint(s[k..]);
        f := Scalar(s[..k], s[k..n]);
        assert s[k..][..n - k] == s[k..n];
      case BytesField =>
        PrefixIsVarint(s[k..]);
        var l := ReadVarint(s[k..]).value.size;
        f := Delimited(s[..k], s[k..k + l], s[k + l..n]);
        assert s[k..][..l] == s[k..k + l];
      case UnknownField =>
        f := SkippedIsField(s);
        TagOfField(f, s[n..]);
        assert s[..n] + s[n..] == s;
    }
  }

  /** A record is read from the first n bytes exactly when they are one record of the grammar with a
      positive number and, if the message knows the number, the wire type that it expects. */
  lemma RecordIsField(kind: int -> Kind, base: nat, s: bytes, n: nat)
    requires n <= |s| && base + n <= MAX_INT
    ensures ReadRecord(kind, base, s).Ok? && ReadRecord(kind, base, s).value.size == n <==>
            exists f :: Belongs(kind, f) && Bytes(f) == s[..n]
  {
    hide ReadRecord, Belongs, Bytes;
    if ReadRecord(kind, base, s).Ok? && ReadRecord(kind, base, s).value.size == n {
      var f := FieldOfRecord(kind, base, s);
    }
    if f :| Belongs(kind, f) && Bytes(f) == s[..n] {
      ReadsField(kind, base, f, s[n..]);
      assert s[..n] + s[n..] == s;
    }
  }

  /** A record with an unknown number is kept whole; any other is applied, once. */
  lemma DecodesField<M>(c: Codec<M>, base: nat, f: Field, m: M)
    requires Belongs(c.kind, f) && base + |Bytes(f)| <= MAX_INT
    ensures Decode(c, base, Bytes(f), m) == Step(c, m, RecordOf(c.kind, base, f, []))
    ensures c.kind(NumberOf(f)).UnknownField? ==> Decode(c, base, Bytes(f), m) == Outcome(c.keep(m, Bytes(f)), None)
  {
    hide ReadRecord, Belongs;
    TagOfRecord(c.kind, f);
    ReadsField(c.kind, base, f, []);
    assert Bytes(f) + [] == Bytes(f) && Bytes(f)[|Bytes(f)|..] == [];
  }

  lemma TagOfRecord(kind: int -> Kind, f: Field)
    requires Belongs(kind, f)
    ensures |Bytes(f)| >= 1 && NumberOf(f) > 0
  {
    TagOfField(f, []);
  }

  // ----- whole inputs -----

  ghost predicate AllBelong(kind: int -> Kind, fs: Fields) {
    match fs
    case Nil => true
    case Cons(f, tail) => Belongs(kind, f) && AllBelong(kind, tail)
  }

  /** The records applied one after another, each with its payload only. */
  ghost function Fold<M>(c: Codec<M>, fs: Fields, m: M): Outcome<M>
    requires AllBelong(c.kind, fs)
  {
    match fs
    case Nil => Outcome(m, None)
    case Cons(f, tail) =>
      var o := Step(c, m, RecordOf(c.kind, 0, f, []));
      if o.err.Some? then o else Fold(c, tail, o.msg)
  }

  /** A message that looks at nothing but numbers and payloads is decoded record by record. */
  lemma {:induction false} DecodeIsFold<M(!new)>(c: Codec<M>, base: nat, fs: Fields, m: M)
    requires UsesPayload(c) && AllBelong(c.kind, fs) && base + |AllBytes(fs)| <= MAX_INT
    ensures Decode(c, base, AllBytes(fs), m) == Fold(c, fs, m)
    decreases fs
  {
    hide ReadRecord, Belongs, Bytes;
    match fs {
      case Nil =>
      case Cons(f, tail) =>
        var t := AllBytes(tail);
        TagOfRecord(c.kind, f);
        ReadsField(c.kind, base, f, t);
        SamePayload(c, base, f, t, m);
        assert (Bytes(f) + t)[|Bytes(f)|..] == t;
        var o := Step(c, m, RecordOf(c.kind, base, f, t));
        if o.err.None? { DecodeIsFold(c, base + |Bytes(f)|, tail, o.msg); }
    }
  }

  lemma SamePayload<M(!new)>(c: Codec<M>, base: nat, f: Field, t: bytes, m: M)
    requires UsesPayload(c) && Belongs(c.kind, f)
    ensures Step(c, m, RecordOf(c.kind, base, f, t)) == Step(c, m, RecordOf(c.kind, 0, f, []))
  {
    hide ReadVarint, NumberOf;
    var r, r' := RecordOf(c.kind, base, f, t), RecordOf(c.kind, 0, f, []);
    if r.Chunk? {
      assert Payload(r) == f.payload && Payload(r') == f.payload;
    }
  }

  /** What was accepted is a sequence of records. */
  lemma {:induction false} FieldsOfInput<M>(c: Codec<M>, base: nat, s: bytes, m: M) returns (fs: Fields)
    requires Decode(c, base, s, m).err.None?
    ensures AllBelong(c.kind, fs) && AllBytes(fs) == s
    decreases |s|
  {
    hide ReadRecord, Belongs, Bytes;
    if s == [] {
      fs := Nil;
    } else {
      var Sized(r, n) := ReadRecord(c.kind, base, s).value;
      var f := FieldOfRecord(c.kind, base, s);
      var tail := FieldsOfInput(c, base + n, s[n..], Step(c, m, r).msg);
      fs := Cons(f, tail);
      assert s[..n] + s[n..] == s;
    }
  }

  ghost predicate NeverFails<M(!new)>(c: Codec<M>) {
    forall m, r :: c.apply(m, r).err.None?
  }

  lemma {:induction false} FoldSucceeds<M(!new)>(c: Codec<M>, fs: Fields, m: M)
    requires NeverFails(c) && AllBelong(c.kind, fs)
    ensures Fold(c, fs, m).err.None?
    decreases fs
  {
    hide Belongs;
    if fs.Cons? {
      FoldSucceeds(c, fs.tail, Step(c, m, RecordOf(c.kind, 0, fs.head, [])).msg);
    }
  }

  /** If no field can fail, exactly the sequences of fitting records are accepted, into any message. */
  lemma AcceptsExactly<M(!new)>(c: Codec<M>, s: bytes, m: M)
    requires UsesPayload(c) && NeverFails(c) && |s| <= MAX_INT
    ensures Decode(c, 0, s, m).err.None? <==> exists fs :: AllBelong(c.kind, fs) && AllBytes(fs) == s
  {
    hide Decode, AllBelong, AllBytes, UsesPayload, NeverFails;
    if Decode(c, 0, s, m).err.None? {
      var fs := FieldsOfInput(c, 0, s, m);
    }
    if fs :| AllBelong(c.kind, fs) && AllBytes(fs) == s {
      DecodeIsFold(c, 0, fs, m);
      FoldSucceeds(c, fs, m);
    }
  }

  // ----- what is read off a sequence of records -----

  /** Expected wire types: 0 for the given numbers, 2 for the given chunks, any for all others. */
  function Schema(numbers: set<int>, chunks: set<int>): int -> Kind {
    n => if n in numbers then VarintField else if n in chunks then BytesField else UnknownField
  }

  lemma {:induction false} SameSchema(kind: int -> Kind, kind': int -> Kind, fs: Fields)
    requires forall n :: kind(n) == kind'(n)
    ensures AllBelong(kind, fs) == AllBelong(kind', fs)
    decreases fs
  {
    hide WellFormed, NumberOf, TagOf;
    if fs.Cons? { SameSchema(kind, kind', fs.tail); }
  }

  /** The payload of the last delimited record of that number. */
  ghost function LastPayload(fs: Fields, number: int): Option<bytes> {
    match fs
    case Nil => None
    case Cons(f, tail) =>
      if LastPayload(tail, number).Some? then LastPayload(tail, number)
      else if f.Delimited? && NumberOf(f) == number then Some(f.payload)
      else None
  }

  /** The value of the last varint record of that number. */
  ghost function LastNumber(fs: Fields, number: int): Option<uint64> {
    match fs
    case Nil => None
    case Cons(f, tail) =>
      if LastNumber(tail, number).Some? then LastNumber(tail, number)
      else if f.Scalar? && NumberOf(f) == number && ReadVarint(f.body).Ok? then Some(ReadVarint(f.body).value.value)
      else None
  }

  /** The payloads of all delimited records of that number, in order. */
  ghost function Payloads(fs: Fields, number: int): seq<bytes> {
    match fs
    case Nil => []
    case Cons(f, tail) =>
      (if f.Delimited? && NumberOf(f) == number then [f.payload] else []) + Payloads(tail, number)
  }

  /** The records with other numbers, whole and in order. */
  ghost function OtherBytes(fs: Fields, known: set<int>): bytes {
    match fs
    case Nil => []
    case Cons(f, tail) => (if NumberOf(f) in known then [] else Bytes(f)) + OtherBytes(tail, known)
  }

  /** A value that was read, or the one before. */
  function Else<T>(o: Option<T>, before: Option<T>): Option<T> {
    if o.Some? then o else before
  }
}
