/** IntOrString: two signed varints and a string. */
module IntOrStrings {
  import opened Options
  import opened Varints
  import opened Codecs

  datatype IntOrStringValue = IntOrStringValue(
    typ: Option<int64>, intVal: Option<int32>, strVal: Option<bytes>, unknownFields: bytes)

  const EMPTY_INT_OR_STRING := IntOrStringValue(None, None, None, [])

  function IntOrStringKind(field: int): Kind {
    if field == 1 || field == 2 then VarintField else if field == 3 then BytesField else UnknownField
  }

  function IntOrStringApply(m: IntOrStringValue, r: Record): Outcome<IntOrStringValue> {
    if r.Number? && r.field == 1 then Outcome(m.(typ := Some(ToInt64(r.value))), None)
    else if r.Number? && r.field == 2 then Outcome(m.(intVal := Some(ToInt32(r.value))), None)
    else if r.Chunk? && r.field == 3 then Outcome(m.(strVal := Some(Payload(r))), None)
    else Outcome(m, None)
  }

  function IntOrStringKeep(m: IntOrStringValue, x: bytes): IntOrStringValue {
    m.(unknownFields := m.unknownFields + x)
  }

  const INT_OR_STRING: Codec<IntOrStringValue> := Codec(IntOrStringKind, IntOrStringApply, IntOrStringKeep)

  function Extended(o: Option<int64>): Option<uint64> {
    if o.None? then None else Some(ToUint64(o.value))
  }

  /** int32 values are sign-extended to 64 bits, so a negative one takes ten bytes. */
  function Extended32(o: Option<int32>): Option<uint64> {
    if o.None? then None else Some(ToUint64(o.value))
  }

  function EncodeIntOrString(m: IntOrStringValue): bytes {
    OptNumber(1, Extended(m.typ)) + OptNumber(2, Extended32(m.intVal)) + OptChunk(3, m.strVal) + m.unknownFields
  }

  ghost predicate ValidIntOrString(m: IntOrStringValue) {
    OnlyUnknown(IntOrStringKind, m.unknownFields)
  }

  lemma IntOrStringLaws()
    ensures Extends(INT_OR_STRING) && Shifts(INT_OR_STRING) && Keeps(INT_OR_STRING)
    ensures Preserves(INT_OR_STRING, ValidIntOrString)
  {
    hide OnlyUnknown, VarintOf, ToInt32;
    assert UsesPayload(INT_OR_STRING);
    PayloadLaws(INT_OR_STRING);
    forall m: IntOrStringValue, x, y
      ensures IntOrStringKeep(m, []) == m
      ensures IntOrStringKeep(IntOrStringKeep(m, x), y) == IntOrStringKeep(m, x + y)
    {
      assert m.unknownFields + [] == m.unknownFields;
      assert m.unknownFields + x + y == m.unknownFields + (x + y);
    }
    forall m: IntOrStringValue, x | ValidIntOrString(m) && OnlyUnknown(IntOrStringKind, x)
      ensures ValidIntOrString(IntOrStringKeep(m, x))
    {
      UnknownAppend(IntOrStringKind, m.unknownFields, x);
    }
  }

  lemma IntOrStringRoundTrip(m: IntOrStringValue)
    requires ValidIntOrString(m) && |EncodeIntOrString(m)| <= MAX_INT
    ensures Decode(INT_OR_STRING, 0, EncodeIntOrString(m), EMPTY_INT_OR_STRING) == Outcome(m, None)
  {
    hide ToInt32;
    if m.typ.Some? { SignedRoundTrip(m.typ.value); }
    if m.intVal.Some? { SignedRoundTrip(m.intVal.value); }
    FieldsDecode(m, Extended32(m.intVal));
  }

  /** Any 64-bit number with the right low bits stands for IntVal. */
  lemma FieldsDecode(m: IntOrStringValue, intVal: Option<uint64>)
    requires ValidIntOrString(m)
    requires m.typ.Some? ==> ToInt64(ToUint64(m.typ.value)) == m.typ.value
    requires m.intVal == if intVal.None? then None else Some(ToInt32(intVal.value))
    requires |OptNumber(1, Extended(m.typ)) + OptNumber(2, intVal) + OptChunk(3, m.strVal) + m.unknownFields| <= MAX_INT
    ensures var s := OptNumber(1, Extended(m.typ)) + OptNumber(2, intVal) + OptChunk(3, m.strVal) + m.unknownFields;
            Decode(INT_OR_STRING, 0, s, EMPTY_INT_OR_STRING) == Outcome(m, None)
  {
    hide OnlyUnknown, Decode, ToInt32, VarintOf;
    IntOrStringLaws();
    var m1 := EMPTY_INT_OR_STRING.(typ := m.typ);
    var m2 := m1.(intVal := m.intVal);
    var m3 := m2.(strVal := m.strVal);
    var a, b := OptNumber(1, Extended(m.typ)), OptNumber(2, intVal);
    DecodeOptNumber(INT_OR_STRING, 1, Extended(m.typ), EMPTY_INT_OR_STRING, m1);
    DecodeOptNumber(INT_OR_STRING, 2, intVal, m1, m2);
    DecodeThen(INT_OR_STRING, a, b, EMPTY_INT_OR_STRING, m1, m2);
    DecodeOptChunk(INT_OR_STRING, 3, m.strVal, m2, m3);
    DecodeThen(INT_OR_STRING, a + b, OptChunk(3, m.strVal), EMPTY_INT_OR_STRING, m2, m3);
    DecodeUnknown(INT_OR_STRING, m.unknownFields, m3);
    assert [] + m.unknownFields == m.unknownFields;
    DecodeThen(INT_OR_STRING, a + b + OptChunk(3, m.strVal), m.unknownFields, EMPTY_INT_OR_STRING, m3, m);
  }

  /** The encoded size if negative IntVals took five bytes: their low 32 bits only. */
  function CompactSize(m: IntOrStringValue): nat {
    |OptNumber(1, Extended(m.typ))| + |OptChunk(3, m.strVal)| + |m.unknownFields|
    + if m.intVal.None? then 0 else 1 + |VarintOf(Low32(ToUint64(m.intVal.value)))|
  }

  lemma CompactIsBounded()
    ensures Bounded(INT_OR_STRING, CompactSize)
  {
    hide VarintOf, ToInt32, Low32;
    forall m: IntOrStringValue, r: Record | r.Number? || IsChunk(r)
      ensures CompactSize(IntOrStringApply(m, r).msg) <= CompactSize(m) + RecordSize(r)
    {
      if r.Number? {
        LowBitsKept(r.value);
        VarintMonotone(Low32(r.value), r.value);
      }
    }
  }

  lemma LowBitsKept(v: uint64)
    ensures ToUint64(ToInt64(v)) == v
    ensures Low32(ToUint64(ToInt32(v))) == Low32(v) <= v
  {
    var w := v % TWO_32;
    if w >= TWO_31 {
      assert w - TWO_32 + TWO_64 == (TWO_32 - 1) * TWO_32 + w;
    }
  }

  predicate Negative(o: Option<int32>) {
    o.Some? && o.value < 0
  }

  /** Sign extension costs a negative IntVal five bytes: ten instead of five. */
  lemma EncodingSize(m: IntOrStringValue)
    ensures |EncodeIntOrString(m)| == CompactSize(m) + if Negative(m.intVal) then 5 else 0
  {
    hide VarintOf, Low32;
    if m.intVal.Some? {
      var v := ToUint64(m.intVal.value);
      if m.intVal.value < 0 {
        LowBitsOfNegative(m.intVal.value);
        NegativeTakesTen(m.intVal.value);
      } else {
        SmallIsLow(v);
      }
    }
  }

  lemma LowBitsOfNegative(v: int32)
    requires v < 0
    ensures Low32(ToUint64(v)) == v + TWO_32
    ensures ToInt32(v + TWO_32) == v
  {
    assert v + TWO_64 == (TWO_32 - 1) * TWO_32 + (v + TWO_32);
  }

  lemma NegativeTakesTen(v: int32)
    requires v < 0
    ensures |VarintOf(ToUint64(v))| == 10 && |VarintOf(v + TWO_32)| == 5
  {
    hide VarintOf;
    SmallPowers(9);
    Varint64AtMostTen(ToUint64(v));
    VarintLength(ToUint64(v), 9);
    VarintLength(v + TWO_32, 4);
    VarintLength(v + TWO_32, 5);
    assert Pow128(5) == 128 * Pow128(4);
  }

  // ----- the shortest input of a message -----

  function LowBits(o: Option<int32>): Option<uint64> {
    if o.None? then None else Some(Low32(ToUint64(o.value)))
  }

  /** The encoding with the low 32 bits of IntVal only. */
  function CompactForm(m: IntOrStringValue): (s: bytes)
    ensures |s| == CompactSize(m)
  {
    OptNumber(1, Extended(m.typ)) + OptNumber(2, LowBits(m.intVal)) + OptChunk(3, m.strVal) + m.unknownFields
  }

  lemma LowBitsDecode(v: int32)
    ensures ToInt32(Low32(ToUint64(v))) == v
  {
    if v < 0 { LowBitsOfNegative(v); } else { SmallIsLow(v); }
  }

  lemma CompactFormDecodes(m: IntOrStringValue)
    requires ValidIntOrString(m) && CompactSize(m) <= MAX_INT
    ensures Decode(INT_OR_STRING, 0, CompactForm(m), EMPTY_INT_OR_STRING) == Outcome(m, None)
  {
    hide ToInt32, Low32;
    if m.typ.Some? { SignedRoundTrip(m.typ.value); }
    if m.intVal.Some? { LowBitsDecode(m.intVal.value); }
    FieldsDecode(m, LowBits(m.intVal));
  }

  /** The shortest input that decodes to m has CompactSize(m) bytes. */
  lemma CompactFormIsShortest(m: IntOrStringValue, s: bytes)
    requires Decode(INT_OR_STRING, 0, s, EMPTY_INT_OR_STRING) == Outcome(m, None)
    ensures |CompactForm(m)| <= |s|
  {
    hide Decode, CompactForm;
    CompactIsBounded();
    DecodeBounded(INT_OR_STRING, 0, s, EMPTY_INT_OR_STRING, CompactSize);
  }

  /** No input of m is shorter than its encoding exactly when IntVal is absent or not negative. */
  lemma EncodingIsShortest(m: IntOrStringValue)
    requires ValidIntOrString(m) && CompactSize(m) <= MAX_INT
    ensures (forall s: bytes | Decode(INT_OR_STRING, 0, s, EMPTY_INT_OR_STRING) == Outcome(m, None) ::
               |EncodeIntOrString(m)| <= |s|)
            <==> !Negative(m.intVal)
  {
    hide *;
    EncodingSize(m);
    CompactFormDecodes(m);
    forall s: bytes | Decode(INT_OR_STRING, 0, s, EMPTY_INT_OR_STRING) == Outcome(m, None)
      ensures |CompactForm(m)| <= |s|
    {
      CompactFormIsShortest(m, s);
    }
  }

  /** Whatever bytes were accepted, the result decodes to itself again. Its encoding is not longer, unless
      IntVal is negative: then it may be five bytes longer, see EncodingIsShortest. */
  lemma IntOrStringStable(s: bytes)
    requires |s| + 5 <= MAX_INT
    requires Decode(INT_OR_STRING, 0, s, EMPTY_INT_OR_STRING).err.None?
    ensures var o := Decode(INT_OR_STRING, 0, s, EMPTY_INT_OR_STRING);
            && |EncodeIntOrString(o.msg)| <= |s| + (if Negative(o.msg.intVal) then 5 else 0)
            && Decode(INT_OR_STRING, 0, EncodeIntOrString(o.msg), EMPTY_INT_OR_STRING) == o
  {
    hide *;
    IntOrStringLaws();
    EmptyIntOrString();
    var m := Decode(INT_OR_STRING, 0, s, EMPTY_INT_OR_STRING).msg;
    DecodePreserves(INT_OR_STRING, 0, s, EMPTY_INT_OR_STRING, ValidIntOrString);
    CompactFormIsShortest(m, s);
    EncodingSize(m);
    IntOrStringRoundTrip(m);
  }

  lemma EmptyIntOrString()
    ensures ValidIntOrString(EMPTY_INT_OR_STRING)
  {
  }

  /** -1 given by its 32 low bits alone grows by five bytes. */
  lemma ReencodingCanGrow()
    ensures var s := [0x10, 0xff, 0xff, 0xff, 0xff, 0x0f];
            var o := Decode(INT_OR_STRING, 0, s, EMPTY_INT_OR_STRING);
            o == Outcome(EMPTY_INT_OR_STRING.(intVal := Some(-1)), None) && |EncodeIntOrString(o.msg)| == |s| + 5
  {
    hide Decode, EncodeIntOrString;
    var m := EMPTY_INT_OR_STRING.(intVal := Some(-1));
    EmptyIntOrString();
    MinusOne();
    EncodingSize(m);
    CompactFormDecodes(m);
  }

  lemma MinusOne()
    ensures CompactForm(EMPTY_INT_OR_STRING.(intVal := Some(-1))) == [0x10, 0xff, 0xff, 0xff, 0xff, 0x0f]
  {
    assert VarintOf(15) == [0x0f];
    assert VarintOf(0x7ff) == [0xff] + VarintOf(15);
    assert VarintOf(0x3_ffff) == [0xff] + VarintOf(0x7ff);
    assert VarintOf(0x1ff_ffff) == [0xff] + VarintOf(0x3_ffff);
    assert VarintOf(0xffff_ffff) == [0xff] + VarintOf(0x1ff_ffff);
    LowBitsOfNegative(-1);
    hide VarintOf;
    assert LowBits(Some(-1)) == Some(0xffff_ffff);
    assert OptNumber(2, LowBits(Some(-1))) == NumberField(2, 0xffff_ffff);
    assert NumberField(2, 0xffff_ffff) == [0x10, 0xff, 0xff, 0xff, 0xff, 0x0f];
  }

  /** Unknown records of an accepted input are kept, byte for byte and in order. */
  lemma IntOrStringFieldsKept(s: bytes, m: IntOrStringValue)
    requires Decode(INT_OR_STRING, 0, s, m).err.None?
    ensures Decode(INT_OR_STRING, 0, s, m).msg.unknownFields ==
            m.unknownFields + Concat(UnknownRecords(IntOrStringKind, 0, s))
  {
    hide Decode, UnknownRecords;
    UnknownRecordsKept(INT_OR_STRING, 0, s, m, (v: IntOrStringValue) => v.unknownFields);
  }
}
