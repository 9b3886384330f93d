/** LabelSelectorRequirement and LabelSelector: repeated strings, repeated messages and a map. */
module LabelSelectors {
  import opened Options
  import opened Varints
  import opened Skipping
  import opened Codecs

  // ----- LabelSelectorRequirement -----

  datatype RequirementValue = RequirementValue(
    key: Option<bytes>, operator: Option<bytes>, values: seq<bytes>, unknownFields: bytes)

  const EMPTY_REQUIREMENT := RequirementValue(None, None, [], [])

  function RequirementKind(field: int): Kind {
    if 1 <= field <= 3 then BytesField else UnknownField
  }

  function RequirementApply(m: RequirementValue, r: Record): Outcome<RequirementValue> {
    if r.Chunk? && r.field == 1 then Outcome(m.(key := Some(Payload(r))), None)
    else if r.Chunk? && r.field == 2 then Outcome(m.(operator := Some(Payload(r))), None)
    else if r.Chunk? && r.field == 3 then Outcome(m.(values := m.values + [Payload(r)]), None)
    else Outcome(m, None)
  }

  function RequirementKeep(m: RequirementValue, x: bytes): RequirementValue {
    m.(unknownFields := m.unknownFields + x)
  }

  const REQUIREMENT: Codec<RequirementValue> := Codec(RequirementKind, RequirementApply, RequirementKeep)

  function EncodeValues(values: seq<bytes>): bytes {
    if values == [] then [] else ChunkField(3, values[0]) + EncodeValues(values[1..])
  }

  function EncodeRequirement(m: RequirementValue): bytes {
    OptChunk(1, m.key) + OptChunk(2, m.operator) + EncodeValues(m.values) + m.unknownFields
  }

  ghost predicate ValidRequirement(m: RequirementValue) {
    OnlyUnknown(RequirementKind, m.unknownFields)
  }

  lemma RequirementLaws()
    ensures Extends(REQUIREMENT) && Shifts(REQUIREMENT) && Keeps(REQUIREMENT)
    ensures Preserves(REQUIREMENT, ValidRequirement)
  {
    hide OnlyUnknown;
    assert UsesPayload(REQUIREMENT);
    PayloadLaws(REQUIREMENT);
    forall m: RequirementValue, x, y
      ensures RequirementKeep(m, []) == m
      ensures RequirementKeep(RequirementKeep(m, x), y) == RequirementKeep(m, x + y)
    {
      assert m.unknownFields + [] == m.unknownFields;
      assert m.unknownFields + x + y == m.unknownFields + (x + y);
    }
    forall m: RequirementValue, x | ValidRequirement(m) && OnlyUnknown(RequirementKind, x)
      ensures ValidRequirement(RequirementKeep(m, x))
    {
      UnknownAppend(RequirementKind, m.unknownFields, x);
    }
  }

  lemma {:induction false} EncodeValuesAppend(values: seq<bytes>, v: bytes)
    ensures EncodeValues(values + [v]) == EncodeValues(values) + ChunkField(3, v)
  {
    hide ChunkField;
    if values == [] {
      assert [v][1..] == [];
    } else {
      assert (values + [v])[1..] == values[1..] + [v];
      EncodeValuesAppend(values[1..], v);
    }
  }

  lemma EncodeValuesFrom(values: seq<bytes>, i: nat)
    requires i < |values|
    ensures EncodeValues(values[i..]) == ChunkField(3, values[i]) + EncodeValues(values[i + 1..])
  {
    hide ChunkField;
    assert values[i..][1..] == values[i + 1..];
  }

  lemma {:induction false} EncodeValuesSuffix(values: seq<bytes>, i: nat)
    requires i <= |values|
    ensures |EncodeValues(values[i..])| <= |EncodeValues(values)|
  {
    hide ChunkField;
    if i == 0 {
      assert values[0..] == values;
    } else {
      EncodeValuesFrom(values, i - 1);
      EncodeValuesSuffix(values, i - 1);
    }
  }

  lemma RequirementBounded()
    ensures Bounded(REQUIREMENT, m => |EncodeRequirement(m)|)
  {
    hide VarintOf, EncodeValues;
    forall m: RequirementValue, r: Record | r.Number? || IsChunk(r)
      ensures |EncodeRequirement(RequirementApply(m, r).msg)| <= |EncodeRequirement(m)| + RecordSize(r)
    {
      EncodeValuesAppend(m.values, Payload(r));
    }
  }

  lemma {:induction false} DecodeValues(values: seq<bytes>, m: RequirementValue)
    requires |EncodeValues(values)| <= MAX_INT
    ensures Decode(REQUIREMENT, 0, EncodeValues(values), m) == Outcome(m.(values := m.values + values), None)
  {
    hide Decode, ChunkField;
    RequirementLaws();
    if values == [] {
      DecodeNothing(REQUIREMENT, m);
      assert m.values + values == m.values;
    } else {
      var m1 := m.(values := m.values + [values[0]]);
      DecodeChunk(REQUIREMENT, 3, values[0], m);
      DecodeValues(values[1..], m1);
      assert m1.values + values[1..] == m.values + values;
      DecodeThen(REQUIREMENT, ChunkField(3, values[0]), EncodeValues(values[1..]), m, m1, m.(values := m.values + values));
    }
  }

  lemma RequirementRoundTrip(m: RequirementValue)
    requires ValidRequirement(m) && |EncodeRequirement(m)| <= MAX_INT
    ensures Decode(REQUIREMENT, 0, EncodeRequirement(m), EMPTY_REQUIREMENT) == Outcome(m, None)
  {
    hide OnlyUnknown, Decode, OptChunk, EncodeValues;
    RequirementLaws();
    var m1 := EMPTY_REQUIREMENT.(key := m.key);
    var m2 := m1.(operator := m.operator);
    var m3 := m2.(values := m.values);
    var a, b := OptChunk(1, m.key), OptChunk(2, m.operator);
    DecodeOptChunk(REQUIREMENT, 1, m.key, EMPTY_REQUIREMENT, m1);
    DecodeOptChunk(REQUIREMENT, 2, m.operator, m1, m2);
    DecodeThen(REQUIREMENT, a, b, EMPTY_REQUIREMENT, m1, m2);
    DecodeValues(m.values, m2);
    assert [] + m.values == m.values;
    DecodeThen(REQUIREMENT, a + b, EncodeValues(m.values), EMPTY_REQUIREMENT, m2, m3);
    DecodeUnknown(REQUIREMENT, m.unknownFields, m3);
    assert [] + m.unknownFields == m.unknownFields;
    DecodeThen(REQUIREMENT, a + b + EncodeValues(m.values), m.unknownFields, EMPTY_REQUIREMENT, m3, m);
  }

  /** Whatever bytes were accepted, encoding the result is not longer and decodes to it again. */
  lemma RequirementStable(s: bytes)
    requires |s| <= MAX_INT && Decode(REQUIREMENT, 0, s, EMPTY_REQUIREMENT).err.None?
    ensures var o := Decode(REQUIREMENT, 0, s, EMPTY_REQUIREMENT);
            |EncodeRequirement(o.msg)| <= |s|
            && Decode(REQUIREMENT, 0, EncodeRequirement(o.msg), EMPTY_REQUIREMENT) == o
  {
    hide Decode;
    RequirementLaws();
    RequirementBounded();
    DecodePreserves(REQUIREMENT, 0, s, EMPTY_REQUIREMENT, ValidRequirement);
    DecodeBounded(REQUIREMENT, 0, s, EMPTY_REQUIREMENT, m => |EncodeRequirement(m)|);
    RequirementRoundTrip(Decode(REQUIREMENT, 0, s, EMPTY_REQUIREMENT).msg);
  }

  /** Unknown records of an accepted input are kept, byte for byte and in order. */
  lemma RequirementFieldsKept(s: bytes, m: RequirementValue)
    requires Decode(REQUIREMENT, 0, s, m).err.None?
    ensures Decode(REQUIREMENT, 0, s, m).msg.unknownFields ==
            m.unknownFields + Concat(UnknownRecords(RequirementKind, 0, s))
  {
    hide Decode, UnknownRecords;
    UnknownRecordsKept(REQUIREMENT, 0, s, m, (v: RequirementValue) => v.unknownFields);
  }

  // ----- LabelSelector: map entries -----

  /** The strings of an entry read so far, after a field of the given size. */
  datatype Entry = Entry(key: bytes, value: bytes, size: nat)

  /** One field of a map entry. s starts at the cursor and runs to the end of the whole input:
      strings are bounded by that end, not by the limit of the entry; wire types are not checked. */
  function ReadEntryField(base: nat, s: bytes, limit: nat, key: bytes, value: bytes): (r: Result<Entry>)
    requires limit <= |s|
    ensures r.Ok? ==> 1 <= r.value.size <= |s|
  {
    match ReadVarint(s)
    case Err(e) => Err(e)
    case Ok(Sized(wire, n)) =>
      var fieldNum := FieldNumber(wire);
      if fieldNum == 1 || fieldNum == 2 then
        match ReadChunk(fieldNum, base + n, s[n..])
        case Err(e) => Err(e)
        case Ok(Sized(chunk, k)) =>
          if fieldNum == 1 then Ok(Entry(Payload(chunk), value, n + k)) else Ok(Entry(key, Payload(chunk), n + k))
      else
        match SkipRecord(s)
        case Err(e) => Err(e)
        case Ok(k) =>
          if base + k > MAX_INT then Err(InvalidLength)
          else if k > limit then Err(UnexpectedEOF)
          else Ok(Entry(key, value, k))
  }

  /** The entry loop: it ends when the cursor has reached the limit, or passed it. */
  function ReadEntry(base: nat, s: bytes, limit: int, key: bytes, value: bytes): (r: Result<(bytes, bytes)>)
    requires limit <= |s|
    decreases |s|
  {
    if limit <= 0 then Ok((key, value))
    else match ReadEntryField(base, s, limit, key, value)
      case Err(e) => Err(e)
      case Ok(Entry(k, v, n)) => ReadEntry(base + n, s[n..], limit - n, k, v)
  }

  lemma EntryFieldExtend(base: nat, s: bytes, limit: nat, key: bytes, value: bytes, t: bytes)
    requires limit <= |s| && ReadEntryField(base, s, limit, key, value).Ok?
    ensures ReadEntryField(base, s + t, limit, key, value) == ReadEntryField(base, s, limit, key, value)
  {
    hide ReadVarint, SkipRecord, FieldNumber, ReadChunk;
    ReadVarintExtend(s, t);
    var Sized(wire, n) := ReadVarint(s).value;
    var fieldNum := FieldNumber(wire);
    if fieldNum == 1 || fieldNum == 2 {
      assert (s + t)[n..] == s[n..] + t;
      ReadChunkExtend(fieldNum, base + n, s[n..], t);
      var chunk := ReadChunk(fieldNum, base + n, s[n..]).value.value;
      assert Payload(WithRest(chunk, t)) == Payload(chunk);
    } else {
      SkipExtend(s, t);
    }
  }

  lemma {:induction false} ReadEntryExtend(base: nat, s: bytes, limit: int, key: bytes, value: bytes, t: bytes)
    requires limit <= |s| && ReadEntry(base, s, limit, key, value).Ok?
    ensures ReadEntry(base, s + t, limit, key, value) == ReadEntry(base, s, limit, key, value)
    decreases |s|
  {
    hide ReadEntryField;
    if limit > 0 {
      EntryFieldExtend(base, s, limit, key, value, t);
      var Entry(k, v, n) := ReadEntryField(base, s, limit, key, value).value;
      assert (s + t)[n..] == s[n..] + t;
      ReadEntryExtend(base + n, s[n..], limit - n, k, v, t);
    }
  }

  lemma EntryFieldShift(base: nat, base': nat, s: bytes, limit: nat, key: bytes, value: bytes)
    requires limit <= |s| && base + |s| <= MAX_INT && base' + |s| <= MAX_INT
    ensures var r, r' := ReadEntryField(base, s, limit, key, value), ReadEntryField(base', s, limit, key, value);
            if r.Ok? then r' == r else r'.Err?
  {
    hide ReadVarint, SkipRecord, FieldNumber, ReadChunk;
    if ReadVarint(s).Ok? {
      var Sized(wire, n) := ReadVarint(s).value;
      ReadChunkShift(FieldNumber(wire), base + n, base' + n, s[n..]);
    }
  }

  lemma ReadChunkShift(field: int, base: nat, base': nat, s: bytes)
    requires base + |s| <= MAX_INT && base' + |s| <= MAX_INT
    ensures var r, r' := ReadChunk(field, base, s), ReadChunk(field, base', s);
            if r.Ok? then r'.Ok? && r.value.size == r'.value.size && Payload(r.value.value) == Payload(r'.value.value)
            else r'.Err?
  {
    hide ReadVarint;
  }

  lemma {:induction false} ReadEntryShift(base: nat, base': nat, s: bytes, limit: int, key: bytes, value: bytes)
    requires limit <= |s| && base + |s| <= MAX_INT && base' + |s| <= MAX_INT
    ensures var r, r' := ReadEntry(base, s, limit, key, value), ReadEntry(base', s, limit, key, value);
            if r.Ok? then r' == r else r'.Err?
    decreases |s|
  {
    hide ReadEntryField;
    if limit > 0 {
      EntryFieldShift(base, base', s, limit, key, value);
      if ReadEntryField(base, s, limit, key, value).Ok? {
        var Entry(k, v, n) := ReadEntryField(base, s, limit, key, value).value;
        ReadEntryShift(base + n, base' + n, s[n..], limit - n, k, v);
      }
    }
  }

  /** How far the entry loop has run past the limit when it ends, as a number that is not positive. */
  function EntryEnd(base: nat, s: bytes, limit: int, key: bytes, value: bytes): int
    requires limit <= |s| && ReadEntry(base, s, limit, key, value).Ok?
    decreases |s|
  {
    if limit <= 0 then limit
    else
      var Entry(k, v, n) := ReadEntryField(base, s, limit, key, value).value;
      EntryEnd(base + n, s[n..], limit - n, k, v)
  }

  lemma EntryFieldPrefix(base: nat, s: bytes, limit: nat, key: bytes, value: bytes, t: bytes)
    requires limit <= |s| && ReadEntryField(base, s, limit, key, value).Ok?
    requires limit <= ReadEntryField(base, s, limit, key, value).value.size + |t|
    ensures ReadEntryField(base, s[..ReadEntryField(base, s, limit, key, value).value.size] + t, limit, key, value)
            == ReadEntryField(base, s, limit, key, value)
  {
    hide ReadVarint, SkipRecord, FieldNumber, ReadChunk;
    var n := ReadEntryField(base, s, limit, key, value).value.size;
    var Sized(wire, k) := ReadVarint(s).value;
    var fieldNum := FieldNumber(wire);
    if fieldNum == 1 || fieldNum == 2 {
      ReadVarintPrefix(s, s[k..n] + t);
      assert s[..n] + t == s[..k] + (s[k..n] + t);
      assert (s[..n] + t)[k..] == s[k..][..n - k] + t;
      ReadChunkPrefix(fieldNum, base + k, s[k..], t);
    } else {
      SkipIgnoresSuffix(s, t);
      SkippedTag(s, t);
    }
  }

  lemma SkippedTag(s: bytes, t: bytes)
    requires SkipRecord(s).Ok? && ReadVarint(s).Ok? && SkipRecord(s).value <= |s|
    ensures ReadVarint(s[..SkipRecord(s).value] + t) == ReadVarint(s)
  {
    hide ReadVarint;
    var n, k := SkipRecord(s).value, ReadVarint(s).value.size;
    assert k <= n;
    ReadVarintPrefix(s, s[k..n] + t);
    assert s[..n] + t == s[..k] + (s[k..n] + t);
  }

  lemma ReadChunkPrefix(field: int, base: nat, s: bytes, t: bytes)
    requires ReadChunk(field, base, s).Ok?
    ensures var Sized(r, n) := ReadChunk(field, base, s).value;
            ReadChunk(field, base, s[..n] + t).Ok? && ReadChunk(field, base, s[..n] + t).value.size == n
            && Payload(ReadChunk(field, base, s[..n] + t).value.value) == Payload(r)
  {
    hide ReadVarint;
    var n, k := ReadChunk(field, base, s).value.size, ReadVarint(s).value.size;
    ReadVarintPrefix(s, s[k..n] + t);
    assert s[..n] + t == s[..k] + (s[k..n] + t);
    assert (s[..n] + t)[k..n] == s[k..n];
  }

  /** An entry means what its own bytes mean, as the Protocol Buffers encoding has it for maps, exactly
      when no string runs past its end; otherwise its own bytes alone are malformed, and they can be
      read on their own only if they mean the same. */
  lemma {:induction false} EntryIsSelfContained(base: nat, s: bytes, limit: nat, key: bytes, value: bytes)
    requires limit <= |s| && ReadEntry(base, s, limit, key, value).Ok?
    ensures EntryEnd(base, s, limit, key, value) <= 0
    ensures if EntryEnd(base, s, limit, key, value) == 0
            then ReadEntry(base, s[..limit], limit, key, value) == ReadEntry(base, s, limit, key, value)
            else ReadEntry(base, s[..limit], limit, key, value).Err?
    ensures ReadEntry(base, s[..limit], limit, key, value).Ok? <==>
            ReadEntry(base, s[..limit], limit, key, value) == ReadEntry(base, s, limit, key, value)
    decreases |s|
  {
    hide ReadEntryField;
    var p := s[..limit];
    assert p + s[limit..] == s;
    if limit > 0 {
      var Entry(k, v, n) := ReadEntryField(base, s, limit, key, value).value;
      if n <= limit {
        assert p == s[..n] + s[n..limit];
        EntryFieldPrefix(base, s, limit, key, value, s[n..limit]);
        EntryIsSelfContained(base + n, s[n..], limit - n, k, v);
        assert p[n..] == s[n..][..limit - n];
      } else if ReadEntryField(base, p, limit, key, value).Ok? {
        EntryFieldExtend(base, p, limit, key, value, s[limit..]);
      }
    }
  }

  function EncodeEntry(k: bytes, v: bytes): bytes {
    ChunkField(1, k) + ChunkField(2, v)
  }

  lemma ReadEntryString(base: nat, field: nat, text: bytes, t: bytes, limit: nat, key: bytes, value: bytes)
    requires field == 1 || field == 2
    requires |ChunkField(field, text)| <= limit <= |ChunkField(field, text) + t|
    requires base + |ChunkField(field, text)| <= MAX_INT
    ensures ReadEntryField(base, ChunkField(field, text) + t, limit, key, value) ==
            Ok(Entry(if field == 1 then text else key, if field == 2 then text else value, |ChunkField(field, text)|))
  {
    hide ReadVarint, FieldNumber, ReadChunk;
    var len := VarintOf(|text|);
    var s := ChunkField(field, text) + t;
    assert s == [8 * field + 2] + (len + text + t);
    TagByte(field, len + text + t);
    assert s[1..] == len + text + t;
    ReadChunkOf(field, base + 1, text, t);
  }

  lemma ReadChunkOf(field: nat, base: nat, text: bytes, t: bytes)
    requires base + |VarintOf(|text|)| + |text| <= MAX_INT
    ensures var n := |VarintOf(|text|)|;
            ReadChunk(field, base, VarintOf(|text|) + text + t) ==
            Ok(Sized(Chunk(field, base + n, |text|, text + t), n + |text|))
    ensures Payload(Chunk(field, base + |VarintOf(|text|)|, |text|, text + t)) == text
  {
    hide ReadVarint, VarintOf;
    var len := VarintOf(|text|);
    ReadVarintOfVarint(|text|, text + t);
    assert len + text + t == len + (text + t);
    assert (len + text + t)[|len|..] == text + t;
    assert (text + t)[..|text|] == text;
  }

  lemma TagByte(field: nat, t: bytes)
    requires field == 1 || field == 2
    ensures ReadVarint([8 * field + 2] + t) == Ok(Sized(8 * field + 2, 1)) && FieldNumber(8 * field + 2) == field
  {
  }

  lemma ReadEntryOfEntry(base: nat, k: bytes, v: bytes)
    requires base + |EncodeEntry(k, v)| <= MAX_INT
    ensures ReadEntry(base, EncodeEntry(k, v), |EncodeEntry(k, v)|, [], []) == Ok((k, v))
  {
    hide ChunkField, ReadEntryField;
    var a, b := ChunkField(1, k), ChunkField(2, v);
    ReadEntryString(base, 1, k, b, |a| + |b|, [], []);
    assert (a + b)[|a|..] == b;
    assert ReadEntry(base, a + b, |a| + |b|, [], []) == ReadEntry(base + |a|, b, |b|, k, []);
    ReadEntryString(base + |a|, 2, v, [], |b|, k, []);
    assert b + [] == b && b[|b|..] == [];
    assert ReadEntry(base + |a|, b, |b|, k, []) == ReadEntry(base + |a| + |b|, [], 0, k, v);
  }

  // ----- LabelSelector -----

  /** A nil element of MatchExpressions is None. */
  datatype SelectorValue = SelectorValue(
    matchLabels: map<bytes, bytes>, matchExpressions: seq<Option<RequirementValue>>, unknownFields: bytes)

  const EMPTY_SELECTOR := SelectorValue(map[], [], [])

  function SelectorKind(field: int): Kind {
    if field == 1 || field == 2 then BytesField else UnknownField
  }

  function SelectorApply(m: SelectorValue, r: Record): Outcome<SelectorValue> {
    if !IsChunk(r) then Outcome(m, None)
    else if r.field == 1 then
      match ReadEntry(r.base, r.rest, r.len, [], [])
      case Err(e) => Outcome(m, Some(e))
      case Ok((k, v)) => Outcome(m.(matchLabels := m.matchLabels[k := v]), None)
    else if r.field == 2 then
      var o := Decode(REQUIREMENT, 0, Payload(r), EMPTY_REQUIREMENT);
      Outcome(m.(matchExpressions := m.matchExpressions + [Some(o.msg)]), o.err)
    else Outcome(m, None)
  }

  function SelectorKeep(m: SelectorValue, x: bytes): SelectorValue {
    m.(unknownFields := m.unknownFields + x)
  }

  const SELECTOR: Codec<SelectorValue> := Codec(SelectorKind, SelectorApply, SelectorKeep)

  /** The map entries in some order of the keys. */
  function EncodeLabels(order: seq<bytes>, labels: map<bytes, bytes>): bytes
    requires forall k | k in order :: k in labels
  {
    if order == [] then []
    else ChunkField(1, EncodeEntry(order[0], labels[order[0]])) + EncodeLabels(order[1..], labels)
  }

  function EncodeElement(e: Option<RequirementValue>): bytes {
    if e.None? then [] else EncodeRequirement(e.value)
  }

  function EncodeExpressions(es: seq<Option<RequirementValue>>): bytes {
    if es == [] then [] else ChunkField(2, EncodeElement(es[0])) + EncodeExpressions(es[1..])
  }

  lemma EncodeExpressionsFrom(es: seq<Option<RequirementValue>>, i: nat)
    requires i < |es|
    ensures EncodeExpressions(es[i..]) == ChunkField(2, EncodeElement(es[i])) + EncodeExpressions(es[i + 1..])
  {
    hide ChunkField, EncodeElement;
    assert es[i..][1..] == es[i + 1..];
  }

  lemma {:induction false} EncodeExpressionsSuffix(es: seq<Option<RequirementValue>>, i: nat)
    requires i <= |es|
    ensures |EncodeExpressions(es[i..])| <= |EncodeExpressions(es)|
  {
    hide ChunkField, EncodeElement;
    if i == 0 {
      assert es[0..] == es;
    } else {
      EncodeExpressionsFrom(es, i - 1);
      EncodeExpressionsSuffix(es, i - 1);
    }
  }

  lemma {:induction false} EncodeExpressionsAppend(es: seq<Option<RequirementValue>>, e: Option<RequirementValue>)
    ensures EncodeExpressions(es + [e]) == EncodeExpressions(es) + ChunkField(2, EncodeElement(e))
  {
    hide ChunkField, EncodeElement;
    if es == [] {
      assert [e][1..] == [];
    } else {
      assert (es + [e])[1..] == es[1..] + [e];
      EncodeExpressionsAppend(es[1..], e);
    }
  }

  /** Any enumeration of the keys without repetition: Go promises no order of iteration. */
  ghost predicate IsOrder(order: seq<bytes>, labels: map<bytes, bytes>) {
    && (forall i, j | 0 <= i < j < |order| :: order[i] != order[j])
    && (forall k :: k in order <==> k in labels)
  }

  ghost function EncodeSelector(m: SelectorValue, order: seq<bytes>): bytes
    requires IsOrder(order, m.matchLabels)
  {
    EncodeLabels(order, m.matchLabels) + EncodeExpressions(m.matchExpressions) + m.unknownFields
  }

  // ----- the size of the map entries is the same in every order -----

  ghost function Without(order: seq<bytes>, i: nat): seq<bytes>
    requires i < |order|
  {
    order[..i] + order[i + 1..]
  }

  lemma {:induction false} LabelsSizeWithout(order: seq<bytes>, labels: map<bytes, bytes>, i: nat)
    requires i < |order| && forall k | k in order :: k in labels
    ensures |EncodeLabels(order, labels)| ==
            |ChunkField(1, EncodeEntry(order[i], labels[order[i]]))| + |EncodeLabels(Without(order, i), labels)|
  {
    hide ChunkField, EncodeEntry;
    if i == 0 {
      assert Without(order, 0) == order[1..];
    } else {
      LabelsSizeWithout(order[1..], labels, i - 1);
      assert Without(order, i)[0] == order[0];
      assert Without(order, i)[1..] == Without(order[1..], i - 1);
    }
  }

  lemma {:induction false} LabelsSizeUnique(a: seq<bytes>, b: seq<bytes>, labels: map<bytes, bytes>)
    requires IsOrder(a, labels) && IsOrder(b, labels)
    ensures |EncodeLabels(a, labels)| == |EncodeLabels(b, labels)|
    decreases |a|
  {
    hide EncodeLabels, ChunkField, EncodeEntry;
    if a == [] {
      HasElement(b);
      assert a == b;
    } else {
      var k := a[0];
      assert k in a;
      var i :| 0 <= i < |b| && b[i] == k;
      hide IsOrder;
      LabelsSizeWithout(a, labels, 0);
      LabelsSizeWithout(b, labels, i);
      var rest := labels - {k};
      OrderTail(a, labels, 0);
      OrderTail(b, labels, i);
      LabelsSizeUnique(Without(a, 0), Without(b, i), rest);
      LabelsOfRest(Without(a, 0), labels, rest);
      LabelsOfRest(Without(b, i), labels, rest);
    }
  }

  lemma HasElement(order: seq<bytes>)
    ensures order != [] ==> exists k :: k in order
  {
    if order != [] { assert order[0] in order; }
  }

  lemma OrderTail(order: seq<bytes>, labels: map<bytes, bytes>, i: nat)
    requires IsOrder(order, labels) && i < |order|
    ensures IsOrder(Without(order, i), labels - {order[i]})
    ensures forall k | k in Without(order, i) :: k in labels - {order[i]}
  {
    var w, rest := Without(order, i), labels - {order[i]};
    forall k ensures k in w <==> k in rest {
      if k in rest {
        assert k in order;
        var j :| 0 <= j < |order| && order[j] == k;
        assert w[if j < i then j else j - 1] == k;
      }
      if k in w {
        var j :| 0 <= j < |w| && w[j] == k;
        assert order[if j < i then j else j + 1] == k;
      }
    }
  }

  lemma {:induction false} LabelsOfRest(order: seq<bytes>, labels: map<bytes, bytes>, rest: map<bytes, bytes>)
    requires forall k | k in order :: k in rest
    requires forall k | k in rest :: k in labels && labels[k] == rest[k]
    ensures EncodeLabels(order, rest) == EncodeLabels(order, labels)
  {
    hide ChunkField, EncodeEntry;
    if order != [] { LabelsOfRest(order[1..], labels, rest); }
  }

  /** The encoded size, whatever the order. */
  ghost predicate HasSize(m: SelectorValue, n: nat) {
    forall order | IsOrder(order, m.matchLabels) :: |EncodeSelector(m, order)| == n
  }

  ghost predicate Fits(m: SelectorValue, n: nat) {
    forall order | IsOrder(order, m.matchLabels) :: |EncodeSelector(m, order)| <= n
  }

  ghost predicate ValidSelector(m: SelectorValue) {
    && OnlyUnknown(SelectorKind, m.unknownFields)
    && (forall e | e in m.matchExpressions && e.Some? :: ValidRequirement(e.value))
  }

  function NotNil(e: Option<RequirementValue>): Option<RequirementValue> {
    if e.None? then Some(EMPTY_REQUIREMENT) else e
  }

  function NoNils(es: seq<Option<RequirementValue>>): (r: seq<Option<RequirementValue>>)
    ensures |r| == |es| && forall i | 0 <= i < |es| :: r[i] == NotNil(es[i])
  {
    if es == [] then [] else [NotNil(es[0])] + NoNils(es[1..])
  }

  lemma SelectorMergeLaws()
    ensures Extends(SELECTOR) && Shifts(SELECTOR) && Keeps(SELECTOR)
  {
    hide Decode, ReadEntry;
    forall m: SelectorValue, r: Record, t: bytes | IsChunk(r) && SelectorApply(m, r).err.None?
      ensures SelectorApply(m, WithRest(r, t)) == SelectorApply(m, r)
    {
      assert Payload(WithRest(r, t)) == Payload(r);
      if r.field == 1 { ReadEntryExtend(r.base, r.rest, r.len, [], [], t); }
    }
    forall m: SelectorValue, r: Record, r': Record | IsChunk(r) && AtAnyBase(r, r')
      ensures Agree(SelectorApply(m, r), SelectorApply(m, r'))
    {
      ReadEntryShift(r.base, r'.base, r.rest, r.len, [], []);
    }
    forall m: SelectorValue, x, y
      ensures SelectorKeep(m, []) == m && SelectorKeep(SelectorKeep(m, x), y) == SelectorKeep(m, x + y)
    {
      assert m.unknownFields + [] == m.unknownFields;
      assert m.unknownFields + x + y == m.unknownFields + (x + y);
    }
  }

  // ----- entries bounded by their own length -----

  /** The decoder that keeps the strings of an entry inside it. */
  function StrictApply(m: SelectorValue, r: Record): Outcome<SelectorValue> {
    if IsChunk(r) && r.field == 1 then SelectorApply(m, r.(rest := Payload(r))) else SelectorApply(m, r)
  }

  const STRICT_SELECTOR: Codec<SelectorValue> := Codec(SelectorKind, StrictApply, SelectorKeep)

  lemma StrictMergeLaws()
    ensures Extends(STRICT_SELECTOR) && Shifts(STRICT_SELECTOR) && Keeps(STRICT_SELECTOR)
  {
    hide Decode, ReadEntry, SelectorApply;
    SelectorMergeLaws();
    forall m: SelectorValue, r: Record, t: bytes | IsChunk(r) && StrictApply(m, r).err.None?
      ensures StrictApply(m, WithRest(r, t)) == StrictApply(m, r)
    {
      assert Payload(WithRest(r, t)) == Payload(r);
      if r.field != 1 { assert SELECTOR.apply(m, WithRest(r, t)) == SELECTOR.apply(m, r); }
    }
    forall m: SelectorValue, r: Record, r': Record | IsChunk(r) && AtAnyBase(r, r')
      ensures Agree(StrictApply(m, r), StrictApply(m, r'))
    {
      assert Payload(r') == Payload(r);
      var q, q' := r.(rest := Payload(r)), r'.(rest := Payload(r'));
      assert IsChunk(q) && AtAnyBase(q, q');
      assert Agree(SELECTOR.apply(m, q), SELECTOR.apply(m, q'));
      assert Agree(SELECTOR.apply(m, r), SELECTOR.apply(m, r'));
    }
  }

  // ----- decoding what was encoded -----

  lemma SelectorPreserves()
    ensures Preserves(SELECTOR, ValidSelector)
  {
    hide Decode, OnlyUnknown, ReadEntry;
    RequirementLaws();
    forall m: SelectorValue, r: Record | ValidSelector(m) && (r.Number? || IsChunk(r))
      ensures ValidSelector(SelectorApply(m, r).msg)
    {
      EmptyRequirement();
      DecodePreserves(REQUIREMENT, 0, Payload(r), EMPTY_REQUIREMENT, ValidRequirement);
    }
    forall m: SelectorValue, x | ValidSelector(m) && OnlyUnknown(SelectorKind, x)
      ensures ValidSelector(SelectorKeep(m, x))
    {
      UnknownAppend(SelectorKind, m.unknownFields, x);
    }
  }

  lemma EmptyRequirement()
    ensures ValidRequirement(EMPTY_REQUIREMENT) && EncodeRequirement(EMPTY_REQUIREMENT) == []
  {
  }

  /** Decoded messages have no nil elements. */
  ghost predicate NilFree(m: SelectorValue) {
    forall e | e in m.matchExpressions :: e.Some?
  }

  lemma SelectorNilFree()
    ensures Preserves(SELECTOR, NilFree)
  {
    hide Decode, OnlyUnknown, ReadEntry;
  }

  ghost function Restrict(labels: map<bytes, bytes>, order: seq<bytes>): map<bytes, bytes> {
    map k | k in order && k in labels :: labels[k]
  }

  lemma {:induction false} DecodeLabels(order: seq<bytes>, labels: map<bytes, bytes>, m: SelectorValue)
    requires forall k | k in order :: k in labels
    requires |EncodeLabels(order, labels)| <= MAX_INT
    ensures Decode(SELECTOR, 0, EncodeLabels(order, labels), m) ==
            Outcome(m.(matchLabels := m.matchLabels + Restrict(labels, order)), None)
  {
    hide Decode, ChunkField, EncodeEntry, ReadEntry;
    SelectorMergeLaws();
    if order == [] {
      DecodeNothing(SELECTOR, m);
      assert m.matchLabels + Restrict(labels, order) == m.matchLabels;
    } else {
      var k := order[0];
      var p := EncodeEntry(k, labels[k]);
      var m1 := m.(matchLabels := m.matchLabels[k := labels[k]]);
      LabelChunk(k, labels[k], m);
      DecodeLabels(order[1..], labels, m1);
      assert m1.matchLabels + Restrict(labels, order[1..]) == m.matchLabels + Restrict(labels, order);
      DecodeThen(SELECTOR, ChunkField(1, p), EncodeLabels(order[1..], labels), m, m1,
                 m.(matchLabels := m.matchLabels + Restrict(labels, order)));
    }
  }

  lemma LabelChunk(k: bytes, v: bytes, m: SelectorValue)
    requires |ChunkField(1, EncodeEntry(k, v))| <= MAX_INT
    ensures Decode(SELECTOR, 0, ChunkField(1, EncodeEntry(k, v)), m) ==
            Outcome(m.(matchLabels := m.matchLabels[k := v]), None)
  {
    hide Decode, EncodeEntry, ReadEntry;
    var p := EncodeEntry(k, v);
    DecodeChunk(SELECTOR, 1, p, m);
    ReadEntryOfEntry(1 + |VarintOf(|p|)|, k, v);
  }

  lemma {:induction false} DecodeExpressions(c: Codec<SelectorValue>, es: seq<Option<RequirementValue>>, m: SelectorValue)
    requires c == SELECTOR || c == STRICT_SELECTOR
    requires forall e | e in es && e.Some? :: ValidRequirement(e.value)
    requires |EncodeExpressions(es)| <= MAX_INT
    ensures Decode(c, 0, EncodeExpressions(es), m) ==
            Outcome(m.(matchExpressions := m.matchExpressions + NoNils(es)), None)
  {
    hide Decode, ChunkField, EncodeElement, ValidRequirement, NotNil, NoNils;
    SelectorMergeLaws();
    StrictMergeLaws();
    NoNilsUnfold(es, m.matchExpressions);
    if es == [] {
      DecodeNothing(c, m);
    } else {
      var m1 := m.(matchExpressions := m.matchExpressions + [NotNil(es[0])]);
      ExpressionChunk(c, es[0], m);
      DecodeExpressions(c, es[1..], m1);
      DecodeThen(c, ChunkField(2, EncodeElement(es[0])), EncodeExpressions(es[1..]), m, m1,
                 m.(matchExpressions := m.matchExpressions + NoNils(es)));
    }
  }

  lemma NoNilsUnfold(es: seq<Option<RequirementValue>>, before: seq<Option<RequirementValue>>)
    ensures before + NoNils(es) == if es == [] then before else before + [NotNil(es[0])] + NoNils(es[1..])
  {
  }

  lemma ExpressionChunk(c: Codec<SelectorValue>, e: Option<RequirementValue>, m: SelectorValue)
    requires c == SELECTOR || c == STRICT_SELECTOR
    requires e.Some? ==> ValidRequirement(e.value)
    requires |ChunkField(2, EncodeElement(e))| <= MAX_INT
    ensures Decode(c, 0, ChunkField(2, EncodeElement(e)), m) ==
            Outcome(m.(matchExpressions := m.matchExpressions + [NotNil(e)]), None)
  {
    hide Decode, EncodeRequirement, ValidRequirement;
    DecodeChunk(c, 2, EncodeElement(e), m);
    if e.None? {
      DecodeNothing(REQUIREMENT, EMPTY_REQUIREMENT);
    } else {
      RequirementRoundTrip(e.value);
    }
  }

  /** Under every map order the encoding decodes to the message, nil elements becoming empty ones. */
  lemma SelectorRoundTrip(m: SelectorValue, order: seq<bytes>)
    requires ValidSelector(m) && IsOrder(order, m.matchLabels)
    requires |EncodeSelector(m, order)| <= MAX_INT
    ensures Decode(SELECTOR, 0, EncodeSelector(m, order), EMPTY_SELECTOR) ==
            Outcome(m.(matchExpressions := NoNils(m.matchExpressions)), None)
    ensures Decode(SELECTOR, 0, EncodeSelector(m, order), EMPTY_SELECTOR) == Outcome(m, None) <==> NilFree(m)
  {
    hide Decode, OnlyUnknown, EncodeLabels, EncodeExpressions, ValidRequirement, NoNils;
    SelectorMergeLaws();
    var a, b := EncodeLabels(order, m.matchLabels), EncodeExpressions(m.matchExpressions);
    var m1 := EMPTY_SELECTOR.(matchLabels := m.matchLabels);
    var m2 := m1.(matchExpressions := NoNils(m.matchExpressions));
    var m3 := m2.(unknownFields := m.unknownFields);
    DecodeLabels(order, m.matchLabels, EMPTY_SELECTOR);
    assert map[] + Restrict(m.matchLabels, order) == m.matchLabels;
    DecodeExpressions(SELECTOR, m.matchExpressions, m1);
    assert [] + NoNils(m.matchExpressions) == NoNils(m.matchExpressions);
    DecodeThen(SELECTOR, a, b, EMPTY_SELECTOR, m1, m2);
    DecodeUnknown(SELECTOR, m.unknownFields, m2);
    assert [] + m.unknownFields == m.unknownFields;
    DecodeThen(SELECTOR, a + b, m.unknownFields, EMPTY_SELECTOR, m2, m3);
    NoNilsChangeNothing(m.matchExpressions);
  }

  lemma NoNilsChangeNothing(es: seq<Option<RequirementValue>>)
    ensures NoNils(es) == es <==> forall e | e in es :: e.Some?
  {
    forall i | 0 <= i < |es| && es[i].Some?
      ensures NoNils(es)[i] == es[i]
    {
    }
    if i :| 0 <= i < |es| && es[i].None? {
      assert NoNils(es)[i].Some?;
    }
  }

  /** Whatever bytes were accepted, the result decodes to itself again if some encoding of it fits. */
  lemma SelectorStableIfFits(s: bytes, order: seq<bytes>)
    requires Decode(SELECTOR, 0, s, EMPTY_SELECTOR).err.None?
    requires IsOrder(order, Decode(SELECTOR, 0, s, EMPTY_SELECTOR).msg.matchLabels)
    requires |EncodeSelector(Decode(SELECTOR, 0, s, EMPTY_SELECTOR).msg, order)| <= MAX_INT
    ensures var o := Decode(SELECTOR, 0, s, EMPTY_SELECTOR);
            Decode(SELECTOR, 0, EncodeSelector(o.msg, order), EMPTY_SELECTOR) == o
  {
    hide Decode;
    SelectorPreserves();
    SelectorNilFree();
    DecodePreserves(SELECTOR, 0, s, EMPTY_SELECTOR, ValidSelector);
    DecodePreserves(SELECTOR, 0, s, EMPTY_SELECTOR, NilFree);
    SelectorRoundTrip(Decode(SELECTOR, 0, s, EMPTY_SELECTOR).msg, order);
  }

  // ----- how much longer a decoded selector can become -----

  ghost predicate StringsWithin(labels: map<bytes, bytes>, n: nat) {
    forall k | k in labels :: |k| <= n && |labels[k]| <= n
  }

  lemma {:induction false} EntryStringsWithin(base: nat, s: bytes, limit: int, key: bytes, value: bytes, n: nat)
    requires limit <= |s| <= n && |key| <= n && |value| <= n
    requires ReadEntry(base, s, limit, key, value).Ok?
    ensures var (k, v) := ReadEntry(base, s, limit, key, value).value; |k| <= n && |v| <= n
    decreases |s|
  {
    hide ReadEntryField;
    if limit > 0 {
      EntryFieldWithin(base, s, limit, key, value, n);
      var Entry(k, v, size) := ReadEntryField(base, s, limit, key, value).value;
      EntryStringsWithin(base + size, s[size..], limit - size, k, v, n);
    }
  }

  lemma EntryFieldWithin(base: nat, s: bytes, limit: nat, key: bytes, value: bytes, n: nat)
    requires limit <= |s| <= n && |key| <= n && |value| <= n
    requires ReadEntryField(base, s, limit, key, value).Ok?
    ensures |ReadEntryField(base, s, limit, key, value).value.key| <= n
    ensures |ReadEntryField(base, s, limit, key, value).value.value| <= n
  {
    hide ReadVarint, SkipRecord, FieldNumber;
  }

  /** Prefixes of up to ten bytes and tags included. */
  lemma EntrySize(k: bytes, v: bytes, n: nat)
    requires |k| <= n && |v| <= n && 2 * n + 22 < TWO_64
    ensures |ChunkField(1, EncodeEntry(k, v))| <= 2 * n + 33
  {
    hide VarintOf;
    Varint64AtMostTen(|k|);
    Varint64AtMostTen(|v|);
    Varint64AtMostTen(|EncodeEntry(k, v)|);
  }

  lemma {:induction false} LabelsWithin(order: seq<bytes>, labels: map<bytes, bytes>, n: nat)
    requires (forall k | k in order :: k in labels) && StringsWithin(labels, n) && 2 * n + 22 < TWO_64
    ensures |EncodeLabels(order, labels)| <= |order| * (2 * n + 33)
  {
    hide ChunkField, EncodeEntry;
    if order != [] {
      var first, rest := ChunkField(1, EncodeEntry(order[0], labels[order[0]])), EncodeLabels(order[1..], labels);
      assert EncodeLabels(order, labels) == first + rest;
      EntrySize(order[0], labels[order[0]], n);
      LabelsWithin(order[1..], labels, n);
      MulSuccessor(|order[1..]|, 2 * n + 33);
    }
  }

  lemma {:induction false} OrderLength(order: seq<bytes>, labels: map<bytes, bytes>)
    requires IsOrder(order, labels)
    ensures |order| == |labels|
    decreases |order|
  {
    if order == [] {
      assert labels.Keys == {};
    } else {
      OrderTail(order, labels, 0);
      assert Without(order, 0) == order[1..];
      OrderLength(order[1..], labels - {order[0]});
      assert order[0] in order;
      assert (labels - {order[0]}).Keys == labels.Keys - {order[0]};
    }
  }

  /** An upper bound of the encoded size when no key and no value is longer than n. */
  ghost function Weight(m: SelectorValue, n: nat): nat {
    |m.matchLabels| * (2 * n + 34) + |EncodeExpressions(m.matchExpressions)| + |m.unknownFields|
  }

  lemma WeightBounds(m: SelectorValue, order: seq<bytes>, n: nat)
    requires IsOrder(order, m.matchLabels) && StringsWithin(m.matchLabels, n) && 2 * n + 22 < TWO_64
    ensures |EncodeSelector(m, order)| <= Weight(m, n)
  {
    hide EncodeLabels, EncodeExpressions;
    OrderLength(order, m.matchLabels);
    LabelsWithin(order, m.matchLabels, n);
    MulMonotone(2 * n + 33, 2 * n + 34, |order|);
  }

  /** One record of the given size adds at most size * (n + 17). */
  lemma RecordWeight(m: SelectorValue, r: Record, size: nat, n: nat)
    requires StringsWithin(m.matchLabels, n) && SelectorApply(m, r).err.None?
    requires IsChunk(r) && |r.rest| <= n && RecordSize(r) <= size && size >= 2
    ensures var m1 := SelectorApply(m, r).msg;
            StringsWithin(m1.matchLabels, n) && Weight(m1, n) <= Weight(m, n) + size * (n + 17)
  {
    hide SelectorApply, Weight, StringsWithin, RecordSize;
    MulMonotone(2, size, n + 17);
    MulMonotone(1, n + 17, size);
    if r.field == 1 {
      LabelWeight(m, r, n);
    } else if r.field == 2 {
      ExpressionWeight(m, r, n);
    } else {
      OtherRecord(m, r);
    }
  }

  lemma OtherRecord(m: SelectorValue, r: Record)
    requires IsChunk(r) && r.field != 1 && r.field != 2
    ensures SelectorApply(m, r).msg == m
  {
  }

  lemma LabelWeight(m: SelectorValue, r: Record, n: nat)
    requires StringsWithin(m.matchLabels, n) && SelectorApply(m, r).err.None?
    requires IsChunk(r) && |r.rest| <= n && r.field == 1
    ensures var m1 := SelectorApply(m, r).msg;
            StringsWithin(m1.matchLabels, n) && Weight(m1, n) <= Weight(m, n) + 2 * (n + 17)
  {
    hide ReadEntry, EncodeExpressions;
    EntryStringsWithin(r.base, r.rest, r.len, [], [], n);
    var (k, v) := ReadEntry(r.base, r.rest, r.len, [], []).value;
    var labels := m.matchLabels;
    assert labels[k := v].Keys == labels.Keys + {k};
    MulMonotone(|labels[k := v]|, |labels| + 1, 2 * n + 34);
    MulSuccessor(|labels|, 2 * n + 34);
  }

  lemma ExpressionWeight(m: SelectorValue, r: Record, n: nat)
    requires StringsWithin(m.matchLabels, n) && SelectorApply(m, r).err.None?
    requires IsChunk(r) && |r.rest| <= n && r.field == 2
    ensures var m1 := SelectorApply(m, r).msg;
            StringsWithin(m1.matchLabels, n) && Weight(m1, n) <= Weight(m, n) + RecordSize(r)
  {
    hide ReadEntry, Decode, EncodeExpressions, EncodeRequirement, VarintOf, StringsWithin;
    var e := Decode(REQUIREMENT, 0, Payload(r), EMPTY_REQUIREMENT).msg;
    EmptyRequirement();
    RequirementBounded();
    DecodeBounded(REQUIREMENT, 0, Payload(r), EMPTY_REQUIREMENT, x => |EncodeRequirement(x)|);
    VarintMonotone(|EncodeRequirement(e)|, r.len);
    EncodeExpressionsAppend(m.matchExpressions, Some(e));
  }

  lemma ChunkTakesTwo(base: nat, s: bytes)
    requires ReadRecord(SelectorKind, base, s).Ok?
    ensures var Sized(r, size) := ReadRecord(SelectorKind, base, s).value;
            !r.Number? && (r.Chunk? ==> size >= 2 && |r.rest| <= |s|)
  {
    hide ReadVarint, SkipRecord, ReadTag;
  }

  lemma {:induction false} DecodeWeight(base: nat, s: bytes, m: SelectorValue, n: nat)
    requires |s| <= n && StringsWithin(m.matchLabels, n)
    requires Decode(SELECTOR, base, s, m).err.None?
    ensures var o := Decode(SELECTOR, base, s, m).msg;
            StringsWithin(o.matchLabels, n) && Weight(o, n) <= Weight(m, n) + |s| * (n + 17)
    decreases |s|
  {
    hide ReadRecord, SelectorApply, RecordSize, StringsWithin, Weight;
    if s != [] {
      var Sized(r, size) := ReadRecord(SELECTOR.kind, base, s).value;
      var m1 := Step(SELECTOR, m, r).msg;
      StepWeight(base, s, m, n);
      DecodeWeight(base + size, s[size..], m1, n);
      assert |s| * (n + 17) == size * (n + 17) + |s[size..]| * (n + 17);
    }
  }

  lemma StepWeight(base: nat, s: bytes, m: SelectorValue, n: nat)
    requires |s| <= n && StringsWithin(m.matchLabels, n)
    requires ReadRecord(SELECTOR.kind, base, s).Ok?
    requires Step(SELECTOR, m, ReadRecord(SELECTOR.kind, base, s).value.value).err.None?
    ensures var Sized(r, size) := ReadRecord(SELECTOR.kind, base, s).value;
            var m1 := Step(SELECTOR, m, r).msg;
            StringsWithin(m1.matchLabels, n) && Weight(m1, n) <= Weight(m, n) + size * (n + 17)
  {
    hide ReadRecord, SelectorApply, RecordSize, StringsWithin;
    var Sized(r, size) := ReadRecord(SELECTOR.kind, base, s).value;
    ChunkTakesTwo(base, s);
    if r.Raw? {
      RawIsPrefix(SELECTOR.kind, base, s);
      MulMonotone(1, n + 17, size);
    } else {
      RecordIsMinimal(SELECTOR.kind, base, s);
      RecordWeight(m, r, size, n);
    }
  }

  lemma NoWeight(n: nat)
    ensures StringsWithin(EMPTY_SELECTOR.matchLabels, n) && Weight(EMPTY_SELECTOR, n) == 0
  {
  }

  /** Overrunning entries can make a selector longer than its input, but not more than quadratically. */
  lemma SelectorGrowth(s: bytes, order: seq<bytes>)
    requires Decode(SELECTOR, 0, s, EMPTY_SELECTOR).err.None? && |s| <= MAX_INT - 22
    requires IsOrder(order, Decode(SELECTOR, 0, s, EMPTY_SELECTOR).msg.matchLabels)
    ensures |EncodeSelector(Decode(SELECTOR, 0, s, EMPTY_SELECTOR).msg, order)| <= |s| * (|s| + 17)
  {
    hide Decode, EncodeSelector, IsOrder, Weight;
    NoWeight(|s|);
    DecodeWeight(0, s, EMPTY_SELECTOR, |s|);
    WeightBounds(Decode(SELECTOR, 0, s, EMPTY_SELECTOR).msg, order, |s|);
  }

  /** Whatever bytes were accepted, the result encoded in any map order decodes to it again. */
  lemma SelectorStable(s: bytes, order: seq<bytes>)
    requires Decode(SELECTOR, 0, s, EMPTY_SELECTOR).err.None? && |s| <= TWO_31
    requires IsOrder(order, Decode(SELECTOR, 0, s, EMPTY_SELECTOR).msg.matchLabels)
    ensures var o := Decode(SELECTOR, 0, s, EMPTY_SELECTOR);
            Decode(SELECTOR, 0, EncodeSelector(o.msg, order), EMPTY_SELECTOR) == o
  {
    hide Decode, EncodeSelector, IsOrder;
    SelectorGrowth(s, order);
    MulMonotone(|s|, TWO_31, |s| + 17);
    SelectorStableIfFits(s, order);
  }

  /** Every map record of s can be read on its own. */
  predicate EntriesSelfContained(base: nat, s: bytes)
    decreases |s|
  {
    s == [] || ReadRecord(SelectorKind, base, s).Err? ||
    (var Sized(r, n) := ReadRecord(SelectorKind, base, s).value;
     && (IsChunk(r) && r.field == 1 ==> ReadEntry(r.base, Payload(r), r.len, [], []).Ok?)
     && EntriesSelfContained(base + n, s[n..]))
  }

  /** The two decoders agree on a map record that can be read on its own; the strict one refuses any other. */
  lemma StrictStep(m: SelectorValue, r: Record)
    requires IsChunk(r)
    ensures if r.field != 1 || ReadEntry(r.base, Payload(r), r.len, [], []).Ok?
            then StrictApply(m, r) == SelectorApply(m, r)
            else StrictApply(m, r).err.Some?
  {
    hide ReadEntry, Decode;
    if r.field == 1 && ReadEntry(r.base, Payload(r), r.len, [], []).Ok? {
      ReadEntryExtend(r.base, Payload(r), r.len, [], [], r.rest[r.len..]);
      assert Payload(r) + r.rest[r.len..] == r.rest;
    }
    assert Payload(r)[..r.len] == Payload(r);
  }

  /** The strict decoder accepts exactly the inputs that the code accepts and none of whose entries
      overruns, and then gives the same message. */
  lemma {:induction false} StrictSelector(base: nat, s: bytes, m: SelectorValue)
    ensures var lenient, strict := Decode(SELECTOR, base, s, m), Decode(STRICT_SELECTOR, base, s, m);
            && (strict.err.None? <==> lenient.err.None? && EntriesSelfContained(base, s))
            && (strict.err.None? ==> strict == lenient)
    decreases |s|
  {
    hide ReadRecord, SelectorApply, StrictApply, ReadEntry;
    if s != [] && ReadRecord(SelectorKind, base, s).Ok? {
      var Sized(r, n) := ReadRecord(SelectorKind, base, s).value;
      ChunkTakesTwo(base, s);
      if r.Chunk? { StrictStep(m, r); }
      StrictSelector(base + n, s[n..], Step(SELECTOR, m, r).msg);
    }
  }

  /** Decoding a ++ b is decoding a and then b into the same message, although entry strings
      may run past their entry. */
  lemma SelectorConcatIsMerge(a: bytes, b: bytes, m: SelectorValue)
    requires |a| + |b| <= MAX_INT && Decode(SELECTOR, 0, a, m).err.None?
    ensures Agree(Decode(SELECTOR, 0, a + b, m), Decode(SELECTOR, 0, b, Decode(SELECTOR, 0, a, m).msg))
  {
    hide Decode;
    SelectorMergeLaws();
    ConcatIsMerge(SELECTOR, 0, a, b, m);
  }

  /** Unknown records of an accepted input are kept, byte for byte and in order. */
  lemma SelectorFieldsKept(s: bytes, m: SelectorValue)
    requires Decode(SELECTOR, 0, s, m).err.None?
    ensures Decode(SELECTOR, 0, s, m).msg.unknownFields == m.unknownFields + Concat(UnknownRecords(SelectorKind, 0, s))
  {
    hide Decode, UnknownRecords, ReadEntry;
    UnknownRecordsKept(SELECTOR, 0, s, m, (v: SelectorValue) => v.unknownFields);
  }

  /** A key that runs past its entry is read again as the tag of the next record. */
  lemma EntryCanOverrun()
    ensures Decode(SELECTOR, 0, [0x0a, 0x02, 0x0a, 0x01, 0x12, 0x00], EMPTY_SELECTOR) ==
            Outcome(SelectorValue(map[[0x12] := []], [Some(EMPTY_REQUIREMENT)], []), None)
  {
    hide ReadRecord, ReadEntry;
    var s: bytes := [0x0a, 0x02, 0x0a, 0x01, 0x12, 0x00];
    OverrunRecords();
    OverrunEntry();
    var m1 := EMPTY_SELECTOR.(matchLabels := EMPTY_SELECTOR.matchLabels[[0x12] := []]);
    var m2 := m1.(matchExpressions := m1.matchExpressions + [Some(EMPTY_REQUIREMENT)]);
    assert s[4..] == [0x12, 0x00] && [0x12, 0x00][2..] == [];
    assert SelectorApply(m1, Chunk(2, 6, 0, [])) == Outcome(m2, None);
    assert Decode(SELECTOR, 4, [0x12, 0x00], m1) == Decode(SELECTOR, 6, [], m2);
    assert SelectorApply(EMPTY_SELECTOR, Chunk(1, 2, 2, [0x0a, 0x01, 0x12, 0x00])) == Outcome(m1, None);
    assert Decode(SELECTOR, 0, s, EMPTY_SELECTOR) == Decode(SELECTOR, 4, s[4..], m1);
    assert m2 == SelectorValue(map[[0x12] := []], [Some(EMPTY_REQUIREMENT)], []);
  }

  lemma OverrunRecords()
    ensures ReadRecord(SelectorKind, 0, [0x0a, 0x02, 0x0a, 0x01, 0x12, 0x00]) ==
            Ok(Sized(Chunk(1, 2, 2, [0x0a, 0x01, 0x12, 0x00]), 4))
    ensures ReadRecord(SelectorKind, 4, [0x12, 0x00]) == Ok(Sized(Chunk(2, 6, 0, []), 2))
  {
  }

  lemma OverrunEntry()
    ensures ReadEntry(2, [0x0a, 0x01, 0x12, 0x00], 2, [], []) == Ok(([0x12], []))
  {
    hide ReadVarint, ReadChunk;
    var s: bytes := [0x0a, 0x01, 0x12, 0x00];
    TagByte(1, [0x01, 0x12, 0x00]);
    ReadChunkOf(1, 3, [0x12], [0x00]);
    assert VarintOf(1) == [0x01];
    assert [0x01] + [0x12] + [0x00] == [0x01, 0x12, 0x00] && s == [8 * 1 + 2] + [0x01, 0x12, 0x00];
    assert s[1..] == [0x01, 0x12, 0x00];
    assert ReadEntryField(2, s, 2, [], []) == Ok(Entry([0x12], [], 3));
  }
}
