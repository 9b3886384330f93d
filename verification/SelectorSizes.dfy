/** When the encoding of a LabelSelector is the shortest input that decodes to it. */
module SelectorSizes {
  import opened Options
  import opened Varints
  import opened Codecs
  import opened LabelSelectors

  // ----- entries without their empty strings -----

  function OptString(field: nat, text: bytes): bytes
    requires 1 <= field < 16
  {
    if text == [] then [] else ChunkField(field, text)
  }

  /** The decoder starts from an empty key and an empty value, so neither has to be written. */
  function CompactEntry(k: bytes, v: bytes): bytes {
    OptString(1, k) + OptString(2, v)
  }

  function CompactRecord(k: bytes, v: bytes): bytes {
    ChunkField(1, CompactEntry(k, v))
  }

  lemma CompactRecordSize(k: bytes, v: bytes)
    ensures |CompactRecord(k, v)| <= |ChunkField(1, EncodeEntry(k, v))|
    ensures |CompactRecord(k, v)| == |ChunkField(1, EncodeEntry(k, v))| <==> k != [] && v != []
  {
    hide VarintOf;
    VarintMonotone(|CompactEntry(k, v)|, |EncodeEntry(k, v)|);
  }

  lemma ReadCompactEntry(base: nat, k: bytes, v: bytes)
    requires base + |CompactEntry(k, v)| <= MAX_INT
    ensures ReadEntry(base, CompactEntry(k, v), |CompactEntry(k, v)|, [], []) == Ok((k, v))
  {
    hide ChunkField, ReadEntryField;
    var a, b := OptString(1, k), OptString(2, v);
    if k != [] {
      ReadEntryString(base, 1, k, b, |a| + |b|, [], []);
      assert (a + b)[|a|..] == b;
    } else {
      assert a + b == b;
    }
    assert ReadEntry(base, a + b, |a| + |b|, [], []) == ReadEntry(base + |a|, b, |b|, k, []);
    if v != [] {
      ReadEntryString(base + |a|, 2, v, [], |b|, k, []);
      assert b + [] == b && b[|b|..] == [];
    }
    assert ReadEntry(base + |a|, b, |b|, k, []) == ReadEntry(base + |a| + |b|, [], 0, k, v);
  }

  /** No field of an entry is shorter than the string it leaves, in its compact form. */
  lemma FieldCost(base: nat, s: bytes, limit: nat, key: bytes, value: bytes)
    requires limit <= |s| && ReadEntryField(base, s, limit, key, value).Ok?
    ensures var Entry(k, v, n) := ReadEntryField(base, s, limit, key, value).value;
            |CompactEntry(k, v)| <= |CompactEntry(key, value)| + n
  {
    hide ReadVarint, FieldNumber, VarintOf;
    var n := ReadVarint(s).value.size;
    var field := FieldNumber(ReadVarint(s).value.value);
    if field == 1 || field == 2 {
      ReadVarintMinimal(s[n..]);
    }
  }

  lemma {:induction false} EntryCost(base: nat, s: bytes, key: bytes, value: bytes)
    requires ReadEntry(base, s, |s|, key, value).Ok?
    ensures var (k, v) := ReadEntry(base, s, |s|, key, value).value;
            |CompactEntry(k, v)| <= |CompactEntry(key, value)| + |s|
    decreases |s|
  {
    hide ReadEntryField, CompactEntry;
    if s != [] {
      FieldCost(base, s, |s|, key, value);
      var Entry(k, v, n) := ReadEntryField(base, s, |s|, key, value).value;
      EntryCost(base + n, s[n..], k, v);
    }
  }

  // ----- the compact size of a map -----

  ghost function CompactLabels(labels: map<bytes, bytes>): nat
    decreases labels.Keys
  {
    if labels == map[] then 0
    else
      var k :| k in labels;
      |CompactRecord(k, labels[k])| + CompactLabels(labels - {k})
  }

  lemma {:induction false} CompactLabelsWithout(labels: map<bytes, bytes>, k: bytes)
    requires k in labels
    ensures CompactLabels(labels) == |CompactRecord(k, labels[k])| + CompactLabels(labels - {k})
    decreases labels.Keys
  {
    hide CompactRecord;
    var x :| x in labels && CompactLabels(labels) == |CompactRecord(x, labels[x])| + CompactLabels(labels - {x});
    if x != k {
      CompactLabelsWithout(labels - {x}, k);
      CompactLabelsWithout(labels - {k}, x);
      assert labels - {x} - {k} == labels - {k} - {x};
    }
  }

  lemma CompactLabelsUpdate(labels: map<bytes, bytes>, k: bytes, v: bytes)
    ensures CompactLabels(labels[k := v]) <= CompactLabels(labels) + |CompactRecord(k, v)|
  {
    hide CompactLabels, CompactRecord;
    CompactLabelsWithout(labels[k := v], k);
    assert labels[k := v] - {k} == labels - {k};
    if k in labels {
      CompactLabelsWithout(labels, k);
    } else {
      assert labels - {k} == labels;
    }
  }

  function CompactForms(order: seq<bytes>, labels: map<bytes, bytes>): bytes
    requires forall k | k in order :: k in labels
  {
    if order == [] then [] else CompactRecord(order[0], labels[order[0]]) + CompactForms(order[1..], labels)
  }

  lemma {:induction false} CompactFormsOfRest(order: seq<bytes>, labels: map<bytes, bytes>, rest: map<bytes, bytes>)
    requires forall k | k in order :: k in rest
    requires forall k | k in rest :: k in labels && labels[k] == rest[k]
    ensures CompactForms(order, rest) == CompactForms(order, labels)
  {
    hide CompactRecord;
    if order != [] { CompactFormsOfRest(order[1..], labels, rest); }
  }

  lemma {:induction false} CompactFormsSize(order: seq<bytes>, labels: map<bytes, bytes>)
    requires IsOrder(order, labels)
    ensures |CompactForms(order, labels)| == CompactLabels(labels)
    decreases |order|
  {
    hide CompactRecord, CompactLabels, IsOrder;
    if order == [] {
      NoLabels(labels);
    } else {
      var k := order[0];
      FirstOfOrder(order, labels);
      CompactLabelsWithout(labels, k);
      CompactFormsSize(order[1..], labels - {k});
      CompactFormsOfRest(order[1..], labels, labels - {k});
    }
  }

  lemma NoLabels(labels: map<bytes, bytes>)
    requires IsOrder([], labels)
    ensures CompactLabels(labels) == 0
  {
    assert labels == map[];
  }

  lemma FirstOfOrder(order: seq<bytes>, labels: map<bytes, bytes>)
    requires IsOrder(order, labels) && order != []
    ensures order[0] in labels && IsOrder(order[1..], labels - {order[0]})
    ensures forall k | k in order :: k in labels
    ensures forall k | k in order[1..] :: k in labels - {order[0]}
  {
    assert order[0] in order;
    OrderTail(order, labels, 0);
    assert Without(order, 0) == order[1..];
  }

  lemma {:induction false} CompactFormsCompare(order: seq<bytes>, labels: map<bytes, bytes>)
    requires forall k | k in order :: k in labels
    ensures |CompactForms(order, labels)| <= |EncodeLabels(order, labels)|
    ensures |CompactForms(order, labels)| == |EncodeLabels(order, labels)| <==>
            forall k | k in order :: k != [] && labels[k] != []
  {
    hide CompactRecord, ChunkField, EncodeEntry;
    if order != [] {
      var k := order[0];
      CompactRecordSize(k, labels[k]);
      CompactFormsCompare(order[1..], labels);
      assert order == [k] + order[1..];
    }
  }

  // ----- the compact form of a selector -----

  function CompactForm(m: SelectorValue, order: seq<bytes>): bytes
    requires forall k | k in order :: k in m.matchLabels
  {
    CompactForms(order, m.matchLabels) + EncodeExpressions(m.matchExpressions) + m.unknownFields
  }

  predicate NoEmptyStrings(labels: map<bytes, bytes>) {
    forall k | k in labels :: k != [] && labels[k] != []
  }

  lemma CompactFormCompare(m: SelectorValue, order: seq<bytes>)
    requires IsOrder(order, m.matchLabels)
    ensures |CompactForm(m, order)| <= |EncodeSelector(m, order)|
    ensures |CompactForm(m, order)| == |EncodeSelector(m, order)| <==> NoEmptyStrings(m.matchLabels)
  {
    hide CompactForms, EncodeLabels, EncodeExpressions;
    CompactFormsCompare(order, m.matchLabels);
  }

  lemma CompactLabelChunk(k: bytes, v: bytes, m: SelectorValue)
    requires |CompactRecord(k, v)| <= MAX_INT
    ensures Decode(STRICT_SELECTOR, 0, CompactRecord(k, v), m) ==
            Outcome(m.(matchLabels := m.matchLabels[k := v]), None)
  {
    hide Decode, CompactEntry, ReadEntry;
    var p := CompactEntry(k, v);
    DecodeChunk(STRICT_SELECTOR, 1, p, m);
    ReadCompactEntry(1 + |VarintOf(|p|)|, k, v);
    assert p[..|p|] == p;
  }

  lemma {:induction false} DecodeCompactLabels(order: seq<bytes>, labels: map<bytes, bytes>, m: SelectorValue)
    requires forall k | k in order :: k in labels
    requires |CompactForms(order, labels)| <= MAX_INT
    ensures Decode(STRICT_SELECTOR, 0, CompactForms(order, labels), m) ==
            Outcome(m.(matchLabels := m.matchLabels + Restrict(labels, order)), None)
  {
    hide Decode, CompactRecord;
    StrictMergeLaws();
    if order == [] {
      DecodeNothing(STRICT_SELECTOR, m);
      assert m.matchLabels + Restrict(labels, order) == m.matchLabels;
    } else {
      var k := order[0];
      var m1 := m.(matchLabels := m.matchLabels[k := labels[k]]);
      CompactLabelChunk(k, labels[k], m);
      DecodeCompactLabels(order[1..], labels, m1);
      assert m1.matchLabels + Restrict(labels, order[1..]) == m.matchLabels + Restrict(labels, order);
      DecodeThen(STRICT_SELECTOR, CompactRecord(k, labels[k]), CompactForms(order[1..], labels), m, m1,
                 m.(matchLabels := m.matchLabels + Restrict(labels, order)));
    }
  }

  /** The compact form is an input of the message, and each of its entries can be read on its own. */
  lemma CompactFormDecodes(m: SelectorValue, order: seq<bytes>)
    requires ValidSelector(m) && NilFree(m) && IsOrder(order, m.matchLabels)
    requires |CompactForm(m, order)| <= MAX_INT
    ensures Decode(SELECTOR, 0, CompactForm(m, order), EMPTY_SELECTOR) == Outcome(m, None)
    ensures EntriesSelfContained(0, CompactForm(m, order))
  {
    hide Decode, CompactForms, EncodeExpressions, ValidRequirement;
    StrictMergeLaws();
    var a, b := CompactForms(order, m.matchLabels), EncodeExpressions(m.matchExpressions);
    var m1 := EMPTY_SELECTOR.(matchLabels := m.matchLabels);
    var m2 := m1.(matchExpressions := m.matchExpressions);
    DecodeCompactLabels(order, m.matchLabels, EMPTY_SELECTOR);
    assert map[] + Restrict(m.matchLabels, order) == m.matchLabels;
    DecodeExpressions(STRICT_SELECTOR, m.matchExpressions, m1);
    NoNilsChangeNothing(m.matchExpressions);
    assert [] + m.matchExpressions == m.matchExpressions;
    DecodeThen(STRICT_SELECTOR, a, b, EMPTY_SELECTOR, m1, m2);
    DecodeUnknown(STRICT_SELECTOR, m.unknownFields, m2);
    assert [] + m.unknownFields == m.unknownFields;
    DecodeThen(STRICT_SELECTOR, a + b, m.unknownFields, EMPTY_SELECTOR, m2, m);
    StrictSelector(0, CompactForm(m, order), EMPTY_SELECTOR);
  }

  // ----- no self-contained input is shorter -----

  ghost function CompactSize(m: SelectorValue): nat {
    CompactLabels(m.matchLabels) + |EncodeExpressions(m.matchExpressions)| + |m.unknownFields|
  }

  lemma LabelCost(m: SelectorValue, r: Record)
    requires IsChunk(r) && r.field == 1 && StrictApply(m, r).err.None?
    ensures CompactSize(StrictApply(m, r).msg) <= CompactSize(m) + RecordSize(r)
  {
    hide ReadEntry, CompactEntry, CompactLabels, EncodeExpressions, VarintOf;
    var p := Payload(r);
    EntryCost(r.base, p, [], []);
    NothingCompact();
    var (k, v) := ReadEntry(r.base, p, r.len, [], []).value;
    VarintMonotone(|CompactEntry(k, v)|, r.len);
    CompactLabelsUpdate(m.matchLabels, k, v);
  }

  lemma NothingCompact()
    ensures CompactEntry([], []) == []
  {
  }

  lemma ExpressionCost(m: SelectorValue, r: Record)
    requires IsChunk(r) && r.field == 2 && StrictApply(m, r).err.None?
    ensures CompactSize(StrictApply(m, r).msg) <= CompactSize(m) + RecordSize(r)
  {
    hide Decode, EncodeExpressions, EncodeRequirement, VarintOf, CompactLabels;
    var e := Decode(REQUIREMENT, 0, Payload(r), EMPTY_REQUIREMENT).msg;
    EmptyRequirement();
    RequirementBounded();
    DecodeBounded(REQUIREMENT, 0, Payload(r), EMPTY_REQUIREMENT, x => |EncodeRequirement(x)|);
    VarintMonotone(|EncodeRequirement(e)|, r.len);
    EncodeExpressionsAppend(m.matchExpressions, Some(e));
  }

  lemma CompactIsBounded()
    ensures Bounded(STRICT_SELECTOR, CompactSize)
  {
    hide CompactLabels, EncodeExpressions, RecordSize, SelectorApply;
    forall m: SelectorValue, r: Record | (r.Number? || IsChunk(r)) && STRICT_SELECTOR.apply(m, r).err.None?
      ensures CompactSize(STRICT_SELECTOR.apply(m, r).msg) <= CompactSize(m) + RecordSize(r)
    {
      if IsChunk(r) && r.field == 1 {
        LabelCost(m, r);
      } else if IsChunk(r) && r.field == 2 {
        ExpressionCost(m, r);
      } else {
        OtherCost(m, r);
      }
    }
  }

  lemma OtherCost(m: SelectorValue, r: Record)
    requires r.Number? || (IsChunk(r) && r.field != 1 && r.field != 2)
    ensures StrictApply(m, r).msg == m
  {
  }

  lemma CompactFormIsShortest(m: SelectorValue, order: seq<bytes>, s: bytes)
    requires IsOrder(order, m.matchLabels)
    requires Decode(SELECTOR, 0, s, EMPTY_SELECTOR) == Outcome(m, None) && EntriesSelfContained(0, s)
    ensures |CompactForm(m, order)| <= |s|
  {
    hide Decode, CompactForms, EncodeExpressions, EntriesSelfContained, Bounded;
    StrictSelector(0, s, EMPTY_SELECTOR);
    CompactIsBounded();
    DecodeBounded(STRICT_SELECTOR, 0, s, EMPTY_SELECTOR, CompactSize);
    NoCost();
    CompactFormsSize(order, m.matchLabels);
  }

  lemma NoCost()
    ensures CompactSize(EMPTY_SELECTOR) == 0
  {
  }

  /** s is an input of m, and each of its map records can be read on its own. */
  predicate IsInput(s: bytes, m: SelectorValue) {
    Decode(SELECTOR, 0, s, EMPTY_SELECTOR) == Outcome(m, None) && EntriesSelfContained(0, s)
  }

  /** Among the inputs whose entries keep to their own bytes, none is shorter than the encoding, in any
      map order, exactly when no key and no value is empty. */
  lemma EncodingIsShortest(m: SelectorValue, order: seq<bytes>)
    requires ValidSelector(m) && NilFree(m) && IsOrder(order, m.matchLabels)
    requires |EncodeSelector(m, order)| <= MAX_INT
    ensures (forall s | IsInput(s, m) :: |EncodeSelector(m, order)| <= |s|) <==> NoEmptyStrings(m.matchLabels)
  {
    hide Decode, EntriesSelfContained, CompactForm, EncodeSelector, ValidSelector, NilFree, NoEmptyStrings;
    CompactFormCompare(m, order);
    CompactFormDecodes(m, order);
    assert IsInput(CompactForm(m, order), m);
    forall s | IsInput(s, m)
      ensures |CompactForm(m, order)| <= |s|
    {
      CompactFormIsShortest(m, order, s);
    }
  }

  /** Whatever was accepted with its entries on their own: encoding the result is not longer, unless a key
      or a value is empty. */
  lemma SelectorNotLonger(s: bytes, order: seq<bytes>)
    requires Decode(SELECTOR, 0, s, EMPTY_SELECTOR).err.None? && EntriesSelfContained(0, s)
    requires IsOrder(order, Decode(SELECTOR, 0, s, EMPTY_SELECTOR).msg.matchLabels)
    requires NoEmptyStrings(Decode(SELECTOR, 0, s, EMPTY_SELECTOR).msg.matchLabels)
    ensures |EncodeSelector(Decode(SELECTOR, 0, s, EMPTY_SELECTOR).msg, order)| <= |s|
  {
    hide Decode, EntriesSelfContained, CompactForm, EncodeSelector, NoEmptyStrings;
    var m := Decode(SELECTOR, 0, s, EMPTY_SELECTOR).msg;
    CompactFormIsShortest(m, order, s);
    CompactFormCompare(m, order);
  }

  /** An empty entry stands for an empty key and an empty value, which are written out. */
  lemma SelectorCanGrow()
    ensures var m := EMPTY_SELECTOR.(matchLabels := map[[] := []]);
            && Decode(SELECTOR, 0, [0x0a, 0x00], EMPTY_SELECTOR) == Outcome(m, None)
            && IsOrder([[]], m.matchLabels)
            && EncodeSelector(m, [[]]) == [0x0a, 0x04, 0x0a, 0x00, 0x12, 0x00]
  {
    hide Decode;
    var m: SelectorValue := EMPTY_SELECTOR.(matchLabels := map[[] := []]);
    var order: seq<bytes> := [[]];
    EmptyEntries();
    assert order[1..] == [] && m.matchLabels[[]] == [];
    hide CompactRecord, EncodeEntry, ChunkField;
    assert CompactForms(order, m.matchLabels) == CompactRecord([], []) + [];
    assert CompactForm(m, order) == [0x0a, 0x00];
    assert EncodeLabels(order, m.matchLabels) == ChunkField(1, EncodeEntry([], [])) + [];
    CompactFormDecodes(m, order);
  }

  lemma EmptyEntries()
    ensures CompactRecord([], []) == [0x0a, 0x00]
    ensures ChunkField(1, EncodeEntry([], [])) == [0x0a, 0x04, 0x0a, 0x00, 0x12, 0x00]
  {
    assert VarintOf(0) == [0] && VarintOf(4) == [4];
    assert EncodeEntry([], []) == [0x0a, 0x00, 0x12, 0x00];
  }

  /** With an overrunning entry the encoding can be longer although no string is empty: the value is read
      once more as an unknown record. */
  lemma OverrunningCanGrow()
    ensures var s: bytes := [0x0a, 0x05, 0x0a, 0x01, 0x61, 0x12, 0x02, 0x1a, 0x00];
            var m := SelectorValue(map[[0x61] := [0x1a, 0x00]], [], [0x1a, 0x00]);
            && Decode(SELECTOR, 0, s, EMPTY_SELECTOR) == Outcome(m, None)
            && NoEmptyStrings(m.matchLabels) && IsOrder([[0x61]], m.matchLabels)
            && |EncodeSelector(m, [[0x61]])| == |s| + 2
  {
    hide ReadRecord, ReadEntry;
    var s: bytes := [0x0a, 0x05, 0x0a, 0x01, 0x61, 0x12, 0x02, 0x1a, 0x00];
    var rest: bytes := [0x0a, 0x01, 0x61, 0x12, 0x02, 0x1a, 0x00];
    OverrunRecord();
    OverrunUnknown();
    OverrunValue();
    var m1 := EMPTY_SELECTOR.(matchLabels := EMPTY_SELECTOR.matchLabels[[0x61] := [0x1a, 0x00]]);
    var m2 := SelectorKeep(m1, [0x1a, 0x00]);
    assert s[7..] == [0x1a, 0x00] && [0x1a, 0x00][2..] == [];
    assert SelectorApply(EMPTY_SELECTOR, Chunk(1, 2, 5, rest)) == Outcome(m1, None);
    assert Decode(SELECTOR, 7, [0x1a, 0x00], m1) == Decode(SELECTOR, 9, [], m2);
    assert Decode(SELECTOR, 0, s, EMPTY_SELECTOR) == Decode(SELECTOR, 7, s[7..], m1);
    assert m2 == SelectorValue(map[[0x61] := [0x1a, 0x00]], [], [0x1a, 0x00]);
    OverrunEncoding(m2);
  }

  lemma OverrunRecord()
    ensures ReadRecord(SelectorKind, 0, [0x0a, 0x05, 0x0a, 0x01, 0x61, 0x12, 0x02, 0x1a, 0x00]) ==
            Ok(Sized(Chunk(1, 2, 5, [0x0a, 0x01, 0x61, 0x12, 0x02, 0x1a, 0x00]), 7))
  {
  }

  lemma OverrunUnknown()
    ensures ReadRecord(SelectorKind, 7, [0x1a, 0x00]) == Ok(Sized(Raw([0x1a, 0x00]), 2))
  {
    assert [0x1a, 0x00][..2] == [0x1a, 0x00];
  }

  lemma OverrunValue()
    ensures ReadEntry(2, [0x0a, 0x01, 0x61, 0x12, 0x02, 0x1a, 0x00], 5, [], []) == Ok(([0x61], [0x1a, 0x00]))
  {
    hide ReadVarint, ReadChunk, ReadEntryField;
    var t: bytes := [0x12, 0x02, 0x1a, 0x00];
    var s: bytes := [0x0a, 0x01, 0x61] + t;
    assert VarintOf(1) == [1];
    ReadEntryString(2, 1, [0x61], t, 5, [], []);
    assert ChunkField(1, [0x61]) == [0x0a, 0x01, 0x61];
    assert s == [0x0a, 0x01, 0x61, 0x12, 0x02, 0x1a, 0x00];
    assert s[3..] == t;
    OverrunText();
    assert t[4..] == [];
    assert ReadEntry(5, t, 2, [0x61], []) == ReadEntry(9, [], -2, [0x61], [0x1a, 0x00]);
    assert ReadEntry(2, s, 5, [], []) == ReadEntry(5, t, 2, [0x61], []);
  }

  /** The limit of two bytes ends before the string does. */
  lemma OverrunText()
    ensures ReadEntryField(5, [0x12, 0x02, 0x1a, 0x00], 2, [0x61], []) == Ok(Entry([0x61], [0x1a, 0x00], 4))
  {
    hide ReadVarint, ReadChunk;
    var s: bytes := [0x12, 0x02, 0x1a, 0x00];
    TagByte(2, [0x02, 0x1a, 0x00]);
    ReadChunkOf(2, 6, [0x1a, 0x00], []);
    assert VarintOf(2) == [0x02];
    assert [0x02] + [0x1a, 0x00] + [] == [0x02, 0x1a, 0x00] && s == [8 * 2 + 2] + [0x02, 0x1a, 0x00];
    assert s[1..] == [0x02, 0x1a, 0x00];
  }

  lemma OverrunEncoding(m: SelectorValue)
    requires m == SelectorValue(map[[0x61] := [0x1a, 0x00]], [], [0x1a, 0x00])
    ensures var order: seq<bytes> := [[0x61]];
            IsOrder(order, m.matchLabels) && |EncodeSelector(m, order)| == 11
  {
    var order: seq<bytes> := [[0x61]];
    assert order[1..] == [] && m.matchLabels[order[0]] == [0x1a, 0x00];
    assert VarintOf(1) == [1] && VarintOf(2) == [2] && VarintOf(7) == [7];
    var e := EncodeEntry([0x61], [0x1a, 0x00]);
    assert |e| == 7;
    assert |ChunkField(1, e)| == 9;
    hide VarintOf, ChunkField, EncodeEntry;
    assert EncodeLabels(order, m.matchLabels) == ChunkField(1, e) + [];
    assert EncodeExpressions(m.matchExpressions) == [];
    assert |EncodeSelector(m, order)| == 11;
  }
}
