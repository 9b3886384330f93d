/** The mutable LabelSelectorRequirement and LabelSelector. */
module LabelSelectorClasses {
  import opened Options
  import opened Varints
  import opened Skipping
  import opened Codecs
  import opened LabelSelectors

  class LabelSelectorRequirement {
    var key: Option<bytes>
    var operator: Option<bytes>
    var values: seq<bytes>
    var unknownFields: bytes

    constructor ()
      ensures Value() == EMPTY_REQUIREMENT
    {
      key, operator, values, unknownFields := None, None, [], [];
    }

    function Value(): RequirementValue
      reads this
    {
      RequirementValue(key, operator, values, unknownFields)
    }

    method SizeVT() returns (n: nat)
      ensures n == |EncodeRequirement(Value())|
    {
      hide ChunkField;
      n := ChunkSize(key);
      n := n + ChunkSize(operator);
      ghost var fixed := n;
      for i := 0 to |values|
        invariant n == fixed + |EncodeValues(values[..i])|
      {
        var l := |values[i]|;
        SovIsLength(l);
        n := n + 1 + l + Sov(l);
        EncodeValuesAppend(values[..i], values[i]);
        assert values[..i] + [values[i]] == values[..i + 1];
      }
      assert values[..|values|] == values;
      n := n + |unknownFields|;
    }

    method MarshalToSizedBufferVT(dAtA: array<byte>, len: nat) returns (n: nat)
      requires |EncodeRequirement(Value())| <= len <= dAtA.Length <= MAX_INT
      modifies dAtA
      ensures n == |EncodeRequirement(Value())|
      ensures Wrote(old(dAtA[..]), dAtA[..], len - n, len, EncodeRequirement(Value()))
    {
      hide Wrote, OptChunk, EncodeValues;
      ghost var before, out := dAtA[..], unknownFields;
      var i := len - |unknownFields|;
      Copy(dAtA, i, unknownFields);
      i := PutValues(dAtA, i, before, len, out);
      out := EncodeValues(values) + out;
      i := PutOptChunk(dAtA, i, 2, operator, before, len, out);
      out := OptChunk(2, operator) + out;
      i := PutOptChunk(dAtA, i, 1, key, before, len, out);
      out := OptChunk(1, key) + out;
      assert out == EncodeRequirement(Value());
      n := len - i;
    }

    /** The values, last one first, in front of what is already written. */
    method PutValues(dAtA: array<byte>, end: nat, ghost before: bytes, ghost n: nat, ghost written: bytes)
      returns (i: nat)
      requires |EncodeValues(values)| <= end <= dAtA.Length <= MAX_INT
      requires Wrote(before, dAtA[..], end, n, written)
      modifies dAtA
      ensures i == end - |EncodeValues(values)|
      ensures Wrote(before, dAtA[..], i, n, EncodeValues(values) + written)
    {
      hide Wrote, OptChunk, ChunkField, EncodeValues;
      i := end;
      ghost var out := written;
      var iNdEx := |values|;
      NoValues(values, written);
      while iNdEx > 0
        invariant 0 <= iNdEx <= |values|
        invariant |EncodeValues(values[iNdEx..])| <= |EncodeValues(values)|
        invariant i == end - |EncodeValues(values[iNdEx..])|
        invariant out == EncodeValues(values[iNdEx..]) + written
        invariant Wrote(before, dAtA[..], i, n, out)
      {
        iNdEx := iNdEx - 1;
        var v := values[iNdEx];
        EncodeValuesFrom(values, iNdEx);
        EncodeValuesSuffix(values, iNdEx);
        ChunkIsOptChunk(3, v);
        i := PutOptChunk(dAtA, i, 3, Some(v), before, n, out);
        Associate(ChunkField(3, v), EncodeValues(values[iNdEx + 1..]), written);
        out := ChunkField(3, v) + out;
      }
      assert values[0..] == values;
    }

    method MarshalVT() returns (dAtA: array<byte>)
      requires |EncodeRequirement(Value())| <= MAX_INT
      ensures fresh(dAtA) && dAtA[..] == EncodeRequirement(Value())
    {
      hide Wrote, EncodeRequirement;
      var size := SizeVT();
      dAtA := new byte[size];
      ghost var before := dAtA[..];
      var n := MarshalToSizedBufferVT(dAtA, size);
      WroteAll(before, dAtA[..], EncodeRequirement(Value()));
    }

    method UnmarshalVT(dAtA: bytes) returns (err: Option<Error>)
      requires |dAtA| <= MAX_INT
      modifies this
      ensures Outcome(Value(), err) == Decode(REQUIREMENT, 0, dAtA, old(Value()))
    {
      hide Decode, DecodeAt, ReadTag, ReadChunk, ReadRaw, ReadNumber, Payload;
      var iNdEx := 0;
      DecodeEnds(REQUIREMENT, dAtA, Value());
      while iNdEx < |dAtA|
        invariant iNdEx <= |dAtA|
        invariant DecodeAt(REQUIREMENT, dAtA, iNdEx, Value()) == Decode(REQUIREMENT, 0, dAtA, old(Value()))
      {
        DecodeIteration(REQUIREMENT, dAtA, iNdEx, Value());
        var preIndex := iNdEx;
        var tag := NextTag(dAtA, iNdEx);
        if tag.Err? {
          return Some(tag.error);
        }
        var Tag(fieldNum, wireType, k) := tag.value;
        iNdEx := iNdEx + k;
        match fieldNum {
          case 1 =>
            var slice := NextPayload(dAtA, iNdEx, wireType, fieldNum);
            if slice.Err? {
              return Some(slice.error);
            }
            key, iNdEx := Some(slice.value.0), slice.value.1;
          case 2 =>
            var slice := NextPayload(dAtA, iNdEx, wireType, fieldNum);
            if slice.Err? {
              return Some(slice.error);
            }
            operator, iNdEx := Some(slice.value.0), slice.value.1;
          case 3 =>
            var slice := NextPayload(dAtA, iNdEx, wireType, fieldNum);
            if slice.Err? {
              return Some(slice.error);
            }
            values, iNdEx := values + [slice.value.0], slice.value.1;
          case _ =>
            iNdEx := preIndex;
            var skippy := NextUnknown(dAtA, iNdEx);
            if skippy.Err? {
              return Some(skippy.error);
            }
            unknownFields := unknownFields + dAtA[iNdEx..iNdEx + skippy.value];
            iNdEx := iNdEx + skippy.value;
        }
      }
      DecodeEnds(REQUIREMENT, dAtA, Value());
      return None;
    }
  }

  lemma NoValues(values: seq<bytes>, written: bytes)
    ensures EncodeValues(values[|values|..]) == [] && [] + written == written
  {
  }

  lemma Associate(a: bytes, b: bytes, c: bytes)
    ensures a + (b + c) == a + b + c
  {
  }

  // ----- LabelSelector -----

  function ElementValue(e: LabelSelectorRequirement?): Option<RequirementValue>
    reads e
  {
    if e == null then None else Some(e.Value())
  }

  function ElementValues(es: seq<LabelSelectorRequirement?>): (r: seq<Option<RequirementValue>>)
    reads es
    ensures |r| == |es| && forall i | 0 <= i < |es| :: r[i] == ElementValue(es[i])
  {
    if es == [] then [] else [ElementValue(es[0])] + ElementValues(es[1..])
  }

  /** The entry loop of the decoder. */
  method UnmarshalEntry(dAtA: bytes, start: nat, postIndex: nat) returns (r: Result<(bytes, bytes)>)
    requires start <= postIndex <= |dAtA| <= MAX_INT
    ensures r == ReadEntry(start, dAtA[start..], postIndex - start, [], [])
  {
    hide ReadEntryField;
    var iNdEx := start;
    var mapkey: bytes, mapvalue: bytes := [], [];
    while iNdEx < postIndex
      invariant start <= iNdEx <= |dAtA|
      invariant ReadEntry(start, dAtA[start..], postIndex - start, [], []) ==
                ReadEntry(iNdEx, dAtA[iNdEx..], postIndex - iNdEx, mapkey, mapvalue)
      decreases |dAtA| - iNdEx
    {
      var entry := NextEntryField(dAtA, iNdEx, postIndex, mapkey, mapvalue);
      if entry.Err? {
        return Err(entry.error);
      }
      var Entry(k, v, n) := entry.value;
      assert dAtA[iNdEx..][n..] == dAtA[iNdEx + n..];
      mapkey, mapvalue, iNdEx := k, v, iNdEx + n;
    }
    return Ok((mapkey, mapvalue));
  }

  method NextEntryField(dAtA: bytes, entryPreIndex: nat, postIndex: nat, mapkey: bytes, mapvalue: bytes)
    returns (r: Result<Entry>)
    requires entryPreIndex < postIndex <= |dAtA| <= MAX_INT
    ensures r == ReadEntryField(entryPreIndex, dAtA[entryPreIndex..], postIndex - entryPreIndex, mapkey, mapvalue)
  {
    hide ReadVarint, SkipRecord, FieldNumber, ReadChunk;
    var wire := ReadUint64(dAtA, entryPreIndex);
    if wire.Err? {
      return Err(wire.error);
    }
    var fieldNum := FieldNumber(wire.value.value);
    var iNdEx := entryPreIndex + wire.value.size;
    assert dAtA[entryPreIndex..][wire.value.size..] == dAtA[iNdEx..];
    if fieldNum == 1 || fieldNum == 2 {
      var slice := NextPayload(dAtA, iNdEx, 2, fieldNum);
      if slice.Err? {
        return Err(slice.error);
      }
      var (text, end) := slice.value;
      if fieldNum == 1 {
        return Ok(Entry(text, mapvalue, end - entryPreIndex));
      } else {
        return Ok(Entry(mapkey, text, end - entryPreIndex));
      }
    } else {
      var skippy := Skip(dAtA[entryPreIndex..]);
      if skippy.Err? {
        return Err(skippy.error);
      }
      SkipIsInt(dAtA[entryPreIndex..]);
      var end := AddInt(entryPreIndex, skippy.value);
      if end < 0 {
        return Err(InvalidLength);
      }
      if end > postIndex {
        return Err(UnexpectedEOF);
      }
      return Ok(Entry(mapkey, mapvalue, skippy.value));
    }
  }

  /** A map field: its wire type check, its slice, and the key and value decoded from it. */
  method NextEntry(dAtA: bytes, iNdEx: nat, wireType: nat, ghost field: int)
    returns (r: Result<(bytes, bytes, nat)>)
    requires iNdEx <= |dAtA| <= MAX_INT
    ensures r.Ok? ==> r.value.2 <= |dAtA|
    ensures if wireType != 2 then r == Err(WrongWireType) else
            match ReadChunk(field, iNdEx, dAtA[iNdEx..])
            case Err(e) => r == Err(e)
            case Ok(Sized(record, n)) =>
              && IsChunk(record) && record.field == field
              && match ReadEntry(record.base, record.rest, record.len, [], [])
                 case Err(e) => r == Err(e)
                 case Ok((k, v)) => r == Ok((k, v, iNdEx + n))
  {
    hide ReadChunk, ReadEntry;
    if wireType != 2 {
      return Err(WrongWireType);
    }
    var slice := NextSlice(dAtA, iNdEx, field);
    if slice.Err? {
      return Err(slice.error);
    }
    var (start, postIndex) := slice.value;
    var entry := UnmarshalEntry(dAtA, start, postIndex);
    if entry.Err? {
      return Err(entry.error);
    }
    return Ok((entry.value.0, entry.value.1, postIndex));
  }

  class LabelSelector {
    var matchLabels: map<bytes, bytes>
    var matchExpressions: seq<LabelSelectorRequirement?>
    var unknownFields: bytes

    constructor ()
      ensures Value() == EMPTY_SELECTOR && matchExpressions == []
    {
      matchLabels, matchExpressions, unknownFields := map[], [], [];
    }

    function Value(): SelectorValue
      reads this, matchExpressions
    {
      SelectorValue(matchLabels, ElementValues(matchExpressions), unknownFields)
    }

    /** Go iterates over the map in an order of its own here, not the one of the writer. */
    method SizeVT() returns (n: nat)
      ensures HasSize(Value(), n)
    {
      var labels := LabelsSize();
      var exprs := ExpressionsSize();
      n := labels + exprs + |unknownFields|;
    }

    method LabelsSize() returns (n: nat)
      ensures forall order | IsOrder(order, matchLabels) :: |EncodeLabels(order, matchLabels)| == n
    {
      hide ChunkField, EncodeLabels;
      n := 0;
      var todo := matchLabels.Keys;
      ghost var order: seq<bytes> := [];
      LabelsStart(matchLabels);
      while todo != {}
        invariant todo <= matchLabels.Keys
        invariant forall k :: k in order <==> k in matchLabels && k !in todo
        invariant forall i, j | 0 <= i < j < |order| :: order[i] != order[j]
        invariant n == |EncodeLabels(order, matchLabels)|
        decreases todo
      {
        var k :| k in todo;
        var v := matchLabels[k];
        SovIsLength(|k|);
        SovIsLength(|v|);
        var mapEntrySize := 1 + |k| + Sov(|k|) + 1 + |v| + Sov(|v|);
        SovIsLength(mapEntrySize);
        n := n + mapEntrySize + 1 + Sov(mapEntrySize);
        LabelsCons(k, order, matchLabels);
        order := [k] + order;
        todo := todo - {k};
      }
      forall o | IsOrder(o, matchLabels)
        ensures |EncodeLabels(o, matchLabels)| == n
      {
        LabelsSizeUnique(o, order, matchLabels);
      }
    }

    method ExpressionsSize() returns (n: nat)
      ensures n == |EncodeExpressions(ElementValues(matchExpressions))|
    {
      hide ChunkField, EncodeElement;
      n := 0;
      ghost var es := ElementValues(matchExpressions);
      for i := 0 to |matchExpressions|
        invariant n == |EncodeExpressions(es[..i])|
      {
        var l := ElementSize(matchExpressions[i]);
        SovIsLength(l);
        n := n + 1 + l + Sov(l);
        EncodeExpressionsAppend(es[..i], es[i]);
        assert es[..i] + [es[i]] == es[..i + 1];
      }
      assert es[..|es|] == es;
    }

    /** SizeVT of an element; a nil receiver has size 0. */
    static method ElementSize(e: LabelSelectorRequirement?) returns (l: nat)
      ensures l == |EncodeElement(ElementValue(e))|
    {
      l := 0;
      if e != null {
        l := e.SizeVT();
      }
    }

    method MarshalToSizedBufferVT(dAtA: array<byte>, len: nat) returns (n: nat, ghost order: seq<bytes>)
      requires Fits(Value(), len)
      requires len <= dAtA.Length <= MAX_INT
      modifies dAtA
      ensures HasSize(Value(), n)
      ensures IsOrder(order, matchLabels)
      ensures Wrote(old(dAtA[..]), dAtA[..], len - n, len, EncodeSelector(Value(), order))
    {
      hide Wrote, EncodeLabels, EncodeExpressions;
      ghost var before, out := dAtA[..], unknownFields;
      ghost var exprs := EncodeExpressions(ElementValues(matchExpressions));
      order := SomeOrder(matchLabels);
      ghost var total := |EncodeSelector(Value(), order)|;
      SameSize(Value(), order);
      var i := len - |unknownFields|;
      Copy(dAtA, i, unknownFields);
      i := PutExpressions(dAtA, i, before, len, out);
      out := exprs + out;
      ghost var used;
      i, used := PutLabels(dAtA, i, before, len, out);
      LabelsSizeUnique(order, used, matchLabels);
      order := used;
      out := EncodeLabels(order, matchLabels) + out;
      assert out == EncodeSelector(Value(), order);
      n := len - i;
    }

    method PutExpressions(dAtA: array<byte>, end: nat, ghost before: bytes, ghost n: nat, ghost written: bytes)
      returns (i: nat)
      requires |EncodeExpressions(ElementValues(matchExpressions))| <= end <= dAtA.Length <= MAX_INT
      requires Wrote(before, dAtA[..], end, n, written)
      modifies dAtA
      ensures i == end - |EncodeExpressions(ElementValues(matchExpressions))|
      ensures Wrote(before, dAtA[..], i, n, EncodeExpressions(ElementValues(matchExpressions)) + written)
    {
      hide Wrote, OptChunk, ChunkField, EncodeExpressions, EncodeElement;
      i := end;
      ghost var out := written;
      ghost var es := ElementValues(matchExpressions);
      var iNdEx := |matchExpressions|;
      NoExpressions(es, written);
      while iNdEx > 0
        invariant 0 <= iNdEx <= |matchExpressions|
        invariant |EncodeExpressions(es[iNdEx..])| <= |EncodeExpressions(es)|
        invariant i == end - |EncodeExpressions(es[iNdEx..])|
        invariant out == EncodeExpressions(es[iNdEx..]) + written
        invariant Wrote(before, dAtA[..], i, n, out)
      {
        iNdEx := iNdEx - 1;
        EncodeExpressionsFrom(es, iNdEx);
        EncodeExpressionsSuffix(es, iNdEx);
        i := PutElement(dAtA, i, matchExpressions[iNdEx], before, n, out);
        Associate(ChunkField(2, EncodeElement(es[iNdEx])), EncodeExpressions(es[iNdEx + 1..]), written);
        out := ChunkField(2, EncodeElement(es[iNdEx])) + out;
      }
      assert es[0..] == es;
    }

    /** One element; a nil receiver writes nothing, so that only its prefix appears. */
    static method PutElement(dAtA: array<byte>, end: nat, e: LabelSelectorRequirement?,
                             ghost before: bytes, ghost n: nat, ghost written: bytes) returns (i: nat)
      requires |ChunkField(2, EncodeElement(ElementValue(e)))| <= end <= dAtA.Length <= MAX_INT
      requires Wrote(before, dAtA[..], end, n, written)
      modifies dAtA
      ensures i == end - |ChunkField(2, EncodeElement(ElementValue(e)))|
      ensures Wrote(before, dAtA[..], i, n, ChunkField(2, EncodeElement(ElementValue(e))) + written)
    {
      hide EncodeRequirement, VarintOf;
      ghost var start, payload := dAtA[..], EncodeElement(ElementValue(e));
      var size := 0;
      if e != null {
        size := e.MarshalToSizedBufferVT(dAtA, end);
      } else {
        WroteNothing(dAtA[..], end);
      }
      i := end - size;
      ghost var mid, k := dAtA[..], i;
      i := PutPrefix(dAtA, i, 2, size);
      WroteThen(start, mid, dAtA[..], i, k, end, [18] + VarintOf(size), payload);
      WroteThen(before, start, dAtA[..], i, end, n, ChunkField(2, payload), written);
    }

    /** The map entries, in the order in which Go's range happens to yield the keys. */
    method PutLabels(dAtA: array<byte>, end: nat, ghost before: bytes, ghost n: nat, ghost written: bytes)
      returns (i: nat, ghost order: seq<bytes>)
      requires forall o | IsOrder(o, matchLabels) :: |EncodeLabels(o, matchLabels)| <= end
      requires end <= dAtA.Length <= MAX_INT
      requires Wrote(before, dAtA[..], end, n, written)
      modifies dAtA
      ensures IsOrder(order, matchLabels)
      ensures i == end - |EncodeLabels(order, matchLabels)|
      ensures Wrote(before, dAtA[..], i, n, EncodeLabels(order, matchLabels) + written)
    {
      hide Wrote, OptChunk, ChunkField, EncodeLabels;
      i := end;
      order := [];
      ghost var out := written;
      var todo := matchLabels.Keys;
      LabelsStart(matchLabels);
      assert [] + written == written;
      while todo != {}
        invariant todo <= matchLabels.Keys
        invariant forall k :: k in order <==> k in matchLabels && k !in todo
        invariant forall a, b | 0 <= a < b < |order| :: order[a] != order[b]
        invariant |EncodeLabels(order, matchLabels)| <= end
        invariant i == end - |EncodeLabels(order, matchLabels)|
        invariant out == EncodeLabels(order, matchLabels) + written
        invariant Wrote(before, dAtA[..], i, n, out)
        decreases todo
      {
        var k :| k in todo;
        LabelsCons(k, order, matchLabels);
        LabelsFit(k, order, todo, matchLabels, end);
        i := PutEntry(dAtA, i, k, matchLabels[k], before, n, out);
        Associate(ChunkField(1, EncodeEntry(k, matchLabels[k])), EncodeLabels(order, matchLabels), written);
        out := ChunkField(1, EncodeEntry(k, matchLabels[k])) + out;
        order := [k] + order;
        todo := todo - {k};
      }
    }

    static method PutEntry(dAtA: array<byte>, end: nat, k: bytes, v: bytes,
                           ghost before: bytes, ghost n: nat, ghost written: bytes) returns (i: nat)
      requires |ChunkField(1, EncodeEntry(k, v))| <= end <= dAtA.Length <= MAX_INT
      requires Wrote(before, dAtA[..], end, n, written)
      modifies dAtA
      ensures i == end - |ChunkField(1, EncodeEntry(k, v))|
      ensures Wrote(before, dAtA[..], i, n, ChunkField(1, EncodeEntry(k, v)) + written)
    {
      hide VarintOf;
      ghost var start := dAtA[..];
      var baseI := end;
      WroteNothing(start, end);
      ChunkIsOptChunk(2, v);
      ChunkIsOptChunk(1, k);
      i := PutOptChunk(dAtA, end, 2, Some(v), start, end, []);
      i := PutOptChunk(dAtA, i, 1, Some(k), start, end, ChunkField(2, v) + []);
      assert ChunkField(1, k) + (ChunkField(2, v) + []) == EncodeEntry(k, v);
      ghost var mid, j := dAtA[..], i;
      i := PutPrefix(dAtA, i, 1, baseI - i);
      WroteThen(start, mid, dAtA[..], i, j, end, [10] + VarintOf(|EncodeEntry(k, v)|), EncodeEntry(k, v));
      WroteThen(before, start, dAtA[..], i, end, n, ChunkField(1, EncodeEntry(k, v)), written);
    }

    method MarshalVT() returns (dAtA: array<byte>, ghost order: seq<bytes>)
      requires Fits(Value(), MAX_INT)
      ensures IsOrder(order, matchLabels)
      ensures fresh(dAtA) && dAtA[..] == EncodeSelector(Value(), order)
    {
      hide Wrote, EncodeLabels, EncodeExpressions;
      var size := SizeVT();
      var any := SomeOrder(matchLabels);
      assert size == |EncodeSelector(Value(), any)|;
      dAtA := new byte[size];
      ghost var before := dAtA[..];
      var n;
      n, order := MarshalToSizedBufferVT(dAtA, size);
      WroteAll(before, dAtA[..], EncodeSelector(Value(), order));
    }

    /** One iteration of the loop of UnmarshalVT: the record at preIndex, and where the next one is. */
    method UnmarshalRecord(dAtA: bytes, preIndex: nat) returns (err: Option<Error>, next: nat)
      requires preIndex < |dAtA| <= MAX_INT
      modifies this
      ensures preIndex < next <= |dAtA| || err.Some?
      ensures DecodeAt(SELECTOR, dAtA, preIndex, old(Value())) ==
              if err.Some? then Outcome(Value(), err) else DecodeAt(SELECTOR, dAtA, next, Value())
      ensures old(matchExpressions) <= matchExpressions
      ensures forall i | |old(matchExpressions)| <= i < |matchExpressions| :: fresh(matchExpressions[i])
    {
      hide Decode, DecodeAt, ReadTag, ReadChunk, ReadRaw, ReadNumber, Payload, ReadEntry, ElementValues;
      DecodeIteration(SELECTOR, dAtA, preIndex, Value());
      var iNdEx := preIndex;
      var tag := NextTag(dAtA, iNdEx);
      if tag.Err? {
        return Some(tag.error), iNdEx;
      }
      var Tag(fieldNum, wireType, k) := tag.value;
      iNdEx := iNdEx + k;
      match fieldNum {
        case 1 =>
          var entry := NextEntry(dAtA, iNdEx, wireType, fieldNum);
          if entry.Err? {
            return Some(entry.error), iNdEx;
          }
          var (mapkey, mapvalue, postIndex) := entry.value;
          matchLabels, iNdEx := matchLabels[mapkey := mapvalue], postIndex;
        case 2 =>
          var slice := NextPayload(dAtA, iNdEx, wireType, fieldNum);
          if slice.Err? {
            return Some(slice.error), iNdEx;
          }
          var nested := AppendExpression(slice.value.0);
          if nested.Some? {
            return nested, iNdEx;
          }
          iNdEx := slice.value.1;
        case _ =>
          iNdEx := preIndex;
          var skippy := NextUnknown(dAtA, iNdEx);
          if skippy.Err? {
            return Some(skippy.error), iNdEx;
          }
          unknownFields := unknownFields + dAtA[iNdEx..iNdEx + skippy.value];
          iNdEx := iNdEx + skippy.value;
      }
      return None, iNdEx;
    }

    /** Elements that were there before are kept and not touched; decoded ones are new objects. */
    method UnmarshalVT(dAtA: bytes) returns (err: Option<Error>)
      requires |dAtA| <= MAX_INT
      modifies this
      ensures Outcome(Value(), err) == Decode(SELECTOR, 0, dAtA, old(Value()))
      ensures old(matchExpressions) <= matchExpressions
      ensures forall i | |old(matchExpressions)| <= i < |matchExpressions| :: fresh(matchExpressions[i])
    {
      hide Decode, DecodeAt, ReadTag, ReadChunk, ReadRaw, ReadNumber, Payload, ReadEntry, ElementValues;
      var iNdEx := 0;
      DecodeEnds(SELECTOR, dAtA, Value());
      while iNdEx < |dAtA|
        invariant iNdEx <= |dAtA|
        invariant old(matchExpressions) <= matchExpressions
        invariant forall i | |old(matchExpressions)| <= i < |matchExpressions| :: fresh(matchExpressions[i])
        invariant DecodeAt(SELECTOR, dAtA, iNdEx, Value()) == Decode(SELECTOR, 0, dAtA, old(Value()))
      {
        var e, next := UnmarshalRecord(dAtA, iNdEx);
        if e.Some? {
          return e;
        }
        iNdEx := next;
      }
      DecodeEnds(SELECTOR, dAtA, Value());
      return None;
    }

    method AppendExpression(payload: bytes) returns (err: Option<Error>)
      requires |payload| <= MAX_INT
      modifies this`matchExpressions
      ensures var o := Decode(REQUIREMENT, 0, payload, EMPTY_REQUIREMENT);
              err == o.err &&
              Value() == old(Value()).(matchExpressions := old(Value()).matchExpressions + [Some(o.msg)])
      ensures |matchExpressions| == |old(matchExpressions)| + 1 && old(matchExpressions) <= matchExpressions
      ensures fresh(matchExpressions[|old(matchExpressions)|])
    {
      hide Decode;
      ghost var es := matchExpressions;
      var e := new LabelSelectorRequirement();
      matchExpressions := matchExpressions + [e];
      err := e.UnmarshalVT(payload);
      assert ElementValues(es) == old(ElementValues(matchExpressions));
      assert ElementValues(matchExpressions) == ElementValues(es) + [ElementValue(e)];
    }
  }

  lemma NoExpressions(es: seq<Option<RequirementValue>>, written: bytes)
    ensures EncodeExpressions(es[|es|..]) == [] && [] + written == written
  {
  }

  /** Every map can be enumerated. */
  lemma {:induction false} SomeOrder(labels: map<bytes, bytes>) returns (order: seq<bytes>)
    ensures IsOrder(order, labels)
    decreases labels.Keys
  {
    if labels == map[] {
      order := [];
    } else {
      var k :| k in labels;
      var rest := SomeOrder(labels - {k});
      order := [k] + rest;
    }
  }

  lemma SameSize(m: SelectorValue, order: seq<bytes>)
    requires IsOrder(order, m.matchLabels)
    ensures HasSize(m, |EncodeSelector(m, order)|)
  {
    hide EncodeLabels, EncodeExpressions;
    forall o | IsOrder(o, m.matchLabels)
      ensures |EncodeSelector(m, o)| == |EncodeSelector(m, order)|
    {
      LabelsSizeUnique(o, order, m.matchLabels);
    }
  }

  /** The entries written so far and the next one are part of a complete enumeration. */
  lemma LabelsFit(k: bytes, order: seq<bytes>, todo: set<bytes>, labels: map<bytes, bytes>, n: nat)
    requires k in todo && todo <= labels.Keys
    requires forall x :: x in order <==> x in labels && x !in todo
    requires forall a, b | 0 <= a < b < |order| :: order[a] != order[b]
    requires forall o | IsOrder(o, labels) :: |EncodeLabels(o, labels)| <= n
    ensures |EncodeLabels([k] + order, labels)| <= n
  {
    hide EncodeLabels;
    var rest := SomeOrder(map x | x in todo - {k} :: labels[x]);
    var o := rest + ([k] + order);
    forall i, j | 0 <= i < j < |o|
      ensures o[i] != o[j]
    {
      if i < |rest| { assert rest[i] in rest; }
      if j > |rest| { assert order[j - |rest| - 1] in order; }
    }
    assert IsOrder(o, labels);
    LabelsSuffix(rest, [k] + order, labels);
  }

  lemma {:induction false} LabelsSuffix(a: seq<bytes>, b: seq<bytes>, labels: map<bytes, bytes>)
    requires forall x | x in a + b :: x in labels
    ensures |EncodeLabels(b, labels)| <= |EncodeLabels(a + b, labels)|
  {
    hide ChunkField, EncodeEntry;
    if a == [] {
      assert a + b == b;
    } else {
      assert (a + b)[1..] == a[1..] + b;
      assert forall x | x in a[1..] + b :: x in a + b;
      LabelsSuffix(a[1..], b, labels);
    }
  }

  lemma LabelsStart(labels: map<bytes, bytes>)
    ensures EncodeLabels([], labels) == []
  {
  }

  lemma LabelsCons(k: bytes, order: seq<bytes>, labels: map<bytes, bytes>)
    requires k in labels && forall x | x in order :: x in labels
    ensures EncodeLabels([k] + order, labels) == ChunkField(1, EncodeEntry(k, labels[k])) + EncodeLabels(order, labels)
  {
    hide ChunkField, EncodeEntry;
    assert ([k] + order)[1..] == order;
  }
}
