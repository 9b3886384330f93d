/** The mutable runtime messages and their methods, proved against the value-level codec. */
module RuntimeClasses {
  import opened Options
  import opened Varints
  import opened Codecs
  import opened RuntimeMessages

  class RawExtension {
    var raw: Option<bytes>
    var unknownFields: bytes

    constructor ()
      ensures Value() == EMPTY_RAW_EXTENSION
    {
      raw, unknownFields := None, [];
    }

    function Value(): RawExtensionValue
      reads this
    {
      RawExtensionValue(raw, unknownFields)
    }

    method SizeVT() returns (n: nat)
      ensures n == |EncodeRawExtension(Value())|
    {
      n := ChunkSize(raw);
      n := n + |unknownFields|;
    }

    method MarshalToSizedBufferVT(dAtA: array<byte>, len: nat) returns (n: nat)
      requires |EncodeRawExtension(Value())| <= len <= dAtA.Length <= MAX_INT
      modifies dAtA
      ensures n == |EncodeRawExtension(Value())|
      ensures Wrote(old(dAtA[..]), dAtA[..], len - n, len, EncodeRawExtension(Value()))
    {
      hide Wrote, OptChunk;
      ghost var before, out := dAtA[..], unknownFields;
      var i := len - |unknownFields|;
      Copy(dAtA, i, unknownFields);
      i := PutOptChunk(dAtA, i, 1, raw, before, len, out);
      out := OptChunk(1, raw) + out;
      assert out == EncodeRawExtension(Value());
      n := len - i;
    }

    method MarshalVT() returns (dAtA: array<byte>)
      requires |EncodeRawExtension(Value())| <= MAX_INT
      ensures fresh(dAtA) && dAtA[..] == EncodeRawExtension(Value())
    {
      hide Wrote, EncodeRawExtension, EncodeTypeMeta, EncodeUnknown;
      var size := SizeVT();
      dAtA := new byte[size];
      ghost var before := dAtA[..];
      var n := MarshalToSizedBufferVT(dAtA, size);
      WroteAll(before, dAtA[..], EncodeRawExtension(Value()));
    }

    method UnmarshalVT(dAtA: bytes) returns (err: Option<Error>)
      requires |dAtA| <= MAX_INT
      modifies this
      ensures Outcome(Value(), err) == Decode(RAW_EXTENSION, 0, dAtA, old(Value()))
    {
      hide Decode, DecodeAt, ReadTag, ReadChunk, ReadRaw, ReadNumber, Payload;
      var iNdEx := 0;
      DecodeEnds(RAW_EXTENSION, dAtA, Value());
      while iNdEx < |dAtA|
        invariant iNdEx <= |dAtA|
        invariant DecodeAt(RAW_EXTENSION, dAtA, iNdEx, Value()) == Decode(RAW_EXTENSION, 0, dAtA, old(Value()))
      {
        DecodeIteration(RAW_EXTENSION, dAtA, iNdEx, Value());
        var preIndex := iNdEx;
        var tag := NextTag(dAtA, iNdEx);
        if tag.Err? {
          return Some(tag.error);
        }
        var Tag(fieldNum, wireType, k) := tag.value;
        iNdEx := iNdEx + k;
        match fieldNum {
          case 1 =>
            var slice := NextPayload(dAtA, iNdEx, wireType, fieldNum);
            if slice.Err? {
              return Some(slice.error);
            }
            raw, iNdEx := Some(slice.value.0), slice.value.1;
          case _ =>
            iNdEx := preIndex;
            var skippy := NextUnknown(dAtA, iNdEx);
            if skippy.Err? {
              return Some(skippy.error);
            }
            unknownFields := unknownFields + dAtA[iNdEx..iNdEx + skippy.value];
            iNdEx := iNdEx + skippy.value;
        }
      }
      DecodeEnds(RAW_EXTENSION, dAtA, Value());
      return None;
    }
  }

  class TypeMeta {
    var apiVersion: Option<bytes>
    var kind: Option<bytes>
    var unknownFields: bytes

    constructor ()
      ensures Value() == EMPTY_TYPE_META
    {
      apiVersion, kind, unknownFields := None, None, [];
    }

    function Value(): TypeMetaValue
      reads this
    {
      TypeMetaValue(apiVersion, kind, unknownFields)
    }

    method SizeVT() returns (n: nat)
      ensures n == |EncodeTypeMeta(Value())|
    {
      n := ChunkSize(apiVersion);
      n := n + ChunkSize(kind);
      n := n + |unknownFields|;
    }

    method MarshalToSizedBufferVT(dAtA: array<byte>, len: nat) returns (n: nat)
      requires |EncodeTypeMeta(Value())| <= len <= dAtA.Length <= MAX_INT
      modifies dAtA
      ensures n == |EncodeTypeMeta(Value())|
      ensures Wrote(old(dAtA[..]), dAtA[..], len - n, len, EncodeTypeMeta(Value()))
    {
      hide Wrote, OptChunk;
      ghost var before, out := dAtA[..], unknownFields;
      var i := len - |unknownFields|;
      Copy(dAtA, i, unknownFields);
      i := PutOptChunk(dAtA, i, 2, kind, before, len, out);
      out := OptChunk(2, kind) + out;
      i := PutOptChunk(dAtA, i, 1, apiVersion, before, len, out);
      out := OptChunk(1, apiVersion) + out;
      assert out == EncodeTypeMeta(Value());
      n := len - i;
    }

    method MarshalVT() returns (dAtA: array<byte>)
      requires |EncodeTypeMeta(Value())| <= MAX_INT
      ensures fresh(dAtA) && dAtA[..] == EncodeTypeMeta(Value())
    {
      hide Wrote, EncodeRawExtension, EncodeTypeMeta, EncodeUnknown;
      var size := SizeVT();
      dAtA := new byte[size];
      ghost var before := dAtA[..];
      var n := MarshalToSizedBufferVT(dAtA, size);
      WroteAll(before, dAtA[..], EncodeTypeMeta(Value()));
    }

    method UnmarshalVT(dAtA: bytes) returns (err: Option<Error>)
      requires |dAtA| <= MAX_INT
      modifies this
      ensures Outcome(Value(), err) == Decode(TYPE_META, 0, dAtA, old(Value()))
    {
      hide Decode, DecodeAt, ReadTag, ReadChunk, ReadRaw, ReadNumber, Payload;
      var iNdEx := 0;
      DecodeEnds(TYPE_META, dAtA, Value());
      while iNdEx < |dAtA|
        invariant iNdEx <= |dAtA|
        invariant DecodeAt(TYPE_META, dAtA, iNdEx, Value()) == Decode(TYPE_META, 0, dAtA, old(Value()))
      {
        DecodeIteration(TYPE_META, dAtA, iNdEx, Value());
        var preIndex := iNdEx;
        var tag := NextTag(dAtA, iNdEx);
        if tag.Err? {
          return Some(tag.error);
        }
        var Tag(fieldNum, wireType, k) := tag.value;
        iNdEx := iNdEx + k;
        match fieldNum {
          case 1 =>
            var slice := NextPayload(dAtA, iNdEx, wireType, fieldNum);
            if slice.Err? {
              return Some(slice.error);
            }
            apiVersion, iNdEx := Some(slice.value.0), slice.value.1;
          case 2 =>
            var slice := NextPayload(dAtA, iNdEx, wireType, fieldNum);
            if slice.Err? {
              return Some(slice.error);
            }
            kind, iNdEx := Some(slice.value.0), slice.value.1;
          case _ =>
            iNdEx := preIndex;
            var skippy := NextUnknown(dAtA, iNdEx);
            if skippy.Err? {
              return Some(skippy.error);
            }
            unknownFields := unknownFields + dAtA[iNdEx..iNdEx + skippy.value];
            iNdEx := iNdEx + skippy.value;
        }
      }
      DecodeEnds(TYPE_META, dAtA, Value());
      return None;
    }
  }

  class Unknown {
    var typeMeta: TypeMeta?
    var raw: Option<bytes>
    var contentEncoding: Option<bytes>
    var contentType: Option<bytes>
    var unknownFields: bytes

    constructor ()
      ensures Value() == EMPTY_UNKNOWN && typeMeta == null
    {
      typeMeta, raw, contentEncoding, contentType, unknownFields := null, None, None, None, [];
    }

    function Value(): UnknownValue
      reads this, typeMeta
    {
      UnknownValue(if typeMeta == null then None else Some(typeMeta.Value()),
                   raw, contentEncoding, contentType, unknownFields)
    }

    method SizeVT() returns (n: nat)
      ensures n == |EncodeUnknown(Value())|
    {
      n := 0;
      if typeMeta != null {
        var l := typeMeta.SizeVT();
        SovIsLength(l);
        n := n + 1 + l + Sov(l);
      }
      n := n + ChunkSize(raw);
      n := n + ChunkSize(contentEncoding);
      n := n + ChunkSize(contentType);
      n := n + |unknownFields|;
    }

    method MarshalToSizedBufferVT(dAtA: array<byte>, len: nat) returns (n: nat)
      requires |EncodeUnknown(Value())| <= len <= dAtA.Length <= MAX_INT
      modifies dAtA
      ensures n == |EncodeUnknown(Value())|
      ensures Wrote(old(dAtA[..]), dAtA[..], len - n, len, EncodeUnknown(Value()))
    {
      hide Wrote, OptChunk, EncodeTypeMeta;
      ghost var before, out := dAtA[..], unknownFields;
      var i := len - |unknownFields|;
      Copy(dAtA, i, unknownFields);
      i := PutOptChunk(dAtA, i, 4, contentType, before, len, out);
      out := OptChunk(4, contentType) + out;
      i := PutOptChunk(dAtA, i, 3, contentEncoding, before, len, out);
      out := OptChunk(3, contentEncoding) + out;
      i := PutOptChunk(dAtA, i, 2, raw, before, len, out);
      out := OptChunk(2, raw) + out;
      i := PutTypeMeta(dAtA, i, before, len, out);
      out := OptChunk(1, EncodedTypeMeta(Value())) + out;
      assert out == EncodeUnknown(Value());
      n := len - i;
    }

    /** The nested message is written at the end of the slice that is still free. */
    method PutTypeMeta(dAtA: array<byte>, end: nat,
                       ghost before: bytes, ghost n: nat, ghost written: bytes) returns (i: nat)
      requires |OptChunk(1, EncodedTypeMeta(Value()))| <= end <= dAtA.Length <= MAX_INT
      requires Wrote(before, dAtA[..], end, n, written)
      modifies dAtA
      ensures i == end - |OptChunk(1, EncodedTypeMeta(Value()))|
      ensures Wrote(before, dAtA[..], i, n, OptChunk(1, EncodedTypeMeta(Value())) + written)
    {
      hide EncodeTypeMeta, VarintOf;
      i := end;
      if typeMeta != null {
        ghost var start, payload := dAtA[..], EncodeTypeMeta(typeMeta.Value());
        var size := typeMeta.MarshalToSizedBufferVT(dAtA, i);
        i := i - size;
        ghost var mid, k := dAtA[..], i;
        i := PutPrefix(dAtA, i, 1, size);
        WroteThen(start, mid, dAtA[..], i, k, end, [10] + VarintOf(size), payload);
        WroteThen(before, start, dAtA[..], i, end, n, ChunkField(1, payload), written);
      } else {
        assert [] + written == written;
      }
    }

    method MarshalVT() returns (dAtA: array<byte>)
      requires |EncodeUnknown(Value())| <= MAX_INT
      ensures fresh(dAtA) && dAtA[..] == EncodeUnknown(Value())
    {
      hide Wrote, EncodeRawExtension, EncodeTypeMeta, EncodeUnknown;
      var size := SizeVT();
      dAtA := new byte[size];
      ghost var before := dAtA[..];
      var n := MarshalToSizedBufferVT(dAtA, size);
      WroteAll(before, dAtA[..], EncodeUnknown(Value()));
    }

    method UnmarshalTypeMeta(payload: bytes) returns (err: Option<Error>)
      requires |payload| <= MAX_INT
      modifies this`typeMeta, typeMeta
      ensures var o := Decode(TYPE_META, 0, payload, TypeMetaOf(old(Value())));
              err == o.err && Value() == old(Value()).(typeMeta := Some(o.msg))
      ensures typeMeta == old(typeMeta) || (old(typeMeta) == null && fresh(typeMeta))
    {
      hide Decode;
      if typeMeta == null {
        typeMeta := new TypeMeta();
      }
      err := typeMeta.UnmarshalVT(payload);
    }

    /** One iteration of the loop of UnmarshalVT: the record at preIndex, and where the next one is. */
    method UnmarshalRecord(dAtA: bytes, preIndex: nat) returns (err: Option<Error>, next: nat)
      requires preIndex < |dAtA| <= MAX_INT
      modifies this, typeMeta
      ensures preIndex < next <= |dAtA| || err.Some?
      ensures DecodeAt(UNKNOWN, dAtA, preIndex, old(Value())) ==
              if err.Some? then Outcome(Value(), err) else DecodeAt(UNKNOWN, dAtA, next, Value())
      ensures typeMeta == old(typeMeta) || (old(typeMeta) == null && fresh(typeMeta))
    {
      hide Decode, DecodeAt, ReadTag, ReadChunk, ReadRaw, ReadNumber, Payload;
      ghost var v := Value();
      DecodeIteration(UNKNOWN, dAtA, preIndex, v);
      var iNdEx := preIndex;
      var tag := NextTag(dAtA, iNdEx);
      if tag.Err? {
        return Some(tag.error), iNdEx;
      }
      var Tag(fieldNum, wireType, k) := tag.value;
      iNdEx := iNdEx + k;
      match fieldNum {
        case 1 =>
          var slice := NextPayload(dAtA, iNdEx, wireType, fieldNum);
          if slice.Err? {
            return Some(slice.error), iNdEx;
          }
          var nested := UnmarshalTypeMeta(slice.value.0);
          if nested.Some? {
            return nested, iNdEx;
          }
          iNdEx := slice.value.1;
        case 2 =>
          var slice := NextPayload(dAtA, iNdEx, wireType, fieldNum);
          if slice.Err? {
            return Some(slice.error), iNdEx;
          }
          raw, iNdEx := Some(slice.value.0), slice.value.1;
          assert Value() == v.(raw := raw);
        case 3 =>
          var slice := NextPayload(dAtA, iNdEx, wireType, fieldNum);
          if slice.Err? {
            return Some(slice.error), iNdEx;
          }
          contentEncoding, iNdEx := Some(slice.value.0), slice.value.1;
          assert Value() == v.(contentEncoding := contentEncoding);
        case 4 =>
          var slice := NextPayload(dAtA, iNdEx, wireType, fieldNum);
          if slice.Err? {
            return Some(slice.error), iNdEx;
          }
          contentType, iNdEx := Some(slice.value.0), slice.value.1;
          assert Value() == v.(contentType := contentType);
        case _ =>
          iNdEx := preIndex;
          var skippy := NextUnknown(dAtA, iNdEx);
          if skippy.Err? {
            return Some(skippy.error), iNdEx;
          }
          unknownFields := unknownFields + dAtA[iNdEx..iNdEx + skippy.value];
          assert Value() == v.(unknownFields := unknownFields);
          iNdEx := iNdEx + skippy.value;
      }
      return None, iNdEx;
    }

    /** A TypeMeta that is there already is updated in place; it is never replaced. */
    method UnmarshalVT(dAtA: bytes) returns (err: Option<Error>)
      requires |dAtA| <= MAX_INT
      modifies this, typeMeta
      ensures Outcome(Value(), err) == Decode(UNKNOWN, 0, dAtA, old(Value()))
      ensures typeMeta == old(typeMeta) || (old(typeMeta) == null && fresh(typeMeta))
    {
      hide Decode, DecodeAt, ReadTag, ReadChunk, ReadRaw, ReadNumber, Payload;
      var iNdEx := 0;
      DecodeEnds(UNKNOWN, dAtA, Value());
      while iNdEx < |dAtA|
        invariant iNdEx <= |dAtA|
        invariant typeMeta == old(typeMeta) || (old(typeMeta) == null && fresh(typeMeta))
        invariant DecodeAt(UNKNOWN, dAtA, iNdEx, Value()) == Decode(UNKNOWN, 0, dAtA, old(Value()))
      {
        var e, next := UnmarshalRecord(dAtA, iNdEx);
        if e.Some? {
          return e;
        }
        iNdEx := next;
      }
      DecodeEnds(UNKNOWN, dAtA, Value());
      return None;
    }
  }
}
