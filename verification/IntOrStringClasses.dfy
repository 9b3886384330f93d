/** The mutable IntOrString. */
module IntOrStringClasses {
  import opened Options
  import opened Varints
  import opened Codecs
  import opened IntOrStrings

  class IntOrString {
    var typ: Option<int64>
    var intVal: Option<int32>
    var strVal: Option<bytes>
    var unknownFields: bytes

    constructor ()
      ensures Value() == EMPTY_INT_OR_STRING
    {
      typ, intVal, strVal, unknownFields := None, None, None, [];
    }

    function Value(): IntOrStringValue
      reads this
    {
      IntOrStringValue(typ, intVal, strVal, unknownFields)
    }

    method SizeVT() returns (n: nat)
      ensures n == |EncodeIntOrString(Value())|
    {
      n := NumberSize(Extended(typ));
      n := n + NumberSize(Extended32(intVal));
      n := n + ChunkSize(strVal);
      n := n + |unknownFields|;
    }

    method MarshalToSizedBufferVT(dAtA: array<byte>, len: nat) returns (n: nat)
      requires |EncodeIntOrString(Value())| <= len <= dAtA.Length <= MAX_INT
      modifies dAtA
      ensures n == |EncodeIntOrString(Value())|
      ensures Wrote(old(dAtA[..]), dAtA[..], len - n, len, EncodeIntOrString(Value()))
    {
      hide Wrote, OptChunk, OptNumber;
      ghost var before, out := dAtA[..], unknownFields;
      var i := len - |unknownFields|;
      Copy(dAtA, i, unknownFields);
      i := PutOptChunk(dAtA, i, 3, strVal, before, len, out);
      out := OptChunk(3, strVal) + out;
      i := PutOptNumber(dAtA, i, 2, Extended32(intVal), before, len, out);
      out := OptNumber(2, Extended32(intVal)) + out;
      i := PutOptNumber(dAtA, i, 1, Extended(typ), before, len, out);
      out := OptNumber(1, Extended(typ)) + out;
      assert out == EncodeIntOrString(Value());
      n := len - i;
    }

    method MarshalVT() returns (dAtA: array<byte>)
      requires |EncodeIntOrString(Value())| <= MAX_INT
      ensures fresh(dAtA) && dAtA[..] == EncodeIntOrString(Value())
    {
      hide Wrote, EncodeIntOrString;
      var size := SizeVT();
      dAtA := new byte[size];
      ghost var before := dAtA[..];
      var n := MarshalToSizedBufferVT(dAtA, size);
      WroteAll(before, dAtA[..], EncodeIntOrString(Value()));
    }

    method UnmarshalVT(dAtA: bytes) returns (err: Option<Error>)
      requires |dAtA| <= MAX_INT
      modifies this
      ensures Outcome(Value(), err) == Decode(INT_OR_STRING, 0, dAtA, old(Value()))
    {
      hide Decode, DecodeAt, ReadTag, ReadChunk, ReadRaw, ReadVarint, Payload, ToInt32;
      var iNdEx := 0;
      DecodeEnds(INT_OR_STRING, dAtA, Value());
      while iNdEx < |dAtA|
        invariant iNdEx <= |dAtA|
        invariant DecodeAt(INT_OR_STRING, dAtA, iNdEx, Value()) == Decode(INT_OR_STRING, 0, dAtA, old(Value()))
      {
        DecodeIteration(INT_OR_STRING, dAtA, iNdEx, Value());
        var preIndex := iNdEx;
        var tag := NextTag(dAtA, iNdEx);
        if tag.Err? {
          return Some(tag.error);
        }
        var Tag(fieldNum, wireType, k) := tag.value;
        iNdEx := iNdEx + k;
        match fieldNum {
          case 1 =>
            if wireType != 0 {
              return Some(WrongWireType);
            }
            var v := ReadUint64(dAtA, iNdEx);
            if v.Err? {
              return Some(v.error);
            }
            typ, iNdEx := Some(ToInt64(v.value.value)), iNdEx + v.value.size;
          case 2 =>
            if wireType != 0 {
              return Some(WrongWireType);
            }
            var v := ReadInt32(dAtA, iNdEx);
            if v.Err? {
              return Some(v.error);
            }
            intVal, iNdEx := Some(v.value.value), iNdEx + v.value.size;
          case 3 =>
            var slice := NextPayload(dAtA, iNdEx, wireType, fieldNum);
            if slice.Err? {
              return Some(slice.error);
            }
            strVal, iNdEx := Some(slice.value.0), slice.value.1;
          case _ =>
            iNdEx := preIndex;
            var skippy := NextUnknown(dAtA, iNdEx);
            if skippy.Err? {
              return Some(skippy.error);
            }
            unknownFields := unknownFields + dAtA[iNdEx..iNdEx + skippy.value];
            iNdEx := iNdEx + skippy.value;
        }
      }
      DecodeEnds(INT_OR_STRING, dAtA, Value());
      return None;
    }
  }
}
