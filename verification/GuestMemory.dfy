/** How a guest obtains values of unknown size from the host: it offers a buffer with a limit, and
    offers a larger one when the host says that the value did not fit. */
module GuestMemory {
  import opened Varints
  import LE = LittleEndian

  /** A length as it crosses the boundary: 32 bits. */
  function Uint32(n: nat): (r: nat)
    ensures r < TWO_32
  {
    n % TWO_32
  }

  /** Host side: the value is written to the guest's buffer only if it fits into the limit; the
      length is returned in any case. The buffer has at least limit bytes. */
  method WriteIfUnderLimit(buf: array<byte>, limit: nat, v: bytes) returns (len: nat)
    requires limit <= buf.Length
    modifies buf
    ensures len == |v|
    ensures buf[..] == if |v| <= limit then v + old(buf[|v|..]) else old(buf[..])
  {
    var vLen := |v|;
    if vLen == 0 {
      return 0;
    }
    if vLen > limit {
      return vLen;
    }
    Copy(buf, 0, v);
    return vLen;
  }

  /** Host side: eight bytes are written, whatever the limit is. */
  method WriteUint64(buf: array<byte>, v: uint64)
    requires buf.Length >= 8
    modifies buf
    ensures buf[..] == LE.Bytes(v, 8) + old(buf[8..])
  {
    var rest: nat := v;
    for i := 0 to 8
      invariant LE.Bytes(v, 8) == buf[..i] + LE.Bytes(rest, 8 - i)
      invariant buf[i..] == old(buf[i..])
    {
      assert LE.Bytes(rest, 8 - i) == [rest % 256] + LE.Bytes(rest / 256, 7 - i);
      ghost var before := buf[..i];
      buf[i] := rest % 256;
      assert buf[..i + 1] == before + [rest % 256];
      rest := rest / 256;
    }
    assert buf[..] == buf[..8] + buf[8..];
  }

  /** The package variables of the guest. readBuf is shared by all reads. */
  class ReadBuffer {
    var readBuf: array<byte>
    var readBufLimit: nat
    /** The buffers that strings returned to callers point into. */
    ghost var lent: set<array<byte>>

    ghost predicate Valid()
      reads this
    {
      && readBuf.Length == readBufLimit
      && 2048 <= readBufLimit < TWO_32
      && readBuf !in lent
    }

    constructor ()
      ensures Valid() && fresh(readBuf) && lent == {}
    {
      readBufLimit := 2048;
      readBuf := new byte[2048];
      lent := {};
    }

    /** updater is handed `handed`. calls counts the host calls. */
    method Update(v: bytes) returns (handed: bytes, calls: nat)
      requires Valid()
      modifies this, readBuf
      ensures Valid() && lent == old(lent) && (readBuf == old(readBuf) || fresh(readBuf))
      ensures readBufLimit == if Uint32(|v|) > old(readBufLimit) then Uint32(|v|) else old(readBufLimit)
      ensures forall a | a in lent :: a[..] == old(a[..])
      ensures 1 <= calls <= 2
      ensures handed == v <==> |v| < TWO_32
    {
      var len := WriteIfUnderLimit(readBuf, readBufLimit, v);
      var size := Uint32(len);
      calls := 1;
      if size <= readBufLimit {
        return readBuf[..size], calls;
      }
      readBufLimit := size;
      readBuf := new byte[readBufLimit];
      len := WriteIfUnderLimit(readBuf, readBufLimit, v);
      return readBuf[..], 2;
    }

    /** The string returned points to cells of its own, never to the shared buffer. */
    method GetString(v: bytes) returns (s: array<byte>, calls: nat)
      requires Valid()
      modifies this, readBuf
      ensures Valid() && readBuf == old(readBuf) && readBufLimit == old(readBufLimit)
      ensures fresh(s) && lent == old(lent) + {s}
      ensures forall a | a in old(lent) :: a[..] == old(a[..])
      ensures 1 <= calls <= 2
      ensures s[..] == v <==> |v| < TWO_32
    {
      var len := WriteIfUnderLimit(readBuf, readBufLimit, v);
      var size := Uint32(len);
      calls := 1;
      if size == 0 {
        s := new byte[0];
      } else if size <= readBufLimit {
        s := new byte[size];
        Copy(s, 0, readBuf[..size]);
      } else {
        s := new byte[size];
        len := WriteIfUnderLimit(s, size, v);
        calls := 2;
      }
      lent := lent + {s};
    }

    /** The read buffer is large enough for eight bytes and shared by the answer. */
    method SendAndGetUint64(v: uint64) returns (r: nat)
      requires Valid()
      modifies readBuf
      ensures Valid() && r == v
      ensures readBuf[8..] == old(readBuf[8..])
    {
      WriteUint64(readBuf, v);
      assert readBuf[..8] == LE.Bytes(v, 8);
      LE.ReadBack(v, 8);
      LE.Widths();
      r := LE.Value(readBuf[..8]);
    }
  }

  // ----- runs -----

  /** A read with the host's value, and what the guest gets: a string in cells of its own, the bytes
      handed to an updater, or a number. */
  datatype Read = AsString(v: bytes) | AsUpdate(v: bytes) | AsNumber(n: uint64)

  datatype Received = Cells(cells: array<byte>) | Handed(data: bytes) | Number(n: nat)

  /** The guest got exactly the value, unless its length does not fit into 32 bits. */
  ghost predicate Got(r: Read, x: Received)
    reads if x.Cells? then {x.cells} else {}
  {
    match r
    case AsString(v) => x.Cells? && (x.cells[..] == v <==> |v| < TWO_32)
    case AsUpdate(v) => x.Handed? && (x.data == v <==> |v| < TWO_32)
    case AsNumber(n) => x == Number(n)
  }

  /** After any sequence of reads through the shared buffer, everything received on the way, strings
      that were returned long before included, still is what the host had. */
  method ReadAll(buffer: ReadBuffer, requests: seq<Read>) returns (received: seq<Received>)
    requires buffer.Valid()
    modifies buffer, buffer.readBuf
    ensures buffer.Valid() && buffer.readBufLimit >= old(buffer.readBufLimit)
    ensures |received| == |requests|
    ensures forall i | 0 <= i < |requests| :: Got(requests[i], received[i])
    ensures forall a | a in old(buffer.lent) :: a[..] == old(a[..])
  {
    received := [];
    for i := 0 to |requests|
      invariant buffer.Valid() && buffer.readBufLimit >= old(buffer.readBufLimit)
      invariant buffer.readBuf == old(buffer.readBuf) || fresh(buffer.readBuf)
      invariant old(buffer.lent) <= buffer.lent
      invariant forall a | a in old(buffer.lent) :: a[..] == old(a[..])
      invariant |received| == i
      invariant forall k | 0 <= k < i :: received[k].Cells? ==> received[k].cells in buffer.lent
      invariant forall k | 0 <= k < i :: Got(requests[k], received[k])
    {
      match requests[i] {
        case AsString(v) =>
          var s, _ := buffer.GetString(v);
          received := received + [Cells(s)];
        case AsUpdate(v) =>
          var handed, _ := buffer.Update(v);
          received := received + [Handed(handed)];
        case AsNumber(n) =>
          var r := buffer.SendAndGetUint64(n);
          received := received + [Number(r)];
      }
    }
  }
}
