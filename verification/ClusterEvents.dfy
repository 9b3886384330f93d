/** Cluster events as pairs of 32-bit little-endian numbers: written by the guest, read by the host. */
module ClusterEvents {
  import opened Options
  import opened Varints
  import LE = LittleEndian

  type uint32 = x: int | 0 <= x < TWO_32

  datatype GuestEvent = GuestEvent(resource: uint32, actionType: uint32)
  datatype HostEvent = HostEvent(resource: string, actionType: nat)

  const SIZE_ENCODED := 8

  // ----- resource names -----

  const RESOURCES: seq<string> := [
    "Pod", "Node", "PersistentVolume", "PersistentVolumeClaim", "PodSchedulingContext", "ResourceClaim",
    "storage.k8s.io/StorageClass", "storage.k8s.io/CSINode", "storage.k8s.io/CSIDriver",
    "storage.k8s.io/CSIStorageCapacity", "*"]

  function Itoa(n: nat): (s: string)
    ensures |s| >= 1
  {
    var digit := ["0123456789"[n % 10]];
    if n < 10 then digit else Itoa(n / 10) + digit
  }

  function Digit(c: char): int {
    c as int - '0' as int
  }

  function Atoi(s: string): int {
    if s == "" then 0 else 10 * Atoi(s[..|s| - 1]) + Digit(s[|s| - 1])
  }

  lemma {:induction false} AtoiOfItoa(n: nat)
    ensures Atoi(Itoa(n)) == n
  {
    var s := Itoa(n);
    assert Digit("0123456789"[n % 10]) == n % 10;
    if n < 10 {
      assert s[..0] == "";
    } else {
      AtoiOfItoa(n / 10);
      assert s[..|s| - 1] == Itoa(n / 10);
    }
  }

  function ToEventResource(gvk: uint32): string {
    if gvk < |RESOURCES| then RESOURCES[gvk] else "EventResource(" + Itoa(gvk) + ")"
  }

  /** The kinds in the order of their numbers on the wire. */
  datatype Gvk = Pod | Node | PersistentVolume | PersistentVolumeClaim | PodSchedulingContext | ResourceClaim
    | StorageClass | CSINode | CSIDriver | CSIStorageCapacity | WildCard

  function GvkNumber(k: Gvk): nat {
    match k
    case Pod => 0 case Node => 1 case PersistentVolume => 2 case PersistentVolumeClaim => 3
    case PodSchedulingContext => 4 case ResourceClaim => 5 case StorageClass => 6 case CSINode => 7
    case CSIDriver => 8 case CSIStorageCapacity => 9 case WildCard => 10
  }

  /** Every known kind has the resource of its name; any other number is given in decimal. */
  lemma ResourceNames(k: Gvk, gvk: uint32)
    ensures ToEventResource(GvkNumber(k)) == match k
      case Pod => "Pod"
      case Node => "Node"
      case PersistentVolume => "PersistentVolume"
      case PersistentVolumeClaim => "PersistentVolumeClaim"
      case PodSchedulingContext => "PodSchedulingContext"
      case ResourceClaim => "ResourceClaim"
      case StorageClass => "storage.k8s.io/StorageClass"
      case CSINode => "storage.k8s.io/CSINode"
      case CSIDriver => "storage.k8s.io/CSIDriver"
      case CSIStorageCapacity => "storage.k8s.io/CSIStorageCapacity"
      case WildCard => "*"
    ensures gvk > 10 ==>
      exists s :: ToEventResource(gvk) == "EventResource(" + s + ")" && Atoi(s) == gvk && IsDecimal(s)
  {
    if gvk > 10 {
      AtoiOfItoa(gvk);
      ItoaIsDecimal(gvk);
    }
  }

  /** Digits without a leading zero. */
  predicate IsDecimal(s: string) {
    s != "" && (s[0] == '0' ==> |s| == 1) && forall c | c in s :: '0' <= c <= '9'
  }

  lemma {:induction false} ItoaIsDecimal(n: nat)
    ensures IsDecimal(Itoa(n)) && (Itoa(n)[0] == '0' ==> n == 0)
  {
    if n >= 10 {
      ItoaIsDecimal(n / 10);
      var digit := ["0123456789"[n % 10]];
      assert Itoa(n) == Itoa(n / 10) + digit;
    }
  }

  lemma NumberedIsNoName(n: nat, k: nat)
    requires k < |RESOURCES|
    ensures "EventResource(" + Itoa(n) + ")" != RESOURCES[k]
  {
    var s := "EventResource(" + Itoa(n) + ")";
    assert s[0] == 'E';
    assert RESOURCES[k][0] != 'E';
  }

  /** No two kinds, known or not, are given the same resource. */
  lemma ResourcesAreInjective(a: uint32, b: uint32)
    ensures ToEventResource(a) == ToEventResource(b) <==> a == b
  {
    var prefix := "EventResource(";
    if a >= |RESOURCES| && b >= |RESOURCES| {
      var s, t := prefix + Itoa(a) + ")", prefix + Itoa(b) + ")";
      assert s[|prefix|..|s| - 1] == Itoa(a);
      assert t[|prefix|..|t| - 1] == Itoa(b);
      AtoiOfItoa(a);
      AtoiOfItoa(b);
    } else if a >= |RESOURCES| {
      NumberedIsNoName(a, b);
    } else if b >= |RESOURCES| {
      NumberedIsNoName(b, a);
    } else if RESOURCES[a] == RESOURCES[b] {
      NamesAreDistinct(a, b);
    }
  }

  lemma NamesAreDistinct(a: nat, b: nat)
    requires a < |RESOURCES| && b < |RESOURCES| && RESOURCES[a] == RESOURCES[b]
    ensures a == b
  {
    assert |RESOURCES[a]| == |RESOURCES[b]|;
  }

  // ----- the format -----

  function EncodeEvent(e: GuestEvent): (b: bytes)
    ensures |b| == SIZE_ENCODED
  {
    LE.Bytes(e.resource, 4) + LE.Bytes(e.actionType, 4)
  }

  function Encoded(es: seq<GuestEvent>): (b: bytes)
    ensures |b| == SIZE_ENCODED * |es|
  {
    if es == [] then [] else EncodeEvent(es[0]) + Encoded(es[1..])
  }

  function ReadUint32(b: bytes): (v: uint32)
    requires |b| == 4
  {
    LE.ValueFits(b);
    LE.Widths();
    LE.Value(b)
  }

  function DecodeEvent(b: bytes): HostEvent
    requires |b| >= SIZE_ENCODED
  {
    HostEvent(ToEventResource(ReadUint32(b[..4])), ReadUint32(b[4..8]))
  }

  function Decoded(b: bytes): seq<HostEvent> {
    if |b| < SIZE_ENCODED then [] else [DecodeEvent(b)] + Decoded(b[SIZE_ENCODED..])
  }

  function ToHost(es: seq<GuestEvent>): (hs: seq<HostEvent>)
    ensures |hs| == |es|
    ensures forall i | 0 <= i < |es| :: hs[i] == HostEvent(ToEventResource(es[i].resource), es[i].actionType)
  {
    if es == [] then []
    else [HostEvent(ToEventResource(es[0].resource), es[0].actionType)] + ToHost(es[1..])
  }

  lemma DecodeOfEncodeEvent(e: GuestEvent, t: bytes)
    ensures DecodeEvent(EncodeEvent(e) + t) == HostEvent(ToEventResource(e.resource), e.actionType)
  {
    var b := EncodeEvent(e) + t;
    assert b[..4] == LE.Bytes(e.resource, 4) && b[4..8] == LE.Bytes(e.actionType, 4);
    LE.Widths();
    LE.ReadBack(e.resource, 4);
    LE.ReadBack(e.actionType, 4);
  }

  /** The host reads the events the guest wrote; an incomplete event at the end is ignored. */
  lemma {:induction false} DecodesEncoded(es: seq<GuestEvent>, tail: bytes)
    requires |tail| < SIZE_ENCODED
    ensures Decoded(Encoded(es) + tail) == ToHost(es)
  {
    hide EncodeEvent, DecodeEvent;
    if es == [] {
      assert Encoded(es) + tail == tail;
    } else {
      var rest := Encoded(es[1..]) + tail;
      assert Encoded(es) + tail == EncodeEvent(es[0]) + rest;
      DecodeOfEncodeEvent(es[0], rest);
      assert (EncodeEvent(es[0]) + rest)[SIZE_ENCODED..] == rest;
      DecodesEncoded(es[1..], tail);
    }
  }

  /** Any bytes are events and an incomplete one, so this says what the host reads from any input. */
  lemma {:induction false} EventsOfInput(b: bytes) returns (es: seq<GuestEvent>, tail: bytes)
    ensures b == Encoded(es) + tail && |tail| < SIZE_ENCODED
  {
    if |b| < SIZE_ENCODED {
      es, tail := [], b;
    } else {
      var e := EventOf(b[..SIZE_ENCODED]);
      var rest;
      rest, tail := EventsOfInput(b[SIZE_ENCODED..]);
      es := [e] + rest;
      assert es[1..] == rest;
      assert b == b[..SIZE_ENCODED] + b[SIZE_ENCODED..];
    }
  }

  lemma EventOf(b: bytes) returns (e: GuestEvent)
    requires |b| == SIZE_ENCODED
    ensures EncodeEvent(e) == b
  {
    LE.ValueFits(b[..4]);
    LE.ValueFits(b[4..]);
    LE.Widths();
    LE.BytesOfValue(b[..4]);
    LE.BytesOfValue(b[4..]);
    e := GuestEvent(LE.Value(b[..4]), LE.Value(b[4..]));
    assert b == b[..4] + b[4..];
  }

  // ----- the loops -----

  lemma {:induction false} EncodedAppend(es: seq<GuestEvent>, e: GuestEvent)
    ensures Encoded(es + [e]) == Encoded(es) + EncodeEvent(e)
  {
    hide EncodeEvent;
    if es == [] {
      assert (es + [e])[1..] == [];
    } else {
      assert (es + [e])[1..] == es[1..] + [e];
      EncodedAppend(es[1..], e);
    }
  }

  /** The eight stores of one event. */
  method PutEvent(encoded: array<byte>, pos: nat, e: GuestEvent)
    requires pos + SIZE_ENCODED <= encoded.Length
    modifies encoded
    ensures Wrote(old(encoded[..]), encoded[..], pos, pos + SIZE_ENCODED, EncodeEvent(e))
  {
    var r: nat, a: nat := e.resource, e.actionType;
    encoded[pos + 0] := r % 256;
    encoded[pos + 1] := r / 0x100 % 256;
    encoded[pos + 2] := r / 0x1_0000 % 256;
    encoded[pos + 3] := r / 0x100_0000 % 256;
    encoded[pos + 4] := a % 256;
    encoded[pos + 5] := a / 0x100 % 256;
    encoded[pos + 6] := a / 0x1_0000 % 256;
    encoded[pos + 7] := a / 0x100_0000 % 256;
    FourBytes(r);
    FourBytes(a);
    assert encoded[pos..pos + 8] == EncodeEvent(e);
    assert encoded[..] == old(encoded[..pos]) + EncodeEvent(e) + old(encoded[pos + 8..]);
  }

  lemma FourBytes(v: nat)
    ensures LE.Bytes(v, 4) == [v % 256, v / 0x100 % 256, v / 0x1_0000 % 256, v / 0x100_0000 % 256]
  {
    assert v / 0x100 / 256 == v / 0x1_0000 && v / 0x1_0000 / 256 == v / 0x100_0000;
    assert LE.Bytes(v / 0x100_0000, 1) == [v / 0x100_0000 % 256];
    assert LE.Bytes(v / 0x1_0000, 2) == [v / 0x1_0000 % 256] + LE.Bytes(v / 0x100_0000, 1);
    assert LE.Bytes(v / 0x100, 3) == [v / 0x100 % 256] + LE.Bytes(v / 0x1_0000, 2);
  }

  /** None stands for a nil slice. */
  method EncodeClusterEvents(input: seq<GuestEvent>) returns (r: Option<bytes>)
    ensures r == if input == [] then None else Some(Encoded(input))
  {
    hide EncodeEvent;
    var size := |input| * SIZE_ENCODED;
    if size == 0 {
      return None;
    }
    var encoded := new byte[size];
    var pos := 0;
    for i := 0 to |input|
      invariant pos == SIZE_ENCODED * i
      invariant encoded[..pos] == Encoded(input[..i])
    {
      ghost var before := encoded[..];
      PutEvent(encoded, pos, input[i]);
      assert input[..i + 1] == input[..i] + [input[i]];
      EncodedAppend(input[..i], input[i]);
      pos := pos + SIZE_ENCODED;
      assert encoded[..pos] == before[..pos - SIZE_ENCODED] + EncodeEvent(input[i]);
    }
    assert input[..|input|] == input;
    assert encoded[..pos] == encoded[..];
    return Some(encoded[..]);
  }

  method DecodeClusterEvents(b: bytes) returns (clusterEvents: seq<HostEvent>)
    ensures clusterEvents == Decoded(b)
  {
    hide DecodeEvent;
    clusterEvents := [];
    var i := 0;
    assert b[0..] == b;
    while i + SIZE_ENCODED <= |b|
      invariant 0 <= i <= |b|
      invariant Decoded(b) == clusterEvents + Decoded(b[i..])
    {
      assert b[i..][SIZE_ENCODED..] == b[i + SIZE_ENCODED..];
      EventAt(b, i);
      var e := HostEvent(ToEventResource(ReadUint32(b[i..i + 4])), ReadUint32(b[i + 4..i + 8]));
      clusterEvents := clusterEvents + [e];
      i := i + SIZE_ENCODED;
    }
  }

  lemma EventAt(b: bytes, i: nat)
    requires i + SIZE_ENCODED <= |b|
    ensures DecodeEvent(b[i..]) == HostEvent(ToEventResource(ReadUint32(b[i..i + 4])), ReadUint32(b[i + 4..i + 8]))
  {
    assert b[i..][..4] == b[i..i + 4] && b[i..][4..8] == b[i + 4..i + 8];
  }
}
