/** Base-128 varints: the byte-level vocabulary of the wire format, the canonical encoding,
    and the read and write loops that every generated message method contains. */
module Varints {
  type byte = x: int | 0 <= x < 256
  type bytes = seq<byte>

  const TWO_31: int := 0x8000_0000
  const TWO_32: int := 0x1_0000_0000
  const TWO_63: int := 0x8000_0000_0000_0000
  const TWO_64: int := 0x1_0000_0000_0000_0000
  /** The largest value of the 64-bit `int` of the host. */
  const MAX_INT: int := 0x7FFF_FFFF_FFFF_FFFF

  type uint64 = x: int | 0 <= x < TWO_64
  type int64 = x: int | -TWO_63 <= x < TWO_63
  type int32 = x: int | -TWO_31 <= x < TWO_31

  datatype Error =
    | IntOverflow
    | UnexpectedEOF
    | InvalidLength
    | UnexpectedEndOfGroup
    | IllegalWireType
    | EndGroupForNonGroup
    | IllegalTag
    | WrongWireType

  datatype Result<+T> = Ok(value: T) | Err(error: Error)

  /** A value together with the number of bytes it was read from. */
  datatype Sized<+T> = Sized(value: T, size: nat)

  // ----- conversions between machine integers -----

  function ToInt64(v: uint64): int64 {
    if v >= TWO_63 then v - TWO_64 else v
  }

  /** The low 64 bits. */
  function Low64(v: nat): uint64 {
    v % TWO_64
  }

  /** The low 32 bits. */
  function Low32(v: nat): (r: nat) {
    v % TWO_32
  }

  function ToInt32(v: nat): int32 {
    var w := Low32(v);
    if w >= TWO_31 then w - TWO_32 else w
  }

  /** Conversion of a signed integer of at most 64 bits to `uint64`: sign extension. */
  function ToUint64(v: int64): uint64 {
    if v < 0 then v + TWO_64 else v
  }

  /** Addition of non-negative `int`s: an overflow wraps to a negative number. */
  function AddInt(a: nat, b: nat): (r: int)
    requires a <= MAX_INT && b <= MAX_INT
    ensures r < 0 <==> a + b > MAX_INT
    ensures r >= 0 ==> r == a + b
  {
    if a + b > MAX_INT then a + b - TWO_64 else a + b
  }

  /** Truncation to 32 or 64 bits keeps the number modulo 2^32 or 2^64. */
  lemma TruncationsAreCongruent(v: uint64)
    ensures (v - ToInt64(v)) % TWO_64 == 0 && (v - ToInt32(v)) % TWO_32 == 0
  {
    var q := v / TWO_32;
    assert v - Low32(v) == TWO_32 * q;
    assert v - ToInt32(v) == TWO_32 * q || v - ToInt32(v) == TWO_32 * (q + 1);
  }

  lemma SignedRoundTrip(v: int64)
    ensures ToInt64(ToUint64(v)) == v
    ensures -TWO_31 <= v < TWO_31 ==> ToInt32(ToUint64(v)) == v
  {
    if -TWO_31 <= v < 0 {
      assert ToUint64(v) == (TWO_32 - 1) * TWO_32 + (v + TWO_32);
    }
  }

  // ----- canonical encoding -----

  /** The canonical encoding: least significant group first, no trailing zero group. */
  function VarintOf(v: nat): (s: bytes)
    ensures |s| >= 1
  {
    if v < 128 then [v] else [v % 128 + 128] + VarintOf(v / 128)
  }

  /** Position of the highest set bit, plus one. */
  function Len64(x: nat): nat {
    if x == 0 then 0 else 1 + Len64(x / 2)
  }

  /** x|1 */
  function OrOne(x: nat): nat {
    if x % 2 == 0 then x + 1 else x
  }

  function Sov(x: nat): nat {
    (Len64(OrOne(x)) + 6) / 7
  }

  lemma Len64Shift7(x: nat)
    requires x >= 128
    ensures Len64(x) == 7 + Len64(x / 128)
  {
    var x1, x2, x3 := x / 2, x / 4, x / 8;
    var x4, x5, x6 := x / 16, x / 32, x / 64;
    assert Len64(x) == 1 + Len64(x1);
    assert x1 / 2 == x2 && Len64(x1) == 1 + Len64(x2);
    assert x2 / 2 == x3 && Len64(x2) == 1 + Len64(x3);
    assert x3 / 2 == x4 && Len64(x3) == 1 + Len64(x4);
    assert x4 / 2 == x5 && Len64(x4) == 1 + Len64(x5);
    assert x5 / 2 == x6 && Len64(x5) == 1 + Len64(x6);
    assert x6 / 2 == x / 128 && Len64(x6) == 1 + Len64(x / 128);
  }

  lemma Len64OrOne(x: nat)
    requires x >= 1
    ensures Len64(OrOne(x)) == Len64(x)
  {
    assert OrOne(x) / 2 == x / 2;
  }

  lemma Len64Small(x: nat)
    requires 1 <= x < 128
    ensures 1 <= Len64(x) <= 7
  {
    var x1, x2, x3 := x / 2, x / 4, x / 8;
    assert x1 / 2 == x2 && x2 / 2 == x3 < 16;
    assert Len64(x) == 1 + Len64(x1);
    assert x1 > 0 ==> Len64(x1) == 1 + Len64(x2);
    assert x2 > 0 ==> Len64(x2) == 1 + Len64(x3);
    assert Len64(x3) <= 4 by {
      assert x3 / 2 < 8 && x3 / 2 / 2 < 4 && x3 / 2 / 2 / 2 < 2;
      Len64Halves(x3);
      Len64Halves(x3 / 2);
      Len64Halves(x3 / 2 / 2);
      Len64Halves(x3 / 2 / 2 / 2);
    }
  }

  lemma Len64Halves(x: nat)
    ensures Len64(x) == if x == 0 then 0 else 1 + Len64(x / 2)
  {
  }

  /** The size pass and the writer agree: `sov` is the length of the canonical encoding. */
  lemma {:induction false} SovIsLength(v: nat)
    ensures Sov(v) == |VarintOf(v)|
  {
    if v < 128 {
      Len64Small(OrOne(v));
    } else {
      SovIsLength(v / 128);
      Len64OrOne(v);
      Len64OrOne(v / 128);
      Len64Shift7(v);
    }
  }

  function Pow128(k: nat): (p: nat)
    ensures p >= 1
  {
    if k == 0 then 1 else 128 * Pow128(k - 1)
  }

  /** A varint takes k bytes or fewer exactly when the value fits into k groups of 7 bits. */
  lemma {:induction false} VarintLength(v: nat, k: nat)
    requires k >= 1
    ensures |VarintOf(v)| <= k <==> v < Pow128(k)
  {
    if v >= 128 {
      if k == 1 {
        assert Pow128(1) == 128 * Pow128(0);
      } else {
        VarintLength(v / 128, k - 1);
      }
    } else if k > 1 {
      VarintLength(v, k - 1);
    } else {
      assert Pow128(1) == 128 * Pow128(0);
    }
  }

  lemma {:induction false} VarintMonotone(v: nat, w: nat)
    requires v <= w
    ensures |VarintOf(v)| <= |VarintOf(w)|
  {
    if v >= 128 { VarintMonotone(v / 128, w / 128); }
  }

  lemma VarintOfSum(a: nat, b: nat)
    ensures |VarintOf(a + b)| <= |VarintOf(a)| + |VarintOf(b)|
  {
    var c := if a < b then b else a;
    VarintMonotone(a + b, 128 * c);
    assert c >= 1 ==> 128 * c / 128 == c && VarintOf(128 * c) == [128 * c % 128 + 128] + VarintOf(c);
  }

  lemma Varint64AtMostTen(v: uint64)
    ensures 1 <= |VarintOf(v)| <= 10
  {
    assert Pow128(10) >= TWO_64 by {
      assert Pow128(5) == 0x8_0000_0000;
      assert Pow128(10) == 128 * 128 * 128 * 128 * 128 * Pow128(5);
    }
    VarintLength(v, 10);
  }

  // ----- reading -----

  /** What a read loop that has consumed k groups finds in the remaining bytes s:
      the number formed by the remaining groups, unbounded, and their count. */
  function ReadGroups(s: bytes, k: nat): (r: Result<Sized<nat>>)
    requires k <= 10
    ensures r.Ok? ==> 1 <= r.value.size <= 10 - k && r.value.size <= |s|
    decreases 10 - k
  {
    if k == 10 then Err(IntOverflow)
    else if s == [] then Err(UnexpectedEOF)
    else if s[0] < 128 then Ok(Sized(s[0], 1))
    else match ReadGroups(s[1..], k + 1)
      case Err(e) => Err(e)
      case Ok(Sized(v, n)) => Ok(Sized(s[0] - 128 + 128 * v, n + 1))
  }

  /** A varint read into a 64-bit variable: bits shifted beyond the 64th are lost. */
  function ReadVarint(s: bytes): (r: Result<Sized<uint64>>)
    ensures r.Ok? ==> 1 <= r.value.size <= 10 && r.value.size <= |s|
  {
    match ReadGroups(s, 0)
    case Err(e) => Err(e)
    case Ok(Sized(v, n)) => Ok(Sized(Low64(v), n))
  }

  lemma {:induction false} ReadGroupsOfVarint(v: nat, k: nat, t: bytes)
    requires k + |VarintOf(v)| <= 10
    ensures ReadGroups(VarintOf(v) + t, k) == Ok(Sized(v, |VarintOf(v)|))
    decreases v
  {
    var s := VarintOf(v) + t;
    if v >= 128 {
      assert s[1..] == VarintOf(v / 128) + t;
      ReadGroupsOfVarint(v / 128, k + 1, t);
    }
  }

  /** The decode loop returns v for every 64-bit v, whatever follows the encoding. */
  lemma ReadVarintOfVarint(v: uint64, t: bytes)
    ensures ReadVarint(VarintOf(v) + t) == Ok(Sized(v, |VarintOf(v)|))
  {
    Varint64AtMostTen(v);
    ReadGroupsOfVarint(v, 0, t);
  }

  lemma {:induction false} ReadGroupsMinimal(s: bytes, k: nat)
    requires k <= 10
    requires ReadGroups(s, k).Ok?
    ensures |VarintOf(ReadGroups(s, k).value.value)| <= ReadGroups(s, k).value.size
    decreases 10 - k
  {
    if s[0] >= 128 {
      ReadGroupsMinimal(s[1..], k + 1);
      var v := ReadGroups(s[1..], k + 1).value.value;
      var w := s[0] - 128 + 128 * v;
      assert w / 128 == v && w % 128 == s[0] - 128;
    }
  }

  /** No accepted encoding of a value is shorter than the canonical one. */
  lemma ReadVarintMinimal(s: bytes)
    requires ReadVarint(s).Ok?
    ensures |VarintOf(ReadVarint(s).value.value)| <= ReadVarint(s).value.size
  {
    ReadGroupsMinimal(s, 0);
    var v := ReadGroups(s, 0).value.value;
    VarintMonotone(Low64(v), v);
  }

  lemma {:induction false} ReadGroupsPrefix(s: bytes, k: nat, t: bytes)
    requires k <= 10
    requires ReadGroups(s, k).Ok?
    ensures ReadGroups(s[..ReadGroups(s, k).value.size] + t, k) == ReadGroups(s, k)
    decreases 10 - k
  {
    if s[0] >= 128 {
      ReadGroupsPrefix(s[1..], k + 1, t);
      var n := ReadGroups(s[1..], k + 1).value.size;
      assert (s[..n + 1] + t)[1..] == s[1..][..n] + t;
    }
  }

  /** A successful read depends on the bytes it consumed and on nothing after them. */
  lemma ReadVarintPrefix(s: bytes, t: bytes)
    requires ReadVarint(s).Ok?
    ensures ReadVarint(s[..ReadVarint(s).value.size] + t) == ReadVarint(s)
  {
    ReadGroupsPrefix(s, 0, t);
  }

  lemma ReadVarintExtend(s: bytes, t: bytes)
    requires ReadVarint(s).Ok?
    ensures ReadVarint(s + t) == ReadVarint(s)
  {
    var n := ReadVarint(s).value.size;
    ReadVarintPrefix(s, s[n..] + t);
    assert s[..n] + (s[n..] + t) == s + t;
  }

  // ----- which bytes are varints -----

  /** One to ten bytes; the high bit is set in all but the last. */
  predicate IsGroups(b: bytes) {
    1 <= |b| <= 10 && b[|b| - 1] < 128 && forall i | 0 <= i < |b| - 1 :: b[i] >= 128
  }

  /** Seven bits of each byte, least significant group first. */
  function GroupSum(b: bytes): nat {
    if b == [] then 0 else b[0] % 128 + 128 * GroupSum(b[1..])
  }

  lemma GroupsStep(b: bytes)
    requires b != []
    ensures b[0] < 128 ==> (IsGroups(b) <==> |b| == 1)
    ensures b[0] >= 128 ==> (IsGroups(b) <==> |b| <= 10 && IsGroups(b[1..]))
  {
    assert forall i | 0 < i < |b| :: b[i] == b[1..][i - 1];
    assert forall i | 0 <= i < |b| - 1 :: b[1..][i] == b[i + 1];
  }

  lemma {:induction false} ReadGroupsExactly(s: bytes, k: nat, n: nat)
    requires k <= 10 && n <= |s|
    ensures ReadGroups(s, k).Ok? && ReadGroups(s, k).value.size == n <==> IsGroups(s[..n]) && n <= 10 - k
    ensures IsGroups(s[..n]) && n <= 10 - k ==> ReadGroups(s, k) == Ok(Sized(GroupSum(s[..n]), n))
    decreases 10 - k
  {
    if k < 10 && n > 0 {
      var b := s[..n];
      ReadGroupsStep(s, k);
      GroupsStep(b);
      assert b[1..] == s[1..][..n - 1];
      ReadGroupsExactly(s[1..], k + 1, n - 1);
      assert GroupSum(b) == b[0] % 128 + 128 * GroupSum(b[1..]);
      assert n == 1 ==> GroupSum(b[1..]) == 0;
      hide ReadGroups, IsGroups, GroupSum;
    }
  }

  /** A read succeeds with n bytes exactly when they are the groups of a varint, minimal or not, and then
      gives the low 64 bits of the number that they form. */
  lemma ReadVarintExactly(s: bytes, n: nat)
    requires n <= |s|
    ensures ReadVarint(s).Ok? && ReadVarint(s).value.size == n <==> IsGroups(s[..n])
    ensures IsGroups(s[..n]) ==> ReadVarint(s) == Ok(Sized(Low64(GroupSum(s[..n])), n))
  {
    ReadGroupsExactly(s, 0, n);
  }

  lemma {:induction false} ReadGroupsFails(s: bytes, k: nat)
    requires k <= 10
    ensures ReadGroups(s, k) == Err(IntOverflow) <==> |s| >= 10 - k && forall i | 0 <= i < 10 - k :: s[i] >= 128
    ensures ReadGroups(s, k) == Err(UnexpectedEOF) <==> |s| < 10 - k && forall i | 0 <= i < |s| :: s[i] >= 128
    decreases 10 - k
  {
    if k < 10 && s != [] && s[0] >= 128 {
      ReadGroupsFails(s[1..], k + 1);
      assert forall i | 0 < i < |s| :: s[i] == s[1..][i - 1];
      assert forall i | 0 <= i < |s| - 1 :: s[1..][i] == s[i + 1];
    }
  }

  /** It overflows exactly when ten bytes in a row have the high bit set, and runs out of input exactly
      when all bytes have it and there are fewer. */
  lemma ReadVarintFails(s: bytes)
    ensures ReadVarint(s) == Err(IntOverflow) <==> |s| >= 10 && forall i | 0 <= i < 10 :: s[i] >= 128
    ensures ReadVarint(s) == Err(UnexpectedEOF) <==> |s| < 10 && forall i | 0 <= i < |s| :: s[i] >= 128
  {
    ReadGroupsFails(s, 0);
  }

  // ----- bitwise or -----

  /** Bit by bit, from the lowest bit on. */
  function Or(a: nat, b: nat): nat {
    if a == 0 then b
    else 2 * Or(a / 2, b / 2) + if a % 2 == 1 || b % 2 == 1 then 1 else 0
  }

  function Pow2(n: nat): (p: nat)
    ensures p >= 1
  {
    if n == 0 then 1 else 2 * Pow2(n - 1)
  }

  /** Or-ing a number below 2^n with a multiple of 2^n adds them: no bit is set in both. */
  lemma {:induction false} OrIsSum(a: nat, n: nat, c: nat)
    requires a < Pow2(n)
    ensures Or(a, Pow2(n) * c) == a + Pow2(n) * c
  {
    if n > 0 && a > 0 {
      var b := Pow2(n) * c;
      assert b == 2 * (Pow2(n - 1) * c);
      OrIsSum(a / 2, n - 1, c);
      assert b / 2 == Pow2(n - 1) * c;
    }
  }

  lemma {:induction false} PowersAgree(k: nat)
    ensures Pow128(k) == Pow2(7 * k)
  {
    if k > 0 {
      PowersAgree(k - 1);
      var n := 7 * (k - 1);
      assert Pow2(n + 2) == 4 * Pow2(n);
      assert Pow2(n + 4) == 4 * Pow2(n + 2);
      assert Pow2(n + 6) == 4 * Pow2(n + 4);
      assert Pow2(n + 7) == 2 * Pow2(n + 6);
    }
  }

  // ----- the loops -----

  /** The low 7 bits of b, shifted left by 7k. */
  function Shifted(b: byte, k: nat): (r: nat) {
    b % 128 * Pow128(k)
  }

  /** The whole number, given that the k groups read so far form acc. */
  ghost function Join(acc: nat, k: nat, r: Result<Sized<nat>>): Result<Sized<nat>> {
    match r
    case Err(e) => Err(e)
    case Ok(Sized(v, n)) => Ok(Sized(acc + Pow128(k) * v, k + n))
  }

  lemma ReadGroupsStep(s: bytes, k: nat)
    requires k < 10 && s != []
    ensures ReadGroups(s, k) ==
            if s[0] < 128 then Ok(Sized(s[0], 1))
            else match ReadGroups(s[1..], k + 1)
              case Err(e) => Err(e)
              case Ok(Sized(v, n)) => Ok(Sized(s[0] - 128 + 128 * v, n + 1))
  {
  }

  lemma JoinStep(acc: nat, k: nat, s: bytes)
    requires k < 10 && s != []
    ensures Join(acc, k, ReadGroups(s, k)) ==
            var acc' := acc + Shifted(s[0], k);
            if s[0] < 128 then Ok(Sized(acc', k + 1))
            else Join(acc', k + 1, ReadGroups(s[1..], k + 1))
  {
    ReadGroupsStep(s, k);
    var p, g := Pow128(k), s[0] % 128;
    assert Pow128(k + 1) == 128 * p && Shifted(s[0], k) == g * p;
    hide ReadGroups, Pow128, Shifted;
    if s[0] < 128 {
      assert g == s[0] && p * g == g * p;
    } else if ReadGroups(s[1..], k + 1).Ok? {
      Distribute(p, g, ReadGroups(s[1..], k + 1).value.value);
    }
  }

  lemma Distribute(p: nat, g: nat, v: nat)
    ensures p * (g + 128 * v) == g * p + 128 * p * v
  {
    assert p * (g + 128 * v) == p * g + p * (128 * v);
  }

  lemma NoGroups()
    ensures Pow128(0) == 1 && Low64(0) == 0 && Low32(0) == 0
  {
  }

  lemma JoinStart(s: bytes)
    ensures Join(0, 0, ReadGroups(s, 0)) == ReadGroups(s, 0)
  {
  }

  lemma JoinFails(acc: nat, k: nat, s: bytes)
    requires k == 10 || (k < 10 && s == [])
    ensures Join(acc, k, ReadGroups(s, k)) == Err(if k == 10 then IntOverflow else UnexpectedEOF)
  {
  }

  lemma SmallPowers(k: nat)
    ensures Pow128(4) == 0x1000_0000 && Pow128(9) == TWO_63
    ensures k <= 4 ==> Pow128(k) <= Pow128(4)
    ensures k <= 9 ==> Pow128(k) <= TWO_63
  {
    assert Pow128(2) == 0x4000;
    assert Pow128(4) == 0x4000 * Pow128(2);
    assert Pow128(6) == 0x4000 * Pow128(4);
    assert Pow128(8) == 0x4000 * Pow128(6);
    if k <= 9 { PowersGrow(k, 9); }
    if k <= 4 { PowersGrow(k, 4); }
  }

  lemma {:induction false} PowersGrow(j: nat, k: nat)
    requires j <= k
    ensures Pow128(j) <= Pow128(k)
    decreases k
  {
    if j < k { PowersGrow(j, k - 1); }
  }

  lemma MulMonotone(x: nat, y: nat, p: nat)
    requires x <= y
    ensures x * p <= y * p
  {
  }

  lemma MulSuccessor(x: nat, p: nat)
    ensures (x + 1) * p == x * p + p
  {
  }

  /** k groups take 7k bits. */
  lemma GroupsFit(acc: nat, k: nat, b: byte)
    requires acc < Pow128(k)
    ensures acc + Shifted(b, k) < Pow128(k + 1)
  {
    var p, g := Pow128(k), b % 128;
    assert Pow128(k + 1) == 128 * p;
    hide Pow128;
    MulMonotone(g + 1, 128, p);
    assert (g + 1) * p == g * p + p;
  }

  lemma SmallIsLow64(v: nat)
    requires v < TWO_64
    ensures Low64(v) == v
  {
  }

  lemma SmallIsLow(v: nat)
    requires v < TWO_32
    ensures Low32(v) == v
  {
  }

  lemma Low64Of(q: nat, r: nat)
    requires r < TWO_64
    ensures Low64(TWO_64 * q + r) == r
  {
  }

  lemma Low32Of(q: nat, r: nat)
    requires r < TWO_32
    ensures Low32(TWO_32 * q + r) == r
  {
  }

  lemma LowestBitAbove63(acc: nat, g: nat)
    requires acc < TWO_63
    ensures Low64(g * TWO_63) == g % 2 * TWO_63
    ensures Low64(acc + g * TWO_63) == acc + g % 2 * TWO_63
  {
    hide Low64;
    var q, r := g / 2, g % 2;
    assert g * TWO_63 == TWO_64 * q + r * TWO_63;
    Low64Of(q, r * TWO_63);
    Low64Of(q, acc + r * TWO_63);
  }

  lemma FourBitsAbove28(acc: nat, g: nat)
    requires acc < 0x1000_0000
    ensures Low32(g * 0x1000_0000) == g % 16 * 0x1000_0000
    ensures Low32(acc + g * 0x1000_0000) == acc + g % 16 * 0x1000_0000
  {
    hide Low32;
    var q, r := g / 16, g % 16;
    assert g * 0x1000_0000 == TWO_32 * q + r * 0x1000_0000;
    Low32Of(q, r * 0x1000_0000);
    Low32Of(q, acc + r * 0x1000_0000);
  }

  lemma NothingAbove32(acc: nat, c: nat)
    ensures Low32(TWO_32 * c) == 0 && Low32(acc + TWO_32 * c) == Low32(acc)
  {
    var q, r := acc / TWO_32, acc % TWO_32;
    assert Low32(acc) == r && acc == TWO_32 * q + r;
    hide Low32;
    Low32Of(c, 0);
    assert acc + TWO_32 * c == TWO_32 * (q + c) + r;
    Low32Of(q + c, r);
  }

  lemma OrOfGroup(acc: nat, k: nat, g: nat)
    requires acc < Pow128(k)
    ensures Or(acc, g * Pow128(k)) == acc + g * Pow128(k)
  {
    PowersAgree(k);
    OrIsSum(acc, 7 * k, g);
  }

  lemma ShiftedGroup(b: byte, k: nat)
    ensures Shifted(b, k) == b % 128 * Pow128(k)
  {
  }

  lemma OrFits(acc: nat, k: nat, b: byte)
    requires acc < Pow128(k)
    ensures Or(acc, Shifted(b, k)) == acc + Shifted(b, k) < Pow128(k + 1)
  {
    hide Pow128, Or, Shifted, Low64, Low32;
    ShiftedGroup(b, k);
    GroupsFit(acc, k, b);
    OrOfGroup(acc, k, b % 128);
  }

  lemma OrTenth64(acc: nat, b: byte)
    requires acc < Pow128(9)
    ensures Or(Low64(acc), Low64(Shifted(b, 9))) == Low64(acc + Shifted(b, 9))
  {
    hide Pow128, Or, Shifted, Low64, Low32;
    SmallPowers(9);
    ShiftedGroup(b, 9);
    SmallIsLow64(acc);
    LowestBitAbove63(acc, b % 128);
    OrOfGroup(acc, 9, b % 128 % 2);
  }

  lemma OrFifth32(acc: nat, b: byte)
    requires acc < Pow128(4)
    ensures Or(Low32(acc), Low32(Shifted(b, 4))) == Low32(acc + Shifted(b, 4))
  {
    hide Pow128, Or, Shifted, Low64, Low32;
    SmallPowers(4);
    ShiftedGroup(b, 4);
    SmallIsLow(acc);
    FourBitsAbove28(acc, b % 128);
    OrOfGroup(acc, 4, b % 128 % 16);
  }

  /** Or-ing the next group into the 64 bits read so far adds it; of the tenth group one bit is left. */
  lemma OrGroup64(acc: nat, k: nat, b: byte)
    requires k < 10 && acc < Pow128(k)
    ensures Or(Low64(acc), Low64(Shifted(b, k))) == Low64(acc + Shifted(b, k))
  {
    hide Pow128, Or, Shifted, Low64, Low32;
    if k < 9 {
      OrFits(acc, k, b);
      SmallPowers(k + 1);
      SmallIsLow64(acc);
      SmallIsLow64(Shifted(b, k));
      SmallIsLow64(acc + Shifted(b, k));
    } else {
      OrTenth64(acc, b);
    }
  }

  /** Of the fifth group, 32 bits leave four bits, and nothing of the later ones. */
  lemma OrGroup32(acc: nat, k: nat, b: byte)
    requires acc < Pow128(k)
    ensures Or(Low32(acc), Low32(Shifted(b, k))) == Low32(acc + Shifted(b, k))
  {
    hide Pow128, Or, Shifted, Low64, Low32;
    if k < 4 {
      OrFits(acc, k, b);
      SmallPowers(k + 1);
      SmallIsLow(acc);
      SmallIsLow(Shifted(b, k));
      SmallIsLow(acc + Shifted(b, k));
    } else if k == 4 {
      OrFifth32(acc, b);
    } else {
      ShiftedGroup(b, k);
      var c := HighGroup(b % 128, k);
      NothingAbove32(acc, c);
      OrZero(Low32(acc));
    }
  }

  lemma {:induction false} HighGroup(g: nat, k: nat) returns (c: nat)
    requires k >= 5
    ensures g * Pow128(k) == TWO_32 * c
    decreases k
  {
    if k == 5 {
      SmallPowers(4);
      c := 8 * g;
    } else {
      var d := HighGroup(g, k - 1);
      c := 128 * d;
      assert g * Pow128(k) == 128 * (g * Pow128(k - 1));
    }
  }

  lemma {:induction false} OrZero(a: nat)
    ensures Or(a, 0) == a
  {
    if a > 0 { OrZero(a / 2); }
  }

  /** The read loop that UnmarshalVT repeats for tags, lengths and 64-bit integers. */
  method ReadUint64(dAtA: bytes, iNdEx: nat) returns (r: Result<Sized<uint64>>)
    requires iNdEx <= |dAtA|
    ensures r == ReadVarint(dAtA[iNdEx..])
  {
    NoGroups();
    hide ReadGroups, Join, Shifted, Pow128, Or, Low64;
    JoinStart(dAtA[iNdEx..]);
    var wire: nat, k: nat := 0, 0;
    ghost var acc: nat := 0;
    while true
      invariant k <= 10 && iNdEx + k <= |dAtA|
      invariant acc < Pow128(k)
      invariant wire == Low64(acc)
      invariant ReadGroups(dAtA[iNdEx..], 0) == Join(acc, k, ReadGroups(dAtA[iNdEx + k..], k))
      decreases 10 - k
    {
      if 7 * k >= 64 {
        JoinFails(acc, k, dAtA[iNdEx + k..]);
        return Err(IntOverflow);
      }
      if iNdEx + k >= |dAtA| {
        JoinFails(acc, k, dAtA[iNdEx + k..]);
        return Err(UnexpectedEOF);
      }
      var b := dAtA[iNdEx + k];
      JoinStep(acc, k, dAtA[iNdEx + k..]);
      assert dAtA[iNdEx + k..][1..] == dAtA[iNdEx + (k + 1)..];
      OrGroup64(acc, k, b);
      GroupsFit(acc, k, b);
      wire := Or(wire, Low64(Shifted(b, k)));
      acc := acc + Shifted(b, k);
      k := k + 1;
      if b < 0x80 {
        return Ok(Sized(wire, k));
      }
    }
  }

  lemma Truncations(x: nat)
    ensures ToInt32(Low64(x)) == ToInt32(x) == ToInt32(Low32(x))
  {
    assert x % TWO_64 % TWO_32 == x % TWO_32;
  }

  /** The read loop for a 32-bit integer: groups shifted beyond bit 31 are lost. */
  method ReadInt32(dAtA: bytes, iNdEx: nat) returns (r: Result<Sized<int32>>)
    requires iNdEx <= |dAtA|
    ensures r == match ReadVarint(dAtA[iNdEx..])
                 case Err(e) => Err(e)
                 case Ok(Sized(v, n)) => Ok(Sized(ToInt32(v), n))
  {
    NoGroups();
    hide ReadGroups, Join, Shifted, Pow128, ToInt32, Or, Low32;
    JoinStart(dAtA[iNdEx..]);
    var w: nat, k: nat := 0, 0;
    ghost var acc: nat := 0;
    while true
      invariant k <= 10 && iNdEx + k <= |dAtA|
      invariant acc < Pow128(k)
      invariant w == Low32(acc)
      invariant ReadGroups(dAtA[iNdEx..], 0) == Join(acc, k, ReadGroups(dAtA[iNdEx + k..], k))
      decreases 10 - k
    {
      if 7 * k >= 64 {
        JoinFails(acc, k, dAtA[iNdEx + k..]);
        return Err(IntOverflow);
      }
      if iNdEx + k >= |dAtA| {
        JoinFails(acc, k, dAtA[iNdEx + k..]);
        return Err(UnexpectedEOF);
      }
      var b := dAtA[iNdEx + k];
      JoinStep(acc, k, dAtA[iNdEx + k..]);
      assert dAtA[iNdEx + k..][1..] == dAtA[iNdEx + (k + 1)..];
      OrGroup32(acc, k, b);
      GroupsFit(acc, k, b);
      w := Or(w, Low32(Shifted(b, k)));
      acc := acc + Shifted(b, k);
      k := k + 1;
      if b < 0x80 {
        Truncations(acc);
        return Ok(Sized(ToInt32(w), k));
      }
    }
  }

  // ----- writing backwards into a buffer -----

  /** Between two contents of a buffer, exactly the cells from i to n changed, and they hold x. */
  ghost predicate Wrote(before: bytes, after: bytes, i: nat, n: nat, x: bytes) {
    i <= n <= |before| && after == before[..i] + x + before[n..] && |x| == n - i
  }

  lemma WroteThen(before: bytes, mid: bytes, after: bytes, j: nat, i: nat, n: nat, y: bytes, x: bytes)
    requires Wrote(before, mid, i, n, x)
    requires Wrote(mid, after, j, i, y)
    ensures Wrote(before, after, j, n, y + x)
  {
    assert mid[..j] == before[..j];
    assert mid[i..] == x + before[n..];
  }

  lemma WroteAll(before: bytes, after: bytes, x: bytes)
    requires Wrote(before, after, 0, |before|, x)
    ensures after == x
  {
  }

  lemma WroteNext(before: bytes, mid: bytes, i: nat, n: nat, x: bytes, b: byte)
    requires Wrote(before, mid, i, n, x) && n < |before|
    ensures Wrote(before, mid[n := b], i, n + 1, x + [b])
  {
    assert mid[n + 1..] == before[n + 1..];
    assert mid[n := b] == before[..i] + (x + [b]) + before[n + 1..];
  }

  method SetByte(dAtA: array<byte>, i: nat, b: byte)
    requires i < dAtA.Length
    modifies dAtA
    ensures dAtA[..] == old(dAtA[..])[i := b]
  {
    dAtA[i] := b;
  }

  lemma VarintContinues(done: bytes, v: nat)
    requires v >= 128
    ensures done + VarintOf(v) == done + [v % 128 + 128] + VarintOf(v / 128)
  {
    assert VarintOf(v) == [v % 128 + 128] + VarintOf(v / 128);
  }

  method EncodeVarint(dAtA: array<byte>, end: nat, value: uint64) returns (base: nat)
    requires |VarintOf(value)| <= end <= dAtA.Length
    modifies dAtA
    ensures base == end - Sov(value)
    ensures Wrote(old(dAtA[..]), dAtA[..], base, end, VarintOf(value))
  {
    SovIsLength(value);
    var offset := end - Sov(value);
    base := offset;
    var v: nat := value;
    ghost var done: bytes := [];
    while v >= 0x80
      invariant base <= offset && offset + |VarintOf(v)| == end
      invariant done + VarintOf(v) == VarintOf(value)
      invariant Wrote(old(dAtA[..]), dAtA[..], base, offset, done)
      decreases v
    {
      var b: byte := v % 128 + 128;
      WroteNext(old(dAtA[..]), dAtA[..], base, offset, done, b);
      VarintContinues(done, v);
      SetByte(dAtA, offset, b);
      done := done + [b];
      v := v / 128;
      offset := offset + 1;
    }
    var b: byte := v;
    WroteNext(old(dAtA[..]), dAtA[..], base, offset, done, b);
    SetByte(dAtA, offset, b);
  }

  /** Go's copy(dAtA[i:], src) when src fits. */
  method Copy(dAtA: array<byte>, i: nat, src: bytes)
    requires i + |src| <= dAtA.Length
    modifies dAtA
    ensures Wrote(old(dAtA[..]), dAtA[..], i, i + |src|, src)
  {
    forall k | 0 <= k < |src| { dAtA[i + k] := src[k]; }
    assert dAtA[..] == old(dAtA[..i]) + src + old(dAtA[i + |src|..]);
  }
}
