/** The skipper that steps over one record of any kind, groups included, and the wire grammar
    it recognises. */
module Skipping {
  import opened Varints

  // ----- what the loop computes -----

  /** The length of the body that follows a tag, when it has one. */
  function BodySize(wireType: nat, s: bytes): (r: Result<nat>) {
    if wireType == 0 then
      match ReadVarint(s)
      case Err(e) => Err(e)
      case Ok(Sized(_, k)) => Ok(k)
    else if wireType == 1 then Ok(8)
    else if wireType == 2 then
      match ReadVarint(s)
      case Err(e) => Err(e)
      case Ok(Sized(v, k)) => if ToInt64(v) < 0 then Err(InvalidLength) else Ok(k + ToInt64(v))
    else if wireType == 3 || wireType == 4 then Ok(0)
    else if wireType == 5 then Ok(4)
    else Err(IllegalWireType)
  }

  function Delta(wireType: nat): (d: int) {
    if wireType == 3 then 1 else if wireType == 4 then -1 else 0
  }

  /** One tag with the body it announces: how it changes the group depth, and how long it is. */
  datatype Token = Token(delta: int, size: nat)

  function ReadToken(s: bytes): (r: Result<Token>)
    ensures r.Ok? ==> r.value.size >= 1 && -1 <= r.value.delta <= 1
  {
    match ReadVarint(s)
    case Err(e) => Err(e)
    case Ok(Sized(wire, n)) =>
      match BodySize(wire % 8, s[n..])
      case Err(e) => Err(e)
      case Ok(k) => Ok(Token(Delta(wire % 8), n + k))
  }

  /** What remains to be skipped in s when `base` bytes are behind and `depth` groups are open. */
  function SkipFrom(base: nat, s: bytes, depth: nat): (r: Result<nat>)
    ensures r.Ok? ==> r.value >= 1
    decreases |s|
  {
    if s == [] then Err(UnexpectedEOF)
    else match ReadToken(s)
      case Err(e) => Err(e)
      case Ok(Token(delta, n)) =>
        if depth + delta < 0 then Err(UnexpectedEndOfGroup)
        else if base + n > MAX_INT then Err(InvalidLength)
        else if depth + delta == 0 then Ok(n)
        else if n >= |s| then Err(UnexpectedEOF)
        else match SkipFrom(base + n, s[n..], depth + delta)
          case Err(e) => Err(e)
          case Ok(k) => Ok(n + k)
  }

  function SkipRecord(s: bytes): (r: Result<nat>)
    ensures r.Ok? ==> r.value >= 1
  {
    SkipFrom(0, s, 0)
  }

  // ----- the grammar -----

  /** A record of the wire format. Every part keeps its bytes, as tags and lengths
      need not be minimal. */
  datatype Field =
    | Scalar(tag: bytes, body: bytes)
    | Delimited(tag: bytes, len: bytes, payload: bytes)
    | Group(start: bytes, fields: Fields, end: bytes)

  datatype Fields = Nil | Cons(head: Field, tail: Fields)

  ghost predicate IsVarint(b: bytes) {
    ReadVarint(b).Ok? && ReadVarint(b).value.size == |b|
  }

  ghost predicate IsTag(b: bytes, wireType: nat) {
    IsVarint(b) && ReadVarint(b).value.value % 8 == wireType
  }

  /** Balanced records; the number of a group's end tag need not match its start. */
  ghost predicate WellFormed(f: Field) {
    match f
    case Scalar(tag, body) =>
      || (IsTag(tag, 0) && IsVarint(body))
      || (IsTag(tag, 1) && |body| == 8)
      || (IsTag(tag, 5) && |body| == 4)
    case Delimited(tag, len, payload) =>
      IsTag(tag, 2) && IsVarint(len) && ReadVarint(len).value.value == |payload| <= MAX_INT
    case Group(start, fields, end) =>
      IsTag(start, 3) && AllWellFormed(fields) && IsTag(end, 4)
  }

  ghost predicate AllWellFormed(fs: Fields) {
    match fs
    case Nil => true
    case Cons(f, tail) => WellFormed(f) && AllWellFormed(tail)
  }

  ghost function Bytes(f: Field): bytes {
    match f
    case Scalar(tag, body) => tag + body
    case Delimited(tag, len, payload) => tag + len + payload
    case Group(start, fields, end) => start + AllBytes(fields) + end
  }

  ghost function AllBytes(fs: Fields): bytes {
    match fs
    case Nil => []
    case Cons(f, tail) => Bytes(f) + AllBytes(tail)
  }

  // ----- every well-formed record is skipped exactly -----

  lemma ReadsVarint(b: bytes, t: bytes)
    requires IsVarint(b)
    ensures ReadVarint(b + t) == ReadVarint(b)
  {
    ReadVarintPrefix(b, t);
    assert b[..|b|] == b;
  }

  lemma ReadsTwoVarints(tag: bytes, b: bytes, t: bytes)
    requires IsVarint(tag) && IsVarint(b)
    ensures ReadVarint(tag + b + t) == ReadVarint(tag)
    ensures ReadVarint((tag + b + t)[|tag|..]) == ReadVarint(b)
  {
    ReadsVarint(tag, b + t);
    ReadsVarint(b, t);
    assert tag + b + t == tag + (b + t);
    assert (tag + b + t)[|tag|..] == b + t;
  }

  lemma LeafToken(f: Field, t: bytes)
    requires !f.Group? && WellFormed(f)
    ensures ReadToken(Bytes(f) + t) == Ok(Token(0, |Bytes(f)|))
  {
    hide ReadVarint;
    match f {
      case Scalar(tag, body) =>
        if IsTag(tag, 0) {
          ReadsTwoVarints(tag, body, t);
        } else {
          ReadsVarint(tag, body + t);
          assert tag + body + t == tag + (body + t);
        }
      case Delimited(tag, len, payload) =>
        ReadsTwoVarints(tag, len, payload + t);
        assert tag + len + payload + t == tag + len + (payload + t);
    }
  }

  lemma GroupToken(tag: bytes, wireType: nat, t: bytes)
    requires wireType == 3 || wireType == 4
    requires IsTag(tag, wireType)
    ensures |tag| >= 1
    ensures ReadToken(tag + t) == Ok(Token(if wireType == 3 then 1 else -1, |tag|))
  {
    hide ReadVarint;
    ReadsVarint(tag, t);
  }

  lemma {:induction false} SkipsField(f: Field, base: nat, t: bytes, depth: nat)
    requires WellFormed(f) && base + |Bytes(f)| <= MAX_INT
    requires depth == 0 || t != []
    ensures SkipFrom(base, Bytes(f) + t, depth) ==
            if depth == 0 then Ok(|Bytes(f)|) else Plus(|Bytes(f)|, SkipFrom(base + |Bytes(f)|, t, depth))
    decreases f, 1
  {
    hide ReadToken, ReadVarint, IsTag;
    match f {
      case Group(start, fields, end) =>
        SkipsGroup(start, fields, end, base, t, depth);
      case _ =>
        hide Bytes;
        LeafToken(f, t);
        assert (Bytes(f) + t)[|Bytes(f)|..] == t;
    }
  }

  lemma PlusPlus(n: nat, k: nat, r: Result<nat>)
    ensures Plus(n, Plus(k, r)) == Plus(n + k, r)
    ensures r.Ok? ==> Plus(n + k, r) == Ok(n + k + r.value)
  {
  }

  lemma SkipStep(base: nat, s: bytes, depth: nat, delta: int, n: nat)
    requires s != [] && ReadToken(s) == Ok(Token(delta, n)) && depth + delta >= 0
    requires base + n <= MAX_INT && (depth + delta == 0 || n < |s|)
    ensures SkipFrom(base, s, depth) ==
            if depth + delta == 0 then Ok(n) else Plus(n, SkipFrom(base + n, s[n..], depth + delta))
  {
    hide ReadToken;
  }

  lemma {:induction false} SkipsGroup(start: bytes, fields: Fields, end: bytes, base: nat, t: bytes, depth: nat)
    requires IsTag(start, 3) && AllWellFormed(fields) && IsTag(end, 4)
    requires base + |start| + |AllBytes(fields)| + |end| <= MAX_INT
    requires depth == 0 || t != []
    ensures var n := |start| + |AllBytes(fields)| + |end|;
            SkipFrom(base, start + AllBytes(fields) + end + t, depth) ==
            if depth == 0 then Ok(n) else Plus(n, SkipFrom(base + n, t, depth))
    decreases fields, 2
  {
    hide *;
    var inner, u := AllBytes(fields), end + t;
    var s := start + inner + end + t;
    assert s == start + (inner + u);
    GroupToken(start, 3, inner + u);
    GroupToken(end, 4, t);
    SkipStep(base, s, depth, 1, |start|);
    assert s[|start|..] == inner + u;
    SkipStep(base + |start| + |inner|, u, depth + 1, -1, |end|);
    assert u[|end|..] == t;
    SkipsFields(fields, base + |start|, u, depth + 1);
    var last := SkipFrom(base + |start| + |inner|, u, depth + 1);
    PlusPlus(|start|, |inner|, last);
    PlusPlus(|start| + |inner|, |end|, SkipFrom(base + |start| + |inner| + |end|, t, depth));
  }

  lemma {:induction false} SkipsFields(fs: Fields, base: nat, t: bytes, depth: nat)
    requires AllWellFormed(fs) && base + |AllBytes(fs)| <= MAX_INT
    requires depth > 0 && t != []
    ensures SkipFrom(base, AllBytes(fs) + t, depth) ==
            Plus(|AllBytes(fs)|, SkipFrom(base + |AllBytes(fs)|, t, depth))
    decreases fs, 1
  {
    hide SkipFrom, WellFormed, Bytes;
    match fs {
      case Nil => assert AllBytes(fs) + t == t;
      case Cons(f, tail) =>
        SkipsField(f, base, AllBytes(tail) + t, depth);
        SkipsFields(tail, base + |Bytes(f)|, t, depth);
        assert AllBytes(fs) + t == Bytes(f) + (AllBytes(tail) + t);
    }
  }

  ghost function Plus(n: nat, r: Result<nat>): Result<nat> {
    match r
    case Err(e) => Err(e)
    case Ok(k) => Ok(n + k)
  }

  // ----- everything skipped inside the buffer is one well-formed record -----

  ghost function LeafAt(s: bytes): (f: Field)
    requires ReadToken(s).Ok? && ReadToken(s).value.delta == 0 && ReadToken(s).value.size <= |s|
  {
    var n, size := ReadVarint(s).value.size, ReadToken(s).value.size;
    if ReadVarint(s).value.value % 8 == 2 then
      var k := ReadVarint(s[n..]).value.size;
      Delimited(s[..n], s[n..n + k], s[n + k..size])
    else
      Scalar(s[..n], s[n..size])
  }

  lemma PrefixIsVarint(s: bytes)
    requires ReadVarint(s).Ok?
    ensures IsVarint(s[..ReadVarint(s).value.size])
    ensures ReadVarint(s[..ReadVarint(s).value.size]) == ReadVarint(s)
  {
    ReadVarintPrefix(s, []);
    var n := ReadVarint(s).value.size;
    assert s[..n] + [] == s[..n];
  }

  lemma LeafIsWellFormed(s: bytes)
    requires ReadToken(s).Ok? && ReadToken(s).value.delta == 0 && ReadToken(s).value.size <= |s|
    ensures WellFormed(LeafAt(s)) && Bytes(LeafAt(s)) == s[..ReadToken(s).value.size]
  {
    hide ReadVarint;
    PrefixIsVarint(s);
    var n, size := ReadVarint(s).value.size, ReadToken(s).value.size;
    var wireType := ReadVarint(s).value.value % 8;
    if wireType == 0 || wireType == 2 {
      PrefixIsVarint(s[n..]);
      var k := ReadVarint(s[n..]).value.size;
      assert s[n..][..k] == s[n..n + k];
    }
  }

  lemma GroupTokenShape(s: bytes)
    requires ReadToken(s).Ok? && ReadToken(s).value.delta != 0
    ensures ReadToken(s).value.size <= |s|
    ensures IsTag(s[..ReadToken(s).value.size], if ReadToken(s).value.delta == 1 then 3 else 4)
  {
    hide ReadVarint;
    PrefixIsVarint(s);
  }

  /** With a group open, a successful skip that does not meet its end tag passes one record f. */
  lemma {:induction false} PassField(base: nat, s: bytes, depth: nat) returns (f: Field, k: nat)
    requires depth > 0
    requires SkipFrom(base, s, depth).Ok? && SkipFrom(base, s, depth).value <= |s|
    requires ReadToken(s).Ok? ==> ReadToken(s).value.delta != -1
    ensures WellFormed(f)
    ensures 1 <= k <= |s| && Bytes(f) == s[..k]
    ensures SkipFrom(base, s, depth) == Plus(k, SkipFrom(base + k, s[k..], depth))
    decreases |s|, 0
  {
    hide ReadToken, LeafAt, IsTag, WellFormed, Bytes;
    var Token(delta, n) := ReadToken(s).value;
    if delta == 0 {
      LeafIsWellFormed(s);
      f, k := LeafAt(s), n;
    } else {
      GroupTokenShape(s);
      var fs, e, k1 := CloseGroup(base + n, s[n..], depth + 1);
      f, k := Group(s[..n], fs, e), n + k1;
      GroupField(s[..n], fs, e);
      JoinSlices(s, n, k1);
    }
  }

  lemma FirstToken(base: nat, s: bytes, depth: nat)
    requires depth > 0 && SkipFrom(base, s, depth).Ok?
    ensures ReadToken(s).Ok?
  {
    hide ReadToken;
  }

  /** An end tag closes the innermost group. */
  lemma EndTag(base: nat, s: bytes, depth: nat, n: nat)
    requires depth > 0 && SkipFrom(base, s, depth).Ok? && ReadToken(s) == Ok(Token(-1, n)) && n <= |s|
    ensures SkipFrom(base, s, depth) == if depth == 1 then Ok(n) else Plus(n, SkipFrom(base + n, s[n..], depth - 1))
  {
    hide ReadToken;
  }

  /** With a group open, a successful skip first passes the rest of that group: records fs and
      an end tag e. */
  lemma {:induction false} CloseGroup(base: nat, s: bytes, depth: nat) returns (fs: Fields, e: bytes, k: nat)
    requires depth > 0
    requires SkipFrom(base, s, depth).Ok? && SkipFrom(base, s, depth).value <= |s|
    ensures AllWellFormed(fs) && IsTag(e, 4)
    ensures 1 <= k <= SkipFrom(base, s, depth).value && AllBytes(fs) + e == s[..k]
    ensures if depth == 1 then k == SkipFrom(base, s, depth).value
            else SkipFrom(base, s, depth) == Plus(k, SkipFrom(base + k, s[k..], depth - 1))
    decreases |s|, 1
  {
    hide SkipFrom, ReadToken, IsTag, WellFormed, Bytes, AllBytes, AllWellFormed;
    FirstToken(base, s, depth);
    var n := ReadToken(s).value.size;
    if ReadToken(s).value.delta == -1 {
      GroupTokenShape(s);
      EndTag(base, s, depth, n);
      NoFields(s[..n]);
      return Nil, s[..n], n;
    }
    var f, k1 := PassField(base, s, depth);
    var fs2, e2, k2 := CloseGroup(base + k1, s[k1..], depth);
    ConsFields(f, fs2, e2);
    JoinSlices(s, k1, k2);
    return Cons(f, fs2), e2, k1 + k2;
  }

  lemma NoFields(e: bytes)
    ensures AllWellFormed(Nil) && AllBytes(Nil) + e == e
  {
  }

  lemma ConsFields(f: Field, fs: Fields, e: bytes)
    ensures AllBytes(Cons(f, fs)) + e == Bytes(f) + (AllBytes(fs) + e)
    ensures WellFormed(f) && AllWellFormed(fs) ==> AllWellFormed(Cons(f, fs))
  {
  }

  lemma JoinSlices(s: bytes, n: nat, k: nat)
    requires n + k <= |s|
    ensures s[n..][k..] == s[n + k..]
    ensures s[..n] + s[n..][..k] == s[..n + k]
  {
  }

  lemma GroupField(start: bytes, fs: Fields, e: bytes)
    requires IsTag(start, 3) && AllWellFormed(fs) && IsTag(e, 4)
    ensures WellFormed(Group(start, fs, e))
    ensures Bytes(Group(start, fs, e)) == start + (AllBytes(fs) + e)
  {
  }

  lemma SkippedIsField(s: bytes) returns (f: Field)
    requires SkipRecord(s).Ok? && SkipRecord(s).value <= |s|
    ensures WellFormed(f) && Bytes(f) == s[..SkipRecord(s).value]
  {
    hide ReadToken, LeafAt, IsTag;
    var Token(delta, n) := ReadToken(s).value;
    if delta == 0 {
      LeafIsWellFormed(s);
      f := LeafAt(s);
    } else {
      GroupTokenShape(s);
      var fs, e, k := CloseGroup(n, s[n..], 1);
      f := Group(s[..n], fs, e);
      GroupField(s[..n], fs, e);
      JoinSlices(s, n, k);
    }
  }

  /** The skipper returns n inside the buffer exactly when the first n bytes are one record. */
  lemma SkipRefinesGrammar(s: bytes, n: nat)
    requires n <= |s| && n <= MAX_INT
    ensures SkipRecord(s) == Ok(n) <==> exists f :: WellFormed(f) && Bytes(f) == s[..n]
  {
    hide SkipFrom, ReadToken, WellFormed, Bytes;
    if SkipRecord(s) == Ok(n) {
      var f := SkippedIsField(s);
    }
    if f :| WellFormed(f) && Bytes(f) == s[..n] {
      SkipsField(f, 0, s[n..], 0);
      assert s == s[..n] + s[n..];
    }
  }

  /** What follows a record has no influence on how it is skipped. */
  lemma SkipIgnoresSuffix(s: bytes, t: bytes)
    requires SkipRecord(s).Ok? && SkipRecord(s).value <= |s|
    ensures SkipRecord(s).value <= MAX_INT
    ensures SkipRecord(s[..SkipRecord(s).value] + t) == SkipRecord(s)
  {
    hide SkipFrom, ReadToken, WellFormed, Bytes;
    var n := SkipRecord(s).value;
    SkipBounded(0, s, 0);
    var f := SkippedIsField(s);
    SkipsField(f, 0, t, 0);
  }

  lemma {:induction false} SkipBounded(base: nat, s: bytes, depth: nat)
    requires SkipFrom(base, s, depth).Ok?
    ensures base + SkipFrom(base, s, depth).value <= MAX_INT
    decreases |s|
  {
    hide ReadToken;
    var Token(delta, n) := ReadToken(s).value;
    if depth + delta != 0 {
      SkipBounded(base + n, s[n..], depth + delta);
    }
  }

  lemma SkipExtend(s: bytes, t: bytes)
    requires SkipRecord(s).Ok? && SkipRecord(s).value <= |s|
    ensures SkipRecord(s + t) == SkipRecord(s)
  {
    var n := SkipRecord(s).value;
    SkipIgnoresSuffix(s, s[n..] + t);
    assert s[..n] + (s[n..] + t) == s + t;
  }

  // ----- the loop -----

  /** The body that follows the tag of a token: what the switch of the loop does with it. */
  method SkipBody(dAtA: bytes, iNdEx: nat, wireType: nat, depth: nat) returns (r: Result<(int, nat)>)
    requires iNdEx <= |dAtA| <= MAX_INT && wireType < 8
    requires wireType == 4 ==> depth > 0
    ensures match BodySize(wireType, dAtA[iNdEx..])
            case Err(e) => r == Err(e)
            case Ok(k) =>
              if iNdEx + k > MAX_INT then r == Err(InvalidLength)
              else r == Ok((iNdEx + k, depth + Delta(wireType)))
  {
    var next: int := iNdEx;
    var d := depth;
    if wireType == 0 {
      var v := ReadUint64(dAtA, iNdEx);
      if v.Err? { return Err(v.error); }
      next := iNdEx + v.value.size;
    } else if wireType == 1 {
      next := AddInt(iNdEx, 8);
    } else if wireType == 2 {
      var v := ReadUint64(dAtA, iNdEx);
      if v.Err? { return Err(v.error); }
      var length := ToInt64(v.value.value);
      if length < 0 {
        return Err(InvalidLength);
      }
      next := AddInt(iNdEx + v.value.size, length);
    } else if wireType == 3 {
      d := d + 1;
    } else if wireType == 4 {
      d := d - 1;
    } else if wireType == 5 {
      next := AddInt(iNdEx, 4);
    } else {
      return Err(IllegalWireType);
    }
    if next < 0 {
      return Err(InvalidLength);
    }
    return Ok((next, d));
  }

  /** One iteration, in terms of what the loop reads. */
  lemma SkipIteration(base: nat, s: bytes, depth: nat)
    requires s != []
    ensures SkipFrom(base, s, depth) ==
            match ReadVarint(s)
            case Err(e) => Err(e)
            case Ok(Sized(wire, n)) =>
              if wire % 8 == 4 && depth == 0 then Err(UnexpectedEndOfGroup)
              else match BodySize(wire % 8, s[n..])
                case Err(e) => Err(e)
                case Ok(k) =>
                  if base + n + k > MAX_INT then Err(InvalidLength)
                  else if depth + Delta(wire % 8) == 0 then Ok(n + k)
                  else if n + k >= |s| then Err(UnexpectedEOF)
                  else Plus(n + k, SkipFrom(base + n + k, s[n + k..], depth + Delta(wire % 8)))
  {
    hide ReadVarint;
  }

  /** What the loop still has to do after iNdEx bytes. */
  ghost function Remaining(dAtA: bytes, iNdEx: nat, depth: nat): Result<nat> {
    if iNdEx >= |dAtA| then Err(UnexpectedEOF) else Plus(iNdEx, SkipFrom(iNdEx, dAtA[iNdEx..], depth))
  }

  lemma RemainingStep(dAtA: bytes, iNdEx: nat, depth: nat, wire: Sized<uint64>, k: nat)
    requires iNdEx < |dAtA| && ReadVarint(dAtA[iNdEx..]) == Ok(wire)
    requires wire.value % 8 == 4 ==> depth > 0
    requires BodySize(wire.value % 8, dAtA[iNdEx + wire.size..]) == Ok(k)
    requires iNdEx + wire.size + k <= MAX_INT
    ensures var d := depth + Delta(wire.value % 8);
            Remaining(dAtA, iNdEx, depth) ==
            if d == 0 then Ok(iNdEx + wire.size + k) else Remaining(dAtA, iNdEx + wire.size + k, d)
  {
    hide ReadVarint, BodySize, SkipFrom;
    var s, n := dAtA[iNdEx..], wire.size;
    SkipIteration(iNdEx, s, depth);
    assert s[n..] == dAtA[iNdEx + n..];
    if n + k < |s| {
      assert s[n + k..] == dAtA[iNdEx + n + k..];
    }
  }

  lemma RemainingFails(dAtA: bytes, iNdEx: nat, depth: nat)
    requires iNdEx < |dAtA|
    ensures var s := dAtA[iNdEx..];
            match ReadVarint(s)
            case Err(e) => Remaining(dAtA, iNdEx, depth) == Err(e)
            case Ok(Sized(wire, n)) =>
              if wire % 8 == 4 && depth == 0 then Remaining(dAtA, iNdEx, depth) == Err(UnexpectedEndOfGroup)
              else match BodySize(wire % 8, dAtA[iNdEx + n..])
                case Err(e) => Remaining(dAtA, iNdEx, depth) == Err(e)
                case Ok(k) => iNdEx + n + k > MAX_INT ==> Remaining(dAtA, iNdEx, depth) == Err(InvalidLength)
  {
    hide ReadVarint, BodySize, SkipFrom;
    SkipIteration(iNdEx, dAtA[iNdEx..], depth);
    if ReadVarint(dAtA[iNdEx..]).Ok? {
      var n := ReadVarint(dAtA[iNdEx..]).value.size;
      assert dAtA[iNdEx..][n..] == dAtA[iNdEx + n..];
    }
  }

  lemma RemainingStart(dAtA: bytes)
    ensures Remaining(dAtA, 0, 0) == SkipRecord(dAtA)
  {
    assert dAtA[0..] == dAtA;
  }

  method Skip(dAtA: bytes) returns (r: Result<nat>)
    requires |dAtA| <= MAX_INT
    ensures r == SkipRecord(dAtA)
  {
    hide ReadVarint, BodySize, SkipFrom, SkipRecord, Remaining;
    var l := |dAtA|;
    var iNdEx: nat, depth: nat := 0, 0;
    RemainingStart(dAtA);
    while iNdEx < l
      invariant iNdEx <= MAX_INT
      invariant SkipRecord(dAtA) == Remaining(dAtA, iNdEx, depth)
      decreases l - iNdEx
    {
      RemainingFails(dAtA, iNdEx, depth);
      var wire := ReadUint64(dAtA, iNdEx);
      if wire.Err? {
        return Err(wire.error);
      }
      var wireType := wire.value.value % 8;
      if wireType == 4 && depth == 0 {
        return Err(UnexpectedEndOfGroup);
      }
      var body := SkipBody(dAtA, iNdEx + wire.value.size, wireType, depth);
      if body.Err? {
        return Err(body.error);
      }
      RemainingStep(dAtA, iNdEx, depth, wire.value, body.value.0 - iNdEx - wire.value.size);
      iNdEx, depth := body.value.0, body.value.1;
      if depth == 0 {
        return Ok(iNdEx);
      }
    }
    RemainingEnds(dAtA, iNdEx, depth);
    return Err(UnexpectedEOF);
  }

  lemma RemainingEnds(dAtA: bytes, iNdEx: nat, depth: nat)
    requires iNdEx >= |dAtA|
    ensures Remaining(dAtA, iNdEx, depth) == Err(UnexpectedEOF)
  {
  }
}
