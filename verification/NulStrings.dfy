/** Lists of strings as NUL-terminated fields: two producers in the guest, one reader in the host. */
module NulStrings {
  import opened Options
  import opened Varints

  predicate NulFree(s: bytes) {
    0 !in s
  }

  // ----- what the format means -----

  function Terminated(xs: seq<bytes>): bytes {
    if xs == [] then [] else xs[0] + [0] + Terminated(xs[1..])
  }

  /** The fields of b, cut at each NUL; cur is the beginning of the first one.
      A last field without a NUL is dropped. */
  function Fields(cur: bytes, b: bytes): seq<bytes>
    decreases b
  {
    if b == [] then []
    else if b[0] == 0 then [cur] + Fields([], b[1..])
    else Fields(cur + [b[0]], b[1..])
  }

  function NonEmpty(xs: seq<bytes>): seq<bytes> {
    if xs == [] then []
    else if xs[0] == [] then NonEmpty(xs[1..])
    else [xs[0]] + NonEmpty(xs[1..])
  }

  lemma {:induction false} FieldsOfText(cur: bytes, x: bytes, t: bytes)
    requires NulFree(x)
    ensures Fields(cur, x + [0] + t) == [cur + x] + Fields([], t)
    decreases x
  {
    var b := x + [0] + t;
    if x == [] {
      assert b[1..] == t;
      assert cur + x == cur;
    } else {
      assert b[1..] == x[1..] + [0] + t;
      assert x[0] in x && forall c | c in x[1..] :: c in x;
      FieldsOfText(cur + [x[0]], x[1..], t);
      assert cur + [x[0]] + x[1..] == cur + x;
    }
  }

  lemma {:induction false} FieldsOfTerminated(xs: seq<bytes>)
    requires forall x | x in xs :: NulFree(x)
    ensures Fields([], Terminated(xs)) == xs
  {
    if xs != [] {
      FieldsOfText([], xs[0], Terminated(xs[1..]));
      FieldsOfTerminated(xs[1..]);
      assert [] + xs[0] == xs[0];
    }
  }

  lemma {:induction false} FieldsAreNulFree(cur: bytes, b: bytes)
    requires NulFree(cur)
    ensures forall x | x in Fields(cur, b) :: NulFree(x)
    decreases b
  {
    if b != [] {
      if b[0] == 0 { FieldsAreNulFree([], b[1..]); } else { FieldsAreNulFree(cur + [b[0]], b[1..]); }
    }
  }

  lemma {:induction false} NonEmptyMembers(xs: seq<bytes>)
    ensures forall x :: x in NonEmpty(xs) <==> x in xs && x != []
  {
    if xs != [] { NonEmptyMembers(xs[1..]); }
  }

  lemma {:induction false} NonEmptyAppend(xs: seq<bytes>, ys: seq<bytes>)
    ensures NonEmpty(xs + ys) == NonEmpty(xs) + NonEmpty(ys)
  {
    if xs == [] {
      assert xs + ys == ys;
    } else {
      assert (xs + ys)[1..] == xs[1..] + ys;
      NonEmptyAppend(xs[1..], ys);
    }
  }

  lemma {:induction false} NonEmptyTwice(xs: seq<bytes>)
    ensures NonEmpty(NonEmpty(xs)) == NonEmpty(xs)
  {
    if xs != [] {
      NonEmptyTwice(xs[1..]);
      if xs[0] != [] { NonEmptyAppend([xs[0]], NonEmpty(xs[1..])); }
    }
  }

  /** The host recovers the non-empty strings, in order, exactly when no string contains a NUL;
      whether the guest has dropped the empty strings before makes no difference. */
  lemma ReadsNonEmpty(xs: seq<bytes>)
    ensures NonEmpty(Fields([], Terminated(xs))) == NonEmpty(xs) <==> forall x | x in xs :: NulFree(x)
    ensures NonEmpty(Fields([], Terminated(NonEmpty(xs)))) == NonEmpty(xs) <==> forall x | x in xs :: NulFree(x)
  {
    NonEmptyMembers(xs);
    ReadsNonEmptyOf(xs);
    ReadsNonEmptyOf(NonEmpty(xs));
    NonEmptyTwice(xs);
    assert (forall x | x in xs :: NulFree(x)) <==> (forall x | x in NonEmpty(xs) :: NulFree(x)) by {
      assert NulFree([]);
    }
  }

  lemma ReadsNonEmptyOf(xs: seq<bytes>)
    ensures NonEmpty(Fields([], Terminated(xs))) == NonEmpty(xs) <==> forall x | x in xs :: NulFree(x)
  {
    if forall x | x in xs :: NulFree(x) {
      FieldsOfTerminated(xs);
    }
    if x :| x in xs && !NulFree(x) {
      FieldsAreNulFree([], Terminated(xs));
      NonEmptyMembers(xs);
      NonEmptyMembers(Fields([], Terminated(xs)));
      assert x in NonEmpty(xs);
    }
  }

  /** Nothing is lost exactly when, besides, no string is empty. */
  lemma KeepsAllStrings(xs: seq<bytes>)
    requires forall x | x in xs :: NulFree(x)
    ensures NonEmpty(Fields([], Terminated(xs))) == xs <==> [] !in xs
  {
    ReadsNonEmpty(xs);
    NonEmptyMembers(xs);
    if [] !in xs { NothingToDrop(xs); }
  }

  lemma {:induction false} NothingToDrop(xs: seq<bytes>)
    requires [] !in xs
    ensures NonEmpty(xs) == xs
  {
    if xs != [] { NothingToDrop(xs[1..]); }
  }

  /** Any bytes are terminated fields and a tail without a NUL; cur is the beginning of the first one. */
  lemma {:induction false} SplitAtNuls(cur: bytes, b: bytes) returns (xs: seq<bytes>, tail: bytes)
    requires NulFree(cur)
    ensures cur + b == Terminated(xs) + tail && NulFree(tail) && forall x | x in xs :: NulFree(x)
    decreases b
  {
    hide Terminated;
    if b == [] {
      xs, tail := [], cur;
      NothingWritten();
      assert cur + b == [] + cur;
    } else {
      var t := b[1..];
      assert b == [b[0]] + t;
      if b[0] == 0 {
        var rest;
        rest, tail := SplitAtNuls([], t);
        xs := [cur] + rest;
        FirstField(cur, rest, tail);
        assert [] + t == t;
      } else {
        xs, tail := SplitAtNuls(cur + [b[0]], t);
      }
      assert cur + b == cur + [b[0]] + t;
    }
  }

  lemma FirstField(cur: bytes, rest: seq<bytes>, tail: bytes)
    ensures Terminated([cur] + rest) + tail == cur + [0] + (Terminated(rest) + tail)
  {
    TerminatedCons(cur, rest);
  }

  lemma {:induction false} TailIsDropped(cur: bytes, tail: bytes)
    requires NulFree(tail)
    ensures Fields(cur, tail) == []
    decreases tail
  {
    if tail != [] {
      assert tail[0] in tail && forall c | c in tail[1..] :: c in tail;
      TailIsDropped(cur + [tail[0]], tail[1..]);
    }
  }

  lemma {:induction false} FieldsBeforeTail(xs: seq<bytes>, tail: bytes)
    requires NulFree(tail) && forall x | x in xs :: NulFree(x)
    ensures Fields([], Terminated(xs) + tail) == xs
  {
    if xs == [] {
      TailIsDropped([], tail);
      assert Terminated(xs) + tail == tail;
    } else {
      var t := Terminated(xs[1..]) + tail;
      assert Terminated(xs) + tail == xs[0] + [0] + t;
      FieldsOfText([], xs[0], t);
      FieldsBeforeTail(xs[1..], tail);
      assert [] + xs[0] == xs[0];
    }
  }

  // ----- keys and values -----

  /** The keys that have a value, each with it, if neither is empty; strings alternate from a key on. */
  function CompletePairs(kvs: seq<bytes>): seq<bytes> {
    if |kvs| < 2 then []
    else (if kvs[0] != [] && kvs[1] != [] then kvs[..2] else []) + CompletePairs(kvs[2..])
  }

  /** Key 2i and its value are both empty or both not; the value of a last key without one counts as empty. */
  predicate HalvesMatch(kvs: seq<bytes>, i: nat)
    requires 2 * i < |kvs|
  {
    kvs[2 * i] == [] <==> 2 * i + 1 == |kvs| || kvs[2 * i + 1] == []
  }

  /** Dropping the empty strings removes whole pairs only exactly when every pair is complete or empty. */
  lemma {:induction false} DropsWholePairs(kvs: seq<bytes>)
    ensures |CompletePairs(kvs)| <= |NonEmpty(kvs)|
    ensures NonEmpty(kvs) == CompletePairs(kvs) <==> forall i: nat | 2 * i < |kvs| :: HalvesMatch(kvs, i)
  {
    if |kvs| == 1 {
      assert kvs[1..] == [];
      assert forall i: nat | 2 * i < |kvs| :: i == 0;
      assert NonEmpty(kvs) == [] <==> HalvesMatch(kvs, 0);
    } else if |kvs| >= 2 {
      var rest := kvs[2..];
      DropsWholePairs(rest);
      assert kvs[1..][1..] == rest;
      assert HalvesMatch(kvs, 0) <==> (kvs[0] == [] <==> kvs[1] == []);
      PairsShift(kvs);
      assert kvs[..2] == [kvs[0], kvs[1]];
      FirstPair(kvs[0], kvs[1], rest);
    }
  }

  lemma PairsShift(kvs: seq<bytes>)
    requires |kvs| >= 2
    ensures (forall i: nat | 2 * i < |kvs| :: HalvesMatch(kvs, i)) <==>
            HalvesMatch(kvs, 0) && forall i: nat | 2 * i < |kvs[2..]| :: HalvesMatch(kvs[2..], i)
  {
    assert forall i: nat | 2 * i < |kvs[2..]| :: HalvesMatch(kvs[2..], i) == HalvesMatch(kvs, i + 1);
    if HalvesMatch(kvs, 0) && forall i: nat | 2 * i < |kvs[2..]| :: HalvesMatch(kvs[2..], i) {
      forall i: nat | 2 * i < |kvs|
        ensures HalvesMatch(kvs, i)
      {
        if i > 0 { assert HalvesMatch(kvs[2..], i - 1); }
      }
    }
  }

  lemma FirstPair(k: bytes, v: bytes, rest: seq<bytes>)
    requires |CompletePairs(rest)| <= |NonEmpty(rest)|
    ensures var kept := (if k == [] then [] else [k]) + ((if v == [] then [] else [v]) + NonEmpty(rest));
            var pair: seq<bytes> := if k != [] && v != [] then [k, v] else [];
            && |pair + CompletePairs(rest)| <= |kept|
            && (kept == pair + CompletePairs(rest) <==>
                (k == [] <==> v == []) && NonEmpty(rest) == CompletePairs(rest))
  {
    var a: seq<bytes> := (if k == [] then [] else [k]) + (if v == [] then [] else [v]);
    var pair: seq<bytes> := if k != [] && v != [] then [k, v] else [];
    var kept := (if k == [] then [] else [k]) + ((if v == [] then [] else [v]) + NonEmpty(rest));
    assert kept == a + NonEmpty(rest);
    if (k == [] <==> v == []) {
      assert pair == a;
      assert kept[|a|..] == NonEmpty(rest) && (pair + CompletePairs(rest))[|a|..] == CompletePairs(rest);
    } else {
      assert |a| == 1 && pair == [];
    }
  }

  /** Of a log message the host reads exactly the complete pairs, in order, if and only if every pair is
      complete or empty: one empty half shifts what follows. */
  lemma KeepsPairing(kvs: seq<bytes>)
    requires forall s | s in kvs :: NulFree(s)
    ensures NonEmpty(Fields([], Terminated(kvs))) == CompletePairs(kvs) <==>
            forall i: nat | 2 * i < |kvs| :: HalvesMatch(kvs, i)
  {
    ReadsNonEmpty(kvs);
    DropsWholePairs(kvs);
  }

  /** Two keys with empty values are read as a key with its value. */
  lemma PairingCanBreak(a: bytes, b: bytes)
    requires a != [] && b != [] && NulFree(a) && NulFree(b)
    ensures var kvs := [a, [], b, []];
            NonEmpty(Fields([], Terminated(kvs))) == [a, b] && CompletePairs(kvs) == []
  {
    var kvs: seq<bytes> := [a, [], b, []];
    assert NulFree([]);
    assert forall s | s in kvs :: s == a || s == [] || s == b;
    ReadsNonEmpty(kvs);
    var r1, r2, r3 := kvs[1..], kvs[2..], kvs[3..];
    assert r1[1..] == r2 && r2[1..] == r3 && r3[1..] == [] && r2[2..] == [];
    assert NonEmpty(r3) == [];
    assert NonEmpty(r2) == [b] + NonEmpty(r3);
    assert NonEmpty(r1) == NonEmpty(r2);
    assert NonEmpty(kvs) == [a] + NonEmpty(r1);
    assert CompletePairs(r2) == [] + CompletePairs([]);
  }

  // ----- the host's reader -----

  /** One byte further, with the field that begins at entry unfinished. */
  lemma ReadStep(b: bytes, entry: nat, pos: nat)
    requires entry <= pos < |b|
    ensures NonEmpty(Fields(b[entry..pos], b[pos..])) ==
            if b[pos] == 0 then
              (if entry == pos then [] else [b[entry..pos]]) + NonEmpty(Fields([], b[pos + 1..]))
            else NonEmpty(Fields(b[entry..pos + 1], b[pos + 1..]))
  {
    assert b[pos..] == [b[pos]] + b[pos + 1..];
    assert b[entry..pos] + [b[pos]] == b[entry..pos + 1];
    FieldsCons(b[entry..pos], b[pos], b[pos + 1..]);
    hide Fields, NonEmpty;
    OneField(b[entry..pos], Fields([], b[pos + 1..]));
  }

  lemma FieldsCons(cur: bytes, c: byte, t: bytes)
    ensures Fields(cur, [c] + t) == if c == 0 then [cur] + Fields([], t) else Fields(cur + [c], t)
  {
    assert ([c] + t)[1..] == t;
  }

  lemma OneField(x: bytes, rest: seq<bytes>)
    ensures NonEmpty([x] + rest) == (if x == [] then [] else [x]) + NonEmpty(rest)
  {
    assert ([x] + rest)[1..] == rest;
    assert [] + NonEmpty(rest) == NonEmpty(rest);
  }

  lemma ReadStarts(b: bytes)
    ensures b[0..0] == [] && b[0..] == b
    ensures NonEmpty(Fields([], [])) == []
  {
  }

  method FromNulTerminated(b: bytes) returns (entries: seq<bytes>)
    ensures entries == NonEmpty(Fields([], b))
  {
    hide NonEmpty, Fields;
    entries := [];
    ReadStarts(b);
    if |b| == 0 {
      return;
    }
    var entry, entryPos := 0, 0;
    var size := |b|;
    while size > 0
      invariant 0 <= entry <= entryPos == |b| - size <= |b|
      invariant NonEmpty(Fields([], b)) == entries + NonEmpty(Fields(b[entry..entryPos], b[entryPos..]))
    {
      ReadStep(b, entry, entryPos);
      if b[entryPos] == 0 {
        if entry != entryPos {
          entries := entries + [b[entry..entryPos]];
        }
        entryPos := entryPos + 1;
        entry := entryPos;
        assert b[entry..entryPos] == [];
      } else {
        entryPos := entryPos + 1;
      }
      size := size - 1;
    }
    AllRead(b, entry);
  }

  lemma AllRead(b: bytes, entry: nat)
    requires entry <= |b|
    ensures NonEmpty(Fields(b[entry..|b|], b[|b|..])) == []
  {
  }

  // ----- the guest's producers -----

  function EmptyCount(xs: seq<bytes>): nat {
    if xs == [] then 0 else (if xs[0] == [] then 1 else 0) + EmptyCount(xs[1..])
  }

  lemma TerminatedCons(x: bytes, xs: seq<bytes>)
    ensures Terminated([x] + xs) == x + [0] + Terminated(xs)
  {
    assert ([x] + xs)[1..] == xs;
  }

  lemma {:induction false} DroppedSize(xs: seq<bytes>)
    ensures |Terminated(NonEmpty(xs))| + EmptyCount(xs) == |Terminated(xs)|
  {
    if xs != [] {
      DroppedSize(xs[1..]);
      if xs[0] != [] { TerminatedCons(xs[0], NonEmpty(xs[1..])); }
    }
  }

  lemma {:induction false} TerminatedAppend(xs: seq<bytes>, x: bytes)
    ensures Terminated(xs + [x]) == Terminated(xs) + x + [0]
  {
    if xs == [] {
      assert [x][1..] == [];
    } else {
      assert (xs + [x])[1..] == xs[1..] + [x];
      TerminatedAppend(xs[1..], x);
    }
  }

  /** None stands for a nil slice. For a list of empty strings only, the result is empty but not nil. */
  method ToNulTerminated(input: seq<bytes>) returns (r: Option<bytes>)
    ensures r == if input == [] then None else Some(Terminated(NonEmpty(input)))
    ensures r == Some([]) <==> input != [] && forall s | s in input :: s == []
  {
    hide NonEmpty, EmptyCount, Terminated;
    var count := |input|;
    if count == 0 {
      return None;
    }
    NothingWritten();
    var size := count;
    for i := 0 to count
      invariant size == count + |Terminated(input[..i])| - i
    {
      assert input[..i + 1] == input[..i] + [input[i]];
      TerminatedAppend(input[..i], input[i]);
      size := size + |input[i]|;
    }
    assert input[..count] == input;
    var cStrings := new byte[size](_ => 0);
    var pos := 0;
    assert input[0..] == input;
    DroppedSize(input);
    for i := 0 to count
      invariant 0 <= pos
      invariant pos + |Terminated(NonEmpty(input[i..]))| + EmptyCount(input[i..]) == size <= cStrings.Length
      invariant size == |Terminated(NonEmpty(input))| + EmptyCount(input[i..])
      invariant cStrings[..pos] == Terminated(NonEmpty(input[..i]))
      invariant forall k | pos <= k < cStrings.Length :: cStrings[k] == 0
    {
      var s := input[i];
      Advance(input, i);
      if |s| == 0 {
        size := size - 1;
        continue;
      }
      ghost var before := cStrings[..];
      Copy(cStrings, pos, s);
      assert cStrings[..pos + |s| + 1] == before[..pos] + s + [0];
      pos := pos + |s| + 1;
    }
    assert input[..count] == input && input[count..] == [];
    r := Some(cStrings[..size]);
    HasField(input);
  }

  /** One string further: how the part that is written and the part that is left change. */
  lemma Advance(xs: seq<bytes>, i: nat)
    requires i < |xs|
    ensures var done, rest := NonEmpty(xs[..i]), NonEmpty(xs[i + 1..]);
            if xs[i] == [] then
              NonEmpty(xs[..i + 1]) == done && NonEmpty(xs[i..]) == rest
              && EmptyCount(xs[i..]) == 1 + EmptyCount(xs[i + 1..])
            else
              Terminated(NonEmpty(xs[..i + 1])) == Terminated(done) + xs[i] + [0]
              && Terminated(NonEmpty(xs[i..])) == xs[i] + [0] + Terminated(rest)
              && EmptyCount(xs[i..]) == EmptyCount(xs[i + 1..])
  {
    assert xs[..i + 1] == xs[..i] + [xs[i]];
    assert xs[i..][1..] == xs[i + 1..];
    NonEmptyAppend(xs[..i], [xs[i]]);
    var one := [xs[i]];
    assert one[1..] == [];
    if xs[i] != [] {
      assert NonEmpty([xs[i]]) == [xs[i]];
      TerminatedAppend(NonEmpty(xs[..i]), xs[i]);
      TerminatedCons(xs[i], NonEmpty(xs[i + 1..]));
    }
  }

  lemma NothingWritten()
    ensures NonEmpty([]) == [] && Terminated([]) == [] && EmptyCount([]) == 0
  {
  }

  lemma HasField(xs: seq<bytes>)
    ensures Terminated(NonEmpty(xs)) == [] <==> forall s | s in xs :: s == []
  {
    NonEmptyMembers(xs);
    if NonEmpty(xs) != [] {
      assert NonEmpty(xs)[0] in NonEmpty(xs);
    }
    if s :| s in xs && s != [] {
      assert s in NonEmpty(xs);
    }
  }

  /** The reusable buffer of the logger; strings are given as formatted. None is the panic on a string
      that contains a NUL. */
  class LogBuffer {
    var buf: bytes

    constructor () {
      buf := [];
    }

    method LogKVs(kvs: seq<bytes>) returns (r: Option<bytes>)
      modifies this
      ensures r == if forall s | s in kvs :: NulFree(s) then Some(Terminated(kvs)) else None
      ensures r.Some? ==> buf == r.value
    {
      buf := [];
      var count := |kvs|;
      if count == 0 {
        return Some([]);
      }
      for i := 0 to count
        invariant buf == Terminated(kvs[..i])
        invariant forall s | s in kvs[..i] :: NulFree(s)
      {
        var s := kvs[i];
        if 0 in s {
          assert s in kvs && !NulFree(s);
          return None;
        }
        assert kvs[..i + 1] == kvs[..i] + [s];
        TerminatedAppend(kvs[..i], s);
        buf := buf + s;
        buf := buf + [0];
      }
      assert kvs[..count] == kvs;
      return Some(buf);
    }
  }
}
