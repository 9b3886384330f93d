/** Node scores cross the boundary as a map from node names, which has no order; the host turns its list
    into that map and the guest's answer back into a list. */
module NodeScores {
  import opened Options
  import opened Varints

  datatype NodeScore = NodeScore(name: string, score: int64)

  function Names(xs: seq<NodeScore>): (ns: seq<string>)
    ensures |ns| == |xs| && forall i | 0 <= i < |xs| :: ns[i] == xs[i].name
  {
    seq(|xs|, i requires 0 <= i < |xs| => xs[i].name)
  }

  predicate Distinct<T(==)>(s: seq<T>) {
    s == [] || (s[0] !in s[1..] && Distinct(s[1..]))
  }

  function Elements<T>(s: seq<T>): set<T> {
    set x | x in s
  }

  /** A list is free of repetitions exactly when it has as many elements as its set. */
  lemma {:induction false} DistinctCounts<T>(s: seq<T>)
    ensures |Elements(s)| <= |s|
    ensures Distinct(s) <==> |Elements(s)| == |s|
    ensures Distinct(s) <==> multiset(s) == multiset(Elements(s))
  {
    if s != [] {
      var x, rest := s[0], s[1..];
      DistinctCounts(rest);
      assert s == [x] + rest;
      assert Elements(s) == {x} + Elements(rest);
      assert multiset(s) == multiset{x} + multiset(rest);
      if x in rest {
        assert Elements(s) == Elements(rest);
        assert multiset(s)[x] >= 2 && multiset(Elements(s))[x] == 1;
      } else {
        assert |Elements(s)| == 1 + |Elements(rest)|;
        assert multiset(Elements(s)) == multiset{x} + multiset(Elements(rest));
        if multiset(s) == multiset(Elements(s)) {
          assert multiset(rest) == multiset(s) - multiset{x};
        }
      }
    }
  }

  lemma SameElementsPermute<T>(s: seq<T>, t: seq<T>)
    requires Distinct(s) && Distinct(t) && (forall x | x in s :: x in t) && (forall x | x in t :: x in s)
    ensures multiset(s) == multiset(t)
  {
    hide Distinct;
    DistinctCounts(s);
    DistinctCounts(t);
    assert Elements(s) == Elements(t);
  }

  lemma {:induction false} DistinctByIndex<T>(s: seq<T>)
    ensures Distinct(s) <==> forall i, j | 0 <= i < j < |s| :: s[i] != s[j]
  {
    if s != [] {
      var rest := s[1..];
      DistinctByIndex(rest);
      assert forall i | 0 <= i < |rest| :: rest[i] == s[i + 1];
      if (forall i, j | 0 <= i < j < |s| :: s[i] != s[j]) {
        assert forall i, j | 0 <= i < j < |rest| :: rest[i] == s[i + 1] && rest[j] == s[j + 1];
      }
      if Distinct(s) {
        forall i, j | 0 <= i < j < |s| ensures s[i] != s[j] {
          assert s[j] == rest[j - 1];
        }
      }
    }
  }

  // ----- the map -----

  /** The last score of a name wins. */
  function ToMap(xs: seq<NodeScore>): (m: map<string, int64>)
    ensures m.Keys == Elements(Names(xs))
  {
    if xs == [] then map[]
    else
      var last := xs[|xs| - 1];
      assert Names(xs) == Names(xs[..|xs| - 1]) + [last.name];
      ToMap(xs[..|xs| - 1])[last.name := last.score]
  }

  /** Of the scores of one name, the last one counts. */
  lemma {:induction false} LastScoreWins(xs: seq<NodeScore>, i: nat)
    requires i < |xs| && forall j | i < j < |xs| :: xs[j].name != xs[i].name
    ensures xs[i].name in ToMap(xs) && ToMap(xs)[xs[i].name] == xs[i].score
    decreases |xs|
  {
    if i < |xs| - 1 {
      LastScoreWins(xs[..|xs| - 1], i);
    }
  }

  /** ys is what some iteration order of m gives. */
  ghost predicate Lists(m: map<string, int64>, ys: seq<NodeScore>) {
    && Distinct(Names(ys))
    && Elements(Names(ys)) == m.Keys
    && forall y | y in ys :: y.name in m && m[y.name] == y.score
  }

  lemma {:induction false} ScoreOf(xs: seq<NodeScore>, x: NodeScore)
    requires Distinct(Names(xs)) && x in xs
    ensures x.name in ToMap(xs) && ToMap(xs)[x.name] == x.score
    decreases |xs|
  {
    var init, last := xs[..|xs| - 1], xs[|xs| - 1];
    DistinctByIndex(Names(xs));
    DistinctByIndex(Names(init));
    if x != last {
      assert x in init;
      ScoreOf(init, x);
      var i :| 0 <= i < |init| && init[i] == x;
      assert Names(xs)[i] == x.name && Names(xs)[|xs| - 1] == last.name;
    }
  }

  lemma DistinctNames(xs: seq<NodeScore>)
    requires Distinct(Names(xs))
    ensures Distinct(xs)
  {
    DistinctByIndex(Names(xs));
    DistinctByIndex(xs);
    forall i, j | 0 <= i < j < |xs| ensures xs[i] != xs[j] {
      assert Names(xs)[i] != Names(xs)[j];
    }
  }

  lemma NameOfMember(xs: seq<NodeScore>, x: NodeScore)
    requires x in xs
    ensures x.name in Names(xs)
  {
    var i :| 0 <= i < |xs| && xs[i] == x;
    assert Names(xs)[i] == x.name;
  }

  /** Listing the map of a list gives a permutation of the list, for every iteration order, exactly when
      its names are pairwise distinct; otherwise the length differs. */
  lemma RoundTripPermutes(xs: seq<NodeScore>, ys: seq<NodeScore>)
    requires Lists(ToMap(xs), ys)
    ensures multiset(ys) == multiset(xs) <==> Distinct(Names(xs))
    ensures |ys| == |xs| <==> Distinct(Names(xs))
  {
    hide *;
    DistinctCounts(Names(xs));
    ListingLength(ToMap(xs), ys);
    if Distinct(Names(xs)) { ListingPermutes(xs, ys); }
    if multiset(ys) == multiset(xs) { SameLength(ys, xs); }
  }

  lemma ListingPermutes(xs: seq<NodeScore>, ys: seq<NodeScore>)
    requires Lists(ToMap(xs), ys) && Distinct(Names(xs))
    ensures multiset(ys) == multiset(xs)
  {
    hide *;
    ListingLength(ToMap(xs), ys);
    ListingHasAll(xs, ys);
    ListingHasOnly(xs, ys);
    DistinctNames(xs);
    DistinctNames(ys);
    SameElementsPermute(xs, ys);
  }

  lemma SameLength<T>(s: seq<T>, t: seq<T>)
    requires multiset(s) == multiset(t)
    ensures |s| == |t|
  {
    assert |multiset(s)| == |s| && |multiset(t)| == |t|;
  }

  lemma ListingLength(m: map<string, int64>, ys: seq<NodeScore>)
    requires Lists(m, ys)
    ensures Distinct(Names(ys)) && |ys| == |m.Keys|
  {
    hide Distinct, Names;
    DistinctCounts(Names(ys));
  }

  lemma ListingHasAll(xs: seq<NodeScore>, ys: seq<NodeScore>)
    requires Lists(ToMap(xs), ys) && Distinct(Names(xs))
    ensures forall x | x in xs :: x in ys
  {
    hide ToMap;
    forall x | x in xs ensures x in ys {
      ScoreOf(xs, x);
      assert x.name in Elements(Names(ys));
      var i :| 0 <= i < |ys| && Names(ys)[i] == x.name;
      assert ys[i] in ys;
      assert ys[i] == x;
    }
  }

  lemma ListingHasOnly(xs: seq<NodeScore>, ys: seq<NodeScore>)
    requires Lists(ToMap(xs), ys) && Distinct(Names(xs))
    ensures forall y | y in ys :: y in xs
  {
    hide ToMap;
    forall y | y in ys ensures y in xs {
      NameOfMember(ys, y);
      assert y.name in Elements(Names(ys));
      assert y.name in Elements(Names(xs));
      var i :| 0 <= i < |xs| && Names(xs)[i] == y.name;
      ScoreOf(xs, xs[i]);
      assert xs[i] == y;
    }
  }

  method NodeScoreListToMap(nodeScoreList: seq<NodeScore>) returns (scoreMap: map<string, int64>)
    ensures scoreMap == ToMap(nodeScoreList)
  {
    scoreMap := map[];
    for i := 0 to |nodeScoreList|
      invariant scoreMap == ToMap(nodeScoreList[..i])
    {
      assert nodeScoreList[..i + 1][..i] == nodeScoreList[..i];
      scoreMap := scoreMap[nodeScoreList[i].name := nodeScoreList[i].score];
    }
    assert nodeScoreList[..|nodeScoreList|] == nodeScoreList;
  }

  /** The iteration order is any order. */
  method MapToNodeScoreList(scoreMap: map<string, int64>) returns (nodeScoreList: seq<NodeScore>)
    ensures Lists(scoreMap, nodeScoreList)
  {
    nodeScoreList := [];
    var rest := scoreMap.Keys;
    while rest != {}
      invariant rest <= scoreMap.Keys
      invariant Elements(Names(nodeScoreList)) == scoreMap.Keys - rest
      invariant Distinct(Names(nodeScoreList))
      invariant forall y | y in nodeScoreList :: y.name in scoreMap && scoreMap[y.name] == y.score
      decreases rest
    {
      var nodeName :| nodeName in rest;
      var next := NodeScore(nodeName, scoreMap[nodeName]);
      AppendName(nodeScoreList, next);
      nodeScoreList := nodeScoreList + [next];
      rest := rest - {nodeName};
    }
  }

  lemma AppendName(ys: seq<NodeScore>, y: NodeScore)
    requires Distinct(Names(ys)) && y.name !in Elements(Names(ys))
    ensures Distinct(Names(ys + [y])) && Elements(Names(ys + [y])) == Elements(Names(ys)) + {y.name}
  {
    assert Names(ys + [y]) == Names(ys) + [y.name];
    DistinctByIndex(Names(ys));
    DistinctByIndex(Names(ys) + [y.name]);
  }

  // ----- copy-back -----

  /** The guest's call: it did not take place or failed, or it ended, with or without a result. */
  datatype Answer = Failed | Ended(result: Option<map<string, int64>>)

  /** A missing or empty result means that the scores stay. */
  predicate Keeps(answer: Answer) {
    answer.Ended? && (answer.result.None? || answer.result.value == map[])
  }

  /** The names stay the same, in whatever order: the scores stay, or their names are pairwise distinct
      and the result has exactly those. */
  predicate KeepsNames(xs: seq<NodeScore>, answer: Answer) {
    || Keeps(answer) || answer.Failed?
    || (Distinct(Names(xs)) && answer.result.value.Keys == Elements(Names(xs)))
  }

  /** scores is overwritten element by element, unless the sizes differ, which panics. */
  method NormalizeScore(scores: array<NodeScore>, answer: Answer) returns (panicked: bool)
    modifies scores
    ensures Keeps(answer) ==> !panicked && scores[..] == old(scores[..])
    ensures answer.Failed? ==> (panicked <==> scores.Length > 0)
    ensures answer.Ended? && !Keeps(answer) ==>
      && (panicked <==> scores.Length != |answer.result.value|)
      && (!panicked ==> Lists(answer.result.value, scores[..]))
    ensures panicked ==> scores[..] == old(scores[..])
    ensures !panicked ==>
      (multiset(Names(scores[..])) == multiset(Names(old(scores[..]))) <==> KeepsNames(old(scores[..]), answer))
  {
    hide Lists, Distinct, Elements;
    ghost var xs := scores[..];
    var updatedScores: seq<NodeScore> := [];
    if answer.Ended? {
      if answer.result.Some? {
        updatedScores := MapToNodeScoreList(answer.result.value);
        ListingLength(answer.result.value, updatedScores);
        CopyBackKeepsNames(xs, answer.result.value, updatedScores);
        NoEntries(answer.result.value);
      }
      if |updatedScores| == 0 {
        updatedScores := scores[..];
      }
    }
    if scores.Length != |updatedScores| {
      return true;
    }
    for i := 0 to scores.Length
      invariant scores[..i] == updatedScores[..i]
    {
      scores[i] := updatedScores[i];
    }
    assert scores[..] == updatedScores;
    return false;
  }

  lemma NoEntries(m: map<string, int64>)
    ensures |m.Keys| == |m| && (m == map[] <==> |m| == 0)
  {
    if |m| == 0 { assert m.Keys == {}; }
  }

  /** The names of a listing of the guest's result. The size check that precedes the copy follows from
      their being the same, not the other way round, see SizesSayLittle. */
  lemma CopyBackKeepsNames(xs: seq<NodeScore>, m: map<string, int64>, ys: seq<NodeScore>)
    requires Lists(m, ys)
    ensures multiset(Names(ys)) == multiset(Names(xs)) <==> Distinct(Names(xs)) && m.Keys == Elements(Names(xs))
    ensures multiset(Names(ys)) == multiset(Names(xs)) ==> |xs| == |m|
  {
    DistinctCounts(Names(xs));
    DistinctCounts(Names(ys));
    if multiset(Names(ys)) == multiset(Names(xs)) {
      assert |multiset(Names(ys))| == |ys| && |multiset(Names(xs))| == |xs|;
      forall n ensures n in Elements(Names(xs)) <==> n in m.Keys {
        assert n in multiset(Names(xs)) <==> n in multiset(Names(ys));
      }
      assert |m| == |m.Keys|;
    }
  }

  /** A result of the same size with another name replaces the name. */
  lemma SizesSayLittle(a: string, b: string, score: int64)
    requires a != b
    ensures var xs, m, ys := [NodeScore(a, score)], map[b := score], [NodeScore(b, score)];
            && Lists(m, ys) && |m| == |xs|
            && !KeepsNames(xs, Ended(Some(m))) && multiset(Names(ys)) != multiset(Names(xs))
  {
    var xs, m, ys := [NodeScore(a, score)], map[b := score], [NodeScore(b, score)];
    assert Names(xs) == [a] && Names(ys) == [b];
    assert a in Elements(Names(xs)) && a !in m.Keys;
    assert Elements(Names(ys)) == {b} == m.Keys;
    assert [b][1..] == [];
    CopyBackKeepsNames(xs, m, ys);
  }
}
