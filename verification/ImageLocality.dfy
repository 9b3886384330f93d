/** The example score plugin that prefers nodes which already have the pod's images. The score of one
    image is any non-negative number: its scaling by floating-point arithmetic is not modelled. */
module ImageLocality {
  import opened Varints

  const MIN_THRESHOLD := 23 * 1024 * 1024
  const MAX_CONTAINER_THRESHOLD := 1000 * 1024 * 1024
  const MAX_NODE_SCORE := 100

  // ----- 64-bit arithmetic -----

  function Wrap(n: int): (r: int64)
    ensures -TWO_63 <= n < TWO_63 ==> r == n
  {
    (n + TWO_63) % TWO_64 - TWO_63
  }

  function Abs(a: int): nat {
    if a < 0 then -a else a
  }

  /** Division towards zero. */
  function Quotient(a: int, b: int): int
    requires b != 0
  {
    if (a < 0) == (b < 0) then Abs(a) / Abs(b) else -(Abs(a) / Abs(b))
  }

  // ----- the priority -----

  function Clamp(x: int, low: int, high: int): int {
    if x < low then low else if x > high then high else x
  }

  /** p is the share of the span between the thresholds that the sum has reached, in percent, rounded down. */
  predicate IsShare(p: int, sum: int, numContainers: nat) {
    var span := MAX_CONTAINER_THRESHOLD * numContainers - MIN_THRESHOLD;
    var reached := Clamp(sum, MIN_THRESHOLD, MAX_CONTAINER_THRESHOLD * numContainers) - MIN_THRESHOLD;
    p * span <= MAX_NODE_SCORE * reached < (p + 1) * span
  }

  lemma ShareIsQuotient(a: nat, span: nat)
    requires 0 < span && a <= MAX_NODE_SCORE * span
    ensures (a / span) * span <= a < (a / span + 1) * span
    ensures 0 <= a / span <= MAX_NODE_SCORE
  {
    var q := a / span;
    assert a == q * span + a % span;
    QuotientIsMonotone(q, MAX_NODE_SCORE, a, MAX_NODE_SCORE * span, span);
  }

  lemma QuotientIsShare(sumScores: int, numContainers: nat)
    requires numContainers > 0
    ensures var high := MAX_CONTAINER_THRESHOLD * numContainers;
            var scaled := MAX_NODE_SCORE * (Clamp(sumScores, MIN_THRESHOLD, high) - MIN_THRESHOLD);
            && 0 <= scaled <= MAX_NODE_SCORE * high && 0 < high - MIN_THRESHOLD
            && 0 <= Quotient(scaled, high - MIN_THRESHOLD) <= MAX_NODE_SCORE
            && IsShare(Quotient(scaled, high - MIN_THRESHOLD), sumScores, numContainers)
  {
    var high := MAX_CONTAINER_THRESHOLD * numContainers;
    ShareIsQuotient(MAX_NODE_SCORE * (Clamp(sumScores, MIN_THRESHOLD, high) - MIN_THRESHOLD), high - MIN_THRESHOLD);
  }

  /** The products fit into 64 bits for fewer than 87 million containers. */
  method CalculatePriority(sumScores: int64, numContainers: nat) returns (priority: int64)
    requires MAX_NODE_SCORE * MAX_CONTAINER_THRESHOLD * numContainers < TWO_63
    ensures numContainers > 0 ==> 0 <= priority <= MAX_NODE_SCORE && IsShare(priority, sumScores, numContainers)
    ensures numContainers == 0 ==> priority == if sumScores < MIN_THRESHOLD then 0 else MAX_NODE_SCORE
  {
    var sum := sumScores;
    var maxThreshold := Wrap(MAX_CONTAINER_THRESHOLD * numContainers);
    if sum < MIN_THRESHOLD {
      sum := MIN_THRESHOLD;
    } else if sum > maxThreshold {
      sum := maxThreshold;
    }
    Unwrapped(sumScores, numContainers);
    var high := MAX_CONTAINER_THRESHOLD * numContainers;
    assert sum == Clamp(sumScores, MIN_THRESHOLD, high);
    hide Wrap, Clamp, Quotient, IsShare;
    var scaled, span := Wrap(MAX_NODE_SCORE * (sum - MIN_THRESHOLD)), Wrap(maxThreshold - MIN_THRESHOLD);
    priority := Wrap(Quotient(scaled, span));
    if numContainers > 0 { QuotientIsShare(sumScores, numContainers); }
  }

  /** Nothing wraps around; without containers, the span is negative. */
  lemma Unwrapped(sumScores: int64, numContainers: nat)
    requires MAX_NODE_SCORE * MAX_CONTAINER_THRESHOLD * numContainers < TWO_63
    ensures var high := MAX_CONTAINER_THRESHOLD * numContainers;
            var scaled := MAX_NODE_SCORE * (Clamp(sumScores, MIN_THRESHOLD, high) - MIN_THRESHOLD);
            && Wrap(high) == high && Wrap(scaled) == scaled && Wrap(high - MIN_THRESHOLD) == high - MIN_THRESHOLD != 0
            && (numContainers == 0 ==>
                  Quotient(scaled, high - MIN_THRESHOLD) == if sumScores < MIN_THRESHOLD then 0 else MAX_NODE_SCORE)
            && forall p | 0 <= p <= MAX_NODE_SCORE :: Wrap(p) == p
  {
    hide Wrap;
  }

  /** There is only one share, and a larger sum never has a smaller one; the whole span is reached
      exactly from the upper threshold on. */
  lemma ShareIsMonotone(p: int, q: int, sum: int, sum': int, numContainers: nat)
    requires numContainers > 0 && IsShare(p, sum, numContainers) && IsShare(q, sum', numContainers)
    ensures sum <= sum' ==> p <= q
    ensures p == MAX_NODE_SCORE <==> sum >= MAX_CONTAINER_THRESHOLD * numContainers
  {
    var high := MAX_CONTAINER_THRESHOLD * numContainers;
    var x, y := Clamp(sum, MIN_THRESHOLD, high) - MIN_THRESHOLD, Clamp(sum', MIN_THRESHOLD, high) - MIN_THRESHOLD;
    if sum <= sum' { QuotientIsMonotone(p, q, MAX_NODE_SCORE * x, MAX_NODE_SCORE * y, high - MIN_THRESHOLD); }
    FullQuotient(p, x, high - MIN_THRESHOLD);
  }

  lemma QuotientIsMonotone(p: int, q: int, a: int, b: int, span: nat)
    requires p * span <= a <= b < (q + 1) * span
    ensures p <= q
  {
    ProductSign(q + 1 - p, span);
    assert (q + 1 - p) * span == (q + 1) * span - p * span;
  }

  lemma ProductSign(x: int, s: nat)
    ensures x <= 0 ==> x * s <= 0
  {
  }

  lemma FullQuotient(p: int, x: int, span: nat)
    requires p * span <= MAX_NODE_SCORE * x < (p + 1) * span && x <= span
    ensures p == MAX_NODE_SCORE <==> x == span
  {
    if x == span {
      QuotientIsMonotone(MAX_NODE_SCORE, p, MAX_NODE_SCORE * span, MAX_NODE_SCORE * x, span);
      QuotientIsMonotone(p, MAX_NODE_SCORE, MAX_NODE_SCORE * x, MAX_NODE_SCORE * span, span);
    }
  }

  // ----- the sum -----

  function Total(images: seq<string>, scores: map<string, nat>): nat {
    if images == [] then 0
    else
      var image := NormalizedImageName(images[|images| - 1]);
      Total(images[..|images| - 1], scores) + if image in scores then scores[image] else 0
  }

  /** One score per occurrence of a known image, wherever it stands. */
  lemma {:induction false} TotalOfParts(a: seq<string>, b: seq<string>, scores: map<string, nat>)
    ensures Total(a + b, scores) == Total(a, scores) + Total(b, scores)
    ensures |b| == 1 ==>
      (var image := NormalizedImageName(b[0]); Total(b, scores) == if image in scores then scores[image] else 0)
  {
    hide NormalizedImageName;
    if b == [] {
      assert a + b == a;
    } else {
      var init := b[..|b| - 1];
      TotalOfParts(a, init, scores);
      assert (a + b)[..|a + b| - 1] == a + init;
      assert |b| == 1 ==> init == [];
    }
  }

  lemma {:induction false} TotalOfPrefix(images: seq<string>, scores: map<string, nat>, i: nat)
    requires i <= |images|
    ensures Total(images[..i], scores) <= Total(images, scores)
  {
    if i < |images| {
      TotalOfPrefix(images[..|images| - 1], scores, i);
      assert images[..|images| - 1][..i] == images[..i];
    } else {
      assert images[..i] == images;
    }
  }

  method SumImageScores(initContainers: seq<string>, containers: seq<string>, scores: map<string, nat>)
    returns (sum: int64)
    requires Total(initContainers, scores) + Total(containers, scores) < TWO_63
    ensures sum == Total(initContainers, scores) + Total(containers, scores)
  {
    hide Wrap, NormalizedImageName;
    sum := 0;
    for i := 0 to |initContainers|
      invariant sum == Total(initContainers[..i], scores)
    {
      assert initContainers[..i + 1][..i] == initContainers[..i];
      TotalOfPrefix(initContainers, scores, i + 1);
      var image := NormalizedImageName(initContainers[i]);
      if image in scores {
        sum := Wrap(sum + scores[image]);
      }
    }
    assert initContainers[..|initContainers|] == initContainers;
    for i := 0 to |containers|
      invariant sum == Total(initContainers, scores) + Total(containers[..i], scores)
    {
      assert containers[..i + 1][..i] == containers[..i];
      TotalOfPrefix(containers, scores, i + 1);
      var image := NormalizedImageName(containers[i]);
      if image in scores {
        sum := Wrap(sum + scores[image]);
      }
    }
    assert containers[..|containers|] == containers;
  }

  /** scores are those of the images on the node, scaled for the number of nodes. If the nodes cannot be
      listed, the score is 0 with an error; else a pod without containers scores 0, any other 0 to 100. */
  method Score(nodesListed: bool, initContainers: seq<string>, containers: seq<string>, scores: map<string, nat>)
    returns (priority: int64, failed: bool)
    requires Total(initContainers, scores) + Total(containers, scores) < TWO_63
    requires MAX_NODE_SCORE * MAX_CONTAINER_THRESHOLD * (|initContainers| + |containers|) < TWO_63
    ensures 0 <= priority <= MAX_NODE_SCORE && (failed <==> !nodesListed)
    ensures failed || (initContainers == [] && containers == []) ==> priority == 0
    ensures !failed && (initContainers != [] || containers != []) ==>
      IsShare(priority, Total(initContainers, scores) + Total(containers, scores), |initContainers| + |containers|)
  {
    if !nodesListed {
      return 0, true;
    }
    hide IsShare, Total;
    var sum := SumImageScores(initContainers, containers, scores);
    priority := CalculatePriority(sum, |initContainers| + |containers|);
    failed := false;
  }

  // ----- image names -----

  function LastIndex(s: string, c: char): (i: int)
    ensures -1 <= i < |s|
    ensures i >= 0 ==> s[i] == c
    ensures forall k | i < k < |s| :: s[k] != c
  {
    if s == "" then -1
    else if s[|s| - 1] == c then |s| - 1
    else LastIndex(s[..|s| - 1], c)
  }

  function NormalizedImageName(name: string): string {
    if LastIndex(name, ':') <= LastIndex(name, '/') then name + ":latest" else name
  }

  /** Some colon is followed by no slash. */
  predicate HasTag(name: string) {
    exists i | 0 <= i < |name| :: name[i] == ':' && forall k | i < k < |name| :: name[k] != '/'
  }

  /** A name with a tag is unchanged, any other gets the tag "latest"; normalizing again changes nothing. */
  lemma NormalizedHasTag(name: string)
    ensures NormalizedImageName(name) == if HasTag(name) then name else name + ":latest"
    ensures HasTag(NormalizedImageName(name))
    ensures NormalizedImageName(NormalizedImageName(name)) == NormalizedImageName(name)
  {
    HasTagByIndex(name);
    if !HasTag(name) {
      var n := name + ":latest";
      assert n[|name|] == ':';
      assert forall k | |name| <= k < |n| :: n[k] != '/';
      HasTagByIndex(n);
    }
  }

  lemma HasTagByIndex(name: string)
    ensures HasTag(name) <==> LastIndex(name, ':') > LastIndex(name, '/')
  {
    var c, d := LastIndex(name, ':'), LastIndex(name, '/');
    if c > d {
      assert name[c] == ':' && forall k | c < k < |name| :: name[k] != '/';
    }
    if i :| 0 <= i < |name| && name[i] == ':' && forall k | i < k < |name| :: name[k] != '/' {
      assert i <= c;
      assert d < i;
    }
  }
}
