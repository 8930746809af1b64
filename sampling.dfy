/** The random part of proportional sampling, with the randomness taken as
    input: one uniform draw per stratum of the total priority mass, shuffled,
    and the fix-up of probabilities that came back non-positive. */
module Sampling {

  /** `[random.uniform(i * segment, (i + 1) * segment) for i in range(batch_size)]`
      with `segment = total / batch_size`, where `u[i]` is the value of
      `random.random()` behind the i-th draw (`uniform(a, b) = a + (b - a) * random()`). */
  function StratifiedDraws(total: real, u: seq<real>): (d: seq<real>)
    requires |u| > 0
    ensures |d| == |u|
  {
    var segment := total / (|u| as real);
    seq(|u|, i requires 0 <= i < |u| => Draw(segment, i, u[i]))
  }

  /** `random.uniform(i * segment, (i + 1) * segment)` with `x` the value of
      `random.random()` behind it. */
  function Draw(segment: real, i: int, x: real): real
  {
    (i as real) * segment + (((i + 1) as real) * segment - (i as real) * segment) * x
  }

  predicate Uniforms(u: seq<real>)
  {
    forall i :: 0 <= i < |u| ==> 0.0 <= u[i] < 1.0
  }

  lemma ScaleBetween(a: real, seg: real, x: real)
    requires seg >= 0.0 && 0.0 <= x < 1.0
    ensures a <= a + seg * x <= a + seg
  {
    assert seg * x <= seg * 1.0;
  }

  lemma SegmentBound(i: nat, b: nat, seg: real)
    requires i < b && seg >= 0.0
    ensures ((i + 1) as real) * seg <= (b as real) * seg
  {
    assert (b as real) * seg - ((i + 1) as real) * seg == ((b - i - 1) as real) * seg;
  }

  /** The width of a stratum: `b` of them make up the total. */
  lemma SegmentOf(total: real, b: nat)
    requires b > 0 && total >= 0.0
    ensures var segment := total / (b as real);
            (b as real) * segment == total && segment >= 0.0 && (total > 0.0 ==> segment > 0.0)
  {
  }

  /** Each draw lies in its own stratum `[i * segment, (i + 1) * segment]`,
      hence in `[0, total]`; with a positive total only the very first stratum
      can yield 0. */
  lemma DrawsInStrata(total: real, u: seq<real>, i: int)
    requires |u| > 0 && Uniforms(u) && total >= 0.0 && 0 <= i < |u|
    ensures var segment := total / (|u| as real);
            (i as real) * segment <= StratifiedDraws(total, u)[i] <= ((i + 1) as real) * segment
    ensures 0.0 <= StratifiedDraws(total, u)[i] <= total
    ensures total > 0.0 && (i > 0 || u[i] > 0.0) ==> StratifiedDraws(total, u)[i] > 0.0
  {
    var segment := total / (|u| as real);
    SegmentOf(total, |u|);
    assert StratifiedDraws(total, u)[i] == Draw(segment, i, u[i]);
    StratumBounds(i, |u|, segment, total, u[i]);
  }

  /** The bounds of `DrawsInStrata` for a stratum of width `segment`. */
  lemma StratumBounds(i: nat, b: nat, segment: real, total: real, x: real)
    requires i < b && segment >= 0.0 && (b as real) * segment == total && 0.0 <= x < 1.0
    ensures (i as real) * segment <= Draw(segment, i, x) <= ((i + 1) as real) * segment
    ensures 0.0 <= Draw(segment, i, x) <= total
    ensures segment > 0.0 && (i > 0 || x > 0.0) ==> Draw(segment, i, x) > 0.0
  {
    var lo := (i as real) * segment;
    var hi := ((i + 1) as real) * segment;
    assert hi - lo == segment;
    var d := Draw(segment, i, x);
    assert d == lo + segment * x;
    ScaleBetween(lo, segment, x);
    assert lo <= d <= hi;
    SegmentBound(i, b, segment);
    assert hi <= total;
    NonNegProduct(i as real, segment);
    assert 0.0 <= lo;
    if segment > 0.0 && (i > 0 || x > 0.0) {
      DrawPositive(i, segment, x);
    }
  }

  lemma NonNegProduct(x: real, y: real)
    requires x >= 0.0 && y >= 0.0
    ensures x * y >= 0.0
  {
  }

  lemma DrawPositive(i: nat, segment: real, x: real)
    requires segment > 0.0 && 0.0 <= x < 1.0 && (i > 0 || x > 0.0)
    ensures (i as real) * segment + segment * x > 0.0
  {
    NonNegProduct(segment, x);
    if i > 0 {
      assert (i as real) * segment == segment + ((i - 1) as real) * segment;
      NonNegProduct((i - 1) as real, segment);
    } else {
      assert segment * x > 0.0;
    }
  }

  predicate IsPermutation(order: seq<int>, n: int)
  {
    |order| == n &&
    (forall k :: 0 <= k < n ==> 0 <= order[k] < n) &&
    (forall k, l :: 0 <= k < l < n ==> order[k] != order[l])
  }

  /** The indices `0 .. n - 1`. */
  function Range(n: nat): (r: set<int>)
    ensures |r| == n
    ensures forall x :: x in r <==> 0 <= x < n
  {
    if n == 0 then {} else
      var r := Range(n - 1);
      assert n - 1 !in r;
      r + {n - 1}
  }

  /** A sequence without repetitions has as many distinct entries as it is long. */
  lemma {:induction false} DistinctCount(order: seq<int>)
    requires forall k, l :: 0 <= k < l < |order| ==> order[k] != order[l]
    ensures |set k | 0 <= k < |order| :: order[k]| == |order|
  {
    if |order| > 0 {
      var m := |order| - 1;
      DistinctCount(order[..m]);
      var before := set k | 0 <= k < m :: order[..m][k];
      assert before == set k | 0 <= k < m :: order[k];
      assert order[m] !in before;
      assert (set k | 0 <= k < |order| :: order[k]) == before + {order[m]};
    }
  }

  /** A subset that misses an element of the whole is strictly smaller. */
  lemma MissingMakesSmaller(a: set<int>, b: set<int>, x: int)
    requires a <= b && x in b && x !in a
    ensures |a| < |b|
  {
    var c := b - {x};
    assert a <= c;
    assert c == a + (c - a);
    assert |c| == |a| + |c - a|;
  }

  /** A permutation of `0 .. n - 1` takes every one of those values: by
      counting, its `n` distinct entries fill the `n` indices. */
  lemma Onto(order: seq<int>, n: nat, x: int)
    requires IsPermutation(order, n) && 0 <= x < n
    ensures exists p :: 0 <= p < n && order[p] == x
  {
    var hit := set k | 0 <= k < |order| :: order[k];
    DistinctCount(order);
    if x !in hit {
      MissingMakesSmaller(hit, Range(n), x);
      assert false;
    }
  }

  /** Taking the entry `n - 1` out of a permutation of `0 .. n - 1` leaves a
      permutation of `0 .. n - 2`. */
  lemma RemoveLast(order: seq<int>, n: nat, p: int)
    requires IsPermutation(order, n) && 0 <= p < n && order[p] == n - 1
    ensures IsPermutation(order[..p] + order[p + 1..], n - 1)
  {
    var o := order[..p] + order[p + 1..];
    assert forall k :: 0 <= k < n - 1 ==> o[k] == if k < p then order[k] else order[k + 1];
    forall k, l | 0 <= k < l < n - 1
      ensures o[k] != o[l]
    {
      var k' := if k < p then k else k + 1;
      var l' := if l < p then l else l + 1;
      assert k' < l' && o[k] == order[k'] && o[l] == order[l'];
    }
  }

  /** Dropping entry `p` takes one copy of it out of the multiset. */
  lemma DropEntry(r: seq<real>, p: int)
    requires 0 <= p < |r|
    ensures multiset(r) == multiset(r[..p] + r[p + 1..]) + multiset{r[p]}
  {
    assert r == r[..p] + [r[p]] + r[p + 1..];
  }

  /** With entry `p` dropped from both, `r` still reads `s` through `order`. */
  lemma DropRead(s: seq<real>, order: seq<int>, r: seq<real>, p: int)
    requires |r| == |order| == |s| && 0 <= p < |r|
    requires forall k :: 0 <= k < |order| ==> 0 <= order[k] < |s|
    requires forall k :: 0 <= k < |order| && k != p ==> order[k] != |s| - 1
    requires forall k :: 0 <= k < |r| ==> r[k] == s[order[k]]
    ensures var o := order[..p] + order[p + 1..];
            forall k :: 0 <= k < |o| ==> 0 <= o[k] < |s| - 1 && (r[..p] + r[p + 1..])[k] == s[..|s| - 1][o[k]]
  {
    var o := order[..p] + order[p + 1..];
    var r' := r[..p] + r[p + 1..];
    forall k | 0 <= k < |o|
      ensures 0 <= o[k] < |s| - 1 && r'[k] == s[..|s| - 1][o[k]]
    {
      var k' := if k < p then k else k + 1;
      assert r'[k] == r[k'] && o[k] == order[k'];
    }
  }

  /** Reading a sequence through a permutation of its indices keeps its multiset. */
  lemma {:induction false} PermutedMultiset(s: seq<real>, order: seq<int>, r: seq<real>)
    requires IsPermutation(order, |s|) && |r| == |s|
    requires forall k :: 0 <= k < |r| ==> r[k] == s[order[k]]
    ensures multiset(r) == multiset(s)
  {
    var n := |s|;
    if n > 0 {
      Onto(order, n, n - 1);
      var p :| 0 <= p < n && order[p] == n - 1;
      RemoveLast(order, n, p);
      DropRead(s, order, r, p);
      PermutedMultiset(s[..n - 1], order[..p] + order[p + 1..], r[..p] + r[p + 1..]);
      DropEntry(r, p);
      assert s == s[..n - 1] + [s[n - 1]];
    }
  }

  /** `np.random.shuffle`, with the permutation it picked as input: the same
      values, in a new order. */
  function Shuffle(s: seq<real>, order: seq<int>): (r: seq<real>)
    requires IsPermutation(order, |s|)
    ensures |r| == |s| && multiset(r) == multiset(s)
  {
    var r := seq(|s|, k requires 0 <= k < |s| => s[order[k]]);
    PermutedMultiset(s, order, r);
    r
  }

  /** Entries of `probs` that are not positive become `1 / capacity`, as if
      those transitions were drawn uniformly. */
  function FixProbabilities(probs: seq<real>, capacity: int): (r: seq<real>)
    requires capacity != 0
    ensures |r| == |probs|
    ensures forall k :: 0 <= k < |probs| && probs[k] > 0.0 ==> r[k] == probs[k]
    ensures capacity > 0 ==> forall k :: 0 <= k < |probs| ==> r[k] > 0.0
  {
    seq(|probs|, k requires 0 <= k < |probs| =>
      if probs[k] <= 0.0 then 1.0 / (capacity as real) else probs[k])
  }
}
