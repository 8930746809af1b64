/** The array-backed sum tree of the replay memory, as pure functions over the
    sequence of node values.

    A tree over `c` leaves has `2*c - 1` nodes; node `i` has children `2*i + 1`
    and `2*i + 2` when `i < c - 1`, and nodes `c - 1 .. 2*c - 2` are the leaves
    (leaf `c - 1 + d` holds the priority of data slot `d`). The parent of `i` is
    `(i - 1) / 2`, Python's floor division, so the parent of the root is `-1`.
 */
module SumTree {

  /** Number of nodes of a tree over `c` leaves. */
  function NodeCount(c: nat): int { 2 * c - 1 }

  predicate IsLeaf(c: nat, i: int) { c - 1 <= i < 2 * c - 1 }

  /** `(i - 1) // 2` in Python; Dafny's `/` agrees for every `i >= -1`. */
  function Parent(i: int): (p: int)
    requires i >= -1
    ensures p >= -1
    ensures i >= 0 ==> p < i
    ensures i > 0 ==> p >= 0 && (i == 2 * p + 1 || i == 2 * p + 2)
    ensures i == 0 || i == -1 ==> p == -1
  {
    (i - 1) / 2
  }

  /** Sum of `t[lo..hi]`. */
  function Sum(t: seq<real>, lo: int, hi: int): real
    requires 0 <= lo && hi <= |t|
    decreases hi - lo
  {
    if lo >= hi then 0.0 else Sum(t, lo, hi - 1) + t[hi - 1]
  }

  /** The priority mass held by the leaves. */
  function LeafSum(t: seq<real>, c: nat): real
    requires c >= 1 && |t| == NodeCount(c)
  {
    Sum(t, c - 1, 2 * c - 1)
  }

  /** Every internal node holds the sum of its two children: the invariant the
      debug check `check_sumtree_correct` tests. */
  predicate Consistent(t: seq<real>, c: nat)
  {
    c >= 1 && |t| == NodeCount(c) &&
    forall i :: 0 <= i < c - 1 ==> t[i] == t[2 * i + 1] + t[2 * i + 2]
  }

  predicate NonNegative(t: seq<real>)
  {
    forall i :: 0 <= i < |t| ==> t[i] >= 0.0
  }

  lemma {:induction false} SumSplit(t: seq<real>, lo: int, mid: int, hi: int)
    requires 0 <= lo <= mid <= hi <= |t|
    ensures Sum(t, lo, hi) == Sum(t, lo, mid) + Sum(t, mid, hi)
    decreases hi - mid
  {
    if mid < hi {
      SumSplit(t, lo, mid, hi - 1);
    }
  }

  lemma {:induction false} SumNonNegative(t: seq<real>, lo: int, hi: int)
    requires 0 <= lo && hi <= |t| && NonNegative(t)
    ensures Sum(t, lo, hi) >= 0.0
    decreases hi - lo
  {
    if lo < hi {
      SumNonNegative(t, lo, hi - 1);
    }
  }

  /** The internal nodes `0 .. k-1` hold, between them, exactly the nodes
      `1 .. 2k`: each child is counted once, under its parent. */
  lemma {:induction false} Telescope(t: seq<real>, c: nat, k: int)
    requires Consistent(t, c) && 0 <= k <= c - 1
    ensures Sum(t, 0, k) == Sum(t, 1, 2 * k + 1)
  {
    if k > 0 {
      Telescope(t, c, k - 1);
      assert t[k - 1] == t[2 * k - 1] + t[2 * k];
    }
  }

  /** On a consistent tree the root is the total priority mass of the leaves. */
  lemma RootIsLeafSum(t: seq<real>, c: nat)
    requires Consistent(t, c)
    ensures t[0] == LeafSum(t, c)
  {
    Telescope(t, c, c - 1);
    SumSplit(t, 0, c - 1, 2 * c - 1);
    SumSplit(t, 0, 1, 2 * c - 1);
  }

  // ---------------------------------------------------------------------------
  // Ancestry

  /** `a` is `x` or one of its ancestors. Negative `x` (the sink) has none. */
  predicate AncestorOrSelf(a: int, x: int)
    decreases x
  {
    x >= 0 && (x == a || (x > 0 && AncestorOrSelf(a, Parent(x))))
  }

  lemma {:induction false} AncestorIsSmaller(a: int, x: int)
    requires AncestorOrSelf(a, x)
    ensures 0 <= a <= x
    decreases x
  {
    if x != a {
      AncestorIsSmaller(a, Parent(x));
    }
  }

  lemma {:induction false} RootIsAncestor(x: int)
    requires x >= 0
    ensures AncestorOrSelf(0, x)
    decreases x
  {
    if x > 0 {
      RootIsAncestor(Parent(x));
    }
  }

  /** Below an internal node `i`, every deeper node descends through exactly
      one of its two children. */
  lemma {:induction false} ChildSplit(i: int, x: int)
    requires 0 <= i < x
    ensures AncestorOrSelf(i, x) <==> AncestorOrSelf(2 * i + 1, x) || AncestorOrSelf(2 * i + 2, x)
    ensures !(AncestorOrSelf(2 * i + 1, x) && AncestorOrSelf(2 * i + 2, x))
    decreases x
  {
    var p := Parent(x);
    if AncestorOrSelf(2 * i + 1, p) {
      AncestorIsSmaller(2 * i + 1, p);
    }
    if AncestorOrSelf(2 * i + 2, p) {
      AncestorIsSmaller(2 * i + 2, p);
    }
    if p < i {
      if AncestorOrSelf(i, p) {
        AncestorIsSmaller(i, p);
      }
    } else if p > i {
      ChildSplit(i, p);
    }
  }

  /** A leaf is an ancestor of no node of the tree but itself. */
  lemma LeafAncestorOnlyOfItself(c: nat, j: int, x: int)
    requires IsLeaf(c, j) && IsLeaf(c, x)
    ensures AncestorOrSelf(j, x) <==> j == x
  {
    if AncestorOrSelf(j, x) && j != x {
      AncestorIsSmaller(j, Parent(x));
    }
  }

  // ---------------------------------------------------------------------------
  // Batch updates

  function Depth(x: int): (d: nat)
    requires x >= 0
    ensures x > 0 ==> d >= 1
    decreases x
  {
    if x == 0 then 0 else 1 + Depth(Parent(x))
  }

  /** `(indexes - 1) // 2` on a whole batch. */
  function Parents(s: seq<int>): (p: seq<int>)
    requires forall k :: 0 <= k < |s| ==> s[k] >= -1
    ensures |p| == |s| && forall k :: 0 <= k < |s| ==> p[k] == Parent(s[k])
    ensures forall k :: 0 <= k < |s| && s[k] >= 0 ==> p[k] < s[k]
  {
    seq(|s|, k requires 0 <= k < |s| => Parent(s[k]))
  }

  /** The total delta a node receives from a batch: the delta of every entry
      whose leaf lies below (or at) that node. */
  function Delta(j: int, xs: seq<int>, ds: seq<real>): real
    requires |xs| == |ds|
  {
    if |xs| == 0 then 0.0
    else
      var n := |xs| - 1;
      Delta(j, xs[..n], ds[..n]) + (if AncestorOrSelf(j, xs[n]) then ds[n] else 0.0)
  }

  /** The tree after every node on every entry's leaf-to-root path has
      received that entry's delta. */
  function Updated(t: seq<real>, xs: seq<int>, ds: seq<real>): (u: seq<real>)
    requires |xs| == |ds|
    ensures |u| == |t|
    ensures |t| > 0 && (forall k :: 0 <= k < |xs| ==> xs[k] >= 0) ==> u[0] == t[0] + Sum(ds, 0, |ds|)
  {
    var u := seq(|t|, j requires 0 <= j < |t| => t[j] + Delta(j, xs, ds));
    assert |t| > 0 && (forall k :: 0 <= k < |xs| ==> xs[k] >= 0) ==> u[0] == t[0] + Sum(ds, 0, |ds|) by {
      if |t| > 0 && (forall k :: 0 <= k < |xs| ==> xs[k] >= 0) {
        DeltaAtRoot(xs, ds);
      }
    }
    u
  }

  /** Per-entry deltas `new - old`, every old value read before any write. */
  function Diffs(t: seq<real>, xs: seq<int>, ps: seq<real>): (ds: seq<real>)
    requires |xs| == |ps|
    requires forall k :: 0 <= k < |xs| ==> 0 <= xs[k] < |t|
    ensures |ds| == |xs| && forall k :: 0 <= k < |xs| ==> t[xs[k]] + ds[k] == ps[k]
  {
    seq(|xs|, k requires 0 <= k < |xs| => ps[k] - t[xs[k]])
  }

  predicate AllLeaves(c: nat, xs: seq<int>)
  {
    forall k :: 0 <= k < |xs| ==> IsLeaf(c, xs[k])
  }

  predicate Distinct(xs: seq<int>)
  {
    forall k, l :: 0 <= k < l < |xs| ==> xs[k] != xs[l]
  }

  lemma {:induction false} DeltaSplit(c: nat, i: int, xs: seq<int>, ds: seq<real>)
    requires |xs| == |ds| && AllLeaves(c, xs) && 0 <= i < c - 1
    ensures Delta(i, xs, ds) == Delta(2 * i + 1, xs, ds) + Delta(2 * i + 2, xs, ds)
  {
    if |xs| > 0 {
      var n := |xs| - 1;
      DeltaSplit(c, i, xs[..n], ds[..n]);
      ChildSplit(i, xs[n]);
    }
  }

  /** A batched update keeps every internal node the sum of its children. */
  lemma UpdatePreservesConsistency(t: seq<real>, c: nat, xs: seq<int>, ds: seq<real>)
    requires Consistent(t, c) && |xs| == |ds| && AllLeaves(c, xs)
    ensures Consistent(Updated(t, xs, ds), c)
  {
    var u := Updated(t, xs, ds);
    forall i | 0 <= i < c - 1
      ensures u[i] == u[2 * i + 1] + u[2 * i + 2]
    {
      DeltaSplit(c, i, xs, ds);
    }
  }

  lemma {:induction false} DeltaOffPath(j: int, xs: seq<int>, ds: seq<real>)
    requires |xs| == |ds|
    requires forall k :: 0 <= k < |xs| ==> !AncestorOrSelf(j, xs[k])
    ensures Delta(j, xs, ds) == 0.0
  {
    if |xs| > 0 {
      DeltaOffPath(j, xs[..|xs| - 1], ds[..|xs| - 1]);
    }
  }

  lemma {:induction false} DeltaAtLeaf(c: nat, xs: seq<int>, ds: seq<real>, k0: int)
    requires |xs| == |ds| && AllLeaves(c, xs) && Distinct(xs) && 0 <= k0 < |xs|
    ensures Delta(xs[k0], xs, ds) == ds[k0]
  {
    var n := |xs| - 1;
    var j := xs[k0];
    LeafAncestorOnlyOfItself(c, j, xs[n]);
    if k0 == n {
      forall k | 0 <= k < n
        ensures !AncestorOrSelf(j, xs[..n][k])
      {
        LeafAncestorOnlyOfItself(c, j, xs[k]);
      }
      DeltaOffPath(j, xs[..n], ds[..n]);
    } else {
      DeltaAtLeaf(c, xs[..n], ds[..n], k0);
    }
  }

  /** With distinct leaves, each updated leaf ends at its new priority. */
  lemma UpdateSetsLeaves(t: seq<real>, c: nat, xs: seq<int>, ps: seq<real>, k: int)
    requires |t| == NodeCount(c) && |xs| == |ps| && AllLeaves(c, xs) && Distinct(xs)
    requires 0 <= k < |xs|
    ensures Updated(t, xs, Diffs(t, xs, ps))[xs[k]] == ps[k]
  {
    DeltaAtLeaf(c, xs, Diffs(t, xs, ps), k);
  }

  /** A node on no entry's leaf-to-root path keeps its value. */
  lemma UpdateLeavesOtherNodes(t: seq<real>, xs: seq<int>, ds: seq<real>, j: int)
    requires |xs| == |ds| && 0 <= j < |t|
    requires forall k :: 0 <= k < |xs| ==> !AncestorOrSelf(j, xs[k])
    ensures Updated(t, xs, ds)[j] == t[j]
  {
    DeltaOffPath(j, xs, ds);
  }

  /** The root moves by the sum of all deltas. */
  lemma {:induction false} DeltaAtRoot(xs: seq<int>, ds: seq<real>)
    requires |xs| == |ds| && forall k :: 0 <= k < |xs| ==> xs[k] >= 0
    ensures Delta(0, xs, ds) == Sum(ds, 0, |ds|)
  {
    if |xs| > 0 {
      var n := |xs| - 1;
      DeltaAtRoot(xs[..n], ds[..n]);
      RootIsAncestor(xs[n]);
      SumPrefix(ds, n);
    }
  }

  lemma SumPrefix(s: seq<real>, n: int)
    requires 0 <= n <= |s|
    ensures Sum(s[..n], 0, n) == Sum(s, 0, n)
  {
    var i := n;
    while i > 0
      invariant 0 <= i <= n
      invariant Sum(s[..n], 0, n) - Sum(s[..n], 0, i) == Sum(s, 0, n) - Sum(s, 0, i)
    {
      i := i - 1;
    }
  }

  /** A leaf listed twice in one batch gets both deltas, each taken against the
      same old value: it ends at `p1 + p2 - old`, and the tree stays consistent. */
  lemma DuplicateLeafInBatch(t: seq<real>, c: nat, x: int, p1: real, p2: real)
    requires Consistent(t, c) && IsLeaf(c, x)
    ensures Updated(t, [x, x], Diffs(t, [x, x], [p1, p2]))[x] == p1 + p2 - t[x]
    ensures Consistent(Updated(t, [x, x], Diffs(t, [x, x], [p1, p2])), c)
  {
    var ds := Diffs(t, [x, x], [p1, p2]);
    assert [x, x][..1] == [x] && ds[..1] == [ds[0]];
    assert [x][..0] == [] && [ds[0]][..0] == [];
    assert AncestorOrSelf(x, x);
    assert Delta(x, [x], [ds[0]]) == ds[0];
    assert Delta(x, [x, x], ds) == ds[0] + ds[1];
    UpdatePreservesConsistency(t, c, [x, x], ds);
  }

  // ---------------------------------------------------------------------------
  // Levels of the leaves

  function Pow2(d: nat): nat
  {
    if d == 0 then 1 else 2 * Pow2(d - 1)
  }

  lemma {:induction false} Pow2Grows(a: nat, b: nat)
    requires b <= a
    ensures Pow2(b) <= Pow2(a)
    decreases a - b
  {
    if b < a {
      Pow2Grows(a - 1, b);
    }
  }

  /** Node `x` sits on level `Depth(x)`, which holds nodes `2^d - 1 .. 2^(d+1) - 2`. */
  lemma {:induction false} DepthBounds(x: int)
    requires x >= 0
    ensures Pow2(Depth(x)) <= x + 1 < Pow2(Depth(x) + 1)
    decreases x
  {
    if x > 0 {
      DepthBounds(Parent(x));
    }
  }

  /** The leaves of the tree lie on at most two adjacent levels. */
  lemma LeafDepths(c: nat, x: int, y: int)
    requires IsLeaf(c, x) && IsLeaf(c, y)
    ensures Depth(y) <= Depth(x) + 1
  {
    DepthBounds(x);
    DepthBounds(y);
    if Depth(y) >= Depth(x) + 2 {
      Pow2Grows(Depth(y), Depth(x) + 2);
    }
  }

  // ---------------------------------------------------------------------------
  // The propagation loop, round by round

  /** What a round delivers to cell `j`: the deltas of the entries whose index is `j`. */
  function Arrivals(j: int, ys: seq<int>, ds: seq<real>): real
    requires |ys| == |ds|
  {
    if |ys| == 0 then 0.0
    else
      var n := |ys| - 1;
      Arrivals(j, ys[..n], ds[..n]) + (if ys[n] == j then ds[n] else 0.0)
  }

  /** One round hands each entry's delta to the node it is at and leaves the
      rest of its path for the following rounds. */
  lemma {:induction false} RoundDelivers(j: int, ys: seq<int>, ds: seq<real>)
    requires |ys| == |ds| && j >= 1 && forall k :: 0 <= k < |ys| ==> ys[k] >= -1
    ensures Delta(j, ys, ds) == Arrivals(j, ys, ds) + Delta(j, Parents(ys), ds)
  {
    if |ys| > 0 {
      var n := |ys| - 1;
      var ps := Parents(ys);
      assert ps[..n] == Parents(ys[..n]);
      RoundDelivers(j, ys[..n], ds[..n]);
      assert Delta(j, ps, ds) == Delta(j, ps[..n], ds[..n]) + (if AncestorOrSelf(j, ps[n]) then ds[n] else 0.0);
      assert AncestorOrSelf(j, ys[n]) <==> ys[n] == j || AncestorOrSelf(j, ps[n]);
      if ys[n] == j && AncestorOrSelf(j, ps[n]) {
        AncestorIsSmaller(j, ps[n]);
      }
    }
  }

  /** Entries at or above the root deliver nothing below it. */
  lemma PathsDone(j: int, ys: seq<int>, ds: seq<real>)
    requires |ys| == |ds| && j >= 1 && forall k :: 0 <= k < |ys| ==> ys[k] <= 0
    ensures Delta(j, ys, ds) == 0.0
  {
    forall k | 0 <= k < |ys|
      ensures !AncestorOrSelf(j, ys[k])
    {
      if AncestorOrSelf(j, ys[k]) {
        AncestorIsSmaller(j, ys[k]);
      }
    }
    DeltaOffPath(j, ys, ds);
  }

  /** The entries of a batch lie on at most two adjacent levels, and none has
      passed the root while another is still below it. */
  ghost predicate Level(ys: seq<int>)
  {
    forall k, l :: 0 <= k < |ys| && 0 <= l < |ys| && ys[k] >= 1 ==>
      ys[l] >= 0 && Depth(ys[k]) <= Depth(ys[l]) + 1
  }

  /** A batch of leaves starts level. */
  lemma LeavesAreLevel(c: nat, xs: seq<int>)
    requires AllLeaves(c, xs)
    ensures Level(xs)
  {
    forall k, l | 0 <= k < |xs| && 0 <= l < |xs| && xs[k] >= 1
      ensures xs[l] >= 0 && Depth(xs[k]) <= Depth(xs[l]) + 1
    {
      LeafDepths(c, xs[l], xs[k]);
    }
  }

  /** One round keeps a batch level: an entry two levels below the root can
      only be next to entries at least one level below it, so no entry passes
      the root while another is still below it. */
  lemma LevelStep(ys: seq<int>)
    requires Level(ys) && forall k :: 0 <= k < |ys| ==> ys[k] >= -1
    ensures Level(Parents(ys))
  {
    var ps := Parents(ys);
    forall k, l | 0 <= k < |ps| && 0 <= l < |ps| && ps[k] >= 1
      ensures ps[l] >= 0 && Depth(ps[k]) <= Depth(ps[l]) + 1
    {
      assert Depth(ys[k]) == Depth(ps[k]) + 1;
      assert Depth(ys[k]) >= 2;
      assert ys[l] >= 1;
    }
  }

  /** A cell no index names receives nothing in a round. */
  lemma {:induction false} NoArrivals(j: int, ys: seq<int>, ds: seq<real>)
    requires |ys| == |ds| && forall k :: 0 <= k < |ys| ==> ys[k] != j
    ensures Arrivals(j, ys, ds) == 0.0
  {
    if |ys| > 0 {
      NoArrivals(j, ys[..|ys| - 1], ds[..|ys| - 1]);
    }
  }

  /** While some entry of a level batch is still below the root, nothing
      reaches the sink, and the batch is still level one round later. */
  lemma LevelRound(ys: seq<int>, ds: seq<real>, top: int)
    requires Level(ys) && |ys| == |ds| && forall k :: 0 <= k < |ys| ==> ys[k] >= -1
    requires 0 <= top < |ys| && ys[top] >= 1
    ensures Arrivals(-1, ys, ds) == 0.0 && Level(Parents(ys))
  {
    NoArrivals(-1, ys, ds);
    LevelStep(ys);
  }

  // ---------------------------------------------------------------------------
  // Descent by prefix sums

  /** `retrieve_multiple_values` for one target, starting at node `i`: go left
      when the target fits in the left child, otherwise go right with the left
      child's mass taken off the target. */
  function Descend(t: seq<real>, c: nat, i: int, v: real): (r: (int, real))
    requires c >= 1 && |t| == NodeCount(c) && 0 <= i < |t|
    ensures IsLeaf(c, r.0)
    decreases |t| - i
  {
    if i >= c - 1 then (i, v)
    else if v <= t[2 * i + 1] then Descend(t, c, 2 * i + 1, v)
    else Descend(t, c, 2 * i + 2, v - t[2 * i + 1])
  }

  /** One level of the batched descent for one entry: a leaf stays put; an
      internal node moves to its left child when the target fits in the left
      child's mass (ties go left) and to its right child otherwise, with that
      mass taken off the target. */
  function DescendStep(t: seq<real>, c: nat, i: int, v: real): (r: (int, real))
    requires c >= 1 && |t| == NodeCount(c) && 0 <= i < |t|
    ensures 0 <= r.0 < |t| && i <= r.0
    ensures i < c - 1 <==> i < r.0
  {
    if i >= c - 1 then (i, v)
    else if v <= t[2 * i + 1] then (2 * i + 1, v)
    else (2 * i + 2, v - t[2 * i + 1])
  }

  /** A step leaves the rest of the descent unchanged. */
  lemma StepThenDescend(t: seq<real>, c: nat, i: int, v: real)
    requires c >= 1 && |t| == NodeCount(c) && 0 <= i < |t|
    ensures var r := DescendStep(t, c, i, v); Descend(t, c, r.0, r.1) == Descend(t, c, i, v)
  {
  }

  /** The mass of every subtree hanging to the left of the path from the root
      to node `i`: the leaves that precede `i`'s subtree in tree order. */
  function Before(t: seq<real>, i: int): real
    requires 0 <= i < |t|
    decreases i
  {
    if i == 0 then 0.0
    else
      var p := Parent(i);
      if i == 2 * p + 2 then Before(t, p) + t[2 * p + 1] else Before(t, p)
  }

  /** On a consistent tree, a target in `(0, t[i]]` stays in range all the way
      down, and the mass to the left of the path accounts for what was spent. */
  lemma {:induction false} DescendKeepsTarget(t: seq<real>, c: nat, i: int, v: real)
    requires Consistent(t, c) && 0 <= i < |t| && 0.0 < v <= t[i]
    ensures 0.0 < Descend(t, c, i, v).1 <= t[Descend(t, c, i, v).0]
    ensures Before(t, i) + v == Before(t, Descend(t, c, i, v).0) + Descend(t, c, i, v).1
    decreases |t| - i
  {
    if i < c - 1 {
      var l, r := 2 * i + 1, 2 * i + 2;
      assert t[i] == t[l] + t[r];
      var (j, w) := DescendStep(t, c, i, v);
      assert Parent(j) == i;
      assert 0.0 < w <= t[j] && Before(t, i) + v == Before(t, j) + w;
      StepThenDescend(t, c, i, v);
      DescendKeepsTarget(t, c, j, w);
    }
  }

  /** Proportional sampling: a target `v` with `0 < v <= total` reaches a leaf
      of positive priority whose tree-order prefix mass is below `v` and whose
      prefix mass through itself reaches `v`. */
  lemma DescentFromRoot(t: seq<real>, c: nat, v: real)
    requires Consistent(t, c) && 0.0 < v <= t[0]
    ensures t[Descend(t, c, 0, v).0] > 0.0
    ensures Before(t, Descend(t, c, 0, v).0) < v <= Before(t, Descend(t, c, 0, v).0) + t[Descend(t, c, 0, v).0]
  {
    DescendKeepsTarget(t, c, 0, v);
  }

}
