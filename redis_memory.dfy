/** The replay memory kept in Redis, with the keyspace modelled as the state of
    one object: the sum tree under `priorities<i>` (and the stray cell
    `priorities-1`), the maximum priority, each actor's write cursor, step and
    full flag, the learner's step and the transition hashes. Every pipelined
    `get`, `set`, `incrbyfloat` and `hmset` is a direct read or write of that
    state. */
module RedisMemory {
  import opened Records
  import opened SumTree
  import opened Shards
  import opened Sampling
  import opened Reductions
  import opened Assembly

  /** `hmget` of a key: every field is missing when the key was never written. */
  function Lookup(m: map<int, Record>, key: int): Option<Record>
  {
    if key in m then Some(m[key]) else None
  }

  /** `data_indexes + full_capacity - 1`: the leaf holding each data slot's priority. */
  function TreeIndexes(c: nat, data: seq<int>): (r: seq<int>)
    ensures |r| == |data|
  {
    seq(|data|, k requires 0 <= k < |data| => data[k] + c - 1)
  }

  /** The leaves `find_multiple_values` returns for the given targets: descend
      from the root, then push the data slot out of its actor's invalid region. */
  function SampledLeaves(t: seq<real>, cap: nat, cursors: seq<int>, h: int, n: int, targets: seq<real>): (r: seq<int>)
    requires cap >= 1 && |cursors| >= 1 && |t| == NodeCount(cap * |cursors|)
    ensures |r| == |targets| && AllLeaves(cap * |cursors|, r)
  {
    var c := cap * |cursors|;
    var r := seq(|targets|, k requires 0 <= k < |targets| =>
      RemapDataIndex(cap, cursors, h, n, Descend(t, c, 0, targets[k]).0 - c + 1) + c - 1);
    assert AllLeaves(c, r) by {
      forall k | 0 <= k < |targets|
        ensures IsLeaf(c, r[k])
      {
      }
    }
    r
  }

  /** Descending to `reached` and remapping to `r` is what `SampledLeaves` says. */
  lemma SampledLeavesAre(t: seq<real>, cap: nat, cursors: seq<int>, h: int, n: int, targets: seq<real>,
                         c: nat, reached: seq<int>, r: seq<int>)
    requires cap >= 1 && |cursors| >= 1 && c == cap * |cursors| && |t| == NodeCount(c)
    requires |reached| == |r| == |targets| && AllLeaves(c, reached)
    requires forall k :: 0 <= k < |targets| ==> reached[k] == Descend(t, c, 0, targets[k]).0
    requires forall k :: 0 <= k < |targets| ==> r[k] == RemapDataIndex(cap, cursors, h, n, reached[k] - c + 1) + c - 1
    ensures r == SampledLeaves(t, cap, cursors, h, n, targets)
  {
  }

  /** The targets of one sampling round: one stratified draw per stratum of the
      total mass, shuffled. */
  function Targets(total: real, u: seq<real>, order: seq<int>): (r: seq<real>)
    requires |u| > 0 && IsPermutation(order, |u|)
    ensures |r| == |u| && multiset(r) == multiset(StratifiedDraws(total, u))
  {
    Shuffle(StratifiedDraws(total, u), order)
  }

  /** Sum of `n - s[k]` over the batch: how far the batch still is from the end
      of a tree of `n` nodes. */
  ghost function Slack(s: seq<int>, n: int): int
  {
    if |s| == 0 then 0 else Slack(s[..|s| - 1], n) + (n - s[|s| - 1])
  }

  lemma {:induction false} SlackPositive(s: seq<int>, n: int)
    requires forall k :: 0 <= k < |s| ==> s[k] < n
    ensures Slack(s, n) >= 0
  {
    if |s| > 0 {
      SlackPositive(s[..|s| - 1], n);
    }
  }

  lemma {:induction false} SlackDecreases(a: seq<int>, b: seq<int>, n: int, k0: int)
    requires |a| == |b| && 0 <= k0 < |a| && a[k0] < b[k0]
    requires forall k :: 0 <= k < |a| ==> a[k] <= b[k]
    ensures Slack(b, n) < Slack(a, n)
  {
    var m := |a| - 1;
    if k0 == m {
      SlackNotIncreasing(a[..m], b[..m], n);
    } else {
      SlackDecreases(a[..m], b[..m], n, k0);
    }
  }

  lemma {:induction false} SlackNotIncreasing(a: seq<int>, b: seq<int>, n: int)
    requires |a| == |b| && forall k :: 0 <= k < |a| ==> a[k] <= b[k]
    ensures Slack(b, n) <= Slack(a, n)
  {
    if |a| > 0 {
      SlackNotIncreasing(a[..|a| - 1], b[..|b| - 1], n);
    }
  }

  lemma LeafOfSlot(cap: nat, nb: nat, id: int, local: int)
    requires cap >= 1 && 0 <= id < nb && 0 <= local < cap
    ensures IsLeaf(nb * cap, local + id * cap + nb * cap - 1)
  {
    ShardBelowEnd(cap, nb, id, local);
  }

  /** The leaves whose priorities an append of `len` steps into actor `id`'s
      shard sets: `(arange(index, index + len) % cap) + id * cap + C - 1`.
      They are leaves of the tree, in the order of the steps. */
  function AppendLeaves(cap: nat, nb: nat, id: int, index: int, len: nat): (xs: seq<int>)
    requires cap >= 1 && 0 <= id < nb
    ensures |xs| == len && AllLeaves(nb * cap, xs)
    ensures forall k :: 0 <= k < len ==> xs[k] == AppendKey(cap, id * cap, index, k) + nb * cap - 1
  {
    var xs := TreeIndexes(nb * cap, seq(len, k requires 0 <= k < len => AppendKey(cap, id * cap, index, k)));
    assert forall k :: 0 <= k < len ==> IsLeaf(nb * cap, xs[k]) by {
      forall k | 0 <= k < len
        ensures IsLeaf(nb * cap, xs[k])
      {
        LeafOfSlot(cap, nb, id, (index + k) % cap);
      }
    }
    xs
  }

  /** The record an append writes for step `k` sits under the very data slot
      whose leaf receives that step's priority. */
  lemma RecordKeysMatchPrioritySlots(m: map<int, Record>, cap: nat, nb: nat, id: int, start: int, buf: seq<ActorStep>, k: int)
    requires cap >= 1 && 0 <= id < nb && 0 <= start < cap && |buf| <= cap && 0 <= k < |buf|
    ensures var slot := AppendLeaves(cap, nb, id, start, |buf|)[k] - nb * cap + 1;
            && slot in WriteRecords(m, cap, id * cap, start, buf)
            && WriteRecords(m, cap, id * cap, start, buf)[slot] == Encode(buf[k])
  {
    WriteRecordsAt(m, cap, id * cap, start, buf, k);
  }

  /** `max(old, max(new))`: the stored maximum priority after a batch. It never
      decreases, bounds every new priority, and is either the old maximum or
      one of the new priorities. */
  function RaisedMax(m: real, ps: seq<real>): (r: real)
    requires |ps| > 0
    ensures m <= r && forall k :: 0 <= k < |ps| ==> ps[k] <= r
    ensures r == m || exists k :: 0 <= k < |ps| && r == ps[k]
  {
    if MaxOf(ps) > m then MaxOf(ps) else m
  }

  /** On a consistent, non-negative tree with positive total, every target but
      a zero draw in the first stratum reaches a leaf of positive priority, and
      the mass of the leaves before that leaf is below the target. */
  lemma DrawReachesPositiveLeaf(t: seq<real>, c: nat, u: seq<real>, order: seq<int>, k: int)
    requires Consistent(t, c) && NonNegative(t) && t[0] > 0.0
    requires |u| > 0 && Uniforms(u) && IsPermutation(order, |u|) && 0 <= k < |u|
    requires order[k] > 0 || u[order[k]] > 0.0
    ensures var v := Targets(t[0], u, order)[k];
            var leaf := Descend(t, c, 0, v).0;
            t[leaf] > 0.0 && Before(t, leaf) < v <= Before(t, leaf) + t[leaf]
  {
    DrawsInStrata(t[0], u, order[k]);
    DescentFromRoot(t, c, Targets(t[0], u, order)[k]);
  }

  /** The frames `get_byte_multiple_transition` reads for one data index:
      `h + n` consecutive slots of its shard, wrapping around, ending `n` slots
      after the index itself. */
  function Window(m: map<int, Record>, cap: nat, h: nat, n: nat, index: int): (w: seq<Option<Record>>)
    requires cap > 0
    ensures |w| == h + n
    ensures h >= 1 && index >= 0 ==> w[h - 1] == Lookup(m, index)
  {
    var w := seq(h + n, k requires 0 <= k < h + n => Lookup(m, WindowSlot(cap, h, index, k)));
    assert h >= 1 && index >= 0 ==> w[h - 1] == Lookup(m, index) by {
      if h >= 1 && index >= 0 {
        WindowInShard(cap, h, index, h - 1);
      }
    }
    w
  }

  /** The windows of a batch of data indexes, one after the other, as the
      single flat list the pipeline returns. */
  function Windows(m: map<int, Record>, cap: nat, h: nat, n: nat, xs: seq<int>): (r: seq<Option<Record>>)
    requires cap > 0
    ensures |r| == |xs| * (h + n)
  {
    if |xs| == 0 then []
    else Windows(m, cap, h, n, xs[..|xs| - 1]) + Window(m, cap, h, n, xs[|xs| - 1])
  }

  lemma MulMonotone(a: int, b: int, l: nat)
    requires a <= b
    ensures a * l <= b * l
  {
  }

  /** Window `i` lies inside a batch of `b` windows of length `l`. */
  lemma WindowInRange(i: int, b: int, l: nat)
    requires 0 <= i < b
    ensures 0 <= i * l && i * l + l <= b * l
  {
    MulMonotone(i + 1, b, l);
  }

  /** Frame `k` of sample `i` sits at `i * (h + n) + k` of the flat list and is
      the record of slot `WindowSlot(cap, h, xs[i], k)`, or none if that slot
      was never written. */
  lemma {:induction false} WindowsAt(m: map<int, Record>, cap: nat, h: nat, n: nat, xs: seq<int>, i: int, k: int)
    requires cap > 0 && 0 <= i < |xs| && 0 <= k < h + n
    ensures 0 <= i * (h + n) + k < |Windows(m, cap, h, n, xs)|
    ensures Windows(m, cap, h, n, xs)[i * (h + n) + k] == Lookup(m, WindowSlot(cap, h, xs[i], k))
  {
    var last := |xs| - 1;
    var l := h + n;
    assert |Windows(m, cap, h, n, xs[..last])| == last * l;
    if i < last {
      WindowsAt(m, cap, h, n, xs[..last], i, k);
      MulMonotone(i + 1, last, l);
      assert xs[..last][i] == xs[i];
    } else {
      assert i * l + k == last * l + k;
    }
  }

  predicate AllPositive(s: seq<real>)
  {
    forall k :: 0 <= k < |s| ==> s[k] > 0.0
  }

  /** `np.min(probs) > 0`. */
  lemma MinPositive(s: seq<real>)
    requires |s| > 0
    ensures MinOf(s) > 0.0 <==> AllPositive(s)
  {
  }

  /** The leaves one sampling round reaches with draws `u` and shuffle `order`. */
  function Round(t: seq<real>, cap: nat, cursors: seq<int>, h: int, n: int, u: seq<real>, order: seq<int>): (leaves: seq<int>)
    requires cap >= 1 && |cursors| >= 1 && |t| == NodeCount(cap * |cursors|)
    requires |u| > 0 && IsPermutation(order, |u|)
    ensures |leaves| == |u| && AllLeaves(cap * |cursors|, leaves)
  {
    SampledLeaves(t, cap, cursors, h, n, Targets(t[0], u, order))
  }

  /** The data indexes and the priorities read at the given leaves. */
  ghost predicate ReadAt(t: seq<real>, c: int, leaves: seq<int>, dataIndexes: seq<int>, probs: seq<real>)
  {
    |dataIndexes| == |probs| == |leaves| &&
    forall k :: 0 <= k < |leaves| ==>
      0 <= leaves[k] < |t| && dataIndexes[k] == leaves[k] - c + 1 && probs[k] == t[leaves[k]]
  }

  /** Some sampled leaf holds a priority that is not positive. */
  predicate Failed(t: seq<real>, leaves: seq<int>)
    requires forall k :: 0 <= k < |leaves| ==> 0 <= leaves[k] < |t|
  {
    exists k :: 0 <= k < |leaves| && t[leaves[k]] <= 0.0
  }

  /** The uniform draws and the shuffles of a series of sampling rounds, one
      of each per round, all of `batchSize` entries. */
  predicate Draws(us: seq<seq<real>>, orders: seq<seq<int>>, batchSize: nat)
  {
    |us| == |orders| &&
    forall a :: 0 <= a < |us| ==> |us[a]| == batchSize && IsPermutation(orders[a], batchSize)
  }

  /** Every one of the first `a` sampling rounds reached a leaf whose priority is not positive. */
  ghost predicate FailedRounds(t: seq<real>, cap: nat, cursors: seq<int>, h: int, n: int,
                               us: seq<seq<real>>, orders: seq<seq<int>>, batchSize: nat, a: int)
  {
    && cap >= 1 && |cursors| >= 1 && |t| == NodeCount(cap * |cursors|)
    && a <= |us| && Draws(us, orders, batchSize) && batchSize > 0
    && forall b :: 0 <= b < a ==> Failed(t, Round(t, cap, cursors, h, n, us[b], orders[b]))
  }

  /** `leaves` are what sampling round `a` returns. */
  ghost predicate RoundIs(t: seq<real>, cap: nat, cursors: seq<int>, h: int, n: int,
                          us: seq<seq<real>>, orders: seq<seq<int>>, batchSize: nat, a: int, leaves: seq<int>)
  {
    && cap >= 1 && |cursors| >= 1 && |t| == NodeCount(cap * |cursors|)
    && 0 <= a < |us| && Draws(us, orders, batchSize) && batchSize > 0
    && leaves == Round(t, cap, cursors, h, n, us[a], orders[a])
  }

  lemma FailedRoundsStep(t: seq<real>, cap: nat, cursors: seq<int>, h: int, n: int,
                         us: seq<seq<real>>, orders: seq<seq<int>>, batchSize: nat, a: nat)
    requires cap >= 1 && |cursors| >= 1 && |t| == NodeCount(cap * |cursors|)
    requires a < |us|
    requires Draws(us, orders, batchSize) && batchSize > 0
    requires FailedRounds(t, cap, cursors, h, n, us, orders, batchSize, a)
    requires Failed(t, Round(t, cap, cursors, h, n, us[a], orders[a]))
    ensures FailedRounds(t, cap, cursors, h, n, us, orders, batchSize, a + 1)
  {
  }

  /** `np.min(probs) <= 0` on the priorities read at the sampled leaves. */
  lemma MinFailed(t: seq<real>, c: int, leaves: seq<int>, dataIndexes: seq<int>, probs: seq<real>)
    requires |leaves| > 0 && ReadAt(t, c, leaves, dataIndexes, probs)
    ensures MinOf(probs) <= 0.0 <==> Failed(t, leaves)
  {
  }

  /** The priorities stored at the given leaves. */
  function ProbsAt(t: seq<real>, leaves: seq<int>): (p: seq<real>)
    requires forall k :: 0 <= k < |leaves| ==> 0 <= leaves[k] < |t|
    ensures |p| == |leaves|
  {
    seq(|leaves|, k requires 0 <= k < |leaves| => t[leaves[k]])
  }

  /** What one sampling round returns before the transitions are read. */
  datatype ByteSample = ByteSample(probs: seq<real>, dataIndexes: seq<int>, treeIndexes: seq<int>,
                                   transitions: seq<Option<Record>>, total: real)

  /** Window `i` of a flat list of records, decoded: entries
      `i * l .. i * l + l - 1`, `None` where the slot was never written. */
  function DecodedWindow(bytes: seq<Option<Record>>, l: nat, b: nat, i: int): (w: seq<Option<Transition>>)
    requires 0 <= i < b && b * l <= |bytes|
    ensures |w| == l
  {
    WindowInRange(i, b, l);
    DecodeAll(bytes[i * l .. i * l + l])
  }

  /** The first `k` windows, of length `l == h + n`, of a batch of `b` windows are all readable. */
  predicate BatchReadable(bytes: seq<Option<Record>>, h: nat, n: nat, l: nat, b: nat, k: nat)
    requires 1 <= h && l == h + n && b * l <= |bytes| && k <= b
  {
    forall i :: 0 <= i < k ==> Readable(DecodedWindow(bytes, l, b, i), h, n)
  }

  /** The first `k + 1` windows are readable exactly when the first `k` are
      and window `k` is. */
  lemma BatchReadableNext(bytes: seq<Option<Record>>, h: nat, n: nat, l: nat, b: nat, k: nat)
    requires 1 <= h && l == h + n && b * l <= |bytes| && k < b
    ensures BatchReadable(bytes, h, n, l, b, k + 1) <==>
            BatchReadable(bytes, h, n, l, b, k) && Readable(DecodedWindow(bytes, l, b, k), h, n)
  {
  }

  /** The samples assembled from the first `k` windows of a batch. */
  function BatchSamples(bytes: seq<Option<Record>>, h: nat, n: nat, l: nat, b: nat, k: nat, discount: real): (r: seq<Sample>)
    requires 1 <= h && l == h + n && b * l <= |bytes| && k <= b
    ensures |r| == k
  {
    seq(k, i requires 0 <= i < k => SampleOf(Fill(DecodedWindow(bytes, l, b, i)), h, n, discount))
  }

  lemma BatchSamplesNext(bytes: seq<Option<Record>>, h: nat, n: nat, l: nat, b: nat, k: nat, discount: real)
    requires 1 <= h && l == h + n && b * l <= |bytes| && k < b
    ensures BatchSamples(bytes, h, n, l, b, k + 1, discount) ==
            BatchSamples(bytes, h, n, l, b, k, discount) + [SampleOf(Fill(DecodedWindow(bytes, l, b, k)), h, n, discount)]
  {
  }

  /** Sum of `s[k] + 1` over the batch: how far the batch still is from having
      passed the root. */
  ghost function Height(s: seq<int>): int
  {
    if |s| == 0 then 0 else Height(s[..|s| - 1]) + s[|s| - 1] + 1
  }

  lemma {:induction false} HeightDecreases(s: seq<int>, k0: int)
    requires 0 <= k0 < |s| && s[k0] >= 0 && forall k :: 0 <= k < |s| ==> s[k] >= -1
    ensures 0 <= Height(Parents(s)) < Height(s)
  {
    var m := |s| - 1;
    assert Parents(s)[..m] == Parents(s[..m]);
    if k0 == m {
      HeightNotIncreasing(s[..m]);
    } else {
      HeightDecreases(s[..m], k0);
    }
  }

  lemma {:induction false} HeightNotIncreasing(s: seq<int>)
    requires forall k :: 0 <= k < |s| ==> s[k] >= -1
    ensures 0 <= Height(Parents(s)) <= Height(s)
  {
    if |s| > 0 {
      var m := |s| - 1;
      assert Parents(s)[..m] == Parents(s[..m]);
      HeightNotIncreasing(s[..m]);
    }
  }

  /** The indexes still in flight: one per entry, each an ancestor position of
      its entry's starting node, none beyond the root's parent. */
  ghost predicate Below(ys: seq<int>, xs: seq<int>, n: int)
  {
    |ys| == |xs| && forall k :: 0 <= k < |xs| ==> -1 <= ys[k] <= xs[k] < n
  }

  lemma BelowStep(ys: seq<int>, xs: seq<int>, n: int)
    requires Below(ys, xs, n)
    ensures Below(Parents(ys), xs, n)
  {
  }

  /** What the propagation loop keeps: every node below the root holds its
      starting value plus the deltas that have already reached it; the root
      is untouched until the end. */
  ghost predicate Carried(p: seq<real>, t0: seq<real>, ys: seq<int>, xs: seq<int>, ds: seq<real>)
  {
    |p| == |t0| >= 1 && |ys| == |xs| == |ds| && p[0] == t0[0] &&
    forall j :: 1 <= j < |p| ==> p[j] + Delta(j, ys, ds) == t0[j] + Delta(j, xs, ds)
  }

  /** One round of the propagation loop keeps its invariants and brings the
      batch closer to the root; a level batch sends nothing to the sink. */
  lemma RoundKeeps(p: seq<real>, q: seq<real>, t0: seq<real>, ys: seq<int>, xs: seq<int>, ds: seq<real>,
                   top: int, level: bool)
    requires Below(ys, xs, |p|) && Carried(p, t0, ys, xs, ds)
    requires |q| == |p| && q[0] == p[0]
    requires forall j :: 1 <= j < |p| ==> q[j] == p[j] + Arrivals(j, ys, ds)
    requires 0 <= top < |ys| && ys[top] >= 1
    requires level ==> Level(ys)
    ensures Below(Parents(ys), xs, |q|) && Carried(q, t0, Parents(ys), xs, ds)
    ensures 0 <= Height(Parents(ys)) < Height(ys)
    ensures level ==> Arrivals(-1, ys, ds) == 0.0 && Level(Parents(ys))
  {
    CarriedStep(p, q, t0, ys, xs, ds);
    BelowStep(ys, xs, |p|);
    HeightDecreases(ys, top);
    if level {
      LevelRound(ys, ds, top);
    }
  }

  lemma CarriedStep(p: seq<real>, q: seq<real>, t0: seq<real>, ys: seq<int>, xs: seq<int>, ds: seq<real>)
    requires Carried(p, t0, ys, xs, ds) && forall k :: 0 <= k < |ys| ==> ys[k] >= -1
    requires |q| == |p| && q[0] == p[0]
    requires forall j :: 1 <= j < |p| ==> q[j] == p[j] + Arrivals(j, ys, ds)
    ensures Carried(q, t0, Parents(ys), xs, ds)
  {
    forall j | 1 <= j < |q|
      ensures q[j] + Delta(j, Parents(ys), ds) == t0[j] + Delta(j, xs, ds)
    {
      RoundDelivers(j, ys, ds);
    }
  }

  lemma CarriedDone(p: seq<real>, q: seq<real>, t0: seq<real>, ys: seq<int>, xs: seq<int>, ds: seq<real>)
    requires Carried(p, t0, ys, xs, ds) && |xs| > 0
    requires forall k :: 0 <= k < |xs| ==> 0 <= xs[k] < |t0|
    requires forall k :: 0 <= k < |ys| ==> ys[k] <= MaxIndex(ys) <= 0
    requires |q| == |p| && q[0] == p[0] + Sum(ds, 0, |ds|)
    requires forall j :: 1 <= j < |p| ==> q[j] == p[j]
    ensures q == Updated(t0, xs, ds)
  {
    var u := Updated(t0, xs, ds);
    forall j | 1 <= j < |p|
      ensures q[j] == u[j]
    {
      PathsDone(j, ys, ds);
    }
    DeltaAtRoot(xs, ds);
    assert q[0] == u[0];
    assert forall j :: 0 <= j < |q| ==> q[j] == u[j];
  }

  /** The Redis keyspace of one replay memory. */
  class RedisSegmentTree {
    const actorCapacity: nat
    const nbActor: nat
    const fullCapacity: nat
    /** `priorities<i>` for the nodes `0 .. 2 * full_capacity - 2` of the sum tree. */
    const priorities: array<real>
    /** `index_actor<id>`: where actor `id` writes next in its shard. */
    const cursor: array<int>
    /** `step_actor<id>`. */
    const step: array<int>
    /** `is_full_actor<id>`: set by the actor once its shard has wrapped. */
    const isFull: array<bool>
    /** `priorities-1`: the cell an index that has passed the root is added to. */
    var sink: real
    var maxPriority: real
    var learnerStep: int
    /** `transition<slot>` hashes, keyed by data slot. */
    var records: map<int, Record>
    /** The learner-side latch, not stored in Redis. */
    var memoryFull: bool

    ghost predicate Valid()
      reads cursor
    {
      actorCapacity >= 1 && nbActor >= 1 &&
      fullCapacity == nbActor * actorCapacity && fullCapacity == actorCapacity * nbActor &&
      priorities.Length == NodeCount(fullCapacity) &&
      cursor.Length == nbActor && step.Length == nbActor && isFull.Length == nbActor &&
      cursor != step &&
      forall a :: 0 <= a < nbActor ==> 0 <= cursor[a] < actorCapacity
    }

    /** Connects to the store; the keys themselves are left as they are until
        `InitializeRedisDatabase`. */
    constructor (actorCapacity: nat, nbActor: nat)
      requires actorCapacity >= 1 && nbActor >= 1
      ensures Valid() && !memoryFull
      ensures this.actorCapacity == actorCapacity && this.nbActor == nbActor
      ensures fresh(priorities) && fresh(cursor) && fresh(step) && fresh(isFull)
    {
      this.actorCapacity := actorCapacity;
      this.nbActor := nbActor;
      fullCapacity := nbActor * actorCapacity;
      priorities := new real[2 * (nbActor * actorCapacity) - 1](_ => 0.0);
      cursor := new int[nbActor](_ => 0);
      step := new int[nbActor](_ => 0);
      isFull := new bool[nbActor](_ => false);
      memoryFull := false;
    }

    /** Flushes the store, then sets every tree node, every actor's cursor,
        step and full flag and the learner's step to 0, and the maximum
        priority to 1. */
    method InitializeRedisDatabase()
      requires Valid()
      modifies priorities, cursor, step, isFull, this`sink, this`maxPriority, this`learnerStep, this`records
      ensures Valid()
      ensures forall i :: 0 <= i < priorities.Length ==> priorities[i] == 0.0
      ensures forall a :: 0 <= a < nbActor ==> cursor[a] == 0 && step[a] == 0 && !isFull[a]
      ensures maxPriority == 1.0 && learnerStep == 0 && records == map[] && sink == 0.0
      ensures Consistent(priorities[..], fullCapacity) && NonNegative(priorities[..])
    {
      records := map[];
      sink := 0.0;
      ClearPriorities();
      ResetActors();
      maxPriority := 1.0;
      learnerStep := 0;
    }

    /** The first loop of `initialize_redis_database`: every tree node to 0. */
    method ClearPriorities()
      modifies priorities
      ensures forall i :: 0 <= i < priorities.Length ==> priorities[i] == 0.0
    {
      var i := 0;
      while i < priorities.Length
        invariant 0 <= i <= priorities.Length
        invariant forall j :: 0 <= j < i ==> priorities[j] == 0.0
      {
        priorities[i] := 0.0;
        i := i + 1;
      }
    }

    /** The second loop of `initialize_redis_database`: every actor's write
        index, step and full flag to 0. */
    method ResetActors()
      requires Valid()
      modifies cursor, step, isFull
      ensures Valid()
      ensures forall a :: 0 <= a < nbActor ==> cursor[a] == 0 && step[a] == 0 && !isFull[a]
    {
      var a := 0;
      while a < nbActor
        invariant 0 <= a <= nbActor
        invariant Valid()
        invariant forall b :: 0 <= b < a ==> cursor[b] == 0 && step[b] == 0 && !isFull[b]
      {
        cursor[a] := 0;
        step[a] := 0;
        isFull[a] := false;
        a := a + 1;
      }
    }

    /** `_propagate_multiple_values`: every round adds each entry's delta to
        the cell its index currently names (skipping the root), then moves
        every index to its parent, until no index is below the root; the root
        then receives the sum of all deltas. Every node ends up with the deltas
        of the entries below it. */
    method Propagate(xs: seq<int>, ds: seq<real>)
      requires fullCapacity >= 1 && priorities.Length == NodeCount(fullCapacity) && |xs| == |ds| > 0
      requires forall k :: 0 <= k < |xs| ==> 0 <= xs[k] < priorities.Length
      modifies priorities, this`sink
      ensures priorities[..] == Updated(old(priorities[..]), xs, ds)
      ensures AllLeaves(fullCapacity, xs) ==> sink == old(sink)
    {
      ghost var t0 := priorities[..];
      var indexes := xs;
      if AllLeaves(fullCapacity, xs) {
        LeavesAreLevel(fullCapacity, xs);
      }
      while MaxIndex(indexes) > 0
        invariant Below(indexes, xs, priorities.Length)
        invariant Carried(priorities[..], t0, indexes, xs, ds)
        invariant AllLeaves(fullCapacity, xs) ==> sink == old(sink) && Level(indexes)
        decreases Height(indexes)
      {
        var top :| 0 <= top < |indexes| && indexes[top] == MaxIndex(indexes);
        ghost var before := priorities[..];
        PropagateRound(indexes, ds);
        RoundKeeps(before, priorities[..], t0, indexes, xs, ds, top, AllLeaves(fullCapacity, xs));
        indexes := Parents(indexes);
      }
      ghost var before := priorities[..];
      priorities[0] := priorities[0] + Sum(ds, 0, |ds|);
      CarriedDone(before, priorities[..], t0, indexes, xs, ds);
    }

    /** One pass of the `for` loop of `_propagate_multiple_values`: each entry's
        delta is added to the cell its index names, except the root. */
    method PropagateRound(indexes: seq<int>, ds: seq<real>)
      requires priorities.Length >= 1
      requires |indexes| == |ds| && forall k :: 0 <= k < |indexes| ==> -1 <= indexes[k] < priorities.Length
      modifies priorities, this`sink
      ensures priorities[0] == old(priorities[0])
      ensures forall j :: 1 <= j < priorities.Length ==> priorities[j] == old(priorities[j]) + Arrivals(j, indexes, ds)
      ensures sink == old(sink) + Arrivals(-1, indexes, ds)
    {
      var i := 0;
      while i < |indexes|
        invariant 0 <= i <= |indexes|
        invariant priorities[0] == old(priorities[0])
        invariant forall j :: 1 <= j < priorities.Length ==>
                    priorities[j] == old(priorities[j]) + Arrivals(j, indexes[..i], ds[..i])
        invariant sink == old(sink) + Arrivals(-1, indexes[..i], ds[..i])
      {
        var index := indexes[i];
        var diff := ds[i];
        assert indexes[..i + 1][..i] == indexes[..i] && ds[..i + 1][..i] == ds[..i];
        if index != 0 {
          if index == -1 {
            sink := sink + diff;
          } else {
            priorities[index] := priorities[index] + diff;
          }
        }
        i := i + 1;
      }
      assert indexes[..|indexes|] == indexes && ds[..|ds|] == ds;
    }

    /** `update_multiple_value`: read the maximum priority and the old value of
        every listed node (all before any write), propagate `new - old` for each
        entry, and raise the maximum priority to the largest new one. */
    method UpdateMultipleValue(xs: seq<int>, ps: seq<real>)
      requires Valid() && |xs| == |ps| > 0
      requires forall k :: 0 <= k < |xs| ==> 0 <= xs[k] < priorities.Length
      modifies priorities, this`sink, this`maxPriority
      ensures priorities[..] == Updated(old(priorities[..]), xs, Diffs(old(priorities[..]), xs, ps))
      ensures AllLeaves(fullCapacity, xs) ==> sink == old(sink)
      ensures maxPriority == RaisedMax(old(maxPriority), ps)
    {
      var ds := Diffs(priorities[..], xs, ps);
      Propagate(xs, ds);
      if MaxOf(ps) > maxPriority {
        maxPriority := MaxOf(ps);
      }
    }

    /** `append_actor_buffer`: set the priorities of the leaves of the slots
        `(index + k) % cap` of actor `id`'s shard, write one record per step,
        advancing the write index modulo `cap` after each, then store the
        actor's new write index and step. */
    method AppendActorBuffer(buffer: seq<ActorStep>, index: int, id: int, ps: seq<real>, tActor: int)
      requires Valid() && 0 <= id < nbActor && |buffer| == |ps| > 0
      modifies priorities, cursor, step, this`sink, this`maxPriority, this`records
      ensures Valid()
      ensures var xs := AppendLeaves(actorCapacity, nbActor, id, index, |buffer|);
              priorities[..] == Updated(old(priorities[..]), xs, Diffs(old(priorities[..]), xs, ps))
      ensures sink == old(sink) && maxPriority == RaisedMax(old(maxPriority), ps)
      ensures records == WriteRecords(old(records), actorCapacity, id * actorCapacity, index, buffer)
      ensures cursor[..] == old(cursor[..])[id := (index + |buffer|) % actorCapacity]
      ensures step[..] == old(step[..])[id := tActor]
    {
      var xs := AppendLeaves(actorCapacity, nbActor, id, index, |buffer|);
      UpdateMultipleValue(xs, ps);
      ghost var updated := priorities[..];
      var local := WriteBuffer(buffer, index, id);
      WriteIndexAfter(actorCapacity, index, |buffer|);
      SetActor(id, local, tActor);
      assert priorities[..] == updated;
    }

    /** The two `set` calls that end `append_actor_buffer`: the actor's new
        write index and step. */
    method SetActor(id: int, local: int, tActor: int)
      requires Valid() && 0 <= id < nbActor && 0 <= local < actorCapacity
      modifies cursor, step
      ensures Valid()
      ensures cursor[..] == old(cursor[..])[id := local]
      ensures step[..] == old(step[..])[id := tActor]
    {
      cursor[id] := local;
      step[id] := tActor;
    }

    /** The `for` loop of `append_actor_buffer`: one record per step, at the
        write index of actor `id`, which advances modulo `cap` after each
        write; returns the final write index. */
    method WriteBuffer(buffer: seq<ActorStep>, index: int, id: int) returns (local: int)
      requires actorCapacity >= 1
      modifies this`records
      ensures records == WriteRecords(old(records), actorCapacity, id * actorCapacity, index, buffer)
      ensures local == AdvanceIndex(actorCapacity, index, |buffer|)
    {
      var base := id * actorCapacity;
      local := index;
      var k := 0;
      while k < |buffer|
        invariant 0 <= k <= |buffer|
        invariant local == AdvanceIndex(actorCapacity, index, k)
        invariant WriteRecords(records, actorCapacity, base, local, buffer[k..]) ==
                  WriteRecords(old(records), actorCapacity, base, index, buffer)
      {
        assert buffer[k..][1..] == buffer[k + 1..];
        records := records[base + local := Encode(buffer[k])];
        local := (local + 1) % actorCapacity;
        k := k + 1;
      }
    }

    /** One pass of the `for` loop of `_retrieve_multiple_values`: every entry
        moves one level down, as `DescendStep` says. */
    method RetrieveRound(indexes: array<int>, values: array<real>)
      requires Valid() && indexes.Length == values.Length
      requires indexes != cursor && values != priorities
      requires forall k :: 0 <= k < indexes.Length ==> 0 <= indexes[k] < priorities.Length
      modifies indexes, values
      ensures forall k :: 0 <= k < indexes.Length ==>
                (indexes[k], values[k]) == DescendStep(priorities[..], fullCapacity, old(indexes[k]), old(values[k]))
    {
      var i := 0;
      while i < indexes.Length
        invariant 0 <= i <= indexes.Length
        invariant forall k :: 0 <= k < i ==>
                    (indexes[k], values[k]) == DescendStep(priorities[..], fullCapacity, old(indexes[k]), old(values[k]))
        invariant forall k :: i <= k < indexes.Length ==> indexes[k] == old(indexes[k]) && values[k] == old(values[k])
      {
        var left := 2 * indexes[i] + 1;
        if left < 2 * fullCapacity - 1 {
          var sumLeft := priorities[left];
          if values[i] <= sumLeft {
            indexes[i] := left;
          } else {
            indexes[i] := left + 1;
            values[i] := values[i] - sumLeft;
          }
        }
        i := i + 1;
      }
    }

    /** `_retrieve_multiple_values`: while some entry is above the leaves, move
        every entry down one level (`DescendStep`), reading each left child's
        mass from the tree, and recurse; each entry ends where `Descend` puts it. */
    method RetrieveMultipleValues(indexes: array<int>, values: array<real>)
      requires Valid() && indexes.Length == values.Length > 0
      requires indexes != cursor && values != priorities
      requires forall k :: 0 <= k < indexes.Length ==> 0 <= indexes[k] < priorities.Length
      modifies indexes, values
      ensures forall k :: 0 <= k < indexes.Length ==>
                (indexes[k], values[k]) == Descend(priorities[..], fullCapacity, old(indexes[k]), old(values[k]))
      decreases Slack(indexes[..], priorities.Length)
    {
      if 2 * MinIndex(indexes[..]) + 1 >= 2 * fullCapacity - 1 {
        return;
      }
      ghost var t := priorities[..];
      ghost var before := indexes[..];
      RetrieveRound(indexes, values);
      ghost var low :| 0 <= low < |before| && before[low] == MinIndex(before);
      SlackDecreases(before, indexes[..], priorities.Length, low);
      SlackPositive(indexes[..], priorities.Length);
      RetrieveMultipleValues(indexes, values);
      forall k | 0 <= k < indexes.Length
        ensures (indexes[k], values[k]) == Descend(t, fullCapacity, old(indexes[k]), old(values[k]))
      {
        StepThenDescend(t, fullCapacity, old(indexes[k]), old(values[k]));
      }
    }
  
    /** `transform_to_valid_tree_indexes`: convert the tree indexes to data
        indexes, push each one out of its actor's invalid region around the
        write cursor `tabIndexActor[id]`, and convert back. */
    method TransformToValidTreeIndexes(treeIndexes: seq<int>, tabIndexActor: seq<int>, h: int, n: int)
      returns (r: seq<int>)
      requires Valid() && |tabIndexActor| == nbActor && AllLeaves(fullCapacity, treeIndexes)
      ensures |r| == |treeIndexes|
      ensures forall k :: 0 <= k < |r| ==>
                r[k] == RemapDataIndex(actorCapacity, tabIndexActor, h, n, treeIndexes[k] - fullCapacity + 1) + fullCapacity - 1
    {
      var data := new int[|treeIndexes|](k requires 0 <= k < |treeIndexes| => treeIndexes[k] - fullCapacity + 1);
      var i := 0;
      while i < data.Length
        invariant 0 <= i <= data.Length
        invariant forall k :: 0 <= k < i ==>
                    data[k] == RemapDataIndex(actorCapacity, tabIndexActor, h, n, treeIndexes[k] - fullCapacity + 1)
        invariant forall k :: i <= k < data.Length ==> data[k] == treeIndexes[k] - fullCapacity + 1
      {
        var dataIndex := data[i];
        ShardOf(actorCapacity, nbActor, dataIndex);
        var idCurrentActor := dataIndex / actorCapacity;
        var distToActorIndex := dataIndex % actorCapacity - tabIndexActor[idCurrentActor];
        if distToActorIndex >= 0 && distToActorIndex <= h {
          data[i] := (dataIndex + h - distToActorIndex + 1) % actorCapacity + idCurrentActor * actorCapacity;
        } else if distToActorIndex < 0 && distToActorIndex >= -n {
          data[i] := (dataIndex - n - distToActorIndex - 1) % actorCapacity + idCurrentActor * actorCapacity;
        }
        i := i + 1;
      }
      r := seq(data.Length, k requires 0 <= k < data.Length reads data => data[k] + fullCapacity - 1);
    }

    /** `total`: the value of the root, which on a consistent tree is the
        priority mass of all leaves. */
    function Total(): (r: real)
      reads priorities, cursor
      requires Valid()
      ensures Consistent(priorities[..], fullCapacity) ==> r == LeafSum(priorities[..], fullCapacity)
    {
      var t := priorities[..];
      if Consistent(t, fullCapacity) then RootIsLeafSum(t, fullCapacity); t[0] else t[0]
    }

    /** `find_multiple_values`, with the uniform draws `u` and the shuffle
        `order` as inputs: one target per stratum of the total mass, shuffled,
        descended from the root, remapped out of the invalid regions; returns
        the priorities at the sampled leaves, the data and tree indexes and the
        total. */
    method FindMultipleValues(h: int, n: int, u: seq<real>, order: seq<int>)
      returns (probs: seq<real>, dataIndexes: seq<int>, treeIndexes: seq<int>, total: real)
      requires Valid() && |u| > 0 && IsPermutation(order, |u|)
      ensures total == priorities[0]
      ensures treeIndexes == Round(priorities[..], actorCapacity, cursor[..], h, n, u, order)
      ensures AllLeaves(fullCapacity, treeIndexes) && ReadAt(priorities[..], fullCapacity, treeIndexes, dataIndexes, probs)
    {
      ghost var t := priorities[..];
      ghost var cursors := cursor[..];
      assert actorCapacity * |cursors| == fullCapacity;
      total := Total();
      var samples := Targets(total, u, order);
      var reached := RetrieveFromRoot(samples);
      treeIndexes := TransformToValidTreeIndexes(reached, cursor[..], h, n);
      SampledLeavesAre(t, actorCapacity, cursors, h, n, samples, fullCapacity, reached, treeIndexes);
      dataIndexes := seq(|treeIndexes|, k requires 0 <= k < |treeIndexes| => treeIndexes[k] - fullCapacity + 1);
      probs := ProbsAt(priorities[..], treeIndexes);
    }

    /** The call of `_retrieve_multiple_values` in `find_multiple_values`:
        every entry starts at the root with its target; returns the leaves
        reached. */
    method RetrieveFromRoot(samples: seq<real>) returns (reached: seq<int>)
      requires Valid() && |samples| > 0
      ensures |reached| == |samples| && AllLeaves(fullCapacity, reached)
      ensures forall k :: 0 <= k < |samples| ==> reached[k] == Descend(priorities[..], fullCapacity, 0, samples[k]).0
    {
      var indexes := new int[|samples|](_ => 0);
      var values := new real[|samples|](k requires 0 <= k < |samples| => samples[k]);
      RetrieveMultipleValues(indexes, values);
      reached := indexes[..];
    }

    /** `get_byte_multiple_transition`: for every data index, the records of
        its window of `h + n` slots, all in one flat list. */
    method GetByteMultipleTransition(tabIndexes: seq<int>, h: nat, n: nat) returns (r: seq<Option<Record>>)
      requires Valid()
      ensures r == Windows(records, actorCapacity, h, n, tabIndexes)
    {
      r := [];
      var i := 0;
      while i < |tabIndexes|
        invariant 0 <= i <= |tabIndexes|
        invariant r == Windows(records, actorCapacity, h, n, tabIndexes[..i])
      {
        var index := tabIndexes[i];
        var idCurrentActor := index / actorCapacity;
        var w := [];
        var k := 0;
        while k < h + n
          invariant 0 <= k <= h + n
          invariant w == Window(records, actorCapacity, h, n, index)[..k]
        {
          w := w + [Lookup(records, (k + index - h + 1) % actorCapacity + idCurrentActor * actorCapacity)];
          k := k + 1;
        }
        assert tabIndexes[..i + 1][..i] == tabIndexes[..i];
        r := r + w;
        i := i + 1;
      }
      assert tabIndexes[..|tabIndexes|] == tabIndexes;
    }

    /** `get_current_capacity`: once latched full, the full capacity without
        reading the store; otherwise the sum over actors of `actor_capacity`
        for a full shard and of the write cursor for the others, latching
        `memory_full` when every shard is full. */
    method GetCurrentCapacity() returns (capacity: int)
      requires Valid()
      modifies this`memoryFull
      ensures old(memoryFull) ==> memoryFull && capacity == fullCapacity
      ensures !old(memoryFull) ==> capacity == Capacity(actorCapacity, isFull[..], cursor[..])
      ensures !old(memoryFull) ==> (memoryFull <==> forall a :: 0 <= a < nbActor ==> isFull[a])
    {
      if memoryFull {
        return fullCapacity;
      }
      var isMemoryFull := true;
      capacity := 0;
      var a := 0;
      while a < nbActor
        invariant 0 <= a <= nbActor
        invariant capacity == Capacity(actorCapacity, isFull[..a], cursor[..a])
        invariant isMemoryFull <==> forall b :: 0 <= b < a ==> isFull[b]
      {
        assert isFull[..a + 1][..a] == isFull[..a] && cursor[..a + 1][..a] == cursor[..a];
        if isFull[a] {
          capacity := capacity + actorCapacity;
        } else {
          capacity := capacity + cursor[a];
          isMemoryFull := false;
        }
        a := a + 1;
      }
      assert isFull[..nbActor] == isFull[..] && cursor[..nbActor] == cursor[..];
      memoryFull := isMemoryFull;
    }
  }

  /** The learner's and the actors' view of the replay memory: the window
      lengths, the discount, and the store. */
  class ReplayRedisMemory {
    const history: nat
    const n: nat
    const discount: real
    const transitions: RedisSegmentTree

    ghost predicate Valid()
      reads transitions.cursor
    {
      history >= 1 && transitions.Valid()
    }

    constructor (actorCapacity: nat, nbActor: nat, history: nat, n: nat, discount: real)
      requires actorCapacity >= 1 && nbActor >= 1 && history >= 1
      ensures Valid() && fresh(transitions) && !transitions.memoryFull
      ensures this.history == history && this.n == n && this.discount == discount
      ensures transitions.actorCapacity == actorCapacity && transitions.nbActor == nbActor
    {
      this.history := history;
      this.n := n;
      this.discount := discount;
      transitions := new RedisSegmentTree(actorCapacity, nbActor);
    }

    /** `update_priorities`, with the priorities already raised to the
        priority exponent: a batched update of the given tree nodes. */
    method UpdatePriorities(idxs: seq<int>, ps: seq<real>)
      requires Valid() && |idxs| == |ps| > 0
      requires forall k :: 0 <= k < |idxs| ==> 0 <= idxs[k] < transitions.priorities.Length
      modifies transitions.priorities, transitions`sink, transitions`maxPriority
      ensures transitions.priorities[..] ==
              Updated(old(transitions.priorities[..]), idxs, Diffs(old(transitions.priorities[..]), idxs, ps))
      ensures AllLeaves(transitions.fullCapacity, idxs) ==> transitions.sink == old(transitions.sink)
      ensures transitions.maxPriority == RaisedMax(old(transitions.maxPriority), ps)
    {
      transitions.UpdateMultipleValue(idxs, ps);
    }

    /** The sampling and resampling of `_get_byte_sample_from_all_segment`,
        with the draws and shuffles of up to eleven rounds as inputs: sample;
        while some probability is not positive, sample again, at most ten more
        times. Returns the last round's results and its number. */
    method SampleWithRetries(us: seq<seq<real>>, orders: seq<seq<int>>, batchSize: nat)
      returns (probs: seq<real>, dataIndexes: seq<int>, treeIndexes: seq<int>, total: real, attempt: nat)
      requires Valid() && batchSize > 0 && |us| == 11 && Draws(us, orders, batchSize)
      ensures attempt <= 10 && total == transitions.priorities[0]
      ensures treeIndexes == Round(transitions.priorities[..], transitions.actorCapacity, transitions.cursor[..],
                                   history, n, us[attempt], orders[attempt])
      ensures |treeIndexes| == batchSize
      ensures ReadAt(transitions.priorities[..], transitions.fullCapacity, treeIndexes, dataIndexes, probs)
      ensures FailedRounds(transitions.priorities[..], transitions.actorCapacity, transitions.cursor[..],
                           history, n, us, orders, batchSize, attempt)
      ensures attempt < 10 ==> !Failed(transitions.priorities[..], treeIndexes)
    {
      ghost var t := transitions.priorities[..];
      ghost var cursors := transitions.cursor[..];
      ghost var cap := transitions.actorCapacity;
      probs, dataIndexes, treeIndexes, total := transitions.FindMultipleValues(history, n, us[0], orders[0]);
      attempt := 0;
      MinFailed(t, transitions.fullCapacity, treeIndexes, dataIndexes, probs);
      if MinOf(probs) <= 0.0 {
        var retry := 0;
        while retry < 10
          invariant 0 <= retry <= 10 && attempt == retry
          invariant RoundIs(t, cap, cursors, history, n, us, orders, batchSize, attempt, treeIndexes) && total == t[0]
          invariant |treeIndexes| == batchSize && ReadAt(t, transitions.fullCapacity, treeIndexes, dataIndexes, probs)
          invariant FailedRounds(t, cap, cursors, history, n, us, orders, batchSize, attempt + 1)
        {
          probs, dataIndexes, treeIndexes, total := transitions.FindMultipleValues(history, n, us[retry + 1], orders[retry + 1]);
          attempt := retry + 1;
          MinFailed(t, transitions.fullCapacity, treeIndexes, dataIndexes, probs);
          if MinOf(probs) > 0.0 {
            break;
          }
          FailedRoundsStep(t, cap, cursors, history, n, us, orders, batchSize, attempt);
          retry := retry + 1;
        }
      }
    }

    /** `_get_byte_sample_from_all_segment`: sample with retries; if some
        probability is still not positive, set the non-positive ones to
        `1 / capacity`, a division that fails (`None`) when the capacity is 0;
        then read the windows of the sampled data indexes. Only that fix-up
        asks for the capacity, and so only it can latch `memoryFull`. */
    method GetByteSampleFromAllSegment(us: seq<seq<real>>, orders: seq<seq<int>>, batchSize: nat)
      returns (r: Option<ByteSample>, ghost attempt: nat)
      requires Valid() && batchSize > 0 && |us| == 11 && Draws(us, orders, batchSize)
      modifies transitions`memoryFull
      ensures attempt <= 10
      ensures FailedRounds(transitions.priorities[..], transitions.actorCapacity, transitions.cursor[..],
                           history, n, us, orders, batchSize, attempt)
      ensures var t := transitions.priorities[..];
              var leaves := Round(t, transitions.actorCapacity, transitions.cursor[..], history, n, us[attempt], orders[attempt]);
              var failed := Failed(t, leaves);
              var capacity := if old(transitions.memoryFull) then transitions.fullCapacity
                              else Capacity(transitions.actorCapacity, transitions.isFull[..], transitions.cursor[..]);
              && (attempt < 10 ==> !failed)
              && transitions.memoryFull ==
                   (old(transitions.memoryFull) || (failed && forall a :: 0 <= a < transitions.nbActor ==> transitions.isFull[a]))
              && (r.None? <==> failed && capacity == 0)
              && (r.Some? ==>
                    var s := r.value;
                    && s.treeIndexes == leaves
                    && s.total == t[0]
                    && |s.dataIndexes| == |leaves|
                    && (forall k :: 0 <= k < |leaves| ==> s.dataIndexes[k] == leaves[k] - transitions.fullCapacity + 1)
                    && s.probs == (if failed then FixProbabilities(ProbsAt(t, leaves), capacity) else ProbsAt(t, leaves))
                    && AllPositive(s.probs)
                    && s.transitions == Windows(transitions.records, transitions.actorCapacity, history, n, s.dataIndexes))
    {
      ghost var t := transitions.priorities[..];
      var probs, dataIndexes, treeIndexes, total, tries := SampleWithRetries(us, orders, batchSize);
      attempt := tries;
      assert probs == ProbsAt(t, treeIndexes);
      MinFailed(t, transitions.fullCapacity, treeIndexes, dataIndexes, probs);
      if MinOf(probs) <= 0.0 {
        var capacity := transitions.GetCurrentCapacity();
        assert transitions.priorities[..] == t;
        CapacityBounds(transitions.actorCapacity, transitions.isFull[..], transitions.cursor[..]);
        if capacity == 0 {
          return None, attempt;
        }
        probs := FixProbabilities(probs, capacity);
      } else {
        MinPositive(probs);
      }
      var bytes := transitions.GetByteMultipleTransition(dataIndexes, history, n);
      r := Some(ByteSample(probs, dataIndexes, treeIndexes, bytes, total));
    }

    /** The first masking pass of `get_torch_tensor_from_byte_transition`,
        from frame `history - 2` down to frame 0: a frame followed by one with
        timestep 0 becomes the blank transition, which has timestep 0 in turn,
        so the blanking cascades towards the start of the window. Reading an
        unwritten frame fails, and then the window cannot be read at all. */
    method MaskStarts(w: array<Option<Transition>>) returns (ok: bool)
      requires history >= 1 && w.Length == history + n
      modifies w
      ensures !ok ==> !Readable(old(w[..]), history, n)
      ensures ok ==> forall j :: 0 <= j < history - 1 ==>
                w[j] == if StartsLater(Fill(old(w[..])), history, j) then Some(Blank()) else old(w[j])
      ensures forall j :: history - 1 <= j < w.Length ==> w[j] == old(w[j])
    {
      ghost var w0 := w[..];
      ghost var f := Fill(w0);
      var t: int := history - 2;
      while t >= 0
        invariant -1 <= t <= history - 2
        invariant forall j :: t < j < history - 1 ==> w[j] == if StartsLater(f, history, j) then Some(Blank()) else w0[j]
        invariant forall j :: 0 <= j <= t || history - 1 <= j < w.Length ==> w[j] == w0[j]
      {
        if w[t + 1].None? {
          assert w0[t + 1].None? && !Masked(f, history, n, t + 1);
          return false;
        }
        StartsLaterStep(f, history, t);
        if w[t + 1].value.timestep == 0 {
          w[t] := Some(Blank());
        }
        t := t - 1;
      }
      return true;
    }

    /** The second masking pass, from frame `history` up to the last frame: a
        frame that follows a terminal one becomes the blank transition, which
        is terminal in turn, so the blanking cascades to the end. The pass
        reads only frames from `history - 1` on, which agree with those of the
        window `w0` the masking started from. */
    method MaskEnds(w: array<Option<Transition>>, ghost w0: seq<Option<Transition>>) returns (ok: bool)
      requires history >= 1 && w.Length == |w0| == history + n
      requires forall j :: history - 1 <= j < w.Length ==> w[j] == w0[j]
      modifies w
      ensures !ok ==> !Readable(w0, history, n)
      ensures ok ==> forall j :: history <= j < w.Length ==>
                w[j] == if EndsEarlier(Fill(w0), history, j) then Some(Blank()) else w0[j]
      ensures forall j :: 0 <= j < history ==> w[j] == old(w[j])
    {
      ghost var f := Fill(w0);
      var t := history;
      while t < history + n
        invariant history <= t <= history + n
        invariant forall j :: history <= j < t ==> w[j] == if EndsEarlier(f, history, j) then Some(Blank()) else w0[j]
        invariant forall j :: t <= j < w.Length ==> w[j] == w0[j]
        invariant forall j :: 0 <= j < history ==> w[j] == old(w[j])
      {
        if w[t - 1].None? {
          assert w0[t - 1].None? && !Masked(f, history, n, t - 1);
          return false;
        }
        EndsEarlierStep(f, history, t);
        if !w[t - 1].value.nonterminal {
          w[t] := Some(Blank());
        }
        t := t + 1;
      }
      return true;
    }

    /** The two masking passes of `get_torch_tensor_from_byte_transition` on
        one window, in place. When neither pass reads an unwritten frame, each
        frame is blanked exactly when `Masked` says so and is kept otherwise. */
    method MaskInPlace(w: array<Option<Transition>>) returns (ok: bool)
      requires history >= 1 && w.Length == history + n
      modifies w
      ensures !ok ==> !Readable(old(w[..]), history, n)
      ensures ok ==> forall j :: 0 <= j < w.Length ==>
                w[j] == if Masked(Fill(old(w[..])), history, n, j) then Some(Blank()) else old(w[j])
    {
      ghost var w0 := w[..];
      ok := MaskStarts(w);
      if !ok {
        return;
      }
      ok := MaskEnds(w, w0);
    }

    /** The assembly's reads of a masked window: every frame must be present. */
    static method ReadFrames(w: array<Option<Transition>>) returns (m: Option<seq<Transition>>)
      ensures m.Some? <==> forall j :: 0 <= j < w.Length ==> w[j].Some?
      ensures m.Some? ==> |m.value| == w.Length && forall j :: 0 <= j < w.Length ==> m.value[j] == w[j].value
    {
      var frames: seq<Transition> := [];
      var k := 0;
      while k < w.Length
        invariant 0 <= k <= w.Length && |frames| == k
        invariant forall j :: 0 <= j < k ==> w[j].Some? && frames[j] == w[j].value
      {
        if w[k].None? {
          return None;
        }
        frames := frames + [w[k].value];
        k := k + 1;
      }
      m := Some(frames);
    }

    /** One sample of `get_torch_tensor_from_byte_transition`: decode window
        `i` of the flat list into a fresh list, mask it in place and assemble
        it. The assembly reads every frame, so a frame still unwritten after
        the masking makes the window unreadable as well. */
    method DecodeMaskAssemble(bytes: seq<Option<Record>>, batchSize: nat, i: nat) returns (s: Option<Sample>)
      requires history >= 1 && i < batchSize && batchSize * (history + n) <= |bytes|
      ensures var w := DecodedWindow(bytes, history + n, batchSize, i);
              s == if Readable(w, history, n) then Some(SampleOf(Fill(w), history, n, discount)) else None
    {
      var l := history + n;
      WindowInRange(i, batchSize, l);
      var offset := i * l;
      var w := new Option<Transition>[l](k requires 0 <= k < l => Decode(bytes[offset + k]));
      ghost var w0 := w[..];
      ghost var f := Fill(w0);
      assert w0 == DecodedWindow(bytes, l, batchSize, i);
      var ok := MaskInPlace(w);
      if !ok {
        return None;
      }
      var m := ReadFrames(w);
      if m.None? {
        ghost var k :| 0 <= k < l && w[k].None?;
        assert w0[k].None? && !Masked(f, history, n, k);
        return None;
      }
      assert m.value == MaskWindow(f, history, n);
      s := Some(Assemble(m.value, history, n, discount));
    }

    /** `get_torch_tensor_from_byte_transition` up to the tensors: decode the
        window of every sample from the flat list, mask it, and assemble state,
        action, n-step return, n-th next state and non-terminal flag. The
        whole batch fails, with `None`, when one of its windows is unreadable. */
    method GetTorchTensorFromByteTransition(bytes: seq<Option<Record>>, batchSize: nat) returns (samples: Option<seq<Sample>>)
      requires Valid() && batchSize * (history + n) <= |bytes|
      ensures samples.Some? <==> BatchReadable(bytes, history, n, history + n, batchSize, batchSize)
      ensures samples.Some? ==> |samples.value| == batchSize
      ensures samples.Some? ==> forall i :: 0 <= i < batchSize ==>
                samples.value[i] == SampleOf(Fill(DecodedWindow(bytes, history + n, batchSize, i)), history, n, discount)
    {
      var done: seq<Sample> := [];
      var i := 0;
      while i < batchSize
        invariant 0 <= i <= batchSize && |done| == i
        invariant BatchReadable(bytes, history, n, history + n, batchSize, i)
        invariant done == BatchSamples(bytes, history, n, history + n, batchSize, i, discount)
      {
        var sample := DecodeMaskAssemble(bytes, batchSize, i);
        BatchReadableNext(bytes, history, n, history + n, batchSize, i);
        BatchSamplesNext(bytes, history, n, history + n, batchSize, i, discount);
        if sample.None? {
          return None;
        }
        done := done + [sample.value];
        i := i + 1;
      }
      samples := Some(done);
    }
  }
}
