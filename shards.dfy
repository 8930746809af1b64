/** Index arithmetic of the sharded ring buffer: actor `id` owns the data slots
    `id * cap .. id * cap + cap - 1` of a flat slot space, writes them round
    robin, and the learner reads windows of consecutive slots back inside the
    same shard. All of it is Python integer arithmetic on non-negative
    divisors, where Dafny's `/` and `%` agree with `//` and `%`. */
module Shards {
  import opened Records

  // ---------------------------------------------------------------------------
  // Euclidean division facts

  lemma MulAtLeast(m: int, d: int)
    requires m > 0 && d >= 1
    ensures m * d >= m
  {
  }

  lemma MulAtMost(m: int, d: int)
    requires m > 0 && d <= -1
    ensures m * d <= -m
  {
  }

  /** Division by `m` is unique: `m * q + r` with `0 <= r < m` splits back into `q` and `r`. */
  lemma DivMod(q: int, r: int, m: int)
    requires m > 0 && 0 <= r < m
    ensures (m * q + r) / m == q && (m * q + r) % m == r
  {
    var x := m * q + r;
    var q', r' := x / m, x % m;
    assert m * (q' - q) == r - r';
    if q' - q >= 1 {
      MulAtLeast(m, q' - q);
    } else if q' - q <= -1 {
      MulAtMost(m, q' - q);
    }
  }

  lemma ModAddMultiple(x: int, q: int, m: int)
    requires m > 0
    ensures (x + m * q) % m == x % m
  {
    DivMod(x / m + q, x % m, m);
    assert x + m * q == m * (x / m + q) + x % m;
  }

  /** Reducing an operand modulo `m` first does not change a sum modulo `m`. */
  lemma ModOfModSum(x: int, y: int, m: int)
    requires m > 0
    ensures (x % m + y) % m == (x + y) % m
  {
    ModAddMultiple(x % m + y, x / m, m);
    assert x % m + y + m * (x / m) == x + y;
  }

  // ---------------------------------------------------------------------------
  // Slots

  /** Flat data slot of local index `local` in actor `id`'s shard. */
  function GlobalSlot(cap: nat, id: int, local: int): int
  {
    id * cap + local
  }

  predicate InShard(cap: nat, id: int, slot: int)
  {
    id * cap <= slot < id * cap + cap
  }

  /** Data slot of the k-th step of an append that starts at local index
      `start` of the shard beginning at slot `base`: the slot both the record
      and the priority of that step go to. It never leaves the shard. */
  function AppendKey(cap: nat, base: int, start: int, k: int): (slot: int)
    requires cap > 0
    ensures base <= slot < base + cap
  {
    base + (start + k) % cap
  }

  /** The `hmset` calls of one append into the shard that begins at slot
      `base`, one record per step. The first key is built from the caller's
      write index as it is; the index is reduced modulo `cap` after each write. */
  function WriteRecords(m: map<int, Record>, cap: nat, base: int, local: int, buf: seq<ActorStep>): (r: map<int, Record>)
    requires cap > 0
    ensures m.Keys <= r.Keys
    ensures |buf| > 0 ==> base + local in r
    decreases |buf|
  {
    if |buf| == 0 then m
    else WriteRecords(m[base + local := Encode(buf[0])], cap, base, (local + 1) % cap, buf[1..])
  }

  lemma AppendKeyNext(cap: nat, base: int, start: int, k: int)
    requires cap > 0
    ensures AppendKey(cap, base, (start + 1) % cap, k) == AppendKey(cap, base, start, k + 1)
  {
    ModOfModSum(start + 1, k, cap);
  }

  /** A key that is none of the append's slots keeps its record (or its absence). */
  lemma {:induction false} WriteRecordsElsewhere(m: map<int, Record>, cap: nat, base: int, start: int, buf: seq<ActorStep>, key: int)
    requires cap > 0 && 0 <= start < cap
    requires forall k :: 0 <= k < |buf| ==> key != AppendKey(cap, base, start, k)
    ensures key in WriteRecords(m, cap, base, start, buf) <==> key in m
    ensures key in m ==> WriteRecords(m, cap, base, start, buf)[key] == m[key]
    decreases |buf|
  {
    if |buf| > 0 {
      DivMod(0, start, cap);
      assert key != AppendKey(cap, base, start, 0);
      var next := (start + 1) % cap;
      forall k | 0 <= k < |buf| - 1
        ensures key != AppendKey(cap, base, next, k)
      {
        AppendKeyNext(cap, base, start, k);
        assert key != AppendKey(cap, base, start, k + 1);
      }
      WriteRecordsElsewhere(m[base + start := Encode(buf[0])], cap, base, next, buf[1..], key);
    }
  }

  /** Within one lap of the shard the slots of one append are pairwise distinct. */
  lemma DistinctLocalSlots(cap: nat, start: int, k: int, l: int)
    requires cap > 0 && 0 <= start < cap && 0 <= k < l < cap
    ensures (start + k) % cap != (start + l) % cap
  {
    if start + k < cap {
      DivMod(0, start + k, cap);
    } else {
      DivMod(1, start + k - cap, cap);
    }
    if start + l < cap {
      DivMod(0, start + l, cap);
    } else {
      DivMod(1, start + l - cap, cap);
    }
  }

  /** An append of at most `cap` steps writes the k-th step at local index
      `(start + k) % cap` of its shard. */
  lemma {:induction false} WriteRecordsAt(m: map<int, Record>, cap: nat, base: int, start: int, buf: seq<ActorStep>, k: int)
    requires cap > 0 && 0 <= start < cap && |buf| <= cap && 0 <= k < |buf|
    ensures AppendKey(cap, base, start, k) in WriteRecords(m, cap, base, start, buf)
    ensures WriteRecords(m, cap, base, start, buf)[AppendKey(cap, base, start, k)] == Encode(buf[k])
    decreases |buf|
  {
    var m' := m[base + start := Encode(buf[0])];
    var next := (start + 1) % cap;
    if k == 0 {
      DivMod(0, start, cap);
      var key := base + start;
      assert key == AppendKey(cap, base, start, 0);
      forall j | 0 <= j < |buf| - 1
        ensures key != AppendKey(cap, base, next, j)
      {
        AppendKeyNext(cap, base, start, j);
        DistinctLocalSlots(cap, start, 0, j + 1);
      }
      WriteRecordsElsewhere(m', cap, base, next, buf[1..], key);
    } else {
      WriteRecordsAt(m', cap, base, next, buf[1..], k - 1);
      AppendKeyNext(cap, base, start, k - 1);
    }
  }

  /** An append never touches another actor's shard. */
  lemma WriteRecordsConfined(m: map<int, Record>, cap: nat, id: int, start: int, buf: seq<ActorStep>, key: int)
    requires cap > 0 && 0 <= start < cap && !InShard(cap, id, key)
    ensures key in WriteRecords(m, cap, id * cap, start, buf) <==> key in m
    ensures key in m ==> WriteRecords(m, cap, id * cap, start, buf)[key] == m[key]
  {
    forall k | 0 <= k < |buf|
      ensures key != AppendKey(cap, id * cap, start, k)
    {
    }
    WriteRecordsElsewhere(m, cap, id * cap, start, buf, key);
  }

  /** `len` steps of `index = (index + 1) % cap`. */
  function AdvanceIndex(cap: nat, start: int, len: nat): (index: int)
    requires cap > 0
    ensures len > 0 ==> 0 <= index < cap
  {
    if len == 0 then start else (AdvanceIndex(cap, start, len - 1) + 1) % cap
  }

  /** The write index an actor holds after appending `len >= 1` steps. */
  lemma {:induction false} WriteIndexAfter(cap: nat, start: int, len: nat)
    requires cap > 0 && len >= 1
    ensures AdvanceIndex(cap, start, len) == (start + len) % cap
  {
    if len > 1 {
      WriteIndexAfter(cap, start, len - 1);
      ModOfModSum(start + len - 1, 1, cap);
    }
  }

  // ---------------------------------------------------------------------------
  // Invalid-region remap

  lemma {:induction false} ShardOf(cap: nat, nb: nat, data: int)
    requires cap > 0 && 0 <= data < cap * nb
    ensures 0 <= data / cap < nb
    ensures data == GlobalSlot(cap, data / cap, data % cap)
  {
    if data < cap * (nb - 1) {
      ShardOf(cap, nb - 1, data);
    } else {
      DivMod(nb - 1, data - cap * (nb - 1), cap);
    }
  }

  /** `transform_to_valid_tree_indexes` on one data index: an index at most
      `h` slots ahead of its actor's write cursor is pushed past the history
      window, one at most `n` slots behind it is pushed back past the n-step
      window, in both cases modulo the actor's capacity. */
  function RemapDataIndex(cap: nat, cursors: seq<int>, h: int, n: int, data: int): (r: int)
    requires cap > 0 && 0 <= data < cap * |cursors|
    ensures 0 <= data / cap < |cursors| && InShard(cap, data / cap, r) && 0 <= r < cap * |cursors|
  {
    ShardOf(cap, |cursors|, data);
    var id := data / cap;
    var d := data % cap - cursors[id];
    var r := if 0 <= d <= h then (data + h - d + 1) % cap + id * cap
             else if -n <= d < 0 then (data - n - d - 1) % cap + id * cap
             else data;
    ShardBelowEnd(cap, |cursors|, id, r - id * cap);
    r
  }

  /** The remap on the local index `lo` of a data index whose actor's cursor
      is `cursor`: the new local index is `(cursor + h + 1) % cap` or
      `(cursor - n - 1) % cap`, or `lo` when it is outside both windows. */
  function RemapLocal(cap: nat, cursor: int, h: int, n: int, lo: int): (r: int)
    requires cap > 0 && 0 <= lo < cap
    ensures 0 <= r < cap
  {
    var d := lo - cursor;
    if 0 <= d <= h then (cursor + h + 1) % cap
    else if -n <= d < 0 then (cursor - n - 1) % cap
    else lo
  }

  /** The source's expressions agree with the cursor-relative form. */
  lemma RemapForm(cap: nat, cursors: seq<int>, h: int, n: int, data: int)
    requires cap > 0 && 0 <= data < cap * |cursors|
    ensures 0 <= data / cap < |cursors|
    ensures RemapDataIndex(cap, cursors, h, n, data) ==
            GlobalSlot(cap, data / cap, RemapLocal(cap, cursors[data / cap], h, n, data % cap))
  {
    ShardOf(cap, |cursors|, data);
    var id := data / cap;
    var lo := data % cap;
    var d := lo - cursors[id];
    assert data == cap * id + lo;
    if 0 <= d <= h {
      ModAddMultiple(cursors[id] + h + 1, id, cap);
      assert data + h - d + 1 == cursors[id] + h + 1 + cap * id;
    } else if -n <= d < 0 {
      ModAddMultiple(cursors[id] - n - 1, id, cap);
      assert data - n - d - 1 == cursors[id] - n - 1 + cap * id;
    }
  }

  /** A remapped index stays in its actor's shard, and in the slot space. */
  lemma RemapStaysInShard(cap: nat, cursors: seq<int>, h: int, n: int, data: int)
    requires cap > 0 && 0 <= data < cap * |cursors|
    ensures 0 <= data / cap < |cursors|
    ensures var r := RemapDataIndex(cap, cursors, h, n, data);
            && r / cap == data / cap
            && r % cap == RemapLocal(cap, cursors[data / cap], h, n, data % cap)
            && InShard(cap, data / cap, r)
            && 0 <= r < cap * |cursors|
  {
    RemapForm(cap, cursors, h, n, data);
    var id := data / cap;
    var lo := RemapLocal(cap, cursors[id], h, n, data % cap);
    SlotInShard(cap, |cursors|, id, lo);
  }

  /** Local index `lo` of shard `id` is a slot of that shard and of the memory,
      and splits back into `id` and `lo`. */
  lemma SlotInShard(cap: nat, nb: nat, id: int, lo: int)
    requires cap > 0 && 0 <= id < nb && 0 <= lo < cap
    ensures var r := GlobalSlot(cap, id, lo);
            r / cap == id && r % cap == lo && InShard(cap, id, r) && 0 <= r < cap * nb
  {
    assert GlobalSlot(cap, id, lo) == cap * id + lo;
    DivMod(id, lo, cap);
    ShardBelowEnd(cap, nb, id, lo);
  }

  lemma ShardBelowEnd(cap: nat, nb: nat, id: nat, lo: int)
    requires cap > 0 && id < nb && 0 <= lo < cap
    ensures cap * id + lo < cap * nb
  {
    MulAtLeast(cap, nb - id);
    assert cap * nb - cap * id == cap * (nb - id);
  }

  /** Away from the ends of the shard the remap does what it is for: the new
      index is neither within `h` ahead of the cursor nor within `n` behind it. */
  lemma RemapLeavesInvalidRegion(cap: nat, cursor: int, h: nat, n: nat, lo: int)
    requires cap > 0 && 0 <= lo < cap
    requires 0 <= cursor - n - 1 && cursor + h + 1 < cap
    ensures var d' := RemapLocal(cap, cursor, h, n, lo) - cursor;
            d' + n < 0 || h < d'
  {
    DivMod(0, cursor + h + 1, cap);
    DivMod(0, cursor - n - 1, cap);
  }

  /** At the end of a shard the remap is only an approximation: with 4 slots,
      the cursor at 3, a history of 1 and 3-step returns, the index right at
      the cursor moves to local index 1, which is still within 3 slots behind
      the cursor. */
  lemma RemapIsApproximate()
    ensures RemapLocal(4, 3, 1, 3, 3) == 1 && -3 <= 1 - 3 < 0
  {
    DivMod(1, 1, 4);
  }

  // ---------------------------------------------------------------------------
  // Windows

  /** Slot of frame `k` of the window read for data index `index`:
      `(k + index - h + 1) % cap + (index // cap) * cap`. */
  function WindowSlot(cap: nat, h: nat, index: int, k: int): (slot: int)
    requires cap > 0
    ensures InShard(cap, index / cap, slot)
  {
    (k + index - h + 1) % cap + (index / cap) * cap
  }

  /** Frame `k` of a window sits at local index `(index % cap - h + 1 + k) % cap`
      of its data index's shard, and frame `h - 1` is the data index itself. */
  lemma WindowInShard(cap: nat, h: nat, index: int, k: int)
    requires cap > 0 && index >= 0
    ensures WindowSlot(cap, h, index, k) == GlobalSlot(cap, index / cap, (index % cap - h + 1 + k) % cap)
    ensures h >= 1 && k == h - 1 ==> WindowSlot(cap, h, index, k) == index
  {
    ModAddMultiple(index % cap - h + 1 + k, index / cap, cap);
    assert index % cap - h + 1 + k + cap * (index / cap) == k + index - h + 1;
    if h >= 1 && k == h - 1 {
      DivMod(index / cap, index % cap, cap);
      assert (index % cap - h + 1 + k) == index % cap;
    }
  }

  /** Reading back what one append wrote: the window of `len` frames ending at
      the last written slot finds the appended steps, in order. */
  lemma AppendThenReadWindow(m: map<int, Record>, cap: nat, id: nat, start: int, buf: seq<ActorStep>, k: int)
    requires cap > 0 && 0 <= start < cap && 1 <= |buf| <= cap && 0 <= k < |buf|
    ensures var last := GlobalSlot(cap, id, (start + |buf| - 1) % cap);
            var slot := WindowSlot(cap, |buf|, last, k);
            && slot in WriteRecords(m, cap, id * cap, start, buf)
            && Decode(Some(WriteRecords(m, cap, id * cap, start, buf)[slot])) ==
               Some(Transition(buf[k].timestep, buf[k].state, Some(buf[k].action), buf[k].reward, !buf[k].done))
  {
    var L := |buf|;
    var last := GlobalSlot(cap, id, (start + L - 1) % cap);
    WindowOfLastWrite(cap, id, start, L, k);
    WriteRecordsAt(m, cap, id * cap, start, buf, k);
  }

  lemma WindowOfLastWrite(cap: nat, id: nat, start: int, L: nat, k: int)
    requires cap > 0 && 0 <= start < cap && 1 <= L && 0 <= k < L
    ensures WindowSlot(cap, L, GlobalSlot(cap, id, (start + L - 1) % cap), k) == AppendKey(cap, id * cap, start, k)
  {
    var local := (start + L - 1) % cap;
    var last := GlobalSlot(cap, id, local);
    DivMod(id, local, cap);
    assert last / cap == id && last % cap == local;
    WindowInShard(cap, L, last, k);
    ModOfModSum(start + L - 1, k + 1 - L, cap);
    assert local - L + 1 + k == (start + L - 1) % cap + (k + 1 - L);
  }

  // ---------------------------------------------------------------------------
  // Capacity

  /** Sum over actors of `cap` for a full shard and of its write cursor otherwise. */
  function Capacity(cap: nat, full: seq<bool>, cursors: seq<int>): (r: int)
    requires |full| == |cursors|
    ensures (forall a :: 0 <= a < |full| ==> full[a]) ==> r == cap * |full|
  {
    if |full| == 0 then 0
    else
      var n := |full| - 1;
      assert cap * |full| == cap * n + cap;
      assert (forall a :: 0 <= a < |full| ==> full[a]) ==> forall a :: 0 <= a < n ==> full[..n][a];
      Capacity(cap, full[..n], cursors[..n]) + (if full[n] then cap else cursors[n])
  }

  /** With every cursor inside its shard, the capacity is between 0 and the
      full capacity, and it is the full capacity exactly when every shard has
      wrapped at least once. */
  lemma {:induction false} CapacityBounds(cap: nat, full: seq<bool>, cursors: seq<int>)
    requires |full| == |cursors|
    requires forall a :: 0 <= a < |cursors| ==> 0 <= cursors[a] < cap
    ensures 0 <= Capacity(cap, full, cursors) <= cap * |full|
    ensures Capacity(cap, full, cursors) == cap * |full| <==> forall a :: 0 <= a < |full| ==> full[a]
  {
    if |full| > 0 {
      var n := |full| - 1;
      CapacityBounds(cap, full[..n], cursors[..n]);
      assert cap * |full| == cap * n + cap;
      if !full[n] {
        assert !(forall a :: 0 <= a < |full| ==> full[a]);
      } else if exists a :: 0 <= a < |full| && !full[a] {
        var a :| 0 <= a < |full| && !full[a];
        assert !full[..n][a];
      }
    }
  }
}
