# Distributed prioritized replay memory, modelled in Dafny

The replay memory of the Rainbow-IQN car trainer lives in a Redis server. It is shared
by several actors, which write experience, and one learner, which samples from it.
The memory holds `C = nb_actor * actor_capacity` transitions:

- **Shards.** Actor `id` owns the data slots `id * actor_capacity .. (id + 1) * actor_capacity - 1`.
  It writes them as a ring buffer, from its cursor `index_actor<id>`.
- **Sum tree.** The priorities form an array-backed sum tree of `2C - 1` nodes.
  The children of node `i` are `2i + 1` and `2i + 2`. The leaf of data slot `x` is `x + C - 1`.
- **Batched updates.** A batch of new priorities is pushed up the tree level by level.
  Every old leaf value is read before any node is written.
- **Sampling.** The learner splits the total mass into one stratum per sample and draws
  one target in each. It shuffles the targets and descends the tree for all of them at once.
  It then pushes every data slot that lies too close to its actor's cursor out of that region.
  Finally it reads `history + n` consecutive records around each sampled slot.
- **Assembly.** The learner decodes the records and blanks the frames that lie across an
  episode boundary. It then assembles a state, an action, an n-step return, a next state
  and a nonterminal flag.

The model keeps the Redis keyspace as the state of one object, `RedisMemory.RedisSegmentTree`:

- the arrays `priorities`, `cursor`, `step` and `isFull`;
- the maximum priority and the learner's step;
- a map of transition records;
- the stray cell `priorities-1` as the field `sink`;
- the learner's `memoryFull` latch.

Every pipelined `get`, `set`, `incrbyfloat` and `hmset` is a direct read or write of
that state. The learner's side is `RedisMemory.ReplayRedisMemory`.

Priorities and rewards are `real`, so the sum invariant is exact.
Every integer division and remainder of the core has a positive divisor: `actor_capacity` or 2.
Some dividends are negative: `index - history + 1 + k` in a window's slot (line 357),
`data_index - n - dist - 1` in the remap (line 260), and `0 - 1` for the root's parent.
For a positive divisor, Dafny's `/` and `%` agree with Python's `//` and `%` whatever the sign of the dividend.

The modules:

| module | file | contents |
|---|---|---|
| `Records` | records.dfy | the actor step, the stored record and the decoded transition; encode and decode |
| `Reductions` | reductions.dfy | `np.min` / `np.max` over priorities and indexes |
| `Sampling` | sampling.dfy | stratified draws, the shuffle, the positivity fix-up |
| `Assembly` | assembly.dfy | episode-boundary masking and the n-step sample |
| `Shards` | shards.dfy | slot arithmetic, append keys, the invalid-region remap, windows, capacity |
| `SumTree` | sum_tree.dfy | consistency, batched updates as a function, levels, descent |
| `RedisMemory` | redis_memory.dfy | the two classes, and the lemmas that tie their loops to the functions above |

## Model

| member | source | states |
|---|---|---|
| Records.Decode | python/rainbowiqn_godot_car/rainbowiqn_godot_car/redis_memory.py:337-345 | a key that was never written decodes to nothing; a written one decodes to a transition that has an action |
| Records.Encode | python/rainbowiqn_godot_car/rainbowiqn_godot_car/redis_memory.py:184-193 | the hash holds the step's timestep, frame, action and reward, and `nonterminal` is 1 when the step is not done and 0 when it is |
| Records.Blank | python/rainbowiqn_godot_car/rainbowiqn_godot_car/redis_memory.py:12 | the blank transition has timestep 0, is terminal, has reward 0 and no action, and its frame is 84 x 84 zeros |
| Records.DecodeEncode | python/rainbowiqn_godot_car/rainbowiqn_godot_car/redis_memory.py:184-193 | decoding the hash written for an actor step gives back its timestep, frame, action and reward, and `nonterminal == not done` |
| Records.DecodeAll | python/rainbowiqn_godot_car/rainbowiqn_godot_car/redis_memory.py:485-490 | decoding a window record by record yields a transition exactly where the record was written |
| Reductions.MinOf | python/rainbowiqn_godot_car/rainbowiqn_godot_car/redis_memory.py:432 | `np.min` is a lower bound of the batch and is one of its elements |
| Reductions.MaxOf | python/rainbowiqn_godot_car/rainbowiqn_godot_car/redis_memory.py:150 | `max(priorities)` is an upper bound of the batch and is one of its elements |
| Reductions.MaxIndex | python/rainbowiqn_godot_car/rainbowiqn_godot_car/redis_memory.py:96 | `np.max(indexes)` is an upper bound of the indexes and is one of them |
| Reductions.MinIndex | python/rainbowiqn_godot_car/rainbowiqn_godot_car/redis_memory.py:208 | `np.min(lefts)` is a lower bound of the indexes and is one of them |
| Sampling.DrawsInStrata | python/rainbowiqn_godot_car/rainbowiqn_godot_car/redis_memory.py:278-283 | draw `i` lies in stratum `[i * segment, (i + 1) * segment]` and in `[0, total]`; it is positive when the total is positive and the draw is not the very left end of stratum 0 |
| Sampling.StratumBounds | python/rainbowiqn_godot_car/rainbowiqn_godot_car/redis_memory.py:278-283 | `uniform(i * segment, (i + 1) * segment)` with a fraction in `[0, 1)` lies in that stratum and in `[0, total]`, and is positive unless it is the left end of stratum 0 |
| Sampling.Shuffle | python/rainbowiqn_godot_car/rainbowiqn_godot_car/redis_memory.py:287 | the shuffled targets have as many entries as the draws and hold the same values with the same multiplicities |
| Sampling.PermutedMultiset | python/rainbowiqn_godot_car/rainbowiqn_godot_car/redis_memory.py:287 | reading a sequence through a permutation of its indexes keeps its multiset of values |
| Sampling.Onto | python/rainbowiqn_godot_car/rainbowiqn_godot_car/redis_memory.py:287 | every index below `n` is hit by a permutation of `0 .. n - 1` |
| Sampling.FixProbabilities | python/rainbowiqn_godot_car/rainbowiqn_godot_car/redis_memory.py:443-456 | positive probabilities are kept; with a positive capacity every probability is positive afterwards |
| Assembly.StartsLaterStep | python/rainbowiqn_godot_car/rainbowiqn_godot_car/redis_memory.py:494-496 | the backward pass blanks frame `t < history - 1` exactly when frame `t + 1` has timestep 0 or is blanked itself |
| Assembly.EndsEarlierStep | python/rainbowiqn_godot_car/rainbowiqn_godot_car/redis_memory.py:497-499 | the forward pass blanks frame `t >= history` exactly when frame `t - 1` is terminal or is blanked itself |
| Assembly.EndsEarlierFromHistory | python/rainbowiqn_godot_car/rainbowiqn_godot_car/redis_memory.py:493-499 | the forward pass reads only frames from `history - 1` on, which the backward pass never changes |
| Assembly.MaskWindow | python/rainbowiqn_godot_car/rainbowiqn_godot_car/redis_memory.py:493-499 | the masked window has the same length; each frame is kept or blanked, and the sampled frame `history - 1` is kept |
| Assembly.Fill | python/rainbowiqn_godot_car/rainbowiqn_godot_car/redis_memory.py:486-499 | a hole of a decoded window is the only thing the fill replaces |
| Assembly.WrittenWindow | python/rainbowiqn_godot_car/rainbowiqn_godot_car/redis_memory.py:493-525 | a window whose frames were all written can be read, and its fill is the window itself |
| Assembly.UnwrittenBeforeEpisodeStart | python/rainbowiqn_godot_car/rainbowiqn_godot_car/redis_memory.py:493-496 | history frames before an episode start may be unwritten: the window is still readable, and they end blank |
| Assembly.UnwrittenAfterTerminal | python/rainbowiqn_godot_car/rainbowiqn_godot_car/redis_memory.py:493-499 | frames after a terminal frame may be unwritten: the window is still readable, and they end blank |
| Assembly.UnwrittenSampledFrame | python/rainbowiqn_godot_car/rainbowiqn_godot_car/redis_memory.py:493-525 | an unwritten sampled frame is never blanked, so the window cannot be read |
| Assembly.Return | python/rainbowiqn_godot_car/rainbowiqn_godot_car/redis_memory.py:514-518 | a window whose rewards from frame `history - 1` on are all zero has return 0 |
| Assembly.Assemble | python/rainbowiqn_godot_car/rainbowiqn_godot_car/redis_memory.py:508-525 | the state and next state have `history` frames each and end with frames `history - 1` and `history + n - 1`; the action is that of frame `history - 1` and the flag is frame `history + n - 1`'s |
| Assembly.SampleOf | python/rainbowiqn_godot_car/rainbowiqn_godot_car/redis_memory.py:493-525 | the sample's action and last state frame are the unmasked sampled frame's |
| Assembly.EpisodeStartBlanksEarlierFrames | python/rainbowiqn_godot_car/rainbowiqn_godot_car/redis_memory.py:494-496 | if frame `j` in `1 .. history - 1` has timestep 0, every frame before `j` ends blank |
| Assembly.TerminalBlanksLaterFrames | python/rainbowiqn_godot_car/rainbowiqn_godot_car/redis_memory.py:497-525 | if frame `j` in `history - 1 .. history + n - 2` is terminal, every later frame ends blank and the sample's nonterminal flag is false |
| Assembly.ActionOfSampledFrame | python/rainbowiqn_godot_car/rainbowiqn_godot_car/redis_memory.py:522 | frame `history - 1` is never masked, and the sample's action is its action |
| Assembly.StateFrames | python/rainbowiqn_godot_car/rainbowiqn_godot_car/redis_memory.py:509-512 | the state is the masked frames `0 .. history - 1`, ending with the sampled frame unmasked, and the next state is the masked frames `n .. n + history - 1` |
| Assembly.NonterminalIff | python/rainbowiqn_godot_car/rainbowiqn_godot_car/redis_memory.py:525 | the sample is nonterminal exactly when every frame from `history - 1` to the end is nonterminal |
| Assembly.NoBoundaryNoMask | python/rainbowiqn_godot_car/rainbowiqn_godot_car/redis_memory.py:493-499 | when there is no episode start inside the history and no terminal frame before the end, masking changes nothing |
| Assembly.ReturnOfUnmasked | python/rainbowiqn_godot_car/rainbowiqn_godot_car/redis_memory.py:514-518 | masking leaves the first `m` reward terms unchanged while no frame before them is terminal |
| Assembly.ReturnAfterTerminal | python/rainbowiqn_godot_car/rainbowiqn_godot_car/redis_memory.py:514-518 | after the first terminal frame, every later reward term is 0 |
| Assembly.TruncatedReturn | python/rainbowiqn_godot_car/rainbowiqn_godot_car/redis_memory.py:514-518 | if frame `history - 1 + k0` is the first terminal frame, the n-step return is the discounted sum of the first `k0 + 1` rewards |
| Shards.AppendKeyNext | python/rainbowiqn_godot_car/rainbowiqn_godot_car/redis_memory.py:176-195 | advancing the cursor by one and then writing record `k` uses the key of record `k + 1` |
| Shards.AppendKey | python/rainbowiqn_godot_car/rainbowiqn_godot_car/redis_memory.py:160-165 | the slot of every step of an append lies in the appending actor's shard |
| Shards.WriteRecords | python/rainbowiqn_godot_car/rainbowiqn_godot_car/redis_memory.py:176-195 | an append keeps every key already present and adds the key of its first record |
| Shards.AdvanceIndex | python/rainbowiqn_godot_car/rainbowiqn_godot_car/redis_memory.py:195 | after at least one step the write index lies in `[0, actor_capacity)` |
| Shards.DistinctLocalSlots | python/rainbowiqn_godot_car/rainbowiqn_godot_car/redis_memory.py:160-165 | at most `actor_capacity` consecutive writes land on pairwise distinct local slots |
| Shards.WriteRecordsAt | python/rainbowiqn_godot_car/rainbowiqn_godot_car/redis_memory.py:176-195 | after an append of at most `actor_capacity` records, the k-th key holds the encoding of the k-th step |
| Shards.WriteRecordsElsewhere | python/rainbowiqn_godot_car/rainbowiqn_godot_car/redis_memory.py:176-195 | an append leaves every key it does not address as it was |
| Shards.WriteRecordsConfined | python/rainbowiqn_godot_car/rainbowiqn_godot_car/redis_memory.py:176-195 | an append leaves every key outside the actor's shard as it was |
| Shards.WriteIndexAfter | python/rainbowiqn_godot_car/rainbowiqn_godot_car/redis_memory.py:195-197 | after `L >= 1` records the stored cursor is `(cursor + L) % actor_capacity` |
| Shards.ShardOf | python/rainbowiqn_godot_car/rainbowiqn_godot_car/redis_memory.py:249 | a data slot is `id * actor_capacity + local`, where `id = slot // actor_capacity` is a valid actor and `local = slot % actor_capacity` |
| Shards.RemapDataIndex | python/rainbowiqn_godot_car/rainbowiqn_godot_car/redis_memory.py:245-262 | a remapped data index stays in its actor's shard and is a valid slot of the memory |
| Shards.RemapLocal | python/rainbowiqn_godot_car/rainbowiqn_godot_car/redis_memory.py:254-262 | the remapped local index lies in `[0, actor_capacity)` |
| Shards.RemapForm | python/rainbowiqn_godot_car/rainbowiqn_godot_car/redis_memory.py:245-264 | the remap keeps the actor and changes only the local index, as `RemapLocal` computes it |
| Shards.RemapStaysInShard | python/rainbowiqn_godot_car/rainbowiqn_godot_car/redis_memory.py:245-264 | a remapped slot stays in the same actor's shard, with the local index `RemapLocal` gives |
| Shards.SlotInShard | python/rainbowiqn_godot_car/rainbowiqn_godot_car/redis_memory.py:255-262 | `local + id * actor_capacity` has actor `id` and local index `local`, and lies below `C` |
| Shards.RemapLeavesInvalidRegion | python/rainbowiqn_godot_car/rainbowiqn_godot_car/redis_memory.py:254-262 | when the cursor region does not wrap, the remap moves a slot outside `[cursor - n, cursor + history]` |
| Shards.RemapIsApproximate | python/rainbowiqn_godot_car/rainbowiqn_godot_car/redis_memory.py:254-262 | when the region wraps, a remapped slot can stay inside it, e.g. capacity 4, cursor 3, history 1, n 3 |
| Shards.WindowSlot | python/rainbowiqn_godot_car/rainbowiqn_godot_car/redis_memory.py:351-361 | every slot of a window lies in the shard of its data index |
| Shards.WindowInShard | python/rainbowiqn_godot_car/rainbowiqn_godot_car/redis_memory.py:350-361 | frame `k` of a window sits at local index `(index % cap - history + 1 + k) % cap` of the sampled slot's shard, and frame `history - 1` is the sampled slot itself |
| Shards.WindowOfLastWrite | python/rainbowiqn_godot_car/rainbowiqn_godot_car/redis_memory.py:355-361 | the window of length `L` ending at an append's last record reads exactly the `L` keys that append wrote |
| Shards.AppendThenReadWindow | python/rainbowiqn_godot_car/rainbowiqn_godot_car/redis_memory.py:347-369 | reading that window back and decoding it gives the appended steps in order |
| Shards.CapacityBounds | python/rainbowiqn_godot_car/rainbowiqn_godot_car/redis_memory.py:382-390 | with cursors in range, the capacity lies in `[0, C]`, and it equals `C` exactly when every actor is full |
| Shards.Capacity | python/rainbowiqn_godot_car/rainbowiqn_godot_car/redis_memory.py:382-388 | when every full flag is set, the capacity is `C` |
| SumTree.Parent | python/rainbowiqn_godot_car/rainbowiqn_godot_car/redis_memory.py:102 | `(i - 1) // 2` is a child's parent, is smaller than its child, and sends 0 and -1 to -1 |
| SumTree.Parents | python/rainbowiqn_godot_car/rainbowiqn_godot_car/redis_memory.py:102 | each entry moves to its parent, which is closer to the root |
| SumTree.RootIsLeafSum | python/rainbowiqn_godot_car/rainbowiqn_godot_car/redis_memory.py:124-132 | on a consistent tree the root holds the sum of the leaves |
| SumTree.UpdatePreservesConsistency | python/rainbowiqn_godot_car/rainbowiqn_godot_car/redis_memory.py:94-105 | adding a batch of leaf deltas along the leaf-to-root paths keeps every internal node equal to the sum of its children |
| SumTree.Updated | python/rainbowiqn_godot_car/rainbowiqn_godot_car/redis_memory.py:94-105 | when every index is a tree node, the root moves by the sum of all deltas |
| SumTree.Diffs | python/rainbowiqn_godot_car/rainbowiqn_godot_car/redis_memory.py:143-148 | each delta added to the old leaf value gives the new priority |
| SumTree.UpdateSetsLeaves | python/rainbowiqn_godot_car/rainbowiqn_godot_car/redis_memory.py:139-148 | with distinct leaves, each updated leaf ends at its new priority |
| SumTree.DuplicateLeafInBatch | python/rainbowiqn_godot_car/rainbowiqn_godot_car/redis_memory.py:143-148 | a leaf listed twice ends at `p1 + p2 - old`, and the tree stays consistent |
| SumTree.UpdateLeavesOtherNodes | python/rainbowiqn_godot_car/rainbowiqn_godot_car/redis_memory.py:96-102 | nodes off every updated leaf's path to the root are unchanged |
| SumTree.DeltaAtRoot | python/rainbowiqn_godot_car/rainbowiqn_godot_car/redis_memory.py:103-105 | the root receives the sum of all the deltas |
| SumTree.LeafDepths | python/rainbowiqn_godot_car/rainbowiqn_godot_car/redis_memory.py:96-102 | any two leaves' depths differ by at most one |
| SumTree.RoundDelivers | python/rainbowiqn_godot_car/rainbowiqn_godot_car/redis_memory.py:96-102 | one round delivers to node `j` the deltas of the indexes currently at `j`, and their parents carry the rest |
| SumTree.PathsDone | python/rainbowiqn_godot_car/rainbowiqn_godot_car/redis_memory.py:96 | once every index is at most 0, no node except the root has anything left to receive |
| SumTree.LevelRound | python/rainbowiqn_godot_car/rainbowiqn_godot_car/redis_memory.py:96-102 | while the loop runs on a level batch, nothing is added to `priorities-1`, and the next batch is level again |
| SumTree.Descend | python/rainbowiqn_godot_car/rainbowiqn_godot_car/redis_memory.py:205-229 | the descent ends at a leaf |
| SumTree.DescendStep | python/rainbowiqn_godot_car/rainbowiqn_godot_car/redis_memory.py:207-227 | one step moves an internal node to a child, and leaves a leaf where it is |
| SumTree.StepThenDescend | python/rainbowiqn_godot_car/rainbowiqn_godot_car/redis_memory.py:229 | one step followed by a descent is the descent |
| SumTree.DescendKeepsTarget | python/rainbowiqn_godot_car/rainbowiqn_godot_car/redis_memory.py:220-227 | the mass before the current node plus the remaining target is invariant, and the remaining target stays within `(0, node]` |
| SumTree.DescentFromRoot | python/rainbowiqn_godot_car/rainbowiqn_godot_car/redis_memory.py:205-229 | on a consistent tree with `0 < v <= total`, the reached leaf has positive priority, and the mass before it is `< v <=` the mass through it |
| RedisMemory.SampledLeaves | python/rainbowiqn_godot_car/rainbowiqn_godot_car/redis_memory.py:294-309 | the sampled leaves, descended and remapped, are all leaves of the tree |
| RedisMemory.LeafOfSlot | python/rainbowiqn_godot_car/rainbowiqn_godot_car/redis_memory.py:174 | the leaf `local + id * actor_capacity + C - 1` of an actor's slot is a leaf |
| RedisMemory.AppendLeaves | python/rainbowiqn_godot_car/rainbowiqn_godot_car/redis_memory.py:160-174 | the leaves an append updates are leaves, and leaf `k` belongs to slot `id * cap + (cursor + k) % cap` |
| RedisMemory.RecordKeysMatchPrioritySlots | python/rainbowiqn_godot_car/rainbowiqn_godot_car/redis_memory.py:160-195 | after an append of at most `actor_capacity` steps, the record under the data slot of the leaf that receives priority `k` is the encoding of step `k` |
| RedisMemory.RaisedMax | python/rainbowiqn_godot_car/rainbowiqn_godot_car/redis_memory.py:150-151 | the new maximum bounds the old one and the batch, and is either the old one or a batch element |
| RedisMemory.DrawReachesPositiveLeaf | python/rainbowiqn_godot_car/rainbowiqn_godot_car/redis_memory.py:278-296 | on a consistent non-negative tree with positive total, each shuffled stratified target reaches a leaf of positive priority, and the mass before that leaf is `< v <=` the mass through it |
| RedisMemory.Targets | python/rainbowiqn_godot_car/rainbowiqn_godot_car/redis_memory.py:278-287 | the targets are the stratified draws, shuffled: same count and same multiset of values |
| RedisMemory.Window | python/rainbowiqn_godot_car/rainbowiqn_godot_car/redis_memory.py:347-367 | a window has `history + n` entries, and entry `history - 1` is the record of the sampled slot itself |
| RedisMemory.Windows | python/rainbowiqn_godot_car/rainbowiqn_godot_car/redis_memory.py:347-369 | the flat list holds `history + n` entries per data index |
| RedisMemory.WindowsAt | python/rainbowiqn_godot_car/rainbowiqn_godot_car/redis_memory.py:347-369 | entry `k` of window `i` in the flat result is the record under the window's slot `k` |
| RedisMemory.MinPositive | python/rainbowiqn_godot_car/rainbowiqn_godot_car/redis_memory.py:437 | `np.min(probs) > 0` exactly when every probability is positive |
| RedisMemory.MinFailed | python/rainbowiqn_godot_car/rainbowiqn_godot_car/redis_memory.py:432 | `np.min(probs) <= 0` exactly when some sampled leaf holds a non-positive priority |
| RedisMemory.Round | python/rainbowiqn_godot_car/rainbowiqn_godot_car/redis_memory.py:267-309 | one sampling round returns one leaf per draw, and all of them are leaves |
| RedisMemory.HeightDecreases | python/rainbowiqn_godot_car/rainbowiqn_godot_car/redis_memory.py:96-102 | while some index is above the root, the rounds left until every index is at most 0 decrease, so the loop ends |
| RedisMemory.RoundKeeps | python/rainbowiqn_godot_car/rainbowiqn_godot_car/redis_memory.py:96-102 | one round of the loop preserves the invariant that the tree is the old tree plus everything delivered so far |
| RedisMemory.CarriedDone | python/rainbowiqn_godot_car/rainbowiqn_godot_car/redis_memory.py:103-105 | when the loop ends, the root update completes the batched update |
| RedisMemory.RedisSegmentTree.constructor | python/rainbowiqn_godot_car/rainbowiqn_godot_car/redis_memory.py:18-31 | the capacities are stored, the tree has `2C - 1` nodes, and the latch starts unset |
| RedisMemory.RedisSegmentTree.InitializeRedisDatabase | python/rainbowiqn_godot_car/rainbowiqn_godot_car/redis_memory.py:61-92 | every tree node, cursor, step and full flag is 0, the max priority is 1, the learner step is 0, and the tree is consistent |
| RedisMemory.RedisSegmentTree.ClearPriorities | python/rainbowiqn_godot_car/rainbowiqn_godot_car/redis_memory.py:77-78 | all `2C - 1` priorities are 0 |
| RedisMemory.RedisSegmentTree.ResetActors | python/rainbowiqn_godot_car/rainbowiqn_godot_car/redis_memory.py:80-83 | every actor's cursor, step and full flag is 0 |
| RedisMemory.RedisSegmentTree.Propagate | python/rainbowiqn_godot_car/rainbowiqn_godot_car/redis_memory.py:94-105 | the tree becomes `Updated(old, xs, ds)`, and a batch of leaves leaves `priorities-1` unchanged |
| RedisMemory.RedisSegmentTree.PropagateRound | python/rainbowiqn_godot_car/rainbowiqn_godot_car/redis_memory.py:97-101 | each node `j >= 1` and the cell `priorities-1` receive the deltas of the indexes now at them, and the root is untouched |
| RedisMemory.RedisSegmentTree.UpdateMultipleValue | python/rainbowiqn_godot_car/rainbowiqn_godot_car/redis_memory.py:139-151 | the tree is updated by the differences against the old leaf values, all read first, and the max priority is `RaisedMax` |
| RedisMemory.RedisSegmentTree.AppendActorBuffer | python/rainbowiqn_godot_car/rainbowiqn_godot_car/redis_memory.py:153-202 | the leaves of the appended slots are updated, the records are written, the actor's cursor becomes `(index + L) % cap` and its step `T_actor`, and no other actor's cursor or step changes |
| RedisMemory.RedisSegmentTree.WriteBuffer | python/rainbowiqn_godot_car/rainbowiqn_godot_car/redis_memory.py:176-195 | the record loop writes `WriteRecords` and returns the advanced cursor |
| RedisMemory.RedisSegmentTree.RetrieveRound | python/rainbowiqn_godot_car/rainbowiqn_godot_car/redis_memory.py:207-227 | each index and value takes one descent step, and ties go left |
| RedisMemory.RedisSegmentTree.RetrieveMultipleValues | python/rainbowiqn_godot_car/rainbowiqn_godot_car/redis_memory.py:205-229 | each index and value end where the descent from it ends |
| RedisMemory.RedisSegmentTree.TransformToValidTreeIndexes | python/rainbowiqn_godot_car/rainbowiqn_godot_car/redis_memory.py:242-264 | each tree index becomes the leaf of its remapped data slot |
| RedisMemory.RedisSegmentTree.Total | python/rainbowiqn_godot_car/rainbowiqn_godot_car/redis_memory.py:333-335 | on a consistent tree, the total is the sum of the leaves |
| RedisMemory.RedisSegmentTree.FindMultipleValues | python/rainbowiqn_godot_car/rainbowiqn_godot_car/redis_memory.py:267-331 | returns the root total, the leaves of `Round` for the given draws and shuffle, and the data slots and priorities read at them |
| RedisMemory.RedisSegmentTree.RetrieveFromRoot | python/rainbowiqn_godot_car/rainbowiqn_godot_car/redis_memory.py:294-296 | each target reaches the leaf that the descent from the root gives |
| RedisMemory.RedisSegmentTree.GetByteMultipleTransition | python/rainbowiqn_godot_car/rainbowiqn_godot_car/redis_memory.py:347-369 | the records read are the windows `Windows`, each confined to its slot's shard by `Shards.WindowSlot` |
| RedisMemory.RedisSegmentTree.GetCurrentCapacity | python/rainbowiqn_godot_car/rainbowiqn_godot_car/redis_memory.py:371-390 | a set latch returns `C`; otherwise the result is the sum of `actor_capacity` or the cursor over the actors, and the latch is set exactly when every full flag is set |
| RedisMemory.ReplayRedisMemory.constructor | python/rainbowiqn_godot_car/rainbowiqn_godot_car/redis_memory.py:393-412 | the window lengths, the discount and the capacities are stored |
| RedisMemory.ReplayRedisMemory.UpdatePriorities | python/rainbowiqn_godot_car/rainbowiqn_godot_car/redis_memory.py:557-573 | the exponentiated priorities are applied as a batched update |
| RedisMemory.ReplayRedisMemory.SampleWithRetries | python/rainbowiqn_godot_car/rainbowiqn_godot_car/redis_memory.py:426-438 | at most ten retries; each abandoned round had a non-positive probability; a round stopped before the tenth retry has only positive ones |
| RedisMemory.ReplayRedisMemory.GetByteSampleFromAllSegment | python/rainbowiqn_godot_car/rainbowiqn_godot_car/redis_memory.py:424-462 | every round but the last failed and a round before the tenth retry succeeded; the probabilities are those at the last round's leaves, replaced by `1 / capacity` where non-positive exactly when that round failed, with the capacity `C` once latched and the sum over the actors otherwise; the result is `None` exactly when a failed round meets capacity 0; the latch is set afterwards exactly when it was set before or a failed round found every full flag set; the records are that round's windows |
| RedisMemory.ReplayRedisMemory.MaskStarts | python/rainbowiqn_godot_car/rainbowiqn_godot_car/redis_memory.py:494-496 | on a readable window, frames before `history - 1` are blanked exactly when an episode starts later in the history; `false` only when an unwritten frame is read, which makes the window unreadable; later frames are unchanged |
| RedisMemory.ReplayRedisMemory.MaskEnds | python/rainbowiqn_godot_car/rainbowiqn_godot_car/redis_memory.py:497-499 | on a readable window, frames from `history` on are blanked exactly when an earlier frame is terminal; `false` only when an unwritten frame is read, which makes the window unreadable; earlier frames are unchanged |
| RedisMemory.ReplayRedisMemory.MaskInPlace | python/rainbowiqn_godot_car/rainbowiqn_godot_car/redis_memory.py:493-499 | `false` only for an unreadable window; otherwise each frame becomes blank where `Assembly.Masked` holds for the filled old window and stays as it was elsewhere |
| RedisMemory.ReplayRedisMemory.ReadFrames | python/rainbowiqn_godot_car/rainbowiqn_godot_car/redis_memory.py:508-525 | the assembly's reads succeed exactly when every frame is present, and yield the frames in order |
| RedisMemory.ReplayRedisMemory.DecodeMaskAssemble | python/rainbowiqn_godot_car/rainbowiqn_godot_car/redis_memory.py:485-525 | one sample is the decoded, masked and assembled window `i` when that window is readable, and `None` (the source's `AttributeError`) when it is not |
| RedisMemory.ReplayRedisMemory.GetTorchTensorFromByteTransition | python/rainbowiqn_godot_car/rainbowiqn_godot_car/redis_memory.py:479-525 | a batch of samples exactly when every window is readable, one per batch entry, each the assembly of its masked window |

## Left out

- Redlock acquire and release are left out (lines 40-59, 171-172, 201-202, 271-272, 323-324, 566-573). They are distributed locking with blocking retries, and each method runs here as one uninterrupted step.
- Redis pipelines, `flushdb`, round trips, the `time` calls and all `print`s are left out. Each pipelined command is a direct read or write of the state.
- `random.uniform` and `np.random.shuffle` (lines 282 and 287) become inputs: the uniform fractions `u` in `[0, 1)` and a permutation `order`. `random.uniform` may also return the upper end of the range, and the model does not cover that.
- Priorities, rewards and the discount are `real`, not float32 or float64. So the float-precision failures that the retry loop works around (lines 430-443) are not modelled; the model only states what the loop does when they happen.
- `sample_byte` (lines 465-475) is left out. Its importance-sampling weights are floating-point powers and normalisation.
- The `np.power` by the priority exponent in `update_priorities` (line 560) is left out. `RedisMemory.ReplayRedisMemory.UpdatePriorities` takes the exponentiated priorities as given.
- The torch conversion and `/255` scaling (lines 527-539) are left out. A sample keeps the byte frames.
- `get_sample_from_mp_queue` (lines 545-554) is left out. It reads a multiprocessing queue.
- `check_sumtree_correct` and `_check_equality_transitions` (lines 107-136, 416-421) are debug code. Their invariant is `SumTree.Consistent`, which the model proves instead.
- The full flags `is_full_actor<id>` are written by actor code that is not part of this model. The model reads them and only resets them in `InitializeRedisDatabase`.
- Zero actors or a zero actor capacity are excluded by the constructors. The source divides by `actor_capacity`, and an empty tree has no root.
- `RedisMemory.ReplayRedisMemory.GetTorchTensorFromByteTransition` returns `None` where the source raises `AttributeError` on an unwritten frame (lines 495, 498 and 509-525). It decodes, masks and assembles window by window, where the source decodes all windows before masking any; both fail exactly when some window is unreadable.
- `Records.Frame` has no length constraint. The source's `reshape(84, 84)` (line 341) raises on a frame of any other length, and the model does not cover that failure.
- `history >= 1` is required by the constructor. With `history == 0` the source's `transition[self.history - 1]` (line 522) reads the last frame of the window, which the model does not cover.
- `RedisMemory.ReplayRedisMemory.GetTorchTensorFromByteTransition` returns `Sample` values instead of stacked tensors. The state and next state are the frame lists of window positions `[0, history)` and `[n, n + history)`.
- `RedisMemory.ReplayRedisMemory.GetByteSampleFromAllSegment` does not model the condition at line 445, which only decides whether to print. It returns `None` where line 456 would divide by a zero capacity.
- `RedisMemory.ReplayRedisMemory.GetByteSampleFromAllSegment` and `RedisMemory.ReplayRedisMemory.SampleWithRetries` take all eleven rounds of draws up front, one initial round and ten retries, and use only as many as the loop needs.
- `RedisMemory.RedisSegmentTree.Propagate` states that `priorities-1` is unchanged only when every index is a leaf. For any other batch, `RedisMemory.RedisSegmentTree.PropagateRound` gives the per-round amount added to it.
- `RedisMemory.RedisSegmentTree.Propagate` and its callers require a non-empty batch, because `np.max` and `max` of an empty array raise.
- `RedisMemory.RedisSegmentTree.RetrieveMultipleValues` requires its index and value arrays to be distinct from the store's arrays. In the source they are fresh numpy arrays.
- `RedisMemory.RedisSegmentTree.AppendActorBuffer` covers the whole key layout only when the incoming cursor is in `[0, actor_capacity)`, as a stored cursor is. The first record's key uses the caller's index without reduction (line 180), and `Shards.WriteRecords` models that as written.
- The other files of the repository are not part of this model: the launchers, the learner, the environments and clients, NEAT training and packaging.
