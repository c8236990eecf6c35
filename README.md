# Lookaside cache eviction policies and workload generator, in Dafny

This project models four sequential, in-memory components of a RocksDB fork with a
lookaside cache, and proves properties of each:

- **The constant-time LFU eviction policy** (`db/cache/policies/lfu_policy.cc`).
  - It keeps a list of frequency buckets in ascending frequency order. Each bucket holds its key nodes, newest first.
  - Reclaimed key nodes go on a free list.
  - The class `LfuPolicies.LfuPolicy` keeps the bucket list as a sequence of `FrequencyNode` values (module `LfuBuckets`). Every method is proved against a function on that sequence: `InsertNode`, `Promote`, `EvictAt`.
  - The lemmas about those functions prove four things: each operation keeps the list well formed (strictly ascending, no empty bucket, no node twice); it gives the node the right frequency; it leaves every other node's frequency alone; the node set changes only by the one node.
  - A sequence keeps every bucket's `prev` right by construction, so the class models the code with two corrections (see Findings). The first correction: when `MarkAccess` links a new bucket after bucket f, the old successor's `prev` is also set to the new bucket. The second: `EvictKeyNode` moves the bucket's head only for the head node.
  - Module `LfuLinks` models the bucket links at the pointer level, as written and corrected. It proves that as written the successor's `prev` stays on bucket f. It then follows three runs of public calls: two lose a key from the list `Evict()` walks, and one writes through a freed bucket. Corrected, each run ends with the list the sequence model computes.
- **The LRU eviction policy** (`db/cache/policies/lru_policy.cc`).
  - The deque from `keysStart` (most recently used) to `keysEnd` (least recently used) is a sequence of node handles.
  - The end pointers are fields, tied to the ends of the sequence by the invariant.
  - An access moves the node to the front (`Touch`), and an eviction unlinks it (`Seqs.Remove`).
- **The cache front end of `db/cache/cache.cc` and that file's own copy of the LFU policy**, modelled as written.
  - The heap is two tables from addresses to node records. `new` hands out the next address, and `delete` removes an address.
  - A dereference of a null or freed pointer ends the operation with `Fault`. Each method states exactly when that happens.
  - The file's behaviours are kept visible:
    - `MarkInsertion` never assigns `frequencies`, so `Evict` never evicts anything, and the capacity check of `Insert` frees nothing.
    - `Update` writes only when `Lookup` misses, and then reports an access for a key the policy has no node for (a `Fault`).
    - Every key sits alone in a bucket of its own (`CacheLfu.Isolated`). `Lookup`, `Insert` and `Update` are proved to keep this and to move the per-key access counts exactly as the code does.
- **The workload generator** (`tools/generate_workload.py`).
  - Pure parts: `Command.to_str` and its inverse `Parse`; the `key<i>` names and decimal numerals; the kind pool; the uniform and weighted kind draws; the probability list.
  - State machine: `generate_preamble` and `generate_workload` are methods with loops. Their bookkeeping (the key→last-write-position table, `valid_read_keys`, `last_written_key`, the read and command counters, the output lines) is proved to agree at every step with a replay of the emitted commands (`WorkloadGenerator.Synced`).
  - Every emitted command is proved to keep the feasibility rules (`Legal`). The main section is proved to hold exactly `num_ops` commands.
  - Random draws become parameters `u` in [0, 1) or `:|` choices of an index in range.

The generator model follows the script as written, also where its own text promises more:

- The usage text (`tools/generate_workload.py:12`) offers `--percentage-reads` as the share of main workload instructions that are pure reads. The main loop nevertheless draws kinds uniformly: the distribution `{READ: percentage_reads}` built at line 235 is never passed to `generate_command_kind()` (line 244).
- The main loop never emits a READ: a drawn READ keeps no key, so it is always redrawn (see Findings). Every READ of the main section comes from the corrector.
- `generate_command_kind` with a non-empty distribution always raises, because the probability list it draws over is never bound (see Findings).
- A fallback read of the corrector targets `last_written_key` even when that key has since been deleted.
- The probe counter `n_retries` is reset once per main-loop command, not once per injected read. After the fifth failed probe, every later failed probe falls back at once.
- The read ratio is not guaranteed to end at or above the target `p`. The code guarantees only `reads ≥ (N − 1)·p` for `p ≤ 1`, which `GenerateWorkload` proves. For example, with `N = 4` and `p = 0.6` the run WRITE, READ, READ, WRITE is legal and ends at 2/4.

## Model

| member | source | states |
|---|---|---|
| `Seqs.Remove` | db/cache/policies/lru_policy.cc:39-45 | unlinking a node shortens the list by one when it is there and changes nothing when it is not |
| `Seqs.RemoveMultiset` | db/cache/policies/lfu_policy.cc:32-46 | unlinking takes out exactly one occurrence of the node and nothing else |
| `Seqs.RemoveAt` | db/cache/policies/lru_policy.cc:39-45 | unlinking the node at position i joins its predecessor and its successor |
| `Seqs.RemoveDistinct` | db/cache/policies/lru_policy.cc:30-49 | in a list without repeats the unlinked node is gone and the list stays without repeats |
| `LruPolicies.LruPolicy.constructor` | db/cache/policies/lru_policy.cc:9-14 | an empty deque with null ends and an empty free list |
| `LruPolicies.LruPolicy.InsertKeyNode` | db/cache/policies/lru_policy.cc:16-28 | the node becomes `keysStart`; `keysEnd` is set only when the deque was empty; nothing else changes |
| `LruPolicies.LruPolicy.RemoveKeyNode` | db/cache/policies/lru_policy.cc:30-49 | the node leaves the order, all other nodes keep their order, and `keysStart`/`keysEnd` still name the first and last nodes |
| `LruPolicies.LruPolicy.MarkInsertion` | db/cache/policies/lru_policy.cc:51-57 | a freshly allocated node (never one from the free list) with the key goes to the front; the entry records it; the invariant is kept |
| `LruPolicies.LruPolicy.MarkAccess` | db/cache/policies/lru_policy.cc:59-72 | throws runtime_error exactly when the entry's node holds another key; otherwise the node moves to the front and nothing else changes |
| `LruPolicies.LruPolicy.EvictKeyNode` | db/cache/policies/lru_policy.cc:84-91 | the node's key is returned, the node leaves the order for the head of the free list, and the others keep their order |
| `LruPolicies.LruPolicy.Evict` | db/cache/policies/lru_policy.cc:74-77 | the least recently used key is returned and removed; the other keys keep their order |
| `LruPolicies.LruPolicy.EvictEntry` | db/cache/policies/lru_policy.cc:79-82 | exactly the entry's key is evicted; the rest of the order is unchanged |
| `LruPolicies.LruPolicy.ReclaimNode` | db/cache/policies/lru_policy.cc:93-96 | the node is pushed on the front of the free list; nothing else changes |
| `LruPolicies.LruPolicy.NewKeyNode` | db/cache/policies/lru_policy.cc:98-109 | pops the node reclaimed last and rekeys it, allocating only when the free list is empty; the node is in neither list afterwards |
| `LruPolicies.TouchFront` | db/cache/policies/lru_policy.cc:65-68 | accessing the most recently used node leaves the order unchanged |
| `LruPolicies.TouchDistinct` | db/cache/policies/lru_policy.cc:70-71 | moving a node to the front keeps the same nodes (a permutation) without repeats |
| `LruPolicies.TouchKeepsOthers` | db/cache/policies/lru_policy.cc:70-71 | the other nodes keep their relative order |
| `LruPolicies.TouchedNotVictim` | db/cache/policies/lru_policy.cc:70-76 | right after an access, the accessed node is not the eviction victim unless it is alone |
| `LruPolicies.MoveToFree` | db/cache/policies/lru_policy.cc:87-96 | an evicted node leaves the deque for the free list and no node ends up in both |
| `LruPolicies.PopFree` | db/cache/policies/lru_policy.cc:103-104 | the node popped from the free list is in neither list afterwards |
| `LfuBuckets.BucketIndex` | db/cache/policies/lfu_policy.cc:87 | the key node's `frequencyNode` is the bucket that holds it, and its frequency is the node's frequency |
| `LfuBuckets.InsertNodeSpec` | db/cache/policies/lfu_policy.cc:61-81 | insertion keeps the buckets well formed, adds exactly the node, puts it at the head of the first bucket with frequency 1, and leaves other frequencies alone |
| `LfuBuckets.InsertNodeShape` | db/cache/policies/lfu_policy.cc:64-78 | the new or reused frequency-1 bucket is the first one, frequencies still strictly ascend, and no bucket is empty |
| `LfuBuckets.InsertNodeFrequencies` | db/cache/policies/lfu_policy.cc:61-78 | the inserted node gets frequency 1 and every other node keeps its frequency |
| `LfuBuckets.PromoteSpec` | db/cache/policies/lfu_policy.cc:83-105 | (corrected, see Findings) an access keeps the buckets well formed and the node set the same; the node heads the bucket of frequency f + 1, which sits right after f's place; only its frequency changes, by one |
| `LfuBuckets.PromoteFrequencies` | db/cache/policies/lfu_policy.cc:83-105 | (corrected, see Findings) the accessed node's frequency goes from f to f + 1 and the node set is unchanged |
| `LfuBuckets.PromoteShape` | db/cache/policies/lfu_policy.cc:89-104 | (corrected, see Findings) bucket f + 1 is reused or created after f, f is unlinked when emptied, and the frequencies still strictly ascend with no empty bucket |
| `LfuBuckets.EvictAtSpec` | db/cache/policies/lfu_policy.cc:108-126 | (corrected, see Findings) eviction keeps the buckets well formed, removes exactly the node, and leaves every other frequency alone |
| `LfuBuckets.EvictAtFrequencies` | db/cache/policies/lfu_policy.cc:108-126 | (corrected, see Findings) the node set loses exactly the evicted node and other frequencies are unchanged |
| `LfuBuckets.EvictAtShape` | db/cache/policies/lfu_policy.cc:122-126 | (corrected, see Findings) an emptied bucket is unlinked, so no empty bucket persists and frequencies still ascend |
| `LfuBuckets.EvictHeadIsLeastFrequent` | db/cache/policies/lfu_policy.cc:131-137 | the head of the first bucket has the least frequency of all tracked nodes |
| `LfuBuckets.EvictAtAsWrittenDropsPredecessors` | db/cache/policies/lfu_policy.cc:112 | as written, evicting the node at position p also drops the p nodes before it from the bucket list |
| `LfuBuckets.EvictNonHeadLosesKey` | db/cache/policies/lfu_policy.cc:108-119 | a bucket [10, 20] loses both keys when 20 is evicted as written, and keeps 10 when evicted correctly |
| `LfuPolicies.LfuPolicy.constructor` | db/cache/policies/lfu_policy.cc:56-59 | no buckets and an empty free list |
| `LfuPolicies.LfuPolicy.NewKeyNode` | db/cache/policies/lfu_policy.cc:172-183 | pops the node reclaimed last and rekeys it, allocating only when the free list is empty; the node is untracked afterwards |
| `LfuPolicies.LfuPolicy.ReclaimNode` | db/cache/policies/lfu_policy.cc:165-170 | the node is pushed on the front of the free list; nothing else changes |
| `LfuPolicies.LfuPolicy.DeleteFrequencyNode` | db/cache/policies/lfu_policy.cc:149-163 | (corrected, see Findings) the bucket is unlinked; removing the first one advances `frequencies` |
| `LfuPolicies.LfuPolicy.ExchangeKey` | db/cache/policies/lfu_policy.cc:51-54 | the node leaves one bucket and becomes the head of the other |
| `LfuPolicies.LfuPolicy.MarkInsertion` | db/cache/policies/lfu_policy.cc:61-81 | the buckets become `InsertNode` of the old ones with a node recycled when possible; the entry records the node; the invariant is kept |
| `LfuPolicies.LfuPolicy.MarkAccess` | db/cache/policies/lfu_policy.cc:83-105 | (corrected, see Findings) the buckets become `Promote` of the old ones at the node's bucket; the free list and keys are unchanged; the invariant is kept |
| `LfuPolicies.LfuPolicy.EvictKeyNode` | db/cache/policies/lfu_policy.cc:108-129 | (corrected, see Findings) the node's key is returned, the buckets become `EvictAt` of the old ones, and the node heads the free list |
| `LfuPolicies.LfuPolicy.Evict` | db/cache/policies/lfu_policy.cc:131-138 | (corrected, see Findings) NO_FREQUENCY_INFO when there is no bucket; otherwise the head key of the lowest bucket is evicted and returned |
| `LfuPolicies.LfuPolicy.EvictEntry` | db/cache/policies/lfu_policy.cc:140-147 | (corrected, see Findings) "" and no change when the entry carries no node; otherwise exactly that node is evicted and its key returned |
| `LfuPolicies.InsertSteps` | db/cache/policies/lfu_policy.cc:64-78 | the pointer steps of MarkInsertion compose to `InsertNode` |
| `LfuPolicies.ExchangedShape` | db/cache/policies/lfu_policy.cc:89-98 | (corrected, see Findings) creating bucket f + 1 when missing and then exchanging the node gives the two rewired buckets in place |
| `LfuPolicies.PromoteSteps` | db/cache/policies/lfu_policy.cc:98-104 | (corrected, see Findings) exchanging and then deleting an emptied bucket composes to `Promote` |
| `LfuPolicies.EvictSteps` | db/cache/policies/lfu_policy.cc:112-126 | (corrected, see Findings) unlinking and then deleting an emptied bucket composes to `EvictAt` |
| `LfuPolicies.LinkFresh` | db/cache/policies/lfu_policy.cc:78 | linking an untracked node at frequency 1 keeps the policy invariant |
| `LfuPolicies.PopFront` | db/cache/policies/lfu_policy.cc:177-178 | popping the free list takes exactly its head out of the tracked nodes |
| `LfuPolicies.Allocate` | db/cache/policies/lfu_policy.cc:173-175 | a newly allocated node is untracked and keying it keeps the invariant |
| `LfuPolicies.Reuse` | db/cache/policies/lfu_policy.cc:177-182 | a node popped from the free list is untracked and rekeying it keeps the invariant |
| `LfuLinks.AddKey` | db/cache/policies/lfu_policy.cc:20-30 | the node heads the bucket's key list and names that bucket as its `frequencyNode`; no bucket is added or freed |
| `LfuLinks.LinkAfter` | db/cache/policies/lfu_policy.cc:91-95 | a new empty bucket of frequency f + 1 at a fresh address, whose `prev` is bucket f and whose `next` is f's old successor, becomes f's `next` |
| `LfuLinks.InsertionHeadsFrequencyOne` | db/cache/policies/lfu_policy.cc:61-81 | MarkInsertion faults exactly on a freed head; otherwise the node heads the frequency-1 bucket at the front, and a bucket created in front of the old head becomes that head's `prev` |
| `LfuLinks.DeleteFreesBucket` | db/cache/policies/lfu_policy.cc:149-163 | a freed `prev` faults; otherwise exactly the bucket is freed and every other bucket keeps its frequency and keys |
| `LfuLinks.ExchangeMovesNode` | db/cache/policies/lfu_policy.cc:51-54 | the node leaves bucket b for the head of bucket t, whose frequency stays; an emptied b is unlinked |
| `LfuLinks.AccessRaisesFrequency` | db/cache/policies/lfu_policy.cc:83-105 | an untracked node faults; a completed access leaves the node at the head of a bucket one frequency above its old one, as written and corrected |
| `LfuLinks.AccessCreatesBucket` | db/cache/policies/lfu_policy.cc:89-104 | when no bucket f + 1 follows, the node ends alone in the new bucket at the fresh address, of frequency f + 1 |
| `LfuLinks.EvictClearsOwner` | db/cache/policies/lfu_policy.cc:108-129 | an untracked node faults; a completed eviction clears the node's `frequencyNode`; corrected, a surviving bucket loses exactly the node |
| `LfuLinks.StaleBackLink` | db/cache/policies/lfu_policy.cc:89-98 | as written, the new bucket's `next` is the old successor while that successor's `prev` stays on bucket f; corrected, it names the new bucket |
| `LfuLinks.StalePrevLosesKey` | db/cache/policies/lfu_policy.cc:83-163 | as written, insert c, access c twice, insert a and b, access a, access c leaves a linked to a bucket that the list from `frequencies` no longer reaches; corrected, the list is the sequence model's |
| `LfuLinks.StalePrevEvictLosesKey` | db/cache/policies/lfu_policy.cc:108-163 | the same run ending with Evict(cacheEntry) of c loses a in the same way as written; corrected, the list is the sequence model's |
| `LfuLinks.StalePrevWritesFreed` | db/cache/policies/lfu_policy.cc:83-163 | as written, insert c, access c twice, insert a, access a, access c writes through a freed bucket; corrected, the list is the sequence model's |
| `CacheLfu.LfuPolicy.constructor` | db/cache/cache.cc:67-70 | an empty key table and a null frequency list, with every key isolated and no counts |
| `CacheLfu.LfuPolicy.NewKeyNode` | db/cache/cache.cc:4-9 | a key node with null links at a fresh address |
| `CacheLfu.LfuPolicy.NewFrequencyNode` | db/cache/cache.cc:13-18 | a frequency node with no keys at a fresh address |
| `CacheLfu.LfuPolicy.AddKey` | db/cache/cache.cc:20-27 | the node heads the bucket; the old head's `prev` is not updated |
| `CacheLfu.LfuPolicy.RemoveKey` | db/cache/cache.cc:29-46 | faults exactly on a freed neighbour; otherwise the neighbours are joined, the head moves on when needed, and the bucket pointer is cleared |
| `CacheLfu.LfuPolicy.ExchangeKey` | db/cache/cache.cc:48-51 | after a remove that does not fault, the node heads the target bucket |
| `CacheLfu.LfuPolicy.Delete` | db/cache/cache.cc:53-65 | the destructor returns at once for a node without neighbours, otherwise joins them (faulting on a freed one); the node is freed |
| `CacheLfu.LfuPolicy.DeleteFrequencyNode` | db/cache/cache.cc:138-150 | `frequencies` becomes the node's successor whether or not it was the head; the node is unlinked and freed |
| `CacheLfu.LfuPolicy.MarkInsertion` | db/cache/cache.cc:72-90 | the table maps the key to a new node placed in a frequency-1 bucket; `frequencies` is never assigned; from a reachable state the key gets count 1 and every key stays isolated |
| `CacheLfu.LfuPolicy.NextBucket` | db/cache/cache.cc:96-103 | the successor when it has frequency f + 1, else a new such bucket linked after f (the old successor's `prev` untouched) |
| `CacheLfu.LfuPolicy.MarkAccess` | db/cache/cache.cc:92-110 | a missing key is inserted with a null node and faults; a tracked key's count rises by one, the others stay, and every key stays isolated |
| `CacheLfu.LfuPolicy.Promote` | db/cache/cache.cc:93-110 | a key found in the table moves up one frequency and nothing else changes in the counts |
| `CacheLfu.LfuPolicy.MoveUp` | db/cache/cache.cc:94-110 | a node alone in its bucket ends alone in a new bucket one frequency higher, and the old bucket is freed |
| `CacheLfu.LfuPolicy.Evict` | db/cache/cache.cc:112-136 | NO_FREQUENCY_INFO when the list or its head is empty; otherwise the head key is erased from the table and freed; from a reachable state it always answers NO_FREQUENCY_INFO and changes nothing |
| `CacheLfu.InsertIsolated` | db/cache/cache.cc:72-90 | inserting into a null frequency list keeps every key isolated, gives the key count 1 and keeps the other counts |
| `CacheLfu.AccessIsolated` | db/cache/cache.cc:92-110 | an access to an isolated key keeps every key isolated and raises that key's count only, by one |
| `LookasideCache.Cache.constructor` | db/cache/cache.cc:154 | an empty cache of DEFAULT_CACHE_SIZE (1024) entries |
| `LookasideCache.Cache.WithCapacity` | db/cache/cache.cc:156-159 | an empty cache of the given capacity with a fresh LFU policy |
| `LookasideCache.Cache.FromOptions` | db/cache/cache.cc:161-173 | capacity from `numEntries`; LFU whatever policy is asked for |
| `LookasideCache.Cache.Lookup` | db/cache/cache.cc:175-187 | the stored value and one more access for a present key; NOT_FOUND with the policy untouched for a missing one |
| `LookasideCache.Cache.Insert` | db/cache/cache.cc:189-203 | a present key leaves the map unchanged but counts an access; a new key is stored with count 1 and the map grows by one even when full |
| `LookasideCache.Cache.Store` | db/cache/cache.cc:195-202 | the eviction request is answered with nothing evicted; the value is stored and the key registered with count 1 |
| `LookasideCache.Cache.Update` | db/cache/cache.cc:205-215 | a present key is not written (one access counted); a key never stored is written and then faults in the policy |
| `LookasideCache.Cache.Refresh` | db/cache/cache.cc:211-214 | the value is written and an access reported; a key the policy lacks faults |
| `WorkloadCommands.CommandKind.Code` | tools/generate_workload.py:43-49 | a kind's code is one of `w`, `r`, `d` |
| `WorkloadCommands.KindOfCode` | tools/generate_workload.py:43-46 | the kind a code letter stands for, none for other letters |
| `WorkloadCommands.KindOfCodeRoundTrip` | tools/generate_workload.py:43-49 | each kind is recovered from its code letter |
| `WorkloadCommands.ToStrShape` | tools/generate_workload.py:63-64 | the line is code, space, key, space, value (empty for a missing value) |
| `WorkloadCommands.Parse` | tools/generate_workload.py:63-64 | a line read back gives a key without spaces and never an empty value |
| `WorkloadCommands.Shown` | tools/generate_workload.py:64 | an empty value prints like a missing one |
| `WorkloadCommands.ParseToStr` | tools/generate_workload.py:63-64 | the line of a command with a space-free key reads back as that command |
| `WorkloadCommands.ToStrInjective` | tools/generate_workload.py:63-64 | two commands print alike only when they show alike |
| `WorkloadText.NatToString` | tools/generate_workload.py:196 | `str` of a non-negative int is a numeral without leading zeros, one digit exactly below 10 |
| `WorkloadText.ParseNatToString` | tools/generate_workload.py:196 | reading the numeral of n gives n |
| `WorkloadText.NatToStringParse` | tools/generate_workload.py:196 | writing the value of a numeral gives the numeral |
| `WorkloadText.NatToStringInjective` | tools/generate_workload.py:196 | distinct numbers have distinct numerals |
| `WorkloadText.KeyNameShape` | tools/generate_workload.py:125 | a key name is `key` followed by a numeral |
| `WorkloadText.KeyNameInjective` | tools/generate_workload.py:125 | different indices name different keys |
| `WorkloadText.KeyNameIndex` | tools/generate_workload.py:193-196 | the digits after `key` give the index back |
| `WorkloadText.KeyNamesCount` | tools/generate_workload.py:193-196 | there are exactly n key names below n |
| `WorkloadText.FreeKeyName` | tools/generate_workload.py:209-213 | with fewer than n keys taken a free key name below n exists, so the preamble's draw loop can stop |
| `WorkloadText.ScaledIndex` | tools/generate_workload.py:194 | `int(n * random.random())` is an index below n (0 when n is 0) |
| `WorkloadText.ScaledIndexHits` | tools/generate_workload.py:194 | every index below n is hit by some draw |
| `WorkloadText.KeyUniform` | tools/generate_workload.py:193-196 | a uniform key is a key name below `num_keys` |
| `WorkloadText.ValueTextShape` | tools/generate_workload.py:199-200 | a value is `value` followed by the numeral of the drawn integer |
| `WorkloadKinds.Pool` | tools/generate_workload.py:177 | the pool has every kind once, READ exactly when reads are not excluded |
| `WorkloadKinds.KindsDistinct` | tools/generate_workload.py:188 | `[c for c in CommandKind]` names every kind exactly once |
| `WorkloadKinds.KindUniform` | tools/generate_workload.py:135-136 | the uniform draw yields a kind of the pool |
| `WorkloadKinds.KindUniformReaches` | tools/generate_workload.py:135-136 | every kind of the pool is drawn by some `u` |
| `WorkloadKinds.ListedCount` | tools/generate_workload.py:142 | `len(distribution)` is the number of pool kinds the distribution lists |
| `WorkloadKinds.Probabilities` | tools/generate_workload.py:145-153 | one probability per pool kind: the listed weight or the even share |
| `WorkloadKinds.ProbabilityListAsWritten` | tools/generate_workload.py:139-155 | as written the function always raises |
| `WorkloadKinds.ProbabilityListNameError` | tools/generate_workload.py:139-155 | for the generator's `{READ: 0.5}` it raises NameError where [0.25, 0.5, 0.25] is meant |
| `WorkloadKinds.CalculateProbabilityList` | tools/generate_workload.py:139-155 | the loop with the list starting empty computes the reference probability list, decimal division errors included |
| `WorkloadKinds.SumProbabilities` | tools/generate_workload.py:145-153 | the list adds up to the listed weights plus one share per unlisted kind |
| `WorkloadKinds.ProbabilitiesSumToOne` | tools/generate_workload.py:139-155 | for a pool holding every listed kind with some kind unlisted, the list is computed and sums to 1 |
| `WorkloadKinds.ListedAll` | tools/generate_workload.py:142-143 | the pool's listed weights are `sum(distribution.values())` |
| `WorkloadKinds.EvenSplit` | tools/generate_workload.py:150-152 | k even shares of what is left add up to it |
| `WorkloadKinds.ListedKeepProbability` | tools/generate_workload.py:146-148 | every listed kind keeps exactly its given probability |
| `WorkloadKinds.Bisect` | tools/generate_workload.py:163 | `bisect` halves the searched range of running sums and returns a position within it |
| `WorkloadKinds.FirstAbove` | tools/generate_workload.py:163 | the reference search: the first running sum above the point, every earlier one at most the point |
| `WorkloadKinds.BisectIsFirstAbove` | tools/generate_workload.py:163 | with non-negative weights, bisection finds exactly the first running sum above the point |
| `WorkloadKinds.NegativeWeightSearch` | tools/generate_workload.py:163 | with a negative middle weight the running sums fall and bisection picks another position than the first above the point |
| `WorkloadKinds.WeightedChoice` | tools/generate_workload.py:163 | a kind of the pool, or ValueError exactly when the total weight is not positive |
| `WorkloadKinds.Point` | tools/generate_workload.py:163 | the scaled draw lies in [0, total) |
| `WorkloadKinds.BisectHasWeight` | tools/generate_workload.py:163 | the chosen position has positive weight |
| `WorkloadKinds.ChoiceHasWeight` | tools/generate_workload.py:158-163 | a kind of probability zero is never drawn |
| `WorkloadKinds.KindFromDistribution` | tools/generate_workload.py:158-163 | as written the weighted draw always raises: NameError whenever the pool's first kind is listed or the pool and the distribution differ in size |
| `WorkloadKinds.KindFromDistributionCorrected` | tools/generate_workload.py:158-163 | (corrected, see Findings) over the intended probability list the weighted draw yields a kind of the pool |
| `WorkloadKinds.GenerateCommandKind` | tools/generate_workload.py:174-182 | raises exactly when a non-empty distribution is given; otherwise a kind of the pool, never READ when reads are excluded |
| `WorkloadKinds.GenerateCommandKindListAsWritten` | tools/generate_workload.py:185-190 | as written every call raises TypeError |
| `WorkloadKinds.GenerateCommandKindList` | tools/generate_workload.py:166-171 | (corrected, see Findings) `size` kinds, each the weighted draw of its point |
| `WorkloadKinds.KindListCorrected` | tools/generate_workload.py:185-190 | for `{READ: 0.5}` the written call raises where the intended one yields a list |
| `WorkloadGenerator.Lines` | tools/generate_workload.py:216 | one output line per command |
| `WorkloadGenerator.KeysOfMember` | tools/generate_workload.py:217-219 | a key is in the returned set exactly when some write names it |
| `WorkloadGenerator.DistinctKeysCount` | tools/generate_workload.py:208-219 | distinct keys are as many as the writes |
| `WorkloadGenerator.FreshKey` | tools/generate_workload.py:210-217 | a write of an untaken key keeps the keys distinct and adds its key to the set |
| `WorkloadGenerator.GeneratePreamble` | tools/generate_workload.py:203-219 | `num_keys // 2` WRITEs with generated values on distinct key names below `num_keys`, one line each, and the returned set is exactly their keys |
| `WorkloadGenerator.Seeded` | tools/generate_workload.py:228 | the table holds exactly the preamble keys, each at position 0 |
| `WorkloadGenerator.Reads` | tools/generate_workload.py:270 | the read count never exceeds the commands |
| `WorkloadGenerator.MainDraw` | tools/generate_workload.py:243-271 | a WRITE always goes through, a DELETE exactly for an existing key, a READ exactly for a recent key |
| `WorkloadGenerator.MainReadNeverEmitted` | tools/generate_workload.py:246-271 | as written a main-loop READ is never emitted; corrected, a READ of a recent key is |
| `WorkloadGenerator.AsWrittenIsCorrected` | tools/generate_workload.py:243-271 | every command the written draw emits the corrected draw emits too |
| `WorkloadGenerator.MainDrawAllowed` | tools/generate_workload.py:252-271 | a command the main draw emits keeps the feasibility rules |
| `WorkloadGenerator.CorrectorProbe` | tools/generate_workload.py:285-294 | a probe gives up exactly when the key is not recent and fewer than five probes were made; after that it falls back to the last written key |
| `WorkloadGenerator.ProbeAllowed` | tools/generate_workload.py:286-296 | an injected read, fallback included, keeps the feasibility rules |
| `WorkloadGenerator.RatioAtMost` | tools/generate_workload.py:283 | the Decimal ratio test is the cross-multiplied test on the counts |
| `WorkloadGenerator.ReadCatchesUp` | tools/generate_workload.py:296-300 | an injected read keeps the reads on pace with the target |
| `WorkloadGenerator.PreambleKeys` | tools/generate_workload.py:224-228 | the preamble's keys are key names below `num_keys` |
| `WorkloadGenerator.GenerateWorkload` | tools/generate_workload.py:222-300 | StopIteration exactly when `num_keys < 2`; otherwise the preamble, the sentinel, and exactly `num_ops` legal main commands whose reads are at least `(num_ops − 1)` copies of the target |
| `WorkloadGenerator.MainSection` | tools/generate_workload.py:242-300 | exactly `num_ops` commands, each legal in the state before it, with the reads on pace |
| `WorkloadGenerator.MainPass` | tools/generate_workload.py:243-300 | one main command and its corrective reads keep the bookkeeping in step, stay within `num_ops`, and leave the reads ahead of the target when commands remain |
| `WorkloadGenerator.MainCommand` | tools/generate_workload.py:243-276 | one feasible command other than READ is emitted, the earlier lines are kept, and the table, `valid_read_keys`, `last_written_key`, the count and the lines follow it |
| `WorkloadGenerator.DrawMainCommand` | tools/generate_workload.py:243-271 | the drawn command is never a READ and keeps the rules; a DELETE names an existing key; a WRITE records position n + 1 and becomes the last written key; `valid_read_keys` stays the table's key set |
| `WorkloadGenerator.CorrectReadRatio` | tools/generate_workload.py:278-300 | only READs are appended, each legal; it stops at `num_ops` or once the ratio exceeds the target |
| `WorkloadGenerator.DrawRead` | tools/generate_workload.py:285-296 | a probe yields an allowed READ, or nothing only before the fifth probe |
| `WorkloadGenerator.Step` | tools/generate_workload.py:252-276 | emitting an allowed command keeps table, key set, last key, count and lines in step with the commands |
| `WorkloadGenerator.ReadStep` | tools/generate_workload.py:296-300 | an injected READ keeps the bookkeeping in step and extends the run by reads only |
| `WorkloadGenerator.Emitted` | tools/generate_workload.py:252-276 | appending an allowed command keeps the run legal and advances the replayed table, last key and read count by it |

## Left out

- File and console I/O: `Parameters` and its output file, `write_output`, `main` with its header line and `print`, and docopt parsing (`tools/generate_workload.py:67-123, 131-132, 306-320`). Output is the sequence of lines written.
- Random number generation. `random.random`, `random.randint` and `random.choices` become a draw `u` in [0, 1) or a `:|` choice of an index in range. `ScaledIndexHits` and `KindUniformReaches` show that the draws reach exactly those indices.
- The draw-until-feasible loops (`tools/generate_workload.py:210-213, 243-271`) terminate only with probability 1. Each is one `:|` choice of a draw that meets the loop's exit condition. The corrector's probes are modelled one by one.
- Decimal rounding and `float()` conversion (`tools/generate_workload.py:147, 151-153, 283`): probabilities and ratios are exact reals.
- WorkloadGenerator.GenerateWorkload: the guarantee on the read count holds for targets of at most 1. It is stated as at least `(num_ops − 1)` copies of the target, not a ratio of `num_ops`, because the code guarantees no more. Convergence toward the target is a statistical claim and is left out.
- The `LA_CACHE_KEEP_EMPTY_FREQ_NODES` compile-time variant of `lfu_policy.cc`; the default, with the flag undefined, is modelled.
- Memory management: `new` and `delete` of the policy nodes become handles from a counter. In `lru_policy.cc`, and in the class `LfuPolicies.LfuPolicy` for `lfu_policy.cc`, the `prev`/`next` links are positions in the sequences, so pointer aliasing is not modelled there. `LfuLinks` models the bucket links of `lfu_policy.cc` as addresses; a freed bucket that is dereferenced ends a run with `Fault`. Key-node links and the free list stay sequences there.
- LfuLinks.AccessRaisesFrequency requires that `new` hands out an address no live bucket has, as the allocator guarantees.
- LfuLinks.StaleBackLink requires that the successor's `prev` names bucket f before the access, which holds in a list whose back links are right.
- LfuBuckets.PromoteSpec, LfuBuckets.PromoteFrequencies and LfuBuckets.PromoteShape: state what the corrected `MarkAccess` does. As written, a later unlink through the successor's stale `prev` can drop a bucket (LfuLinks.StalePrevLosesKey).
- LfuBuckets.EvictAtSpec, LfuBuckets.EvictAtFrequencies and LfuBuckets.EvictAtShape: state what the corrected `EvictKeyNode` does, with both corrections.
- LfuPolicies.LfuPolicy.MarkAccess, LfuPolicies.ExchangedShape and LfuPolicies.PromoteSteps: the class is proved against `Promote`, the corrected access; the stale `prev` of the code as written is shown in LfuLinks.
- LfuPolicies.LfuPolicy.EvictKeyNode, LfuPolicies.LfuPolicy.Evict, LfuPolicies.LfuPolicy.EvictEntry and LfuPolicies.EvictSteps: the class is proved against `EvictAt`, the corrected eviction; the losses as written are shown in LfuBuckets.EvictNonHeadLosesKey and LfuLinks.StalePrevEvictLosesKey.
- LfuPolicies.LfuPolicy.DeleteFrequencyNode: the unlink goes through a sequence position, which is the right neighbour; as written it goes through `prev`, which can be stale (LfuLinks.DeleteFrequencyNode).
- WorkloadKinds.GenerateCommandKindList: draws over the intended probability list; as written every call raises (WorkloadKinds.GenerateCommandKindListAsWritten).
- LruPolicies.LruPolicy.Evict requires a non-empty deque: the source dereferences `keysEnd` without a check, which is undefined behaviour when it is null.
- LruPolicies.LruPolicy.MarkAccess requires the entry's node to be linked in the deque: callers must not pass an entry whose node was already evicted. The source dereferences `extra` without a check, and an evicted node is still live on the free list, so it would be relinked into the deque while `reusableNodes` still holds it.
- LruPolicies.LruPolicy.EvictEntry requires the entry's node to be linked in the deque, for the same reason.
- LfuPolicies.LfuPolicy.MarkAccess requires the entry's node to be linked in a bucket, for the same reason.
- LfuPolicies.LfuPolicy.EvictEntry requires a non-null `extra` to name a linked node, for the same reason.
- LfuPolicies.LfuPolicy.MarkAccess ignores its key argument, as the source does (`db/cache/policies/lfu_policy.cc:85`).
- LookasideCache.Cache.Lookup, LookasideCache.Cache.Insert and LookasideCache.Cache.Update: keys and values are the slices' bytes up to the first NUL, which is what `string(slice.data())` keeps; what these members state about the stored map holds for those C strings, not for binary data.
- External types: `robin_hood::unordered_map` becomes a Dafny `map`, `Slice` becomes a string holding the slice's bytes up to the first NUL, since `db/cache/cache.cc` converts keys (lines 177, 199, 211) and values (lines 201, 213) with `string(slice.data())`; binary keys and values, and slices without a terminator, are not modelled, and `Statistics` is not part of this model. The `cache_entry*` API declared in `db/cache/cache.h` has no implementation among these files.
- In `db/cache/cache.cc`, undefined behaviour (a null or freed pointer dereferenced) ends the operation with `Fault`. Writes made before that point are kept. What the program would do after it is not modelled.

## Findings

| source | as written | input that shows it | evidently intended | confidence | as-written member | corrected member |
|---|---|---|---|---|---|---|
| db/cache/policies/lfu_policy.cc:112 | `EvictKeyNode` sets the bucket's `keys` to the evicted node's successor whatever its position | bucket [10, 20] (head 10); `Evict(cacheEntry)` for 20 leaves the bucket empty and deletes it, so key 10 is lost | only a node without a predecessor moves the bucket head; otherwise the predecessor is relinked | high, not executed | `LfuBuckets.EvictAtAsWritten`, `LfuBuckets.EvictNonHeadLosesKey` | `LfuBuckets.EvictAt`, `LfuBuckets.EvictAtSpec` |
| db/cache/policies/lfu_policy.cc:91-95 | `MarkAccess` links a new bucket f + 1 after bucket f but leaves the old successor's `prev` on f; `DeleteFrequencyNode` (lines 152-157) later unlinks through that `prev` | insert c, access c twice, insert a and b, access a, access c: bucket 2 (holding a) is no longer reachable from `frequencies`; without b, the last access writes through freed bucket 1 | the successor's `prev` is set to the new bucket, as `MarkInsertion` does at lines 70-72 | high, not executed | `LfuLinks.MarkAccess`, `LfuLinks.StalePrevLosesKey`, `LfuLinks.StalePrevEvictLosesKey`, `LfuLinks.StalePrevWritesFreed` | `LfuBuckets.Promote`, `LfuBuckets.PromoteSpec`, `LfuLinks.StaleBackLink` |
| tools/generate_workload.py:145-155 | `probability_list` is appended to and returned but never bound | pool [WRITE, READ, DELETE] with `{READ: 0.5}` raises NameError | the list starts empty and yields [0.25, 0.5, 0.25] | high, not executed | `WorkloadKinds.ProbabilityListAsWritten`, `WorkloadKinds.ProbabilityListNameError` | `WorkloadKinds.CalculateProbabilityList`, `WorkloadKinds.ProbabilitiesSumToOne`, `WorkloadKinds.KindFromDistributionCorrected` |
| tools/generate_workload.py:190 | `generate_command_kind_distribution` (two parameters) is called with three arguments | any call of `generate_command_kind_list` raises TypeError | `generate_command_kind_list_distribution(pool, distribution, size)` | high, not executed | `WorkloadKinds.GenerateCommandKindListAsWritten`, `WorkloadKinds.KindListCorrected` | `WorkloadKinds.GenerateCommandKindList` |
| tools/generate_workload.py:248-250 | a READ keeps `command_key = None`, so the test at lines 266-268 never holds | any state: a drawn READ is always redrawn, so the main loop never emits one | a READ draws a key too and is emitted when that key is recent | medium, not executed | `WorkloadGenerator.MainDrawAsWritten`, `WorkloadGenerator.MainReadNeverEmitted` | `WorkloadGenerator.MainDrawCorrected`, `WorkloadGenerator.MainDrawAllowed` |
