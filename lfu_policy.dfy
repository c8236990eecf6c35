/**
 * The constant-time LFU eviction policy of db/cache/policies/lfu_policy.cc.
 *
 * The doubly linked list of frequency nodes is the field `frequencies`, a sequence of
 * buckets (see LfuBuckets); key nodes are handles whose key is kept in `nodeKey`, and
 * `new lfu_key_node` hands out the next unused handle. The free list `reusableNodes`
 * is a sequence whose head is the node reclaimed last.
 */
module LfuPolicies {
  import opened Options
  import opened Seqs
  import opened CacheEntries
  import opened LfuBuckets

  /** lfu_policy::NO_FREQUENCY_INFO, the answer of Evict() when nothing is tracked. */
  const NO_FREQUENCY_INFO: string := "ELFUPOLICYNOFREQINFO"

  class LfuPolicy {
    var frequencies: seq<FrequencyNode>
    var reusableNodes: seq<NodeId>
    /** The `key` field of every key node allocated so far. */
    var nodeKey: map<NodeId, Key>
    /** The handle the next `new lfu_key_node` returns. */
    var nextNode: NodeId

    /** Key nodes that are linked into a bucket or parked on the free list. */
    ghost function Tracked(): multiset<NodeId>
      reads this
    {
      Nodes(frequencies) + multiset(reusableNodes)
    }

    ghost predicate Valid()
      reads this
    {
      Invariant(frequencies, reusableNodes, nodeKey, nextNode)
    }

    constructor ()
      ensures Valid()
      ensures frequencies == [] && reusableNodes == [] && nodeKey == map[] && nextNode == 0
    {
      frequencies := [];
      reusableNodes := [];
      nodeKey := map[];
      nextNode := 0;
    }

    /**
     * NewKeyNode: pops the node reclaimed last and overwrites its key; allocates a
     * node only when the free list is empty. Either way the node is in no bucket
     * and no longer on the free list.
     */
    method NewKeyNode(key: Key) returns (node: NodeId)
      requires Valid()
      modifies this
      ensures old(reusableNodes) == [] ==>
        node == old(nextNode) && nextNode == old(nextNode) + 1 && reusableNodes == []
      ensures old(reusableNodes) != [] ==>
        node == old(reusableNodes)[0] && nextNode == old(nextNode)
        && reusableNodes == old(reusableNodes)[1..]
      ensures nodeKey == old(nodeKey)[node := key]
      ensures frequencies == old(frequencies)
      ensures Valid() && node !in Tracked()
    {
      if reusableNodes == [] {
        node := nextNode;
        Allocate(frequencies, reusableNodes, nodeKey, nextNode, key);
        nextNode := nextNode + 1;
      } else {
        node := reusableNodes[0];
        Reuse(frequencies, reusableNodes, nodeKey, nextNode, key);
        reusableNodes := reusableNodes[1..];
      }
      nodeKey := nodeKey[node := key];
    }

    /** ReclaimNode: the node goes to the front of the free list. */
    method ReclaimNode(node: NodeId)
      modifies this
      ensures reusableNodes == [node] + old(reusableNodes)
      ensures frequencies == old(frequencies) && nodeKey == old(nodeKey) && nextNode == old(nextNode)
    {
      reusableNodes := [node] + reusableNodes;
    }

    /** DeleteFrequencyNode: bucket i is unlinked; removing the head advances `frequencies`. */
    method DeleteFrequencyNode(i: nat)
      requires i < |frequencies|
      modifies this
      ensures frequencies == old(frequencies[..i] + frequencies[i + 1..])
      ensures reusableNodes == old(reusableNodes) && nodeKey == old(nodeKey) && nextNode == old(nextNode)
    {
      frequencies := frequencies[..i] + frequencies[i + 1..];
    }

    /** lfu_frequency_node::ExchangeKey: RemoveKey from bucket i, then AddKey to bucket j. */
    method ExchangeKey(i: nat, node: NodeId, j: nat)
      requires i < |frequencies| && j < |frequencies| && i != j
      modifies this
      ensures frequencies ==
        old(frequencies[i := frequencies[i].RemoveKey(node)][j := frequencies[j].AddKey(node)])
      ensures reusableNodes == old(reusableNodes) && nodeKey == old(nodeKey) && nextNode == old(nextNode)
    {
      frequencies := frequencies[i := frequencies[i].RemoveKey(node)];
      frequencies := frequencies[j := frequencies[j].AddKey(node)];
    }

    /**
     * MarkInsertion: the key gets a node (recycled when possible) at the head of the
     * frequency-1 bucket at the front of the list, and the entry records the node.
     */
    method MarkInsertion(key: Key, entry: CacheEntry) returns (node: NodeId)
      requires Valid()
      modifies this, entry
      ensures Valid()
      ensures frequencies == InsertNode(old(frequencies), node)
      ensures node !in old(Nodes(frequencies)) && nodeKey == old(nodeKey)[node := key]
      ensures old(reusableNodes) == [] ==> node == old(nextNode) && reusableNodes == []
      ensures old(reusableNodes) != [] ==>
        node == old(reusableNodes)[0] && reusableNodes == old(reusableNodes)[1..]
      ensures entry.extra == Some(node) && entry.value == old(entry.value)
    {
      ghost var fs := frequencies;
      node := NewKeyNode(key);
      if frequencies == [] || frequencies[0].frequency != 1 {
        frequencies := [FrequencyNode(1, [])] + frequencies;
      }
      frequencies := frequencies[0 := frequencies[0].AddKey(node)];
      entry.extra := Some(node);
      InsertSteps(fs, node, frequencies);
      LinkFresh(fs, reusableNodes, nodeKey, nextNode, node);
    }

    /**
     * MarkAccess: the entry's key node moves from its bucket, of frequency f, to the
     * head of the bucket of frequency f + 1 (created right after it when missing);
     * the old bucket is unlinked when that empties it. The key argument is unused.
     */
    method MarkAccess(key: Key, entry: CacheEntry)
      requires Valid()
      requires entry.extra.Some? && entry.extra.value in Nodes(frequencies)
      modifies this
      ensures Valid()
      ensures frequencies ==
        Promote(old(frequencies), BucketIndex(old(frequencies), entry.extra.value), entry.extra.value)
      ensures reusableNodes == old(reusableNodes) && nodeKey == old(nodeKey) && nextNode == old(nextNode)
    {
      var node := entry.extra.value;
      var i := BucketIndex(frequencies, node);
      ghost var fs := frequencies;
      var f := frequencies[i].frequency;
      if !(i + 1 < |frequencies| && frequencies[i + 1].frequency == f + 1) {
        frequencies := frequencies[..i + 1] + [FrequencyNode(f + 1, [])] + frequencies[i + 1..];
      }
      ghost var g := frequencies;
      ExchangeKey(i, node, i + 1);
      ghost var h := frequencies;
      if frequencies[i].keys == [] {
        DeleteFrequencyNode(i);
      }
      ExchangedShape(fs, i, node, g, h);
      PromoteSteps(fs, i, node, h, frequencies);
      PromoteSpec(fs, i, node);
    }

    /**
     * EvictKeyNode (corrected, see EvictAtAsWritten): the node leaves its bucket, goes
     * to the free list, and its key is returned; an emptied bucket is unlinked.
     */
    method EvictKeyNode(node: NodeId) returns (res: Key)
      requires Valid() && node in Nodes(frequencies)
      modifies this
      ensures Valid()
      ensures res == old(nodeKey)[node]
      ensures frequencies == EvictAt(old(frequencies), BucketIndex(old(frequencies), node), node)
      ensures reusableNodes == [node] + old(reusableNodes)
      ensures nodeKey == old(nodeKey) && nextNode == old(nextNode)
    {
      ghost var fs := frequencies;
      var i := BucketIndex(frequencies, node);
      res := nodeKey[node];
      frequencies := frequencies[i := frequencies[i].RemoveKey(node)];
      ghost var h := frequencies;
      ReclaimNode(node);
      if frequencies[i].keys == [] {
        DeleteFrequencyNode(i);
      }
      EvictSteps(fs, i, node, h, frequencies);
      EvictAtSpec(fs, i, node);
      assert Tracked() == old(Tracked()) by {
        assert Nodes(frequencies) + multiset{node} == Nodes(fs);
      }
    }

    /**
     * Evict(): NO_FREQUENCY_INFO when no bucket exists; otherwise the head key node of
     * the lowest-frequency bucket is evicted and its key returned.
     */
    method Evict() returns (res: string)
      requires Valid()
      modifies this
      ensures Valid()
      ensures old(frequencies) == [] ==>
        res == NO_FREQUENCY_INFO && frequencies == [] && reusableNodes == old(reusableNodes)
      ensures old(frequencies) != [] ==>
        var victim := old(frequencies)[0].keys[0];
        && res == old(nodeKey)[victim]
        && frequencies == EvictAt(old(frequencies), 0, victim)
        && reusableNodes == [victim] + old(reusableNodes)
      ensures nodeKey == old(nodeKey) && nextNode == old(nextNode)
    {
      if frequencies == [] || frequencies[0].keys == [] {
        return NO_FREQUENCY_INFO;
      }
      var victim := frequencies[0].keys[0];
      assert BucketIndex(frequencies, victim) == 0;
      InNodes(frequencies, 0, victim);
      res := EvictKeyNode(victim);
    }

    /**
     * Evict(cacheEntry): "" when the entry carries no key node; otherwise that node is
     * evicted and its key returned. The entry's `extra` is left as it was.
     */
    method EvictEntry(entry: CacheEntry) returns (res: string)
      requires Valid()
      requires entry.extra.Some? ==> entry.extra.value in Nodes(frequencies)
      modifies this
      ensures Valid()
      ensures entry.extra.None? ==>
        res == "" && frequencies == old(frequencies) && reusableNodes == old(reusableNodes)
      ensures entry.extra.Some? ==>
        var node := entry.extra.value;
        && res == old(nodeKey)[node]
        && frequencies == EvictAt(old(frequencies), BucketIndex(old(frequencies), node), node)
        && reusableNodes == [node] + old(reusableNodes)
      ensures nodeKey == old(nodeKey) && nextNode == old(nextNode)
    {
      if entry.extra == None {
        return "";
      }
      res := EvictKeyNode(entry.extra.value);
    }
  }

  /**
   * The policy's invariant: the bucket list is well formed (ascending, no empty
   * bucket), and every allocated key node is in at most one bucket or on the free
   * list, never both.
   */
  ghost predicate Invariant(fs: seq<FrequencyNode>, free: seq<NodeId>, keys: map<NodeId, Key>, next: NodeId)
  {
    && WellFormed(fs)
    && NoDuplicates(Nodes(fs) + multiset(free))
    && (forall n :: n in Nodes(fs) + multiset(free) ==> n in keys)
    && (forall n :: n in keys ==> n < next)
  }

  /** The steps of MarkInsertion compose to InsertNode. */
  lemma InsertSteps(fs: seq<FrequencyNode>, node: NodeId, r: seq<FrequencyNode>)
    requires r == (var g := if fs == [] || fs[0].frequency != 1 then [FrequencyNode(1, [])] + fs else fs;
                   g[0 := g[0].AddKey(node)])
    ensures r == InsertNode(fs, node)
  {
    if fs == [] || fs[0].frequency != 1 {
      assert [node] + [] == [node];
      assert r == [FrequencyNode(1, [node])] + fs;
    } else {
      assert r == [fs[0].AddKey(node)] + fs[1..];
    }
  }

  /** Linking an untracked, allocated node at frequency 1 keeps the invariant. */
  lemma LinkFresh(fs: seq<FrequencyNode>, free: seq<NodeId>, keys: map<NodeId, Key>, next: NodeId, node: NodeId)
    requires Invariant(fs, free, keys, next) && node !in Nodes(fs) + multiset(free) && node in keys
    ensures Invariant(InsertNode(fs, node), free, keys, next)
  {
    InsertNodeSpec(fs, node);
    AddFresh(Nodes(fs), multiset(free), node);
  }

  /** Popping the free list's head takes exactly that node out of the tracked ones. */
  lemma PopFront(linked: multiset<NodeId>, free: seq<NodeId>)
    requires free != [] && NoDuplicates(linked + multiset(free))
    ensures linked + multiset(free) == linked + multiset(free[1..]) + multiset{free[0]}
    ensures free[0] !in linked + multiset(free[1..])
    ensures NoDuplicates(linked + multiset(free[1..]))
  {
    assert free == [free[0]] + free[1..];
    var rest := linked + multiset(free[1..]);
    assert (linked + multiset(free))[free[0]] == rest[free[0]] + 1;
    forall m ensures rest[m] <= 1 {
      assert rest[m] <= (linked + multiset(free))[m];
    }
  }

  /** A freshly allocated node is untracked, and recording its key keeps the invariant. */
  lemma Allocate(fs: seq<FrequencyNode>, free: seq<NodeId>, keys: map<NodeId, Key>, next: NodeId, key: Key)
    requires Invariant(fs, free, keys, next)
    ensures next !in Nodes(fs) + multiset(free)
    ensures Invariant(fs, free, keys[next := key], next + 1)
  {
    assert next !in keys;
  }

  /** The node popped from the free list is no longer tracked, and rekeying it keeps the invariant. */
  lemma Reuse(fs: seq<FrequencyNode>, free: seq<NodeId>, keys: map<NodeId, Key>, next: NodeId, key: Key)
    requires Invariant(fs, free, keys, next) && free != []
    ensures free[0] !in Nodes(fs) + multiset(free[1..])
    ensures Invariant(fs, free[1..], keys[free[0] := key], next)
  {
    PopFront(Nodes(fs), free);
    assert free[0] in Nodes(fs) + multiset(free);
    assert free[0] in keys;
    forall n | n in Nodes(fs) + multiset(free[1..]) ensures n in keys {
      assert n in Nodes(fs) + multiset(free);
    }
  }

  /** Linking a node that was not tracked keeps every node tracked at most once. */
  lemma AddFresh(linked: multiset<NodeId>, free: multiset<NodeId>, node: NodeId)
    requires NoDuplicates(linked + free) && node !in linked + free
    ensures NoDuplicates(linked + multiset{node} + free)
  {
    forall m ensures (linked + multiset{node} + free)[m] <= 1 {
      assert (linked + multiset{node} + free)[m] == (linked + free)[m] + multiset{node}[m];
    }
  }

  /** The steps of MarkAccess compose to Promote: after the exchange, drop bucket i if empty. */
  lemma PromoteSteps(fs: seq<FrequencyNode>, i: nat, node: NodeId, h: seq<FrequencyNode>, r: seq<FrequencyNode>)
    requires i < |fs|
    requires h == fs[..i] + [fs[i].RemoveKey(node), Destination(fs, i, node)] + fs[i + Span(fs, i)..]
    requires r == if h[i].keys == [] then h[..i] + h[i + 1..] else h
    ensures r == Promote(fs, i, node)
  {
    var src := fs[i].RemoveKey(node);
    var dst := Destination(fs, i, node);
    var tail := fs[i + Span(fs, i)..];
    MidShape(fs, i, node);
    if src.keys == [] {
      assert h[..i] == fs[..i] && h[i + 1..] == [dst] + tail;
    } else {
      assert [src, dst] == [src] + [dst];
    }
  }

  lemma ExchangedShape(fs: seq<FrequencyNode>, i: nat, node: NodeId,
                       g: seq<FrequencyNode>, h: seq<FrequencyNode>)
    requires i < |fs|
    requires g == if SuccessorFollows(fs, i) then fs
                  else fs[..i + 1] + [FrequencyNode(fs[i].frequency + 1, [])] + fs[i + 1..]
    requires i + 1 < |g| && h == g[i := g[i].RemoveKey(node)][i + 1 := g[i + 1].AddKey(node)]
    ensures h == fs[..i] + [fs[i].RemoveKey(node), Destination(fs, i, node)] + fs[i + Span(fs, i)..]
  {
    MidShape(fs, i, node);
    var tail := fs[i + Span(fs, i)..];
    assert g[..i] == fs[..i] && g[i] == fs[i] && g[i + 2..] == tail;
    assert g == g[..i] + [g[i], g[i + 1]] + g[i + 2..];
  }

  /** The steps of EvictKeyNode compose to EvictAt. */
  lemma EvictSteps(fs: seq<FrequencyNode>, i: nat, node: NodeId, h: seq<FrequencyNode>, r: seq<FrequencyNode>)
    requires i < |fs| && h == fs[i := fs[i].RemoveKey(node)]
    requires r == if h[i].keys == [] then h[..i] + h[i + 1..] else h
    ensures r == EvictAt(fs, i, node)
  {
    assert h == fs[..i] + [fs[i].RemoveKey(node)] + fs[i + 1..];
  }
}
