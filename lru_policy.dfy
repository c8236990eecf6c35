/**
 * The LRU eviction policy of db/cache/policies/lru_policy.cc: a deque of key nodes
 * from `keysStart` (most recently used) to `keysEnd` (least recently used), and a free
 * list of reclaimed nodes.
 *
 * The node chain is the field `order`, a sequence of node handles from `keysStart` to
 * `keysEnd`; a node's `prev` and `next` are its neighbours in it. The two end pointers
 * stay fields of their own, updated as the source updates them, and the invariant
 * ties them to the ends of `order`.
 */
module LruPolicies {
  import opened Options
  import opened Seqs
  import opened CacheEntries

  /** The message of the runtime_error that MarkAccess throws. */
  const KEY_MISMATCH: string := "Failed to evict key node for key"

  /** How MarkAccess ends: normally, or by throwing runtime_error with a message. */
  datatype Status = Ok | Thrown(message: string)

  function First(s: seq<NodeId>): Option<NodeId>
  {
    if s == [] then None else Some(s[0])
  }

  function Last(s: seq<NodeId>): Option<NodeId>
  {
    if s == [] then None else Some(s[|s| - 1])
  }

  /** Moving `x` to the front of the recency order. */
  function Touch(s: seq<NodeId>, x: NodeId): seq<NodeId>
  {
    [x] + Remove(s, x)
  }

  /** The keys of the nodes of `s`, in the same order. */
  function KeysOf(s: seq<NodeId>, keys: map<NodeId, Key>): (r: seq<Key>)
    requires forall n :: n in s ==> n in keys
    ensures |r| == |s| && forall i :: 0 <= i < |s| ==> r[i] == keys[s[i]]
  {
    if s == [] then [] else [keys[s[0]]] + KeysOf(s[1..], keys)
  }

  class LruPolicy {
    /** The node chain, most recently used first. */
    var order: seq<NodeId>
    var keysStart: Option<NodeId>
    var keysEnd: Option<NodeId>
    var reusableNodes: seq<NodeId>
    /** The `key` field of every key node allocated so far. */
    var nodeKey: map<NodeId, Key>
    /** The handle the next `new lru_key_node` returns. */
    var nextNode: NodeId

    /**
     * The deque is a proper chain whose ends are `keysStart` and `keysEnd`; no node is
     * both in it and on the free list, or twice in either.
     */
    ghost predicate Valid()
      reads this
    {
      && Distinct(order + reusableNodes)
      && keysStart == First(order) && keysEnd == Last(order)
      && (forall n :: n in order ==> n in nodeKey)
      && (forall n :: n in reusableNodes ==> n in nodeKey)
      && (forall n :: n in nodeKey ==> n < nextNode)
    }

    /** The tracked keys, most recently used first. */
    function Keys(): seq<Key>
      reads this
      requires Valid()
    {
      KeysOf(order, nodeKey)
    }

    constructor ()
      ensures Valid() && order == [] && reusableNodes == [] && nodeKey == map[] && nextNode == 0
    {
      order := [];
      keysStart := None;
      keysEnd := None;
      reusableNodes := [];
      nodeKey := map[];
      nextNode := 0;
    }

    /**
     * InsertKeyNode: the node becomes the new `keysStart`; it is also `keysEnd` when
     * the deque was empty.
     */
    method InsertKeyNode(node: NodeId)
      requires keysStart == First(order) && keysEnd == Last(order)
      modifies this
      ensures order == [node] + old(order)
      ensures keysStart == Some(node) && keysEnd == (if old(keysEnd).None? then Some(node) else old(keysEnd))
      ensures keysStart == First(order) && keysEnd == Last(order)
      ensures reusableNodes == old(reusableNodes) && nodeKey == old(nodeKey) && nextNode == old(nextNode)
    {
      order := [node] + order;
      keysStart := Some(node);
      if keysEnd.Some? {
        return;
      }
      keysEnd := Some(node);
    }

    /**
     * RemoveKeyNode: the node's neighbours are joined; `keysStart` moves to its
     * successor when it was the first node, `keysEnd` to its predecessor when it was
     * the last.
     */
    method RemoveKeyNode(node: NodeId)
      requires node in order && Distinct(order)
      requires keysStart == First(order) && keysEnd == Last(order)
      modifies this
      ensures order == Remove(old(order), node)
      ensures keysStart == First(order) && keysEnd == Last(order)
      ensures reusableNodes == old(reusableNodes) && nodeKey == old(nodeKey) && nextNode == old(nextNode)
    {
      var i := IndexOf(order, node);
      var prev := if i > 0 then Some(order[i - 1]) else None;
      var next := if i + 1 < |order| then Some(order[i + 1]) else None;
      assert keysStart == Some(node) <==> i == 0;
      assert keysEnd == Some(node) <==> i == |order| - 1 by {
        assert i < |order| - 1 ==> order[i] != order[|order| - 1];
      }
      if keysStart == Some(node) {
        keysStart := next;
      }
      if keysEnd == Some(node) {
        keysEnd := prev;
      }
      RemoveAt(order, i);
      order := order[..i] + order[i + 1..];
    }

    /** MarkInsertion: a newly allocated node for the key goes to the front. */
    method MarkInsertion(key: Key, entry: CacheEntry) returns (node: NodeId)
      requires Valid()
      modifies this, entry
      ensures Valid()
      ensures order == [node] + old(order) && Keys() == [key] + old(Keys())
      ensures node == old(nextNode) && nodeKey == old(nodeKey)[node := key]
      ensures reusableNodes == old(reusableNodes)
      ensures entry.extra == Some(node) && entry.value == old(entry.value)
    {
      node := nextNode;
      nextNode := nextNode + 1;
      nodeKey := nodeKey[node := key];
      InsertKeyNode(node);
      entry.extra := Some(node);
      FreshDistinct(old(order) + reusableNodes, node);
      assert order + reusableNodes == [node] + (old(order) + reusableNodes);
      KeysOfFresh(old(order), old(nodeKey), node, key);
    }

    /**
     * MarkAccess: throws when the entry's node holds another key; otherwise the node
     * becomes the most recently used, and nothing changes when it already was.
     */
    method MarkAccess(key: Key, entry: CacheEntry) returns (status: Status)
      requires Valid()
      requires entry.extra.Some? && entry.extra.value in order
      modifies this
      ensures Valid()
      ensures status == if old(nodeKey)[entry.extra.value] != key then Thrown(KEY_MISMATCH) else Ok
      ensures order == if status.Thrown? then old(order) else Touch(old(order), entry.extra.value)
      ensures reusableNodes == old(reusableNodes) && nodeKey == old(nodeKey) && nextNode == old(nextNode)
    {
      var target := entry.extra.value;
      if nodeKey[target] != key {
        return Thrown(KEY_MISMATCH);
      }
      if keysStart == Some(target) {
        TouchFront(order);
        return Ok;
      }
      DistinctPrefix(order, reusableNodes);
      RemoveKeyNode(target);
      InsertKeyNode(target);
      TouchDistinct(old(order), target);
      TouchKeepsApart(old(order), reusableNodes, target);
      assert order == Touch(old(order), target);
      return Ok;
    }

    /** EvictKeyNode: the node leaves the deque for the free list and its key is returned. */
    method EvictKeyNode(node: NodeId) returns (res: Key)
      requires Valid() && node in order
      modifies this
      ensures Valid()
      ensures res == old(nodeKey)[node]
      ensures order == Remove(old(order), node) && reusableNodes == [node] + old(reusableNodes)
      ensures nodeKey == old(nodeKey) && nextNode == old(nextNode)
    {
      res := nodeKey[node];
      DistinctPrefix(order, reusableNodes);
      RemoveKeyNode(node);
      ReclaimNode(node);
      MoveToFree(old(order), old(reusableNodes), node);
      assert order + reusableNodes == Remove(old(order), node) + ([node] + old(reusableNodes));
    }

    /** Evict(): the node at `keysEnd`, the least recently used, is evicted. */
    method Evict() returns (res: Key)
      requires Valid() && order != []
      modifies this
      ensures Valid()
      ensures res == old(Keys())[|old(Keys())| - 1]
      ensures order == old(order)[..|old(order)| - 1] && Keys() == old(Keys())[..|old(Keys())| - 1]
      ensures reusableNodes == [old(order)[|old(order)| - 1]] + old(reusableNodes)
      ensures nodeKey == old(nodeKey) && nextNode == old(nextNode)
    {
      var victim := keysEnd.value;
      DistinctPrefix(order, reusableNodes);
      RemoveAt(order, |order| - 1);
      assert order[..|order| - 1] + order[|order|..] == order[..|order| - 1];
      res := EvictKeyNode(victim);
      KeysOfPrefix(old(order), nodeKey);
    }

    /** Evict(cacheEntry): exactly the entry's node is evicted; the others keep their order. */
    method EvictEntry(entry: CacheEntry) returns (res: Key)
      requires Valid() && entry.extra.Some? && entry.extra.value in order
      modifies this
      ensures Valid()
      ensures res == old(nodeKey)[entry.extra.value]
      ensures order == Remove(old(order), entry.extra.value)
      ensures reusableNodes == [entry.extra.value] + old(reusableNodes)
      ensures nodeKey == old(nodeKey) && nextNode == old(nextNode)
    {
      res := EvictKeyNode(entry.extra.value);
    }

    /** ReclaimNode: the node goes to the front of the free list. */
    method ReclaimNode(node: NodeId)
      modifies this
      ensures reusableNodes == [node] + old(reusableNodes)
      ensures order == old(order) && keysStart == old(keysStart) && keysEnd == old(keysEnd)
      ensures nodeKey == old(nodeKey) && nextNode == old(nextNode)
    {
      reusableNodes := [node] + reusableNodes;
    }

    /**
     * NewKeyNode: pops the node reclaimed last and overwrites its key, allocating only
     * when the free list is empty. (MarkInsertion does not use it.)
     */
    method NewKeyNode(key: Key) returns (node: NodeId)
      requires Valid()
      modifies this
      ensures old(reusableNodes) == [] ==>
        node == old(nextNode) && nextNode == old(nextNode) + 1 && reusableNodes == []
      ensures old(reusableNodes) != [] ==>
        node == old(reusableNodes)[0] && nextNode == old(nextNode)
        && reusableNodes == old(reusableNodes)[1..]
      ensures nodeKey == old(nodeKey)[node := key] && order == old(order)
      ensures Valid() && node !in order + reusableNodes
    {
      if reusableNodes == [] {
        node := nextNode;
        nextNode := nextNode + 1;
      } else {
        node := reusableNodes[0];
        assert node in nodeKey;
        PopFree(order, reusableNodes);
        reusableNodes := reusableNodes[1..];
      }
      nodeKey := nodeKey[node := key];
    }
  }

  // ---------------------------------------------------------------------------
  // The recency order
  // ---------------------------------------------------------------------------

  /** Accessing the most recently used node leaves the order as it is. */
  lemma TouchFront(s: seq<NodeId>)
    requires s != []
    ensures Touch(s, s[0]) == s
  {
    assert s == [s[0]] + s[1..];
  }

  /** Touching keeps the same nodes and keeps them distinct. */
  lemma TouchDistinct(s: seq<NodeId>, x: NodeId)
    requires Distinct(s) && x in s
    ensures multiset(Touch(s, x)) == multiset(s) && Distinct(Touch(s, x))
    ensures forall y :: y in Touch(s, x) <==> y in s
  {
    RemoveMultiset(s, x);
    forall y ensures y in Touch(s, x) <==> y in s {
      assert y in Touch(s, x) <==> y in multiset(Touch(s, x));
    }
    RemoveDistinct(s, x);
    DistinctCons(x, Remove(s, x));
  }

  /** The other nodes keep their relative order: taking `x` out again gives the same list. */
  lemma TouchKeepsOthers(s: seq<NodeId>, x: NodeId)
    ensures Remove(Touch(s, x), x) == Remove(s, x)
  {
    assert Touch(s, x)[0] == x && Touch(s, x)[1..] == Remove(s, x);
  }

  /** Right after an access, the accessed node is not the eviction victim (when it has company). */
  lemma TouchedNotVictim(s: seq<NodeId>, x: NodeId)
    requires Distinct(s) && x in s && |s| >= 2
    ensures Last(Touch(s, x)) != Some(x)
  {
    RemoveDistinct(s, x);
    var r := Remove(s, x);
    assert |r| == |s| - 1;
    assert Touch(s, x)[|s| - 1] == r[|r| - 1];
  }

  // ---------------------------------------------------------------------------
  // Helpers for the invariant
  // ---------------------------------------------------------------------------

  lemma DistinctPrefix(a: seq<NodeId>, b: seq<NodeId>)
    requires Distinct(a + b)
    ensures Distinct(a) && Distinct(b)
  {
    assert forall i :: 0 <= i < |a| ==> (a + b)[i] == a[i];
    assert forall i :: 0 <= i < |b| ==> (a + b)[|a| + i] == b[i];
  }

  lemma FreshDistinct(s: seq<NodeId>, x: NodeId)
    requires Distinct(s) && x !in s
    ensures Distinct([x] + s)
  {
    DistinctCons(x, s);
  }

  /** The two parts of a distinct list share no element. */
  lemma Apart(a: seq<NodeId>, b: seq<NodeId>, x: NodeId)
    requires Distinct(a + b) && x in a
    ensures x !in b
  {
    var i :| 0 <= i < |a| && a[i] == x;
    forall j | 0 <= j < |b| ensures b[j] != x {
      assert (a + b)[i] != (a + b)[|a| + j];
    }
  }

  /** A distinct list built from two distinct, disjoint parts. */
  lemma Join(a: seq<NodeId>, b: seq<NodeId>)
    requires Distinct(a) && Distinct(b) && forall x :: x in a ==> x !in b
    ensures Distinct(a + b)
  {
    forall i, j | 0 <= i < j < |a + b| ensures (a + b)[i] != (a + b)[j] {
      if i < |a| <= j {
        assert (a + b)[i] in a && (a + b)[j] == b[j - |a|];
      } else if |a| <= i {
        assert (a + b)[i] == b[i - |a|] && (a + b)[j] == b[j - |a|];
      }
    }
  }

  lemma TouchKeepsApart(s: seq<NodeId>, free: seq<NodeId>, x: NodeId)
    requires Distinct(s + free) && x in s
    ensures Distinct(Touch(s, x) + free)
  {
    DistinctPrefix(s, free);
    TouchDistinct(s, x);
    forall y | y in Touch(s, x) ensures y !in free {
      assert y in multiset(s);
      Apart(s, free, y);
    }
    Join(Touch(s, x), free);
  }

  lemma MoveToFree(s: seq<NodeId>, free: seq<NodeId>, x: NodeId)
    requires Distinct(s + free) && x in s
    ensures Distinct(Remove(s, x) + ([x] + free))
    ensures forall y :: y in Remove(s, x) ==> y in s
  {
    var r := Remove(s, x);
    DistinctPrefix(s, free);
    RemoveDistinct(s, x);
    RemoveSubset(s, x);
    Apart(s, free, x);
    DistinctCons(x, free);
    forall y | y in r ensures y !in [x] + free {
      Apart(s, free, y);
    }
    Join(r, [x] + free);
  }

  lemma PopFree(s: seq<NodeId>, free: seq<NodeId>)
    requires Distinct(s + free) && free != []
    ensures Distinct(s + free[1..]) && free[0] !in s + free[1..]
  {
    DistinctPrefix(s, free);
    assert free == [free[0]] + free[1..];
    assert free[0] !in s by {
      if free[0] in s {
        Apart(s, free, free[0]);
      }
    }
    assert free[0] !in free[1..] by {
      assert forall k :: 0 <= k < |free| - 1 ==> free[1..][k] == free[k + 1];
    }
    DistinctPrefix([free[0]], free[1..]);
    forall y | y in s ensures y !in free[1..] {
      Apart(s, free, y);
    }
    Join(s, free[1..]);
  }

  lemma KeysOfFresh(s: seq<NodeId>, keys: map<NodeId, Key>, x: NodeId, k: Key)
    requires forall n :: n in s ==> n in keys
    requires x !in s
    ensures KeysOf([x] + s, keys[x := k]) == [k] + KeysOf(s, keys)
  {
  }

  lemma KeysOfPrefix(s: seq<NodeId>, keys: map<NodeId, Key>)
    requires forall n :: n in s ==> n in keys
    requires s != []
    ensures KeysOf(s[..|s| - 1], keys) == KeysOf(s, keys)[..|s| - 1]
  {
  }
}
