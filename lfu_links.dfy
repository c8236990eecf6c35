/**
 * The frequency-node links of db/cache/policies/lfu_policy.cc at the pointer level.
 *
 * LfuPolicies keeps the bucket list as a sequence, so every bucket's `prev` is right by
 * construction. Here each frequency node is a record at an address, holding the `prev`
 * and `next` addresses the source stores, and each operation rewires them as the source
 * does. Key nodes stay a sequence per bucket (their own links are kept right by AddKey
 * and RemoveKey); `owner` is each key node's `frequencyNode`. The free list of key nodes
 * is not part of this view.
 *
 * A `Version` selects the code as written or the code with two corrections: line 95
 * also sets the old successor's `prev` to the new bucket, and line 112 moves the
 * bucket's head only when the evicted node is the head.
 */
module LfuLinks {
  import opened Options
  import opened Seqs
  import opened CacheEntries
  import opened LfuBuckets

  /** The address of a frequency node. */
  type Addr = nat

  datatype Bucket = Bucket(frequency: nat, keys: seq<NodeId>, prev: Option<Addr>, next: Option<Addr>)

  /**
   * The live frequency nodes by address, the head `frequencies`, the `frequencyNode` of
   * every key node linked into a bucket, and the address the next `new` hands out.
   */
  datatype Links = Links(heap: map<Addr, Bucket>, frequencies: Option<Addr>, owner: map<NodeId, Addr>, nextAddr: Addr)

  /** How an operation ends: the new state, or Fault when it dereferences a freed bucket. */
  datatype Run = Done(links: Links) | Fault

  datatype Version = AsWritten | Corrected

  /** The state the constructor leaves: no bucket at all. */
  const Empty: Links := Links(map[], None, map[], 0)

  /** lfu_frequency_node::AddKey on the bucket at `a`: the node heads its key list. */
  function AddKey(s: Links, a: Addr, node: NodeId): (t: Links)
    requires a in s.heap
    ensures t.heap.Keys == s.heap.Keys && t.frequencies == s.frequencies && t.nextAddr == s.nextAddr
    ensures a in t.heap && t.heap[a].keys == [node] + s.heap[a].keys && node in t.owner && t.owner[node] == a
  {
    s.(heap := s.heap[a := s.heap[a].(keys := [node] + s.heap[a].keys)], owner := s.owner[node := a])
  }

  /**
   * MarkInsertion: the node joins the frequency-1 bucket at the head, which is created
   * in front of the old head (whose `prev` is set to it) when missing.
   */
  function MarkInsertion(s: Links, node: NodeId): Run
  {
    var head := s.frequencies;
    if head.Some? && head.value !in s.heap then Fault
    else if head.Some? && s.heap[head.value].frequency == 1 then Done(AddKey(s, head.value, node))
    else
      var a := s.nextAddr;
      var heap := if head.Some? then s.heap[head.value := s.heap[head.value].(prev := Some(a))] else s.heap;
      Done(AddKey(Links(heap[a := Bucket(1, [], None, head)], Some(a), s.owner, a + 1), a, node))
  }

  /**
   * MarkAccess: the node moves from its bucket b to the bucket of the next frequency,
   * which is reused when it follows b and otherwise created between b and b's successor.
   * As written, the successor's `prev` is left on b.
   */
  function MarkAccess(s: Links, node: NodeId, v: Version): Run
  {
    if node !in s.owner || s.owner[node] !in s.heap then Fault
    else
      var b := s.owner[node];
      var f := s.heap[b];
      var succ := f.next;
      if succ.Some? && succ.value !in s.heap then Fault
      else if succ.Some? && s.heap[succ.value].frequency == f.frequency + 1 then Exchange(s, b, node, succ.value)
      else Exchange(LinkAfter(s, b, v), b, node, s.nextAddr)
  }

  /**
   * A new bucket of the next frequency at `nextAddr`, linked after bucket b and before
   * b's successor. As written, the successor's `prev` is left on b.
   */
  function LinkAfter(s: Links, b: Addr, v: Version): (t: Links)
    requires b in s.heap && (s.heap[b].next.None? || s.heap[b].next.value in s.heap)
    ensures b in t.heap && s.nextAddr in t.heap && t.heap.Keys == s.heap.Keys + {s.nextAddr}
    ensures t.heap[s.nextAddr] == Bucket(s.heap[b].frequency + 1, [], Some(b), s.heap[b].next)
    ensures b != s.nextAddr ==> t.heap[b].next == Some(s.nextAddr) && t.heap[b].keys == s.heap[b].keys
    ensures t.owner == s.owner && t.frequencies == s.frequencies && t.nextAddr == s.nextAddr + 1
  {
    var f := s.heap[b];
    var a := s.nextAddr;
    var heap := s.heap[b := f.(next := Some(a))];
    var relinked := if v == Corrected && f.next.Some? then heap[f.next.value := heap[f.next.value].(prev := Some(a))] else heap;
    Links(relinked[a := Bucket(f.frequency + 1, [], Some(b), f.next)], s.frequencies, s.owner, a + 1)
  }

  /** ExchangeKey from bucket b to bucket t, then the unlink of b when that empties it. */
  function Exchange(s: Links, b: Addr, node: NodeId, t: Addr): Run
    requires b in s.heap && t in s.heap
  {
    var removed := s.(heap := s.heap[b := s.heap[b].(keys := Remove(s.heap[b].keys, node))]);
    var moved := AddKey(removed, t, node);
    if moved.heap[b].keys == [] then DeleteFrequencyNode(moved, b) else Done(moved)
  }

  /**
   * DeleteFrequencyNode: the neighbours named by b's own `prev` and `next` are joined,
   * the head advances when it is b, and b is freed. Each field is read when the source
   * reads it.
   */
  function DeleteFrequencyNode(s: Links, b: Addr): Run
    requires b in s.heap
  {
    var p := s.heap[b].prev;
    if p.Some? && p.value !in s.heap then Fault
    else
      var h1 := if p.Some? then s.heap[p.value := s.heap[p.value].(next := s.heap[b].next)] else s.heap;
      var n := h1[b].next;
      if n.Some? && n.value !in h1 then Fault
      else
        var h2 := if n.Some? then h1[n.value := h1[n.value].(prev := h1[b].prev)] else h1;
        var head := if s.frequencies == Some(b) then h2[b].next else s.frequencies;
        Done(s.(heap := h2 - {b}, frequencies := head))
  }

  /**
   * EvictKeyNode: the node leaves its bucket and its `frequencyNode` is cleared; the
   * bucket is unlinked when that empties it. As written, the bucket's head becomes the
   * node's successor wherever the node was.
   */
  function EvictKeyNode(s: Links, node: NodeId, v: Version): Run
  {
    if node !in s.owner || s.owner[node] !in s.heap then Fault
    else
      var b := s.owner[node];
      var keys := s.heap[b].keys;
      var keys' := if v == AsWritten && node in keys then keys[IndexOf(keys, node) + 1..] else Remove(keys, node);
      var t := s.(heap := s.heap[b := s.heap[b].(keys := keys')], owner := s.owner - {node});
      if keys' == [] then DeleteFrequencyNode(t, b) else Done(t)
  }

  /** The policy calls a run is made of: MarkInsertion, MarkAccess and Evict(cacheEntry). */
  datatype Op = Insert(node: NodeId) | Access(node: NodeId) | EvictEntry(node: NodeId)

  function Apply(s: Links, op: Op, v: Version): Run
  {
    match op
    case Insert(n) => MarkInsertion(s, n)
    case Access(n) => MarkAccess(s, n, v)
    case EvictEntry(n) => EvictKeyNode(s, n, v)
  }

  /** A run of calls from state `s`; a fault ends it. */
  function Replay(s: Links, ops: seq<Op>, v: Version): Run
    decreases |ops|
  {
    if ops == [] then Done(s)
    else
      match Apply(s, ops[0], v)
      case Fault => Fault
      case Done(t) => Replay(t, ops[1..], v)
  }

  /** The buckets met by following `next` from `at`, at most `fuel` of them, up to null or a freed bucket. */
  function Chain(heap: map<Addr, Bucket>, at: Option<Addr>, fuel: nat): seq<FrequencyNode>
    decreases fuel
  {
    if fuel == 0 || at.None? || at.value !in heap then []
    else [FrequencyNode(heap[at.value].frequency, heap[at.value].keys)] + Chain(heap, heap[at.value].next, fuel - 1)
  }

  /** The bucket list Evict() and every later call can reach from `frequencies`. */
  function View(s: Links): seq<FrequencyNode>
  {
    Chain(s.heap, s.frequencies, s.nextAddr)
  }

  /** The same calls on the sequence model that LfuPolicies.LfuPolicy is proved against. */
  function ModelApply(fs: seq<FrequencyNode>, op: Op): seq<FrequencyNode>
  {
    match op
    case Insert(n) => InsertNode(fs, n)
    case Access(n) => if n in Nodes(fs) then Promote(fs, BucketIndex(fs, n), n) else fs
    case EvictEntry(n) => if n in Nodes(fs) then EvictAt(fs, BucketIndex(fs, n), n) else fs
  }

  function ModelReplay(fs: seq<FrequencyNode>, ops: seq<Op>): seq<FrequencyNode>
    decreases |ops|
  {
    if ops == [] then fs else ModelReplay(ModelApply(fs, ops[0]), ops[1..])
  }

  /**
   * MarkInsertion faults only on a freed head. Otherwise the node heads a frequency-1
   * bucket at the front of the list; a bucket created in front of the old head becomes
   * that head's `prev`.
   */
  lemma InsertionHeadsFrequencyOne(s: Links, node: NodeId)
    ensures MarkInsertion(s, node) == Fault <==> s.frequencies.Some? && s.frequencies.value !in s.heap
    ensures var r := MarkInsertion(s, node);
      r.Done? ==> && r.links.frequencies.Some? && r.links.frequencies.value in r.links.heap
                  && var h := r.links.heap[r.links.frequencies.value];
                  && h.frequency == 1
                  && h.keys == [node] + (if s.frequencies.Some? && s.frequencies.value in s.heap && s.heap[s.frequencies.value].frequency == 1
                                         then s.heap[s.frequencies.value].keys else [])
                  && node in r.links.owner && r.links.owner[node] == r.links.frequencies.value
    ensures var r := MarkInsertion(s, node);
      r.Done? && s.frequencies.Some? && s.heap[s.frequencies.value].frequency != 1 && s.nextAddr !in s.heap ==>
        s.frequencies.value in r.links.heap && r.links.heap[s.frequencies.value].prev == r.links.frequencies
  {
    var head := s.frequencies;
    if head.Some? && head.value in s.heap && s.heap[head.value].frequency != 1 {
      var a := s.nextAddr;
      var heap := s.heap[head.value := s.heap[head.value].(prev := Some(a))];
      var l := Links(heap[a := Bucket(1, [], None, head)], Some(a), s.owner, a + 1);
      assert MarkInsertion(s, node) == Done(AddKey(l, a, node));
      if a !in s.heap {
        assert AddKey(l, a, node).heap[head.value] == l.heap[head.value];
      }
    }
  }

  /**
   * DeleteFrequencyNode faults on a freed `prev`. Otherwise it frees exactly bucket b,
   * changes only the links of the others, and leaves every key node's bucket as it was.
   */
  lemma DeleteFreesBucket(s: Links, b: Addr)
    requires b in s.heap
    ensures s.heap[b].prev.Some? && s.heap[b].prev.value !in s.heap ==> DeleteFrequencyNode(s, b) == Fault
    ensures var r := DeleteFrequencyNode(s, b);
      r.Done? ==> && r.links.heap.Keys == s.heap.Keys - {b} && r.links.owner == s.owner && r.links.nextAddr == s.nextAddr
                  && forall a :: a in r.links.heap ==>
                       r.links.heap[a].frequency == s.heap[a].frequency && r.links.heap[a].keys == s.heap[a].keys
  {
  }

  /** An exchange between two buckets puts the node at the head of t and leaves t's frequency alone. */
  lemma ExchangeMovesNode(s: Links, b: Addr, node: NodeId, t: Addr)
    requires b in s.heap && t in s.heap && b != t
    ensures var r := Exchange(s, b, node, t);
      r.Done? ==> && t in r.links.heap && r.links.heap[t].frequency == s.heap[t].frequency
                  && r.links.heap[t].keys == [node] + s.heap[t].keys && r.links.owner == s.owner[node := t]
  {
    var removed := s.(heap := s.heap[b := s.heap[b].(keys := Remove(s.heap[b].keys, node))]);
    var moved := AddKey(removed, t, node);
    assert moved.heap[t] == s.heap[t].(keys := [node] + s.heap[t].keys);
    assert moved.owner == s.owner[node := t];
    if moved.heap[b].keys == [] {
      DeleteFreesBucket(moved, b);
    }
  }

  /**
   * MarkAccess faults on an untracked node. When it completes, the node heads a bucket
   * whose frequency is one more than its old bucket's, in either version.
   */
  lemma AccessRaisesFrequency(s: Links, node: NodeId, v: Version)
    requires s.nextAddr !in s.heap
    ensures node !in s.owner ==> MarkAccess(s, node, v) == Fault
    ensures var r := MarkAccess(s, node, v);
      r.Done? ==> && node in s.owner && s.owner[node] in s.heap
                  && node in r.links.owner && r.links.owner[node] in r.links.heap
                  && r.links.heap[r.links.owner[node]].frequency == s.heap[s.owner[node]].frequency + 1
                  && r.links.heap[r.links.owner[node]].keys[0] == node
  {
    if node in s.owner && s.owner[node] in s.heap {
      var b := s.owner[node];
      var f := s.heap[b];
      var succ := f.next;
      if succ.Some? && succ.value in s.heap && s.heap[succ.value].frequency == f.frequency + 1 {
        ExchangeMovesNode(s, b, node, succ.value);
      } else if succ.None? || succ.value in s.heap {
        AccessCreatesBucket(s, node, v);
      }
    }
  }

  /** The case of AccessRaisesFrequency where the bucket of the next frequency is created. */
  lemma AccessCreatesBucket(s: Links, node: NodeId, v: Version)
    requires s.nextAddr !in s.heap && node in s.owner && s.owner[node] in s.heap
    requires var f := s.heap[s.owner[node]];
      (f.next.None? || f.next.value in s.heap) && !(f.next.Some? && s.heap[f.next.value].frequency == f.frequency + 1)
    ensures var r := MarkAccess(s, node, v);
      r.Done? ==> && node in r.links.owner && r.links.owner[node] == s.nextAddr && s.nextAddr in r.links.heap
                  && r.links.heap[s.nextAddr].frequency == s.heap[s.owner[node]].frequency + 1
                  && r.links.heap[s.nextAddr].keys == [node]
  {
    var b := s.owner[node];
    var l := LinkAfter(s, b, v);
    assert l.heap[s.nextAddr] == Bucket(s.heap[b].frequency + 1, [], Some(b), s.heap[b].next);
    ExchangeMovesNode(l, b, node, s.nextAddr);
  }

  /**
   * Evict(cacheEntry) faults on an untracked node. When it completes, the node's
   * `frequencyNode` is cleared; corrected, a bucket that survives loses exactly the node.
   */
  lemma EvictClearsOwner(s: Links, node: NodeId, v: Version)
    ensures node !in s.owner ==> EvictKeyNode(s, node, v) == Fault
    ensures var r := EvictKeyNode(s, node, v);
      r.Done? ==> && node in s.owner && r.links.owner == s.owner - {node} && r.links.nextAddr == s.nextAddr
                  && (v == Corrected && s.owner[node] in r.links.heap ==>
                        r.links.heap[s.owner[node]].keys == Remove(s.heap[s.owner[node]].keys, node))
  {
    if node in s.owner && s.owner[node] in s.heap {
      var b := s.owner[node];
      var keys := s.heap[b].keys;
      var keys' := if v == AsWritten && node in keys then keys[IndexOf(keys, node) + 1..] else Remove(keys, node);
      var t := s.(heap := s.heap[b := s.heap[b].(keys := keys')], owner := s.owner - {node});
      if keys' == [] {
        DeleteFreesBucket(t, b);
      }
    }
  }

  /**
   * When MarkAccess creates the bucket of the next frequency in front of an existing
   * successor whose `prev` is the old bucket, the code as written leaves that `prev` on
   * the old bucket (freed, if the access emptied it), while the new bucket's `next` is
   * the successor; the corrected code points the successor's `prev` at the new bucket.
   */
  lemma StaleBackLink(s: Links, node: NodeId)
    requires node in s.owner && s.owner[node] in s.heap && s.nextAddr !in s.heap
    requires var f := s.heap[s.owner[node]];
      && f.next.Some? && f.next.value in s.heap && f.next.value != s.owner[node]
      && s.heap[f.next.value].frequency != f.frequency + 1 && s.heap[f.next.value].prev == Some(s.owner[node])
      && (f.prev.None? || f.prev.value in s.heap)
    ensures var b, succ, a := s.owner[node], s.heap[s.owner[node]].next.value, s.nextAddr;
      && MarkAccess(s, node, AsWritten).Done?
      && var t := MarkAccess(s, node, AsWritten).links;
      && a in t.heap && succ in t.heap && t.heap[a].next == Some(succ)
      && t.heap[succ].prev == Some(b) && b != a
    ensures var succ, a := s.heap[s.owner[node]].next.value, s.nextAddr;
      && MarkAccess(s, node, Corrected).Done?
      && var t := MarkAccess(s, node, Corrected).links;
      && a in t.heap && succ in t.heap && t.heap[a].next == Some(succ) && t.heap[succ].prev == Some(a)
  {
    NewBucketLinks(s, node, AsWritten);
    NewBucketLinks(s, node, Corrected);
  }

  /** The links around the new bucket after the exchange, and after the unlink of an emptied bucket. */
  lemma NewBucketLinks(s: Links, node: NodeId, v: Version)
    requires node in s.owner && s.owner[node] in s.heap && s.nextAddr !in s.heap
    requires var f := s.heap[s.owner[node]];
      && f.next.Some? && f.next.value in s.heap && f.next.value != s.owner[node]
      && s.heap[f.next.value].frequency != f.frequency + 1 && s.heap[f.next.value].prev == Some(s.owner[node])
      && (f.prev.None? || f.prev.value in s.heap)
    ensures var b, succ, a := s.owner[node], s.heap[s.owner[node]].next.value, s.nextAddr;
      && MarkAccess(s, node, v).Done?
      && var t := MarkAccess(s, node, v).links;
      && a in t.heap && succ in t.heap && t.heap[a].next == Some(succ)
      && t.heap[succ].prev == (if v == Corrected then Some(a) else Some(b))
  {
    var b := s.owner[node];
    var f := s.heap[b];
    var succ := f.next.value;
    var a := s.nextAddr;
    var heap := s.heap[b := f.(next := Some(a))];
    var relinked := if v == Corrected then heap[succ := heap[succ].(prev := Some(a))] else heap;
    var l := Links(relinked[a := Bucket(f.frequency + 1, [], Some(b), Some(succ))], s.frequencies, s.owner, a + 1);
    assert MarkAccess(s, node, v) == Exchange(l, b, node, a);
    var removed := l.(heap := l.heap[b := l.heap[b].(keys := Remove(l.heap[b].keys, node))]);
    var moved := AddKey(removed, a, node);
    assert moved.heap[succ] == l.heap[succ] && moved.heap[a].next == Some(succ);
    assert moved.heap[b].prev == f.prev && moved.heap[b].next == Some(a);
    if moved.heap[b].keys == [] {
      var pr := f.prev;
      assert pr.None? || (pr.value in moved.heap && pr.value != a);
      var h1 := if pr.Some? then moved.heap[pr.value := moved.heap[pr.value].(next := Some(a))] else moved.heap;
      assert h1[b].next == Some(a) && h1[b].prev == f.prev && a in h1;
      assert h1[succ].prev == moved.heap[succ].prev && h1[a].next == Some(succ);
      var h2 := h1[a := h1[a].(prev := f.prev)];
      assert DeleteFrequencyNode(moved, b).Done? && DeleteFrequencyNode(moved, b).links.heap == h2 - {b};
      assert (h2 - {b})[succ] == h1[succ] && (h2 - {b})[a].next == Some(succ);
    } else {
      assert MarkAccess(s, node, v) == Done(moved);
      assert moved.heap[succ].prev == relinked[succ].prev;
    }
  }

  // ---------------------------------------------------------------------------
  // Runs from an empty policy. Key nodes: c = 0, a = 1, b = 2. Each call is taken
  // in the phases the source goes through: the new bucket is linked, the key moves,
  // and an emptied bucket is unlinked; a run is then followed one call at a time.
  // ---------------------------------------------------------------------------

  /** One call of a run: a call that ends with `t` leaves the rest of the run to start from `t`. */
  lemma ReplayStep(s: Links, op: Op, rest: seq<Op>, v: Version, t: Links)
    requires Apply(s, op, v) == Done(t)
    ensures Replay(s, [op] + rest, v) == Replay(t, rest, v)
  {
    assert ([op] + rest)[1..] == rest;
  }

  /** After inserting c: bucket 1 holds it. */
  const AfterInsertC: Links := Links(map[0 := Bucket(1, [0], None, None)], Some(0), map[0 := 0], 1)

  /** After accessing c once. */
  const AfterAccessC: Links := Links(map[1 := Bucket(2, [0], None, None)], Some(1), map[0 := 1], 2)

  /** After accessing c twice: bucket 3 alone. */
  const AfterC: Links := Links(map[2 := Bucket(3, [0], None, None)], Some(2), map[0 := 2], 3)

  /** Then inserting a: bucket 1 in front of bucket 3, whose `prev` names it. */
  const AfterCA: Links :=
    Links(map[2 := Bucket(3, [0], Some(3), None), 3 := Bucket(1, [1], None, Some(2))], Some(3), map[0 := 2, 1 := 3], 4)

  /** Then inserting b into bucket 1. */
  const AfterCAB: Links :=
    Links(map[2 := Bucket(3, [0], Some(3), None), 3 := Bucket(1, [2, 1], None, Some(2))], Some(3), map[0 := 2, 1 := 3, 2 := 3], 4)

  /**
   * Then accessing a: the new bucket 2 sits between buckets 1 and 3. As written,
   * bucket 3's `prev` still names bucket 1; corrected, it names bucket 2.
   */
  function Linked(v: Version): Links
  {
    Links(map[2 := Bucket(3, [0], if v == AsWritten then Some(3) else Some(4), None), 3 := Bucket(1, [2], None, Some(4)),
              4 := Bucket(2, [1], Some(3), Some(2))],
          Some(3), map[0 := 2, 1 := 4, 2 := 3], 5)
  }

  lemma InsertFirst(v: Version)
    ensures Apply(Empty, Insert(0), v) == Done(AfterInsertC)
  {
    assert [0] + [] == [0];
    assert map[][0 := 0] == map[0 := 0];
  }

  lemma AccessFirst(v: Version)
    ensures Apply(AfterInsertC, Access(0), v) == Done(AfterAccessC)
  {
    assert [0] + [] == [0];
    assert map[0 := 0][0 := 1] == map[0 := 1];
    var h := map[0 := Bucket(1, [], None, Some(1)), 1 := Bucket(2, [0], None, None)];
    assert h - {0} == map[1 := Bucket(2, [0], None, None)];
  }

  lemma AccessSecond(v: Version)
    ensures Apply(AfterAccessC, Access(0), v) == Done(AfterC)
  {
    assert [0] + [] == [0];
    assert map[0 := 1][0 := 2] == map[0 := 2];
    var h := map[1 := Bucket(2, [], None, Some(2)), 2 := Bucket(3, [0], None, None)];
    assert h - {1} == map[2 := Bucket(3, [0], None, None)];
  }

  lemma InsertSecond(v: Version)
    ensures Apply(AfterC, Insert(1), v) == Done(AfterCA)
  {
    assert [1] + [] == [1];
  }

  lemma InsertThird(v: Version)
    ensures Apply(AfterCA, Insert(2), v) == Done(AfterCAB)
  {
    assert [2] + [1] == [2, 1];
  }

  /** Two calls of a run, each ending as given. */
  lemma ReplayTwo(s: Links, o1: Op, o2: Op, rest: seq<Op>, v: Version, t1: Links, t2: Links)
    requires Apply(s, o1, v) == Done(t1) && Apply(t1, o2, v) == Done(t2)
    ensures Replay(s, [o1, o2] + rest, v) == Replay(t2, rest, v)
  {
    ReplayStep(t1, o2, rest, v, t2);
    ReplayStep(s, o1, [o2] + rest, v, t1);
    assert [o1, o2] + rest == [o1] + ([o2] + rest);
  }

  /** Four calls of a run, each ending as given. */
  lemma ReplayFour(s: Links, o1: Op, o2: Op, o3: Op, o4: Op, rest: seq<Op>, v: Version, t1: Links, t2: Links, t3: Links, t4: Links)
    requires Apply(s, o1, v) == Done(t1) && Apply(t1, o2, v) == Done(t2)
    requires Apply(t2, o3, v) == Done(t3) && Apply(t3, o4, v) == Done(t4)
    ensures Replay(s, [o1, o2, o3, o4] + rest, v) == Replay(t4, rest, v)
  {
    ReplayTwo(t2, o3, o4, rest, v, t3, t4);
    ReplayTwo(s, o1, o2, [o3, o4] + rest, v, t1, t2);
    assert [o1, o2, o3, o4] + rest == [o1, o2] + ([o3, o4] + rest);
  }

  /** Either version reaches AfterCA from an empty policy in the same way. */
  lemma ReachCA(rest: seq<Op>, v: Version)
    ensures Replay(Empty, [Insert(0), Access(0), Access(0), Insert(1)] + rest, v) == Replay(AfterCA, rest, v)
  {
    InsertFirst(v);
    AccessFirst(v);
    AccessSecond(v);
    InsertSecond(v);
    ReplayFour(Empty, Insert(0), Access(0), Access(0), Insert(1), rest, v, AfterInsertC, AfterAccessC, AfterC, AfterCA);
  }

  /** Accessing a in bucket 1, followed by bucket 3: bucket 2 is linked in, as written or corrected. */
  lemma LinkBucketTwo(v: Version)
    ensures MarkAccess(AfterCAB, 1, v) == Exchange(
      Links(map[2 := Bucket(3, [0], if v == AsWritten then Some(3) else Some(4), None), 3 := Bucket(1, [2, 1], None, Some(4)),
                4 := Bucket(2, [], Some(3), Some(2))],
            Some(3), map[0 := 2, 1 := 3, 2 := 3], 5), 3, 1, 4)
  {
  }

  /** Then a moves to bucket 2, and bucket 1 keeps b. */
  lemma MoveToBucketTwo(v: Version)
    ensures Exchange(
      Links(map[2 := Bucket(3, [0], if v == AsWritten then Some(3) else Some(4), None), 3 := Bucket(1, [2, 1], None, Some(4)),
                4 := Bucket(2, [], Some(3), Some(2))],
            Some(3), map[0 := 2, 1 := 3, 2 := 3], 5), 3, 1, 4)
      == Done(Linked(v))
  {
    assert Remove([2, 1], 1) == [2];
    assert [1] + [] == [1];
  }

  /** Inserting b and accessing a from AfterCA. */
  lemma ReachLinked(rest: seq<Op>, v: Version)
    ensures Replay(AfterCA, [Insert(2), Access(1)] + rest, v) == Replay(Linked(v), rest, v)
  {
    InsertThird(v);
    LinkBucketTwo(v);
    MoveToBucketTwo(v);
    ReplayTwo(AfterCA, Insert(2), Access(1), rest, v, AfterCAB, Linked(v));
  }

  /** Bucket 3 after c left it for the new bucket 4, as written or corrected. */
  function LeftThree(v: Version): Links
  {
    Links(map[2 := Bucket(3, [], if v == AsWritten then Some(3) else Some(4), Some(5)), 3 := Bucket(1, [2], None, Some(4)),
              4 := Bucket(2, [1], Some(3), Some(2)), 5 := Bucket(4, [0], Some(2), None)],
          Some(3), map[0 := 5, 1 := 4, 2 := 3], 6)
  }

  /** Accessing c in bucket 3, which ends the list: bucket 4 is linked after it. */
  lemma LinkBucketFour(v: Version)
    ensures MarkAccess(Linked(v), 0, v) == Exchange(
      Links(map[2 := Bucket(3, [0], if v == AsWritten then Some(3) else Some(4), Some(5)), 3 := Bucket(1, [2], None, Some(4)),
                4 := Bucket(2, [1], Some(3), Some(2)), 5 := Bucket(4, [], Some(2), None)],
            Some(3), map[0 := 2, 1 := 4, 2 := 3], 6), 2, 0, 5)
  {
    var h := Linked(v).heap;
    assert h[2].next == None && h[2].frequency == 3;
    assert h[2 := h[2].(next := Some(5))][5 := Bucket(4, [], Some(2), None)]
      == map[2 := Bucket(3, [0], if v == AsWritten then Some(3) else Some(4), Some(5)), 3 := Bucket(1, [2], None, Some(4)),
             4 := Bucket(2, [1], Some(3), Some(2)), 5 := Bucket(4, [], Some(2), None)];
  }

  /** Then c moves to bucket 4, emptying bucket 3. */
  lemma MoveToBucketFour(v: Version)
    ensures Exchange(
      Links(map[2 := Bucket(3, [0], if v == AsWritten then Some(3) else Some(4), Some(5)), 3 := Bucket(1, [2], None, Some(4)),
                4 := Bucket(2, [1], Some(3), Some(2)), 5 := Bucket(4, [], Some(2), None)],
            Some(3), map[0 := 2, 1 := 4, 2 := 3], 6), 2, 0, 5)
      == DeleteFrequencyNode(LeftThree(v), 2)
  {
    var p3 := if v == AsWritten then Some(3) else Some(4);
    var h := map[2 := Bucket(3, [0], p3, Some(5)), 3 := Bucket(1, [2], None, Some(4)),
                 4 := Bucket(2, [1], Some(3), Some(2)), 5 := Bucket(4, [], Some(2), None)];
    assert Remove([0], 0) == [] && [0] + [] == [0];
    assert h[2 := h[2].(keys := [])][5 := Bucket(4, [0], Some(2), None)] == LeftThree(v).heap;
    assert map[0 := 2, 1 := 4, 2 := 3][0 := 5] == LeftThree(v).owner;
  }

  /** As written, unlinking bucket 3 through its `prev` joins bucket 1 to bucket 4: bucket 2 is skipped. */
  const LostAsWritten: Links :=
    Links(map[3 := Bucket(1, [2], None, Some(5)), 4 := Bucket(2, [1], Some(3), Some(2)), 5 := Bucket(4, [0], Some(3), None)],
          Some(3), map[0 := 5, 1 := 4, 2 := 3], 6)

  /** Corrected, bucket 2 is joined to bucket 4. */
  const KeptCorrected: Links :=
    Links(map[3 := Bucket(1, [2], None, Some(4)), 4 := Bucket(2, [1], Some(3), Some(5)), 5 := Bucket(4, [0], Some(4), None)],
          Some(3), map[0 := 5, 1 := 4, 2 := 3], 6)

  lemma UnlinkBucketThreeAsWritten()
    ensures DeleteFrequencyNode(LeftThree(AsWritten), 2) == Done(LostAsWritten)
  {
    var h := map[2 := Bucket(3, [], Some(3), Some(5)), 3 := Bucket(1, [2], None, Some(5)),
                 4 := Bucket(2, [1], Some(3), Some(2)), 5 := Bucket(4, [0], Some(3), None)];
    assert h - {2} == LostAsWritten.heap;
  }

  lemma UnlinkBucketThreeCorrected()
    ensures DeleteFrequencyNode(LeftThree(Corrected), 2) == Done(KeptCorrected)
  {
    var h := map[2 := Bucket(3, [], Some(4), Some(5)), 3 := Bucket(1, [2], None, Some(4)),
                 4 := Bucket(2, [1], Some(3), Some(5)), 5 := Bucket(4, [0], Some(4), None)];
    assert h - {2} == KeptCorrected.heap;
  }

  /** Accessing c as the last call of the run. */
  lemma LastAccess(v: Version)
    ensures Replay(Linked(v), [Access(0)], v) == Done(if v == AsWritten then LostAsWritten else KeptCorrected)
  {
    var t := if v == AsWritten then LostAsWritten else KeptCorrected;
    LinkBucketFour(v);
    MoveToBucketFour(v);
    if v == AsWritten { UnlinkBucketThreeAsWritten(); } else { UnlinkBucketThreeCorrected(); }
    ReplayStep(Linked(v), Access(0), [], v, t);
    assert [Access(0)] == [Access(0)] + [];
  }

  /** As written, evicting c unlinks bucket 3 through its `prev`: bucket 1 now ends the list. */
  const EvictedAsWritten: Links :=
    Links(map[3 := Bucket(1, [2], None, None), 4 := Bucket(2, [1], Some(3), Some(2))], Some(3), map[1 := 4, 2 := 3], 5)

  /** Corrected, bucket 2 ends the list. */
  const EvictedCorrected: Links :=
    Links(map[3 := Bucket(1, [2], None, Some(4)), 4 := Bucket(2, [1], Some(3), None)], Some(3), map[1 := 4, 2 := 3], 5)

  /** Bucket 3 after c was evicted from it. */
  function EvictedThree(v: Version): Links
  {
    Links(map[2 := Bucket(3, [], if v == AsWritten then Some(3) else Some(4), None), 3 := Bucket(1, [2], None, Some(4)),
              4 := Bucket(2, [1], Some(3), Some(2))],
          Some(3), map[1 := 4, 2 := 3], 5)
  }

  lemma EvictFromBucketThree(v: Version)
    ensures EvictKeyNode(Linked(v), 0, v) == DeleteFrequencyNode(EvictedThree(v), 2)
  {
    assert IndexOf([0], 0) == 0 && [0][1..] == [];
    assert Remove([0], 0) == [];
    assert Linked(v).heap[2 := Linked(v).heap[2].(keys := [])] == EvictedThree(v).heap;
    assert map[0 := 2, 1 := 4, 2 := 3] - {0} == map[1 := 4, 2 := 3];
  }

  lemma UnlinkEvictedAsWritten()
    ensures DeleteFrequencyNode(EvictedThree(AsWritten), 2) == Done(EvictedAsWritten)
  {
    var h := map[2 := Bucket(3, [], Some(3), None), 3 := Bucket(1, [2], None, None), 4 := Bucket(2, [1], Some(3), Some(2))];
    assert h - {2} == EvictedAsWritten.heap;
  }

  lemma UnlinkEvictedCorrected()
    ensures DeleteFrequencyNode(EvictedThree(Corrected), 2) == Done(EvictedCorrected)
  {
    var h := map[2 := Bucket(3, [], Some(4), None), 3 := Bucket(1, [2], None, Some(4)), 4 := Bucket(2, [1], Some(3), None)];
    assert h - {2} == EvictedCorrected.heap;
  }

  /** Evicting c as the last call of the run. */
  lemma LastEvict(v: Version)
    ensures Replay(Linked(v), [EvictEntry(0)], v) == Done(if v == AsWritten then EvictedAsWritten else EvictedCorrected)
  {
    var t := if v == AsWritten then EvictedAsWritten else EvictedCorrected;
    EvictFromBucketThree(v);
    if v == AsWritten { UnlinkEvictedAsWritten(); } else { UnlinkEvictedCorrected(); }
    ReplayStep(Linked(v), EvictEntry(0), [], v, t);
    assert [EvictEntry(0)] == [EvictEntry(0)] + [];
  }

  /** The bucket list after accessing a when it is alone in bucket 1, before bucket 1 is unlinked. */
  function LeftOne(v: Version): Links
  {
    Links(map[2 := Bucket(3, [0], if v == AsWritten then Some(3) else Some(4), None), 3 := Bucket(1, [], None, Some(4)),
              4 := Bucket(2, [1], Some(3), Some(2))],
          Some(3), map[0 := 2, 1 := 4], 5)
  }

  lemma LinkBucketTwoAlone(v: Version)
    ensures MarkAccess(AfterCA, 1, v) == Exchange(
      Links(map[2 := Bucket(3, [0], if v == AsWritten then Some(3) else Some(4), None), 3 := Bucket(1, [1], None, Some(4)),
                4 := Bucket(2, [], Some(3), Some(2))],
            Some(3), map[0 := 2, 1 := 3], 5), 3, 1, 4)
  {
  }

  lemma MoveAloneToBucketTwo(v: Version)
    ensures Exchange(
      Links(map[2 := Bucket(3, [0], if v == AsWritten then Some(3) else Some(4), None), 3 := Bucket(1, [1], None, Some(4)),
                4 := Bucket(2, [], Some(3), Some(2))],
            Some(3), map[0 := 2, 1 := 3], 5), 3, 1, 4)
      == DeleteFrequencyNode(LeftOne(v), 3)
  {
    assert [1] + [] == [1];
    assert Remove([1], 1) == [];
    assert map[0 := 2, 1 := 3][1 := 4] == map[0 := 2, 1 := 4];
  }

  /** Bucket 1 is freed; as written, bucket 3's `prev` still names it. */
  function Moved(v: Version): Links
  {
    Links(map[2 := Bucket(3, [0], if v == AsWritten then Some(3) else Some(4), None), 4 := Bucket(2, [1], None, Some(2))],
          Some(4), map[0 := 2, 1 := 4], 5)
  }

  lemma FreeBucketOne(v: Version)
    ensures DeleteFrequencyNode(LeftOne(v), 3) == Done(Moved(v))
  {
    var h := map[2 := Bucket(3, [0], if v == AsWritten then Some(3) else Some(4), None), 3 := Bucket(1, [], None, Some(4)),
                 4 := Bucket(2, [1], None, Some(2))];
    assert h - {3} == Moved(v).heap;
  }

  /** Accessing a when it is alone in bucket 1. */
  lemma FromAfterCAAlone(rest: seq<Op>, v: Version)
    ensures Replay(AfterCA, [Access(1)] + rest, v) == Replay(Moved(v), rest, v)
  {
    LinkBucketTwoAlone(v);
    MoveAloneToBucketTwo(v);
    FreeBucketOne(v);
    ReplayStep(AfterCA, Access(1), rest, v, Moved(v));
  }

  /** The state the corrected run ends in after a further access of c. */
  const MovedAccessed: Links :=
    Links(map[4 := Bucket(2, [1], None, Some(5)), 5 := Bucket(4, [0], Some(4), None)], Some(4), map[0 := 5, 1 := 4], 6)

  /** As written, accessing c then unlinks bucket 3 through the freed bucket 1. */
  lemma AccessThroughFreed()
    ensures Replay(Moved(AsWritten), [Access(0)], AsWritten) == Fault
  {
    assert Apply(Moved(AsWritten), Access(0), AsWritten) == Fault;
  }

  /** Corrected, accessing c links bucket 4 after bucket 3, which ends the list. */
  lemma LinkAfterMove()
    ensures MarkAccess(Moved(Corrected), 0, Corrected) == Exchange(
      Links(map[2 := Bucket(3, [0], Some(4), Some(5)), 4 := Bucket(2, [1], None, Some(2)), 5 := Bucket(4, [], Some(2), None)],
            Some(4), map[0 := 2, 1 := 4], 6), 2, 0, 5)
  {
  }

  /** Then c moves to bucket 4, emptying bucket 3. */
  lemma MoveAfterMove()
    ensures Exchange(
      Links(map[2 := Bucket(3, [0], Some(4), Some(5)), 4 := Bucket(2, [1], None, Some(2)), 5 := Bucket(4, [], Some(2), None)],
            Some(4), map[0 := 2, 1 := 4], 6), 2, 0, 5)
      == DeleteFrequencyNode(
      Links(map[2 := Bucket(3, [], Some(4), Some(5)), 4 := Bucket(2, [1], None, Some(2)), 5 := Bucket(4, [0], Some(2), None)],
            Some(4), map[0 := 5, 1 := 4], 6), 2)
  {
    var h := map[2 := Bucket(3, [0], Some(4), Some(5)), 4 := Bucket(2, [1], None, Some(2)), 5 := Bucket(4, [], Some(2), None)];
    assert Remove([0], 0) == [] && [0] + [] == [0];
    assert h[2 := h[2].(keys := [])][5 := Bucket(4, [0], Some(2), None)]
      == map[2 := Bucket(3, [], Some(4), Some(5)), 4 := Bucket(2, [1], None, Some(2)), 5 := Bucket(4, [0], Some(2), None)];
    assert map[0 := 2, 1 := 4][0 := 5] == map[0 := 5, 1 := 4];
  }

  /** Then bucket 3 is unlinked between buckets 2 and 4. */
  lemma UnlinkAfterMove()
    ensures DeleteFrequencyNode(
      Links(map[2 := Bucket(3, [], Some(4), Some(5)), 4 := Bucket(2, [1], None, Some(2)), 5 := Bucket(4, [0], Some(2), None)],
            Some(4), map[0 := 5, 1 := 4], 6), 2)
      == Done(MovedAccessed)
  {
    var h := map[2 := Bucket(3, [], Some(4), Some(5)), 4 := Bucket(2, [1], None, Some(5)), 5 := Bucket(4, [0], Some(4), None)];
    assert h - {2} == MovedAccessed.heap;
  }

  lemma AccessAfterMove()
    ensures Replay(Moved(Corrected), [Access(0)], Corrected) == Done(MovedAccessed)
  {
    LinkAfterMove();
    MoveAfterMove();
    UnlinkAfterMove();
    ReplayStep(Moved(Corrected), Access(0), [], Corrected, MovedAccessed);
    assert [Access(0)] == [Access(0)] + [];
  }

  /** The bucket lists the runs end with, read from `frequencies`. */
  lemma Views()
    ensures View(LostAsWritten) == [FrequencyNode(1, [2]), FrequencyNode(4, [0])]
    ensures View(KeptCorrected) == [FrequencyNode(1, [2]), FrequencyNode(2, [1]), FrequencyNode(4, [0])]
    ensures View(EvictedAsWritten) == [FrequencyNode(1, [2])]
    ensures View(EvictedCorrected) == [FrequencyNode(1, [2]), FrequencyNode(2, [1])]
    ensures View(MovedAccessed) == [FrequencyNode(2, [1]), FrequencyNode(4, [0])]
  {
  }

  /** Key a is in neither list the runs of the code as written end with. */
  lemma LostNodes()
    ensures 1 !in Nodes([FrequencyNode(1, [2]), FrequencyNode(4, [0])])
    ensures 1 !in Nodes([FrequencyNode(1, [2])])
  {
    var l := [FrequencyNode(1, [2]), FrequencyNode(4, [0])];
    assert l[1..] == [FrequencyNode(4, [0])] && l[1..][1..] == [];
    assert Nodes(l) == multiset{2, 0};
    assert [FrequencyNode(1, [2])][1..] == [];
  }

  /** One call of the sequence model's run. */
  lemma ModelStep(fs: seq<FrequencyNode>, op: Op, rest: seq<Op>)
    ensures ModelReplay(fs, [op] + rest) == ModelReplay(ModelApply(fs, op), rest)
  {
    assert ([op] + rest)[1..] == rest;
  }

  /** The sequence model inserts c and accesses it twice. */
  lemma ModelC()
    ensures ModelApply([], Insert(0)) == [FrequencyNode(1, [0])]
    ensures ModelApply([FrequencyNode(1, [0])], Access(0)) == [FrequencyNode(2, [0])]
    ensures ModelApply([FrequencyNode(2, [0])], Access(0)) == [FrequencyNode(3, [0])]
    ensures ModelApply([FrequencyNode(3, [0])], Insert(1)) == [FrequencyNode(1, [1]), FrequencyNode(3, [0])]
  {
    var m1 := [FrequencyNode(1, [0])];
    var m2 := [FrequencyNode(2, [0])];
    assert m1[1..] == [] && Nodes(m1) == multiset{0} && BucketIndex(m1, 0) == 0;
    assert m2[1..] == [] && Nodes(m2) == multiset{0} && BucketIndex(m2, 0) == 0;
  }

  /** The sequence model after inserting c, accessing it twice and inserting a. */
  lemma ModelCA(rest: seq<Op>)
    ensures ModelReplay([], [Insert(0), Access(0), Access(0), Insert(1)] + rest)
      == ModelReplay([FrequencyNode(1, [1]), FrequencyNode(3, [0])], rest)
  {
    var m1 := [FrequencyNode(1, [0])];
    var m2 := [FrequencyNode(2, [0])];
    var m3 := [FrequencyNode(3, [0])];
    ModelC();
    ModelStep(m3, Insert(1), rest);
    ModelStep(m2, Access(0), [Insert(1)] + rest);
    ModelStep(m1, Access(0), [Access(0), Insert(1)] + rest);
    ModelStep([], Insert(0), [Access(0), Access(0), Insert(1)] + rest);
    assert [Insert(0), Access(0), Access(0), Insert(1)] + rest
      == [Insert(0)] + ([Access(0)] + ([Access(0)] + ([Insert(1)] + rest)));
  }

  /** The sequence model inserts b. */
  lemma ModelInsertB()
    ensures ModelApply([FrequencyNode(1, [1]), FrequencyNode(3, [0])], Insert(2))
      == [FrequencyNode(1, [2, 1]), FrequencyNode(3, [0])]
  {
    var m4 := [FrequencyNode(1, [1]), FrequencyNode(3, [0])];
    assert m4[1..] == [FrequencyNode(3, [0])] && [2] + [1] == [2, 1];
  }

  /** The sequence model accesses a, which shares bucket 1 with b. */
  lemma ModelAccessA()
    ensures ModelApply([FrequencyNode(1, [2, 1]), FrequencyNode(3, [0])], Access(1))
      == [FrequencyNode(1, [2]), FrequencyNode(2, [1]), FrequencyNode(3, [0])]
  {
    var m5 := [FrequencyNode(1, [2, 1]), FrequencyNode(3, [0])];
    assert m5[1..] == [FrequencyNode(3, [0])] && m5[1..][1..] == [];
    assert 1 in Nodes(m5) && BucketIndex(m5, 1) == 0;
    assert Remove([2, 1], 1) == [2] && !SuccessorFollows(m5, 0) && Span(m5, 0) == 1;
    assert PromotedMid(m5, 0, 1) == [FrequencyNode(1, [2]), FrequencyNode(2, [1])];
    assert m5[..0] == [] && m5[0 + 1..] == [FrequencyNode(3, [0])];
  }

  /** The run of StalePrevLosesKey and StalePrevEvictLosesKey, up to its last call. */
  function LinkedRun(last: Op): seq<Op>
  {
    [Insert(0), Access(0), Access(0), Insert(1), Insert(2), Access(1), last]
  }

  /** The sequence model inserts b and accesses a. */
  lemma ModelAB(rest: seq<Op>)
    ensures ModelReplay([FrequencyNode(1, [1]), FrequencyNode(3, [0])], [Insert(2), Access(1)] + rest)
      == ModelReplay([FrequencyNode(1, [2]), FrequencyNode(2, [1]), FrequencyNode(3, [0])], rest)
  {
    var m4 := [FrequencyNode(1, [1]), FrequencyNode(3, [0])];
    var m5 := [FrequencyNode(1, [2, 1]), FrequencyNode(3, [0])];
    ModelInsertB();
    ModelAccessA();
    ModelStep(m5, Access(1), rest);
    ModelStep(m4, Insert(2), [Access(1)] + rest);
    assert [Insert(2), Access(1)] + rest == [Insert(2)] + ([Access(1)] + rest);
  }

  /** The sequence model's list before the last call of LinkedRun. */
  lemma ModelLinked(last: Op)
    ensures ModelReplay([], LinkedRun(last))
      == ModelApply([FrequencyNode(1, [2]), FrequencyNode(2, [1]), FrequencyNode(3, [0])], last)
  {
    var m6 := [FrequencyNode(1, [2]), FrequencyNode(2, [1]), FrequencyNode(3, [0])];
    assert LinkedRun(last) == [Insert(0), Access(0), Access(0), Insert(1)] + ([Insert(2), Access(1)] + [last]);
    ModelCA([Insert(2), Access(1)] + [last]);
    ModelAB([last]);
    ModelStep(m6, last, []);
    assert [last] == [last] + [];
  }

  /** c sits in the last bucket of the sequence model before the last call of LinkedRun. */
  lemma ModelFindC()
    ensures 0 in Nodes([FrequencyNode(1, [2]), FrequencyNode(2, [1]), FrequencyNode(3, [0])])
    ensures BucketIndex([FrequencyNode(1, [2]), FrequencyNode(2, [1]), FrequencyNode(3, [0])], 0) == 2
  {
    var m6 := [FrequencyNode(1, [2]), FrequencyNode(2, [1]), FrequencyNode(3, [0])];
    assert m6[1..] == [FrequencyNode(2, [1]), FrequencyNode(3, [0])] && m6[1..][1..] == [FrequencyNode(3, [0])];
    assert m6[1..][1..][1..] == [];
    assert Nodes(m6[1..][1..]) == multiset{0};
  }

  /** The last call of LinkedRun on the sequence model: accessing c. */
  lemma ModelLastAccess()
    ensures ModelApply([FrequencyNode(1, [2]), FrequencyNode(2, [1]), FrequencyNode(3, [0])], Access(0))
      == [FrequencyNode(1, [2]), FrequencyNode(2, [1]), FrequencyNode(4, [0])]
  {
    var m6 := [FrequencyNode(1, [2]), FrequencyNode(2, [1]), FrequencyNode(3, [0])];
    ModelFindC();
    assert Remove([0], 0) == [] && !SuccessorFollows(m6, 2) && Span(m6, 2) == 1;
    assert PromotedMid(m6, 2, 0) == [FrequencyNode(4, [0])];
    assert m6[..2] == [FrequencyNode(1, [2]), FrequencyNode(2, [1])] && m6[2 + 1..] == [];
  }

  /** The last call of LinkedRun on the sequence model: evicting c. */
  lemma ModelLastEvict()
    ensures ModelApply([FrequencyNode(1, [2]), FrequencyNode(2, [1]), FrequencyNode(3, [0])], EvictEntry(0))
      == [FrequencyNode(1, [2]), FrequencyNode(2, [1])]
  {
    var m6 := [FrequencyNode(1, [2]), FrequencyNode(2, [1]), FrequencyNode(3, [0])];
    ModelFindC();
    assert Remove([0], 0) == [] && KeepUnlessEmpty(m6[2].RemoveKey(0)) == [];
    assert m6[..2] == [FrequencyNode(1, [2]), FrequencyNode(2, [1])] && m6[2 + 1..] == [];
  }

  /** LinkedRun followed call by call, as written or corrected. */
  lemma RunLinked(last: Op, v: Version)
    ensures Replay(Empty, LinkedRun(last), v) == Replay(Linked(v), [last], v)
  {
    assert LinkedRun(last) == [Insert(0), Access(0), Access(0), Insert(1)] + ([Insert(2), Access(1)] + [last]);
    ReachCA([Insert(2), Access(1)] + [last], v);
    ReachLinked([last], v);
  }

  /**
   * Insert c, access c twice, insert a and b, access a, access c. As written, the last
   * access empties bucket 3 and unlinks it through its stale `prev` (bucket 1), so
   * bucket 2 falls out of the list: a can no longer be reached, though its key node
   * still names bucket 2. Corrected, the list is the one the sequence model computes.
   */
  lemma {:induction false} StalePrevLosesKey()
    ensures && Replay(Empty, LinkedRun(Access(0)), AsWritten).Done?
            && var t := Replay(Empty, LinkedRun(Access(0)), AsWritten).links;
            && 1 in t.owner && t.owner[1] in t.heap && 1 in t.heap[t.owner[1]].keys
            && 1 !in Nodes(View(t))
            && View(t) == [FrequencyNode(1, [2]), FrequencyNode(4, [0])]
    ensures && Replay(Empty, LinkedRun(Access(0)), Corrected).Done?
            && View(Replay(Empty, LinkedRun(Access(0)), Corrected).links) == ModelReplay([], LinkedRun(Access(0)))
            == [FrequencyNode(1, [2]), FrequencyNode(2, [1]), FrequencyNode(4, [0])]
  {
    RunLinked(Access(0), AsWritten);
    LastAccess(AsWritten);
    RunLinked(Access(0), Corrected);
    LastAccess(Corrected);
    Views();
    LostNodes();
    ModelLinked(Access(0));
    ModelLastAccess();
  }

  /** The same loss through Evict(cacheEntry) of c, whose unlink of bucket 3 uses the same stale `prev`. */
  lemma {:induction false} StalePrevEvictLosesKey()
    ensures && Replay(Empty, LinkedRun(EvictEntry(0)), AsWritten).Done?
            && var t := Replay(Empty, LinkedRun(EvictEntry(0)), AsWritten).links;
            && 1 in t.owner && t.owner[1] in t.heap && 1 in t.heap[t.owner[1]].keys
            && 1 !in Nodes(View(t))
            && View(t) == [FrequencyNode(1, [2])]
    ensures && Replay(Empty, LinkedRun(EvictEntry(0)), Corrected).Done?
            && View(Replay(Empty, LinkedRun(EvictEntry(0)), Corrected).links) == ModelReplay([], LinkedRun(EvictEntry(0)))
            == [FrequencyNode(1, [2]), FrequencyNode(2, [1])]
  {
    RunLinked(EvictEntry(0), AsWritten);
    LastEvict(AsWritten);
    RunLinked(EvictEntry(0), Corrected);
    LastEvict(Corrected);
    Views();
    LostNodes();
    ModelLinked(EvictEntry(0));
    ModelLastEvict();
  }

  /** The run of StalePrevWritesFreed. */
  const FreedRun: seq<Op> := [Insert(0), Access(0), Access(0), Insert(1), Access(1), Access(0)]

  /** The sequence model accesses a alone in bucket 1. */
  lemma ModelFreedA()
    ensures ModelApply([FrequencyNode(1, [1]), FrequencyNode(3, [0])], Access(1))
      == [FrequencyNode(2, [1]), FrequencyNode(3, [0])]
  {
    var m4 := [FrequencyNode(1, [1]), FrequencyNode(3, [0])];
    assert m4[1..] == [FrequencyNode(3, [0])] && m4[1..][1..] == [];
    assert 1 in Nodes(m4) && BucketIndex(m4, 1) == 0;
    assert Remove([1], 1) == [] && !SuccessorFollows(m4, 0) && Span(m4, 0) == 1;
    assert PromotedMid(m4, 0, 1) == [FrequencyNode(2, [1])];
    assert m4[..0] == [] && m4[0 + 1..] == [FrequencyNode(3, [0])];
  }

  /** Then it accesses c. */
  lemma ModelFreedC()
    ensures ModelApply([FrequencyNode(2, [1]), FrequencyNode(3, [0])], Access(0))
      == [FrequencyNode(2, [1]), FrequencyNode(4, [0])]
  {
    var m5 := [FrequencyNode(2, [1]), FrequencyNode(3, [0])];
    assert m5[1..] == [FrequencyNode(3, [0])] && m5[1..][1..] == [];
    assert Nodes(m5[1..]) == multiset{0} && 0 in Nodes(m5) && BucketIndex(m5, 0) == 1;
    assert Remove([0], 0) == [] && !SuccessorFollows(m5, 1) && Span(m5, 1) == 1;
    assert PromotedMid(m5, 1, 0) == [FrequencyNode(4, [0])];
    assert m5[..1] == [FrequencyNode(2, [1])] && m5[1 + 1..] == [];
  }

  /**
   * Insert c, access c twice, insert a, access a, access c. As written, bucket 3's
   * stale `prev` names bucket 1, freed when a left it, and the unlink writes through it.
   * Corrected, the list is the one the sequence model computes.
   */
  lemma {:induction false} StalePrevWritesFreed()
    ensures Replay(Empty, FreedRun, AsWritten) == Fault
    ensures && Replay(Empty, FreedRun, Corrected).Done?
            && View(Replay(Empty, FreedRun, Corrected).links) == ModelReplay([], FreedRun)
            == [FrequencyNode(2, [1]), FrequencyNode(4, [0])]
  {
    assert FreedRun == [Insert(0), Access(0), Access(0), Insert(1)] + ([Access(1)] + [Access(0)]);
    ReachCA([Access(1)] + [Access(0)], AsWritten);
    FromAfterCAAlone([Access(0)], AsWritten);
    AccessThroughFreed();
    ReachCA([Access(1)] + [Access(0)], Corrected);
    FromAfterCAAlone([Access(0)], Corrected);
    AccessAfterMove();
    Views();
    var m4 := [FrequencyNode(1, [1]), FrequencyNode(3, [0])];
    var m5 := [FrequencyNode(2, [1]), FrequencyNode(3, [0])];
    ModelCA([Access(1)] + [Access(0)]);
    ModelFreedA();
    ModelFreedC();
    ModelStep(m5, Access(0), []);
    ModelStep(m4, Access(1), [Access(0)]);
    assert [Access(0)] == [Access(0)] + [];
  }
}
