/**
 * The copy of the LFU policy that db/cache/cache.cc carries for its own use. It differs
 * from db/cache/policies/lfu_policy.cc: it keys its node table by key string, has no
 * free list, and MarkInsertion never assigns `frequencies`.
 *
 * The heap is modelled as two tables from addresses to node records; a pointer is an
 * `Option<Addr>` (None is nullptr), `new` hands out `nextAddress`, and `delete` takes the
 * address out of its table, so a pointer into freed memory is an address found in
 * neither table. Dereferencing a null or freed pointer is undefined behaviour in the
 * source; here the operation stops at that point and reports `Fault`.
 */
module CacheLfu {
  import opened Options

  type Key = string
  type Addr = nat

  datatype KeyNode = KeyNode(key: Key, prev: Option<Addr>, next: Option<Addr>, frequencyNode: Option<Addr>)

  datatype FrequencyNode = FrequencyNode(frequency: nat, prev: Option<Addr>, next: Option<Addr>, keys: Option<Addr>)

  /** How a call ends: it returns, or it dereferences a null or freed pointer. */
  datatype Status = Done | Fault

  const NO_FREQUENCY_INFO: string := "ELFUPOLICYNOFREQINFO"

  class LfuPolicy {
    /** The source's `map`: key -> key node; `(*map)[key]` inserts nullptr for a missing key. */
    var table: map<Key, Option<Addr>>
    var keyNodes: map<Addr, KeyNode>
    var frequencyNodes: map<Addr, FrequencyNode>
    /** Head of the frequency list; nothing in this file ever makes it non-null. */
    var frequencies: Option<Addr>
    var nextAddress: Addr

    /** Every live address was handed out by the allocator. */
    ghost predicate Bounded()
      reads this
    {
      Allocated(keyNodes, frequencyNodes, nextAddress)
    }

    /**
     * The shape every reachable state has: `frequencies` is null, and every tracked key
     * sits alone in a bucket of its own.
     */
    ghost predicate Valid()
      reads this
    {
      frequencies == None && Isolated(table, keyNodes, frequencyNodes, nextAddress)
    }

    /** The access counts of all tracked keys. */
    ghost function Counts(): map<Key, nat>
      reads this
    {
      CountsOf(table, keyNodes, frequencyNodes)
    }

    /** The policy constructor: an empty table and a null frequency list. */
    constructor (capacity: nat)
      ensures table == map[] && keyNodes == map[] && frequencyNodes == map[]
      ensures frequencies == None && nextAddress == 0
      ensures Valid() && Counts() == map[]
    {
      table := map[];
      keyNodes := map[];
      frequencyNodes := map[];
      frequencies := None;
      nextAddress := 0;
    }

    /** `new lfu_key_node(key)`: a node with null links at the next free address. */
    method NewKeyNode(key: Key) returns (k: Addr)
      requires Bounded()
      modifies this
      ensures k == old(nextAddress) && nextAddress == k + 1 && k !in old(keyNodes)
      ensures keyNodes == old(keyNodes)[k := KeyNode(key, None, None, None)]
      ensures Bounded()
      ensures table == old(table) && frequencyNodes == old(frequencyNodes) && frequencies == old(frequencies)
    {
      k := nextAddress;
      nextAddress := nextAddress + 1;
      keyNodes := keyNodes[k := KeyNode(key, None, None, None)];
    }

    /** `new lfu_frequency_node(frequency)` with its links then set to `prev` and `next`. */
    method NewFrequencyNode(frequency: nat, prev: Option<Addr>, next: Option<Addr>) returns (f: Addr)
      requires Bounded()
      modifies this
      ensures f == old(nextAddress) && nextAddress == f + 1 && f !in old(frequencyNodes)
      ensures frequencyNodes == old(frequencyNodes)[f := FrequencyNode(frequency, prev, next, None)]
      ensures Bounded()
      ensures table == old(table) && keyNodes == old(keyNodes) && frequencies == old(frequencies)
    {
      f := nextAddress;
      nextAddress := nextAddress + 1;
      frequencyNodes := frequencyNodes[f := FrequencyNode(frequency, prev, next, None)];
    }

    /**
     * lfu_frequency_node::AddKey: the key node becomes the head of the bucket. The old
     * head's `prev` is left as it was (lfu_policy.cc sets it; this copy does not).
     */
    method AddKey(f: Addr, k: Addr)
      requires f in frequencyNodes && k in keyNodes
      modifies this
      ensures keyNodes == old(keyNodes)[k := old(keyNodes)[k].(frequencyNode := Some(f), prev := None, next := old(frequencyNodes)[f].keys)]
      ensures frequencyNodes == old(frequencyNodes)[f := old(frequencyNodes)[f].(keys := Some(k))]
      ensures table == old(table) && frequencies == old(frequencies) && nextAddress == old(nextAddress)
    {
      keyNodes := keyNodes[k := keyNodes[k].(frequencyNode := Some(f), prev := None, next := frequencyNodes[f].keys)];
      frequencyNodes := frequencyNodes[f := frequencyNodes[f].(keys := Some(k))];
    }

    /**
     * lfu_frequency_node::RemoveKey: the neighbours are joined (the bucket's `keys` moves
     * on when the node has no predecessor) and the node's bucket pointer is cleared.
     */
    method RemoveKey(f: Addr, k: Addr) returns (status: Status)
      requires f in frequencyNodes && k in keyNodes
      modifies this
      ensures status == Fault <==>
        (old(keyNodes)[k].prev.Some? && old(keyNodes)[k].prev.value !in old(keyNodes))
        || (old(keyNodes)[k].next.Some? && old(keyNodes)[k].next.value !in old(keyNodes))
      ensures keyNodes.Keys == old(keyNodes).Keys && frequencyNodes.Keys == old(frequencyNodes).Keys
      ensures old(keyNodes)[k].prev == None && old(keyNodes)[k].next == None ==>
        && keyNodes == old(keyNodes)[k := old(keyNodes)[k].(frequencyNode := None)]
        && frequencyNodes == old(frequencyNodes)[f := old(frequencyNodes)[f].(keys := None)]
      ensures status == Done && old(keyNodes)[k].prev.Some? && old(keyNodes)[k].prev.value != k ==>
        keyNodes[old(keyNodes)[k].prev.value].next == old(keyNodes)[k].next
      ensures status == Done && old(keyNodes)[k].prev.Some? ==> frequencyNodes == old(frequencyNodes)
      ensures status == Done && old(keyNodes)[k].next.Some? && old(keyNodes)[k].next.value != k ==>
        keyNodes[old(keyNodes)[k].next.value].prev == old(keyNodes)[k].prev
      ensures status == Done ==> keyNodes[k].frequencyNode == None
      ensures table == old(table) && frequencies == old(frequencies) && nextAddress == old(nextAddress)
    {
      var node := keyNodes[k];
      if node.prev.Some? {
        var p := node.prev.value;
        if p !in keyNodes {
          return Fault;
        }
        keyNodes := keyNodes[p := keyNodes[p].(next := node.next)];
      } else {
        frequencyNodes := frequencyNodes[f := frequencyNodes[f].(keys := node.next)];
      }
      if node.next.Some? {
        var n := node.next.value;
        if n !in keyNodes {
          return Fault;
        }
        keyNodes := keyNodes[n := keyNodes[n].(prev := node.prev)];
      }
      keyNodes := keyNodes[k := keyNodes[k].(frequencyNode := None)];
      return Done;
    }

    /** lfu_frequency_node::ExchangeKey: RemoveKey from this bucket, then AddKey to the target. */
    method ExchangeKey(f: Addr, k: Addr, target: Addr) returns (status: Status)
      requires f in frequencyNodes && k in keyNodes && target in frequencyNodes
      modifies this
      ensures keyNodes.Keys == old(keyNodes).Keys && frequencyNodes.Keys == old(frequencyNodes).Keys
      ensures status == Done ==> keyNodes[k].frequencyNode == Some(target) && keyNodes[k].prev == None
      ensures status == Done ==> frequencyNodes[target].keys == Some(k)
      ensures old(keyNodes)[k].prev == None && old(keyNodes)[k].next == None && f != target ==>
        && status == Done
        && keyNodes == old(keyNodes)[k := old(keyNodes)[k].(frequencyNode := Some(target), next := old(frequencyNodes)[target].keys)]
        && frequencyNodes == old(frequencyNodes)[f := old(frequencyNodes)[f].(keys := None)][target := old(frequencyNodes)[target].(keys := Some(k))]
      ensures table == old(table) && frequencies == old(frequencies) && nextAddress == old(nextAddress)
    {
      status := RemoveKey(f, k);
      if status == Fault {
        return;
      }
      AddKey(target, k);
    }

    /**
     * `delete` of a frequency node: the destructor returns at once when the node has no
     * neighbours, and otherwise joins its neighbours; then the node is freed.
     */
    method Delete(f: Addr) returns (status: Status)
      requires f in frequencyNodes
      modifies this
      ensures status == Fault <==>
        (old(frequencyNodes)[f].prev.Some? && old(frequencyNodes)[f].prev.value !in old(frequencyNodes))
        || (old(frequencyNodes)[f].next.Some? && old(frequencyNodes)[f].next.value !in old(frequencyNodes))
      ensures status == Done ==> frequencyNodes.Keys == old(frequencyNodes).Keys - {f}
      ensures frequencyNodes.Keys <= old(frequencyNodes).Keys
      ensures old(frequencyNodes)[f].prev == None && old(frequencyNodes)[f].next == None ==>
        frequencyNodes == old(frequencyNodes) - {f}
      ensures
        var g := old(frequencyNodes)[f];
        g.prev == None && g.next.Some? && g.next.value != f && g.next.value in old(frequencyNodes) ==>
          frequencyNodes == (old(frequencyNodes) - {f})[g.next.value := old(frequencyNodes)[g.next.value].(prev := None)]
      ensures
        var g := old(frequencyNodes)[f];
        status == Done && g.prev.Some? && g.prev.value != f && g.next != Some(g.prev.value) ==>
          frequencyNodes[g.prev.value].next == g.next
      ensures
        var g := old(frequencyNodes)[f];
        status == Done && g.next.Some? && g.next.value != f ==>
          frequencyNodes[g.next.value].prev == g.prev
      ensures keyNodes == old(keyNodes) && table == old(table)
      ensures frequencies == old(frequencies) && nextAddress == old(nextAddress)
    {
      var g := frequencyNodes[f];
      if g.prev.None? && g.next.None? {
        frequencyNodes := frequencyNodes - {f};
        return Done;
      }
      if g.prev.Some? {
        var p := g.prev.value;
        if p !in frequencyNodes {
          return Fault;
        }
        frequencyNodes := frequencyNodes[p := frequencyNodes[p].(next := g.next)];
      }
      if g.next.Some? {
        var n := g.next.value;
        if n !in frequencyNodes {
          return Fault;
        }
        frequencyNodes := frequencyNodes[n := frequencyNodes[n].(prev := g.prev)];
      }
      frequencyNodes := frequencyNodes - {f};
      return Done;
    }

    /**
     * lfu_policy::DeleteFrequencyNode: `frequencies` becomes the node's successor whether
     * or not the node was the head; the node is unlinked and then deleted (so the
     * destructor unlinks it a second time).
     */
    method DeleteFrequencyNode(f: Addr) returns (status: Status)
      requires f in frequencyNodes
      modifies this
      ensures frequencies == old(frequencyNodes)[f].next
      ensures status == Fault <==>
        (old(frequencyNodes)[f].prev.Some? && old(frequencyNodes)[f].prev.value !in old(frequencyNodes))
        || (old(frequencyNodes)[f].next.Some? && old(frequencyNodes)[f].next.value !in old(frequencyNodes))
      ensures status == Done ==> frequencyNodes.Keys == old(frequencyNodes).Keys - {f}
      ensures frequencyNodes.Keys <= old(frequencyNodes).Keys
      ensures old(frequencyNodes)[f].prev == None && old(frequencyNodes)[f].next == None ==>
        frequencyNodes == old(frequencyNodes) - {f}
      ensures keyNodes == old(keyNodes) && table == old(table) && nextAddress == old(nextAddress)
    {
      var g := frequencyNodes[f];
      frequencies := g.next;
      if g.prev.Some? {
        var p := g.prev.value;
        if p !in frequencyNodes {
          return Fault;
        }
        frequencyNodes := frequencyNodes[p := frequencyNodes[p].(next := g.next)];
      }
      if g.next.Some? {
        var n := g.next.value;
        if n !in frequencyNodes {
          return Fault;
        }
        frequencyNodes := frequencyNodes[n := frequencyNodes[n].(prev := g.prev)];
      }
      status := Delete(f);
    }

    /**
     * lfu_policy::MarkInsertion: a new key node is stored in the table and added to the
     * head bucket when its frequency is 1, else to a new frequency-1 bucket put in front
     * of it. `frequencies` itself is never assigned, so while it is null every insertion
     * makes a bucket of its own.
     */
    method MarkInsertion(key: Key) returns (status: Status)
      requires Bounded()
      modifies this
      ensures Bounded()
      ensures table == old(table)[key := Some(old(nextAddress))] && frequencies == old(frequencies)
      ensures status == Fault <==> old(frequencies).Some? && old(frequencies).value !in old(frequencyNodes)
      ensures
        var k := old(nextAddress);
        old(frequencies).None? ==>
          && keyNodes == old(keyNodes)[k := KeyNode(key, None, None, Some(k + 1))]
          && frequencyNodes == old(frequencyNodes)[k + 1 := FrequencyNode(1, None, None, Some(k))]
      ensures
        old(frequencies).Some? && old(frequencies).value in old(frequencyNodes) ==>
          var k := old(nextAddress);
          var h := old(frequencies).value;
          var head := old(frequencyNodes)[h];
          if head.frequency == 1 then
            && keyNodes == old(keyNodes)[k := KeyNode(key, None, head.keys, Some(h))]
            && frequencyNodes == old(frequencyNodes)[h := head.(keys := Some(k))]
          else
            && keyNodes == old(keyNodes)[k := KeyNode(key, None, None, Some(k + 1))]
            && frequencyNodes == old(frequencyNodes)[h := head.(prev := Some(k + 1))][k + 1 := FrequencyNode(1, None, Some(h), Some(k))]
      ensures old(Valid()) ==> status == Done && Valid() && Counts() == old(Counts())[key := 1]
    {
      var k := NewKeyNode(key);
      table := table[key := Some(k)];
      var target: Addr;
      if frequencies.None? {
        target := NewFrequencyNode(1, None, None);
      } else {
        var h := frequencies.value;
        if h !in frequencyNodes {
          return Fault;
        }
        if frequencyNodes[h].frequency != 1 {
          target := NewFrequencyNode(1, None, Some(h));
          frequencyNodes := frequencyNodes[h := frequencyNodes[h].(prev := Some(target))];
        } else {
          target := h;
        }
      }
      AddKey(target, k);
      status := Done;
      if old(Valid()) {
        InsertIsolated(old(table), old(keyNodes), old(frequencyNodes), k, key);
      }
    }

    /**
     * The first half of lfu_policy::MarkAccess: the bucket after f is the target when its
     * frequency is one more than f's; otherwise a new bucket with that frequency is
     * linked in after f (the old successor's `prev` is not updated).
     */
    method NextBucket(f: Addr) returns (target: Addr, status: Status)
      requires Bounded() && f in frequencyNodes
      modifies this
      ensures Bounded()
      ensures status == Fault <==> old(frequencyNodes)[f].next.Some? && old(frequencyNodes)[f].next.value !in old(frequencyNodes)
      ensures status == Done ==>
        && target in frequencyNodes && target != f
        && frequencyNodes[target].frequency == old(frequencyNodes)[f].frequency + 1
      ensures status == Done ==>
        var g := old(frequencyNodes)[f];
        if g.next.Some? && old(frequencyNodes)[g.next.value].frequency == g.frequency + 1 then
          target == g.next.value && frequencyNodes == old(frequencyNodes) && nextAddress == old(nextAddress)
        else
          && target == old(nextAddress) && nextAddress == old(nextAddress) + 1
          && frequencyNodes == old(frequencyNodes)[f := g.(next := Some(target))][target := FrequencyNode(g.frequency + 1, Some(f), g.next, None)]
      ensures status == Fault ==> frequencyNodes == old(frequencyNodes) && nextAddress == old(nextAddress)
      ensures frequencyNodes.Keys <= old(frequencyNodes).Keys + {old(nextAddress)}
      ensures table == old(table) && keyNodes == old(keyNodes) && frequencies == old(frequencies)
    {
      var bucket := frequencyNodes[f];
      if bucket.next.Some? && bucket.next.value !in frequencyNodes {
        return f, Fault;
      }
      if bucket.next.None? || frequencyNodes[bucket.next.value].frequency != bucket.frequency + 1 {
        target := NewFrequencyNode(bucket.frequency + 1, Some(f), bucket.next);
        frequencyNodes := frequencyNodes[f := frequencyNodes[f].(next := Some(target))];
      } else {
        target := bucket.next.value;
      }
      status := Done;
    }

    /**
     * lfu_policy::MarkAccess: the key node moves from its bucket f to the head of the
     * bucket after f when that one has frequency f + 1, else to a new such bucket linked
     * in after f; f is deleted when it is left empty. A key missing from the table is
     * first inserted with a null node, which is then dereferenced.
     */
    method MarkAccess(key: Key) returns (status: Status)
      requires Bounded()
      modifies this
      ensures Bounded()
      ensures key !in old(table) ==> status == Fault && table == old(table)[key := None]
      ensures key in old(table) ==> table == old(table)
      ensures frequencies == old(frequencies)
      ensures old(Valid()) && key in old(table) ==>
        status == Done && Valid() && Counts() == old(Counts())[key := old(Counts())[key] + 1]
    {
      if key !in table {
        table := table[key := None];
        return Fault;
      }
      if table[key].None? {
        return Fault;
      }
      status := Promote(key, table[key].value);
    }

    /** MarkAccess once the key node `k` is found in the table. */
    method Promote(ghost key: Key, k: Addr) returns (status: Status)
      requires Bounded()
      modifies this
      ensures Bounded()
      ensures table == old(table) && frequencies == old(frequencies)
      ensures old(Valid()) && key in old(table) && old(table)[key] == Some(k) ==>
        status == Done && Valid() && Counts() == old(Counts())[key := old(Counts())[key] + 1]
    {
      ghost var valid0 := Valid() && key in table && table[key] == Some(k);
      ghost var keyNodes0, buckets0, a0 := keyNodes, frequencyNodes, nextAddress;
      assert valid0 ==> Alone(table, keyNodes, frequencyNodes, key);
      if k !in keyNodes || keyNodes[k].frequencyNode.None? || keyNodes[k].frequencyNode.value !in frequencyNodes {
        return Fault;
      }
      var f := keyNodes[k].frequencyNode.value;
      status := MoveUp(f, k);
      if valid0 {
        AccessIsolated(table, keyNodes0, buckets0, a0, key, keyNodes, frequencyNodes);
      }
    }

    /**
     * The body of MarkAccess once key node `k` and its bucket `f` are found: `k` moves to
     * the bucket of the next frequency, created when missing, and `f` is deleted when
     * left empty. A node alone in a bucket of its own ends alone in a fresh bucket one
     * frequency higher, and its old bucket is gone.
     */
    method MoveUp(f: Addr, k: Addr) returns (status: Status)
      requires Bounded() && f in frequencyNodes && k in keyNodes
      modifies this
      ensures Bounded()
      ensures table == old(table) && frequencies == old(frequencies)
      ensures
        var g := old(frequencyNodes)[f];
        var node := old(keyNodes)[k];
        && g.prev == None && g.next == None && g.keys == Some(k)
        && node.prev == None && node.next == None && node.frequencyNode == Some(f) ==>
          && status == Done && nextAddress == old(nextAddress) + 1
          && keyNodes == old(keyNodes)[k := node.(frequencyNode := Some(old(nextAddress)))]
          && frequencyNodes == (old(frequencyNodes) - {f})[old(nextAddress) := FrequencyNode(g.frequency + 1, None, None, Some(k))]
    {
      var target;
      target, status := NextBucket(f);
      if status == Fault {
        return;
      }
      status := ExchangeKey(f, k, target);
      if status == Fault {
        return;
      }
      if frequencyNodes[f].keys.None? {
        status := Delete(f);
      }
    }

    /** The node at the head of the head bucket, when both pointers are live. */
    function HeadKeyNode(): Option<Addr>
      reads this
    {
      if frequencies.Some? && frequencies.value in frequencyNodes
        && frequencyNodes[frequencies.value].keys.Some?
        && frequencyNodes[frequencies.value].keys.value in keyNodes
      then frequencyNodes[frequencies.value].keys
      else None
    }

    /**
     * lfu_policy::Evict: NO_FREQUENCY_INFO when the list or its head bucket is empty;
     * otherwise the head key of the head bucket is unlinked, erased from the table and
     * freed, and the bucket is deleted when left empty.
     */
    method Evict() returns (res: string, status: Status)
      modifies this
      ensures
        (old(frequencies).None?
         || (old(frequencies).value in old(frequencyNodes) && old(frequencyNodes)[old(frequencies).value].keys.None?)) ==>
          && res == NO_FREQUENCY_INFO && status == Done
          && table == old(table) && keyNodes == old(keyNodes) && frequencyNodes == old(frequencyNodes)
          && frequencies == old(frequencies)
      ensures
        old(HeadKeyNode()).Some? && status == Done ==>
          var k := old(HeadKeyNode()).value;
          && res == old(keyNodes)[k].key
          && table == old(table) - {res}
          && keyNodes.Keys == old(keyNodes).Keys - {k}
      ensures nextAddress == old(nextAddress)
      ensures keyNodes.Keys <= old(keyNodes).Keys && frequencyNodes.Keys <= old(frequencyNodes).Keys
      ensures old(Valid()) ==> status == Done && res == NO_FREQUENCY_INFO && unchanged(this)
    {
      if frequencies.None? {
        return NO_FREQUENCY_INFO, Done;
      }
      var h := frequencies.value;
      if h !in frequencyNodes {
        return NO_FREQUENCY_INFO, Fault;
      }
      if frequencyNodes[h].keys.None? {
        return NO_FREQUENCY_INFO, Done;
      }
      var k := frequencyNodes[h].keys.value;
      if k !in keyNodes {
        return NO_FREQUENCY_INFO, Fault;
      }
      var node := keyNodes[k];
      res := node.key;
      frequencyNodes := frequencyNodes[h := frequencyNodes[h].(keys := node.next)];
      if node.next.Some? {
        var n := node.next.value;
        if n !in keyNodes {
          return res, Fault;
        }
        keyNodes := keyNodes[n := keyNodes[n].(prev := node.prev)];
      }
      if node.prev.Some? {
        var p := node.prev.value;
        if p !in keyNodes {
          return res, Fault;
        }
        keyNodes := keyNodes[p := keyNodes[p].(next := node.next)];
      }
      table := table - {node.key};
      keyNodes := keyNodes - {k};
      status := Done;
      if frequencyNodes[h].keys.None? {
        status := DeleteFrequencyNode(h);
      }
    }
  }

  /** Every live address lies below the next one `new` hands out. */
  ghost predicate Allocated(keyNodes: map<Addr, KeyNode>, buckets: map<Addr, FrequencyNode>, next: Addr)
  {
    && (forall a :: a in keyNodes ==> a < next)
    && (forall a :: a in buckets ==> a < next)
  }

  /**
   * The key's node holds the key, has no neighbours, and is the only key of a bucket
   * that has no neighbours either.
   */
  ghost predicate Alone(table: map<Key, Option<Addr>>, keyNodes: map<Addr, KeyNode>, buckets: map<Addr, FrequencyNode>, key: Key)
  {
    && key in table && table[key].Some?
    && var k := table[key].value;
    && k in keyNodes
    && var node := keyNodes[k];
    && node.key == key && node.prev == None && node.next == None
    && node.frequencyNode.Some? && node.frequencyNode.value in buckets
    && var bucket := buckets[node.frequencyNode.value];
    && bucket.frequency >= 1 && bucket.prev == None && bucket.next == None && bucket.keys == Some(k)
  }

  ghost predicate Isolated(table: map<Key, Option<Addr>>, keyNodes: map<Addr, KeyNode>, buckets: map<Addr, FrequencyNode>, next: Addr)
  {
    && Allocated(keyNodes, buckets, next)
    && forall key :: key in table ==> Alone(table, keyNodes, buckets, key)
  }

  /** The access count kept for a key that sits alone: its bucket's frequency (0 otherwise). */
  ghost function Frequency(table: map<Key, Option<Addr>>, keyNodes: map<Addr, KeyNode>, buckets: map<Addr, FrequencyNode>, key: Key): nat
  {
    if Alone(table, keyNodes, buckets, key) then
      buckets[keyNodes[table[key].value].frequencyNode.value].frequency
    else
      0
  }

  ghost function CountsOf(table: map<Key, Option<Addr>>, keyNodes: map<Addr, KeyNode>, buckets: map<Addr, FrequencyNode>): (counts: map<Key, nat>)
    ensures counts.Keys == table.Keys
  {
    map key | key in table :: Frequency(table, keyNodes, buckets, key)
  }

  /**
   * Inserting a key with a fresh node in a fresh frequency-1 bucket keeps every key
   * alone, gives the key the count 1 and leaves the other counts as they were.
   */
  lemma InsertIsolated(table: map<Key, Option<Addr>>, keyNodes: map<Addr, KeyNode>, buckets: map<Addr, FrequencyNode>, a: Addr, key: Key)
    requires Isolated(table, keyNodes, buckets, a)
    ensures
      var table' := table[key := Some(a)];
      var keyNodes' := keyNodes[a := KeyNode(key, None, None, Some(a + 1))];
      var buckets' := buckets[a + 1 := FrequencyNode(1, None, None, Some(a))];
      && Isolated(table', keyNodes', buckets', a + 2)
      && CountsOf(table', keyNodes', buckets') == CountsOf(table, keyNodes, buckets)[key := 1]
  {
    var table' := table[key := Some(a)];
    var keyNodes' := keyNodes[a := KeyNode(key, None, None, Some(a + 1))];
    var buckets' := buckets[a + 1 := FrequencyNode(1, None, None, Some(a))];
    forall x | x in table' ensures Alone(table', keyNodes', buckets', x) && Frequency(table', keyNodes', buckets', x) == CountsOf(table, keyNodes, buckets)[key := 1][x] {
      if x != key {
        assert Alone(table, keyNodes, buckets, x);
        var k := table[x].value;
        assert k < a && keyNodes[k].frequencyNode.value < a;
      }
    }
  }

  /**
   * Moving a key that sits alone into a fresh bucket one frequency higher, and deleting
   * its old bucket, keeps every key alone and adds one to that key's count only.
   */
  lemma AccessIsolated(
    table: map<Key, Option<Addr>>, keyNodes: map<Addr, KeyNode>, buckets: map<Addr, FrequencyNode>, a: Addr, key: Key,
    keyNodes': map<Addr, KeyNode>, buckets': map<Addr, FrequencyNode>)
    requires Isolated(table, keyNodes, buckets, a) && Alone(table, keyNodes, buckets, key)
    requires
      var k := table[key].value;
      var f := keyNodes[k].frequencyNode.value;
      && keyNodes' == keyNodes[k := KeyNode(key, None, None, Some(a))]
      && buckets' == (buckets - {f})[a := FrequencyNode(buckets[f].frequency + 1, None, None, Some(k))]
    ensures Isolated(table, keyNodes', buckets', a + 1)
    ensures
      var counts := CountsOf(table, keyNodes, buckets);
      CountsOf(table, keyNodes', buckets') == counts[key := counts[key] + 1]
  {
    assert Alone(table, keyNodes, buckets, key);
    var k := table[key].value;
    var f := keyNodes[k].frequencyNode.value;
    var counts := CountsOf(table, keyNodes, buckets);
    forall x | x in table ensures Alone(table, keyNodes', buckets', x) && Frequency(table, keyNodes', buckets', x) == counts[key := counts[key] + 1][x] {
      if x != key {
        assert Alone(table, keyNodes, buckets, x);
        var kx := table[x].value;
        var fx := keyNodes[kx].frequencyNode.value;
        assert kx != k && fx != f && fx < a;
      }
    }
  }
}
