/**
 * The lookaside cache front end of db/cache/cache.cc: a string -> string map bounded by
 * `capacity`, which reports lookups and insertions to the file's own LFU policy copy.
 *
 * Because that policy never evicts anything (its `frequencies` list stays null), the
 * front end's capacity check evicts nothing either, and the value map keeps growing.
 */
module LookasideCache {
  import opened Options
  import opened CacheLfu

  /** cache.h: the default capacity in number of entries. */
  const DEFAULT_CACHE_SIZE: nat := 1024

  /** The in-band miss marker Lookup returns. */
  const NOT_FOUND: string := "ECACHENOTFOUND"

  /** lookaside_cache_policy; the constructor's switch treats every value as LFU. */
  datatype PolicyKind = CachePolicyLfu | OtherPolicy(code: nat)

  /** cache_options: the two fields the constructor reads. */
  datatype CacheOptions = CacheOptions(numEntries: nat, policy: PolicyKind)

  class Cache {
    /** The source's `map`: the stored values. */
    var values: map<Key, string>
    var capacity: nat
    const policy: LfuPolicy

    /** The policy is in its reachable shape and tracks exactly the stored keys. */
    ghost predicate Valid()
      reads this, policy
    {
      policy.Valid() && values.Keys == policy.table.Keys
    }

    /** The access counts the policy keeps for the stored keys. */
    ghost function Counts(): map<Key, nat>
      reads policy
    {
      policy.Counts()
    }

    /** cache(): a cache of DEFAULT_CACHE_SIZE entries. */
    constructor ()
      ensures values == map[] && capacity == DEFAULT_CACHE_SIZE
      ensures fresh(policy) && Valid() && Counts() == map[] && policy.Bounded()
    {
      values := map[];
      capacity := DEFAULT_CACHE_SIZE;
      policy := new LfuPolicy(DEFAULT_CACHE_SIZE);
    }

    /** cache(c): an empty cache of capacity c with an LFU policy. */
    constructor WithCapacity(c: nat)
      ensures values == map[] && capacity == c
      ensures fresh(policy) && Valid() && Counts() == map[] && policy.Bounded()
    {
      values := map[];
      capacity := c;
      policy := new LfuPolicy(c);
    }

    /** cache(options): capacity from `numEntries`; the policy is LFU whatever was asked. */
    constructor FromOptions(options: CacheOptions)
      ensures values == map[] && capacity == options.numEntries
      ensures fresh(policy) && Valid() && Counts() == map[] && policy.Bounded()
    {
      values := map[];
      capacity := options.numEntries;
      match options.policy {
        case CachePolicyLfu =>
          policy := new LfuPolicy(options.numEntries);
        case OtherPolicy(_) =>
          policy := new LfuPolicy(options.numEntries);
      }
    }

    /**
     * Lookup: a stored key yields its value and one access is reported to the policy; a
     * missing key yields NOT_FOUND and the policy is not consulted.
     */
    method Lookup(key: Key) returns (res: string, status: Status)
      requires policy.Bounded()
      modifies policy
      ensures policy.Bounded()
      ensures key !in values ==> res == NOT_FOUND && status == Done && unchanged(policy)
      ensures key in values ==> res == values[key]
      ensures old(Valid()) ==> status == Done && Valid()
      ensures old(Valid()) && key in values ==> Counts() == old(Counts())[key := old(Counts())[key] + 1]
    {
      if key !in values {
        return NOT_FOUND, Done;
      }
      res := values[key];
      status := policy.MarkAccess(key);
    }

    /**
     * Insert: when Lookup finds the key, nothing is stored (the lookup still counts as an
     * access). Otherwise, when the map is full, the policy is asked to evict once and its
     * answer is dropped; then the value is stored and the key registered with the policy.
     * A stored value equal to NOT_FOUND reads as a miss, so it is overwritten.
     */
    method Insert(key: Key, value: string) returns (status: Status)
      requires policy.Bounded()
      modifies this, policy
      ensures policy.Bounded() && capacity == old(capacity)
      ensures old(Valid()) ==> status == Done && Valid()
      ensures old(Valid()) && key in old(values) && old(values)[key] != NOT_FOUND ==>
        values == old(values) && Counts() == old(Counts())[key := old(Counts())[key] + 1]
      ensures old(Valid()) && (key !in old(values) || old(values)[key] == NOT_FOUND) ==>
        values == old(values)[key := value] && Counts() == old(Counts())[key := 1]
      ensures old(Valid()) && key !in old(values) ==> |values| == |old(values)| + 1
    {
      ghost var valid0, counts0, hit := Valid(), Counts(), key in values;
      var found;
      found, status := Lookup(key);
      ghost var counts1 := Counts();
      assert valid0 && hit ==> counts1 == counts0[key := counts0[key] + 1];
      assert valid0 && !hit ==> counts1 == counts0;
      if status == Fault || found != NOT_FOUND {
        return;
      }
      status := Store(key, value);
      if valid0 {
        Overwrite(counts0, counts1, key, 1);
        if key !in old(values) {
          Grow(old(values), key, value);
        }
      }
    }

    /**
     * The rest of Insert after a missed lookup: one eviction request when the map is
     * full, whose answer is dropped, then the value is stored and the key registered.
     */
    method Store(key: Key, value: string) returns (status: Status)
      requires policy.Bounded()
      modifies this, policy
      ensures policy.Bounded() && capacity == old(capacity)
      ensures old(Valid()) ==>
        && status == Done && Valid()
        && values == old(values)[key := value] && Counts() == old(Counts())[key := 1]
    {
      if |values| == capacity {
        var evicted;
        evicted, status := policy.Evict();
        if status == Fault {
          return;
        }
      }
      values := values[key := value];
      status := policy.MarkInsertion(key);
    }

    /**
     * Update: when Lookup finds the key nothing is written; otherwise the value is stored
     * and an access is reported for the key. For a key that was never stored, the policy
     * has no node for it and the report dereferences a null pointer.
     */
    method Update(key: Key, value: string) returns (status: Status)
      requires policy.Bounded()
      modifies this, policy
      ensures policy.Bounded() && capacity == old(capacity)
      ensures old(Valid()) && key in old(values) && old(values)[key] != NOT_FOUND ==>
        status == Done && Valid() && values == old(values)
        && Counts() == old(Counts())[key := old(Counts())[key] + 1]
      ensures old(Valid()) && key in old(values) && old(values)[key] == NOT_FOUND ==>
        status == Done && Valid() && values == old(values)[key := value]
        && Counts() == old(Counts())[key := old(Counts())[key] + 2]
      ensures old(Valid()) && key !in old(values) ==>
        status == Fault && values == old(values)[key := value]
        && policy.table == old(policy.table)[key := None]
    {
      ghost var valid0, counts0, hit := Valid(), Counts(), key in values;
      assert valid0 && !hit ==> key !in policy.table;
      var found;
      found, status := Lookup(key);
      ghost var counts1 := Counts();
      assert valid0 && hit ==> counts1 == counts0[key := counts0[key] + 1];
      if status == Fault || found != NOT_FOUND {
        return;
      }
      ghost var valid1 := Valid();
      assert valid0 ==> valid1;
      status := Refresh(key, value);
      ghost var counts2 := Counts();
      assert valid1 && hit ==> counts2 == counts1[key := counts1[key] + 1];
      if valid0 && hit {
        BumpTwice(counts0, counts1, counts2, key);
      }
    }

    /** The rest of Update after a missed lookup: the value is stored and an access reported. */
    method Refresh(key: Key, value: string) returns (status: Status)
      requires policy.Bounded()
      modifies this, policy
      ensures policy.Bounded() && capacity == old(capacity)
      ensures values == old(values)[key := value]
      ensures key !in old(policy.table) ==> status == Fault && policy.table == old(policy.table)[key := None]
      ensures old(Valid()) && key in old(values) ==>
        status == Done && Valid() && Counts() == old(Counts())[key := old(Counts())[key] + 1]
    {
      values := values[key := value];
      status := policy.MarkAccess(key);
    }
  }

  /** Setting an entry twice leaves only the second value. */
  lemma Overwrite(counts0: map<Key, nat>, counts1: map<Key, nat>, key: Key, n: nat)
    requires key in counts0 ==> counts1 == counts0[key := counts0[key] + 1]
    requires key !in counts0 ==> counts1 == counts0
    ensures counts1[key := n] == counts0[key := n]
  {
  }

  /** Storing a new key adds one entry. */
  lemma Grow(values: map<Key, string>, key: Key, value: string)
    requires key !in values
    ensures |values[key := value]| == |values| + 1
  {
  }

  /** Two successive bumps of one entry add two to it. */
  lemma BumpTwice(counts0: map<Key, nat>, counts1: map<Key, nat>, counts2: map<Key, nat>, key: Key)
    requires key in counts0
    requires counts1 == counts0[key := counts0[key] + 1]
    requires counts2 == counts1[key := counts1[key] + 1]
    ensures counts2 == counts0[key := counts0[key] + 2]
  {
  }
}
