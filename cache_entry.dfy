/** The cache entry that both eviction policies annotate (db/cache/cache_entry.h). */
module CacheEntries {
  import opened Options

  type Key = string

  /** Handle of a policy's key node: the node's address in the source. */
  type NodeId = nat

  class CacheEntry {
    /** The cached value. */
    var value: string
    /** The policy's key node for this entry (`extra`); `None` is the null pointer. */
    var extra: Option<NodeId>

    /** The source leaves `extra` uninitialised; the model starts it at null. */
    constructor (v: string)
      ensures value == v && extra == None
    {
      value := v;
      extra := None;
    }
  }
}
