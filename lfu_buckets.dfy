/**
 * The frequency list of the constant-time LFU policy (db/cache/policies/lfu_policy.cc)
 * as a value: a sequence of frequency nodes ("buckets"), lowest frequency first, each
 * holding the handles of its key nodes, most recently added first. The pointer
 * rewiring of the source becomes sequence surgery; this module states what each
 * operation does to the list and proves the invariants it keeps.
 */
module LfuBuckets {
  import opened Seqs
  import opened CacheEntries

  datatype FrequencyNode = FrequencyNode(frequency: nat, keys: seq<NodeId>) {

    /** lfu_frequency_node::AddKey: the key node becomes the head of the key list. */
    function AddKey(node: NodeId): FrequencyNode
    {
      FrequencyNode(frequency, [node] + keys)
    }

    /**
     * lfu_frequency_node::RemoveKey: the key node's neighbours are joined; when it
     * had no predecessor the bucket's head moves to its successor.
     */
    function RemoveKey(node: NodeId): FrequencyNode
    {
      FrequencyNode(frequency, Remove(keys, node))
    }
  }

  /** All key nodes linked into the buckets, with multiplicity. */
  function Nodes(fs: seq<FrequencyNode>): multiset<NodeId>
  {
    if fs == [] then multiset{} else multiset(fs[0].keys) + Nodes(fs[1..])
  }

  /** The frequency of the bucket holding `n` (the first one, if several do), 0 if none. */
  function Freq(fs: seq<FrequencyNode>, n: NodeId): nat
  {
    if fs == [] then 0
    else if n in fs[0].keys then fs[0].frequency
    else Freq(fs[1..], n)
  }

  /** Following the key node's `frequencyNode` pointer: the position of its bucket. */
  function BucketIndex(fs: seq<FrequencyNode>, n: NodeId): (i: nat)
    requires n in Nodes(fs)
    ensures i < |fs| && n in fs[i].keys && Freq(fs, n) == fs[i].frequency
  {
    if n in fs[0].keys then 0 else 1 + BucketIndex(fs[1..], n)
  }

  ghost predicate NoDuplicates(m: multiset<NodeId>)
  {
    forall n :: m[n] <= 1
  }

  /** Bucket frequencies strictly increase along the list. */
  ghost predicate Ascending(fs: seq<FrequencyNode>)
  {
    forall i, j :: 0 <= i < j < |fs| ==> fs[i].frequency < fs[j].frequency
  }

  /** Every bucket counts at least one access and holds at least one key node. */
  ghost predicate Populated(fs: seq<FrequencyNode>)
  {
    forall i :: 0 <= i < |fs| ==> fs[i].frequency >= 1 && fs[i].keys != []
  }

  ghost predicate WellFormed(fs: seq<FrequencyNode>)
  {
    Ascending(fs) && Populated(fs) && NoDuplicates(Nodes(fs))
  }

  /** DeleteFrequencyNode applied to a bucket that has just become empty. */
  function KeepUnlessEmpty(b: FrequencyNode): seq<FrequencyNode>
  {
    if b.keys == [] then [] else [b]
  }

  /**
   * MarkInsertion: the new key node heads the frequency-1 bucket at the front of the
   * list; that bucket is created when the list is empty or starts at another frequency.
   */
  function InsertNode(fs: seq<FrequencyNode>, node: NodeId): seq<FrequencyNode>
  {
    if fs == [] || fs[0].frequency != 1 then [FrequencyNode(1, [node])] + fs
    else [fs[0].AddKey(node)] + fs[1..]
  }

  /** Whether bucket i is followed by the bucket of the next frequency. */
  predicate SuccessorFollows(fs: seq<FrequencyNode>, i: nat)
    requires i < |fs|
  {
    i + 1 < |fs| && fs[i + 1].frequency == fs[i].frequency + 1
  }

  /** How many buckets from i on MarkAccess rewires: bucket i, and its successor if there is one. */
  function Span(fs: seq<FrequencyNode>, i: nat): nat
    requires i < |fs|
  {
    if SuccessorFollows(fs, i) then 2 else 1
  }

  /**
   * What replaces those buckets: bucket i without the key node (unlinked if that empties
   * it), then the bucket of the next frequency with the key node at its head, created
   * when it did not exist.
   */
  function PromotedMid(fs: seq<FrequencyNode>, i: nat, node: NodeId): seq<FrequencyNode>
    requires i < |fs|
  {
    var dst := if SuccessorFollows(fs, i) then fs[i + 1].AddKey(node)
               else FrequencyNode(fs[i].frequency + 1, [node]);
    KeepUnlessEmpty(fs[i].RemoveKey(node)) + [dst]
  }

  /**
   * MarkAccess: the key node moves from bucket i (frequency f) to the head of the
   * bucket of frequency f + 1, which is created right after bucket i unless the next
   * bucket already has that frequency; bucket i is unlinked when it becomes empty.
   */
  function Promote(fs: seq<FrequencyNode>, i: nat, node: NodeId): seq<FrequencyNode>
    requires i < |fs|
  {
    fs[..i] + PromotedMid(fs, i, node) + fs[i + Span(fs, i)..]
  }

  /** EvictKeyNode (corrected): the key node is unlinked from bucket i, which goes when empty. */
  function EvictAt(fs: seq<FrequencyNode>, i: nat, node: NodeId): seq<FrequencyNode>
    requires i < |fs|
  {
    fs[..i] + KeepUnlessEmpty(fs[i].RemoveKey(node)) + fs[i + 1..]
  }

  /**
   * EvictKeyNode as written: the bucket's head is set to the evicted node's successor
   * whatever the node's position p, so the nodes before it fall out of the list.
   */
  function EvictAtAsWritten(fs: seq<FrequencyNode>, i: nat, p: nat): seq<FrequencyNode>
    requires i < |fs| && p < |fs[i].keys|
  {
    fs[..i] + KeepUnlessEmpty(FrequencyNode(fs[i].frequency, fs[i].keys[p + 1..])) + fs[i + 1..]
  }

  // ---------------------------------------------------------------------------
  // Lemmas about the node multiset and the frequency view
  // ---------------------------------------------------------------------------

  lemma {:induction false} NodesConcat(a: seq<FrequencyNode>, b: seq<FrequencyNode>)
    ensures Nodes(a + b) == Nodes(a) + Nodes(b)
  {
    if a == [] {
      assert a + b == b;
    } else {
      assert (a + b)[1..] == a[1..] + b;
      NodesConcat(a[1..], b);
    }
  }

  lemma {:induction false} FreqConcat(a: seq<FrequencyNode>, b: seq<FrequencyNode>, n: NodeId)
    ensures Freq(a + b, n) == if n in Nodes(a) then Freq(a, n) else Freq(b, n)
  {
    if a == [] {
      assert a + b == b;
    } else {
      assert (a + b)[1..] == a[1..] + b;
      FreqConcat(a[1..], b, n);
    }
  }

  lemma {:induction false} InNodes(fs: seq<FrequencyNode>, i: nat, n: NodeId)
    requires i < |fs| && n in fs[i].keys
    ensures n in Nodes(fs)
  {
    if i > 0 {
      InNodes(fs[1..], i - 1, n);
    }
  }

  /** Without duplicates, a node's frequency is that of the bucket that holds it. */
  lemma {:induction false} FreqOfMember(fs: seq<FrequencyNode>, i: nat, n: NodeId)
    requires NoDuplicates(Nodes(fs)) && i < |fs| && n in fs[i].keys
    ensures Freq(fs, n) == fs[i].frequency
  {
    if i > 0 {
      InNodes(fs[1..], i - 1, n);
      assert Nodes(fs)[n] == multiset(fs[0].keys)[n] + Nodes(fs[1..])[n];
      assert n !in fs[0].keys;
      assert NoDuplicates(Nodes(fs[1..])) by {
        forall m ensures Nodes(fs[1..])[m] <= 1 {
          assert Nodes(fs)[m] == multiset(fs[0].keys)[m] + Nodes(fs[1..])[m];
        }
      }
      FreqOfMember(fs[1..], i - 1, n);
    }
  }

  lemma {:induction false} NotInNodes(fs: seq<FrequencyNode>, n: NodeId)
    requires n !in Nodes(fs)
    ensures Freq(fs, n) == 0
  {
    if fs != [] {
      NotInNodes(fs[1..], n);
    }
  }

  lemma AscendingJoin(a: seq<FrequencyNode>, b: seq<FrequencyNode>)
    requires Ascending(a) && Ascending(b)
    requires a != [] && b != [] ==> a[|a| - 1].frequency < b[0].frequency
    ensures Ascending(a + b)
  {
    forall i, j | 0 <= i < j < |a + b| ensures (a + b)[i].frequency < (a + b)[j].frequency {
      if i < |a| <= j {
        assert a[i].frequency <= a[|a| - 1].frequency;
        assert b[0].frequency <= b[j - |a|].frequency;
      }
    }
  }

  /** Splicing: the node set and the frequency view of a three-part list. */
  lemma Concat3(a: seq<FrequencyNode>, b: seq<FrequencyNode>, c: seq<FrequencyNode>, n: NodeId)
    ensures Nodes(a + b + c) == Nodes(a) + Nodes(b) + Nodes(c)
    ensures Freq(a + b + c, n) ==
      if n in Nodes(a) then Freq(a, n) else if n in Nodes(b) then Freq(b, n) else Freq(c, n)
  {
    NodesConcat(a + b, c);
    NodesConcat(a, b);
    FreqConcat(a + b, c, n);
    FreqConcat(a, b, n);
  }

  lemma NodesKeep(b: FrequencyNode)
    ensures Nodes([b]) == multiset(b.keys)
    ensures Nodes(KeepUnlessEmpty(b)) == multiset(b.keys)
  {
    assert [b][1..] == [];
  }

  // ---------------------------------------------------------------------------
  // What each operation does
  // ---------------------------------------------------------------------------

  /**
   * MarkInsertion keeps the list well formed, adds exactly the new node, gives it
   * frequency 1 at the head of the front bucket, and leaves every other node's
   * frequency alone.
   */
  lemma InsertNodeSpec(fs: seq<FrequencyNode>, node: NodeId)
    requires WellFormed(fs) && node !in Nodes(fs)
    ensures var r := InsertNode(fs, node);
      && WellFormed(r)
      && Nodes(r) == Nodes(fs) + multiset{node}
      && r[0].frequency == 1 && r[0].keys[0] == node
      && Freq(r, node) == 1
      && forall n :: n != node ==> Freq(r, n) == Freq(fs, n)
  {
    var r := InsertNode(fs, node);
    InsertNodeFrequencies(fs, node);
    InsertNodeShape(fs, node);
    forall m ensures Nodes(r)[m] <= 1 {
      assert m == node ==> Nodes(fs)[m] == 0;
    }
  }

  /** InsertNode keeps the buckets ascending and populated, with the node heading the first. */
  lemma InsertNodeShape(fs: seq<FrequencyNode>, node: NodeId)
    requires Ascending(fs) && Populated(fs)
    ensures var r := InsertNode(fs, node);
      Ascending(r) && Populated(r) && r[0].frequency == 1 && r[0].keys[0] == node
  {
    var r := InsertNode(fs, node);
    if fs == [] || fs[0].frequency != 1 {
      assert r[1..] == fs;
      forall i, j | 0 <= i < j < |r| ensures r[i].frequency < r[j].frequency {
        if i == 0 {
          assert fs[0].frequency <= fs[j - 1].frequency;
        }
      }
    } else {
      assert r[1..] == fs[1..];
    }
  }

  lemma InsertNodeFrequencies(fs: seq<FrequencyNode>, node: NodeId)
    requires node !in Nodes(fs)
    ensures var r := InsertNode(fs, node);
      && Nodes(r) == Nodes(fs) + multiset{node}
      && Freq(r, node) == 1
      && forall n :: n != node ==> Freq(r, n) == Freq(fs, n)
  {
    var r := InsertNode(fs, node);
    if fs == [] || fs[0].frequency != 1 {
      assert r[1..] == fs;
    } else {
      assert r[1..] == fs[1..];
      assert Nodes(r) == multiset([node] + fs[0].keys) + Nodes(fs[1..]);
    }
  }

  /** A list cut at i and j: its node set and frequency view, part by part. */
  lemma Cut(fs: seq<FrequencyNode>, i: nat, j: nat, n: NodeId)
    requires i <= j <= |fs|
    ensures Nodes(fs) == Nodes(fs[..i]) + Nodes(fs[i..j]) + Nodes(fs[j..])
    ensures Freq(fs, n) ==
      if n in Nodes(fs[..i]) then Freq(fs[..i], n)
      else if n in Nodes(fs[i..j]) then Freq(fs[i..j], n)
      else Freq(fs[j..], n)
  {
    assert fs == fs[..i] + fs[i..j] + fs[j..];
    Concat3(fs[..i], fs[i..j], fs[j..], n);
  }

  /**
   * Replacing buckets i..j by `mid`, which holds the same nodes at the same frequencies
   * except possibly `node`, keeps the node set and every other node's frequency.
   */
  lemma Splice(fs: seq<FrequencyNode>, i: nat, j: nat, mid: seq<FrequencyNode>, node: NodeId)
    requires i <= j <= |fs|
    requires forall n :: n != node ==> Freq(mid, n) == Freq(fs[i..j], n)
    ensures Nodes(fs[..i] + mid + fs[j..]) + Nodes(fs[i..j]) == Nodes(fs) + Nodes(mid)
    ensures forall n :: n != node && (n in Nodes(mid) <==> n in Nodes(fs[i..j])) ==>
      Freq(fs[..i] + mid + fs[j..], n) == Freq(fs, n)
  {
    forall n | n != node && (n in Nodes(mid) <==> n in Nodes(fs[i..j]))
      ensures Freq(fs[..i] + mid + fs[j..], n) == Freq(fs, n)
    {
      Cut(fs, i, j, n);
      Concat3(fs[..i], mid, fs[j..], n);
    }
    Cut(fs, i, j, node);
    Concat3(fs[..i], mid, fs[j..], node);
  }

  /** A bucket and its successor, seen as a two-element list. */
  lemma NodesPair(fs: seq<FrequencyNode>, i: nat, n: NodeId)
    requires i + 1 < |fs|
    ensures Nodes(fs[i..i + 2]) == multiset(fs[i].keys) + multiset(fs[i + 1].keys)
    ensures Freq(fs[i..i + 2], n) ==
      if n in fs[i].keys then fs[i].frequency
      else if n in fs[i + 1].keys then fs[i + 1].frequency else 0
  {
    assert fs[i..i + 2] == [fs[i]] + [fs[i + 1]];
    NodesKeep(fs[i]);
    NodesKeep(fs[i + 1]);
    NodesConcat([fs[i]], [fs[i + 1]]);
    FreqConcat([fs[i]], [fs[i + 1]], n);
  }

  lemma NodesOne(fs: seq<FrequencyNode>, i: nat, n: NodeId)
    requires i < |fs|
    ensures Nodes(fs[i..i + 1]) == multiset(fs[i].keys)
    ensures Freq(fs[i..i + 1], n) == if n in fs[i].keys then fs[i].frequency else 0
  {
    assert fs[i..i + 1] == [fs[i]];
    NodesKeep(fs[i]);
  }

  /** The bucket of the middle that gains the node. */
  function Destination(fs: seq<FrequencyNode>, i: nat, node: NodeId): FrequencyNode
    requires i < |fs|
  {
    PromotedMid(fs, i, node)[|PromotedMid(fs, i, node)| - 1]
  }

  /** The rewired middle: what is left of bucket i, then the bucket that gains the node. */
  lemma MidShape(fs: seq<FrequencyNode>, i: nat, node: NodeId)
    requires i < |fs|
    ensures var dst := Destination(fs, i, node);
      && PromotedMid(fs, i, node) == KeepUnlessEmpty(fs[i].RemoveKey(node)) + [dst]
      && dst.keys == [node] + (if SuccessorFollows(fs, i) then fs[i + 1].keys else [])
      && dst.frequency == fs[i].frequency + 1
  {
  }

  lemma MidNodes(fs: seq<FrequencyNode>, i: nat, node: NodeId)
    requires i < |fs|
    ensures Nodes(PromotedMid(fs, i, node)) ==
      multiset(fs[i].RemoveKey(node).keys) + multiset(Destination(fs, i, node).keys)
  {
    var src := fs[i].RemoveKey(node);
    var dst := Destination(fs, i, node);
    MidShape(fs, i, node);
    NodesKeep(src);
    NodesKeep(dst);
    NodesConcat(KeepUnlessEmpty(src), [dst]);
  }

  lemma MidFreq(fs: seq<FrequencyNode>, i: nat, node: NodeId, n: NodeId)
    requires i < |fs|
    ensures var dst := Destination(fs, i, node);
      Freq(PromotedMid(fs, i, node), n) ==
        if n in fs[i].RemoveKey(node).keys then fs[i].frequency
        else if n in dst.keys then dst.frequency else 0
  {
    var src := fs[i].RemoveKey(node);
    var dst := Destination(fs, i, node);
    MidShape(fs, i, node);
    NodesKeep(src);
    assert [dst][1..] == [];
    FreqConcat(KeepUnlessEmpty(src), [dst], n);
  }

  /** The rewired middle holds the same nodes as the buckets it replaces. */
  lemma PromotedMidNodes(fs: seq<FrequencyNode>, i: nat, node: NodeId)
    requires i < |fs| && node in fs[i].keys
    ensures Nodes(PromotedMid(fs, i, node)) == Nodes(fs[i..i + Span(fs, i)])
  {
    MidShape(fs, i, node);
    MidNodes(fs, i, node);
    RemoveRestore(fs[i].keys, node);
    if SuccessorFollows(fs, i) {
      NodesPair(fs, i, node);
    } else {
      NodesOne(fs, i, node);
    }
  }

  /** ... and every node but the accessed one at the frequency it had. */
  lemma PromotedMidFreq(fs: seq<FrequencyNode>, i: nat, node: NodeId, n: NodeId)
    requires i < |fs| && n != node
    ensures Freq(PromotedMid(fs, i, node), n) == Freq(fs[i..i + Span(fs, i)], n)
  {
    MidShape(fs, i, node);
    MidFreq(fs, i, node, n);
    RemoveOther(fs[i].keys, node, n);
    if SuccessorFollows(fs, i) {
      NodesPair(fs, i, n);
    } else {
      NodesOne(fs, i, n);
    }
  }

  /** The accessed node, present once, ends in the middle's last bucket only. */
  lemma PromotedMidNode(fs: seq<FrequencyNode>, i: nat, node: NodeId)
    requires i < |fs| && multiset(fs[i].keys)[node] == 1
    ensures Freq(PromotedMid(fs, i, node), node) == fs[i].frequency + 1
  {
    var src := fs[i].RemoveKey(node);
    var mid := PromotedMid(fs, i, node);
    var dst := mid[|mid| - 1];
    assert mid == KeepUnlessEmpty(src) + [dst];
    NodesKeep(src);
    FreqConcat(KeepUnlessEmpty(src), [dst], node);
    assert node !in src.keys by {
      RemoveMultiset(fs[i].keys, node);
      assert multiset(src.keys)[node] == 0;
    }
  }

  /**
   * MarkAccess keeps the list well formed and the node set unchanged; the accessed node
   * goes from frequency f to f + 1 and heads its new bucket, which sits right after
   * bucket i (in bucket i's place when that one emptied); every other node keeps its
   * frequency.
   */
  lemma PromoteSpec(fs: seq<FrequencyNode>, i: nat, node: NodeId)
    requires WellFormed(fs) && i < |fs| && node in fs[i].keys
    ensures var r := Promote(fs, i, node);
      var j := if |fs[i].keys| == 1 then i else i + 1;
      && WellFormed(r)
      && Nodes(r) == Nodes(fs)
      && j < |r| && r[j].frequency == fs[i].frequency + 1 && r[j].keys[0] == node
      && Freq(r, node) == Freq(fs, node) + 1
      && forall n :: n != node ==> Freq(r, n) == Freq(fs, n)
  {
    PromoteFrequencies(fs, i, node);
    PromoteShape(fs, i, node);
  }

  lemma PromoteFrequencies(fs: seq<FrequencyNode>, i: nat, node: NodeId)
    requires NoDuplicates(Nodes(fs)) && i < |fs| && node in fs[i].keys
    ensures var r := Promote(fs, i, node);
      && Nodes(r) == Nodes(fs)
      && Freq(r, node) == fs[i].frequency + 1
      && Freq(fs, node) == fs[i].frequency
      && forall n :: n != node ==> Freq(r, n) == Freq(fs, n)
  {
    var j := i + Span(fs, i);
    var mid := PromotedMid(fs, i, node);
    assert Nodes(Promote(fs, i, node)) == Nodes(fs) &&
      forall n :: n != node ==> Freq(Promote(fs, i, node), n) == Freq(fs, n)
    by {
      PromotedMidNodes(fs, i, node);
      forall n | n != node ensures Freq(mid, n) == Freq(fs[i..j], n) {
        PromotedMidFreq(fs, i, node, n);
      }
      Splice(fs, i, j, mid, node);
      CancelSame(Nodes(Promote(fs, i, node)), Nodes(mid), Nodes(fs));
    }
    assert Freq(Promote(fs, i, node), node) == fs[i].frequency + 1 by {
      SoleBucket(fs, i, node);
      PromotedMidNode(fs, i, node);
      PromotedMidNodes(fs, i, node);
      assert node in Nodes(fs[i..j]) by {
        Cut(fs, i, j, node);
        InNodes(fs, i, node);
      }
      Concat3(fs[..i], mid, fs[j..], node);
    }
    FreqOfMember(fs, i, node);
  }

  /** Without duplicates, the node in bucket i is there once and in no earlier bucket. */
  lemma SoleBucket(fs: seq<FrequencyNode>, i: nat, node: NodeId)
    requires NoDuplicates(Nodes(fs)) && i < |fs| && node in fs[i].keys
    ensures multiset(fs[i].keys)[node] == 1 && node !in Nodes(fs[..i])
  {
    Cut(fs, i, i + 1, node);
    NodesOne(fs, i, node);
    assert Nodes(fs)[node] == Nodes(fs[..i])[node] + multiset(fs[i].keys)[node] + Nodes(fs[i + 1..])[node];
  }

  lemma CancelSame(a: multiset<NodeId>, b: multiset<NodeId>, c: multiset<NodeId>)
    requires a + b == c + b
    ensures a == c
  {
    forall m ensures a[m] == c[m] {
      assert (a + b)[m] == (c + b)[m];
    }
  }

  /** Cancelling the removed element in a multiset equation. */
  lemma CancelOne(a: multiset<NodeId>, b: multiset<NodeId>, c: multiset<NodeId>, d: multiset<NodeId>, x: NodeId)
    requires a + b == c + d && d == b - multiset{x} && x in b
    ensures a + multiset{x} == c
  {
    forall m ensures (a + multiset{x})[m] == c[m] {
      assert (a + b)[m] == (c + d)[m];
    }
  }

  lemma PromoteShape(fs: seq<FrequencyNode>, i: nat, node: NodeId)
    requires Ascending(fs) && Populated(fs) && i < |fs| && node in fs[i].keys
    ensures var r := Promote(fs, i, node);
      var j := if |fs[i].keys| == 1 then i else i + 1;
      && Ascending(r) && Populated(r)
      && j < |r| && r[j].frequency == fs[i].frequency + 1 && r[j].keys[0] == node
  {
    var f := fs[i].frequency;
    var pre := fs[..i];
    var mid := PromotedMid(fs, i, node);
    var tail := fs[i + Span(fs, i)..];
    var src := fs[i].RemoveKey(node);
    var dst := mid[|mid| - 1];
    assert mid == KeepUnlessEmpty(src) + [dst];
    assert dst.frequency == f + 1 && dst.keys[0] == node;
    // the new bucket's place
    if |fs[i].keys| == 1 {
      assert |src.keys| == 0;
    }
    assert Promote(fs, i, node)[if |fs[i].keys| == 1 then i else i + 1] == dst;
    // ordering, joint by joint
    assert Ascending(mid) && Populated(mid);
    assert Ascending(pre) && Populated(pre) by {
      forall k | 0 <= k < |pre| ensures pre[k] == fs[k] { }
    }
    assert Ascending(tail) && Populated(tail) by {
      forall k | 0 <= k < |tail| ensures tail[k] == fs[i + Span(fs, i) + k] { }
    }
    assert pre != [] ==> pre[|pre| - 1].frequency < f;
    assert tail != [] ==> f + 1 < tail[0].frequency by {
      if tail != [] && SuccessorFollows(fs, i) {
        assert fs[i + 1].frequency < fs[i + 2].frequency;
      }
    }
    AscendingJoin(pre, mid);
    PopulatedJoin(pre, mid);
    AscendingJoin(pre + mid, tail);
    PopulatedJoin(pre + mid, tail);
  }

  lemma PopulatedJoin(a: seq<FrequencyNode>, b: seq<FrequencyNode>)
    requires Populated(a) && Populated(b)
    ensures Populated(a + b)
  {
    forall k | 0 <= k < |a + b| ensures (a + b)[k].frequency >= 1 && (a + b)[k].keys != [] {
      if k >= |a| {
        assert (a + b)[k] == b[k - |a|];
      }
    }
  }

  /**
   * Evicting a node from its bucket keeps the list well formed, removes exactly that
   * node, and leaves every other node's frequency alone.
   */
  lemma EvictAtSpec(fs: seq<FrequencyNode>, i: nat, node: NodeId)
    requires WellFormed(fs) && i < |fs| && node in fs[i].keys
    ensures var r := EvictAt(fs, i, node);
      && WellFormed(r)
      && Nodes(r) + multiset{node} == Nodes(fs)
      && Freq(r, node) == 0
      && forall n :: n != node ==> Freq(r, n) == Freq(fs, n)
  {
    var r := EvictAt(fs, i, node);
    EvictAtFrequencies(fs, i, node);
    assert NoDuplicates(Nodes(r)) by {
      forall m ensures Nodes(r)[m] <= 1 {
        assert Nodes(r)[m] <= Nodes(fs)[m];
      }
    }
    assert node !in Nodes(r) by {
      assert Nodes(fs)[node] == Nodes(r)[node] + 1;
    }
    NotInNodes(r, node);
    EvictAtShape(fs, i, node);
  }

  lemma EvictAtFrequencies(fs: seq<FrequencyNode>, i: nat, node: NodeId)
    requires i < |fs| && node in fs[i].keys
    ensures Nodes(EvictAt(fs, i, node)) + multiset{node} == Nodes(fs)
    ensures forall n :: n != node ==> Freq(EvictAt(fs, i, node), n) == Freq(fs, n)
  {
    var src := fs[i].RemoveKey(node);
    var mid := KeepUnlessEmpty(src);
    NodesKeep(src);
    forall n | n != node ensures Freq(mid, n) == Freq(fs[i..i + 1], n) {
      NodesOne(fs, i, n);
      RemoveOther(fs[i].keys, node, n);
    }
    NodesOne(fs, i, node);
    Splice(fs, i, i + 1, mid, node);
    assert Nodes(EvictAt(fs, i, node)) + multiset{node} == Nodes(fs) by {
      RemoveMultiset(fs[i].keys, node);
      CancelOne(Nodes(EvictAt(fs, i, node)), Nodes(fs[i..i + 1]), Nodes(fs), Nodes(mid), node);
    }
    forall n | n != node ensures n in Nodes(mid) <==> n in Nodes(fs[i..i + 1]) {
      RemoveOther(fs[i].keys, node, n);
    }
  }

  lemma EvictAtShape(fs: seq<FrequencyNode>, i: nat, node: NodeId)
    requires Ascending(fs) && Populated(fs) && i < |fs|
    ensures Ascending(EvictAt(fs, i, node)) && Populated(EvictAt(fs, i, node))
  {
    var mid := KeepUnlessEmpty(fs[i].RemoveKey(node));
    var pre := fs[..i];
    var tail := fs[i + 1..];
    assert Ascending(pre) && Populated(pre) by {
      forall k | 0 <= k < |pre| ensures pre[k] == fs[k] { }
    }
    assert Ascending(tail) && Populated(tail) by {
      forall k | 0 <= k < |tail| ensures tail[k] == fs[i + 1 + k] { }
    }
    assert pre != [] ==> pre[|pre| - 1].frequency < fs[i].frequency;
    assert tail != [] ==> fs[i].frequency < tail[0].frequency;
    AscendingJoin(pre, mid);
    PopulatedJoin(pre, mid);
    AscendingJoin(pre + mid, tail);
    PopulatedJoin(pre + mid, tail);
  }

  /**
   * Evict() takes the head of the lowest bucket: no tracked node has a lower frequency,
   * and among the nodes of that frequency it is the one added last.
   */
  lemma EvictHeadIsLeastFrequent(fs: seq<FrequencyNode>)
    requires WellFormed(fs) && fs != []
    ensures fs[0].keys != [] && Freq(fs, fs[0].keys[0]) == fs[0].frequency
    ensures forall n :: n in Nodes(fs) ==> Freq(fs, fs[0].keys[0]) <= Freq(fs, n)
  {
    forall n | n in Nodes(fs) ensures fs[0].frequency <= Freq(fs, n) {
      var j := BucketIndex(fs, n);
      assert j == 0 || fs[0].frequency < fs[j].frequency;
    }
  }

  /**
   * EvictKeyNode as written loses every node in front of the evicted one: the list
   * afterwards holds the old nodes minus the first p + 1 of bucket i.
   */
  lemma EvictAtAsWrittenDropsPredecessors(fs: seq<FrequencyNode>, i: nat, p: nat)
    requires i < |fs| && p < |fs[i].keys|
    ensures Nodes(EvictAtAsWritten(fs, i, p)) + multiset(fs[i].keys[..p + 1]) == Nodes(fs)
  {
    var keys := fs[i].keys;
    var b := FrequencyNode(fs[i].frequency, keys[p + 1..]);
    var pre := fs[..i];
    var tail := fs[i + 1..];
    assert fs == pre + [fs[i]] + tail;
    assert keys == keys[..p + 1] + keys[p + 1..];
    NodesConcat(pre + [fs[i]], tail);
    NodesConcat(pre, [fs[i]]);
    NodesConcat(pre + KeepUnlessEmpty(b), tail);
    NodesConcat(pre, KeepUnlessEmpty(b));
    assert Nodes([fs[i]]) == multiset(keys);
    assert Nodes(KeepUnlessEmpty(b)) == multiset(keys[p + 1..]);
  }

  /**
   * The input that shows it: evicting the second node of a two-node bucket through its
   * cache entry empties the bucket and drops it, losing the first node, where the
   * corrected eviction keeps it.
   */
  lemma EvictNonHeadLosesKey()
    ensures EvictAtAsWritten([FrequencyNode(1, [10, 20])], 0, 1) == []
    ensures EvictAt([FrequencyNode(1, [10, 20])], 0, 20) == [FrequencyNode(1, [10])]
  {
    var fs := [FrequencyNode(1, [10, 20])];
    assert fs[0].keys[2..] == [];
    assert Remove([20], 20) == [];
    assert Remove([10, 20], 20) == [10];
    assert fs[..0] == [] && fs[1..] == [];
    assert fs[0].RemoveKey(20) == FrequencyNode(1, [10]);
    assert KeepUnlessEmpty(fs[0].RemoveKey(20)) == [FrequencyNode(1, [10])];
  }
}
