/** Sequence helpers shared by the eviction-policy models. */
module Seqs {

  /** No element occurs twice. */
  ghost predicate Distinct<T>(s: seq<T>)
  {
    forall i, j :: 0 <= i < j < |s| ==> s[i] != s[j]
  }

  /**
   * Reference definition of unlinking a node from a doubly linked list:
   * `s` with its first occurrence of `x` taken out, the rest in order.
   */
  function Remove<T(==)>(s: seq<T>, x: T): (r: seq<T>)
    ensures x in s ==> |r| == |s| - 1
    ensures x !in s ==> r == s
  {
    if s == [] then []
    else if s[0] == x then s[1..]
    else [s[0]] + Remove(s[1..], x)
  }

  /** Unlinking takes out exactly one occurrence of `x` and nothing else. */
  lemma {:induction false} RemoveMultiset<T>(s: seq<T>, x: T)
    ensures multiset(Remove(s, x)) == multiset(s) - multiset{x}
  {
    if s != [] {
      assert s == [s[0]] + s[1..];
      if s[0] != x {
        RemoveMultiset(s[1..], x);
      }
    }
  }

  /** Putting the unlinked element back gives the original contents. */
  lemma RemoveRestore<T>(s: seq<T>, x: T)
    requires x in s
    ensures multiset(Remove(s, x)) + multiset{x} == multiset(s)
  {
    RemoveMultiset(s, x);
  }

  /** Unlinking adds nothing. */
  lemma RemoveSubset<T>(s: seq<T>, x: T)
    ensures forall y :: y in Remove(s, x) ==> y in s
  {
    RemoveMultiset(s, x);
    forall y | y in Remove(s, x) ensures y in s {
      assert y in multiset(Remove(s, x));
    }
  }

  /** Every other element keeps its membership. */
  lemma RemoveOther<T>(s: seq<T>, x: T, y: T)
    requires y != x
    ensures y in Remove(s, x) <==> y in s
  {
    RemoveMultiset(s, x);
    assert multiset(Remove(s, x))[y] == multiset(s)[y];
  }

  /** Position of the first occurrence of `x`. */
  function IndexOf<T(==)>(s: seq<T>, x: T): (i: nat)
    requires x in s
    ensures i < |s| && s[i] == x && x !in s[..i]
  {
    if s[0] == x then 0
    else
      var j := IndexOf(s[1..], x);
      assert s[1..][..j] == s[1..j + 1];
      assert s[..j + 1] == [s[0]] + s[1..j + 1];
      1 + j
  }

  /** Unlinking the element at position `i` joins its two neighbours: the slices around it. */
  lemma {:induction false} RemoveAt<T>(s: seq<T>, i: nat)
    requires i < |s| && s[i] !in s[..i]
    ensures Remove(s, s[i]) == s[..i] + s[i + 1..]
  {
    if i > 0 {
      var t := s[1..];
      assert s[..i] == [s[0]] + t[..i - 1];
      assert t[i - 1] == s[i];
      RemoveAt(t, i - 1);
      assert t[i..] == s[i + 1..];
    }
  }

  lemma DistinctCons<T>(a: T, r: seq<T>)
    requires a !in r && Distinct(r)
    ensures Distinct([a] + r)
  {
    forall i, j | 0 <= i < j < |r| + 1 ensures ([a] + r)[i] != ([a] + r)[j] {
      if i > 0 {
        assert ([a] + r)[i] == r[i - 1];
      }
      assert ([a] + r)[j] == r[j - 1];
    }
  }

  /** In a list without repeats the unlinked element is gone for good. */
  lemma {:induction false} RemoveDistinct<T>(s: seq<T>, x: T)
    requires Distinct(s)
    ensures x !in Remove(s, x)
    ensures Distinct(Remove(s, x))
  {
    if s != [] {
      var t := s[1..];
      assert Distinct(t) by {
        forall i, j | 0 <= i < j < |t| ensures t[i] != t[j] {
          assert t[i] == s[i + 1] && t[j] == s[j + 1];
        }
      }
      assert s[0] !in t by {
        forall k | 0 <= k < |t| ensures t[k] != s[0] {
          assert t[k] == s[k + 1];
        }
      }
      if s[0] != x {
        RemoveDistinct(t, x);
        var r := Remove(t, x);
        assert s[0] !in r by {
          RemoveMultiset(t, x);
          assert multiset(r) <= multiset(t);
          assert s[0] !in multiset(t);
        }
        DistinctCons(s[0], r);
      }
    }
  }
}
