/**
 * Choosing command kinds: the kind pool, the uniform draw, the probability list built
 * from a partial distribution, and the weighted draw over it.
 *
 * Decimal arithmetic is modelled by exact reals; a draw of `random.random()` is a
 * parameter `u` in [0, 1).
 */
module WorkloadKinds {
  import opened Options
  import opened Seqs
  import opened Outcomes
  import opened WorkloadCommands
  import opened WorkloadText

  /** `[c for c in CommandKind]`. */
  const AllKinds: seq<CommandKind> := [Write, Read, Delete]

  /** A partial distribution: the probability given to some kinds. */
  type Distribution = map<CommandKind, real>

  /** The pool of generate_command_kind: every kind, READ only when reads are not excluded. */
  function Pool(excludeReads: bool): (pool: seq<CommandKind>)
    ensures Distinct(pool) && |pool| >= 2
    ensures forall c :: c in pool <==> c != Read || !excludeReads
  {
    KindsDistinct();
    if excludeReads then [Write, Delete] else AllKinds
  }

  /** AllKinds names every kind once. */
  lemma KindsDistinct()
    ensures Distinct(AllKinds) && Distinct([Write, Delete])
    ensures forall c :: c in AllKinds
    ensures forall c :: c in [Write, Delete] <==> c != Read
  {
    forall c ensures c in AllKinds {
      match c
      case Write => assert AllKinds[0] == c;
      case Read => assert AllKinds[1] == c;
      case Delete => assert AllKinds[2] == c;
    }
  }

  /** generate_command_kind_uniform: `pool[int(len(pool) * u)]`. */
  function KindUniform(pool: seq<CommandKind>, u: real): (kind: CommandKind)
    requires |pool| > 0 && 0.0 <= u < 1.0
    ensures kind in pool
  {
    pool[ScaledIndex(|pool|, u)]
  }

  /** Every kind of the pool is drawn by some `u`. */
  lemma KindUniformReaches(pool: seq<CommandKind>, i: nat)
    requires i < |pool|
    ensures 0.0 <= i as real / |pool| as real < 1.0
    ensures KindUniform(pool, i as real / |pool| as real) == pool[i]
  {
    ScaledIndexHits(|pool|, i);
  }

  /** The probability the distribution gives `c`, 0 when it gives none. */
  function Weight(d: Distribution, c: CommandKind): real
  {
    if c in d then d[c] else 0.0
  }

  /** The probabilities the distribution gives the kinds of `ks`. */
  function SumOver(ks: seq<CommandKind>, d: Distribution): real
  {
    if ks == [] then 0.0 else Weight(d, ks[0]) + SumOver(ks[1..], d)
  }

  /** How many kinds of `ks` the distribution lists. */
  function Listed(ks: seq<CommandKind>, d: Distribution): (n: nat)
    ensures n <= |ks|
  {
    if ks == [] then 0 else (if ks[0] in d then 1 else 0) + Listed(ks[1..], d)
  }

  /** `sum(distribution.values())`: each kind's probability counted once. */
  function Specified(d: Distribution): real
  {
    SumOver(AllKinds, d)
  }

  /** Dropping a kind the pool does not hold changes nothing the pool lists. */
  lemma {:induction false} ListedIgnores(ks: seq<CommandKind>, d: Distribution, x: CommandKind)
    requires x !in ks
    ensures Listed(ks, d - {x}) == Listed(ks, d)
  {
    if ks != [] {
      ListedIgnores(ks[1..], d, x);
    }
  }

  /**
   * A pool without repeats that holds every listed kind lists as many kinds as the
   * distribution has: `len(distribution)` is the number of listed kinds of the pool.
   */
  lemma {:induction false} ListedCount(ks: seq<CommandKind>, d: Distribution)
    requires Distinct(ks)
    requires forall c :: c in d ==> c in ks
    ensures Listed(ks, d) == |d|
  {
    if ks == [] {
      assert d.Keys == {};
    } else {
      var x, t := ks[0], ks[1..];
      var d' := d - {x};
      RemoveDistinct(ks, x);
      assert Remove(ks, x) == t;
      forall c | c in d' ensures c in t {
        RemoveOther(ks, x, c);
      }
      ListedCount(t, d');
      ListedIgnores(t, d, x);
      assert d'.Keys == d.Keys - {x};
      if x in d {
        assert d.Keys == d'.Keys + {x};
      }
    }
  }

  /** Taking one occurrence of `x` out of a pool takes out its weight and its listing. */
  lemma {:induction false} RemoveWeight(a: seq<CommandKind>, x: CommandKind, d: Distribution)
    requires x in a
    ensures SumOver(a, d) == Weight(d, x) + SumOver(Remove(a, x), d)
    ensures Listed(a, d) == (if x in d then 1 else 0) + Listed(Remove(a, x), d)
  {
    if a[0] != x {
      RemoveWeight(a[1..], x, d);
      assert Remove(a, x)[1..] == Remove(a[1..], x);
    }
  }

  /** Kinds the distribution does not list carry no weight. */
  lemma {:induction false} NoneListed(b: seq<CommandKind>, d: Distribution)
    requires forall x :: x in b ==> x !in d
    ensures SumOver(b, d) == 0.0 && Listed(b, d) == 0
  {
    if b != [] {
      NoneListed(b[1..], d);
    }
  }

  /**
   * Two pools without repeats that differ only in kinds the distribution does not list
   * carry the same listed weight and the same number of listed kinds.
   */
  lemma {:induction false} SameListed(a: seq<CommandKind>, b: seq<CommandKind>, d: Distribution)
    requires Distinct(a) && Distinct(b)
    requires forall x :: x in a ==> x in b
    requires forall x :: x in b && x !in a ==> x !in d
    ensures SumOver(a, d) == SumOver(b, d) && Listed(a, d) == Listed(b, d)
  {
    if a == [] {
      NoneListed(b, d);
    } else {
      var x, t := a[0], a[1..];
      RemoveDistinct(a, x);
      assert Remove(a, x) == t;
      var b' := Remove(b, x);
      RemoveDistinct(b, x);
      RemoveWeight(b, x, d);
      forall y | y in t ensures y in b' {
        RemoveOther(b, x, y);
      }
      forall y | y in b' && y !in t ensures y !in d {
        RemoveSubset(b, x);
      }
      SameListed(t, b', d);
    }
  }

  /** The share each unlisted kind gets: what the listed ones leave, split evenly. */
  function Share(pool: seq<CommandKind>, d: Distribution): real
  {
    if |pool| == |d| then 0.0 else (1.0 - Specified(d)) / (|pool| - |d|) as real
  }

  /** The probability of one kind of the pool. */
  function Probability(d: Distribution, share: real, c: CommandKind): real
  {
    if c in d then d[c] else share
  }

  /** The probabilities of the kinds of `pool`, in pool order. */
  function Probabilities(pool: seq<CommandKind>, d: Distribution, share: real): (ps: seq<real>)
    ensures |ps| == |pool|
    ensures forall i :: 0 <= i < |pool| ==> ps[i] == Probability(d, share, pool[i])
  {
    if pool == [] then [] else [Probability(d, share, pool[0])] + Probabilities(pool[1..], d, share)
  }

  /**
   * Reference definition of the corrected `_calculate_probability_list`: each kind of the
   * pool gets its listed probability or the even share; when an unlisted kind is reached
   * and the pool has no more kinds than the distribution, the decimal division raises.
   */
  function ProbabilityList(pool: seq<CommandKind>, d: Distribution): Outcome<seq<real>>
  {
    if Listed(pool, d) < |pool| && |pool| == |d| then
      Raised(if Specified(d) == 1.0 then InvalidOperation else DivisionByZero)
    else
      Returned(Probabilities(pool, d, Share(pool, d)))
  }

  /**
   * `_calculate_probability_list` as written: `probability_list` is never bound, so the
   * first append (or the return, for an empty pool) reads an undefined name. A decimal
   * division error can come first, when the first kind is unlisted.
   */
  function ProbabilityListAsWritten(pool: seq<CommandKind>, d: Distribution): (r: Outcome<seq<real>>)
    ensures r.Raised?
  {
    if pool != [] && pool[0] !in d && |pool| == |d| then
      Raised(if Specified(d) == 1.0 then InvalidOperation else DivisionByZero)
    else
      Raised(NameError)
  }

  /** The call generate_workload sets up raises NameError instead of giving [1/4, 1/2, 1/4]. */
  lemma ProbabilityListNameError()
    ensures ProbabilityListAsWritten(AllKinds, map[Read := 0.5]) == Raised(NameError)
    ensures ProbabilityList(AllKinds, map[Read := 0.5]) == Returned([0.25, 0.5, 0.25])
  {
    var d := map[Read := 0.5];
    assert Specified(d) == 0.5;
    assert |d| == 1;
    assert Listed(AllKinds, d) == 1 by {
      KindsDistinct();
      ListedCount(AllKinds, d);
    }
    assert Share(AllKinds, d) == 0.25;
    assert AllKinds[1..] == [Read, Delete] && AllKinds[1..][1..] == [Delete];
    assert Probabilities([Delete], d, 0.25) == [0.25];
    assert Probabilities([Read, Delete], d, 0.25) == [0.5, 0.25];
    assert Probabilities(AllKinds, d, 0.25) == [0.25, 0.5, 0.25];
  }

  /** The loop of `_calculate_probability_list`, with the list starting empty. */
  method CalculateProbabilityList(pool: seq<CommandKind>, d: Distribution) returns (r: Outcome<seq<real>>)
    ensures r == ProbabilityList(pool, d)
  {
    var nSpecified := |d|;
    var specified := Specified(d);
    var probabilities: seq<real> := [];
    for i := 0 to |pool|
      invariant probabilities == Probabilities(pool[..i], d, Share(pool, d))
      invariant Listed(pool[..i], d) == i || |pool| != nSpecified
    {
      ListedSnoc(pool, i, d);
      ProbabilitiesSnoc(pool, i, d, Share(pool, d));
      var c := pool[i];
      if c in d {
        probabilities := probabilities + [d[c]];
        continue;
      }
      if |pool| == nSpecified {
        assert Listed(pool, d) < |pool| by {
          ListedPrefix(pool, i + 1, d);
        }
        return Raised(if specified == 1.0 then InvalidOperation else DivisionByZero);
      }
      var commandProbability := (1.0 - specified) / (|pool| - nSpecified) as real;
      probabilities := probabilities + [commandProbability];
    }
    assert pool[..|pool|] == pool;
    return Returned(probabilities);
  }

  lemma {:induction false} ProbabilitiesSnoc(pool: seq<CommandKind>, i: nat, d: Distribution, share: real)
    requires i < |pool|
    ensures Probabilities(pool[..i + 1], d, share) == Probabilities(pool[..i], d, share) + [Probability(d, share, pool[i])]
  {
  }

  lemma {:induction false} ListedSnoc(pool: seq<CommandKind>, i: nat, d: Distribution)
    requires i < |pool|
    ensures Listed(pool[..i + 1], d) == Listed(pool[..i], d) + (if pool[i] in d then 1 else 0)
  {
    if i > 0 {
      assert pool[..i + 1][1..] == pool[1..][..i];
      assert pool[..i][1..] == pool[1..][..i - 1];
      ListedSnoc(pool[1..], i - 1, d);
    }
  }

  /** A pool lists no fewer kinds than any prefix of it and no more than the rest allows. */
  lemma {:induction false} ListedPrefix(pool: seq<CommandKind>, i: nat, d: Distribution)
    requires i <= |pool|
    ensures Listed(pool, d) <= Listed(pool[..i], d) + (|pool| - i)
    decreases |pool| - i
  {
    if i < |pool| {
      ListedPrefix(pool, i + 1, d);
      ListedSnoc(pool, i, d);
    } else {
      assert pool[..i] == pool;
    }
  }

  function Sum(ps: seq<real>): real
  {
    if ps == [] then 0.0 else ps[0] + Sum(ps[1..])
  }

  /** `n` copies of `x` added up. */
  function Copies(n: nat, x: real): real
  {
    if n == 0 then 0.0 else x + Copies(n - 1, x)
  }

  /** The probabilities add up to the listed weight plus one share per unlisted kind. */
  lemma {:induction false} SumProbabilities(pool: seq<CommandKind>, d: Distribution, share: real)
    ensures Sum(Probabilities(pool, d, share)) == SumOver(pool, d) + Copies(|pool| - Listed(pool, d), share)
  {
    if pool != [] {
      SumProbabilities(pool[1..], d, share);
      assert Probabilities(pool, d, share)[1..] == Probabilities(pool[1..], d, share);
    }
  }

  /**
   * When the pool has no repeats, holds every listed kind and has some unlisted kind left,
   * the probability list is computed and adds up to 1.
   */
  lemma ProbabilitiesSumToOne(pool: seq<CommandKind>, d: Distribution)
    requires Distinct(pool)
    requires forall c :: c in d ==> c in pool
    requires |pool| > |d|
    ensures ProbabilityList(pool, d).Returned?
    ensures Sum(ProbabilityList(pool, d).value) == 1.0
  {
    ListedAll(pool, d);
    var S, k := Specified(d), |pool| - |d|;
    var share := (1.0 - S) / k as real;
    assert ProbabilityList(pool, d) == Returned(Probabilities(pool, d, share)) by {
      assert Share(pool, d) == share;
    }
    assert Sum(Probabilities(pool, d, share)) == S + Copies(k, share) by {
      SumProbabilities(pool, d, share);
    }
    EvenSplit(k, 1.0 - S);
  }

  /** A pool without repeats that holds every listed kind lists all of the distribution. */
  lemma ListedAll(pool: seq<CommandKind>, d: Distribution)
    requires Distinct(pool)
    requires forall c :: c in d ==> c in pool
    ensures SumOver(pool, d) == Specified(d) && Listed(pool, d) == |d|
  {
    KindsDistinct();
    SameListed(pool, AllKinds, d);
    ListedCount(pool, d);
  }

  /** What the listed kinds leave, split evenly over the k unlisted ones, fills up to it again. */
  lemma EvenSplit(k: nat, rest: real)
    requires k > 0
    ensures Copies(k, rest / k as real) == rest
  {
    CopiesTimes(k, rest / k as real);
  }

  lemma {:induction false} CopiesTimes(n: nat, x: real)
    ensures Copies(n, x) == n as real * x
  {
    if n > 0 {
      CopiesTimes(n - 1, x);
    }
  }

  /** Every listed kind keeps exactly its given probability. */
  lemma ListedKeepProbability(pool: seq<CommandKind>, d: Distribution, i: nat)
    requires ProbabilityList(pool, d).Returned? && i < |pool| && pool[i] in d
    ensures ProbabilityList(pool, d).value[i] == d[pool[i]]
  {
  }

  /** Running sums: `accumulate(weights)` at position i. */
  function Cumulative(ws: seq<real>, i: nat): real
    requires i < |ws|
  {
    if i == 0 then ws[0] else Cumulative(ws, i - 1) + ws[i]
  }

  /**
   * `bisect(cum_weights, x, lo, hi)` (bisect_right): halves [lo, hi) until one position
   * is left, going left of the middle when x is below its running sum.
   */
  function Bisect(ws: seq<real>, x: real, lo: nat, hi: nat): (j: nat)
    requires lo <= hi < |ws|
    ensures lo <= j <= hi
    decreases hi - lo
  {
    if lo == hi then lo
    else
      var mid := (lo + hi) / 2;
      if x < Cumulative(ws, mid) then Bisect(ws, x, lo, mid) else Bisect(ws, x, mid + 1, hi)
  }

  /** The reference search: the first position in [i, hi) whose running sum exceeds x, else hi. */
  function FirstAbove(ws: seq<real>, x: real, i: nat, hi: nat): (j: nat)
    requires i <= hi < |ws|
    ensures i <= j <= hi
    ensures j < hi ==> x < Cumulative(ws, j)
    ensures forall k :: i <= k < j ==> Cumulative(ws, k) <= x
    decreases hi - i
  {
    if i == hi then hi
    else if x < Cumulative(ws, i) then i
    else FirstAbove(ws, x, i + 1, hi)
  }

  /** The two properties of FirstAbove's ensures single out its result. */
  lemma FirstAboveUnique(ws: seq<real>, x: real, lo: nat, hi: nat, j: nat)
    requires lo <= j <= hi < |ws|
    requires j < hi ==> x < Cumulative(ws, j)
    requires forall k :: lo <= k < j ==> Cumulative(ws, k) <= x
    ensures FirstAbove(ws, x, lo, hi) == j
  {
  }

  /** With non-negative weights the running sums never decrease, and bisection finds the first position above x. */
  lemma {:induction false} BisectIsFirstAbove(ws: seq<real>, x: real, lo: nat, hi: nat)
    requires lo <= hi < |ws|
    requires forall k :: 0 <= k < |ws| ==> ws[k] >= 0.0
    ensures Bisect(ws, x, lo, hi) == FirstAbove(ws, x, lo, hi)
    decreases hi - lo
  {
    if lo < hi {
      var mid := (lo + hi) / 2;
      if x < Cumulative(ws, mid) {
        BisectIsFirstAbove(ws, x, lo, mid);
        var j := FirstAbove(ws, x, lo, mid);
        FirstAboveUnique(ws, x, lo, hi, j);
      } else {
        BisectIsFirstAbove(ws, x, mid + 1, hi);
        var j := FirstAbove(ws, x, mid + 1, hi);
        forall k | lo <= k < j ensures Cumulative(ws, k) <= x {
          if k <= mid {
            CumulativeMonotone(ws, k, mid);
          }
        }
        FirstAboveUnique(ws, x, lo, hi, j);
      }
    }
  }

  /**
   * With a negative middle weight the running sums fall, and the two searches part:
   * over [0.75, -0.5, 0.75] at 0.5 bisection picks the third position, a scan the first.
   */
  lemma NegativeWeightSearch()
    ensures Bisect([0.75, -0.5, 0.75], 0.5, 0, 2) == 2
    ensures FirstAbove([0.75, -0.5, 0.75], 0.5, 0, 2) == 0
  {
    var ws := [0.75, -0.5, 0.75];
    assert Cumulative(ws, 1) == 0.25;
    assert Bisect(ws, 0.5, 0, 2) == Bisect(ws, 0.5, 2, 2);
  }

  /**
   * `random.choices(pool, weights)[0]` for a draw `u`: the position whose running-sum
   * interval holds `u * total`; a total that is not positive raises ValueError.
   */
  function WeightedChoice(pool: seq<CommandKind>, ws: seq<real>, u: real): (r: Outcome<CommandKind>)
    requires |ws| == |pool| > 0 && 0.0 <= u < 1.0
    ensures r.Returned? <==> Cumulative(ws, |ws| - 1) > 0.0
    ensures r.Returned? ==> r.value in pool
  {
    var total := Cumulative(ws, |ws| - 1);
    if total <= 0.0 then Raised(ValueError)
    else Returned(pool[Bisect(ws, Point(u, total), 0, |ws| - 1)])
  }

  /** The point `u * total` a draw `u` picks on the running sums; it lies in [0, total). */
  function Point(u: real, total: real): (x: real)
    requires total > 0.0 && 0.0 <= u < 1.0
    ensures 0.0 <= x < total
  {
    ScaledDraw(total, u);
    u * total
  }

  /** Running sums of non-negative weights never decrease. */
  lemma {:induction false} CumulativeMonotone(ws: seq<real>, i: nat, j: nat)
    requires i <= j < |ws|
    requires forall k :: 0 <= k < |ws| ==> ws[k] >= 0.0
    ensures Cumulative(ws, i) <= Cumulative(ws, j)
  {
    if i < j {
      CumulativeMonotone(ws, i, j - 1);
    }
  }

  /** With non-negative weights, a point below the total falls in a position of positive weight. */
  lemma {:induction false} BisectHasWeight(ws: seq<real>, x: real)
    requires |ws| > 0 && 0.0 <= x < Cumulative(ws, |ws| - 1)
    requires forall k :: 0 <= k < |ws| ==> ws[k] >= 0.0
    ensures ws[Bisect(ws, x, 0, |ws| - 1)] > 0.0
  {
    BisectIsFirstAbove(ws, x, 0, |ws| - 1);
    var j := FirstAbove(ws, x, 0, |ws| - 1);
    assert x < Cumulative(ws, j);
    if j > 0 {
      assert Cumulative(ws, j - 1) <= x;
    }
  }

  /** With non-negative weights, a kind of probability zero is never drawn. */
  lemma ChoiceHasWeight(pool: seq<CommandKind>, ws: seq<real>, u: real)
    requires |ws| == |pool| > 0 && 0.0 <= u < 1.0
    requires forall k :: 0 <= k < |ws| ==> ws[k] >= 0.0
    requires Cumulative(ws, |ws| - 1) > 0.0
    ensures WeightedChoice(pool, ws, u).Returned?
    ensures exists j :: 0 <= j < |ws| && WeightedChoice(pool, ws, u).value == pool[j] && ws[j] > 0.0
  {
    var x := Point(u, Cumulative(ws, |ws| - 1));
    BisectHasWeight(ws, x);
    var j := Bisect(ws, x, 0, |ws| - 1);
    assert WeightedChoice(pool, ws, u).value == pool[j];
  }

  /**
   * generate_command_kind_distribution as written: it builds its weights with
   * `_calculate_probability_list`, which always raises, so no kind is ever drawn.
   */
  function KindFromDistribution(pool: seq<CommandKind>, d: Distribution, u: real): (r: Outcome<CommandKind>)
    requires |pool| > 0 && 0.0 <= u < 1.0
    ensures r.Raised?
    ensures pool[0] in d || |pool| != |d| ==> r == Raised(NameError)
  {
    Raised(ProbabilityListAsWritten(pool, d).error)
  }

  /** generate_command_kind_distribution over the corrected probability list. */
  function KindFromDistributionCorrected(pool: seq<CommandKind>, d: Distribution, u: real): (r: Outcome<CommandKind>)
    requires |pool| > 0 && 0.0 <= u < 1.0
    ensures r.Returned? ==> r.value in pool
  {
    match ProbabilityList(pool, d)
    case Raised(e) => Raised(e)
    case Returned(ws) => WeightedChoice(pool, ws, u)
  }

  /**
   * generate_command_kind as written: the pool without READ when reads are excluded; a
   * non-empty distribution goes through the weighted draw, which always raises, and
   * otherwise the pick is uniform.
   */
  function GenerateCommandKind(excludeReads: bool, distribution: Option<Distribution>, u: real): (r: Outcome<CommandKind>)
    requires 0.0 <= u < 1.0
    ensures r.Returned? ==> r.value in Pool(excludeReads) && !(excludeReads && r.value == Read)
    ensures r.Raised? <==> distribution.Some? && |distribution.value| > 0
  {
    var pool := Pool(excludeReads);
    if distribution.Some? && |distribution.value| > 0 then KindFromDistribution(pool, distribution.value, u)
    else Returned(KindUniform(pool, u))
  }

  /** generate_command_kind_list as written: a two-parameter function called with three arguments. */
  function GenerateCommandKindListAsWritten(size: nat, distribution: Option<Distribution>): (r: Outcome<seq<CommandKind>>)
    ensures r == Raised(TypeError)
  {
    Raised(TypeError)
  }

  /**
   * generate_command_kind_list with the call it evidently means,
   * generate_command_kind_list_distribution: `size` weighted draws over all kinds.
   */
  function GenerateCommandKindList(size: nat, d: Distribution, us: seq<real>): (r: Outcome<seq<CommandKind>>)
    requires |us| == size && forall i :: 0 <= i < size ==> 0.0 <= us[i] < 1.0
    ensures r.Returned? ==> |r.value| == size
    ensures r.Returned? ==> forall i :: 0 <= i < size ==> KindFromDistributionCorrected(AllKinds, d, us[i]) == Returned(r.value[i])
  {
    match ProbabilityList(AllKinds, d)
    case Raised(e) => Raised(e)
    case Returned(ws) =>
      if Cumulative(ws, |ws| - 1) <= 0.0 then Raised(ValueError)
      else Returned(seq(size, i requires 0 <= i < size => WeightedChoice(AllKinds, ws, us[i]).value))
  }

  /** The generator's read-ratio distribution yields a list where it would have crashed. */
  lemma KindListCorrected(size: nat, us: seq<real>)
    requires |us| == size && forall i :: 0 <= i < size ==> 0.0 <= us[i] < 1.0
    ensures GenerateCommandKindListAsWritten(size, Some(map[Read := 0.5])).Raised?
    ensures GenerateCommandKindList(size, map[Read := 0.5], us).Returned?
  {
    ProbabilityListNameError();
    assert Cumulative([0.25, 0.5, 0.25], 2) == 1.0;
  }
}
