/** Quantiles of a distribution, and when they are the smallest outcome that
    reaches a probability and the order statistic of the counted sample. */
module Quantiles {
  import opened Options
  import opened RealSums
  import opened StableSorting
  import opened ExactPmf
  import opened LivePricing
  import Crps
  import EmpiricalCrps
  import EntropyTilting
  import WeightedPmf

  const QUANTILE_SLACK: real := 0.000000000001

  function Cdf(pmf: Pmf, k: nat): real { Sum(k + 1, At(pmf.probabilities)) }

  /** The first outcome whose cumulative mass reaches `q`, or else the last. */
  predicate IsQuantile(pmf: Pmf, q: real, k: nat) {
    && k < |pmf.outcomes|
    && (forall j: nat :: j < k ==> Cdf(pmf, j) < q - QUANTILE_SLACK)
    && (Cdf(pmf, k) >= q - QUANTILE_SLACK || k == |pmf.outcomes| - 1)
  }

  method WeightedInverseCdfQuantile(pmf: Pmf, q: real) returns (x: Option<int>)
    requires |pmf.probabilities| == |pmf.outcomes| > 0
    ensures x.None? <==> !(0.0 <= q <= 1.0)
    ensures x.Some? ==> exists k: nat :: IsQuantile(pmf, q, k) && x == Some(pmf.outcomes[k])
  {
    hide At;
    if !(0.0 <= q <= 1.0) { return None; }
    var cumulative := 0.0;
    var k := 0;
    while k < |pmf.outcomes|
      invariant 0 <= k <= |pmf.outcomes|
      invariant cumulative == Sum(k, At(pmf.probabilities))
      invariant forall j: nat :: j < k ==> Cdf(pmf, j) < q - QUANTILE_SLACK
    {
      AtEntry(pmf.probabilities, k);
      cumulative := cumulative + pmf.probabilities[k];
      assert cumulative == Cdf(pmf, k);
      if cumulative >= q - QUANTILE_SLACK {
        assert IsQuantile(pmf, q, k);
        return Some(pmf.outcomes[k]);
      }
      k := k + 1;
    }
    assert IsQuantile(pmf, q, k - 1);
    x := Some(pmf.outcomes[k - 1]);
  }

  lemma AtEntry(s: seq<real>, i: nat)
    requires i < |s|
    ensures At(s)(i) == s[i]
  {
  }

  /** Quantiles lie in the support and rise with `q`. */
  lemma QuantilesRise(pmf: Pmf, q: real, k: nat, q': real, k': nat)
    requires Crps.Ascending(pmf.outcomes) && q <= q' && IsQuantile(pmf, q, k) && IsQuantile(pmf, q', k')
    ensures pmf.outcomes[k] <= pmf.outcomes[k']
    ensures q == q' ==> k == k'
  {
    var reached, reached' := Cdf(pmf, k), Cdf(pmf, k');
  }

  lemma {:induction false} MassUpTo(p: seq<real>, m: nat, n: nat)
    requires AllPositive(p) && m <= n <= |p|
    ensures Sum(m, At(p)) <= Sum(n, At(p))
  {
    if m < n { MassUpTo(p, m, n - 1); }
  }

  /** In a distribution of positive masses that add up to one, an outcome is at
      or above the quantile exactly when its cumulative mass reaches `q` less the
      slack. */
  lemma QuantileIsLeast(pmf: Pmf, q: real, k: nat, j: nat)
    requires Crps.Ascending(pmf.outcomes) && Crps.Pmf(pmf.outcomes, pmf.probabilities) && q <= 1.0
    requires IsQuantile(pmf, q, k) && j < |pmf.outcomes|
    ensures pmf.outcomes[k] <= pmf.outcomes[j] <==> Cdf(pmf, j) >= q - QUANTILE_SLACK
  {
    hide At;
    if k <= j { MassUpTo(pmf.probabilities, k + 1, j + 1); }
  }

  // ----- the smallest outcome that reaches the probability

  /** The first outcome whose cumulative mass is at least `q` itself. */
  predicate LeastReaching(pmf: Pmf, q: real, k: nat) {
    k < |pmf.outcomes| && Cdf(pmf, k) >= q && forall j: nat :: j < k ==> Cdf(pmf, j) < q
  }

  /** A cumulative mass that falls short of `q` by no more than the slack. */
  predicate WithinSlack(pmf: Pmf, q: real, j: nat) { q - QUANTILE_SLACK <= Cdf(pmf, j) < q }

  /** The quantile is the smallest outcome that reaches `q` exactly when some
      outcome does and no cumulative mass falls within the slack below `q`. */
  lemma QuantileReachesExactly(pmf: Pmf, q: real, k: nat)
    requires AllPositive(pmf.probabilities) && |pmf.probabilities| == |pmf.outcomes|
    requires IsQuantile(pmf, q, k)
    ensures LeastReaching(pmf, q, k)
            <==> Sum(|pmf.outcomes|, At(pmf.probabilities)) >= q && forall j: nat :: j < |pmf.outcomes| ==> !WithinSlack(pmf, q, j)
  {
    hide At;
    var n := |pmf.outcomes|;
    MassUpTo(pmf.probabilities, k + 1, n);
    forall j: nat | k <= j < n ensures Cdf(pmf, k) <= Cdf(pmf, j) <= Sum(n, At(pmf.probabilities)) {
      MassUpTo(pmf.probabilities, k + 1, j + 1);
      MassUpTo(pmf.probabilities, j + 1, n);
    }
    assert k == n - 1 ==> Cdf(pmf, k) == Sum(n, At(pmf.probabilities));
    assert WithinSlack(pmf, q, k) || Cdf(pmf, k) >= q || Cdf(pmf, k) < q - QUANTILE_SLACK;
    if LeastReaching(pmf, q, k) {
      forall j: nat | j < n ensures !WithinSlack(pmf, q, j) { assert j < k || Cdf(pmf, k) <= Cdf(pmf, j); }
    }
  }

  // ----- the order statistic of a counted sample

  function Ceiling(x: real): int { -((-x).Floor) }

  /** The zero-based position of the `q` order statistic among `n` sorted draws. */
  function OrderIndex(q: real, n: nat): nat
    requires n > 0
  {
    var index := Ceiling(q * n as real) - 1;
    if index < 0 then 0 else if index >= n then n - 1 else index
  }

  function UpTo(x: int): int -> bool { (v: int) => v <= x }

  /** How many of the sorted draws are at most `x`. */
  function CountUpTo(s: seq<int>, x: int): nat {
    if s == [] || s[0] > x then 0 else 1 + CountUpTo(s[1..], x)
  }

  lemma {:induction false} CountUpToMeaning(s: seq<int>, x: int)
    requires Sorted(s, AtMost)
    ensures CountUpTo(s, x) <= |s|
    ensures forall i :: 0 <= i < |s| ==> (s[i] <= x <==> i < CountUpTo(s, x))
  {
    if s != [] {
      if s[0] <= x {
        CountUpToMeaning(s[1..], x);
        forall i | 0 <= i < |s| ensures s[i] <= x <==> i < CountUpTo(s, x) {
          if i > 0 { assert s[1..][i - 1] == s[i]; }
        }
      } else {
        forall i | 0 <= i < |s| ensures s[i] > x { assert i > 0 ==> AtMost(s[0], s[i]); }
      }
    }
  }

  /** A constant kept on a prefix adds up to the length of the prefix. */
  lemma {:induction false} SumOfPrefix(n: nat, m: nat, f: int -> real, c: real)
    requires m <= n && forall i :: 0 <= i < n ==> f(i) == if i < m then c else 0.0
    ensures Sum(n, f) == m as real * c
  {
    if n > 0 {
      SumOfPrefix(n - 1, if m == n then n - 1 else m, f, c);
      if m == n { EmpiricalCrps.OneMore(n - 1, c); }
    }
  }

  /** The cumulative mass of an outcome is the share of the draws up to it. */
  lemma CdfIsShare(s: seq<int>, j: nat)
    requires Sorted(s, AtMost) && j < |Outcomes(s)| && BuildRawPmf(s).Built?
    ensures s != [] && Cdf(BuildRawPmf(s).pmf, j) == CountUpTo(s, Outcomes(s)[j]) as real * Share(|s|)
  {
    hide Outcomes, Mass, Shares, Share, CountUpTo, WeightedPmf.Weighted, MassWhere, KeptWeight;
    var n, x, pmf := |s|, Outcomes(s)[j], BuildRawPmf(s).pmf;
    EntropyTilting.UniformIsRaw(s);
    KeptIsMass(s, Uniform(n), UpTo(x));
    MassIsCdf(s, j);
    CountUpToMeaning(s, x);
    KeptUpTo(s, x, CountUpTo(s, x));
  }

  lemma KeptUpTo(s: seq<int>, x: int, m: nat)
    requires m <= |s| && forall i :: 0 <= i < |s| ==> (s[i] <= x <==> i < m)
    ensures KeptWeight(s, Uniform(|s|), UpTo(x)) == m as real * Share(|s|)
  {
    hide Share;
    forall i | 0 <= i < |s| ensures Kept(s, Uniform(|s|), UpTo(x))(i) == if i < m then Share(|s|) else 0.0 { UniformAt(|s|, i); }
    SumOfPrefix(|s|, m, Kept(s, Uniform(|s|), UpTo(x)), Share(|s|));
  }

  /** Of ascending outcomes, those up to the one at `j` are the first ones. */
  lemma MassIsCdf(s: seq<int>, j: nat)
    requires j < |Outcomes(s)| && BuildRawPmf(s).Built?
    ensures MassWhere(BuildRawPmf(s).pmf, UpTo(Outcomes(s)[j])) == Cdf(BuildRawPmf(s).pmf, j)
  {
    hide At, Shares;
    var pmf := BuildRawPmf(s).pmf;
    OutcomesMeaning(s);
    SelectedPrefix(pmf, UpTo(Outcomes(s)[j]), |pmf.outcomes|, j + 1);
  }

  lemma {:induction false} SelectedPrefix(pmf: Pmf, mask: int -> bool, n: nat, m: nat)
    requires m <= n <= |pmf.outcomes| && forall k :: 0 <= k < n ==> (mask(pmf.outcomes[k]) <==> k < m)
    ensures Sum(n, Selected(pmf, mask)) == Sum(m, At(pmf.probabilities))
  {
    hide At;
    if m < n {
      SelectedPrefix(pmf, mask, n - 1, m);
    } else {
      SumAgree(n, Selected(pmf, mask), At(pmf.probabilities));
    }
  }

  lemma ShareReaches(m: nat, n: nat, q: real)
    requires n > 0 && 0.0 <= q <= 1.0 && 1 <= m <= n
    ensures m as real * Share(n) >= q <==> OrderIndex(q, n) < m
  {
    hide OrderIndex, Share, Ceiling;
    var x, c := q * n as real, m as real * Share(n);
    ShareTimes(m as real, n);
    Compared(c, q, n as real);
    Compared(q, 0.0, n as real);
    Compared(1.0, q, n as real);
    CeilingMeaning(x, m);
    CeilingMeaning(x, n);
    IndexBelow(q, n, m);
  }

  lemma CeilingMeaning(x: real, m: int)
    ensures m as real >= x <==> m >= Ceiling(x)
  {
  }

  lemma IndexBelow(q: real, n: nat, m: nat)
    requires n > 0 && 1 <= m <= n && Ceiling(q * n as real) <= n
    ensures OrderIndex(q, n) < m <==> m >= Ceiling(q * n as real)
  {
    hide Ceiling;
  }

  lemma ShareTimes(m: real, n: nat)
    requires n > 0
    ensures m * Share(n) * n as real == m
  {
    assert Share(n) * n as real == 1.0;
    assert m * Share(n) * n as real == m * (Share(n) * n as real);
  }

  lemma Compared(a: real, b: real, c: real)
    requires c > 0.0
    ensures a >= b <==> a * c >= b * c
  {
    assert a * c - b * c == (a - b) * c;
  }

  /** An outcome of a counted sample reaches `q` exactly when the order statistic
      is at most the outcome. */
  lemma ReachesOrderStatistic(s: seq<int>, q: real, j: nat)
    requires Sorted(s, AtMost) && s != [] && 0.0 <= q <= 1.0 && j < |Outcomes(s)| && BuildRawPmf(s).Built?
    ensures Cdf(BuildRawPmf(s).pmf, j) >= q <==> s[OrderIndex(q, |s|)] <= Outcomes(s)[j]
  {
    hide Outcomes, Shares, Share, CountUpTo, Cdf, OrderIndex, BuildRawPmf, Sorted, Crps.Ascending, Distinct;
    var x := Outcomes(s)[j];
    CdfIsShare(s, j);
    CountUpToMeaning(s, x);
    OutcomesMeaning(s);
    assert x in Outcomes(s);
    var i :| 0 <= i < |s| && s[i] == x;
    ShareReaches(CountUpTo(s, x), |s|, q);
    IndexInRange(q, |s|);
  }

  lemma IndexInRange(q: real, n: nat)
    requires n > 0
    ensures OrderIndex(q, n) < n
  {
  }

  /** The quantile of a counted sample is its order statistic exactly when no
      cumulative mass falls within the slack below `q`. */
  lemma QuantileIsOrderStatistic(values: seq<int>, q: real, k: nat)
    requires values != [] && 0.0 <= q <= 1.0 && BuildRawPmf(values).Built? && IsQuantile(BuildRawPmf(values).pmf, q, k)
    ensures var pmf := BuildRawPmf(values).pmf;
            && |StableSort(values, AtMost)| == |values|
            && (pmf.outcomes[k] == StableSort(values, AtMost)[OrderIndex(q, |values|)]
                <==> forall j: nat :: j < |pmf.outcomes| ==> !WithinSlack(pmf, q, j))
  {
    hide Outcomes, Shares, Share, Cdf, OrderIndex, At, WithinSlack, Least, Greatest;
    var s, pmf := StableSort(values, AtMost), BuildRawPmf(values).pmf;
    SameDistribution(values);
    RawPmfIsBuilt(values);
    IndexInRange(q, |s|);
    QuantileReachesExactly(pmf, q, k);
    OutcomesMeaning(s);
    forall j | 0 <= j < |pmf.outcomes| ensures Cdf(pmf, j) >= q <==> s[OrderIndex(q, |s|)] <= pmf.outcomes[j] {
      ReachesOrderStatistic(s, q, j);
      SameCdf(values, s, j);
    }
    var x := s[OrderIndex(q, |s|)];
    assert x in Outcomes(s);
    LeastIsOrderStatistic(pmf, q, k, x);
  }

  lemma LeastIsOrderStatistic(pmf: Pmf, q: real, k: nat, x: int)
    requires Crps.Ascending(pmf.outcomes) && x in pmf.outcomes && k < |pmf.outcomes|
    requires forall j :: 0 <= j < |pmf.outcomes| ==> (Cdf(pmf, j) >= q <==> x <= pmf.outcomes[j])
    ensures LeastReaching(pmf, q, k) <==> pmf.outcomes[k] == x
  {
    hide Cdf;
    var i :| 0 <= i < |pmf.outcomes| && pmf.outcomes[i] == x;
  }

  /** Sorting the draws changes neither the outcomes nor their shares. */
  lemma SameDistribution(values: seq<int>)
    requires values != []
    ensures var s := StableSort(values, AtMost);
            && |s| == |values| && Sorted(s, AtMost) && BuildRawPmf(s).Built? && BuildRawPmf(values).Built?
            && Outcomes(s) == Outcomes(values) && Shares(s) == Shares(values)
  {
    hide Outcomes, Shares;
    var s := StableSort(values, AtMost);
    EmpiricalCrps.SortedDraws(values);
    InsertAllSorted(values, [], AtMost);
    RawPmfIsBuilt(values);
    RawPmfIsBuilt(s);
  }

  lemma SameCdf(a: seq<int>, b: seq<int>, j: nat)
    requires BuildRawPmf(a).Built? && BuildRawPmf(b).Built? && Shares(a) == Shares(b)
    ensures Cdf(BuildRawPmf(a).pmf, j) == Cdf(BuildRawPmf(b).pmf, j)
  {
    hide Shares, Outcomes;
  }

  /** Two draws, 0 and 1, and a probability just above a half: the quantile is 0,
      whose cumulative mass is a half, while the order statistic is 1. */
  lemma SlackLosesHalf()
    ensures BuildRawPmf([0, 1]).Built?
    ensures var pmf, q := BuildRawPmf([0, 1]).pmf, 0.5000000000005;
            && pmf.outcomes == [0, 1] && pmf.probabilities == [0.5, 0.5]
            && IsQuantile(pmf, q, 0) && !LeastReaching(pmf, q, 0)
            && StableSort([0, 1], AtMost)[OrderIndex(q, 2)] == 1
  {
    RawPmfIsBuilt([0, 1]);
    var pmf, q := BuildRawPmf([0, 1]).pmf, 0.5000000000005;
    assert [0, 1][..1] == [0] && [0, 1][..1][..0] == [];
    assert multiset([0, 1])[0] == 1 && multiset([0, 1])[1] == 1;
    assert Cdf(pmf, 0) == Sum(0, At(pmf.probabilities)) + At(pmf.probabilities)(0) == 0.5;
    SortOfSorted([0, 1], AtMost);
    assert Ceiling(1.000000000001) == 2;
  }
}
