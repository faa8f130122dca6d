/** The score of a raw sample, by sorting, and why it is the score of the
    sample's own distribution. */
module EmpiricalCrps {
  import opened RealSums
  import opened StableSorting
  import opened ExactPmf
  import opened Crps

  predicate RealAtMost(a: real, b: real) { a <= b }

  function Sort(draws: seq<real>): seq<real> { StableSort(draws, RealAtMost) }

  /** The signed rank of index `i` among `n` sorted draws. */
  function Rank(n: nat, i: int): real { (2 * (i + 1) - n - 1) as real }

  function RankTerms(n: nat, x: int -> real): int -> real { i => Rank(n, i) * x(i) }

  function AbsoluteErrors(x: int -> real, observed: real): int -> real { i => Abs(x(i) - observed) }

  datatype SampleScore = SampleScored(value: real) | EmptyDraws

  function EmpiricalScore(draws: seq<real>, observed: real): SampleScore {
    if draws == [] then EmptyDraws
    else
      var n := |draws| as real;
      var first := Sum(|draws|, AbsoluteErrors(At(draws), observed)) / n;
      var pair := 2.0 * Sum(|draws|, RankTerms(|draws|, At(Sort(draws)))) / (n * n);
      SampleScored(first - 0.5 * pair)
  }

  // ----- under equal weights the one-pass form is the signed-rank form

  lemma ConstantSum(n: nat, x: int -> real, u: int -> real, c: real)
    requires forall i :: 0 <= i < n ==> u(i) == c
    ensures Sum(n, u) == (n as real) * c && Sum(n, Moment(x, u)) == c * Sum(n, x)
  {
    EqualMasses(n, u, c);
    EqualMoments(n, x, u, c);
  }

  lemma {:induction false} EqualMasses(n: nat, u: int -> real, c: real)
    requires forall i :: 0 <= i < n ==> u(i) == c
    ensures Sum(n, u) == (n as real) * c
  {
    if n > 0 {
      EqualMasses(n - 1, u, c);
      OneMore(n - 1, c);
    }
  }

  lemma {:induction false} EqualMoments(n: nat, x: int -> real, u: int -> real, c: real)
    requires forall i :: 0 <= i < n ==> u(i) == c
    ensures Sum(n, Moment(x, u)) == c * Sum(n, x)
  {
    hide Moment;
    if n > 0 {
      EqualMoments(n - 1, x, u, c);
      MomentTerm(x, u, c, n - 1);
      MulAdd(c, Sum(n - 1, x), x(n - 1));
    }
  }

  lemma MomentTerm(x: int -> real, u: int -> real, c: real, i: int)
    requires u(i) == c
    ensures Moment(x, u)(i) == c * x(i)
  {
  }

  lemma OneMore(n: nat, c: real)
    ensures ((n + 1) as real) * c == (n as real) * c + c
  {
  }

  lemma MulAdd(c: real, s: real, x: real)
    ensures c * s + c * x == c * (s + x)
  {
  }

  /** One more draw lowers every earlier rank by one. */
  lemma RankGrows(n: nat, x: int -> real)
    ensures Sum(n + 1, RankTerms(n + 1, x)) == Sum(n, RankTerms(n, x)) - Sum(n, x) + (n as real) * x(n)
  {
    hide Affine;
    forall i | 0 <= i < n ensures RankTerms(n + 1, x)(i) == Affine(1.0, RankTerms(n, x), -1.0, x)(i) { RankDrops(n, x, i); }
    SumLinear(n, 1.0, RankTerms(n, x), -1.0, x, RankTerms(n + 1, x));
    assert Rank(n + 1, n) == n as real;
  }

  lemma RankDrops(n: nat, x: int -> real, i: int)
    ensures RankTerms(n + 1, x)(i) == Affine(1.0, RankTerms(n, x), -1.0, x)(i)
  {
    assert Rank(n + 1, i) == Rank(n, i) - 1.0;
  }

  lemma {:induction false} CumulativeIsRanked(n: nat, x: int -> real, u: int -> real, c: real)
    requires forall i :: 0 <= i < n ==> u(i) == c
    ensures Cumulative(n, x, u) == c * c * Sum(n, RankTerms(n, x))
  {
    hide Cumulative, RankTerms, Moment, Near, Pairwise;
    if n == 0 {
      NothingYet(x, u);
    } else {
      var k := n - 1;
      CumulativeIsRanked(k, x, u, c);
      OnePoint(k, x, u);
      ConstantSum(k, x, u, c);
      RankGrows(k, x);
      RankStep(c, x(k), k as real, Sum(k, x), Sum(k, RankTerms(k, x)));
    }
  }

  lemma RankStep(c: real, x: real, n: real, s: real, r: real)
    ensures c * c * r + c * (x * (n * c) - c * s) == c * c * (r - s + n * x)
  {
  }

  // ----- the pairwise sum over outcomes is the pairwise sum over draws

  function DistanceTo(c: real): int -> real { (v: int) => Abs((v as real) - c) }

  lemma NearByDraw(values: seq<int>, c: real)
    ensures Near(|Outcomes(values)|, At(Reals(Outcomes(values))), At(Shares(values)), c)
            == Near(|values|, At(Reals(values)), At(Uniform(|values|)), c)
  {
    var xs, n := Outcomes(values), |values|;
    ValuesCovered(values);
    SharesAreUniformMasses(values);
    PushForward(xs, values, Uniform(n), n, DistanceTo(c));
    OutcomeSummands(values, c);
    SumAgree(|xs|, Distances(At(Reals(xs)), At(Shares(values)), c), ByOutcome(xs, values, Uniform(n), n, DistanceTo(c)));
    DrawSummands(values, c);
    SumAgree(n, Distances(At(Reals(values)), At(Uniform(n)), c), ByDraw(values, Uniform(n), DistanceTo(c)));
  }

  lemma OutcomeSummands(values: seq<int>, c: real)
    requires Shares(values) == Masses(Outcomes(values), values, Uniform(|values|))
    ensures forall k :: 0 <= k < |Outcomes(values)| ==>
              Distances(At(Reals(Outcomes(values))), At(Shares(values)), c)(k)
              == ByOutcome(Outcomes(values), values, Uniform(|values|), |values|, DistanceTo(c))(k)
  {
    hide Mass, Outcomes, Abs, Uniform, Shares;
  }

  lemma DrawSummands(values: seq<int>, c: real)
    ensures forall i :: 0 <= i < |values| ==>
              Distances(At(Reals(values)), At(Uniform(|values|)), c)(i) == ByDraw(values, Uniform(|values|), DistanceTo(c))(i)
  {
    hide Abs;
  }

  function NearTo(xs: seq<int>, p: seq<real>): int -> real { (v: int) => Near(|xs|, At(Reals(xs)), At(p), v as real) }

  lemma PairwiseByDraw(values: seq<int>)
    ensures var xs, n := Outcomes(values), |values|;
            Pairwise(|xs|, |xs|, At(Reals(xs)), At(Shares(values)), At(Shares(values)))
            == Pairwise(n, n, At(Reals(values)), At(Uniform(n)), At(Uniform(n)))
  {
    hide Near, Mass, Uniform, Shares, Outcomes, ByDraw, ByOutcome, Pairs, NearTo, At, Reals;
    var xs, n, p, u := Outcomes(values), |values|, Shares(values), Uniform(|values|);
    ValuesCovered(values);
    PushForward(xs, values, u, n, NearTo(xs, p));
    forall k | 0 <= k < |xs| ensures Pairs(|xs|, At(Reals(xs)), At(p), At(p))(k) == ByOutcome(xs, values, u, n, NearTo(xs, p))(k) {
      OutcomePair(values, k);
    }
    SumAgree(|xs|, Pairs(|xs|, At(Reals(xs)), At(p), At(p)), ByOutcome(xs, values, u, n, NearTo(xs, p)));
    forall i | 0 <= i < n ensures Pairs(n, At(Reals(values)), At(u), At(u))(i) == ByDraw(values, u, NearTo(xs, p))(i) {
      DrawPair(values, i);
    }
    SumAgree(n, Pairs(n, At(Reals(values)), At(u), At(u)), ByDraw(values, u, NearTo(xs, p)));
  }

  lemma OutcomePair(values: seq<int>, k: nat)
    requires k < |Outcomes(values)|
    ensures var xs, p := Outcomes(values), Shares(values);
            Pairs(|xs|, At(Reals(xs)), At(p), At(p))(k) == ByOutcome(xs, values, Uniform(|values|), |values|, NearTo(xs, p))(k)
  {
    hide Near, Mass, Uniform, Outcomes;
    SharesAreUniformMasses(values);
  }

  lemma DrawPair(values: seq<int>, i: nat)
    requires i < |values|
    ensures var xs, p, u := Outcomes(values), Shares(values), Uniform(|values|);
            Pairs(|values|, At(Reals(values)), At(u), At(u))(i) == ByDraw(values, u, NearTo(xs, p))(i)
  {
    hide Near, Mass, Outcomes, Uniform, Shares;
    NearByDraw(values, values[i] as real);
  }

  // ----- sorting changes neither the outcomes nor their shares

  lemma {:induction false} SortReals(v: int, s: seq<int>)
    ensures Insert(v as real, Reals(s), RealAtMost) == Reals(Insert(v, s, AtMost))
  {
    if s != [] && !AtMost(v, s[0]) {
      SortReals(v, s[1..]);
      assert Reals(s)[1..] == Reals(s[1..]);
    } else {
      assert [v as real] + Reals(s) == Reals([v] + s);
    }
  }

  lemma {:induction false} SortOfReals(values: seq<int>)
    ensures Sort(Reals(values)) == Reals(StableSort(values, AtMost))
  {
    if values != [] {
      SortOfReals(values[1..]);
      SortReals(values[0], StableSort(values[1..], AtMost));
      assert Reals(values)[1..] == Reals(values[1..]);
    }
  }

  lemma SortedDraws(values: seq<int>)
    ensures var s := StableSort(values, AtMost);
            && |s| == |values| && Rising(|s|, At(Reals(s)))
            && Outcomes(s) == Outcomes(values) && Shares(s) == Shares(values)
  {
    hide Rising, Reals, Outcomes, Shares, Sorted;
    var s := StableSort(values, AtMost);
    InsertAllSorted(values, [], AtMost);
    SortMembers(values, AtMost);
    SameOutcomes(s, values);
    assert multiset(s) == multiset(values);
    SameShares(s, values);
    SortedRises(s);
  }

  lemma SameShares(a: seq<int>, b: seq<int>)
    requires multiset(a) == multiset(b) && |a| == |b| && Outcomes(a) == Outcomes(b)
    ensures Shares(a) == Shares(b)
  {
  }

  lemma SortedRises(s: seq<int>)
    requires Sorted(s, AtMost)
    ensures Rising(|s|, At(Reals(s)))
  {
    assert forall i, j :: 0 <= i < j < |s| ==> AtMost(s[i], s[j]);
  }

  lemma PairwiseOfSorted(values: seq<int>)
    ensures var xs, n, s := Outcomes(values), |values|, StableSort(values, AtMost);
            && |s| == n
            && Pairwise(|xs|, |xs|, At(Reals(xs)), At(Shares(values)), At(Shares(values)))
               == 2.0 * (Share(n) * Share(n) * Sum(n, RankTerms(n, At(Reals(s)))))
  {
    hide Pairwise, Rising, Outcomes, Shares, RankTerms, Reals, Share, Cumulative;
    var n, s := |values|, StableSort(values, AtMost);
    SortedDraws(values);
    PairwiseByDraw(s);
    CumulativeIsPairwise(n, At(Reals(s)), At(Uniform(n)));
    CumulativeIsRanked(n, At(Reals(s)), At(Uniform(n)), Share(n));
  }

  lemma NearIsMean(values: seq<int>, observed: real)
    ensures Near(|values|, At(Reals(values)), At(Uniform(|values|)), observed)
            == Share(|values|) * Sum(|values|, AbsoluteErrors(At(Reals(values)), observed))
  {
    hide Affine, AbsoluteErrors, Distances, Uniform, Reals, At, Share;
    var n, x := |values|, At(Reals(values));
    forall i | 0 <= i < n
      ensures Distances(x, At(Uniform(n)), observed)(i) == Affine(Share(n), AbsoluteErrors(x, observed), 0.0, x)(i)
    {
      MeanTerm(n, x, observed, i);
    }
    SumLinear(n, Share(n), AbsoluteErrors(x, observed), 0.0, x, Distances(x, At(Uniform(n)), observed));
  }

  lemma MeanTerm(n: nat, x: int -> real, observed: real, i: nat)
    requires i < n
    ensures Distances(x, At(Uniform(n)), observed)(i) == Affine(Share(n), AbsoluteErrors(x, observed), 0.0, x)(i)
  {
    hide Abs, Share;
  }

  /** For every non-empty vector of draws and every observation, the score of the
      distribution obtained by counting is the score of the sorted sample. */
  lemma CollapsedScoreIsSampleScore(values: seq<int>, observed: real)
    requires values != []
    ensures CrpsFromPmf(Outcomes(values), Shares(values), observed).Scored?
    ensures EmpiricalScore(Reals(values), observed)
            == SampleScored(CrpsFromPmf(Outcomes(values), Shares(values), observed).value)
  {
    hide CrpsFromPmf, Sum, Pairwise, Near, Cumulative, Outcomes, Shares, RankTerms, AbsoluteErrors, Share, Sort, Rising, At, Ascending;
    var n, xs, s := |values|, Outcomes(values), StableSort(values, AtMost);
    RawPmfIsBuilt(values);
    OutcomesMeaning(values);
    PmfIsScored(xs, Shares(values), observed);
    ScoredMeaning(xs, Shares(values), observed);
    AscendingRises(xs);
    CumulativeIsPairwise(|xs|, At(Reals(xs)), At(Shares(values)));
    PairwiseOfSorted(values);
    NearByDraw(values, observed);
    NearIsMean(values, observed);
    SortOfReals(values);
    Divided(n, Sum(n, AbsoluteErrors(At(Reals(values)), observed)), Sum(n, RankTerms(n, At(Reals(s)))));
    Halved(Share(n) * Share(n) * Sum(n, RankTerms(n, At(Reals(s)))), Pairwise(|xs|, |xs|, At(Reals(xs)), At(Shares(values)), At(Shares(values))));
  }

  lemma Halved(half: real, whole: real)
    requires whole == 2.0 * half
    ensures 0.5 * whole == half
  {
  }

  lemma Divided(n: nat, errors: real, ranks: real)
    requires n > 0
    ensures errors / (n as real) - 0.5 * (2.0 * ranks / ((n as real) * (n as real))) == Share(n) * errors - Share(n) * Share(n) * ranks
  {
    var m, c := n as real, Share(n);
    assert errors / m == c * errors;
    SquareOfShare(m, c, ranks);
  }

  lemma SquareOfShare(m: real, c: real, ranks: real)
    requires m > 0.0 && c == 1.0 / m
    ensures 2.0 * ranks / (m * m) == 2.0 * (c * c * ranks)
  {
    assert c * m == 1.0;
    assert (c * c) * (m * m) == 1.0 by { assert (c * c) * (m * m) == (c * m) * (c * m); }
    assert (2.0 * (c * c * ranks)) * (m * m) == 2.0 * ranks * ((c * c) * (m * m));
  }
}
