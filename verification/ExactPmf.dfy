/** Exact distributions read off a vector of draws: the sorted distinct
    outcomes, the mass each one collects, and sums over either. */
module ExactPmf {
  import opened RealSums
  import opened StableSorting
  import Crps

  // ----- the mass collected by each outcome

  /** The weights of the draws equal to `x`. */
  function Hits<T(==)>(values: seq<T>, weights: seq<real>, x: T): int -> real {
    (i: int) => if 0 <= i < |values| && values[i] == x then At(weights)(i) else 0.0
  }

  function Mass<T(==)>(values: seq<T>, weights: seq<real>, n: nat, x: T): real { Sum(n, Hits(values, weights, x)) }

  function Masses<T(==)>(outcomes: seq<T>, values: seq<T>, weights: seq<real>): seq<real> {
    seq(|outcomes|, k requires 0 <= k < |outcomes| => Mass(values, weights, |values|, outcomes[k]))
  }

  /** A function of the outcome, weighed by mass and by draw. */
  function ByOutcome<T(==)>(outcomes: seq<T>, values: seq<T>, weights: seq<real>, n: nat, f: T -> real): int -> real {
    (k: int) => if 0 <= k < |outcomes| then Mass(values, weights, n, outcomes[k]) * f(outcomes[k]) else 0.0
  }

  function ByDraw<T>(values: seq<T>, weights: seq<real>, f: T -> real): int -> real {
    (i: int) => if 0 <= i < |values| then At(weights)(i) * f(values[i]) else 0.0
  }

  predicate Distinct<T(==)>(s: seq<T>) { forall i, j :: 0 <= i < j < |s| ==> s[i] != s[j] }

  lemma MassStep<T>(values: seq<T>, weights: seq<real>, n: nat, x: T)
    requires n < |values|
    ensures Mass(values, weights, n + 1, x) == Mass(values, weights, n, x) + if values[n] == x then At(weights)(n) else 0.0
  {
  }

  /** Summing over the distinct outcomes with their masses is summing over the
      draws with their weights, for any function of the outcome. */
  lemma {:induction false} PushForward<T(!new)>(outcomes: seq<T>, values: seq<T>, weights: seq<real>, n: nat, f: T -> real)
    requires n <= |values| && Distinct(outcomes)
    requires forall i :: 0 <= i < n ==> values[i] in outcomes
    ensures Sum(|outcomes|, ByOutcome(outcomes, values, weights, n, f)) == Sum(n, ByDraw(values, weights, f))
  {
    hide At, Mass;
    if n == 0 {
      forall k | 0 <= k < |outcomes| ensures ByOutcome(outcomes, values, weights, 0, f)(k) == 0.0 {
        NoMass(values, weights, outcomes[k]);
      }
      SumZero(|outcomes|, ByOutcome(outcomes, values, weights, 0, f));
    } else {
      PushForward(outcomes, values, weights, n - 1, f);
      var k := IndexIn(outcomes, values[n - 1]);
      forall j | 0 <= j < |outcomes|
        ensures ByOutcome(outcomes, values, weights, n, f)(j)
                == ByOutcome(outcomes, values, weights, n - 1, f)(j) + if j == k then ByDraw(values, weights, f)(n - 1) else 0.0
      {
        MassStep(values, weights, n - 1, outcomes[j]);
        AddedMass(Mass(values, weights, n - 1, outcomes[j]), At(weights)(n - 1), f(outcomes[j]));
      }
      SumBump(|outcomes|, ByOutcome(outcomes, values, weights, n - 1, f), ByOutcome(outcomes, values, weights, n, f), k,
              ByDraw(values, weights, f)(n - 1));
    }
  }

  lemma NoMass<T>(values: seq<T>, weights: seq<real>, x: T)
    ensures Mass(values, weights, 0, x) == 0.0
  {
  }

  lemma AddedMass(m: real, w: real, y: real)
    ensures (m + w) * y == m * y + w * y
  {
  }

  /** Positive weights give every outcome that occurs a positive mass. */
  lemma {:induction false} MassPositive<T>(values: seq<T>, weights: seq<real>, n: nat, x: T)
    requires n <= |values| && n <= |weights| && forall i :: 0 <= i < n ==> weights[i] > 0.0
    ensures Mass(values, weights, n, x) >= 0.0
    ensures (exists i :: 0 <= i < n && values[i] == x) ==> Mass(values, weights, n, x) > 0.0
  {
    if n > 0 {
      MassPositive(values, weights, n - 1, x);
      MassStep(values, weights, n - 1, x);
    }
  }

  /** The masses add up to what the weights add up to. */
  lemma TotalMass<T(!new)>(outcomes: seq<T>, values: seq<T>, weights: seq<real>)
    requires |weights| == |values| && Distinct(outcomes) && forall i :: 0 <= i < |values| ==> values[i] in outcomes
    ensures Sum(|outcomes|, At(Masses(outcomes, values, weights))) == Sum(|values|, At(weights))
  {
    var one := (x: T) => 1.0;
    PushForward(outcomes, values, weights, |values|, one);
    SumAgree(|outcomes|, At(Masses(outcomes, values, weights)), ByOutcome(outcomes, values, weights, |values|, one));
    SumAgree(|values|, At(weights), ByDraw(values, weights, one));
  }

  // ----- the distribution of integer outcomes

  datatype Pmf = Pmf(nDraws: nat, supportMin: int, supportMax: int, outcomes: seq<int>, probabilities: seq<real>)

  datatype PmfResult = Built(pmf: Pmf) | NoDraws | BadWeights(problem: WeightProblem) | BadMass | BadTotal | Ragged

  datatype WeightProblem = WrongShape | NonPositiveWeight | WrongSum

  const TOLERANCE: real := Crps.TOLERANCE

  function Outcomes(values: seq<int>): seq<int> { Unique(values, AtMost) }

  lemma OutcomesMeaning(values: seq<int>)
    ensures Crps.Ascending(Outcomes(values)) && Distinct(Outcomes(values))
    ensures forall x :: x in Outcomes(values) ==> x in values
    ensures forall i :: 0 <= i < |values| ==> values[i] in Outcomes(values)
    ensures values != [] ==> Outcomes(values) != []
  {
    UniqueMeaning(values, AtMost);
    forall i | 0 <= i < |values| ensures values[i] in Outcomes(values) { assert values[i] in values; }
  }

  lemma OutcomeOccurs(values: seq<int>, k: nat)
    requires k < |Outcomes(values)|
    ensures Outcomes(values)[k] in values
  {
    OutcomesMeaning(values);
    assert Outcomes(values)[k] in Outcomes(values);
  }

  lemma ValuesCovered(values: seq<int>)
    ensures Distinct(Outcomes(values)) && forall i :: 0 <= i < |values| ==> values[i] in Outcomes(values)
  {
    OutcomesMeaning(values);
  }

  /** Equal sets of values have equal supports. */
  lemma SameOutcomes(a: seq<int>, b: seq<int>)
    requires forall x :: x in a <==> x in b
    ensures Outcomes(a) == Outcomes(b)
  {
    UniqueMeaning(a, AtMost);
    UniqueMeaning(b, AtMost);
    forall x ensures x in Outcomes(a) <==> x in Outcomes(b) {
      OutcomesMeaning(a);
      OutcomesMeaning(b);
      assert x in Outcomes(a) <==> x in a;
      assert x in Outcomes(b) <==> x in b;
    }
    StrictlySortedIsUnique(Outcomes(a), Outcomes(b), AtMost);
  }

  predicate AllPositive(p: seq<real>) { forall i :: 0 <= i < |p| ==> p[i] > 0.0 }

  /** The checks made on every aggregated distribution. */
  function Checked(pmf: Pmf): PmfResult {
    if !AllPositive(pmf.probabilities) then BadMass
    else if Abs(Sum(|pmf.probabilities|, At(pmf.probabilities)) - 1.0) > TOLERANCE then BadTotal
    else if |pmf.outcomes| != |pmf.probabilities| || pmf.outcomes == [] then Ragged
    else Built(pmf)
  }

  function Least(values: seq<int>): int
    requires values != []
  {
    if |values| == 1 then values[0]
    else var m := Least(values[..|values| - 1]); if values[|values| - 1] < m then values[|values| - 1] else m
  }

  function Greatest(values: seq<int>): int
    requires values != []
  {
    if |values| == 1 then values[0]
    else var m := Greatest(values[..|values| - 1]); if values[|values| - 1] > m then values[|values| - 1] else m
  }

  lemma {:induction false} LeastGreatestMeaning(values: seq<int>)
    requires values != []
    ensures Least(values) in values && Greatest(values) in values
    ensures forall v :: v in values ==> Least(values) <= v <= Greatest(values)
  {
    if |values| > 1 {
      var n := |values| - 1;
      LeastGreatestMeaning(values[..n]);
      assert values == values[..n] + [values[n]];
    }
  }

  /** The extremes of the draws are the ends of the support. */
  lemma SupportEnds(values: seq<int>)
    requires values != []
    ensures Outcomes(values) != []
    ensures Least(values) == Outcomes(values)[0] && Greatest(values) == Outcomes(values)[|Outcomes(values)| - 1]
  {
    var xs := Outcomes(values);
    OutcomesMeaning(values);
    LeastGreatestMeaning(values);
    assert xs[0] in values && xs[|xs| - 1] in values && Least(values) in xs && Greatest(values) in xs;
  }

  /** Counting: each distinct outcome with its share of the draws. */
  function Shares(values: seq<int>): seq<real> {
    var xs := Outcomes(values);
    seq(|xs|, k requires 0 <= k < |xs| => if values == [] then 0.0 else (multiset(values)[xs[k]] as real) / (|values| as real))
  }

  function BuildRawPmf(values: seq<int>): PmfResult {
    if values == [] then NoDraws
    else Checked(Pmf(|values|, Least(values), Greatest(values), Outcomes(values), Shares(values)))
  }

  // ----- counting is weighing every draw by one over their number

  function Share(n: nat): real { if n == 0 then 0.0 else 1.0 / (n as real) }

  function Uniform(n: nat): seq<real> { seq(n, _ => Share(n)) }

  lemma {:induction false} UniformMass(values: seq<int>, n: nat, x: int)
    requires n <= |values|
    ensures Mass(values, Uniform(|values|), n, x) == (multiset(values[..n])[x] as real) * Share(|values|)
  {
    hide Share, Mass, At;
    if n == 0 {
      NoMass(values, Uniform(|values|), x);
    } else {
      UniformMass(values, n - 1, x);
      MassStep(values, Uniform(|values|), n - 1, x);
      UniformAt(|values|, n - 1);
      assert values[..n] == values[..n - 1] + [values[n - 1]];
      CountStep(multiset(values[..n - 1])[x], Share(|values|));
    }
  }

  lemma UniformAt(n: nat, i: nat)
    requires i < n
    ensures At(Uniform(n))(i) == Share(n)
  {
  }

  lemma CountStep(c: nat, share: real)
    ensures ((c + 1) as real) * share == (c as real) * share + share
  {
  }

  lemma SharesAreUniformMasses(values: seq<int>)
    ensures Shares(values) == Masses(Outcomes(values), values, Uniform(|values|))
  {
    hide Mass, Outcomes, Share, Uniform, At, Hits;
    var xs := Outcomes(values);
    forall k | 0 <= k < |xs| ensures Shares(values)[k] == Masses(xs, values, Uniform(|values|))[k] {
      OutcomeOccurs(values, k);
      UniformMass(values, |values|, xs[k]);
      assert values[..|values|] == values;
      ShareOf(multiset(values)[xs[k]], |values|);
    }
  }

  lemma ShareOf(c: nat, n: nat)
    requires n > 0
    ensures (c as real) / (n as real) == (c as real) * Share(n)
  {
  }

  lemma {:induction false} UniformSum(n: nat, m: nat)
    requires 0 < n && m <= n
    ensures Sum(m, At(Uniform(n))) == (m as real) * Share(n)
  {
    hide Share;
    if m > 0 { UniformSum(n, m - 1); }
  }

  /** Counting never fails on a non-empty vector of draws. */
  lemma RawPmfIsBuilt(values: seq<int>)
    ensures BuildRawPmf(values).Built? <==> values != []
    ensures values != [] ==> Crps.Pmf(Outcomes(values), Shares(values))
  {
    hide Shares, Masses, Uniform, Outcomes, At, Distinct, Share, Least, Greatest;
    if values != [] {
      var n := |values|;
      OutcomesMeaning(values);
      ValuesCovered(values);
      SharesAreUniformMasses(values);
      UniformPositive(n);
      MassesPositive(values, Uniform(n));
      TotalMass(Outcomes(values), values, Uniform(n));
      UniformSum(n, n);
      ShareTimes(n);
    }
  }

  lemma UniformPositive(n: nat)
    ensures |Uniform(n)| == n && AllPositive(Uniform(n))
  {
  }

  lemma ShareTimes(n: nat)
    requires n > 0
    ensures (n as real) * Share(n) == 1.0
  {
  }

  lemma MassesPositive(values: seq<int>, weights: seq<real>)
    requires |weights| == |values| && AllPositive(weights)
    ensures |Masses(Outcomes(values), values, weights)| == |Outcomes(values)|
    ensures AllPositive(Masses(Outcomes(values), values, weights))
  {
    var xs := Outcomes(values);
    OutcomesMeaning(values);
    forall k | 0 <= k < |xs| ensures Masses(xs, values, weights)[k] > 0.0 {
      OutcomeOccurs(values, k);
      MassPositive(values, weights, |values|, xs[k]);
    }
  }
}
