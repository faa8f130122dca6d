/** The continuous ranked probability score of a discrete distribution: the
    cumulative-sum form that is computed, its pairwise definition, and why it
    is a proper score. */
module Crps {
  import opened RealSums

  datatype Score = Scored(value: real) | LengthMismatch | NotNormalized | NotPositive

  const TOLERANCE: real := 0.000000001

  function Reals(s: seq<int>): seq<real> { seq(|s|, i requires 0 <= i < |s| => s[i] as real) }

  /** The summands of the mean distance to `c` under masses `u`. */
  function Distances(x: int -> real, u: int -> real, c: real): int -> real { i => u(i) * Abs(x(i) - c) }

  function Near(n: nat, x: int -> real, u: int -> real, c: real): real { Sum(n, Distances(x, u, c)) }

  /** The pairwise double sum: masses times distances, over every pair. */
  function Pairs(n: nat, x: int -> real, u: int -> real, v: int -> real): int -> real {
    j => v(j) * Near(n, x, u, x(j))
  }

  function Pairwise(n: nat, m: nat, x: int -> real, u: int -> real, v: int -> real): real { Sum(m, Pairs(n, x, u, v)) }

  /** The mass and the weighted value strictly before index `j`. */
  function MassBefore(u: int -> real): int -> real { j => Sum(if j < 0 then 0 else j, u) }

  function Moment(x: int -> real, u: int -> real): int -> real { i => u(i) * x(i) }

  function ValueBefore(x: int -> real, u: int -> real): int -> real { MassBefore(Moment(x, u)) }

  /** What is computed in one pass from the two running sums. */
  function Cumulative(n: nat, x: int -> real, u: int -> real): real {
    Sum(n, j => u(j) * x(j) * MassBefore(u)(j)) - Sum(n, j => u(j) * ValueBefore(x, u)(j))
  }

  function CrpsFromPmf(outcomes: seq<int>, probabilities: seq<real>, observed: real): Score {
    var x, p, n := At(Reals(outcomes)), At(probabilities), |outcomes|;
    if |probabilities| != n || n == 0 then LengthMismatch
    else if Abs(Sum(n, p) - 1.0) > TOLERANCE then NotNormalized
    else if exists i :: 0 <= i < n && probabilities[i] <= 0.0 then NotPositive
    else Scored(Near(n, x, p, observed) - 0.5 * (2.0 * Cumulative(n, x, p)))
  }

  /** What each refusal means, the checks before it having passed: a mass for each
      of at least one outcome, a total within a billionth of one, each positive. */
  lemma RefusedExactly(outcomes: seq<int>, probabilities: seq<real>, observed: real)
    ensures var total, r := Sum(|outcomes|, At(probabilities)), CrpsFromPmf(outcomes, probabilities, observed);
            var fits, near := |probabilities| == |outcomes| > 0, 0.999999999 <= total <= 1.000000001;
            && (r == LengthMismatch <==> !fits)
            && (r == NotNormalized <==> fits && !near)
            && (r == NotPositive <==> fits && near && exists p :: p in probabilities && p <= 0.0)
            && (r.Scored? <==> fits && near && forall p :: p in probabilities ==> p > 0.0)
  {
    hide Near, Cumulative, At;
    if i :| 0 <= i < |outcomes| && i < |probabilities| && probabilities[i] <= 0.0 { assert probabilities[i] in probabilities; }
  }

  predicate Ascending(s: seq<int>) { forall i, j :: 0 <= i < j < |s| ==> s[i] < s[j] }

  ghost predicate Rising(n: nat, x: int -> real) { forall i, j :: 0 <= i < j < n ==> x(i) <= x(j) }

  lemma AscendingRises(s: seq<int>)
    requires Ascending(s)
    ensures Rising(|s|, At(Reals(s)))
  {
  }

  // ----- the one-pass form is the double sum

  /** Below or at `c`, the mean distance to `c` needs only the two running sums. */
  lemma NearFromBelow(n: nat, x: int -> real, u: int -> real, c: real)
    requires forall i :: 0 <= i < n ==> x(i) <= c
    ensures Near(n, x, u, c) == c * Sum(n, u) - Sum(n, Moment(x, u))
  {
    SumLinear(n, c, u, -1.0, Moment(x, u), Distances(x, u, c));
  }

  lemma PairwiseGrows(n: nat, m: nat, x: int -> real, u: int -> real, v: int -> real)
    ensures Pairwise(n + 1, m, x, u, v) == Pairwise(n, m, x, u, v) + u(n) * Near(m, x, v, x(n))
  {
    hide Pairs, Distances, Affine, Abs;
    forall j | 0 <= j < m ensures Pairs(n + 1, x, u, v)(j) == Affine(1.0, Pairs(n, x, u, v), u(n), Distances(x, v, x(n)))(j) {
      PairsGrow(n, x, u, v, j);
    }
    SumLinear(m, 1.0, Pairs(n, x, u, v), u(n), Distances(x, v, x(n)), Pairs(n + 1, x, u, v));
  }

  lemma PairsGrow(n: nat, x: int -> real, u: int -> real, v: int -> real, j: int)
    ensures Pairs(n + 1, x, u, v)(j) == Affine(1.0, Pairs(n, x, u, v), u(n), Distances(x, v, x(n)))(j)
  {
    hide Near, Abs;
    NearGrows(n, x, u, x(j));
    Swapped(v(j), u(n), Near(n, x, u, x(j)), Abs(x(n) - x(j)), Abs(x(j) - x(n)));
  }

  lemma NearGrows(n: nat, x: int -> real, u: int -> real, c: real)
    ensures Near(n + 1, x, u, c) == Near(n, x, u, c) + u(n) * Abs(x(n) - c)
    ensures Abs(x(n) - c) == Abs(c - x(n))
  {
  }

  lemma Swapped(a: real, b: real, c: real, d: real, e: real)
    requires d == e
    ensures a * (c + b * d) == 1.0 * (a * c) + b * (a * e)
  {
  }

  lemma {:induction false} CumulativeIsPairwise(n: nat, x: int -> real, u: int -> real)
    requires Rising(n, x)
    ensures 2.0 * Cumulative(n, x, u) == Pairwise(n, n, x, u, u)
  {
    hide Cumulative, Near, Moment;
    if n > 0 {
      var k := n - 1;
      CumulativeIsPairwise(k, x, u);
      PairwiseGrows(k, k, x, u, u);
      NearFromBelow(k, x, u, x(k));
      OnePoint(k, x, u);
    } else {
      NothingYet(x, u);
    }
  }

  /** What one more point adds to the two forms. */
  lemma OnePoint(k: nat, x: int -> real, u: int -> real)
    ensures Pairwise(k + 1, k + 1, x, u, u) == Pairwise(k + 1, k, x, u, u) + u(k) * Near(k, x, u, x(k))
    ensures Cumulative(k + 1, x, u) == Cumulative(k, x, u) + u(k) * (x(k) * Sum(k, u) - Sum(k, Moment(x, u)))
  {
    hide Cumulative, Near;
    OnePointNear(k, x, u);
    OnePointCumulative(k, x, u);
  }

  lemma OnePointNear(k: nat, x: int -> real, u: int -> real)
    ensures Near(k + 1, x, u, x(k)) == Near(k, x, u, x(k))
  {
    assert Distances(x, u, x(k))(k) == 0.0;
  }

  lemma OnePointCumulative(k: nat, x: int -> real, u: int -> real)
    ensures Cumulative(k + 1, x, u) == Cumulative(k, x, u) + u(k) * (x(k) * Sum(k, u) - Sum(k, Moment(x, u)))
  {
    hide Moment;
    CumulativeStep(u(k), x(k), Sum(k, u), Sum(k, Moment(x, u)));
  }

  lemma CumulativeStep(u: real, x: real, s: real, m: real)
    ensures u * x * s - u * m == u * (x * s - m)
  {
  }

  // ----- the score is never negative when the masses add up to at most one

  lemma DistanceTriangle(x: int -> real, u: int -> real, y: real, c: real, i: int)
    requires u(i) >= 0.0
    ensures Distances(x, u, c)(i) <= Affine(1.0, Distances(x, u, y), Abs(c - y), u)(i)
  {
    assert Abs(x(i) - c) <= Abs(x(i) - y) + Abs(c - y);
    ScaledAtMost(u(i), Abs(x(i) - c), Abs(x(i) - y), Abs(c - y));
  }

  lemma ScaledAtMost(a: real, b: real, c: real, d: real)
    requires a >= 0.0 && b <= c + d
    ensures a * b <= a * c + d * a
  {
    assert a * b <= a * (c + d);
  }

  lemma NearTriangle(n: nat, x: int -> real, u: int -> real, y: real, c: real)
    requires forall i :: 0 <= i < n ==> u(i) >= 0.0
    ensures Near(n, x, u, c) <= Near(n, x, u, y) + Abs(c - y) * Sum(n, u)
  {
    hide Affine, Distances, Abs;
    var bound := Affine(1.0, Distances(x, u, y), Abs(c - y), u);
    forall i | 0 <= i < n ensures Distances(x, u, c)(i) <= bound(i) { DistanceTriangle(x, u, y, c, i); }
    SumAtMost(n, Distances(x, u, c), bound);
    SumAffine(n, 1.0, Distances(x, u, y), Abs(c - y), u);
  }

  lemma PairTriangle(n: nat, x: int -> real, u: int -> real, y: real, j: nat)
    requires j < n && forall i :: 0 <= i < n ==> u(i) >= 0.0
    ensures Pairs(n, x, u, u)(j) <= Affine(Near(n, x, u, y), u, Sum(n, u), Distances(x, u, y))(j)
  {
    hide Near, Abs, Sum;
    NearTriangle(n, x, u, y, x(j));
    ScaledBound(u(j), Near(n, x, u, x(j)), Near(n, x, u, y), Abs(x(j) - y), Sum(n, u));
  }

  lemma ScaledBound(a: real, b: real, near: real, d: real, total: real)
    requires a >= 0.0 && b <= near + d * total
    ensures a * b <= near * a + total * (a * d)
  {
    assert a * b <= a * (near + d * total);
  }

  lemma PairwiseAtMost(n: nat, x: int -> real, u: int -> real, y: real)
    requires forall i :: 0 <= i < n ==> u(i) >= 0.0
    ensures Pairwise(n, n, x, u, u) <= 2.0 * (Near(n, x, u, y) * Sum(n, u))
  {
    hide Affine, Distances, Abs, Pairs;
    var bound := Affine(Near(n, x, u, y), u, Sum(n, u), Distances(x, u, y));
    forall j | 0 <= j < n ensures Pairs(n, x, u, u)(j) <= bound(j) { PairTriangle(n, x, u, y, j); }
    SumAtMost(n, Pairs(n, x, u, u), bound);
    SumAffine(n, Near(n, x, u, y), u, Sum(n, u), Distances(x, u, y));
  }

  /** What an accepted distribution is, and the two parts of its score. */
  lemma ScoredMeaning(outcomes: seq<int>, probabilities: seq<real>, observed: real)
    requires CrpsFromPmf(outcomes, probabilities, observed).Scored?
    ensures var x, p, n := At(Reals(outcomes)), At(probabilities), |outcomes|;
            && CrpsFromPmf(outcomes, probabilities, observed).value == Near(n, x, p, observed) - Cumulative(n, x, p)
            && |probabilities| == n && (forall i :: 0 <= i < n ==> p(i) >= 0.0)
  {
    hide Near, Cumulative, Sum;
  }

  /** The score is at least the mean distance times the mass missing from one. */
  lemma CrpsLowerBound(outcomes: seq<int>, probabilities: seq<real>, observed: real)
    requires Ascending(outcomes) && CrpsFromPmf(outcomes, probabilities, observed).Scored?
    ensures var n, p := |outcomes|, At(probabilities);
            CrpsFromPmf(outcomes, probabilities, observed).value
              >= (1.0 - Sum(n, p)) * Near(n, At(Reals(outcomes)), p, observed)
  {
    hide Near, Cumulative, Sum, Pairwise, CrpsFromPmf, At, Reals, Rising;
    var x, p, n := At(Reals(outcomes)), At(probabilities), |outcomes|;
    ScoredMeaning(outcomes, probabilities, observed);
    AscendingRises(outcomes);
    CumulativeIsPairwise(n, x, p);
    PairwiseAtMost(n, x, p, observed);
    assert (1.0 - Sum(n, p)) * Near(n, x, p, observed) == Near(n, x, p, observed) - Near(n, x, p, observed) * Sum(n, p);
  }

  ghost predicate NeverNegative(total: real) {
    forall outcomes, probabilities, observed ::
      Ascending(outcomes) && Sum(|outcomes|, At(probabilities)) == total
      && CrpsFromPmf(outcomes, probabilities, observed).Scored?
      ==> CrpsFromPmf(outcomes, probabilities, observed).value >= 0.0
  }

  lemma NonNegativeUpToOne(outcomes: seq<int>, probabilities: seq<real>, observed: real)
    requires Ascending(outcomes) && Sum(|outcomes|, At(probabilities)) <= 1.0
    requires CrpsFromPmf(outcomes, probabilities, observed).Scored?
    ensures CrpsFromPmf(outcomes, probabilities, observed).value >= 0.0
  {
    hide Cumulative, Sum, CrpsFromPmf, At, Reals, Rising, Ascending, Abs;
    var n, x, p := |outcomes|, At(Reals(outcomes)), At(probabilities);
    CrpsLowerBound(outcomes, probabilities, observed);
    ScoredMeaning(outcomes, probabilities, observed);
    forall i | 0 <= i < n ensures 0.0 <= Distances(x, p, observed)(i) { DistanceSign(x, p, observed, i); }
    NonNegativeSumIsZero(n, Distances(x, p, observed));
    assert (1.0 - Sum(n, p)) * Near(n, x, p, observed) >= 0.0;
  }

  lemma DistanceSign(x: int -> real, u: int -> real, c: real, i: int)
    requires u(i) >= 0.0
    ensures Distances(x, u, c)(i) >= 0.0
  {
  }

  /** Masses within the accepted tolerance of one never give a negative score
      exactly when they do not add up to more than one. */
  lemma NonNegativeExactly(total: real)
    requires Abs(total - 1.0) <= TOLERANCE
    ensures NeverNegative(total) <==> total <= 1.0
  {
    if total <= 1.0 {
      forall outcomes, probabilities, observed
        | Ascending(outcomes) && Sum(|outcomes|, At(probabilities)) == total
          && CrpsFromPmf(outcomes, probabilities, observed).Scored?
        ensures CrpsFromPmf(outcomes, probabilities, observed).value >= 0.0
      {
        NonNegativeUpToOne(outcomes, probabilities, observed);
      }
    } else {
      var outcomes, p := ExcessMassGoesNegative(total);
    }
  }

  /** An accepted distribution with a negative score: the surplus at the observed
      outcome outweighs the distance of the rest. */
  lemma ExcessMassGoesNegative(total: real) returns (outcomes: seq<int>, p: seq<real>)
    requires 1.0 < total <= 1.0 + TOLERANCE
    ensures Ascending(outcomes) && Sum(|outcomes|, At(p)) == total
    ensures CrpsFromPmf(outcomes, p, 0.0).Scored? && CrpsFromPmf(outcomes, p, 0.0).value < 0.0
  {
    hide Near, Cumulative;
    var e := (total - 1.0) / 2.0;
    outcomes, p := [0, 1], [1.0 + e, e];
    var x, u := At(Reals(outcomes)), At(p);
    TwoPoints(x, u, e);
    ScoredMeaning(outcomes, p, 0.0);
    assert |outcomes| == 2;
  }

  lemma TwoPoints(x: int -> real, u: int -> real, e: real)
    requires e > 0.0 && x(0) == 0.0 && x(1) == 1.0 && u(0) == 1.0 + e && u(1) == e
    ensures Sum(2, u) == 1.0 + 2.0 * e && Near(2, x, u, 0.0) - Cumulative(2, x, u) < 0.0
  {
    hide Cumulative;
    var d := Distances(x, u, 0.0);
    assert Sum(2, u) == Sum(1, u) + u(1) && Sum(1, u) == u(0);
    assert Sum(2, d) == Sum(1, d) + d(1) && Sum(1, d) == d(0) && d(0) == 0.0 && d(1) == e;
    OnePoint(1, x, u);
    OnePoint(0, x, u);
    assert Sum(1, Moment(x, u)) == Moment(x, u)(0) && Moment(x, u)(0) == 0.0;
    NothingYet(x, u);
    Surplus(e, Near(2, x, u, 0.0), Cumulative(2, x, u));
  }

  lemma Surplus(e: real, near: real, cumulative: real)
    requires e > 0.0 && near == e && cumulative == e * (1.0 + e)
    ensures near - cumulative < 0.0
  {
    hide Square;
    NonZeroSquare(e);
    Expand(e);
  }

  lemma Expand(e: real)
    ensures e * (1.0 + e) == e + Square(e)
  {
  }

  lemma NothingYet(x: int -> real, u: int -> real)
    ensures Cumulative(0, x, u) == 0.0
  {
  }

  // ----- the score is proper

  /** The expected score of reporting `p` when outcomes follow `q`. */
  function Expected(outcomes: seq<int>, p: seq<real>, q: seq<real>): real {
    Sum(|outcomes|, ExpectedTerms(outcomes, p, q))
  }

  function ExpectedTerms(outcomes: seq<int>, p: seq<real>, q: seq<real>): int -> real {
    (k: int) => At(q)(k) * ScoreOf(CrpsFromPmf(outcomes, p, At(Reals(outcomes))(k)))
  }

  function ScoreOf(s: Score): real { if s.Scored? then s.value else 0.0 }

  /** Positive masses that add up to one. */
  predicate Pmf(outcomes: seq<int>, p: seq<real>) {
    |p| == |outcomes| > 0 && Sum(|p|, At(p)) == 1.0 && forall i :: 0 <= i < |p| ==> p[i] > 0.0
  }

  lemma {:induction false} PairwiseSymmetric(n: nat, m: nat, x: int -> real, u: int -> real, v: int -> real)
    ensures Pairwise(n, m, x, u, v) == Pairwise(m, n, x, v, u)
  {
    if n == 0 {
      forall j | 0 <= j < m ensures Pairs(0, x, u, v)(j) == 0.0 { assert Near(0, x, u, x(j)) == 0.0; }
      SumZero(m, Pairs(0, x, u, v));
    } else {
      PairwiseSymmetric(n - 1, m, x, u, v);
      PairwiseGrows(n - 1, m, x, u, v);
    }
  }

  function Minus(u: int -> real, v: int -> real): int -> real { i => u(i) - v(i) }

  /** The double sum is linear in its first distribution. */
  lemma PairwiseMinus(n: nat, x: int -> real, u: int -> real, v: int -> real, w: int -> real)
    ensures Pairwise(n, n, x, Minus(u, v), w) == Pairwise(n, n, x, u, w) - Pairwise(n, n, x, v, w)
  {
    hide Minus, Affine, Pairs;
    forall j | 0 <= j < n ensures Pairs(n, x, Minus(u, v), w)(j) == Affine(1.0, Pairs(n, x, u, w), -1.0, Pairs(n, x, v, w))(j) {
      PairsMinus(n, x, u, v, w, j);
    }
    SumLinear(n, 1.0, Pairs(n, x, u, w), -1.0, Pairs(n, x, v, w), Pairs(n, x, Minus(u, v), w));
  }

  lemma PairsMinus(n: nat, x: int -> real, u: int -> real, v: int -> real, w: int -> real, j: int)
    ensures Pairs(n, x, Minus(u, v), w)(j) == Affine(1.0, Pairs(n, x, u, w), -1.0, Pairs(n, x, v, w))(j)
  {
    hide Near;
    NearMinus(n, x, u, v, x(j));
    Subtract(w(j), Near(n, x, u, x(j)), Near(n, x, v, x(j)));
  }

  lemma Subtract(a: real, b: real, c: real)
    ensures a * (b - c) == 1.0 * (a * b) + -1.0 * (a * c)
  {
  }

  lemma NearMinus(n: nat, x: int -> real, u: int -> real, v: int -> real, c: real)
    ensures Near(n, x, Minus(u, v), c) == Near(n, x, u, c) - Near(n, x, v, c)
  {
    hide Abs;
    SumLinear(n, 1.0, Distances(x, u, c), -1.0, Distances(x, v, c), Distances(x, Minus(u, v), c));
  }

  lemma ExpectedIsPairwise(outcomes: seq<int>, p: seq<real>, q: seq<real>)
    requires Ascending(outcomes) && Pmf(outcomes, p) && Pmf(outcomes, q)
    ensures var n, x := |outcomes|, At(Reals(outcomes));
            Expected(outcomes, p, q) == Pairwise(n, n, x, At(p), At(q)) - 0.5 * Pairwise(n, n, x, At(p), At(p))
  {
    hide Affine, Pairs, Sum, ExpectedTerms, CrpsFromPmf, At, Reals, Near, Ascending;
    var n, x, u, v := |outcomes|, At(Reals(outcomes)), At(p), At(q);
    var c := -0.5 * Pairwise(n, n, x, u, u);
    forall k | 0 <= k < n ensures ExpectedTerms(outcomes, p, q)(k) == Affine(1.0, Pairs(n, x, u, v), c, v)(k) {
      ExpectedTermAt(outcomes, p, q, k);
    }
    SumLinear(n, 1.0, Pairs(n, x, u, v), c, v, ExpectedTerms(outcomes, p, q));
  }

  lemma PmfIsScored(outcomes: seq<int>, p: seq<real>, c: real)
    requires Pmf(outcomes, p)
    ensures CrpsFromPmf(outcomes, p, c).Scored?
  {
    hide Sum, Near, Cumulative, At, Reals;
  }

  lemma ExpectedTermAt(outcomes: seq<int>, p: seq<real>, q: seq<real>, k: nat)
    requires Ascending(outcomes) && Pmf(outcomes, p) && k < |outcomes|
    ensures var n, x, u, v := |outcomes|, At(Reals(outcomes)), At(p), At(q);
            ExpectedTerms(outcomes, p, q)(k) == Affine(1.0, Pairs(n, x, u, v), -0.5 * Pairwise(n, n, x, u, u), v)(k)
  {
    hide Sum, Near, Cumulative, CrpsFromPmf, Pairwise, Rising, At, Reals;
    var n, x, u, v := |outcomes|, At(Reals(outcomes)), At(p), At(q);
    PmfIsScored(outcomes, p, x(k));
    ScoredMeaning(outcomes, p, x(k));
    AscendingRises(outcomes);
    CumulativeIsPairwise(n, x, u);
    Spread(v(k), Near(n, x, u, x(k)), Pairwise(n, n, x, u, u));
  }

  lemma Spread(a: real, b: real, c: real)
    ensures a * (b - 0.5 * c) == 1.0 * (a * b) + (-0.5 * c) * a
  {
  }

  /** Cumulative mass times the gap to the next outcome. */
  function Gaps(x: int -> real, d: int -> real): int -> real {
    k => if k < 0 then 0.0 else Sum(k + 1, d) * (x(k + 1) - x(k))
  }

  function CrossGaps(n: nat, x: int -> real, d: int -> real): int -> real {
    k => if k < 0 then 0.0 else (Sum(n, d) - Sum(k + 1, d)) * Gaps(x, d)(k)
  }

  /** Summation by parts. */
  lemma {:induction false} ByParts(n: nat, x: int -> real, d: int -> real)
    ensures x(n) * Sum(n, d) - Sum(n, Moment(x, d)) == Sum(n, Gaps(x, d))
  {
    hide Moment, Gaps;
    if n == 0 {
      assert Sum(0, d) == 0.0;
    } else {
      var k := n - 1;
      ByParts(k, x, d);
      MomentAt(x, d, k);
      assert Sum(n, d) == Sum(k, d) + d(k);
      PartsStep(x(k), x(n), Sum(k, d), d(k), Sum(k, Moment(x, d)), Sum(n, d));
    }
  }

  lemma MomentAt(x: int -> real, d: int -> real, k: nat)
    ensures Moment(x, d)(k) == d(k) * x(k)
    ensures Gaps(x, d)(k) == Sum(k + 1, d) * (x(k + 1) - x(k))
  {
    hide Sum;
  }

  lemma PartsStep(x: real, next: real, s: real, d: real, m: real, t: real)
    requires t == s + d
    ensures next * t - (m + d * x) == (x * s - m) + t * (next - x)
  {
  }

  lemma CrossGapAt(n: nat, x: int -> real, d: int -> real, k: nat)
    ensures CrossGaps(n + 1, x, d)(k) == Affine(1.0, CrossGaps(n, x, d), d(n), Gaps(x, d))(k)
  {
    assert Sum(n + 1, d) == Sum(n, d) + d(n);
    CrossStep(Sum(n, d), d(n), Sum(k + 1, d), Gaps(x, d)(k));
  }

  lemma CrossStep(s: real, d: real, t: real, g: real)
    ensures (s + d - t) * g == 1.0 * ((s - t) * g) + d * g
  {
  }

  lemma LastCrossGap(k: nat, x: int -> real, d: int -> real)
    ensures CrossGaps(k + 1, x, d)(k) == 0.0
  {
  }

  lemma {:induction false} CumulativeByGaps(n: nat, x: int -> real, d: int -> real)
    ensures Cumulative(n, x, d) == Sum(n, CrossGaps(n, x, d))
  {
    hide Cumulative, CrossGaps, Gaps, Moment, Affine;
    if n == 0 {
      NothingYet(x, d);
    } else {
      var k := n - 1;
      CumulativeByGaps(k, x, d);
      OnePoint(k, x, d);
      ByParts(k, x, d);
      forall i | 0 <= i < k ensures CrossGaps(n, x, d)(i) == Affine(1.0, CrossGaps(k, x, d), d(k), Gaps(x, d))(i) {
        CrossGapAt(k, x, d, i);
      }
      SumLinear(k, 1.0, CrossGaps(k, x, d), d(k), Gaps(x, d), CrossGaps(n, x, d));
      LastCrossGap(k, x, d);
    }
  }

  function Square(a: real): real { a * a }

  /** Squared difference of the two cumulative distributions, times the gap. */
  function SquaredGaps(x: int -> real, d: int -> real): int -> real {
    k => if k < 0 then 0.0 else Square(Sum(k + 1, d)) * (x(k + 1) - x(k))
  }

  function CdfDistance(outcomes: seq<int>, p: seq<real>, q: seq<real>): real {
    if outcomes == [] then 0.0 else Sum(|outcomes| - 1, SquaredGaps(At(Reals(outcomes)), Minus(At(p), At(q))))
  }

  lemma DifferenceSums(n: nat, u: int -> real, v: int -> real)
    ensures Sum(n, Minus(u, v)) == Sum(n, u) - Sum(n, v)
  {
    SumLinear(n, 1.0, u, -1.0, v, Minus(u, v));
  }

  /** The double sum of a difference of two distributions, and by gaps. */
  lemma DifferencePairwise(n: nat, x: int -> real, u: int -> real, v: int -> real)
    ensures Pairwise(n, n, x, Minus(u, v), Minus(u, v))
            == Pairwise(n, n, x, u, u) - 2.0 * Pairwise(n, n, x, u, v) + Pairwise(n, n, x, v, v)
  {
    hide Pairwise, Minus;
    PairwiseMinus(n, x, u, v, u);
    PairwiseMinus(n, x, u, v, v);
    PairwiseMinus(n, x, u, v, Minus(u, v));
    PairwiseSymmetric(n, n, x, u, Minus(u, v));
    PairwiseSymmetric(n, n, x, v, Minus(u, v));
    PairwiseSymmetric(n, n, x, u, v);
  }

  lemma SquaredGapAt(n: nat, x: int -> real, d: int -> real, k: nat)
    requires Sum(n, d) == 0.0
    ensures CrossGaps(n, x, d)(k) == Affine(-1.0, SquaredGaps(x, d), 0.0, d)(k)
  {
    hide Square, Sum, Gaps, CrossGaps, SquaredGaps, Affine;
    GapsAt(n, x, d, k);
    SquareStep(Sum(n, d), Sum(k + 1, d), x(k + 1) - x(k), Gaps(x, d)(k), CrossGaps(n, x, d)(k));
    Negated(SquaredGaps(x, d), d, k);
  }

  /** The three summands of a gap. */
  lemma GapsAt(n: nat, x: int -> real, d: int -> real, k: nat)
    ensures Gaps(x, d)(k) == Sum(k + 1, d) * (x(k + 1) - x(k))
    ensures CrossGaps(n, x, d)(k) == (Sum(n, d) - Sum(k + 1, d)) * Gaps(x, d)(k)
    ensures SquaredGaps(x, d)(k) == Square(Sum(k + 1, d)) * (x(k + 1) - x(k))
  {
    hide Square, Sum;
  }

  lemma Negated(f: int -> real, g: int -> real, k: int)
    ensures Affine(-1.0, f, 0.0, g)(k) == -1.0 * f(k)
  {
  }

  lemma SquareStep(total: real, s: real, g: real, gap: real, cross: real)
    requires total == 0.0 && gap == s * g && cross == (total - s) * gap
    ensures cross == -1.0 * (Square(s) * g)
  {
    assert cross == -s * (s * g);
  }

  lemma BalancedByGaps(n: nat, x: int -> real, d: int -> real)
    requires n > 0 && Sum(n, d) == 0.0
    ensures Cumulative(n, x, d) == -Sum(n - 1, SquaredGaps(x, d))
  {
    hide Cumulative, CrossGaps, SquaredGaps, Affine;
    CumulativeByGaps(n, x, d);
    LastCrossGap(n - 1, x, d);
    forall k | 0 <= k < n - 1 ensures CrossGaps(n, x, d)(k) == Affine(-1.0, SquaredGaps(x, d), 0.0, d)(k) {
      SquaredGapAt(n, x, d, k);
    }
    SumLinear(n - 1, -1.0, SquaredGaps(x, d), 0.0, d, CrossGaps(n, x, d));
  }

  /** Reporting `p` instead of the true `q` costs exactly the squared difference
      of the two cumulative distributions, weighted by the gaps of the support. */
  lemma CrpsRegret(outcomes: seq<int>, p: seq<real>, q: seq<real>)
    requires Ascending(outcomes) && Pmf(outcomes, p) && Pmf(outcomes, q)
    ensures Expected(outcomes, p, q) - Expected(outcomes, q, q) == CdfDistance(outcomes, p, q)
  {
    hide Expected, Pairwise, Cumulative, Sum, SquaredGaps, Ascending, Rising, At, Reals, Minus;
    var n, x, u, v := |outcomes|, At(Reals(outcomes)), At(p), At(q);
    ExpectedIsPairwise(outcomes, p, q);
    ExpectedIsPairwise(outcomes, q, q);
    DifferencePairwise(n, x, u, v);
    AscendingRises(outcomes);
    CumulativeIsPairwise(n, x, Minus(u, v));
    DifferenceSums(n, u, v);
    BalancedByGaps(n, x, Minus(u, v));
  }

  lemma SquaredGapSign(outcomes: seq<int>, d: int -> real, k: nat)
    requires Ascending(outcomes) && k + 1 < |outcomes|
    ensures SquaredGaps(At(Reals(outcomes)), d)(k) >= 0.0
    ensures SquaredGaps(At(Reals(outcomes)), d)(k) == 0.0 <==> Sum(k + 1, d) == 0.0
  {
    hide Sum;
    var x := At(Reals(outcomes));
    assert x(k + 1) > x(k);
    SquareSign(Sum(k + 1, d), x(k + 1) - x(k));
  }

  lemma SquareSign(s: real, gap: real)
    requires gap > 0.0
    ensures Square(s) * gap >= 0.0 && (Square(s) * gap == 0.0 <==> s == 0.0)
  {
    hide Square;
    if s != 0.0 {
      NonZeroSquare(s);
      ProductSign(Square(s), gap);
    } else {
      ZeroSquare();
    }
  }

  lemma PositiveSquare(s: real)
    requires s > 0.0
    ensures Square(s) > 0.0
  {
    calc {
      Square(s);
      s * s;
    > { ProductSign(s, s); }
      0.0;
    }
  }

  lemma EvenSquare(s: real, t: real)
    requires t == -s
    ensures Square(s) == Square(t)
  {
  }

  lemma NonZeroSquare(s: real)
    requires s != 0.0
    ensures Square(s) > 0.0
  {
    hide Square;
    var t := -s;
    EvenSquare(s, t);
    if s > 0.0 { PositiveSquare(s); } else { PositiveSquare(t); }
  }

  lemma ZeroSquare()
    ensures Square(0.0) == 0.0
  {
  }

  lemma ProductSign(a: real, b: real)
    requires a > 0.0 && b > 0.0
    ensures a * b > 0.0
  {
  }

  lemma {:induction false} NonNegativeSumIsZero(n: nat, f: int -> real)
    requires forall k :: 0 <= k < n ==> f(k) >= 0.0
    ensures Sum(n, f) >= 0.0
    ensures Sum(n, f) == 0.0 ==> forall k :: 0 <= k < n ==> f(k) == 0.0
  {
    if n > 0 { NonNegativeSumIsZero(n - 1, f); }
  }

  /** The expected score is least at the true distribution, and only there. */
  lemma CrpsIsStrictlyProper(outcomes: seq<int>, p: seq<real>, q: seq<real>)
    requires Ascending(outcomes) && Pmf(outcomes, p) && Pmf(outcomes, q)
    ensures Expected(outcomes, p, q) >= Expected(outcomes, q, q)
    ensures Expected(outcomes, p, q) == Expected(outcomes, q, q) <==> p == q
  {
    hide Expected, SquaredGaps, Ascending, At, Reals, Minus, Sum;
    var n, x, d := |outcomes|, At(Reals(outcomes)), Minus(At(p), At(q));
    CrpsRegret(outcomes, p, q);
    DifferenceSums(n, At(p), At(q));
    forall k | 0 <= k < n - 1
      ensures SquaredGaps(x, d)(k) >= 0.0 && (SquaredGaps(x, d)(k) == 0.0 <==> Sum(k + 1, d) == 0.0)
    {
      SquaredGapSign(outcomes, d, k);
    }
    NonNegativeSumIsZero(n - 1, SquaredGaps(x, d));
    if Expected(outcomes, p, q) == Expected(outcomes, q, q) {
      forall k | 0 <= k < n ensures p[k] == q[k] {
        assert k < n - 1 ==> SquaredGaps(x, d)(k) == 0.0;
        assert k > 0 ==> SquaredGaps(x, d)(k - 1) == 0.0;
        SameMass(p, q, k);
      }
    }
  }

  lemma SameMass(p: seq<real>, q: seq<real>, k: nat)
    requires k < |p| == |q|
    requires k > 0 ==> Sum(k, Minus(At(p), At(q))) == 0.0
    requires Sum(k + 1, Minus(At(p), At(q))) == 0.0
    ensures p[k] == q[k]
  {
  }
}
