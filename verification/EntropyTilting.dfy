/** Softmax draw weights of a linear score, over an abstract positive exponential. */
module EntropyTilting {
  import opened RealSums
  import opened ExactPmf
  import WeightedPmf

  /** A feature matrix: one row per draw. */
  datatype Matrix = Matrix(width: nat, rows: seq<seq<real>>)

  datatype TiltResult = Tilted(weights: seq<real>) | ThetaMismatch | NoDraw | NotNormalizable

  const WEIGHT_SUM_TOLERANCE: real := 0.000000001

  function Products(theta: seq<real>, phi: seq<real>): int -> real { (j: int) => At(theta)(j) * At(phi)(j) }

  function Dot(theta: seq<real>, phi: seq<real>): real { Sum(|theta|, Products(theta, phi)) }

  function Scores(theta: seq<real>, features: Matrix): seq<real> {
    seq(|features.rows|, i requires 0 <= i < |features.rows| => Dot(theta, features.rows[i]))
  }

  function Largest(s: seq<real>): real
    requires s != []
  {
    if |s| == 1 then s[0] else var m := Largest(s[..|s| - 1]); if s[|s| - 1] > m then s[|s| - 1] else m
  }

  function ScaledBy(s: seq<real>, total: real): seq<real>
    requires total != 0.0
  {
    seq(|s|, i requires 0 <= i < |s| => s[i] / total)
  }

  function Exponentials(scores: seq<real>, exp: real -> real): seq<real> {
    seq(|scores|, i requires 0 <= i < |scores| => exp(scores[i] - Largest(scores)))
  }

  function Total(s: seq<real>): real { Sum(|s|, At(s)) }

  /** Scale to the total, check, and rescale once if the sum still drifts. */
  function Normalized(e: seq<real>): TiltResult {
    if Total(e) <= 0.0 then NotNormalizable
    else
      var weights := ScaledBy(e, Total(e));
      if !AllPositive(weights) then NotNormalizable
      else if Abs(Total(weights) - 1.0) > WEIGHT_SUM_TOLERANCE then
        if Total(weights) == 0.0 then NotNormalizable
        else
          var again := ScaledBy(weights, Total(weights));
          if !AllPositive(again) || Abs(Total(again) - 1.0) > WEIGHT_SUM_TOLERANCE then NotNormalizable else Tilted(again)
      else Tilted(weights)
  }

  function SoftmaxWeights(theta: seq<real>, features: Matrix, exp: real -> real): TiltResult {
    if |theta| != features.width then ThetaMismatch
    else if features.rows == [] then NoDraw
    else Normalized(Exponentials(Scores(theta, features), exp))
  }

  lemma {:induction false} ScaledTotal(e: seq<real>, total: real, n: nat)
    requires total != 0.0 && n <= |e|
    ensures Sum(n, At(ScaledBy(e, total))) == Sum(n, At(e)) / total
  {
    if n > 0 { ScaledTotal(e, total, n - 1); }
  }

  /** Positive numbers scaled by their total are positive and add up to one. */
  lemma NormalizedPositive(e: seq<real>)
    requires e != [] && AllPositive(e)
    ensures Normalized(e).Tilted? && |Normalized(e).weights| == |e|
    ensures AllPositive(Normalized(e).weights) && Total(Normalized(e).weights) == 1.0
    ensures Total(e) > 0.0 && Normalized(e).weights == ScaledBy(e, Total(e))
  {
    hide At;
    forall i | 0 <= i < |e| ensures At(e)(i) > 0.0 { AtEntry(e, i); }
    SumPositive(|e|, At(e));
    ScaledTotal(e, Total(e), |e|);
    ScaledPositive(e, Total(e));
    assert Total(e) / Total(e) == 1.0;
  }

  lemma AtEntry(s: seq<real>, i: nat)
    requires i < |s|
    ensures At(s)(i) == s[i]
  {
  }

  lemma ScaledPositive(e: seq<real>, total: real)
    requires total > 0.0 && AllPositive(e)
    ensures AllPositive(ScaledBy(e, total))
  {
    forall i | 0 <= i < |e| ensures e[i] / total > 0.0 { Ratio(e[i], total); }
  }

  lemma Ratio(a: real, b: real)
    requires a > 0.0 && b > 0.0
    ensures a / b > 0.0
  {
  }

  /** For every parameter vector that fits the features, the weights are valid
      draw weights, one for each draw: none is ever clipped or dropped. */
  lemma SoftmaxIsValid(theta: seq<real>, features: Matrix, exp: real -> real)
    requires forall x :: exp(x) > 0.0
    ensures SoftmaxWeights(theta, features, exp).Tilted? <==> |theta| == features.width && features.rows != []
    ensures SoftmaxWeights(theta, features, exp).Tilted? ==>
              var w := SoftmaxWeights(theta, features, exp).weights;
              WeightedPmf.ValidateDrawWeights(w, |features.rows|).None? && Total(w) == 1.0
  {
    if |theta| == features.width && features.rows != [] {
      NormalizedPositive(Exponentials(Scores(theta, features), exp));
    }
  }

  /** A draw weighs more exactly when its score is higher. */
  lemma TiltFollowsScore(theta: seq<real>, features: Matrix, exp: real -> real, i: nat, j: nat)
    requires |theta| == features.width && i < |features.rows| && j < |features.rows|
    requires (forall x :: exp(x) > 0.0) && forall x, y :: x < y ==> exp(x) < exp(y)
    ensures var w := SoftmaxWeights(theta, features, exp);
            w.Tilted? && |w.weights| == |features.rows|
            && (w.weights[i] < w.weights[j] <==> Dot(theta, features.rows[i]) < Dot(theta, features.rows[j]))
  {
    hide Dot;
    var scores := Scores(theta, features);
    var e := Exponentials(scores, exp);
    NormalizedPositive(e);
    var x, y := scores[i] - Largest(scores), scores[j] - Largest(scores);
    assert exp(x) < exp(y) <==> x < y;
    SameOrder(e[i], e[j], Total(e));
  }

  lemma SameOrder(a: real, b: real, total: real)
    requires total > 0.0
    ensures a / total < b / total <==> a < b
  {
    var x, y := a / total, b / total;
    assert a == x * total && b == y * total;
  }

  // ----- how large the weights are

  /** A score is the sum of the products of parameters and features. */
  lemma DotGrows(theta: seq<real>, phi: seq<real>, a: real, b: real)
    requires |theta| == |phi|
    ensures Dot([], []) == 0.0
    ensures Dot(theta + [a], phi + [b]) == Dot(theta, phi) + a * b
  {
    hide At, Products;
    var n := |theta|;
    forall j | 0 <= j < n ensures Products(theta + [a], phi + [b])(j) == Products(theta, phi)(j) { SameProduct(theta, phi, a, b, j); }
    SumAgree(n, Products(theta + [a], phi + [b]), Products(theta, phi));
    LastProduct(theta, phi, a, b);
  }

  lemma SameProduct(theta: seq<real>, phi: seq<real>, a: real, b: real, j: nat)
    requires j < |theta| == |phi|
    ensures Products(theta + [a], phi + [b])(j) == Products(theta, phi)(j)
  {
    hide At;
    AtEntry(theta, j);
    AtEntry(phi, j);
    AtEntry(theta + [a], j);
    AtEntry(phi + [b], j);
  }

  lemma LastProduct(theta: seq<real>, phi: seq<real>, a: real, b: real)
    requires |theta| == |phi|
    ensures Products(theta + [a], phi + [b])(|theta|) == a * b
  {
    hide At;
    AtEntry(theta + [a], |theta|);
    AtEntry(phi + [b], |theta|);
  }

  /** The shift makes the greatest exponent zero. */
  lemma {:induction false} LargestMeaning(s: seq<real>)
    requires s != []
    ensures forall i :: 0 <= i < |s| ==> s[i] - Largest(s) <= 0.0
    ensures exists i :: 0 <= i < |s| && s[i] - Largest(s) == 0.0
  {
    var n := |s| - 1;
    if n > 0 {
      LargestMeaning(s[..n]);
      var i :| 0 <= i < n && s[..n][i] - Largest(s[..n]) == 0.0;
      assert s[i] == s[..n][i];
      forall j | 0 <= j < n ensures s[j] <= Largest(s) { assert s[..n][j] == s[j]; }
      if s[n] > Largest(s[..n]) { assert s[n] - Largest(s) == 0.0; } else { assert s[i] - Largest(s) == 0.0; }
    } else {
      assert s[0] - Largest(s) == 0.0;
    }
  }

  ghost predicate Exponential(exp: real -> real) {
    && (forall x {:trigger exp(x)} :: exp(x) > 0.0)
    && (forall x, y {:trigger exp(x + y)} :: exp(x + y) == exp(x) * exp(y))
  }

  lemma ExpOfSum(exp: real -> real, x: real, y: real)
    requires Exponential(exp)
    ensures exp(x + y) == exp(x) * exp(y) && exp(x) > 0.0
  {
  }

  /** The tilting law: the weights of two draws stand to each other as the
      exponential of the difference of their scores. */
  lemma TiltingLaw(theta: seq<real>, features: Matrix, exp: real -> real, i: nat, j: nat)
    requires |theta| == features.width && i < |features.rows| && j < |features.rows|
    requires Exponential(exp)
    ensures var w := SoftmaxWeights(theta, features, exp);
            w.Tilted? && |w.weights| == |features.rows|
            && w.weights[i] == w.weights[j] * exp(Dot(theta, features.rows[i]) - Dot(theta, features.rows[j]))
  {
    hide Dot, Exponential, Largest;
    var scores := Scores(theta, features);
    var e := Exponentials(scores, exp);
    forall k | 0 <= k < |e| ensures e[k] > 0.0 { ExpOfSum(exp, scores[k] - Largest(scores), 0.0); }
    NormalizedPositive(e);
    ExpOfSum(exp, scores[j] - Largest(scores), scores[i] - scores[j]);
    assert (scores[j] - Largest(scores)) + (scores[i] - scores[j]) == scores[i] - Largest(scores);
    Carried(e[i], e[j], exp(scores[i] - scores[j]), Total(e));
  }

  lemma Carried(a: real, b: real, c: real, total: real)
    requires total > 0.0 && a == b * c
    ensures a / total == (b / total) * c
  {
    var x, y := a / total, b / total;
    assert x * total == a && y * total == b;
    assert (x - y * c) * total == 0.0;
  }

  /** So every weight is the exponential of its score over the total of them all,
      whatever the shift. */
  lemma SoftmaxIsExponential(theta: seq<real>, features: Matrix, exp: real -> real, i: nat)
    requires |theta| == features.width && i < |features.rows| && Exponential(exp)
    ensures var w, whole := SoftmaxWeights(theta, features, exp), ScoreTotal(theta, features, exp);
            w.Tilted? && |w.weights| == |features.rows| && w.weights[i] * whole == exp(Dot(theta, features.rows[i]))
  {
    hide Dot, Exponential, SoftmaxWeights, ScoreTerms, At;
    var n, w := |features.rows|, SoftmaxWeights(theta, features, exp);
    TiltingLaw(theta, features, exp, i, i);
    forall k | 0 <= k < n ensures w.weights[i] * ScoreTerms(theta, features, exp)(k) == exp(Dot(theta, features.rows[i])) * At(w.weights)(k) {
      TermScaled(theta, features, exp, i, k);
    }
    SumScaled(n, w.weights[i], ScoreTerms(theta, features, exp), exp(Dot(theta, features.rows[i])), At(w.weights));
    TotalIsOne(theta, features, exp);
  }

  function ScoreTerms(theta: seq<real>, features: Matrix, exp: real -> real): int -> real {
    (k: int) => if 0 <= k < |features.rows| then exp(Dot(theta, features.rows[k])) else 0.0
  }

  /** The exponentials of all the scores, added up. */
  function ScoreTotal(theta: seq<real>, features: Matrix, exp: real -> real): real {
    Sum(|features.rows|, ScoreTerms(theta, features, exp))
  }

  lemma TermScaled(theta: seq<real>, features: Matrix, exp: real -> real, i: nat, k: nat)
    requires |theta| == features.width && i < |features.rows| && k < |features.rows| && Exponential(exp)
    ensures var w := SoftmaxWeights(theta, features, exp);
            w.Tilted? && |w.weights| == |features.rows|
            && w.weights[i] * ScoreTerms(theta, features, exp)(k) == exp(Dot(theta, features.rows[i])) * At(w.weights)(k)
  {
    hide Dot, Exponential, SoftmaxWeights, At;
    var w := SoftmaxWeights(theta, features, exp);
    TiltingLaw(theta, features, exp, k, i);
    AtEntry(w.weights, k);
    var x, y := Dot(theta, features.rows[k]), Dot(theta, features.rows[i]);
    ExpOfSum(exp, y, x - y);
    assert y + (x - y) == x;
    Rearranged(w.weights[i], w.weights[k], exp(y), exp(x - y));
  }

  lemma Rearranged(wi: real, wk: real, ey: real, d: real)
    requires wk == wi * d
    ensures wi * (ey * d) == ey * wk
  {
  }

  lemma {:induction false} SumScaled(n: nat, a: real, f: int -> real, b: real, g: int -> real)
    requires forall k :: 0 <= k < n ==> a * f(k) == b * g(k)
    ensures a * Sum(n, f) == b * Sum(n, g)
  {
    if n > 0 {
      SumScaled(n - 1, a, f, b, g);
      assert a * (Sum(n - 1, f) + f(n - 1)) == a * Sum(n - 1, f) + a * f(n - 1);
      assert b * (Sum(n - 1, g) + g(n - 1)) == b * Sum(n - 1, g) + b * g(n - 1);
    }
  }

  lemma TotalIsOne(theta: seq<real>, features: Matrix, exp: real -> real)
    requires |theta| == features.width && features.rows != [] && Exponential(exp)
    ensures var w := SoftmaxWeights(theta, features, exp);
            w.Tilted? && |w.weights| == |features.rows| && Sum(|features.rows|, At(w.weights)) == 1.0
  {
    hide SoftmaxWeights;
    SoftmaxIsValid(theta, features, exp);
    TiltingLaw(theta, features, exp, 0, 0);
  }

  predicate AllEqual(s: seq<real>) { forall i :: 0 <= i < |s| ==> s[i] == s[0] }

  lemma {:induction false} LargestOfEqual(s: seq<real>)
    requires s != [] && AllEqual(s)
    ensures Largest(s) == s[0]
  {
    if |s| > 1 { LargestOfEqual(s[..|s| - 1]); }
  }

  lemma {:induction false} SumOfEqual(n: nat, s: seq<real>, c: real)
    requires n <= |s| && forall i :: 0 <= i < |s| ==> s[i] == c
    ensures Sum(n, At(s)) == (n as real) * c
  {
    if n > 0 { SumOfEqual(n - 1, s, c); }
  }

  lemma ZeroDot(theta: seq<real>, phi: seq<real>)
    requires forall j :: 0 <= j < |theta| ==> theta[j] == 0.0
    ensures Dot(theta, phi) == 0.0
  {
    forall j | 0 <= j < |theta| ensures Products(theta, phi)(j) == 0.0 { AtEntry(theta, j); }
    SumZero(|theta|, Products(theta, phi));
  }

  lemma ShareOfTotal(c: real, n: nat)
    requires c > 0.0 && n > 0
    ensures (n as real) * c > 0.0 && c / ((n as real) * c) == Share(n)
  {
    var t := (n as real) * c;
    assert t > 0.0;
    assert Share(n) * t == c;
  }

  /** The zero parameter vector gives every draw the same weight, and so exactly
      the distribution obtained by counting, for every feature matrix. */
  lemma ZeroThetaIsRaw(theta: seq<real>, features: Matrix, exp: real -> real, values: seq<int>)
    requires (forall x :: exp(x) > 0.0) && |theta| == features.width
    requires (forall j :: 0 <= j < |theta| ==> theta[j] == 0.0) && |values| == |features.rows| > 0
    ensures SoftmaxWeights(theta, features, exp) == Tilted(Uniform(|values|))
    ensures WeightedPmf.Weighted(values, Uniform(|values|)) == BuildRawPmf(values)
  {
    hide Dot;
    var scores := Scores(theta, features);
    forall i | 0 <= i < |scores| ensures scores[i] == 0.0 { ZeroDot(theta, features.rows[i]); }
    LargestOfEqual(scores);
    EqualExponentials(Exponentials(scores, exp), exp(0.0));
    UniformIsRaw(values);
  }

  lemma EqualExponentials(e: seq<real>, c: real)
    requires e != [] && c > 0.0 && forall i :: 0 <= i < |e| ==> e[i] == c
    ensures Normalized(e) == Tilted(Uniform(|e|))
  {
    hide Share, Normalized, Sum;
    NormalizedPositive(e);
    SumOfEqual(|e|, e, c);
    ScaledEqual(e, c, Total(e));
  }

  lemma ScaledEqual(e: seq<real>, c: real, total: real)
    requires e != [] && c > 0.0 && (forall i :: 0 <= i < |e| ==> e[i] == c) && total == (|e| as real) * c && total != 0.0
    ensures ScaledBy(e, total) == Uniform(|e|)
  {
    hide Share;
    ShareOfTotal(c, |e|);
    var share := c / total;
    forall i | 0 <= i < |e| ensures ScaledBy(e, total)[i] == share {}
  }

  lemma UniformIsRaw(values: seq<int>)
    requires values != []
    ensures WeightedPmf.Weighted(values, Uniform(|values|)) == BuildRawPmf(values)
  {
    hide Shares, Masses, Uniform, Outcomes, At, Share, Least, Greatest;
    var n := |values|;
    UniformPositive(n);
    UniformSum(n, n);
    ShareTimes(n);
    SharesAreUniformMasses(values);
    WeightedPmf.AggregationPasses(values, Uniform(n));
  }
}
