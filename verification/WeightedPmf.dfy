/** Distributions aggregated under one shared vector of draw weights. */
module WeightedPmf {
  import opened Options
  import opened RealSums
  import opened StableSorting
  import opened ExactPmf
  import Crps

  function ValidateDrawWeights(weights: seq<real>, nDraws: nat): Option<WeightProblem> {
    if |weights| != nDraws then Some(WrongShape)
    else if !AllPositive(weights) then Some(NonPositiveWeight)
    else if Abs(Sum(|weights|, At(weights)) - 1.0) > TOLERANCE then Some(WrongSum)
    else None
  }

  /** The distribution that gives every occurring outcome the weights of its
      draws, and the only ways of not getting it. */
  function Weighted(values: seq<int>, weights: seq<real>): PmfResult {
    if values == [] then NoDraws
    else match ValidateDrawWeights(weights, |values|)
      case Some(problem) => BadWeights(problem)
      case None =>
        Built(Pmf(|values|, Least(values), Greatest(values), Outcomes(values), Masses(Outcomes(values), values, weights)))
  }

  /** What each refusal means, the checks before it having passed: a weight for
      every draw, each positive, and a total within a billionth of one. */
  lemma RefusedExactly(values: seq<int>, weights: seq<real>)
    ensures var total, r := Sum(|weights|, At(weights)), Weighted(values, weights);
            var near := 0.999999999 <= total <= 1.000000001;
            && (r == NoDraws <==> values == [])
            && (r == BadWeights(WrongShape) <==> values != [] && |weights| != |values|)
            && (r == BadWeights(NonPositiveWeight) <==> values != [] && |weights| == |values| && exists w :: w in weights && w <= 0.0)
            && (r == BadWeights(WrongSum) <==>
                  values != [] && |weights| == |values| && (forall w :: w in weights ==> w > 0.0) && !near)
            && (r.Built? <==> values != [] && |weights| == |values| && (forall w :: w in weights ==> w > 0.0) && near)
  {
    hide At, Outcomes, Masses, Least, Greatest;
    if !AllPositive(weights) {
      var i :| 0 <= i < |weights| && weights[i] <= 0.0;
      assert weights[i] in weights;
    }
  }

  // ----- accumulation into buckets

  /** Each draw's index among the distinct values. */
  function Inverse<T(==)>(values: seq<T>, outcomes: seq<T>): seq<nat>
    requires forall i :: 0 <= i < |values| ==> values[i] in outcomes
  {
    seq(|values|, i requires 0 <= i < |values| => IndexIn(outcomes, values[i]))
  }

  /** What the first `n` draws add to bucket `k`. */
  function Bucket(codes: seq<nat>, weights: seq<real>, n: nat, k: nat): real { Mass<nat>(codes, weights, n, k) }

  lemma EmptyBucket(codes: seq<nat>, weights: seq<real>, k: nat)
    ensures Bucket(codes, weights, 0, k) == 0.0
  {
  }

  lemma BucketStep(codes: seq<nat>, weights: seq<real>, n: nat, k: nat)
    requires n < |codes| && n < |weights|
    ensures Bucket(codes, weights, n + 1, k) == Bucket(codes, weights, n, k) + if codes[n] == k then weights[n] else 0.0
  {
    MassStep<nat>(codes, weights, n, k);
  }

  /** Unbuffered in-place addition of each weight to the bucket of its draw. */
  method AddAt(probs: array<real>, inverse: seq<nat>, weights: seq<real>)
    requires |inverse| == |weights| && forall i :: 0 <= i < |inverse| ==> inverse[i] < probs.Length
    modifies probs
    ensures forall k :: 0 <= k < probs.Length ==> probs[k] == old(probs[k]) + Bucket(inverse, weights, |inverse|, k)
  {
    hide Bucket;
    forall k | 0 <= k < probs.Length ensures Bucket(inverse, weights, 0, k) == 0.0 { EmptyBucket(inverse, weights, k); }
    var i := 0;
    while i < |inverse|
      invariant 0 <= i <= |inverse|
      invariant forall k :: 0 <= k < probs.Length ==> probs[k] == old(probs[k]) + Bucket(inverse, weights, i, k)
    {
      forall k | 0 <= k < probs.Length
        ensures Bucket(inverse, weights, i + 1, k) == Bucket(inverse, weights, i, k) + if inverse[i] == k then weights[i] else 0.0
      {
        BucketStep(inverse, weights, i, k);
      }
      probs[inverse[i]] := probs[inverse[i]] + weights[i];
      i := i + 1;
    }
  }

  /** A bucket collects the weights of the draws with its outcome. */
  lemma {:induction false} BucketMass<T>(outcomes: seq<T>, values: seq<T>, inverse: seq<nat>, weights: seq<real>, n: nat, k: nat)
    requires Distinct(outcomes) && |inverse| == |values| == |weights| && n <= |values| && k < |outcomes|
    requires forall i :: 0 <= i < |values| ==> inverse[i] < |outcomes| && outcomes[inverse[i]] == values[i]
    ensures Bucket(inverse, weights, n, k) == Mass(values, weights, n, outcomes[k])
  {
    hide Mass, Bucket;
    if n == 0 {
      EmptyBucket(inverse, weights, k);
      NoMass(values, weights, outcomes[k]);
    } else {
      BucketMass(outcomes, values, inverse, weights, n - 1, k);
      BucketStep(inverse, weights, n - 1, k);
      MassStep(values, weights, n - 1, outcomes[k]);
      assert inverse[n - 1] == k <==> outcomes[inverse[n - 1]] == outcomes[k];
    }
  }

  /** The masses, accumulated draw by draw. */
  method Accumulate<T(==, !new)>(outcomes: seq<T>, values: seq<T>, weights: seq<real>) returns (masses: seq<real>)
    requires Distinct(outcomes) && |weights| == |values|
    requires forall i :: 0 <= i < |values| ==> values[i] in outcomes
    ensures masses == Masses(outcomes, values, weights)
  {
    hide Mass, Bucket;
    var probs := new real[|outcomes|](_ => 0.0);
    var inverse := Inverse(values, outcomes);
    AddAt(probs, inverse, weights);
    masses := probs[..];
    forall k | 0 <= k < |outcomes| ensures masses[k] == Mass(values, weights, |values|, outcomes[k]) {
      BucketMass(outcomes, values, inverse, weights, |values|, k);
    }
  }

  method MinMax(values: seq<int>) returns (least: int, greatest: int)
    requires values != []
    ensures least == Least(values) && greatest == Greatest(values)
  {
    least, greatest := values[0], values[0];
    for i := 1 to |values|
      invariant least == Least(values[..i]) && greatest == Greatest(values[..i])
    {
      assert values[..i + 1][..i] == values[..i];
      if values[i] < least { least := values[i]; }
      if values[i] > greatest { greatest := values[i]; }
    }
    assert values[..|values|] == values;
  }

  method BuildWeightedPmf(values: seq<int>, weights: seq<real>) returns (r: PmfResult)
    ensures r == Weighted(values, weights)
  {
    if values == [] { return NoDraws; }
    var problem := ValidateDrawWeights(weights, |values|);
    if problem.Some? { return BadWeights(problem.value); }
    var outcomes := Outcomes(values);
    ValuesCovered(values);
    var probabilities := Accumulate(outcomes, values, weights);
    var least, greatest := MinMax(values);
    r := Checked(Pmf(|values|, least, greatest, outcomes, probabilities));
    AggregationPasses(values, weights);
  }

  /** With valid weights the checks after aggregation cannot fail. */
  lemma AggregationPasses(values: seq<int>, weights: seq<real>)
    requires values != [] && ValidateDrawWeights(weights, |values|).None?
    ensures Checked(Weighted(values, weights).pmf) == Weighted(values, weights)
  {
    hide Masses, Outcomes, At, Least, Greatest;
    OutcomesMeaning(values);
    ValuesCovered(values);
    MassesPositive(values, weights);
    TotalMass(Outcomes(values), values, weights);
  }

  /** The support is the raw support, every mass is positive, they add up to what
      the weights do, and the score accepts them against any observation. */
  lemma WeightedPmfMeaning(values: seq<int>, weights: seq<real>, observed: real)
    requires Weighted(values, weights).Built?
    ensures var pmf := Weighted(values, weights).pmf;
            && BuildRawPmf(values).Built? && pmf.outcomes == BuildRawPmf(values).pmf.outcomes
            && Crps.Ascending(pmf.outcomes) && (forall x :: x in pmf.outcomes ==> x in values)
            && (forall i :: 0 <= i < |values| ==> values[i] in pmf.outcomes)
            && AllPositive(pmf.probabilities)
            && Sum(|pmf.outcomes|, At(pmf.probabilities)) == Sum(|values|, At(weights))
            && Crps.CrpsFromPmf(pmf.outcomes, pmf.probabilities, observed).Scored?
  {
    hide Masses, Outcomes, At, Least, Greatest, Shares, Crps.Near, Crps.Cumulative, Crps.Reals;
    OutcomesMeaning(values);
    ValuesCovered(values);
    RawPmfIsBuilt(values);
    MassesPositive(values, weights);
    TotalMass(Outcomes(values), values, weights);
  }

  // ----- the first-touchdown field

  predicate TextAtMost(a: string, b: string) {
    a == [] || (b != [] && (a[0] < b[0] || (a[0] == b[0] && TextAtMost(a[1..], b[1..]))))
  }

  lemma {:induction false} TextTotal(a: string, b: string)
    ensures TextAtMost(a, b) || TextAtMost(b, a)
    ensures TextAtMost(a, b) && TextAtMost(b, a) ==> a == b
  {
    if a != [] && b != [] {
      TextTotal(a[1..], b[1..]);
      assert a == [a[0]] + a[1..] && b == [b[0]] + b[1..];
    }
  }

  lemma {:induction false} TextTransitive(a: string, b: string, c: string)
    requires TextAtMost(a, b) && TextAtMost(b, c)
    ensures TextAtMost(a, c)
  {
    if a != [] && a[0] == b[0] == c[0] { TextTransitive(a[1..], b[1..], c[1..]); }
  }

  lemma TextOrder()
    ensures TotalOrder(TextAtMost)
  {
    forall a: string, b: string ensures TextAtMost(a, b) || TextAtMost(b, a) { TextTotal(a, b); }
    forall a: string, b: string | TextAtMost(a, b) && TextAtMost(b, a) ensures a == b { TextTotal(a, b); }
    forall a: string, b: string, c: string | TextAtMost(a, b) && TextAtMost(b, c) ensures TextAtMost(a, c) {
      TextTransitive(a, b, c);
    }
  }

  function Names(labels: seq<string>): seq<string> { Unique(labels, TextAtMost) }

  lemma NamesMeaning(labels: seq<string>)
    ensures Distinct(Names(labels))
    ensures forall x :: x in Names(labels) ==> x in labels
    ensures forall i :: 0 <= i < |labels| ==> labels[i] in Names(labels)
  {
    TextOrder();
    UniqueMeaning(labels, TextAtMost);
    forall i | 0 <= i < |labels| ensures labels[i] in Names(labels) { assert labels[i] in labels; }
  }

  datatype SimplexResult = Simplex(field: map<string, real>) | BadSimplexWeights(problem: WeightProblem) | BadSimplex

  /** Each label that occurs, with the weights of the draws it labels. */
  function Field(labels: seq<string>, weights: seq<real>): map<string, real> {
    map x | x in labels :: Mass(labels, weights, |labels|, x)
  }

  function WeightedFirstTd(labels: seq<string>, weights: seq<real>): SimplexResult {
    match ValidateDrawWeights(weights, |labels|)
    case Some(problem) => BadSimplexWeights(problem)
    case None => Simplex(Field(labels, weights))
  }

  /** The labels and masses, zipped into a table after the checks. */
  method CheckedField(names: seq<string>, probs: seq<real>) returns (r: SimplexResult)
    requires |probs| == |names| && Distinct(names)
    ensures r.Simplex? <==> AllPositive(probs) && Abs(Sum(|probs|, At(probs)) - 1.0) <= TOLERANCE
    ensures !r.Simplex? ==> r == BadSimplex
    ensures r.Simplex? ==> (forall x :: x in r.field ==> x in names)
    ensures r.Simplex? ==> forall k :: 0 <= k < |names| ==> names[k] in r.field && r.field[names[k]] == probs[k]
  {
    if Abs(Sum(|probs|, At(probs)) - 1.0) > TOLERANCE || !AllPositive(probs) { return BadSimplex; }
    var field: map<string, real> := map[];
    for i := 0 to |names|
      invariant forall x :: x in field ==> x in names
      invariant forall k :: 0 <= k < i ==> names[k] in field && field[names[k]] == probs[k]
    {
      assert forall k :: 0 <= k < i ==> names[k] != names[i];
      field := field[names[i] := probs[i]];
    }
    r := Simplex(field);
  }

  /** The aggregated masses of the labels pass the checks and are the field. */
  lemma FieldPasses(labels: seq<string>, weights: seq<real>)
    requires ValidateDrawWeights(weights, |labels|).None?
    ensures var probs := Masses(Names(labels), labels, weights);
            |probs| == |Names(labels)| && AllPositive(probs) && Sum(|probs|, At(probs)) == Sum(|labels|, At(weights))
  {
    var names := Names(labels);
    NamesMeaning(labels);
    TotalMass(names, labels, weights);
    forall k | 0 <= k < |names| ensures Masses(names, labels, weights)[k] > 0.0 {
      assert names[k] in names;
      MassPositive(labels, weights, |labels|, names[k]);
    }
  }

  method BuildWeightedFirstTdSimplex(labels: seq<string>, weights: seq<real>) returns (r: SimplexResult)
    ensures r == WeightedFirstTd(labels, weights)
  {
    hide Sum, At, Names, Distinct, AllPositive, Mass;
    var problem := ValidateDrawWeights(weights, |labels|);
    if problem.Some? { return BadSimplexWeights(problem.value); }
    var names := Names(labels);
    NamesMeaning(labels);
    ValidShape(weights, |labels|);
    var probs := Accumulate(names, labels, weights);
    FieldPasses(labels, weights);
    ValidSum(weights, |labels|);
    r := CheckedField(names, probs);
    SameField(labels, weights, r.field);
  }

  lemma ValidShape(weights: seq<real>, n: nat)
    requires ValidateDrawWeights(weights, n).None?
    ensures |weights| == n
  {
  }

  lemma ValidSum(weights: seq<real>, n: nat)
    requires ValidateDrawWeights(weights, n).None?
    ensures Abs(Sum(n, At(weights)) - 1.0) <= TOLERANCE
  {
  }

  lemma SameField(labels: seq<string>, weights: seq<real>, field: map<string, real>)
    requires forall x :: x in field ==> x in Names(labels)
    requires forall k :: 0 <= k < |Names(labels)| ==> Names(labels)[k] in field && field[Names(labels)[k]] == Masses(Names(labels), labels, weights)[k]
    ensures field == Field(labels, weights)
  {
    hide Names, Mass;
    NamesMeaning(labels);
    var names := Names(labels);
    forall x ensures x in field <==> x in labels {
      if x in labels {
        var i :| 0 <= i < |labels| && labels[i] == x;
        var k := IndexIn(names, labels[i]);
        assert names[k] in field;
      }
    }
    forall x | x in field ensures field[x] == Mass(labels, weights, |labels|, x) {
      var k := IndexIn(names, x);
      assert field[names[k]] == Masses(names, labels, weights)[k];
    }
  }

  /** The field is a distribution over the labels that occur. */
  lemma FieldMeaning(labels: seq<string>, weights: seq<real>)
    requires WeightedFirstTd(labels, weights).Simplex?
    ensures var field := WeightedFirstTd(labels, weights).field;
            && (forall x :: x in field <==> x in labels) && (forall x :: x in field ==> field[x] > 0.0)
            && Sum(|Names(labels)|, At(Masses(Names(labels), labels, weights))) == Sum(|labels|, At(weights))
            && forall k :: 0 <= k < |Names(labels)| ==> Names(labels)[k] in field && field[Names(labels)[k]] == Masses(Names(labels), labels, weights)[k]
  {
    FieldPasses(labels, weights);
    NamesMeaning(labels);
    forall x | x in labels ensures Field(labels, weights)[x] > 0.0 {
      MassPositive(labels, weights, |labels|, x);
    }
    forall k | 0 <= k < |Names(labels)| ensures Names(labels)[k] in Field(labels, weights) { assert Names(labels)[k] in Names(labels); }
  }
}
