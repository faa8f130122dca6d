/** Pricing events by masking reweighted draws, and the same prices read off the
    reweighted distribution. */
module LivePricing {
  import opened Options
  import opened RealSums
  import opened ExactPmf
  import Crps
  import EntropyTilting
  import WeightedPmf
  import opened Odds

  datatype PropType = AnytimeTd | AnytimeTd1Q | AnytimeTd1H | AnytimeTd2H | FirstTd | Counted(name: string)

  /** Touchdown counts whose published market is "at least one". */
  predicate BinaryCountCollapse(prop: PropType) {
    prop.AnytimeTd? || prop.AnytimeTd1Q? || prop.AnytimeTd1H? || prop.AnytimeTd2H?
  }

  predicate AtLeastHit(prop: PropType) { BinaryCountCollapse(prop) || prop.FirstTd? }

  /** Which props are which: touchdown counts collapse to "at least one", all but
      the first touchdown of a game, which has no more than one; every other prop
      keeps its counts, and only touchdown props have a hit market. */
  lemma PropsAre(prop: PropType, drawn: seq<int>, weights: seq<real>, line: Option<real>)
    ensures BinaryCountCollapse(prop) <==> prop in {AnytimeTd, AnytimeTd1Q, AnytimeTd1H, AnytimeTd2H}
    ensures AtLeastHit(prop) <==> prop in {AnytimeTd, AnytimeTd1Q, AnytimeTd1H, AnytimeTd2H, FirstTd}
    ensures |Canonical(drawn, prop)| == |drawn|
    ensures forall i :: 0 <= i < |drawn| ==>
              Canonical(drawn, prop)[i] == if prop.Counted? || prop.FirstTd? then drawn[i] else if drawn[i] > 0 then 1 else 0
    ensures CalibratedEventProbability(drawn, weights, prop, "HIT", line).None? <==> prop.Counted?
    ensures CalibratedEventProbability(drawn, weights, prop, "OVER", line).None? <==> line.None?
    ensures CalibratedEventProbability(drawn, weights, prop, "UNDER", line).None? <==> line.None?
  {
    assert "HIT" != "OVER" && "UNDER" != "HIT";
    assert "OVER"[0] != "HIT"[0] && "UNDER"[0] != "HIT"[0];
  }

  function CollapsedDraw(v: int): int { if v >= 1 then 1 else 0 }

  function Canonical(drawn: seq<int>, prop: PropType): seq<int> {
    if BinaryCountCollapse(prop) then seq(|drawn|, i requires 0 <= i < |drawn| => CollapsedDraw(drawn[i])) else drawn
  }

  // ----- pricing from draws

  const HIT := "HIT"
  const OVER := "OVER"

  /** The weights of the draws a mask keeps. */
  function Kept(values: seq<int>, weights: seq<real>, mask: int -> bool): int -> real {
    (i: int) => if 0 <= i < |values| && mask(values[i]) then At(weights)(i) else 0.0
  }

  function KeptWeight(values: seq<int>, weights: seq<real>, mask: int -> bool): real {
    Sum(|values|, Kept(values, weights, mask))
  }

  function Above(line: real): int -> bool { (v: int) => v as real > line }

  function Below(line: real): int -> bool { (v: int) => (v as real) < line }

  function Level(line: real): int -> bool { (v: int) => v as real == line }

  function AtLeastOne(): int -> bool { (v: int) => v >= 1 }

  /** Win and push probability of a priced event, if the event is defined. */
  function CalibratedEventProbability(values: seq<int>, weights: seq<real>, prop: PropType, side: string, line: Option<real>)
    : Option<(real, real)>
  {
    if side == HIT then
      if AtLeastHit(prop) then Some((KeptWeight(values, weights, AtLeastOne()), 0.0)) else None
    else if line.None? then None
    else
      var push := KeptWeight(values, weights, Level(line.value));
      Some((KeptWeight(values, weights, if side == OVER then Above(line.value) else Below(line.value)), push))
  }

  // ----- pricing from a distribution

  function Selected(pmf: Pmf, mask: int -> bool): int -> real {
    (k: int) => if 0 <= k < |pmf.outcomes| && mask(pmf.outcomes[k]) then At(pmf.probabilities)(k) else 0.0
  }

  function MassWhere(pmf: Pmf, mask: int -> bool): real { Sum(|pmf.outcomes|, Selected(pmf, mask)) }

  datatype LineProbabilities = LineProbabilities(over: real, under: real, push: real)

  method PriceLine(pmf: Pmf, line: real) returns (p: LineProbabilities)
    requires |pmf.probabilities| == |pmf.outcomes|
    ensures p == LineProbabilities(MassWhere(pmf, Above(line)), MassWhere(pmf, Below(line)), MassWhere(pmf, Level(line)))
  {
    var over, under, push := 0.0, 0.0, 0.0;
    for k := 0 to |pmf.outcomes|
      invariant over == Sum(k, Selected(pmf, Above(line)))
      invariant under == Sum(k, Selected(pmf, Below(line)))
      invariant push == Sum(k, Selected(pmf, Level(line)))
    {
      if pmf.outcomes[k] as real > line {
        over := over + pmf.probabilities[k];
      } else if (pmf.outcomes[k] as real) < line {
        under := under + pmf.probabilities[k];
      } else {
        push := push + pmf.probabilities[k];
      }
    }
    p := LineProbabilities(over, under, push);
  }

  function MeanTerms(pmf: Pmf): int -> real {
    (k: int) => if 0 <= k < |pmf.outcomes| then At(pmf.probabilities)(k) * pmf.outcomes[k] as real else 0.0
  }

  function PmfMean(pmf: Pmf): real { Sum(|pmf.outcomes|, MeanTerms(pmf)) }

  function AsReal(): int -> real { (v: int) => v as real }

  /** The weighted mean of the draws. */
  function DrawMean(values: seq<int>, weights: seq<real>): real { Sum(|values|, ByDraw(values, weights, AsReal())) }

  // ----- the two agree

  function Indicator(mask: int -> bool): int -> real { (v: int) => if mask(v) then 1.0 else 0.0 }

  /** The weight a mask keeps is the mass of the outcomes it holds of. */
  lemma KeptIsMass(values: seq<int>, weights: seq<real>, mask: int -> bool)
    requires WeightedPmf.Weighted(values, weights).Built?
    ensures KeptWeight(values, weights, mask) == MassWhere(WeightedPmf.Weighted(values, weights).pmf, mask)
  {
    hide Outcomes, Mass, At;
    var pmf := WeightedPmf.Weighted(values, weights).pmf;
    ValuesCovered(values);
    PushForward(pmf.outcomes, values, weights, |values|, Indicator(mask));
    MassesAt(values, weights);
    SumAgree(|pmf.outcomes|, Selected(pmf, mask), ByOutcome(pmf.outcomes, values, weights, |values|, Indicator(mask)));
    SumAgree(|values|, Kept(values, weights, mask), ByDraw(values, weights, Indicator(mask)));
  }

  lemma MassesAt(values: seq<int>, weights: seq<real>)
    ensures forall k :: 0 <= k < |Outcomes(values)| ==>
              At(Masses(Outcomes(values), values, weights))(k) == Mass(values, weights, |values|, Outcomes(values)[k])
  {
    hide Mass, Outcomes;
  }

  lemma MeansAgree(values: seq<int>, weights: seq<real>)
    requires WeightedPmf.Weighted(values, weights).Built?
    ensures DrawMean(values, weights) == PmfMean(WeightedPmf.Weighted(values, weights).pmf)
  {
    hide Outcomes, Mass, At;
    var pmf := WeightedPmf.Weighted(values, weights).pmf;
    ValuesCovered(values);
    PushForward(pmf.outcomes, values, weights, |values|, AsReal());
    MassesAt(values, weights);
    SumAgree(|pmf.outcomes|, MeanTerms(pmf), ByOutcome(pmf.outcomes, values, weights, |values|, AsReal()));
  }

  /** Over, under and push split the whole weight. */
  lemma LineSplitsWeight(values: seq<int>, weights: seq<real>, line: real)
    ensures KeptWeight(values, weights, Above(line)) + KeptWeight(values, weights, Below(line)) + KeptWeight(values, weights, Level(line))
            == Sum(|values|, At(weights))
  {
    var n := |values|;
    var above, below, level := Kept(values, weights, Above(line)), Kept(values, weights, Below(line)), Kept(values, weights, Level(line));
    var decided := Affine(1.0, above, 1.0, below);
    SumAffine(n, 1.0, above, 1.0, below);
    SumLinear(n, 1.0, decided, 1.0, level, At(weights));
  }

  /** For a prop that is not collapsed, masking the draws gives exactly the
      over, under and push of the reweighted distribution, for any line; the
      three add up to the total weight, and the means agree. */
  lemma LinePricesAgree(drawn: seq<int>, weights: seq<real>, prop: PropType, side: string, line: real)
    requires !BinaryCountCollapse(prop) && side != HIT
    requires WeightedPmf.Weighted(Canonical(drawn, prop), weights).Built?
    ensures var pmf := WeightedPmf.Weighted(Canonical(drawn, prop), weights).pmf;
            && CalibratedEventProbability(drawn, weights, prop, side, Some(line))
               == Some((if side == OVER then MassWhere(pmf, Above(line)) else MassWhere(pmf, Below(line)), MassWhere(pmf, Level(line))))
            && MassWhere(pmf, Above(line)) + MassWhere(pmf, Below(line)) + MassWhere(pmf, Level(line)) == Sum(|drawn|, At(weights))
            && DrawMean(drawn, weights) == PmfMean(pmf)
  {
    hide WeightedPmf.Weighted, KeptWeight, MassWhere, DrawMean, PmfMean;
    KeptIsMass(drawn, weights, Above(line));
    KeptIsMass(drawn, weights, Below(line));
    KeptIsMass(drawn, weights, Level(line));
    LineSplitsWeight(drawn, weights, line);
    MeansAgree(drawn, weights);
  }

  /** A hit is the mass at one or more, collapsed or not. */
  lemma HitPricesAgree(drawn: seq<int>, weights: seq<real>, prop: PropType, line: Option<real>)
    requires WeightedPmf.Weighted(Canonical(drawn, prop), weights).Built?
    ensures CalibratedEventProbability(drawn, weights, prop, HIT, line)
            == if AtLeastHit(prop) then Some((MassWhere(WeightedPmf.Weighted(Canonical(drawn, prop), weights).pmf, AtLeastOne()), 0.0)) else None
  {
    hide WeightedPmf.Weighted, MassWhere;
    KeptIsMass(Canonical(drawn, prop), weights, AtLeastOne());
    SumAgree(|drawn|, Kept(drawn, weights, AtLeastOne()), Kept(Canonical(drawn, prop), weights, AtLeastOne()));
  }

  // ----- a line on a collapsed prop

  lemma {:induction false} KeptMore(n: nat, f: int -> real, g: int -> real, i: nat)
    requires i < n && f(i) < g(i) && forall j :: 0 <= j < n ==> f(j) <= g(j)
    ensures Sum(n, f) < Sum(n, g)
  {
    if i == n - 1 { SumAtMost(n - 1, f, g); } else { KeptMore(n - 1, f, g, i); }
  }

  /** A mask that keeps every draw of `b` it keeps of `a`, and one more. */
  lemma KeptRises(a: seq<int>, b: seq<int>, weights: seq<real>, mask: int -> bool, i: nat)
    requires |a| == |b| && i < |a| && forall j :: 0 <= j < |a| ==> At(weights)(j) > 0.0
    requires forall j :: 0 <= j < |a| && mask(a[j]) ==> mask(b[j])
    requires !mask(a[i]) && mask(b[i])
    ensures KeptWeight(a, weights, mask) < KeptWeight(b, weights, mask)
  {
    hide At;
    KeptMore(|a|, Kept(a, weights, mask), Kept(b, weights, mask), i);
  }

  lemma KeptSame(a: seq<int>, b: seq<int>, weights: seq<real>, mask: int -> bool)
    requires |a| == |b| && forall j :: 0 <= j < |a| ==> mask(a[j]) == mask(b[j])
    ensures KeptWeight(a, weights, mask) == KeptWeight(b, weights, mask)
  {
    hide At;
    SumAgree(|a|, Kept(a, weights, mask), Kept(b, weights, mask));
  }

  /** A draw of two or more that has the line between one and itself, so that it
      is on another side of the line, or on it, than the one it collapses to. */
  predicate LineCrossed(drawn: seq<int>, line: real) {
    exists i :: 0 <= i < |drawn| && Crosses(drawn[i], line)
  }

  predicate Crosses(v: int, line: real) { v >= 2 && 1.0 <= line <= v as real }

  function SideOf(side: string, line: real): int -> bool { if side == OVER then Above(line) else Below(line) }

  /** The win and push of a line, read off a distribution. */
  function LineEvent(pmf: Pmf, side: string, line: real): (real, real) {
    (MassWhere(pmf, SideOf(side, line)), MassWhere(pmf, Level(line)))
  }

  /** Touchdown counts priced at a line, over or under, agree in win and push with
      the collapsed distribution exactly when no draw crosses the line. */
  lemma CollapsedLineAgreesExactly(drawn: seq<int>, weights: seq<real>, prop: PropType, side: string, line: real)
    requires BinaryCountCollapse(prop) && side != HIT && forall i :: 0 <= i < |drawn| ==> drawn[i] >= 0
    requires WeightedPmf.Weighted(Canonical(drawn, prop), weights).Built?
    ensures CalibratedEventProbability(drawn, weights, prop, side, Some(line))
            == Some(LineEvent(WeightedPmf.Weighted(Canonical(drawn, prop), weights).pmf, side, line))
            <==> !LineCrossed(drawn, line)
  {
    hide MassWhere, WeightedPmf.Weighted, Kept, KeptWeight;
    var c := Canonical(drawn, prop);
    KeptIsMass(c, weights, SideOf(side, line));
    KeptIsMass(c, weights, Level(line));
    WeightsPositive(c, weights);
    if i :| 0 <= i < |drawn| && Crosses(drawn[i], line) {
      CrossedDiffers(drawn, weights, c, side, line, i);
    } else {
      KeptSame(drawn, c, weights, SideOf(side, line));
      KeptSame(drawn, c, weights, Level(line));
    }
  }

  /** A crossing draw changes the win or the push. */
  lemma CrossedDiffers(drawn: seq<int>, weights: seq<real>, c: seq<int>, side: string, line: real, i: nat)
    requires |c| == |drawn| && forall j :: 0 <= j < |drawn| ==> drawn[j] >= 0 && c[j] == CollapsedDraw(drawn[j])
    requires forall j :: 0 <= j < |drawn| ==> At(weights)(j) > 0.0
    requires i < |drawn| && Crosses(drawn[i], line)
    ensures KeptWeight(drawn, weights, SideOf(side, line)) != KeptWeight(c, weights, SideOf(side, line))
         || KeptWeight(drawn, weights, Level(line)) != KeptWeight(c, weights, Level(line))
  {
    hide KeptWeight;
    if line == drawn[i] as real {
      KeptRises(c, drawn, weights, Level(line), i);
    } else if side == OVER {
      KeptRises(c, drawn, weights, Above(line), i);
    } else if line == 1.0 {
      KeptRises(drawn, c, weights, Level(line), i);
    } else {
      KeptRises(drawn, c, weights, Below(line), i);
    }
  }

  /** The mean of the raw counts is the collapsed one exactly when none is above
      one. */
  lemma CollapsedMeanAgreesExactly(drawn: seq<int>, weights: seq<real>, prop: PropType)
    requires BinaryCountCollapse(prop) && forall i :: 0 <= i < |drawn| ==> drawn[i] >= 0
    requires WeightedPmf.Weighted(Canonical(drawn, prop), weights).Built?
    ensures DrawMean(drawn, weights) == PmfMean(WeightedPmf.Weighted(Canonical(drawn, prop), weights).pmf)
            <==> forall i :: 0 <= i < |drawn| ==> drawn[i] <= 1
  {
    hide PmfMean, WeightedPmf.Weighted, ByDraw;
    var c := Canonical(drawn, prop);
    MeansAgree(c, weights);
    WeightsPositive(c, weights);
    var raw, collapsed := ByDraw(drawn, weights, AsReal()), ByDraw(c, weights, AsReal());
    forall i | 0 <= i < |drawn| ensures collapsed(i) <= raw(i) && (collapsed(i) < raw(i) <==> drawn[i] >= 2) {
      assert At(weights)(i) > 0.0;
      CollapsedTerm(drawn, c, weights, i);
    }
    if i :| 0 <= i < |drawn| && drawn[i] >= 2 {
      KeptMore(|drawn|, collapsed, raw, i);
    } else {
      SumAgree(|drawn|, collapsed, raw);
    }
  }

  lemma CollapsedTerm(drawn: seq<int>, c: seq<int>, weights: seq<real>, i: nat)
    requires |c| == |drawn| && i < |drawn| && drawn[i] >= 0 && c[i] == CollapsedDraw(drawn[i]) && At(weights)(i) > 0.0
    ensures var raw, collapsed := ByDraw(drawn, weights, AsReal())(i), ByDraw(c, weights, AsReal())(i);
            collapsed <= raw && (collapsed < raw <==> drawn[i] >= 2)
  {
    hide At;
    Scaled(At(weights)(i), c[i] as real, drawn[i] as real);
  }

  lemma Scaled(w: real, a: real, b: real)
    requires w > 0.0 && a <= b
    ensures w * a <= w * b && (w * a < w * b <==> a < b)
  {
    assert w * b - w * a == w * (b - a);
  }

  /** One draw of two touchdowns against a line of 1.5: priced as a certain over,
      while the collapsed distribution has none. */
  lemma TwoTouchdownsPassTheLine()
    ensures WeightedPmf.Weighted(Canonical([2], AnytimeTd), [1.0]).Built?
    ensures CalibratedEventProbability([2], [1.0], AnytimeTd, OVER, Some(1.5)) == Some((1.0, 0.0))
    ensures LineEvent(WeightedPmf.Weighted(Canonical([2], AnytimeTd), [1.0]).pmf, OVER, 1.5) == (0.0, 0.0)
  {
    OneTouchdownGame(1.5);
    KeptOne(2, Above(1.5));
    KeptOne(2, Level(1.5));
  }

  /** The same draw against a line of 2: priced as a certain push, over or under,
      while the collapsed distribution has no push and a certain under. */
  lemma TwoTouchdownsPushTheLine()
    ensures WeightedPmf.Weighted(Canonical([2], AnytimeTd), [1.0]).Built?
    ensures CalibratedEventProbability([2], [1.0], AnytimeTd, OVER, Some(2.0)) == Some((0.0, 1.0))
    ensures CalibratedEventProbability([2], [1.0], AnytimeTd, "UNDER", Some(2.0)) == Some((0.0, 1.0))
    ensures var pmf := WeightedPmf.Weighted(Canonical([2], AnytimeTd), [1.0]).pmf;
            LineEvent(pmf, OVER, 2.0) == (0.0, 0.0) && LineEvent(pmf, "UNDER", 2.0) == (1.0, 0.0)
  {
    OneTouchdownGame(2.0);
    KeptOne(2, Above(2.0));
    KeptOne(2, Below(2.0));
    KeptOne(2, Level(2.0));
  }

  /** Two touchdowns collapse to one, with all the mass. */
  lemma OneTouchdownGame(line: real)
    ensures WeightedPmf.Weighted(Canonical([2], AnytimeTd), [1.0]).Built?
    ensures var pmf := WeightedPmf.Weighted(Canonical([2], AnytimeTd), [1.0]).pmf;
            forall side :: LineEvent(pmf, side, line)
                           == (if SideOf(side, line)(1) then 1.0 else 0.0, if Level(line)(1) then 1.0 else 0.0)
  {
    hide MassWhere;
    assert Sum(1, At([1.0])) == Sum(0, At([1.0])) + At([1.0])(0);
    assert Canonical([2], AnytimeTd) == [1];
    forall side ensures LineEvent(WeightedPmf.Weighted([1], [1.0]).pmf, side, line)
                        == (if SideOf(side, line)(1) then 1.0 else 0.0, if Level(line)(1) then 1.0 else 0.0)
    {
      KeptIsMass([1], [1.0], SideOf(side, line));
      KeptIsMass([1], [1.0], Level(line));
      KeptOne(1, SideOf(side, line));
      KeptOne(1, Level(line));
    }
  }

  lemma KeptOne(v: int, mask: int -> bool)
    ensures KeptWeight([v], [1.0], mask) == if mask(v) then 1.0 else 0.0
  {
    assert Sum(1, Kept([v], [1.0], mask)) == Sum(0, Kept([v], [1.0], mask)) + Kept([v], [1.0], mask)(0);
  }

  lemma WeightsPositive(values: seq<int>, weights: seq<real>)
    requires WeightedPmf.Weighted(values, weights).Built?
    ensures |weights| == |values| && forall i :: 0 <= i < |values| ==> At(weights)(i) > 0.0
  {
  }

  // ----- certified weights and the prices they give

  const WEIGHT_SLACK: real := 0.000000000001

  /** The strict health check on certified weights. */
  ghost predicate Healthy(weights: seq<real>) {
    && (forall i :: 0 <= i < |weights| ==> At(weights)(i) > 0.0)
    && Abs(Sum(|weights|, At(weights)) - 1.0) <= WEIGHT_SLACK
  }

  /** Every event of every prop has a pair of probabilities a price accepts. */
  ghost predicate EveryEventPriced(weights: seq<real>) {
    forall values: seq<int>, prop, side, line :: |values| == |weights| ==>
      var event := CalibratedEventProbability(values, weights, prop, side, line);
      event.Some? ==> ValidPair(event.value.0, event.value.1)
  }

  lemma KeptAtMostTotal(values: seq<int>, weights: seq<real>, mask: int -> bool)
    requires |values| == |weights| && Healthy(weights)
    ensures 0.0 <= KeptWeight(values, weights, mask) <= Sum(|weights|, At(weights))
  {
    SumZero(|values|, i => 0.0);
    SumAtMost(|values|, i => 0.0, Kept(values, weights, mask));
    SumAtMost(|values|, Kept(values, weights, mask), At(weights));
  }

  lemma EventWithinTotal(values: seq<int>, weights: seq<real>, prop: PropType, side: string, line: Option<real>)
    requires |values| == |weights| && Healthy(weights)
    requires CalibratedEventProbability(values, weights, prop, side, line).Some?
    ensures var event := CalibratedEventProbability(values, weights, prop, side, line).value;
            event.0 >= 0.0 && event.1 >= 0.0 && event.0 + event.1 <= Sum(|weights|, At(weights))
  {
    hide KeptWeight, Healthy;
    if side == HIT {
      KeptAtMostTotal(values, weights, AtLeastOne());
    } else {
      KeptAtMostTotal(values, weights, Above(line.value));
      KeptAtMostTotal(values, weights, Below(line.value));
      KeptAtMostTotal(values, weights, Level(line.value));
      LineSplitsWeight(values, weights, line.value);
    }
  }

  /** A draw of one everywhere makes a hit certain. */
  lemma CertainHit(weights: seq<real>)
    ensures var ones := seq(|weights|, _ => 1);
            CalibratedEventProbability(ones, weights, FirstTd, HIT, None) == Some((Sum(|weights|, At(weights)), 0.0))
  {
    SumAgree(|weights|, Kept(seq(|weights|, _ => 1), weights, AtLeastOne()), At(weights));
  }

  /** Weights may pass the health check with a total above one. Every event can
      then be priced exactly when the total is at most one: above it a certain
      event has a probability no price accepts. */
  lemma PricedExactly(weights: seq<real>)
    requires Healthy(weights)
    ensures EveryEventPriced(weights) <==> Sum(|weights|, At(weights)) <= 1.0
  {
    hide CalibratedEventProbability, Healthy;
    var ones := seq(|weights|, _ => 1);
    CertainHit(weights);
    assert CalibratedEventProbability(ones, weights, FirstTd, HIT, None).Some?;
    if Sum(|weights|, At(weights)) <= 1.0 {
      forall values: seq<int>, prop, side, line |
        |values| == |weights| && CalibratedEventProbability(values, weights, prop, side, line).Some?
        ensures var event := CalibratedEventProbability(values, weights, prop, side, line).value;
                ValidPair(event.0, event.1)
      {
        EventWithinTotal(values, weights, prop, side, line);
      }
    }
  }

  /** Two healthy weights whose total refuses a certain event. */
  lemma HealthyWeightsRefuseCertainty()
    ensures Healthy([0.5, 0.5000000000005]) && !EveryEventPriced([0.5, 0.5000000000005])
  {
    var w := [0.5, 0.5000000000005];
    assert Sum(2, At(w)) == Sum(0, At(w)) + At(w)(0) + At(w)(1);
    PricedExactly(w);
  }

  // ----- one calibrated row per priced row

  datatype Priced = Priced(predictionId: string, playerId: string, prop: PropType, side: string, line: Option<real>,
                           americanOdds: int, marketFair: Option<real>)

  datatype Calibrated = Calibrated(predictionId: string, win: real, push: real, fairAmerican: Option<real>,
                                   fairDecimal: Option<real>, edge: Option<real>, ev: real, mean: real, rawMean: real)

  /** Why a priced row has no calibrated row. */
  datatype Refusal = NoEvent | BadProbabilities | ZeroOdds

  datatype RowResult = Row(row: Calibrated) | NoRow(refusal: Refusal)

  datatype Outcome = Rows(rows: seq<Calibrated>) | Refused(predictionId: string, refusal: Refusal)

  function RawMean(values: seq<int>): real {
    if values == [] then 0.0 else Sum(|values|, At(Crps.Reals(values))) / |values| as real
  }

  function Finite(fair: Fair): Option<real> { if fair.Price? then Some(fair.value) else None }

  /** The calibrated row of one quote. */
  function CalibratedRow(quote: Priced, values: seq<int>, weights: seq<real>): RowResult {
    var event := CalibratedEventProbability(values, weights, quote.prop, quote.side, quote.line);
    if event == None then NoRow(NoEvent)
    else
      var (win, push) := event.value;
      if FairAmerican(win, push).BadPair? then NoRow(BadProbabilities)
      else
        var odds := AmericanToDecimal(quote.americanOdds as real);
        if odds == None then NoRow(ZeroOdds)
        else
          var ev := ExpectedValue(win, odds.value, push);
          if ev == None then NoRow(BadProbabilities)
          else
            Row(Calibrated(quote.predictionId, win, push, Finite(FairAmerican(win, push)), Finite(FairDecimal(win, push)),
                           if quote.marketFair == None then None else Some(win - quote.marketFair.value), ev.value,
                           DrawMean(values, weights), RawMean(values)))
  }

  /** With healthy weights of total at most one, a quote is refused only for an
      undefined event or zero odds, and its row gains exactly when the quote
      pays more than the row's own fair price. */
  lemma RowMeaning(quote: Priced, values: seq<int>, weights: seq<real>)
    requires |values| == |weights| && Healthy(weights) && Sum(|weights|, At(weights)) <= 1.0
    ensures var event := CalibratedEventProbability(values, weights, quote.prop, quote.side, quote.line);
            CalibratedRow(quote, values, weights).Row? <==> event.Some? && quote.americanOdds != 0
    ensures CalibratedRow(quote, values, weights).Row? ==>
              var row := CalibratedRow(quote, values, weights).row;
              && (row.fairDecimal.Some? <==> row.win > 0.0)
              && (row.fairAmerican.Some? <==> row.win > 0.0 && row.win + row.push < 1.0)
              && (row.fairDecimal.Some? ==>
                    && row.win * row.fairDecimal.value == 1.0 - row.push
                    && row.ev == row.win * (AmericanToDecimal(quote.americanOdds as real).value - row.fairDecimal.value)
                    && (row.ev > 0.0 <==> AmericanToDecimal(quote.americanOdds as real).value > row.fairDecimal.value))
              && (row.fairAmerican.Some? ==> AmericanToDecimal(row.fairAmerican.value) == row.fairDecimal)
  {
    hide CalibratedEventProbability, Healthy, FairDecimal, FairAmerican, ExpectedValue, AmericanToDecimal, DrawMean, RawMean;
    var event := CalibratedEventProbability(values, weights, quote.prop, quote.side, quote.line);
    if event.Some? {
      var (win, push) := event.value;
      EventWithinTotal(values, weights, quote.prop, quote.side, quote.line);
      FairPricesAgree(win, push);
      var odds := AmericanToDecimal(quote.americanOdds as real);
      ZeroIsNoPrice(quote.americanOdds);
      if FairDecimal(win, push).Price? && odds.Some? {
        FairPriceBreaksEven(win, push, odds.value);
        FairDecimalMeaning(win, push);
        ValueIsDistanceFromFair(win, push, odds.value);
      } else if odds.Some? {
        NoWinValue(win, push, odds.value);
      }
    }
  }

  /** The raw mean is the mean of the distribution obtained by counting. */
  lemma RawMeanIsCounted(values: seq<int>)
    requires values != []
    ensures BuildRawPmf(values).Built? && RawMean(values) == PmfMean(BuildRawPmf(values).pmf)
  {
    hide PmfMean, Outcomes, Shares, Share, WeightedPmf.Weighted, Uniform, At, ByDraw, Affine, Crps.Reals, BuildRawPmf;
    var n := |values|;
    RawPmfIsBuilt(values);
    EntropyTilting.UniformIsRaw(values);
    MeansAgree(values, Uniform(n));
    forall i | 0 <= i < n ensures ByDraw(values, Uniform(n), AsReal())(i) == Affine(Share(n), At(Crps.Reals(values)), 0.0, At(Crps.Reals(values)))(i) {
      UniformDraw(values, i);
    }
    SumLinear(n, Share(n), At(Crps.Reals(values)), 0.0, At(Crps.Reals(values)), ByDraw(values, Uniform(n), AsReal()));
    ShareDivides(Sum(n, At(Crps.Reals(values))), n);
  }

  lemma UniformDraw(values: seq<int>, i: nat)
    requires i < |values|
    ensures ByDraw(values, Uniform(|values|), AsReal())(i)
            == Affine(Share(|values|), At(Crps.Reals(values)), 0.0, At(Crps.Reals(values)))(i)
  {
    hide Uniform, Share;
    UniformAt(|values|, i);
  }

  lemma ShareDivides(total: real, n: nat)
    requires n > 0
    ensures total / n as real == Share(n) * total
  {
  }

  /** The means and the edge of a calibrated row: the mean of its draws as the
      weights have it and as counting has it, and how much likelier than the
      market its win is. */
  lemma RowMeans(quote: Priced, values: seq<int>, weights: seq<real>)
    requires CalibratedRow(quote, values, weights).Row? && values != []
    ensures var row := CalibratedRow(quote, values, weights).row;
            && row.predictionId == quote.predictionId
            && CalibratedEventProbability(values, weights, quote.prop, quote.side, quote.line).Some?
            && row.win == CalibratedEventProbability(values, weights, quote.prop, quote.side, quote.line).value.0
            && row.push == CalibratedEventProbability(values, weights, quote.prop, quote.side, quote.line).value.1
            && BuildRawPmf(values).Built? && row.rawMean == PmfMean(BuildRawPmf(values).pmf)
            && (WeightedPmf.Weighted(values, weights).Built? ==> row.mean == PmfMean(WeightedPmf.Weighted(values, weights).pmf))
            && (row.edge.Some? <==> quote.marketFair.Some?)
            && (row.edge.Some? ==> row.edge.value + quote.marketFair.value == row.win)
  {
    hide PmfMean, WeightedPmf.Weighted, CalibratedEventProbability, BuildRawPmf, RawMean, DrawMean, FairDecimal, FairAmerican, ExpectedValue, AmericanToDecimal;
    RawMeanIsCounted(values);
    if WeightedPmf.Weighted(values, weights).Built? { MeansAgree(values, weights); }
  }

  lemma ZeroIsNoPrice(american: int)
    ensures AmericanToDecimal(american as real).Some? <==> american != 0
  {
  }

  lemma NoWinValue(win: real, push: real, decimal: real)
    requires win >= 0.0 && push >= 0.0 && win + push <= 1.0
    ensures ExpectedValue(win, decimal, push) == Some(win * (decimal - 1.0) - (1.0 - win - push))
  {
  }

  function RowFor(quote: Priced, propValues: (string, PropType) -> seq<int>, weights: seq<real>): RowResult {
    CalibratedRow(quote, propValues(quote.playerId, quote.prop), weights)
  }

  function RefusalOf(quote: Priced, propValues: (string, PropType) -> seq<int>, weights: seq<real>): Outcome
    requires RowFor(quote, propValues, weights).NoRow?
  {
    Refused(quote.predictionId, RowFor(quote, propValues, weights).refusal)
  }

  predicate FirstRefused(priced: seq<Priced>, propValues: (string, PropType) -> seq<int>, weights: seq<real>, i: nat) {
    && i < |priced| && RowFor(priced[i], propValues, weights).NoRow?
    && forall j :: 0 <= j < i ==> RowFor(priced[j], propValues, weights).Row?
  }

  /** Draws are fetched once for each player and prop. The first quote that
      cannot be calibrated refuses the whole list. */
  method CalibratePricedRows(priced: seq<Priced>, propValues: (string, PropType) -> seq<int>, weights: seq<real>)
    returns (r: Outcome)
    ensures r.Rows? <==> forall i :: 0 <= i < |priced| ==> RowFor(priced[i], propValues, weights).Row?
    ensures r.Rows? ==> |r.rows| == |priced|
    ensures r.Rows? ==> forall i :: 0 <= i < |priced| ==> Row(r.rows[i]) == RowFor(priced[i], propValues, weights)
    ensures r.Refused? ==> exists i: nat :: FirstRefused(priced, propValues, weights, i) && r == RefusalOf(priced[i], propValues, weights)
  {
    hide CalibratedRow;
    var byPlayer: map<(string, PropType), seq<int>> := map[];
    var out: seq<Calibrated> := [];
    for i := 0 to |priced|
      invariant |out| == i
      invariant forall k :: k in byPlayer ==> byPlayer[k] == propValues(k.0, k.1)
      invariant forall j :: 0 <= j < i ==> Row(out[j]) == RowFor(priced[j], propValues, weights)
    {
      var quote := priced[i];
      var key := (quote.playerId, quote.prop);
      if key !in byPlayer { byPlayer := byPlayer[key := propValues(quote.playerId, quote.prop)]; }
      var result := CalibratedRow(quote, byPlayer[key], weights);
      if result.NoRow? {
        assert FirstRefused(priced, propValues, weights, i);
        return Refused(quote.predictionId, result.refusal);
      }
      out := out + [result.row];
    }
    r := Rows(out);
  }
}
