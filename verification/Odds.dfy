/** Odds conversion, push-aware fair prices and the expected value of a quote. */
module Odds {
  import opened Options

  /** How far a pair of probabilities may exceed one in total. */
  const PAIR_SLACK: real := 0.000000001

  /** A finite price, none, or a pair of probabilities that is refused. */
  datatype Fair = Price(value: real) | NoPrice | BadPair

  /** Zero is not a price. */
  function AmericanToDecimal(american: real): Option<real> {
    if american == 0.0 then None
    else if american < 0.0 then Some(1.0 + 100.0 / -american)
    else Some(1.0 + american / 100.0)
  }

  function DecimalToAmerican(decimal: real): (american: Option<real>)
    ensures american.Some? <==> decimal > 1.0
  {
    if decimal <= 1.0 then None
    else if decimal >= 2.0 then Some((decimal - 1.0) * 100.0)
    else Some(-100.0 / (decimal - 1.0))
  }

  function ImpliedToAmerican(p: real): (american: Option<real>)
    ensures american.Some? <==> 0.0 < p < 1.0
  {
    if 0.0 < p < 1.0 then
      ReciprocalAboveOne(p);
      DecimalToAmerican(1.0 / p)
    else None
  }

  lemma ReciprocalAboveOne(p: real)
    requires 0.0 < p < 1.0
    ensures 1.0 / p > 1.0
  {
  }

  predicate ValidPair(win: real, push: real) {
    0.0 <= win <= 1.0 && 0.0 <= push <= 1.0 && win + push <= 1.0 + PAIR_SLACK
  }

  /** The probability of winning when the wager does not push. */
  function FairProbability(win: real, push: real): Fair {
    if !ValidPair(win, push) then BadPair
    else if 1.0 - push <= 0.0 then NoPrice
    else Price(win / (1.0 - push))
  }

  function FairDecimal(win: real, push: real): Fair {
    match FairProbability(win, push)
    case Price(p) => if p <= 0.0 then NoPrice else Price(1.0 / p)
    case other => other
  }

  function FairAmerican(win: real, push: real): Fair {
    match FairProbability(win, push)
    case Price(p) => if 0.0 < p < 1.0 then Price(ImpliedToAmerican(p).value) else NoPrice
    case other => other
  }

  /** The expected gain of one unit staked; a push returns the stake. */
  function ExpectedValue(win: real, decimal: real, push: real): Option<real> {
    if push < 0.0 || win < 0.0 then None
    else
      var lose := 1.0 - win - push;
      if lose < -PAIR_SLACK then None
      else Some(win * (decimal - 1.0) - if lose < 0.0 then 0.0 else lose)
  }

  // ----- conversions invert one another

  lemma Ratio(a: real, b: real)
    requires b != 0.0
    ensures (a / b) * b == a
  {
  }

  lemma RatioOfRatio(a: real, b: real)
    requires a != 0.0 && b != 0.0
    ensures a / b != 0.0 && a / (a / b) == b
  {
    Ratio(a, b);
    Ratio(a, a / b);
    Cancel(a / (a / b), b, a / b);
  }

  lemma Cancel(x: real, y: real, c: real)
    requires c != 0.0 && x * c == y * c
    ensures x == y
  {
    assert (x - y) * c == 0.0;
  }

  lemma RatioBelow(a: real, b: real)
    requires a > 0.0 && b > 0.0
    ensures a / b > 0.0 && (a / b < 1.0 <==> a < b) && (a / b == 1.0 <==> a == b)
  {
    Ratio(a, b);
    if a / b <= 0.0 { SignOfProduct(a / b, b); }
    SignOfProduct(1.0 - a / b, b);
  }

  lemma SignOfProduct(x: real, c: real)
    requires c > 0.0
    ensures (x * c > 0.0 <==> x > 0.0) && (x * c == 0.0 <==> x == 0.0)
  {
  }

  lemma DecimalRoundTrip(decimal: real)
    requires decimal > 1.0
    ensures AmericanToDecimal(DecimalToAmerican(decimal).value) == Some(decimal)
  {
    var gain := decimal - 1.0;
    if decimal < 2.0 {
      RatioBelow(100.0, gain);
      assert -100.0 / gain == -(100.0 / gain);
      RatioOfRatio(100.0, gain);
    }
  }

  /** A quote survives the trip through decimal odds exactly when it is written
      the way prices are quoted: at least 100, or below -100. */
  lemma AmericanRoundTrip(american: real)
    requires american != 0.0
    ensures DecimalToAmerican(AmericanToDecimal(american).value) == Some(american)
            <==> american >= 100.0 || american < -100.0
  {
    var gain := AmericanToDecimal(american).value - 1.0;
    if american < 0.0 {
      RatioBelow(100.0, -american);
      assert gain == 100.0 / -american;
      RatioOfRatio(100.0, -american);
      if gain < 1.0 { assert -100.0 / gain == -(100.0 / gain); }
    } else if gain < 1.0 {
      RatioBelow(100.0, gain);
      assert -100.0 / gain == -(100.0 / gain);
    }
  }

  // ----- the fair price is where a quote starts to gain

  lemma FairProbabilitySign(win: real, push: real)
    requires ValidPair(win, push) && push < 1.0
    ensures FairProbability(win, push).Price?
    ensures var p := FairProbability(win, push).value;
            (p > 0.0 <==> win > 0.0) && (p < 1.0 <==> win + push < 1.0)
  {
    Ratio(win, 1.0 - push);
    SignOfProduct(win / (1.0 - push), 1.0 - push);
    SignOfProduct(1.0 - win / (1.0 - push), 1.0 - push);
  }

  /** Two probabilities that may be priced: neither negative nor above one, and not
      above one together by more than a billionth. */
  predicate Priceable(win: real, push: real) {
    win >= 0.0 && push >= 0.0 && win <= 1.0 && push <= 1.0 && win + push <= 1.000000001
  }

  /** When each price exists, and that the two prices are the same one. */
  lemma FairPricesAgree(win: real, push: real)
    ensures FairDecimal(win, push).BadPair? <==> !Priceable(win, push)
    ensures FairAmerican(win, push).BadPair? <==> !Priceable(win, push)
    ensures FairDecimal(win, push).Price? <==> Priceable(win, push) && win > 0.0 && push < 1.0
    ensures FairAmerican(win, push).Price? <==> Priceable(win, push) && win > 0.0 && win + push < 1.0
    ensures FairAmerican(win, push).Price? ==>
              AmericanToDecimal(FairAmerican(win, push).value) == Some(FairDecimal(win, push).value)
  {
    if ValidPair(win, push) && push < 1.0 {
      FairProbabilitySign(win, push);
      var p := FairProbability(win, push).value;
      if 0.0 < p < 1.0 {
        ReciprocalAboveOne(p);
        DecimalRoundTrip(1.0 / p);
      }
    }
  }

  /** The fair price is the losing and winning chance over the winning one. */
  lemma FairDecimalMeaning(win: real, push: real)
    requires FairDecimal(win, push).Price?
    ensures win * FairDecimal(win, push).value == 1.0 - push
  {
    FairPricesAgree(win, push);
    var rest := 1.0 - push;
    var p := win / rest;
    Ratio(win, rest);
    Ratio(1.0, p);
    assert win * (1.0 / p) == (p * rest) * (1.0 / p) == rest * ((1.0 / p) * p);
  }

  /** There is an expected value unless a probability is negative or the two exceed
      one by more than a billionth; it is what winning pays times its chance, less
      the chance of losing, where none is left over counted as none. */
  lemma ExpectedValueExactly(win: real, decimal: real, push: real)
    ensures ExpectedValue(win, decimal, push).Some? <==> win >= 0.0 && push >= 0.0 && win + push <= 1.000000001
    ensures ExpectedValue(win, decimal, push).Some? && win + push <= 1.0 ==>
              ExpectedValue(win, decimal, push).value == win * decimal + push - 1.0
    ensures ExpectedValue(win, decimal, push).Some? && win + push >= 1.0 ==>
              ExpectedValue(win, decimal, push).value == win * decimal - win
  {
    assert win * (decimal - 1.0) == win * decimal - win;
  }

  /** What a quote gains is the winning chance times its distance from the fair
      price, less whatever the two probabilities exceed one by. */
  lemma ValueIsDistanceFromFair(win: real, push: real, decimal: real)
    requires FairDecimal(win, push).Price?
    ensures ExpectedValue(win, decimal, push)
            == Some(win * (decimal - FairDecimal(win, push).value) - if win + push > 1.0 then win + push - 1.0 else 0.0)
  {
    FairPricesAgree(win, push);
    FairDecimalMeaning(win, push);
    assert win * (decimal - FairDecimal(win, push).value) == win * decimal - (1.0 - push);
    assert win * (decimal - 1.0) == win * decimal - win;
  }

  /** A quote gains exactly when it pays more than the fair price, for every
      pair that adds up to at most one; and only for those does the fair price
      itself break even. */
  lemma FairPriceBreaksEven(win: real, push: real, decimal: real)
    requires FairDecimal(win, push).Price?
    ensures ExpectedValue(win, decimal, push).Some?
    ensures win + push <= 1.0 ==>
              (ExpectedValue(win, decimal, push).value > 0.0 <==> decimal > FairDecimal(win, push).value)
    ensures ExpectedValue(win, FairDecimal(win, push).value, push) == Some(0.0) <==> win + push <= 1.0
  {
    FairPricesAgree(win, push);
    ValueIsDistanceFromFair(win, push, decimal);
    ValueIsDistanceFromFair(win, push, FairDecimal(win, push).value);
    SignOfProduct(decimal - FairDecimal(win, push).value, win);
  }

  /** The fair probabilities of the two sides of a line add up to one. */
  lemma FairSidesComplete(over: real, under: real, push: real)
    requires over >= 0.0 && under >= 0.0 && 0.0 <= push < 1.0 && over + under + push == 1.0
    ensures FairProbability(over, push).Price? && FairProbability(under, push).Price?
    ensures FairProbability(over, push).value + FairProbability(under, push).value == 1.0
  {
    var rest := 1.0 - push;
    assert over / rest + under / rest == (over + under) / rest;
  }
}
