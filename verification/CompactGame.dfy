/** One game's draws reduced to a support and one small code per draw, and the
    same distributions rebuilt from that. */
module CompactGame {
  import opened Options
  import opened RealSums
  import opened ExactPmf
  import opened WeightedPmf

  datatype Label = Label(playerId: string, prop: string)

  datatype Game = Game(nDraws: nat, labels: seq<Label>, supports: seq<seq<int>>, codes: seq<seq<nat>>,
                       tdLabels: seq<string>, tdCodes: seq<nat>)

  datatype CompactResult = Compacted(game: Game) | NotSimulated(missing: Label) | NoLabels

  const UINT16_MAX := 0xFFFF
  const UINT16_RANGE := 0x1_0000
  const UINT32_RANGE := 0x1_0000_0000

  /** How many codes the chosen unsigned width can hold. */
  function CodeRange(maxSupport: nat): nat { if maxSupport <= UINT16_MAX then UINT16_RANGE else UINT32_RANGE }

  function MaxLength(supports: seq<seq<int>>): nat {
    if supports == [] then 0
    else var m := MaxLength(supports[..|supports| - 1]); if |supports[|supports| - 1]| > m then |supports[|supports| - 1]| else m
  }

  lemma {:induction false} MaxLengthMeaning(supports: seq<seq<int>>)
    ensures forall i :: 0 <= i < |supports| ==> |supports[i]| <= MaxLength(supports)
    ensures supports != [] ==> exists i :: 0 <= i < |supports| && |supports[i]| == MaxLength(supports)
  {
    if supports != [] {
      var n := |supports| - 1;
      MaxLengthMeaning(supports[..n]);
      forall i | 0 <= i < n ensures |supports[i]| <= MaxLength(supports) { assert supports[i] == supports[..n][i]; }
      if n > 0 && |supports[n]| <= MaxLength(supports[..n]) {
        var i :| 0 <= i < n && |supports[..n][i]| == MaxLength(supports[..n]);
        assert |supports[i]| == MaxLength(supports);
      } else {
        assert |supports[n]| == MaxLength(supports);
      }
    }
  }

  /** Codes stored in an unsigned width wrap around at its range. */
  function Stored(inverse: seq<nat>, range: nat): seq<nat>
    requires range > 0
  {
    seq(|inverse|, i requires 0 <= i < |inverse| => inverse[i] % range)
  }

  function Codes(values: seq<int>): seq<nat> {
    ValuesCovered(values);
    Inverse(values, Outcomes(values))
  }

  function TdCodes(labels: seq<string>): seq<nat> {
    NamesMeaning(labels);
    Inverse(labels, Names(labels))
  }

  predicate FirstMissing(labels: seq<Label>, canonical: Label -> Option<seq<int>>, i: nat) {
    i < |labels| && canonical(labels[i]).None? && forall j :: 0 <= j < i ==> canonical(labels[j]).Some?
  }

  method CompactFromLabeledGame(labels: seq<Label>, canonical: Label -> Option<seq<int>>, firstTd: seq<string>)
    returns (r: CompactResult)
    requires forall l :: l in labels && canonical(l).Some? ==> |canonical(l).value| == |firstTd|
    ensures r.Compacted? <==> labels != [] && forall l :: l in labels ==> canonical(l).Some?
    ensures r.NoLabels? <==> labels == []
    ensures r.NotSimulated? ==> exists i :: 0 <= i < |labels| && labels[i] == r.missing && FirstMissing(labels, canonical, i)
    ensures r.Compacted? ==>
              var g := r.game;
              && g.nDraws == |firstTd| && g.labels == labels && |g.supports| == |g.codes| == |labels|
              && g.tdLabels == Names(firstTd) && g.tdCodes == Stored(TdCodes(firstTd), CodeRange(|Names(firstTd)|))
              && forall i :: 0 <= i < |labels| ==>
                   && canonical(labels[i]).Some? && g.supports[i] == Outcomes(canonical(labels[i]).value)
                   && g.codes[i] == Stored(Codes(canonical(labels[i]).value), CodeRange(MaxLength(g.supports)))
  {
    var supports: seq<seq<int>>, inverses: seq<seq<nat>> := [], [];
    var i := 0;
    while i < |labels|
      invariant 0 <= i <= |labels| && |supports| == |inverses| == i
      invariant forall j :: 0 <= j < i ==> canonical(labels[j]).Some?
      invariant forall j :: 0 <= j < i ==> supports[j] == Outcomes(canonical(labels[j]).value)
      invariant forall j :: 0 <= j < i ==> inverses[j] == Codes(canonical(labels[j]).value)
    {
      var values := canonical(labels[i]);
      if values.None? {
        assert labels[i] in labels;
        return NotSimulated(labels[i]);
      }
      supports := supports + [Outcomes(values.value)];
      inverses := inverses + [Codes(values.value)];
      i := i + 1;
    }
    if labels == [] { return NoLabels; }
    var range := CodeRange(MaxLength(supports));
    var codes := seq(|inverses|, j requires 0 <= j < |inverses| => Stored(inverses[j], range));
    r := Compacted(Game(|firstTd|, labels, supports, codes, Names(firstTd), Stored(TdCodes(firstTd), CodeRange(|Names(firstTd)|))));
  }

  // ----- when the stored codes are the codes

  /** Narrowing keeps the codes of any vector exactly when its distinct values fit
      the width: every code occurs, so the largest one tells. */
  lemma StoredExactly<T(!new)>(values: seq<T>, distinct: seq<T>, range: nat)
    requires range > 0 && Distinct(distinct)
    requires (forall i :: 0 <= i < |values| ==> values[i] in distinct) && forall k :: 0 <= k < |distinct| ==> distinct[k] in values
    ensures Stored(Inverse(values, distinct), range) == Inverse(values, distinct) <==> |distinct| <= range
  {
    var codes := Inverse(values, distinct);
    if |distinct| <= range {
      forall i | 0 <= i < |codes| ensures codes[i] % range == codes[i] { SmallModulus(codes[i], range); }
    } else {
      var i :| 0 <= i < |values| && values[i] == distinct[range];
      assert codes[i] == range;
      assert Stored(codes, range)[i] == range % range == 0;
    }
  }

  lemma CodesStoredExactly(values: seq<int>, range: nat)
    requires range > 0
    ensures Stored(Codes(values), range) == Codes(values) <==> |Outcomes(values)| <= range
  {
    ValuesCovered(values);
    forall k | 0 <= k < |Outcomes(values)| ensures Outcomes(values)[k] in values { OutcomeOccurs(values, k); }
    StoredExactly(values, Outcomes(values), range);
  }

  /** The first-touchdown codes keep every label exactly when there are at most
      2^32 of them. */
  lemma TdCodesStoredExactly(labels: seq<string>)
    ensures Stored(TdCodes(labels), CodeRange(|Names(labels)|)) == TdCodes(labels) <==> |Names(labels)| <= UINT32_RANGE
  {
    NamesMeaning(labels);
    forall k | 0 <= k < |Names(labels)| ensures Names(labels)[k] in labels { assert Names(labels)[k] in Names(labels); }
    StoredExactly(labels, Names(labels), CodeRange(|Names(labels)|));
  }

  /** Two bytes a code are used exactly when they would keep every code, but for a
      greatest support of exactly 65,536 outcomes. */
  lemma TwoBytesExactly(values: seq<seq<int>>, supports: seq<seq<int>>)
    requires |values| == |supports| > 0 && forall i :: 0 <= i < |values| ==> supports[i] == Outcomes(values[i])
    ensures CodeRange(MaxLength(supports)) == 0x1_0000
            <==> (forall i :: 0 <= i < |values| ==> Stored(Codes(values[i]), 0x1_0000) == Codes(values[i]))
                 && forall i :: 0 <= i < |values| ==> |supports[i]| != 0x1_0000
    ensures CodeRange(MaxLength(supports)) == 0x1_0000 || CodeRange(MaxLength(supports)) == 0x1_0000_0000
  {
    MaxLengthMeaning(supports);
    forall i | 0 <= i < |values| ensures Stored(Codes(values[i]), 0x1_0000) == Codes(values[i]) <==> |supports[i]| <= 0x1_0000 {
      CodesStoredExactly(values[i], 0x1_0000);
    }
  }

  lemma SmallModulus(a: nat, b: nat)
    requires a < b
    ensures a % b == a
  {
  }

  /** A compacted game keeps every code exactly when no support exceeds 2^32. */
  lemma GameLosslessExactly(values: seq<seq<int>>, supports: seq<seq<int>>)
    requires |values| == |supports| > 0 && forall i :: 0 <= i < |values| ==> supports[i] == Outcomes(values[i])
    ensures (forall i :: 0 <= i < |values| ==> Stored(Codes(values[i]), CodeRange(MaxLength(supports))) == Codes(values[i]))
            <==> MaxLength(supports) <= UINT32_RANGE
  {
    var m := MaxLength(supports);
    MaxLengthMeaning(supports);
    forall i | 0 <= i < |values|
      ensures Stored(Codes(values[i]), CodeRange(m)) == Codes(values[i]) <==> |supports[i]| <= CodeRange(m)
    {
      CodesStoredExactly(values[i], CodeRange(m));
    }
    var top :| 0 <= top < |supports| && |supports[top]| == m;
    assert |supports[top]| <= CodeRange(m) <==> m <= UINT32_RANGE;
  }

  // ----- distributions rebuilt from the codes

  function BucketMasses(codes: seq<nat>, weights: seq<real>, buckets: nat): seq<real> {
    seq(buckets, k requires 0 <= k < buckets => Bucket(codes, weights, |codes|, k))
  }

  method BinCount(codes: seq<nat>, weights: seq<real>, buckets: nat) returns (counts: seq<real>)
    requires |codes| == |weights| && forall i :: 0 <= i < |codes| ==> codes[i] < buckets
    ensures counts == BucketMasses(codes, weights, buckets)
  {
    var probs := new real[buckets](_ => 0.0);
    AddAt(probs, codes, weights);
    counts := probs[..];
  }

  function CompactPmf(outcomes: seq<int>, codes: seq<nat>, nDraws: nat, weights: seq<real>): PmfResult
    requires outcomes != []
  {
    match ValidateDrawWeights(weights, nDraws)
    case Some(problem) => BadWeights(problem)
    case None => Checked(Pmf(nDraws, outcomes[0], outcomes[|outcomes| - 1], outcomes, BucketMasses(codes, weights, |outcomes|)))
  }

  method CompactWeightedPmf(game: Game, index: nat, weights: seq<real>) returns (r: PmfResult)
    requires index < |game.labels| == |game.supports| == |game.codes|
    requires |game.codes[index]| == game.nDraws && game.supports[index] != []
    requires forall i :: 0 <= i < game.nDraws ==> game.codes[index][i] < |game.supports[index]|
    ensures r == CompactPmf(game.supports[index], game.codes[index], game.nDraws, weights)
  {
    var outcomes, codes := game.supports[index], game.codes[index];
    var problem := ValidateDrawWeights(weights, game.nDraws);
    if problem.Some? { return BadWeights(problem.value); }
    var probs := BinCount(codes, weights, |outcomes|);
    r := Checked(Pmf(game.nDraws, outcomes[0], outcomes[|outcomes| - 1], outcomes, probs));
  }

  lemma RebuiltMasses(values: seq<int>, weights: seq<real>)
    requires |weights| == |values|
    ensures BucketMasses(Codes(values), weights, |Outcomes(values)|) == Masses(Outcomes(values), values, weights)
  {
    hide Bucket, Mass, Outcomes;
    ValuesCovered(values);
    forall k | 0 <= k < |Outcomes(values)|
      ensures Bucket(Codes(values), weights, |values|, k) == Mass(values, weights, |values|, Outcomes(values)[k])
    {
      BucketMass(Outcomes(values), values, Codes(values), weights, |values|, k);
    }
  }

  /** From codes that were stored without loss, every weight vector gives the
      distribution, or the refusal, that the full vector of draws gives. */
  lemma CompactEqualsFull(values: seq<int>, weights: seq<real>, range: nat)
    requires values != [] && 0 < range && |Outcomes(values)| <= range
    ensures Outcomes(values) != []
    ensures CompactPmf(Outcomes(values), Stored(Codes(values), range), |values|, weights) == Weighted(values, weights)
  {
    hide Bucket, Mass, Outcomes, Codes, BucketMasses, Masses, Least, Greatest, Stored;
    SupportEnds(values);
    CodesStoredExactly(values, range);
    if ValidateDrawWeights(weights, |values|).None? {
      RebuiltMasses(values, weights);
      AggregationPasses(values, weights);
    }
  }

  /** The game holds the compacted first-touchdown labels of `labels`. */
  predicate TdCompacted(game: Game, labels: seq<string>) {
    game.tdLabels == Names(labels) && game.tdCodes == Stored(TdCodes(labels), CodeRange(|Names(labels)|))
  }

  method CompactFirstTdSimplex(game: Game, weights: seq<real>) returns (r: SimplexResult)
    requires |game.tdCodes| == game.nDraws && Distinct(game.tdLabels)
    requires forall i :: 0 <= i < game.nDraws ==> game.tdCodes[i] < |game.tdLabels|
    ensures forall labels :: TdCompacted(game, labels) && |Names(labels)| <= UINT32_RANGE ==> r == WeightedFirstTd(labels, weights)
  {
    hide Bucket, Mass, Names, TdCodes, At, Sum, AllPositive, Distinct, BucketMasses;
    var problem := ValidateDrawWeights(weights, game.nDraws);
    if problem.Some? {
      r := BadSimplexWeights(problem.value);
      forall labels | TdCompacted(game, labels) && |Names(labels)| <= UINT32_RANGE ensures r == WeightedFirstTd(labels, weights) {
        TdCodesLength(labels);
        TdCodesStoredExactly(labels);
      }
      return;
    }
    ValidShape(weights, game.nDraws);
    var probs := BinCount(game.tdCodes, weights, |game.tdLabels|);
    BucketMassesLength(game.tdCodes, weights, |game.tdLabels|);
    r := CheckedField(game.tdLabels, probs);
    forall labels | TdCompacted(game, labels) && |Names(labels)| <= UINT32_RANGE ensures r == WeightedFirstTd(labels, weights) {
      TdCodesLength(labels);
      TdCodesStoredExactly(labels);
      RebuiltField(labels, weights);
      FieldPasses(labels, weights);
      ValidSum(weights, |labels|);
      SameField(labels, weights, r.field);
    }
  }

  lemma BucketMassesLength(codes: seq<nat>, weights: seq<real>, buckets: nat)
    ensures |BucketMasses(codes, weights, buckets)| == buckets
  {
  }

  lemma TdCodesLength(labels: seq<string>)
    ensures |TdCodes(labels)| == |labels|
  {
  }

  lemma RebuiltField(labels: seq<string>, weights: seq<real>)
    requires |weights| == |labels|
    ensures BucketMasses(TdCodes(labels), weights, |Names(labels)|) == Masses(Names(labels), labels, weights)
  {
    hide Bucket, Mass, Names;
    NamesMeaning(labels);
    forall k | 0 <= k < |Names(labels)|
      ensures Bucket(TdCodes(labels), weights, |labels|, k) == Mass(labels, weights, |labels|, Names(labels)[k])
    {
      BucketMass(Names(labels), labels, TdCodes(labels), weights, |labels|, k);
    }
  }
}
