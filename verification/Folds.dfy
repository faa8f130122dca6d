/** Walk-forward evaluation folds cut at season boundaries, the checks every
    fold list must pass, and the games each fold fits and scores. */
module Folds {
  import opened StableSorting

  /** Times are microseconds on one clock. */
  datatype Game = Game(id: string, asOf: int, availableAt: int)

  /** A fold is named after the last training season and the scored season. */
  datatype Fold = Fold(trainThrough: int, scored: int, trainStart: int, trainEnd: int, selectionEnd: int,
                       scoreStart: int, scoreEnd: int)

  // ----- the checks

  /** What constructing one fold demands. */
  predicate FoldOk(f: Fold) {
    f.trainStart <= f.trainEnd <= f.selectionEnd < f.scoreStart <= f.scoreEnd
  }

  predicate SameName(f: Fold, g: Fold) { f.trainThrough == g.trainThrough && f.scored == g.scored }

  predicate Follows(previous: Fold, fold: Fold) {
    previous.trainEnd <= fold.trainEnd && previous.selectionEnd <= fold.selectionEnd && previous.scoreEnd < fold.scoreStart
  }

  /** Distinct names, one training origin, windows that never shrink, and each
      score window after its neighbour's. */
  predicate Expanding(folds: seq<Fold>) {
    && folds != []
    && (forall i, j :: 0 <= i < j < |folds| ==> !SameName(folds[i], folds[j]))
    && (forall i :: 0 <= i < |folds| ==> folds[i].trainStart == folds[0].trainStart)
    && (forall i :: 1 <= i < |folds| ==> Follows(folds[i - 1], folds[i]))
  }

  method ValidateExpandingFolds(folds: seq<Fold>) returns (ok: bool)
    ensures ok == Expanding(folds)
  {
    if folds == [] { return false; }
    var repeated := HasRepeatedName(folds);
    if repeated { return false; }
    var origin := folds[0].trainStart;
    var idx := 0;
    while idx < |folds|
      invariant 0 <= idx <= |folds|
      invariant forall i :: 0 <= i < idx ==> folds[i].trainStart == origin
      invariant forall i :: 1 <= i < idx ==> Follows(folds[i - 1], folds[i])
    {
      if folds[idx].trainStart != origin { return false; }
      if idx > 0 {
        var previous := folds[idx - 1];
        if folds[idx].trainEnd < previous.trainEnd { return false; }
        if folds[idx].selectionEnd < previous.selectionEnd { return false; }
        if folds[idx].scoreStart <= previous.scoreEnd { return false; }
      }
      idx := idx + 1;
    }
    ok := true;
  }

  method HasRepeatedName(folds: seq<Fold>) returns (repeated: bool)
    ensures repeated <==> exists i, j :: 0 <= i < j < |folds| && SameName(folds[i], folds[j])
  {
    var names: set<(int, int)> := {};
    for j := 0 to |folds|
      invariant forall n :: n in names <==> exists i :: 0 <= i < j && (folds[i].trainThrough, folds[i].scored) == n
      invariant forall i, k :: 0 <= i < k < j ==> !SameName(folds[i], folds[k])
    {
      var name := (folds[j].trainThrough, folds[j].scored);
      if name in names {
        var i :| 0 <= i < j && (folds[i].trainThrough, folds[i].scored) == name;
        assert SameName(folds[i], folds[j]);
        return true;
      }
      names := names + {name};
    }
    repeated := false;
  }

  /** Neighbour by neighbour is enough: in every accepted list of well-formed
      folds any two score windows are disjoint, in order. */
  lemma {:induction false} NeighboursSuffice(folds: seq<Fold>, i: nat, j: nat)
    requires Expanding(folds) && i < j < |folds| && forall k :: 0 <= k < |folds| ==> FoldOk(folds[k])
    ensures folds[i].scoreEnd < folds[j].scoreStart
    ensures folds[i].trainEnd <= folds[j].trainEnd
  {
    assert Follows(folds[j - 1], folds[j]);
    if i < j - 1 {
      NeighboursSuffice(folds, i, j - 1);
      assert FoldOk(folds[j - 1]);
    }
  }

  /** Any two folds of the list, the first standing before the second. */
  predicate Apart(f: Fold, g: Fold) {
    && (f.trainThrough != g.trainThrough || f.scored != g.scored) && f.trainStart == g.trainStart
    && f.trainEnd <= g.trainEnd && f.selectionEnd <= g.selectionEnd && f.scoreEnd < g.scoreStart
  }

  /** A list of well-formed folds is accepted exactly when it has a fold, and every
      two of them have different names and one origin, the later training and
      selecting no less far and scoring only after the earlier. */
  lemma AcceptedExactly(folds: seq<Fold>)
    requires forall k :: 0 <= k < |folds| ==> FoldOk(folds[k])
    ensures Expanding(folds) <==> folds != [] && forall i, j :: 0 <= i < j < |folds| ==> Apart(folds[i], folds[j])
  {
    if Expanding(folds) {
      forall i, j | 0 <= i < j < |folds| ensures Apart(folds[i], folds[j]) {
        NeighboursSuffice(folds, i, j);
        SelectionGrows(folds, i, j);
        assert !SameName(folds[i], folds[j]);
      }
    }
    if folds != [] && forall i, j :: 0 <= i < j < |folds| ==> Apart(folds[i], folds[j]) {
      forall i | 0 <= i < |folds| ensures folds[i].trainStart == folds[0].trainStart { assert i > 0 ==> Apart(folds[0], folds[i]); }
      forall i | 1 <= i < |folds| ensures Follows(folds[i - 1], folds[i]) { assert Apart(folds[i - 1], folds[i]); }
      forall i, j | 0 <= i < j < |folds| ensures !SameName(folds[i], folds[j]) { assert Apart(folds[i], folds[j]); }
    }
  }

  lemma {:induction false} SelectionGrows(folds: seq<Fold>, i: nat, j: nat)
    requires Expanding(folds) && i < j < |folds|
    ensures folds[i].selectionEnd <= folds[j].selectionEnd
  {
    assert Follows(folds[j - 1], folds[j]);
    if i < j - 1 { SelectionGrows(folds, i, j - 1); }
  }

  // ----- seasons

  function SeasonFilter(seasonOf: map<string, int>, season: int): Game -> bool {
    (g: Game) => g.id in seasonOf && seasonOf[g.id] == season
  }

  function SeasonGames(games: seq<Game>, seasonOf: map<string, int>, season: int): seq<Game> {
    Filter(games, SeasonFilter(seasonOf, season))
  }

  function Earliest(games: seq<Game>): int
    requires games != []
  {
    if |games| == 1 then games[0].asOf
    else var m := Earliest(games[..|games| - 1]); if games[|games| - 1].asOf < m then games[|games| - 1].asOf else m
  }

  function Latest(games: seq<Game>): int
    requires games != []
  {
    if |games| == 1 then games[0].asOf
    else var m := Latest(games[..|games| - 1]); if games[|games| - 1].asOf > m then games[|games| - 1].asOf else m
  }

  lemma {:induction false} ExtremesMeaning(games: seq<Game>)
    requires games != []
    ensures forall g :: g in games ==> Earliest(games) <= g.asOf <= Latest(games)
    ensures (exists g :: g in games && g.asOf == Earliest(games)) && (exists g :: g in games && g.asOf == Latest(games))
  {
    var n := |games| - 1;
    assert games == games[..n] + [games[n]];
    if n > 0 { ExtremesMeaning(games[..n]); }
    assert games[n] in games;
  }

  /** Half of a non-negative duration, rounded half to even. */
  function Half(d: nat): nat {
    var q, r := d / 2, d % 2;
    if r * 2 > 2 || (r * 2 == 2 && q % 2 == 1) then q + 1 else q
  }

  lemma HalfIsWithin(d: nat)
    ensures d > 0 ==> Half(d) < d
    ensures 2 * Half(d) - 1 <= d <= 2 * Half(d) + 1
  {
  }

  /** The sorted seasons that label at least one game. */
  ghost predicate SeasonList(games: seq<Game>, seasonOf: map<string, int>, seasons: seq<int>) {
    && StrictlySorted(seasons, AtMost)
    && forall s :: s in seasons <==> SeasonGames(games, seasonOf, s) != []
  }

  /** The seasons of the labelled games, as often as they occur. */
  function SeasonNumbers(games: seq<Game>, seasonOf: map<string, int>): seq<int> {
    if games == [] then []
    else
      var g := games[|games| - 1];
      SeasonNumbers(games[..|games| - 1], seasonOf) + if g.id in seasonOf then [seasonOf[g.id]] else []
  }

  function Seasons(games: seq<Game>, seasonOf: map<string, int>): seq<int> { Unique(SeasonNumbers(games, seasonOf), AtMost) }

  lemma {:induction false} SeasonNumbersMeaning(games: seq<Game>, seasonOf: map<string, int>, s: int)
    ensures s in SeasonNumbers(games, seasonOf) <==> SeasonGames(games, seasonOf, s) != []
  {
    if games != [] {
      var n := |games| - 1;
      SeasonNumbersMeaning(games[..n], seasonOf, s);
      FilterStep(games, n, SeasonFilter(seasonOf, s));
      assert games[..n + 1] == games;
    }
  }

  /** Any sorted list of the occupied seasons is the season list. */
  lemma SeasonsMeaning(games: seq<Game>, seasonOf: map<string, int>)
    ensures SeasonList(games, seasonOf, Seasons(games, seasonOf))
    ensures forall seasons :: SeasonList(games, seasonOf, seasons) ==> seasons == Seasons(games, seasonOf)
  {
    hide SeasonGames;
    var all := Seasons(games, seasonOf);
    UniqueMeaning(SeasonNumbers(games, seasonOf), AtMost);
    forall s ensures s in all <==> SeasonGames(games, seasonOf, s) != [] {
      SeasonNumbersMeaning(games, seasonOf, s);
      assert s in all <==> s in SeasonNumbers(games, seasonOf);
    }
    forall seasons | SeasonList(games, seasonOf, seasons) ensures seasons == all {
      forall s ensures s in seasons <==> s in all {
        assert s in seasons <==> SeasonGames(games, seasonOf, s) != [];
      }
      StrictlySortedIsUnique(seasons, all, AtMost);
    }
  }

  /** The games of each season in the order they come, and the seasons in the
      order they were first met. */
  method GroupBySeason(games: seq<Game>, seasonOf: map<string, int>) returns (bySeason: map<int, seq<Game>>, keys: seq<int>)
    ensures forall s :: s in keys <==> s in bySeason
    ensures forall s :: s in bySeason <==> SeasonGames(games, seasonOf, s) != []
    ensures forall s :: s in bySeason ==> bySeason[s] == SeasonGames(games, seasonOf, s)
  {
    bySeason, keys := map[], [];
    for i := 0 to |games|
      invariant forall s :: s in keys <==> s in bySeason
      invariant forall s :: s in bySeason <==> SeasonGames(games[..i], seasonOf, s) != []
      invariant forall s :: s in bySeason ==> bySeason[s] == SeasonGames(games[..i], seasonOf, s)
    {
      forall s { FilterStep(games, i, SeasonFilter(seasonOf, s)); }
      var g := games[i];
      if g.id in seasonOf {
        var season := seasonOf[g.id];
        if season !in bySeason {
          bySeason := bySeason[season := []];
          keys := keys + [season];
        }
        bySeason := bySeason[season := bySeason[season] + [g]];
      }
    }
    assert games[..|games|] == games;
  }

  // ----- the folds

  function FoldOf(games: seq<Game>, train: seq<Game>, score: seq<Game>, trainThrough: int, scored: int): Fold
    requires games != [] && train != [] && score != [] && Latest(train) < Earliest(score)
  {
    var mid := Latest(train) + Half(Earliest(score) - Latest(train));
    Fold(trainThrough, scored, Earliest(games), mid, mid, Earliest(score), Latest(score))
  }

  datatype FoldsResult = Built(folds: seq<Fold>) | TooFewSeasons | NotChronological(season: int)

  predicate InOrder(games: seq<Game>, seasonOf: map<string, int>, earlier: int, later: int) {
    && SeasonGames(games, seasonOf, earlier) != [] && SeasonGames(games, seasonOf, later) != []
    && Latest(SeasonGames(games, seasonOf, earlier)) < Earliest(SeasonGames(games, seasonOf, later))
  }

  /** The first `n` folds of the season list. */
  ghost predicate FoldsOf(games: seq<Game>, seasonOf: map<string, int>, seasons: seq<int>, n: nat, folds: seq<Fold>) {
    && n < |seasons| && |folds| == n && games != []
    && forall k :: 0 <= k < n ==>
         && InOrder(games, seasonOf, seasons[k], seasons[k + 1])
         && folds[k] == FoldOf(games, SeasonGames(games, seasonOf, seasons[k]), SeasonGames(games, seasonOf, seasons[k + 1]),
                               seasons[k], seasons[k + 1])
  }

  lemma NoFolds(games: seq<Game>, seasonOf: map<string, int>, seasons: seq<int>)
    requires games != [] && seasons != []
    ensures FoldsOf(games, seasonOf, seasons, 0, [])
  {
  }

  predicate AllInOrder(games: seq<Game>, seasonOf: map<string, int>, seasons: seq<int>, n: nat)
    requires n < |seasons|
  {
    forall k :: 0 <= k < n ==> InOrder(games, seasonOf, seasons[k], seasons[k + 1])
  }

  /** One pair of neighbouring seasons: either it ends the pass, or it adds its
      fold. */
  lemma FoldStep(games: seq<Game>, seasonOf: map<string, int>, seasons: seq<int>, k: nat, folds: seq<Fold>,
                 train: seq<Game>, score: seq<Game>)
    requires FoldsOf(games, seasonOf, seasons, k, folds) && k + 1 < |seasons| && AllInOrder(games, seasonOf, seasons, k)
    requires train == SeasonGames(games, seasonOf, seasons[k]) != []
    requires score == SeasonGames(games, seasonOf, seasons[k + 1]) != []
    ensures InOrder(games, seasonOf, seasons[k], seasons[k + 1]) <==> Latest(train) < Earliest(score)
    ensures Latest(train) < Earliest(score) ==>
              && AllInOrder(games, seasonOf, seasons, k + 1) && games != []
              && FoldsOf(games, seasonOf, seasons, k + 1, folds + [FoldOf(games, train, score, seasons[k], seasons[k + 1])])
  {
    hide SeasonGames, Latest, Earliest, Half;
  }

  method BuildSeasonBoundaryFolds(games: seq<Game>, seasonOf: map<string, int>) returns (r: FoldsResult)
    ensures r.TooFewSeasons? <==> |Seasons(games, seasonOf)| < 2
    ensures r.Built? <==>
              |Seasons(games, seasonOf)| >= 2 && AllInOrder(games, seasonOf, Seasons(games, seasonOf), |Seasons(games, seasonOf)| - 1)
    ensures r.Built? ==> FoldsOf(games, seasonOf, Seasons(games, seasonOf), |Seasons(games, seasonOf)| - 1, r.folds)
    ensures r.NotChronological? ==>
              var seasons := Seasons(games, seasonOf);
              exists k :: 0 <= k < |seasons| - 1 && seasons[k + 1] == r.season
                && AllInOrder(games, seasonOf, seasons, k) && !InOrder(games, seasonOf, seasons[k], seasons[k + 1])
  {
    hide SeasonGames, Latest, Earliest, Half, StrictlySorted, FoldsOf, Unique, InOrder, AllInOrder;
    var bySeason, keys := GroupBySeason(games, seasonOf);
    var sorted := Unique(keys, AtMost);
    UniqueMeaning(keys, AtMost);
    SeasonsMeaning(games, seasonOf);
    assert SeasonList(games, seasonOf, sorted);
    if |sorted| < 2 { return TooFewSeasons; }
    assert sorted[0] in sorted;
    NonEmptySeason(games, seasonOf, sorted[0]);
    var folds: seq<Fold> := [];
    NoFolds(games, seasonOf, sorted);
    assert AllInOrder(games, seasonOf, sorted, 0) by { NoneInOrder(games, seasonOf, sorted); }
    var k := 0;
    while k < |sorted| - 1
      invariant 0 <= k <= |sorted| - 1
      invariant FoldsOf(games, seasonOf, sorted, k, folds)
      invariant AllInOrder(games, seasonOf, sorted, k)
    {
      assert sorted[k] in sorted && sorted[k + 1] in sorted;
      var train, score := bySeason[sorted[k]], bySeason[sorted[k + 1]];
      FoldStep(games, seasonOf, sorted, k, folds, train, score);
      var trainLast, scoreFirst := Latest(train), Earliest(score);
      if scoreFirst <= trainLast {
        assert !AllInOrder(games, seasonOf, sorted, |sorted| - 1) by { OneOutOfOrder(games, seasonOf, sorted, k); }
        return NotChronological(sorted[k + 1]);
      }
      var trainEnd := trainLast + Half(scoreFirst - trainLast);
      var fold := Fold(sorted[k], sorted[k + 1], Earliest(games), trainEnd, trainEnd, Earliest(score), Latest(score));
      folds := folds + [fold];
      k := k + 1;
    }
    r := FoldsResult.Built(folds);
  }

  lemma NoneInOrder(games: seq<Game>, seasonOf: map<string, int>, seasons: seq<int>)
    requires seasons != []
    ensures AllInOrder(games, seasonOf, seasons, 0)
  {
  }

  lemma OneOutOfOrder(games: seq<Game>, seasonOf: map<string, int>, seasons: seq<int>, k: nat)
    requires k + 1 < |seasons| && !InOrder(games, seasonOf, seasons[k], seasons[k + 1])
    ensures !AllInOrder(games, seasonOf, seasons, |seasons| - 1)
  {
  }

  lemma NonEmptySeason(games: seq<Game>, seasonOf: map<string, int>, season: int)
    requires SeasonGames(games, seasonOf, season) != []
    ensures games != []
  {
  }

  // ----- what the folds guarantee

  lemma SeasonMembers(games: seq<Game>, seasonOf: map<string, int>, season: int)
    ensures forall g :: g in SeasonGames(games, seasonOf, season) <==> g in games && SeasonFilter(seasonOf, season)(g)
    ensures SeasonGames(games, seasonOf, season) != [] ==>
              && (forall g :: g in games && SeasonFilter(seasonOf, season)(g) ==>
                    Earliest(SeasonGames(games, seasonOf, season)) <= g.asOf <= Latest(SeasonGames(games, seasonOf, season)))
              && Earliest(SeasonGames(games, seasonOf, season)) <= Latest(SeasonGames(games, seasonOf, season))
  {
    var mine := SeasonGames(games, seasonOf, season);
    FilterMembers(games, SeasonFilter(seasonOf, season));
    if mine != [] {
      ExtremesMeaning(mine);
      assert mine[0] in mine;
    }
  }

  lemma EarliestOfAll(games: seq<Game>, seasonOf: map<string, int>, season: int)
    requires SeasonGames(games, seasonOf, season) != []
    ensures games != [] && Earliest(games) <= Latest(SeasonGames(games, seasonOf, season))
  {
    var mine := SeasonGames(games, seasonOf, season);
    NonEmptySeason(games, seasonOf, season);
    SeasonMembers(games, seasonOf, season);
    ExtremesMeaning(games);
    assert mine[0] in mine;
  }

  /** Seasons listed earlier end before seasons listed later begin. */
  lemma {:induction false} SeasonsApart(games: seq<Game>, seasonOf: map<string, int>, seasons: seq<int>, n: nat, folds: seq<Fold>, i: nat, j: nat)
    requires FoldsOf(games, seasonOf, seasons, n, folds) && i < j <= n
    ensures InOrder(games, seasonOf, seasons[i], seasons[j])
  {
    if i < j - 1 {
      SeasonsApart(games, seasonOf, seasons, n, folds, i, j - 1);
      SeasonMembers(games, seasonOf, seasons[j - 1]);
      assert InOrder(games, seasonOf, seasons[j - 1], seasons[j]);
    } else {
      assert InOrder(games, seasonOf, seasons[i], seasons[i + 1]);
    }
  }

  lemma BuiltFoldOk(games: seq<Game>, seasonOf: map<string, int>, seasons: seq<int>, n: nat, folds: seq<Fold>, k: nat)
    requires FoldsOf(games, seasonOf, seasons, n, folds) && k < n
    ensures FoldOk(folds[k]) && folds[k].selectionEnd == folds[k].trainEnd && folds[k].trainStart == Earliest(games)
    ensures InOrder(games, seasonOf, seasons[k], seasons[k + 1])
    ensures Latest(SeasonGames(games, seasonOf, seasons[k])) <= folds[k].trainEnd
    ensures folds[k].scoreStart == Earliest(SeasonGames(games, seasonOf, seasons[k + 1]))
    ensures folds[k].scoreEnd == Latest(SeasonGames(games, seasonOf, seasons[k + 1]))
  {
    assert InOrder(games, seasonOf, seasons[k], seasons[k + 1]);
    var train, score := SeasonGames(games, seasonOf, seasons[k]), SeasonGames(games, seasonOf, seasons[k + 1]);
    HalfIsWithin(Earliest(score) - Latest(train));
    EarliestOfAll(games, seasonOf, seasons[k]);
    SeasonMembers(games, seasonOf, seasons[k + 1]);
  }

  lemma BuiltFoldNames(games: seq<Game>, seasonOf: map<string, int>, seasons: seq<int>, n: nat, folds: seq<Fold>, k: nat)
    requires FoldsOf(games, seasonOf, seasons, n, folds) && k < n
    ensures folds[k].trainThrough == seasons[k] && folds[k].scored == seasons[k + 1]
  {
    assert InOrder(games, seasonOf, seasons[k], seasons[k + 1]);
  }

  /** Whatever is built passes every fold's own checks and the list's, so neither
      can raise. */
  lemma BuiltFoldsAreValid(games: seq<Game>, seasonOf: map<string, int>, seasons: seq<int>, folds: seq<Fold>)
    requires SeasonList(games, seasonOf, seasons) && |seasons| >= 2
    requires FoldsOf(games, seasonOf, seasons, |seasons| - 1, folds)
    ensures Expanding(folds) && forall k :: 0 <= k < |folds| ==> FoldOk(folds[k])
  {
    hide SeasonGames, Latest, Earliest, Half, InOrder;
    var n := |seasons| - 1;
    forall k | 0 <= k < n ensures FoldOk(folds[k]) && folds[k].trainStart == folds[0].trainStart {
      BuiltFoldOk(games, seasonOf, seasons, n, folds, k);
      BuiltFoldOk(games, seasonOf, seasons, n, folds, 0);
    }
    forall k | 1 <= k < n ensures Follows(folds[k - 1], folds[k]) {
      BuiltFoldsFollow(games, seasonOf, seasons, n, folds, k);
    }
    forall i, j | 0 <= i < j < n ensures !SameName(folds[i], folds[j]) {
      BuiltFoldNames(games, seasonOf, seasons, n, folds, i);
      BuiltFoldNames(games, seasonOf, seasons, n, folds, j);
    }
  }

  lemma BuiltFoldsFollow(games: seq<Game>, seasonOf: map<string, int>, seasons: seq<int>, n: nat, folds: seq<Fold>, k: nat)
    requires FoldsOf(games, seasonOf, seasons, n, folds) && 1 <= k < n
    ensures Follows(folds[k - 1], folds[k])
  {
    hide SeasonGames, Latest, Earliest, Half;
    BuiltFoldOk(games, seasonOf, seasons, n, folds, k - 1);
    BuiltFoldOk(games, seasonOf, seasons, n, folds, k);
    assert InOrder(games, seasonOf, seasons[k], seasons[k + 1]);
  }

  // ----- what each fold fits and scores

  function FitGames(games: seq<Game>, fold: Fold): seq<Game> {
    Filter(games, (g: Game) => g.asOf <= fold.trainEnd && g.availableAt <= fold.trainEnd)
  }

  predicate Scores(fold: Fold, g: Game) { fold.scoreStart <= g.asOf <= fold.scoreEnd }

  function ScoreGames(games: seq<Game>, fold: Fold): seq<Game> { Filter(games, (g: Game) => Scores(fold, g)) }

  /** Where a built fold lies: it trains from the first game of all to half-way
      between the last game of its training season and the first of its scored
      season, to the microsecond, ties going to an even distance; it selects no
      further; and it scores from that first game to the last of its season. */
  lemma BuiltFoldLies(games: seq<Game>, seasonOf: map<string, int>, seasons: seq<int>, n: nat, folds: seq<Fold>, k: nat)
    returns (last: Game, first: Game, final: Game)
    requires FoldsOf(games, seasonOf, seasons, n, folds) && k < n
    ensures last in games && last.id in seasonOf && seasonOf[last.id] == seasons[k]
    ensures forall g :: g in games && g.id in seasonOf && seasonOf[g.id] == seasons[k] ==> g.asOf <= last.asOf
    ensures first in games && first.id in seasonOf && final in games && final.id in seasonOf
    ensures seasonOf[first.id] == seasons[k + 1] && seasonOf[final.id] == seasons[k + 1]
    ensures forall g :: g in games && g.id in seasonOf && seasonOf[g.id] == seasons[k + 1] ==> first.asOf <= g.asOf <= final.asOf
    ensures last.asOf < first.asOf
    ensures folds[k].scoreStart == first.asOf && folds[k].scoreEnd == final.asOf
    ensures (exists g :: g in games && g.asOf == folds[k].trainStart) && forall g :: g in games ==> folds[k].trainStart <= g.asOf
    ensures folds[k].selectionEnd == folds[k].trainEnd
    ensures var gap, half := first.asOf - last.asOf, folds[k].trainEnd - last.asOf;
            2 * half == gap || (half % 2 == 0 && (2 * half == gap - 1 || 2 * half == gap + 1))
    ensures folds[k].trainThrough == seasons[k] && folds[k].scored == seasons[k + 1]
  {
    hide Half, Latest, Earliest;
    assert InOrder(games, seasonOf, seasons[k], seasons[k + 1]);
    var train, score := SeasonGames(games, seasonOf, seasons[k]), SeasonGames(games, seasonOf, seasons[k + 1]);
    FilterMembers(games, SeasonFilter(seasonOf, seasons[k]));
    FilterMembers(games, SeasonFilter(seasonOf, seasons[k + 1]));
    ExtremesMeaning(train);
    ExtremesMeaning(score);
    ExtremesMeaning(games);
    last :| last in train && last.asOf == Latest(train);
    first :| first in score && first.asOf == Earliest(score);
    final :| final in score && final.asOf == Latest(score);
    HalfIsEven(Earliest(score) - Latest(train));
  }

  lemma HalfIsEven(d: nat)
    ensures 2 * Half(d) == d || (Half(d) % 2 == 0 && (2 * Half(d) == d - 1 || 2 * Half(d) == d + 1))
  {
  }

  /** A game with a season is fitted exactly when its season is trained through and
      it was known by the end of the training. */
  lemma FittedExactly(games: seq<Game>, seasonOf: map<string, int>, seasons: seq<int>, folds: seq<Fold>, g: Game, k: nat)
    requires SeasonList(games, seasonOf, seasons) && |seasons| >= 2
    requires FoldsOf(games, seasonOf, seasons, |seasons| - 1, folds)
    requires g in games && g.id in seasonOf && k < |folds|
    ensures g in FitGames(games, folds[k]) <==> seasonOf[g.id] <= folds[k].trainThrough && g.availableAt <= folds[k].trainEnd
  {
    hide Half, Latest, Earliest, SeasonGames, InOrder;
    var n, s := |seasons| - 1, seasonOf[g.id];
    FilterMembers(games, (x: Game) => x.asOf <= folds[k].trainEnd && x.availableAt <= folds[k].trainEnd);
    SeasonMembers(games, seasonOf, s);
    assert g in SeasonGames(games, seasonOf, s);
    var i :| 0 <= i < |seasons| && seasons[i] == s;
    BuiltFoldOk(games, seasonOf, seasons, n, folds, k);
    BuiltFoldNames(games, seasonOf, seasons, n, folds, k);
    EndsApart(games, seasonOf, seasons, n, folds, k, i);
    assert i < k ==> AtMost(seasons[i], seasons[k]);
    assert k < i ==> AtMost(seasons[k], seasons[i]);
  }

  /** The training of a fold ends after every season up to its own and before every
      later one. */
  lemma EndsApart(games: seq<Game>, seasonOf: map<string, int>, seasons: seq<int>, n: nat, folds: seq<Fold>, k: nat, i: nat)
    requires FoldsOf(games, seasonOf, seasons, n, folds) && k < n && i <= n
    ensures SeasonGames(games, seasonOf, seasons[i]) != []
    ensures i <= k ==> Latest(SeasonGames(games, seasonOf, seasons[i])) <= folds[k].trainEnd
    ensures i > k ==> folds[k].trainEnd < Earliest(SeasonGames(games, seasonOf, seasons[i]))
  {
    hide Half, Latest, Earliest, SeasonGames;
    BuiltFoldOk(games, seasonOf, seasons, n, folds, k);
    if i < k { SeasonsApart(games, seasonOf, seasons, n, folds, i, k); SeasonMembers(games, seasonOf, seasons[k]); }
    if i > k + 1 { SeasonsApart(games, seasonOf, seasons, n, folds, k + 1, i); SeasonMembers(games, seasonOf, seasons[k + 1]); }
  }

  /** For any well-formed fold, everything it fits was played and known before
      anything it scores. */
  lemma FitBeforeScore(games: seq<Game>, fold: Fold, g: Game, h: Game)
    requires FoldOk(fold) && g in FitGames(games, fold) && h in ScoreGames(games, fold)
    ensures g.asOf < h.asOf && g.availableAt < h.asOf
  {
    FilterMembers(games, (x: Game) => x.asOf <= fold.trainEnd && x.availableAt <= fold.trainEnd);
    FilterMembers(games, (x: Game) => Scores(fold, x));
  }

  /** A game with a season is scored by exactly one fold, the one named after its
      season, and by none in the first season. */
  lemma ScoredExactlyOnce(games: seq<Game>, seasonOf: map<string, int>, seasons: seq<int>, folds: seq<Fold>, g: Game, k: nat)
    requires SeasonList(games, seasonOf, seasons) && |seasons| >= 2
    requires FoldsOf(games, seasonOf, seasons, |seasons| - 1, folds)
    requires g in games && g.id in seasonOf && k < |folds|
    ensures g in ScoreGames(games, folds[k]) <==> folds[k].scored == seasonOf[g.id]
    ensures seasonOf[g.id] in seasons
    ensures seasonOf[g.id] != seasons[0] ==> exists j :: 0 <= j < |folds| && folds[j].scored == seasonOf[g.id]
    ensures seasonOf[g.id] == seasons[0] ==> folds[k].scored != seasonOf[g.id]
    ensures forall j :: 0 <= j < |folds| && folds[j].scored == folds[k].scored ==> j == k
  {
    hide Latest, Earliest, Half;
    var n, s := |seasons| - 1, seasonOf[g.id];
    FilterMembers(games, (x: Game) => Scores(folds[k], x));
    SeasonMembers(games, seasonOf, s);
    assert g in SeasonGames(games, seasonOf, s);
    var i :| 0 <= i < |seasons| && seasons[i] == s;
    BuiltFoldOk(games, seasonOf, seasons, n, folds, k);
    assert folds[k].scored == seasons[k + 1];
    if i < k + 1 {
      SeasonsApart(games, seasonOf, seasons, n, folds, i, k + 1);
    } else if k + 1 < i {
      SeasonsApart(games, seasonOf, seasons, n, folds, k + 1, i);
    }
    if i > 0 { assert folds[i - 1].scored == seasons[i]; }
    forall j | 0 <= j < |folds| && folds[j].scored == folds[k].scored ensures j == k {
      BuiltFoldNames(games, seasonOf, seasons, n, folds, j);
    }
  }

  lemma FitMembers(games: seq<Game>, fold: Fold)
    ensures forall g :: g in FitGames(games, fold) <==> g in games && g.asOf <= fold.trainEnd && g.availableAt <= fold.trainEnd
  {
    FilterMembers(games, (x: Game) => x.asOf <= fold.trainEnd && x.availableAt <= fold.trainEnd);
  }

  /** No fold fits a game of the season it scores. */
  lemma ScoredSeasonNotFitted(games: seq<Game>, seasonOf: map<string, int>, seasons: seq<int>, folds: seq<Fold>, g: Game, k: nat)
    requires |seasons| >= 2 && FoldsOf(games, seasonOf, seasons, |seasons| - 1, folds) && k < |folds|
    requires g in games && g.id in seasonOf && seasonOf[g.id] == folds[k].scored
    ensures g !in FitGames(games, folds[k])
  {
    hide Latest, Earliest, Half, FitGames;
    FitMembers(games, folds[k]);
    BuiltFoldOk(games, seasonOf, seasons, |seasons| - 1, folds, k);
    BuiltFoldNames(games, seasonOf, seasons, |seasons| - 1, folds, k);
    SeasonMembers(games, seasonOf, seasons[k + 1]);
    assert g in SeasonGames(games, seasonOf, seasons[k + 1]);
  }

  /** An identifier can be both fitted and scored by a built fold only if it has
      no season: the overlap refusal can come from nothing else. */
  lemma OverlapIsUnlabelled(games: seq<Game>, seasonOf: map<string, int>, seasons: seq<int>, folds: seq<Fold>, k: nat, g: Game, h: Game)
    requires SeasonList(games, seasonOf, seasons) && |seasons| >= 2
    requires FoldsOf(games, seasonOf, seasons, |seasons| - 1, folds) && k < |folds|
    requires g in FitGames(games, folds[k]) && h in ScoreGames(games, folds[k]) && g.id == h.id
    ensures g.id !in seasonOf
  {
    hide FoldsOf, SeasonList, FitGames;
    if g.id in seasonOf {
      FilterMembers(games, (x: Game) => Scores(folds[k], x));
      ScoredExactlyOnce(games, seasonOf, seasons, folds, h, k);
      FitMembers(games, folds[k]);
      ScoredSeasonNotFitted(games, seasonOf, seasons, folds, g, k);
    }
  }

  datatype Plan = Planned(fits: seq<seq<Game>>, scores: seq<seq<Game>>) | InvalidFolds | NothingToFit(at: nat)
                | NothingToScore(at: nat) | Overlap(at: nat)

  predicate Overlaps(fit: seq<Game>, score: seq<Game>) { exists g, h :: g in fit && h in score && g.id == h.id }

  predicate Usable(games: seq<Game>, fold: Fold) {
    FitGames(games, fold) != [] && ScoreGames(games, fold) != [] && !Overlaps(FitGames(games, fold), ScoreGames(games, fold))
  }

  /** A fold is usable exactly when some game was played and known by its training
      end, some game lies in its score window, and no identifier is one of both. */
  lemma UsableExactly(games: seq<Game>, fold: Fold)
    ensures Usable(games, fold) <==>
              && (exists g :: g in games && g.asOf <= fold.trainEnd && g.availableAt <= fold.trainEnd)
              && (exists h :: h in games && fold.scoreStart <= h.asOf <= fold.scoreEnd)
              && forall g :: g in games && g.asOf <= fold.trainEnd && g.availableAt <= fold.trainEnd ==>
                   forall h :: h in games && fold.scoreStart <= h.asOf <= fold.scoreEnd ==> g.id != h.id
  {
    hide FitGames, ScoreGames;
    PlannedGames(games, fold);
    if FitGames(games, fold) != [] { assert FitGames(games, fold)[0] in FitGames(games, fold); }
    if ScoreGames(games, fold) != [] { assert ScoreGames(games, fold)[0] in ScoreGames(games, fold); }
  }

  /** The walk over the folds, up to the fitting: select, check, refuse. */
  lemma PlannedGames(games: seq<Game>, fold: Fold)
    ensures forall g :: g in FitGames(games, fold) <==> g in games && g.asOf <= fold.trainEnd && g.availableAt <= fold.trainEnd
    ensures forall g :: g in ScoreGames(games, fold) <==> g in games && fold.scoreStart <= g.asOf <= fold.scoreEnd
  {
    FilterMembers(games, (x: Game) => x.asOf <= fold.trainEnd && x.availableAt <= fold.trainEnd);
    FilterMembers(games, (x: Game) => Scores(fold, x));
  }

  method PlanWalkForward(games: seq<Game>, folds: seq<Fold>) returns (plan: Plan)
    ensures plan.InvalidFolds? <==> !Expanding(folds)
    ensures plan.Planned? <==> Expanding(folds) && forall k :: 0 <= k < |folds| ==> Usable(games, folds[k])
    ensures plan.Planned? ==> |plan.fits| == |plan.scores| == |folds|
    ensures plan.Planned? ==> forall k :: 0 <= k < |folds| ==> plan.fits[k] == FitGames(games, folds[k]) && plan.scores[k] == ScoreGames(games, folds[k])
    ensures plan.Planned? ==> forall k, g :: 0 <= k < |folds| ==>
              && (g in plan.fits[k] <==> g in games && g.asOf <= folds[k].trainEnd && g.availableAt <= folds[k].trainEnd)
              && (g in plan.scores[k] <==> g in games && folds[k].scoreStart <= g.asOf <= folds[k].scoreEnd)
    ensures plan.NothingToFit? || plan.NothingToScore? || plan.Overlap? ==> forall j :: 0 <= j < plan.at < |folds| ==> Usable(games, folds[j])
    ensures plan.NothingToFit? ==> plan.at < |folds| && FitGames(games, folds[plan.at]) == []
    ensures plan.NothingToScore? ==> plan.at < |folds| && ScoreGames(games, folds[plan.at]) == []
    ensures plan.Overlap? ==> plan.at < |folds| && Overlaps(FitGames(games, folds[plan.at]), ScoreGames(games, folds[plan.at]))
  {
    hide Expanding, FitGames, ScoreGames;
    var ok := ValidateExpandingFolds(folds);
    if !ok { return InvalidFolds; }
    var fits: seq<seq<Game>>, scores: seq<seq<Game>> := [], [];
    var k := 0;
    while k < |folds|
      invariant 0 <= k <= |folds| && |fits| == |scores| == k
      invariant forall j :: 0 <= j < k ==> Usable(games, folds[j])
      invariant forall j :: 0 <= j < k ==> fits[j] == FitGames(games, folds[j]) && scores[j] == ScoreGames(games, folds[j])
    {
      var fit, score := FitGames(games, folds[k]), ScoreGames(games, folds[k]);
      if fit == [] { return NothingToFit(k); }
      if score == [] { return NothingToScore(k); }
      var shared := (set g | g in fit :: g.id) * (set h | h in score :: h.id);
      SharedIds(fit, score);
      if shared != {} { return Overlap(k); }
      fits, scores := fits + [fit], scores + [score];
      k := k + 1;
    }
    plan := Planned(fits, scores);
    forall k | 0 <= k < |folds|
      ensures forall g :: g in fits[k] <==> g in games && g.asOf <= folds[k].trainEnd && g.availableAt <= folds[k].trainEnd
      ensures forall g :: g in scores[k] <==> g in games && folds[k].scoreStart <= g.asOf <= folds[k].scoreEnd
    {
      PlannedGames(games, folds[k]);
    }
  }

  lemma SharedIds(fit: seq<Game>, score: seq<Game>)
    ensures (set g | g in fit :: g.id) * (set h | h in score :: h.id) != {} <==> Overlaps(fit, score)
  {
    var shared := (set g | g in fit :: g.id) * (set h | h in score :: h.id);
    if shared != {} {
      var id: string :| id in shared;
      var g :| g in fit && g.id == id;
      var h :| h in score && h.id == id;
    }
    if Overlaps(fit, score) {
      var g, h :| g in fit && h in score && g.id == h.id;
      assert g.id in shared;
    }
  }

  /** On built folds, every fold has games to score, and if every game has a
      season no fold is ever refused for an overlap. */
  lemma BuiltFoldsAreScored(games: seq<Game>, seasonOf: map<string, int>, seasons: seq<int>, folds: seq<Fold>, k: nat)
    requires SeasonList(games, seasonOf, seasons) && |seasons| >= 2
    requires FoldsOf(games, seasonOf, seasons, |seasons| - 1, folds) && k < |folds|
    ensures ScoreGames(games, folds[k]) != []
    ensures (forall g :: g in games ==> g.id in seasonOf) ==> !Overlaps(FitGames(games, folds[k]), ScoreGames(games, folds[k]))
  {
    hide Latest, Earliest, Half, FitGames;
    var s := seasons[k + 1];
    assert s in seasons;
    var mine := SeasonGames(games, seasonOf, s);
    SeasonMembers(games, seasonOf, s);
    var g := mine[0];
    assert g in mine;
    ScoredExactlyOnce(games, seasonOf, seasons, folds, g, k);
    assert folds[k].scored == s;
    if (forall x :: x in games ==> x.id in seasonOf) && Overlaps(FitGames(games, folds[k]), ScoreGames(games, folds[k])) {
      var x, y :| x in FitGames(games, folds[k]) && y in ScoreGames(games, folds[k]) && x.id == y.id;
      OverlapIsUnlabelled(games, seasonOf, seasons, folds, k, x, y);
      FilterMembers(games, (z: Game) => Scores(folds[k], z));
      assert false;
    }
  }
}
