/** What prequential calibration computes, said without groups, pending tables or
    a loop over times: the rows a level is fitted on, the earlier rows its methods
    are judged on, and the first level with enough of both. */
module OofReference {
  import opened Options
  import opened StableSorting
  import opened OofSpec
  import opened OofTheorems

  // ----- the reference

  /** The rows a level pools with the row to be calibrated. */
  function Own(level: string, r: Row): Row -> bool {
    (x: Row) =>
      if level == "prop_family" then x.prop == r.prop
      else if level == "position" then x.position == r.position
      else true
  }

  function OwnValue(level: string, r: Row): string {
    if level == "prop_family" then r.prop
    else if level == "position" then (if r.position.Some? then r.position.value else "")
    else "GLOBAL"
  }

  /** A row without a position has no position level. */
  function Applies(r: Row): string -> bool {
    (level: string) => level == "position" ==> r.position != None && r.position != Some("")
  }

  predicate KnownLevels(order: seq<string>) {
    forall level :: level in order ==> level == "prop_family" || level == "position" || level == "global"
  }

  function KnownOf(level: string, r: Row, t: int): Row -> bool {
    (x: Row) => Own(level, r)(x) && x.availableAt < t
  }

  /** The pooled rows whose outcomes were known before `t`. */
  function Known(rows: seq<Row>, level: string, r: Row, t: int): seq<Row> { Filter(rows, KnownOf(level, r, t)) }

  function Ps(xs: seq<Row>): seq<real> { seq(|xs|, i requires 0 <= i < |xs| => xs[i].p) }

  function Ys(xs: seq<Row>): seq<int> { seq(|xs|, i requires 0 <= i < |xs| => xs[i].y) }

  /** At least so many rows, and not all of one outcome. */
  predicate Enough(xs: seq<Row>, least: int) {
    |xs| >= least && exists x, z :: x in xs && z in xs && x.y != z.y
  }

  /** A method fitted on what was known before `t`, applied to one probability. */
  function Prediction(rows: seq<Row>, sci: Science, level: string, r: Row, m: string, t: int, p: real): real {
    sci.calibrate(m, Ps(Known(rows, level, r, t)), Ys(Known(rows, level, r, t)), p)
  }

  function ByAsOf(): (Row, Row) -> bool { (a: Row, b: Row) => a.asOf <= b.asOf }

  /** Pooled, predicted before `t` from enough known rows, and known before `t`. */
  function JudgedBefore(rows: seq<Row>, cfg: Config, level: string, r: Row, t: int): Row -> bool {
    (x: Row) => Own(level, r)(x) && x.asOf < t && Enough(Known(rows, level, r, x.asOf), cfg.minSamples) && x.availableAt < t
  }

  /** The rows the methods are judged on, in order of their as-of times. */
  function Judged(rows: seq<Row>, cfg: Config, level: string, r: Row): seq<Row> {
    Filter(StableSort(rows, ByAsOf()), JudgedBefore(rows, cfg, level, r, r.asOf))
  }

  /** What a method predicted for those rows, each at its own time. */
  function Predicted(rows: seq<Row>, sci: Science, level: string, r: Row, m: string, xs: seq<Row>): seq<real> {
    seq(|xs|, i requires 0 <= i < |xs| => Prediction(rows, sci, level, r, m, xs[i].asOf, xs[i].p))
  }

  function MethodLoss(rows: seq<Row>, cfg: Config, sci: Science, level: string, r: Row, m: string): real {
    var judged := Judged(rows, cfg, level, r);
    sci.logLoss(Ys(judged), Predicted(rows, sci, level, r, m, judged))
  }

  /** The earliest method of least loss. */
  ghost predicate Best(rows: seq<Row>, cfg: Config, sci: Science, level: string, r: Row, m: nat) {
    && m < |cfg.methods|
    && forall k :: 0 <= k < |cfg.methods| ==>
         var mine, other := MethodLoss(rows, cfg, sci, level, r, cfg.methods[m]), MethodLoss(rows, cfg, sci, level, r, cfg.methods[k]);
         if k < m then mine < other else mine <= other
  }

  predicate Usable(rows: seq<Row>, cfg: Config, level: string, r: Row) {
    && Enough(Known(rows, level, r, r.asOf), cfg.minSamples)
    && Enough(Judged(rows, cfg, level, r), cfg.minSamples)
    && cfg.methods != []
  }

  /** The greatest available time of some rows. */
  predicate LastKnown(xs: seq<Row>, t: int) {
    (exists x :: x in xs && x.availableAt == t) && forall x :: x in xs ==> x.availableAt <= t
  }

  /** `result` is what the level at `depth` makes of the row. */
  ghost predicate CalibratedBy(rows: seq<Row>, cfg: Config, sci: Science, level: string, r: Row, depth: nat, result: Calibrated) {
    var known, judged := Known(rows, level, r, r.asOf), Judged(rows, cfg, level, r);
    && result.level == level && result.group == OwnValue(level, r) && result.depth == depth
    && result.fitRows == |known| && result.selectionRows == |judged|
    && result.fitLatest.Some? && LastKnown(known, result.fitLatest.value)
    && result.selectionLatest.Some? && LastKnown(judged, result.selectionLatest.value)
    && exists m: nat :: Best(rows, cfg, sci, level, r, m)
         && result.methodName == cfg.methods[m]
         && result.loss == Some(MethodLoss(rows, cfg, sci, level, r, cfg.methods[m]))
         && result.p == Prediction(rows, sci, level, r, cfg.methods[m], r.asOf, r.p)
  }

  /** The first usable level decides; without one the row is left as it is. */
  ghost predicate Reference(rows: seq<Row>, cfg: Config, sci: Science, r: Row, result: Calibrated) {
    var levels := Filter(cfg.fallbackOrder, Applies(r));
    if exists d :: 0 <= d < |levels| && Usable(rows, cfg, levels[d], r) then
      exists d: nat :: d < |levels| && Usable(rows, cfg, levels[d], r) && (forall k :: 0 <= k < d ==> !Usable(rows, cfg, levels[k], r))
                    && CalibratedBy(rows, cfg, sci, levels[d], r, d, result)
    else result == Calibrated(r.p, "identity", "IDENTITY", "identity", -1, 0, 0, None, None, None)
  }

  // ----- levels are the groups

  function GroupOf(level: string, r: Row): CalibrationGroup { CalibrationGroup(level, OwnValue(level, r)) }

  function GroupsOf(levels: seq<string>, r: Row): seq<CalibrationGroup> {
    seq(|levels|, i requires 0 <= i < |levels| => GroupOf(levels[i], r))
  }

  lemma {:induction false} CandidatesAre(r: Row, order: seq<string>)
    requires KnownLevels(order)
    ensures Candidates(r.prop, r.position, order) == GroupsOf(Filter(order, Applies(r)), r)
  {
    if order != [] {
      var n := |order| - 1;
      assert order[n] in order;
      assert forall level :: level in order[..n] ==> level in order;
      CandidatesAre(r, order[..n]);
      FilterStep(order, n, Applies(r));
      assert order[..n + 1] == order;
    }
  }

  /** A level the configuration names, and that applies to the row. */
  predicate LevelFor(cfg: Config, level: string, r: Row) {
    KnownLevels(cfg.fallbackOrder) && level in cfg.fallbackOrder && Applies(r)(level)
  }

  lemma OwnIsInGroup(cfg: Config, level: string, r: Row, x: Row)
    requires LevelFor(cfg, level, r)
    ensures InGroup(x, GroupOf(level, r)) <==> Own(level, r)(x)
  {
  }

  /** The group of a level is a candidate of every row it pools. */
  lemma OwnIsCandidate(cfg: Config, level: string, r: Row, x: Row)
    requires LevelFor(cfg, level, r) && Own(level, r)(x)
    ensures GroupOf(level, r) in RowCandidates(x, cfg)
  {
    CandidatesAre(x, cfg.fallbackOrder);
    var levels := Filter(cfg.fallbackOrder, Applies(x));
    FilterMembers(cfg.fallbackOrder, Applies(x));
    assert level in levels;
    var i :| 0 <= i < |levels| && levels[i] == level;
    assert GroupsOf(levels, x)[i] == GroupOf(level, r);
  }

  lemma OwnIsNeeded(rows: seq<Row>, cfg: Config, level: string, r: Row, x: Row)
    requires LevelFor(cfg, level, r) && x in rows && Own(level, r)(x)
    ensures Needed(rows, cfg, x.asOf, GroupOf(level, r))
  {
    OwnIsCandidate(cfg, level, r, x);
    var i :| 0 <= i < |rows| && rows[i] == x;
  }

  // ----- fits

  lemma HistoryIsKnown(rows: seq<Row>, cfg: Config, level: string, r: Row, t: int)
    requires LevelFor(cfg, level, r)
    ensures var h, known := History(rows, t, GroupOf(level, r)), Known(rows, level, r, t);
            && |h| == |known| && Probabilities(rows, h) == Ps(known) && Outcomes(rows, h) == Ys(known)
            && forall i :: 0 <= i < |h| ==> At(rows, h[i]) == known[i]
  {
    hide Own, InGroup, At;
    var g := GroupOf(level, r);
    var h := History(rows, t, g);
    PickIsFilter(rows, |rows|, KnownBefore(t), g);
    assert rows[..|rows|] == rows;
    forall x ensures WantedBy(KnownBefore(t), g)(x) == KnownOf(level, r, t)(x) { OwnIsInGroup(cfg, level, r, x); }
    FilterAgree(rows, WantedBy(KnownBefore(t), g), KnownOf(level, r, t));
    assert Picked(rows, h) == Known(rows, level, r, t);
    assert forall i :: 0 <= i < |h| ==> Picked(rows, h)[i] == At(rows, h[i]);
  }

  lemma BothOutcomes(xs: seq<Row>)
    ensures BothClasses(Ys(xs)) <==> exists x, z :: x in xs && z in xs && x.y != z.y
  {
    if BothClasses(Ys(xs)) {
      var i, j :| 0 <= i < |Ys(xs)| && 0 <= j < |Ys(xs)| && Ys(xs)[i] != Ys(xs)[j];
      assert xs[i] in xs && xs[j] in xs;
    }
    if x, z :| x in xs && z in xs && x.y != z.y {
      var i :| 0 <= i < |xs| && xs[i] == x;
      var j :| 0 <= j < |xs| && xs[j] == z;
      assert Ys(xs)[i] != Ys(xs)[j];
    }
  }

  lemma ReadyIsEnough(rows: seq<Row>, cfg: Config, level: string, r: Row, t: int)
    requires LevelFor(cfg, level, r)
    ensures Ready(rows, cfg, t, GroupOf(level, r)) <==> Enough(Known(rows, level, r, t), cfg.minSamples)
  {
    hide Own, InGroup, At, Pick, LevelFor;
    HistoryIsKnown(rows, cfg, level, r, t);
    BothOutcomes(Known(rows, level, r, t));
  }

  lemma TransformedIsPrediction(rows: seq<Row>, cfg: Config, sci: Science, level: string, r: Row, m: string, t: int, p: real)
    requires LevelFor(cfg, level, r)
    ensures Transformed(rows, sci, t, GroupOf(level, r), m, p) == Prediction(rows, sci, level, r, m, t, p)
  {
    hide Own, InGroup, At, Pick, LevelFor, Known;
    HistoryIsKnown(rows, cfg, level, r, t);
  }

  // ----- records

  /** The record of a row's candidate predictions. */
  function RecordOf(rows: seq<Row>, cfg: Config, sci: Science, level: string, r: Row, x: Row): Pending {
    Pending(x.availableAt, x.y,
            seq(|cfg.methods|, m requires 0 <= m < |cfg.methods| => Prediction(rows, sci, level, r, cfg.methods[m], x.asOf, x.p)))
  }

  function RecordsOf(rows: seq<Row>, cfg: Config, sci: Science, level: string, r: Row, xs: seq<Row>): seq<Pending> {
    seq(|xs|, i requires 0 <= i < |xs| => RecordOf(rows, cfg, sci, level, r, xs[i]))
  }

  lemma RecordIsOf(rows: seq<Row>, cfg: Config, sci: Science, level: string, r: Row, i: nat)
    requires LevelFor(cfg, level, r) && i < |rows|
    ensures Record(rows, cfg, sci, rows[i].asOf, GroupOf(level, r), i) == RecordOf(rows, cfg, sci, level, r, rows[i])
  {
    hide Transformed, Prediction, LevelFor;
    forall m | 0 <= m < |cfg.methods|
      ensures Transformed(rows, sci, rows[i].asOf, GroupOf(level, r), cfg.methods[m], rows[i].p)
              == Prediction(rows, sci, level, r, cfg.methods[m], rows[i].asOf, rows[i].p)
    {
      TransformedIsPrediction(rows, cfg, sci, level, r, cfg.methods[m], rows[i].asOf, rows[i].p);
    }
  }

  /** Pooled and predicted, from enough known rows, at one of some times. */
  function FittedAt(rows: seq<Row>, cfg: Config, level: string, r: Row, times: seq<int>): Row -> bool {
    (x: Row) => Own(level, r)(x) && x.asOf in times && Enough(Known(rows, level, r, x.asOf), cfg.minSamples)
  }

  /** One time's new records are those of its pooled rows, if it had enough to fit. */
  lemma NewPendingIs(rows: seq<Row>, cfg: Config, sci: Science, level: string, r: Row, s: int)
    requires LevelFor(cfg, level, r)
    ensures NewPending(rows, cfg, sci, s, GroupOf(level, r))
            == RecordsOf(rows, cfg, sci, level, r, Filter(rows, FittedAt(rows, cfg, level, r, [s])))
  {
    hide Own, InGroup, Pick, LevelFor, Known, Enough, Needed, Ready, Record, RecordOf;
    var g := GroupOf(level, r);
    ReadyIsEnough(rows, cfg, level, r, s);
    var fitted := FittedAt(rows, cfg, level, r, [s]);
    if Ready(rows, cfg, s, g) {
      CurrentIs(rows, cfg, sci, level, r, s);
      if Filter(rows, fitted) != [] {
        FilterMembers(rows, fitted);
        assert Filter(rows, fitted)[0] in Filter(rows, fitted);
        OwnIsNeeded(rows, cfg, level, r, Filter(rows, fitted)[0]);
      }
    } else {
      FilterNone(rows, fitted);
    }
  }

  lemma CurrentIs(rows: seq<Row>, cfg: Config, sci: Science, level: string, r: Row, s: int)
    requires LevelFor(cfg, level, r) && Enough(Known(rows, level, r, s), cfg.minSamples)
    ensures var c, xs := Current(rows, s, GroupOf(level, r)), Filter(rows, FittedAt(rows, cfg, level, r, [s]));
            && |c| == |xs|
            && Records(rows, cfg, sci, s, GroupOf(level, r), c) == RecordsOf(rows, cfg, sci, level, r, xs)
  {
    hide Own, InGroup, LevelFor, Known, Enough, Record, RecordOf;
    var g, fitted := GroupOf(level, r), FittedAt(rows, cfg, level, r, [s]);
    var c := Current(rows, s, g);
    PickIsFilter(rows, |rows|, PredictedAt(s), g);
    PickMeaning(rows, |rows|, PredictedAt(s), g);
    assert rows[..|rows|] == rows;
    forall x ensures WantedBy(PredictedAt(s), g)(x) == fitted(x) { OwnIsInGroup(cfg, level, r, x); }
    FilterAgree(rows, WantedBy(PredictedAt(s), g), fitted);
    assert Picked(rows, c) == Filter(rows, fitted);
    forall i | 0 <= i < |c|
      ensures Record(rows, cfg, sci, s, g, c[i]) == RecordOf(rows, cfg, sci, level, r, Filter(rows, fitted)[i])
    {
      assert c[i] in c;
      assert Picked(rows, c)[i] == rows[c[i]];
      RecordIsOf(rows, cfg, sci, level, r, c[i]);
    }
  }

  // ----- the pending table is the rows in order of their times

  lemma ByAsOfIsPreorder()
    ensures TotalPreorder(ByAsOf())
  {
  }

  /** Rows of one time are sorted as they stand. */
  lemma SameTimeInSorted(rows: seq<Row>, p: Row -> bool, s: int)
    requires forall x :: p(x) ==> x.asOf == s
    ensures Filter(StableSort(rows, ByAsOf()), p) == Filter(rows, p)
  {
    ByAsOfIsPreorder();
    FilterSort(rows, ByAsOf(), p);
    FilterMembers(rows, p);
    forall i, j | 0 <= i < j < |Filter(rows, p)| ensures ByAsOf()(Filter(rows, p)[i], Filter(rows, p)[j]) {
      assert Filter(rows, p)[i] in Filter(rows, p) && Filter(rows, p)[j] in Filter(rows, p);
    }
    SortOfSorted(Filter(rows, p), ByAsOf());
  }

  /** Where nothing that `q` holds of stands before something `p` holds of. */
  lemma {:induction false} FilterSplit(s: seq<Row>, p: Row -> bool, q: Row -> bool, either: Row -> bool)
    requires forall x :: either(x) <==> p(x) || q(x)
    requires forall i, j :: 0 <= i <= j < |s| && q(s[i]) ==> !p(s[j])
    ensures Filter(s, either) == Filter(s, p) + Filter(s, q)
  {
    if s != [] {
      FilterSplit(s[1..], p, q, either);
      if q(s[0]) {
        assert forall x :: x in s[1..] ==> !p(x);
        FilterNone(s[1..], p);
      }
    }
  }

  lemma {:induction false} PendingIs(rows: seq<Row>, cfg: Config, sci: Science, level: string, r: Row, times: seq<int>)
    requires LevelFor(cfg, level, r) && forall i, j :: 0 <= i < j < |times| ==> times[i] < times[j]
    ensures PendingAfter(rows, cfg, sci, times, GroupOf(level, r))
            == RecordsOf(rows, cfg, sci, level, r, Filter(StableSort(rows, ByAsOf()), FittedAt(rows, cfg, level, r, times)))
  {
    hide LevelFor, NewPending, Enough, Known, Own, RecordOf;
    var sorted := StableSort(rows, ByAsOf());
    if times == [] {
      FilterNone(sorted, FittedAt(rows, cfg, level, r, []));
    } else {
      var n := |times| - 1;
      var s, before := times[n], times[..n];
      PendingIs(rows, cfg, sci, level, r, before);
      NewPendingIs(rows, cfg, sci, level, r, s);
      SameTimeInSorted(rows, FittedAt(rows, cfg, level, r, [s]), s);
      TimesSplit(rows, cfg, level, r, times);
    }
  }

  lemma TimesSplit(rows: seq<Row>, cfg: Config, level: string, r: Row, times: seq<int>)
    requires times != [] && forall i, j :: 0 <= i < j < |times| ==> times[i] < times[j]
    ensures var sorted, n := StableSort(rows, ByAsOf()), |times| - 1;
            Filter(sorted, FittedAt(rows, cfg, level, r, times))
            == Filter(sorted, FittedAt(rows, cfg, level, r, times[..n])) + Filter(sorted, FittedAt(rows, cfg, level, r, [times[n]]))
  {
    hide Enough, Known, Own;
    var sorted, n := StableSort(rows, ByAsOf()), |times| - 1;
    var s, before := times[n], times[..n];
    var p, q, either := FittedAt(rows, cfg, level, r, before), FittedAt(rows, cfg, level, r, [s]), FittedAt(rows, cfg, level, r, times);
    ByAsOfIsPreorder();
    InsertAllSorted(rows, [], ByAsOf());
    assert times == before + [s];
    forall i, j | 0 <= i <= j < |sorted| && q(sorted[i]) ensures !p(sorted[j]) {
      assert i == j || ByAsOf()(sorted[i], sorted[j]);
    }
    FilterSplit(sorted, p, q, either);
  }

  // ----- what selection at the row's time scores

  function AvailableBy(t: int): Row -> bool { (x: Row) => x.availableAt < t }

  lemma {:induction false} EligibleIs(rows: seq<Row>, cfg: Config, sci: Science, level: string, r: Row, xs: seq<Row>, t: int)
    ensures Eligible(RecordsOf(rows, cfg, sci, level, r, xs), t)
            == RecordsOf(rows, cfg, sci, level, r, Filter(xs, AvailableBy(t)))
  {
    if xs != [] {
      var n := |xs| - 1;
      EligibleIs(rows, cfg, sci, level, r, xs[..n], t);
      FilterStep(xs, n, AvailableBy(t));
      assert xs[..n + 1] == xs;
      assert RecordsOf(rows, cfg, sci, level, r, xs)[..n] == RecordsOf(rows, cfg, sci, level, r, xs[..n]);
    }
  }

  lemma {:induction false} FilterBoth(s: seq<Row>, p: Row -> bool, q: Row -> bool, both: Row -> bool)
    requires forall x :: x in s ==> (both(x) <==> p(x) && q(x))
    ensures Filter(Filter(s, p), q) == Filter(s, both)
  {
    if s != [] {
      FilterBoth(s[1..], p, q, both);
      if p(s[0]) { assert Filter(s, p)[1..] == Filter(s[1..], p); }
    }
  }

  /** Selection scores exactly the judged rows, in that order. */
  lemma EligibleAreJudged(rows: seq<Row>, cfg: Config, sci: Science, level: string, r: Row)
    requires LevelFor(cfg, level, r)
    ensures Eligible(PendingAfter(rows, cfg, sci, Before(Times(rows), r.asOf), GroupOf(level, r)), r.asOf)
            == RecordsOf(rows, cfg, sci, level, r, Judged(rows, cfg, level, r))
  {
    hide LevelFor, Enough, Known, Own, Times, Before, PendingAfter, Eligible, RecordsOf;
    var t, times := r.asOf, Before(Times(rows), r.asOf);
    var sorted := StableSort(rows, ByAsOf());
    TimesMeaning(rows);
    BeforeMeaning(Times(rows), t);
    PendingIs(rows, cfg, sci, level, r, times);
    EligibleIs(rows, cfg, sci, level, r, Filter(sorted, FittedAt(rows, cfg, level, r, times)), t);
    ByAsOfIsPreorder();
    SortMembers(rows, ByAsOf());
    forall x | x in sorted
      ensures JudgedBefore(rows, cfg, level, r, t)(x) <==> FittedAt(rows, cfg, level, r, times)(x) && AvailableBy(t)(x)
    {
      assert x in rows;
      assert x.asOf in Times(rows);
    }
    FilterBoth(sorted, FittedAt(rows, cfg, level, r, times), AvailableBy(t), JudgedBefore(rows, cfg, level, r, t));
  }

  lemma JudgedLoss(rows: seq<Row>, cfg: Config, sci: Science, level: string, r: Row, m: nat)
    requires m < |cfg.methods|
    ensures Loss(sci, RecordsOf(rows, cfg, sci, level, r, Judged(rows, cfg, level, r)), m)
            == MethodLoss(rows, cfg, sci, level, r, cfg.methods[m])
  {
    hide Judged, Prediction;
    var judged := Judged(rows, cfg, level, r);
    var e := RecordsOf(rows, cfg, sci, level, r, judged);
    assert PendingY(e) == Ys(judged);
    assert PendingP(e, m) == Predicted(rows, sci, level, r, cfg.methods[m], judged);
  }

  lemma QualifiesIsUsable(rows: seq<Row>, cfg: Config, sci: Science, level: string, r: Row)
    requires LevelFor(cfg, level, r) && r in rows
    ensures Qualifies(rows, cfg, sci, Before(Times(rows), r.asOf), r.asOf, GroupOf(level, r)) <==> Usable(rows, cfg, level, r)
  {
    hide LevelFor, Known, Own, Times, Before, PendingAfter, Eligible, Needed, Ready, Judged;
    var judged := Judged(rows, cfg, level, r);
    OwnIsNeeded(rows, cfg, level, r, r) by { OwnItself(level, r); }
    ReadyIsEnough(rows, cfg, level, r, r.asOf);
    EligibleAreJudged(rows, cfg, sci, level, r);
    BothOutcomes(judged);
    assert PendingY(RecordsOf(rows, cfg, sci, level, r, judged)) == Ys(judged);
  }

  lemma OwnItself(level: string, r: Row)
    ensures Own(level, r)(r)
  {
  }

  lemma LatestOfRows(xs: seq<Row>, times: seq<int>)
    requires |times| == |xs| > 0 && forall i :: 0 <= i < |xs| ==> times[i] == xs[i].availableAt
    ensures LastKnown(xs, Latest(times))
  {
    LatestMember(times);
    var i :| 0 <= i < |times| && times[i] == Latest(times);
    assert xs[i] in xs;
    forall x | x in xs ensures x.availableAt <= Latest(times) {
      var j :| 0 <= j < |xs| && xs[j] == x;
      assert times[j] in times;
    }
  }

  lemma AppliedIsCalibratedBy(rows: seq<Row>, cfg: Config, sci: Science, level: string, r: Row, depth: nat)
    requires LevelFor(cfg, level, r) && r in rows && cfg.minSamples >= 1
    requires Qualifies(rows, cfg, sci, Before(Times(rows), r.asOf), r.asOf, GroupOf(level, r))
    ensures CalibratedBy(rows, cfg, sci, level, r, depth,
                         Applied(rows, cfg, sci, Before(Times(rows), r.asOf), r.asOf, GroupOf(level, r), depth, r.p))
  {
    hide LevelFor, Known, Own, Times, Before, PendingAfter, Eligible, Needed, Judged, Transformed, Prediction, MethodLoss, Latest, Pick, LastKnown, Loss;
    var t, g := r.asOf, GroupOf(level, r);
    var known, judged := Known(rows, level, r, t), Judged(rows, cfg, level, r);
    var e := RecordsOf(rows, cfg, sci, level, r, judged);
    EligibleAreJudged(rows, cfg, sci, level, r);
    HistoryIsKnown(rows, cfg, level, r, t);
    var h := History(rows, t, g);
    LatestOfRows(known, AvailableTimes(rows, h));
    LatestOfRows(judged, PendingTimes(e));
    var m := BestMethod(sci, e, |cfg.methods|);
    forall k: nat | k < |cfg.methods| ensures Loss(sci, e, k) == MethodLoss(rows, cfg, sci, level, r, cfg.methods[k]) {
      JudgedLoss(rows, cfg, sci, level, r, k);
    }
    TransformedIsPrediction(rows, cfg, sci, level, r, cfg.methods[m], t, r.p);
    assert Best(rows, cfg, sci, level, r, m);
  }

  // ----- the reference is what is computed

  lemma LevelIs(cfg: Config, r: Row, d: nat)
    requires KnownLevels(cfg.fallbackOrder) && d < |Filter(cfg.fallbackOrder, Applies(r))|
    ensures LevelFor(cfg, Filter(cfg.fallbackOrder, Applies(r))[d], r)
    ensures RowCandidates(r, cfg)[..] == GroupsOf(Filter(cfg.fallbackOrder, Applies(r)), r)
  {
    var levels := Filter(cfg.fallbackOrder, Applies(r));
    CandidatesAre(r, cfg.fallbackOrder);
    FilterMembers(cfg.fallbackOrder, Applies(r));
    assert levels[d] in levels;
  }

  lemma {:induction false} ResolveIsReference(rows: seq<Row>, cfg: Config, sci: Science, r: Row, levels: seq<string>, depth: nat)
    requires KnownLevels(cfg.fallbackOrder) && r in rows && cfg.minSamples >= 1
    requires levels == Filter(cfg.fallbackOrder, Applies(r)) && depth <= |levels|
    requires RowCandidates(r, cfg) == GroupsOf(levels, r)
    requires forall k :: 0 <= k < depth ==> !Usable(rows, cfg, levels[k], r)
    ensures Reference(rows, cfg, sci, r, Resolve(rows, cfg, sci, Before(Times(rows), r.asOf), r.asOf, RowCandidates(r, cfg), depth, r.p))
    decreases |levels| - depth
  {
    hide Usable, CalibratedBy, Qualifies, Before, Times, LevelFor, KnownLevels, Applies, Applied;
    if depth < |levels| {
      LevelIs(cfg, r, depth);
      QualifiesIsUsable(rows, cfg, sci, levels[depth], r);
      if Usable(rows, cfg, levels[depth], r) {
        AppliedIsCalibratedBy(rows, cfg, sci, levels[depth], r, depth);
      } else {
        ResolveIsReference(rows, cfg, sci, r, levels, depth + 1);
      }
    }
  }

  /** Every row is calibrated as the reference says: by the first level of the
      configured order that has enough known rows of its own prop, its own
      position or at all, and enough earlier predictions to judge the methods on;
      fitted on exactly those rows, by the earliest method of least loss. */
  lemma CalibrationIsReference(rows: seq<Row>, cfg: Config, sci: Science, i: nat)
    requires KnownLevels(cfg.fallbackOrder) && i < |rows| && cfg.minSamples >= 1
    ensures Reference(rows, cfg, sci, rows[i], CalibratedRow(rows, cfg, sci, i))
  {
    hide Reference, Resolve, Before, Times, KnownLevels, Applies;
    var levels := Filter(cfg.fallbackOrder, Applies(rows[i]));
    CandidatesAre(rows[i], cfg.fallbackOrder);
    assert rows[i] in rows;
    ResolveIsReference(rows, cfg, sci, rows[i], levels, 0);
  }

  // ----- rows a level does not pool do not matter

  lemma KeptKnown(rows: seq<Row>, keep: Row -> bool, cfg: Config, level: string, r: Row)
    requires forall x :: Own(level, r)(x) ==> keep(x)
    ensures forall t :: Known(Filter(rows, keep), level, r, t) == Known(rows, level, r, t)
    ensures Judged(Filter(rows, keep), cfg, level, r) == Judged(rows, cfg, level, r)
  {
    hide Own, Enough;
    var kept := Filter(rows, keep);
    forall t ensures Known(kept, level, r, t) == Known(rows, level, r, t) { FilterTwice(rows, keep, KnownOf(level, r, t)); }
    ByAsOfIsPreorder();
    FilterSort(rows, ByAsOf(), keep);
    var p := JudgedBefore(rows, cfg, level, r, r.asOf);
    FilterTwice(StableSort(rows, ByAsOf()), keep, p);
    FilterAgree(StableSort(kept, ByAsOf()), JudgedBefore(kept, cfg, level, r, r.asOf), p);
  }

  lemma KeptCalibratedBy(rows: seq<Row>, keep: Row -> bool, cfg: Config, sci: Science, level: string, r: Row, depth: nat, result: Calibrated)
    requires forall x :: Own(level, r)(x) ==> keep(x)
    ensures Usable(Filter(rows, keep), cfg, level, r) <==> Usable(rows, cfg, level, r)
    ensures CalibratedBy(Filter(rows, keep), cfg, sci, level, r, depth, result) <==> CalibratedBy(rows, cfg, sci, level, r, depth, result)
  {
    hide Own, Known, Judged;
    var kept := Filter(rows, keep);
    KeptKnown(rows, keep, cfg, level, r);
    forall m: string ensures MethodLoss(kept, cfg, sci, level, r, m) == MethodLoss(rows, cfg, sci, level, r, m) {
      var judged := Judged(rows, cfg, level, r);
      assert Predicted(kept, sci, level, r, m, judged) == Predicted(rows, sci, level, r, m, judged);
    }
    forall m: nat ensures Best(kept, cfg, sci, level, r, m) <==> Best(rows, cfg, sci, level, r, m) {}
  }

  lemma KeptReference(rows: seq<Row>, keep: Row -> bool, cfg: Config, sci: Science, r: Row, result: Calibrated)
    requires forall level, x :: level in cfg.fallbackOrder && Own(level, r)(x) ==> keep(x)
    ensures Reference(Filter(rows, keep), cfg, sci, r, result) <==> Reference(rows, cfg, sci, r, result)
  {
    hide Own, Usable, CalibratedBy, Applies;
    var levels := Filter(cfg.fallbackOrder, Applies(r));
    FilterMembers(cfg.fallbackOrder, Applies(r));
    forall d: nat | d < |levels|
      ensures Usable(Filter(rows, keep), cfg, levels[d], r) <==> Usable(rows, cfg, levels[d], r)
      ensures CalibratedBy(Filter(rows, keep), cfg, sci, levels[d], r, d, result) <==> CalibratedBy(rows, cfg, sci, levels[d], r, d, result)
    {
      assert levels[d] in levels;
      KeptCalibratedBy(rows, keep, cfg, sci, levels[d], r, d, result);
    }
  }

  lemma CalibratedByUnique(rows: seq<Row>, cfg: Config, sci: Science, level: string, r: Row, depth: nat, a: Calibrated, b: Calibrated)
    requires CalibratedBy(rows, cfg, sci, level, r, depth, a) && CalibratedBy(rows, cfg, sci, level, r, depth, b)
    ensures a == b
  {
    hide Known, Judged, MethodLoss, Prediction;
    var m: nat :| Best(rows, cfg, sci, level, r, m) && a.methodName == cfg.methods[m]
                  && a.loss == Some(MethodLoss(rows, cfg, sci, level, r, cfg.methods[m]))
                  && a.p == Prediction(rows, sci, level, r, cfg.methods[m], r.asOf, r.p);
    var n: nat :| Best(rows, cfg, sci, level, r, n) && b.methodName == cfg.methods[n]
                  && b.loss == Some(MethodLoss(rows, cfg, sci, level, r, cfg.methods[n]))
                  && b.p == Prediction(rows, sci, level, r, cfg.methods[n], r.asOf, r.p);
    assert m == n;
  }

  /** The reference leaves no choice. */
  lemma ReferenceUnique(rows: seq<Row>, cfg: Config, sci: Science, r: Row, a: Calibrated, b: Calibrated)
    requires Reference(rows, cfg, sci, r, a) && Reference(rows, cfg, sci, r, b)
    ensures a == b
  {
    hide Usable, CalibratedBy, Applies;
    var levels := Filter(cfg.fallbackOrder, Applies(r));
    if exists d :: 0 <= d < |levels| && Usable(rows, cfg, levels[d], r) {
      var d: nat :| d < |levels| && Usable(rows, cfg, levels[d], r) && (forall k :: 0 <= k < d ==> !Usable(rows, cfg, levels[k], r))
                    && CalibratedBy(rows, cfg, sci, levels[d], r, d, a);
      var e: nat :| e < |levels| && Usable(rows, cfg, levels[e], r) && (forall k :: 0 <= k < e ==> !Usable(rows, cfg, levels[k], r))
                    && CalibratedBy(rows, cfg, sci, levels[e], r, e, b);
      assert d == e;
      CalibratedByUnique(rows, cfg, sci, levels[d], r, d, a, b);
    }
  }

  /** A row is calibrated the same from any selection of the rows that keeps every
      row its levels pool. */
  lemma PooledRowsSuffice(rows: seq<Row>, keep: Row -> bool, cfg: Config, sci: Science, i: nat, j: nat)
    requires KnownLevels(cfg.fallbackOrder) && cfg.minSamples >= 1 && i < |rows|
    requires j < |Filter(rows, keep)| && Filter(rows, keep)[j] == rows[i]
    requires forall level, x :: level in cfg.fallbackOrder && Own(level, rows[i])(x) ==> keep(x)
    ensures CalibratedRow(Filter(rows, keep), cfg, sci, j) == CalibratedRow(rows, cfg, sci, i)
  {
    hide Reference, CalibratedRow, Filter, Own;
    CalibrationIsReference(rows, cfg, sci, i);
    CalibrationIsReference(Filter(rows, keep), cfg, sci, j);
    KeptReference(rows, keep, cfg, sci, rows[i], CalibratedRow(rows, cfg, sci, i));
    ReferenceUnique(Filter(rows, keep), cfg, sci, rows[i], CalibratedRow(Filter(rows, keep), cfg, sci, j), CalibratedRow(rows, cfg, sci, i));
  }

  function SameProp(r: Row): Row -> bool { (x: Row) => x.prop == r.prop }

  function SamePropOrPosition(r: Row): Row -> bool { (x: Row) => x.prop == r.prop || x.position == r.position }

  /** With no other level than the prop family, only the rows of its own prop
      matter to a row; with the position level too, only those of its own prop or
      its own position. */
  lemma OwnRowsSuffice(rows: seq<Row>, cfg: Config, sci: Science, i: nat, j: nat)
    requires cfg.minSamples >= 1 && i < |rows|
    ensures (forall level :: level in cfg.fallbackOrder ==> level == "prop_family")
            && j < |Filter(rows, SameProp(rows[i]))| && Filter(rows, SameProp(rows[i]))[j] == rows[i] ==>
              CalibratedRow(Filter(rows, SameProp(rows[i])), cfg, sci, j) == CalibratedRow(rows, cfg, sci, i)
    ensures (forall level :: level in cfg.fallbackOrder ==> level == "prop_family" || level == "position")
            && j < |Filter(rows, SamePropOrPosition(rows[i]))| && Filter(rows, SamePropOrPosition(rows[i]))[j] == rows[i] ==>
              CalibratedRow(Filter(rows, SamePropOrPosition(rows[i])), cfg, sci, j) == CalibratedRow(rows, cfg, sci, i)
  {
    hide CalibratedRow, Filter;
    if (forall level :: level in cfg.fallbackOrder ==> level == "prop_family")
       && j < |Filter(rows, SameProp(rows[i]))| && Filter(rows, SameProp(rows[i]))[j] == rows[i]
    {
      PooledRowsSuffice(rows, SameProp(rows[i]), cfg, sci, i, j);
    }
    if (forall level :: level in cfg.fallbackOrder ==> level == "prop_family" || level == "position")
       && j < |Filter(rows, SamePropOrPosition(rows[i]))| && Filter(rows, SamePropOrPosition(rows[i]))[j] == rows[i]
    {
      PooledRowsSuffice(rows, SamePropOrPosition(rows[i]), cfg, sci, i, j);
    }
  }
}
