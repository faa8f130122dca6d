/** The prequential loop itself: one pass over the prediction times that writes
    results into an array by row and grows a pending table per group. */
module Oof {
  import opened Options
  import opened OofSpec
  import opened OofTheorems
  import opened OofReference

  datatype Problem = MinSamplesNotPositive | NoMethods | BadProbability | BadOutcome | UnsupportedLevel

  /** The first check an input fails, in the order the checks are made. */
  function Validation(rows: seq<Row>, cfg: Config): Option<Problem> {
    if cfg.minSamples < 1 then Some(MinSamplesNotPositive)
    else if cfg.methods == [] then Some(NoMethods)
    else if rows == [] then None
    else if exists i :: 0 <= i < |rows| && (rows[i].p < 0.0 || rows[i].p > 1.0) then Some(BadProbability)
    else if exists i :: 0 <= i < |rows| && rows[i].y != 0 && rows[i].y != 1 then Some(BadOutcome)
    else if exists level :: level in cfg.fallbackOrder && !Supported(level) then Some(UnsupportedLevel)
    else None
  }

  predicate InRange(r: Row) { 0.0 <= r.p <= 1.0 }

  predicate Binary(r: Row) { r.y == 0 || r.y == 1 }

  /** What each refusal means; the checks before it have passed. */
  lemma ValidationExactly(rows: seq<Row>, cfg: Config)
    ensures var v := Validation(rows, cfg);
            && (v == Some(MinSamplesNotPositive) <==> cfg.minSamples <= 0)
            && (v == Some(NoMethods) <==> cfg.minSamples > 0 && |cfg.methods| == 0)
            && (v == Some(BadProbability) <==> cfg.minSamples > 0 && |cfg.methods| > 0 && exists r :: r in rows && !InRange(r))
            && (v == Some(BadOutcome) <==>
                  cfg.minSamples > 0 && |cfg.methods| > 0 && (forall r :: r in rows ==> InRange(r)) && exists r :: r in rows && !Binary(r))
            && (v == Some(UnsupportedLevel) <==>
                  && cfg.minSamples > 0 && |cfg.methods| > 0 && rows != []
                  && (forall r :: r in rows ==> InRange(r) && Binary(r)) && !KnownLevels(cfg.fallbackOrder))
  {
    if i :| 0 <= i < |rows| && !InRange(rows[i]) { assert rows[i] in rows; }
    if i :| 0 <= i < |rows| && !Binary(rows[i]) { assert rows[i] in rows; }
  }

  /** One group fitted at one prediction time. */
  datatype GroupFit = GroupFit(fitRows: nat, fitLatest: int, currentRows: seq<nat>,
                               transformed: seq<seq<real>>, selection: Selection)

  function FitOf(rows: seq<Row>, cfg: Config, sci: Science, t: int, g: CalibrationGroup, pending: seq<Pending>): GroupFit
    requires cfg.minSamples >= 1 && Ready(rows, cfg, t, g)
  {
    var h, c := History(rows, t, g), Current(rows, t, g);
    GroupFit(|h|, Latest(AvailableTimes(rows, h)), c,
             seq(|cfg.methods|, m requires 0 <= m < |cfg.methods| =>
               seq(|c|, j requires 0 <= j < |c| => Transformed(rows, sci, t, g, cfg.methods[m], At(rows, c[j]).p))),
             Select(pending, cfg, sci, t))
  }

  const EVERYONE := CalibrationGroup(GLOBAL, "GLOBAL")

  function Table(pending: map<CalibrationGroup, seq<Pending>>, g: CalibrationGroup): seq<Pending> {
    if g in pending then pending[g] else []
  }

  predicate AllSupported(cfg: Config) { forall level :: level in cfg.fallbackOrder ==> Supported(level) }

  /** The candidate groups of the rows predicted at `t`. */
  method NeededGroups(rows: seq<Row>, cfg: Config, t: int) returns (needed: Option<set<CalibrationGroup>>)
    requires exists i :: 0 <= i < |rows| && rows[i].asOf == t
    ensures needed.Some? <==> AllSupported(cfg)
    ensures needed.Some? ==> forall g :: g in needed.value <==> Needed(rows, cfg, t, g)
  {
    var current := Current(rows, t, EVERYONE);
    PickMeaning(rows, |rows|, PredictedAt(t), EVERYONE);
    var groups: set<CalibrationGroup> := {};
    for c := 0 to |current|
      invariant c > 0 ==> AllSupported(cfg)
      invariant forall g :: g in groups <==> exists j :: 0 <= j < c && g in RowCandidates(At(rows, current[j]), cfg)
    {
      assert current[c] in current;
      var r := rows[current[c]];
      var cs := HierarchyCandidates(r.prop, r.position, cfg.fallbackOrder);
      if cs == None { return None; }
      groups := groups + set g | g in cs.value;
    }
    ghost var i :| 0 <= i < |rows| && rows[i].asOf == t;
    assert i in current;
    forall g ensures g in groups <==> Needed(rows, cfg, t, g) {
      if Needed(rows, cfg, t, g) {
        var k :| 0 <= k < |rows| && rows[k].asOf == t && g in RowCandidates(rows[k], cfg);
        assert k in current;
        var j :| 0 <= j < |current| && current[j] == k;
        assert g in RowCandidates(At(rows, current[j]), cfg);
      }
      if g in groups {
        var j :| 0 <= j < |current| && g in RowCandidates(At(rows, current[j]), cfg);
        assert current[j] in current && rows[current[j]].asOf == t;
      }
    }
    return Some(groups);
  }

  ghost predicate FitsAt(rows: seq<Row>, cfg: Config, sci: Science, t: int, before: seq<int>,
                         groups: set<CalibrationGroup>, fits: map<CalibrationGroup, GroupFit>)
    requires cfg.minSamples >= 1
  {
    && (forall g :: g in fits <==> g in groups && Ready(rows, cfg, t, g))
    && (forall g :: g in fits ==> fits[g] == FitOf(rows, cfg, sci, t, g, PendingAfter(rows, cfg, sci, before, g)))
  }

  /** Fit every needed group that has enough known outcomes of both classes. */
  method FitGroups(rows: seq<Row>, cfg: Config, sci: Science, t: int, ghost before: seq<int>,
                   needed: set<CalibrationGroup>, pending: map<CalibrationGroup, seq<Pending>>)
    returns (fits: map<CalibrationGroup, GroupFit>)
    requires cfg.minSamples >= 1
    requires forall g :: Table(pending, g) == PendingAfter(rows, cfg, sci, before, g)
    ensures FitsAt(rows, cfg, sci, t, before, needed, fits)
  {
    fits := map[];
    var todo := needed;
    while todo != {}
      invariant todo <= needed
      invariant FitsAt(rows, cfg, sci, t, before, needed - todo, fits)
      decreases todo
    {
      var g :| g in todo;
      if Ready(rows, cfg, t, g) {
        fits := fits[g := FitOf(rows, cfg, sci, t, g, Table(pending, g))];
      }
      todo := todo - {g};
    }
    assert needed - todo == needed;
  }

  function IndexOf(s: seq<nat>, i: nat): (k: nat)
    requires i in s
    ensures k < |s| && s[k] == i
  {
    if s[0] == i then 0 else 1 + IndexOf(s[1..], i)
  }

  /** The first candidate with a fit and a selected method calibrates the row. */
  method ResolveRow(rows: seq<Row>, cfg: Config, sci: Science, i: nat, ghost before: seq<int>,
                    ghost needed: set<CalibrationGroup>, fits: map<CalibrationGroup, GroupFit>)
    returns (result: Calibrated)
    requires cfg.minSamples >= 1 && i < |rows| && AllSupported(cfg)
    requires FitsAt(rows, cfg, sci, rows[i].asOf, before, needed, fits)
    requires forall g :: g in needed <==> Needed(rows, cfg, rows[i].asOf, g)
    ensures result == Resolve(rows, cfg, sci, before, rows[i].asOf, RowCandidates(rows[i], cfg), 0, rows[i].p)
  {
    hide Ready, Needed, History, InGroup, Transformed, Latest, Supported;
    var r := rows[i];
    var cs := HierarchyCandidates(r.prop, r.position, cfg.fallbackOrder);
    var groups := cs.value;
    result := Identity(r.p);
    for depth := 0 to |groups|
      invariant Resolve(rows, cfg, sci, before, r.asOf, groups, 0, r.p)
             == Resolve(rows, cfg, sci, before, r.asOf, groups, depth, r.p)
    {
      var g := groups[depth];
      if g in fits && fits[g].selection.chosen.Some? {
        var fit := fits[g];
        CandidateHoldsRow(r.prop, r.position, cfg.fallbackOrder, g, r);
        PickMeaning(rows, |rows|, PredictedAt(r.asOf), g);
        var local := IndexOf(fit.currentRows, i);
        var m := fit.selection.chosen.value;
        result := Calibrated(fit.transformed[m][local], g.level, g.value, cfg.methods[m], depth, fit.fitRows,
                             fit.selection.rows, fit.selection.loss, Some(fit.fitLatest), fit.selection.latest);
        return;
      }
    }
  }

  /** Append this time's candidate predictions to the pending table. */
  method ExtendPending(rows: seq<Row>, cfg: Config, sci: Science, t: int, ghost before: seq<int>,
                       ghost needed: set<CalibrationGroup>, fits: map<CalibrationGroup, GroupFit>,
                       pending: map<CalibrationGroup, seq<Pending>>)
    returns (pending': map<CalibrationGroup, seq<Pending>>)
    requires cfg.minSamples >= 1 && FitsAt(rows, cfg, sci, t, before, needed, fits)
    requires forall g :: g in needed <==> Needed(rows, cfg, t, g)
    ensures forall g :: Table(pending', g) == Table(pending, g) + NewPending(rows, cfg, sci, t, g)
  {
    hide FitOf, PendingAfter, Records, Ready, Needed;
    pending' := pending;
    var todo := fits.Keys;
    while todo != {}
      invariant todo <= fits.Keys
      invariant forall g :: g in fits.Keys - todo ==>
                  Table(pending', g) == Table(pending, g) + NewPending(rows, cfg, sci, t, g)
      invariant forall g :: g !in fits.Keys - todo ==> Table(pending', g) == Table(pending, g)
      decreases todo
    {
      var g :| g in todo;
      var added := AddedBy(rows, cfg, sci, t, g, before, fits[g]);
      pending' := pending'[g := Table(pending', g) + added];
      todo := todo - {g};
    }
  }

  lemma RecordsStep(rows: seq<Row>, cfg: Config, sci: Science, t: int, g: CalibrationGroup, c: seq<nat>, i: nat)
    requires i < |c|
    ensures Records(rows, cfg, sci, t, g, c[..i + 1])
         == Records(rows, cfg, sci, t, g, c[..i]) + [Record(rows, cfg, sci, t, g, c[i])]
  {
  }

  method AddedBy(rows: seq<Row>, cfg: Config, sci: Science, t: int, g: CalibrationGroup, ghost before: seq<int>,
                 fit: GroupFit)
    returns (added: seq<Pending>)
    requires cfg.minSamples >= 1 && Needed(rows, cfg, t, g) && Ready(rows, cfg, t, g)
    requires fit == FitOf(rows, cfg, sci, t, g, PendingAfter(rows, cfg, sci, before, g))
    ensures added == NewPending(rows, cfg, sci, t, g)
  {
    hide Ready, Needed, PendingAfter, Select, Transformed, Records, Pick;
    var c := fit.currentRows;
    added := [];
    assert Records(rows, cfg, sci, t, g, c[..0]) == [] by { RecordsEmpty(rows, cfg, sci, t, g); }
    for local := 0 to |c|
      invariant added == Records(rows, cfg, sci, t, g, c[..local])
    {
      var r := At(rows, c[local]);
      var probabilities := seq(|cfg.methods|, m requires 0 <= m < |cfg.methods| => fit.transformed[m][local]);
      assert probabilities == Record(rows, cfg, sci, t, g, c[local]).probabilities;
      RecordsStep(rows, cfg, sci, t, g, c, local);
      added := added + [Pending(r.availableAt, r.y, probabilities)];
    }
    assert c[..|c|] == c;
  }

  lemma RecordsEmpty(rows: seq<Row>, cfg: Config, sci: Science, t: int, g: CalibrationGroup)
    ensures Records(rows, cfg, sci, t, g, []) == []
  {
  }

  /** Write the results of the rows predicted at `t` into the output array. */
  method PredictAt(rows: seq<Row>, cfg: Config, sci: Science, t: int, ghost before: seq<int>,
                   ghost needed: set<CalibrationGroup>, fits: map<CalibrationGroup, GroupFit>, out: array<Calibrated>)
    requires cfg.minSamples >= 1 && AllSupported(cfg) && out.Length == |rows| && before == Before(Times(rows), t)
    requires FitsAt(rows, cfg, sci, t, before, needed, fits)
    requires forall g :: g in needed <==> Needed(rows, cfg, t, g)
    modifies out
    ensures forall i :: 0 <= i < |rows| ==>
              out[i] == if rows[i].asOf == t then CalibratedRow(rows, cfg, sci, i) else old(out[i])
  {
    hide FitsAt, Needed, Resolve, Pick, Before, Times, RowCandidates;
    var current := Current(rows, t, EVERYONE);
    PickMeaning(rows, |rows|, PredictedAt(t), EVERYONE);
    for c := 0 to |current|
      invariant forall i :: 0 <= i < |rows| ==>
        out[i] == if i in current[..c] then CalibratedRow(rows, cfg, sci, i) else old(out[i])
    {
      var i := current[c];
      assert i in current;
      var result := ResolveRow(rows, cfg, sci, i, before, needed, fits);
      assert result == CalibratedRow(rows, cfg, sci, i);
      out[i] := result;
      assert current[..c + 1] == current[..c] + [i];
    }
    assert current[..|current|] == current;
  }

  lemma PendingStep(rows: seq<Row>, cfg: Config, sci: Science, times: seq<int>, k: nat)
    requires k < |times|
    ensures forall g :: PendingAfter(rows, cfg, sci, times[..k + 1], g)
                     == PendingAfter(rows, cfg, sci, times[..k], g) + NewPending(rows, cfg, sci, times[k], g)
  {
    assert times[..k + 1][..k] == times[..k] && times[..k + 1][k] == times[k];
  }

  /** The loop over prediction times; false when a fallback level is unsupported. */
  method CalibrateTimes(rows: seq<Row>, cfg: Config, sci: Science, out: array<Calibrated>) returns (ok: bool)
    requires cfg.minSamples >= 1 && rows != [] && out.Length == |rows|
    modifies out
    ensures ok <==> AllSupported(cfg)
    ensures ok ==> forall i :: 0 <= i < |rows| ==> out[i] == CalibratedRow(rows, cfg, sci, i)
  {
    hide Needed, FitsAt, CalibratedRow, NewPending, PendingAfter, Before;
    var times := Times(rows);
    TimesMeaning(rows);
    assert rows[0].asOf in times;
    var pending: map<CalibrationGroup, seq<Pending>> := map[];
    NothingPending(rows, cfg, sci);
    for k := 0 to |times|
      invariant k > 0 ==> AllSupported(cfg)
      invariant forall g :: Table(pending, g) == PendingAfter(rows, cfg, sci, times[..k], g)
      invariant forall i :: 0 <= i < |rows| && rows[i].asOf in times[..k] ==> out[i] == CalibratedRow(rows, cfg, sci, i)
    {
      BeforeIsPrefix(times, k);
      ok, pending := CalibrateTime(rows, cfg, sci, times[k], times[..k], pending, out);
      if !ok { return; }
      PendingStep(rows, cfg, sci, times, k);
      assert times[..k + 1] == times[..k] + [times[k]];
    }
    assert times[..|times|] == times;
    return true;
  }

  /** One prediction time: fit, predict, then record the predictions. */
  method CalibrateTime(rows: seq<Row>, cfg: Config, sci: Science, t: int, ghost before: seq<int>,
                       pending: map<CalibrationGroup, seq<Pending>>, out: array<Calibrated>)
    returns (ok: bool, pending': map<CalibrationGroup, seq<Pending>>)
    requires cfg.minSamples >= 1 && out.Length == |rows| && t in Times(rows) && before == Before(Times(rows), t)
    requires forall g :: Table(pending, g) == PendingAfter(rows, cfg, sci, before, g)
    modifies out
    ensures ok <==> AllSupported(cfg)
    ensures ok ==> forall i :: 0 <= i < |rows| ==>
              out[i] == if rows[i].asOf == t then CalibratedRow(rows, cfg, sci, i) else old(out[i])
    ensures ok ==> forall g :: Table(pending', g) == PendingAfter(rows, cfg, sci, before, g) + NewPending(rows, cfg, sci, t, g)
  {
    hide Needed, FitsAt, CalibratedRow, NewPending, PendingAfter, Before;
    TimesMeaning(rows);
    var needed := NeededGroups(rows, cfg, t);
    if needed == None { return false, pending; }
    var fits := FitGroups(rows, cfg, sci, t, before, needed.value, pending);
    PredictAt(rows, cfg, sci, t, before, needed.value, fits, out);
    pending' := ExtendPending(rows, cfg, sci, t, before, needed.value, fits, pending);
    return true, pending';
  }

  lemma NothingPending(rows: seq<Row>, cfg: Config, sci: Science)
    ensures forall g :: PendingAfter(rows, cfg, sci, [], g) == []
  {
  }

  lemma SupportedAreKnown(cfg: Config)
    ensures AllSupported(cfg) <==> KnownLevels(cfg.fallbackOrder)
  {
  }

  method PrequentialOofCalibrate(rows: seq<Row>, cfg: Config, sci: Science)
    returns (problem: Option<Problem>, out: array<Calibrated>)
    ensures problem == Validation(rows, cfg)
    ensures problem == None ==>
              out.Length == |rows| && forall i :: 0 <= i < |rows| ==> out[i] == CalibratedRow(rows, cfg, sci, i)
    ensures problem == None ==> forall i :: 0 <= i < |rows| ==> Reference(rows, cfg, sci, rows[i], out[i])
    ensures problem == None <==>
              && cfg.minSamples >= 1 && cfg.methods != []
              && (forall r :: r in rows ==> 0.0 <= r.p <= 1.0 && (r.y == 0 || r.y == 1))
              && (rows == [] || KnownLevels(cfg.fallbackOrder))
  {
    hide Reference, CalibratedRow;
    out := new Calibrated[|rows|](i requires 0 <= i < |rows| => Identity(rows[i].p));
    if cfg.minSamples < 1 { return Some(MinSamplesNotPositive), out; }
    if cfg.methods == [] { return Some(NoMethods), out; }
    if rows == [] { return None, out; }
    if exists i :: 0 <= i < |rows| && (rows[i].p < 0.0 || rows[i].p > 1.0) { return Some(BadProbability), out; }
    if exists i :: 0 <= i < |rows| && rows[i].y != 0 && rows[i].y != 1 { return Some(BadOutcome), out; }
    assert forall r :: r in rows ==> 0.0 <= r.p <= 1.0 && (r.y == 0 || r.y == 1);
    var ok := CalibrateTimes(rows, cfg, sci, out);
    SupportedAreKnown(cfg);
    if ok {
      forall i | 0 <= i < |rows| ensures Reference(rows, cfg, sci, rows[i], out[i]) { CalibrationIsReference(rows, cfg, sci, i); }
    }
    return if ok then None else Some(UnsupportedLevel), out;
  }
}
