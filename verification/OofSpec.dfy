/** Strict chronological out-of-fold calibration: what each row's calibrated
    probability is, as a function of the rows whose outcomes were known. */
module OofSpec {
  import opened Options
  import opened StableSorting

  datatype Row = Row(p: real, y: int, asOf: int, availableAt: int, prop: string, position: Option<string>)

  /** Fitting one method on a training sample and applying it to one
      probability, and the binary log loss, are left uninterpreted. */
  datatype Science = Science(
    calibrate: (string, seq<real>, seq<int>, real) -> real,
    logLoss: (seq<int>, seq<real>) -> real)

  datatype Config = Config(minSamples: int, fallbackOrder: seq<string>, methods: seq<string>)

  // ----- the fallback hierarchy

  datatype CalibrationGroup = CalibrationGroup(level: string, value: string)

  const PROP_FAMILY := "prop_family"
  const POSITION := "position"
  const GLOBAL := "global"

  predicate Supported(level: string) { level == PROP_FAMILY || level == POSITION || level == GLOBAL }

  function GroupAt(level: string, prop: string, position: Option<string>): seq<CalibrationGroup> {
    if level == PROP_FAMILY then [CalibrationGroup(PROP_FAMILY, prop)]
    else if level == POSITION then
      if position.Some? && position.value != "" then [CalibrationGroup(POSITION, position.value)] else []
    else [CalibrationGroup(GLOBAL, "GLOBAL")]
  }

  /** Candidate groups of a row, narrow to broad as configured. */
  function Candidates(prop: string, position: Option<string>, order: seq<string>): seq<CalibrationGroup> {
    if order == [] then []
    else Candidates(prop, position, order[..|order| - 1]) + GroupAt(order[|order| - 1], prop, position)
  }

  function RowCandidates(r: Row, cfg: Config): seq<CalibrationGroup> {
    Candidates(r.prop, r.position, cfg.fallbackOrder)
  }

  /** None stands for the ValueError on an unsupported level. */
  method HierarchyCandidates(prop: string, position: Option<string>, order: seq<string>)
    returns (result: Option<seq<CalibrationGroup>>)
    ensures result.Some? <==> forall level :: level in order ==> Supported(level)
    ensures result.Some? ==> result.value == Candidates(prop, position, order)
  {
    var groups: seq<CalibrationGroup> := [];
    for i := 0 to |order|
      invariant groups == Candidates(prop, position, order[..i])
      invariant forall level :: level in order[..i] ==> Supported(level)
    {
      var level := order[i];
      assert order[..i + 1][..i] == order[..i] && order[..i + 1] == order[..i] + [level];
      if !Supported(level) {
        return None;
      }
      groups := groups + GroupAt(level, prop, position);
    }
    assert order[..|order|] == order;
    return Some(groups);
  }

  predicate InGroup(r: Row, g: CalibrationGroup) {
    if g.level == PROP_FAMILY then r.prop == g.value
    else if g.level == POSITION then r.position == Some(g.value)
    else true
  }

  lemma {:induction false} CandidateHoldsRow(prop: string, position: Option<string>, order: seq<string>,
                                             g: CalibrationGroup, r: Row)
    requires g in Candidates(prop, position, order) && r.prop == prop && r.position == position
    ensures InGroup(r, g)
  {
    if g in Candidates(prop, position, order[..|order| - 1]) {
      CandidateHoldsRow(prop, position, order[..|order| - 1], g, r);
    }
  }

  // ----- rows known before, and rows predicted at, one time

  datatype Query = KnownBefore(at: int) | PredictedAt(at: int)

  predicate Wanted(r: Row, q: Query, g: CalibrationGroup) {
    InGroup(r, g) && match q
      case KnownBefore(t) => r.availableAt < t
      case PredictedAt(t) => r.asOf == t
  }

  /** Indices below `n` of the rows a query selects, in row order. */
  function Pick(rows: seq<Row>, n: nat, q: Query, g: CalibrationGroup): seq<nat>
    requires n <= |rows|
  {
    if n == 0 then []
    else Pick(rows, n - 1, q, g) + if Wanted(rows[n - 1], q, g) then [n - 1] else []
  }

  lemma {:induction false} PickMeaning(rows: seq<Row>, n: nat, q: Query, g: CalibrationGroup)
    requires n <= |rows|
    ensures forall i :: i in Pick(rows, n, q, g) <==> 0 <= i < n && Wanted(rows[i], q, g)
    ensures forall j, k :: 0 <= j < k < |Pick(rows, n, q, g)| ==> Pick(rows, n, q, g)[j] < Pick(rows, n, q, g)[k]
  {
    if n > 0 {
      PickMeaning(rows, n - 1, q, g);
      var rest := Pick(rows, n - 1, q, g);
      assert forall j :: 0 <= j < |rest| ==> rest[j] in rest;
    }
  }

  function History(rows: seq<Row>, t: int, g: CalibrationGroup): seq<nat> {
    Pick(rows, |rows|, KnownBefore(t), g)
  }

  function Current(rows: seq<Row>, t: int, g: CalibrationGroup): seq<nat> {
    Pick(rows, |rows|, PredictedAt(t), g)
  }

  predicate Indexes(rows: seq<Row>, s: seq<nat>) { forall i :: 0 <= i < |s| ==> s[i] < |rows| }

  lemma PickIndexes(rows: seq<Row>, q: Query, g: CalibrationGroup)
    ensures Indexes(rows, Pick(rows, |rows|, q, g))
  {
    PickMeaning(rows, |rows|, q, g);
    var s := Pick(rows, |rows|, q, g);
    assert forall i :: 0 <= i < |s| ==> s[i] in s;
  }

  function At(rows: seq<Row>, i: nat): Row { if i < |rows| then rows[i] else Row(0.0, 0, 0, 0, "", None) }

  function Probabilities(rows: seq<Row>, s: seq<nat>): seq<real> { seq(|s|, i requires 0 <= i < |s| => At(rows, s[i]).p) }

  function Outcomes(rows: seq<Row>, s: seq<nat>): seq<int> { seq(|s|, i requires 0 <= i < |s| => At(rows, s[i]).y) }

  function Latest(times: seq<int>): int
    requires times != []
  {
    if |times| == 1 then times[0]
    else if times[0] >= Latest(times[1..]) then times[0] else Latest(times[1..])
  }

  function AvailableTimes(rows: seq<Row>, s: seq<nat>): seq<int> {
    seq(|s|, i requires 0 <= i < |s| => At(rows, s[i]).availableAt)
  }

  predicate BothClasses(y: seq<int>) { exists i, j :: 0 <= i < |y| && 0 <= j < |y| && y[i] != y[j] }

  /** Enough outcomes of the group, of both classes, were known before `t`. */
  predicate Ready(rows: seq<Row>, cfg: Config, t: int, g: CalibrationGroup) {
    |History(rows, t, g)| >= cfg.minSamples && BothClasses(Outcomes(rows, History(rows, t, g)))
  }

  /** The group is a candidate of some row predicted at `t`. */
  predicate Needed(rows: seq<Row>, cfg: Config, t: int, g: CalibrationGroup) {
    exists i :: 0 <= i < |rows| && rows[i].asOf == t && g in RowCandidates(rows[i], cfg)
  }

  function Transformed(rows: seq<Row>, sci: Science, t: int, g: CalibrationGroup, m: string, p: real): real {
    var h := History(rows, t, g);
    sci.calibrate(m, Probabilities(rows, h), Outcomes(rows, h), p)
  }

  // ----- candidate predictions kept for later method selection

  datatype Pending = Pending(availableAt: int, y: int, probabilities: seq<real>)

  function Record(rows: seq<Row>, cfg: Config, sci: Science, t: int, g: CalibrationGroup, i: nat): Pending {
    var r := At(rows, i);
    Pending(r.availableAt, r.y,
            seq(|cfg.methods|, m requires 0 <= m < |cfg.methods| => Transformed(rows, sci, t, g, cfg.methods[m], r.p)))
  }

  function Records(rows: seq<Row>, cfg: Config, sci: Science, t: int, g: CalibrationGroup, s: seq<nat>): seq<Pending> {
    seq(|s|, i requires 0 <= i < |s| => Record(rows, cfg, sci, t, g, s[i]))
  }

  /** What the predictions made at `t` add to the group's pending table. */
  function NewPending(rows: seq<Row>, cfg: Config, sci: Science, t: int, g: CalibrationGroup): seq<Pending> {
    if Needed(rows, cfg, t, g) && Ready(rows, cfg, t, g)
    then Records(rows, cfg, sci, t, g, Current(rows, t, g)) else []
  }

  /** The group's pending table after predicting at each of `times` in turn. */
  function PendingAfter(rows: seq<Row>, cfg: Config, sci: Science, times: seq<int>, g: CalibrationGroup): seq<Pending> {
    if times == [] then []
    else
      PendingAfter(rows, cfg, sci, times[..|times| - 1], g)
      + NewPending(rows, cfg, sci, times[|times| - 1], g)
  }

  // ----- method selection on earlier candidate predictions

  function Eligible(pending: seq<Pending>, t: int): seq<Pending> {
    if pending == [] then []
    else Eligible(pending[..|pending| - 1], t)
         + if pending[|pending| - 1].availableAt < t then [pending[|pending| - 1]] else []
  }

  function PendingY(e: seq<Pending>): seq<int> { seq(|e|, i requires 0 <= i < |e| => e[i].y) }

  function PendingTimes(e: seq<Pending>): seq<int> { seq(|e|, i requires 0 <= i < |e| => e[i].availableAt) }

  function PendingP(e: seq<Pending>, m: nat): seq<real> {
    seq(|e|, i requires 0 <= i < |e| => if m < |e[i].probabilities| then e[i].probabilities[m] else 0.0)
  }

  function Loss(sci: Science, e: seq<Pending>, m: nat): real { sci.logLoss(PendingY(e), PendingP(e, m)) }

  /** The first of the first `n` methods with the least loss. */
  function BestMethod(sci: Science, e: seq<Pending>, n: nat): (best: nat)
    requires n > 0
    ensures best < n
    ensures forall m :: 0 <= m < n ==> Loss(sci, e, best) <= Loss(sci, e, m)
    ensures forall m :: 0 <= m < best ==> Loss(sci, e, best) < Loss(sci, e, m)
  {
    if n == 1 then 0
    else
      var b := BestMethod(sci, e, n - 1);
      if Loss(sci, e, n - 1) < Loss(sci, e, b) then n - 1 else b
  }

  datatype Selection = Selection(chosen: Option<nat>, rows: nat, loss: Option<real>, latest: Option<int>)

  function Select(pending: seq<Pending>, cfg: Config, sci: Science, t: int): Selection {
    var e := Eligible(pending, t);
    if |e| < cfg.minSamples || !BothClasses(PendingY(e)) || cfg.methods == [] then Selection(None, |e|, None, None)
    else
      var best := BestMethod(sci, e, |cfg.methods|);
      Selection(Some(best), |e|, Some(Loss(sci, e, best)), Some(Latest(PendingTimes(e))))
  }

  // ----- the calibrated row

  datatype Calibrated = Calibrated(
    p: real, level: string, group: string, methodName: string, depth: int, fitRows: nat, selectionRows: nat,
    loss: Option<real>, fitLatest: Option<int>, selectionLatest: Option<int>)

  function Identity(p: real): Calibrated {
    Calibrated(p, "identity", "IDENTITY", "identity", -1, 0, 0, None, None, None)
  }

  predicate Qualifies(rows: seq<Row>, cfg: Config, sci: Science, before: seq<int>, t: int, g: CalibrationGroup) {
    && Needed(rows, cfg, t, g) && Ready(rows, cfg, t, g)
    && Select(PendingAfter(rows, cfg, sci, before, g), cfg, sci, t).chosen.Some?
  }

  function Applied(rows: seq<Row>, cfg: Config, sci: Science, before: seq<int>, t: int, g: CalibrationGroup,
                   depth: nat, p: real): Calibrated
    requires Qualifies(rows, cfg, sci, before, t, g) && cfg.minSamples >= 1
  {
    var s := Select(PendingAfter(rows, cfg, sci, before, g), cfg, sci, t);
    var h := History(rows, t, g);
    var m := cfg.methods[s.chosen.value];
    Calibrated(Transformed(rows, sci, t, g, m, p), g.level, g.value, m, depth, |h|, s.rows, s.loss,
               Some(Latest(AvailableTimes(rows, h))), s.latest)
  }

  /** The first candidate from `depth` on that qualifies decides. */
  function Resolve(rows: seq<Row>, cfg: Config, sci: Science, before: seq<int>, t: int,
                   cs: seq<CalibrationGroup>, depth: nat, p: real): Calibrated
    requires depth <= |cs| && cfg.minSamples >= 1
    decreases |cs| - depth
  {
    if depth == |cs| then Identity(p)
    else if Qualifies(rows, cfg, sci, before, t, cs[depth]) then Applied(rows, cfg, sci, before, t, cs[depth], depth, p)
    else Resolve(rows, cfg, sci, before, t, cs, depth + 1, p)
  }

  function AsOfs(rows: seq<Row>): seq<int> { seq(|rows|, i requires 0 <= i < |rows| => rows[i].asOf) }

  /** The distinct prediction times in order. */
  function Times(rows: seq<Row>): seq<int> { Unique(AsOfs(rows), AtMost) }

  function Before(times: seq<int>, t: int): seq<int> {
    if times == [] || times[0] >= t then [] else [times[0]] + Before(times[1..], t)
  }

  /** What a prediction is calibrated to, given all the rows. */
  function CalibratedFor(rows: seq<Row>, cfg: Config, sci: Science, r: Row): Calibrated
    requires cfg.minSamples >= 1
  {
    Resolve(rows, cfg, sci, Before(Times(rows), r.asOf), r.asOf, RowCandidates(r, cfg), 0, r.p)
  }

  function CalibratedRow(rows: seq<Row>, cfg: Config, sci: Science, i: nat): Calibrated
    requires i < |rows| && cfg.minSamples >= 1
  {
    CalibratedFor(rows, cfg, sci, rows[i])
  }
}
