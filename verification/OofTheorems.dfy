/** What prequential calibration promises: outcomes not yet known at a row's
    prediction time cannot influence it, and every calibrated value is justified
    by evidence strictly before that time. */
module OofTheorems {
  import opened Options
  import opened StableSorting
  import opened OofSpec

  // ----- no leakage, as a relation between two runs

  /** The same row, but for an outcome that neither has before `t`, and when. */
  predicate SameRow(r: Row, r': Row, t: int) {
    && r.(y := r'.y, availableAt := r'.availableAt) == r'
    && (r.availableAt < t || r'.availableAt < t ==> r == r')
  }

  /** Two inputs that differ at most in outcomes available at or after `t`, and in
      when those become available. */
  predicate SameUntil(a: seq<Row>, b: seq<Row>, t: int) {
    |a| == |b| && forall i :: 0 <= i < |a| ==> SameRow(a[i], b[i], t)
  }

  lemma {:induction false} SamePick(a: seq<Row>, b: seq<Row>, t: int, n: nat, q: Query, g: CalibrationGroup)
    requires SameUntil(a, b, t) && n <= |a| && (q.PredictedAt? || q.at <= t)
    ensures Pick(a, n, q, g) == Pick(b, n, q, g)
  {
    if n > 0 {
      SamePick(a, b, t, n - 1, q, g);
      assert SameRow(a[n - 1], b[n - 1], t);
    }
  }

  lemma SameHistory(a: seq<Row>, b: seq<Row>, t: int, s: int, g: CalibrationGroup)
    requires SameUntil(a, b, t) && s <= t
    ensures var h := History(a, s, g);
            && h == History(b, s, g)
            && Probabilities(a, h) == Probabilities(b, h) && Outcomes(a, h) == Outcomes(b, h)
            && AvailableTimes(a, h) == AvailableTimes(b, h)
  {
    var h := History(a, s, g);
    SamePick(a, b, t, |a|, KnownBefore(s), g);
    PickMeaning(a, |a|, KnownBefore(s), g);
    forall i | 0 <= i < |h| ensures At(a, h[i]) == At(b, h[i]) {
      assert h[i] in h;
    }
  }

  lemma SameTimes(a: seq<Row>, b: seq<Row>, t: int)
    requires SameUntil(a, b, t)
    ensures Times(a) == Times(b)
  {
    forall i | 0 <= i < |a| ensures AsOfs(a)[i] == AsOfs(b)[i] { assert SameRow(a[i], b[i], t); }
    assert AsOfs(a) == AsOfs(b);
  }

  lemma SameNeeded(a: seq<Row>, b: seq<Row>, t: int, cfg: Config, s: int, g: CalibrationGroup)
    requires SameUntil(a, b, t)
    ensures Needed(a, cfg, s, g) == Needed(b, cfg, s, g)
  {
    forall i | 0 <= i < |a| ensures a[i].asOf == b[i].asOf && RowCandidates(a[i], cfg) == RowCandidates(b[i], cfg) {
      assert SameRow(a[i], b[i], t);
    }
    if i :| 0 <= i < |a| && a[i].asOf == s && g in RowCandidates(a[i], cfg) {
      assert b[i].asOf == s && g in RowCandidates(b[i], cfg);
    }
    if i :| 0 <= i < |b| && b[i].asOf == s && g in RowCandidates(b[i], cfg) {
      assert a[i].asOf == s && g in RowCandidates(a[i], cfg);
    }
  }

  predicate SimilarRecord(p: Pending, q: Pending, t: int) {
    && p.(y := q.y, availableAt := q.availableAt) == q
    && (p.availableAt < t || q.availableAt < t ==> p == q)
  }

  /** Pending tables that differ at most in outcomes available from `t` on. */
  predicate SimilarPending(p: seq<Pending>, q: seq<Pending>, t: int) {
    |p| == |q| && forall i :: 0 <= i < |p| ==> SimilarRecord(p[i], q[i], t)
  }

  lemma SimilarNewPending(a: seq<Row>, b: seq<Row>, t: int, cfg: Config, sci: Science, s: int, g: CalibrationGroup)
    requires SameUntil(a, b, t) && s <= t
    ensures SimilarPending(NewPending(a, cfg, sci, s, g), NewPending(b, cfg, sci, s, g), t)
  {
    SameHistory(a, b, t, s, g);
    SameNeeded(a, b, t, cfg, s, g);
    SamePick(a, b, t, |a|, PredictedAt(s), g);
    PickIndexes(a, PredictedAt(s), g);
    var c := Current(a, s, g);
    forall i | 0 <= i < |c|
      ensures SimilarRecord(Record(a, cfg, sci, s, g, c[i]), Record(b, cfg, sci, s, g, c[i]), t)
    {
      assert SameRow(a[c[i]], b[c[i]], t);
      assert Record(a, cfg, sci, s, g, c[i]).probabilities == Record(b, cfg, sci, s, g, c[i]).probabilities;
    }
  }

  predicate NoLater(times: seq<int>, t: int) { forall i :: 0 <= i < |times| ==> times[i] <= t }

  lemma {:induction false} SimilarPendingAfter(a: seq<Row>, b: seq<Row>, t: int, cfg: Config, sci: Science,
                                               times: seq<int>, g: CalibrationGroup)
    requires SameUntil(a, b, t) && NoLater(times, t)
    ensures SimilarPending(PendingAfter(a, cfg, sci, times, g), PendingAfter(b, cfg, sci, times, g), t)
  {
    hide Needed, Ready, SameUntil, NewPending;
    if times != [] {
      var n := |times| - 1;
      SimilarPendingAfter(a, b, t, cfg, sci, times[..n], g);
      SimilarNewPending(a, b, t, cfg, sci, times[n], g);
    }
  }

  lemma {:induction false} SameEligible(p: seq<Pending>, q: seq<Pending>, t: int, s: int)
    requires SimilarPending(p, q, t) && s <= t
    ensures Eligible(p, s) == Eligible(q, s)
  {
    if p != [] {
      var n := |p| - 1;
      assert SimilarRecord(p[n], q[n], t);
      SameEligible(p[..n], q[..n], t, s);
    }
  }

  lemma {:induction false} SameResolve(a: seq<Row>, b: seq<Row>, t: int, cfg: Config, sci: Science, before: seq<int>,
                                       s: int, cs: seq<CalibrationGroup>, depth: nat, p: real)
    requires SameUntil(a, b, t) && s <= t && NoLater(before, t)
    requires depth <= |cs| && cfg.minSamples >= 1
    ensures Resolve(a, cfg, sci, before, s, cs, depth, p) == Resolve(b, cfg, sci, before, s, cs, depth, p)
    decreases |cs| - depth
  {
    if depth < |cs| {
      var g := cs[depth];
      SameHistory(a, b, t, s, g);
      SameNeeded(a, b, t, cfg, s, g);
      SimilarPendingAfter(a, b, t, cfg, sci, before, g);
      SameEligible(PendingAfter(a, cfg, sci, before, g), PendingAfter(b, cfg, sci, before, g), t, s);
      SameResolve(a, b, t, cfg, sci, before, s, cs, depth + 1, p);
    }
  }

  lemma {:induction false} BeforeMembers(times: seq<int>, t: int)
    ensures NoLater(Before(times, t), t)
  {
    if times != [] && times[0] < t { BeforeMembers(times[1..], t); }
  }

  lemma SameCalibration(a: seq<Row>, b: seq<Row>, t: int, cfg: Config, sci: Science, r: Row)
    requires SameUntil(a, b, t) && cfg.minSamples >= 1 && r.asOf <= t
    ensures CalibratedFor(a, cfg, sci, r) == CalibratedFor(b, cfg, sci, r)
  {
    SameTimes(a, b, t);
    BeforeMembers(Times(a), r.asOf);
    SameResolve(a, b, t, cfg, sci, Before(Times(a), r.asOf), r.asOf, RowCandidates(r, cfg), 0, r.p);
  }

  // ----- rows that are later and not yet known do not matter at all

  function KeptAt(t: int): Row -> bool { (r: Row) => r.asOf <= t || r.availableAt < t }

  /** The rows predicted by `t` or known before it. */
  function Visible(rows: seq<Row>, t: int): seq<Row> { Filter(rows, KeptAt(t)) }

  function WantedBy(q: Query, g: CalibrationGroup): Row -> bool { (r: Row) => Wanted(r, q, g) }

  function Picked(rows: seq<Row>, s: seq<nat>): seq<Row> { seq(|s|, i requires 0 <= i < |s| => At(rows, s[i])) }

  lemma {:induction false} PickIsFilter(rows: seq<Row>, n: nat, q: Query, g: CalibrationGroup)
    requires n <= |rows|
    ensures Picked(rows, Pick(rows, n, q, g)) == Filter(rows[..n], WantedBy(q, g))
  {
    if n > 0 {
      PickIsFilter(rows, n - 1, q, g);
      FilterStep(rows, n - 1, WantedBy(q, g));
    }
  }

  lemma {:induction false} FilterTwice(rows: seq<Row>, p: Row -> bool, q: Row -> bool)
    requires forall r :: q(r) ==> p(r)
    ensures Filter(Filter(rows, p), q) == Filter(rows, q)
  {
    if rows != [] {
      FilterTwice(rows[1..], p, q);
      if p(rows[0]) { assert Filter(rows, p)[1..] == Filter(rows[1..], p); }
    }
  }

  /** A query about a time up to `t` selects the same rows of both. */
  lemma SamePicked(rows: seq<Row>, t: int, q: Query, g: CalibrationGroup)
    requires q.at <= t
    ensures var v := Visible(rows, t);
            Picked(rows, Pick(rows, |rows|, q, g)) == Picked(v, Pick(v, |v|, q, g))
  {
    var v := Visible(rows, t);
    PickIsFilter(rows, |rows|, q, g);
    PickIsFilter(v, |v|, q, g);
    FilterTwice(rows, KeptAt(t), WantedBy(q, g));
    assert rows[..|rows|] == rows && v[..|v|] == v;
  }

  lemma VisibleHistory(rows: seq<Row>, t: int, s: int, g: CalibrationGroup)
    requires s <= t
    ensures var v := Visible(rows, t);
            var h, k := History(rows, s, g), History(v, s, g);
            && |h| == |k| && Probabilities(rows, h) == Probabilities(v, k) && Outcomes(rows, h) == Outcomes(v, k)
            && AvailableTimes(rows, h) == AvailableTimes(v, k)
  {
    hide Pick, At, Visible;
    var v := Visible(rows, t);
    var h, k := History(rows, s, g), History(v, s, g);
    SamePicked(rows, t, KnownBefore(s), g);
    assert |h| == |Picked(rows, h)| == |Picked(v, k)| == |k|;
    forall i | 0 <= i < |h| ensures At(rows, h[i]) == At(v, k[i]) {
      assert Picked(rows, h)[i] == Picked(v, k)[i];
    }
  }

  lemma VisibleNeeded(rows: seq<Row>, t: int, cfg: Config, s: int, g: CalibrationGroup)
    requires s <= t
    ensures Needed(rows, cfg, s, g) == Needed(Visible(rows, t), cfg, s, g)
  {
    var v := Visible(rows, t);
    FilterMembers(rows, KeptAt(t));
    if i :| 0 <= i < |rows| && rows[i].asOf == s && g in RowCandidates(rows[i], cfg) {
      var r := rows[i];
      assert r in rows && r in v;
      var j :| 0 <= j < |v| && v[j] == r;
    }
    if j :| 0 <= j < |v| && v[j].asOf == s && g in RowCandidates(v[j], cfg) {
      var r := v[j];
      assert r in v && r in rows;
      var i :| 0 <= i < |rows| && rows[i] == r;
    }
  }

  lemma VisibleNewPending(rows: seq<Row>, t: int, cfg: Config, sci: Science, s: int, g: CalibrationGroup)
    requires s <= t
    ensures NewPending(rows, cfg, sci, s, g) == NewPending(Visible(rows, t), cfg, sci, s, g)
  {
    hide Pick, At, Visible, History, Needed;
    var v := Visible(rows, t);
    var c, d := Current(rows, s, g), Current(v, s, g);
    VisibleHistory(rows, t, s, g);
    VisibleNeeded(rows, t, cfg, s, g);
    SamePicked(rows, t, PredictedAt(s), g);
    assert |c| == |Picked(rows, c)| == |Picked(v, d)| == |d|;
    forall i | 0 <= i < |c| ensures Record(rows, cfg, sci, s, g, c[i]) == Record(v, cfg, sci, s, g, d[i]) {
      assert Picked(rows, c)[i] == Picked(v, d)[i];
      assert Record(rows, cfg, sci, s, g, c[i]).probabilities == Record(v, cfg, sci, s, g, d[i]).probabilities;
    }
  }

  lemma {:induction false} VisiblePending(rows: seq<Row>, t: int, cfg: Config, sci: Science, times: seq<int>, g: CalibrationGroup)
    requires NoLater(times, t)
    ensures PendingAfter(rows, cfg, sci, times, g) == PendingAfter(Visible(rows, t), cfg, sci, times, g)
  {
    hide NewPending, Visible;
    if times != [] {
      var n := |times| - 1;
      VisiblePending(rows, t, cfg, sci, times[..n], g);
      VisibleNewPending(rows, t, cfg, sci, times[n], g);
    }
  }

  lemma {:induction false} VisibleResolve(rows: seq<Row>, t: int, cfg: Config, sci: Science, before: seq<int>,
                                          s: int, cs: seq<CalibrationGroup>, depth: nat, p: real)
    requires s <= t && NoLater(before, t) && depth <= |cs| && cfg.minSamples >= 1
    ensures Resolve(rows, cfg, sci, before, s, cs, depth, p) == Resolve(Visible(rows, t), cfg, sci, before, s, cs, depth, p)
    decreases |cs| - depth
  {
    hide Needed, PendingAfter, Pick, History, Visible, NoLater;
    if depth < |cs| {
      VisibleHistory(rows, t, s, cs[depth]);
      VisibleNeeded(rows, t, cfg, s, cs[depth]);
      VisiblePending(rows, t, cfg, sci, before, cs[depth]);
      VisibleResolve(rows, t, cfg, sci, before, s, cs, depth + 1, p);
    }
  }

  lemma {:induction false} BeforeMeaning(times: seq<int>, t: int)
    requires StrictlySorted(times, AtMost)
    ensures StrictlySorted(Before(times, t), AtMost)
    ensures forall x :: x in Before(times, t) <==> x in times && x < t
  {
    if times != [] {
      assert times == [times[0]] + times[1..];
      if times[0] < t {
        BeforeMeaning(times[1..], t);
        var rest := Before(times[1..], t);
        forall j | 0 <= j < |rest| ensures times[0] < rest[j] {
          assert rest[j] in rest;
          var k :| 0 <= k < |times[1..]| && times[1..][k] == rest[j];
          assert times[k + 1] == rest[j];
        }
      } else {
        forall x | x in times ensures x >= t { var k :| 0 <= k < |times| && times[k] == x; }
      }
    }
  }

  lemma AsOfsMembers(rows: seq<Row>, x: int)
    ensures x in AsOfs(rows) <==> exists r :: r in rows && r.asOf == x
  {
    if x in AsOfs(rows) {
      var i :| 0 <= i < |rows| && AsOfs(rows)[i] == x;
      assert rows[i] in rows;
    }
    if r :| r in rows && r.asOf == x {
      var i :| 0 <= i < |rows| && rows[i] == r;
      assert AsOfs(rows)[i] == x;
    }
  }

  lemma VisibleTimes(rows: seq<Row>, t: int, s: int)
    requires s <= t
    ensures Before(Times(rows), s) == Before(Times(Visible(rows, t)), s)
  {
    hide AsOfs, Unique, Before;
    var v := Visible(rows, t);
    UniqueMeaning(AsOfs(rows), AtMost);
    UniqueMeaning(AsOfs(v), AtMost);
    BeforeMeaning(Times(rows), s);
    BeforeMeaning(Times(v), s);
    FilterMembers(rows, KeptAt(t));
    forall x ensures x in Before(Times(rows), s) <==> x in Before(Times(v), s) {
      AsOfsMembers(rows, x);
      AsOfsMembers(v, x);
      assert x in Times(rows) <==> x in AsOfs(rows);
      assert x in Times(v) <==> x in AsOfs(v);
      assert x in Before(Times(rows), s) <==> x in Times(rows) && x < s;
      assert x in Before(Times(v), s) <==> x in Times(v) && x < s;
    }
    StrictlySortedIsUnique(Before(Times(rows), s), Before(Times(v), s), AtMost);
  }

  lemma VisibleSuffices(rows: seq<Row>, t: int, cfg: Config, sci: Science, r: Row)
    requires cfg.minSamples >= 1 && r.asOf <= t
    ensures CalibratedFor(rows, cfg, sci, r) == CalibratedFor(Visible(rows, t), cfg, sci, r)
  {
    hide Times, Visible, Before, Resolve;
    VisibleTimes(rows, t, r.asOf);
    BeforeMembers(Times(rows), r.asOf);
    VisibleResolve(rows, t, cfg, sci, Before(Times(rows), r.asOf), r.asOf, RowCandidates(r, cfg), 0, r.p);
  }

  predicate SamePrediction(r: Row, r': Row) {
    r.p == r'.p && r.asOf == r'.asOf && r.prop == r'.prop && r.position == r'.position
  }

  /** No leakage: whatever happens to outcomes available at or after `t`, to when
      they become available, and
      whatever rows predicted after `t` and available from `t` on are added,
      removed or changed, every row predicted at or before `t` is calibrated
      exactly the same way. */
  lemma NoLeakage(a: seq<Row>, b: seq<Row>, t: int, cfg: Config, sci: Science, i: nat, j: nat)
    requires SameUntil(Visible(a, t), Visible(b, t), t) && cfg.minSamples >= 1
    requires i < |a| && j < |b| && a[i].asOf <= t && SamePrediction(a[i], b[j])
    ensures CalibratedRow(a, cfg, sci, i) == CalibratedRow(b, cfg, sci, j)
  {
    hide CalibratedFor, Visible, SameUntil;
    VisibleSuffices(a, t, cfg, sci, a[i]);
    VisibleSuffices(b, t, cfg, sci, b[j]);
    SameCalibration(Visible(a, t), Visible(b, t), t, cfg, sci, a[i]);
    SameFor(Visible(b, t), cfg, sci, a[i], b[j]);
  }

  lemma SameFor(rows: seq<Row>, cfg: Config, sci: Science, r: Row, r': Row)
    requires cfg.minSamples >= 1 && SamePrediction(r, r')
    ensures CalibratedFor(rows, cfg, sci, r) == CalibratedFor(rows, cfg, sci, r')
  {
  }

  /** In particular two inputs of the same rows that agree until `t`. */
  lemma {:induction false} OutcomesAloneAreVisible(a: seq<Row>, b: seq<Row>, t: int)
    requires SameUntil(a, b, t)
    ensures SameUntil(Visible(a, t), Visible(b, t), t)
  {
    if a != [] {
      assert SameRow(a[0], b[0], t);
      assert forall i :: 0 <= i < |a[1..]| ==> a[1..][i] == a[i + 1] && b[1..][i] == b[i + 1];
      OutcomesAloneAreVisible(a[1..], b[1..], t);
    }
  }

  // ----- what selection scores, and on which fit

  lemma {:induction false} EligibleMembers(pending: seq<Pending>, t: int)
    ensures forall r :: r in Eligible(pending, t) <==> r in pending && r.availableAt < t
  {
    if pending != [] {
      EligibleMembers(pending[..|pending| - 1], t);
      assert pending == pending[..|pending| - 1] + [pending[|pending| - 1]];
    }
  }

  /** Row `i` is among the candidate predictions that selection at `t` scores for
      the group: predicted before, from a fitted group, and known since. */
  predicate Scores(rows: seq<Row>, cfg: Config, t: int, g: CalibrationGroup, i: nat) {
    && i < |rows| && InGroup(rows[i], g) && rows[i].asOf < t && rows[i].availableAt < t
    && Needed(rows, cfg, rows[i].asOf, g) && Ready(rows, cfg, rows[i].asOf, g)
  }

  lemma NewRecords(rows: seq<Row>, cfg: Config, sci: Science, s: int, g: CalibrationGroup, r: Pending)
    ensures r in NewPending(rows, cfg, sci, s, g) <==>
              Needed(rows, cfg, s, g) && Ready(rows, cfg, s, g)
              && exists i: nat :: i in Current(rows, s, g) && r == Record(rows, cfg, sci, s, g, i)
  {
    hide Needed, Ready, Pick, Record;
    var c := Current(rows, s, g);
    if i: nat :| i in c && r == Record(rows, cfg, sci, s, g, i) {
      var k :| 0 <= k < |c| && c[k] == i;
      assert Records(rows, cfg, sci, s, g, c)[k] == r;
    }
  }

  /** The pending table holds the predictions made at each of the times. */
  lemma {:induction false} PendingRecords(rows: seq<Row>, cfg: Config, sci: Science, times: seq<int>, g: CalibrationGroup, r: Pending)
    ensures r in PendingAfter(rows, cfg, sci, times, g) <==>
              exists s :: s in times && r in NewPending(rows, cfg, sci, s, g)
  {
    hide NewPending;
    if times != [] {
      var n := |times| - 1;
      PendingRecords(rows, cfg, sci, times[..n], g, r);
      assert times == times[..n] + [times[n]];
    }
  }

  /** Selection scores exactly the records of the rows above. A record's own
      row was part of the fit behind it exactly when its outcome was available
      before its own as-of time. */
  lemma SelectionScores(rows: seq<Row>, cfg: Config, sci: Science, t: int, g: CalibrationGroup)
    ensures forall r :: r in Eligible(PendingAfter(rows, cfg, sci, Before(Times(rows), t), g), t) <==>
              exists i: nat :: Scores(rows, cfg, t, g, i) && r == Record(rows, cfg, sci, rows[i].asOf, g, i)
    ensures forall i: nat :: Scores(rows, cfg, t, g, i) ==>
              (i in History(rows, rows[i].asOf, g) <==> rows[i].availableAt < rows[i].asOf)
  {
    hide Needed, Ready, Record, Pick, Times, Before, PendingAfter;
    var times := Before(Times(rows), t);
    var pending := PendingAfter(rows, cfg, sci, times, g);
    EligibleMembers(pending, t);
    forall r ensures r in Eligible(pending, t) <==>
                     exists i: nat :: Scores(rows, cfg, t, g, i) && r == Record(rows, cfg, sci, rows[i].asOf, g, i)
    {
      ScoredRecord(rows, cfg, sci, t, g, r);
    }
    forall i: nat | Scores(rows, cfg, t, g, i)
      ensures i in History(rows, rows[i].asOf, g) <==> rows[i].availableAt < rows[i].asOf
    {
      PickMeaning(rows, |rows|, KnownBefore(rows[i].asOf), g);
    }
  }

  lemma ScoredRecord(rows: seq<Row>, cfg: Config, sci: Science, t: int, g: CalibrationGroup, r: Pending)
    ensures r in PendingAfter(rows, cfg, sci, Before(Times(rows), t), g) && r.availableAt < t <==>
              exists i: nat :: Scores(rows, cfg, t, g, i) && r == Record(rows, cfg, sci, rows[i].asOf, g, i)
  {
    hide Needed, Ready, Pick, Times, Before, PendingAfter, NewPending, Transformed;
    var times := Before(Times(rows), t);
    PendingRecords(rows, cfg, sci, times, g, r);
    TimesMeaning(rows);
    BeforeMeaning(Times(rows), t);
    if r in PendingAfter(rows, cfg, sci, times, g) && r.availableAt < t {
      var s :| s in times && r in NewPending(rows, cfg, sci, s, g);
      NewRecords(rows, cfg, sci, s, g, r);
      PickMeaning(rows, |rows|, PredictedAt(s), g);
      var i: nat :| i in Current(rows, s, g) && r == Record(rows, cfg, sci, s, g, i);
      assert Scores(rows, cfg, t, g, i);
    }
    if i: nat :| Scores(rows, cfg, t, g, i) && r == Record(rows, cfg, sci, rows[i].asOf, g, i) {
      var s := rows[i].asOf;
      assert rows[i] in rows;
      PickMeaning(rows, |rows|, PredictedAt(s), g);
      assert i in Current(rows, s, g);
      NewRecords(rows, cfg, sci, s, g, r);
    }
  }

  /** Some selection scores a candidate on a row it was fitted on. */
  ghost predicate ScoredOnOwnFit(rows: seq<Row>, cfg: Config, t: int, g: CalibrationGroup) {
    exists i: nat :: Scores(rows, cfg, t, g, i) && i in History(rows, rows[i].asOf, g)
  }

  /** A row known before its own as-of time, and predicted before `t` from a
      fitted group. */
  predicate KnownEarly(rows: seq<Row>, cfg: Config, t: int, g: CalibrationGroup, i: nat) {
    && i < |rows| && rows[i].availableAt < rows[i].asOf < t && InGroup(rows[i], g)
    && Needed(rows, cfg, rows[i].asOf, g) && Ready(rows, cfg, rows[i].asOf, g)
  }

  /** It does exactly when some such row exists, and so never while every outcome
      becomes available at its as-of time or later. */
  lemma OutOfSampleExactly(rows: seq<Row>, cfg: Config, sci: Science, t: int, g: CalibrationGroup)
    ensures ScoredOnOwnFit(rows, cfg, t, g) <==> exists i: nat :: KnownEarly(rows, cfg, t, g, i)
  {
    hide Needed, Ready, Pick;
    SelectionScores(rows, cfg, sci, t, g);
    if i: nat :| KnownEarly(rows, cfg, t, g, i) { assert Scores(rows, cfg, t, g, i); }
    if i: nat :| Scores(rows, cfg, t, g, i) && i in History(rows, rows[i].asOf, g) { assert KnownEarly(rows, cfg, t, g, i); }
  }

  /** A row of 5 whose outcome was known at 4: the fit at 5 holds the row itself,
      and a selection at 10 scores its prediction. */
  lemma EarlyOutcomeIsScoredOnOwnFit(sci: Science)
    ensures var rows := [Row(0.5, 0, 0, 1, "p", None), Row(0.5, 1, 5, 4, "p", None)];
            ScoredOnOwnFit(rows, Config(1, [GLOBAL], ["m"]), 10, CalibrationGroup(GLOBAL, "GLOBAL"))
  {
    var rows := [Row(0.5, 0, 0, 1, "p", None), Row(0.5, 1, 5, 4, "p", None)];
    var cfg, g := Config(1, [GLOBAL], ["m"]), CalibrationGroup(GLOBAL, "GLOBAL");
    assert RowCandidates(rows[1], cfg) == [g] by { assert Candidates("p", None, [GLOBAL][..0]) == []; }
    assert Needed(rows, cfg, 5, g);
    assert Pick(rows, 0, KnownBefore(5), g) == [];
    assert Pick(rows, 1, KnownBefore(5), g) == [0];
    assert History(rows, 5, g) == [0, 1];
    assert Outcomes(rows, [0, 1]) == [0, 1];
    assert [0, 1][0] != [0, 1][1];
    assert Ready(rows, cfg, 5, g);
    assert KnownEarly(rows, cfg, 10, g, 1);
    OutOfSampleExactly(rows, cfg, sci, 10, g);
  }

  // ----- every calibrated value is justified

  lemma {:induction false} LatestMember(times: seq<int>)
    requires times != []
    ensures Latest(times) in times && forall s :: s in times ==> s <= Latest(times)
  {
    if |times| > 1 {
      LatestMember(times[1..]);
      assert times == [times[0]] + times[1..];
    }
  }

  /** A qualifying group's evidence: how much there is, and how old it is. */
  lemma EvidenceIsPrior(rows: seq<Row>, cfg: Config, sci: Science, before: seq<int>, t: int, g: CalibrationGroup,
                        depth: nat, p: real)
    requires cfg.minSamples >= 1 && Qualifies(rows, cfg, sci, before, t, g)
    ensures var c := Applied(rows, cfg, sci, before, t, g, depth, p);
            && c.fitRows >= cfg.minSamples && c.selectionRows >= cfg.minSamples
            && c.fitLatest.Some? && c.fitLatest.value < t
            && c.selectionLatest.Some? && c.selectionLatest.value < t
  {
    var h := History(rows, t, g);
    PickMeaning(rows, |rows|, KnownBefore(t), g);
    LatestMember(AvailableTimes(rows, h));
    forall i | 0 <= i < |h| ensures AvailableTimes(rows, h)[i] < t { assert h[i] in h; }
    var pending := PendingAfter(rows, cfg, sci, before, g);
    var e := Eligible(pending, t);
    EligibleMembers(pending, t);
    LatestMember(PendingTimes(e));
    forall i | 0 <= i < |e| ensures PendingTimes(e)[i] < t { assert e[i] in e; }
  }

  /** Why a row was calibrated as it was: the first candidate that qualifies, its
      method the earliest with least loss on earlier predictions; if no candidate
      qualifies the raw probability is untouched. */
  ghost predicate Justified(rows: seq<Row>, cfg: Config, sci: Science, before: seq<int>, t: int,
                            cs: seq<CalibrationGroup>, p: real, c: Calibrated, d: nat)
    requires d <= |cs|
  {
    && (forall k :: 0 <= k < d ==> !Qualifies(rows, cfg, sci, before, t, cs[k]))
    && if d == |cs| then c == Identity(p)
       else
         var e := Eligible(PendingAfter(rows, cfg, sci, before, cs[d]), t);
         && Qualifies(rows, cfg, sci, before, t, cs[d])
         && c.level == cs[d].level && c.group == cs[d].value && c.depth == d
         && c.fitRows >= cfg.minSamples && c.selectionRows >= cfg.minSamples
         && c.fitLatest.Some? && c.fitLatest.value < t && c.selectionLatest.Some? && c.selectionLatest.value < t
         && exists m :: 0 <= m < |cfg.methods| && c.methodName == cfg.methods[m] && EarliestLeastLoss(cfg, sci, e, m)
              && c.p == Transformed(rows, sci, t, cs[d], cfg.methods[m], p)
  }

  ghost predicate EarliestLeastLoss(cfg: Config, sci: Science, e: seq<Pending>, m: nat) {
    && (forall k :: 0 <= k < |cfg.methods| ==> Loss(sci, e, m) <= Loss(sci, e, k))
    && (forall k :: 0 <= k < m ==> Loss(sci, e, m) < Loss(sci, e, k))
  }

  lemma AppliedIsJustified(rows: seq<Row>, cfg: Config, sci: Science, before: seq<int>, t: int,
                           cs: seq<CalibrationGroup>, d: nat, p: real)
    requires cfg.minSamples >= 1 && d < |cs| && Qualifies(rows, cfg, sci, before, t, cs[d])
    requires forall k :: 0 <= k < d ==> !Qualifies(rows, cfg, sci, before, t, cs[k])
    ensures Justified(rows, cfg, sci, before, t, cs, p, Applied(rows, cfg, sci, before, t, cs[d], d, p), d)
  {
    var e := Eligible(PendingAfter(rows, cfg, sci, before, cs[d]), t);
    var m := BestMethod(sci, e, |cfg.methods|);
    var c := Applied(rows, cfg, sci, before, t, cs[d], d, p);
    EvidenceIsPrior(rows, cfg, sci, before, t, cs[d], d, p);
    assert EarliestLeastLoss(cfg, sci, e, m);
    assert c.methodName == cfg.methods[m] && c.p == Transformed(rows, sci, t, cs[d], cfg.methods[m], p);
  }

  lemma {:induction false} ResolveIsJustified(rows: seq<Row>, cfg: Config, sci: Science, before: seq<int>, t: int,
                                              cs: seq<CalibrationGroup>, depth: nat, p: real) returns (d: nat)
    requires cfg.minSamples >= 1 && depth <= |cs|
    requires forall k :: 0 <= k < depth ==> !Qualifies(rows, cfg, sci, before, t, cs[k])
    ensures depth <= d <= |cs|
    ensures Justified(rows, cfg, sci, before, t, cs, p, Resolve(rows, cfg, sci, before, t, cs, depth, p), d)
    decreases |cs| - depth
  {
    d := depth;
    if depth < |cs| {
      if Qualifies(rows, cfg, sci, before, t, cs[depth]) {
        AppliedIsJustified(rows, cfg, sci, before, t, cs, depth, p);
      } else {
        d := ResolveIsJustified(rows, cfg, sci, before, t, cs, depth + 1, p);
      }
    }
  }

  /** Every row's result is justified at its own prediction time. */
  lemma EveryRowJustified(rows: seq<Row>, cfg: Config, sci: Science, i: nat) returns (d: nat)
    requires i < |rows| && cfg.minSamples >= 1
    ensures var t, cs := rows[i].asOf, RowCandidates(rows[i], cfg);
            && d <= |cs|
            && Justified(rows, cfg, sci, Before(Times(rows), t), t, cs, rows[i].p, CalibratedRow(rows, cfg, sci, i), d)
  {
    var t, cs := rows[i].asOf, RowCandidates(rows[i], cfg);
    d := ResolveIsJustified(rows, cfg, sci, Before(Times(rows), t), t, cs, 0, rows[i].p);
  }

  // ----- the times the loop visits

  lemma TimesMeaning(rows: seq<Row>)
    ensures forall i, j :: 0 <= i < j < |Times(rows)| ==> Times(rows)[i] < Times(rows)[j]
    ensures forall t :: t in Times(rows) <==> exists r :: r in rows && r.asOf == t
  {
    hide AsOfs, Unique;
    UniqueMeaning(AsOfs(rows), AtMost);
    forall t ensures t in Times(rows) <==> exists r :: r in rows && r.asOf == t {
      AsOfsMembers(rows, t);
      assert t in Times(rows) <==> t in AsOfs(rows);
    }
  }

  lemma {:induction false} BeforeIsPrefix(times: seq<int>, k: nat)
    requires k < |times| && forall i, j :: 0 <= i < j < |times| ==> times[i] < times[j]
    ensures Before(times, times[k]) == times[..k]
  {
    if k > 0 {
      BeforeIsPrefix(times[1..], k - 1);
      assert times[1..][..k - 1] == times[..k][1..];
    }
  }
}
