/** What the selections return and what an append stores, row by row, in terms of
    the columns alone. */
module OutcomeMeaning {
  import opened Options
  import opened StableSorting
  import opened WarehouseRows
  import opened OutcomeVersions
  import opened OutcomeTheorems

  /** Seen later; or at the same time and ingested later, a known time after an
      unknown one; or then available later; or then of a greater id. */
  predicate Later(a: Version, b: Version) {
    || a.firstSeen > b.firstSeen
    || (a.firstSeen == b.firstSeen
        && (|| (a.ingestedAt.Some? && (b.ingestedAt.None? || a.ingestedAt.value > b.ingestedAt.value))
            || (a.ingestedAt == b.ingestedAt
                && (a.availableAt > b.availableAt || (a.availableAt == b.availableAt && a.id > b.id)))))
  }

  lemma OrderIsNotLater(a: Version, b: Version)
    ensures OrderLeq(a, b) <==> !Later(a, b)
  {
  }

  // ----- the selections

  /** No status, or one that starts with "Final". */
  predicate Settled(v: Version) { v.status == None || "Final" <= v.status.value }

  /** The latest final version of a key is the one no other settled version of the
      key is later than. */
  lemma LatestFinalExactly(t: seq<Version>, v: Version)
    requires DistinctIds(t)
    ensures v in LatestFinal(t) <==>
              v in t && Settled(v) && forall w :: w in t && w.key == v.key && Settled(w) ==> !Later(w, v)
  {
    hide OrderLeq;
    var finals := Filter(t, IsFinal());
    forall w ensures IsFinal()(w) <==> Settled(w) { FinalIsSettled(w); }
    FilterMembers(t, IsFinal());
    FilteredIds(t, IsFinal());
    SelectIsFilter(finals);
    FilterMembers(finals, IsGreatest(finals));
    forall w ensures OrderLeq(w, v) <==> !Later(w, v) { OrderIsNotLater(w, v); }
  }

  lemma FinalIsSettled(v: Version)
    ensures FinalStatus(v.status) <==> Settled(v)
  {
    if v.status.Some? && |v.status.value| >= 5 { assert "Final" <= v.status.value <==> v.status.value[..5] == "Final"; }
  }

  /** What was known at a time is, for each key, the version available by then that
      no other is later than; in strict use only times that are not estimated. */
  lemma KnownAtExactly(t: seq<Version>, at: int, strict: bool, v: Version)
    requires DistinctIds(t)
    ensures v in AsKnownAt(t, at, strict) <==>
              && v in t && v.availableAt <= at && (strict ==> !v.estimated)
              && forall w :: w in t && w.key == v.key && w.availableAt <= at && (strict ==> !w.estimated) ==> !Later(w, v)
  {
    hide OrderLeq;
    var visible := Filter(t, VisibleAt(at, strict));
    FilterMembers(t, VisibleAt(at, strict));
    FilteredIds(t, VisibleAt(at, strict));
    SelectIsFilter(visible);
    FilterMembers(visible, IsGreatest(visible));
    forall w ensures OrderLeq(w, v) <==> !Later(w, v) { OrderIsNotLater(w, v); }
  }

  /** A game that ended in overtime is final; one in progress is not. */
  lemma OvertimeIsFinal(v: Version)
    ensures v.status == Some("Final/OT") ==> LatestFinal([v]) == [v]
    ensures v.status == Some("Live") ==> LatestFinal([v]) == []
  {
    FinalIsSettled(v);
    var finals := Filter([v], IsFinal());
    if v.status == Some("Final/OT") {
      assert v.status.value[..5] == "Final";
      FilterAll([v], IsFinal());
      assert WinsLast([v], 0);
      assert SelectPrefix([v], 0, true) == [];
    }
    if v.status == Some("Live") {
      assert v.status.value[0] != "Final"[0];
      FilterNone([v], IsFinal());
    }
  }

  // ----- what is stored

  /** A version says what its row says, seen when the row was ingested, by the run
      that appended it; a new key is available when the row is, a correction not
      before it was seen, and no longer by an estimated time. */
  predicate Says(v: Version, b: BatchRow, runId: string, correction: bool, h: Hashes) {
    && v.key == b.key && v.content == b.content && v.status == b.status && v.runId == runId
    && v.firstSeen == b.ingestedAt && v.ingestedAt == Some(b.ingestedAt)
    && v.sha == h.content(b.content) && v.id == h.version(b.key, h.content(b.content), b.ingestedAt)
    && (if correction then v.availableAt >= b.availableAt && v.availableAt >= b.ingestedAt
                           && (v.availableAt == b.availableAt || v.availableAt == b.ingestedAt) && !v.estimated
        else v.availableAt == b.availableAt && v.estimated == b.estimated)
  }

  /** Every version an accepted append adds says what a row of the batch says: of
      a key without a settled version, or one whose latest settled version has
      another content hash. */
  lemma AddedSays(stored: seq<Version>, frame: seq<BatchRow>, args: AppendArgs, h: Hashes, v: Version) returns (b: BatchRow)
    requires AppendVersions(stored, frame, args, h).Written?
    requires v in AppendVersions(stored, frame, args, h).table && v !in stored
    ensures b in frame
    ensures var correction := exists w :: w in stored && w.key == b.key && Settled(w);
            && Says(v, b, args.runId, correction, h)
            && forall w :: w in stored && w.key == b.key && w in LatestFinal(stored) ==> w.sha != h.content(b.content)
  {
    hide AppendVersions, LatestFinal, Distinct, DistinctIds, Added, OrderLeq;
    WrittenTable(stored, frame, args, h);
    b := AddedVersion(stored, frame, args, h, v);
    DistinctMembers(frame, h);
    LatestFinalMeaning(stored, b.key);
    forall w: Version ensures FinalStatus(w.status) <==> Settled(w) { FinalIsSettled(w); }
    forall w | w in stored && w.key == b.key && w in LatestFinal(stored) ensures w.sha != h.content(b.content) { LatestIsLookedUp(stored, w); }
  }

  /** The looked-up version of a key is the only one selected. */
  lemma LatestIsLookedUp(t: seq<Version>, w: Version)
    requires DistinctIds(t) && w in LatestFinal(t)
    ensures LookUp(LatestFinal(t), w.key) == Some(w)
  {
    hide LatestFinal, OrderLeq;
    LatestFinalExactly(t, w);
    LatestFinalMeaning(t, w.key);
    FinalIsSettled(w);
    var l := LookUp(LatestFinal(t), w.key).value;
    FinalIsSettled(l);
    OrderIsNotLater(l, w);
    OrderLeqOrder(l, w, l);
    SameIdSame(t, l, w);
  }

  /** No stored version of the row's key is settled. */
  ghost function Fresh(stored: seq<Version>): BatchRow -> bool {
    (b: BatchRow) => forall w :: w in stored && w.key == b.key ==> !Settled(w)
  }

  /** The latest settled version of the row's key has another content hash. */
  ghost function Changed(stored: seq<Version>, h: Hashes): BatchRow -> bool {
    (b: BatchRow) => exists w :: w in stored && w.key == b.key && w in LatestFinal(stored) && w.sha != h.content(b.content)
  }

  lemma FreshIsNew(stored: seq<Version>, b: BatchRow)
    requires DistinctIds(stored)
    ensures IsNewKey(b, LatestFinal(stored)) <==> Fresh(stored)(b)
  {
    hide LatestFinal;
    LatestFinalMeaning(stored, b.key);
    forall w: Version ensures FinalStatus(w.status) <==> Settled(w) { FinalIsSettled(w); }
  }

  lemma ChangedIsCorrection(stored: seq<Version>, b: BatchRow, h: Hashes)
    requires DistinctIds(stored)
    ensures IsCorrection(b, LatestFinal(stored), h) <==> Changed(stored, h)(b)
  {
    hide LatestFinal;
    LatestFinalMeaning(stored, b.key);
    LookUpMeaning(LatestFinal(stored), b.key);
    forall w | w in LatestFinal(stored) && w.key == b.key ensures LookUp(LatestFinal(stored), b.key) == Some(w) { LatestIsLookedUp(stored, w); }
  }

  lemma {:induction false} PartsOfBatch(batch: seq<BatchRow>, p: BatchRow -> bool, q: BatchRow -> bool)
    requires forall b :: !(p(b) && q(b))
    ensures |Filter(batch, p)| + |Filter(batch, q)| <= |batch|
  {
    if batch != [] { PartsOfBatch(batch[1..], p, q); }
  }

  /** What an append counts: rows of fresh keys, changed rows, the rest of the
      de-duplicated batch, and the versions stored in the end. */
  lemma CountsAre(stored: seq<Version>, frame: seq<BatchRow>, args: AppendArgs, h: Hashes)
    requires DistinctIds(stored) && frame != [] && !AppendVersions(stored, frame, args, h).Refused?
    ensures var o, batch := AppendVersions(stored, frame, args, h), Distinct(frame, h);
            && o.result.newKeys == |Filter(batch, Fresh(stored))|
            && o.result.corrections == |Filter(batch, Changed(stored, h))|
            && o.result.newKeys + o.result.corrections + o.result.same == |batch|
            && o.result.stored == |stored| + o.result.newKeys + o.result.corrections
            && (o.Written? ==> |o.table| == o.result.stored)
            && (o.Unwritten? <==> o.result.newKeys + o.result.corrections == 0)
  {
    hide LatestFinal, Distinct, DistinctIds, StoredOrder, Preserved, StableSort, Filter, EstimateRefused, OneContentPerKey, Stale, Fresh, Changed;
    var latest, batch := LatestFinal(stored), Distinct(frame, h);
    forall b ensures NewKeyIn(latest)(b) == Fresh(stored)(b) { FreshIsNew(stored, b); }
    forall b ensures CorrectionIn(latest, h)(b) == Changed(stored, h)(b) { ChangedIsCorrection(stored, b, h); }
    FilterAgree(batch, NewKeyIn(latest), Fresh(stored));
    FilterAgree(batch, CorrectionIn(latest, h), Changed(stored, h));
    PartsOfBatch(batch, NewKeyIn(latest), CorrectionIn(latest, h));
    StoredOrderIsPreorder();
    SortMembers(stored + Added(stored, frame, args, h), StoredOrder());
  }

  /** A row stored before versioning keeps its columns, is seen when it was
      ingested or else when it was available, and has no status. */
  lemma MigratedSays(rows: seq<LegacyRow>, h: Hashes, i: nat)
    requires i < |rows|
    ensures |Migrate(Legacy(rows), h)| == |rows|
    ensures var v, r := Migrate(Legacy(rows), h)[i], rows[i];
            && v.key == r.key && v.content == r.content && v.availableAt == r.availableAt
            && v.ingestedAt == r.ingestedAt && v.estimated == r.estimated
            && v.firstSeen == (match r.ingestedAt case Some(at) => at case None => r.availableAt)
            && v.sha == h.content(r.content) && v.id == h.version(r.key, v.sha, v.firstSeen)
            && Settled(v) && v.runId == "legacy-migration"
  {
  }

  /** The stored table ascends in available time; then in game, in entity, in first
      seen time and in id. */
  lemma StoredAscends(stored: seq<Version>, frame: seq<BatchRow>, args: AppendArgs, h: Hashes, i: nat, j: nat)
    requires AppendVersions(stored, frame, args, h).Written?
    requires i < j < |AppendVersions(stored, frame, args, h).table|
    ensures var t := AppendVersions(stored, frame, args, h).table;
            var a, b := t[i], t[j];
            && a.availableAt <= b.availableAt
            && (a.availableAt == b.availableAt ==> PointsLeq(a.key.game, b.key.game))
            && (a.availableAt == b.availableAt && a.key.game == b.key.game ==> PointsLeq(a.key.entity, b.key.entity))
            && (a.availableAt == b.availableAt && a.key == b.key ==>
                  a.firstSeen < b.firstSeen || (a.firstSeen == b.firstSeen && a.id < b.id))
  {
    hide AppendVersions, Added, PointsLeq;
    var t := AppendVersions(stored, frame, args, h).table;
    WrittenTable(stored, frame, args, h);
    WrittenIsSorted(stored, frame, args, h);
    assert StoredOrder()(t[i], t[j]);
    PointsLeqOrder(t[i].key.game, t[i].key.game, []);
    PointsLeqOrder(t[i].key.entity, t[i].key.entity, []);
  }
}
