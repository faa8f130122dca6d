/** The stored outcome table and the append that rewrites it, step by step. */
module OutcomeStore {
  import opened Options
  import opened StableSorting
  import opened OutcomeVersions
  import opened OutcomeTheorems

  // ----- what a batch is refused for, in terms of its rows and the stored versions

  /** Two rows of one key with different contents. */
  predicate Conflicting(frame: seq<BatchRow>, h: Hashes) {
    exists a, b :: a in frame && b in frame && a.key == b.key && h.content(a.content) != h.content(b.content)
  }

  /** A changed row that was seen no later than the latest final version it would
      supersede. */
  ghost predicate StaleRow(stored: seq<Version>, b: BatchRow, h: Hashes) {
    exists l :: l in stored && l.key == b.key && LatestOfFinals(stored, l) && h.content(b.content) != l.sha && b.ingestedAt <= l.firstSeen
  }

  ghost predicate LatestOfFinals(stored: seq<Version>, l: Version) {
    FinalStatus(l.status) && forall w :: w in stored && w.key == l.key && FinalStatus(w.status) ==> OrderLeq(w, l)
  }

  ghost predicate Stales(stored: seq<Version>, frame: seq<BatchRow>, h: Hashes) {
    exists b :: b in Distinct(frame, h) && StaleRow(stored, b, h)
  }

  /** Something is to be added, and some version id would occur twice. */
  ghost predicate IdsClash(stored: seq<Version>, frame: seq<BatchRow>, args: AppendArgs, h: Hashes) {
    Added(stored, frame, args, h) != [] && !DistinctIds(stored + Added(stored, frame, args, h))
  }

  /** Why a batch is refused, if it is: the first reason in this order. */
  ghost function FirstRefusal(stored: seq<Version>, frame: seq<BatchRow>, args: AppendArgs, h: Hashes): Option<Refusal> {
    if EstimateRefused(frame, args) then Some(EstimatedAvailability)
    else if Conflicting(frame, h) then Some(ConflictingContents)
    else if Stales(stored, frame, h) then Some(StaleCorrection)
    else if IdsClash(stored, frame, args, h) then Some(DuplicateVersionId)
    else None
  }

  /** A non-empty batch is refused for that reason and no other; the preservation
      check is never one. */
  lemma RefusalOrder(stored: seq<Version>, frame: seq<BatchRow>, args: AppendArgs, h: Hashes)
    requires DistinctIds(stored) && frame != []
    ensures var o, why := AppendVersions(stored, frame, args, h), FirstRefusal(stored, frame, args, h);
            if why.Some? then o == Refused(why.value)
            else if Added(stored, frame, args, h) == [] then o.Unwritten?
            else o.Written?
  {
    hide LatestFinal, Distinct, EstimateRefused, OneContentPerKey, Stale, Additions, DistinctIds, Preserved, StoredOrder, Conflicting, Stales, CorrectionRows, NewRows, StableSort;
    ConflictsAre(frame, h);
    StalesAre(stored, frame, h);
    SortKeepsIds(stored + Added(stored, frame, args, h));
    if DistinctIds(stored + Added(stored, frame, args, h)) { PreservedUnderSort(stored, Added(stored, frame, args, h)); }
  }

  lemma {:induction false} DistinctCovers(frame: seq<BatchRow>, h: Hashes, b: BatchRow) returns (r: BatchRow)
    requires b in frame
    ensures r in Distinct(frame, h) && r.key == b.key && h.content(r.content) == h.content(b.content)
  {
    var n := |frame| - 1;
    assert frame == frame[..n] + [frame[n]];
    if b in frame[..n] {
      r := DistinctCovers(frame[..n], h, b);
    } else if r' :| r' in Distinct(frame[..n], h) && r'.key == b.key && h.content(r'.content) == h.content(b.content) {
      r := r';
    } else {
      r := b;
    }
  }

  lemma {:induction false} DistinctApart(frame: seq<BatchRow>, h: Hashes, i: nat, j: nat)
    requires i < j < |Distinct(frame, h)|
    ensures Distinct(frame, h)[i].key != Distinct(frame, h)[j].key
         || h.content(Distinct(frame, h)[i].content) != h.content(Distinct(frame, h)[j].content)
  {
    var n := |frame| - 1;
    var rest := Distinct(frame[..n], h);
    if j < |rest| { DistinctApart(frame[..n], h, i, j); } else { assert rest[i] in rest; }
  }

  lemma ConflictsAre(frame: seq<BatchRow>, h: Hashes)
    ensures Conflicting(frame, h) <==> !OneContentPerKey(Distinct(frame, h))
  {
    hide Conflicting, OneContentPerKey, Distinct;
    if Conflicting(frame, h) { ConflictSurvives(frame, h); }
    if !OneContentPerKey(Distinct(frame, h)) { ConflictIsOffered(frame, h); }
  }

  lemma ConflictSurvives(frame: seq<BatchRow>, h: Hashes)
    requires Conflicting(frame, h)
    ensures !OneContentPerKey(Distinct(frame, h))
  {
    hide Distinct;
    var batch := Distinct(frame, h);
    var a, b :| a in frame && b in frame && a.key == b.key && h.content(a.content) != h.content(b.content);
    var r := DistinctCovers(frame, h, a);
    var s := DistinctCovers(frame, h, b);
    var i :| 0 <= i < |batch| && batch[i] == r;
    var j :| 0 <= j < |batch| && batch[j] == s;
  }

  lemma ConflictIsOffered(frame: seq<BatchRow>, h: Hashes)
    requires !OneContentPerKey(Distinct(frame, h))
    ensures Conflicting(frame, h)
  {
    hide Distinct;
    var batch := Distinct(frame, h);
    DistinctMembers(frame, h);
    var i, j :| 0 <= i < j < |batch| && batch[i].key == batch[j].key;
    DistinctApart(frame, h, i, j);
    var a, b := batch[i], batch[j];
    assert a in batch && b in batch;
  }

  lemma StaleRowIs(stored: seq<Version>, b: BatchRow, h: Hashes)
    requires DistinctIds(stored)
    ensures StaleRow(stored, b, h) <==> IsCorrection(b, LatestFinal(stored), h) && Stale(b, LatestFinal(stored))
  {
    hide LatestFinal, OrderLeq;
    LatestFinalMeaning(stored, b.key);
    var latest := LookUp(LatestFinal(stored), b.key);
    if StaleRow(stored, b, h) {
      var l :| l in stored && l.key == b.key && LatestOfFinals(stored, l) && h.content(b.content) != l.sha && b.ingestedAt <= l.firstSeen;
      OrderLeqOrder(l, latest.value, l);
      SameIdSame(stored, l, latest.value);
    }
  }

  lemma StalesAre(stored: seq<Version>, frame: seq<BatchRow>, h: Hashes)
    requires DistinctIds(stored)
    ensures Stales(stored, frame, h)
            <==> exists b :: b in CorrectionRows(Distinct(frame, h), LatestFinal(stored), h) && Stale(b, LatestFinal(stored))
  {
    hide LatestFinal, Distinct, StaleRow, Stale, IsCorrection;
    var latest := LatestFinal(stored);
    FilterMembers(Distinct(frame, h), CorrectionIn(latest, h));
    forall b | b in Distinct(frame, h) ensures StaleRow(stored, b, h) <==> IsCorrection(b, latest, h) && Stale(b, latest) {
      StaleRowIs(stored, b, h);
    }
  }

  // ----- the steps of an append

  method MigrateLegacyRows(t: Table, h: Hashes) returns (rows: seq<Version>)
    ensures rows == Migrate(t, h)
  {
    if t.Versioned? { return t.versions; }
    rows := [];
    for i := 0 to |t.legacy|
      invariant |rows| == i && forall j :: 0 <= j < i ==> rows[j] == MigrateRow(t.legacy[j], h)
    {
      rows := rows + [MigrateRow(t.legacy[i], h)];
    }
  }

  method AnyEstimated(frame: seq<BatchRow>) returns (found: bool)
    ensures found <==> exists b :: b in frame && b.estimated
  {
    for i := 0 to |frame|
      invariant forall j :: 0 <= j < i ==> !frame[j].estimated
    {
      if frame[i].estimated {
        assert frame[i] in frame;
        return true;
      }
    }
    found := false;
  }

  /** Identical repeats of a key and content collapse to the first. */
  method DropRepeats(frame: seq<BatchRow>, h: Hashes) returns (batch: seq<BatchRow>)
    ensures batch == Distinct(frame, h)
  {
    batch := [];
    for i := 0 to |frame|
      invariant batch == Distinct(frame[..i], h)
    {
      assert frame[..i + 1][..i] == frame[..i];
      var b := frame[i];
      if !(exists r :: r in batch && r.key == b.key && h.content(r.content) == h.content(b.content)) {
        batch := batch + [b];
      }
    }
    assert frame[..|frame|] == frame;
  }

  method KeysDistinct(batch: seq<BatchRow>) returns (distinct: bool)
    ensures distinct == OneContentPerKey(batch)
  {
    var keys: set<NaturalKey> := {};
    for i := 0 to |batch|
      invariant forall k :: k in keys <==> exists j :: 0 <= j < i && batch[j].key == k
      invariant forall j, k :: 0 <= j < k < i ==> batch[j].key != batch[k].key
    {
      if batch[i].key in keys { return false; }
      keys := keys + {batch[i].key};
    }
    distinct := true;
  }

  /** The left join with the latest final versions, split by what it finds. */
  method SplitByLatest(batch: seq<BatchRow>, latest: seq<Version>, h: Hashes) returns (news: seq<BatchRow>, fixes: seq<BatchRow>)
    ensures news == NewRows(batch, latest) && fixes == CorrectionRows(batch, latest, h)
  {
    news, fixes := [], [];
    for i := 0 to |batch|
      invariant news == Filter(batch[..i], NewKeyIn(latest)) && fixes == Filter(batch[..i], CorrectionIn(latest, h))
    {
      FilterStep(batch, i, NewKeyIn(latest));
      FilterStep(batch, i, CorrectionIn(latest, h));
      var found := LookUp(latest, batch[i].key);
      if found.None? {
        news := news + [batch[i]];
      } else if h.content(batch[i].content) != found.value.sha {
        fixes := fixes + [batch[i]];
      }
    }
    assert batch[..|batch|] == batch;
  }

  method AnyStale(fixes: seq<BatchRow>, latest: seq<Version>) returns (stale: bool)
    ensures stale <==> exists b :: b in fixes && Stale(b, latest)
  {
    for i := 0 to |fixes|
      invariant forall j :: 0 <= j < i ==> !Stale(fixes[j], latest)
    {
      if Stale(fixes[i], latest) {
        assert fixes[i] in fixes;
        return true;
      }
    }
    stale := false;
  }

  method BuildVersions(rows: seq<BatchRow>, args: AppendArgs, h: Hashes, correction: bool) returns (versions: seq<Version>)
    ensures versions == Versions(rows, args, h, correction)
  {
    versions := [];
    for i := 0 to |rows|
      invariant |versions| == i && forall j :: 0 <= j < i ==> versions[j] == NewVersion(rows[j], args, h, correction)
    {
      versions := versions + [NewVersion(rows[i], args, h, correction)];
    }
  }

  method IdsDistinct(t: seq<Version>) returns (distinct: bool)
    ensures distinct == DistinctIds(t)
  {
    var ids: seq<nat> := [];
    for i := 0 to |t|
      invariant |ids| == i && forall j :: 0 <= j < i ==> ids[j] == t[j].id
      invariant forall j, k :: 0 <= j < k < i ==> t[j].id != t[k].id
    {
      if j :| 0 <= j < i && ids[j] == t[i].id { return false; }
      ids := ids + [t[i].id];
    }
    distinct := true;
  }

  /** The versions stored under the old ids are the old versions. */
  method CheckPreserved(stored: seq<Version>, written: seq<Version>) returns (kept: bool)
    ensures kept == Preserved(stored, written)
  {
    var found: seq<Version> := [];
    for i := 0 to |written|
      invariant found == Filter(written[..i], StoredId(stored))
    {
      FilterStep(written, i, StoredId(stored));
      if exists v :: v in stored && v.id == written[i].id { found := found + [written[i]]; }
    }
    assert written[..|written|] == written;
    kept := multiset(found) == multiset(stored);
  }

  class OutcomeTable {
    const hashes: Hashes
    var table: Table

    constructor (hashes: Hashes, table: Table)
      ensures this.hashes == hashes && this.table == table
    {
      this.hashes, this.table := hashes, table;
    }

    /** Nothing is written unless every check passes; then the table is the sorted
        union of the stored versions, unchanged, and one version for each taken
        row. */
    method AppendOutcomeVersions(frame: seq<BatchRow>, args: AppendArgs) returns (outcome: AppendOutcome)
      modifies this`table
      ensures outcome == AppendVersions(old(Migrate(table, hashes)), frame, args, hashes)
      ensures !outcome.Written? ==> table == old(table)
      ensures var stored := old(Migrate(table, hashes));
              frame != [] && DistinctIds(stored) ==>
                && (outcome.Refused? <==> FirstRefusal(stored, frame, args, hashes).Some?)
                && (outcome.Refused? ==> FirstRefusal(stored, frame, args, hashes) == Some(outcome.why))
                && (outcome.Unwritten? ==> Added(stored, frame, args, hashes) == [])
      ensures var stored, h := old(Migrate(table, hashes)), hashes;
              outcome.Written? ==>
                && table == Versioned(outcome.table) && Sorted(outcome.table, StoredOrder()) && DistinctIds(outcome.table)
                && (forall v :: v in stored ==> v in outcome.table)
                && (forall v :: v in outcome.table && v !in stored ==>
                      exists b :: b in Distinct(frame, h) && Taken(b, LatestFinal(stored), h) && v == VersionOf(b, LatestFinal(stored), args, h))
                && (forall b :: b in Distinct(frame, h) && Taken(b, LatestFinal(stored), h) ==>
                      VersionOf(b, LatestFinal(stored), args, h) in outcome.table)
                && |outcome.table| == |stored| + outcome.result.newKeys + outcome.result.corrections
    {
      hide LatestFinal, StableSort, Distinct, OneContentPerKey, Preserved, DistinctIds, StoredOrder, Filter, Migrate, FirstRefusal, Added;
      var stored := MigrateLegacyRows(table, hashes);
      if frame != [] && DistinctIds(stored) { RefusalOrder(stored, frame, args, hashes); }
      if frame == [] { return Unwritten(Appended(0, 0, 0, |stored|)); }
      var estimated := AnyEstimated(frame);
      if estimated && (!args.allowEstimated || args.strictSeason) { return Refused(EstimatedAvailability); }
      var batch := DropRepeats(frame, hashes);
      var distinct := KeysDistinct(batch);
      if !distinct { return Refused(ConflictingContents); }
      var latest := LatestFinal(stored);
      var news, fixes := SplitByLatest(batch, latest, hashes);
      var same := if |batch| >= |news| + |fixes| then |batch| - |news| - |fixes| else 0;
      var stale := AnyStale(fixes, latest);
      if stale { return Refused(StaleCorrection); }
      var firsts := BuildVersions(news, args, hashes, false);
      var corrected := BuildVersions(fixes, args, hashes, true);
      if firsts + corrected == [] { return Unwritten(Appended(0, 0, same, |stored|)); }
      var out := StableSort(stored + (firsts + corrected), StoredOrder());
      var unique := IdsDistinct(out);
      if !unique { return Refused(DuplicateVersionId); }
      var kept := CheckPreserved(stored, out);
      if !kept { return Refused(NotPreserved); }
      outcome := Written(out, Appended(|news|, |fixes|, same, |out|));
      table := Versioned(out);
      // the table read back is the one written, so the same check holds of it
      assert Preserved(stored, Migrate(table, hashes)) by { ReadBack(out, hashes); }
      WrittenInRows(stored, frame, args, hashes);
    }
  }

  lemma ReadBack(out: seq<Version>, h: Hashes)
    ensures Migrate(Versioned(out), h) == out
  {
  }

  /** An accepted append, row by row. */
  lemma WrittenInRows(stored: seq<Version>, frame: seq<BatchRow>, args: AppendArgs, h: Hashes)
    requires AppendVersions(stored, frame, args, h).Written?
    ensures var t, r := AppendVersions(stored, frame, args, h).table, AppendVersions(stored, frame, args, h).result;
            && Sorted(t, StoredOrder()) && DistinctIds(t) && (forall v :: v in stored ==> v in t)
            && (forall v :: v in t && v !in stored ==>
                  exists b :: b in Distinct(frame, h) && Taken(b, LatestFinal(stored), h) && v == VersionOf(b, LatestFinal(stored), args, h))
            && (forall b :: b in Distinct(frame, h) && Taken(b, LatestFinal(stored), h) ==> VersionOf(b, LatestFinal(stored), args, h) in t)
            && |t| == |stored| + r.newKeys + r.corrections
  {
    hide AppendVersions, LatestFinal, Distinct, DistinctIds, StoredOrder, Added, Taken, VersionOf;
    var t := AppendVersions(stored, frame, args, h).table;
    WrittenTable(stored, frame, args, h);
    WrittenIsSorted(stored, frame, args, h);
    WrittenCounts(stored, frame, args, h);
    forall v | v in t && v !in stored
      ensures exists b :: b in Distinct(frame, h) && Taken(b, LatestFinal(stored), h) && v == VersionOf(b, LatestFinal(stored), args, h)
    {
      var b := AddedVersion(stored, frame, args, h, v);
    }
    forall b | b in Distinct(frame, h) && Taken(b, LatestFinal(stored), h) ensures VersionOf(b, LatestFinal(stored), args, h) in t {
      TakenIsAdded(stored, frame, args, h, b);
    }
  }

  lemma WrittenCounts(stored: seq<Version>, frame: seq<BatchRow>, args: AppendArgs, h: Hashes)
    requires AppendVersions(stored, frame, args, h).Written?
    ensures var o := AppendVersions(stored, frame, args, h);
            |o.table| == |stored| + o.result.newKeys + o.result.corrections
  {
    hide LatestFinal, Distinct, DistinctIds, StoredOrder, Preserved, NewRows, CorrectionRows, Stale, StableSort;
    StoredOrderIsPreorder();
    SortMembers(stored + Added(stored, frame, args, h), StoredOrder());
  }
}
