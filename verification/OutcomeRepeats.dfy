/** What an accepted batch does when its rows are offered again: at once or after
    any later appends, with the same times or others. */
module OutcomeRepeats {
  import opened Options
  import opened StableSorting
  import opened OutcomeVersions
  import opened OutcomeTheorems
  import opened OutcomeChain
  import opened OutcomeStore

  // ----- the same contents offered at once

  /** The same keys and contents in the same order, whatever the times say. */
  predicate SameOffers(a: seq<BatchRow>, b: seq<BatchRow>) {
    |a| == |b| && forall i :: 0 <= i < |a| ==> SameOffer(a[i], b[i])
  }

  predicate SameOffer(a: BatchRow, b: BatchRow) { a.key == b.key && a.content == b.content }

  lemma {:induction false} SameOffersDistinct(a: seq<BatchRow>, b: seq<BatchRow>, h: Hashes)
    requires SameOffers(a, b)
    ensures SameOffers(Distinct(a, h), Distinct(b, h))
  {
    if a != [] {
      var n := |a| - 1;
      SameOffersDistinct(a[..n], b[..n], h);
      var da, db := Distinct(a[..n], h), Distinct(b[..n], h);
      if r :| r in da && r.key == a[n].key && h.content(r.content) == h.content(a[n].content) {
        var i :| 0 <= i < |da| && da[i] == r;
        assert SameOffer(da[i], db[i]) && db[i] in db;
      }
      if r :| r in db && r.key == b[n].key && h.content(r.content) == h.content(b[n].content) {
        var i :| 0 <= i < |db| && db[i] == r;
        assert SameOffer(da[i], db[i]) && da[i] in da;
      }
    }
  }

  lemma FinalsAfter(stored: seq<Version>, frame: seq<BatchRow>, args: AppendArgs, h: Hashes, b: BatchRow)
    requires AppendVersions(stored, frame, args, h).Written? && b in Distinct(frame, h)
    ensures var latest := LatestFinal(stored);
            forall w :: w in AppendVersions(stored, frame, args, h).table && w.key == b.key ==>
              w in stored || (Taken(b, latest, h) && w == VersionOf(b, latest, args, h))
  {
    hide AppendVersions, LatestFinal, Distinct, Added, Taken;
    var t, batch := AppendVersions(stored, frame, args, h).table, Distinct(frame, h);
    WrittenTable(stored, frame, args, h);
    WrittenMeans(stored, frame, args, h);
    forall w | w in t && w.key == b.key && w !in stored
      ensures Taken(b, LatestFinal(stored), h) && w == VersionOf(b, LatestFinal(stored), args, h)
    {
      var c := AddedVersion(stored, frame, args, h, w);
      assert c.key == w.key;
      var i :| 0 <= i < |batch| && batch[i] == b;
      var j :| 0 <= j < |batch| && batch[j] == c;
      assert b == c;
    }
  }

  /** Which latest final version a key has after an accepted append: its row's own
      if that was taken and is final, and otherwise the one it had. */
  lemma LatestAfter(stored: seq<Version>, frame: seq<BatchRow>, args: AppendArgs, h: Hashes, b: BatchRow)
    requires AppendVersions(stored, frame, args, h).Written? && b in Distinct(frame, h)
    ensures var latest, t := LatestFinal(stored), AppendVersions(stored, frame, args, h).table;
            LookUp(LatestFinal(t), b.key)
            == if Taken(b, latest, h) && FinalStatus(b.status) then Some(VersionOf(b, latest, args, h)) else LookUp(latest, b.key)
  {
    hide AppendVersions, LatestFinal, Distinct, Added, OrderLeq, LookUp;
    var latest, t := LatestFinal(stored), AppendVersions(stored, frame, args, h).table;
    WrittenTable(stored, frame, args, h);
    FinalsAfter(stored, frame, args, h, b);
    LatestFinalMeaning(stored, b.key);
    LatestFinalMeaning(t, b.key);
    var l, l' := LookUp(latest, b.key), LookUp(LatestFinal(t), b.key);
    if Taken(b, latest, h) && FinalStatus(b.status) {
      var v := VersionOf(b, latest, args, h);
      TakenIsAdded(stored, frame, args, h, b);
      var best := l'.value;
      if best in stored {
        TakenAfterFinals(stored, frame, args, h, b, best);
        EarlierIsLess(best, v);
        assert false;
      }
    } else if l.Some? {
      OrderLeqOrder(l.value, l'.value, l.value);
      SameIdSame(stored, l.value, l'.value);
    }
  }

  lemma EarlierIsLess(a: Version, b: Version)
    requires a.firstSeen < b.firstSeen
    ensures OrderLeq(a, b) && !OrderLeq(b, a)
  {
  }

  /** After an accepted append, a row with the same key and content is taken again
      exactly when it was taken under a status that is not final. */
  lemma TakenAgain(stored: seq<Version>, frame: seq<BatchRow>, args: AppendArgs, h: Hashes, b: BatchRow, again: BatchRow)
    requires AppendVersions(stored, frame, args, h).Written? && b in Distinct(frame, h) && SameOffer(b, again)
    ensures Taken(again, LatestFinal(AppendVersions(stored, frame, args, h).table), h)
            <==> Taken(b, LatestFinal(stored), h) && !FinalStatus(b.status)
  {
    hide AppendVersions, LatestFinal, Distinct, LookUp;
    LatestAfter(stored, frame, args, h, b);
  }

  lemma OneContentAgain(a: seq<BatchRow>, b: seq<BatchRow>)
    requires SameOffers(a, b) && OneContentPerKey(a)
    ensures OneContentPerKey(b)
  {
    forall i, j | 0 <= i < j < |b| ensures b[i].key != b[j].key {
      assert SameOffer(a[i], b[i]) && SameOffer(a[j], b[j]);
    }
  }

  /** An append of one content per key writes nothing without refusing exactly when
      no row is taken. */
  lemma UnwrittenMeans(stored: seq<Version>, frame: seq<BatchRow>, args: AppendArgs, h: Hashes)
    requires frame != [] && OneContentPerKey(Distinct(frame, h))
    ensures AppendVersions(stored, frame, args, h).Unwritten?
            <==> !EstimateRefused(frame, args) && forall i :: 0 <= i < |Distinct(frame, h)| ==> !Taken(Distinct(frame, h)[i], LatestFinal(stored), h)
  {
    hide LatestFinal, Distinct, EstimateRefused, Taken, OneContentPerKey, StableSort, Stale, Additions, DistinctIds, Preserved;
    var batch, latest := Distinct(frame, h), LatestFinal(stored);
    NoAdditions(batch, latest, args, h);
    NoFixes(batch, latest, h);
  }

  lemma NoFixes(batch: seq<BatchRow>, latest: seq<Version>, h: Hashes)
    ensures (forall i :: 0 <= i < |batch| ==> !Taken(batch[i], latest, h)) ==> CorrectionRows(batch, latest, h) == []
  {
    if forall i :: 0 <= i < |batch| ==> !Taken(batch[i], latest, h) {
      FilterNone(batch, CorrectionIn(latest, h));
    }
  }

  lemma NoAdditions(batch: seq<BatchRow>, latest: seq<Version>, args: AppendArgs, h: Hashes)
    ensures Additions(batch, latest, args, h) == [] <==> forall i :: 0 <= i < |batch| ==> !Taken(batch[i], latest, h)
  {
    hide LookUp;
    FilterMembers(batch, NewKeyIn(latest));
    FilterMembers(batch, CorrectionIn(latest, h));
    if Additions(batch, latest, args, h) == [] {
      forall i | 0 <= i < |batch| ensures !Taken(batch[i], latest, h) { assert batch[i] in batch; }
    } else {
      var news, fixes := NewRows(batch, latest), CorrectionRows(batch, latest, h);
      var b := if |news| > 0 then news[0] else fixes[0];
      assert b in news || b in fixes;
      var i :| 0 <= i < |batch| && batch[i] == b;
    }
  }

  /** The statuses an append adds are the statuses of its taken rows. */
  lemma AddedStatuses(stored: seq<Version>, frame: seq<BatchRow>, args: AppendArgs, h: Hashes)
    ensures (forall v :: v in Added(stored, frame, args, h) ==> FinalStatus(v.status))
            <==> forall i :: 0 <= i < |Distinct(frame, h)| && Taken(Distinct(frame, h)[i], LatestFinal(stored), h) ==>
                   FinalStatus(Distinct(frame, h)[i].status)
  {
    hide LatestFinal, Distinct, Added, Taken;
    var batch, latest := Distinct(frame, h), LatestFinal(stored);
    if forall v :: v in Added(stored, frame, args, h) ==> FinalStatus(v.status) {
      forall i | 0 <= i < |batch| && Taken(batch[i], latest, h) ensures FinalStatus(batch[i].status) {
        TakenIsAdded(stored, frame, args, h, batch[i]);
        assert VersionOf(batch[i], latest, args, h).status == batch[i].status;
      }
    } else {
      var v :| v in Added(stored, frame, args, h) && !FinalStatus(v.status);
      var b := AddedVersion(stored, frame, args, h, v);
      var i :| 0 <= i < |batch| && batch[i] == b;
    }
  }

  // ----- taken rows and repeated ids, in terms of the stored versions

  /** The latest final version of the row's key has the row's content. */
  ghost predicate Said(t: seq<Version>, b: BatchRow, h: Hashes) {
    exists l :: l in t && l.key == b.key && LatestOfFinals(t, l) && l.sha == h.content(b.content)
  }

  lemma TakenUnlessSaid(t: seq<Version>, b: BatchRow, h: Hashes)
    requires DistinctIds(t)
    ensures Taken(b, LatestFinal(t), h) <==> !Said(t, b, h)
  {
    hide LatestFinal, OrderLeq, LookUp;
    LatestFinalMeaning(t, b.key);
    var latest := LookUp(LatestFinal(t), b.key);
    if latest.Some? && latest.value.sha == h.content(b.content) {
      assert LatestOfFinals(t, latest.value);
    }
    if Said(t, b, h) {
      var l :| l in t && l.key == b.key && LatestOfFinals(t, l) && l.sha == h.content(b.content);
      OrderLeqOrder(l, latest.value, l);
      SameIdSame(t, l, latest.value);
    }
  }

  function IdOf(b: BatchRow, h: Hashes): nat { h.version(b.key, h.content(b.content), b.ingestedAt) }

  /** A row that says something new, whose id is stored or is that of another. */
  ghost predicate IdTwice(t: seq<Version>, frame: seq<BatchRow>, h: Hashes) {
    exists b :: b in Distinct(frame, h) && !Said(t, b, h) && (HasId(t, IdOf(b, h)) || IdShared(t, frame, h, b))
  }

  ghost predicate IdShared(t: seq<Version>, frame: seq<BatchRow>, h: Hashes, b: BatchRow) {
    exists c :: c in Distinct(frame, h) && c != b && !Said(t, c, h) && IdOf(c, h) == IdOf(b, h)
  }

  lemma {:induction false} FilterKeysApart(batch: seq<BatchRow>, p: BatchRow -> bool)
    requires OneContentPerKey(batch)
    ensures OneContentPerKey(Filter(batch, p))
  {
    if batch != [] {
      var f := Filter(batch[1..], p);
      FilterKeysApart(batch[1..], p);
      FilterMembers(batch[1..], p);
      forall j | 0 <= j < |f| ensures batch[0].key != f[j].key {
        assert f[j] in f;
        var i :| 0 <= i < |batch[1..]| && batch[1..][i] == f[j];
        assert batch[i + 1] == f[j];
      }
    }
  }

  /** One version for each key. */
  lemma AddedKeysApart(t: seq<Version>, frame: seq<BatchRow>, args: AppendArgs, h: Hashes, i: nat, j: nat)
    requires OneContentPerKey(Distinct(frame, h)) && i < j < |Added(t, frame, args, h)|
    ensures Added(t, frame, args, h)[i].key != Added(t, frame, args, h)[j].key
  {
    hide LatestFinal, Distinct, Filter, LookUp;
    var latest, batch := LatestFinal(t), Distinct(frame, h);
    var news, fixes := NewRows(batch, latest), CorrectionRows(batch, latest, h);
    FilterKeysApart(batch, NewKeyIn(latest));
    FilterKeysApart(batch, CorrectionIn(latest, h));
    if i < |news| <= j {
      FilterMembers(batch, NewKeyIn(latest));
      FilterMembers(batch, CorrectionIn(latest, h));
      assert news[i] in news && fixes[j - |news|] in fixes;
    }
  }

  /** The ids of a table and of the versions added to it are distinct exactly when
      no row that says something new repeats an id. */
  lemma DistinctExactly(t: seq<Version>, frame: seq<BatchRow>, args: AppendArgs, h: Hashes)
    requires DistinctIds(t) && OneContentPerKey(Distinct(frame, h))
    ensures DistinctIds(t + Added(t, frame, args, h)) <==> !IdTwice(t, frame, h)
  {
    hide LatestFinal, Distinct, Added, Taken, Said, DistinctIds, OneContentPerKey;
    if IdTwice(t, frame, h) && DistinctIds(t + Added(t, frame, args, h)) { TwiceIsNotDistinct(t, frame, args, h); }
    if !DistinctIds(t + Added(t, frame, args, h)) { NotDistinctIsTwice(t, frame, args, h); }
  }

  lemma TwiceIsNotDistinct(t: seq<Version>, frame: seq<BatchRow>, args: AppendArgs, h: Hashes)
    requires DistinctIds(t) && OneContentPerKey(Distinct(frame, h)) && IdTwice(t, frame, h)
    ensures !DistinctIds(t + Added(t, frame, args, h))
  {
    hide LatestFinal, Distinct, Added, Taken, Said, DistinctIds;
    var added, batch := Added(t, frame, args, h), Distinct(frame, h);
    if DistinctIds(t + added) {
      var b :| b in batch && !Said(t, b, h) && (HasId(t, IdOf(b, h)) || IdShared(t, frame, h, b));
      DistinctParts(t, added);
      TakenUnlessSaid(t, b, h);
      TakenIsAdded(t, frame, args, h, b);
      var v := VersionOf(b, LatestFinal(t), args, h);
      if IdShared(t, frame, h, b) {
        var c :| c in batch && c != b && !Said(t, c, h) && IdOf(c, h) == IdOf(b, h);
        KeysDiffer(batch, b, c);
        TakenUnlessSaid(t, c, h);
        TakenIsAdded(t, frame, args, h, c);
        SameIdSame(added, v, VersionOf(c, LatestFinal(t), args, h));
        assert false;
      }
      assert false;
    }
  }

  lemma KeysDiffer(batch: seq<BatchRow>, b: BatchRow, c: BatchRow)
    requires OneContentPerKey(batch) && b in batch && c in batch && b != c
    ensures b.key != c.key
  {
    var i :| 0 <= i < |batch| && batch[i] == b;
    var j :| 0 <= j < |batch| && batch[j] == c;
  }

  lemma NotDistinctIsTwice(t: seq<Version>, frame: seq<BatchRow>, args: AppendArgs, h: Hashes)
    requires DistinctIds(t) && OneContentPerKey(Distinct(frame, h)) && !DistinctIds(t + Added(t, frame, args, h))
    ensures IdTwice(t, frame, h)
  {
    hide LatestFinal, Distinct, Added, Taken, Said, OneContentPerKey;
    var added, n := Added(t, frame, args, h), |t|;
    var i, j :| 0 <= i < j < |t + added| && (t + added)[i].id == (t + added)[j].id;
    assert (t + added)[j] == added[j - n];
    var c := AddedVersion(t, frame, args, h, added[j - n]);
    TakenUnlessSaid(t, c, h);
    if i < n {
      assert t[i] in t && t[i].id == IdOf(c, h);
    } else {
      assert (t + added)[i] == added[i - n];
      var b := AddedVersion(t, frame, args, h, added[i - n]);
      TakenUnlessSaid(t, b, h);
      AddedKeysApart(t, frame, args, h, i - n, j - n);
      assert IdShared(t, frame, h, c);
    }
  }

  lemma NothingAdded(t: seq<Version>, frame: seq<BatchRow>, args: AppendArgs, h: Hashes)
    requires DistinctIds(t)
    ensures Added(t, frame, args, h) == [] <==> forall b :: b in Distinct(frame, h) ==> Said(t, b, h)
  {
    hide LatestFinal, Distinct, Taken, Said, Additions;
    var batch := Distinct(frame, h);
    NoAdditions(batch, LatestFinal(t), args, h);
    forall b | b in batch ensures Taken(b, LatestFinal(t), h) <==> !Said(t, b, h) { TakenUnlessSaid(t, b, h); }
  }

  // ----- the same batch after any later appends

  /** A row of an append of the run that was accepted. */
  ghost predicate AcceptedRow(stored: seq<Version>, run: seq<Step>, h: Hashes, r: BatchRow)
    decreases |run|
  {
    run != [] &&
    (var o := AppendVersions(stored, run[0].frame, run[0].args, h);
     || (o.Written? && r in run[0].frame)
     || AcceptedRow(if o.Written? then o.table else stored, run[1..], h, r))
  }

  /** What a run stores comes from the rows it accepts. */
  lemma {:induction false} AfterComesFrom(stored: seq<Version>, run: seq<Step>, h: Hashes, v: Version)
    requires v in After(stored, run, h) && v !in stored
    ensures exists r :: AcceptedRow(stored, run, h, r) && r.key == v.key && r.ingestedAt == v.firstSeen && r.status == v.status
    decreases |run|
  {
    hide AppendVersions, Added, Distinct, LatestFinal, DistinctIds;
    var s, o := run[0], AppendVersions(stored, run[0].frame, run[0].args, h);
    if o.Written? && v in o.table {
      WrittenTable(stored, s.frame, s.args, h);
      var b := AddedVersion(stored, s.frame, s.args, h, v);
      DistinctMembers(s.frame, h);
      assert AcceptedRow(stored, run, h, b);
    } else {
      var next := if o.Written? then o.table else stored;
      AfterComesFrom(next, run[1..], h, v);
      var r :| AcceptedRow(next, run[1..], h, r) && r.key == v.key && r.ingestedAt == v.firstSeen && r.status == v.status;
      assert AcceptedRow(stored, run, h, r);
    }
  }

  /** What any acceptable batch does: nothing exactly when every row is what the
      latest final version of its key says; a refusal as stale, or else for a
      repeated id, exactly when some row that is not is stale or repeats an id;
      and otherwise it is written. */
  lemma WrittenExactly(t: seq<Version>, frame: seq<BatchRow>, args: AppendArgs, h: Hashes)
    requires DistinctIds(t) && frame != [] && !EstimateRefused(frame, args) && OneContentPerKey(Distinct(frame, h))
    ensures var o := AppendVersions(t, frame, args, h);
            var unsaid := exists b :: b in Distinct(frame, h) && !Said(t, b, h);
            && (o.Written? <==> unsaid && !Stales(t, frame, h) && !IdTwice(t, frame, h))
            && (o.Unwritten? <==> !unsaid)
            && (o == Refused(StaleCorrection) <==> Stales(t, frame, h))
            && (o == Refused(DuplicateVersionId) <==> !Stales(t, frame, h) && IdTwice(t, frame, h))
  {
    hide AppendVersions, LatestFinal, Distinct, Added, Said, DistinctIds, OneContentPerKey, EstimateRefused, Stales, Conflicting, IdShared, HasId;
    ConflictsAre(frame, h);
    RefusalOrder(t, frame, args, h);
    DistinctExactly(t, frame, args, h);
    NothingAdded(t, frame, args, h);
    if Stales(t, frame, h) { StaleIsUnsaid(t, frame, h); }
  }

  /** An accepted batch offered again after any later appends does exactly that to
      the table they left. */
  lemma RepeatExactly(stored: seq<Version>, frame: seq<BatchRow>, args: AppendArgs, h: Hashes, run: seq<Step>)
    requires AppendVersions(stored, frame, args, h).Written?
    ensures var t := After(AppendVersions(stored, frame, args, h).table, run, h);
            var again := AppendVersions(t, frame, args, h);
            var unsaid := exists b :: b in Distinct(frame, h) && !Said(t, b, h);
            && (again.Written? <==> unsaid && !Stales(t, frame, h) && !IdTwice(t, frame, h))
            && (again.Unwritten? <==> !unsaid)
            && (again == Refused(StaleCorrection) <==> Stales(t, frame, h))
            && (again == Refused(DuplicateVersionId) <==> !Stales(t, frame, h) && IdTwice(t, frame, h))
  {
    hide AppendVersions, After, Distinct, Said, DistinctIds, OneContentPerKey, EstimateRefused, Stales, IdTwice;
    var table := AppendVersions(stored, frame, args, h).table;
    WrittenMeans(stored, frame, args, h);
    WrittenTable(stored, frame, args, h);
    NothingIsLost(table, run, h);
    WrittenExactly(After(table, run, h), frame, args, h);
  }

  /** A stale row says something else than the latest final version. */
  lemma StaleIsUnsaid(t: seq<Version>, frame: seq<BatchRow>, h: Hashes)
    requires DistinctIds(t) && Stales(t, frame, h)
    ensures exists b :: b in Distinct(frame, h) && !Said(t, b, h)
  {
    hide Distinct, LatestFinal, Said, StaleRow;
    var b :| b in Distinct(frame, h) && StaleRow(t, b, h);
    StaleRowIs(t, b, h);
    TakenUnlessSaid(t, b, h);
  }

  /** A batch written again holds a row that the first append had no use for, and
      that a later append has since contradicted with a final version first seen
      before the row. */
  lemma RepeatNeedsOlderVersion(stored: seq<Version>, frame: seq<BatchRow>, args: AppendArgs, h: Hashes, run: seq<Step>)
    returns (b: BatchRow, v: Version)
    requires AppendVersions(stored, frame, args, h).Written?
    requires AppendVersions(After(AppendVersions(stored, frame, args, h).table, run, h), frame, args, h).Written?
    ensures b in Distinct(frame, h) && Said(stored, b, h)
    ensures var table := AppendVersions(stored, frame, args, h).table;
            v in After(table, run, h) && v !in table
    ensures FinalStatus(v.status) && v.key == b.key && v.sha != h.content(b.content) && v.firstSeen < b.ingestedAt
  {
    hide AppendVersions, After, LatestFinal, Distinct, Added, Said, DistinctIds, OrderLeq, LookUp;
    var table := AppendVersions(stored, frame, args, h).table;
    var t := After(table, run, h);
    WrittenTable(stored, frame, args, h);
    NothingIsLost(table, run, h);
    WrittenTable(t, frame, args, h);
    AddsSomething(t, frame, args, h);
    b := AddedVersion(t, frame, args, h, Added(t, frame, args, h)[0]);
    if Taken(b, LatestFinal(stored), h) {
      TakenIsAdded(stored, frame, args, h, b);
      assert VersionOf(b, LatestFinal(stored), args, h) in t;
      DistinctParts(t, Added(t, frame, args, h));
      assert false;
    }
    TakenUnlessSaid(stored, b, h);
    LatestAfter(stored, frame, args, h, b);
    LatestFinalMeaning(table, b.key);
    LatestFinalMeaning(t, b.key);
    var was := LookUp(LatestFinal(table), b.key).value;
    v := LookUp(LatestFinal(t), b.key).value;
    NotStale(t, frame, args, h, b);
    if v in table {
      OrderLeqOrder(v, was, v);
      SameIdSame(t, v, was);
      assert false;
    }
  }

  lemma AddsSomething(t: seq<Version>, frame: seq<BatchRow>, args: AppendArgs, h: Hashes)
    requires AppendVersions(t, frame, args, h).Written?
    ensures Added(t, frame, args, h) != []
  {
    hide LatestFinal, Distinct, Additions, StableSort, DistinctIds, Preserved, EstimateRefused, OneContentPerKey, Stale;
  }

  /** No final row the run accepted was seen before a row of the batch for the
      same key. */
  ghost predicate InOrder(stored: seq<Version>, run: seq<Step>, h: Hashes, frame: seq<BatchRow>) {
    forall r, b :: AcceptedRow(stored, run, h, r) && FinalStatus(r.status) && b in frame && b.key == r.key ==>
      b.ingestedAt <= r.ingestedAt
  }

  /** While later batches arrive in order an accepted batch is never written again. */
  lemma RepeatInOrderIsNeverWritten(stored: seq<Version>, frame: seq<BatchRow>, args: AppendArgs, h: Hashes, run: seq<Step>)
    requires AppendVersions(stored, frame, args, h).Written?
    requires InOrder(AppendVersions(stored, frame, args, h).table, run, h, frame)
    ensures !AppendVersions(After(AppendVersions(stored, frame, args, h).table, run, h), frame, args, h).Written?
  {
    hide AppendVersions, After, Distinct, Said, AcceptedRow;
    var table := AppendVersions(stored, frame, args, h).table;
    if AppendVersions(After(table, run, h), frame, args, h).Written? {
      var b, v := RepeatNeedsOlderVersion(stored, frame, args, h, run);
      AfterComesFrom(table, run, h, v);
      DistinctMembers(frame, h);
      assert false;
    }
  }

  // ----- keys the later appends leave alone

  /** No accepted row of the run has a key of the batch. */
  ghost predicate Untouched(stored: seq<Version>, run: seq<Step>, h: Hashes, frame: seq<BatchRow>) {
    forall r, b :: AcceptedRow(stored, run, h, r) && b in frame ==> b.key != r.key
  }

  lemma LatestUntouched(t: seq<Version>, run: seq<Step>, h: Hashes, frame: seq<BatchRow>, b: BatchRow)
    requires DistinctIds(t) && Untouched(t, run, h, frame) && b in frame
    ensures LookUp(LatestFinal(After(t, run, h)), b.key) == LookUp(LatestFinal(t), b.key)
  {
    hide LatestFinal, After, DistinctIds, OrderLeq, LookUp, AcceptedRow;
    var later := After(t, run, h);
    NothingIsLost(t, run, h);
    LatestFinalMeaning(t, b.key);
    LatestFinalMeaning(later, b.key);
    forall v | v in later && v.key == b.key ensures v in t {
      if v !in t { AfterComesFrom(t, run, h, v); }
    }
    var l, l' := LookUp(LatestFinal(t), b.key), LookUp(LatestFinal(later), b.key);
    if l.Some? {
      OrderLeqOrder(l.value, l'.value, l.value);
      SameIdSame(t, l.value, l'.value);
    }
  }

  /** A row is taken again after appends that left its key alone exactly when it
      was taken under a status that is not final. */
  lemma TakenAgainLater(stored: seq<Version>, frame: seq<BatchRow>, args: AppendArgs, h: Hashes, run: seq<Step>,
                        b: BatchRow, again: BatchRow)
    requires AppendVersions(stored, frame, args, h).Written? && b in Distinct(frame, h) && SameOffer(b, again)
    requires Untouched(AppendVersions(stored, frame, args, h).table, run, h, frame)
    ensures var t := After(AppendVersions(stored, frame, args, h).table, run, h);
            && LookUp(LatestFinal(t), b.key) == LookUp(LatestFinal(AppendVersions(stored, frame, args, h).table), b.key)
            && (Taken(again, LatestFinal(t), h) <==> Taken(b, LatestFinal(stored), h) && !FinalStatus(b.status))
  {
    hide AppendVersions, After, LatestFinal, Distinct, LookUp, Untouched, DistinctIds;
    WrittenTable(stored, frame, args, h);
    DistinctMembers(frame, h);
    LatestUntouched(AppendVersions(stored, frame, args, h).table, run, h, frame, b);
    TakenAgain(stored, frame, args, h, b, again);
  }

  /** A re-fetch: the same contents offered again after an accepted append and any
      later ones, at any times, write nothing exactly when each is still what the
      latest final version of its key says (and no estimated time is refused).
      When the later appends left its keys alone, that is when every version the
      first append added has a final status. */
  lemma RefetchWritesNothing(stored: seq<Version>, frame: seq<BatchRow>, args: AppendArgs, h: Hashes, run: seq<Step>,
                             again: seq<BatchRow>, args': AppendArgs)
    requires AppendVersions(stored, frame, args, h).Written? && SameOffers(frame, again)
    ensures var table := AppendVersions(stored, frame, args, h).table;
            var t := After(table, run, h);
            && (AppendVersions(t, again, args', h).Unwritten?
                <==> !EstimateRefused(again, args') && forall b :: b in Distinct(again, h) ==> Said(t, b, h))
            && (Untouched(table, run, h, frame) ==>
                  (AppendVersions(t, again, args', h).Unwritten?
                   <==> !EstimateRefused(again, args') && forall v :: v in Added(stored, frame, args, h) ==> FinalStatus(v.status)))
  {
    hide AppendVersions, After, LatestFinal, Distinct, Added, EstimateRefused, Taken, OneContentPerKey, Said, Untouched, DistinctIds;
    var table := AppendVersions(stored, frame, args, h).table;
    var t, batch, batch' := After(table, run, h), Distinct(frame, h), Distinct(again, h);
    WrittenMeans(stored, frame, args, h);
    WrittenTable(stored, frame, args, h);
    NothingIsLost(table, run, h);
    SameOffersDistinct(frame, again, h);
    OneContentAgain(batch, batch');
    UnwrittenMeans(t, again, args', h);
    forall b | b in batch' ensures Taken(b, LatestFinal(t), h) <==> !Said(t, b, h) { TakenUnlessSaid(t, b, h); }
    if Untouched(table, run, h, frame) {
      forall i | 0 <= i < |batch|
        ensures Taken(batch'[i], LatestFinal(t), h) <==> Taken(batch[i], LatestFinal(stored), h) && !FinalStatus(batch[i].status)
      {
        assert SameOffer(batch[i], batch'[i]);
        TakenAgainLater(stored, frame, args, h, run, batch[i], batch'[i]);
      }
      AddedStatuses(stored, frame, args, h);
    }
  }

  /** The very same batch, once later appends have left its keys alone: nothing is
      written if every version it added is final, and otherwise a row is taken
      again and refused for the id its version already has. */
  lemma RepeatOfUntouchedKeys(stored: seq<Version>, frame: seq<BatchRow>, args: AppendArgs, h: Hashes, run: seq<Step>)
    requires AppendVersions(stored, frame, args, h).Written?
    requires Untouched(AppendVersions(stored, frame, args, h).table, run, h, frame)
    ensures var t := After(AppendVersions(stored, frame, args, h).table, run, h);
            if forall v :: v in Added(stored, frame, args, h) ==> FinalStatus(v.status)
              then AppendVersions(t, frame, args, h).Unwritten?
              else AppendVersions(t, frame, args, h) == Refused(DuplicateVersionId)
  {
    hide AppendVersions, After, LatestFinal, Distinct, Added, EstimateRefused, Taken, Said, Untouched, IdShared, StaleRow, DistinctIds;
    var t := After(AppendVersions(stored, frame, args, h).table, run, h);
    WrittenMeans(stored, frame, args, h);
    WrittenTable(stored, frame, args, h);
    NothingIsLost(AppendVersions(stored, frame, args, h).table, run, h);
    RefetchWritesNothing(stored, frame, args, h, run, frame, args);
    RepeatExactly(stored, frame, args, h, run);
    forall b | b in Distinct(frame, h) ensures !StaleRow(t, b, h) { NotStaleLater(stored, frame, args, h, run, b); }
    if v :| v in Added(stored, frame, args, h) && !FinalStatus(v.status) {
      var b := AddedVersion(stored, frame, args, h, v);
      TakenAgainLater(stored, frame, args, h, run, b, b);
      TakenUnlessSaid(t, b, h);
      assert v in t && v.id == IdOf(b, h);
      assert IdTwice(t, frame, h);
    }
  }

  lemma NotStaleLater(stored: seq<Version>, frame: seq<BatchRow>, args: AppendArgs, h: Hashes, run: seq<Step>, b: BatchRow)
    requires AppendVersions(stored, frame, args, h).Written? && b in Distinct(frame, h)
    requires Untouched(AppendVersions(stored, frame, args, h).table, run, h, frame)
    ensures !StaleRow(After(AppendVersions(stored, frame, args, h).table, run, h), b, h)
  {
    hide AppendVersions, After, LatestFinal, Distinct, LookUp, Untouched, StaleRow, DistinctIds;
    var table := AppendVersions(stored, frame, args, h).table;
    WrittenTable(stored, frame, args, h);
    NothingIsLost(table, run, h);
    TakenAgainLater(stored, frame, args, h, run, b, b);
    LatestAfter(stored, frame, args, h, b);
    StaleRowIs(After(table, run, h), b, h);
    if IsCorrection(b, LatestFinal(stored), h) { NotStale(stored, frame, args, h, b); }
  }

  // ----- inputs for which a repeat or a re-fetch is written

  /** A batch with one row that says something new. */
  lemma OneUnsaidWritten(t: seq<Version>, frame: seq<BatchRow>, args: AppendArgs, h: Hashes, b: BatchRow)
    requires DistinctIds(t) && frame != [] && !EstimateRefused(frame, args) && OneContentPerKey(Distinct(frame, h))
    requires b in Distinct(frame, h) && !Said(t, b, h) && !StaleRow(t, b, h) && !HasId(t, IdOf(b, h))
    requires forall c :: c in Distinct(frame, h) && c != b ==> Said(t, c, h)
    ensures AppendVersions(t, frame, args, h).Written?
    ensures var table := AppendVersions(t, frame, args, h).table;
            DistinctIds(table) && forall v :: v in table <==> v in t || v == VersionOf(b, LatestFinal(t), args, h)
  {
    hide AppendVersions, LatestFinal, Distinct, Added, Said, StaleRow, EstimateRefused, OneContentPerKey, DistinctIds, Taken, HasId;
    forall c | c in Distinct(frame, h) && c != b ensures !StaleRow(t, c, h) && !Taken(c, LatestFinal(t), h) {
      TakenUnlessSaid(t, c, h);
      StaleRowIs(t, c, h);
      CorrectionsAreTaken(c, LatestFinal(t), h);
    }
    WrittenExactly(t, frame, args, h);
    WrittenTable(t, frame, args, h);
    TakenUnlessSaid(t, b, h);
    TakenIsAdded(t, frame, args, h, b);
    forall v | v in Added(t, frame, args, h) ensures v == VersionOf(b, LatestFinal(t), args, h) {
      var c := AddedVersion(t, frame, args, h, v);
    }
  }

  lemma CorrectionsAreTaken(b: BatchRow, latest: seq<Version>, h: Hashes)
    ensures IsCorrection(b, latest, h) ==> Taken(b, latest, h)
  {
  }

  /** A re-fetch being written: the content of a hidden version first seen at 10,
      offered again at 20, is stored a second time. */
  lemma RefetchIsWrittenAgain() returns (b: BatchRow, again: BatchRow, args: AppendArgs, h: Hashes)
    ensures SameOffers([b], [again]) && b.ingestedAt < again.ingestedAt
    ensures AppendVersions([], [b], args, h).Written?
    ensures AppendVersions(AppendVersions([], [b], args, h).table, [again], args, h).Written?
  {
    h := ExampleHashes();
    args := AppendArgs("run", false, false);
    var k := NaturalKey([], []);
    b := BatchRow(k, "ab", 10, 10, false, Some("Live"));
    again := BatchRow(k, "ab", 20, 20, false, Some("Live"));
    var v := NewVersion(b, args, h, false);
    OneRowWritten([], b, args, h);
    OneRowBatch(b, h);
    assert Added([], [b], args, h) == [v];
    WrittenTable([], [b], args, h);
    assert [] + [v] == [v];
    SortOfSorted([v], StoredOrder());
    OneRowWritten([v], again, args, h);
  }

  lemma TwoRowsDistinct(a: BatchRow, b: BatchRow, h: Hashes)
    requires a.key != b.key
    ensures Distinct([a, b], h) == [a, b] && OneContentPerKey([a, b])
  {
    assert [a, b][..1] == [a];
    OneRowDistinct(a, h);
  }

  /** A repeat being written, every status final: the batch finds its first row
      said at 1, a later batch corrects that with a row seen at 5, and the repeat
      takes its row seen at 10 as a correction of the correction. */
  lemma RepeatIsWrittenAfterOlderCorrection()
    returns (stored: seq<Version>, frame: seq<BatchRow>, args: AppendArgs, h: Hashes, run: seq<Step>)
    ensures AllFinal(stored) && FinalBatch(frame) && FinalRun(run) && Hashed(stored, h)
    ensures AppendVersions(stored, frame, args, h).Written?
    ensures AppendVersions(After(AppendVersions(stored, frame, args, h).table, run, h), frame, args, h).Written?
  {
    hide AppendVersions, LatestFinal, Distinct, Said, StaleRow, DistinctIds;
    h := ExampleHashes();
    args := AppendArgs("run", false, false);
    var k, j := NaturalKey([], []), NaturalKey([1], []);
    var first := Version(k, "a", 1, Some(1), false, 1, 1, Some("Final"), "run", 1);
    var b, x := BatchRow(k, "a", 10, 10, false, Some("Final")), BatchRow(j, "x", 11, 11, false, Some("Final"));
    var c := BatchRow(k, "bb", 5, 5, false, Some("Final"));
    stored, frame, run := [first], [b, x], [Step([c], args)];
    TwoRowsDistinct(b, x, h);
    OneRowBatch(c, h);
    assert DistinctIds(stored) by { OneVersionDistinct(first); }
    OneSaid(stored, first, b, h);
    NewKeyUnsaid(stored, x, h);
    OneUnsaidWritten(stored, frame, args, h, x);
    var second := AppendVersions(stored, frame, args, h).table;
    ContradictedBy(second, first, c, h);
    OneUnsaidWritten(second, [c], args, h, c);
    var third := AppendVersions(second, [c], args, h).table;
    assert After(second, run, h) == third;
    ContradictedBy(third, VersionOf(c, LatestFinal(second), args, h), b, h);
    OneSaid(third, VersionOf(x, LatestFinal(stored), args, h), x, h);
    OneUnsaidWritten(third, frame, args, h, b);
  }

  lemma OneVersionDistinct(v: Version)
    ensures DistinctIds([v])
  {
  }

  lemma NewKeyUnsaid(t: seq<Version>, b: BatchRow, h: Hashes)
    requires forall v :: v in t ==> v.key != b.key
    ensures !Said(t, b, h) && !StaleRow(t, b, h)
  {
  }

  /** The latest final version says something else, and was seen before. */
  lemma ContradictedBy(t: seq<Version>, l: Version, b: BatchRow, h: Hashes)
    requires DistinctIds(t) && l in t && l.key == b.key && LatestOfFinals(t, l)
    requires l.sha != h.content(b.content) && l.firstSeen < b.ingestedAt
    ensures !Said(t, b, h) && !StaleRow(t, b, h)
  {
    hide OrderLeq, DistinctIds;
    forall m | m in t && m.key == b.key && LatestOfFinals(t, m) ensures m == l {
      OrderLeqOrder(m, l, m);
      SameIdSame(t, m, l);
    }
  }

  lemma OneSaid(t: seq<Version>, l: Version, b: BatchRow, h: Hashes)
    requires l in t && l.key == b.key && LatestOfFinals(t, l) && l.sha == h.content(b.content)
    ensures Said(t, b, h)
  {
  }
}
