/** The history of each key as an append-only chain: exactly when an append
    extends it, and when the first known version stays. */
module OutcomeChain {
  import opened Options
  import opened StableSorting
  import opened OutcomeVersions
  import opened OutcomeTheorems

  // ----- stored versions the comparison does not see

  /** A taken row whose key has a stored version without a final status that was
      first seen no earlier. */
  predicate HiddenLater(stored: seq<Version>, frame: seq<BatchRow>, h: Hashes) {
    exists b, w :: b in Distinct(frame, h) && w in stored && HiddenBehind(stored, b, w, h)
  }

  predicate HiddenBehind(stored: seq<Version>, b: BatchRow, w: Version, h: Hashes) {
    Taken(b, LatestFinal(stored), h) && w.key == b.key && !FinalStatus(w.status) && w.firstSeen >= b.ingestedAt
  }

  /** A taken row that says what the latest stored version of its key says, under
      a status that is not final. */
  ghost predicate HiddenRepeat(stored: seq<Version>, frame: seq<BatchRow>, h: Hashes) {
    exists b, u :: b in Distinct(frame, h) && u in stored && RepeatsHidden(stored, b, u, h)
  }

  ghost predicate RepeatsHidden(stored: seq<Version>, b: BatchRow, u: Version, h: Hashes) {
    Taken(b, LatestFinal(stored), h) && u.key == b.key && !FinalStatus(u.status) && Greatest(stored, u) && u.content == b.content
  }

  /** Every added version was first seen after every stored version of its key. */
  predicate AddedLater(stored: seq<Version>, added: seq<Version>) {
    forall v, w :: v in added && w in stored && w.key == v.key ==> w.firstSeen < v.firstSeen
  }

  /** Every added version says something different from the latest stored version
      of its key. */
  ghost predicate AddedDiffer(stored: seq<Version>, added: seq<Version>) {
    forall v, u :: v in added && u in stored && u.key == v.key && Greatest(stored, u) ==> u.content != v.content
  }

  lemma {:induction false} NotStale(stored: seq<Version>, frame: seq<BatchRow>, args: AppendArgs, h: Hashes, b: BatchRow)
    requires AppendVersions(stored, frame, args, h).Written? || AppendVersions(stored, frame, args, h) == Refused(DuplicateVersionId)
    requires b in Distinct(frame, h) && IsCorrection(b, LatestFinal(stored), h)
    ensures !Stale(b, LatestFinal(stored))
  {
    hide LatestFinal, Distinct, IsCorrection, Stale, StableSort, Preserved, DistinctIds, Additions;
    FilterMembers(Distinct(frame, h), CorrectionIn(LatestFinal(stored), h));
    assert b in CorrectionRows(Distinct(frame, h), LatestFinal(stored), h);
  }

  /** A taken row is later than every final stored version of its key. */
  lemma TakenAfterFinals(stored: seq<Version>, frame: seq<BatchRow>, args: AppendArgs, h: Hashes, b: BatchRow, w: Version)
    requires DistinctIds(stored) && AppendVersions(stored, frame, args, h).Written?
    requires b in Distinct(frame, h) && Taken(b, LatestFinal(stored), h) && w in stored && w.key == b.key && FinalStatus(w.status)
    ensures IsCorrection(b, LatestFinal(stored), h) && w.firstSeen < b.ingestedAt
  {
    hide LatestFinal, Distinct, AppendVersions;
    LatestFinalMeaning(stored, b.key);
    NotStale(stored, frame, args, h, b);
  }

  /** An accepted append adds only versions later than all stored ones of their key
      exactly when no hidden stored version was first seen as late. */
  lemma AddedIsLater(stored: seq<Version>, frame: seq<BatchRow>, args: AppendArgs, h: Hashes)
    requires AppendVersions(stored, frame, args, h).Written?
    ensures AddedLater(stored, Added(stored, frame, args, h)) <==> !HiddenLater(stored, frame, h)
  {
    hide LatestFinal, Distinct, AppendVersions, DistinctIds, Added;
    WrittenTable(stored, frame, args, h);
    var latest := LatestFinal(stored);
    if HiddenLater(stored, frame, h) {
      var b, w :| b in Distinct(frame, h) && w in stored && HiddenBehind(stored, b, w, h);
      TakenIsAdded(stored, frame, args, h, b);
      assert VersionOf(b, latest, args, h).firstSeen == b.ingestedAt;
    } else {
      forall v, w | v in Added(stored, frame, args, h) && w in stored && w.key == v.key ensures w.firstSeen < v.firstSeen {
        var b := AddedVersion(stored, frame, args, h, v);
        if FinalStatus(w.status) {
          TakenAfterFinals(stored, frame, args, h, b, w);
        } else {
          assert !HiddenBehind(stored, b, w, h);
        }
      }
    }
  }

  /** It adds only contents that differ from the latest stored one of their key
      exactly when no taken row repeats a hidden latest version. */
  lemma AddedDiffers(stored: seq<Version>, frame: seq<BatchRow>, args: AppendArgs, h: Hashes)
    requires Hashed(stored, h) && AppendVersions(stored, frame, args, h).Written?
    ensures AddedDiffer(stored, Added(stored, frame, args, h)) <==> !HiddenRepeat(stored, frame, h)
  {
    hide LatestFinal, Distinct, AppendVersions, DistinctIds, Added, OrderLeq, Greatest;
    WrittenTable(stored, frame, args, h);
    var latest := LatestFinal(stored);
    if HiddenRepeat(stored, frame, h) {
      var b, u :| b in Distinct(frame, h) && u in stored && RepeatsHidden(stored, b, u, h);
      TakenIsAdded(stored, frame, args, h, b);
      assert VersionOf(b, latest, args, h).content == b.content;
    } else {
      forall v, u | v in Added(stored, frame, args, h) && u in stored && u.key == v.key && Greatest(stored, u)
        ensures u.content != v.content
      {
        var b := AddedVersion(stored, frame, args, h, v);
        if FinalStatus(u.status) {
          CorrectsFinal(stored, h, b, u);
        } else {
          assert !RepeatsHidden(stored, b, u, h);
        }
      }
    }
  }

  lemma CorrectsFinal(stored: seq<Version>, h: Hashes, b: BatchRow, u: Version)
    requires Hashed(stored, h) && DistinctIds(stored) && Taken(b, LatestFinal(stored), h)
    requires u in stored && u.key == b.key && Greatest(stored, u) && FinalStatus(u.status)
    ensures u.content != b.content
  {
    hide LatestFinal, OrderLeq;
    LatestFinalMeaning(stored, b.key);
    var l := LookUp(LatestFinal(stored), b.key).value;
    OrderLeqOrder(l, u, l);
    SameIdSame(stored, l, u);
  }

  // ----- the chain

  /** A version that is not part of the starting history comes after every other
      version of its key stored before it, and says something different from the
      one it follows. */
  ghost predicate Linked(t: seq<Version>, base: set<nat>, v: Version) {
    && (forall w :: w in t && w.key == v.key && w.id != v.id ==>
          w.firstSeen != v.firstSeen && (w.id in base ==> w.firstSeen < v.firstSeen))
    && (forall u :: u in t && Precedes(t, u, v) ==> u.content != v.content)
  }

  /** `u` is the latest version of the key first seen before `v`. */
  ghost predicate Precedes(t: seq<Version>, u: Version, v: Version) {
    && u.key == v.key && u.firstSeen < v.firstSeen
    && forall w :: w in t && w.key == v.key && w.firstSeen < v.firstSeen ==> OrderLeq(w, u)
  }

  ghost predicate Chained(t: seq<Version>, base: set<nat>) {
    forall v :: v in t && v.id !in base ==> Linked(t, base, v)
  }

  predicate Hashed(t: seq<Version>, h: Hashes) { forall v :: v in t ==> v.sha == h.content(v.content) }

  predicate BaseStored(t: seq<Version>, base: set<nat>) { forall id :: id in base ==> HasId(t, id) }

  /** What no append may do to a chain. */
  ghost predicate Clear(stored: seq<Version>, frame: seq<BatchRow>, h: Hashes) {
    !HiddenLater(stored, frame, h) && !HiddenRepeat(stored, frame, h)
  }

  /** A clear append keeps the chain. */
  lemma ChainKept(stored: seq<Version>, frame: seq<BatchRow>, args: AppendArgs, h: Hashes, base: set<nat>)
    requires Hashed(stored, h) && BaseStored(stored, base) && Chained(stored, base)
    requires AppendVersions(stored, frame, args, h).Written? && Clear(stored, frame, h)
    ensures Chained(AppendVersions(stored, frame, args, h).table, base)
  {
    hide AppendVersions, LatestFinal, Distinct, DistinctIds, HiddenLater, HiddenRepeat, Added, Linked;
    var t, added := AppendVersions(stored, frame, args, h).table, Added(stored, frame, args, h);
    WrittenTable(stored, frame, args, h);
    DistinctParts(stored, added);
    AddedIsLater(stored, frame, args, h);
    AddedDiffers(stored, frame, args, h);
    WrittenMeans(stored, frame, args, h);
    forall v | v in t && v.id !in base ensures Linked(t, base, v) {
      if v in added {
        forall w | w in added && w.key == v.key ensures w == v { AddedOnePerKey(stored, frame, args, h, v, w); }
        AddedIsLinked(stored, added, base, t, v);
      } else {
        StoredStaysLinked(stored, added, base, t, v);
      }
    }
  }

  lemma WrittenMeans(stored: seq<Version>, frame: seq<BatchRow>, args: AppendArgs, h: Hashes)
    requires AppendVersions(stored, frame, args, h).Written?
    ensures OneContentPerKey(Distinct(frame, h)) && frame != [] && !EstimateRefused(frame, args)
  {
    hide LatestFinal, Distinct, OneContentPerKey, Additions, StableSort, DistinctIds, Preserved;
  }

  lemma WrittenIsHashed(stored: seq<Version>, frame: seq<BatchRow>, args: AppendArgs, h: Hashes, base: set<nat>)
    requires Hashed(stored, h) && BaseStored(stored, base) && AppendVersions(stored, frame, args, h).Written?
    ensures var t := AppendVersions(stored, frame, args, h).table;
            Hashed(t, h) && BaseStored(t, base)
  {
    hide AppendVersions, LatestFinal, Distinct, DistinctIds, Added, StoredOrder;
    var t := AppendVersions(stored, frame, args, h).table;
    WrittenTable(stored, frame, args, h);
    forall v | v in Added(stored, frame, args, h) ensures v.sha == h.content(v.content) {
      var b := AddedVersion(stored, frame, args, h, v);
    }
    forall id | id in base ensures HasId(t, id) { var v :| v in stored && v.id == id; assert v in t; }
  }

  lemma AddedIsLinked(stored: seq<Version>, added: seq<Version>, base: set<nat>, t: seq<Version>, v: Version)
    requires AddedLater(stored, added) && AddedDiffer(stored, added)
    requires forall w :: w in t <==> w in stored || w in added
    requires v in added && forall w :: w in added && w.key == v.key ==> w == v
    ensures Linked(t, base, v)
  {
    hide OrderLeq;
    forall u | u in t && Precedes(t, u, v) ensures u.content != v.content {
      assert u in stored;
      forall x | x in stored && x.key == v.key ensures OrderLeq(x, u) { assert x in t; }
      assert Greatest(stored, u);
    }
  }

  lemma FreshIsNotBase(stored: seq<Version>, base: set<nat>, w: Version)
    requires BaseStored(stored, base) && forall a :: a in stored ==> a.id != w.id
    ensures w.id !in base
  {
    assert w.id in base ==> HasId(stored, w.id);
  }

  lemma StoredStaysLinked(stored: seq<Version>, added: seq<Version>, base: set<nat>, t: seq<Version>, v: Version)
    requires AddedLater(stored, added) && BaseStored(stored, base)
    requires forall w :: w in t <==> w in stored || w in added
    requires forall a, b :: a in stored && b in added ==> a.id != b.id
    requires v in stored && Linked(stored, base, v)
    ensures Linked(t, base, v)
  {
    hide OrderLeq;
    forall w | w in added && w.key == v.key ensures v.firstSeen < w.firstSeen && w.id !in base { FreshIsNotBase(stored, base, w); }
    forall u | u in t && Precedes(t, u, v) ensures u.content != v.content { assert Precedes(stored, u, v); }
  }

  // ----- over any run of appends

  /** Every accepted append of the run finds nothing hidden in its way. */
  ghost predicate RunClear(stored: seq<Version>, run: seq<Step>, h: Hashes)
    decreases |run|
  {
    run == [] ||
    (var s, o := run[0], AppendVersions(stored, run[0].frame, run[0].args, h);
     && (o.Written? ==> Clear(stored, s.frame, h))
     && RunClear(if o.Written? then o.table else stored, run[1..], h))
  }

  /** Every accepted append of the run adds only later and different versions. */
  ghost predicate RunExtends(stored: seq<Version>, run: seq<Step>, h: Hashes)
    decreases |run|
  {
    run == [] ||
    (var s, o := run[0], AppendVersions(stored, run[0].frame, run[0].args, h);
     && (o.Written? ==> AddedLater(stored, Added(stored, s.frame, s.args, h)) && AddedDiffer(stored, Added(stored, s.frame, s.args, h)))
     && RunExtends(if o.Written? then o.table else stored, run[1..], h))
  }

  /** Every append of a run extends the history of its keys, with a later version
      that says something else, exactly when none finds a hidden version in its
      way; and then the whole table is a chain, from any starting table. */
  lemma {:induction false} HistoryIsAChain(stored: seq<Version>, run: seq<Step>, h: Hashes, base: set<nat>)
    requires Hashed(stored, h) && BaseStored(stored, base) && Chained(stored, base)
    ensures RunExtends(stored, run, h) <==> RunClear(stored, run, h)
    ensures RunClear(stored, run, h) ==> Chained(After(stored, run, h), base)
    decreases |run|
  {
    hide AppendVersions, Added, AddedLater, AddedDiffer, HiddenLater, HiddenRepeat, Hashed, Chained, BaseStored;
    if run != [] {
      var s, o := run[0], AppendVersions(stored, run[0].frame, run[0].args, h);
      if o.Written? {
        AddedIsLater(stored, s.frame, s.args, h);
        AddedDiffers(stored, s.frame, s.args, h);
        WrittenIsHashed(stored, s.frame, s.args, h, base);
        if Clear(stored, s.frame, h) {
          ChainKept(stored, s.frame, s.args, h, base);
          HistoryIsAChain(o.table, run[1..], h, base);
        }
      } else {
        HistoryIsAChain(stored, run[1..], h, base);
      }
    }
  }

  predicate FinalBatch(frame: seq<BatchRow>) { forall b :: b in frame ==> FinalStatus(b.status) }

  predicate FinalRun(run: seq<Step>) { forall i :: 0 <= i < |run| ==> FinalBatch(run[i].frame) }

  /** Where every status is null or final nothing is ever hidden. */
  lemma {:induction false} FinalRunIsClear(stored: seq<Version>, run: seq<Step>, h: Hashes)
    requires AllFinal(stored) && FinalRun(run)
    ensures RunClear(stored, run, h)
    decreases |run|
  {
    hide AppendVersions, Added, LatestFinal, Distinct;
    if run != [] {
      var s, o := run[0], AppendVersions(stored, run[0].frame, run[0].args, h);
      assert FinalBatch(s.frame);
      assert FinalRun(run[1..]);
      if o.Written? {
        WrittenTable(stored, s.frame, s.args, h);
        DistinctMembers(s.frame, h);
        forall v | v in Added(stored, s.frame, s.args, h) ensures FinalStatus(v.status) {
          var b := AddedVersion(stored, s.frame, s.args, h, v);
        }
      }
      FinalRunIsClear(if o.Written? then o.table else stored, run[1..], h);
    }
  }

  /** The same from a table written before versioning, none of which is hidden. */
  lemma {:induction false} MigratedHistoryIsAChain(legacy: seq<LegacyRow>, run: seq<Step>, h: Hashes)
    ensures var start := Migrate(Legacy(legacy), h);
            var base := set v | v in start :: v.id;
            && (RunExtends(start, run, h) <==> RunClear(start, run, h))
            && (RunClear(start, run, h) ==> Chained(After(start, run, h), base))
            && (FinalRun(run) ==> RunClear(start, run, h))
  {
    var start := Migrate(Legacy(legacy), h);
    var base := set v | v in start :: v.id;
    assert forall v :: v in start ==> v.id in base;
    HistoryIsAChain(start, run, h, base);
    if FinalRun(run) { FinalRunIsClear(start, run, h); }
  }

  // ----- the first known version

  ghost predicate Least(frame: seq<Version>, v: Version) {
    forall w :: w in frame && w.key == v.key ==> OrderLeq(v, w)
  }

  ghost function IsLeast(frame: seq<Version>): Version -> bool { (v: Version) => Least(frame, v) }

  lemma WinsIsLeast(frame: seq<Version>, i: nat)
    requires i < |frame| && DistinctIds(frame)
    ensures WinsFirst(frame, i) <==> Least(frame, frame[i])
  {
    if Least(frame, frame[i]) {
      forall j | 0 <= j < |frame| && frame[j].key == frame[i].key
        ensures OrderLeq(frame[i], frame[j]) && (OrderLeq(frame[j], frame[i]) ==> i <= j)
      {
        assert frame[j] in frame;
        OrderLeqOrder(frame[i], frame[j], frame[i]);
      }
    }
  }

  lemma {:induction false} FirstPrefixIsFilter(frame: seq<Version>, n: nat)
    requires n <= |frame| && DistinctIds(frame)
    ensures SelectPrefix(frame, n, false) == Filter(frame[..n], IsLeast(frame))
  {
    if n > 0 {
      FirstPrefixIsFilter(frame, n - 1);
      WinsIsLeast(frame, n - 1);
      FilterStep(frame, n - 1, IsLeast(frame));
    }
  }

  lemma FirstKnownMeaning(frame: seq<Version>)
    requires DistinctIds(frame)
    ensures forall v :: v in FirstKnown(frame) <==> v in frame && Least(frame, v)
  {
    FirstPrefixIsFilter(frame, |frame|);
    assert frame[..|frame|] == frame;
    FilterMembers(frame, IsLeast(frame));
  }

  /** The first version ever observed of a key stays the first exactly when no
      taken row of the key becomes a version ordered before it; a row can only do
      so past a hidden version. */
  lemma FirstKnownIsStable(stored: seq<Version>, frame: seq<BatchRow>, args: AppendArgs, h: Hashes, v: Version)
    requires AppendVersions(stored, frame, args, h).Written? && v in FirstKnown(stored)
    ensures v in FirstKnown(AppendVersions(stored, frame, args, h).table)
            <==> forall b :: b in Distinct(frame, h) && b.key == v.key && Taken(b, LatestFinal(stored), h) ==>
                   OrderLeq(v, VersionOf(b, LatestFinal(stored), args, h))
    ensures !HiddenLater(stored, frame, h) ==> v in FirstKnown(AppendVersions(stored, frame, args, h).table)
  {
    hide AppendVersions, FirstKnown, DistinctIds, StoredOrder, LatestFinal, Distinct, Added, HiddenLater;
    var t, latest := AppendVersions(stored, frame, args, h).table, LatestFinal(stored);
    WrittenTable(stored, frame, args, h);
    FirstKnownMeaning(stored);
    FirstKnownMeaning(t);
    forall b | b in Distinct(frame, h) && b.key == v.key && Taken(b, latest, h) && v in FirstKnown(t)
      ensures OrderLeq(v, VersionOf(b, latest, args, h))
    {
      TakenIsAdded(stored, frame, args, h, b);
    }
    if forall b :: b in Distinct(frame, h) && b.key == v.key && Taken(b, latest, h) ==> OrderLeq(v, VersionOf(b, latest, args, h)) {
      forall w | w in t && w.key == v.key ensures OrderLeq(v, w) {
        if w in Added(stored, frame, args, h) { var b := AddedVersion(stored, frame, args, h, w); }
      }
    }
    if !HiddenLater(stored, frame, h) {
      AddedIsLater(stored, frame, args, h);
      forall w | w in Added(stored, frame, args, h) && w.key == v.key ensures OrderLeq(v, w) {}
    }
  }

  // ----- versions no comparison sees

  /** A key is taken as new exactly when every stored version of it lacks a final
      status, however many and however late they are; the row is then added. */
  lemma HiddenVersionsAreIgnored(stored: seq<Version>, frame: seq<BatchRow>, args: AppendArgs, h: Hashes, b: BatchRow)
    requires DistinctIds(stored) && b in Distinct(frame, h)
    ensures IsNewKey(b, LatestFinal(stored)) <==> forall v :: v in stored && v.key == b.key ==> !FinalStatus(v.status)
    ensures IsNewKey(b, LatestFinal(stored)) && AppendVersions(stored, frame, args, h).Written? ==>
              NewVersion(b, args, h, false) in AppendVersions(stored, frame, args, h).table
  {
    hide LatestFinal, Distinct, AppendVersions, LookUp, Added;
    LatestFinalMeaning(stored, b.key);
    if IsNewKey(b, LatestFinal(stored)) && AppendVersions(stored, frame, args, h).Written? {
      TakenIsAdded(stored, frame, args, h, b);
      WrittenTable(stored, frame, args, h);
    }
  }

  /** The chain breaking: a version first seen at 5 is appended behind a hidden one
      first seen at 10. */
  lemma NonFinalStatusBreaksChain() returns (v: Version, b: BatchRow, args: AppendArgs, h: Hashes)
    ensures Hashed([v], h) && FinalBatch([b]) && HiddenLater([v], [b], h)
    ensures AppendVersions([v], [b], args, h).Written? && !AddedLater([v], Added([v], [b], args, h))
  {
    h := ExampleHashes();
    args := AppendArgs("run", false, false);
    var k := NaturalKey([], []);
    v := Version(k, "ab", 10, Some(10), false, 2, 10, Some("Live"), "run", 10);
    b := BatchRow(k, "c", 5, 5, false, Some("Final"));
    OneRowWritten([v], b, args, h);
    assert HiddenBehind([v], b, v, h);
    AddedIsLater([v], [b], args, h);
  }

  function ExampleHashes(): Hashes { Hashes(c => |c|, (key, sha, seen) => if seen < 0 then 0 else seen) }
}
