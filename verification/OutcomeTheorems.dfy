/** What an append writes, and what was known at any earlier time: exactly when
    the past stays as it was, over one append and over every run of them. */
module OutcomeTheorems {
  import opened Options
  import opened StableSorting
  import opened OutcomeVersions

  // ----- selections by value

  lemma OrderLeqOrder(a: Version, b: Version, c: Version)
    ensures OrderLeq(a, b) || OrderLeq(b, a)
    ensures OrderLeq(a, b) && OrderLeq(b, c) ==> OrderLeq(a, c)
    ensures OrderLeq(a, b) && OrderLeq(b, a) ==> a.id == b.id && a.firstSeen == b.firstSeen
  {
  }

  /** No version of the same key in the frame is later. */
  ghost predicate Greatest(frame: seq<Version>, v: Version) {
    forall w :: w in frame && w.key == v.key ==> OrderLeq(w, v)
  }

  ghost function IsGreatest(frame: seq<Version>): Version -> bool { (v: Version) => Greatest(frame, v) }

  lemma WinsIsGreatest(frame: seq<Version>, i: nat)
    requires i < |frame| && DistinctIds(frame)
    ensures WinsLast(frame, i) <==> Greatest(frame, frame[i])
  {
    if Greatest(frame, frame[i]) {
      forall j | 0 <= j < |frame| && frame[j].key == frame[i].key
        ensures OrderLeq(frame[j], frame[i]) && (OrderLeq(frame[i], frame[j]) ==> j <= i)
      {
        assert frame[j] in frame;
        OrderLeqOrder(frame[i], frame[j], frame[i]);
      }
    }
  }

  lemma {:induction false} SelectPrefixIsFilter(frame: seq<Version>, n: nat)
    requires n <= |frame| && DistinctIds(frame)
    ensures SelectPrefix(frame, n, true) == Filter(frame[..n], IsGreatest(frame))
  {
    if n > 0 {
      SelectPrefixIsFilter(frame, n - 1);
      WinsIsGreatest(frame, n - 1);
      FilterStep(frame, n - 1, IsGreatest(frame));
    }
  }

  lemma SelectIsFilter(frame: seq<Version>)
    requires DistinctIds(frame)
    ensures SelectOnePerKey(frame, true) == Filter(frame, IsGreatest(frame))
  {
    SelectPrefixIsFilter(frame, |frame|);
    assert frame[..|frame|] == frame;
  }

  /** Sorting the frame sorts the selection. */
  lemma SelectOfSorted(frame: seq<Version>)
    requires DistinctIds(frame)
    ensures SelectOnePerKey(StableSort(frame, StoredOrder()), true)
         == StableSort(SelectOnePerKey(frame, true), StoredOrder())
  {
    var leq := StoredOrder();
    var sorted := StableSort(frame, leq);
    StoredOrderIsPreorder();
    SortKeepsIds(frame);
    SortMembers(frame, leq);
    SelectIsFilter(frame);
    SelectIsFilter(sorted);
    FilterSort(frame, leq, IsGreatest(frame));
    assert forall v :: v in sorted ==> IsGreatest(sorted)(v) == IsGreatest(frame)(v);
    FilterAgree(sorted, IsGreatest(sorted), IsGreatest(frame));
  }

  // ----- ids

  predicate HasId(t: seq<Version>, id: nat) { exists v :: v in t && v.id == id }

  lemma DistinctByMultiset(s: seq<Version>, t: seq<Version>)
    requires DistinctIds(s) && multiset(s) == multiset(t)
    ensures DistinctIds(t)
  {
    forall i, j | 0 <= i < j < |t| ensures t[i].id != t[j].id {
      var a, b, p, m, e := t[i], t[j], t[..i], t[i + 1..j], t[j + 1..];
      assert t == p + [a] + m + [b] + e;
      assert multiset(t) == multiset(p) + multiset{a} + multiset(m) + multiset{b} + multiset(e);
      assert a in multiset(s) && b in multiset(s);
      if a == b { TwiceInDistinct(s, a); assert false; }
    }
  }

  lemma {:induction false} TwiceInDistinct(s: seq<Version>, v: Version)
    requires DistinctIds(s)
    ensures multiset(s)[v] <= 1
  {
    if s != [] {
      assert s == [s[0]] + s[1..];
      TwiceInDistinct(s[1..], v);
      forall j | 0 <= j < |s[1..]| ensures s[1..][j] != s[0] { assert s[j + 1] == s[1..][j]; }
    }
  }

  lemma SortKeepsIds(s: seq<Version>)
    ensures DistinctIds(StableSort(s, StoredOrder())) <==> DistinctIds(s)
  {
    StoredOrderIsPreorder();
    InsertAllSorted(s, [], StoredOrder());
    var t := StableSort(s, StoredOrder());
    assert multiset(t) == multiset(s);
    if DistinctIds(s) { DistinctByMultiset(s, t); }
    if DistinctIds(t) { DistinctByMultiset(t, s); }
  }

  lemma DistinctParts(s: seq<Version>, t: seq<Version>)
    requires DistinctIds(s + t)
    ensures DistinctIds(s) && DistinctIds(t)
    ensures forall a, b :: a in s && b in t ==> a.id != b.id
  {
    forall i, j | 0 <= i < j < |s| ensures s[i].id != s[j].id {
      assert (s + t)[i] == s[i] && (s + t)[j] == s[j];
    }
    forall i, j | 0 <= i < j < |t| ensures t[i].id != t[j].id {
      assert (s + t)[|s| + i] == t[i] && (s + t)[|s| + j] == t[j];
    }
    forall a, b | a in s && b in t ensures a.id != b.id {
      var i :| 0 <= i < |s| && s[i] == a;
      var j :| 0 <= j < |t| && t[j] == b;
      assert (s + t)[i] == a && (s + t)[|s| + j] == b;
    }
  }

  // ----- what an accepted append writes

  ghost function Added(stored: seq<Version>, frame: seq<BatchRow>, args: AppendArgs, h: Hashes): seq<Version> {
    Additions(Distinct(frame, h), LatestFinal(stored), args, h)
  }

  lemma WrittenTable(stored: seq<Version>, frame: seq<BatchRow>, args: AppendArgs, h: Hashes)
    requires AppendVersions(stored, frame, args, h).Written?
    ensures var t := AppendVersions(stored, frame, args, h).table;
            && t == StableSort(stored + Added(stored, frame, args, h), StoredOrder())
            && DistinctIds(stored + Added(stored, frame, args, h)) && DistinctIds(stored) && DistinctIds(t)
            && forall v :: v in t <==> v in stored || v in Added(stored, frame, args, h)
  {
    var all := stored + Added(stored, frame, args, h);
    SortKeepsIds(all);
    DistinctParts(stored, Added(stored, frame, args, h));
    StoredOrderIsPreorder();
    SortMembers(all, StoredOrder());
  }

  /** The re-read check can never fail once ids are distinct: every stored
      version survives an accepted append unchanged. */
  lemma StoredVersionsSurvive(stored: seq<Version>, frame: seq<BatchRow>, args: AppendArgs, h: Hashes)
    requires DistinctIds(stored + Added(stored, frame, args, h))
    ensures Preserved(stored, StableSort(stored + Added(stored, frame, args, h), StoredOrder()))
    ensures AppendVersions(stored, frame, args, h) != Refused(NotPreserved)
  {
    hide Preserved, DistinctIds, LatestFinal, Distinct, Additions, StoredOrder;
    PreservedUnderSort(stored, Added(stored, frame, args, h));
  }

  lemma PreservedUnderSort(stored: seq<Version>, added: seq<Version>)
    requires DistinctIds(stored + added)
    ensures Preserved(stored, StableSort(stored + added, StoredOrder()))
  {
    hide StoredLeq;
    var leq := StoredOrder();
    var mine := StoredId(stored);
    StoredOrderIsPreorder();
    DistinctParts(stored, added);
    FilterSort(stored + added, leq, mine);
    FilterConcat(stored, added, mine);
    FilterAll(stored, mine);
    FilterNone(added, mine);
    InsertAllSorted(stored, [], leq);
    assert stored + [] == stored;
  }

  /** The rows that are not already known: a key without a final version, or a
      content that differs from its latest final version. */
  predicate Taken(b: BatchRow, latest: seq<Version>, h: Hashes) { IsNewKey(b, latest) || IsCorrection(b, latest, h) }

  /** The version a taken row becomes. */
  function VersionOf(b: BatchRow, latest: seq<Version>, args: AppendArgs, h: Hashes): Version {
    NewVersion(b, args, h, IsCorrection(b, latest, h))
  }

  lemma AddedVersion(stored: seq<Version>, frame: seq<BatchRow>, args: AppendArgs, h: Hashes, v: Version)
    returns (b: BatchRow)
    requires v in Added(stored, frame, args, h)
    ensures var latest := LatestFinal(stored);
            b in Distinct(frame, h) && Taken(b, latest, h) && v == VersionOf(b, latest, args, h)
  {
    hide LatestFinal, Distinct, NewVersion, Filter;
    var latest, batch := LatestFinal(stored), Distinct(frame, h);
    var news, fixes := NewRows(batch, latest), CorrectionRows(batch, latest, h);
    FilterMembers(batch, NewKeyIn(latest));
    FilterMembers(batch, CorrectionIn(latest, h));
    var i :| 0 <= i < |Added(stored, frame, args, h)| && Added(stored, frame, args, h)[i] == v;
    if i < |news| {
      b := news[i];
      assert b in news;
    } else {
      b := fixes[i - |news|];
      assert b in fixes;
    }
  }

  lemma TakenIsAdded(stored: seq<Version>, frame: seq<BatchRow>, args: AppendArgs, h: Hashes, b: BatchRow)
    requires b in Distinct(frame, h) && Taken(b, LatestFinal(stored), h)
    ensures VersionOf(b, LatestFinal(stored), args, h) in Added(stored, frame, args, h)
  {
    hide LatestFinal, Distinct, Filter, NewVersion, LookUp;
    var latest, batch := LatestFinal(stored), Distinct(frame, h);
    var news, fixes := NewRows(batch, latest), CorrectionRows(batch, latest, h);
    FilterMembers(batch, NewKeyIn(latest));
    FilterMembers(batch, CorrectionIn(latest, h));
    if IsCorrection(b, latest, h) {
      var i :| 0 <= i < |fixes| && fixes[i] == b;
      assert Added(stored, frame, args, h)[|news| + i] == NewVersion(b, args, h, true);
    } else {
      var i :| 0 <= i < |news| && news[i] == b;
      assert Added(stored, frame, args, h)[i] == NewVersion(b, args, h, false);
    }
  }

  lemma AddedOnePerKey(stored: seq<Version>, frame: seq<BatchRow>, args: AppendArgs, h: Hashes, v: Version, w: Version)
    requires OneContentPerKey(Distinct(frame, h))
    requires v in Added(stored, frame, args, h) && w in Added(stored, frame, args, h) && v.key == w.key
    ensures v == w
  {
    var b := AddedVersion(stored, frame, args, h, v);
    var c := AddedVersion(stored, frame, args, h, w);
    var batch := Distinct(frame, h);
    var i :| 0 <= i < |batch| && batch[i] == b;
    var j :| 0 <= j < |batch| && batch[j] == c;
  }

  lemma SameIdSame(s: seq<Version>, a: Version, b: Version)
    requires DistinctIds(s) && a in s && b in s && a.id == b.id
    ensures a == b
  {
    var i :| 0 <= i < |s| && s[i] == a;
    var j :| 0 <= j < |s| && s[j] == b;
  }

  // ----- looking up the latest final version

  lemma {:induction false} LookUpMeaning(s: seq<Version>, k: NaturalKey)
    ensures LookUp(s, k) == None <==> forall v :: v in s ==> v.key != k
    ensures LookUp(s, k).Some? ==> LookUp(s, k).value in s && LookUp(s, k).value.key == k
  {
    if s != [] { LookUpMeaning(s[1..], k); assert s == [s[0]] + s[1..]; }
  }

  lemma {:induction false} GreatestExists(frame: seq<Version>, k: NaturalKey) returns (best: Version)
    requires exists v :: v in frame && v.key == k
    ensures best in frame && best.key == k && Greatest(frame, best)
  {
    var tail := frame[1..];
    assert frame == [frame[0]] + tail;
    if exists v :: v in tail && v.key == k {
      best := GreatestExists(tail, k);
      OrderLeqOrder(best, frame[0], best);
      if frame[0].key == k && !OrderLeq(frame[0], best) {
        forall w | w in frame && w.key == k ensures OrderLeq(w, frame[0]) { OrderLeqOrder(w, best, frame[0]); }
        best := frame[0];
      }
    } else {
      best := frame[0];
      OrderLeqOrder(best, best, best);
    }
  }

  lemma LatestFinalMeaning(stored: seq<Version>, k: NaturalKey)
    requires DistinctIds(stored)
    ensures var l := LookUp(LatestFinal(stored), k);
            && (l == None <==> forall v :: v in stored && v.key == k ==> !FinalStatus(v.status))
            && (l.Some? ==> l.value in stored && l.value.key == k && FinalStatus(l.value.status))
            && (l.Some? ==> forall w :: w in stored && w.key == k && FinalStatus(w.status) ==> OrderLeq(w, l.value))
  {
    var finals := Filter(stored, IsFinal());
    FilterMembers(stored, IsFinal());
    FilteredIds(stored, IsFinal());
    SelectIsFilter(finals);
    FilterMembers(finals, IsGreatest(finals));
    LookUpMeaning(LatestFinal(stored), k);
    if v :| v in finals && v.key == k {
      var best := GreatestExists(finals, k);
      assert best in LatestFinal(stored);
    }
  }

  lemma {:induction false} FilteredIds(s: seq<Version>, p: Version -> bool)
    requires DistinctIds(s)
    ensures DistinctIds(Filter(s, p))
  {
    if s != [] {
      var f := Filter(s[1..], p);
      FilteredIds(s[1..], p);
      FilterMembers(s[1..], p);
      forall j | 0 <= j < |f| ensures s[0].id != f[j].id {
        assert f[j] in f;
        var i :| 0 <= i < |s[1..]| && s[1..][i] == f[j];
        assert s[i + 1] == f[j];
      }
    }
  }

  lemma {:induction false} DistinctMembers(batch: seq<BatchRow>, h: Hashes)
    ensures forall b :: b in Distinct(batch, h) ==> b in batch
  {
    if batch != [] {
      DistinctMembers(batch[..|batch| - 1], h);
      assert batch == batch[..|batch| - 1] + [batch[|batch| - 1]];
    }
  }

  // ----- the past is frozen

  /** A batch whose every row was first seen after `t`. */
  predicate SeenAfter(frame: seq<BatchRow>, t: int) { forall b :: b in frame ==> t < b.ingestedAt }

  /** A taken row of the batch that is already available at `t`, and that no
      stored version of its key visible at `t` outranks. */
  ghost predicate Shows(stored: seq<Version>, b: BatchRow, args: AppendArgs, h: Hashes, t: int, strict: bool) {
    && IsNewKey(b, LatestFinal(stored)) && b.availableAt <= t && !(strict && b.estimated)
    && forall w :: w in stored && w.key == b.key && VisibleAt(t, strict)(w) ==> !OrderLeq(NewVersion(b, args, h, false), w)
  }

  ghost predicate BackdatedRowShows(stored: seq<Version>, frame: seq<BatchRow>, args: AppendArgs, h: Hashes, t: int, strict: bool) {
    exists b :: b in Distinct(frame, h) && Shows(stored, b, args, h, t, strict)
  }

  /** A key the batch introduces with an availability already past. */
  ghost predicate BackdatedNewKey(stored: seq<Version>, frame: seq<BatchRow>, h: Hashes, t: int, strict: bool) {
    exists b :: b in Distinct(frame, h) && IsNewKey(b, LatestFinal(stored))
      && b.availableAt <= t && !(strict && b.estimated)
  }

  /** Rows that are outranked by another of their key do not change a selection. */
  lemma SelectIgnoresOutranked(s: seq<Version>, more: seq<Version>)
    requires DistinctIds(s + more)
    requires forall v :: v in more ==> exists w :: w in s && w.key == v.key && OrderLeq(v, w)
    ensures SelectOnePerKey(s + more, true) == SelectOnePerKey(s, true)
  {
    hide SelectOnePerKey, OrderLeq, DistinctIds;
    DistinctParts(s, more);
    SelectIsFilter(s);
    SelectIsFilter(s + more);
    forall x | x in s ensures Greatest(s + more, x) == Greatest(s, x) { GreatestUnderMore(s, more, x); }
    forall x | x in more ensures !Greatest(s + more, x) { OutrankedIsNotGreatest(s, more, x); }
    FilterConcat(s, more, IsGreatest(s + more));
    FilterNone(more, IsGreatest(s + more));
    FilterAgree(s, IsGreatest(s + more), IsGreatest(s));
    assert Filter(s, IsGreatest(s)) + [] == Filter(s, IsGreatest(s));
  }

  lemma GreatestUnderMore(s: seq<Version>, more: seq<Version>, x: Version)
    requires forall v :: v in more ==> exists w :: w in s && w.key == v.key && OrderLeq(v, w)
    requires x in s
    ensures Greatest(s + more, x) == Greatest(s, x)
  {
    hide OrderLeq;
    if Greatest(s, x) {
      forall v | v in more && v.key == x.key ensures OrderLeq(v, x) {
        var w :| w in s && w.key == v.key && OrderLeq(v, w);
        OrderLeqOrder(v, w, x);
      }
    }
    if Greatest(s + more, x) {
      forall w | w in s && w.key == x.key ensures OrderLeq(w, x) { assert w in s + more; }
    }
  }

  lemma OutrankedIsNotGreatest(s: seq<Version>, more: seq<Version>, x: Version)
    requires DistinctIds(s + more) && x in more
    requires exists w :: w in s && w.key == x.key && OrderLeq(x, w)
    ensures !Greatest(s + more, x)
  {
    hide OrderLeq;
    DistinctParts(s, more);
    var w :| w in s && w.key == x.key && OrderLeq(x, w);
    OrderLeqOrder(x, w, x);
    assert w in s + more;
  }

  lemma KnownAtAfter(stored: seq<Version>, added: seq<Version>, t: int, strict: bool)
    requires DistinctIds(stored + added)
    requires forall v :: v in added && VisibleAt(t, strict)(v) ==>
               exists w :: w in stored && VisibleAt(t, strict)(w) && w.key == v.key && OrderLeq(v, w)
    ensures AsKnownAt(StableSort(stored + added, StoredOrder()), t, strict)
         == StableSort(AsKnownAt(stored, t, strict), StoredOrder())
  {
    hide SelectOnePerKey, OrderLeq, StoredOrder, VisibleAt;
    var p := VisibleAt(t, strict);
    StoredOrderIsPreorder();
    FilterSort(stored + added, StoredOrder(), p);
    FilterConcat(stored, added, p);
    FilteredIds(stored + added, p);
    FilterMembers(stored, p);
    FilterMembers(added, p);
    forall v | v in Filter(added, p) ensures exists w :: w in Filter(stored, p) && w.key == v.key && OrderLeq(v, w) {
      var w :| w in stored && p(w) && w.key == v.key && OrderLeq(v, w);
      assert w in Filter(stored, p);
    }
    SelectIgnoresOutranked(Filter(stored, p), Filter(added, p));
    SelectOfSorted(Filter(stored, p) + Filter(added, p));
  }

  /** The past is frozen: whatever is appended after `t`, what was known at `t`
      stays the same rows (in stored order) exactly when no row of the batch is
      backdated to `t` and outranks what was visible of its key.  Corrections
      never reach back, and where every stored status is final a backdated new
      key always shows. */
  lemma PastIsFrozen(stored: seq<Version>, frame: seq<BatchRow>, args: AppendArgs, h: Hashes, t: int, strict: bool)
    requires SeenAfter(frame, t) && AppendVersions(stored, frame, args, h).Written?
    ensures AsKnownAt(AppendVersions(stored, frame, args, h).table, t, strict)
            == StableSort(AsKnownAt(stored, t, strict), StoredOrder())
            <==> !BackdatedRowShows(stored, frame, args, h, t, strict)
    ensures !BackdatedNewKey(stored, frame, h, t, strict) ==> !BackdatedRowShows(stored, frame, args, h, t, strict)
    ensures AllFinal(stored) ==>
              (BackdatedRowShows(stored, frame, args, h, t, strict) <==> BackdatedNewKey(stored, frame, h, t, strict))
  {
    hide AppendVersions, AsKnownAt, LatestFinal, StoredOrder, DistinctIds, Distinct, OrderLeq;
    WrittenTable(stored, frame, args, h);
    if BackdatedRowShows(stored, frame, args, h, t, strict) {
      var b :| b in Distinct(frame, h) && Shows(stored, b, args, h, t, strict);
      ShownRowIsKnown(stored, frame, args, h, t, strict, b);
    } else {
      forall v | v in Added(stored, frame, args, h) && VisibleAt(t, strict)(v)
        ensures exists w :: w in stored && VisibleAt(t, strict)(w) && w.key == v.key && OrderLeq(v, w)
      {
        VisibleAddition(stored, frame, args, h, t, strict, v);
      }
      KnownAtAfter(stored, Added(stored, frame, args, h), t, strict);
    }
    if AllFinal(stored) && BackdatedNewKey(stored, frame, h, t, strict) {
      var b :| b in Distinct(frame, h) && IsNewKey(b, LatestFinal(stored)) && b.availableAt <= t && !(strict && b.estimated);
      LatestFinalMeaning(stored, b.key);
      assert Shows(stored, b, args, h, t, strict);
    }
  }

  lemma OneRowBatch(b: BatchRow, h: Hashes)
    ensures Distinct([b], h) == [b] && OneContentPerKey([b])
    ensures NewRows([b], []) == [b] && CorrectionRows([b], [], h) == []
  {
    hide Distinct, Filter;
    OneRowDistinct(b, h);
    FilterAll([b], NewKeyIn([]));
    FilterNone([b], CorrectionIn([], h));
  }

  lemma OneRowDistinct(b: BatchRow, h: Hashes)
    ensures Distinct([b], h) == [b]
  {
    assert [b][..0] == [];
    assert Distinct([b][..0], h) == [];
  }

  /** One row appended to versions of its key that are all hidden: it is taken as
      a new key and written. */
  lemma OneRowWritten(stored: seq<Version>, b: BatchRow, args: AppendArgs, h: Hashes)
    requires (forall v :: v in stored ==> v.key == b.key && !FinalStatus(v.status)) && |stored| <= 1 && !b.estimated
    requires forall v :: v in stored ==> v.id != NewVersion(b, args, h, false).id
    ensures LatestFinal(stored) == [] && IsNewKey(b, LatestFinal(stored)) && b in Distinct([b], h)
    ensures var o := AppendVersions(stored, [b], args, h);
            o.Written? && (forall v :: v in stored ==> v in o.table) && NewVersion(b, args, h, false) in o.table
  {
    var w := NewVersion(b, args, h, false);
    OneRowBatch(b, h);
    FilterNone(stored, IsFinal());
    assert LatestFinal(stored) == [];
    assert Added(stored, [b], args, h) == [w];
    assert DistinctIds(stored + [w]);
    SortKeepsIds(stored + [w]);
    StoredVersionsSurvive(stored, [b], args, h);
    WrittenTable(stored, [b], args, h);
  }

  /** The past changing: a key first seen at 10 with an availability of 3 is known
      at 5 after the append, and was not before. */
  lemma BackdatedKeyChangesThePast() returns (b: BatchRow, args: AppendArgs, h: Hashes)
    ensures SeenAfter([b], 5) && AppendVersions([], [b], args, h).Written?
    ensures AsKnownAt(AppendVersions([], [b], args, h).table, 5, true) != StableSort(AsKnownAt([], 5, true), StoredOrder())
  {
    h := Hashes(c => |c|, (key, sha, seen) => if seen < 0 then 0 else seen);
    args := AppendArgs("run", false, false);
    b := BatchRow(NaturalKey([], []), "c", 3, 10, false, Some("Final"));
    OneRowWritten([], b, args, h);
    assert Shows([], b, args, h, 5, true);
    PastIsFrozen([], [b], args, h, 5, true);
  }

  predicate AllFinal(stored: seq<Version>) { forall v :: v in stored ==> FinalStatus(v.status) }

  /** An added version visible at `t` is a backdated new key; if no row shows, a
      stored version of its key outranks it. */
  lemma VisibleAddition(stored: seq<Version>, frame: seq<BatchRow>, args: AppendArgs, h: Hashes, t: int, strict: bool, v: Version)
    requires SeenAfter(frame, t) && v in Added(stored, frame, args, h) && VisibleAt(t, strict)(v)
    requires !BackdatedRowShows(stored, frame, args, h, t, strict)
    ensures exists w :: w in stored && VisibleAt(t, strict)(w) && w.key == v.key && OrderLeq(v, w)
  {
    hide LatestFinal, OrderLeq, Distinct;
    var b := AddedVersion(stored, frame, args, h, v);
    DistinctMembers(frame, h);
    assert IsNewKey(b, LatestFinal(stored)) && v == NewVersion(b, args, h, false);
    assert !Shows(stored, b, args, h, t, strict);
  }

  /** What is known at `t` is, for each key, its greatest visible version. */
  lemma KnownAtMeaning(frame: seq<Version>, t: int, strict: bool)
    requires DistinctIds(frame)
    ensures forall v :: v in AsKnownAt(frame, t, strict) <==>
              v in frame && VisibleAt(t, strict)(v) && Greatest(Filter(frame, VisibleAt(t, strict)), v)
    ensures forall v :: v in Filter(frame, VisibleAt(t, strict)) <==> v in frame && VisibleAt(t, strict)(v)
  {
    hide SelectOnePerKey, VisibleAt, Greatest, DistinctIds;
    var visible := Filter(frame, VisibleAt(t, strict));
    FilteredIds(frame, VisibleAt(t, strict));
    FilterMembers(frame, VisibleAt(t, strict));
    SelectIsFilter(visible);
    FilterMembers(visible, IsGreatest(visible));
  }

  /** A version of the table that `was` does not hold, visible at `t` and above all
      that was visible of its key. */
  ghost predicate Surfaced(was: seq<Version>, table: seq<Version>, t: int, strict: bool, v: Version) {
    && v in table && VisibleAt(t, strict)(v) && v !in was
    && forall w :: w in was && w.key == v.key && VisibleAt(t, strict)(w) ==> OrderLeq(w, v)
  }

  /** A surfaced version changes what is known, in any table that kept the rest. */
  lemma SurfacedIsKnown(was: seq<Version>, table: seq<Version>, t: int, strict: bool, v: Version)
    requires DistinctIds(was) && DistinctIds(table) && (forall w :: w in was ==> w in table)
    requires Surfaced(was, table, t, strict, v)
    ensures exists x :: x in AsKnownAt(table, t, strict) && x !in was
  {
    hide OrderLeq, AsKnownAt, DistinctIds, VisibleAt;
    KnownAtMeaning(table, t, strict);
    var visible := Filter(table, VisibleAt(t, strict));
    var best := GreatestExists(visible, v.key);
    assert OrderLeq(v, best);
    if best in was {
      OrderLeqOrder(v, best, v);
      SameIdSame(table, v, best);
    }
  }

  lemma ShownRowSurfaces(stored: seq<Version>, frame: seq<BatchRow>, args: AppendArgs, h: Hashes, t: int, strict: bool, b: BatchRow)
    requires AppendVersions(stored, frame, args, h).Written?
    requires b in Distinct(frame, h) && Shows(stored, b, args, h, t, strict)
    ensures Surfaced(stored, AppendVersions(stored, frame, args, h).table, t, strict, NewVersion(b, args, h, false))
  {
    hide AppendVersions, OrderLeq, LatestFinal, Distinct, DistinctIds, StoredOrder;
    var v := NewVersion(b, args, h, false);
    WrittenTable(stored, frame, args, h);
    TakenIsAdded(stored, frame, args, h, b);
    assert v in Added(stored, frame, args, h);
    DistinctParts(stored, Added(stored, frame, args, h));
    forall w | w in stored && w.key == v.key && VisibleAt(t, strict)(w) ensures OrderLeq(w, v) {
      OrderLeqOrder(v, w, v);
    }
  }

  lemma KnownWereStored(frame: seq<Version>, t: int, strict: bool)
    requires DistinctIds(frame)
    ensures forall v :: v in StableSort(AsKnownAt(frame, t, strict), StoredOrder()) ==> v in frame
  {
    hide AsKnownAt, StoredOrder;
    KnownAtMeaning(frame, t, strict);
    StoredOrderIsPreorder();
    SortMembers(AsKnownAt(frame, t, strict), StoredOrder());
  }

  lemma ShownRowIsKnown(stored: seq<Version>, frame: seq<BatchRow>, args: AppendArgs, h: Hashes, t: int, strict: bool, b: BatchRow)
    requires AppendVersions(stored, frame, args, h).Written?
    requires b in Distinct(frame, h) && Shows(stored, b, args, h, t, strict)
    ensures AsKnownAt(AppendVersions(stored, frame, args, h).table, t, strict)
         != StableSort(AsKnownAt(stored, t, strict), StoredOrder())
  {
    hide AppendVersions, AsKnownAt, StoredOrder, DistinctIds, Shows, Surfaced;
    var after := AppendVersions(stored, frame, args, h).table;
    WrittenTable(stored, frame, args, h);
    ShownRowSurfaces(stored, frame, args, h, t, strict, b);
    SurfacedIsKnown(stored, after, t, strict, NewVersion(b, args, h, false));
    KnownWereStored(stored, t, strict);
  }

  // ----- over any run of appends

  datatype Step = Step(frame: seq<BatchRow>, args: AppendArgs)

  /** The stored table after a run; refused and empty appends write nothing. */
  function After(stored: seq<Version>, run: seq<Step>, h: Hashes): seq<Version>
    decreases |run|
  {
    if run == [] then stored
    else
      var o := AppendVersions(stored, run[0].frame, run[0].args, h);
      After(if o.Written? then o.table else stored, run[1..], h)
  }

  /** Every batch of the run was first seen after `t`. */
  predicate RunSeenAfter(run: seq<Step>, t: int) { forall i :: 0 <= i < |run| ==> SeenAfter(run[i].frame, t) }

  /** No accepted append of the run holds a backdated row that shows. */
  ghost predicate Quiet(stored: seq<Version>, run: seq<Step>, h: Hashes, t: int, strict: bool)
    decreases |run|
  {
    run == [] ||
    (var s, o := run[0], AppendVersions(stored, run[0].frame, run[0].args, h);
     && (o.Written? ==> !BackdatedRowShows(stored, s.frame, s.args, h, t, strict))
     && Quiet(if o.Written? then o.table else stored, run[1..], h, t, strict))
  }

  lemma {:induction false} FilterSorted(s: seq<Version>, p: Version -> bool)
    requires Sorted(s, StoredOrder())
    ensures Sorted(Filter(s, p), StoredOrder())
  {
    StoredOrderIsPreorder();
    SortOfSorted(s, StoredOrder());
    FilterSort(s, StoredOrder(), p);
    InsertAllSorted(Filter(s, p), [], StoredOrder());
  }

  lemma {:induction false} NothingIsLost(stored: seq<Version>, run: seq<Step>, h: Hashes)
    ensures forall v :: v in stored ==> v in After(stored, run, h)
    ensures DistinctIds(stored) ==> DistinctIds(After(stored, run, h))
    ensures DistinctIds(stored) && Sorted(stored, StoredOrder()) ==> Sorted(After(stored, run, h), StoredOrder())
    decreases |run|
  {
    hide AppendVersions, DistinctIds, StoredOrder;
    if run != [] {
      var s, o := run[0], AppendVersions(stored, run[0].frame, run[0].args, h);
      if o.Written? {
        WrittenTable(stored, s.frame, s.args, h);
        WrittenIsSorted(stored, s.frame, s.args, h);
      }
      NothingIsLost(if o.Written? then o.table else stored, run[1..], h);
    }
  }

  lemma WrittenIsSorted(stored: seq<Version>, frame: seq<BatchRow>, args: AppendArgs, h: Hashes)
    requires AppendVersions(stored, frame, args, h).Written?
    ensures Sorted(AppendVersions(stored, frame, args, h).table, StoredOrder())
  {
    hide AppendVersions, StoredOrder;
    WrittenTable(stored, frame, args, h);
    StoredOrderIsPreorder();
    InsertAllSorted(stored + Added(stored, frame, args, h), [], StoredOrder());
  }

  /** Of a sorted table, what is known at `t` is sorted already. */
  lemma KnownIsSorted(stored: seq<Version>, t: int, strict: bool)
    requires DistinctIds(stored) && Sorted(stored, StoredOrder())
    ensures StableSort(AsKnownAt(stored, t, strict), StoredOrder()) == AsKnownAt(stored, t, strict)
  {
    hide StoredOrder, SelectOnePerKey, DistinctIds, Greatest;
    var visible := Filter(stored, VisibleAt(t, strict));
    FilterSorted(stored, VisibleAt(t, strict));
    FilteredIds(stored, VisibleAt(t, strict));
    SelectIsFilter(visible);
    FilterSorted(visible, IsGreatest(visible));
    SortOfSorted(AsKnownAt(stored, t, strict), StoredOrder());
  }

  lemma SurfacedStays(was: seq<Version>, stored: seq<Version>, run: seq<Step>, h: Hashes, t: int, strict: bool, v: Version)
    requires DistinctIds(was) && DistinctIds(stored) && (forall w :: w in was ==> w in stored)
    requires Surfaced(was, stored, t, strict, v)
    ensures KnownAt(After(stored, run, h), t, strict) != KnownAt(was, t, strict)
  {
    hide AsKnownAt, After, DistinctIds, StoredOrder;
    var later := After(stored, run, h);
    NothingIsLost(stored, run, h);
    SurfacedIsKnown(was, later, t, strict, v);
    KnownAtMeaning(was, t, strict);
    StoredOrderIsPreorder();
    SortMembers(AsKnownAt(later, t, strict), StoredOrder());
    SortMembers(AsKnownAt(was, t, strict), StoredOrder());
  }

  /** What is known at `t`, in stored order. */
  function KnownAt(frame: seq<Version>, t: int, strict: bool): seq<Version> {
    StableSort(AsKnownAt(frame, t, strict), StoredOrder())
  }

  /** The past as known at `t` is the same after a run of appends first seen after
      `t` exactly when no accepted append of the run held a backdated row that
      shows; later appends never restore it. A sorted table keeps the very rows
      in place. */
  lemma {:induction false} PastIsFrozenOverRuns(stored: seq<Version>, run: seq<Step>, h: Hashes, t: int, strict: bool)
    requires RunSeenAfter(run, t)
    ensures KnownAt(After(stored, run, h), t, strict) == KnownAt(stored, t, strict) <==> Quiet(stored, run, h, t, strict)
    ensures DistinctIds(stored) && Sorted(stored, StoredOrder()) ==>
              (AsKnownAt(After(stored, run, h), t, strict) == AsKnownAt(stored, t, strict) <==> Quiet(stored, run, h, t, strict))
    decreases |run|
  {
    hide AppendVersions, AsKnownAt, DistinctIds, StoredOrder, BackdatedRowShows, Shows, Surfaced, SeenAfter;
    if run != [] {
      var s, o := run[0], AppendVersions(stored, run[0].frame, run[0].args, h);
      assert SeenAfter(s.frame, t);
      RunTail(run, t);
      if o.Written? {
        WrittenTable(stored, s.frame, s.args, h);
        WrittenIsSorted(stored, s.frame, s.args, h);
        if BackdatedRowShows(stored, s.frame, s.args, h, t, strict) {
          ShownRowSticks(stored, s, run[1..], h, t, strict);
        } else {
          PastIsFrozen(stored, s.frame, s.args, h, t, strict);
          KnownIsSorted(o.table, t, strict);
          PastIsFrozenOverRuns(o.table, run[1..], h, t, strict);
        }
      } else {
        PastIsFrozenOverRuns(stored, run[1..], h, t, strict);
      }
    }
    KnownOfSorted(stored, run, h, t, strict);
  }

  /** From a sorted table every table of a run is sorted. */
  lemma KnownOfSorted(stored: seq<Version>, run: seq<Step>, h: Hashes, t: int, strict: bool)
    ensures DistinctIds(stored) && Sorted(stored, StoredOrder()) ==>
              && KnownAt(stored, t, strict) == AsKnownAt(stored, t, strict)
              && KnownAt(After(stored, run, h), t, strict) == AsKnownAt(After(stored, run, h), t, strict)
  {
    hide AsKnownAt, DistinctIds, StoredOrder, After;
    if DistinctIds(stored) && Sorted(stored, StoredOrder()) {
      NothingIsLost(stored, run, h);
      KnownIsSorted(stored, t, strict);
      KnownIsSorted(After(stored, run, h), t, strict);
    }
  }

  lemma RunTail(run: seq<Step>, t: int)
    requires run != [] && RunSeenAfter(run, t)
    ensures RunSeenAfter(run[1..], t)
  {
  }

  lemma ShownRowSticks(stored: seq<Version>, s: Step, rest: seq<Step>, h: Hashes, t: int, strict: bool)
    requires AppendVersions(stored, s.frame, s.args, h).Written? && BackdatedRowShows(stored, s.frame, s.args, h, t, strict)
    ensures KnownAt(After(AppendVersions(stored, s.frame, s.args, h).table, rest, h), t, strict) != KnownAt(stored, t, strict)
  {
    hide AppendVersions, AsKnownAt, DistinctIds, StoredOrder, Shows, Surfaced, After;
    var b :| b in Distinct(s.frame, h) && Shows(stored, b, s.args, h, t, strict);
    WrittenTable(stored, s.frame, s.args, h);
    ShownRowSurfaces(stored, s.frame, s.args, h, t, strict, b);
    SurfacedStays(stored, AppendVersions(stored, s.frame, s.args, h).table, rest, h, t, strict, NewVersion(b, s.args, h, false));
  }
}
