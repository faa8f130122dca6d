/** The append-only table itself: range pruning, incremental append, the full
    rewrite, compaction, and the two readers, changing one directory in place. */
module Warehouse {
  import opened StableSorting
  import opened Options
  import opened WarehouseRows
  import opened WarehouseParts
  import opened WarehouseAppend
  import opened WarehouseCompaction
  import opened WarehouseBound

  datatype Keep = KeepFirstRow | KeepLastRow

  /** An incoming frame: its column names and its rows. */
  datatype Frame = Frame(columns: seq<string>, rows: seq<Row>)

  // ----- one append call

  function SortForWrite(rows: seq<Row>, sortBy: seq<string>): seq<Row> {
    if sortBy == [] then rows else StableSort(rows, ByColumns(sortBy))
  }

  function Dedup(rows: seq<Row>, key: Option<seq<string>>, keep: Keep): seq<Row> {
    if key == None || key.value == [] then rows
    else if keep == KeepLastRow then KeepLast(rows, key.value)
    else KeepFirst(rows, key.value)
  }

  /** What a rewriting append leaves of the rows read before and of the batch: with
      no key all of them; otherwise one row for each key, the last of them or the
      first; and sorted if it is to be. */
  lemma AppendedRows(current: seq<Row>, batch: seq<Row>, key: Option<seq<string>>, keep: Keep, sortBy: seq<string>)
    ensures var s, out := current + batch, SortForWrite(Dedup(current + batch, key, keep), sortBy);
            && (key == None || key.value == [] ==> multiset(out) == multiset(s) && (sortBy == [] ==> out == s))
            && (key.Some? && key.value != [] ==>
                  && UniqueKeys(out, key.value)
                  && (keep == KeepLastRow ==>
                        forall r :: r in out <==> exists i :: 0 <= i < |s| && s[i] == r && LastOfKey(s, i, key.value))
                  && (keep == KeepFirstRow ==>
                        forall r :: r in out <==> exists i :: 0 <= i < |s| && s[i] == r && FirstOfKey(s, i, key.value)))
            && (sortBy != [] ==> Sorted(out, ByColumns(sortBy)))
  {
    hide KeepLast, KeepFirst, LastOfKey, FirstOfKey, UniqueKeys;
    var s := current + batch;
    var kept := Dedup(s, key, keep);
    ByColumnsIsPreorder(sortBy);
    InsertAllSorted(kept, [], ByColumns(sortBy));
    SortMembers(kept, ByColumns(sortBy));
    if key.Some? && key.value != [] {
      KeepLastKeys(s, key.value);
      KeepFirstKeys(s, key.value);
      UniqueByMultiset(kept, SortForWrite(kept, sortBy), key.value);
      forall r
        ensures r in KeepLast(s, key.value) <==> exists i :: 0 <= i < |s| && s[i] == r && LastOfKey(s, i, key.value)
        ensures r in KeepFirst(s, key.value) <==> exists i :: 0 <= i < |s| && s[i] == r && FirstOfKey(s, i, key.value)
      {
        KeepLastRows(s, r, key.value);
        KeepFirstRows(s, r, key.value);
      }
    }
  }

  /** Appending keep-first behind rows that repeat no key: every one of them is
      still there, and a batch row is added exactly if its key was neither stored
      nor earlier in the batch. */
  lemma KeepFirstAppend(current: seq<Row>, batch: seq<Row>, key: seq<string>, sortBy: seq<string>, r: Row)
    requires key != [] && UniqueKeys(current, key)
    ensures r in SortForWrite(Dedup(current + batch, Some(key), KeepFirstRow), sortBy) <==>
              r in current || exists i :: 0 <= i < |batch| && AddedAt(current, batch, i, key) && batch[i] == r
  {
    hide KeepFirst, UniqueKeys, AddedAt;
    ByColumnsIsPreorder(sortBy);
    SortMembers(KeepFirst(current + batch, key), ByColumns(sortBy));
    KeepFirstBehind(current, batch, r, key);
  }

  predicate SpecCall(key: Option<seq<string>>, keep: Keep, sortBy: seq<string>, spec: PartitionSpec) {
    key == Some(spec.key) && keep == KeepLastRow && sortBy == spec.sortBy
  }

  /** The call matches the table's spec, and so does the frame. */
  predicate MatchesSpec(frame: Frame, key: Option<seq<string>>, keep: Keep, sortBy: seq<string>, spec: PartitionSpec) {
    && SpecCall(key, keep, sortBy, spec)
    && (forall c :: c in spec.key ==> c in frame.columns)
    && (forall r :: r in frame.rows ==> Cell(r, spec.pruneColumn) != Null)
  }

  /** The frame has every key column, and a value to prune by in every row. */
  predicate Carries(frame: Frame, spec: PartitionSpec) {
    && (forall c :: c in spec.key ==> c in frame.columns)
    && (forall r :: r in frame.rows ==> spec.pruneColumn in r && r[spec.pruneColumn] != Null)
  }

  lemma BaseOnly(rows: seq<Row>)
    ensures Shape(Directory(Some(rows), map[])) && Content(Directory(Some(rows), map[])) == rows
  {
    var d := Directory(Some(rows), map[]);
    assert Live(d.parts.Keys) == {};
  }

  /** Falling back after some superseded rows were dropped changes nothing. */
  lemma FallbackIsRewrite(d0: Directory, run: seq<Action>, d: Directory, batch: seq<Row>, spec: PartitionSpec)
    requires Runs(d0, run) && Content(d) == Content(After(d0, run))
    requires Steady(d0, run, Keys(batch, spec.key), spec.key)
    ensures Rewritten(Read(d, spec), batch, spec) == Rewritten(Read(d0, spec), batch, spec)
  {
    assert SteadyAt(d0, run, |run|, Keys(batch, spec.key), spec.key);
    assert run[..|run|] == run;
    RewriteAfterPartialDrop(Content(d0), Content(d), batch, spec);
  }

  /** A stored key that repeats outside the batch: the batch published as a part
      keeps both rows, the full rewrite one. */
  lemma RepeatedKeyIsKept() returns (d: Directory, batch: seq<Row>, spec: PartitionSpec)
    ensures Shape(d) && spec.Valid() && NextSequence(d) <= MAX_SEQUENCE
    ensures Content(d) == Without(Content(d), Keys(batch, spec.key), spec.key) && !UniqueKeys(Content(d), spec.key)
    ensures Read(Next(d, PublishBatch(StableSort(KeepLast(batch, spec.key), ByColumns(spec.sortBy)))), spec)
         != Rewritten(Read(d, spec), batch, spec)
  {
    var row: Row := map["at" := Time(0)];
    d := Directory(Some([row, row]), map[]);
    spec := PartitionSpec(["at"], ["at"], "at");
    batch := [map["at" := Time(1)]];
    BaseOnly([row, row]);
    assert Key(row, spec.key) != Key(batch[0], spec.key) by { assert Key(row, spec.key)[0] == Time(0) && Key(batch[0], spec.key)[0] == Time(1); }
    FilterAll(Content(d), Outside(Keys(batch, spec.key), spec.key));
    assert Key(Content(d)[0], spec.key) == Key(Content(d)[1], spec.key);
    PublishIsRewrite(d, d, batch, spec);
  }

  /** What the full rewrite leaves to read. */
  lemma WrittenTable(current: seq<Row>, batch: seq<Row>, key: Option<seq<string>>, keep: Keep,
                     sortBy: seq<string>, spec: PartitionSpec)
    requires spec.Valid()
    ensures var d := Directory(Some(SortForWrite(Dedup(current + batch, key, keep), sortBy)), map[]);
            && Shape(d) && Content(d) == SortForWrite(Dedup(current + batch, key, keep), sortBy)
            && (SpecCall(key, keep, sortBy, spec) ==>
                  Read(d, spec) == Rewritten(current, batch, spec) && UniqueKeys(Content(d), spec.key))
  {
    var out := Dedup(current + batch, key, keep);
    BaseOnly(SortForWrite(out, sortBy));
    if SpecCall(key, keep, sortBy, spec) {
      var leq := ByColumns(spec.sortBy);
      ByColumnsIsPreorder(spec.sortBy);
      SortOfSortedParts(out, [], leq);
      assert StableSort(SortForWrite(out, sortBy), leq) == StableSort(out, leq) by {
        if sortBy != [] { assert StableSort(StableSort(out, leq), leq) == StableSort(out, leq); }
      }
      KeepLastKeys(current + batch, spec.key);
      InsertAllSorted(out, [], leq);
      UniqueByMultiset(out, StableSort(out, leq), spec.key);
    }
  }

  /** Reading sorts the content. */
  lemma ReadMembers(d: Directory, spec: PartitionSpec, r: Row)
    ensures r in Read(d, spec) <==> r in Content(d)
  {
    ByColumnsIsPreorder(spec.sortBy);
    SortMembers(Content(d), ByColumns(spec.sortBy));
  }

  // ----- the table

  function RangeOrder(): (Range, Range) -> bool { (a, b) => ByStartThenEnd(a, b) }

  lemma SortedListing(found: seq<Range>, rs: set<Range>)
    requires Elements(found) == rs
    requires forall i, j :: 0 <= i < j < |found| ==> found[i] != found[j]
    ensures StableSort(found, RangeOrder()) == Listing(rs)
  {
    var q := StableSort(found, RangeOrder());
    assert TotalPreorder(RangeOrder());
    InsertAllSorted(found, [], RangeOrder());
    SortMembers(found, RangeOrder());
    assert multiset(q) == multiset(found);
    forall i, j | 0 <= i < j < |q| ensures q[i] != q[j] {
      if q[i] == q[j] {
        OccursApart(q, i, j);
        OccursTwice(found, q[i]);
        assert false;
      }
    }
    forall i, j | 0 <= i < j < |q| ensures ByStartThenEnd(q[i], q[j]) {
      assert RangeOrder()(q[i], q[j]);
    }
    assert Elements(q) == rs by {
      forall r ensures r in Elements(q) <==> r in Elements(found) {}
    }
    ListingUnique(q, rs);
  }

  lemma FilterAscending(q: seq<Range>, p: Range -> bool)
    requires Ascending(q)
    ensures Ascending(Filter(q, p))
  {
    if q != [] {
      var f := Filter(q[1..], p);
      FilterAscending(q[1..], p);
      FilterMembers(q[1..], p);
      forall j | 0 <= j < |f| ensures q[0] != f[j] && ByStartThenEnd(q[0], f[j]) {
        assert f[j] in f;
        var i :| 0 <= i < |q[1..]| && q[1..][i] == f[j];
        assert q[i + 1] == f[j];
      }
    }
  }

  function LiveIn(rs: set<Range>): Range -> bool { r => r in rs && !Superseded(r, rs) }

  lemma LiveIsFiltered(rs: set<Range>)
    ensures Filter(Listing(rs), LiveIn(rs)) == Listing(Live(rs))
  {
    var all := Listing(rs);
    ListingMeaning(rs);
    FilterAscending(all, LiveIn(rs));
    FilterMembers(all, LiveIn(rs));
    assert forall r :: r in all <==> r in Elements(all);
    ListingUnique(Filter(all, LiveIn(rs)), Live(rs));
  }

  class Table {
    const spec: PartitionSpec
    var base: Option<seq<Row>>
    var parts: map<Range, seq<Row>>

    constructor (spec: PartitionSpec)
      ensures this.spec == spec && Dir() == EMPTY
    {
      this.spec := spec;
      base := None;
      parts := map[];
    }

    ghost function Dir(): Directory
      reads this
    {
      Directory(base, parts)
    }

    method AllParts() returns (q: seq<Range>)
      ensures q == Listing(parts.Keys)
    {
      var todo := parts.Keys;
      var found: seq<Range> := [];
      while todo != {}
        invariant todo <= parts.Keys && Elements(found) == parts.Keys - todo
        invariant forall i, j :: 0 <= i < j < |found| ==> found[i] != found[j]
        decreases todo
      {
        var r :| r in todo;
        assert r !in Elements(found);
        found := found + [r];
        assert Elements(found) == Elements(found[..|found| - 1]) + {r};
        todo := todo - {r};
      }
      SortedListing(found, parts.Keys);
      q := StableSort(found, RangeOrder());
    }

    method LiveParts() returns (live: seq<Range>)
      ensures live == LiveList(Dir())
    {
      var all := AllParts();
      ListingMeaning(parts.Keys);
      live := [];
      for i := 0 to |all|
        invariant live == Filter(all[..i], LiveIn(parts.Keys))
      {
        FilterStep(all, i, LiveIn(parts.Keys));
        assert forall o :: o in all <==> o in Elements(all);
        assert all[i] in all;
        var covered := exists o :: o in all && Covers(o, all[i]);
        if !covered {
          live := live + [all[i]];
        }
      }
      assert all[..|all|] == all;
      LiveIsFiltered(parts.Keys);
    }

    method TableFiles() returns (files: seq<FileId>)
      ensures files == Files(base, LiveList(Dir()))
    {
      var live := LiveParts();
      files := Files(base, live);
    }

    function RowsOf(f: FileId): seq<Row>
      reads this
    {
      if f.BaseFile? then (if base.Some? then base.value else [])
      else if f.range in parts then parts[f.range] else []
    }

    /** The logical table, or its rows matching `keep`. */
    method ReadTable(keep: Option<Row -> bool>) returns (rows: seq<Row>)
      ensures rows == if keep.None? then Read(Dir(), spec) else Filter(Read(Dir(), spec), keep.value)
    {
      hide LiveList, Content, Files, ByColumns, Filter, StableSort, Rows;
      var files := TableFiles();
      FilesRowsIsContent(Dir());
      ByColumnsIsPreorder(spec.sortBy);
      var all: seq<Row> := [];
      for i := 0 to |files|
        invariant all == FilesRows(Dir(), files[..i])
      {
        FilesRowsStep(Dir(), files, i);
        assert files[i] in files;
        all := all + RowsOf(files[i]);
      }
      assert files[..|files|] == files;
      if keep.Some? {
        FilterSort(Content(Dir()), ByColumns(spec.sortBy), keep.value);
        all := Filter(all, keep.value);
      }
      rows := StableSort(all, ByColumns(spec.sortBy));
    }

    /** The same rows, filtering file by file and never holding a whole file. */
    method ReadTableScoped(keep: Row -> bool) returns (rows: seq<Row>)
      ensures rows == Filter(Read(Dir(), spec), keep)
    {
      hide LiveList, Content, Files, ByColumns, StableSort, Rows;
      var files := TableFiles();
      FilesRowsIsContent(Dir());
      ByColumnsIsPreorder(spec.sortBy);
      var out: seq<Row> := [];
      for i := 0 to |files|
        invariant out == Filter(FilesRows(Dir(), files[..i]), keep)
      {
        FilesRowsStep(Dir(), files, i);
        assert files[i] in files;
        FilterConcat(FilesRows(Dir(), files[..i]), RowsOf(files[i]), keep);
        out := out + Filter(RowsOf(files[i]), keep);
      }
      assert files[..|files|] == files;
      FilterSort(Content(Dir()), ByColumns(spec.sortBy), keep);
      rows := StableSort(out, ByColumns(spec.sortBy));
    }

    /** Remove stored rows the batch supersedes, each from the one file holding
        it.  A scan that raises (`faults`) stops the pass part-way. */
    method DropSuperseded(batch: seq<Row>, faults: set<nat>) returns (ok: bool, ghost run: seq<Action>)
      requires spec.Valid() && Shape(Dir())
      requires forall r :: r in batch ==> Cell(r, spec.pruneColumn) != Null
      modifies this`base, this`parts
      ensures Dropping(old(Dir()), run, Dir(), Keys(batch, spec.key), spec.key)
      ensures ok ==> Content(Dir()) == Without(old(Content(Dir())), Keys(batch, spec.key), spec.key)
      ensures faults == {} ==> ok
      ensures TouchesOnly(old(Dir()), run, Dir(), Keys(batch, spec.key), spec.key)
    {
      hide TouchesOnly, Dropping, UniqueKeys, Shape, Content, LiveList, Pruned, Collides, ColumnRange, IsFile, Without;
      ghost var d0 := Dir();
      var keys := Keys(batch, spec.key);
      var bounds := ColumnRange(batch, spec.pruneColumn);
      var files := TableFiles();
      DroppingStarts(d0, keys, spec.key);
      assert TouchesOnly(d0, [], d0, keys, spec.key) by { NothingTouched(d0, keys, spec.key); }
      run := [];
      for i := 0 to |files|
        invariant Dropping(d0, run, Dir(), keys, spec.key)
        invariant TouchesOnly(d0, run, Dir(), keys, spec.key)
        invariant forall j :: 0 <= j < i ==> Clean(Dir(), files[j], keys, spec.key)
      {
        if i in faults {
          ok := false;
          return;
        }
        var f := files[i];
        DroppingMeans(d0, run, Dir(), keys, spec.key);
        var rows := RowsOf(f);
        if Pruned(ColumnRange(rows, spec.pruneColumn), bounds.low, bounds.high) {
          PruningIsSound(rows, batch, spec);
        } else {
          CollisionCheckIsExact(rows, batch, spec);
          if Collides(rows, bounds.low, bounds.high, keys, spec) {
            DroppingStep(d0, run, Dir(), f, keys, spec.key);
            SameFiles(d0, files, f);
            TouchesStep(d0, run, Dir(), f, keys, spec.key);
            CleanAfterDrop(Dir(), f, keys, spec.key);
            run := run + [RewriteFile(f, Without(rows, keys, spec.key))];
            Rewrite(f, Without(rows, keys, spec.key));
          }
        }
      }
      ok := true;
      DroppingMeans(d0, run, Dir(), keys, spec.key);
      CleanFiles(Dir(), keys, spec.key);
    }

    /** Write a new file and atomically put it in the place of the old one. */
    method Rewrite(f: FileId, rows: seq<Row>)
      requires IsFile(Dir(), f)
      modifies this`base, this`parts
      ensures Enabled(old(Dir()), RewriteFile(f, rows))
      ensures Dir() == Next(old(Dir()), RewriteFile(f, rows))
    {
      if f.BaseFile? {
        base := Some(rows);
      } else {
        parts := parts[f.range := rows];
      }
    }

    /** The largest listed end plus one, or 1 for the first part. */
    method NextSequenceNumber() returns (n: nat)
      ensures n == NextSequence(Dir())
    {
      var todo := parts.Keys;
      n := 1;
      while todo != {}
        invariant todo <= parts.Keys && n >= 1
        invariant forall r :: r in parts.Keys - todo ==> r.end < n
        invariant n == 1 || exists r :: r in parts && r.end == n - 1
        decreases todo
      {
        var r :| r in todo;
        if r.end >= n { n := r.end + 1; }
        todo := todo - {r};
      }
    }

    /** Publish one merged part, then unlink its inputs one by one. */
    method MergeGroup(ghost first: nat, inputs: seq<Range>) returns (ghost run: seq<Action>)
      requires Shape(Dir()) && Enabled(Dir(), PublishMerged(first, |inputs|))
      requires inputs == MergeInputs(Dir(), first, |inputs|)
      modifies this`parts
      ensures Compacting(old(Dir()), run, Dir()) && Content(Dir()) == old(Content(Dir())) && base == old(base)
      ensures var m := Range(inputs[0].start, inputs[|inputs| - 1].end);
              && LiveList(Dir()) == Splice(old(LiveList(Dir())), first, |inputs|, m)
              && parts == old(parts)[m := Rows(inputs, old(parts))] - Elements(inputs)
    {
      ghost var d0 := Dir();
      MergingStarts(d0, first, inputs);
      run := [PublishMerged(first, |inputs|)];
      parts := AddPart(parts, Range(inputs[0].start, inputs[|inputs| - 1].end), Rows(inputs, parts));
      for i := 0 to |inputs|
        invariant Merging(d0, run, Dir(), first, inputs, i)
      {
        MergingStep(d0, run, Dir(), first, inputs, i);
        run := run + [RemovePart(inputs[i])];
        parts := parts - {inputs[i]};
      }
      MergedGroup(d0, run, Dir(), first, inputs);
    }

    /** Merge the next planned group of a compaction that started from `d0`. */
    method MergeNextGroup(ghost d0: Directory, ghost run0: seq<Action>, ghost final: seq<Range>,
                          ghost rest: seq<Group>, ghost pos: nat, ghost done: seq<Range>, inputs: seq<Range>)
      returns (ghost run: seq<Action>, ghost pos': nat, ghost done': seq<Range>)
      requires Shape(d0) && CompactedFrom(d0, run0, Dir())
      requires rest != [] && GroupFits(LiveSizes(d0), rest[0]) && Progress(LiveList(d0), final, rest, pos, done, LiveList(Dir()))
      requires rest[0].first + rest[0].count <= |LiveList(d0)|
      requires inputs == LiveList(d0)[rest[0].first..rest[0].first + rest[0].count]
      modifies this`parts
      ensures CompactedFrom(d0, run, Dir()) && Progress(LiveList(d0), final, rest[1..], pos', done', LiveList(Dir()))
    {
      hide Progress, CompactedFrom, Shape, Splice, LiveList, Elements, Rows, Enabled, GroupFits;
      ghost var before, g := Dir(), rest[0];
      ghost var first := |done| + g.first - pos;
      NextGroupStands(LiveList(d0), final, rest, pos, done, LiveList(before));
      ghost var m := Range(inputs[0].start, inputs[|inputs| - 1].end);
      GroupReady(d0, run0, before, g, first, inputs);
      ghost var more := MergeGroup(first, inputs);
      run := run0 + more;
      CompactedFromStep(d0, run0, before, inputs, more, Dir());
      pos', done' := ProgressStep(LiveList(d0), final, rest, pos, done, LiveList(before), g, m, LiveList(Dir()));
    }

    /** Merge runs of consecutive small parts once enough have accumulated. */
    method Compact() returns (ghost run: seq<Action>, ghost plan: seq<Group>)
      requires Shape(Dir())
      modifies this`parts
      ensures CompactedFrom(old(Dir()), run, Dir())
      ensures var small := |SmallParts(old(LiveSizes(Dir())))|;
              if small < COMPACT_TRIGGER_PARTS then Dir() == old(Dir())
              else
                && GoodPlan(old(LiveSizes(Dir())), |old(LiveSizes(Dir()))|, plan)
                && GroupsFrom(0, Mergeable(plan), |old(LiveList(Dir()))|)
                && LiveList(Dir()) == MergedLive(old(LiveList(Dir())), Mergeable(plan), 0)
                && Heavy(LiveSizes(Dir()))
                && |LiveList(Dir())| * COMPACT_TARGET_ROWS <= 2 * |Rows(LiveList(Dir()), parts)| + COMPACT_TARGET_ROWS
    {
      ghost var d0 := Dir();
      hide Progress, CompactedFrom, Shape, LiveList, MergedLive, GroupFits, AllJustified, AllSmallIn, Heavy, Rows;
      run, plan := [], [];
      var live := LiveParts();
      var now := parts;
      var sizes: seq<nat> := seq(|live|, i requires 0 <= i < |live| => |RowsAt(live[i], now)|);
      assert sizes == LiveSizes(d0);
      assert Compacting(d0, [], d0);
      if |SmallParts(sizes)| < COMPACT_TRIGGER_PARTS {
        CompactedFromStarts(d0);
        return;
      }
      var groups := PlanGroups(sizes);
      plan := groups;
      PlanGroupsFrom(sizes, groups, 0);
      MergeableFits(sizes, groups);
      var todo := Mergeable(groups);
      ghost var final := MergedLive(live, todo, 0);
      ghost var rest, pos: nat, done: seq<Range> := todo, 0, [];
      ProgressStarts(live, todo);
      CompactedFromStarts(d0);
      for k := 0 to |todo|
        invariant CompactedFrom(d0, run, Dir()) && rest == todo[k..]
        invariant Progress(live, final, rest, pos, done, LiveList(Dir()))
      {
        NextGroupInside(live, final, rest, pos, done, LiveList(Dir()));
        run, pos, done := MergeNextGroup(d0, run, final, rest, pos, done,
                                         live[todo[k].first..todo[k].first + todo[k].count]);
        rest := rest[1..];
      }
      ProgressEnds(live, final, pos, done, LiveList(Dir()));
      CompactionBoundsParts(d0, run, Dir(), plan);
    }

    /** Append the batch as one new part and compact.  Returns false, with at most
        superseded rows dropped, when a scan raised and the caller must rewrite. */
    method IncrementalAppend(batch: seq<Row>, faults: set<nat>)
      returns (ok: bool, ghost run: seq<Action>, ghost upkeep: seq<Action>)
      requires spec.Valid() && Shape(Dir()) && batch != []
      requires forall r :: r in batch ==> Cell(r, spec.pruneColumn) != Null
      modifies this`base, this`parts
      ensures Shape(Dir()) && Runs(old(Dir()), run) && Compacting(After(old(Dir()), run), upkeep, Dir())
      ensures Content(Dir()) == Content(After(old(Dir()), run))
      ensures old(UniqueKeys(Content(Dir()), spec.key)) ==> UniqueKeys(Content(Dir()), spec.key)
      ensures Steady(old(Dir()), run, Keys(batch, spec.key), spec.key)
      ensures ok ==> (Read(Dir(), spec) == Rewritten(old(Read(Dir(), spec)), batch, spec)
                      <==> old(NextSequence(Dir())) <= MAX_SEQUENCE
                           && UniqueKeys(Without(old(Content(Dir())), Keys(batch, spec.key), spec.key), spec.key))
      ensures !ok ==> upkeep == []
      ensures faults == {} ==> ok
    {
      hide Content, UniqueKeys, Steady, Without, NextSequence, Rewritten, KeepLast, Laminar, LiveList;
      ghost var d0 := Dir();
      var latest := KeepLast(batch, spec.key);
      KeepLastKeys(batch, spec.key);
      KeepLastOfKeepLast(batch, spec.key);
      forall r | r in latest ensures Cell(r, spec.pruneColumn) != Null { KeepLastRows(batch, r, spec.key); }
      ok, run := DropSuperseded(latest, faults);
      upkeep := [];
      if !ok { return; }
      var n := NextSequenceNumber();
      var leq := ByColumns(spec.sortBy);
      ghost var dropped, action := Dir(), PublishBatch(StableSort(latest, leq));
      SameNextSequence(d0, dropped);
      PublishIsRewrite(d0, dropped, batch, spec);
      NextKeepsShape(dropped, action);
      WithoutTwice(Content(d0), Keys(batch, spec.key), spec.key);
      PublishIsSteady(dropped, latest, spec);
      SteadyExtend(d0, run, action, Keys(batch, spec.key), spec.key);
      parts := AddPart(parts, Range(n, n), StableSort(latest, leq));
      run := run + [action];
      ghost var plan;
      upkeep, plan := Compact();
    }

    /** Full replacement: every part is superseded by one sorted base file. */
    method Write(rows: seq<Row>, sortBy: seq<string>)
      modifies this`base, this`parts
      ensures Dir() == Directory(Some(SortForWrite(rows, sortBy)), map[])
    {
      parts := map[];
      base := Some(SortForWrite(rows, sortBy));
    }

    /** The public append: incremental when the call matches the table's spec,
        otherwise read, concatenate, de-duplicate and rewrite. */
    method Append(frame: Frame, key: Option<seq<string>>, keep: Keep, sortBy: seq<string>, faults: set<nat>)
      returns (incremental: bool)
      requires spec.Valid() && Shape(Dir())
      modifies this`base, this`parts
      ensures Shape(Dir())
      ensures frame.rows == [] ==> Dir() == old(Dir())
      ensures incremental ==>
                frame.rows != [] && key == Some(spec.key) && keep == KeepLastRow && sortBy == spec.sortBy && Carries(frame, spec)
      ensures frame.rows != [] && key == Some(spec.key) && keep == KeepLastRow && sortBy == spec.sortBy && Carries(frame, spec) && faults == {} ==>
                incremental
      ensures frame.rows != [] && SpecCall(key, keep, sortBy, spec) ==>
                (Read(Dir(), spec) == Rewritten(old(Read(Dir(), spec)), frame.rows, spec)
                 <==> !incremental
                      || (old(NextSequence(Dir())) <= MAX_SEQUENCE
                          && UniqueKeys(Without(old(Content(Dir())), Keys(frame.rows, spec.key), spec.key), spec.key)))
      ensures SpecCall(key, keep, sortBy, spec) && old(UniqueKeys(Content(Dir()), spec.key)) ==>
                UniqueKeys(Content(Dir()), spec.key)
      ensures frame.rows != [] && !SpecCall(key, keep, sortBy, spec) ==>
                Content(Dir()) == SortForWrite(Dedup(old(Read(Dir(), spec)) + frame.rows, key, keep), sortBy)
      ensures frame.rows != [] && keep == KeepFirstRow && key.Some? && key.value != [] && old(UniqueKeys(Read(Dir(), spec), key.value)) ==>
                forall r :: r in Read(Dir(), spec) <==>
                  r in old(Read(Dir(), spec))
                  || exists i :: 0 <= i < |frame.rows| && AddedAt(old(Read(Dir(), spec)), frame.rows, i, key.value) && frame.rows[i] == r
    {
      hide Content, UniqueKeys, NextSequence, Rewritten, KeepLast, KeepFirst, AddedAt, Laminar, LiveList, Steady, Without, Read, Shape;
      incremental := false;
      if frame.rows == [] { return; }
      ghost var d0 := Dir();
      if MatchesSpec(frame, key, keep, sortBy, spec) {
        ghost var run, upkeep;
        incremental, run, upkeep := IncrementalAppend(frame.rows, faults);
        if incremental { return; }
        FallbackIsRewrite(d0, run, Dir(), frame.rows, spec);
      }
      var current := ReadTable(None);
      var out := Dedup(current + frame.rows, key, keep);
      Write(out, sortBy);
      WrittenTable(current, frame.rows, key, keep, sortBy, spec);
      if keep == KeepFirstRow && key.Some? && key.value != [] && UniqueKeys(current, key.value) {
        forall r
          ensures r in Read(Dir(), spec) <==>
                    r in current || exists i :: 0 <= i < |frame.rows| && AddedAt(current, frame.rows, i, key.value) && frame.rows[i] == r
        {
          KeepFirstAppend(current, frame.rows, key.value, sortBy, r);
          ReadMembers(Dir(), spec, r);
        }
      }
    }
  }
}
