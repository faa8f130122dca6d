/** Appending one batch: which files can be skipped unread, what dropping the
    superseded rows file by file keeps, and when publishing the batch reads as
    the full rewrite. */
module WarehouseAppend {
  import opened StableSorting
  import opened Options
  import opened WarehouseRows
  import opened WarehouseParts

  // ----- range pruning

  /** Row count, and the least and greatest non-null value of one column. */
  datatype FileRange = FileRange(rows: nat, low: Value, high: Value)

  function MinValue(a: Value, b: Value): Value {
    if a == Null then b else if b == Null then a else if ValueLeq(a, b) then a else b
  }

  function MaxValue(a: Value, b: Value): Value {
    if ValueLeq(a, b) then b else a
  }

  function ColumnRange(rows: seq<Row>, column: string): FileRange {
    if rows == [] then FileRange(0, Null, Null)
    else
      var rest := ColumnRange(rows[1..], column);
      var cell := Cell(rows[0], column);
      FileRange(rest.rows + 1, MinValue(cell, rest.low), MaxValue(cell, rest.high))
  }

  predicate Within(low: Value, v: Value, high: Value) { ValueLeq(low, v) && ValueLeq(v, high) }

  lemma {:induction false} ColumnRangeBounds(rows: seq<Row>, column: string)
    ensures var c := ColumnRange(rows, column);
            && c.rows == |rows|
            && (forall r :: r in rows && Cell(r, column) != Null ==> c.low != Null && Within(c.low, Cell(r, column), c.high))
            && (c.low != Null ==> exists r :: r in rows && Cell(r, column) == c.low)
  {
    if rows != [] {
      var rest, cell := ColumnRange(rows[1..], column), Cell(rows[0], column);
      ColumnRangeBounds(rows[1..], column);
      forall r | r in rows && Cell(r, column) != Null
        ensures ColumnRange(rows, column).low != Null
        ensures Within(ColumnRange(rows, column).low, Cell(r, column), ColumnRange(rows, column).high)
      {
        var v := Cell(r, column);
        assert r == rows[0] || r in rows[1..];
        ValueLeqOrder(cell, rest.low, v);
        ValueLeqOrder(v, cell, rest.high);
        ValueLeqOrder(v, rest.high, cell);
        ValueLeqOrder(rest.low, cell, v);
        ValueLeqOrder(cell, rest.high, v);
      }
      if ColumnRange(rows, column).low == cell { assert rows[0] in rows; }
      else { assert forall r :: r in rows[1..] ==> r in rows; }
    }
  }

  /** A file is not opened when its range cannot meet the batch's range. */
  predicate Pruned(file: FileRange, low: Value, high: Value) {
    file.rows == 0 || file.low == Null
    || !ValueLeq(low, file.high) || !ValueLeq(file.low, high)
  }

  /** A pruned file holds no row that shares a key with the batch. */
  lemma PruningIsSound(rows: seq<Row>, batch: seq<Row>, spec: PartitionSpec)
    requires spec.Valid() && forall r :: r in batch ==> Cell(r, spec.pruneColumn) != Null
    requires var b := ColumnRange(batch, spec.pruneColumn);
             Pruned(ColumnRange(rows, spec.pruneColumn), b.low, b.high)
    ensures forall r :: r in rows ==> Key(r, spec.key) !in Keys(batch, spec.key)
  {
    var b, c := ColumnRange(batch, spec.pruneColumn), ColumnRange(rows, spec.pruneColumn);
    ColumnRangeBounds(batch, spec.pruneColumn);
    ColumnRangeBounds(rows, spec.pruneColumn);
    forall r | r in rows ensures Key(r, spec.key) !in Keys(batch, spec.key) {
      if n :| n in batch && Key(n, spec.key) == Key(r, spec.key) {
        SameKeySameCell(n, r, spec.key, spec.pruneColumn);
        var v := Cell(r, spec.pruneColumn);
        ValueLeqOrder(b.low, v, c.high);
        ValueLeqOrder(c.low, v, b.high);
        assert false;
      }
    }
  }

  /** The greatest value is one of the column's. */
  lemma {:induction false} GreatestOccurs(rows: seq<Row>, column: string)
    requires ColumnRange(rows, column).low != Null
    ensures exists r :: r in rows && Cell(r, column) != Null && Cell(r, column) == ColumnRange(rows, column).high
  {
    var rest, cell := ColumnRange(rows[1..], column), Cell(rows[0], column);
    ColumnRangeBounds(rows[1..], column);
    if rest.low != Null {
      GreatestOccurs(rows[1..], column);
      assert forall r :: r in rows[1..] ==> r in rows;
    } else {
      NoValues(rows[1..], column);
    }
    assert rows[0] in rows;
    ValueLeqOrder(cell, rest.high, Null);
  }

  lemma {:induction false} NoValues(rows: seq<Row>, column: string)
    requires ColumnRange(rows, column).low == Null
    ensures ColumnRange(rows, column).high == Null
  {
    if rows != [] { NoValues(rows[1..], column); }
  }

  /** A file is skipped exactly when all of its values of the column come before
      all of the batch's, or all of them after. */
  lemma PrunedExactly(rows: seq<Row>, batch: seq<Row>, column: string)
    requires batch != [] && forall r :: r in batch ==> Cell(r, column) != Null
    ensures var b := ColumnRange(batch, column);
            Pruned(ColumnRange(rows, column), b.low, b.high) <==> AllBefore(rows, batch, column) || AllBefore(batch, rows, column)
  {
    var b, c := ColumnRange(batch, column), ColumnRange(rows, column);
    ColumnRangeBounds(batch, column);
    ColumnRangeBounds(rows, column);
    assert batch[0] in batch;
    GreatestOccurs(batch, column);
    if c.low != Null {
      GreatestOccurs(rows, column);
      var rl, rh :| rl in rows && Cell(rl, column) == c.low && rh in rows && Cell(rh, column) == c.high && c.high != Null;
      var nl, nh :| nl in batch && Cell(nl, column) == b.low && nh in batch && Cell(nh, column) == b.high;
      BeforeByEnds(rows, batch, column);
      BeforeByEnds(batch, rows, column);
    } else if rows != [] {
      forall r | r in rows ensures Cell(r, column) == Null {}
    }
  }

  /** Every value the first rows have comes before every value the others have. */
  predicate AllBefore(rows: seq<Row>, others: seq<Row>, column: string) {
    forall r, n :: r in rows && n in others && Cell(r, column) != Null && Cell(n, column) != Null ==>
      !ValueLeq(Cell(n, column), Cell(r, column))
  }

  lemma BeforeByEnds(rows: seq<Row>, others: seq<Row>, column: string)
    requires ColumnRange(rows, column).low != Null && ColumnRange(others, column).low != Null
    ensures AllBefore(rows, others, column) <==> !ValueLeq(ColumnRange(others, column).low, ColumnRange(rows, column).high)
  {
    var c, b := ColumnRange(rows, column), ColumnRange(others, column);
    ColumnRangeBounds(rows, column);
    ColumnRangeBounds(others, column);
    GreatestOccurs(rows, column);
    var rh :| rh in rows && Cell(rh, column) == c.high && c.high != Null;
    var nl :| nl in others && Cell(nl, column) == b.low;
    forall r, n | r in rows && n in others && Cell(r, column) != Null && Cell(n, column) != Null && ValueLeq(Cell(n, column), Cell(r, column))
      ensures ValueLeq(b.low, c.high)
    {
      ValueLeqOrder(b.low, Cell(n, column), Cell(r, column));
      ValueLeqOrder(b.low, Cell(r, column), c.high);
    }
  }

  lemma SameKeySameCell(a: Row, b: Row, columns: seq<string>, column: string)
    requires column in columns && Key(a, columns) == Key(b, columns)
    ensures Cell(a, column) == Cell(b, column)
  {
    var i :| 0 <= i < |columns| && columns[i] == column;
    assert Key(a, columns)[i] == Key(b, columns)[i];
  }

  /** Rows of a file inside the batch's range whose key the batch also has. */
  predicate Collides(rows: seq<Row>, low: Value, high: Value, keys: set<seq<Value>>, spec: PartitionSpec) {
    exists r :: r in rows && Cell(r, spec.pruneColumn) != Null
      && Within(low, Cell(r, spec.pruneColumn), high) && Key(r, spec.key) in keys
  }

  /** The range filter of the collision check hides no collision. */
  lemma CollisionCheckIsExact(rows: seq<Row>, batch: seq<Row>, spec: PartitionSpec)
    requires spec.Valid() && forall r :: r in batch ==> Cell(r, spec.pruneColumn) != Null
    ensures var b := ColumnRange(batch, spec.pruneColumn);
            Collides(rows, b.low, b.high, Keys(batch, spec.key), spec)
            <==> exists r :: r in rows && Key(r, spec.key) in Keys(batch, spec.key)
  {
    var b := ColumnRange(batch, spec.pruneColumn);
    ColumnRangeBounds(batch, spec.pruneColumn);
    forall r | r in rows && Key(r, spec.key) in Keys(batch, spec.key)
      ensures Cell(r, spec.pruneColumn) != Null && Within(b.low, Cell(r, spec.pruneColumn), b.high)
    {
      var n :| n in batch && Key(n, spec.key) == Key(r, spec.key);
      SameKeySameCell(n, r, spec.key, spec.pruneColumn);
    }
  }

  // ----- dropping superseded rows from one file

  ghost predicate IsFile(d: Directory, f: FileId) {
    if f.BaseFile? then d.base.Some? else f.range in Live(d.parts.Keys)
  }

  function FileRows(d: Directory, f: FileId): seq<Row> {
    if f.BaseFile? then BaseRows(d) else RowsAt(f.range, d.parts)
  }

  /** The files of the table in logical order. */
  function Files(base: Option<seq<Row>>, live: seq<Range>): seq<FileId> {
    (if base.Some? then [BaseFile] else []) + seq(|live|, i requires 0 <= i < |live| => PartFile(live[i]))
  }

  lemma FilesAreFiles(d: Directory)
    ensures forall f :: f in Files(d.base, LiveList(d)) <==> IsFile(d, f)
  {
    var q := LiveList(d);
    LiveListMeaning(d);
    forall f | IsFile(d, f) ensures f in Files(d.base, q) {
      if f.PartFile? {
        var i :| 0 <= i < |q| && q[i] == f.range;
        assert Files(d.base, q)[i + if d.base.Some? then 1 else 0] == f;
      }
    }
  }

  function FilesRows(d: Directory, fs: seq<FileId>): seq<Row> {
    if fs == [] then [] else FileRows(d, fs[0]) + FilesRows(d, fs[1..])
  }

  lemma {:induction false} FilesRowsStep(d: Directory, fs: seq<FileId>, i: nat)
    requires i < |fs|
    ensures FilesRows(d, fs[..i + 1]) == FilesRows(d, fs[..i]) + FileRows(d, fs[i])
  {
    if i == 0 {
      assert fs[..1] == [fs[0]] && fs[..1][1..] == [];
    } else {
      FilesRowsStep(d, fs[1..], i - 1);
      assert fs[1..][..i] == fs[..i + 1][1..] && fs[1..][..i - 1] == fs[..i][1..];
    }
  }

  lemma {:induction false} PartFilesRows(d: Directory, q: seq<Range>, fs: seq<FileId>)
    requires |fs| == |q| && forall i :: 0 <= i < |q| ==> fs[i] == PartFile(q[i])
    ensures FilesRows(d, fs) == Rows(q, d.parts)
  {
    if q != [] { PartFilesRows(d, q[1..], fs[1..]); }
  }

  lemma FilesRowsIsContent(d: Directory)
    ensures FilesRows(d, Files(d.base, LiveList(d))) == Content(d)
  {
    var fs := Files(d.base, LiveList(d));
    if d.base.Some? {
      PartFilesRows(d, LiveList(d), fs[1..]);
    } else {
      PartFilesRows(d, LiveList(d), fs);
    }
  }

  /** Rewriting a file leaves the file list and every other file alone. */
  lemma RewriteFileKeeps(d: Directory, f: FileId, rows: seq<Row>)
    requires IsFile(d, f)
    ensures Enabled(d, RewriteFile(f, rows))
    ensures var e := Next(d, RewriteFile(f, rows));
            && e.parts.Keys == d.parts.Keys && LiveList(e) == LiveList(d) && e.base.Some? == d.base.Some?
            && forall g :: IsFile(d, g) ==> IsFile(e, g) && FileRows(e, g) == if g == f then rows else FileRows(d, g)
  {
    var e := Next(d, RewriteFile(f, rows));
    assert e.parts.Keys == d.parts.Keys;
  }

  /** It replaces the file's rows where they stand. */
  lemma RewriteFileContent(d: Directory, f: FileId, rows: seq<Row>) returns (p: seq<Row>, t: seq<Row>)
    requires IsFile(d, f)
    ensures Content(d) == p + FileRows(d, f) + t
    ensures Enabled(d, RewriteFile(f, rows)) && Content(Next(d, RewriteFile(f, rows))) == p + rows + t
  {
    hide LiveList, Live, Rows;
    var q := LiveList(d);
    RewriteFileKeeps(d, f, rows);
    if f.BaseFile? {
      p, t := [], Rows(q, d.parts);
    } else {
      var i := LiveIndex(d, f.range);
      LiveListDistinct(d, i);
      var before, behind := RewriteRows(q, i, d.parts, rows);
      p, t := BaseRows(d) + before, behind;
      assert Content(d) == BaseRows(d) + (before + RowsAt(q[i], d.parts) + behind) == p + FileRows(d, f) + t;
      assert BaseRows(d) + (before + rows + behind) == p + rows + t;
    }
  }

  lemma LiveIndex(d: Directory, r: Range) returns (i: nat)
    requires r in Live(d.parts.Keys)
    ensures i < |LiveList(d)| && LiveList(d)[i] == r
  {
    LiveListMeaning(d);
    assert r in LiveList(d);
    i :| 0 <= i < |LiveList(d)| && LiveList(d)[i] == r;
  }

  lemma RewriteRows(q: seq<Range>, i: nat, parts: map<Range, seq<Row>>, rows: seq<Row>)
    returns (p: seq<Row>, t: seq<Row>)
    requires i < |q| && q[i] !in q[..i] && q[i] !in q[i + 1..]
    ensures Rows(q, parts) == p + RowsAt(q[i], parts) + t
    ensures Rows(q, parts[q[i] := rows]) == p + rows + t
  {
    var parts' := parts[q[i] := rows];
    assert q == q[..i] + [q[i]] + q[i + 1..];
    assert forall r :: r in q[..i] || r in q[i + 1..] ==> r in q;
    SplitRows(q[..i], q[i], q[i + 1..], parts);
    SplitRows(q[..i], q[i], q[i + 1..], parts');
    RowsAgree(q[..i], parts, parts');
    RowsAgree(q[i + 1..], parts, parts');
    p, t := Rows(q[..i], parts), Rows(q[i + 1..], parts);
  }

  lemma LiveListDistinct(d: Directory, i: nat)
    requires i < |LiveList(d)|
    ensures LiveList(d)[i] !in LiveList(d)[..i] && LiveList(d)[i] !in LiveList(d)[i + 1..]
  {
    LiveListMeaning(d);
  }

  lemma SplitRows(p: seq<Range>, r: Range, t: seq<Range>, parts: map<Range, seq<Row>>)
    ensures Rows(p + [r] + t, parts) == Rows(p, parts) + RowsAt(r, parts) + Rows(t, parts)
  {
    RowsConcat(p, [r], parts);
    RowsConcat(p + [r], t, parts);
    assert [r][1..] == [] && Rows([r], parts) == RowsAt(r, parts) + [];
  }

  /** Dropping the rows with the given keys from one file leaves every other row
      where it is and repeats no key. */
  lemma DropFromFile(d: Directory, f: FileId, keys: set<seq<Value>>, columns: seq<string>)
    requires IsFile(d, f)
    ensures var e := Next(d, RewriteFile(f, Without(FileRows(d, f), keys, columns)));
            && Without(Content(e), keys, columns) == Without(Content(d), keys, columns)
            && (UniqueKeys(Content(d), columns) ==> UniqueKeys(Content(e), columns))
  {
    var kept := Without(FileRows(d, f), keys, columns);
    var p, t := RewriteFileContent(d, f, kept);
    var out := Outside(keys, columns);
    FilterConcat(p + FileRows(d, f), t, out);
    FilterConcat(p, FileRows(d, f), out);
    FilterConcat(p + kept, t, out);
    FilterConcat(p, kept, out);
    WithoutTwice(FileRows(d, f), keys, columns);
    if UniqueKeys(Content(d), columns) {
      UniqueSplit(p, FileRows(d, f), t, columns);
      UniqueSubsequence(FileRows(d, f), out, columns);
      FilterMembers(FileRows(d, f), out);
      UniqueJoin(p, FileRows(d, f), kept, t, columns);
    }
  }

  lemma UniqueSplit(p: seq<Row>, s: seq<Row>, t: seq<Row>, columns: seq<string>)
    requires UniqueKeys(p + s + t, columns)
    ensures UniqueKeys(s, columns)
  {
    var all := p + s + t;
    forall i, j | 0 <= i < j < |s| ensures Key(s[i], columns) != Key(s[j], columns) {
      assert all[|p| + i] == s[i] && all[|p| + j] == s[j];
    }
  }

  lemma UniqueJoin(p: seq<Row>, s: seq<Row>, s': seq<Row>, t: seq<Row>, columns: seq<string>)
    requires UniqueKeys(p + s + t, columns) && UniqueKeys(s', columns)
    requires forall r :: r in s' ==> r in s
    ensures UniqueKeys(p + s' + t, columns)
  {
    var all, all' := p + s + t, p + s' + t;
    forall i, j | 0 <= i < j < |all'| ensures Key(all'[i], columns) != Key(all'[j], columns) {
      var i' := OldIndex(p, s, s', t, i);
      var j' := OldIndex(p, s, s', t, j);
    }
  }

  lemma OldIndex(p: seq<Row>, s: seq<Row>, s': seq<Row>, t: seq<Row>, i: nat) returns (k: nat)
    requires i < |p + s' + t|
    requires forall r :: r in s' ==> r in s
    ensures k < |p + s + t| && (p + s + t)[k] == (p + s' + t)[i]
    ensures i < |p| ==> k == i
    ensures |p| <= i < |p| + |s'| ==> |p| <= k < |p| + |s|
    ensures i >= |p| + |s'| ==> k == i - |s'| + |s|
  {
    if i < |p| {
      k := i;
    } else if i < |p| + |s'| {
      assert s'[i - |p|] in s;
      var m :| 0 <= m < |s| && s[m] == s'[i - |p|];
      k := |p| + m;
    } else {
      k := i - |s'| + |s|;
    }
  }

  /** When no file holds a given key, the whole table holds none. */
  lemma CleanFiles(d: Directory, keys: set<seq<Value>>, columns: seq<string>)
    requires forall f :: IsFile(d, f) ==> forall r :: r in FileRows(d, f) ==> Key(r, columns) !in keys
    ensures Without(Content(d), keys, columns) == Content(d)
  {
    var q := LiveList(d);
    LiveListMeaning(d);
    forall r | r in Content(d) ensures Key(r, columns) !in keys {
      if r in BaseRows(d) {
        assert IsFile(d, BaseFile);
      } else {
        var l := RowsMember(q, d.parts, r);
        assert IsFile(d, PartFile(l));
      }
    }
    FilterAll(Content(d), Outside(keys, columns));
  }

  lemma {:induction false} RowsMember(q: seq<Range>, parts: map<Range, seq<Row>>, r: Row) returns (l: Range)
    requires r in Rows(q, parts)
    ensures l in q && r in RowsAt(l, parts)
  {
    if r in RowsAt(q[0], parts) { l := q[0]; } else { l := RowsMember(q[1..], parts, r); }
  }

  // ----- an append as a run of actions

  /** At every point of `run`, rows whose key is outside `keys` read exactly as
      at the start, and no key is stored twice that was not before. */
  ghost predicate Steady(d: Directory, run: seq<Action>, keys: set<seq<Value>>, columns: seq<string>) {
    forall k :: 0 <= k <= |run| ==> SteadyAt(d, run, k, keys, columns)
  }

  ghost predicate SteadyAt(d: Directory, run: seq<Action>, k: nat, keys: set<seq<Value>>, columns: seq<string>)
    requires k <= |run|
  {
    && Runs(d, run[..k])
    && Without(Content(After(d, run[..k])), keys, columns) == Without(Content(d), keys, columns)
    && (UniqueKeys(Content(d), columns) ==> UniqueKeys(Content(After(d, run[..k])), columns))
  }

  lemma SteadyExtend(d: Directory, run: seq<Action>, a: Action, keys: set<seq<Value>>, columns: seq<string>)
    requires Runs(d, run) && Steady(d, run, keys, columns)
    requires Enabled(After(d, run), a)
    requires var e := Next(After(d, run), a);
             && Without(Content(e), keys, columns) == Without(Content(d), keys, columns)
             && (UniqueKeys(Content(d), columns) ==> UniqueKeys(Content(e), columns))
    ensures Runs(d, run + [a]) && After(d, run + [a]) == Next(After(d, run), a)
    ensures Steady(d, run + [a], keys, columns)
  {
    var e := After(d, run);
    RunStep(d, run, a);
    forall k | 0 <= k <= |run + [a]| ensures SteadyAt(d, run + [a], k, keys, columns) {
      if k <= |run| {
        assert (run + [a])[..k] == run[..k];
        assert SteadyAt(d, run, k, keys, columns);
      } else {
        assert (run + [a])[..k] == run + [a];
      }
    }
  }

  /** What is known while superseded rows are being dropped file by file. */
  ghost predicate Dropping(d0: Directory, run: seq<Action>, d: Directory, keys: set<seq<Value>>, columns: seq<string>) {
    && Shape(d) && d.parts.Keys == d0.parts.Keys && LiveList(d) == LiveList(d0) && d.base.Some? == d0.base.Some?
    && Runs(d0, run) && d == After(d0, run) && Steady(d0, run, keys, columns)
    && (UniqueKeys(Content(d0), columns) ==> UniqueKeys(Content(d), columns))
    && Without(Content(d), keys, columns) == Without(Content(d0), keys, columns)
  }

  lemma DroppingStarts(d: Directory, keys: set<seq<Value>>, columns: seq<string>)
    requires Shape(d)
    ensures Dropping(d, [], d, keys, columns)
  {
    assert SteadyAt(d, [], 0, keys, columns);
  }

  lemma DroppingMeans(d0: Directory, run: seq<Action>, d: Directory, keys: set<seq<Value>>, columns: seq<string>)
    requires Dropping(d0, run, d, keys, columns)
    ensures forall f :: f in Files(d0.base, LiveList(d0)) <==> IsFile(d, f)
    ensures Without(Content(d), keys, columns) == Without(Content(d0), keys, columns)
  {
    FilesAreFiles(d);
    FilesAreFiles(d0);
  }

  lemma DroppingStep(d0: Directory, run: seq<Action>, d: Directory, f: FileId,
                     keys: set<seq<Value>>, columns: seq<string>)
    requires Dropping(d0, run, d, keys, columns) && IsFile(d, f)
    ensures var a := RewriteFile(f, Without(FileRows(d, f), keys, columns));
            Enabled(d, a) && Dropping(d0, run + [a], Next(d, a), keys, columns)
  {
    var a := RewriteFile(f, Without(FileRows(d, f), keys, columns));
    DropFromFile(d, f, keys, columns);
    RewriteFileKeeps(d, f, a.rows);
    NextKeepsShape(d, a);
    SteadyExtend(d0, run, a, keys, columns);
  }

  /** The run rewrites nothing but files that held one of the keys, and adds no row
      to any. */
  ghost predicate TouchesOnly(d0: Directory, run: seq<Action>, d: Directory, keys: set<seq<Value>>, columns: seq<string>) {
    && (forall a :: a in run ==> a.RewriteFile? && IsFile(d0, a.file) && exists r :: r in FileRows(d0, a.file) && Key(r, columns) in keys)
    && (forall f :: IsFile(d0, f) ==> IsFile(d, f) && forall r :: r in FileRows(d, f) ==> r in FileRows(d0, f))
  }

  lemma NothingTouched(d: Directory, keys: set<seq<Value>>, columns: seq<string>)
    ensures TouchesOnly(d, [], d, keys, columns)
  {
  }

  lemma SameFiles(d: Directory, files: seq<FileId>, f: FileId)
    requires files == Files(d.base, LiveList(d)) && f in files
    ensures IsFile(d, f)
  {
    FilesAreFiles(d);
  }

  lemma TouchesStep(d0: Directory, run: seq<Action>, d: Directory, f: FileId, keys: set<seq<Value>>, columns: seq<string>)
    requires TouchesOnly(d0, run, d, keys, columns) && IsFile(d0, f)
    requires exists r :: r in FileRows(d, f) && Key(r, columns) in keys
    ensures var a := RewriteFile(f, Without(FileRows(d, f), keys, columns));
            TouchesOnly(d0, run + [a], Next(d, a), keys, columns)
  {
    hide Next, FileRows, IsFile;
    var a := RewriteFile(f, Without(FileRows(d, f), keys, columns));
    RewriteFileKeeps(d, f, a.rows);
    FilterMembers(FileRows(d, f), Outside(keys, columns));
  }

  /** No row of the file has one of the keys. */
  ghost predicate Clean(d: Directory, f: FileId, keys: set<seq<Value>>, columns: seq<string>) {
    IsFile(d, f) && forall r :: r in FileRows(d, f) ==> Key(r, columns) !in keys
  }

  lemma CleanAfterDrop(d: Directory, f: FileId, keys: set<seq<Value>>, columns: seq<string>)
    requires IsFile(d, f)
    ensures var e := Next(d, RewriteFile(f, Without(FileRows(d, f), keys, columns)));
            Clean(e, f, keys, columns) && forall g :: Clean(d, g, keys, columns) ==> Clean(e, g, keys, columns)
  {
    RewriteFileKeeps(d, f, Without(FileRows(d, f), keys, columns));
    FilterMembers(FileRows(d, f), Outside(keys, columns));
  }

  /** The batch part itself is a steady step once the superseded rows are gone. */
  lemma PublishIsSteady(d: Directory, latest: seq<Row>, spec: PartitionSpec)
    requires Shape(d) && UniqueKeys(latest, spec.key)
    requires Without(Content(d), Keys(latest, spec.key), spec.key) == Content(d)
    ensures var e := Next(d, PublishBatch(StableSort(latest, ByColumns(spec.sortBy))));
            && (UniqueKeys(Content(d), spec.key) ==> UniqueKeys(Content(e), spec.key))
            && Without(Content(e), Keys(latest, spec.key), spec.key) == Content(d)
  {
    SortedRunIsSteady(Content(d), latest, spec);
    PublishBatchContent(d, StableSort(latest, ByColumns(spec.sortBy)));
  }

  /** What one accepted append does to an untouched table: after dropping every
      superseded row in place, publishing the batch reads as the full rewrite
      exactly when the next sequence number still fits a part name and the rows
      that stay repeat no key. */
  lemma PublishIsRewrite(d: Directory, dropped: Directory, batch: seq<Row>, spec: PartitionSpec)
    requires Shape(dropped) && batch != []
    requires Content(dropped) == Without(Content(d), Keys(batch, spec.key), spec.key)
    ensures var added := StableSort(KeepLast(batch, spec.key), ByColumns(spec.sortBy));
            Read(Next(dropped, PublishBatch(added)), spec) == Rewritten(Read(d, spec), batch, spec)
            <==> NextSequence(dropped) <= MAX_SEQUENCE && UniqueKeys(Content(dropped), spec.key)
  {
    hide Content, UniqueKeys, Without, KeepLast, StableSort, NextSequence;
    var leq := ByColumns(spec.sortBy);
    var added := StableSort(KeepLast(batch, spec.key), leq);
    ByColumnsIsPreorder(spec.sortBy);
    PublishBatchContent(dropped, added);
    RunIsRewrite(Content(d), batch, spec);
    if NextSequence(dropped) > MAX_SEQUENCE {
      BatchIsNotRead(d, dropped, batch, spec);
    }
  }

  /** The table without the batch part lacks the batch's keys. */
  lemma BatchIsNotRead(d: Directory, dropped: Directory, batch: seq<Row>, spec: PartitionSpec)
    requires batch != [] && Content(dropped) == Without(Content(d), Keys(batch, spec.key), spec.key)
    ensures Read(dropped, spec) != Rewritten(Read(d, spec), batch, spec)
  {
    hide Content, UniqueKeys, KeepLast, StableSort;
    var leq := ByColumns(spec.sortBy);
    ByColumnsIsPreorder(spec.sortBy);
    KeepLastKeys(batch, spec.key);
    assert Key(batch[0], spec.key) in Keys(batch, spec.key);
    var r :| r in KeepLast(batch, spec.key) && Key(r, spec.key) == Key(batch[0], spec.key);
    RewrittenMeaning(Read(d, spec), batch, spec);
    FilterMembers(Content(d), Outside(Keys(batch, spec.key), spec.key));
    SortMembers(Content(dropped), leq);
  }

  /** A table whose last sequence number is the largest a name can hold: the next
      batch is written under a name no listing shows, and is not read back. */
  lemma SequenceOverflowLosesBatch() returns (d: Directory, batch: seq<Row>, spec: PartitionSpec)
    ensures Shape(d) && spec.Valid() && UniqueKeys(Content(d), spec.key) && |batch| == 1
    ensures Content(d) == Without(Content(d), Keys(batch, spec.key), spec.key)
    ensures Read(Next(d, PublishBatch(StableSort(KeepLast(batch, spec.key), ByColumns(spec.sortBy)))), spec)
         != Rewritten(Read(d, spec), batch, spec)
  {
    var last := Range(MAX_SEQUENCE, MAX_SEQUENCE);
    d := Directory(None, map[last := []]);
    spec := PartitionSpec(["at"], ["at"], "at");
    batch := [map["at" := Time(0)]];
    assert last in d.parts && NextSequence(d) == MAX_SEQUENCE + 1;
    assert RowsAt(last, d.parts) == [];
    assert Content(d) == [] by {
      LiveListMeaning(d);
      assert forall x :: x in LiveList(d) ==> x == last;
      if Content(d) != [] {
        assert Content(d)[0] in Rows(LiveList(d), d.parts);
        var l := RowsMember(LiveList(d), d.parts, Content(d)[0]);
        assert false;
      }
    }
    PublishIsRewrite(d, d, batch, spec);
  }
}
