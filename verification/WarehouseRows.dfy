/** Rows of a warehouse table, natural keys, and the two list operations every
    append is defined by: de-duplication on a key and a stable sort. */
module WarehouseRows {
  import opened StableSorting

  /** One cell.  A datetime is a count of microseconds, text its code points.
      A column a file does not have reads as null, as a diagonal concat fills it. */
  datatype Value = Null | Time(at: int) | Text(points: seq<int>)

  type Row = map<string, Value>

  /** How one append-only table is stored: its natural key, the order `read`
      returns, and the receipt-time column that prunes collision checks. */
  datatype PartitionSpec = PartitionSpec(key: seq<string>, sortBy: seq<string>, pruneColumn: string) {
    predicate Valid() { pruneColumn in key }
  }

  function Cell(r: Row, column: string): Value {
    if column in r then r[column] else Null
  }

  function Key(r: Row, columns: seq<string>): (k: seq<Value>)
    ensures |k| == |columns|
    ensures forall i :: 0 <= i < |k| ==> k[i] == Cell(r, columns[i])
  {
    seq(|columns|, i requires 0 <= i < |columns| => Cell(r, columns[i]))
  }

  // ----- the order of cells and of rows; nulls first

  predicate PointsLeq(a: seq<int>, b: seq<int>) {
    a == [] || (b != [] && (a[0] < b[0] || (a[0] == b[0] && PointsLeq(a[1..], b[1..]))))
  }

  predicate ValueLeq(a: Value, b: Value) {
    match (a, b)
    case (Null, _) => true
    case (_, Null) => false
    case (Time(s), Time(t)) => s <= t
    case (Time(_), Text(_)) => true
    case (Text(_), Time(_)) => false
    case (Text(s), Text(t)) => PointsLeq(s, t)
  }

  predicate RowLeq(columns: seq<string>, a: Row, b: Row) {
    columns == []
    || (if Cell(a, columns[0]) == Cell(b, columns[0]) then RowLeq(columns[1..], a, b)
        else ValueLeq(Cell(a, columns[0]), Cell(b, columns[0])))
  }

  function ByColumns(columns: seq<string>): (Row, Row) -> bool {
    (a, b) => RowLeq(columns, a, b)
  }

  lemma {:induction false} PointsLeqOrder(a: seq<int>, b: seq<int>, c: seq<int>)
    ensures PointsLeq(a, b) || PointsLeq(b, a)
    ensures PointsLeq(a, b) && PointsLeq(b, a) ==> a == b
    ensures PointsLeq(a, b) && PointsLeq(b, c) ==> PointsLeq(a, c)
  {
    if a != [] && b != [] {
      PointsLeqOrder(a[1..], b[1..], if c == [] then [] else c[1..]);
      assert a == [a[0]] + a[1..] && b == [b[0]] + b[1..];
    }
  }

  lemma ValueLeqOrder(a: Value, b: Value, c: Value)
    ensures ValueLeq(a, b) || ValueLeq(b, a)
    ensures ValueLeq(a, b) && ValueLeq(b, a) ==> a == b
    ensures ValueLeq(a, b) && ValueLeq(b, c) ==> ValueLeq(a, c)
  {
    PointsLeqOrder(if a.Text? then a.points else [], if b.Text? then b.points else [],
                   if c.Text? then c.points else []);
  }

  lemma {:induction false} RowLeqOrder(columns: seq<string>, a: Row, b: Row, c: Row)
    ensures RowLeq(columns, a, b) || RowLeq(columns, b, a)
    ensures RowLeq(columns, a, b) && RowLeq(columns, b, c) ==> RowLeq(columns, a, c)
  {
    if columns != [] {
      var x, y, z := Cell(a, columns[0]), Cell(b, columns[0]), Cell(c, columns[0]);
      ValueLeqOrder(x, y, z);
      ValueLeqOrder(y, z, x);
      RowLeqOrder(columns[1..], a, b, c);
    }
  }

  lemma ByColumnsIsPreorder(columns: seq<string>)
    ensures TotalPreorder(ByColumns(columns))
  {
    var leq := ByColumns(columns);
    forall a, b ensures leq(a, b) || leq(b, a) { RowLeqOrder(columns, a, b, a); }
    forall a, b, c | leq(a, b) && leq(b, c) ensures leq(a, c) { RowLeqOrder(columns, a, b, c); }
  }

  /** Code points compare lexicographically: a prefix comes first, and otherwise
      the first difference decides. */
  lemma {:induction false} PointsLeqMeaning(a: seq<int>, b: seq<int>)
    ensures PointsLeq(a, b) <==> a <= b || exists k :: FirstDifference(a, b, k) && 0 <= k < |a| && k < |b| && a[k] < b[k]
  {
    hide FirstDifference;
    if a != [] && b != [] {
      PointsLeqMeaning(a[1..], b[1..]);
      if a[0] == b[0] {
        PrefixOfTails(a, b);
        if k :| FirstDifference(a[1..], b[1..], k) && 0 <= k < |a[1..]| && k < |b[1..]| && a[1..][k] < b[1..][k] {
          DifferenceOfTails(a, b, k + 1);
          assert FirstDifference(a, b, k + 1) && a[k + 1] < b[k + 1];
        }
        if k :| FirstDifference(a, b, k) && 0 <= k < |a| && k < |b| && a[k] < b[k] {
          DifferenceOfTails(a, b, k);
          assert FirstDifference(a[1..], b[1..], k - 1) && a[1..][k - 1] < b[1..][k - 1];
        }
      } else {
        DifferentHeads(a, b);
      }
    } else {
      NoDifference(a, b);
    }
  }

  lemma PrefixOfTails(a: seq<int>, b: seq<int>)
    requires a != [] && b != [] && a[0] == b[0]
    ensures a <= b <==> a[1..] <= b[1..]
  {
    assert a == [a[0]] + a[1..] && b == [b[0]] + b[1..];
    if a[1..] <= b[1..] { assert b[..|a|] == [b[0]] + b[1..][..|a| - 1]; }
    if a <= b { assert b[1..][..|a| - 1] == b[..|a|][1..]; }
  }

  lemma DifferenceOfTails(a: seq<int>, b: seq<int>, k: int)
    requires a != [] && b != [] && a[0] == b[0]
    ensures FirstDifference(a, b, k) <==> k >= 1 && FirstDifference(a[1..], b[1..], k - 1)
  {
    if 1 <= k < |a| && k < |b| {
      assert a[..k] == [a[0]] + a[1..][..k - 1] && b[..k] == [b[0]] + b[1..][..k - 1];
      assert a[1..][..k - 1] == a[..k][1..] && b[1..][..k - 1] == b[..k][1..];
    }
  }

  lemma DifferentHeads(a: seq<int>, b: seq<int>)
    requires a != [] && b != [] && a[0] != b[0]
    ensures !(a <= b) && FirstDifference(a, b, 0) && forall k :: FirstDifference(a, b, k) ==> k == 0
  {
    forall k | 0 < k < |a| && k < |b| ensures a[..k] != b[..k] { assert a[..k][0] != b[..k][0]; }
  }

  lemma NoDifference(a: seq<int>, b: seq<int>)
    requires a == [] || b == []
    ensures forall k :: !FirstDifference(a, b, k)
  {
  }

  predicate FirstDifference(a: seq<int>, b: seq<int>, k: int) {
    0 <= k < |a| && k < |b| && a[k] != b[k] && a[..k] == b[..k]
  }

  /** Rows compare by the first sort column they differ in, and are tied where they
      differ in none. */
  lemma {:induction false} RowLeqMeaning(columns: seq<string>, a: Row, b: Row)
    ensures RowLeq(columns, a, b) <==>
              forall k :: 0 <= k < |columns| && FirstDiffering(columns, a, b, k) ==> ValueLeq(Cell(a, columns[k]), Cell(b, columns[k]))
  {
    if columns != [] {
      RowLeqMeaning(columns[1..], a, b);
      if Cell(a, columns[0]) == Cell(b, columns[0]) {
        forall k | 0 <= k < |columns[1..]| ensures FirstDiffering(columns[1..], a, b, k) <==> FirstDiffering(columns, a, b, k + 1) {
          assert columns[1..][k] == columns[k + 1];
          if FirstDiffering(columns[1..], a, b, k) {
            forall j | 0 <= j < k + 1 ensures Cell(a, columns[j]) == Cell(b, columns[j]) {
              if j > 0 { assert columns[1..][j - 1] == columns[j]; }
            }
          }
          if FirstDiffering(columns, a, b, k + 1) {
            forall j | 0 <= j < k ensures Cell(a, columns[1..][j]) == Cell(b, columns[1..][j]) { assert columns[1..][j] == columns[j + 1]; }
          }
        }
        if !RowLeq(columns[1..], a, b) {
          var k :| 0 <= k < |columns[1..]| && FirstDiffering(columns[1..], a, b, k)
                   && !ValueLeq(Cell(a, columns[1..][k]), Cell(b, columns[1..][k]));
          assert FirstDiffering(columns, a, b, k + 1);
        } else {
          forall k | 0 <= k < |columns| && FirstDiffering(columns, a, b, k) ensures ValueLeq(Cell(a, columns[k]), Cell(b, columns[k])) {
            assert k > 0;
            assert FirstDiffering(columns[1..], a, b, k - 1);
          }
        }
      } else {
        assert FirstDiffering(columns, a, b, 0);
      }
    }
  }

  predicate FirstDiffering(columns: seq<string>, a: Row, b: Row, k: int)
    requires 0 <= k < |columns|
  {
    Cell(a, columns[k]) != Cell(b, columns[k]) && forall j :: 0 <= j < k ==> Cell(a, columns[j]) == Cell(b, columns[j])
  }

  /** Rows sorted by some columns come with no value of the first one ahead of all
      values, in ascending time, or in ascending text. */
  lemma SortedAscends(rows: seq<Row>, columns: seq<string>, i: nat, j: nat)
    requires columns != [] && i < j < |rows|
    ensures var sorted := StableSort(rows, ByColumns(columns));
            && |sorted| == |rows|
            && var a, b := Cell(sorted[i], columns[0]), Cell(sorted[j], columns[0]);
               && (b == Null ==> a == Null)
               && (a.Time? && b.Time? ==> a.at <= b.at)
               && (a.Text? && b.Text? ==>
                     a.points <= b.points || exists k :: FirstDifference(a.points, b.points, k) && a.points[k] < b.points[k])
  {
    var sorted := StableSort(rows, ByColumns(columns));
    ByColumnsIsPreorder(columns);
    InsertAllSorted(rows, [], ByColumns(columns));
    SortMembers(rows, ByColumns(columns));
    assert ByColumns(columns)(sorted[i], sorted[j]);
    RowLeqMeaning(columns, sorted[i], sorted[j]);
    var a, b := Cell(sorted[i], columns[0]), Cell(sorted[j], columns[0]);
    if a.Text? && b.Text? { PointsLeqMeaning(a.points, b.points); }
    if a != b { assert FirstDiffering(columns, sorted[i], sorted[j], 0); }
  }

  // ----- de-duplication on a natural key, keeping the input order

  function Keys(s: seq<Row>, columns: seq<string>): set<seq<Value>> {
    set r | r in s :: Key(r, columns)
  }

  predicate UniqueKeys(s: seq<Row>, columns: seq<string>) {
    forall i, j :: 0 <= i < j < |s| ==> Key(s[i], columns) != Key(s[j], columns)
  }

  /** The last row of every key, in input order. */
  function KeepLast(s: seq<Row>, columns: seq<string>): seq<Row> {
    if s == [] then []
    else if Key(s[0], columns) in Keys(s[1..], columns) then KeepLast(s[1..], columns)
    else [s[0]] + KeepLast(s[1..], columns)
  }

  /** The first row of every key, in input order. */
  function KeepFirst(s: seq<Row>, columns: seq<string>): seq<Row> {
    if s == [] then []
    else
      var last := s[|s| - 1];
      var rest := s[..|s| - 1];
      KeepFirst(rest, columns) + if Key(last, columns) in Keys(rest, columns) then [] else [last]
  }

  /** Selects the rows whose key is not one of `keys`. */
  function Outside(keys: set<seq<Value>>, columns: seq<string>): Row -> bool {
    r => Key(r, columns) !in keys
  }

  function Without(s: seq<Row>, keys: set<seq<Value>>, columns: seq<string>): seq<Row> {
    Filter(s, Outside(keys, columns))
  }

  /** No later row shares the key of row `i`. */
  predicate LastOfKey(s: seq<Row>, i: nat, columns: seq<string>)
    requires i < |s|
  {
    Key(s[i], columns) !in Keys(s[i + 1..], columns)
  }

  /** Keep-last leaves one row for each key that occurs. */
  lemma {:induction false} KeepLastKeys(s: seq<Row>, columns: seq<string>)
    ensures Keys(KeepLast(s, columns), columns) == Keys(s, columns)
    ensures UniqueKeys(KeepLast(s, columns), columns)
  {
    if s != [] {
      var kept := KeepLast(s[1..], columns);
      KeepLastKeys(s[1..], columns);
      assert Keys(s, columns) == {Key(s[0], columns)} + Keys(s[1..], columns) by {
        assert s == [s[0]] + s[1..];
      }
      assert Keys([s[0]] + kept, columns) == {Key(s[0], columns)} + Keys(kept, columns);
      forall j | 0 <= j < |kept| ensures Key(kept[j], columns) in Keys(s[1..], columns) {
        assert kept[j] in kept;
        assert Key(kept[j], columns) in Keys(kept, columns);
      }
    }
  }

  /** It keeps exactly the rows that no later row with their key replaces. */
  lemma {:induction false} KeepLastRows(s: seq<Row>, r: Row, columns: seq<string>)
    ensures r in KeepLast(s, columns) <==>
              exists i :: 0 <= i < |s| && s[i] == r && LastOfKey(s, i, columns)
  {
    if s != [] {
      KeepLastRows(s[1..], r, columns);
      KeptRow(s, r, columns);
    }
  }

  /** The rows kept stand in input order. */
  lemma {:induction false} KeepLastInOrder(s: seq<Row>, columns: seq<string>, a: nat, b: nat) returns (i: nat, j: nat)
    requires a < b < |KeepLast(s, columns)|
    ensures i < j < |s| && LastOfKey(s, i, columns) && LastOfKey(s, j, columns)
    ensures s[i] == KeepLast(s, columns)[a] && s[j] == KeepLast(s, columns)[b]
  {
    hide LastOfKey;
    var rest := s[1..];
    assert LastOfKey(s, 0, columns) <==> Key(s[0], columns) !in Keys(rest, columns) by { FirstIsLast(s, columns); }
    var lost := if Key(s[0], columns) in Keys(rest, columns) then 0 else 1;
    if a < lost {
      var r := KeepLast(rest, columns)[b - 1];
      assert r in KeepLast(rest, columns);
      KeepLastRows(rest, r, columns);
      var k :| 0 <= k < |rest| && rest[k] == r && LastOfKey(rest, k, columns);
      i, j := 0, k + 1;
      LastInTail(s, k, columns);
    } else {
      var i', j' := KeepLastInOrder(rest, columns, a - lost, b - lost);
      LastInTail(s, i', columns);
      LastInTail(s, j', columns);
      i, j := i' + 1, j' + 1;
    }
  }

  lemma FirstIsLast(s: seq<Row>, columns: seq<string>)
    requires s != []
    ensures LastOfKey(s, 0, columns) <==> Key(s[0], columns) !in Keys(s[1..], columns)
  {
  }

  lemma LastInTail(s: seq<Row>, k: nat, columns: seq<string>)
    requires k + 1 < |s|
    ensures LastOfKey(s, k + 1, columns) <==> LastOfKey(s[1..], k, columns)
  {
    assert s[k + 2..] == s[1..][k + 1..];
  }

  /** No earlier row shares the key of row `i`. */
  predicate FirstOfKey(s: seq<Row>, i: nat, columns: seq<string>)
    requires i < |s|
  {
    Key(s[i], columns) !in Keys(s[..i], columns)
  }

  /** Keep-first leaves one row for each key that occurs. */
  lemma {:induction false} KeepFirstKeys(s: seq<Row>, columns: seq<string>)
    ensures Keys(KeepFirst(s, columns), columns) == Keys(s, columns)
    ensures UniqueKeys(KeepFirst(s, columns), columns)
  {
    if s != [] {
      var n := |s| - 1;
      var kept := KeepFirst(s[..n], columns);
      KeepFirstKeys(s[..n], columns);
      assert s == s[..n] + [s[n]];
      assert Keys(s, columns) == Keys(s[..n], columns) + {Key(s[n], columns)};
      assert Keys(kept + [s[n]], columns) == Keys(kept, columns) + {Key(s[n], columns)};
      forall j | 0 <= j < |kept| ensures Key(kept[j], columns) in Keys(s[..n], columns) {
        assert kept[j] in kept;
        assert Key(kept[j], columns) in Keys(kept, columns);
      }
    }
  }

  /** It keeps exactly the rows that no earlier row with their key precedes. */
  lemma {:induction false} KeepFirstRows(s: seq<Row>, r: Row, columns: seq<string>)
    ensures r in KeepFirst(s, columns) <==>
              exists i :: 0 <= i < |s| && s[i] == r && FirstOfKey(s, i, columns)
  {
    hide FirstOfKey;
    if s != [] {
      var n := |s| - 1;
      KeepFirstRows(s[..n], r, columns);
      LastIsFirst(s, columns);
      forall i | 0 <= i < n ensures FirstOfKey(s[..n], i, columns) <==> FirstOfKey(s, i, columns) { FirstInFront(s, i, columns); }
      if i :| 0 <= i < n && s[i] == r && FirstOfKey(s, i, columns) { assert s[..n][i] == r && FirstOfKey(s[..n], i, columns); }
      if i :| 0 <= i < n && s[..n][i] == r && FirstOfKey(s[..n], i, columns) { assert s[i] == r && FirstOfKey(s, i, columns); }
    }
  }

  lemma FirstInFront(s: seq<Row>, i: nat, columns: seq<string>)
    requires i + 1 < |s|
    ensures FirstOfKey(s[..|s| - 1], i, columns) <==> FirstOfKey(s, i, columns)
  {
    assert s[..|s| - 1][..i] == s[..i];
  }

  lemma LastIsFirst(s: seq<Row>, columns: seq<string>)
    requires s != []
    ensures FirstOfKey(s, |s| - 1, columns) <==> Key(s[|s| - 1], columns) !in Keys(s[..|s| - 1], columns)
  {
  }

  /** The rows kept stand in input order. */
  lemma {:induction false} KeepFirstInOrder(s: seq<Row>, columns: seq<string>, a: nat, b: nat) returns (i: nat, j: nat)
    requires a < b < |KeepFirst(s, columns)|
    ensures i < j < |s| && FirstOfKey(s, i, columns) && FirstOfKey(s, j, columns)
    ensures s[i] == KeepFirst(s, columns)[a] && s[j] == KeepFirst(s, columns)[b]
  {
    var n := |s| - 1;
    var rest := s[..n];
    var kept := KeepFirst(rest, columns);
    if b == |kept| {
      assert kept[a] in kept;
      KeepFirstRows(rest, kept[a], columns);
      var k :| 0 <= k < |rest| && rest[k] == kept[a] && FirstOfKey(rest, k, columns);
      i, j := k, n;
    } else {
      i, j := KeepFirstInOrder(rest, columns, a, b);
      assert s[..j] == rest[..j];
    }
    assert s[..i] == rest[..i];
  }

  /** Behind rows that repeat no key, keep-first adds exactly the batch rows whose
      key is neither stored nor earlier in the batch, and loses none. */
  lemma KeepFirstBehind(stored: seq<Row>, batch: seq<Row>, r: Row, columns: seq<string>)
    requires UniqueKeys(stored, columns)
    ensures r in KeepFirst(stored + batch, columns) <==>
              r in stored || exists i :: 0 <= i < |batch| && AddedAt(stored, batch, i, columns) && batch[i] == r
  {
    hide FirstOfKey, KeepFirst, UniqueKeys, AddedAt;
    var s, n := stored + batch, |stored|;
    KeepFirstRows(s, r, columns);
    forall i: nat | i < |batch| ensures FirstOfKey(s, n + i, columns) <==> AddedAt(stored, batch, i, columns) {
      FirstBehind(stored, batch, i, columns);
    }
    forall i: nat | i < n ensures FirstOfKey(s, i, columns) { FirstOfUnique(stored, batch, i, columns); }
    if i :| 0 <= i < |s| && s[i] == r && FirstOfKey(s, i, columns) {
      if i >= n { assert AddedAt(stored, batch, i - n, columns) && batch[i - n] == r; }
    }
    if i :| 0 <= i < |batch| && AddedAt(stored, batch, i, columns) && batch[i] == r { assert s[n + i] == r; }
    if r in stored { var i :| 0 <= i < n && stored[i] == r; assert s[i] == r; }
  }

  lemma FirstBehind(stored: seq<Row>, batch: seq<Row>, i: nat, columns: seq<string>)
    requires i < |batch|
    ensures FirstOfKey(stored + batch, |stored| + i, columns) <==> AddedAt(stored, batch, i, columns)
  {
    var s, k := stored + batch, Key(batch[i], columns);
    assert s[..|stored| + i] == stored + batch[..i];
    if k in Keys(stored + batch[..i], columns) {
      var x :| x in stored + batch[..i] && Key(x, columns) == k;
      if x !in stored { var j :| 0 <= j < i && batch[..i][j] == x; }
    }
    if j :| 0 <= j < i && Key(batch[j], columns) == k { assert batch[..i][j] in stored + batch[..i]; }
  }

  lemma FirstOfUnique(stored: seq<Row>, batch: seq<Row>, i: nat, columns: seq<string>)
    requires UniqueKeys(stored, columns) && i < |stored|
    ensures FirstOfKey(stored + batch, i, columns)
  {
    assert (stored + batch)[..i] == stored[..i];
    forall x | x in stored[..i] ensures Key(x, columns) != Key(stored[i], columns) {
      var j :| 0 <= j < i && stored[j] == x;
    }
  }

  /** Row `i` of the batch has a key that is neither stored nor earlier in it. */
  predicate AddedAt(stored: seq<Row>, batch: seq<Row>, i: int, columns: seq<string>)
    requires 0 <= i < |batch|
  {
    && (forall x :: x in stored ==> Key(x, columns) != Key(batch[i], columns))
    && (forall j :: 0 <= j < i ==> Key(batch[j], columns) != Key(batch[i], columns))
  }

  lemma KeptRow(s: seq<Row>, r: Row, columns: seq<string>)
    requires s != []
    requires r in KeepLast(s[1..], columns) <==>
               exists i :: 0 <= i < |s[1..]| && s[1..][i] == r && LastOfKey(s[1..], i, columns)
    ensures r in KeepLast(s, columns) <==>
              exists i :: 0 <= i < |s| && s[i] == r && LastOfKey(s, i, columns)
  {
    var tail := s[1..];
    if r in KeepLast(tail, columns) {
      var i :| 0 <= i < |tail| && tail[i] == r && LastOfKey(tail, i, columns);
      assert s[i + 2..] == tail[i + 1..];
      assert s[i + 1] == r && LastOfKey(s, i + 1, columns);
    } else if r in KeepLast(s, columns) {
      assert s[0] == r && LastOfKey(s, 0, columns);
    }
    if i :| 0 <= i < |s| && s[i] == r && LastOfKey(s, i, columns) {
      if i > 0 {
        assert tail[i..] == s[i + 1..];
        assert tail[i - 1] == r && LastOfKey(tail, i - 1, columns);
      }
    }
  }

  lemma {:induction false} KeepLastOfUnique(s: seq<Row>, columns: seq<string>)
    requires UniqueKeys(s, columns)
    ensures KeepLast(s, columns) == s
  {
    if s != [] {
      KeepLastOfUnique(s[1..], columns);
      forall r | r in s[1..] ensures Key(r, columns) != Key(s[0], columns) {
        var j :| 0 <= j < |s[1..]| && s[1..][j] == r;
        assert s[j + 1] == r;
      }
    }
  }

  lemma KeepLastOfKeepLast(s: seq<Row>, columns: seq<string>)
    ensures KeepLast(KeepLast(s, columns), columns) == KeepLast(s, columns)
  {
    KeepLastKeys(s, columns);
    KeepLastOfUnique(KeepLast(s, columns), columns);
  }

  /** Rows of `t` replace every earlier row that shares a key with them. */
  lemma {:induction false} KeepLastConcat(s: seq<Row>, t: seq<Row>, columns: seq<string>)
    ensures KeepLast(s + t, columns)
         == Without(KeepLast(s, columns), Keys(t, columns), columns) + KeepLast(t, columns)
  {
    if s == [] {
      assert s + t == t;
    } else {
      assert (s + t)[1..] == s[1..] + t;
      KeepLastConcat(s[1..], t, columns);
      assert Keys(s[1..] + t, columns) == Keys(s[1..], columns) + Keys(t, columns);
      assert ([s[0]] + KeepLast(s[1..], columns))[1..] == KeepLast(s[1..], columns);
    }
  }

  lemma UniqueSubsequence(s: seq<Row>, p: Row -> bool, columns: seq<string>)
    requires UniqueKeys(s, columns)
    ensures UniqueKeys(Filter(s, p), columns)
  {
    if s != [] {
      var f := Filter(s[1..], p);
      UniqueSubsequence(s[1..], p, columns);
      FilterMembers(s[1..], p);
      forall j | 0 <= j < |f| ensures Key(s[0], columns) != Key(f[j], columns) {
        assert f[j] in f;
        var i :| 0 <= i < |s[1..]| && s[1..][i] == f[j];
        assert s[i + 1] == f[j];
      }
    }
  }

  lemma WithoutTwice(s: seq<Row>, keys: set<seq<Value>>, columns: seq<string>)
    ensures Without(Without(s, keys, columns), keys, columns) == Without(s, keys, columns)
  {
    FilterMembers(s, Outside(keys, columns));
    FilterAll(Without(s, keys, columns), Outside(keys, columns));
  }

  /** Uniqueness does not depend on the order of the rows. */
  lemma UniqueByMultiset(s: seq<Row>, t: seq<Row>, columns: seq<string>)
    requires UniqueKeys(s, columns) && multiset(s) == multiset(t)
    ensures UniqueKeys(t, columns)
  {
    forall i, j | 0 <= i < j < |t| ensures Key(t[i], columns) != Key(t[j], columns) { UniquePair(s, t, columns, i, j); }
  }

  lemma UniquePair(s: seq<Row>, t: seq<Row>, columns: seq<string>, i: nat, j: nat)
    requires UniqueKeys(s, columns) && multiset(s) == multiset(t) && i < j < |t|
    ensures Key(t[i], columns) != Key(t[j], columns)
  {
    hide Key;
    if t[i] == t[j] {
      OccursApart(t, i, j);
      OccursTwice(s, t[i]);
      assert false;
    }
    assert t[i] in multiset(t) && t[j] in multiset(t);
    var a :| 0 <= a < |s| && s[a] == t[i];
    var b :| 0 <= b < |s| && s[b] == t[j];
  }

  // ----- the full rewrite an append stands for

  /** Concatenate, keep the last row of each key, sort, rewrite everything. */
  function Rewritten(stored: seq<Row>, batch: seq<Row>, spec: PartitionSpec): seq<Row> {
    StableSort(KeepLast(stored + batch, spec.key), ByColumns(spec.sortBy))
  }

  /** De-duplicating commutes with dropping all rows of some keys. */
  lemma {:induction false} KeepLastWithout(s: seq<Row>, keys: set<seq<Value>>, columns: seq<string>)
    ensures KeepLast(Without(s, keys, columns), columns) == Without(KeepLast(s, columns), keys, columns)
  {
    if s != [] {
      var rest := Without(s[1..], keys, columns);
      KeepLastWithout(s[1..], keys, columns);
      FilterMembers(s[1..], Outside(keys, columns));
      if Key(s[0], columns) !in keys {
        assert Key(s[0], columns) in Keys(s[1..], columns) <==> Key(s[0], columns) in Keys(rest, columns);
        assert ([s[0]] + rest)[1..] == rest;
      }
      assert ([s[0]] + KeepLast(s[1..], columns))[1..] == KeepLast(s[1..], columns);
    }
  }

  /** Nothing is lost to de-duplication exactly where no key repeats. */
  lemma {:induction false} KeepLastLength(s: seq<Row>, columns: seq<string>)
    ensures |KeepLast(s, columns)| <= |s|
    ensures |KeepLast(s, columns)| == |s| <==> UniqueKeys(s, columns)
  {
    KeepLastShorter(s, columns);
    if UniqueKeys(s, columns) { KeepLastOfUnique(s, columns); }
    if |KeepLast(s, columns)| == |s| { KeepLastKeys(s, columns); }
  }

  lemma {:induction false} KeepLastShorter(s: seq<Row>, columns: seq<string>)
    ensures |KeepLast(s, columns)| <= |s|
    ensures |KeepLast(s, columns)| == |s| ==> KeepLast(s, columns) == s
  {
    if s != [] { KeepLastShorter(s[1..], columns); assert s == [s[0]] + s[1..]; }
  }

  /** The rewrite depends on the stored rows only through those whose key the
      batch does not have. */
  lemma RewrittenFromKept(content: seq<Row>, batch: seq<Row>, spec: PartitionSpec)
    ensures var leq := ByColumns(spec.sortBy);
            var kept := Without(content, Keys(batch, spec.key), spec.key);
            Rewritten(StableSort(content, leq), batch, spec)
            == StableSort(KeepLast(StableSort(kept, leq), spec.key) + KeepLast(batch, spec.key), leq)
  {
    var leq := ByColumns(spec.sortBy);
    ByColumnsIsPreorder(spec.sortBy);
    KeepLastConcat(StableSort(content, leq), batch, spec.key);
    KeepLastWithout(StableSort(content, leq), Keys(batch, spec.key), spec.key);
    FilterSort(content, leq, Outside(Keys(batch, spec.key), spec.key));
  }

  /** Dropping superseded rows where they are stored, and adding the batch as one
      sorted run, reads back as the full rewrite exactly when the stored rows the
      batch does not supersede repeat no key. */
  lemma RunIsRewrite(content: seq<Row>, batch: seq<Row>, spec: PartitionSpec)
    ensures var leq := ByColumns(spec.sortBy);
            var kept := Without(content, Keys(batch, spec.key), spec.key);
            StableSort(kept + StableSort(KeepLast(batch, spec.key), leq), leq) == Rewritten(StableSort(content, leq), batch, spec)
            <==> UniqueKeys(kept, spec.key)
    ensures UniqueKeys(content, spec.key) ==> UniqueKeys(Without(content, Keys(batch, spec.key), spec.key), spec.key)
  {
    hide KeepLast, UniqueKeys, Without, Rewritten, StableSort;
    var leq := ByColumns(spec.sortBy);
    var kept := Without(content, Keys(batch, spec.key), spec.key);
    var sorted, added := StableSort(kept, leq), KeepLast(batch, spec.key);
    ByColumnsIsPreorder(spec.sortBy);
    RewrittenFromKept(content, batch, spec);
    SortOfSortedParts(kept, added, leq);
    SortOfSortedParts(kept, StableSort(added, leq), leq);
    StableSortMeaning(kept, leq, map[]);
    KeepLastLength(sorted, spec.key);
    SortedLength(kept + StableSort(added, leq), leq);
    SortedLength(KeepLast(sorted, spec.key) + added, leq);
    SortedLength(kept, leq);
    SortedLength(added, leq);
    UniqueEitherWay(kept, sorted, spec.key);
    if UniqueKeys(kept, spec.key) { KeepLastOfUnique(sorted, spec.key); }
    if UniqueKeys(content, spec.key) { UniqueWithout(content, Keys(batch, spec.key), spec.key); }
  }

  lemma UniqueWithout(s: seq<Row>, keys: set<seq<Value>>, columns: seq<string>)
    requires UniqueKeys(s, columns)
    ensures UniqueKeys(Without(s, keys, columns), columns)
  {
    UniqueSubsequence(s, Outside(keys, columns), columns);
  }

  lemma SortedLength(s: seq<Row>, leq: (Row, Row) -> bool)
    requires TotalPreorder(leq)
    ensures |StableSort(s, leq)| == |s|
  {
    SortMembers(s, leq);
  }

  lemma UniqueEitherWay(s: seq<Row>, t: seq<Row>, columns: seq<string>)
    requires multiset(s) == multiset(t)
    ensures UniqueKeys(s, columns) <==> UniqueKeys(t, columns)
  {
    hide UniqueKeys;
    if UniqueKeys(s, columns) { UniqueByMultiset(s, t, columns); }
    if UniqueKeys(t, columns) { UniqueByMultiset(t, s, columns); }
  }

  /** A rewrite started after some superseded rows were already dropped gives the
      same table. */
  lemma RewriteAfterPartialDrop(content: seq<Row>, dropped: seq<Row>, batch: seq<Row>, spec: PartitionSpec)
    requires Without(dropped, Keys(batch, spec.key), spec.key) == Without(content, Keys(batch, spec.key), spec.key)
    ensures var leq := ByColumns(spec.sortBy);
            Rewritten(StableSort(dropped, leq), batch, spec) == Rewritten(StableSort(content, leq), batch, spec)
  {
    RewrittenFromKept(content, batch, spec);
    RewrittenFromKept(dropped, batch, spec);
  }

  /** What the rewrite stands for: sorted, one row per key of either side, batch
      rows last-wins, and stored rows only where the batch has no such key. */
  lemma RewrittenMeaning(stored: seq<Row>, batch: seq<Row>, spec: PartitionSpec)
    ensures var out := Rewritten(stored, batch, spec);
            && Sorted(out, ByColumns(spec.sortBy)) && UniqueKeys(out, spec.key)
            && forall r :: r in out <==>
                 (r in KeepLast(stored, spec.key) && Key(r, spec.key) !in Keys(batch, spec.key)) || r in KeepLast(batch, spec.key)
  {
    hide KeepLast, UniqueKeys, Keys;
    var leq := ByColumns(spec.sortBy);
    var kept := KeepLast(stored + batch, spec.key);
    ByColumnsIsPreorder(spec.sortBy);
    StableSortMeaning(kept, leq, map[]);
    KeepLastKeys(stored + batch, spec.key);
    UniqueByMultiset(kept, Rewritten(stored, batch, spec), spec.key);
    KeepLastConcat(stored, batch, spec.key);
    FilterMembers(KeepLast(stored, spec.key), Outside(Keys(batch, spec.key), spec.key));
    SortMembers(kept, leq);
  }

  lemma UniqueAppend(s: seq<Row>, t: seq<Row>, columns: seq<string>)
    requires UniqueKeys(s, columns) && UniqueKeys(t, columns)
    requires forall a, b :: a in s && b in t ==> Key(a, columns) != Key(b, columns)
    ensures UniqueKeys(s + t, columns)
  {
    forall i, j | 0 <= i < |s| && 0 <= j < |t| ensures Key(s[i], columns) != Key(t[j], columns) {
      assert s[i] in s && t[j] in t;
    }
  }

  /** Rows none of whose keys is in the batch stay unique, and readable, when the
      sorted batch follows them. */
  lemma SortedRunIsSteady(content: seq<Row>, latest: seq<Row>, spec: PartitionSpec)
    requires UniqueKeys(latest, spec.key)
    requires Without(content, Keys(latest, spec.key), spec.key) == content
    ensures var added := StableSort(latest, ByColumns(spec.sortBy));
            && (UniqueKeys(content, spec.key) ==> UniqueKeys(content + added, spec.key))
            && Without(content + added, Keys(latest, spec.key), spec.key) == content
  {
    var leq := ByColumns(spec.sortBy);
    var outside := Outside(Keys(latest, spec.key), spec.key);
    var added := StableSort(latest, leq);
    ByColumnsIsPreorder(spec.sortBy);
    InsertAllSorted(latest, [], leq);
    SortMembers(latest, leq);
    UniqueByMultiset(latest, added, spec.key);
    FilterMembers(content, outside);
    forall b | b in added ensures Key(b, spec.key) in Keys(latest, spec.key) { assert b in latest; }
    if UniqueKeys(content, spec.key) { UniqueAppend(content, added, spec.key); }
    FilterConcat(content, added, outside);
    FilterNone(added, outside);
  }
}
