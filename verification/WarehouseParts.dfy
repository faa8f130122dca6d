/** The directory of one partitioned table as a state machine: an optional
    legacy base file, and immutable parts named for the sequence range they
    hold.  Every atomic publish, rewrite or delete is one action. */
module WarehouseParts {
  import opened StableSorting
  import opened WarehouseRows
  import opened Options

  /** The inclusive sequence range in a part's file name. */
  datatype Range = Range(start: nat, end: nat)

  datatype Directory = Directory(base: Option<seq<Row>>, parts: map<Range, seq<Row>>)

  const EMPTY: Directory := Directory(None, map[])

  /** Part names carry exactly nine digits; a longer number is never listed. */
  const MAX_SEQUENCE: nat := 999_999_999

  predicate Listed(r: Range) { r.start <= MAX_SEQUENCE && r.end <= MAX_SEQUENCE }

  // ----- which parts are live

  predicate Covers(outer: Range, inner: Range) {
    outer != inner && outer.start <= inner.start && inner.end <= outer.end
  }

  predicate Apart(a: Range, b: Range) { a.end < b.start || b.end < a.start }

  predicate Superseded(r: Range, rs: set<Range>) { exists o :: o in rs && Covers(o, r) }

  function Live(rs: set<Range>): set<Range> {
    set r | r in rs && !Superseded(r, rs)
  }

  predicate NestedOrApart(a: Range, b: Range) {
    a == b || Covers(a, b) || Covers(b, a) || Apart(a, b)
  }

  /** Ranges are well formed, and any two are nested or disjoint. */
  predicate Laminar(rs: set<Range>) {
    && (forall r :: r in rs ==> 1 <= r.start <= r.end)
    && (forall a, b {:trigger NestedOrApart(a, b)} :: a in rs && b in rs ==> NestedOrApart(a, b))
  }

  predicate ByStartThenEnd(a: Range, b: Range) {
    a.start < b.start || (a.start == b.start && a.end <= b.end)
  }

  predicate Ascending(q: seq<Range>) {
    forall i, j :: 0 <= i < j < |q| ==> q[i] != q[j] && ByStartThenEnd(q[i], q[j])
  }

  function Elements(q: seq<Range>): set<Range> { set r | r in q }

  lemma {:induction false} FirstExists(rs: set<Range>)
    requires rs != {}
    ensures exists first :: first in rs && forall r :: r in rs ==> ByStartThenEnd(first, r)
  {
    var x :| x in rs;
    if rs == {x} {
      assert forall r :: r in rs ==> r == x;
    } else {
      FirstExists(rs - {x});
      var y :| y in rs - {x} && forall r :: r in rs - {x} ==> ByStartThenEnd(y, r);
      var first := if ByStartThenEnd(x, y) then x else y;
      assert first in rs && forall r :: r in rs ==> r == x || r in rs - {x};
      assert forall r :: r in rs ==> ByStartThenEnd(first, r);
    }
  }

  ghost function First(rs: set<Range>): (first: Range)
    requires rs != {}
    ensures first in rs && forall r :: r in rs ==> ByStartThenEnd(first, r)
  {
    FirstExists(rs);
    var first :| first in rs && forall r :: r in rs ==> ByStartThenEnd(first, r);
    first
  }

  /** The ranges of a directory in the order their file names sort. */
  ghost function Listing(rs: set<Range>): seq<Range> {
    if rs == {} then [] else [First(rs)] + Listing(rs - {First(rs)})
  }

  lemma {:induction false} ListingMeaning(rs: set<Range>)
    ensures Ascending(Listing(rs)) && Elements(Listing(rs)) == rs
  {
    if rs != {} {
      var rest := Listing(rs - {First(rs)});
      ListingMeaning(rs - {First(rs)});
      AscendingCons(First(rs), rest);
      assert Elements([First(rs)] + rest) == {First(rs)} + Elements(rest);
    }
  }

  lemma AscendingCons(first: Range, rest: seq<Range>)
    requires Ascending(rest) && forall r :: r in Elements(rest) ==> first != r && ByStartThenEnd(first, r)
    ensures Ascending([first] + rest)
  {
    assert forall i :: 0 <= i < |rest| ==> rest[i] in Elements(rest);
  }

  /** An ascending sequence is determined by its elements. */
  lemma {:induction false} ListingUnique(q: seq<Range>, rs: set<Range>)
    requires Ascending(q) && Elements(q) == rs
    ensures q == Listing(rs)
  {
    if q == [] {
    } else {
      assert q[0] in Elements(q);
      var first := First(rs);
      assert first in q;
      assert first == q[0];
      assert Elements(q[1..]) == rs - {first} by {
        assert q == [q[0]] + q[1..];
        forall r ensures r in Elements(q[1..]) <==> r in rs - {first} {
          if r in q[1..] {
            var i :| 0 <= i < |q[1..]| && q[1..][i] == r;
            assert q[i + 1] == r;
          }
        }
      }
      ListingUnique(q[1..], rs - {first});
    }
  }

  ghost function LiveList(d: Directory): seq<Range> { Listing(Live(d.parts.Keys)) }

  lemma LiveListMeaning(d: Directory)
    ensures Ascending(LiveList(d)) && Elements(LiveList(d)) == Live(d.parts.Keys)
    ensures forall r :: r in LiveList(d) <==> r in Live(d.parts.Keys)
  {
    ListingMeaning(Live(d.parts.Keys));
    assert forall r :: r in LiveList(d) <==> r in Elements(LiveList(d));
  }

  function Coverers(r: Range, rs: set<Range>): set<Range> {
    set o | o in rs && Covers(o, r)
  }

  /** Every superseded part lies inside a live one. */
  lemma {:induction false} InsideLive(r: Range, rs: set<Range>) returns (l: Range)
    requires r in rs
    ensures l in Live(rs) && (l == r || Covers(l, r))
    decreases Coverers(r, rs)
  {
    if Superseded(r, rs) {
      var o :| o in rs && Covers(o, r);
      assert o in Coverers(r, rs) && o !in Coverers(o, rs);
      assert Coverers(o, rs) < Coverers(r, rs);
      l := InsideLive(o, rs);
    } else {
      l := r;
    }
  }

  /** Live parts are pairwise disjoint and listed in sequence order. */
  lemma LiveDisjoint(d: Directory)
    requires Laminar(d.parts.Keys)
    ensures forall i, j :: 0 <= i < j < |LiveList(d)| ==> LiveList(d)[i].end < LiveList(d)[j].start
  {
    var q := LiveList(d);
    LiveListMeaning(d);
    forall i, j | 0 <= i < j < |q| ensures q[i].end < q[j].start {
      assert q[i] in q && q[j] in q && NestedOrApart(q[i], q[j]);
    }
  }

  // ----- contents

  function RowsAt(r: Range, parts: map<Range, seq<Row>>): seq<Row> {
    if r in parts then parts[r] else []
  }

  function Rows(q: seq<Range>, parts: map<Range, seq<Row>>): seq<Row> {
    if q == [] then [] else RowsAt(q[0], parts) + Rows(q[1..], parts)
  }

  function BaseRows(d: Directory): seq<Row> {
    if d.base.Some? then d.base.value else []
  }

  /** All rows of the live files in logical order, before the logical sort. */
  ghost function Content(d: Directory): seq<Row> {
    BaseRows(d) + Rows(LiveList(d), d.parts)
  }

  /** The logical table: what `read` returns. */
  ghost function Read(d: Directory, spec: PartitionSpec): seq<Row> {
    StableSort(Content(d), ByColumns(spec.sortBy))
  }

  lemma {:induction false} RowsConcat(p: seq<Range>, q: seq<Range>, parts: map<Range, seq<Row>>)
    ensures Rows(p + q, parts) == Rows(p, parts) + Rows(q, parts)
  {
    if p == [] {
      assert p + q == q;
    } else {
      assert (p + q)[1..] == p[1..] + q;
      RowsConcat(p[1..], q, parts);
    }
  }

  lemma {:induction false} RowsAgree(q: seq<Range>, parts: map<Range, seq<Row>>, parts': map<Range, seq<Row>>)
    requires forall r :: r in q ==> RowsAt(r, parts) == RowsAt(r, parts')
    ensures Rows(q, parts) == Rows(q, parts')
  {
    if q != [] {
      assert q[0] in q && forall r :: r in q[1..] ==> r in q;
      RowsAgree(q[1..], parts, parts');
    }
  }

  // ----- actions

  datatype FileId = BaseFile | PartFile(range: Range)

  datatype Action =
    | RewriteFile(file: FileId, rows: seq<Row>)    // replace one live file atomically
    | PublishBatch(rows: seq<Row>)                 // a new part after all others
    | PublishMerged(first: nat, count: nat)        // merge `count` consecutive live parts
    | RemovePart(range: Range)                     // unlink a superseded part
    | ReplaceTable(rows: seq<Row>)                 // full rewrite into the base file

  /** One more than the largest end of any listed part, 1 for the first part. */
  ghost function NextSequence(d: Directory): (n: nat)
    ensures n >= 1 && forall r :: r in d.parts ==> r.end < n
    ensures n == 1 || exists r :: r in d.parts && r.end == n - 1
  {
    if d.parts == map[] then 1
    else
      LastEndExists(d.parts.Keys);
      var r :| r in d.parts.Keys && forall o :: o in d.parts.Keys ==> o.end <= r.end;
      r.end + 1
  }

  lemma SameNextSequence(d: Directory, e: Directory)
    requires d.parts.Keys == e.parts.Keys
    ensures NextSequence(d) == NextSequence(e)
  {
    assert forall r :: r in d.parts <==> r in e.parts.Keys;
    assert forall r :: r in e.parts <==> r in d.parts.Keys;
  }

  lemma LastOfTwo(rs: set<Range>, x: Range, y: Range)
    requires x in rs && y in rs && forall r :: r in rs - {x} ==> r.end <= y.end
    ensures exists last :: last in rs && forall r :: r in rs ==> r.end <= last.end
  {
    assert forall r :: r in rs ==> r == x || r in rs - {x};
    if x.end <= y.end {
      assert y in rs && forall r :: r in rs ==> r.end <= y.end;
    } else {
      assert x in rs && forall r :: r in rs ==> r.end <= x.end;
    }
  }

  lemma {:induction false} LastEndExists(rs: set<Range>)
    requires rs != {}
    ensures exists last :: last in rs && forall r :: r in rs ==> r.end <= last.end
  {
    var x :| x in rs;
    if rs == {x} {
      assert forall r :: r in rs ==> r == x;
    } else {
      LastEndExists(rs - {x});
      var y :| y in rs - {x} && forall r :: r in rs - {x} ==> r.end <= y.end;
      LastOfTwo(rs, x, y);
    }
  }

  ghost predicate Enabled(d: Directory, a: Action) {
    match a
    case RewriteFile(BaseFile, _) => d.base.Some?
    case RewriteFile(PartFile(r), _) => r in Live(d.parts.Keys)
    case PublishBatch(_) => true
    case PublishMerged(first, count) => count >= 2 && first + count <= |LiveList(d)|
    case RemovePart(r) => r in d.parts && Superseded(r, d.parts.Keys)
    case ReplaceTable(_) => true
  }

  ghost function MergedRange(d: Directory, first: nat, count: nat): Range
    requires Enabled(d, PublishMerged(first, count))
  {
    Range(LiveList(d)[first].start, LiveList(d)[first + count - 1].end)
  }

  /** The parts a merge reads. */
  ghost function MergeInputs(d: Directory, first: nat, count: nat): seq<Range>
    requires Enabled(d, PublishMerged(first, count))
  {
    LiveList(d)[first..first + count]
  }

  /** Publishing a part whose name has more than nine digits adds a file that no
      listing ever sees. */
  function AddPart(parts: map<Range, seq<Row>>, r: Range, rows: seq<Row>): map<Range, seq<Row>> {
    if Listed(r) then parts[r := rows] else parts
  }

  ghost function Next(d: Directory, a: Action): Directory
    requires Enabled(d, a)
  {
    match a
    case RewriteFile(BaseFile, rows) => d.(base := Some(rows))
    case RewriteFile(PartFile(r), rows) => d.(parts := d.parts[r := rows])
    case PublishBatch(rows) =>
      var n := NextSequence(d);
      d.(parts := AddPart(d.parts, Range(n, n), rows))
    case PublishMerged(first, count) =>
      d.(parts := AddPart(d.parts, MergedRange(d, first, count), Rows(MergeInputs(d, first, count), d.parts)))
    case RemovePart(r) => d.(parts := d.parts - {r})
    case ReplaceTable(rows) => Directory(Some(rows), map[])
  }

  ghost predicate Runs(d: Directory, run: seq<Action>)
    decreases |run|
  {
    run == [] || (Enabled(d, run[0]) && Runs(Next(d, run[0]), run[1..]))
  }

  ghost function After(d: Directory, run: seq<Action>): Directory
    requires Runs(d, run)
    decreases |run|
  {
    if run == [] then d else After(Next(d, run[0]), run[1..])
  }

  lemma {:induction false} RunConcat(d: Directory, p: seq<Action>, q: seq<Action>)
    requires Runs(d, p) && Runs(After(d, p), q)
    ensures Runs(d, p + q) && After(d, p + q) == After(After(d, p), q)
    decreases |p|
  {
    if p == [] {
      assert p + q == q;
    } else {
      assert (p + q)[1..] == p[1..] + q;
      RunConcat(Next(d, p[0]), p[1..], q);
    }
  }

  lemma RunStep(d: Directory, run: seq<Action>, a: Action)
    requires Runs(d, run) && Enabled(After(d, run), a)
    ensures Runs(d, run + [a]) && After(d, run + [a]) == Next(After(d, run), a)
  {
    var e := After(d, run);
    assert [a][1..] == [] && Runs(Next(e, a), [a][1..]);
    assert Runs(e, [a]) && After(e, [a]) == Next(e, a);
    RunConcat(d, run, [a]);
  }

  lemma {:induction false} RunPrefix(d: Directory, run: seq<Action>, k: nat)
    requires Runs(d, run) && k <= |run|
    ensures Runs(d, run[..k])
    decreases |run|
  {
    if k > 0 {
      assert run[..k][1..] == run[1..][..k - 1];
      RunPrefix(Next(d, run[0]), run[1..], k - 1);
    }
  }

  // ----- the shape every state keeps

  predicate Shape(d: Directory) {
    Laminar(d.parts.Keys) && forall r :: r in d.parts ==> Listed(r)
  }

  /** A run of consecutive disjoint ranges is covered by the range from its
      first start to its last end; the other ranges are apart from it. */
  lemma SpanOfRun(q: seq<Range>, first: nat, count: nat)
    requires forall i, j :: 0 <= i < j < |q| ==> q[i].end < q[j].start
    requires forall i :: 0 <= i < |q| ==> 1 <= q[i].start <= q[i].end
    requires count >= 2 && first + count <= |q|
    ensures var m := Range(q[first].start, q[first + count - 1].end);
            && 1 <= m.start <= m.end
            && forall i :: 0 <= i < |q| ==> if first <= i < first + count then Covers(m, q[i]) else Apart(m, q[i])
  {
    assert q[first].end < q[first + count - 1].start;
  }

  /** Where a merged range lies: it strictly covers its inputs, and every other
      part is inside one of them or apart from the whole range. */
  lemma MergedRangeFits(d: Directory, first: nat, count: nat)
    requires Shape(d) && Enabled(d, PublishMerged(first, count))
    ensures var q, m := LiveList(d), MergedRange(d, first, count);
            && 1 <= m.start <= m.end && Listed(m) && m !in d.parts
            && (forall r :: r in d.parts ==> Covers(m, r) || Apart(m, r))
            && forall i :: 0 <= i < |q| ==> if first <= i < first + count then Covers(m, q[i]) else Apart(m, q[i])
  {
    hide LiveList, Superseded;
    var q := LiveList(d);
    var m := MergedRange(d, first, count);
    LiveDisjoint(d);
    LiveListMeaning(d);
    forall i | 0 <= i < |q| ensures 1 <= q[i].start <= q[i].end && q[i] in d.parts && Listed(q[i]) {
      assert q[i] in q;
    }
    SpanOfRun(q, first, count);
    forall r | r in d.parts ensures Covers(m, r) || Apart(m, r) {
      var l := InsideLive(r, d.parts.Keys);
      assert l in q;
      var i :| 0 <= i < |q| && q[i] == l;
      assert Covers(m, q[i]) || Apart(m, q[i]);
    }
    if m in d.parts {
      assert false;
    }
  }

  lemma NextKeepsShape(d: Directory, a: Action)
    requires Shape(d) && Enabled(d, a)
    ensures Shape(Next(d, a))
  {
    match a
    case RewriteFile(BaseFile, _) =>
    case RewriteFile(PartFile(_), _) =>
    case PublishBatch(_) =>
    case PublishMerged(first, count) => MergedRangeFits(d, first, count);
    case RemovePart(_) =>
    case ReplaceTable(_) =>
  }

  /** Over every run of appends, rewrites, compactions and interrupted
      compactions: ranges stay nested or disjoint, live parts stay disjoint and
      in sequence order, superseded parts lie inside live ones, and the next
      sequence number lies outside every range. */
  lemma {:induction false} ShapeOverRuns(d: Directory, run: seq<Action>)
    requires Shape(d) && Runs(d, run)
    ensures var e := After(d, run);
            && Shape(e)
            && (forall i, j :: 0 <= i < j < |LiveList(e)| ==> LiveList(e)[i].end < LiveList(e)[j].start)
            && (forall r :: r in e.parts && Superseded(r, e.parts.Keys) ==>
                  exists l :: l in Live(e.parts.Keys) && Covers(l, r))
            && (forall r :: r in e.parts ==> r.end < NextSequence(e))
    decreases |run|
  {
    if run == [] {
      LiveDisjoint(d);
      forall r | r in d.parts && Superseded(r, d.parts.Keys)
        ensures exists l :: l in Live(d.parts.Keys) && Covers(l, r)
      {
        var l := InsideLive(r, d.parts.Keys);
      }
    } else {
      NextKeepsShape(d, run[0]);
      ShapeOverRuns(Next(d, run[0]), run[1..]);
    }
  }

  // ----- maintenance never changes what is read

  lemma RemovePartInvisible(d: Directory, r: Range)
    requires Shape(d) && Enabled(d, RemovePart(r))
    ensures LiveList(Next(d, RemovePart(r))) == LiveList(d)
    ensures Content(Next(d, RemovePart(r))) == Content(d)
  {
    var e := Next(d, RemovePart(r));
    assert Live(e.parts.Keys) == Live(d.parts.Keys) by {
      forall x | x in e.parts ensures Superseded(x, e.parts.Keys) <==> Superseded(x, d.parts.Keys) {
        if Superseded(x, d.parts.Keys) {
          var o :| o in d.parts.Keys && Covers(o, x);
          if o == r {
            var p :| p in d.parts.Keys && Covers(p, r);
            assert p in e.parts.Keys && Covers(p, x);
          } else {
            assert o in e.parts.Keys && Covers(o, x);
          }
        }
      }
    }
    LiveListMeaning(d);
    RowsAgree(LiveList(d), d.parts, e.parts);
  }

  /** Adding a range that covers a run of live ranges, and is apart from all
      others, makes it live in their place. */
  lemma LiveAfterMerge(rs: set<Range>, m: Range, group: set<Range>)
    requires m !in rs && group <= Live(rs)
    requires forall r :: r in rs ==> !Covers(r, m)
    requires forall r :: r in group ==> Covers(m, r)
    requires forall r :: r in Live(rs) - group ==> !Covers(m, r)
    ensures Live(rs + {m}) == Live(rs) - group + {m}
  {
    forall r | r in rs ensures r in Live(rs + {m}) <==> r in Live(rs) - group {
      if r in Live(rs) - group {
        assert !Superseded(r, rs + {m});
      } else if r in group {
        assert m in rs + {m} && Covers(m, r);
      } else {
        var o :| o in rs && Covers(o, r);
        assert o in rs + {m} && Covers(o, r);
      }
    }
    assert !Superseded(m, rs + {m});
  }

  /** `m` in the place of the run `q[first..first + count]`. */
  function Splice(q: seq<Range>, first: nat, count: nat, m: Range): seq<Range>
    requires first + count <= |q|
  {
    q[..first] + [m] + q[first + count..]
  }

  predicate Separated(q: seq<Range>) {
    && (forall i :: 0 <= i < |q| ==> q[i].start <= q[i].end)
    && (forall i, j :: 0 <= i < j < |q| ==> q[i].end < q[j].start)
  }

  lemma SpliceSeparated(q: seq<Range>, first: nat, count: nat)
    requires Separated(q) && count >= 1 && first + count <= |q|
    ensures Separated(Splice(q, first, count, Range(q[first].start, q[first + count - 1].end)))
  {
    var m := Range(q[first].start, q[first + count - 1].end);
    var list := Splice(q, first, count, m);
    assert m.start <= m.end;
    forall i, j | 0 <= i < j < |list| ensures list[i].end < list[j].start {
      if i < first {
        assert q[i].end < q[first].start;
      } else if i == first {
        assert q[first + count - 1].end < q[j + count - 1].start;
      }
    }
  }

  lemma SpliceElements(q: seq<Range>, first: nat, count: nat, m: Range)
    requires Separated(q) && first + count <= |q|
    ensures Elements(Splice(q, first, count, m)) == Elements(q) - Elements(q[first..first + count]) + {m}
  {
    var p, group, t := q[..first], q[first..first + count], q[first + count..];
    assert q == p + group + t;
    assert Elements(q) == Elements(p) + Elements(group) + Elements(t);
    assert Elements(p + [m] + t) == Elements(p) + {m} + Elements(t);
    SliceApart(q, first, count);
  }

  lemma SliceApart(q: seq<Range>, first: nat, count: nat)
    requires Separated(q) && first + count <= |q|
    ensures Elements(q[..first]) !! Elements(q[first..first + count])
    ensures Elements(q[first + count..]) !! Elements(q[first..first + count])
  {
    var p, group, t := q[..first], q[first..first + count], q[first + count..];
    forall r | r in group ensures r !in p && r !in t {
      var j :| 0 <= j < |group| && group[j] == r;
      assert q[first + j] == r;
    }
  }

  /** Of the listed ranges, the merged range covers exactly the group. */
  lemma GroupIsCovered(q: seq<Range>, first: nat, count: nat, m: Range)
    requires first + count <= |q|
    requires forall i :: 0 <= i < |q| ==> if first <= i < first + count then Covers(m, q[i]) else Apart(m, q[i])
    requires forall i :: 0 <= i < |q| ==> q[i].start <= q[i].end
    ensures forall r :: r in Elements(q) ==> (r in Elements(q[first..first + count]) <==> Covers(m, r))
  {
    var group := q[first..first + count];
    forall r | r in Elements(q) ensures r in Elements(group) <==> Covers(m, r) {
      var i :| 0 <= i < |q| && q[i] == r;
      if first <= i < first + count { assert group[i - first] == r; }
      if r in group {
        var j :| 0 <= j < count && group[j] == r;
        assert q[first + j] == r;
      }
    }
  }

  lemma PublishMergedLive(d: Directory, first: nat, count: nat)
    requires Shape(d) && Enabled(d, PublishMerged(first, count))
    ensures LiveList(Next(d, PublishMerged(first, count)))
         == Splice(LiveList(d), first, count, MergedRange(d, first, count))
  {
    hide Splice, Listing, Live, LiveList, Laminar;
    var rs := d.parts.Keys;
    var q, m := LiveList(d), MergedRange(d, first, count);
    var group := q[first..first + count];
    MergedRangeFits(d, first, count);
    LiveSeparated(d);
    GroupIsCovered(q, first, count, m);
    assert Elements(group) <= Live(rs) by { assert forall r :: r in group ==> r in q; }
    LiveAfterMerge(rs, m, Elements(group));
    SpliceSeparated(q, first, count);
    SpliceElements(q, first, count, m);
    assert Next(d, PublishMerged(first, count)).parts.Keys == rs + {m};
    SeparatedIsListing(Splice(q, first, count, m), Live(rs + {m}));
    LiveListOf(Next(d, PublishMerged(first, count)), rs + {m});
  }

  lemma LiveListOf(d: Directory, rs: set<Range>)
    requires d.parts.Keys == rs
    ensures LiveList(d) == Listing(Live(rs))
  {
  }

  lemma LiveSeparated(d: Directory)
    requires Laminar(d.parts.Keys)
    ensures Separated(LiveList(d)) && Elements(LiveList(d)) == Live(d.parts.Keys)
  {
    LiveDisjoint(d);
    LiveListMeaning(d);
    forall i | 0 <= i < |LiveList(d)| ensures LiveList(d)[i].start <= LiveList(d)[i].end {
      assert LiveList(d)[i] in LiveList(d);
    }
  }

  lemma SeparatedIsListing(q: seq<Range>, rs: set<Range>)
    requires Separated(q) && Elements(q) == rs
    ensures q == Listing(rs)
  {
    ListingUnique(q, rs);
  }

  /** Replacing a run of parts by one part holding their rows keeps the rows. */
  lemma RowsOfSplice(p: seq<Range>, group: seq<Range>, t: seq<Range>, m: Range,
                     parts: map<Range, seq<Row>>, parts': map<Range, seq<Row>>)
    requires m !in p && m !in t && parts' == parts[m := Rows(group, parts)]
    ensures Rows(p + [m] + t, parts') == Rows(p + group + t, parts)
  {
    RowsConcat(p, group, parts);
    RowsConcat(p + group, t, parts);
    RowsConcat(p, [m], parts');
    RowsConcat(p + [m], t, parts');
    RowsAgree(p, parts, parts');
    RowsAgree(t, parts, parts');
    assert [m][1..] == [] && Rows([m], parts') == parts'[m] + [];
  }

  lemma MergedContent(q: seq<Range>, first: nat, count: nat, m: Range,
                      parts: map<Range, seq<Row>>, parts': map<Range, seq<Row>>)
    requires first + count <= |q| && m !in q && parts' == parts[m := Rows(q[first..first + count], parts)]
    ensures Rows(Splice(q, first, count, m), parts') == Rows(q, parts)
  {
    var p, group, t := q[..first], q[first..first + count], q[first + count..];
    assert q == p + group + t;
    assert forall r :: r in p || r in t ==> r in q;
    RowsOfSplice(p, group, t, m, parts, parts');
  }

  lemma PublishMergedInvisible(d: Directory, first: nat, count: nat)
    requires Shape(d) && Enabled(d, PublishMerged(first, count))
    ensures Content(Next(d, PublishMerged(first, count))) == Content(d)
  {
    var q := LiveList(d);
    var m := MergedRange(d, first, count);
    var e := Next(d, PublishMerged(first, count));
    PublishMergedLive(d, first, count);
    MergedRangeFits(d, first, count);
    MergedContent(q, first, count, m, d.parts, e.parts);
    assert LiveList(e) == Splice(q, first, count, m);
    assert BaseRows(e) == BaseRows(d);
  }

  predicate Maintenance(a: Action) { a.PublishMerged? || a.RemovePart? }

  /** Compaction is invisible at every intermediate state: stop any sequence of
      merges and removals anywhere and the same row sequence is read. */
  lemma {:induction false} CompactionInvisible(d: Directory, run: seq<Action>, k: nat)
    requires Shape(d) && Runs(d, run) && k <= |run|
    requires forall a :: a in run ==> Maintenance(a)
    ensures Runs(d, run[..k]) && Content(After(d, run[..k])) == Content(d)
    decreases |run|
  {
    if k > 0 {
      var a := run[0];
      assert Maintenance(a);
      NextKeepsShape(d, a);
      if a.PublishMerged? {
        PublishMergedInvisible(d, a.first, a.count);
      } else {
        RemovePartInvisible(d, a.range);
      }
      assert run[..k][1..] == run[1..][..k - 1];
      assert forall b :: b in run[1..] ==> b in run;
      CompactionInvisible(Next(d, a), run[1..], k - 1);
    }
  }

  // ----- a new part, and a rewritten file

  lemma LiveAfterNew(rs: set<Range>, r: Range)
    requires forall x :: x in rs ==> !Covers(x, r) && !Covers(r, x) && x != r
    ensures Live(rs + {r}) == Live(rs) + {r}
  {
    assert !Superseded(r, rs + {r});
    forall x | x in rs ensures Superseded(x, rs + {r}) <==> Superseded(x, rs) {
      if Superseded(x, rs) {
        var o :| o in rs && Covers(o, x);
        assert o in rs + {r} && Covers(o, x);
      }
    }
  }

  lemma LiveAfterBatch(d: Directory, r: Range)
    requires Shape(d) && r == Range(NextSequence(d), NextSequence(d))
    ensures Listing(Live(d.parts.Keys + {r})) == LiveList(d) + [r]
    ensures r !in d.parts && r !in LiveList(d)
  {
    hide LiveList, Listing, NextSequence;
    var q := LiveList(d);
    assert forall x :: x in d.parts.Keys ==> x.start <= x.end < r.start;
    LiveAfterNew(d.parts.Keys, r);
    LiveListMeaning(d);
    LiveSeparated(d);
    forall i | 0 <= i < |q| ensures q[i].end < r.start { assert q[i] in q; }
    assert Elements(q + [r]) == Elements(q) + {r};
    SeparatedIsListing(q + [r], Live(d.parts.Keys + {r}));
  }

  lemma RowsAfterBatch(q: seq<Range>, r: Range, parts: map<Range, seq<Row>>, rows: seq<Row>)
    requires r !in q
    ensures Rows(q + [r], parts[r := rows]) == Rows(q, parts) + rows
  {
    var parts' := parts[r := rows];
    RowsAgree(q, parts, parts');
    RowsConcat(q, [r], parts');
    assert [r][1..] == [] && Rows([r], parts') == rows + [];
  }

  /** A batch part lands behind everything stored, unless its sequence number
      no longer fits the name. */
  lemma PublishBatchContent(d: Directory, rows: seq<Row>)
    requires Shape(d)
    ensures var e := Next(d, PublishBatch(rows));
            if NextSequence(d) <= MAX_SEQUENCE then Content(e) == Content(d) + rows else e == d
  {
    var n := NextSequence(d);
    var e := Next(d, PublishBatch(rows));
    if n <= MAX_SEQUENCE {
      var q, r := LiveList(d), Range(n, n);
      LiveAfterBatch(d, r);
      assert e.parts == d.parts[r := rows];
      assert e.parts.Keys == d.parts.Keys + {r};
      RowsAfterBatch(q, r, d.parts, rows);
      assert BaseRows(d) + (Rows(q, d.parts) + rows) == Content(d) + rows;
    }
  }
}
