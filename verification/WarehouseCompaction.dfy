/** Compaction: how runs of small parts are grouped, and what merging a group and
    unlinking its inputs leaves behind. */
module WarehouseCompaction {
  import opened StableSorting
  import opened WarehouseRows
  import opened WarehouseParts

  const COMPACT_TRIGGER_PARTS: nat := 32
  const COMPACT_TARGET_ROWS: nat := 50_000

  // ----- compaction as a run of actions

  /** What is known while one group is being merged and its inputs removed. */
  ghost predicate Compacting(d0: Directory, run: seq<Action>, d: Directory) {
    && Shape(d) && Runs(d0, run) && d == After(d0, run) && forall a :: a in run ==> Maintenance(a)
  }

  lemma CompactingStep(d0: Directory, run: seq<Action>, d: Directory, a: Action)
    requires Compacting(d0, run, d) && Enabled(d, a) && Maintenance(a)
    ensures Compacting(d0, run + [a], Next(d, a)) && Content(Next(d, a)) == Content(d)
  {
    NextKeepsShape(d, a);
    if a.PublishMerged? {
      PublishMergedInvisible(d, a.first, a.count);
    } else {
      RemovePartInvisible(d, a.range);
    }
    RunStep(d0, run, a);
  }

  /** One group being merged: published, and the first `i` inputs unlinked. */
  ghost predicate Merging(d0: Directory, run: seq<Action>, d: Directory, first: nat, inputs: seq<Range>, i: nat)
    requires Enabled(d0, PublishMerged(first, |inputs|)) && i <= |inputs|
  {
    var published := Next(d0, PublishMerged(first, |inputs|));
    && Compacting(d0, run, d) && Content(d) == Content(d0)
    && LiveList(d) == LiveList(published)
    && d == Directory(d0.base, published.parts - Elements(inputs[..i]))
  }

  lemma MergingStarts(d0: Directory, first: nat, inputs: seq<Range>)
    requires Shape(d0) && Enabled(d0, PublishMerged(first, |inputs|))
    ensures var a := PublishMerged(first, |inputs|);
            Merging(d0, [a], Next(d0, a), first, inputs, 0)
  {
    var a := PublishMerged(first, |inputs|);
    assert Compacting(d0, [], d0);
    CompactingStep(d0, [], d0, a);
    assert [] + [a] == [a] && Elements(inputs[..0]) == {};
    assert Next(d0, a).parts - {} == Next(d0, a).parts;
  }

  lemma MergingStep(d0: Directory, run: seq<Action>, d: Directory, first: nat, inputs: seq<Range>, i: nat)
    requires Shape(d0) && Enabled(d0, PublishMerged(first, |inputs|)) && i < |inputs|
    requires inputs == MergeInputs(d0, first, |inputs|)
    requires Merging(d0, run, d, first, inputs, i)
    ensures Enabled(d, RemovePart(inputs[i]))
    ensures Merging(d0, run + [RemovePart(inputs[i])], Next(d, RemovePart(inputs[i])), first, inputs, i + 1)
  {
    InputIsSuperseded(d0, d, first, inputs, i);
    var a := RemovePart(inputs[i]);
    var e := Next(d, a);
    CompactingStep(d0, run, d, a);
    RemovePartInvisible(d, inputs[i]);
    var published := Next(d0, PublishMerged(first, |inputs|));
    assert e.parts == published.parts - Elements(inputs[..i + 1]) by {
      RemoveOneMore(published.parts, inputs, i);
    }
    assert e == Directory(d0.base, published.parts - Elements(inputs[..i + 1]));
  }

  lemma RemoveOneMore(parts: map<Range, seq<Row>>, inputs: seq<Range>, i: nat)
    requires i < |inputs|
    ensures parts - Elements(inputs[..i + 1]) == parts - Elements(inputs[..i]) - {inputs[i]}
  {
    assert inputs[..i + 1] == inputs[..i] + [inputs[i]];
    assert Elements(inputs[..i + 1]) == Elements(inputs[..i]) + {inputs[i]};
  }

  lemma InputIsSuperseded(d0: Directory, d: Directory, first: nat, inputs: seq<Range>, i: nat)
    requires Shape(d0) && Enabled(d0, PublishMerged(first, |inputs|)) && i < |inputs|
    requires inputs == MergeInputs(d0, first, |inputs|)
    requires d.parts == Next(d0, PublishMerged(first, |inputs|)).parts - Elements(inputs[..i])
    ensures inputs[i] in d.parts && Superseded(inputs[i], d.parts.Keys)
  {
    var m, x := MergedRange(d0, first, |inputs|), inputs[i];
    MergedRangeFits(d0, first, |inputs|);
    InputsDistinct(d0, first, inputs, i);
    assert x == LiveList(d0)[first + i] && Covers(m, x);
    LiveMember(d0, first + i);
    forall j | 0 <= j < |inputs| ensures inputs[j] != m { assert Covers(m, LiveList(d0)[first + j]); }
    assert m in d.parts.Keys && Covers(m, x);
  }

  lemma InputsDistinct(d: Directory, first: nat, inputs: seq<Range>, i: nat)
    requires i < |inputs| && first + |inputs| <= |LiveList(d)|
    requires inputs == LiveList(d)[first..first + |inputs|]
    ensures inputs[i] !in inputs[..i]
  {
    LiveListMeaning(d);
  }

  lemma LiveMember(d: Directory, i: nat)
    requires i < |LiveList(d)|
    ensures LiveList(d)[i] in Live(d.parts.Keys)
  {
    LiveListMeaning(d);
    assert LiveList(d)[i] in LiveList(d);
  }

  // ----- planning a compaction

  /** `count` consecutive live parts from index `first` on. */
  datatype Group = Group(first: nat, count: nat)

  function SumSizes(sizes: seq<nat>, lo: nat, hi: nat): nat
    requires lo <= hi <= |sizes|
  {
    if lo == hi then 0 else SumSizes(sizes, lo, hi - 1) + sizes[hi - 1]
  }

  predicate GroupFits(sizes: seq<nat>, g: Group) {
    && g.first + g.count <= |sizes|
    && (forall i :: g.first <= i < g.first + g.count ==> sizes[i] < COMPACT_TARGET_ROWS)
    && SumSizes(sizes, g.first, g.first + g.count) <= COMPACT_TARGET_ROWS
  }

  /** A new group starts only after a full-size part, or because its first part
      would overflow the group before it. */
  predicate BreakJustified(sizes: seq<nat>, g: Group, h: Group)
    requires GroupFits(sizes, g) && GroupFits(sizes, h)
  {
    && g.first + g.count <= h.first
    && (g.first + g.count < h.first
        || (h.count > 0 && SumSizes(sizes, g.first, g.first + g.count) + sizes[h.first] > COMPACT_TARGET_ROWS))
  }

  predicate Holds(g: Group, i: nat) { g.first <= i < g.first + g.count }

  predicate InPlan(groups: seq<Group>, i: nat) {
    exists j :: 0 <= j < |groups| && Holds(groups[j], i)
  }

  predicate AllFit(sizes: seq<nat>, groups: seq<Group>) {
    forall j :: 0 <= j < |groups| ==> GroupFits(sizes, groups[j])
  }

  predicate AllJustified(sizes: seq<nat>, groups: seq<Group>)
    requires AllFit(sizes, groups)
  {
    forall j :: 0 < j < |groups| ==> BreakJustified(sizes, groups[j - 1], groups[j])
  }

  predicate AllSmallIn(sizes: seq<nat>, n: nat, groups: seq<Group>)
    requires n <= |sizes|
  {
    forall i :: 0 <= i < n && sizes[i] < COMPACT_TARGET_ROWS ==> InPlan(groups, i)
  }

  /** Groups of consecutive small parts, in order and each within the target,
      that leave out none of the first `n` small parts. */
  predicate GoodPlan(sizes: seq<nat>, n: nat, groups: seq<Group>)
    requires n <= |sizes|
  {
    AllFit(sizes, groups) && AllJustified(sizes, groups) && AllSmallIn(sizes, n, groups)
  }

  lemma PlanNewGroup(sizes: seq<nat>, i: nat, groups: seq<Group>, g: Group)
    requires i < |sizes| && groups != [] && GoodPlan(sizes, i, groups)
    requires GroupFits(sizes, g) && BreakJustified(sizes, groups[|groups| - 1], g)
    requires sizes[i] < COMPACT_TARGET_ROWS ==> Holds(g, i)
    ensures GoodPlan(sizes, i + 1, groups + [g])
  {
    var plan := groups + [g];
    forall j | 0 < j < |plan| ensures BreakJustified(sizes, plan[j - 1], plan[j]) {
      if j < |groups| { assert BreakJustified(sizes, groups[j - 1], groups[j]); }
    }
    StillInPlan(sizes, i, groups, plan);
    assert plan[|groups|] == g;
  }

  /** Growing the last group leaves every break justified. */
  lemma GrownJustified(sizes: seq<nat>, groups: seq<Group>, g: Group)
    requires groups != [] && AllFit(sizes, groups) && AllJustified(sizes, groups) && GroupFits(sizes, g)
    requires var last := groups[|groups| - 1];
             g.first == last.first && g.count == last.count + 1
    requires |groups| > 1 && groups[|groups| - 1].count == 0 ==> BreakJustified(sizes, groups[|groups| - 2], g)
    ensures AllFit(sizes, groups[..|groups| - 1] + [g]) && AllJustified(sizes, groups[..|groups| - 1] + [g])
  {
    hide SumSizes;
    var plan := groups[..|groups| - 1] + [g];
    forall j | 0 < j < |plan| ensures BreakJustified(sizes, plan[j - 1], plan[j]) {
      assert BreakJustified(sizes, groups[j - 1], groups[j]);
    }
  }

  lemma GrownHolds(sizes: seq<nat>, i: nat, plan: seq<Group>, m: nat)
    requires i < |sizes| && m < |plan| && Holds(plan[m], i) && AllSmallIn(sizes, i, plan)
    ensures AllSmallIn(sizes, i + 1, plan)
  {
  }

  lemma PlanGrowGroup(sizes: seq<nat>, i: nat, groups: seq<Group>, g: Group)
    requires i < |sizes| && groups != [] && GoodPlan(sizes, i, groups) && GroupFits(sizes, g)
    requires var last := groups[|groups| - 1];
             g.first == last.first && last.first + last.count == i && g.count == last.count + 1
    requires |groups| > 1 && groups[|groups| - 1].count == 0 ==>
               BreakJustified(sizes, groups[|groups| - 2], g)
    ensures GoodPlan(sizes, i + 1, groups[..|groups| - 1] + [g])
  {
    hide SumSizes, AllSmallIn, AllJustified, AllFit, GroupFits, BreakJustified;
    var m := |groups| - 1;
    var plan := groups[..m] + [g];
    GrownJustified(sizes, groups, g);
    StillInPlan(sizes, i, groups, plan);
    GrownHolds(sizes, i, plan, m);
  }

  lemma StillInPlan(sizes: seq<nat>, i: nat, groups: seq<Group>, plan: seq<Group>)
    requires i <= |sizes| && AllSmallIn(sizes, i, groups) && |groups| <= |plan|
    requires forall j :: 0 <= j < |groups| ==>
               plan[j].first == groups[j].first && groups[j].count <= plan[j].count
    ensures AllSmallIn(sizes, i, plan)
  {
    forall k | 0 <= k < i && sizes[k] < COMPACT_TARGET_ROWS ensures InPlan(plan, k) {
      var j :| 0 <= j < |groups| && Holds(groups[j], k);
      assert Holds(plan[j], k);
    }
  }

  lemma SumOne(sizes: seq<nat>, i: nat)
    requires i < |sizes|
    ensures SumSizes(sizes, i, i + 1) == sizes[i]
    ensures SumSizes(sizes, i, i) == 0
  {
  }

  lemma EmptySum(sizes: seq<nat>, i: nat)
    requires i <= |sizes|
    ensures SumSizes(sizes, i, i) == 0
  {
  }

  /** What the planning pass knows before part `i`: the last group ends there,
      `rows` is its size, and it is empty only behind a full-size part. */
  predicate PlanState(sizes: seq<nat>, i: nat, groups: seq<Group>, rows: nat)
    requires i <= |sizes|
  {
    && groups != [] && GoodPlan(sizes, i, groups)
    && var g := groups[|groups| - 1];
    && g.first + g.count == i && rows == SumSizes(sizes, g.first, i)
    && (|groups| > 1 && g.count == 0 ==> groups[|groups| - 2].first + groups[|groups| - 2].count < g.first)
  }

  lemma PlanStateNew(sizes: seq<nat>, i: nat, groups: seq<Group>, rows: nat)
    requires i < |sizes| && PlanState(sizes, i, groups, rows)
    requires sizes[i] >= COMPACT_TARGET_ROWS || rows + sizes[i] > COMPACT_TARGET_ROWS
    ensures if sizes[i] >= COMPACT_TARGET_ROWS then PlanState(sizes, i + 1, groups + [Group(i + 1, 0)], 0)
            else PlanState(sizes, i + 1, groups + [Group(i, 1)], sizes[i])
  {
    hide GoodPlan, SumSizes;
    SumOne(sizes, i);
    EmptySum(sizes, i + 1);
    var g := if sizes[i] >= COMPACT_TARGET_ROWS then Group(i + 1, 0) else Group(i, 1);
    PlanNewGroup(sizes, i, groups, g);
  }

  lemma GrownFits(sizes: seq<nat>, last: Group, i: nat)
    requires i < |sizes| && GroupFits(sizes, last) && last.first + last.count == i
    requires sizes[i] < COMPACT_TARGET_ROWS && SumSizes(sizes, last.first, i) + sizes[i] <= COMPACT_TARGET_ROWS
    ensures GroupFits(sizes, Group(last.first, last.count + 1))
    ensures SumSizes(sizes, last.first, i + 1) == SumSizes(sizes, last.first, i) + sizes[i]
  {
  }

  lemma PlanStateGrow(sizes: seq<nat>, i: nat, groups: seq<Group>, rows: nat)
    requires i < |sizes| && PlanState(sizes, i, groups, rows)
    requires sizes[i] < COMPACT_TARGET_ROWS && rows + sizes[i] <= COMPACT_TARGET_ROWS
    ensures var g := groups[|groups| - 1];
            PlanState(sizes, i + 1, groups[..|groups| - 1] + [Group(g.first, g.count + 1)], rows + sizes[i])
  {
    var last := groups[|groups| - 1];
    var g := Group(last.first, last.count + 1);
    assert GroupFits(sizes, last);
    GrownFits(sizes, last, i);
    if |groups| > 1 && last.count == 0 {
      assert GroupFits(sizes, groups[|groups| - 2]);
      assert BreakJustified(sizes, groups[|groups| - 2], g);
    }
    PlanGrowGroup(sizes, i, groups, g);
  }

  /** One part of the planning pass, as groups and the size of the last one. */
  function PlanStep(groups: seq<Group>, rows: nat, i: nat, n: nat): (seq<Group>, nat)
    requires groups != []
  {
    var last := groups[|groups| - 1];
    if n >= COMPACT_TARGET_ROWS then (groups + [Group(i + 1, 0)], 0)
    else if rows + n > COMPACT_TARGET_ROWS then (groups + [Group(i, 1)], n)
    else (groups[..|groups| - 1] + [Group(last.first, last.count + 1)], rows + n)
  }

  lemma PlanStateStep(sizes: seq<nat>, i: nat, groups: seq<Group>, rows: nat)
    requires i < |sizes| && PlanState(sizes, i, groups, rows)
    ensures var (groups', rows') := PlanStep(groups, rows, i, sizes[i]);
            PlanState(sizes, i + 1, groups', rows')
  {
    if sizes[i] >= COMPACT_TARGET_ROWS || rows + sizes[i] > COMPACT_TARGET_ROWS {
      PlanStateNew(sizes, i, groups, rows);
    } else {
      PlanStateGrow(sizes, i, groups, rows);
    }
  }

  method GrowPlan(groups: seq<Group>, rows: nat, i: nat, n: nat) returns (groups': seq<Group>, rows': nat)
    requires groups != []
    ensures (groups', rows') == PlanStep(groups, rows, i, n)
  {
    groups', rows' := groups, rows;
    if n >= COMPACT_TARGET_ROWS || rows + n > COMPACT_TARGET_ROWS {
      groups', rows' := groups + [Group(if n >= COMPACT_TARGET_ROWS then i + 1 else i, 0)], 0;
    }
    if n < COMPACT_TARGET_ROWS {
      var g := groups'[|groups'| - 1];
      groups', rows' := groups'[..|groups'| - 1] + [Group(g.first, g.count + 1)], rows' + n;
    }
  }

  /** Groups as the compactor grows them, in one pass over the part sizes. */
  method PlanGroups(sizes: seq<nat>) returns (groups: seq<Group>)
    ensures GoodPlan(sizes, |sizes|, groups)
  {
    groups := [Group(0, 0)];
    var rows: nat := 0;
    for i := 0 to |sizes|
      invariant PlanState(sizes, i, groups, rows)
    {
      PlanStateStep(sizes, i, groups, rows);
      groups, rows := GrowPlan(groups, rows, i, sizes[i]);
    }
  }

  // ----- what a compaction leaves

  ghost function LiveSizes(d: Directory): (sizes: seq<nat>) {
    seq(|LiveList(d)|, i requires 0 <= i < |LiveList(d)| => |RowsAt(LiveList(d)[i], d.parts)|)
  }

  function SmallParts(sizes: seq<nat>): seq<nat> { Filter(sizes, n => n < COMPACT_TARGET_ROWS) }

  /** Only groups of more than one part are merged. */
  function Mergeable(groups: seq<Group>): seq<Group> { Filter(groups, (g: Group) => g.count > 1) }

  predicate GroupsFrom(pos: nat, groups: seq<Group>, n: nat)
    decreases |groups|
  {
    groups == [] || (pos <= groups[0].first && groups[0].count >= 2 && groups[0].first + groups[0].count <= n
                     && GroupsFrom(groups[0].first + groups[0].count, groups[1..], n))
  }

  /** The live list from index `pos` on, each group replaced by its merged range. */
  function MergedLive(q: seq<Range>, groups: seq<Group>, pos: nat): seq<Range>
    requires pos <= |q| && GroupsFrom(pos, groups, |q|)
    decreases |groups|
  {
    if groups == [] then q[pos..]
    else
      var g := groups[0];
      q[pos..g.first] + [Range(q[g.first].start, q[g.first + g.count - 1].end)]
      + MergedLive(q, groups[1..], g.first + g.count)
  }

  lemma {:induction false} PlanGroupsFrom(sizes: seq<nat>, groups: seq<Group>, pos: nat)
    requires AllFit(sizes, groups) && AllJustified(sizes, groups)
    requires groups != [] ==> pos <= groups[0].first
    ensures GroupsFrom(pos, Mergeable(groups), |sizes|)
    decreases |groups|
  {
    if groups != [] {
      var g := groups[0];
      assert GroupFits(sizes, g);
      forall j | 0 < j < |groups[1..]| ensures BreakJustified(sizes, groups[1..][j - 1], groups[1..][j]) {
        assert BreakJustified(sizes, groups[j], groups[j + 1]);
      }
      if |groups| > 1 { assert BreakJustified(sizes, groups[0], groups[1]); }
      PlanGroupsFrom(sizes, groups[1..], if g.count > 1 then g.first + g.count else pos);
    }
  }

  lemma RowsOfRun(d: Directory, first: nat, count: nat)
    requires first + count <= |LiveList(d)|
    ensures |Rows(LiveList(d)[first..first + count], d.parts)| == SumSizes(LiveSizes(d), first, first + count)
  {
    hide LiveList, RowsAt, SumSizes, Rows;
    RowsOfSlice(LiveList(d), d.parts, LiveSizes(d), first, count);
  }

  lemma {:induction false} RowsOfSlice(q: seq<Range>, parts: map<Range, seq<Row>>, sizes: seq<nat>, first: nat, count: nat)
    requires first + count <= |q| == |sizes| && forall i :: 0 <= i < |q| ==> sizes[i] == |RowsAt(q[i], parts)|
    ensures |Rows(q[first..first + count], parts)| == SumSizes(sizes, first, first + count)
  {
    hide RowsAt;
    if count > 0 {
      RowsOfSlice(q, parts, sizes, first, count - 1);
      var r := q[first + count - 1];
      assert q[first..first + count] == q[first..first + count - 1] + [r];
      RowsOfOne(r, parts);
      RowsConcat(q[first..first + count - 1], [r], parts);
    }
  }

  lemma RowsOfOne(r: Range, parts: map<Range, seq<Row>>)
    ensures Rows([r], parts) == RowsAt(r, parts)
  {
    assert [r][1..] == [] && Rows([r], parts) == RowsAt(r, parts) + [];
  }

  /** With the groups `rest` to go: the parts before index `pos` of the original
      live list `q` have been replaced by `done`, the others stand as they did. */
  predicate Progress(q: seq<Range>, final: seq<Range>, rest: seq<Group>, pos: nat, done: seq<Range>, list: seq<Range>) {
    && pos <= |q| && GroupsFrom(pos, rest, |q|)
    && list == done + q[pos..]
    && final == done + MergedLive(q, rest, pos)
  }

  lemma ProgressStarts(q: seq<Range>, groups: seq<Group>)
    requires GroupsFrom(0, groups, |q|)
    ensures Progress(q, MergedLive(q, groups, 0), groups, 0, [], q)
  {
  }

  lemma ProgressEnds(q: seq<Range>, final: seq<Range>, pos: nat, done: seq<Range>, list: seq<Range>)
    requires Progress(q, final, [], pos, done, list)
    ensures list == final
  {
  }

  lemma NextGroupStands(q: seq<Range>, final: seq<Range>, rest: seq<Group>, pos: nat, done: seq<Range>, list: seq<Range>)
    requires rest != [] && Progress(q, final, rest, pos, done, list)
    ensures var g := rest[0];
            && pos <= g.first && g.count >= 2 && g.first + g.count <= |q|
            && var first := |done| + g.first - pos;
            && first + g.count <= |list|
            && list[first..first + g.count] == q[g.first..g.first + g.count]
            && list[first] == q[g.first] && list[first + g.count - 1] == q[g.first + g.count - 1]
  {
  }

  lemma NextGroupInside(q: seq<Range>, final: seq<Range>, rest: seq<Group>, pos: nat, done: seq<Range>, list: seq<Range>)
    requires rest != [] && Progress(q, final, rest, pos, done, list)
    ensures rest[0].first + rest[0].count <= |q|
  {
  }

  lemma ProgressStep(q: seq<Range>, final: seq<Range>, rest: seq<Group>, pos: nat, done: seq<Range>, list: seq<Range>,
                     g: Group, m: Range, list': seq<Range>) returns (pos': nat, done': seq<Range>)
    requires rest != [] && g == rest[0] && Progress(q, final, rest, pos, done, list)
    requires m == Range(q[g.first].start, q[g.first + g.count - 1].end)
    requires list' == Splice(list, |done| + g.first - pos, g.count, m)
    ensures Progress(q, final, rest[1..], pos', done', list')
  {
    pos', done' := g.first + g.count, done + q[pos..g.first] + [m];
    SpliceInto(done, q, pos, g, m);
    MergedLiveStep(q, rest, pos, done);
  }

  function CoveredBy(m: Range): Range -> bool { (r: Range) => Covers(m, r) }

  /** The rows of the live parts inside a range, in order. */
  ghost function RowsInside(d: Directory, m: Range): seq<Row> { Rows(Filter(LiveList(d), CoveredBy(m)), d.parts) }

  /** Parts are untouched, or hold the rows of the live parts they cover, within
      the target; whatever is not live was superseded before. */
  ghost predicate OnlyMerged(d0: Directory, d: Directory) {
    && (forall r :: r in d.parts && r in d0.parts ==> d.parts[r] == d0.parts[r])
    && (forall r :: r in d.parts && r !in d0.parts ==>
          d.parts[r] == RowsInside(d0, r) && |d.parts[r]| <= COMPACT_TARGET_ROWS)
    && (forall r :: r in d.parts ==> r in LiveList(d) || Superseded(r, d0.parts.Keys))
  }

  /** All a compaction that started from `d0` has changed so far. */
  ghost predicate CompactedFrom(d0: Directory, run: seq<Action>, d: Directory) {
    Compacting(d0, run, d) && Content(d) == Content(d0) && d.base == d0.base && OnlyMerged(d0, d)
  }

  lemma RunsCompose(d0: Directory, run: seq<Action>, d: Directory, more: seq<Action>, e: Directory)
    requires Compacting(d0, run, d) && Compacting(d, more, e)
    ensures Compacting(d0, run + more, e)
  {
    RunConcat(d0, run, more);
  }

  lemma StillLive(q: seq<Range>, inputs: seq<Range>, m: Range, q': seq<Range>)
    requires Elements(q') == Elements(q) - Elements(inputs) + {m}
    ensures m in q' && forall r :: r in q && r !in Elements(inputs) ==> r in q'
  {
    forall r | r == m || (r in q && r !in Elements(inputs)) ensures r in q' {
      assert r in Elements(q) || r == m;
      assert r in Elements(q');
    }
  }

  /** Replacing the live inputs by a merged part within the target keeps
      `OnlyMerged`. */
  lemma OnlyMergedStep(d0: Directory, d: Directory, inputs: seq<Range>, m: Range, rows: seq<Row>, e: Directory)
    requires OnlyMerged(d0, d)
    requires Elements(LiveList(e)) == Elements(LiveList(d)) - Elements(inputs) + {m}
    requires e.parts == d.parts[m := rows] - Elements(inputs)
    requires |rows| <= COMPACT_TARGET_ROWS && m !in d0.parts && rows == RowsInside(d0, m)
    ensures OnlyMerged(d0, e)
  {
    StillLive(LiveList(d), inputs, m, LiveList(e));
  }

  /** What a completed group merge leaves. */
  lemma MergedGroup(d: Directory, run: seq<Action>, e: Directory, first: nat, inputs: seq<Range>)
    requires Shape(d) && Enabled(d, PublishMerged(first, |inputs|))
    requires inputs == MergeInputs(d, first, |inputs|)
    requires Merging(d, run, e, first, inputs, |inputs|)
    ensures var m := MergedRange(d, first, |inputs|);
            && Compacting(d, run, e) && Content(e) == Content(d) && e.base == d.base
            && LiveList(e) == Splice(LiveList(d), first, |inputs|, m)
            && e.parts == d.parts[m := Rows(inputs, d.parts)] - Elements(inputs)
  {
    hide Shape, LiveList, Content, Rows, MergeInputs, Compacting;
    MergedRangeFits(d, first, |inputs|);
    PublishMergedLive(d, first, |inputs|);
    assert inputs[..|inputs|] == inputs;
  }

  lemma {:induction false} GroupsFromSuffix(pos: nat, groups: seq<Group>, n: nat, k: nat)
    requires GroupsFrom(pos, groups, n) && k < |groups|
    ensures groups[k].count >= 2 && groups[k].first + groups[k].count <= n && pos <= groups[k].first
    decreases |groups|
  {
    if k > 0 { GroupsFromSuffix(groups[0].first + groups[0].count, groups[1..], n, k - 1); }
  }

  /** A planned group still holds its rows, and the merged name is new. */
  lemma NextGroupRows(d0: Directory, d: Directory, g: Group)
    requires Shape(d0) && OnlyMerged(d0, d) && g.count >= 2 && g.first + g.count <= |LiveList(d0)|
    requires SumSizes(LiveSizes(d0), g.first, g.first + g.count) <= COMPACT_TARGET_ROWS
    requires forall r :: r in LiveList(d0)[g.first..g.first + g.count] ==> r in LiveList(d)
    ensures var q := LiveList(d0);
            && Range(q[g.first].start, q[g.first + g.count - 1].end) !in d0.parts
            && |Rows(q[g.first..g.first + g.count], d.parts)| <= COMPACT_TARGET_ROWS
            && Rows(q[g.first..g.first + g.count], d.parts)
               == RowsInside(d0, Range(q[g.first].start, q[g.first + g.count - 1].end))
  {
    hide Shape, LiveList, SumSizes, LiveSizes, Rows, Covers;
    var q := LiveList(d0);
    var inputs := q[g.first..g.first + g.count];
    MergedRangeFits(d0, g.first, g.count);
    RowsOfRun(d0, g.first, g.count);
    LiveListMeaning(d);
    LiveListMeaning(d0);
    forall r | r in inputs ensures RowsAt(r, d.parts) == RowsAt(r, d0.parts) {
      assert r in q && r in LiveList(d);
    }
    RowsAgree(inputs, d.parts, d0.parts);
    LiveWellFormed(d0);
    InsideSlice(q, g.first, g.count, MergedRange(d0, g.first, g.count));
  }

  lemma NotBoth(m: Range, r: Range)
    requires r.start <= r.end
    ensures !(Covers(m, r) && Apart(m, r))
  {
  }

  lemma LiveWellFormed(d: Directory)
    requires Shape(d)
    ensures forall i :: 0 <= i < |LiveList(d)| ==> LiveList(d)[i].start <= LiveList(d)[i].end
  {
    hide LiveList;
    LiveSeparated(d);
  }

  /** Of a live list the merged range covers exactly the slice it replaces. */
  lemma InsideSlice(q: seq<Range>, first: nat, count: nat, m: Range)
    requires first + count <= |q|
    requires forall i :: 0 <= i < |q| ==> if first <= i < first + count then Covers(m, q[i]) else Apart(m, q[i])
    requires forall i :: 0 <= i < |q| ==> q[i].start <= q[i].end
    ensures Filter(q, CoveredBy(m)) == q[first..first + count]
  {
    hide Filter, Covers, Apart;
    forall i | 0 <= i < |q| ensures CoveredBy(m)(q[i]) <==> first <= i < first + count { NotBoth(m, q[i]); }
    FilterRun(q, CoveredBy(m), first, count);
  }

  lemma CompactedFromMeans(d0: Directory, run: seq<Action>, d: Directory)
    requires CompactedFrom(d0, run, d)
    ensures Shape(d) && OnlyMerged(d0, d) && Separated(LiveList(d))
  {
    LiveSeparated(d);
  }

  lemma SliceMembers(q: seq<Range>, first: nat, count: nat)
    requires first + count <= |q|
    ensures forall r :: r in q[first..first + count] ==> r in q
  {
  }

  /** The next group can be merged where it stands. */
  lemma GroupReady(d0: Directory, run: seq<Action>, d: Directory, g: Group, first: nat, inputs: seq<Range>)
    requires Shape(d0) && CompactedFrom(d0, run, d) && GroupFits(LiveSizes(d0), g) && g.count >= 2
    requires g.first + g.count <= |LiveList(d0)| && inputs == LiveList(d0)[g.first..g.first + g.count]
    requires first + g.count <= |LiveList(d)| && inputs == LiveList(d)[first..first + g.count]
    ensures Shape(d) && Enabled(d, PublishMerged(first, |inputs|)) && inputs == MergeInputs(d, first, |inputs|)
    ensures Range(inputs[0].start, inputs[|inputs| - 1].end) !in d0.parts
    ensures |Rows(inputs, d.parts)| <= COMPACT_TARGET_ROWS
    ensures Rows(inputs, d.parts) == RowsInside(d0, Range(inputs[0].start, inputs[|inputs| - 1].end))
    ensures Elements(Splice(LiveList(d), first, |inputs|, Range(inputs[0].start, inputs[|inputs| - 1].end)))
         == Elements(LiveList(d)) - Elements(inputs) + {Range(inputs[0].start, inputs[|inputs| - 1].end)}
  {
    hide CompactedFrom, OnlyMerged, Shape, Splice, LiveList, Separated, Elements, Live, Rows, LiveSizes, SumSizes;
    CompactedFromMeans(d0, run, d);
    SliceMembers(LiveList(d), first, g.count);
    NextGroupRows(d0, d, g);
    SpliceElements(LiveList(d), first, |inputs|, Range(inputs[0].start, inputs[|inputs| - 1].end));
  }

  lemma CompactedFromStep(d0: Directory, run: seq<Action>, d: Directory, inputs: seq<Range>,
                          more: seq<Action>, e: Directory)
    requires CompactedFrom(d0, run, d) && Compacting(d, more, e) && Content(e) == Content(d) && e.base == d.base
    requires inputs != []
    requires |Rows(inputs, d.parts)| <= COMPACT_TARGET_ROWS
    requires Range(inputs[0].start, inputs[|inputs| - 1].end) !in d0.parts
    requires Rows(inputs, d.parts) == RowsInside(d0, Range(inputs[0].start, inputs[|inputs| - 1].end))
    requires Elements(LiveList(e)) == Elements(LiveList(d)) - Elements(inputs) + {Range(inputs[0].start, inputs[|inputs| - 1].end)}
    requires e.parts == d.parts[Range(inputs[0].start, inputs[|inputs| - 1].end) := Rows(inputs, d.parts)] - Elements(inputs)
    ensures CompactedFrom(d0, run + more, e)
  {
    OnlyMergedStep(d0, d, inputs, Range(inputs[0].start, inputs[|inputs| - 1].end), Rows(inputs, d.parts), e);
    RunsCompose(d0, run, d, more, e);
  }

  lemma CompactedFromStarts(d: Directory)
    requires Shape(d)
    ensures CompactedFrom(d, [], d)
  {
    LiveListMeaning(d);
  }

  lemma SpliceInto(done: seq<Range>, q: seq<Range>, pos: nat, g: Group, m: Range)
    requires pos <= g.first && g.first + g.count <= |q|
    ensures Splice(done + q[pos..], |done| + g.first - pos, g.count, m)
         == (done + q[pos..g.first] + [m]) + q[g.first + g.count..]
  {
  }

  lemma MergedLiveStep(q: seq<Range>, groups: seq<Group>, pos: nat, done: seq<Range>)
    requires groups != [] && pos <= |q| && GroupsFrom(pos, groups, |q|)
    ensures var g := groups[0];
            done + MergedLive(q, groups, pos)
            == (done + q[pos..g.first] + [Range(q[g.first].start, q[g.first + g.count - 1].end)])
               + MergedLive(q, groups[1..], g.first + g.count)
  {
  }

  lemma {:induction false} MergeableFits(sizes: seq<nat>, groups: seq<Group>)
    requires AllFit(sizes, groups)
    ensures AllFit(sizes, Mergeable(groups))
  {
    FilterMembers(groups, (g: Group) => g.count > 1);
    forall j | 0 <= j < |Mergeable(groups)| ensures GroupFits(sizes, Mergeable(groups)[j]) {
      assert Mergeable(groups)[j] in Mergeable(groups);
    }
  }
}
