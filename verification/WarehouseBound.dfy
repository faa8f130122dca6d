/** How many parts a compaction leaves: any two neighbours hold the target between
    them, so their number is bounded by the rows of the table. */
module WarehouseBound {
  import opened StableSorting
  import opened WarehouseRows
  import opened WarehouseParts
  import opened WarehouseCompaction

  /** Any two neighbouring sizes add up to the target. */
  predicate Heavy(sizes: seq<nat>) {
    forall i :: 0 <= i < |sizes| - 1 ==> sizes[i] + sizes[i + 1] >= COMPACT_TARGET_ROWS
  }

  /** At most two parts for each target's worth of rows, and one more. */
  lemma {:induction false} HeavyBound(sizes: seq<nat>, n: nat)
    requires Heavy(sizes) && n <= |sizes|
    ensures n * COMPACT_TARGET_ROWS <= 2 * SumSizes(sizes, 0, n) + COMPACT_TARGET_ROWS
  {
    if n > 1 {
      HeavyBound(sizes, n - 2);
      assert sizes[n - 2] + sizes[n - 1] >= COMPACT_TARGET_ROWS;
      assert SumSizes(sizes, 0, n) == SumSizes(sizes, 0, n - 2) + sizes[n - 2] + sizes[n - 1];
    }
  }

  // ----- the sizes a plan leaves

  /** The sizes from index `pos` on, each group replaced by its sum. */
  function MergedSizes(sizes: seq<nat>, groups: seq<Group>, pos: nat): seq<nat>
    requires pos <= |sizes| && InOrder(sizes, groups, pos)
    decreases |groups|
  {
    if groups == [] then sizes[pos..]
    else
      var g := groups[0];
      if g.count == 0 then MergedSizes(sizes, groups[1..], pos)
      else sizes[pos..g.first] + [SumSizes(sizes, g.first, g.first + g.count)]
           + MergedSizes(sizes, groups[1..], g.first + g.count)
  }

  /** The groups start at `pos` or later, one after another. */
  predicate InOrder(sizes: seq<nat>, groups: seq<Group>, pos: nat)
    decreases |groups|
  {
    groups == [] || (pos <= groups[0].first && groups[0].first + groups[0].count <= |sizes|
                     && InOrder(sizes, groups[1..], if groups[0].count == 0 then pos else groups[0].first + groups[0].count))
  }

  lemma {:induction false} PlanInOrder(sizes: seq<nat>, groups: seq<Group>, pos: nat)
    requires AllFit(sizes, groups) && AllJustified(sizes, groups)
    requires groups != [] ==> pos <= groups[0].first
    ensures InOrder(sizes, groups, pos)
    decreases |groups|
  {
    if groups != [] {
      assert GroupFits(sizes, groups[0]);
      RestJustified(sizes, groups);
      PlanInOrder(sizes, groups[1..], if groups[0].count == 0 then pos else groups[0].first + groups[0].count);
    }
  }

  lemma RestJustified(sizes: seq<nat>, groups: seq<Group>)
    requires groups != [] && AllFit(sizes, groups) && AllJustified(sizes, groups)
    ensures AllFit(sizes, groups[1..]) && AllJustified(sizes, groups[1..])
    ensures |groups| > 1 ==> BreakJustified(sizes, groups[0], groups[1])
  {
    hide SumSizes, GroupFits, BreakJustified;
    forall j | 0 <= j < |groups[1..]| ensures GroupFits(sizes, groups[1..][j]) { assert groups[1..][j] == groups[j + 1]; }
    forall j | 0 < j < |groups[1..]| ensures BreakJustified(sizes, groups[1..][j - 1], groups[1..][j]) {
      assert BreakJustified(sizes, groups[j], groups[j + 1]);
    }
  }

  /** Leaving out the groups of one part or none changes no size. */
  lemma {:induction false} MergeableSizes(sizes: seq<nat>, groups: seq<Group>, pos: nat)
    requires pos <= |sizes| && InOrder(sizes, groups, pos)
    ensures InOrder(sizes, Mergeable(groups), pos)
    ensures MergedSizes(sizes, Mergeable(groups), pos) == MergedSizes(sizes, groups, pos)
    decreases |groups|
  {
    hide Mergeable, SumSizes, InOrder, MergedSizes;
    MergeableStep(groups);
    if groups == [] {
      NoGroups(sizes, pos);
    } else {
      var g, rest := groups[0], groups[1..];
      assert groups == [g] + rest;
      GroupStep(sizes, g, rest, pos);
      if g.count == 0 {
        MergeableSizes(sizes, rest, pos);
      } else {
        MergeableSizes(sizes, rest, g.first + g.count);
        if g.count == 1 {
          OnePartGroup(sizes, g, Mergeable(rest), pos);
        } else {
          GroupStep(sizes, g, Mergeable(rest), pos);
        }
      }
    }
  }

  lemma NoGroups(sizes: seq<nat>, pos: nat)
    requires pos <= |sizes|
    ensures InOrder(sizes, [], pos) && MergedSizes(sizes, [], pos) == sizes[pos..]
  {
  }

  lemma GroupStep(sizes: seq<nat>, g: Group, tail: seq<Group>, pos: nat)
    requires pos <= |sizes|
    ensures InOrder(sizes, [g] + tail, pos)
            <==> pos <= g.first && g.first + g.count <= |sizes| && InOrder(sizes, tail, if g.count == 0 then pos else g.first + g.count)
    ensures InOrder(sizes, [g] + tail, pos) ==>
              MergedSizes(sizes, [g] + tail, pos)
              == if g.count == 0 then MergedSizes(sizes, tail, pos)
                 else sizes[pos..g.first] + [SumSizes(sizes, g.first, g.first + g.count)] + MergedSizes(sizes, tail, g.first + g.count)
  {
    hide SumSizes;
    assert ([g] + tail)[1..] == tail;
  }

  lemma OnePartGroup(sizes: seq<nat>, g: Group, tail: seq<Group>, pos: nat)
    requires g.count == 1 && pos <= g.first < |sizes| && InOrder(sizes, tail, g.first + 1)
    ensures InOrder(sizes, tail, pos)
    ensures MergedSizes(sizes, tail, pos)
            == sizes[pos..g.first] + [SumSizes(sizes, g.first, g.first + 1)] + MergedSizes(sizes, tail, g.first + 1)
  {
    hide InOrder, MergedSizes, SumSizes;
    SumOne(sizes, g.first);
    EarlierStart(sizes, tail, pos, g.first + 1);
    assert sizes[pos..g.first + 1] == sizes[pos..g.first] + [sizes[g.first]];
  }

  lemma MergeableStep(groups: seq<Group>)
    ensures groups == [] ==> Mergeable(groups) == []
    ensures groups != [] ==> Mergeable(groups) == if groups[0].count > 1 then [groups[0]] + Mergeable(groups[1..]) else Mergeable(groups[1..])
  {
  }

  lemma Spliced(sizes: seq<nat>, pos: nat, later: nat, first: nat, sum: seq<nat>, rest: seq<nat>)
    requires pos <= later <= first <= |sizes|
    ensures sizes[pos..first] + sum + rest == sizes[pos..later] + (sizes[later..first] + sum + rest)
  {
    assert sizes[pos..first] == sizes[pos..later] + sizes[later..first];
  }

  /** Starting earlier only puts the sizes passed over in front. */
  lemma {:induction false} EarlierStart(sizes: seq<nat>, groups: seq<Group>, pos: nat, later: nat)
    requires pos <= later <= |sizes| && InOrder(sizes, groups, later)
    ensures InOrder(sizes, groups, pos)
    ensures MergedSizes(sizes, groups, pos) == sizes[pos..later] + MergedSizes(sizes, groups, later)
    decreases |groups|
  {
    hide SumSizes, InOrder, MergedSizes;
    if groups == [] {
      NoGroups(sizes, pos);
      NoGroups(sizes, later);
      assert sizes[pos..] == sizes[pos..later] + sizes[later..];
    } else {
      var g, rest := groups[0], groups[1..];
      assert groups == [g] + rest;
      GroupStep(sizes, g, rest, pos);
      GroupStep(sizes, g, rest, later);
      if g.count == 0 {
        EarlierStart(sizes, rest, pos, later);
      } else {
        Spliced(sizes, pos, later, g.first, [SumSizes(sizes, g.first, g.first + g.count)], MergedSizes(sizes, rest, g.first + g.count));
      }
    }
  }

  /** Every small part from index `pos` on is in a group. */
  predicate SmallFrom(sizes: seq<nat>, groups: seq<Group>, pos: nat) {
    forall i :: pos <= i < |sizes| && sizes[i] < COMPACT_TARGET_ROWS ==> InPlan(groups, i)
  }

  /** What comes before index `pos` and what follows it add up to the target. */
  predicate Backed(sizes: seq<nat>, groups: seq<Group>, pos: nat, prev: nat) {
    || prev >= COMPACT_TARGET_ROWS || groups == [] || pos < groups[0].first
    || (groups[0].count > 0 && groups[0].first < |sizes| && prev + sizes[groups[0].first] >= COMPACT_TARGET_ROWS)
  }

  lemma HeavyJoin(prev: nat, gap: seq<nat>, x: nat, rest: seq<nat>)
    requires forall i :: 0 <= i < |gap| ==> gap[i] >= COMPACT_TARGET_ROWS
    requires gap == [] ==> prev + x >= COMPACT_TARGET_ROWS
    requires Heavy([x] + rest)
    ensures Heavy([prev] + (gap + [x] + rest))
  {
    var s, t, n := [prev] + (gap + [x] + rest), [x] + rest, |gap|;
    forall i | 0 <= i < |s| - 1 ensures s[i] + s[i + 1] >= COMPACT_TARGET_ROWS {
      if i < n {
        assert s[i + 1] == gap[i];
      } else if i == n {
        assert s[i + 1] == x && s[i] == if n == 0 then prev else gap[n - 1];
      } else {
        assert s[i] == t[i - n - 1] && s[i + 1] == t[i - n];
      }
    }
  }

  lemma HeavyTail(prev: nat, rest: seq<nat>)
    requires forall i :: 0 <= i < |rest| ==> rest[i] >= COMPACT_TARGET_ROWS
    ensures Heavy([prev] + rest)
  {
    forall i | 0 <= i < |[prev] + rest| - 1 ensures ([prev] + rest)[i] + ([prev] + rest)[i + 1] >= COMPACT_TARGET_ROWS {
      assert ([prev] + rest)[i + 1] == rest[i];
    }
  }

  lemma {:induction false} PartOfSum(sizes: seq<nat>, lo: nat, hi: nat)
    requires lo < hi <= |sizes|
    ensures sizes[lo] <= SumSizes(sizes, lo, hi)
  {
    if lo + 1 < hi { PartOfSum(sizes, lo, hi - 1); }
  }

  lemma TwoOfSum(sizes: seq<nat>, lo: nat, hi: nat)
    requires lo + 2 <= hi <= |sizes|
    ensures sizes[lo] + sizes[hi - 1] <= SumSizes(sizes, lo, hi)
  {
    PartOfSum(sizes, lo, hi - 1);
  }

  /** Before the first group no part is small. */
  lemma GapIsFull(sizes: seq<nat>, groups: seq<Group>, pos: nat, i: nat)
    requires InOrder(sizes, groups, pos) && SmallFrom(sizes, groups, pos) && AllFit(sizes, groups) && AllJustified(sizes, groups)
    requires pos <= i < |sizes| && (groups != [] ==> i < groups[0].first)
    ensures sizes[i] >= COMPACT_TARGET_ROWS
  {
    hide InOrder, SumSizes;
    if sizes[i] < COMPACT_TARGET_ROWS {
      var j :| 0 <= j < |groups| && Holds(groups[j], i);
      FirstIsLeast(sizes, groups, j);
      assert false;
    }
  }

  lemma {:induction false} FirstIsLeast(sizes: seq<nat>, groups: seq<Group>, j: nat)
    requires AllFit(sizes, groups) && AllJustified(sizes, groups) && j < |groups|
    ensures groups[0].first <= groups[j].first
  {
    hide SumSizes;
    if j > 0 {
      FirstIsLeast(sizes, groups, j - 1);
      assert BreakJustified(sizes, groups[j - 1], groups[j]);
    }
  }

  lemma SmallInRest(sizes: seq<nat>, groups: seq<Group>, pos: nat)
    requires groups != [] && SmallFrom(sizes, groups, pos)
    ensures SmallFrom(sizes, groups[1..], if groups[0].count == 0 then pos else
                                          if pos <= groups[0].first + groups[0].count then groups[0].first + groups[0].count else pos)
  {
    var g := groups[0];
    forall i | pos <= i < |sizes| && sizes[i] < COMPACT_TARGET_ROWS && (g.count == 0 || g.first + g.count <= i)
      ensures InPlan(groups[1..], i)
    {
      var j :| 0 <= j < |groups| && Holds(groups[j], i);
      assert Holds(groups[1..][j - 1], i);
    }
  }

  /** A plan that leaves out no small part and breaks only where it must leaves
      neighbours that add up to the target. */
  lemma {:induction false} PlanIsHeavy(sizes: seq<nat>, groups: seq<Group>, pos: nat, prev: nat)
    requires pos <= |sizes| && InOrder(sizes, groups, pos) && SmallFrom(sizes, groups, pos)
    requires AllFit(sizes, groups) && AllJustified(sizes, groups) && Backed(sizes, groups, pos, prev)
    ensures Heavy([prev] + MergedSizes(sizes, groups, pos))
    decreases |groups|
  {
    hide SmallFrom, AllFit, AllJustified, SumSizes, Heavy, GroupFits, InOrder, MergedSizes;
    if groups == [] {
      NoGroups(sizes, pos);
      forall i | 0 <= i < |sizes[pos..]| ensures sizes[pos..][i] >= COMPACT_TARGET_ROWS { GapIsFull(sizes, groups, pos, pos + i); }
      HeavyTail(prev, sizes[pos..]);
    } else {
      var g, rest := groups[0], groups[1..];
      RestJustified(sizes, groups);
      SmallInRest(sizes, groups, pos);
      RestStarts(sizes, groups);
      assert groups == [g] + rest;
      GroupStep(sizes, g, rest, pos);
      if g.count == 0 {
        PlanIsHeavy(sizes, rest, pos, prev);
      } else {
        var sum, end := SumSizes(sizes, g.first, g.first + g.count), g.first + g.count;
        PlanIsHeavy(sizes, rest, end, sum);
        PartOfSum(sizes, g.first, end);
        FullGap(sizes, groups, pos);
        HeavyJoin(prev, sizes[pos..g.first], sum, MergedSizes(sizes, rest, end));
      }
    }
  }

  lemma FullGap(sizes: seq<nat>, groups: seq<Group>, pos: nat)
    requires groups != [] && pos <= groups[0].first <= |sizes|
    requires InOrder(sizes, groups, pos) && SmallFrom(sizes, groups, pos) && AllFit(sizes, groups) && AllJustified(sizes, groups)
    ensures forall i :: 0 <= i < |sizes[pos..groups[0].first]| ==> sizes[pos..groups[0].first][i] >= COMPACT_TARGET_ROWS
  {
    hide SmallFrom, AllFit, AllJustified, SumSizes, InOrder;
    var gap := sizes[pos..groups[0].first];
    forall i | 0 <= i < |gap| ensures gap[i] >= COMPACT_TARGET_ROWS { GapIsFull(sizes, groups, pos, pos + i); }
  }

  /** How the next group follows the first. */
  lemma RestStarts(sizes: seq<nat>, groups: seq<Group>)
    requires groups != [] && AllFit(sizes, groups) && AllJustified(sizes, groups)
    ensures groups[0].first + groups[0].count <= |sizes|
    ensures |groups| > 1 ==>
              var g, h := groups[0], groups[1];
              && g.first + g.count <= h.first && h.first + h.count <= |sizes|
              && (g.first + g.count < h.first
                  || (h.count > 0 && SumSizes(sizes, g.first, g.first + g.count) + sizes[h.first] > COMPACT_TARGET_ROWS))
  {
    assert GroupFits(sizes, groups[0]);
    if |groups| > 1 { assert BreakJustified(sizes, groups[0], groups[1]) && GroupFits(sizes, groups[1]); }
  }

  // ----- what a triggered compaction leaves

  /** The rows a merged or untouched live part holds. */
  lemma LivePartSize(d0: Directory, run: seq<Action>, d: Directory, i: nat)
    requires CompactedFrom(d0, run, d) && i < |LiveList(d)|
    ensures LiveSizes(d)[i]
            == if LiveList(d)[i] in d0.parts then |RowsAt(LiveList(d)[i], d0.parts)| else |RowsInside(d0, LiveList(d)[i])|
  {
    hide RowsInside, LiveList, Compacting;
    LiveMember(d, i);
  }

  /** A group's merged range holds as many rows as the group did. */
  lemma GroupSize(d0: Directory, g: Group)
    requires Shape(d0) && g.count >= 2 && g.first + g.count <= |LiveList(d0)|
    ensures var m := Range(LiveList(d0)[g.first].start, LiveList(d0)[g.first + g.count - 1].end);
            m !in d0.parts && |RowsInside(d0, m)| == SumSizes(LiveSizes(d0), g.first, g.first + g.count)
  {
    hide LiveList, SumSizes, LiveSizes, Rows, Covers, Apart;
    MergedRangeFits(d0, g.first, g.count);
    LiveWellFormed(d0);
    InsideSlice(LiveList(d0), g.first, g.count, MergedRange(d0, g.first, g.count));
    RowsOfRun(d0, g.first, g.count);
  }

  /** How many rows of the starting table a range stands for. */
  ghost function RangeSize(d0: Directory, r: Range): nat {
    if r in d0.parts then |RowsAt(r, d0.parts)| else |RowsInside(d0, r)|
  }

  ghost function RangeSizes(d0: Directory, q: seq<Range>): seq<nat> {
    seq(|q|, i requires 0 <= i < |q| => RangeSize(d0, q[i]))
  }

  lemma RangeSizesConcat(d0: Directory, p: seq<Range>, q: seq<Range>)
    ensures RangeSizes(d0, p + q) == RangeSizes(d0, p) + RangeSizes(d0, q)
  {
    hide RangeSize;
  }

  lemma LiveRangeSizes(d0: Directory, lo: nat, hi: nat)
    requires lo <= hi <= |LiveList(d0)|
    ensures RangeSizes(d0, LiveList(d0)[lo..hi]) == LiveSizes(d0)[lo..hi]
  {
    hide LiveList, RowsInside;
    forall i | lo <= i < hi ensures LiveList(d0)[i] in d0.parts { LiveMember(d0, i); }
  }

  /** The sizes of the merged list are the merged sizes. */
  lemma {:induction false} MergedListSizes(d0: Directory, groups: seq<Group>, pos: nat)
    requires Shape(d0) && pos <= |LiveList(d0)| && GroupsFrom(pos, groups, |LiveList(d0)|)
    ensures InOrder(LiveSizes(d0), groups, pos)
    ensures RangeSizes(d0, MergedLive(LiveList(d0), groups, pos)) == MergedSizes(LiveSizes(d0), groups, pos)
    decreases |groups|
  {
    hide LiveList, LiveSizes, RangeSizes, RangeSize, SumSizes, RowsInside, Shape, InOrder, MergedSizes, MergedLive;
    var q := LiveList(d0);
    SizesMatch(d0);
    if groups == [] {
      NoGroups(LiveSizes(d0), pos);
      LiveRangeSizes(d0, pos, |q|);
      NothingMerged(q, pos);
      assert LiveSizes(d0)[pos..] == LiveSizes(d0)[pos..|q|];
    } else {
      var g, rest := groups[0], groups[1..];
      var m, end := Range(q[g.first].start, q[g.first + g.count - 1].end), g.first + g.count;
      assert groups == [g] + rest;
      MergedListSizes(d0, rest, end);
      GroupStep(LiveSizes(d0), g, rest, pos);
      LiveRangeSizes(d0, pos, g.first);
      MergedRangeSize(d0, g);
      OneMerged(q, groups, pos);
      RangeSizesConcat(d0, q[pos..g.first] + [m], MergedLive(q, rest, end));
      RangeSizesConcat(d0, q[pos..g.first], [m]);
    }
  }

  lemma NothingMerged(q: seq<Range>, pos: nat)
    requires pos <= |q|
    ensures MergedLive(q, [], pos) == q[pos..|q|]
  {
  }

  lemma OneMerged(q: seq<Range>, groups: seq<Group>, pos: nat)
    requires groups != [] && pos <= |q| && GroupsFrom(pos, groups, |q|)
    ensures var g := groups[0];
            MergedLive(q, groups, pos)
            == q[pos..g.first] + [Range(q[g.first].start, q[g.first + g.count - 1].end)]
               + MergedLive(q, groups[1..], g.first + g.count)
  {
  }

  lemma MergedRangeSize(d0: Directory, g: Group)
    requires Shape(d0) && g.count >= 2 && g.first + g.count <= |LiveList(d0)|
    ensures |LiveSizes(d0)| == |LiveList(d0)|
    ensures RangeSizes(d0, [Range(LiveList(d0)[g.first].start, LiveList(d0)[g.first + g.count - 1].end)])
            == [SumSizes(LiveSizes(d0), g.first, g.first + g.count)]
  {
    hide LiveList, LiveSizes, SumSizes, RowsInside;
    SizesMatch(d0);
    GroupSize(d0, g);
  }

  lemma CompactedSizes(d0: Directory, run: seq<Action>, d: Directory)
    requires CompactedFrom(d0, run, d)
    ensures LiveSizes(d) == RangeSizes(d0, LiveList(d))
  {
    hide CompactedFrom, LiveList, RowsInside;
    forall i | 0 <= i < |LiveList(d)| ensures LiveSizes(d)[i] == RangeSize(d0, LiveList(d)[i]) { LivePartSize(d0, run, d, i); }
  }

  /** A triggered compaction bounds the number of parts: neighbours hold the target
      between them, so there are at most two parts for each target's worth of
      rows, and one more. */
  lemma CompactionBoundsParts(d0: Directory, run: seq<Action>, d: Directory, plan: seq<Group>)
    requires Shape(d0) && CompactedFrom(d0, run, d)
    requires GoodPlan(LiveSizes(d0), |LiveSizes(d0)|, plan) && GroupsFrom(0, Mergeable(plan), |LiveList(d0)|)
    requires LiveList(d) == MergedLive(LiveList(d0), Mergeable(plan), 0)
    ensures Heavy(LiveSizes(d))
    ensures |LiveList(d)| * COMPACT_TARGET_ROWS <= 2 * |Rows(LiveList(d), d.parts)| + COMPACT_TARGET_ROWS
  {
    hide CompactedFrom, LiveList, Mergeable, MergedLive, SumSizes, Heavy, AllFit, AllJustified, Rows, InOrder, RangeSizes, Shape, LiveSizes;
    var sizes := LiveSizes(d0);
    SizesMatch(d0);
    SizesMatch(d);
    PlanInOrder(sizes, plan, 0);
    CompactedSizes(d0, run, d);
    MergedListSizes(d0, Mergeable(plan), 0);
    MergeableSizes(sizes, plan, 0);
    PlanIsHeavy(sizes, plan, 0, COMPACT_TARGET_ROWS);
    HeavyRest(COMPACT_TARGET_ROWS, LiveSizes(d));
    HeavyBound(LiveSizes(d), |LiveList(d)|);
    RowsOfRun(d, 0, |LiveList(d)|);
    assert LiveList(d)[0..0 + |LiveList(d)|] == LiveList(d);
  }

  lemma SizesMatch(d: Directory)
    ensures |LiveSizes(d)| == |LiveList(d)|
  {
  }

  lemma HeavyRest(prev: nat, rest: seq<nat>)
    requires Heavy([prev] + rest)
    ensures Heavy(rest)
  {
    var s := [prev] + rest;
    forall i | 0 <= i < |rest| - 1 ensures rest[i] + rest[i + 1] >= COMPACT_TARGET_ROWS {
      assert s[i + 1] == rest[i] && s[i + 2] == rest[i + 1];
    }
  }

  /** Enough small parts to trigger a pass, no two of which fit together: every
      plan merges nothing. */
  lemma TriggeredPassMergesNothing(plan: seq<Group>)
    ensures var sizes := seq(COMPACT_TRIGGER_PARTS, _ => 30_000);
            && |SmallParts(sizes)| >= COMPACT_TRIGGER_PARTS
            && (GoodPlan(sizes, |sizes|, plan) ==> Mergeable(plan) == [])
  {
    var sizes: seq<nat> := seq(COMPACT_TRIGGER_PARTS, _ => 30_000);
    FilterAll(sizes, n => n < COMPACT_TARGET_ROWS);
    if GoodPlan(sizes, |sizes|, plan) {
      forall g | g in plan ensures g.count <= 1 {
        assert GroupFits(sizes, g);
        if g.count > 1 { TwoOfSum(sizes, g.first, g.first + g.count); }
      }
      FilterNone(plan, (g: Group) => g.count > 1);
    }
  }
}
