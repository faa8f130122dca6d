/** Stable sorting and filtering of sequences, shared by the append store and
    the versioned outcome history.  `leq` is any total preorder, so rows may
    tie; a stable sort keeps tied rows in their original order. */
module StableSorting {

  ghost predicate TotalPreorder<T(!new)>(leq: (T, T) -> bool) {
    && (forall a, b :: leq(a, b) || leq(b, a))
    && (forall a, b, c :: leq(a, b) && leq(b, c) ==> leq(a, c))
  }

  predicate Sorted<T>(s: seq<T>, leq: (T, T) -> bool) {
    forall i, j :: 0 <= i < j < |s| ==> leq(s[i], s[j])
  }

  /** `x` goes in front of the first element that is not strictly below it. */
  function Insert<T>(x: T, s: seq<T>, leq: (T, T) -> bool): seq<T> {
    if s == [] || leq(x, s[0]) then [x] + s else [s[0]] + Insert(x, s[1..], leq)
  }

  /** `s` inserted, last element first, into the sorted sequence `onto`. */
  function InsertAll<T>(s: seq<T>, onto: seq<T>, leq: (T, T) -> bool): seq<T> {
    if s == [] then onto else Insert(s[0], InsertAll(s[1..], onto, leq), leq)
  }

  function StableSort<T>(s: seq<T>, leq: (T, T) -> bool): seq<T> {
    InsertAll(s, [], leq)
  }

  function Filter<T>(s: seq<T>, p: T -> bool): seq<T> {
    if s == [] then []
    else if p(s[0]) then [s[0]] + Filter(s[1..], p)
    else Filter(s[1..], p)
  }

  // ----- filtering

  lemma {:induction false} FilterConcat<T>(s: seq<T>, t: seq<T>, p: T -> bool)
    ensures Filter(s + t, p) == Filter(s, p) + Filter(t, p)
  {
    if s == [] {
      assert s + t == t;
    } else {
      assert (s + t)[1..] == s[1..] + t;
      FilterConcat(s[1..], t, p);
    }
  }

  /** One more element, as a loop that collects the selected ones meets it. */
  lemma FilterStep<T>(s: seq<T>, i: nat, p: T -> bool)
    requires i < |s|
    ensures Filter(s[..i + 1], p) == Filter(s[..i], p) + if p(s[i]) then [s[i]] else []
  {
    assert s[..i + 1] == s[..i] + [s[i]];
    FilterConcat(s[..i], [s[i]], p);
    assert [s[i]][1..] == [];
  }

  lemma {:induction false} FilterMembers<T>(s: seq<T>, p: T -> bool)
    ensures forall x :: x in Filter(s, p) <==> x in s && p(x)
  {
    if s != [] {
      FilterMembers(s[1..], p);
      assert s == [s[0]] + s[1..];
    }
  }

  lemma {:induction false} FilterAll<T>(s: seq<T>, p: T -> bool)
    requires forall x :: x in s ==> p(x)
    ensures Filter(s, p) == s
  {
    if s != [] {
      assert forall x :: x in s[1..] ==> x in s;
      FilterAll(s[1..], p);
    }
  }

  lemma {:induction false} FilterNone<T>(s: seq<T>, p: T -> bool)
    requires forall x :: x in s ==> !p(x)
    ensures Filter(s, p) == []
  {
    if s != [] {
      assert forall x :: x in s[1..] ==> x in s;
      FilterNone(s[1..], p);
    }
  }

  /** Two predicates that agree on the elements select the same subsequence. */
  /** A predicate that holds of one run of consecutive elements keeps that run. */
  lemma {:induction false} FilterRun<T>(s: seq<T>, p: T -> bool, first: nat, count: nat)
    requires first + count <= |s| && forall i :: 0 <= i < |s| ==> (p(s[i]) <==> first <= i < first + count)
    ensures Filter(s, p) == s[first..first + count]
  {
    hide Filter;
    if s == [] {
      FilterNone(s, p);
    } else {
      var n := |s| - 1;
      FilterStep(s, n, p);
      assert s[..n + 1] == s;
      if first + count == |s| && count > 0 {
        FilterRun(s[..n], p, first, count - 1);
        assert s[first..first + count] == s[..n][first..n] + [s[n]];
      } else {
        FilterRun(s[..n], p, if count == 0 then 0 else first, count);
      }
    }
  }

  lemma {:induction false} FilterAgree<T>(s: seq<T>, p: T -> bool, q: T -> bool)
    requires forall x :: x in s ==> p(x) == q(x)
    ensures Filter(s, p) == Filter(s, q)
  {
    if s != [] {
      assert forall x :: x in s[1..] ==> x in s;
      FilterAgree(s[1..], p, q);
    }
  }

  lemma {:induction false} FilterLength<T>(s: seq<T>, p: T -> bool)
    ensures |Filter(s, p)| <= |s|
  {
    if s != [] { FilterLength(s[1..], p); }
  }

  // ----- sorting: sorted, a permutation, stable

  lemma InsertAbove<T(!new)>(a: T, x: T, s: seq<T>, rest: seq<T>, leq: (T, T) -> bool)
    requires leq(a, x) && multiset(rest) == multiset{x} + multiset(s) && forall i :: 0 <= i < |s| ==> leq(a, s[i])
    ensures forall i :: 0 <= i < |rest| ==> leq(a, rest[i])
  {
    forall i | 0 <= i < |rest| ensures leq(a, rest[i]) {
      assert rest[i] in multiset(rest);
      assert rest[i] == x || rest[i] in s;
    }
  }

  lemma {:induction false} InsertSorted<T(!new)>(x: T, s: seq<T>, leq: (T, T) -> bool)
    requires TotalPreorder(leq) && Sorted(s, leq)
    ensures Sorted(Insert(x, s, leq), leq)
    ensures multiset(Insert(x, s, leq)) == multiset{x} + multiset(s)
  {
    if s == [] || leq(x, s[0]) {
    } else {
      var rest := Insert(x, s[1..], leq);
      InsertSorted(x, s[1..], leq);
      assert s == [s[0]] + s[1..];
      InsertAbove(s[0], x, s[1..], rest, leq);
      SortedCons(s[0], rest, leq);
    }
  }

  lemma SortedCons<T(!new)>(a: T, rest: seq<T>, leq: (T, T) -> bool)
    requires Sorted(rest, leq) && forall i :: 0 <= i < |rest| ==> leq(a, rest[i])
    ensures Sorted([a] + rest, leq)
  {
  }

  lemma {:induction false} InsertAllSorted<T(!new)>(s: seq<T>, onto: seq<T>, leq: (T, T) -> bool)
    requires TotalPreorder(leq) && Sorted(onto, leq)
    ensures Sorted(InsertAll(s, onto, leq), leq)
    ensures multiset(InsertAll(s, onto, leq)) == multiset(s) + multiset(onto)
  {
    if s != [] {
      InsertAllSorted(s[1..], onto, leq);
      InsertSorted(s[0], InsertAll(s[1..], onto, leq), leq);
      assert s == [s[0]] + s[1..];
    }
  }

  lemma SortMembers<T(!new)>(s: seq<T>, leq: (T, T) -> bool)
    requires TotalPreorder(leq)
    ensures |StableSort(s, leq)| == |s|
    ensures forall x :: x in StableSort(s, leq) <==> x in s
  {
    InsertAllSorted(s, [], leq);
    assert |multiset(StableSort(s, leq))| == |multiset(s)|;
    forall x ensures x in StableSort(s, leq) <==> x in s {
      assert x in multiset(StableSort(s, leq)) <==> x in multiset(s);
    }
  }

  lemma OccursApart<T>(t: seq<T>, i: nat, j: nat)
    requires i < j < |t| && t[i] == t[j]
    ensures multiset(t)[t[i]] >= 2
  {
    var a := t[i];
    assert t == t[..i] + [a] + t[i + 1..j] + [a] + t[j + 1..];
    assert multiset(t) == multiset(t[..i]) + multiset([a]) + multiset(t[i + 1..j]) + multiset([a]) + multiset(t[j + 1..]);
  }

  lemma {:induction false} OccursTwice<T>(s: seq<T>, r: T)
    requires multiset(s)[r] >= 2
    ensures exists i, j :: 0 <= i < j < |s| && s[i] == r && s[j] == r
  {
    assert s == [s[0]] + s[1..];
    if s[0] == r {
      assert r in multiset(s[1..]);
      var j :| 0 <= j < |s[1..]| && s[1..][j] == r;
      assert s[0] == r && s[j + 1] == r;
    } else {
      OccursTwice(s[1..], r);
      var i, j :| 0 <= i < j < |s[1..]| && s[1..][i] == r && s[1..][j] == r;
      assert s[i + 1] == r && s[j + 1] == r;
    }
  }

  /** A sorted sequence is left alone. */
  lemma {:induction false} SortOfSorted<T>(s: seq<T>, leq: (T, T) -> bool)
    requires Sorted(s, leq)
    ensures StableSort(s, leq) == s
  {
    if s != [] {
      SortOfSorted(s[1..], leq);
      assert s == [s[0]] + s[1..];
    }
  }

  // ----- filtering commutes with stable sorting

  lemma {:induction false} FilterInsert<T(!new)>(x: T, s: seq<T>, leq: (T, T) -> bool, p: T -> bool)
    requires TotalPreorder(leq) && Sorted(s, leq)
    ensures Filter(Insert(x, s, leq), p)
         == if p(x) then Insert(x, Filter(s, p), leq) else Filter(s, p)
  {
    if s == [] {
    } else if leq(x, s[0]) {
      assert ([x] + s)[1..] == s;
      if p(x) {
        var f := Filter(s, p);
        if f != [] {
          FilterMembers(s, p);
          assert f[0] in f;
          var i :| 0 <= i < |s| && s[i] == f[0];
          assert leq(x, s[i]);
        }
      }
    } else {
      FilterInsert(x, s[1..], leq, p);
      assert Insert(x, s, leq)[1..] == Insert(x, s[1..], leq);
    }
  }

  lemma {:induction false} FilterSort<T(!new)>(s: seq<T>, leq: (T, T) -> bool, p: T -> bool)
    requires TotalPreorder(leq)
    ensures Filter(StableSort(s, leq), p) == StableSort(Filter(s, p), leq)
  {
    if s != [] {
      FilterSort(s[1..], leq, p);
      InsertAllSorted(s[1..], [], leq);
      FilterInsert(s[0], StableSort(s[1..], leq), leq, p);
    }
  }

  // ----- sorting a part first changes nothing

  lemma {:induction false} InsertCommutes<T(!new)>(a: T, b: T, s: seq<T>, leq: (T, T) -> bool)
    requires TotalPreorder(leq) && !leq(a, b)
    ensures Insert(b, Insert(a, s, leq), leq) == Insert(a, Insert(b, s, leq), leq)
  {
    if s != [] && !leq(a, s[0]) && !leq(b, s[0]) {
      InsertCommutes(a, b, s[1..], leq);
    }
  }

  lemma {:induction false} InsertAllOfInsert<T(!new)>(a: T, t: seq<T>, onto: seq<T>, leq: (T, T) -> bool)
    requires TotalPreorder(leq)
    ensures InsertAll(Insert(a, t, leq), onto, leq) == Insert(a, InsertAll(t, onto, leq), leq)
  {
    if t == [] || leq(a, t[0]) {
      assert ([a] + t)[1..] == t;
    } else {
      InsertAllOfInsert(a, t[1..], onto, leq);
      InsertCommutes(a, t[0], InsertAll(t[1..], onto, leq), leq);
      assert Insert(a, t, leq)[1..] == Insert(a, t[1..], leq);
    }
  }

  lemma {:induction false} InsertAllOfSort<T(!new)>(s: seq<T>, onto: seq<T>, leq: (T, T) -> bool)
    requires TotalPreorder(leq)
    ensures InsertAll(StableSort(s, leq), onto, leq) == InsertAll(s, onto, leq)
  {
    if s != [] {
      InsertAllOfSort(s[1..], onto, leq);
      InsertAllOfInsert(s[0], StableSort(s[1..], leq), onto, leq);
    }
  }

  lemma {:induction false} InsertAllConcat<T>(s: seq<T>, t: seq<T>, onto: seq<T>, leq: (T, T) -> bool)
    ensures InsertAll(s + t, onto, leq) == InsertAll(s, InsertAll(t, onto, leq), leq)
  {
    if s == [] {
      assert s + t == t;
    } else {
      assert (s + t)[1..] == s[1..] + t;
      InsertAllConcat(s[1..], t, onto, leq);
    }
  }

  lemma SortOfSortedParts<T(!new)>(s: seq<T>, t: seq<T>, leq: (T, T) -> bool)
    requires TotalPreorder(leq)
    ensures StableSort(StableSort(s, leq) + t, leq) == StableSort(s + t, leq)
    ensures StableSort(s + StableSort(t, leq), leq) == StableSort(s + t, leq)
    ensures StableSort(StableSort(s, leq), leq) == StableSort(s, leq)
  {
    InsertAllConcat(StableSort(s, leq), t, [], leq);
    InsertAllConcat(s, t, [], leq);
    InsertAllConcat(s, StableSort(t, leq), [], leq);
    InsertAllOfSort(s, StableSort(t, leq), leq);
    InsertAllOfSort(t, [], leq);
    InsertAllOfSort(s, [], leq);
  }

  /** Selects the rows that tie with `like`. */
  function TiedWith<T>(like: T, leq: (T, T) -> bool): T -> bool {
    x => leq(x, like) && leq(like, x)
  }

  /** The definition of a stable sort: the result is sorted, a permutation of
      the input, and rows that tie with any given row keep their order. */
  lemma StableSortMeaning<T(!new)>(s: seq<T>, leq: (T, T) -> bool, like: T)
    requires TotalPreorder(leq)
    ensures Sorted(StableSort(s, leq), leq)
    ensures multiset(StableSort(s, leq)) == multiset(s)
    ensures Filter(StableSort(s, leq), TiedWith(like, leq)) == Filter(s, TiedWith(like, leq))
  {
    InsertAllSorted(s, [], leq);
    var tied := Filter(s, TiedWith(like, leq));
    FilterSort(s, leq, TiedWith(like, leq));
    assert Sorted(tied, leq) by {
      FilterMembers(s, TiedWith(like, leq));
      forall i, j | 0 <= i < j < |tied| ensures leq(tied[i], tied[j]) {
        assert tied[i] in tied && tied[j] in tied;
        assert leq(tied[i], like) && leq(like, tied[j]);
      }
    }
    SortOfSorted(tied, leq);
  }

  // ----- sorted distinct values, with each value's index among them

  ghost predicate TotalOrder<T(!new)>(leq: (T, T) -> bool) {
    TotalPreorder(leq) && forall a, b :: leq(a, b) && leq(b, a) ==> a == b
  }

  predicate StrictlySorted<T(==)>(s: seq<T>, leq: (T, T) -> bool) {
    forall i, j :: 0 <= i < j < |s| ==> leq(s[i], s[j]) && s[i] != s[j]
  }

  function InsertNew<T(==)>(x: T, s: seq<T>, leq: (T, T) -> bool): seq<T> {
    if s == [] then [x]
    else if x == s[0] then s
    else if leq(x, s[0]) then [x] + s
    else [s[0]] + InsertNew(x, s[1..], leq)
  }

  function Unique<T(==)>(values: seq<T>, leq: (T, T) -> bool): seq<T> {
    if values == [] then []
    else InsertNew(values[|values| - 1], Unique(values[..|values| - 1], leq), leq)
  }

  function IndexIn<T(==)>(s: seq<T>, x: T): (k: nat)
    requires x in s
    ensures k < |s| && s[k] == x
  {
    if s[0] == x then 0 else 1 + IndexIn(s[1..], x)
  }

  lemma NewAbove<T(!new)>(a: T, x: T, s: seq<T>, rest: seq<T>, leq: (T, T) -> bool)
    requires leq(a, x) && a != x && forall i :: 0 <= i < |s| ==> leq(a, s[i]) && a != s[i]
    requires forall y :: y in rest <==> y == x || y in s
    ensures forall j :: 0 <= j < |rest| ==> leq(a, rest[j]) && a != rest[j]
  {
    forall j | 0 <= j < |rest| ensures leq(a, rest[j]) && a != rest[j] { assert rest[j] in rest; }
  }

  lemma {:induction false} InsertNewMeaning<T(!new)>(x: T, s: seq<T>, leq: (T, T) -> bool)
    requires TotalOrder(leq) && StrictlySorted(s, leq)
    ensures StrictlySorted(InsertNew(x, s, leq), leq)
    ensures forall y :: y in InsertNew(x, s, leq) <==> y == x || y in s
  {
    if s != [] {
      assert s == [s[0]] + s[1..];
      if x != s[0] && !leq(x, s[0]) {
        InsertNewMeaning(x, s[1..], leq);
        NewAbove(s[0], x, s[1..], InsertNew(x, s[1..], leq), leq);
      }
    }
  }

  /** The distinct values in strictly ascending order. */
  lemma {:induction false} UniqueMeaning<T(!new)>(values: seq<T>, leq: (T, T) -> bool)
    requires TotalOrder(leq)
    ensures StrictlySorted(Unique(values, leq), leq)
    ensures forall y :: y in Unique(values, leq) <==> y in values
  {
    if values != [] {
      var n := |values| - 1;
      UniqueMeaning(values[..n], leq);
      InsertNewMeaning(values[n], Unique(values[..n], leq), leq);
      assert values == values[..n] + [values[n]];
    }
  }

  lemma HasMember<T(!new)>(s: seq<T>)
    requires s != []
    ensures exists y :: y in s
  {
    assert s[0] in s;
  }

  lemma TailMembers<T(!new)>(s: seq<T>, leq: (T, T) -> bool)
    requires s != [] && StrictlySorted(s, leq)
    ensures forall y :: y in s[1..] <==> y in s && y != s[0]
  {
    assert s == [s[0]] + s[1..];
  }

  /** There is only one such list. */
  lemma {:induction false} StrictlySortedIsUnique<T(!new)>(a: seq<T>, b: seq<T>, leq: (T, T) -> bool)
    requires TotalOrder(leq) && StrictlySorted(a, leq) && StrictlySorted(b, leq)
    requires forall y :: y in a <==> y in b
    ensures a == b
  {
    if a == [] {
      if b != [] {
        HasMember(b);
        assert false;
      }
    } else {
      assert a[0] in b;
      assert b[0] in a;
      var i :| 0 <= i < |b| && b[i] == a[0];
      var j :| 0 <= j < |a| && a[j] == b[0];
      assert leq(b[0], b[i]) || i == 0;
      assert leq(a[0], a[j]) || j == 0;
      assert a[0] == b[0];
      TailMembers(a, leq);
      TailMembers(b, leq);
      StrictlySortedIsUnique(a[1..], b[1..], leq);
    }
  }

  predicate AtMost(a: int, b: int) { a <= b }
}
