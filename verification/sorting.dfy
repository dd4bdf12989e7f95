/** A stable sort by a caller-supplied "less or equal" relation: the model of
    Python's `sorted(...)` and of pandas' `sort_values`. */
module Sorting {
  import opened Lists

  ghost predicate TotalPreorder<T(!new)>(le: (T, T) -> bool)
  {
    && (forall a, b :: le(a, b) || le(b, a))
    && (forall a, b, c :: le(a, b) && le(b, c) ==> le(a, c))
  }

  ghost predicate SortedBy<T>(s: seq<T>, le: (T, T) -> bool)
  {
    forall i, j :: 0 <= i < j < |s| ==> le(s[i], s[j])
  }

  /** Places `x` before the first element it is less or equal to. */
  function Insert<T>(x: T, s: seq<T>, le: (T, T) -> bool): (r: seq<T>)
    ensures |r| == |s| + 1
    ensures multiset(r) == multiset(s) + multiset{x}
  {
    if |s| == 0 then [x]
    else if le(x, s[0]) then [x] + s
    else
      assert s == [s[0]] + s[1..];
      [s[0]] + Insert(x, s[1..], le)
  }

  /** Insertion sort; inserting earlier elements in front of equal ones keeps it stable. */
  function SortBy<T>(s: seq<T>, le: (T, T) -> bool): (r: seq<T>)
    ensures |r| == |s|
    ensures multiset(r) == multiset(s)
  {
    if |s| == 0 then []
    else
      assert s == [s[0]] + s[1..];
      Insert(s[0], SortBy(s[1..], le), le)
  }

  lemma {:induction false} InsertSorted<T(!new)>(x: T, s: seq<T>, le: (T, T) -> bool)
    requires TotalPreorder(le)
    requires SortedBy(s, le)
    ensures SortedBy(Insert(x, s, le), le)
  {
    if |s| > 0 && !le(x, s[0]) {
      var tail := Insert(x, s[1..], le);
      InsertSorted(x, s[1..], le);
      assert le(s[0], x);
      forall j | 0 <= j < |tail| ensures le(s[0], tail[j]) {
        assert tail[j] in multiset(tail);
        if tail[j] != x {
          assert tail[j] in multiset(s[1..]);
          var k :| 0 <= k < |s[1..]| && s[1..][k] == tail[j];
          assert s[k + 1] == tail[j];
        }
      }
    }
  }

  /** The result of `SortBy` is ordered by `le`. */
  lemma {:induction false} SortBySorted<T(!new)>(s: seq<T>, le: (T, T) -> bool)
    requires TotalPreorder(le)
    ensures SortedBy(SortBy(s, le), le)
  {
    if |s| > 0 {
      SortBySorted(s[1..], le);
      InsertSorted(s[0], SortBy(s[1..], le), le);
    }
  }

  lemma {:induction false} InsertDistinct<T>(x: T, s: seq<T>, le: (T, T) -> bool)
    requires Distinct(s) && x !in s
    ensures Distinct(Insert(x, s, le))
  {
    if |s| > 0 && !le(x, s[0]) {
      var tail := Insert(x, s[1..], le);
      InsertDistinct(x, s[1..], le);
      assert s[0] !in s[1..];
      assert s[0] !in multiset(tail);
    }
  }

  /** Sorting a list without repeats gives a list without repeats. */
  lemma {:induction false} SortByDistinct<T>(s: seq<T>, le: (T, T) -> bool)
    requires Distinct(s)
    ensures Distinct(SortBy(s, le))
  {
    if |s| > 0 {
      SortByDistinct(s[1..], le);
      assert s[0] !in s[1..];
      assert s[0] !in multiset(SortBy(s[1..], le));
      InsertDistinct(s[0], SortBy(s[1..], le), le);
    }
  }

  /** The elements satisfying `p`, in their order in `s`. */
  function Filter<T>(s: seq<T>, p: T -> bool): (r: seq<T>)
    ensures |r| <= |s|
  {
    if |s| == 0 then [] else (if p(s[0]) then [s[0]] else []) + Filter(s[1..], p)
  }

  lemma FilterCons<T>(a: T, t: seq<T>, p: T -> bool)
    ensures Filter([a] + t, p) == (if p(a) then [a] else []) + Filter(t, p)
  {
    assert ([a] + t)[1..] == t;
  }

  /** Inserting `x` puts it ahead of every element of its class `p` already there. */
  lemma {:induction false} InsertFilter<T>(x: T, s: seq<T>, le: (T, T) -> bool, p: T -> bool)
    requires p(x) ==> forall y :: y in s && p(y) ==> le(x, y)
    ensures Filter(Insert(x, s, le), p) == (if p(x) then [x] else []) + Filter(s, p)
  {
    if |s| == 0 {
      FilterCons(x, s, p);
    } else if le(x, s[0]) {
      FilterCons(x, s, p);
    } else {
      assert p(x) ==> !p(s[0]) by {
        assert s[0] in s;
      }
      InsertFilter(x, s[1..], le, p);
      InsertFilterPast(x, s, le, p);
    }
  }

  lemma InsertPast<T>(x: T, s: seq<T>, le: (T, T) -> bool)
    requires |s| > 0 && !le(x, s[0])
    ensures Insert(x, s, le) == [s[0]] + Insert(x, s[1..], le)
  {
  }

  lemma FilterHead<T>(s: seq<T>, p: T -> bool)
    requires |s| > 0
    ensures Filter(s, p) == (if p(s[0]) then [s[0]] else []) + Filter(s[1..], p)
  {
  }

  /** Consing `h` onto `t` adds `h` to the filtered part after any prefix outside its class. */
  lemma FilterConsShift<T>(h: T, t: seq<T>, mine: seq<T>, rest: seq<T>, p: T -> bool)
    requires Filter(t, p) == mine + rest
    requires p(h) ==> mine == []
    ensures Filter([h] + t, p) == mine + ((if p(h) then [h] else []) + rest)
  {
    FilterCons(h, t, p);
  }

  /** Inserting past a head outside the class of `x` keeps that head first. */
  lemma InsertFilterPast<T>(x: T, s: seq<T>, le: (T, T) -> bool, p: T -> bool)
    requires |s| > 0 && !le(x, s[0]) && (p(x) ==> !p(s[0]))
    requires Filter(Insert(x, s[1..], le), p) == (if p(x) then [x] else []) + Filter(s[1..], p)
    ensures Filter(Insert(x, s, le), p) == (if p(x) then [x] else []) + Filter(s, p)
  {
    InsertPast(x, s, le);
    FilterHead(s, p);
    FilterConsShift(s[0], Insert(x, s[1..], le), if p(x) then [x] else [], Filter(s[1..], p), p);
  }

  /** `SortBy` is stable: elements that are all less or equal to one another, such as
      those sharing a sort key, keep their relative order. */
  lemma {:induction false} SortByStable<T(!new)>(s: seq<T>, le: (T, T) -> bool, p: T -> bool)
    requires forall x, y :: p(x) && p(y) ==> le(x, y)
    ensures Filter(SortBy(s, le), p) == Filter(s, p)
  {
    if |s| > 0 {
      SortByStable(s[1..], le, p);
      InsertFilter(s[0], SortBy(s[1..], le), le, p);
      assert s == [s[0]] + s[1..];
    }
  }

  /** Sorting keeps exactly the elements it was given. */
  lemma {:induction false} SortByElems<T>(s: seq<T>, le: (T, T) -> bool)
    ensures Elems(SortBy(s, le)) == Elems(s)
  {
    MultisetElems(SortBy(s, le), s);
  }
}
