/**
  A stable sort by a total preorder `le` (Rust's `sort_by`), written as an
  insertion sort: each element goes after every element it does not
  precede strictly, so elements that compare equal keep their input order.
 */
module StableSort {

  /** `le` is total and transitive. */
  ghost predicate TotalPreorder<T(!new)>(le: (T, T) -> bool) {
    && (forall a, b :: le(a, b) || le(b, a))
    && (forall a, b, c :: le(a, b) && le(b, c) ==> le(a, c))
  }

  predicate Sorted<T>(s: seq<T>, le: (T, T) -> bool) {
    forall i, j :: 0 <= i < j < |s| ==> le(s[i], s[j])
  }

  /** The elements of `s` that compare equal to `x`, in order. */
  function Equivalents<T>(s: seq<T>, x: T, le: (T, T) -> bool): (r: seq<T>)
    ensures |r| <= |s|
  {
    if |s| == 0 then []
    else Equivalents(s[..|s| - 1], x, le) + (if le(x, s[|s| - 1]) && le(s[|s| - 1], x) then [s[|s| - 1]] else [])
  }

  /** Places `x` into a sorted list after every element that is not strictly greater than it. */
  function Insert<T>(sorted: seq<T>, x: T, le: (T, T) -> bool): (r: seq<T>)
    ensures |r| == |sorted| + 1
    ensures multiset(r) == multiset(sorted) + multiset{x}
  {
    if |sorted| == 0 then [x]
    else
      var init := sorted[..|sorted| - 1];
      var last := sorted[|sorted| - 1];
      assert sorted == init + [last];
      if le(last, x) then sorted + [x] else Insert(init, x, le) + [last]
  }

  /** `sort_by`: the elements of `s`, sorted by `le`, equal elements in input order. */
  function Sort<T>(s: seq<T>, le: (T, T) -> bool): (r: seq<T>)
    ensures |r| == |s|
    ensures multiset(r) == multiset(s)
  {
    if |s| == 0 then []
    else
      assert s == s[..|s| - 1] + [s[|s| - 1]];
      Insert(Sort(s[..|s| - 1], le), s[|s| - 1], le)
  }

  /** Insertion keeps a list sorted. */
  lemma {:induction false} InsertKeepsSorted<T(!new)>(sorted: seq<T>, x: T, le: (T, T) -> bool)
    requires TotalPreorder(le)
    requires Sorted(sorted, le)
    ensures Sorted(Insert(sorted, x, le), le)
  {
    if |sorted| > 0 {
      var init := sorted[..|sorted| - 1];
      var last := sorted[|sorted| - 1];
      if !le(last, x) {
        InsertKeepsSorted(init, x, le);
        var front := Insert(init, x, le);
        forall i | 0 <= i < |front|
          ensures le(front[i], last)
        {
          assert front[i] in multiset(front);
          if front[i] != x {
            assert front[i] in multiset(init);
            var k :| 0 <= k < |init| && init[k] == front[i];
            assert sorted[k] == init[k];
          }
        }
      }
    }
  }

  /** The result of `Sort` is sorted. */
  lemma {:induction false} SortIsSorted<T(!new)>(s: seq<T>, le: (T, T) -> bool)
    requires TotalPreorder(le)
    ensures Sorted(Sort(s, le), le)
  {
    if |s| > 0 {
      SortIsSorted(s[..|s| - 1], le);
      InsertKeepsSorted(Sort(s[..|s| - 1], le), s[|s| - 1], le);
    }
  }

  lemma {:induction false} EquivalentsAppend<T>(a: seq<T>, b: seq<T>, x: T, le: (T, T) -> bool)
    ensures Equivalents(a + b, x, le) == Equivalents(a, x, le) + Equivalents(b, x, le)
    decreases |b|
  {
    if |b| == 0 {
      assert a + b == a;
    } else {
      var b0 := b[..|b| - 1];
      assert (a + b)[..|a + b| - 1] == a + b0;
      assert (a + b)[|a + b| - 1] == b[|b| - 1];
      EquivalentsAppend(a, b0, x, le);
    }
  }

  /** The class of `x` within a one-element list. */
  lemma EquivalentsSingle<T>(y: T, x: T, le: (T, T) -> bool)
    ensures Equivalents([y], x, le) == if le(x, y) && le(y, x) then [y] else []
  {
    assert [y][..0] == [];
  }

  /** Inserting `y` adds it at the end of its own class and leaves the other classes alone. */
  lemma {:induction false} InsertIsStable<T(!new)>(sorted: seq<T>, y: T, x: T, le: (T, T) -> bool)
    requires TotalPreorder(le)
    ensures Equivalents(Insert(sorted, y, le), x, le)
      == Equivalents(sorted, x, le) + (if le(x, y) && le(y, x) then [y] else [])
  {
    if |sorted| == 0 {
      EquivalentsSingle(y, x, le);
    } else {
      var init := sorted[..|sorted| - 1];
      var last := sorted[|sorted| - 1];
      if le(last, y) {
        InsertAtEndIsStable(sorted, y, x, le);
      } else {
        InsertIsStable(init, y, x, le);
        InsertBeforeLastIsStable(sorted, y, x, le);
      }
    }
  }

  /** Insertion behind the last element. */
  lemma InsertAtEndIsStable<T>(sorted: seq<T>, y: T, x: T, le: (T, T) -> bool)
    requires |sorted| > 0 && le(sorted[|sorted| - 1], y)
    ensures Equivalents(Insert(sorted, y, le), x, le)
      == Equivalents(sorted, x, le) + (if le(x, y) && le(y, x) then [y] else [])
  {
    assert Insert(sorted, y, le) == sorted + [y];
    EquivalentsAppend(sorted, [y], x, le);
    EquivalentsSingle(y, x, le);
  }

  /** Insertion in front of a last element that is strictly greater than `y`. */
  lemma InsertBeforeLastIsStable<T>(sorted: seq<T>, y: T, x: T, le: (T, T) -> bool)
    requires |sorted| > 0 && !le(sorted[|sorted| - 1], y)
    requires le(x, y) && le(y, x) ==> !le(sorted[|sorted| - 1], x)
    requires Equivalents(Insert(sorted[..|sorted| - 1], y, le), x, le)
      == Equivalents(sorted[..|sorted| - 1], x, le) + (if le(x, y) && le(y, x) then [y] else [])
    ensures Equivalents(Insert(sorted, y, le), x, le)
      == Equivalents(sorted, x, le) + (if le(x, y) && le(y, x) then [y] else [])
  {
    var init := sorted[..|sorted| - 1];
    var last := sorted[|sorted| - 1];
    var front := Insert(init, y, le);
    var ys := if le(x, y) && le(y, x) then [y] else [];
    var lasts := if le(x, last) && le(last, x) then [last] else [];
    SplitLast(sorted);
    EquivalentsAppend(init, [last], x, le);
    EquivalentsSingle(last, x, le);
    assert Equivalents(sorted, x, le) == Equivalents(init, x, le) + lasts;
    assert Insert(sorted, y, le) == front + [last];
    EquivalentsAppend(front, [last], x, le);
    assert Equivalents(Insert(sorted, y, le), x, le) == Equivalents(init, x, le) + ys + lasts;
    SwapEmpty(Equivalents(init, x, le), ys, lasts);
  }

  /** Two lists, one of them empty, can be appended in either order. */
  lemma SwapEmpty<T>(e: seq<T>, a: seq<T>, b: seq<T>)
    requires a == [] || b == []
    ensures e + a + b == e + b + a
  {
    if a == [] {
      assert e + a == e;
    } else {
      assert e + b == e;
    }
  }

  /** A non-empty list is its front followed by its last element. */
  lemma SplitLast<T>(s: seq<T>)
    requires |s| > 0
    ensures s == s[..|s| - 1] + [s[|s| - 1]]
  {
  }

  /**
    Stability: within every class of equal elements, the sorted list keeps
    the input order.
   */
  lemma {:induction false} SortIsStable<T(!new)>(s: seq<T>, x: T, le: (T, T) -> bool)
    requires TotalPreorder(le)
    ensures Equivalents(Sort(s, le), x, le) == Equivalents(s, x, le)
  {
    if |s| > 0 {
      var init := s[..|s| - 1];
      SortIsStable(init, x, le);
      InsertIsStable(Sort(init, le), s[|s| - 1], x, le);
      EquivalentsAppend(init, [s[|s| - 1]], x, le);
      SplitLast(s);
    }
  }

  /** An already sorted list is left as it is. */
  lemma {:induction false} SortOfSorted<T>(s: seq<T>, le: (T, T) -> bool)
    requires Sorted(s, le)
    ensures Sort(s, le) == s
  {
    if |s| > 0 {
      var init := s[..|s| - 1];
      assert Sorted(init, le);
      SortOfSorted(init, le);
      assert s == init + [s[|s| - 1]];
      if |init| > 0 {
        assert le(init[|init| - 1], s[|s| - 1]);
      }
    }
  }
}
