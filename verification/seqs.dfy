/** Small sequence helpers shared by the modules: first-position search, joining, filtering. */
module Seqs {

  import opened Wrappers

  /** Rust's `iter().position(|y| y == x)`: the first index holding `x`. */
  function IndexOf<T(==)>(s: seq<T>, x: T): (r: Option<nat>)
    ensures r.None? <==> x !in s
    ensures r.Some? ==> r.value < |s| && s[r.value] == x && x !in s[..r.value]
  {
    if |s| == 0 then None
    else if s[0] == x then Some(0)
    else
      var rest := IndexOf(s[1..], x);
      assert s[1..] == s[..|s|][1..];
      if rest.None? then None
      else
        assert s[..rest.value + 1] == [s[0]] + s[1..][..rest.value];
        Some(rest.value + 1)
  }

  /** No element occurs twice. */
  predicate NoDuplicates<T(==)>(s: seq<T>) {
    forall i, j :: 0 <= i < j < |s| ==> s[i] != s[j]
  }

  /** `parts.join(sep)` over sequences. */
  function Join<T>(parts: seq<seq<T>>, sep: seq<T>): seq<T> {
    if |parts| == 0 then []
    else if |parts| == 1 then parts[0]
    else parts[0] + sep + Join(parts[1..], sep)
  }

  /** `into_iter().filter(|y| y != x).collect()`: drops every occurrence of `x`, keeping the rest in order. */
  function RemoveAll<T(==)>(s: seq<T>, x: T): (r: seq<T>)
    ensures x !in r
    ensures forall i :: 0 <= i < |r| ==> r[i] in s
    ensures forall i :: 0 <= i < |s| && s[i] != x ==> s[i] in r
    ensures |r| <= |s|
    ensures |r| + multiset(s)[x] == |s|
  {
    if |s| == 0 then []
    else
      assert s == [s[0]] + s[1..];
      if s[0] == x then RemoveAll(s[1..], x)
      else [s[0]] + RemoveAll(s[1..], x)
  }

  /** `RemoveAll` keeps the other elements in their original relative order. */
  lemma {:induction false} RemoveAllKeepsOthers<T>(s: seq<T>, x: T)
    requires x !in s
    ensures RemoveAll(s, x) == s
  {
    if |s| > 0 {
      RemoveAllKeepsOthers(s[1..], x);
    }
  }

  /** Removal works piecewise, so the kept elements stay in their original order. */
  lemma {:induction false} RemoveAllAppend<T>(a: seq<T>, b: seq<T>, x: T)
    ensures RemoveAll(a + b, x) == RemoveAll(a, x) + RemoveAll(b, x)
  {
    if |a| == 0 {
      assert a + b == b;
    } else {
      assert (a + b)[1..] == a[1..] + b;
      RemoveAllAppend(a[1..], b, x);
    }
  }

  /** An element listed once, between parts without it, is simply cut out. */
  lemma RemoveAllCutsOut<T>(before: seq<T>, x: T, after: seq<T>)
    requires x !in before && x !in after
    ensures RemoveAll(before + [x] + after, x) == before + after
  {
    var left := RemoveAll(before + [x], x);
    assert left == before by {
      RemoveAllAppend(before, [x], x);
      RemoveAllKeepsOthers(before, x);
      assert RemoveAll([x], x) == [];
      assert before + [] == before;
    }
    RemoveAllAppend(before + [x], after, x);
    RemoveAllKeepsOthers(after, x);
  }

  /** `iter().take(n)` for an optional limit: the first `n` elements, or all of them. */
  function Take<T>(s: seq<T>, limit: Option<nat>): (r: seq<T>)
    ensures limit.None? ==> r == s
    ensures limit.Some? ==> |r| == (if limit.value < |s| then limit.value else |s|)
    ensures r <= s
  {
    if limit.Some? && limit.value < |s| then s[..limit.value] else s
  }

  /** Rust's `iter().position(p)` / `iter().find(p)`: the first index whose element satisfies `p`. */
  function FirstIndex<T>(s: seq<T>, p: T -> bool): (r: Option<nat>)
    ensures r.None? <==> forall i :: 0 <= i < |s| ==> !p(s[i])
    ensures r.Some? ==> r.value < |s| && p(s[r.value]) && forall i :: 0 <= i < r.value ==> !p(s[i])
  {
    if |s| == 0 then None
    else if p(s[0]) then Some(0)
    else
      var rest := FirstIndex(s[1..], p);
      if rest.None? then None
      else
        assert forall i :: 1 <= i <= rest.value ==> s[i] == s[1..][i - 1];
        Some(rest.value + 1)
  }

  /** `iter().filter(p)`: the elements satisfying `p`, in order. */
  function Filter<T>(s: seq<T>, p: T -> bool): (r: seq<T>)
    ensures |r| <= |s|
    ensures forall i :: 0 <= i < |r| ==> p(r[i])
  {
    if |s| == 0 then []
    else if p(s[0]) then [s[0]] + Filter(s[1..], p)
    else Filter(s[1..], p)
  }

  lemma {:induction false} FilterAppend<T>(a: seq<T>, b: seq<T>, p: T -> bool)
    ensures Filter(a + b, p) == Filter(a, p) + Filter(b, p)
  {
    if |a| > 0 {
      assert (a + b)[1..] == a[1..] + b;
      FilterAppend(a[1..], b, p);
    } else {
      assert a + b == b;
    }
  }

  /**
    Reference definition of first-seen deduplication: every element once,
    at the position of its first occurrence.
   */
  function Dedup<T(==)>(s: seq<T>): (d: seq<T>)
    ensures NoDuplicates(d)
  {
    if |s| == 0 then []
    else
      var previous := Dedup(s[..|s| - 1]);
      if s[|s| - 1] in previous then previous else previous + [s[|s| - 1]]
  }

  /** A list without repetitions is its own deduplication. */
  lemma {:induction false} DedupOfDistinct<T>(s: seq<T>)
    requires NoDuplicates(s)
    ensures Dedup(s) == s
  {
    if |s| > 0 {
      var init := s[..|s| - 1];
      DedupOfDistinct(init);
      assert s[|s| - 1] !in init;
      assert init + [s[|s| - 1]] == s;
    }
  }

  /** Deduplicating a prefix first changes nothing. */
  lemma {:induction false} DedupAppend<T>(x: seq<T>, y: seq<T>)
    ensures Dedup(Dedup(x) + y) == Dedup(x + y)
    decreases |y|
  {
    if |y| == 0 {
      assert Dedup(x) + y == Dedup(x);
      assert x + y == x;
      DedupOfDistinct(Dedup(x));
    } else {
      DedupAppend(x, y[..|y| - 1]);
      DedupAppendStep(x, y);
    }
  }

  lemma DedupAppendStep<T>(x: seq<T>, y: seq<T>)
    requires |y| > 0
    requires Dedup(Dedup(x) + y[..|y| - 1]) == Dedup(x + y[..|y| - 1])
    ensures Dedup(Dedup(x) + y) == Dedup(x + y)
  {
    var z := y[|y| - 1];
    AppendSnoc(Dedup(x), y);
    AppendSnoc(x, y);
    DedupSnoc(Dedup(x) + y[..|y| - 1], z);
    DedupSnoc(x + y[..|y| - 1], z);
  }

  /** Appending a non-empty list is appending its front, then its last element. */
  lemma AppendSnoc<T>(p: seq<T>, y: seq<T>)
    requires |y| > 0
    ensures p + y == (p + y[..|y| - 1]) + [y[|y| - 1]]
  {
    assert y == y[..|y| - 1] + [y[|y| - 1]];
  }

  /** One unfolding of `Dedup` at an appended element. */
  lemma DedupSnoc<T>(s: seq<T>, z: T)
    ensures Dedup(s + [z]) == if z in Dedup(s) then Dedup(s) else Dedup(s) + [z]
  {
    assert (s + [z])[..|s|] == s;
  }

  /** Membership in the deduplication is membership in the list. */
  lemma {:induction false} DedupMembership<T>(s: seq<T>)
    ensures forall x :: x in Dedup(s) <==> x in s
  {
    if |s| > 0 {
      var init := s[..|s| - 1];
      DedupMembership(init);
      assert s == init + [s[|s| - 1]];
    }
  }

  lemma DedupMembershipOf<T>(s: seq<T>, x: T)
    ensures x in Dedup(s) <==> x in s
  {
    DedupMembership(s);
  }

  /** Deduplication keeps first-seen order: earlier entries first occur earlier in the list. */
  lemma {:induction false} DedupFirstSeenOrder<T>(s: seq<T>, i: nat, j: nat)
    requires i < j < |Dedup(s)|
    ensures IndexOf(s, Dedup(s)[i]).Some? && IndexOf(s, Dedup(s)[j]).Some?
    ensures IndexOf(s, Dedup(s)[i]).value < IndexOf(s, Dedup(s)[j]).value
  {
    var init := s[..|s| - 1];
    var last := s[|s| - 1];
    var previous := Dedup(init);
    assert s == init + [last];
    DedupSnoc(init, last);
    DedupMembership(init);
    DedupMembership(s);
    assert Dedup(s)[i] == previous[i] && previous[i] in previous;
    DedupMembershipOf(init, previous[i]);
    IndexOfPrefix(s, Dedup(s)[i]);
    if j < |previous| {
      assert Dedup(s)[j] == previous[j];
      DedupFirstSeenOrder(init, i, j);
      IndexOfPrefix(s, Dedup(s)[j]);
    } else {
      assert Dedup(s)[j] == last && last !in previous;
      DedupMembershipOf(init, last);
      IndexOfPrefix(s, last);
    }
  }

  /** Every element of `d` occurs in `s`, and earlier elements of `d` occur first earlier in `s`. */
  predicate InFirstSeenOrder<T(==)>(d: seq<T>, s: seq<T>) {
    && (forall i :: 0 <= i < |d| ==> d[i] in s)
    && (forall i, j :: 0 <= i < j < |d| ==> IndexOf(s, d[i]).value < IndexOf(s, d[j]).value)
  }

  /** The deduplication lists the elements in the order of their first occurrence. */
  lemma DedupIsInFirstSeenOrder<T>(s: seq<T>)
    ensures InFirstSeenOrder(Dedup(s), s)
  {
    var d := Dedup(s);
    forall i | 0 <= i < |d|
      ensures d[i] in s
    {
      DedupMembershipOf(s, d[i]);
    }
    forall i, j | 0 <= i < j < |d|
      ensures IndexOf(s, d[i]).value < IndexOf(s, d[j]).value
    {
      DedupFirstSeenOrder(s, i, j);
    }
  }

  /** The first occurrence of an element of the prefix lies in the prefix. */
  lemma IndexOfPrefix<T>(s: seq<T>, x: T)
    requires |s| > 0
    ensures x in s[..|s| - 1] ==> IndexOf(s, x) == IndexOf(s[..|s| - 1], x)
    ensures x in s && x !in s[..|s| - 1] ==> IndexOf(s, x) == Some(|s| - 1)
  {
    var init := s[..|s| - 1];
    if x in init {
      var b := IndexOf(init, x).value;
      assert s[..b] == init[..b];
    }
  }

  /** `iter().map(f).collect()`. */
  function Map<A, B>(s: seq<A>, f: A -> B): (r: seq<B>)
    ensures |r| == |s|
    ensures forall i :: 0 <= i < |s| ==> r[i] == f(s[i])
  {
    seq(|s|, i requires 0 <= i < |s| => f(s[i]))
  }

  /** Mapping a permutation gives a permutation of the mapped list. */
  lemma {:induction false} MapPermutation<A, B>(a: seq<A>, b: seq<A>, f: A -> B)
    requires multiset(a) == multiset(b)
    ensures multiset(Map(a, f)) == multiset(Map(b, f))
    decreases |a|
  {
    if |a| > 0 {
      var x := a[0];
      assert x in multiset(b);
      var k :| 0 <= k < |b| && b[k] == x;
      var rest := b[..k] + b[k + 1..];
      assert b == b[..k] + [x] + b[k + 1..];
      assert a == [x] + a[1..];
      assert multiset(b) == multiset(b[..k]) + multiset{x} + multiset(b[k + 1..]);
      assert multiset(a) == multiset{x} + multiset(a[1..]);
      assert multiset(rest) == multiset(b[..k]) + multiset(b[k + 1..]);
      assert multiset(a[1..]) == multiset(a) - multiset{x};
      assert multiset(rest) == multiset(b) - multiset{x};
      MapPermutation(a[1..], rest, f);
      MapAppend([x], a[1..], f);
      MapAppend(b[..k] + [x], b[k + 1..], f);
      MapAppend(b[..k], [x], f);
      MapAppend(b[..k], b[k + 1..], f);
    } else {
      assert |multiset(b)| == 0;
    }
  }

  lemma MapAppend<A, B>(p: seq<A>, q: seq<A>, f: A -> B)
    ensures Map(p + q, f) == Map(p, f) + Map(q, f)
  {
  }
}
