/**
 * The list idioms the crawler repeats: "append if not already present",
 * order-preserving deduplication, and Python's stable `sort(key=score,
 * reverse=True)` on (score, item) pairs.
 */
module Ranking {

  predicate NoDup<T(==)>(s: seq<T>) {
    forall i, j | 0 <= i < j < |s| :: s[i] != s[j]
  }

  /** Putting a new element in front keeps a sequence free of repeats. */
  lemma NoDupCons<T>(x: T, s: seq<T>)
    requires NoDup(s) && x !in s
    ensures NoDup([x] + s)
  {
    var r := [x] + s;
    forall i, j | 0 <= i < j < |r|
      ensures r[i] != r[j]
    {
      assert r[j] == s[j - 1];
      if i > 0 {
        assert r[i] == s[i - 1];
      }
    }
  }

  /** The index of the first occurrence of `x` in `s`. */
  function FirstIndex<T(==)>(s: seq<T>, x: T): (r: nat)
    requires x in s
    ensures r < |s| && s[r] == x && x !in s[..r]
  {
    if s[0] == x then 0
    else
      var k := FirstIndex(s[1..], x);
      assert s[..k + 1] == [s[0]] + s[1..][..k];
      k + 1
  }

  /**
   * `for x in xs: if x not in acc: acc.append(x)`: the crawler's way of
   * growing a result list without repeats.
   */
  function AppendNew<T(==,!new)>(acc: seq<T>, xs: seq<T>): (r: seq<T>)
    ensures |acc| <= |r| && r[..|acc|] == acc
    ensures forall x :: x in r <==> x in acc || x in xs
    ensures NoDup(acc) ==> NoDup(r)
    decreases |xs|
  {
    if xs == [] then acc
    else
      var a := AppendNew(acc, xs[..|xs| - 1]);
      var x := xs[|xs| - 1];
      assert xs == xs[..|xs| - 1] + [x];
      if x in a then a else a + [x]
  }

  /** The dedupe loops at the end of the extractors: first occurrences, in order. */
  function Dedup<T(==,!new)>(s: seq<T>): (r: seq<T>)
    ensures NoDup(r)
    ensures forall x :: x in r <==> x in s
  {
    AppendNew([], s)
  }

  /**
   * Deduplication keeps the order of first occurrence: of two kept elements,
   * the earlier one occurs first in the input.
   */
  lemma {:induction false} DedupKeepsFirstOccurrenceOrder<T(!new)>(s: seq<T>)
    ensures forall i, j | 0 <= i < j < |Dedup(s)| ::
      FirstIndex(s, Dedup(s)[i]) < FirstIndex(s, Dedup(s)[j])
    decreases |s|
  {
    if s != [] {
      var p := s[..|s| - 1];
      var x := s[|s| - 1];
      assert s == p + [x];
      DedupKeepsFirstOccurrenceOrder(p);
      var d := Dedup(p);
      assert Dedup(s) == AppendNew([], s);
      assert AppendNew([], s) == if x in d then d else d + [x];
      forall y | y in p
        ensures FirstIndex(s, y) == FirstIndex(p, y)
      {
        FirstIndexPrefix(p, x, y);
      }
      if x !in d {
        assert x !in p;
        assert FirstIndex(s, x) == |p| by {
          assert s[..|p|] == p;
        }
        forall y | y in p
          ensures FirstIndex(p, y) < |p|
        {
        }
      }
    }
  }

  /** The first index is the one position holding `x` with no `x` before it. */
  lemma {:induction false} FirstIndexUnique<T>(s: seq<T>, x: T, k: nat)
    requires k < |s| && s[k] == x && x !in s[..k]
    ensures FirstIndex(s, x) == k
    decreases k
  {
    if k > 0 {
      assert s[..k][0] == s[0];
      assert s[1..][..k - 1] == s[1..k];
      assert forall j | 0 <= j < k - 1 :: s[1..k][j] == s[..k][j + 1];
      FirstIndexUnique(s[1..], x, k - 1);
    }
  }

  lemma FirstIndexPrefix<T>(p: seq<T>, x: T, y: T)
    requires y in p
    ensures FirstIndex(p + [x], y) == FirstIndex(p, y)
  {
    var k := FirstIndex(p, y);
    var s := p + [x];
    assert s[..k] == p[..k];
    FirstIndexUnique(s, y, k);
  }

  /** Appending new elements of `a + b` is appending those of `a`, then those of `b`. */
  lemma {:induction false} AppendNewConcat<T(!new)>(acc: seq<T>, a: seq<T>, b: seq<T>)
    ensures AppendNew(acc, a + b) == AppendNew(AppendNew(acc, a), b)
    decreases |b|
  {
    if b == [] {
      assert a + b == a;
    } else {
      var b' := b[..|b| - 1];
      assert (a + b)[..|a + b| - 1] == a + b';
      assert (a + b)[|a + b| - 1] == b[|b| - 1];
      AppendNewConcat(acc, a, b');
    }
  }

  /** Without repeats there is nothing to remove. */
  lemma {:induction false} DedupOfNoDup<T(!new)>(s: seq<T>)
    requires NoDup(s)
    ensures Dedup(s) == s
    decreases |s|
  {
    if s != [] {
      var p := s[..|s| - 1];
      var x := s[|s| - 1];
      assert s == p + [x];
      assert NoDup(p);
      DedupOfNoDup(p);
      assert x !in p;
      assert Dedup(s) == AppendNew([], s);
    }
  }

  // ------------------------------------------------------------------
  // Stable sort by descending score
  // ------------------------------------------------------------------

  predicate SortedDesc<T>(s: seq<(int, T)>) {
    forall i, j | 0 <= i < j < |s| :: s[i].0 >= s[j].0
  }

  /** The elements of `s` that carry score `v`, in order. */
  function WithScore<T>(s: seq<(int, T)>, v: int): seq<(int, T)>
  {
    if s == [] then []
    else (if s[0].0 == v then [s[0]] else []) + WithScore(s[1..], v)
  }

  lemma {:induction false} WithScoreAppend<T>(a: seq<(int, T)>, b: seq<(int, T)>, v: int)
    ensures WithScore(a + b, v) == WithScore(a, v) + WithScore(b, v)
    decreases |a|
  {
    if a != [] {
      assert (a + b)[1..] == a[1..] + b;
      WithScoreAppend(a[1..], b, v);
    } else {
      assert a + b == b;
    }
  }

  lemma {:induction false} WithScoreNone<T>(s: seq<(int, T)>, v: int)
    requires forall y | y in s :: y.0 != v
    ensures WithScore(s, v) == []
    decreases |s|
  {
    if s != [] {
      WithScoreNone(s[1..], v);
    }
  }

  /** The elements with score `v` are exactly the elements of `s` that carry it. */
  lemma {:induction false} WithScoreMembers<T>(s: seq<(int, T)>, v: int, y: (int, T))
    ensures y in WithScore(s, v) <==> y in s && y.0 == v
    decreases |s|
  {
    if s != [] {
      WithScoreMembers(s[1..], v, y);
      assert s == [s[0]] + s[1..];
    }
  }

  /** Picking the elements of one score keeps positions increasing. */
  lemma {:induction false} WithScoreIncreasing(s: seq<(int, nat)>, v: int)
    requires IndexIncreasing(s)
    ensures IndexIncreasing(WithScore(s, v))
    decreases |s|
  {
    if s != [] {
      assert IndexIncreasing(s[1..]);
      WithScoreIncreasing(s[1..], v);
      var t := WithScore(s[1..], v);
      if s[0].0 == v {
        forall y | y in t
          ensures s[0].1 < y.1
        {
          WithScoreMembers(s[1..], v, y);
          var m :| 0 <= m < |s[1..]| && s[1..][m] == y;
          assert s[m + 1] == y;
        }
        var u := [s[0]] + t;
        forall i, j | 0 <= i < j < |u|
          ensures u[i].1 < u[j].1
        {
          assert u[j] == t[j - 1] && u[j] in t;
          if i > 0 {
            assert u[i] == t[i - 1];
          }
        }
      }
    }
  }

  /** Places `x` after every element whose score is at least its own. */
  function InsertDesc<T(==)>(x: (int, T), s: seq<(int, T)>): (r: seq<(int, T)>)
    requires SortedDesc(s)
    ensures SortedDesc(r)
    ensures multiset(r) == multiset(s) + multiset{x}
    ensures |r| == |s| + 1
  {
    if s == [] then [x]
    else if s[0].0 >= x.0 then
      var t := InsertDesc(x, s[1..]);
      BoundedByHead(x, s, t);
      SortedCons(s[0], t);
      assert s == [s[0]] + s[1..];
      [s[0]] + t
    else
      SortedHeadIsMax(s);
      SortedCons(x, s);
      [x] + s
  }

  /** A sequence with a head no lower than any other element stays sorted. */
  lemma SortedCons<T>(a: (int, T), t: seq<(int, T)>)
    requires SortedDesc(t) && forall y | y in t :: y.0 <= a.0
    ensures SortedDesc([a] + t)
  {
    var u := [a] + t;
    forall i, j | 0 <= i < j < |u|
      ensures u[i].0 >= u[j].0
    {
      assert u[j] == t[j - 1] && u[j] in t;
      if i > 0 {
        assert u[i] == t[i - 1];
      }
    }
  }

  /** The head of a sorted sequence scores at least as much as any element. */
  lemma SortedHeadIsMax<T>(s: seq<(int, T)>)
    requires SortedDesc(s) && s != []
    ensures forall y | y in s :: y.0 <= s[0].0
  {
    forall y | y in s
      ensures y.0 <= s[0].0
    {
      var k :| 0 <= k < |s| && s[k] == y;
    }
  }

  /** Everything in `t`, which holds the tail of `s` and `x`, scores at most the head of `s`. */
  lemma BoundedByHead<T>(x: (int, T), s: seq<(int, T)>, t: seq<(int, T)>)
    requires SortedDesc(s) && s != [] && x.0 <= s[0].0
    requires multiset(t) == multiset(s[1..]) + multiset{x}
    ensures forall y | y in t :: y.0 <= s[0].0
  {
    forall y | y in t
      ensures y.0 <= s[0].0
    {
      assert y in multiset(t);
      if y != x {
        assert y in multiset(s[1..]);
        var k :| 0 <= k < |s[1..]| && s[1..][k] == y;
        assert s[k + 1] == y;
      }
    }
  }

  lemma WithScoreCons<T>(a: (int, T), t: seq<(int, T)>, u: seq<(int, T)>, w: seq<(int, T)>, v: int)
    requires WithScore(t, v) == WithScore(u, v) + w
    ensures WithScore([a] + t, v) == WithScore([a] + u, v) + w
  {
    var h: seq<(int, T)> := if a.0 == v then [a] else [];
    WithScoreHead(a, t, v);
    WithScoreHead(a, u, v);
    assert h + (WithScore(u, v) + w) == (h + WithScore(u, v)) + w;
  }

  /** Filtering a sequence with a head keeps the head exactly when it has the score. */
  lemma WithScoreHead<T>(a: (int, T), t: seq<(int, T)>, v: int)
    ensures WithScore([a] + t, v) == (if a.0 == v then [a] else []) + WithScore(t, v)
  {
    assert ([a] + t)[0] == a && ([a] + t)[1..] == t;
  }

  lemma InsertDescStableBefore<T>(x: (int, T), s: seq<(int, T)>, v: int)
    requires SortedDesc(s) && s != [] && s[0].0 < x.0
    ensures WithScore(InsertDesc(x, s), v) == WithScore(s, v) + WithScore([x], v)
  {
    assert InsertDesc(x, s) == [x] + s;
    WithScoreAppend([x], s, v);
    if x.0 == v {
      WithScoreNone(s, v);
    }
  }

  lemma {:induction false} InsertDescStable<T>(x: (int, T), s: seq<(int, T)>, v: int)
    requires SortedDesc(s)
    ensures WithScore(InsertDesc(x, s), v) == WithScore(s, v) + WithScore([x], v)
    decreases |s|
  {
    if s == [] {
    } else if s[0].0 >= x.0 {
      var t := InsertDesc(x, s[1..]);
      InsertDescStable(x, s[1..], v);
      WithScoreCons(s[0], t, s[1..], WithScore([x], v), v);
      assert InsertDesc(x, s) == [s[0]] + t;
      assert s == [s[0]] + s[1..];
    } else {
      InsertDescStableBefore(x, s, v);
    }
  }

  /**
   * `sorted(s, key=lambda p: p[0], reverse=True)`: an insertion sort that
   * places each element after the earlier ones with the same score.
   */
  function SortDesc<T(==)>(s: seq<(int, T)>): (r: seq<(int, T)>)
    ensures SortedDesc(r)
    ensures multiset(r) == multiset(s)
    ensures |r| == |s|
  {
    if s == [] then []
    else
      assert s == s[..|s| - 1] + [s[|s| - 1]];
      InsertDesc(s[|s| - 1], SortDesc(s[..|s| - 1]))
  }

  /** Positions strictly increase along `s`. */
  predicate IndexIncreasing(s: seq<(int, nat)>) {
    forall i, j | 0 <= i < j < |s| :: s[i].1 < s[j].1
  }

  /** Among elements with equal scores, the lower position comes first. */
  predicate TiesInIndexOrder(s: seq<(int, nat)>) {
    forall i, j | 0 <= i < j < |s| && s[i].0 == s[j].0 :: s[i].1 < s[j].1
  }

  /** A head positioned before every tail element of its score keeps ties in position order. */
  lemma TiesCons(a: (int, nat), t: seq<(int, nat)>)
    requires TiesInIndexOrder(t)
    requires forall y | y in t && y.0 == a.0 :: a.1 < y.1
    ensures TiesInIndexOrder([a] + t)
  {
    var u := [a] + t;
    forall i, j | 0 <= i < j < |u| && u[i].0 == u[j].0
      ensures u[i].1 < u[j].1
    {
      assert u[j] == t[j - 1] && u[j] in t;
      if i > 0 {
        assert u[i] == t[i - 1];
      }
    }
  }

  /** The tail of a tie-ordered sequence is tie-ordered, and its head precedes every tail element of its score. */
  lemma TiesUncons(s: seq<(int, nat)>)
    requires TiesInIndexOrder(s) && s != []
    ensures TiesInIndexOrder(s[1..])
    ensures forall y | y in s[1..] && y.0 == s[0].0 :: s[0].1 < y.1
  {
    forall i, j | 0 <= i < j < |s[1..]| && s[1..][i].0 == s[1..][j].0
      ensures s[1..][i].1 < s[1..][j].1
    {
      assert s[1..][i] == s[i + 1] && s[1..][j] == s[j + 1];
    }
    forall y | y in s[1..] && y.0 == s[0].0
      ensures s[0].1 < y.1
    {
      var m :| 0 <= m < |s[1..]| && s[1..][m] == y;
      assert s[m + 1] == y;
    }
  }

  /** Inserting an element positioned after everything already sorted keeps ties in position order. */
  lemma {:induction false} InsertDescTies(x: (int, nat), s: seq<(int, nat)>)
    requires SortedDesc(s) && TiesInIndexOrder(s)
    requires forall y | y in s :: y.1 < x.1
    ensures TiesInIndexOrder(InsertDesc(x, s))
    decreases |s|
  {
    if s != [] {
      if s[0].0 >= x.0 {
        var t := InsertDesc(x, s[1..]);
        assert InsertDesc(x, s) == [s[0]] + t;
        TiesUncons(s);
        assert forall y | y in s[1..] :: y in s;
        InsertDescTies(x, s[1..]);
        forall y | y in t && y.0 == s[0].0
          ensures s[0].1 < y.1
        {
          assert y in multiset(t);
          if y != x {
            assert y in multiset(s[1..]);
          }
        }
        TiesCons(s[0], t);
      } else {
        assert InsertDesc(x, s) == [x] + s;
        SortedHeadIsMax(s);
        TiesCons(x, s);
      }
    }
  }

  /** Sorting a position-ordered sequence leaves ties in position order. */
  lemma {:induction false} SortDescTies(s: seq<(int, nat)>)
    requires IndexIncreasing(s)
    ensures TiesInIndexOrder(SortDesc(s))
    decreases |s|
  {
    if s != [] {
      var p := s[..|s| - 1];
      var x := s[|s| - 1];
      assert s == p + [x];
      assert IndexIncreasing(p);
      SortDescTies(p);
      forall y | y in SortDesc(p)
        ensures y.1 < x.1
      {
        assert y in multiset(SortDesc(p));
        assert y in multiset(p);
        var m :| 0 <= m < |p| && p[m] == y;
        assert s[m] == y;
      }
      InsertDescTies(x, SortDesc(p));
    }
  }

  /**
   * When the ties kept in `r` are a leading part of the ties in a
   * position-ordered `s`, a kept element comes before every element of
   * its score left out.
   */
  lemma PrefixTieEarlier(r: seq<(int, nat)>, s: seq<(int, nat)>, p: (int, nat), q: (int, nat))
    requires IndexIncreasing(s) && WithScore(r, p.0) <= WithScore(s, p.0)
    requires p in r && q in s && q !in r && q.0 == p.0
    ensures p.1 < q.1
  {
    var a := WithScore(r, p.0);
    var b := WithScore(s, p.0);
    WithScoreMembers(r, p.0, p);
    WithScoreMembers(r, p.0, q);
    WithScoreMembers(s, p.0, q);
    WithScoreIncreasing(s, p.0);
    var x :| 0 <= x < |a| && a[x] == p;
    var y :| 0 <= y < |b| && b[y] == q;
    assert b[x] == p;
    if y < |a| {
      assert a[y] == q;
    }
  }

  /** The sort is stable: elements with equal scores keep their relative order. */
  lemma {:induction false} SortDescStable<T>(s: seq<(int, T)>, v: int)
    ensures WithScore(SortDesc(s), v) == WithScore(s, v)
    decreases |s|
  {
    if s != [] {
      var p := s[..|s| - 1];
      var x := s[|s| - 1];
      assert s == p + [x];
      SortDescStable(p, v);
      InsertDescStable(x, SortDesc(p), v);
      WithScoreAppend(p, [x], v);
    }
  }

  lemma SortDescMembers<T>(s: seq<(int, T)>, y: (int, T))
    ensures y in SortDesc(s) <==> y in s
  {
    assert y in SortDesc(s) <==> y in multiset(SortDesc(s));
    assert y in s <==> y in multiset(s);
  }

  // ------------------------------------------------------------------
  // Concatenating per-element results
  // ------------------------------------------------------------------

  /** `[y for x in xs for y in f(x)]`: the results of `f`, element by element, in order. */
  function FlatMap<A, B>(xs: seq<A>, f: A -> seq<B>): seq<B>
  {
    if xs == [] then [] else f(xs[0]) + FlatMap(xs[1..], f)
  }

  /** The input element whose result holds a given element of the concatenation. */
  lemma FlatMapOrigin<A, B>(xs: seq<A>, f: A -> seq<B>, y: B) returns (i: nat)
    requires y in FlatMap(xs, f)
    ensures i < |xs| && y in f(xs[i])
  {
    FlatMapMembers(xs, f, y);
    i :| 0 <= i < |xs| && y in f(xs[i]);
  }

  /** An element of the concatenation comes from the result of some input element, and conversely. */
  lemma {:induction false} FlatMapMembers<A, B>(xs: seq<A>, f: A -> seq<B>, y: B)
    ensures y in FlatMap(xs, f) <==> exists i | 0 <= i < |xs| :: y in f(xs[i])
    decreases |xs|
  {
    if xs != [] {
      FlatMapMembers(xs[1..], f, y);
      if y in FlatMap(xs, f) && y !in f(xs[0]) {
        var i :| 0 <= i < |xs| - 1 && y in f(xs[1..][i]);
        assert y in f(xs[i + 1]);
      }
      if exists i | 0 <= i < |xs| :: y in f(xs[i]) {
        var i :| 0 <= i < |xs| && y in f(xs[i]);
        if i > 0 {
          assert y in f(xs[1..][i - 1]);
        }
      }
    }
  }

  // ------------------------------------------------------------------
  // Element-wise relations
  // ------------------------------------------------------------------

  /** `ys` is a prefix-aligned partner of `xs`: each `ys[k]` is related to `xs[k]`. */
  predicate Pointwise<A, B>(rel: (A, B) -> bool, xs: seq<A>, ys: seq<B>) {
    |ys| <= |xs| && forall k | 0 <= k < |ys| :: rel(xs[k], ys[k])
  }

  lemma PointwiseStep<A, B>(rel: (A, B) -> bool, xs: seq<A>, ys: seq<B>, y: B)
    requires Pointwise(rel, xs, ys) && |ys| < |xs| && rel(xs[|ys|], y)
    ensures Pointwise(rel, xs, ys + [y])
  {
  }

  /** Putting an element in front does not change the last element. */
  lemma LastOfPrepend<T>(x: T, s: seq<T>)
    requires s != []
    ensures ([x] + s)[|s|] == s[|s| - 1]
  {
  }

  /** The prefix of `xs` up to and including the first element `stop` accepts; all of `xs` when there is none. */
  function UntilFirst<T>(xs: seq<T>, stop: T -> bool): (r: seq<T>)
    ensures |r| <= |xs| && r == xs[..|r|]
    ensures forall i | 0 <= i < |r| - 1 :: !stop(r[i])
    ensures |r| < |xs| ==> r != [] && stop(r[|r| - 1])
    decreases |xs|
  {
    if xs == [] then []
    else if stop(xs[0]) then [xs[0]]
    else
      var rest := UntilFirst(xs[1..], stop);
      var r := [xs[0]] + rest;
      assert r == xs[..|r|] by {
        assert xs == [xs[0]] + xs[1..];
      }
      forall i | 0 <= i < |r| - 1
        ensures !stop(r[i])
      {
        if i > 0 {
          assert r[i] == rest[i - 1];
        }
      }
      r
  }
}
