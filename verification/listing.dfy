/**
 * Order-preserving list operations the read-side pages are built from:
 * `Array.prototype.filter` and `[...new Set(xs)]`.
 */
module Listing {

  /** The elements of `xs` that satisfy `p`, in order: `xs.filter(p)`. */
  function Keep<T(==,!new)>(xs: seq<T>, p: T -> bool): (r: seq<T>)
    ensures |r| <= |xs|
    ensures forall x :: x in r <==> x in xs && p(x)
  {
    if |xs| == 0 then []
    else
      var init := xs[..|xs| - 1];
      var x := xs[|xs| - 1];
      assert xs == init + [x];
      Keep(init, p) + (if p(x) then [x] else [])
  }

  /** Filtering distributes over concatenation, so it keeps the order of what it keeps. */
  lemma {:induction false} KeepAppend<T(!new)>(a: seq<T>, b: seq<T>, p: T -> bool)
    ensures Keep(a + b, p) == Keep(a, p) + Keep(b, p)
    decreases |b|
  {
    if |b| == 0 {
      assert a + b == a;
    } else {
      var init := b[..|b| - 1];
      var x := b[|b| - 1];
      assert a + b == (a + init) + [x];
      assert b == init + [x];
      KeepSnoc(a + init, x, p);
      KeepSnoc(init, x, p);
      KeepAppend(a, init, p);
    }
  }

  /** Filtering keeps every copy of what passes and none of what fails. */
  lemma {:induction false} KeepCount<T(!new)>(xs: seq<T>, p: T -> bool, x: T)
    ensures multiset(Keep(xs, p))[x] == if p(x) then multiset(xs)[x] else 0
    decreases |xs|
  {
    if |xs| > 0 {
      var init := xs[..|xs| - 1];
      assert xs == init + [xs[|xs| - 1]];
      KeepCount(init, p, x);
    }
  }

  /** What passes and what fails together make up the whole list. */
  lemma {:induction false} KeepSplit<T(!new)>(xs: seq<T>, p: T -> bool, q: T -> bool)
    requires forall x :: q(x) == !p(x)
    ensures |Keep(xs, p)| + |Keep(xs, q)| == |xs|
    decreases |xs|
  {
    if |xs| > 0 {
      KeepSplit(xs[..|xs| - 1], p, q);
    }
  }

  /** Some kept element satisfies `q` exactly when some element passes `p` and satisfies `q`. */
  lemma {:induction false} KeepSome<T(!new)>(xs: seq<T>, p: T -> bool, q: T -> bool)
    ensures (exists i :: 0 <= i < |Keep(xs, p)| && q(Keep(xs, p)[i])) <==> (exists i :: 0 <= i < |xs| && p(xs[i]) && q(xs[i]))
  {
    var r := Keep(xs, p);
    if exists i :: 0 <= i < |r| && q(r[i]) {
      var i :| 0 <= i < |r| && q(r[i]);
      assert r[i] in r;
      var j :| 0 <= j < |xs| && xs[j] == r[i];
      assert p(xs[j]) && q(xs[j]);
    }
    if exists i :: 0 <= i < |xs| && p(xs[i]) && q(xs[i]) {
      var i :| 0 <= i < |xs| && p(xs[i]) && q(xs[i]);
      assert xs[i] in xs;
      assert xs[i] in r;
      var j :| 0 <= j < |r| && r[j] == xs[i];
      assert q(r[j]);
      assert 0 <= j < |Keep(xs, p)| && q(Keep(xs, p)[j]);
    }
  }

  /** Filtering a list whose every element passes gives it back. */
  lemma {:induction false} KeepAll<T(!new)>(xs: seq<T>, p: T -> bool)
    requires forall i :: 0 <= i < |xs| ==> p(xs[i])
    ensures Keep(xs, p) == xs
    decreases |xs|
  {
    if |xs| > 0 {
      var init := xs[..|xs| - 1];
      assert forall i :: 0 <= i < |init| ==> init[i] == xs[i];
      KeepAll(init, p);
      assert xs == init + [xs[|xs| - 1]];
      KeepSnoc(init, xs[|xs| - 1], p);
    }
  }

  /** Filtering a list with one more element at the end. */
  lemma {:induction false} KeepSnoc<T(!new)>(init: seq<T>, x: T, p: T -> bool)
    ensures Keep(init + [x], p) == Keep(init, p) + (if p(x) then [x] else [])
  {
    assert (init + [x])[..|init|] == init;
  }

  /** No element occurs twice. */
  predicate Distinct<T(==)>(xs: seq<T>) {
    forall i, j :: 0 <= i < j < |xs| ==> xs[i] != xs[j]
  }

  /** `a` occurs in `xs` before any occurrence of `b`. */
  predicate Before<T(==)>(xs: seq<T>, a: T, b: T) {
    exists i :: 0 <= i < |xs| && xs[i] == a && b !in xs[..i]
  }

  /**
   * `[...new Set(xs)]`: each element once, at its first occurrence, so in
   * the order in which the elements are first seen.
   */
  function Dedup<T(==,!new)>(xs: seq<T>): (r: seq<T>)
    ensures |r| <= |xs|
    ensures Distinct(r)
    ensures forall x :: x in r <==> x in xs
    ensures FirstSeenOrder(xs, r)
  {
    if |xs| == 0 then []
    else
      var init := xs[..|xs| - 1];
      var x := xs[|xs| - 1];
      assert xs == init + [x];
      var prev := Dedup(init);
      forall i, j | 0 <= i < j < |prev|
        ensures Before(xs, prev[i], prev[j])
      {
        BeforeSnoc(init, x, prev[i], prev[j]);
      }
      if x in prev then prev
      else
        forall i | 0 <= i < |prev|
          ensures Before(xs, prev[i], x)
        {
          BeforeNew(init, x, prev[i]);
        }
        prev + [x]
  }

  /** An order seen in a list stays seen when an element is appended. */
  lemma {:induction false} BeforeSnoc<T>(init: seq<T>, x: T, a: T, b: T)
    requires Before(init, a, b)
    ensures Before(init + [x], a, b)
  {
    var i :| 0 <= i < |init| && init[i] == a && b !in init[..i];
    assert (init + [x])[..i] == init[..i];
    assert (init + [x])[i] == a;
  }

  /** An element already seen comes before a new one appended. */
  lemma {:induction false} BeforeNew<T>(init: seq<T>, x: T, a: T)
    requires a in init && x !in init
    ensures Before(init + [x], a, x)
  {
    var i :| 0 <= i < |init| && init[i] == a;
    assert (init + [x])[..i] == init[..i];
    assert (init + [x])[i] == a;
  }

  /** Two elements each seen before the other are the same element. */
  lemma {:induction false} BeforeAntisymmetric<T>(xs: seq<T>, a: T, b: T)
    requires Before(xs, a, b) && Before(xs, b, a)
    ensures a == b
  {
    var i :| 0 <= i < |xs| && xs[i] == a && b !in xs[..i];
    var j :| 0 <= j < |xs| && xs[j] == b && a !in xs[..j];
  }

  /** `r` lists its elements in the order in which `xs` first shows them. */
  predicate FirstSeenOrder<T(==)>(xs: seq<T>, r: seq<T>) {
    forall i, j :: 0 <= i < j < |r| ==> Before(xs, r[i], r[j])
  }

  /**
   * `[...new Set(xs)]` is the only duplicate-free list of the elements of
   * `xs` in first-seen order.
   */
  lemma {:induction false} DedupUnique<T(!new)>(xs: seq<T>, r: seq<T>)
    requires Distinct(r)
    requires forall x :: x in r <==> x in xs
    requires FirstSeenOrder(xs, r)
    ensures r == Dedup(xs)
  {
    SameOrderedLists(xs, r, Dedup(xs));
  }

  lemma {:induction false} SameOrderedLists<T(!new)>(xs: seq<T>, r1: seq<T>, r2: seq<T>)
    requires Distinct(r1) && Distinct(r2)
    requires forall x :: x in r1 <==> x in r2
    requires FirstSeenOrder(xs, r1) && FirstSeenOrder(xs, r2)
    ensures r1 == r2
    decreases |r1|
  {
    if |r1| == 0 {
      if |r2| > 0 {
        HeadIsMember(r2);
        assert false;
      }
    } else {
      assert r1[0] in r1 && r1[0] in r2;
      var a, b := r1[0], r2[0];
      assert b in r2 && b in r1;
      if a != b {
        var k :| 0 <= k < |r1| && r1[k] == b;
        var k' :| 0 <= k' < |r2| && r2[k'] == a;
        assert Before(xs, a, b) && Before(xs, b, a);
        BeforeAntisymmetric(xs, a, b);
      }
      var t1, t2 := r1[1..], r2[1..];
      forall x
        ensures x in t1 <==> x in t2
      {
        if x in t1 {
          var k :| 0 <= k < |t1| && t1[k] == x;
          assert r1[k + 1] == x;
          assert x != a;
          assert x in r2;
          var m :| 0 <= m < |r2| && r2[m] == x;
          assert m != 0;
          assert t2[m - 1] == x;
        }
        if x in t2 {
          var k :| 0 <= k < |t2| && t2[k] == x;
          assert r2[k + 1] == x;
          assert x != b;
          assert x in r1;
          var m :| 0 <= m < |r1| && r1[m] == x;
          assert m != 0;
          assert t1[m - 1] == x;
        }
      }
      SameOrderedLists(xs, t1, t2);
      assert r1 == [a] + t1 && r2 == [b] + t2;
    }
  }

  lemma {:induction false} HeadIsMember<T>(r: seq<T>)
    requires |r| > 0
    ensures r[0] in r
  {
  }

  /** A list that is already duplicate-free is its own set. */
  lemma {:induction false} DedupOfDistinct<T(!new)>(xs: seq<T>)
    requires Distinct(xs)
    ensures Dedup(xs) == xs
    decreases |xs|
  {
    if |xs| > 0 {
      var init := xs[..|xs| - 1];
      DedupOfDistinct(init);
      assert xs[|xs| - 1] !in init;
    }
  }

  /** Taking the set twice changes nothing. */
  lemma {:induction false} DedupIdempotent<T(!new)>(xs: seq<T>)
    ensures Dedup(Dedup(xs)) == Dedup(xs)
  {
    DedupOfDistinct(Dedup(xs));
  }
}
