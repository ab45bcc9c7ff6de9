/**
 * Gap counting for one group's day, as the post-processing passes use it:
 * the non-break slots lying between the earliest and the latest occupied
 * non-break slot that are themselves free. The break slot is skipped, so a
 * day using slots 3 and 5 has no gap.
 */
module Gaps {
  import opened Wrappers
  import opened Grid
  import Listing

  // ---------------------------------------------------------------------
  // Filtering increasing sequences
  // ---------------------------------------------------------------------

  predicate Increasing(xs: seq<int>) {
    forall i, j :: 0 <= i < j < |xs| ==> xs[i] < xs[j]
  }

  /** Keeping elements of an increasing sequence keeps it increasing. */
  lemma {:induction false} KeepIncreasing(xs: seq<int>, p: int -> bool)
    requires Increasing(xs)
    ensures Increasing(Listing.Keep(xs, p))
    decreases |xs|
  {
    if |xs| > 0 {
      var init := xs[..|xs| - 1];
      var last := xs[|xs| - 1];
      KeepIncreasing(init, p);
      var r := Listing.Keep(xs, p);
      var k := Listing.Keep(init, p);
      forall i, j | 0 <= i < j < |r| ensures r[i] < r[j] {
        if j < |k| {
          assert r[i] == k[i] && r[j] == k[j];
        } else {
          assert r[j] == last && r[i] == k[i];
          assert k[i] in init;
          var n :| 0 <= n < |init| && init[n] == k[i];
          assert xs[n] == init[n];
        }
      }
    }
  }

  /** Counting splits along a second condition. */
  lemma {:induction false} KeepSplit(xs: seq<int>, p: int -> bool, q: int -> bool, pq: int -> bool, pnq: int -> bool)
    requires forall s :: pq(s) == (p(s) && q(s))
    requires forall s :: pnq(s) == (p(s) && !q(s))
    ensures |Listing.Keep(xs, pq)| + |Listing.Keep(xs, pnq)| == |Listing.Keep(xs, p)|
    decreases |xs|
  {
    if |xs| > 0 {
      var init, last := xs[..|xs| - 1], xs[|xs| - 1];
      KeepSplit(init, p, q, pq, pnq);
      assert |Listing.Keep(xs, p)| == |Listing.Keep(init, p)| + (if p(last) then 1 else 0);
      assert |Listing.Keep(xs, pq)| == |Listing.Keep(init, pq)| + (if pq(last) then 1 else 0);
      assert |Listing.Keep(xs, pnq)| == |Listing.Keep(init, pnq)| + (if pnq(last) then 1 else 0);
    }
  }

  /** Equivalent conditions on the elements keep the same elements. */
  lemma {:induction false} KeepSame(xs: seq<int>, p: int -> bool, q: int -> bool)
    requires forall s :: s in xs ==> p(s) == q(s)
    ensures Listing.Keep(xs, p) == Listing.Keep(xs, q)
    decreases |xs|
  {
    if |xs| > 0 {
      var init := xs[..|xs| - 1];
      assert xs == init + [xs[|xs| - 1]];
      assert forall s :: s in init ==> s in xs;
      var last := xs[|xs| - 1];
      assert last in xs;
      KeepSame(init, p, q);
      assert Listing.Keep(xs, p) == Listing.Keep(init, p) + (if p(last) then [last] else []);
      assert Listing.Keep(xs, q) == Listing.Keep(init, q) + (if q(last) then [last] else []);
    }
  }

  /** Nothing is kept when no element satisfies the condition. */
  lemma {:induction false} KeepNone(xs: seq<int>, p: int -> bool)
    requires forall i :: 0 <= i < |xs| ==> !p(xs[i])
    ensures |Listing.Keep(xs, p)| == 0
    decreases |xs|
  {
    if |xs| > 0 {
      var init := xs[..|xs| - 1];
      assert forall i :: 0 <= i < |init| ==> init[i] == xs[i];
      KeepNone(init, p);
    }
  }

  /** In an increasing sequence the first element is the least and the last the greatest. */
  lemma {:induction false} Ends(r: seq<int>)
    requires Increasing(r) && |r| > 0
    ensures forall s :: s in r ==> r[0] <= s <= r[|r| - 1]
  {
    forall s | s in r ensures r[0] <= s <= r[|r| - 1] {
      var i :| 0 <= i < |r| && r[i] == s;
    }
  }

  /** When `lo` and `hi` belong to an increasing sequence and bound all its elements, they are its ends. */
  lemma {:induction false} EndsAre(r: seq<int>, lo: int, hi: int)
    requires Increasing(r) && lo in r && hi in r
    requires forall s :: s in r ==> lo <= s <= hi
    ensures r[0] == lo && r[|r| - 1] == hi
  {
    Ends(r);
    assert r[0] in r && r[|r| - 1] in r;
  }

  /** An increasing sequence has its first element below its second. */
  lemma {:induction false} FirstTwo(r: seq<int>)
    requires Increasing(r)
    ensures |r| >= 2 ==> r[0] < r[1]
  {
  }

  /** An increasing sequence whose only element value is `v` has length one. */
  lemma {:induction false} IncreasingSingleton(r: seq<int>, v: int)
    requires Increasing(r) && v in r && forall s :: s in r ==> s == v
    ensures r == [v]
  {
    forall i | 0 <= i < |r| ensures r[i] == v {
      assert r[i] in r;
    }
    FirstTwo(r);
  }

  /** The elements of a sequence, as a set. */
  function Elements(r: seq<int>): set<int> {
    set s | s in r
  }

  /** An increasing sequence has as many elements as its set of elements. */
  lemma {:induction false} IncreasingCard(r: seq<int>)
    requires Increasing(r)
    ensures |Elements(r)| == |r|
    decreases |r|
  {
    if |r| > 0 {
      var init, last := r[..|r| - 1], r[|r| - 1];
      assert Increasing(init);
      IncreasingCard(init);
      assert r == init + [last];
      assert Elements(r) == Elements(init) + {last};
      assert last !in Elements(init);
    }
  }

  // ---------------------------------------------------------------------
  // Occupied slots and gaps of one day
  // ---------------------------------------------------------------------

  /** The occupied non-break slots, in slot order. */
  function Present(occ: set<int>): (r: seq<int>)
    ensures forall s :: s in r <==> IsTeachingSlot(s) && s in occ
  {
    TeachingSlotsSpec();
    Listing.Keep(TeachingSlots, s => s in occ)
  }

  lemma {:induction false} PresentIncreasing(occ: set<int>)
    ensures Increasing(Present(occ))
  {
    TeachingSlotsSpec();
    KeepIncreasing(TeachingSlots, s => s in occ);
  }

  /** A day holding no non-break slot has nothing present. */
  lemma {:induction false} PresentNone(occ: set<int>)
    requires forall s :: s in occ ==> !IsTeachingSlot(s)
    ensures Present(occ) == []
  {
    TeachingSlotsSpec();
    assert forall i :: 0 <= i < |TeachingSlots| ==> IsTeachingSlot(TeachingSlots[i]);
    KeepNone(TeachingSlots, s => s in occ);
  }

  /** The free non-break slots from `lo` to `hi`, in slot order. */
  function Between(occ: set<int>, lo: int, hi: int): (r: seq<int>)
    ensures forall s :: s in r <==> IsTeachingSlot(s) && s !in occ && lo <= s <= hi
  {
    TeachingSlotsSpec();
    Listing.Keep(TeachingSlots, s => lo <= s <= hi && s !in occ)
  }

  lemma {:induction false} BetweenIncreasing(occ: set<int>, lo: int, hi: int)
    ensures Increasing(Between(occ, lo, hi))
  {
    TeachingSlotsSpec();
    KeepIncreasing(TeachingSlots, s => lo <= s <= hi && s !in occ);
  }

  /** The non-break slots from `lo` to `hi`. */
  function Span(lo: int, hi: int): (r: seq<int>)
    ensures forall s :: s in r <==> IsTeachingSlot(s) && lo <= s <= hi
  {
    TeachingSlotsSpec();
    Listing.Keep(TeachingSlots, s => lo <= s <= hi)
  }

  /**
   * The gaps of a day whose occupied slots are `occ`: none when no non-break
   * slot is occupied, otherwise the free non-break slots between the first
   * and the last occupied one.
   */
  function GapSlots(occ: set<int>): seq<int> {
    var pr := Present(occ);
    if |pr| == 0 then [] else Between(occ, pr[0], pr[|pr| - 1])
  }

  /** The number of gaps the passes count for a day. */
  function GapCount(occ: set<int>): nat {
    |GapSlots(occ)|
  }

  /** The occupied non-break slots leave no free non-break slot between two of them. */
  ghost predicate Contiguous(occ: set<int>) {
    forall i, j, k :: 0 <= i < j < k < |TeachingSlots| && TeachingSlots[i] in occ && TeachingSlots[k] in occ ==>
      TeachingSlots[j] in occ
  }

  /** Gap count plus occupied slots is the number of non-break slots from the first to the last occupied one. */
  lemma {:induction false} GapCountSpan(occ: set<int>)
    requires |Present(occ)| > 0
    ensures GapCount(occ) + |Present(occ)| == |Span(Present(occ)[0], Present(occ)[|Present(occ)| - 1])|
  {
    var pr := Present(occ);
    var lo, hi := pr[0], pr[|pr| - 1];
    PresentIncreasing(occ);
    Ends(pr);
    KeepSplit(TeachingSlots, s => lo <= s <= hi, s => s in occ,
              s => lo <= s <= hi && s in occ, s => lo <= s <= hi && s !in occ);
    TeachingSlotsSpec();
    KeepSame(TeachingSlots, s => lo <= s <= hi && s in occ, s => s in occ);
  }

  lemma {:induction false} NoGapContiguous(occ: set<int>)
    requires |Present(occ)| > 0 && GapCount(occ) == 0
    ensures Contiguous(occ)
  {
    var pr := Present(occ);
    var gs := Between(occ, pr[0], pr[|pr| - 1]);
    PresentIncreasing(occ);
    Ends(pr);
    forall i, j, k | 0 <= i < j < k < |TeachingSlots| && TeachingSlots[i] in occ && TeachingSlots[k] in occ
      ensures TeachingSlots[j] in occ
    {
      TeachingSlotsSpec();
      assert TeachingSlots[i] in pr && TeachingSlots[k] in pr;
      assert TeachingSlots[j] !in gs;
    }
  }

  lemma {:induction false} GapNotContiguous(occ: set<int>)
    requires |Present(occ)| > 0 && GapCount(occ) > 0
    ensures !Contiguous(occ)
  {
    TeachingSlotsSpec();
    var pr := Present(occ);
    var gs := Between(occ, pr[0], pr[|pr| - 1]);
    PresentIncreasing(occ);
    Ends(pr);
    assert gs[0] in gs;
    var j :| 0 <= j < |TeachingSlots| && TeachingSlots[j] == gs[0];
    assert pr[0] in pr && pr[|pr| - 1] in pr;
    var i :| 0 <= i < |TeachingSlots| && TeachingSlots[i] == pr[0];
    var k :| 0 <= k < |TeachingSlots| && TeachingSlots[k] == pr[|pr| - 1];
    assert i < j < k;
  }

  /** A day has no gap exactly when its occupied non-break slots are contiguous. */
  lemma {:induction false} GapCountZeroIffContiguous(occ: set<int>)
    ensures GapCount(occ) == 0 <==> Contiguous(occ)
  {
    if |Present(occ)| == 0 {
      TeachingSlotsSpec();
      forall i | 0 <= i < |TeachingSlots| ensures TeachingSlots[i] !in occ {
        assert TeachingSlots[i] !in Present(occ);
      }
    } else if GapCount(occ) == 0 {
      NoGapContiguous(occ);
    } else {
      GapNotContiguous(occ);
    }
  }

  /** A day holding no non-break slot (empty, or only the break) has no gap. */
  lemma {:induction false} GapCountNoClasses(occ: set<int>)
    requires forall s :: s in occ ==> !IsTeachingSlot(s)
    ensures GapCount(occ) == 0
  {
    PresentNone(occ);
  }

  /** Slots 3 and 5 sit either side of the break, so a day using just those two has no gap. */
  lemma {:induction false} GapCountAcrossBreak(occ: set<int>)
    requires 3 in occ && 5 in occ
    requires forall s :: s in occ ==> s == 3 || s == 5
    ensures GapCount(occ) == 0
  {
    PresentIncreasing(occ);
    EndsAre(Present(occ), 3, 5);
    var gs := Between(occ, 3, 5);
    assert Elements(gs) == {};
    BetweenIncreasing(occ, 3, 5);
    IncreasingCard(gs);
  }

  /** Slots 2 and 5 leave slot 3 free: one gap. */
  lemma {:induction false} GapCountOneHole(occ: set<int>)
    requires 2 in occ && 5 in occ
    requires forall s :: s in occ ==> s == 2 || s == 5
    ensures GapCount(occ) == 1
  {
    PresentIncreasing(occ);
    EndsAre(Present(occ), 2, 5);
    var gs := Between(occ, 2, 5);
    forall s | s in gs ensures s == 3 {
      assert s != 2 && s != 4 && s != 5;
    }
    BetweenIncreasing(occ, 2, 5);
    IncreasingSingleton(gs, 3);
  }

  /** The first gap of a day, if any: the earliest free non-break slot between its first and last class. */
  function InnerHole(occ: set<int>): (r: Option<int>)
    ensures r.Some? <==> GapCount(occ) > 0
    ensures r.Some? ==> r.value in GapSlots(occ) && forall s :: s in GapSlots(occ) ==> r.value <= s
  {
    var gs := GapSlots(occ);
    if |gs| == 0 then None
    else
      var pr := Present(occ);
      BetweenIncreasing(occ, pr[0], pr[|pr| - 1]);
      Ends(gs);
      Some(gs[0])
  }

  /** Occupying the inner hole of a day keeps its first and last occupied slots. */
  lemma {:induction false} FillKeepsEnds(occ: set<int>, h: int, lo: int, hi: int)
    requires Present(occ) != [] && lo == Present(occ)[0] && hi == Present(occ)[|Present(occ)| - 1]
    requires h in Between(occ, lo, hi)
    ensures Present(occ + {h}) != []
    ensures Present(occ + {h})[0] == lo && Present(occ + {h})[|Present(occ + {h})| - 1] == hi
  {
    var pr := Present(occ);
    PresentIncreasing(occ);
    Ends(pr);
    assert lo in pr && hi in pr;
    assert lo <= h <= hi && IsTeachingSlot(h);
    GrownEnds(occ, h, lo, hi);
  }

  /** A class added inside a day's span leaves the ends of its occupied slots where they were. */
  lemma {:induction false} GrownEnds(occ: set<int>, h: int, lo: int, hi: int)
    requires lo in Present(occ) && hi in Present(occ)
    requires forall s :: s in Present(occ) ==> lo <= s <= hi
    requires lo <= h <= hi && IsTeachingSlot(h)
    ensures Present(occ + {h}) != []
    ensures Present(occ + {h})[0] == lo && Present(occ + {h})[|Present(occ + {h})| - 1] == hi
  {
    var q := Present(occ + {h});
    PresentIncreasing(occ + {h});
    assert lo in q && hi in q;
    forall s | s in q ensures lo <= s <= hi {
      if s != h {
        assert s in Present(occ);
      }
    }
    EndsAre(q, lo, hi);
  }

  lemma {:induction false} ElementsRemove(a: seq<int>, b: seq<int>, occ: set<int>, h: int, lo: int, hi: int)
    requires forall s :: s in a <==> IsTeachingSlot(s) && s !in occ && lo <= s <= hi
    requires forall s :: s in b <==> IsTeachingSlot(s) && s !in occ + {h} && lo <= s <= hi
    ensures Elements(b) == Elements(a) - {h}
  {
    forall s ensures s in Elements(b) <==> s in Elements(a) - {h} {
      assert s in Elements(b) <==> s in b;
      assert s in Elements(a) <==> s in a;
    }
  }

  /** Occupying any gap of a day removes exactly that one gap. */
  lemma {:induction false} FillGap(occ: set<int>, h: int)
    requires h in GapSlots(occ)
    ensures GapCount(occ + {h}) == GapCount(occ) - 1
  {
    var pr := Present(occ);
    assert pr != [];
    GapSlotsAre(occ, pr[0], pr[|pr| - 1]);
    FillGapWithin(occ, h, pr[0], pr[|pr| - 1]);
  }

  lemma {:induction false} FillGapWithin(occ: set<int>, h: int, lo: int, hi: int)
    requires Present(occ) != [] && lo == Present(occ)[0] && hi == Present(occ)[|Present(occ)| - 1]
    requires h in Between(occ, lo, hi)
    ensures GapCount(occ + {h}) == GapCount(occ) - 1
  {
    FillKeepsEnds(occ, h, lo, hi);
    GapSlotsAre(occ + {h}, lo, hi);
    FillBetween(occ, h, lo, hi);
  }

  /** The gaps of a day with classes are the free slots between its first and last class. */
  lemma {:induction false} GapSlotsAre(occ: set<int>, lo: int, hi: int)
    requires Present(occ) != [] && lo == Present(occ)[0] && hi == Present(occ)[|Present(occ)| - 1]
    ensures GapSlots(occ) == Between(occ, lo, hi)
  {
  }

  /**
   * Moving a class into the inner hole of a day, as the inter-day balancing
   * does, removes exactly one gap from that day.
   */
  lemma {:induction false} FillInnerHole(occ: set<int>, h: int)
    requires InnerHole(occ) == Some(h)
    ensures GapCount(occ + {h}) == GapCount(occ) - 1
  {
    FillGap(occ, h);
  }

  lemma {:induction false} FillBetween(occ: set<int>, h: int, lo: int, hi: int)
    requires h in Between(occ, lo, hi)
    ensures |Between(occ + {h}, lo, hi)| == |Between(occ, lo, hi)| - 1
  {
    var a, b := Between(occ, lo, hi), Between(occ + {h}, lo, hi);
    ElementsRemove(a, b, occ, h, lo, hi);
    BetweenIncreasing(occ, lo, hi);
    BetweenIncreasing(occ + {h}, lo, hi);
    CardRemove(a, b, h);
  }

  lemma {:induction false} CardRemove(a: seq<int>, b: seq<int>, h: int)
    requires Increasing(a) && Increasing(b) && h in a
    requires Elements(b) == Elements(a) - {h}
    ensures |b| == |a| - 1
  {
    IncreasingCard(a);
    IncreasingCard(b);
    assert h in Elements(a);
  }
}
