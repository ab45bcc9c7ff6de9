/**
 * The three post-processing passes that run after the greedy phase:
 * same-day compaction, inter-day balancing and weekly balancing. Each pass
 * relocates single sessions; which session goes where is chosen by
 * heuristics (nearest session, day with most gaps, busiest day), modelled
 * here as an arbitrary sequence of requested moves. Every requested move is
 * carried out only if it passes the guard the pass checks, and the guarded
 * moves keep the hard rules and keep the bookkeeping in step.
 */
module Passes {
  import opened Wrappers
  import opened Grid
  import opened Schedule
  import opened Gaps

  // ---------------------------------------------------------------------
  // Views of a timetable used by the passes
  // ---------------------------------------------------------------------

  /** The slots group `g` occupies on day `d`. */
  function GroupDaySlots(S: seq<Session>, g: int, d: int): (r: set<int>)
    ensures forall s :: s in r <==> (d, s) in GroupSlots(S, g)
  {
    var r := set i | 0 <= i < |S| && S[i].group == g && S[i].day == d :: S[i].slot;
    assert forall s :: (d, s) in GroupSlots(S, g) ==> s in r by {
      forall s | (d, s) in GroupSlots(S, g) ensures s in r {
        var i :| 0 <= i < |S| && S[i].group == g && (d, s) == (S[i].day, S[i].slot);
      }
    }
    r
  }

  /** The teacher occupancy rebuilt from the sessions before compaction. */
  function TeacherOccupancy(S: seq<Session>): (occ: map<int, set<(int, int)>>)
    ensures forall t :: SlotsOf(occ, t) == TeacherSlots(S, t)
  {
    if |S| == 0 then map[]
    else
      var init, x := S[..|S| - 1], S[|S| - 1];
      var prev := TeacherOccupancy(init);
      assert S == init + [x];
      forall t ensures TeacherSlots(S, t) == TeacherSlots(init, t) + (if x.teacher == t then {(x.day, x.slot)} else {}) {
        TeacherSlotsAppend(init, x, t);
      }
      prev[x.teacher := SlotsOf(prev, x.teacher) + {(x.day, x.slot)}]
  }

  /** The same class (teacher, subject, group), wherever it is placed. */
  predicate SameClass(x: Session, y: Session) {
    x.teacher == y.teacher && x.subject == y.subject && x.group == y.group
  }

  // ---------------------------------------------------------------------
  // Guards and ledger updates
  // ---------------------------------------------------------------------

  /** The compaction check: the teacher is available at the new slot's hour that day and not busy at the new slot. */
  predicate CompactionGuard(L: Ledger, avail: Availability, x: Session, s: int)
    requires IsSlotId(s)
  {
    && (x.day, SlotStart(s)) in AvailableAt(avail, x.teacher)
    && (x.day, s) !in SlotsOf(L.occupied, x.teacher)
  }

  /**
   * The check before moving a session to another day, shared by the
   * inter-day and the weekly balancing: the teacher is available and free at
   * the target, has fewer than two sessions with the group that day, and the
   * subject has fewer than two sessions with the group that day.
   */
  predicate TransferGuard(L: Ledger, avail: Availability, x: Session, d: int, s: int)
    requires IsSlotId(s)
  {
    && (d, SlotStart(s)) in AvailableAt(avail, x.teacher)
    && (d, s) !in SlotsOf(L.occupied, x.teacher)
    && Get(L.teacherGroupDay, (x.teacher, x.group, d)) < MaxTeacherGroupPerDay
    && Get(L.groupSubjectDay, (x.group, x.subject, d)) < MaxSubjectGroupPerDay
  }

  /** The teacher occupancy after moving `x` to `y`: the old (day, slot) released, the new one taken. */
  function MoveOccupancy(occupied: map<int, set<(int, int)>>, x: Session, y: Session): map<int, set<(int, int)>> {
    occupied[x.teacher := SlotsOf(occupied, x.teacher) - {(x.day, x.slot)} + {(y.day, y.slot)}]
  }

  /** Decrements a counter, never below zero. */
  function Decrement<K>(m: map<K, int>, k: K): map<K, int> {
    m[k := if Get(m, k) - 1 > 0 then Get(m, k) - 1 else 0]
  }

  /** Increments a counter. */
  function Increment<K>(m: map<K, int>, k: K): map<K, int> {
    m[k := Get(m, k) + 1]
  }

  /** Compaction only updates the teacher occupancy: the day does not change. */
  function Shift(L: Ledger, x: Session, y: Session): Ledger {
    L.(occupied := MoveOccupancy(L.occupied, x, y))
  }

  /** A move between days updates the occupancy and both per-day counters. */
  function Transfer(L: Ledger, x: Session, y: Session): Ledger {
    L.(occupied := MoveOccupancy(L.occupied, x, y),
       teacherGroupDay := Increment(Decrement(L.teacherGroupDay, TeacherGroupDay(x)), TeacherGroupDay(y)),
       groupSubjectDay := Increment(Decrement(L.groupSubjectDay, GroupSubjectDay(x)), GroupSubjectDay(y)))
  }

  // ---------------------------------------------------------------------
  // Moving one session keeps the hard rules
  // ---------------------------------------------------------------------

  lemma {:induction false} TeacherSlotsUpdate(S: seq<Session>, i: int, y: Session, t: int)
    requires TeacherNeverDoubleBooked(S) && 0 <= i < |S| && y.teacher == S[i].teacher
    ensures TeacherSlots(S[i := y], t)
            == if t == y.teacher then TeacherSlots(S, t) - {(S[i].day, S[i].slot)} + {(y.day, y.slot)} else TeacherSlots(S, t)
  {
    var T := S[i := y];
    var x := S[i];
    forall p | p in TeacherSlots(T, t)
      ensures p in (if t == y.teacher then TeacherSlots(S, t) - {(x.day, x.slot)} + {(y.day, y.slot)} else TeacherSlots(S, t))
    {
      var j :| 0 <= j < |T| && T[j].teacher == t && p == (T[j].day, T[j].slot);
      if j != i {
        assert T[j] == S[j];
        assert (S[j].day, S[j].slot) in TeacherSlots(S, t);
      }
    }
    forall p | p in (if t == y.teacher then TeacherSlots(S, t) - {(x.day, x.slot)} + {(y.day, y.slot)} else TeacherSlots(S, t))
      ensures p in TeacherSlots(T, t)
    {
      if t == y.teacher && p == (y.day, y.slot) {
        assert T[i] == y;
      } else {
        var j :| 0 <= j < |S| && S[j].teacher == t && p == (S[j].day, S[j].slot);
        assert j != i;
        assert T[j] == S[j];
      }
    }
  }

  lemma {:induction false} MoveKeepsBookings(S: seq<Session>, i: int, y: Session)
    requires TeacherNeverDoubleBooked(S) && GroupNeverDoubleBooked(S)
    requires 0 <= i < |S| && SameClass(S[i], y)
    requires (y.day, y.slot) !in TeacherSlots(S, y.teacher)
    requires (y.day, y.slot) !in GroupSlots(S, y.group)
    ensures TeacherNeverDoubleBooked(S[i := y]) && GroupNeverDoubleBooked(S[i := y])
  {
    var T := S[i := y];
    forall a, b | 0 <= a < b < |T|
      ensures !(T[a].teacher == T[b].teacher && T[a].day == T[b].day && T[a].slot == T[b].slot)
      ensures !(T[a].group == T[b].group && T[a].day == T[b].day && T[a].slot == T[b].slot)
    {
      if a == i {
        assert T[b] == S[b];
        assert (S[b].day, S[b].slot) in TeacherSlots(S, S[b].teacher);
        assert (S[b].day, S[b].slot) in GroupSlots(S, S[b].group);
      } else if b == i {
        assert T[a] == S[a];
        assert (S[a].day, S[a].slot) in TeacherSlots(S, S[a].teacher);
        assert (S[a].day, S[a].slot) in GroupSlots(S, S[a].group);
      } else {
        assert T[a] == S[a] && T[b] == S[b];
      }
    }
  }

  lemma {:induction false} MoveKeepsOneSubject(S: seq<Session>, i: int, y: Session)
    requires OneSubjectPerTeacherAndGroup(S) && 0 <= i < |S| && SameClass(S[i], y)
    ensures OneSubjectPerTeacherAndGroup(S[i := y])
  {
    var T := S[i := y];
    forall a, b | 0 <= a < |T| && 0 <= b < |T| && T[a].teacher == T[b].teacher && T[a].group == T[b].group
      ensures T[a].subject == T[b].subject
    {
      if a == i { assert T[b].subject == S[b].subject; }
      if b == i { assert T[a].subject == S[a].subject; }
    }
  }

  lemma {:induction false} MoveKeepsCaps(S: seq<Session>, i: int, y: Session)
    requires DailyCapsHold(S) && 0 <= i < |S| && SameClass(S[i], y)
    requires y.day == S[i].day ||
      (Count(S, TeacherGroupDay, TeacherGroupDay(y)) < MaxTeacherGroupPerDay &&
       Count(S, GroupSubjectDay, GroupSubjectDay(y)) < MaxSubjectGroupPerDay)
    ensures DailyCapsHold(S[i := y])
  {
    var T := S[i := y];
    forall k ensures Count(T, TeacherGroupDay, k) <= MaxTeacherGroupPerDay {
      CountUpdate(S, i, y, TeacherGroupDay, k);
    }
    forall k ensures Count(T, GroupSubjectDay, k) <= MaxSubjectGroupPerDay {
      CountUpdate(S, i, y, GroupSubjectDay, k);
    }
  }

  /**
   * Moving one session of a timetable that keeps the hard rules to a
   * well-timed place its teacher is available at, where neither its teacher
   * nor its group is busy, and (when the day changes) below both daily caps,
   * keeps the hard rules.
   */
  lemma {:induction false} MoveKeepsRules(S: seq<Session>, avail: Availability, i: int, y: Session)
    requires HardRules(S, avail) && 0 <= i < |S| && SameClass(S[i], y)
    requires WellTimed(y) && (y.day, y.start) in AvailableAt(avail, y.teacher)
    requires (y.day, y.slot) !in TeacherSlots(S, y.teacher)
    requires (y.day, y.slot) !in GroupSlots(S, y.group)
    requires y.day == S[i].day ||
      (Count(S, TeacherGroupDay, TeacherGroupDay(y)) < MaxTeacherGroupPerDay &&
       Count(S, GroupSubjectDay, GroupSubjectDay(y)) < MaxSubjectGroupPerDay)
    ensures HardRules(S[i := y], avail)
  {
    var T := S[i := y];
    MoveKeepsBookings(S, i, y);
    MoveKeepsOneSubject(S, i, y);
    MoveKeepsCaps(S, i, y);
    assert forall j :: 0 <= j < |T| && j != i ==> T[j] == S[j];
  }

  lemma {:induction false} MoveKeepsSubjects(L: Ledger, S: seq<Session>, i: int, y: Session)
    requires Tracks(L, S) && 0 <= i < |S| && SameClass(S[i], y)
    ensures forall j {:trigger S[i := y][j]} :: 0 <= j < |S| ==>
      (S[i := y][j].teacher, S[i := y][j].group) in L.subjectInGroup &&
      L.subjectInGroup[(S[i := y][j].teacher, S[i := y][j].group)] == S[i := y][j].subject
  {
  }

  /** Compaction's ledger update keeps the ledger in step with a same-day move. */
  lemma {:induction false} ShiftTracks(L: Ledger, S: seq<Session>, i: int, y: Session)
    requires Tracks(L, S) && TeacherNeverDoubleBooked(S)
    requires 0 <= i < |S| && SameClass(S[i], y) && y.day == S[i].day
    ensures Tracks(Shift(L, S[i], y), S[i := y])
  {
    var T := S[i := y];
    var L' := Shift(L, S[i], y);
    forall t ensures SlotsOf(L'.occupied, t) == TeacherSlots(T, t) {
      TeacherSlotsUpdate(S, i, y, t);
    }
    forall k ensures Get(L'.teacherGroupDay, k) == Count(T, TeacherGroupDay, k) {
      CountUpdate(S, i, y, TeacherGroupDay, k);
    }
    forall k ensures Get(L'.groupSubjectDay, k) == Count(T, GroupSubjectDay, k) {
      CountUpdate(S, i, y, GroupSubjectDay, k);
    }
    MoveKeepsSubjects(L, S, i, y);
  }

  lemma {:induction false} CounterMove<K>(m: map<K, int>, S: seq<Session>, i: int, y: Session, key: Session -> K)
    requires 0 <= i < |S|
    requires forall k :: Get(m, k) == Count(S, key, k)
    ensures forall k :: Get(Increment(Decrement(m, key(S[i])), key(y)), k) == Count(S[i := y], key, k)
  {
    CountPositive(S, i, key);
    forall k ensures Get(Increment(Decrement(m, key(S[i])), key(y)), k) == Count(S[i := y], key, k) {
      CountUpdate(S, i, y, key, k);
    }
  }

  /** The ledger update of a move between days keeps the ledger in step. */
  lemma {:induction false} TransferTracks(L: Ledger, S: seq<Session>, i: int, y: Session)
    requires Tracks(L, S) && TeacherNeverDoubleBooked(S)
    requires 0 <= i < |S| && SameClass(S[i], y)
    ensures Tracks(Transfer(L, S[i], y), S[i := y])
  {
    var T := S[i := y];
    var L' := Transfer(L, S[i], y);
    forall t ensures SlotsOf(L'.occupied, t) == TeacherSlots(T, t) {
      TeacherSlotsUpdate(S, i, y, t);
    }
    CounterMove(L.teacherGroupDay, S, i, y, TeacherGroupDay);
    CounterMove(L.groupSubjectDay, S, i, y, GroupSubjectDay);
    assert L'.teacherGroupDay == Increment(Decrement(L.teacherGroupDay, TeacherGroupDay(S[i])), TeacherGroupDay(y));
    forall k ensures Get(L'.teacherGroupDay, k) == Count(T, TeacherGroupDay, k) {
      assert Get(Increment(Decrement(L.teacherGroupDay, TeacherGroupDay(S[i])), TeacherGroupDay(y)), k) == Count(S[i := y], TeacherGroupDay, k);
    }
    assert L'.groupSubjectDay == Increment(Decrement(L.groupSubjectDay, GroupSubjectDay(S[i])), GroupSubjectDay(y));
    forall k ensures Get(L'.groupSubjectDay, k) == Count(T, GroupSubjectDay, k) {
      assert Get(Increment(Decrement(L.groupSubjectDay, GroupSubjectDay(S[i])), GroupSubjectDay(y)), k) == Count(S[i := y], GroupSubjectDay, k);
    }
    assert OccupancyTracks(L', T);
    MoveKeepsSubjects(L, S, i, y);
  }

  // ---------------------------------------------------------------------
  // One move of each pass
  // ---------------------------------------------------------------------

  /** The timetable and ledger after a move. */
  datatype Moved = Moved(sessions: seq<Session>, ledger: Ledger)

  /**
   * Compaction moves session `i` to slot `s` of its own day, provided `s`
   * is a teaching slot the group does not use that day (the pass only
   * targets such slots) and the compaction check passes.
   */
  function CompactionMove(S: seq<Session>, L: Ledger, avail: Availability, i: int, s: int): (r: Option<Moved>)
    ensures r.Some? <==>
      0 <= i < |S| && IsDay(S[i].day) && IsTeachingSlot(s) && s !in GroupDaySlots(S, S[i].group, S[i].day) &&
      CompactionGuard(L, avail, S[i], s)
    ensures r.Some? ==> |r.value.sessions| == |S|
    ensures r.Some? ==> r.value.sessions[i].slot == s
    ensures r.Some? ==> forall j :: 0 <= j < |S| ==> SameClass(r.value.sessions[j], S[j]) && r.value.sessions[j].day == S[j].day
    ensures r.Some? ==> forall j :: 0 <= j < |S| && j != i ==> r.value.sessions[j] == S[j]
  {
    if 0 <= i < |S| && IsDay(S[i].day) && IsTeachingSlot(s) && s !in GroupDaySlots(S, S[i].group, S[i].day) && CompactionGuard(L, avail, S[i], s) then
      var y := NewSession(S[i].teacher, S[i].subject, S[i].group, S[i].day, s);
      Some(Moved(S[i := y], Shift(L, S[i], y)))
    else None
  }

  /** A compaction move keeps the hard rules and the ledger in step. */
  lemma {:induction false} CompactionMoveKeepsRules(S: seq<Session>, L: Ledger, avail: Availability, i: int, s: int)
    requires HardRules(S, avail) && Tracks(L, S)
    ensures CompactionMove(S, L, avail, i, s).Some? ==>
      HardRules(CompactionMove(S, L, avail, i, s).value.sessions, avail) &&
      Tracks(CompactionMove(S, L, avail, i, s).value.ledger, CompactionMove(S, L, avail, i, s).value.sessions)
  {
    if CompactionMove(S, L, avail, i, s).Some? {
      var y := NewSession(S[i].teacher, S[i].subject, S[i].group, S[i].day, s);
      MoveKeepsRules(S, avail, i, y);
      ShiftTracks(L, S, i, y);
    }
  }

  /**
   * Inter-day balancing moves session `i` to the first gap of day `d` of its
   * group, provided `d` is another day with more than two gaps and both the
   * per-subject cap and the transfer check pass.
   */
  function InterDayMove(S: seq<Session>, L: Ledger, avail: Availability, i: int, d: int): (r: Option<Moved>)
    ensures r.Some? <==>
      0 <= i < |S| && IsDay(d) && d != S[i].day &&
      GapCount(GroupDaySlots(S, S[i].group, d)) > 2 &&
      TransferGuard(L, avail, S[i], d, InnerHole(GroupDaySlots(S, S[i].group, d)).value)
    ensures r.Some? ==> |r.value.sessions| == |S| && r.value.sessions[i].day == d
    ensures r.Some? ==> r.value.sessions[i].slot == InnerHole(GroupDaySlots(S, S[i].group, d)).value
    ensures r.Some? ==> forall j :: 0 <= j < |S| ==> SameClass(r.value.sessions[j], S[j])
    ensures r.Some? ==> forall j :: 0 <= j < |S| && j != i ==> r.value.sessions[j] == S[j]
  {
    if 0 <= i < |S| && IsDay(d) && d != S[i].day && GapCount(GroupDaySlots(S, S[i].group, d)) > 2 then
      var h := InnerHole(GroupDaySlots(S, S[i].group, d)).value;
      assert IsTeachingSlot(h);
      if TransferGuard(L, avail, S[i], d, h) then
        var y := NewSession(S[i].teacher, S[i].subject, S[i].group, d, h);
        Some(Moved(S[i := y], Transfer(L, S[i], y)))
      else None
    else None
  }

  /** An inter-day move keeps the hard rules and the ledger in step. */
  lemma {:induction false} InterDayMoveKeepsRules(S: seq<Session>, L: Ledger, avail: Availability, i: int, d: int)
    requires HardRules(S, avail) && Tracks(L, S)
    ensures InterDayMove(S, L, avail, i, d).Some? ==>
      HardRules(InterDayMove(S, L, avail, i, d).value.sessions, avail) &&
      Tracks(InterDayMove(S, L, avail, i, d).value.ledger, InterDayMove(S, L, avail, i, d).value.sessions)
  {
    if InterDayMove(S, L, avail, i, d).Some? {
      var h := InnerHole(GroupDaySlots(S, S[i].group, d)).value;
      var y := NewSession(S[i].teacher, S[i].subject, S[i].group, d, h);
      assert h in GapSlots(GroupDaySlots(S, S[i].group, d));
      MoveKeepsRules(S, avail, i, y);
      TransferTracks(L, S, i, y);
    }
  }

  lemma {:induction false} GroupDaySlotsUpdate(S: seq<Session>, i: int, y: Session, g: int, d: int)
    requires 0 <= i < |S| && y.group == S[i].group && y.day != S[i].day
    requires y.group == g && y.day == d
    ensures GroupDaySlots(S[i := y], g, d) == GroupDaySlots(S, g, d) + {y.slot}
  {
    var T := S[i := y];
    forall s ensures s in GroupDaySlots(T, g, d) <==> s in GroupDaySlots(S, g, d) + {y.slot} {
      if s in GroupDaySlots(T, g, d) {
        var j :| 0 <= j < |T| && T[j].group == g && (d, s) == (T[j].day, T[j].slot);
        if j != i { assert T[j] == S[j]; }
      }
      if s in GroupDaySlots(S, g, d) {
        var j :| 0 <= j < |S| && S[j].group == g && (d, s) == (S[j].day, S[j].slot);
        assert j != i;
        assert T[j] == S[j];
      }
      if s == y.slot {
        assert T[i] == y;
      }
    }
  }

  /** An inter-day move takes one gap off the day it moves a session into. */
  lemma {:induction false} InterDayMoveFillsGap(S: seq<Session>, L: Ledger, avail: Availability, i: int, d: int)
    requires InterDayMove(S, L, avail, i, d).Some?
    ensures GapCount(GroupDaySlots(InterDayMove(S, L, avail, i, d).value.sessions, S[i].group, d))
            == GapCount(GroupDaySlots(S, S[i].group, d)) - 1
  {
    var occ := GroupDaySlots(S, S[i].group, d);
    var h := InnerHole(occ).value;
    var y := NewSession(S[i].teacher, S[i].subject, S[i].group, d, h);
    GroupDaySlotsUpdate(S, i, y, S[i].group, d);
    FillInnerHole(occ, h);
  }

  /** The number of slots group `g` uses on day `d`: the weekly balancing's load of that day. */
  function DayLoad(S: seq<Session>, g: int, d: int): nat {
    |GroupDaySlots(S, g, d)|
  }

  /**
   * Weekly balancing moves session `i` from its day to slot `s` of day `d`,
   * provided the group uses `s` on no session that day, its day carries at
   * least two more sessions than `d`, and the transfer check passes.
   */
  function WeeklyMove(S: seq<Session>, L: Ledger, avail: Availability, i: int, d: int, s: int): (r: Option<Moved>)
    ensures r.Some? <==>
      0 <= i < |S| && IsDay(d) && IsTeachingSlot(s) && d != S[i].day &&
      DayLoad(S, S[i].group, S[i].day) - DayLoad(S, S[i].group, d) > 1 &&
      s !in GroupDaySlots(S, S[i].group, d) && TransferGuard(L, avail, S[i], d, s)
    ensures r.Some? ==> |r.value.sessions| == |S| && r.value.sessions[i].day == d && r.value.sessions[i].slot == s
    ensures r.Some? ==> forall j :: 0 <= j < |S| ==> SameClass(r.value.sessions[j], S[j])
    ensures r.Some? ==> forall j :: 0 <= j < |S| && j != i ==> r.value.sessions[j] == S[j]
  {
    if 0 <= i < |S| && IsDay(d) && IsTeachingSlot(s) && d != S[i].day &&
       DayLoad(S, S[i].group, S[i].day) - DayLoad(S, S[i].group, d) > 1 &&
       s !in GroupDaySlots(S, S[i].group, d) && TransferGuard(L, avail, S[i], d, s)
    then
      var y := NewSession(S[i].teacher, S[i].subject, S[i].group, d, s);
      Some(Moved(S[i := y], Transfer(L, S[i], y)))
    else None
  }

  /** A weekly move keeps the hard rules and the ledger in step. */
  lemma {:induction false} WeeklyMoveKeepsRules(S: seq<Session>, L: Ledger, avail: Availability, i: int, d: int, s: int)
    requires HardRules(S, avail) && Tracks(L, S)
    ensures WeeklyMove(S, L, avail, i, d, s).Some? ==>
      HardRules(WeeklyMove(S, L, avail, i, d, s).value.sessions, avail) &&
      Tracks(WeeklyMove(S, L, avail, i, d, s).value.ledger, WeeklyMove(S, L, avail, i, d, s).value.sessions)
  {
    if WeeklyMove(S, L, avail, i, d, s).Some? {
      var y := NewSession(S[i].teacher, S[i].subject, S[i].group, d, s);
      MoveKeepsRules(S, avail, i, y);
      TransferTracks(L, S, i, y);
    }
  }

  /** A weekly move adds one class to the lighter day of the group. */
  lemma {:induction false} WeeklyMoveLoadsTarget(S: seq<Session>, L: Ledger, avail: Availability, i: int, d: int, s: int)
    requires WeeklyMove(S, L, avail, i, d, s).Some?
    ensures DayLoad(WeeklyMove(S, L, avail, i, d, s).value.sessions, S[i].group, d) == DayLoad(S, S[i].group, d) + 1
  {
    var y := NewSession(S[i].teacher, S[i].subject, S[i].group, d, s);
    GroupDaySlotsUpdate(S, i, y, S[i].group, d);
  }

  // ---------------------------------------------------------------------
  // The passes
  // ---------------------------------------------------------------------

  /** What every pass keeps: the hard rules, the ledger, and each session's class. */
  ghost predicate PassKeeps(S0: seq<Session>, S: seq<Session>, L: Ledger, avail: Availability) {
    && HardRules(S, avail) && Tracks(L, S)
    && |S| == |S0|
    && forall j :: 0 <= j < |S| ==> SameClass(S[j], S0[j])
  }

  /** Sessions that keep their class position by position keep every per-class count. */
  lemma {:induction false} SameClassCount<K>(S0: seq<Session>, S: seq<Session>, key: Session -> K, k: K)
    requires |S| == |S0| && forall j :: 0 <= j < |S| ==> SameClass(S[j], S0[j])
    requires forall x, y :: SameClass(x, y) ==> key(x) == key(y)
    ensures Count(S, key, k) == Count(S0, key, k)
    decreases |S|
  {
    if |S| > 0 {
      var n := |S| - 1;
      assert key(S[n]) == key(S0[n]);
      SameClassCount(S0[..n], S[..n], key, k);
    }
  }

  /** Rebuilding the teacher occupancy from the sessions keeps the ledger in step. */
  lemma {:induction false} RebuiltTracks(L: Ledger, S: seq<Session>)
    requires Tracks(L, S)
    ensures Tracks(L.(occupied := TeacherOccupancy(S)), S)
  {
  }

  /**
   * Compaction: the teacher occupancy is rebuilt from the sessions, then the
   * requested (session, slot) moves are tried in order; days never change.
   */
  method Compaction(S0: seq<Session>, L0: Ledger, avail: Availability, requests: seq<(int, int)>)
    returns (S: seq<Session>, L: Ledger)
    requires HardRules(S0, avail) && Tracks(L0, S0)
    ensures PassKeeps(S0, S, L, avail)
    ensures forall j :: 0 <= j < |S| ==> S[j].day == S0[j].day
  {
    S, L := S0, L0.(occupied := TeacherOccupancy(S0));
    RebuiltTracks(L0, S0);
    for k := 0 to |requests|
      invariant PassKeeps(S0, S, L, avail)
      invariant forall j :: 0 <= j < |S| ==> S[j].day == S0[j].day
    {
      var (i, s) := requests[k];
      CompactionMoveKeepsRules(S, L, avail, i, s);
      var r := CompactionMove(S, L, avail, i, s);
      if r.Some? {
        S, L := r.value.sessions, r.value.ledger;
      }
    }
  }

  /** Inter-day balancing: the requested (session, day) moves are tried in order. */
  method InterDay(S0: seq<Session>, L0: Ledger, avail: Availability, requests: seq<(int, int)>)
    returns (S: seq<Session>, L: Ledger)
    requires HardRules(S0, avail) && Tracks(L0, S0)
    ensures PassKeeps(S0, S, L, avail)
  {
    S, L := S0, L0;
    for k := 0 to |requests|
      invariant PassKeeps(S0, S, L, avail)
    {
      var (i, d) := requests[k];
      InterDayMoveKeepsRules(S, L, avail, i, d);
      var r := InterDayMove(S, L, avail, i, d);
      if r.Some? {
        S, L := r.value.sessions, r.value.ledger;
      }
    }
  }

  /** Weekly balancing: the requested (session, day, slot) moves are tried in order. */
  method Weekly(S0: seq<Session>, L0: Ledger, avail: Availability, requests: seq<(int, int, int)>)
    returns (S: seq<Session>, L: Ledger)
    requires HardRules(S0, avail) && Tracks(L0, S0)
    ensures PassKeeps(S0, S, L, avail)
  {
    S, L := S0, L0;
    for k := 0 to |requests|
      invariant PassKeeps(S0, S, L, avail)
    {
      var (i, d, s) := requests[k];
      WeeklyMoveKeepsRules(S, L, avail, i, d, s);
      var r := WeeklyMove(S, L, avail, i, d, s);
      if r.Some? {
        S, L := r.value.sessions, r.value.ledger;
      }
    }
  }
}
