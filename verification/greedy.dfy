/**
 * The greedy phase of the timetable generator: for each group, walk the 40
 * (day, slot) pairs of the week in order and fill each with at most one
 * session, choosing the subject with most hours left and the first teacher
 * that passes every check.
 */
module Greedy {
  import opened Wrappers
  import opened Grid
  import opened Schedule
  import opened Sorting
  import Listing

  // ---------------------------------------------------------------------
  // Choosing teachers
  // ---------------------------------------------------------------------

  /** The teachers that list subject `m` among the subjects they may teach, in teacher order. */
  function Qualified(teachers: seq<Teacher>, m: int): (r: seq<Teacher>)
    ensures forall t :: t in r <==> t in teachers && m in t.subjectIds
  {
    Listing.Keep(teachers, (t: Teacher) => m in t.subjectIds)
  }

  /** Availability not yet used: available (day, hour) pairs minus occupied (day, slot) pairs. */
  function Score(avail: Availability, L: Ledger, t: Teacher): int {
    |AvailableAt(avail, t.id)| - |SlotsOf(L.occupied, t.id)|
  }

  /**
   * The index of the first candidate with the highest score, provided that
   * score beats -1 (the starting best of the scan); None otherwise.
   */
  function MostAvailable(cands: seq<Teacher>, avail: Availability, L: Ledger): (r: Option<nat>)
    ensures r.Some? ==> r.value < |cands| && Score(avail, L, cands[r.value]) > -1
    ensures r.Some? ==> forall j :: 0 <= j < |cands| ==> Score(avail, L, cands[j]) <= Score(avail, L, cands[r.value])
    ensures r.Some? ==> forall j :: 0 <= j < r.value ==> Score(avail, L, cands[j]) < Score(avail, L, cands[r.value])
    ensures r.None? <==> forall j :: 0 <= j < |cands| ==> Score(avail, L, cands[j]) <= -1
  {
    if |cands| == 0 then None
    else
      var n := |cands| - 1;
      var r := MostAvailable(cands[..n], avail, L);
      var best := if r.Some? then Score(avail, L, cands[r.value]) else -1;
      if Score(avail, L, cands[n]) > best then Some(n) else r
  }

  /**
   * The teacher preferred for subject `m` in a group: the most available
   * qualified teacher, or the most available of all teachers when nobody is
   * qualified.
   */
  function PreferredTeacher(teachers: seq<Teacher>, m: int, avail: Availability, L: Ledger): (r: Option<Teacher>)
    ensures r.Some? ==> r.value in teachers
    ensures r.Some? && Qualified(teachers, m) != [] ==> m in r.value.subjectIds
    ensures r.None? <==> forall t :: t in (if Qualified(teachers, m) == [] then teachers else Qualified(teachers, m)) ==> Score(avail, L, t) <= -1
  {
    var q := Qualified(teachers, m);
    var pool := if |q| == 0 then teachers else q;
    match MostAvailable(pool, avail, L)
    case None => None
    case Some(i) => Some(pool[i])
  }

  /** `ts` without the teacher that has `pref`'s id (all of `ts` when there is no preference). */
  function Excluding(ts: seq<Teacher>, pref: Option<Teacher>): (r: seq<Teacher>)
    ensures forall t :: t in r <==> t in ts && (pref.None? || t.id != pref.value.id)
  {
    Listing.Keep(ts, (t: Teacher) => pref.None? || t.id != pref.value.id)
  }

  /** The index of the first candidate that may be placed; None when none may. */
  function FirstPlaceable(cands: seq<Teacher>, L: Ledger, avail: Availability, m: int, g: int, d: int, s: int): (r: Option<nat>)
    requires IsSlotId(s)
    ensures r.Some? ==> r.value < |cands| && CanPlace(L, avail, cands[r.value].id, m, g, d, s)
    ensures r.Some? ==> forall j :: 0 <= j < r.value ==> !CanPlace(L, avail, cands[j].id, m, g, d, s)
    ensures r.None? <==> forall j :: 0 <= j < |cands| ==> !CanPlace(L, avail, cands[j].id, m, g, d, s)
  {
    if |cands| == 0 then None
    else
      var n := |cands| - 1;
      var r := FirstPlaceable(cands[..n], L, avail, m, g, d, s);
      if r.Some? then r
      else if CanPlace(L, avail, cands[n].id, m, g, d, s) then Some(n)
      else None
  }

  lemma {:induction false} PlaceableMember(cands: seq<Teacher>, t: Teacher, L: Ledger, avail: Availability, m: int, g: int, d: int, s: int)
    requires IsSlotId(s)
    requires t in cands && CanPlace(L, avail, t.id, m, g, d, s)
    ensures FirstPlaceable(cands, L, avail, m, g, d, s).Some?
  {
    var j :| 0 <= j < |cands| && cands[j] == t;
  }

  /**
   * The teacher who gets subject `m` at (d, s): the first placeable among the
   * preferred teacher and then the other qualified teachers; failing that,
   * the first placeable among every other teacher.
   */
  function TeacherFor(teachers: seq<Teacher>, pref: Option<Teacher>, L: Ledger, avail: Availability, m: int, g: int, d: int, s: int): (r: Option<Teacher>)
    requires IsSlotId(s)
    requires pref.Some? ==> pref.value in teachers
    ensures r.Some? ==> r.value in teachers && CanPlace(L, avail, r.value.id, m, g, d, s)
    ensures r.None? <==> forall t :: t in teachers ==> !CanPlace(L, avail, t.id, m, g, d, s)
    ensures pref.Some? && CanPlace(L, avail, pref.value.id, m, g, d, s) ==> r == pref
  {
    var first := (if pref.Some? then [pref.value] else []) + Excluding(Qualified(teachers, m), pref);
    var emergency := Excluding(teachers, pref);
    assert pref.Some? ==> first[0] == pref.value;
    match FirstPlaceable(first, L, avail, m, g, d, s)
    case Some(i) => Some(first[i])
    case None =>
      assert forall t :: t in first ==> !CanPlace(L, avail, t.id, m, g, d, s);
      match FirstPlaceable(emergency, L, avail, m, g, d, s)
      case Some(j) => Some(emergency[j])
      case None =>
        assert forall t :: t in emergency ==> !CanPlace(L, avail, t.id, m, g, d, s);
        None
  }

  // ---------------------------------------------------------------------
  // Choosing the subject for a slot
  // ---------------------------------------------------------------------

  /** Some teacher may take subject `m` at (d, s) and the subject's daily cap for the group is not reached. */
  predicate SubjectPlaceable(teachers: seq<Teacher>, L: Ledger, avail: Availability, m: Subject, g: int, d: int, s: int)
    requires IsSlotId(s)
  {
    && Get(L.groupSubjectDay, (g, m.id, d)) < MaxSubjectGroupPerDay
    && FirstPlaceable(teachers, L, avail, m.id, g, d, s).Some?
  }

  /**
   * The teacher who gets subject `m` at (d, s), provided the subject's daily
   * cap for the group is not reached; the preferred teacher is computed from
   * the ledger `L0` as it stood when the group started.
   */
  function TrySubject(m: Subject, teachers: seq<Teacher>, avail: Availability, L0: Ledger, L: Ledger, g: int, d: int, s: int): (r: Option<Teacher>)
    requires IsSlotId(s)
    ensures r.Some? ==> r.value in teachers && CanPlace(L, avail, r.value.id, m.id, g, d, s)
    ensures r.Some? ==> Get(L.groupSubjectDay, (g, m.id, d)) < MaxSubjectGroupPerDay
    ensures r.Some? <==> SubjectPlaceable(teachers, L, avail, m, g, d, s)
  {
    if Get(L.groupSubjectDay, (g, m.id, d)) >= MaxSubjectGroupPerDay then None
    else
      var t := TeacherFor(teachers, PreferredTeacher(teachers, m.id, avail, L0), L, avail, m.id, g, d, s);
      assert t.Some? ==> FirstPlaceable(teachers, L, avail, m.id, g, d, s).Some? by {
        if t.Some? { PlaceableMember(teachers, t.value, L, avail, m.id, g, d, s); }
      }
      t
  }

  /** The session placed at (d, s): the first subject in `cands` that may be placed, with its teacher. */
  function ChooseInSlot(cands: seq<Subject>, teachers: seq<Teacher>, avail: Availability, L0: Ledger, L: Ledger, g: int, d: int, s: int): (r: Option<(nat, Teacher)>)
    requires IsSlotId(s)
    ensures r.Some? ==> r.value.0 < |cands| && r.value.1 in teachers
    ensures r.Some? ==> Get(L.groupSubjectDay, (g, cands[r.value.0].id, d)) < MaxSubjectGroupPerDay
    ensures r.Some? ==> CanPlace(L, avail, r.value.1.id, cands[r.value.0].id, g, d, s)
    ensures r.Some? ==> forall j :: 0 <= j < r.value.0 ==> !SubjectPlaceable(teachers, L, avail, cands[j], g, d, s)
    ensures r.None? <==> forall j :: 0 <= j < |cands| ==> !SubjectPlaceable(teachers, L, avail, cands[j], g, d, s)
  {
    if |cands| == 0 then None
    else
      var n := |cands| - 1;
      var r := ChooseInSlot(cands[..n], teachers, avail, L0, L, g, d, s);
      if r.Some? then
        ChosenEarlier(cands, teachers, avail, L, g, d, s, r.value);
        r
      else
        var t := TrySubject(cands[n], teachers, avail, L0, L, g, d, s);
        ChosenLast(cands, cands[..n], teachers, avail, L, g, d, s);
        if t.Some? then Some((n, t.value)) else None
  }

  /** A choice among all but the last subject is a choice among all of them. */
  lemma {:induction false} ChosenEarlier(cands: seq<Subject>, teachers: seq<Teacher>, avail: Availability, L: Ledger, g: int, d: int, s: int, c: (nat, Teacher))
    requires IsSlotId(s) && |cands| > 0
    requires var pre := cands[..|cands| - 1];
      && c.0 < |pre|
      && Get(L.groupSubjectDay, (g, pre[c.0].id, d)) < MaxSubjectGroupPerDay
      && CanPlace(L, avail, c.1.id, pre[c.0].id, g, d, s)
      && (forall j :: 0 <= j < c.0 ==> !SubjectPlaceable(teachers, L, avail, pre[j], g, d, s))
    ensures c.0 < |cands|
    ensures Get(L.groupSubjectDay, (g, cands[c.0].id, d)) < MaxSubjectGroupPerDay
    ensures CanPlace(L, avail, c.1.id, cands[c.0].id, g, d, s)
    ensures forall j :: 0 <= j < c.0 ==> !SubjectPlaceable(teachers, L, avail, cands[j], g, d, s)
  {
    var n := |cands| - 1;
    assert forall j :: 0 <= j < n ==> cands[..n][j] == cands[j];
  }

  /** When no earlier subject fits, whether any fits is decided by the last one. */
  lemma {:induction false} ChosenLast(cands: seq<Subject>, pre: seq<Subject>, teachers: seq<Teacher>, avail: Availability, L: Ledger, g: int, d: int, s: int)
    requires IsSlotId(s) && |cands| > 0 && pre == cands[..|cands| - 1]
    requires forall j :: 0 <= j < |pre| ==> !SubjectPlaceable(teachers, L, avail, pre[j], g, d, s)
    ensures forall j :: 0 <= j < |cands| - 1 ==> !SubjectPlaceable(teachers, L, avail, cands[j], g, d, s)
    ensures (forall j :: 0 <= j < |cands| ==> !SubjectPlaceable(teachers, L, avail, cands[j], g, d, s))
      <==> !SubjectPlaceable(teachers, L, avail, cands[|cands| - 1], g, d, s)
  {
    var n := |cands| - 1;
    assert forall j :: 0 <= j < n ==> cands[..n][j] == cands[j];
  }

  /** The sort key of the subject order: fewer hours left sorts later. */
  function RemainingKey(remaining: map<int, int>): Subject -> int {
    (m: Subject) => -Get(remaining, m.id)
  }

  /**
   * The subjects with hours left, most hours first; ties keep the group's
   * subject order (the subjects with any one count of hours left appear in
   * the order the group lists them).
   */
  function SubjectOrder(mats: seq<Subject>, remaining: map<int, int>): (r: seq<Subject>)
    ensures forall m :: m in r <==> m in mats && Get(remaining, m.id) > 0
    ensures forall i, j :: 0 <= i < j < |r| ==> Get(remaining, r[i].id) >= Get(remaining, r[j].id)
    ensures multiset(r) == multiset(FilterRemaining(mats, remaining))
    ensures forall k :: WithKey(r, RemainingKey(remaining), k) == WithKey(FilterRemaining(mats, remaining), RemainingKey(remaining), k)
  {
    var open := FilterRemaining(mats, remaining);
    var key := RemainingKey(remaining);
    var r := SortBy(open, key);
    forall m ensures m in r <==> m in open {
      assert m in r <==> m in multiset(r);
      assert m in open <==> m in multiset(open);
    }
    forall i, j | 0 <= i < j < |r| ensures Get(remaining, r[i].id) >= Get(remaining, r[j].id) {
      assert key(r[i]) <= key(r[j]);
    }
    r
  }

  /**
   * The session for group `g` at (d, s): the first placeable subject in
   * `SubjectOrder`, with its teacher. The slot stays empty only when no
   * subject with hours left can be placed with any teacher.
   */
  function SlotChoice(mats: seq<Subject>, remaining: map<int, int>, teachers: seq<Teacher>, avail: Availability,
                      L0: Ledger, L: Ledger, g: int, d: int, s: int): (r: Option<(Subject, Teacher)>)
    requires IsSlotId(s)
    ensures r.Some? ==> r.value.0 in mats && Get(remaining, r.value.0.id) > 0 && r.value.1 in teachers
    ensures r.Some? ==> CanPlace(L, avail, r.value.1.id, r.value.0.id, g, d, s)
    ensures r.Some? ==> Get(L.groupSubjectDay, (g, r.value.0.id, d)) < MaxSubjectGroupPerDay
    ensures r.None? <==> forall m :: m in mats && Get(remaining, m.id) > 0 ==> !SubjectPlaceable(teachers, L, avail, m, g, d, s)
    ensures r.Some? ==> forall m :: m in mats && Get(remaining, m.id) > Get(remaining, r.value.0.id) ==>
      !SubjectPlaceable(teachers, L, avail, m, g, d, s)
  {
    var cands := SubjectOrder(mats, remaining);
    match ChooseInSlot(cands, teachers, avail, L0, L, g, d, s)
    case Some((i, t)) =>
      MoreHoursTriedFirst(mats, remaining, cands, i, teachers, avail, L, g, d, s);
      Some((cands[i], t))
    case None =>
      assert forall m :: m in cands ==> !SubjectPlaceable(teachers, L, avail, m, g, d, s);
      None
  }

  /**
   * In the subject order, every subject with more hours left than the
   * `i`-th comes before it, so it was tried and found unplaceable.
   */
  lemma {:induction false} MoreHoursTriedFirst(mats: seq<Subject>, remaining: map<int, int>, cands: seq<Subject>, i: nat,
                                               teachers: seq<Teacher>, avail: Availability, L: Ledger, g: int, d: int, s: int)
    requires IsSlotId(s) && i < |cands|
    requires forall m :: m in cands <==> m in mats && Get(remaining, m.id) > 0
    requires forall a, b :: 0 <= a < b < |cands| ==> Get(remaining, cands[a].id) >= Get(remaining, cands[b].id)
    requires forall j :: 0 <= j < i ==> !SubjectPlaceable(teachers, L, avail, cands[j], g, d, s)
    ensures forall m :: m in mats && Get(remaining, m.id) > Get(remaining, cands[i].id) ==>
      !SubjectPlaceable(teachers, L, avail, m, g, d, s)
  {
    forall m | m in mats && Get(remaining, m.id) > Get(remaining, cands[i].id)
      ensures !SubjectPlaceable(teachers, L, avail, m, g, d, s)
    {
      assert Get(remaining, m.id) > 0 by {
        assert cands[i] in cands;
      }
      assert m in cands;
      var j :| 0 <= j < |cands| && cands[j] == m;
      assert j < i;
    }
  }

  function FilterRemaining(mats: seq<Subject>, remaining: map<int, int>): (r: seq<Subject>)
    ensures forall m :: m in r <==> m in mats && Get(remaining, m.id) > 0
  {
    Listing.Keep(mats, (m: Subject) => Get(remaining, m.id) > 0)
  }

  // ---------------------------------------------------------------------
  // The greedy phase
  // ---------------------------------------------------------------------

  predicate DistinctSubjectIds(subjects: seq<Subject>) {
    forall i, j :: 0 <= i < j < |subjects| ==> subjects[i].id != subjects[j].id
  }

  predicate DistinctGroupIds(groups: seq<Group>) {
    forall i, j :: 0 <= i < j < |groups| ==> groups[i].id != groups[j].id
  }

  /** The subjects of a term, in subject order; a subject without a term belongs to none. */
  function SubjectsOfTerm(subjects: seq<Subject>, term: int): (r: seq<Subject>)
    ensures forall m :: m in r <==> m in subjects && m.term == Some(term)
    ensures DistinctSubjectIds(subjects) ==> DistinctSubjectIds(r)
  {
    if |subjects| == 0 then []
    else
      var init := subjects[..|subjects| - 1];
      var m := subjects[|subjects| - 1];
      assert subjects == init + [m];
      var prev := SubjectsOfTerm(init, term);
      SubjectsOfTermStep(init, m, term, prev);
      prev + (if m.term == Some(term) then [m] else [])
  }

  lemma {:induction false} SubjectsOfTermStep(init: seq<Subject>, m: Subject, term: int, prev: seq<Subject>)
    requires forall x :: x in prev <==> x in init && x.term == Some(term)
    requires DistinctSubjectIds(init) ==> DistinctSubjectIds(prev)
    ensures forall x :: x in prev + (if m.term == Some(term) then [m] else []) <==> x in init + [m] && x.term == Some(term)
    ensures DistinctSubjectIds(init + [m]) ==> DistinctSubjectIds(prev + (if m.term == Some(term) then [m] else []))
  {
    var r := prev + (if m.term == Some(term) then [m] else []);
    if DistinctSubjectIds(init + [m]) {
      assert forall i :: 0 <= i < |init| ==> (init + [m])[i] == init[i];
      assert DistinctSubjectIds(init);
      forall i | 0 <= i < |init| ensures init[i].id != m.id {
        assert (init + [m])[i] == init[i] && (init + [m])[|init|] == m;
      }
      forall i, j | 0 <= i < j < |r| ensures r[i].id != r[j].id {
        if j == |prev| {
          assert r[i] in prev;
        } else {
          assert r[i] == prev[i] && r[j] == prev[j];
        }
      }
    }
  }

  function SubjectIds(mats: seq<Subject>): set<int> {
    set m | m in mats :: m.id
  }

  function GroupIds(groups: seq<Group>): set<int> {
    set g | g in groups :: g.id
  }

  /** Sessions a subject may receive in a group: its weekly hours, or none when those are not positive. */
  function Quota(m: Subject): nat {
    if WeeklyHours(m) > 0 then WeeklyHours(m) else 0
  }

  /** The hours still to place, summed over the group's subjects. */
  function TotalRemaining(mats: seq<Subject>, remaining: map<int, int>): int {
    if |mats| == 0 then 0 else TotalRemaining(mats[..|mats| - 1], remaining) + Get(remaining, mats[|mats| - 1].id)
  }

  /** The k-th (day, slot) pair of the week in chronological order, skipping the break. */
  function WeekSlot(k: int): (p: (int, int))
    requires 0 <= k < DayCount * |TeachingSlots|
    ensures IsDay(p.0) && IsTeachingSlot(p.1)
  {
    TeachingSlotsSpec();
    (k / |TeachingSlots|, TeachingSlots[k % |TeachingSlots|])
  }

  /** The walk visits every (day, non-break slot) pair exactly once, day by day and slot by slot. */
  lemma {:induction false} WeekSlotChronological(k: int, k': int)
    requires 0 <= k < k' < DayCount * |TeachingSlots|
    ensures WeekSlot(k).0 < WeekSlot(k').0 || (WeekSlot(k).0 == WeekSlot(k').0 && WeekSlot(k).1 < WeekSlot(k').1)
  {
    TeachingSlotsSpec();
  }

  lemma {:induction false} WeekSlotCovers(d: int, s: int)
    requires IsDay(d) && IsTeachingSlot(s)
    ensures exists k :: 0 <= k < DayCount * |TeachingSlots| && WeekSlot(k) == (d, s)
  {
    TeachingSlotsSpec();
    var i :| 0 <= i < |TeachingSlots| && TeachingSlots[i] == s;
    var k := d * |TeachingSlots| + i;
    DivModEight(d, i);
    assert WeekSlot(k) == (d, s);
  }

  /** The walk's position arithmetic for the eight teaching slots of a day. */
  lemma {:induction false} DivModEight(d: int, i: int)
    requires 0 <= d && 0 <= i < 8
    ensures (d * 8 + i) / 8 == d && (d * 8 + i) % 8 == i
  {
  }

  lemma {:induction false} CountAbsent<K>(S: seq<Session>, key: Session -> K, k: K)
    requires forall i :: 0 <= i < |S| ==> key(S[i]) != k
    ensures Count(S, key, k) == 0
    decreases |S|
  {
    if |S| > 0 {
      CountAbsent(S[..|S| - 1], key, k);
    }
  }

  /** Placing one session of subject `m` moves one hour of `m` from "remaining" to "placed". */
  lemma {:induction false} HoursStep(mats: seq<Subject>, remaining: map<int, int>, S: seq<Session>, S': seq<Session>, g: int, m: Subject)
    requires DistinctSubjectIds(mats) && m in mats && remaining.Keys == SubjectIds(mats) && Get(remaining, m.id) > 0
    requires forall j :: 0 <= j < |mats| ==> Count(S, GroupSubject, (g, mats[j].id)) + remaining[mats[j].id] == WeeklyHours(mats[j])
    requires forall key: (int, int) :: Count(S', GroupSubject, key) == Count(S, GroupSubject, key) + (if key == (g, m.id) then 1 else 0)
    ensures forall j :: 0 <= j < |mats| ==>
      Count(S', GroupSubject, (g, mats[j].id)) + remaining[m.id := remaining[m.id] - 1][mats[j].id] == WeeklyHours(mats[j])
    requires forall j :: 0 <= j < |mats| ==> Count(S, GroupSubject, (g, mats[j].id)) <= Quota(mats[j])
    ensures forall j :: 0 <= j < |mats| ==> Count(S', GroupSubject, (g, mats[j].id)) <= Quota(mats[j])
    ensures remaining[m.id := remaining[m.id] - 1].Keys == SubjectIds(mats)
  {
    var jm :| 0 <= jm < |mats| && mats[jm] == m;
    forall j | 0 <= j < |mats| && mats[j].id == m.id ensures j == jm {
    }
  }

  /** The progress of the slot walk for group `g`, which started from sessions `S0`. */
  ghost predicate Progress(mats: seq<Subject>, g: int, S0: seq<Session>,
                           S: seq<Session>, groupOcc: set<(int, int)>, remaining: map<int, int>)
  {
    && |S| >= |S0| && S[..|S0|] == S0
    && (forall i :: |S0| <= i < |S| ==> S[i].group == g && S[i].subject in SubjectIds(mats))
    && groupOcc == GroupSlots(S, g)
    && remaining.Keys == SubjectIds(mats)
    && (forall j :: 0 <= j < |mats| ==> Count(S, GroupSubject, (g, mats[j].id)) + remaining[mats[j].id] == WeeklyHours(mats[j]))
    && (forall j :: 0 <= j < |mats| ==> Count(S, GroupSubject, (g, mats[j].id)) <= Quota(mats[j]))
  }

  /** The walk starts with nothing placed for the group and every subject's weekly hours remaining. */
  lemma {:induction false} ProgressStart(mats: seq<Subject>, g: int, S0: seq<Session>)
    requires forall i :: 0 <= i < |S0| ==> S0[i].group != g
    requires DistinctSubjectIds(mats)
    ensures Progress(mats, g, S0, S0, {}, map j | 0 <= j < |mats| :: mats[j].id := WeeklyHours(mats[j]))
  {
    NothingForGroup(S0, g);
    InitialHours(mats);
  }

  lemma {:induction false} NothingForGroup(S0: seq<Session>, g: int)
    requires forall i :: 0 <= i < |S0| ==> S0[i].group != g
    ensures forall k: (int, int) :: k.0 == g ==> Count(S0, GroupSubject, k) == 0
    ensures GroupSlots(S0, g) == {}
  {
    forall k: (int, int) | k.0 == g ensures Count(S0, GroupSubject, k) == 0 {
      CountAbsent(S0, GroupSubject, k);
    }
  }

  lemma {:induction false} InitialHours(mats: seq<Subject>)
    requires DistinctSubjectIds(mats)
    ensures var remaining := map j | 0 <= j < |mats| :: mats[j].id := WeeklyHours(mats[j]);
      remaining.Keys == SubjectIds(mats) && forall j :: 0 <= j < |mats| ==> remaining[mats[j].id] == WeeklyHours(mats[j])
  {
  }

  /** Placing a session of subject `m` at a free slot of the group advances the walk by one hour of `m`. */
  lemma {:induction false} ProgressStep(mats: seq<Subject>, g: int, S0: seq<Session>,
                     S: seq<Session>, groupOcc: set<(int, int)>, remaining: map<int, int>, m: Subject, x: Session)
    requires Progress(mats, g, S0, S, groupOcc, remaining)
    requires DistinctSubjectIds(mats) && m in mats && Get(remaining, m.id) > 0
    requires x.group == g && x.subject == m.id
    ensures Progress(mats, g, S0, S + [x], groupOcc + {(x.day, x.slot)}, remaining[m.id := remaining[m.id] - 1])
  {
    var S' := S + [x];
    GroupSlotsAppend(S, x, g);
    forall key: (int, int) ensures Count(S', GroupSubject, key) == Count(S, GroupSubject, key) + (if key == (g, m.id) then 1 else 0) {
      CountAppend(S, x, GroupSubject, key);
    }
    assert S'[..|S0|] == S[..|S0|];
    assert m.id in SubjectIds(mats);
    forall i | |S0| <= i < |S'| ensures S'[i].group == g && S'[i].subject in SubjectIds(mats) {
      if i < |S| { assert S'[i] == S[i]; }
    }
    HoursStep(mats, remaining, S, S', g, m);
  }

  /**
   * Fills the week of group `g` with sessions of its subjects `mats`,
   * starting from the sessions `S0` and ledger `L0` of the groups before it.
   */
  method FillGroup(teachers: seq<Teacher>, avail: Availability, mats: seq<Subject>, g: int, S0: seq<Session>, L0: Ledger)
    returns (S: seq<Session>, L: Ledger)
    requires HardRules(S0, avail) && Tracks(L0, S0)
    requires forall i :: 0 <= i < |S0| ==> S0[i].group != g
    requires DistinctSubjectIds(mats)
    ensures HardRules(S, avail) && Tracks(L, S)
    ensures |S| >= |S0| && S[..|S0|] == S0
    ensures forall i :: |S0| <= i < |S| ==> S[i].group == g && S[i].subject in SubjectIds(mats)
    ensures forall j :: 0 <= j < |mats| ==> Count(S, GroupSubject, (g, mats[j].id)) <= Quota(mats[j])
  {
    S, L := S0, L0;
    var groupOcc: set<(int, int)> := {};
    var remaining: map<int, int> := map j | 0 <= j < |mats| :: mats[j].id := WeeklyHours(mats[j]);
    ProgressStart(mats, g, S0);
    for k := 0 to DayCount * |TeachingSlots|
      invariant HardRules(S, avail) && Tracks(L, S)
      invariant Progress(mats, g, S0, S, groupOcc, remaining)
    {
      if TotalRemaining(mats, remaining) <= 0 {
        break;
      }
      var (d, s) := WeekSlot(k);
      if (d, s) in groupOcc {
        continue;
      }
      var choice := SlotChoice(mats, remaining, teachers, avail, L0, L, g, d, s);
      if choice.Some? {
        var (m, t) := choice.value;
        var x := NewSession(t.id, m.id, g, d, s);
        PlaceKeepsRules(L, S, avail, x);
        ProgressStep(mats, g, S0, S, groupOcc, remaining, m, x);
        S, L := S + [x], Record(L, x);
        groupOcc := groupOcc + {(d, s)};
        remaining := remaining[m.id := remaining[m.id] - 1];
      }
    }
  }

  /** What the generator promises about one group's sessions. */
  ghost predicate GroupOutcome(S: seq<Session>, grp: Group, subjects: seq<Subject>) {
    var term := GroupTerm(grp);
    && (term in InternshipTerms || SubjectsOfTerm(subjects, term) == [] ==>
          forall i :: 0 <= i < |S| ==> S[i].group != grp.id)
    && (forall i :: 0 <= i < |S| && S[i].group == grp.id ==> S[i].subject in SubjectIds(SubjectsOfTerm(subjects, term)))
    && (forall m :: m in subjects && m.term == Some(term) ==> Count(S, GroupSubject, (grp.id, m.id)) <= Quota(m))
  }

  lemma {:induction false} NewGroupId(groups: seq<Group>, gi: int)
    requires DistinctGroupIds(groups) && 0 <= gi < |groups|
    ensures groups[gi].id !in GroupIds(groups[..gi])
    ensures GroupIds(groups[..gi + 1]) == GroupIds(groups[..gi]) + {groups[gi].id}
  {
    assert groups[..gi + 1] == groups[..gi] + [groups[gi]];
  }

  /** Sessions appended for one group leave the counts of every other group unchanged. */
  lemma {:induction false} CountSuffixOtherGroup(S0: seq<Session>, S: seq<Session>, k: (int, int))
    requires |S| >= |S0| && S[..|S0|] == S0
    requires forall i :: |S0| <= i < |S| ==> S[i].group != k.0
    ensures Count(S, GroupSubject, k) == Count(S0, GroupSubject, k)
    decreases |S|
  {
    if |S| > |S0| {
      var n := |S| - 1;
      assert S[..n][..|S0|] == S0;
      CountSuffixOtherGroup(S0, S[..n], k);
    } else {
      assert S == S0;
    }
  }

  /** A skipped group gets no sessions, so the promise about it holds already. */
  lemma {:induction false} GroupSkipped(S: seq<Session>, groups: seq<Group>, subjects: seq<Subject>, gi: int)
    requires DistinctGroupIds(groups) && 0 <= gi < |groups|
    requires forall i :: 0 <= i < |S| ==> S[i].group in GroupIds(groups[..gi])
    requires forall j :: 0 <= j < gi ==> GroupOutcome(S, groups[j], subjects)
    ensures forall i :: 0 <= i < |S| ==> S[i].group in GroupIds(groups[..gi + 1])
    ensures forall j :: 0 <= j <= gi ==> GroupOutcome(S, groups[j], subjects)
  {
    var grp := groups[gi];
    NewGroupId(groups, gi);
    forall k: (int, int) | k.0 == grp.id ensures Count(S, GroupSubject, k) == 0 {
      CountAbsent(S, GroupSubject, k);
    }
  }

  /** Sessions appended for another group keep the promise about an earlier group. */
  lemma {:induction false} EarlierGroupKept(S0: seq<Session>, S: seq<Session>, grp: Group, subjects: seq<Subject>, g: int)
    requires grp.id != g && GroupOutcome(S0, grp, subjects)
    requires |S| >= |S0| && S[..|S0|] == S0
    requires forall i :: |S0| <= i < |S| ==> S[i].group == g
    ensures GroupOutcome(S, grp, subjects)
  {
    forall i | 0 <= i < |S0| ensures S[i] == S0[i] {
      assert S[..|S0|][i] == S[i];
    }
    forall m: Subject ensures Count(S, GroupSubject, (grp.id, m.id)) == Count(S0, GroupSubject, (grp.id, m.id)) {
      CountSuffixOtherGroup(S0, S, (grp.id, m.id));
    }
  }

  /** After the walk for group `gi`, the promise holds for it and still holds for the groups before it. */
  lemma {:induction false} GroupFilled(S0: seq<Session>, S: seq<Session>, groups: seq<Group>, subjects: seq<Subject>, gi: int)
    requires DistinctGroupIds(groups) && DistinctSubjectIds(subjects) && 0 <= gi < |groups|
    requires GroupTerm(groups[gi]) !in InternshipTerms && SubjectsOfTerm(subjects, GroupTerm(groups[gi])) != []
    requires forall i :: 0 <= i < |S0| ==> S0[i].group in GroupIds(groups[..gi])
    requires forall j :: 0 <= j < gi ==> GroupOutcome(S0, groups[j], subjects)
    requires |S| >= |S0| && S[..|S0|] == S0
    requires forall i :: |S0| <= i < |S| ==>
      S[i].group == groups[gi].id && S[i].subject in SubjectIds(SubjectsOfTerm(subjects, GroupTerm(groups[gi])))
    requires var mats := SubjectsOfTerm(subjects, GroupTerm(groups[gi]));
      forall j :: 0 <= j < |mats| ==> Count(S, GroupSubject, (groups[gi].id, mats[j].id)) <= Quota(mats[j])
    ensures forall i :: 0 <= i < |S| ==> S[i].group in GroupIds(groups[..gi + 1])
    ensures forall j :: 0 <= j <= gi ==> GroupOutcome(S, groups[j], subjects)
  {
    CurrentGroupFilled(S0, S, groups, subjects, gi);
    EarlierGroupsKept(S0, S, groups, subjects, gi);
    forall j | 0 <= j <= gi ensures GroupOutcome(S, groups[j], subjects) {
      if j == gi {
        assert GroupOutcome(S, groups[gi], subjects);
      }
    }
  }

  /** The group just filled meets its outcome, and every session belongs to a group seen so far. */
  lemma {:induction false} CurrentGroupFilled(S0: seq<Session>, S: seq<Session>, groups: seq<Group>, subjects: seq<Subject>, gi: int)
    requires DistinctGroupIds(groups) && 0 <= gi < |groups|
    requires GroupTerm(groups[gi]) !in InternshipTerms && SubjectsOfTerm(subjects, GroupTerm(groups[gi])) != []
    requires forall i :: 0 <= i < |S0| ==> S0[i].group in GroupIds(groups[..gi])
    requires |S| >= |S0| && S[..|S0|] == S0
    requires forall i :: |S0| <= i < |S| ==>
      S[i].group == groups[gi].id && S[i].subject in SubjectIds(SubjectsOfTerm(subjects, GroupTerm(groups[gi])))
    requires var mats := SubjectsOfTerm(subjects, GroupTerm(groups[gi]));
      forall j :: 0 <= j < |mats| ==> Count(S, GroupSubject, (groups[gi].id, mats[j].id)) <= Quota(mats[j])
    ensures forall i :: 0 <= i < |S| ==> S[i].group in GroupIds(groups[..gi + 1])
    ensures GroupOutcome(S, groups[gi], subjects)
  {
    var grp := groups[gi];
    var mats := SubjectsOfTerm(subjects, GroupTerm(grp));
    NewGroupId(groups, gi);
    forall i | 0 <= i < |S0| ensures S[i] == S0[i] {
      assert S[..|S0|][i] == S[i];
    }
    forall m | m in subjects && m.term == Some(GroupTerm(grp)) ensures Count(S, GroupSubject, (grp.id, m.id)) <= Quota(m) {
      assert m in mats;
      var j :| 0 <= j < |mats| && mats[j] == m;
    }
    assert forall i :: 0 <= i < |S0| ==> S[i].group != grp.id;
  }

  /** Filling one group leaves the outcome of every earlier group intact. */
  lemma {:induction false} EarlierGroupsKept(S0: seq<Session>, S: seq<Session>, groups: seq<Group>, subjects: seq<Subject>, gi: int)
    requires DistinctGroupIds(groups) && 0 <= gi < |groups|
    requires forall j :: 0 <= j < gi ==> GroupOutcome(S0, groups[j], subjects)
    requires |S| >= |S0| && S[..|S0|] == S0
    requires forall i :: |S0| <= i < |S| ==> S[i].group == groups[gi].id
    ensures forall j :: 0 <= j < gi ==> GroupOutcome(S, groups[j], subjects)
  {
    var grp := groups[gi];
    NewGroupId(groups, gi);
    forall j | 0 <= j < gi ensures GroupOutcome(S, groups[j], subjects) {
      assert groups[j].id in GroupIds(groups[..gi]) by { assert groups[..gi][j] == groups[j]; }
      EarlierGroupKept(S0, S, groups[j], subjects, grp.id);
    }
  }

  /**
   * The greedy phase of timetable generation: groups in order, skipping
   * internship terms and groups whose term has no subjects.
   */
  method Generate(teachers: seq<Teacher>, subjects: seq<Subject>, groups: seq<Group>) returns (S: seq<Session>, L: Ledger)
    requires DistinctSubjectIds(subjects) && DistinctGroupIds(groups)
    ensures HardRules(S, AvailabilityMap(teachers)) && Tracks(L, S)
    ensures forall i :: 0 <= i < |S| ==> S[i].group in GroupIds(groups)
    ensures forall j :: 0 <= j < |groups| ==> GroupOutcome(S, groups[j], subjects)
  {
    var avail := AvailabilityMap(teachers);
    L := EmptyLedger;
    S := [];
    EmptyLedgerTracks();
    for gi := 0 to |groups|
      invariant HardRules(S, avail) && Tracks(L, S)
      invariant forall i :: 0 <= i < |S| ==> S[i].group in GroupIds(groups[..gi])
      invariant forall j :: 0 <= j < gi ==> GroupOutcome(S, groups[j], subjects)
    {
      var grp := groups[gi];
      var term := GroupTerm(grp);
      var mats := SubjectsOfTerm(subjects, term);
      if term in InternshipTerms || |mats| == 0 {
        GroupSkipped(S, groups, subjects, gi);
        continue;
      }
      NewGroupId(groups, gi);
      var S0 := S;
      S, L := FillGroup(teachers, avail, mats, grp.id, S0, L);
      GroupFilled(S0, S, groups, subjects, gi);
    }
    assert groups[..|groups|] == groups;
  }
}
