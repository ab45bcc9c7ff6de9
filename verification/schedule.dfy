/**
 * Data model of the timetable generator: teachers, subjects, groups and the
 * generated sessions, the hard rules every generated timetable keeps, and the
 * occupancy ledger the generator maintains while it places sessions.
 */
module Schedule {
  import opened Wrappers
  import opened Grid

  /**
   * A teacher as the generation endpoint hands it over: an id, the ids of the
   * subjects it may teach, and its availability as (day, start hour) pairs.
   * An empty availability means "not configured".
   */
  datatype Teacher = Teacher(id: int, subjectIds: seq<int>, availability: set<(int, int)>)

  /** A stored availability row of a teacher: a day and an hour range [start, end). */
  datatype AvailabilityRow = AvailabilityRow(day: int, start: int, end: int)

  /** A subject: its id, its term (`cuatrimestre`) and its weekly hours, either of which may be missing. */
  datatype Subject = Subject(id: int, term: Option<int>, weeklyHours: Option<int>)

  /** A student group: its id and its term, which may be missing. */
  datatype Group = Group(id: int, term: Option<int>)

  /** One generated class hour: who teaches what to whom, on which day and slot. */
  datatype Session = Session(teacher: int, subject: int, group: int, day: int, start: int, end: int, slot: int)

  /** The term assumed for a group that has none. */
  const DefaultTerm: int := 1
  /** The weekly hours assumed for a subject that has none. */
  const DefaultWeeklyHours: int := 5
  /** Internship terms: their groups are never scheduled. */
  const InternshipTerms: set<int> := {6, 10}
  /** At most this many sessions of one teacher with one group on one day. */
  const MaxTeacherGroupPerDay: int := 2
  /** At most this many sessions of one subject with one group on one day. */
  const MaxSubjectGroupPerDay: int := 2

  function GroupTerm(g: Group): int { g.term.GetOr(DefaultTerm) }

  function WeeklyHours(m: Subject): int { m.weeklyHours.GetOr(DefaultWeeklyHours) }

  /** Teacher availability by teacher id: (day, start hour) pairs. */
  type Availability = map<int, set<(int, int)>>

  function AvailableAt(avail: Availability, t: int): set<(int, int)> {
    if t in avail then avail[t] else {}
  }

  /** Every (day, start hour) of a non-break slot on days 0..4: the fallback availability. */
  function FullWeek(): (w: set<(int, int)>)
    ensures forall d, h :: (d, h) in w <==> IsDay(d) && IsTeachingHour(h)
  {
    var w := set d, s | 0 <= d < DayCount && 0 <= s < SlotCount && s != BreakSlot :: (d, SlotStart(s));
    assert forall d, h :: IsDay(d) && IsTeachingHour(h) ==> (d, h) in w by {
      forall d, h | IsDay(d) && IsTeachingHour(h) ensures (d, h) in w {
        var s := SlotAtHour(h).value;
        assert (d, SlotStart(s)) in w;
      }
    }
    w
  }

  /** The availability the generator uses for a teacher: its own, or the full week when none is configured. */
  function EffectiveAvailability(t: Teacher): set<(int, int)> {
    if t.availability != {} then t.availability else FullWeek()
  }

  predicate DistinctTeacherIds(teachers: seq<Teacher>) {
    forall i, j :: 0 <= i < j < |teachers| ==> teachers[i].id != teachers[j].id
  }

  /** The generator's availability map, built teacher by teacher (a later teacher with the same id would win). */
  function AvailabilityMap(teachers: seq<Teacher>): (avail: Availability)
    ensures avail.Keys == set t | t in teachers :: t.id
    ensures DistinctTeacherIds(teachers) ==>
              forall i :: 0 <= i < |teachers| ==> avail[teachers[i].id] == EffectiveAvailability(teachers[i])
  {
    if |teachers| == 0 then map[]
    else
      var init := teachers[..|teachers| - 1];
      var last := teachers[|teachers| - 1];
      assert teachers == init + [last];
      AvailabilityMap(init)[last.id := EffectiveAvailability(last)]
  }

  // ---------------------------------------------------------------------
  // Counting sessions by key
  // ---------------------------------------------------------------------

  function TeacherGroupDay(x: Session): (int, int, int) { (x.teacher, x.group, x.day) }

  function GroupSubjectDay(x: Session): (int, int, int) { (x.group, x.subject, x.day) }

  function GroupSubject(x: Session): (int, int) { (x.group, x.subject) }

  /** Number of sessions whose key is `k`. */
  function Count<K(==)>(S: seq<Session>, key: Session -> K, k: K): nat {
    if |S| == 0 then 0 else Count(S[..|S| - 1], key, k) + (if key(S[|S| - 1]) == k then 1 else 0)
  }

  lemma {:induction false} CountAppend<K>(S: seq<Session>, x: Session, key: Session -> K, k: K)
    ensures Count(S + [x], key, k) == Count(S, key, k) + (if key(x) == k then 1 else 0)
  {
    assert (S + [x])[..|S|] == S;
  }

  /** Replacing one session moves one unit of count from its old key to its new key. */
  lemma {:induction false} CountUpdate<K>(S: seq<Session>, i: int, y: Session, key: Session -> K, k: K)
    requires 0 <= i < |S|
    ensures Count(S[i := y], key, k)
            == Count(S, key, k) - (if key(S[i]) == k then 1 else 0) + (if key(y) == k then 1 else 0)
    decreases |S|
  {
    var n := |S| - 1;
    var T := S[i := y];
    assert T[..n] == if i == n then S[..n] else S[..n][i := y];
    if i < n {
      CountUpdate(S[..n], i, y, key, k);
    }
  }

  /** The count is at least one for the key of any session present. */
  lemma {:induction false} CountPositive<K>(S: seq<Session>, i: int, key: Session -> K)
    requires 0 <= i < |S|
    ensures Count(S, key, key(S[i])) >= 1
    decreases |S|
  {
    if i < |S| - 1 {
      CountPositive(S[..|S| - 1], i, key);
    }
  }

  // ---------------------------------------------------------------------
  // Hard rules
  // ---------------------------------------------------------------------

  /** A session sits on a non-break slot of a weekday, with the slot's start hour and a one-hour span. */
  predicate WellTimed(x: Session) {
    IsDay(x.day) && IsTeachingSlot(x.slot) && x.start == SlotStart(x.slot) && x.end == x.start + 1
  }

  /** No teacher has two sessions at the same (day, slot). */
  predicate TeacherNeverDoubleBooked(S: seq<Session>) {
    forall i, j :: 0 <= i < j < |S| ==> !(S[i].teacher == S[j].teacher && S[i].day == S[j].day && S[i].slot == S[j].slot)
  }

  /** No group has two sessions at the same (day, slot). */
  predicate GroupNeverDoubleBooked(S: seq<Session>) {
    forall i, j :: 0 <= i < j < |S| ==> !(S[i].group == S[j].group && S[i].day == S[j].day && S[i].slot == S[j].slot)
  }

  /** Within a group, a teacher teaches only one subject. */
  predicate OneSubjectPerTeacherAndGroup(S: seq<Session>) {
    forall i, j :: 0 <= i < |S| && 0 <= j < |S| && S[i].teacher == S[j].teacher && S[i].group == S[j].group ==>
      S[i].subject == S[j].subject
  }

  /** Daily caps: per (teacher, group, day) and per (group, subject, day). */
  ghost predicate DailyCapsHold(S: seq<Session>) {
    && (forall k :: Count(S, TeacherGroupDay, k) <= MaxTeacherGroupPerDay)
    && (forall k :: Count(S, GroupSubjectDay, k) <= MaxSubjectGroupPerDay)
  }

  /** Every session is at a (day, start hour) its teacher is available for. */
  predicate RespectsAvailability(S: seq<Session>, avail: Availability) {
    forall i :: 0 <= i < |S| ==> (S[i].day, S[i].start) in AvailableAt(avail, S[i].teacher)
  }

  /** The hard rules the generator enforces. */
  ghost predicate HardRules(S: seq<Session>, avail: Availability) {
    && (forall i :: 0 <= i < |S| ==> WellTimed(S[i]))
    && RespectsAvailability(S, avail)
    && TeacherNeverDoubleBooked(S)
    && GroupNeverDoubleBooked(S)
    && OneSubjectPerTeacherAndGroup(S)
    && DailyCapsHold(S)
  }

  // ---------------------------------------------------------------------
  // Occupancy
  // ---------------------------------------------------------------------

  /** The (day, slot) pairs at which teacher `t` already teaches. */
  function TeacherSlots(S: seq<Session>, t: int): set<(int, int)> {
    set i | 0 <= i < |S| && S[i].teacher == t :: (S[i].day, S[i].slot)
  }

  /** The (day, slot) pairs at which group `g` already has a session. */
  function GroupSlots(S: seq<Session>, g: int): set<(int, int)> {
    set i | 0 <= i < |S| && S[i].group == g :: (S[i].day, S[i].slot)
  }

  function SlotsOf(occupied: map<int, set<(int, int)>>, t: int): set<(int, int)> {
    if t in occupied then occupied[t] else {}
  }

  function Get<K>(m: map<K, int>, k: K): int {
    if k in m then m[k] else 0
  }

  /**
   * The generator's bookkeeping: occupied (day, slot) pairs per teacher,
   * sessions per (teacher, group, day) and per (group, subject, day), and the
   * subject each teacher already teaches in each group.
   */
  datatype Ledger = Ledger(
    occupied: map<int, set<(int, int)>>,
    teacherGroupDay: map<(int, int, int), int>,
    groupSubjectDay: map<(int, int, int), int>,
    subjectInGroup: map<(int, int), int>)

  const EmptyLedger := Ledger(map[], map[], map[], map[])

  /** The teacher occupancy and both day counters describe `S` exactly. */
  ghost predicate OccupancyTracks(L: Ledger, S: seq<Session>) {
    && (forall t :: SlotsOf(L.occupied, t) == TeacherSlots(S, t))
    && (forall k :: Get(L.teacherGroupDay, k) == Count(S, TeacherGroupDay, k))
    && (forall k :: Get(L.groupSubjectDay, k) == Count(S, GroupSubjectDay, k))
  }

  /** The ledger describes `S`: occupancy, counters, and a recorded subject for every (teacher, group) in use. */
  ghost predicate Tracks(L: Ledger, S: seq<Session>) {
    && OccupancyTracks(L, S)
    && (forall i :: 0 <= i < |S| ==>
          (S[i].teacher, S[i].group) in L.subjectInGroup && L.subjectInGroup[(S[i].teacher, S[i].group)] == S[i].subject)
  }

  lemma {:induction false} EmptyLedgerTracks()
    ensures Tracks(EmptyLedger, [])
  {
  }

  /**
   * The checks made before a session is placed: the teacher is available at
   * the slot's start hour, is not busy at that (day, slot), teaches no other
   * subject in the group, and has fewer than two sessions with the group that day.
   */
  predicate CanPlace(L: Ledger, avail: Availability, t: int, m: int, g: int, d: int, s: int)
    requires IsSlotId(s)
  {
    && (d, SlotStart(s)) in AvailableAt(avail, t)
    && (d, s) !in SlotsOf(L.occupied, t)
    && ((t, g) in L.subjectInGroup ==> L.subjectInGroup[(t, g)] == m)
    && Get(L.teacherGroupDay, (t, g, d)) < MaxTeacherGroupPerDay
  }

  /** The session the generator records for teacher `t`, subject `m`, group `g` at (day `d`, slot `s`). */
  function NewSession(t: int, m: int, g: int, d: int, s: int): (x: Session)
    requires IsDay(d) && IsTeachingSlot(s)
    ensures WellTimed(x)
    ensures x.teacher == t && x.subject == m && x.group == g && x.day == d && x.slot == s
  {
    Session(t, m, g, d, SlotStart(s), SlotStart(s) + 1, s)
  }

  /** The ledger after recording `x`. */
  function Record(L: Ledger, x: Session): Ledger {
    Ledger(
      L.occupied[x.teacher := SlotsOf(L.occupied, x.teacher) + {(x.day, x.slot)}],
      L.teacherGroupDay[TeacherGroupDay(x) := Get(L.teacherGroupDay, TeacherGroupDay(x)) + 1],
      L.groupSubjectDay[GroupSubjectDay(x) := Get(L.groupSubjectDay, GroupSubjectDay(x)) + 1],
      L.subjectInGroup[(x.teacher, x.group) := x.subject])
  }

  lemma {:induction false} TeacherSlotsAppend(S: seq<Session>, x: Session, t: int)
    ensures TeacherSlots(S + [x], t) == TeacherSlots(S, t) + (if x.teacher == t then {(x.day, x.slot)} else {})
  {
    var T := S + [x];
    forall p | p in TeacherSlots(T, t) ensures p in TeacherSlots(S, t) + (if x.teacher == t then {(x.day, x.slot)} else {}) {
      var i :| 0 <= i < |T| && T[i].teacher == t && p == (T[i].day, T[i].slot);
      if i < |S| { assert T[i] == S[i]; }
    }
    forall p | p in TeacherSlots(S, t) ensures p in TeacherSlots(T, t) {
      var i :| 0 <= i < |S| && S[i].teacher == t && p == (S[i].day, S[i].slot);
      assert T[i] == S[i];
    }
    if x.teacher == t {
      assert T[|S|] == x;
    }
  }

  lemma {:induction false} GroupSlotsAppend(S: seq<Session>, x: Session, g: int)
    ensures GroupSlots(S + [x], g) == GroupSlots(S, g) + (if x.group == g then {(x.day, x.slot)} else {})
  {
    var T := S + [x];
    forall p | p in GroupSlots(T, g) ensures p in GroupSlots(S, g) + (if x.group == g then {(x.day, x.slot)} else {}) {
      var i :| 0 <= i < |T| && T[i].group == g && p == (T[i].day, T[i].slot);
      if i < |S| { assert T[i] == S[i]; }
    }
    forall p | p in GroupSlots(S, g) ensures p in GroupSlots(T, g) {
      var i :| 0 <= i < |S| && S[i].group == g && p == (S[i].day, S[i].slot);
      assert T[i] == S[i];
    }
    if x.group == g {
      assert T[|S|] == x;
    }
  }

  /** Recording a session keeps the ledger in step with the session list. */
  lemma {:induction false} RecordTracks(L: Ledger, S: seq<Session>, x: Session)
    requires Tracks(L, S)
    requires (x.teacher, x.group) in L.subjectInGroup ==> L.subjectInGroup[(x.teacher, x.group)] == x.subject
    ensures Tracks(Record(L, x), S + [x])
  {
    var L' := Record(L, x);
    var T := S + [x];
    forall t ensures SlotsOf(L'.occupied, t) == TeacherSlots(T, t) {
      TeacherSlotsAppend(S, x, t);
    }
    forall k ensures Get(L'.teacherGroupDay, k) == Count(T, TeacherGroupDay, k) {
      CountAppend(S, x, TeacherGroupDay, k);
    }
    forall k ensures Get(L'.groupSubjectDay, k) == Count(T, GroupSubjectDay, k) {
      CountAppend(S, x, GroupSubjectDay, k);
    }
    forall i | 0 <= i < |T|
      ensures (T[i].teacher, T[i].group) in L'.subjectInGroup && L'.subjectInGroup[(T[i].teacher, T[i].group)] == T[i].subject
    {
      if i < |S| {
        assert T[i] == S[i];
      }
    }
  }

  lemma {:induction false} AppendKeepsBookings(S: seq<Session>, x: Session)
    requires TeacherNeverDoubleBooked(S) && GroupNeverDoubleBooked(S)
    requires (x.day, x.slot) !in TeacherSlots(S, x.teacher)
    requires (x.day, x.slot) !in GroupSlots(S, x.group)
    ensures TeacherNeverDoubleBooked(S + [x]) && GroupNeverDoubleBooked(S + [x])
  {
    var T := S + [x];
    forall i, j | 0 <= i < j < |T|
      ensures !(T[i].teacher == T[j].teacher && T[i].day == T[j].day && T[i].slot == T[j].slot)
      ensures !(T[i].group == T[j].group && T[i].day == T[j].day && T[i].slot == T[j].slot)
    {
      assert T[i] == S[i];
      if j == |S| {
        assert S[i].teacher == x.teacher ==> (S[i].day, S[i].slot) in TeacherSlots(S, x.teacher);
        assert S[i].group == x.group ==> (S[i].day, S[i].slot) in GroupSlots(S, x.group);
      } else {
        assert T[j] == S[j];
      }
    }
  }

  lemma {:induction false} AppendKeepsOneSubject(L: Ledger, S: seq<Session>, x: Session)
    requires OneSubjectPerTeacherAndGroup(S) && Tracks(L, S)
    requires (x.teacher, x.group) in L.subjectInGroup ==> L.subjectInGroup[(x.teacher, x.group)] == x.subject
    ensures OneSubjectPerTeacherAndGroup(S + [x])
  {
    var T := S + [x];
    forall i, j | 0 <= i < |T| && 0 <= j < |T| && T[i].teacher == T[j].teacher && T[i].group == T[j].group
      ensures T[i].subject == T[j].subject
    {
      if i < |S| { assert T[i] == S[i]; }
      if j < |S| { assert T[j] == S[j]; }
    }
  }

  lemma {:induction false} AppendKeepsCaps(L: Ledger, S: seq<Session>, x: Session)
    requires DailyCapsHold(S) && OccupancyTracks(L, S)
    requires Get(L.teacherGroupDay, TeacherGroupDay(x)) < MaxTeacherGroupPerDay
    requires Get(L.groupSubjectDay, GroupSubjectDay(x)) < MaxSubjectGroupPerDay
    ensures DailyCapsHold(S + [x])
  {
    forall k ensures Count(S + [x], TeacherGroupDay, k) <= MaxTeacherGroupPerDay {
      CountAppend(S, x, TeacherGroupDay, k);
    }
    forall k ensures Count(S + [x], GroupSubjectDay, k) <= MaxSubjectGroupPerDay {
      CountAppend(S, x, GroupSubjectDay, k);
    }
  }

  /**
   * Placing a session that passes every check the generator makes (the
   * teacher checks of `CanPlace`, the per-subject daily cap, and a free group
   * slot) keeps the hard rules and keeps the ledger in step.
   */
  lemma {:induction false} PlaceKeepsRules(L: Ledger, S: seq<Session>, avail: Availability, x: Session)
    requires HardRules(S, avail) && Tracks(L, S)
    requires WellTimed(x)
    requires CanPlace(L, avail, x.teacher, x.subject, x.group, x.day, x.slot)
    requires Get(L.groupSubjectDay, GroupSubjectDay(x)) < MaxSubjectGroupPerDay
    requires (x.day, x.slot) !in GroupSlots(S, x.group)
    ensures HardRules(S + [x], avail) && Tracks(Record(L, x), S + [x])
  {
    var T := S + [x];
    RecordTracks(L, S, x);
    AppendKeepsBookings(S, x);
    AppendKeepsOneSubject(L, S, x);
    AppendKeepsCaps(L, S, x);
    assert forall i :: 0 <= i < |S| ==> T[i] == S[i];
    assert T[|S|] == x;
  }
}
