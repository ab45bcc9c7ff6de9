/**
 * The pure fragments of the generation endpoint: the checks made before the
 * scheduler runs, the conversion of stored teachers for the scheduler, the
 * groups created per term and their names, and the warnings computed after
 * the timetable is saved (subjects nobody can teach, incomplete groups, and
 * idle hours between a group's classes) with the resulting status.
 */
module Endpoint {
  import opened Wrappers
  import opened Grid
  import opened Schedule
  import opened Text
  import opened Sorting
  import opened Rooms
  import Greedy

  // ---------------------------------------------------------------------
  // Checks before scheduling
  // ---------------------------------------------------------------------

  /** The selected terms that are internship terms, one entry per offending selection, in order. */
  function InternshipSelections(selected: seq<int>): (r: seq<int>)
    ensures forall c :: c in r <==> c in selected && c in InternshipTerms
    ensures |r| <= |selected|
  {
    if |selected| == 0 then []
    else
      var c := selected[|selected| - 1];
      assert selected == selected[..|selected| - 1] + [c];
      InternshipSelections(selected[..|selected| - 1]) + (if c in InternshipTerms then [c] else [])
  }

  /** A stored teacher: id, the subjects it may teach, and its availability rows. */
  datatype TeacherRecord = TeacherRecord(id: int, subjectIds: seq<int>, rows: seq<AvailabilityRow>)

  /** The hours a teacher's rows add up to: end minus start, summed. */
  function RowHours(rows: seq<AvailabilityRow>): int {
    if |rows| == 0 then 0 else RowHours(rows[..|rows| - 1]) + (rows[|rows| - 1].end - rows[|rows| - 1].start)
  }

  /** The teachers whose rows add up to no hours, in order. */
  function UnavailableTeachers(teachers: seq<TeacherRecord>): (r: seq<TeacherRecord>)
    ensures forall t :: t in r <==> t in teachers && RowHours(t.rows) == 0
  {
    if |teachers| == 0 then []
    else
      var t := teachers[|teachers| - 1];
      assert teachers == teachers[..|teachers| - 1] + [t];
      UnavailableTeachers(teachers[..|teachers| - 1]) + (if RowHours(t.rows) == 0 then [t] else [])
  }

  /** Why the endpoint refuses to generate. */
  datatype Rejection =
    | InternshipSelected(terms: seq<int>)
    | NoTeachers
    | TeachersUnavailable(teachers: seq<TeacherRecord>)

  /**
   * The checks in order: any selected internship term (all of them reported
   * at once), then an empty teacher selection, then every selected teacher
   * without available hours (all reported at once).
   */
  function Precheck(selected: seq<int>, teachers: seq<TeacherRecord>): (r: Result<(), Rejection>)
    ensures r.Failure? && r.error.InternshipSelected? <==> exists c :: c in selected && c in InternshipTerms
    ensures r.Failure? && r.error.InternshipSelected? ==>
      forall c :: c in r.error.terms <==> c in selected && c in InternshipTerms
    ensures r == Failure(NoTeachers) <==> (forall c :: c in selected ==> c !in InternshipTerms) && teachers == []
    ensures r.Failure? && r.error.TeachersUnavailable? ==>
      teachers != [] && r.error.teachers != [] &&
      forall t :: t in r.error.teachers <==> t in teachers && RowHours(t.rows) == 0
    ensures r.Success? <==>
      (forall c :: c in selected ==> c !in InternshipTerms) && teachers != [] &&
      forall t :: t in teachers ==> RowHours(t.rows) != 0
  {
    var bad := InternshipSelections(selected);
    if bad != [] then
      assert bad[0] in bad;
      Failure(InternshipSelected(bad))
    else if teachers == [] then Failure(NoTeachers)
    else
      var idle := UnavailableTeachers(teachers);
      if idle != [] then
        assert idle[0] in idle;
        Failure(TeachersUnavailable(idle))
      else Success(())
  }

  // ---------------------------------------------------------------------
  // Teachers as the scheduler sees them
  // ---------------------------------------------------------------------

  /** As written: each row contributes only its (day, start hour). */
  function StartHours(rows: seq<AvailabilityRow>): (r: set<(int, int)>)
    ensures forall i :: 0 <= i < |rows| ==> (rows[i].day, rows[i].start) in r
    ensures forall d, h :: (d, h) in r <==> exists i :: 0 <= i < |rows| && rows[i].day == d && rows[i].start == h
  {
    set i | 0 <= i < |rows| :: (rows[i].day, rows[i].start)
  }

  /** Every (day, hour) a row covers: the hours from its start up to, not including, its end. */
  function CoveredHours(rows: seq<AvailabilityRow>): (r: set<(int, int)>)
    ensures forall d, h :: (d, h) in r <==> exists i :: 0 <= i < |rows| && rows[i].day == d && rows[i].start <= h < rows[i].end
  {
    set i, h | 0 <= i < |rows| && rows[i].start <= h < rows[i].end :: (rows[i].day, h)
  }

  /** For one-hour rows, the ones the availability editor and the seeding script write, both readings agree. */
  lemma {:induction false} OneHourRowsAgree(rows: seq<AvailabilityRow>)
    requires forall i :: 0 <= i < |rows| ==> rows[i].end == rows[i].start + 1
    ensures CoveredHours(rows) == StartHours(rows)
  {
    CoveredWithinStarts(rows);
    StartsWithinCovered(rows);
  }

  lemma {:induction false} CoveredWithinStarts(rows: seq<AvailabilityRow>)
    requires forall i :: 0 <= i < |rows| ==> rows[i].end == rows[i].start + 1
    ensures CoveredHours(rows) <= StartHours(rows)
  {
    forall d, h | (d, h) in CoveredHours(rows) ensures (d, h) in StartHours(rows) {
      var i :| 0 <= i < |rows| && rows[i].day == d && rows[i].start <= h < rows[i].end;
      assert h == rows[i].start;
    }
  }

  lemma {:induction false} StartsWithinCovered(rows: seq<AvailabilityRow>)
    ensures forall i :: 0 <= i < |rows| && rows[i].start < rows[i].end ==> (rows[i].day, rows[i].start) in CoveredHours(rows)
    ensures (forall i :: 0 <= i < |rows| ==> rows[i].start < rows[i].end) ==> StartHours(rows) <= CoveredHours(rows)
  {
  }

  /**
   * A teacher stored with one row for Monday from 7 to 22, as the CSV upload
   * writes it, passes the availability check with 15 hours, yet the start
   * hour reading leaves it available at 7 only: at 8 it is not available.
   */
  lemma {:induction false} SpanRowSeenAtStartOnly()
    ensures var rows := [AvailabilityRow(0, 7, 22)];
      && RowHours(rows) == 15
      && StartHours(rows) == {(0, 7)}
      && (0, 8) !in StartHours(rows)
      && (0, 8) in CoveredHours(rows)
  {
    var rows := [AvailabilityRow(0, 7, 22)];
    assert rows[0].start <= 8 < rows[0].end;
  }

  /** The teacher handed to the scheduler, available at every hour its rows cover. */
  function SchedulerTeacher(rec: TeacherRecord): (t: Teacher)
    ensures t.id == rec.id && t.subjectIds == rec.subjectIds
    ensures forall i, h :: 0 <= i < |rec.rows| && rec.rows[i].start <= h < rec.rows[i].end ==>
      (rec.rows[i].day, h) in t.availability
  {
    Teacher(rec.id, rec.subjectIds, CoveredHours(rec.rows))
  }

  // ---------------------------------------------------------------------
  // Groups per term
  // ---------------------------------------------------------------------

  /** The number of groups for a term: the requested value, or 1 when it is missing or zero. */
  function RequestedGroups(v: Option<int>): (n: int)
    ensures n != 0
    ensures v.Some? && v.value != 0 ==> n == v.value
    ensures v.None? || v.value == 0 ==> n == 1
  {
    if v.Some? && v.value != 0 then v.value else 1
  }

  /** The letters of the first fifteen groups of a term. */
  const Letters: string := "ABCDEFGHIJKLMNO"

  lemma {:induction false} LettersSpec()
    ensures |Letters| == 15
    ensures forall i :: 0 <= i < 15 ==> Letters[i] as int == 'A' as int + i
  {
  }

  /** The part of a group's name after the term: a letter for the first fifteen, then the position counted from 1. */
  function GroupSuffix(idx: nat): string {
    if idx < |Letters| then [Letters[idx]] else NatToString(idx + 1)
  }

  function GroupName(term: int, idx: nat): string {
    IntToString(term) + GroupSuffix(idx)
  }

  lemma {:induction false} NatToStringInjective(a: nat, b: nat)
    requires NatToString(a) == NatToString(b)
    ensures a == b
  {
    DigitsOfNat(a);
    DigitsOfNat(b);
  }

  /** Different positions get different suffixes. */
  lemma {:induction false} GroupSuffixInjective(a: nat, b: nat)
    requires GroupSuffix(a) == GroupSuffix(b)
    ensures a == b
  {
    LettersSpec();
    assert a < |Letters| <==> b < |Letters| by {
      assert |GroupSuffix(a)| == 1 <==> a < |Letters|;
      assert |GroupSuffix(b)| == 1 <==> b < |Letters|;
    }
    if a < |Letters| {
      assert Letters[a] == GroupSuffix(a)[0] == Letters[b];
    } else {
      NatToStringInjective(a + 1, b + 1);
    }
  }

  /** Within a term, the position determines the group name and the name determines the position. */
  lemma {:induction false} GroupNameInjective(term: int, a: nat, b: nat)
    ensures GroupName(term, a) == GroupName(term, b) <==> a == b
  {
    var p := IntToString(term);
    if GroupName(term, a) == GroupName(term, b) {
      assert GroupSuffix(a) == GroupName(term, a)[|p|..] == GroupName(term, b)[|p|..] == GroupSuffix(b);
      GroupSuffixInjective(a, b);
    }
  }

  /** The names of the groups created for a term: one per requested group, all distinct. */
  function GroupNames(term: int, count: int): (r: seq<string>)
    ensures |r| == if count > 0 then count else 0
    ensures forall i :: 0 <= i < |r| ==> r[i] == GroupName(term, i)
    ensures forall i, j :: 0 <= i < j < |r| ==> r[i] != r[j]
  {
    var r := seq(if count > 0 then count else 0, i requires 0 <= i => GroupName(term, i));
    forall i, j | 0 <= i < j < |r| ensures r[i] != r[j] {
      GroupNameInjective(term, i, j);
    }
    r
  }

  // ---------------------------------------------------------------------
  // Subjects of the selected terms
  // ---------------------------------------------------------------------

  function SubjectsOf(subjects: seq<Subject>, c: int): (r: seq<Subject>)
    ensures forall m :: m in r <==> m in subjects && m.term == Some(c)
  {
    if |subjects| == 0 then []
    else
      var m := subjects[|subjects| - 1];
      assert subjects == subjects[..|subjects| - 1] + [m];
      SubjectsOf(subjects[..|subjects| - 1], c) + (if m.term == Some(c) then [m] else [])
  }

  /** The stored subjects of each selected term in turn. */
  function TermSubjects(selected: seq<int>, subjects: seq<Subject>): (r: seq<Subject>)
    ensures forall m :: m in r <==> m in subjects && m.term.Some? && m.term.value in selected
  {
    if |selected| == 0 then []
    else
      var c := selected[|selected| - 1];
      assert selected == selected[..|selected| - 1] + [c];
      TermSubjects(selected[..|selected| - 1], subjects) + SubjectsOf(subjects, c)
  }

  function IdsOf(ms: seq<Subject>): set<int> {
    set i | 0 <= i < |ms| :: ms[i].id
  }

  lemma {:induction false} IdsOfAppend(ms: seq<Subject>, m: Subject)
    ensures IdsOf(ms + [m]) == IdsOf(ms) + {m.id}
  {
    var t := ms + [m];
    forall k | k in IdsOf(t) ensures k in IdsOf(ms) + {m.id} {
      var i :| 0 <= i < |t| && t[i].id == k;
      if i < |ms| { assert t[i] == ms[i]; }
    }
    forall k | k in IdsOf(ms) ensures k in IdsOf(t) {
      var i :| 0 <= i < |ms| && ms[i].id == k;
      assert t[i] == ms[i];
    }
    assert t[|ms|] == m;
  }

  /** Each subject id once, at its first occurrence, keeping the order. */
  function FirstById(ms: seq<Subject>): (r: seq<Subject>)
    ensures Greedy.DistinctSubjectIds(r)
    ensures IdsOf(r) == IdsOf(ms)
    ensures forall m :: m in r ==> m in ms
  {
    if |ms| == 0 then []
    else
      var init, m := ms[..|ms| - 1], ms[|ms| - 1];
      var prev := FirstById(init);
      assert ms == init + [m];
      IdsOfAppend(init, m);
      if m.id in IdsOf(prev) then prev
      else
        IdsOfAppend(prev, m);
        assert Greedy.DistinctSubjectIds(prev + [m]) by {
          forall i, j | 0 <= i < j < |prev| + 1 ensures (prev + [m])[i].id != (prev + [m])[j].id {
            if j == |prev| {
              assert (prev + [m])[i] == prev[i];
              assert prev[i].id in IdsOf(prev);
            } else {
              assert (prev + [m])[i] == prev[i] && (prev + [m])[j] == prev[j];
            }
          }
        }
        prev + [m]
  }

  /** The subjects the endpoint hands to the scheduler: those of the selected terms, each id once. */
  function SelectedSubjects(selected: seq<int>, subjects: seq<Subject>): (r: seq<Subject>)
    ensures Greedy.DistinctSubjectIds(r)
    ensures forall m :: m in r ==> m in subjects && m.term.Some? && m.term.value in selected
    ensures forall m :: m in subjects && m.term.Some? && m.term.value in selected ==> m.id in IdsOf(r)
  {
    var cands := TermSubjects(selected, subjects);
    var r := FirstById(cands);
    forall m | m in subjects && m.term.Some? && m.term.value in selected ensures m.id in IdsOf(r) {
      var i :| 0 <= i < |cands| && cands[i] == m;
    }
    r
  }

  // ---------------------------------------------------------------------
  // Warnings after saving
  // ---------------------------------------------------------------------

  datatype Warning =
    | MissingTeacher(subject: int)
    | Incomplete(group: string, placed: int, needed: int)
    | Gap(group: string, day: int, hours: int)

  /** Some selected teacher may teach the subject. */
  predicate Qualified(teachers: seq<TeacherRecord>, subject: int) {
    exists i :: 0 <= i < |teachers| && subject in teachers[i].subjectIds
  }

  /** One warning per subject that no selected teacher may teach, in order. */
  function CoverageWarnings(ms: seq<Subject>, teachers: seq<TeacherRecord>): (r: seq<Warning>)
    ensures forall w :: w in r ==> w.MissingTeacher? && w.subject in IdsOf(ms) && !Qualified(teachers, w.subject)
    ensures forall i :: 0 <= i < |ms| && !Qualified(teachers, ms[i].id) ==> MissingTeacher(ms[i].id) in r
    ensures r == [] <==> forall i :: 0 <= i < |ms| ==> Qualified(teachers, ms[i].id)
  {
    if |ms| == 0 then []
    else
      var init, m := ms[..|ms| - 1], ms[|ms| - 1];
      assert ms == init + [m];
      IdsOfAppend(init, m);
      var prev := CoverageWarnings(init, teachers);
      assert forall i :: 0 <= i < |init| ==> ms[i] == init[i];
      prev + (if Qualified(teachers, m.id) then [] else [MissingTeacher(m.id)])
  }

  function Sum(xs: seq<int>): int {
    if |xs| == 0 then 0 else Sum(xs[..|xs| - 1]) + xs[|xs| - 1]
  }

  /** The weekly hours a group of term `term` needs: the hours of that term's subjects. */
  function RequiredHours(ms: seq<Subject>, term: int): int {
    if |ms| == 0 then 0
    else RequiredHours(ms[..|ms| - 1], term) + (if ms[|ms| - 1].term == Some(term) then WeeklyHours(ms[|ms| - 1]) else 0)
  }

  /** The sessions saved for a group. */
  function AssignedHours(P: seq<Placement>, g: int): nat {
    if |P| == 0 then 0 else AssignedHours(P[..|P| - 1], g) + (if P[|P| - 1].session.group == g then 1 else 0)
  }

  /** How far apart the hours at positions `i` and `i + 1` are. */
  function Step(h: seq<int>, i: int): int
    requires 0 <= i < |h| - 1
  {
    h[i + 1] - h[i]
  }

  /** The idle hours between consecutive entries of sorted start hours, for each pair more than an hour apart. */
  function HourGaps(h: seq<int>): (r: seq<int>)
    ensures forall k :: k in r ==> k >= 1
    ensures |h| > 0 ==> |r| < |h|
    ensures r == [] <==> forall i :: 0 <= i < |h| - 1 ==> Step(h, i) <= 1
  {
    if |h| < 2 then []
    else
      var n := |h| - 1;
      var prev := HourGaps(h[..n]);
      assert forall i :: 0 <= i < n ==> h[..n][i] == h[i];
      PrefixSteps(h, h[..n]);
      assert Step(h, n - 1) == h[n] - h[n - 1];
      assert (forall i :: 0 <= i < |h| - 1 ==> Step(h, i) <= 1) <==>
        (forall i :: 0 <= i < n - 1 ==> Step(h[..n], i) <= 1) && Step(h, n - 1) <= 1;
      prev + LastStretch(h)
  }

  /** The stretch between the last two hours, if they are more than an hour apart. */
  function LastStretch(h: seq<int>): seq<int>
    requires |h| >= 2
  {
    var n := |h| - 1;
    if h[n] - h[n - 1] > 1 then [h[n] - h[n - 1] - 1] else []
  }

  /** Hours `h[i]` and `h[i + 1]` are more than an hour apart with `d` idle hours between them. */
  predicate StretchAt(h: seq<int>, i: int, d: int) {
    0 <= i < |h| - 1 && Step(h, i) > 1 && d == Step(h, i) - 1
  }

  /** Every pair of consecutive hours more than an hour apart has its idle hours in `r`. */
  predicate AllStretchesReported(h: seq<int>, r: seq<int>) {
    forall i :: 0 <= i < |h| - 1 && Step(h, i) > 1 ==> Step(h, i) - 1 in r
  }

  /** Every entry of `r` is the idle hours between some pair of consecutive hours. */
  predicate OnlyStretchesReported(h: seq<int>, r: seq<int>) {
    forall k :: k in r ==> exists i :: 0 <= i < |h| - 1 && StretchAt(h, i, k)
  }

  /**
   * A gap of `d` > 1 between consecutive hours reports `d` - 1 idle hours,
   * and every reported stretch comes from such a pair.
   */
  lemma {:induction false} HourGapsStretches(h: seq<int>)
    ensures AllStretchesReported(h, HourGaps(h))
    ensures OnlyStretchesReported(h, HourGaps(h))
    decreases |h|
  {
    if |h| >= 2 {
      var p := h[..|h| - 1];
      HourGapsStretches(p);
      HourGapsSnoc(h);
      PrefixSteps(h, p);
      ReportedStep(h, p, HourGaps(p), LastStretch(h));
      OnlyStep(h, p, HourGaps(p), LastStretch(h));
    }
  }

  /** Two hours alone report the hours between them, if there are any. */
  lemma {:induction false} HourGapsPair(a: int, b: int)
    ensures HourGaps([a, b]) == if b - a > 1 then [b - a - 1] else []
  {
    assert [a, b][..1] == [a];
  }

  /**
   * The stretches of the hours are those up to position `i` followed by those
   * from `i` on; with `HourGapsPair` this fixes every stretch's position.
   */
  lemma {:induction false} HourGapsSplit(h: seq<int>, i: int)
    requires 0 <= i < |h|
    ensures HourGaps(h) == HourGaps(h[..i + 1]) + HourGaps(h[i..])
    decreases |h|
  {
    if i == |h| - 1 {
      assert h[..i + 1] == h;
      assert |h[i..]| == 1;
    } else {
      HourGapsSplit(h[..|h| - 1], i);
      SplitStep(h, i);
    }
  }

  lemma {:induction false} HourGapsSnoc(h: seq<int>)
    requires |h| >= 2
    ensures HourGaps(h) == HourGaps(h[..|h| - 1]) + LastStretch(h)
  {
  }

  lemma {:induction false} SplitStep(h: seq<int>, i: int)
    requires 0 <= i < |h| - 1
    requires HourGaps(h[..|h| - 1]) == HourGaps(h[..|h| - 1][..i + 1]) + HourGaps(h[..|h| - 1][i..])
    ensures HourGaps(h) == HourGaps(h[..i + 1]) + HourGaps(h[i..])
  {
    SliceFacts(h, i);
    HourGapsSnoc(h);
    HourGapsSnoc(h[i..]);
    LastStretchSuffix(h, i);
    Regroup(HourGaps(h), HourGaps(h[..|h| - 1]), HourGaps(h[i..]), HourGaps(h[..i + 1]), HourGaps(h[i..|h| - 1]), LastStretch(h));
  }

  lemma {:induction false} Regroup(whole: seq<int>, init: seq<int>, tail: seq<int>, a: seq<int>, b: seq<int>, c: seq<int>)
    requires whole == init + c && init == a + b && tail == b + c
    ensures whole == a + tail
  {
    assert (a + b) + c == a + (b + c);
  }

  lemma {:induction false} SliceFacts(h: seq<int>, i: int)
    requires 0 <= i < |h| - 1
    ensures h[..|h| - 1][..i + 1] == h[..i + 1]
    ensures h[..|h| - 1][i..] == h[i..|h| - 1]
    ensures h[i..][..|h[i..]| - 1] == h[i..|h| - 1]
  {
  }

  lemma {:induction false} LastStretchSuffix(h: seq<int>, i: int)
    requires 0 <= i < |h| - 1
    ensures LastStretch(h[i..]) == LastStretch(h)
  {
    var t := h[i..];
    assert t[|t| - 1] == h[|h| - 1] && t[|t| - 2] == h[|h| - 2];
  }

  /** Dropping the last hour keeps the distances between the others. */
  lemma {:induction false} PrefixSteps(h: seq<int>, p: seq<int>)
    requires |h| >= 2 && p == h[..|h| - 1]
    ensures forall i :: 0 <= i < |h| - 2 ==> Step(p, i) == Step(h, i)
  {
    forall i | 0 <= i < |h| - 2 ensures Step(p, i) == Step(h, i) {
      assert p[i] == h[i] && p[i + 1] == h[i + 1];
    }
  }

  lemma {:induction false} ReportedStep(h: seq<int>, p: seq<int>, prev: seq<int>, last: seq<int>)
    requires |h| >= 2 && |p| == |h| - 1 && last == LastStretch(h)
    requires forall i :: 0 <= i < |h| - 2 ==> Step(p, i) == Step(h, i)
    requires AllStretchesReported(p, prev)
    ensures AllStretchesReported(h, prev + last)
  {
    var n := |h| - 1;
    forall i | 0 <= i < n && Step(h, i) > 1 ensures Step(h, i) - 1 in prev + last {
      if i < n - 1 {
        assert Step(p, i) - 1 in prev;
      } else {
        assert Step(h, i) - 1 in last;
      }
    }
  }

  lemma {:induction false} OnlyStep(h: seq<int>, p: seq<int>, prev: seq<int>, last: seq<int>)
    requires |h| >= 2 && |p| == |h| - 1 && last == LastStretch(h)
    requires forall i :: 0 <= i < |h| - 2 ==> Step(p, i) == Step(h, i)
    requires OnlyStretchesReported(p, prev)
    ensures OnlyStretchesReported(h, prev + last)
  {
    var n := |h| - 1;
    forall k | k in prev + last ensures exists i :: 0 <= i < |h| - 1 && StretchAt(h, i, k) {
      if k in prev {
        var i :| 0 <= i < |p| - 1 && StretchAt(p, i, k);
        assert StretchAt(h, i, k);
      } else {
        assert StretchAt(h, n - 1, k);
      }
    }
  }

  predicate StrictlyIncreasing(h: seq<int>) {
    forall i, j :: 0 <= i < j < |h| ==> h[i] < h[j]
  }

  /** For distinct sorted hours the reported idle hours add up to the span minus the classes. */
  lemma {:induction false} HourGapsTotal(h: seq<int>)
    requires StrictlyIncreasing(h) && |h| > 0
    ensures Sum(HourGaps(h)) == h[|h| - 1] - h[0] - (|h| - 1)
    decreases |h|
  {
    if |h| >= 2 {
      var n := |h| - 1;
      HourGapsTotal(h[..n]);
      var last := if h[n] - h[n - 1] > 1 then [h[n] - h[n - 1] - 1] else [];
      assert HourGaps(h) == HourGaps(h[..n]) + last;
      SumAppend(HourGaps(h[..n]), last);
      assert h[n - 1] < h[n];
    }
  }

  lemma {:induction false} SumAppend(a: seq<int>, b: seq<int>)
    ensures Sum(a + b) == Sum(a) + Sum(b)
    decreases |b|
  {
    if |b| > 0 {
      var n := |b| - 1;
      assert (a + b)[..|a| + n] == a + b[..n];
      SumAppend(a, b[..n]);
    } else {
      assert a + b == a;
    }
  }

  /** The start hours of a group's saved sessions on a day, in placement order. */
  function DayStarts(P: seq<Placement>, g: int, d: int): (r: seq<int>)
    ensures |r| <= |P|
  {
    if |P| == 0 then []
    else
      var x := P[|P| - 1].session;
      DayStarts(P[..|P| - 1], g, d) + (if x.group == g && x.day == d then [x.start] else [])
  }

  function Identity(h: int): int { h }

  /** A group's start hours on a day, sorted ascending. */
  function DayHours(P: seq<Placement>, g: int, d: int): seq<int> {
    SortBy(DayStarts(P, g, d), Identity)
  }

  /** The idle hours of group `g` on day `d`, one entry per pair of consecutive classes more than an hour apart. */
  function DayGaps(P: seq<Placement>, g: int, d: int): (r: seq<int>)
    ensures forall k :: k in r ==> k >= 1
  {
    HourGaps(DayHours(P, g, d))
  }

  /** The idle hours of group `g` for each weekday. */
  function WeekGaps(P: seq<Placement>, g: int): (r: seq<seq<int>>)
    ensures |r| == DayCount
    ensures forall e :: 0 <= e < DayCount ==> r[e] == DayGaps(P, g, e)
  {
    seq(DayCount, e requires 0 <= e < DayCount => DayGaps(P, g, e))
  }

  /** One warning per idle stretch, for days `d` onwards of the per-day idle hours `gaps`. */
  function GapWarnings(name: string, gaps: seq<seq<int>>, d: nat): (r: seq<Warning>)
    requires d <= |gaps|
    ensures forall w :: w in r ==> w.Gap? && w.group == name && d <= w.day < |gaps| && w.hours in gaps[w.day]
    ensures forall e, k :: d <= e < |gaps| && k in gaps[e] ==> Gap(name, e, k) in r
    ensures r == [] <==> forall e :: d <= e < |gaps| ==> gaps[e] == []
    decreases |gaps| - d
  {
    if d == |gaps| then []
    else
      var here := seq(|gaps[d]|, k requires 0 <= k < |gaps[d]| => Gap(name, d, gaps[d][k]));
      var rest := GapWarnings(name, gaps, d + 1);
      forall k | k in gaps[d] ensures Gap(name, d, k) in here {
        var i :| 0 <= i < |gaps[d]| && gaps[d][i] == k;
        assert here[i] == Gap(name, d, k);
      }
      InConcat(here, rest);
      here + rest
  }

  lemma {:induction false} InConcat<T>(a: seq<T>, b: seq<T>)
    ensures forall w :: w in a + b <==> w in a || w in b
  {
  }

  lemma {:induction false} SplitLast<T>(s: seq<T>)
    requires |s| > 0
    ensures s == s[..|s| - 1] + [s[|s| - 1]]
  {
  }

  /** A group created by the endpoint: id, term and name. */
  datatype GroupInfo = GroupInfo(id: int, term: int, name: string)

  /** A group has all its hours and no idle hour on any weekday. */
  predicate GroupClean(grp: GroupInfo, ms: seq<Subject>, P: seq<Placement>) {
    && AssignedHours(P, grp.id) >= RequiredHours(ms, grp.term)
    && forall e :: 0 <= e < DayCount ==> WeekGaps(P, grp.id)[e] == []
  }

  /** The group has fewer hours placed than its term's subjects need. */
  predicate Short(grp: GroupInfo, ms: seq<Subject>, P: seq<Placement>) {
    AssignedHours(P, grp.id) < RequiredHours(ms, grp.term)
  }

  /** The completeness warning for a group. */
  function Shortfall(grp: GroupInfo, ms: seq<Subject>, P: seq<Placement>): Warning {
    Incomplete(grp.name, AssignedHours(P, grp.id), RequiredHours(ms, grp.term))
  }

  /**
   * A group's warnings: the completeness warning when hours are missing, then
   * one gap warning per idle stretch, weekday by weekday.
   */
  function GroupWarnings(grp: GroupInfo, ms: seq<Subject>, P: seq<Placement>): (r: seq<Warning>)
    ensures Shortfall(grp, ms, P) in r <==> Short(grp, ms, P)
    ensures forall w :: w in r && w.Incomplete? ==> w.placed < w.needed
    ensures r == [] <==> GroupClean(grp, ms, P)
  {
    var head := if Short(grp, ms, P) then [Shortfall(grp, ms, P)] else [];
    var tail := GapWarnings(grp.name, WeekGaps(P, grp.id), 0);
    HeadTail(grp, ms, P, head, tail);
    head + tail
  }

  /** The completeness warning in front of the gap warnings. */
  lemma {:induction false} HeadTail(grp: GroupInfo, ms: seq<Subject>, P: seq<Placement>, head: seq<Warning>, tail: seq<Warning>)
    requires head == if Short(grp, ms, P) then [Shortfall(grp, ms, P)] else []
    requires tail == GapWarnings(grp.name, WeekGaps(P, grp.id), 0)
    ensures Shortfall(grp, ms, P) in head + tail <==> Short(grp, ms, P)
    ensures forall w :: w in head + tail && w.Incomplete? ==> w.placed < w.needed
    ensures head + tail == [] <==> GroupClean(grp, ms, P)
  {
    assert forall w :: w in tail ==> w.Gap?;
    if Short(grp, ms, P) {
      assert (head + tail)[0] == Shortfall(grp, ms, P);
      forall w | w in head + tail && w.Incomplete? ensures w.placed < w.needed {
        InConcat(head, tail);
      }
    } else {
      assert head + tail == tail;
      assert Shortfall(grp, ms, P) !in tail;
      TailEmpty(grp.name, P, grp.id);
    }
  }

  /** No gap warnings exactly when no weekday has an idle hour. */
  lemma {:induction false} TailEmpty(name: string, P: seq<Placement>, g: int)
    ensures GapWarnings(name, WeekGaps(P, g), 0) == [] <==> forall e :: 0 <= e < DayCount ==> WeekGaps(P, g)[e] == []
  {
    assert |WeekGaps(P, g)| == DayCount;
  }

  /** Every idle stretch of a group on a weekday is reported with its length and day. */
  lemma {:induction false} GapWarned(grp: GroupInfo, ms: seq<Subject>, P: seq<Placement>, e: int, k: int)
    requires 0 <= e < DayCount && k in WeekGaps(P, grp.id)[e]
    ensures Gap(grp.name, e, k) in GroupWarnings(grp, ms, P)
  {
    var tail := GapWarnings(grp.name, WeekGaps(P, grp.id), 0);
    assert Gap(grp.name, e, k) in tail;
    var head := GroupWarnings(grp, ms, P)[..|GroupWarnings(grp, ms, P)| - |tail|];
    assert GroupWarnings(grp, ms, P) == head + tail;
  }

  /** The warnings of all groups, in group order. */
  function AllGroupWarnings(groups: seq<GroupInfo>, ms: seq<Subject>, P: seq<Placement>): (r: seq<Warning>)
    ensures forall w :: w in r && w.Incomplete? ==> w.placed < w.needed
    ensures forall i :: 0 <= i < |groups| && Short(groups[i], ms, P) ==> Shortfall(groups[i], ms, P) in r
    ensures r == [] <==> forall i :: 0 <= i < |groups| ==> GroupWarnings(groups[i], ms, P) == []
  {
    if |groups| == 0 then []
    else
      var init := groups[..|groups| - 1];
      var prev := AllGroupWarnings(init, ms, P);
      var last := GroupWarnings(groups[|groups| - 1], ms, P);
      var x := groups[|groups| - 1];
      SplitLast(groups);
      ShortfallStep(init, x, ms, P, prev, last);
      CleanStep(init, x, ms, P, prev, last);
      InConcat(prev, last);
      prev + last
  }

  lemma {:induction false} ShortfallStep(init: seq<GroupInfo>, x: GroupInfo, ms: seq<Subject>, P: seq<Placement>, prev: seq<Warning>, last: seq<Warning>)
    requires forall i :: 0 <= i < |init| && Short(init[i], ms, P) ==> Shortfall(init[i], ms, P) in prev
    requires Short(x, ms, P) ==> Shortfall(x, ms, P) in last
    ensures forall i :: 0 <= i < |init + [x]| && Short((init + [x])[i], ms, P) ==> Shortfall((init + [x])[i], ms, P) in prev + last
  {
    var groups := init + [x];
    forall i | 0 <= i < |groups| && Short(groups[i], ms, P) ensures Shortfall(groups[i], ms, P) in prev + last {
      if i < |init| {
        assert groups[i] == init[i];
        assert Shortfall(init[i], ms, P) in prev;
      } else {
        assert groups[i] == x;
      }
    }
  }

  lemma {:induction false} CleanStep(init: seq<GroupInfo>, x: GroupInfo, ms: seq<Subject>, P: seq<Placement>, prev: seq<Warning>, last: seq<Warning>)
    requires prev == [] <==> forall i :: 0 <= i < |init| ==> GroupWarnings(init[i], ms, P) == []
    requires last == GroupWarnings(x, ms, P)
    ensures prev + last == [] <==> forall i :: 0 <= i < |init + [x]| ==> GroupWarnings((init + [x])[i], ms, P) == []
  {
    var groups := init + [x];
    assert forall i :: 0 <= i < |init| ==> groups[i] == init[i];
    assert groups[|init|] == x;
  }

  /** The endpoint's answer after saving. */
  datatype Response = Response(success: bool, warnings: seq<Warning>, total: int)

  /**
   * The response: a warning for each subject no selected teacher may teach,
   * then each group's warnings. The status is success exactly when there is
   * no warning, that is, when every subject has a teacher and every group has
   * all its hours and no idle hour.
   */
  function Finish(ms: seq<Subject>, teachers: seq<TeacherRecord>, groups: seq<GroupInfo>, P: seq<Placement>): (r: Response)
    ensures r.success <==> r.warnings == []
    ensures r.success <==>
      (forall i :: 0 <= i < |ms| ==> Qualified(teachers, ms[i].id)) &&
      (forall i :: 0 <= i < |groups| ==> GroupClean(groups[i], ms, P))
    ensures r.total == |P|
    ensures forall i :: 0 <= i < |ms| && !Qualified(teachers, ms[i].id) ==> MissingTeacher(ms[i].id) in r.warnings
    ensures forall i :: 0 <= i < |groups| && Short(groups[i], ms, P) ==> Shortfall(groups[i], ms, P) in r.warnings
  {
    var coverage := CoverageWarnings(ms, teachers);
    var all := AllGroupWarnings(groups, ms, P);
    InConcat(coverage, all);
    Response(coverage + all == [], coverage + all, |P|)
  }
}
