/**
 * The availability seeding script: each stored teacher gets the slot lists of
 * the first known name that matches its own (case-insensitively, either name
 * inside the other), or a default morning week, expanded into one-hour rows
 * that replace its previous ones. An unknown slot id aborts the whole run.
 */
module Seeding {
  import opened Wrappers
  import opened Text
  import opened Schedule
  import Grid
  import Endpoint

  /** The slot ids of a day, in the order the table lists them. */
  datatype DaySlots = DaySlots(day: int, slots: seq<int>)

  /** A known teacher name and its availability by day. */
  datatype Known = Known(key: string, days: seq<DaySlots>)

  /** A stored teacher as the script reads it. */
  datatype Teacher = Teacher(id: int, name: string)

  /** A stored availability row: teacher, day, slot id and its hours. */
  datatype StoredRow = StoredRow(teacher: int, day: int, slot: int, start: int, end: int)

  /** The highest slot id of the script's own slot table; slot `s` is the hour from 7 + s. */
  const LastSlot := 13
  const FirstHour := 7

  /** The slot table: slot `s` of 0..13 runs from 7 + s to 8 + s; other ids are not in it. */
  function SlotRange(slot: int): (r: Option<(int, int)>)
    ensures r.Some? <==> 0 <= slot <= LastSlot
  {
    if 0 <= slot <= LastSlot then Some((FirstHour + slot, FirstHour + slot + 1)) else None
  }

  /** The table's slots are consecutive one-hour periods from 7 to 21, one per hour. */
  lemma {:induction false} SlotTableShape(slot: int, h: int)
    ensures SlotRange(slot) == Some((h, h + 1)) <==> 0 <= slot <= LastSlot && h == FirstHour + slot
    ensures SlotRange(slot).Some? ==> SlotRange(slot).value.1 == SlotRange(slot).value.0 + 1
  {
  }

  /**
   * The script's slot 4 is the hour from 11 to 12, while the scheduler's slot
   * 4 is its break and its hour-11 slot is 5: the two numberings part at 4.
   */
  lemma {:induction false} SlotNumberingsDiffer()
    ensures SlotRange(Grid.BreakSlot) == Some((11, 12))
    ensures !Grid.IsTeachingSlot(Grid.BreakSlot)
    ensures Grid.SlotAtHour(11) == Some(5)
    ensures forall s :: 0 <= s < Grid.BreakSlot ==> SlotRange(s) == Some((Grid.SlotStart(s), Grid.SlotEnd(s)))
  {
    assert Grid.SlotStart(5) == 11;
    Grid.TeachingSlotsSpec();
  }

  // ---------------------------------------------------------------------
  // Choosing a teacher's availability
  // ---------------------------------------------------------------------

  /** Either lower-cased name occurs inside the other. */
  predicate NameMatches(key: string, name: string) {
    Contains(Lower(name), Lower(key)) || Contains(Lower(key), Lower(name))
  }

  /** Entry `i` is the first whose name matches `name`. */
  predicate FirstMatch(table: seq<Known>, name: string, i: int) {
    0 <= i < |table| && NameMatches(table[i].key, name) &&
    forall j :: 0 <= j < i ==> !NameMatches(table[j].key, name)
  }

  /** The index of the first known name matching `name`. */
  function FindKnown(table: seq<Known>, name: string): (r: Option<nat>)
    ensures r.Some? ==> FirstMatch(table, name, r.value)
    ensures r.None? <==> forall j :: 0 <= j < |table| ==> !NameMatches(table[j].key, name)
  {
    if |table| == 0 then None
    else if NameMatches(table[0].key, name) then Some(0)
    else
      match FindKnown(table[1..], name)
      case None => None
      case Some(i) => Some(i + 1)
  }

  /** The default: Monday to Friday, slots 0 to 6 (7:00 to 14:00). */
  const MorningSlots: seq<int> := [0, 1, 2, 3, 4, 5, 6]
  const DefaultDays: seq<DaySlots> := [
    DaySlots(0, MorningSlots), DaySlots(1, MorningSlots), DaySlots(2, MorningSlots),
    DaySlots(3, MorningSlots), DaySlots(4, MorningSlots)]

  /**
   * The availability used for a teacher: the first match's, unless there is
   * none or it lists no day (an empty table is falsy too), then the default.
   */
  function Chosen(table: seq<Known>, name: string): (r: seq<DaySlots>)
    ensures r != []
    ensures forall i :: FirstMatch(table, name, i) && table[i].days != [] ==> r == table[i].days
    ensures forall i :: FirstMatch(table, name, i) && table[i].days == [] ==> r == DefaultDays
    ensures (forall j :: 0 <= j < |table| ==> !NameMatches(table[j].key, name)) ==> r == DefaultDays
  {
    match FindKnown(table, name)
    case Some(i) =>
      FirstIsUnique(table, name, i);
      if table[i].days != [] then table[i].days else DefaultDays
    case None => DefaultDays
  }

  lemma {:induction false} FirstIsUnique(table: seq<Known>, name: string, i: nat)
    requires FirstMatch(table, name, i)
    ensures forall k :: FirstMatch(table, name, k) ==> k == i
  {
  }

  lemma {:induction false} LowerIdempotent(s: string)
    ensures Lower(Lower(s)) == Lower(s)
  {
  }

  /** Matching ignores letter case on both sides and does not depend on which name is the key. */
  lemma {:induction false} MatchIgnoresCase(key: string, name: string)
    ensures NameMatches(key, name) <==> NameMatches(Lower(key), Lower(name))
    ensures NameMatches(key, name) <==> NameMatches(name, key)
  {
    LowerIdempotent(key);
    LowerIdempotent(name);
  }

  /** A teacher stored under a known name, up to letter case, matches it. */
  lemma {:induction false} SameNameMatches(key: string, name: string)
    requires Lower(key) == Lower(name)
    ensures NameMatches(key, name)
  {
    assert OccursAt(Lower(name), Lower(key), 0);
  }

  // ---------------------------------------------------------------------
  // Expanding the slot lists into rows
  // ---------------------------------------------------------------------

  /** How many slot ids the lists hold together. */
  function SlotTotal(days: seq<DaySlots>): nat {
    if |days| == 0 then 0 else |days[0].slots| + SlotTotal(days[1..])
  }

  /** The (day, slot id) pairs in the order the script visits them. */
  function Visits(days: seq<DaySlots>): (r: seq<(int, int)>)
    ensures |r| == SlotTotal(days)
    ensures forall d, s :: (d, s) in r <==> exists k :: 0 <= k < |days| && days[k].day == d && s in days[k].slots
  {
    if |days| == 0 then []
    else
      var head := seq(|days[0].slots|, j requires 0 <= j < |days[0].slots| => (days[0].day, days[0].slots[j]));
      var rest := Visits(days[1..]);
      forall d, s ensures (d, s) in head + rest <==> exists k :: 0 <= k < |days| && days[k].day == d && s in days[k].slots {
        if (d, s) in rest {
          var k :| 0 <= k < |days[1..]| && days[1..][k].day == d && s in days[1..][k].slots;
          assert days[k + 1] == days[1..][k];
        }
        if exists k :: 0 <= k < |days| && days[k].day == d && s in days[k].slots {
          var k :| 0 <= k < |days| && days[k].day == d && s in days[k].slots;
          if k == 0 {
            var j :| 0 <= j < |days[0].slots| && days[0].slots[j] == s;
            assert head[j] == (d, s);
          } else {
            assert days[1..][k - 1] == days[k];
          }
        }
      }
      head + rest
  }

  /** The row stored for one visit. */
  function RowAt(teacher: int, v: (int, int)): StoredRow
    requires 0 <= v.1 <= LastSlot
  {
    StoredRow(teacher, v.0, v.1, FirstHour + v.1, FirstHour + v.1 + 1)
  }

  /** Visit `i` is the first whose slot id is not in the table. */
  predicate FirstUnknown(visits: seq<(int, int)>, i: int) {
    0 <= i < |visits| && SlotRange(visits[i].1).None? &&
    forall j :: 0 <= j < i ==> SlotRange(visits[j].1).Some?
  }

  /** The rows for the visits in order; the first slot id outside the table aborts with that id. */
  function RowsOf(teacher: int, visits: seq<(int, int)>): (r: Result<seq<StoredRow>, int>)
    ensures r.Success? <==> forall i :: 0 <= i < |visits| ==> SlotRange(visits[i].1).Some?
    ensures r.Success? ==> |r.value| == |visits|
    ensures r.Success? ==> forall i :: 0 <= i < |visits| ==>
      r.value[i].teacher == teacher && r.value[i].day == visits[i].0 && r.value[i].slot == visits[i].1 &&
      SlotRange(visits[i].1) == Some((r.value[i].start, r.value[i].end))
    ensures r.Failure? ==> exists i :: FirstUnknown(visits, i) && visits[i].1 == r.error
  {
    if |visits| == 0 then Success([])
    else if SlotRange(visits[0].1).None? then
      assert FirstUnknown(visits, 0);
      Failure(visits[0].1)
    else
      match RowsOf(teacher, visits[1..])
      case Failure(s) =>
        var i :| FirstUnknown(visits[1..], i) && visits[1..][i].1 == s;
        assert visits[i + 1] == visits[1..][i];
        assert forall j :: 1 <= j < i + 1 ==> visits[j] == visits[1..][j - 1];
        assert FirstUnknown(visits, i + 1);
        Failure(s)
      case Success(rest) =>
        assert forall i :: 1 <= i < |visits| ==> visits[i] == visits[1..][i - 1];
        Success([RowAt(teacher, visits[0])] + rest)
  }

  /** The rows the script writes for a teacher, or the slot id that aborts it. */
  function NewRows(table: seq<Known>, t: Teacher): Result<seq<StoredRow>, int> {
    RowsOf(t.id, Visits(Chosen(table, t.name)))
  }

  /** The stored rows as the scheduler's availability rows. */
  function AsAvailability(rows: seq<StoredRow>): (r: seq<AvailabilityRow>)
    ensures |r| == |rows|
    ensures forall i :: 0 <= i < |rows| ==> r[i] == AvailabilityRow(rows[i].day, rows[i].start, rows[i].end)
  {
    seq(|rows|, i requires 0 <= i < |rows| => AvailabilityRow(rows[i].day, rows[i].start, rows[i].end))
  }

  /** Rows that follow the visits one by one, each the hour of its slot. */
  predicate FollowVisits(rows: seq<StoredRow>, visits: seq<(int, int)>) {
    |rows| == |visits| &&
    forall i :: 0 <= i < |rows| ==>
      rows[i].day == visits[i].0 && rows[i].start == FirstHour + visits[i].1 && rows[i].end == rows[i].start + 1
  }

  lemma {:induction false} RowsOfFollow(teacher: int, visits: seq<(int, int)>)
    requires RowsOf(teacher, visits).Success?
    ensures FollowVisits(RowsOf(teacher, visits).value, visits)
  {
  }

  /** Rows that follow visits are one hour long, so reading them by start hour or by covered hours agrees. */
  lemma {:induction false} VisitRowsAgree(rows: seq<StoredRow>, visits: seq<(int, int)>)
    requires FollowVisits(rows, visits)
    ensures Endpoint.CoveredHours(AsAvailability(rows)) == Endpoint.StartHours(AsAvailability(rows))
  {
    Endpoint.OneHourRowsAgree(AsAvailability(rows));
  }

  /** The hours seen in rows that follow visits are exactly the hours of the visited slots. */
  lemma {:induction false} VisitHours(rows: seq<StoredRow>, visits: seq<(int, int)>, d: int, s: int)
    requires FollowVisits(rows, visits)
    ensures (d, FirstHour + s) in Endpoint.StartHours(AsAvailability(rows)) <==> (d, s) in visits
  {
    var av := AsAvailability(rows);
    var hours := Endpoint.StartHours(av);
    assert hours == set i | 0 <= i < |av| :: (av[i].day, av[i].start);
    if (d, FirstHour + s) in hours {
      var i :| 0 <= i < |av| && (av[i].day, av[i].start) == (d, FirstHour + s);
      assert visits[i] == (d, s);
    }
    if (d, s) in visits {
      var i :| 0 <= i < |visits| && visits[i] == (d, s);
      assert (av[i].day, av[i].start) == (d, FirstHour + s);
    }
  }

  lemma {:induction false} SlotTotalUniform(days: seq<DaySlots>, n: nat)
    requires forall k :: 0 <= k < |days| ==> |days[k].slots| == n
    ensures SlotTotal(days) == n * |days|
    decreases |days|
  {
    if |days| > 0 {
      SlotTotalUniform(days[1..], n);
    }
  }

  /** The default visits every slot 0..6 of every day 0..4. */
  lemma {:induction false} DefaultVisits(x: int, s: int)
    ensures |Visits(DefaultDays)| == 35
    ensures (x, s) in Visits(DefaultDays) <==> 0 <= x <= 4 && 0 <= s <= 6
  {
    assert forall k :: 0 <= k < |DefaultDays| ==> DefaultDays[k].slots == MorningSlots && DefaultDays[k].day == k;
    SlotTotalUniform(DefaultDays, 7);
    if 0 <= x <= 4 && 0 <= s <= 6 {
      assert DefaultDays[x].day == x && MorningSlots[s] == s;
    }
  }

  /**
   * A teacher whose first match lists days gets one row per listed slot id,
   * in the listed order, each the hour of its slot.
   */
  lemma {:induction false} MatchedRows(table: seq<Known>, t: Teacher, i: int)
    requires FirstMatch(table, t.name, i) && table[i].days != []
    requires NewRows(table, t).Success?
    ensures |NewRows(table, t).value| == SlotTotal(table[i].days)
    ensures FollowVisits(NewRows(table, t).value, Visits(table[i].days))
    ensures forall j :: 0 <= j < |NewRows(table, t).value| ==> NewRows(table, t).value[j].teacher == t.id
  {
    RowsOfFollow(t.id, Visits(table[i].days));
  }

  /** No known name matches `name`. */
  predicate Unknown(table: seq<Known>, name: string) {
    forall j :: 0 <= j < |table| ==> !NameMatches(table[j].key, name)
  }

  /**
   * A teacher no known name matches gets 35 rows: Monday to Friday, 7:00 to
   * 14:00.
   */
  lemma {:induction false} DefaultWeek(table: seq<Known>, t: Teacher, d: int, h: int)
    requires Unknown(table, t.name)
    ensures NewRows(table, t).Success?
    ensures |NewRows(table, t).value| == 35
    ensures (d, h) in Endpoint.CoveredHours(AsAvailability(NewRows(table, t).value)) <==> 0 <= d <= 4 && 7 <= h <= 13
  {
    DefaultRows(table, t);
    DefaultVisits(d, h - FirstHour);
    DefaultHours(NewRows(table, t).value, Visits(DefaultDays), d, h);
  }

  /** The scheduler's last teaching hour, 14, is never in the default week. */
  lemma {:induction false} DefaultMissesLastHour(table: seq<Known>, t: Teacher, d: int)
    requires Unknown(table, t.name)
    ensures NewRows(table, t).Success?
    ensures (d, 14) !in Endpoint.CoveredHours(AsAvailability(NewRows(table, t).value))
    ensures Grid.SlotAtHour(14).Some?
  {
    DefaultWeek(table, t, d, 14);
  }

  lemma {:induction false} DefaultRows(table: seq<Known>, t: Teacher)
    requires Unknown(table, t.name)
    ensures NewRows(table, t).Success?
    ensures FollowVisits(NewRows(table, t).value, Visits(DefaultDays))
    ensures |NewRows(table, t).value| == 35
  {
    DefaultVisits(0, 0);
    var visits := Visits(DefaultDays);
    assert Chosen(table, t.name) == DefaultDays;
    forall i | 0 <= i < |visits| ensures SlotRange(visits[i].1).Some? {
      DefaultVisits(visits[i].0, visits[i].1);
    }
    RowsOfFollow(t.id, visits);
  }

  lemma {:induction false} DefaultHours(rows: seq<StoredRow>, visits: seq<(int, int)>, d: int, h: int)
    requires FollowVisits(rows, visits)
    requires (d, h - FirstHour) in visits <==> 0 <= d <= 4 && 0 <= h - FirstHour <= 6
    ensures (d, h) in Endpoint.CoveredHours(AsAvailability(rows)) <==> 0 <= d <= 4 && 7 <= h <= 13
  {
    VisitRowsAgree(rows, visits);
    VisitHours(rows, visits, d, h - FirstHour);
  }

  // ---------------------------------------------------------------------
  // Replacing the stored rows
  // ---------------------------------------------------------------------

  /** The stored rows of one teacher, in order. */
  function RowsFor(store: seq<StoredRow>, id: int): (r: seq<StoredRow>)
    ensures forall x :: x in r <==> x in store && x.teacher == id
  {
    if |store| == 0 then []
    else (if store[0].teacher == id then [store[0]] else []) + RowsFor(store[1..], id)
  }

  lemma {:induction false} RowsForAppend(a: seq<StoredRow>, b: seq<StoredRow>, id: int)
    ensures RowsFor(a + b, id) == RowsFor(a, id) + RowsFor(b, id)
    decreases |a|
  {
    if |a| > 0 {
      assert (a + b)[1..] == a[1..] + b;
      RowsForAppend(a[1..], b, id);
    } else {
      assert a + b == b;
    }
  }

  lemma {:induction false} RowsForAll(rows: seq<StoredRow>, id: int)
    requires forall i :: 0 <= i < |rows| ==> rows[i].teacher == id
    ensures RowsFor(rows, id) == rows
    decreases |rows|
  {
    if |rows| > 0 {
      RowsForAll(rows[1..], id);
      assert rows == [rows[0]] + rows[1..];
    }
  }

  lemma {:induction false} RowsForNone(rows: seq<StoredRow>, id: int)
    requires forall i :: 0 <= i < |rows| ==> rows[i].teacher != id
    ensures RowsFor(rows, id) == []
    decreases |rows|
  {
    if |rows| > 0 {
      RowsForNone(rows[1..], id);
    }
  }

  /** The rows of every other teacher, in order. */
  function Others(store: seq<StoredRow>, id: int): (r: seq<StoredRow>)
    ensures forall x :: x in r <==> x in store && x.teacher != id
  {
    if |store| == 0 then []
    else (if store[0].teacher != id then [store[0]] else []) + Others(store[1..], id)
  }

  lemma {:induction false} OthersRows(store: seq<StoredRow>, id: int, u: int)
    ensures RowsFor(Others(store, id), u) == if u == id then [] else RowsFor(store, u)
    decreases |store|
  {
    if |store| > 0 {
      var head := if store[0].teacher != id then [store[0]] else [];
      RowsForAppend(head, Others(store[1..], id), u);
      OthersRows(store[1..], id, u);
    }
  }

  /** Deleting a teacher's rows and adding its new ones. */
  function Replace(store: seq<StoredRow>, id: int, rows: seq<StoredRow>): seq<StoredRow> {
    Others(store, id) + rows
  }

  /** After a replacement the teacher has exactly the new rows and every other teacher keeps its own. */
  lemma {:induction false} ReplaceRows(store: seq<StoredRow>, id: int, rows: seq<StoredRow>, u: int)
    requires forall i :: 0 <= i < |rows| ==> rows[i].teacher == id
    ensures RowsFor(Replace(store, id, rows), id) == rows
    ensures u != id ==> RowsFor(Replace(store, id, rows), u) == RowsFor(store, u)
  {
    RowsForAppend(Others(store, id), rows, id);
    RowsForAppend(Others(store, id), rows, u);
    OthersRows(store, id, id);
    OthersRows(store, id, u);
    RowsForAll(rows, id);
    if u != id {
      RowsForNone(rows, u);
    }
  }

  /**
   * The whole run over the stored teachers in order: the new store, or the
   * first unknown slot id, in which case nothing is committed.
   */
  function Seed(store: seq<StoredRow>, teachers: seq<Teacher>, table: seq<Known>): Result<seq<StoredRow>, int>
    decreases |teachers|
  {
    if |teachers| == 0 then Success(store)
    else
      match NewRows(table, teachers[0])
      case Failure(s) => Failure(s)
      case Success(rows) => Seed(Replace(store, teachers[0].id, rows), teachers[1..], table)
  }

  /** Teacher ids are distinct. */
  predicate DistinctIds(teachers: seq<Teacher>) {
    forall i, j :: 0 <= i < j < |teachers| ==> teachers[i].id != teachers[j].id
  }

  /** The run succeeds exactly when every teacher's lists use known slot ids. */
  lemma {:induction false} SeedSucceeds(store: seq<StoredRow>, teachers: seq<Teacher>, table: seq<Known>)
    ensures Seed(store, teachers, table).Success? <==> forall i :: 0 <= i < |teachers| ==> NewRows(table, teachers[i]).Success?
    decreases |teachers|
  {
    if |teachers| > 0 {
      var rest := teachers[1..];
      assert forall i :: 1 <= i < |teachers| ==> teachers[i] == rest[i - 1];
      match NewRows(table, teachers[0])
      case Failure(_) =>
      case Success(rows) =>
        SeedSucceeds(Replace(store, teachers[0].id, rows), rest, table);
    }
  }

  /** A teacher the run does not list keeps its rows. */
  lemma {:induction false} SeedKeepsOthers(store: seq<StoredRow>, teachers: seq<Teacher>, table: seq<Known>, u: int)
    requires forall i :: 0 <= i < |teachers| ==> teachers[i].id != u
    ensures Seed(store, teachers, table).Success? ==> RowsFor(Seed(store, teachers, table).value, u) == RowsFor(store, u)
    decreases |teachers|
  {
    if |teachers| > 0 {
      var rest := teachers[1..];
      assert forall i :: 0 <= i < |rest| ==> rest[i] == teachers[i + 1];
      match NewRows(table, teachers[0])
      case Failure(_) =>
      case Success(rows) =>
        RowsOfFollow(teachers[0].id, Visits(Chosen(table, teachers[0].name)));
        SeedKeepsOthers(Replace(store, teachers[0].id, rows), rest, table, u);
        ReplaceRows(store, teachers[0].id, rows, u);
    }
  }

  /** After a successful run with distinct ids, each listed teacher has exactly its new rows. */
  lemma {:induction false} SeedRows(store: seq<StoredRow>, teachers: seq<Teacher>, table: seq<Known>, k: int)
    requires DistinctIds(teachers)
    requires 0 <= k < |teachers|
    requires Seed(store, teachers, table).Success?
    ensures NewRows(table, teachers[k]).Success?
    ensures RowsFor(Seed(store, teachers, table).value, teachers[k].id) == NewRows(table, teachers[k]).value
    decreases |teachers|
  {
    if k == 0 {
      SeedFirst(store, teachers, table);
    } else {
      var rest := teachers[1..];
      var next := Replace(store, teachers[0].id, NewRows(table, teachers[0]).value);
      assert Seed(store, teachers, table) == Seed(next, rest, table);
      assert rest[k - 1] == teachers[k];
      assert DistinctIds(rest) by {
        forall i, j | 0 <= i < j < |rest| ensures rest[i].id != rest[j].id {
          assert rest[i] == teachers[i + 1] && rest[j] == teachers[j + 1];
        }
      }
      SeedRows(next, rest, table, k - 1);
    }
  }

  /** The first teacher's rows are replaced, and later teachers leave them alone. */
  lemma {:induction false} SeedFirst(store: seq<StoredRow>, teachers: seq<Teacher>, table: seq<Known>)
    requires DistinctIds(teachers)
    requires 0 < |teachers|
    requires Seed(store, teachers, table).Success?
    ensures NewRows(table, teachers[0]).Success?
    ensures RowsFor(Seed(store, teachers, table).value, teachers[0].id) == NewRows(table, teachers[0]).value
  {
    var t := teachers[0];
    var rest := teachers[1..];
    var rows := NewRows(table, t).value;
    var next := Replace(store, t.id, rows);
    assert Seed(store, teachers, table) == Seed(next, rest, table);
    assert forall i :: 0 <= i < |rest| ==> rest[i] == teachers[i + 1];
    SeedKeepsOthers(next, rest, table, t.id);
    ReplaceRows(store, t.id, rows, t.id);
  }
}
