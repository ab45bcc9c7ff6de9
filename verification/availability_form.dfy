/**
 * The teacher form's availability editor: a grid of (day, slot) cells over
 * the nine slot ids (4 is the break) and six days, stored as entries with
 * the hour each slot starts at; plus the subject checklist, the payload
 * normalisation on submit and the expansion of the legacy day list when a
 * teacher is opened for editing.
 */
module AvailabilityForm {
  import opened Wrappers
  import opened Grid

  /** One selected cell: the day, the slot id and the hour range written for it. */
  datatype Entry = Entry(day: int, slot: int, start: int, end: int)

  /** The slot ids the grid shows, the break included, in display order. */
  const GridSlots: seq<int> := [0, 1, 2, 3, 4, 5, 6, 7, 8]

  /**
   * `SLOT_HOURS[slot] ?? 7 + slot`: the table gives 7, 8, 9, 10 for slots 0-3,
   * 11 for both the break (4) and slot 5, and 12, 13, 14 for slots 6-8; any
   * other id falls back to 7 + id.
   */
  function SlotHour(slot: int): (h: int)
    ensures 0 <= slot <= 3 ==> h == 7 + slot
    ensures 5 <= slot <= 8 ==> h == 6 + slot
    ensures slot == BreakSlot ==> h == 11
    ensures !(0 <= slot <= 8) ==> h == 7 + slot
  {
    if 0 <= slot <= 8 then [7, 8, 9, 10, 11, 11, 12, 13, 14][slot] else 7 + slot
  }

  /** The editor's hours are the scheduler's slot start hours, so its one-hour entries are read as the intended slot. */
  lemma {:induction false} SlotHourMatchesGrid(slot: int)
    requires IsSlotId(slot)
    ensures SlotHour(slot) == SlotStart(slot)
    ensures IsTeachingSlot(slot) ==> SlotAtHour(SlotHour(slot)) == Some(slot)
  {
    if IsTeachingSlot(slot) {
      TeachingSlotShape(slot);
    }
  }

  /** The entry the editor writes for a cell. */
  function NewEntry(day: int, slot: int): (e: Entry)
    ensures e.day == day && e.slot == slot && e.end == e.start + 1
  {
    var h := SlotHour(slot);
    Entry(day, slot, h, h + 1)
  }

  /** An entry written with the editor's hours. */
  predicate Normal(e: Entry) {
    e.start == SlotHour(e.slot) && e.end == e.start + 1
  }

  predicate AllNormal(entries: seq<Entry>) {
    forall e :: e in entries ==> Normal(e)
  }

  predicate At(e: Entry, day: int, slot: int) {
    e.day == day && e.slot == slot
  }

  /** How many entries are for the cell (day, slot). */
  function Count(entries: seq<Entry>, day: int, slot: int): (n: nat)
    ensures n <= |entries|
    ensures n == 0 <==> forall i :: 0 <= i < |entries| ==> !At(entries[i], day, slot)
  {
    if |entries| == 0 then 0
    else
      var init := entries[..|entries| - 1];
      assert forall i :: 0 <= i < |init| ==> init[i] == entries[i];
      Count(init, day, slot) + (if At(entries[|entries| - 1], day, slot) then 1 else 0)
  }

  lemma {:induction false} CountAppend(a: seq<Entry>, b: seq<Entry>, day: int, slot: int)
    ensures Count(a + b, day, slot) == Count(a, day, slot) + Count(b, day, slot)
    decreases |b|
  {
    if |b| > 0 {
      assert a + b == (a + b[..|b| - 1]) + [b[|b| - 1]];
      CountAppend(a, b[..|b| - 1], day, slot);
    } else {
      assert a + b == a;
    }
  }

  /** The entries that are not for the cell (day, slot), in order. */
  function DropCell(entries: seq<Entry>, day: int, slot: int): (r: seq<Entry>)
    ensures forall e :: e in r <==> e in entries && !At(e, day, slot)
    ensures Count(r, day, slot) == 0
    ensures forall d, s :: (d, s) != (day, slot) ==> Count(r, d, s) == Count(entries, d, s)
  {
    if |entries| == 0 then []
    else
      var init := entries[..|entries| - 1];
      var e := entries[|entries| - 1];
      assert entries == init + [e];
      var rest := DropCell(init, day, slot);
      var r := if At(e, day, slot) then rest else rest + [e];
      CountAppendOne(rest, e);
      r
  }

  lemma {:induction false} CountAppendOne(s: seq<Entry>, e: Entry)
    ensures forall d, t :: Count(s + [e], d, t) == Count(s, d, t) + (if At(e, d, t) then 1 else 0)
  {
    forall d, t ensures Count(s + [e], d, t) == Count(s, d, t) + (if At(e, d, t) then 1 else 0) {
      assert (s + [e])[..|s|] == s;
    }
  }

  /**
   * A click on a cell: every entry for the cell is removed if there is one;
   * otherwise one entry is appended with the cell's hours.
   */
  function ToggleSlot(entries: seq<Entry>, day: int, slot: int): (r: seq<Entry>)
    ensures Count(entries, day, slot) > 0 ==> Count(r, day, slot) == 0
    ensures Count(entries, day, slot) == 0 ==> Count(r, day, slot) == 1 && r == entries + [NewEntry(day, slot)]
    ensures forall d, s :: (d, s) != (day, slot) ==> Count(r, d, s) == Count(entries, d, s)
    ensures forall e :: !At(e, day, slot) ==> (e in r <==> e in entries)
    ensures AllNormal(entries) ==> AllNormal(r)
  {
    if Count(entries, day, slot) > 0 then DropCell(entries, day, slot)
    else
      CountAppendOne(entries, NewEntry(day, slot));
      entries + [NewEntry(day, slot)]
  }

  /** Two clicks on an empty cell give back the entries unchanged. */
  lemma {:induction false} ToggleSlotTwice(entries: seq<Entry>, day: int, slot: int)
    requires Count(entries, day, slot) == 0
    ensures ToggleSlot(ToggleSlot(entries, day, slot), day, slot) == entries
  {
    var once := entries + [NewEntry(day, slot)];
    DropAppended(entries, NewEntry(day, slot), day, slot);
  }

  lemma {:induction false} DropAppended(entries: seq<Entry>, e: Entry, day: int, slot: int)
    requires Count(entries, day, slot) == 0 && At(e, day, slot)
    ensures DropCell(entries + [e], day, slot) == entries
  {
    var s := entries + [e];
    assert s[..|s| - 1] == entries;
    DropNothing(entries, day, slot);
  }

  lemma {:induction false} DropNothing(entries: seq<Entry>, day: int, slot: int)
    requires Count(entries, day, slot) == 0
    ensures DropCell(entries, day, slot) == entries
  {
    if |entries| > 0 {
      var init := entries[..|entries| - 1];
      assert entries == init + [entries[|entries| - 1]];
      assert Count(init, day, slot) == 0;
      DropNothing(init, day, slot);
    }
  }

  /** Every break-free slot of the day has at least one entry. */
  predicate DayFull(entries: seq<Entry>, day: int) {
    forall s :: 0 <= s < SlotCount && s != BreakSlot ==> Count(entries, day, s) > 0
  }

  /** The entries of other days, in order. */
  function DropDay(entries: seq<Entry>, day: int): (r: seq<Entry>)
    ensures forall e :: e in r <==> e in entries && e.day != day
    ensures forall d, s :: Count(r, d, s) == if d == day then 0 else Count(entries, d, s)
  {
    if |entries| == 0 then []
    else
      var init := entries[..|entries| - 1];
      var e := entries[|entries| - 1];
      assert entries == init + [e];
      var rest := DropDay(init, day);
      CountAppendOne(rest, e);
      if e.day == day then rest else rest + [e]
  }

  /**
   * The entries a day click appends: one for each listed slot without an
   * entry for the day, in slot order. The handler re-checks the growing list
   * before each slot, but the slots are distinct, so an entry it has just
   * appended never answers for a later slot and checking the original list
   * is the same.
   */
  function Missing(entries: seq<Entry>, day: int, slots: seq<int>): (r: seq<Entry>)
    requires forall i, j :: 0 <= i < j < |slots| ==> slots[i] != slots[j]
    ensures forall e :: e in r ==> e.day == day && Normal(e)
    ensures forall s :: Count(r, day, s) == if s in slots && Count(entries, day, s) == 0 then 1 else 0
    decreases |slots|
  {
    if |slots| == 0 then []
    else
      var s := slots[0];
      var rest := Missing(entries, day, slots[1..]);
      var head := if Count(entries, day, s) == 0 then [NewEntry(day, s)] else [];
      CountAppend(head, rest, day, s);
      assert forall t :: t != s ==> Count(head + rest, day, t) == Count(rest, day, t) by {
        forall t | t != s ensures Count(head + rest, day, t) == Count(rest, day, t) {
          CountAppend(head, rest, day, t);
          assert Count(head, day, t) == 0;
        }
      }
      head + rest
  }

  /** Entries that are all for one day leave the counts of other days at zero. */
  lemma {:induction false} OtherDaysZero(r: seq<Entry>, day: int)
    requires forall e :: e in r ==> e.day == day
    ensures forall d, s :: d != day ==> Count(r, d, s) == 0
  {
  }

  /** The entries a day click appends: one per break-free slot without an entry for the day. */
  function AddedForDay(entries: seq<Entry>, day: int): (r: seq<Entry>)
    ensures forall e :: e in r ==> e.day == day && Normal(e)
    ensures forall s :: Count(r, day, s) == if IsTeachingSlot(s) && Count(entries, day, s) == 0 then 1 else 0
  {
    TeachingSlotsSpec();
    Missing(entries, day, TeachingSlots)
  }

  /**
   * A click on a day's header: when every break-free slot of the day has an
   * entry the whole day is cleared; otherwise each break-free slot without an
   * entry gets one, in slot order. Other days' entries are kept.
   */
  function ToggleDay(entries: seq<Entry>, day: int): (r: seq<Entry>)
    ensures forall e: Entry :: e.day != day ==> (e in r <==> e in entries)
    ensures AllNormal(entries) ==> AllNormal(r)
  {
    if DayFull(entries, day) then DropDay(entries, day)
    else entries + AddedForDay(entries, day)
  }

  /** A click on a full day's header leaves no entry for that day and every other day's counts as they were. */
  lemma {:induction false} ToggleDayClears(entries: seq<Entry>, day: int)
    requires DayFull(entries, day)
    ensures forall s :: Count(ToggleDay(entries, day), day, s) == 0
    ensures forall d, s :: d != day ==> Count(ToggleDay(entries, day), d, s) == Count(entries, d, s)
  {
  }

  /**
   * A click on the header of a day that is not full gives every break-free
   * slot of the day an entry, adding exactly one where there was none; the
   * break slot and every other day's counts stay as they were.
   */
  lemma {:induction false} ToggleDayFills(entries: seq<Entry>, day: int)
    requires !DayFull(entries, day)
    ensures forall s :: IsTeachingSlot(s) ==>
      Count(ToggleDay(entries, day), day, s) == if Count(entries, day, s) == 0 then 1 else Count(entries, day, s)
    ensures Count(ToggleDay(entries, day), day, BreakSlot) == Count(entries, day, BreakSlot)
    ensures forall d, s :: d != day ==> Count(ToggleDay(entries, day), d, s) == Count(entries, d, s)
  {
    var added := AddedForDay(entries, day);
    assert ToggleDay(entries, day) == entries + added;
    FillCounts(entries, day);
    FillSkipsBreak(entries, day);
    FillKeepsOtherDays(entries, added, day);
  }

  /** Appending the missing entries gives each empty break-free slot of the day one entry. */
  lemma {:induction false} FillCounts(entries: seq<Entry>, day: int)
    ensures forall s :: IsTeachingSlot(s) ==>
      Count(entries + AddedForDay(entries, day), day, s) == if Count(entries, day, s) == 0 then 1 else Count(entries, day, s)
  {
    var added := AddedForDay(entries, day);
    forall s | IsTeachingSlot(s)
      ensures Count(entries + added, day, s) == if Count(entries, day, s) == 0 then 1 else Count(entries, day, s)
    {
      CountAppend(entries, added, day, s);
    }
  }

  /** Appending the missing entries leaves the day's break slot alone. */
  lemma {:induction false} FillSkipsBreak(entries: seq<Entry>, day: int)
    ensures Count(entries + AddedForDay(entries, day), day, BreakSlot) == Count(entries, day, BreakSlot)
  {
    CountAppend(entries, AddedForDay(entries, day), day, BreakSlot);
  }

  /** Appending entries for one day leaves every other day's counts alone. */
  lemma {:induction false} FillKeepsOtherDays(entries: seq<Entry>, added: seq<Entry>, day: int)
    requires forall e :: e in added ==> e.day == day
    ensures forall d, s :: d != day ==> Count(entries + added, d, s) == Count(entries, d, s)
  {
    OtherDaysZero(added, day);
    forall d, s | d != day ensures Count(entries + added, d, s) == Count(entries, d, s) {
      CountAppend(entries, added, d, s);
    }
  }

  /** The subject checklist: a checked id is removed, an unchecked one appended. */
  function ToggleSubject(ids: seq<int>, id: int): (r: seq<int>)
    ensures id in r <==> id !in ids
    ensures forall x :: x != id ==> (x in r <==> x in ids)
    ensures id !in ids ==> r == ids + [id]
  {
    if id in ids then Without(ids, id) else ids + [id]
  }

  /** The ids without `id`, order kept. */
  function Without(ids: seq<int>, id: int): (r: seq<int>)
    ensures forall x :: x in r <==> x in ids && x != id
    ensures |r| <= |ids|
  {
    if |ids| == 0 then []
    else
      var rest := Without(ids[1..], id);
      if ids[0] == id then rest else [ids[0]] + rest
  }

  /** The payload on submit: every entry keeps its day and slot and gets the slot's hours again. */
  function Normalize(entries: seq<Entry>): (r: seq<Entry>)
    ensures |r| == |entries|
    ensures AllNormal(r)
    ensures forall i :: 0 <= i < |r| ==> r[i].day == entries[i].day && r[i].slot == entries[i].slot
  {
    seq(|entries|, i requires 0 <= i < |entries| => NewEntry(entries[i].day, entries[i].slot))
  }

  /** Entries the editor wrote pass through submission unchanged, and normalising twice is normalising once. */
  lemma {:induction false} NormalizeKeepsNormal(entries: seq<Entry>)
    ensures AllNormal(entries) ==> Normalize(entries) == entries
    ensures Normalize(Normalize(entries)) == Normalize(entries)
  {
    forall i | 0 <= i < |entries| && AllNormal(entries) ensures Normalize(entries)[i] == entries[i] {
      assert entries[i] in entries;
    }
  }

  /**
   * The legacy expansion when a teacher has a list of days but no per-slot
   * availability: for each listed day, in order, one entry for each
   * break-free slot, in slot order.
   */
  function ExpandDays(days: seq<int>): (r: seq<Entry>)
    ensures |r| == |TeachingSlots| * |days|
    ensures AllNormal(r)
    ensures forall i :: 0 <= i < |r| ==> IsTeachingSlot(r[i].slot) && r[i].day in days
    ensures forall d, s :: d in days && IsTeachingSlot(s) ==> Count(r, d, s) > 0
  {
    TeachingSlotsSpec();
    if |days| == 0 then []
    else
      var init := days[..|days| - 1];
      var d := days[|days| - 1];
      var prev := ExpandDays(init);
      var row := DayRow(d, TeachingSlots);
      CountAppendEach(prev, row);
      assert forall x :: x in days <==> x in init || x == d;
      prev + row
  }

  /** One entry for the day per listed slot. */
  function DayRow(day: int, slots: seq<int>): (r: seq<Entry>)
    ensures |r| == |slots|
    ensures forall i :: 0 <= i < |r| ==> r[i] == NewEntry(day, slots[i])
    ensures forall s :: s in slots ==> Count(r, day, s) > 0
  {
    if |slots| == 0 then []
    else
      var r := [NewEntry(day, slots[0])] + DayRow(day, slots[1..]);
      forall s | s in slots ensures Count(r, day, s) > 0 {
        var i :| 0 <= i < |slots| && slots[i] == s;
        assert At(r[i], day, s);
      }
      r
  }

  lemma {:induction false} CountAppendEach(a: seq<Entry>, b: seq<Entry>)
    ensures forall d, s :: Count(a + b, d, s) == Count(a, d, s) + Count(b, d, s)
  {
    forall d, s ensures Count(a + b, d, s) == Count(a, d, s) + Count(b, d, s) {
      CountAppend(a, b, d, s);
    }
  }

  /** A legacy day opens with every break-free slot selected, so a click on its header clears it. */
  lemma {:induction false} LegacyDayIsFull(days: seq<int>, d: int)
    requires d in days
    ensures DayFull(ExpandDays(days), d)
    ensures forall s :: Count(ToggleDay(ExpandDays(days), d), d, s) == 0
  {
    ToggleDayClears(ExpandDays(days), d);
  }

  /**
   * The availability the form opens with: the stored per-slot entries when
   * present, otherwise the legacy day list expanded, otherwise nothing.
   */
  function LoadEntries(stored: Option<seq<Entry>>, legacyDays: Option<seq<int>>): (r: seq<Entry>)
    ensures stored.Some? ==> r == stored.value
    ensures stored.None? && legacyDays.Some? ==> r == ExpandDays(legacyDays.value)
    ensures stored.None? && legacyDays.Some? ==> forall d, s :: d in legacyDays.value && IsTeachingSlot(s) ==> Count(r, d, s) > 0
    ensures stored.None? && legacyDays.None? ==> r == []
  {
    if stored.Some? then stored.value
    else if legacyDays.Some? then ExpandDays(legacyDays.value)
    else []
  }
}
