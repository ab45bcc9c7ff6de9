/**
 * The daily time grid shared by the scheduler, the generation endpoint and
 * the availability editor: nine slot ids, of which id 4 is the mandatory break,
 * on five teaching days (Monday = 0 .. Friday = 4).
 */
module Grid {
  import opened Wrappers

  /** Number of teaching days, Monday (0) to Friday (4). */
  const DayCount: int := 5
  /** Number of slot ids in the slot configuration table. */
  const SlotCount: int := 9
  /** The slot id reserved for the break; it is never a teaching slot. */
  const BreakSlot: int := 4

  predicate IsDay(d: int) { 0 <= d < DayCount }

  predicate IsSlotId(s: int) { 0 <= s < SlotCount }

  predicate IsTeachingSlot(s: int) { IsSlotId(s) && s != BreakSlot }

  /** Start hour of each slot id in the slot configuration table (the break row starts at 11). */
  function SlotStart(s: int): int
    requires IsSlotId(s)
  {
    [7, 8, 9, 10, 11, 11, 12, 13, 14][s]
  }

  /** End hour of each slot id in the slot configuration table (the break row ends at 11). */
  function SlotEnd(s: int): int
    requires IsSlotId(s)
  {
    [8, 9, 10, 11, 11, 12, 13, 14, 15][s]
  }

  /** The non-break slot ids, in increasing (chronological) order. */
  const TeachingSlots: seq<int> := [0, 1, 2, 3, 5, 6, 7, 8]

  /** The teaching hours 7..14: the start hours of the teaching slots. */
  predicate IsTeachingHour(h: int) { 7 <= h <= 14 }

  /**
   * The inverse of `SlotStart` on teaching slots: the teaching slot that starts
   * at hour `h`, if any. Its existence shows that start hours identify
   * teaching slots uniquely.
   */
  function SlotAtHour(h: int): (r: Option<int>)
    ensures r.Some? ==> IsTeachingSlot(r.value) && SlotStart(r.value) == h
    ensures r.None? <==> !IsTeachingHour(h)
  {
    if 7 <= h <= 10 then Some(h - 7)
    else if 11 <= h <= 14 then Some(h - 6)
    else None
  }

  /** Every teaching slot is one hour long, starts at a teaching hour and is recovered from its start hour. */
  lemma {:induction false} TeachingSlotShape(s: int)
    requires IsTeachingSlot(s)
    ensures SlotEnd(s) == SlotStart(s) + 1
    ensures IsTeachingHour(SlotStart(s))
    ensures SlotAtHour(SlotStart(s)) == Some(s)
  {
  }

  /** Start hours are injective on teaching slots (slot 4, the break, shares hour 11 with slot 5). */
  lemma {:induction false} SlotStartInjective(a: int, b: int)
    requires IsTeachingSlot(a) && IsTeachingSlot(b)
    requires SlotStart(a) == SlotStart(b)
    ensures a == b
  {
    TeachingSlotShape(a);
    TeachingSlotShape(b);
  }

  /** `TeachingSlots` lists exactly the teaching slots, strictly increasing. */
  lemma {:induction false} TeachingSlotsSpec()
    ensures forall s :: s in TeachingSlots <==> IsTeachingSlot(s)
    ensures forall i, j :: 0 <= i < j < |TeachingSlots| ==> TeachingSlots[i] < TeachingSlots[j]
    ensures forall i :: 0 <= i < |TeachingSlots| ==> SlotStart(TeachingSlots[i]) == 7 + i
  {
  }
}
