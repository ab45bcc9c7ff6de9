/**
 * Room assignment in the generation endpoint. Every saved session (the
 * break slot is skipped) gets the first room, in descending capacity order,
 * that is free at the session's (day, start hour) and where the session's
 * teacher has not taught a different subject; a session no room fits gets
 * no room.
 */
module Rooms {
  import opened Wrappers
  import opened Grid
  import opened Schedule
  import opened Sorting
  import Listing

  datatype Room = Room(id: int, capacity: int, available: bool)

  /** A saved session and the room it was given, if any. */
  datatype Placement = Placement(session: Session, room: Option<int>)

  /** The rooms marked available, in their stored order. */
  function AvailableRooms(rooms: seq<Room>): (r: seq<Room>)
    ensures forall x :: x in r <==> x in rooms && x.available
    ensures |r| <= |rooms|
  {
    if |rooms| == 0 then []
    else
      var last := rooms[|rooms| - 1];
      assert rooms == rooms[..|rooms| - 1] + [last];
      AvailableRooms(rooms[..|rooms| - 1]) + (if last.available then [last] else [])
  }

  function DescendingCapacity(r: Room): int { -r.capacity }

  /** The available rooms by non-increasing capacity, rooms of equal capacity in stored order. */
  function RoomOrder(rooms: seq<Room>): (r: seq<Room>)
    ensures forall i, j :: 0 <= i < j < |r| ==> r[i].capacity >= r[j].capacity
    ensures multiset(r) == multiset(AvailableRooms(rooms))
    ensures forall k :: WithKey(r, DescendingCapacity, k) == WithKey(AvailableRooms(rooms), DescendingCapacity, k)
  {
    var r := SortBy(AvailableRooms(rooms), DescendingCapacity);
    assert forall i, j :: 0 <= i < j < |r| ==> DescendingCapacity(r[i]) <= DescendingCapacity(r[j]);
    r
  }

  // ---------------------------------------------------------------------
  // What blocks a room
  // ---------------------------------------------------------------------

  /**
   * An earlier placement in room `id` rules the room out for `x`: it is at
   * the same (day, start hour), or it is the same teacher with another subject.
   */
  predicate Clash(p: Placement, id: int, x: Session) {
    && p.room == Some(id)
    && ((p.session.day == x.day && p.session.start == x.start) ||
        (p.session.teacher == x.teacher && p.session.subject != x.subject))
  }

  predicate Blocked(P: seq<Placement>, id: int, x: Session) {
    exists j :: 0 <= j < |P| && Clash(P[j], id, x)
  }

  /** No room is given twice at the same (day, start hour). */
  predicate RoomsNeverDoubleBooked(P: seq<Placement>) {
    forall i, j :: 0 <= i < j < |P| && P[i].room.Some? && P[i].room == P[j].room ==>
      !(P[i].session.day == P[j].session.day && P[i].session.start == P[j].session.start)
  }

  /** A teacher teaches at most one subject in any one room. */
  predicate OneSubjectPerRoom(P: seq<Placement>) {
    forall i, j ::
      0 <= i < |P| && 0 <= j < |P| && P[i].room.Some? && P[i].room == P[j].room && P[i].session.teacher == P[j].session.teacher
      ==> P[i].session.subject == P[j].session.subject
  }

  /**
   * Placement `k` got the first room of `order` that the earlier placements
   * do not block, or no room when they block every room.
   */
  ghost predicate ChosenFirst(P: seq<Placement>, order: seq<Room>, k: int)
    requires 0 <= k < |P|
  {
    var x := P[k].session;
    match P[k].room
    case None => forall q :: 0 <= q < |order| ==> Blocked(P[..k], order[q].id, x)
    case Some(id) =>
      exists q :: 0 <= q < |order| && order[q].id == id && !Blocked(P[..k], id, x) &&
        forall q' :: 0 <= q' < q ==> Blocked(P[..k], order[q'].id, x)
  }

  /** First-fit choices never double-book a room and keep one subject per teacher and room. */
  lemma {:induction false} ChosenFirstRules(P: seq<Placement>, order: seq<Room>)
    requires forall k :: 0 <= k < |P| ==> ChosenFirst(P, order, k)
    ensures RoomsNeverDoubleBooked(P) && OneSubjectPerRoom(P)
  {
    forall i, j | 0 <= i < j < |P| && P[i].room.Some? && P[i].room == P[j].room
      ensures !Clash(P[i], P[j].room.value, P[j].session)
    {
      assert ChosenFirst(P, order, j);
      assert P[..j][i] == P[i];
    }
  }

  // ---------------------------------------------------------------------
  // The bookkeeping the endpoint keeps
  // ---------------------------------------------------------------------

  /** (room, day, hour) triples in use, and the subjects each (teacher, room) has had. */
  datatype RoomLedger = RoomLedger(used: set<(int, int, int)>, taught: map<(int, int), set<int>>)

  function Taught(RL: RoomLedger, t: int, id: int): set<int> {
    if (t, id) in RL.taught then RL.taught[(t, id)] else {}
  }

  ghost predicate RoomTracks(RL: RoomLedger, P: seq<Placement>) {
    && (forall key :: key in RL.used <==>
          exists j :: 0 <= j < |P| && P[j].room.Some? && (P[j].room.value, P[j].session.day, P[j].session.start) == key)
    && (forall t, id, m :: m in Taught(RL, t, id) <==>
          exists j :: 0 <= j < |P| && P[j].room == Some(id) && P[j].session.teacher == t && P[j].session.subject == m)
  }

  /** The endpoint's test for room `id`: free at that hour, and no other subject of the teacher there. */
  predicate Fits(RL: RoomLedger, id: int, x: Session) {
    && (id, x.day, x.start) !in RL.used
    && (Taught(RL, x.teacher, id) == {} || x.subject in Taught(RL, x.teacher, id))
  }

  /** A (room, day, hour) in use is blocked at that hour. */
  lemma {:induction false} UsedBlocks(RL: RoomLedger, P: seq<Placement>, id: int, x: Session)
    requires RoomTracks(RL, P)
    ensures (id, x.day, x.start) in RL.used ==> Blocked(P, id, x)
  {
    if (id, x.day, x.start) in RL.used {
      var j :| 0 <= j < |P| && P[j].room.Some? && (P[j].room.value, P[j].session.day, P[j].session.start) == (id, x.day, x.start);
      assert Clash(P[j], id, x);
    }
  }

  /** Unless the room is blocked, every subject the teacher has had there is this session's. */
  lemma {:induction false} OtherSubjectBlocks(RL: RoomLedger, P: seq<Placement>, id: int, x: Session)
    requires RoomTracks(RL, P)
    ensures !Blocked(P, id, x) ==> Taught(RL, x.teacher, id) <= {x.subject}
  {
    forall m | m in Taught(RL, x.teacher, id) && !Blocked(P, id, x) ensures m == x.subject {
      var j :| 0 <= j < |P| && P[j].room == Some(id) && P[j].session.teacher == x.teacher && P[j].session.subject == m;
      assert !Clash(P[j], id, x);
    }
  }

  /** The endpoint's test agrees with the placements: a room fits exactly when nothing blocks it. */
  lemma {:induction false} FitsIffFree(RL: RoomLedger, P: seq<Placement>, id: int, x: Session)
    requires RoomTracks(RL, P) && OneSubjectPerRoom(P)
    ensures Fits(RL, id, x) <==> !Blocked(P, id, x)
  {
    UsedBlocks(RL, P, id, x);
    OtherSubjectBlocks(RL, P, id, x);
    var ms := Taught(RL, x.teacher, id);
    if Fits(RL, id, x) {
      forall j | 0 <= j < |P| ensures !Clash(P[j], id, x) {
        if P[j].room == Some(id) {
          assert (id, P[j].session.day, P[j].session.start) in RL.used;
          if P[j].session.teacher == x.teacher {
            assert P[j].session.subject in ms;
            var j' :| 0 <= j' < |P| && P[j'].room == Some(id) && P[j'].session.teacher == x.teacher && P[j'].session.subject == x.subject;
          }
        }
      }
    }
  }

  /** The index of the first room of `order` that fits, if any. */
  function FirstFit(RL: RoomLedger, order: seq<Room>, x: Session): (q: Option<nat>)
    ensures q.Some? ==> q.value < |order| && Fits(RL, order[q.value].id, x)
    ensures q.Some? ==> forall k :: 0 <= k < q.value ==> !Fits(RL, order[k].id, x)
    ensures q.None? ==> forall k :: 0 <= k < |order| ==> !Fits(RL, order[k].id, x)
  {
    if |order| == 0 then None
    else if Fits(RL, order[0].id, x) then Some(0)
    else
      match FirstFit(RL, order[1..], x)
      case None => None
      case Some(k) => Some(k + 1)
  }

  /** Records a placement that got a room. */
  function Take(RL: RoomLedger, p: Placement): RoomLedger {
    match p.room
    case None => RL
    case Some(id) =>
      RoomLedger(RL.used + {(id, p.session.day, p.session.start)},
                 RL.taught[(p.session.teacher, id) := Taught(RL, p.session.teacher, id) + {p.session.subject}])
  }

  lemma {:induction false} TakeTracks(RL: RoomLedger, P: seq<Placement>, p: Placement)
    requires RoomTracks(RL, P)
    ensures RoomTracks(Take(RL, p), P + [p])
  {
    var P' := P + [p];
    var RL' := Take(RL, p);
    assert forall j :: 0 <= j < |P| ==> P'[j] == P[j];
    assert P'[|P|] == p;
    forall t, id, m ensures m in Taught(RL', t, id) <==>
      exists j :: 0 <= j < |P'| && P'[j].room == Some(id) && P'[j].session.teacher == t && P'[j].session.subject == m
    {
      if m in Taught(RL, t, id) {
        var j :| 0 <= j < |P| && P[j].room == Some(id) && P[j].session.teacher == t && P[j].session.subject == m;
        assert P'[j] == P[j];
      }
    }
  }

  lemma {:induction false} ChosenFirstAppend(P: seq<Placement>, order: seq<Room>, p: Placement, k: int)
    requires 0 <= k < |P| && ChosenFirst(P, order, k)
    ensures ChosenFirst(P + [p], order, k)
  {
    assert (P + [p])[..k] == P[..k];
    assert (P + [p])[k] == P[k];
  }

  /** The placement made from the first fitting room is a first-fit choice. */
  lemma {:induction false} FirstFitChosen(RL: RoomLedger, P: seq<Placement>, order: seq<Room>, x: Session)
    requires RoomTracks(RL, P) && OneSubjectPerRoom(P)
    ensures var q := FirstFit(RL, order, x);
      ChosenFirst(P + [Placement(x, if q.Some? then Some(order[q.value].id) else None)], order, |P|)
  {
    var q := FirstFit(RL, order, x);
    var P' := P + [Placement(x, if q.Some? then Some(order[q.value].id) else None)];
    assert P'[..|P|] == P;
    forall k | 0 <= k < |order| ensures Fits(RL, order[k].id, x) <==> !Blocked(P, order[k].id, x) {
      FitsIffFree(RL, P, order[k].id, x);
    }
  }

  // ---------------------------------------------------------------------
  // The assignment loop
  // ---------------------------------------------------------------------

  /** The endpoint's test for a session it saves: not on the break slot. */
  function Kept(): Session -> bool {
    (x: Session) => x.slot != BreakSlot
  }

  /**
   * The sessions the endpoint saves: all but those on the break slot, in
   * order (`SavedAppend`), each copy kept.
   */
  function Saved(S: seq<Session>): (r: seq<Session>)
    ensures forall x :: x in r <==> x in S && x.slot != BreakSlot
    ensures forall x :: multiset(r)[x] == if x.slot != BreakSlot then multiset(S)[x] else 0
    ensures |r| <= |S|
    ensures |S| == 1 ==> r == if S[0].slot != BreakSlot then S else []
  {
    forall x ensures multiset(Listing.Keep(S, Kept()))[x] == if Kept()(x) then multiset(S)[x] else 0 {
      Listing.KeepCount(S, Kept(), x);
    }
    KeepOne(S);
    Listing.Keep(S, Kept())
  }

  lemma {:induction false} KeepOne(S: seq<Session>)
    ensures |S| == 1 ==> Listing.Keep(S, Kept()) == if S[0].slot != BreakSlot then S else []
  {
    if |S| == 1 {
      Listing.KeepSnoc([], S[0], Kept());
      assert [] + [S[0]] == S;
    }
  }

  /** Saving distributes over concatenation, so the saved sessions keep the order of the timetable. */
  lemma {:induction false} SavedAppend(a: seq<Session>, b: seq<Session>)
    ensures Saved(a + b) == Saved(a) + Saved(b)
  {
    Listing.KeepAppend(a, b, Kept());
  }

  function SessionsOf(P: seq<Placement>): (r: seq<Session>)
    ensures |r| == |P| && forall i :: 0 <= i < |P| ==> r[i] == P[i].session
  {
    seq(|P|, i requires 0 <= i < |P| => P[i].session)
  }

  /** One step of the assignment loop keeps its invariants. */
  lemma {:induction false} AssignStep(RL: RoomLedger, P: seq<Placement>, order: seq<Room>, x: Session)
    requires RoomTracks(RL, P)
    requires forall k :: 0 <= k < |P| ==> ChosenFirst(P, order, k)
    ensures var q := FirstFit(RL, order, x);
      var p := Placement(x, if q.Some? then Some(order[q.value].id) else None);
      && RoomTracks(Take(RL, p), P + [p])
      && (forall k :: 0 <= k < |P| + 1 ==> ChosenFirst(P + [p], order, k))
      && SessionsOf(P + [p]) == SessionsOf(P) + [x]
  {
    var q := FirstFit(RL, order, x);
    var p := Placement(x, if q.Some? then Some(order[q.value].id) else None);
    ChosenFirstRules(P, order);
    FirstFitChosen(RL, P, order, x);
    forall k | 0 <= k < |P| ensures ChosenFirst(P + [p], order, k) {
      ChosenFirstAppend(P, order, p, k);
    }
    TakeTracks(RL, P, p);
    assert SessionsOf(P + [p]) == SessionsOf(P) + [x];
  }

  /** The placement the loop records for `x`: its first-fit room, if any. */
  function Placed(RL: RoomLedger, order: seq<Room>, x: Session): (p: Placement)
    ensures p.session == x
  {
    var q := FirstFit(RL, order, x);
    Placement(x, if q.Some? then Some(order[q.value].id) else None)
  }

  /** The loop's invariants survive one more session, saved or skipped. */
  lemma {:induction false} LoopStep(S: seq<Session>, i: int, RL: RoomLedger, P: seq<Placement>, order: seq<Room>)
    requires 0 <= i < |S|
    requires SessionsOf(P) == Saved(S[..i])
    requires RoomTracks(RL, P)
    requires forall k :: 0 <= k < |P| ==> ChosenFirst(P, order, k)
    ensures S[i].slot == BreakSlot ==> SessionsOf(P) == Saved(S[..i + 1])
    ensures S[i].slot != BreakSlot ==> var p := Placed(RL, order, S[i]);
      && SessionsOf(P + [p]) == Saved(S[..i + 1])
      && RoomTracks(Take(RL, p), P + [p])
      && (forall k :: 0 <= k < |P| + 1 ==> ChosenFirst(P + [p], order, k))
  {
    assert S[..i + 1] == S[..i] + [S[i]];
    if S[i].slot != BreakSlot {
      AssignStep(RL, P, order, S[i]);
    }
  }

  /**
   * Gives every saved session its first-fit room. The placements are the
   * saved sessions in order, each got the first room not blocked by the
   * earlier ones (or none), no room is double-booked, and no teacher has two
   * subjects in one room.
   */
  method AssignRooms(S: seq<Session>, rooms: seq<Room>) returns (P: seq<Placement>)
    ensures SessionsOf(P) == Saved(S)
    ensures forall k :: 0 <= k < |P| ==> ChosenFirst(P, RoomOrder(rooms), k)
    ensures RoomsNeverDoubleBooked(P) && OneSubjectPerRoom(P)
  {
    var order := RoomOrder(rooms);
    var RL := RoomLedger({}, map[]);
    P := [];
    for i := 0 to |S|
      invariant SessionsOf(P) == Saved(S[..i])
      invariant RoomTracks(RL, P)
      invariant forall k :: 0 <= k < |P| ==> ChosenFirst(P, order, k)
    {
      LoopStep(S, i, RL, P, order);
      if S[i].slot != BreakSlot {
        var p := Placed(RL, order, S[i]);
        RL, P := Take(RL, p), P + [p];
      }
    }
    assert S[..|S|] == S;
    ChosenFirstRules(P, order);
  }
}
