/**
 * The generation endpoint end to end: the checks made before scheduling,
 * the teachers, subjects and groups handed to the scheduler, the timetable,
 * the rooms given to the saved sessions, and the response. Teachers reach
 * the scheduler available at every hour their rows cover (see module
 * Endpoint for the start-hour reading the endpoint uses as written).
 */
module Generation {
  import opened Wrappers
  import opened Schedule
  import opened Greedy
  import opened Engine
  import opened Rooms
  import opened Endpoint

  /** Stored teacher ids are distinct (they are primary keys). */
  predicate DistinctRecordIds(recs: seq<TeacherRecord>) {
    forall i, j :: 0 <= i < j < |recs| ==> recs[i].id != recs[j].id
  }

  /** The selected teachers as the scheduler receives them, in order. */
  function SchedulerTeachers(recs: seq<TeacherRecord>): (ts: seq<Teacher>)
    ensures |ts| == |recs|
    ensures forall i :: 0 <= i < |recs| ==> ts[i].id == recs[i].id && ts[i].subjectIds == recs[i].subjectIds
    ensures forall i :: 0 <= i < |recs| ==> ts[i].availability == CoveredHours(recs[i].rows)
  {
    if |recs| == 0 then []
    else SchedulerTeachers(recs[..|recs| - 1]) + [SchedulerTeacher(recs[|recs| - 1])]
  }

  /** The selected teachers as the endpoint builds them as written: each row keyed by its start hour only. */
  function AsWrittenTeachers(recs: seq<TeacherRecord>): (ts: seq<Teacher>)
    ensures |ts| == |recs|
    ensures forall i :: 0 <= i < |recs| ==> ts[i].id == recs[i].id && ts[i].subjectIds == recs[i].subjectIds
    ensures forall i :: 0 <= i < |recs| ==> ts[i].availability == StartHours(recs[i].rows)
  {
    if |recs| == 0 then []
    else
      var rec := recs[|recs| - 1];
      AsWrittenTeachers(recs[..|recs| - 1]) + [Teacher(rec.id, rec.subjectIds, StartHours(rec.rows))]
  }

  /** Every stored row is one hour long, as the availability editor and the seeding script write them. */
  predicate OneHourRows(recs: seq<TeacherRecord>) {
    forall i, j :: 0 <= i < |recs| && 0 <= j < |recs[i].rows| ==> recs[i].rows[j].end == recs[i].rows[j].start + 1
  }

  /**
   * On one-hour rows the teachers the scheduler receives are exactly the ones
   * the endpoint builds as written, so the run below is the endpoint's run.
   */
  lemma {:induction false} AsWrittenAgrees(recs: seq<TeacherRecord>)
    requires OneHourRows(recs)
    ensures SchedulerTeachers(recs) == AsWrittenTeachers(recs)
  {
    var a, b := SchedulerTeachers(recs), AsWrittenTeachers(recs);
    forall i | 0 <= i < |recs| ensures a[i] == b[i] {
      OneHourRowsAgree(recs[i].rows);
    }
  }

  /**
   * The availability the scheduler uses for a stored teacher: the hours its
   * rows cover, or the whole teaching week when they cover none.
   */
  lemma {:induction false} AvailabilityOfRecord(recs: seq<TeacherRecord>, i: int)
    requires DistinctRecordIds(recs) && 0 <= i < |recs|
    ensures recs[i].id in AvailabilityMap(SchedulerTeachers(recs))
    ensures AvailabilityMap(SchedulerTeachers(recs))[recs[i].id]
      == if CoveredHours(recs[i].rows) != {} then CoveredHours(recs[i].rows) else FullWeek()
  {
    var ts := SchedulerTeachers(recs);
    assert DistinctTeacherIds(ts) by {
      forall a, b | 0 <= a < b < |ts| ensures ts[a].id != ts[b].id {
        assert ts[a].id == recs[a].id && ts[b].id == recs[b].id;
      }
    }
    assert ts[i] in ts;
  }

  /** Every hour one of a teacher's rows covers is an hour the scheduler may place it at. */
  lemma {:induction false} RowsCoverAvailability(recs: seq<TeacherRecord>, i: int, j: int, h: int)
    requires DistinctRecordIds(recs) && 0 <= i < |recs|
    requires 0 <= j < |recs[i].rows| && recs[i].rows[j].start <= h < recs[i].rows[j].end
    ensures (recs[i].rows[j].day, h) in AvailabilityMap(SchedulerTeachers(recs))[recs[i].id]
  {
    AvailabilityOfRecord(recs, i);
    assert (recs[i].rows[j].day, h) in CoveredHours(recs[i].rows);
  }

  /** Created group ids are distinct (they are primary keys). */
  predicate DistinctGroupInfoIds(groups: seq<GroupInfo>) {
    forall i, j :: 0 <= i < j < |groups| ==> groups[i].id != groups[j].id
  }

  /** The created groups as the scheduler receives them: id and term. */
  function SchedulerGroups(groups: seq<GroupInfo>): (gs: seq<Group>)
    ensures |gs| == |groups|
    ensures forall i :: 0 <= i < |groups| ==> gs[i].id == groups[i].id && gs[i].term == Some(groups[i].term)
    ensures DistinctGroupInfoIds(groups) ==> DistinctGroupIds(gs)
  {
    if |groups| == 0 then []
    else
      var init := SchedulerGroups(groups[..|groups| - 1]);
      var g := groups[|groups| - 1];
      init + [Group(g.id, Some(g.term))]
  }

  /** The response succeeds exactly when every subject has a teacher and every group is clean. */
  lemma {:induction false} FinishMeaning(ms: seq<Subject>, recs: seq<TeacherRecord>, groups: seq<GroupInfo>, P: seq<Placement>)
    ensures Finish(ms, recs, groups, P).success <==>
      (forall m :: m in ms ==> Endpoint.Qualified(recs, m.id)) &&
      (forall j :: 0 <= j < |groups| ==> GroupClean(groups[j], ms, P))
  {
    assert (forall m :: m in ms ==> Endpoint.Qualified(recs, m.id)) <==> (forall i :: 0 <= i < |ms| ==> Endpoint.Qualified(recs, ms[i].id));
  }

  /** What a successful run produces: the timetable, the saved placements and the response. */
  datatype Outcome = Outcome(sessions: seq<Session>, placements: seq<Placement>, response: Response)

  /**
   * One run of the endpoint. It refuses exactly when the checks do, with
   * their rejection. Otherwise the timetable keeps the hard rules against
   * the availability the rows cover and every group's outcome, the saved
   * sessions get first-fit rooms that are never double-booked, and the
   * response reports success exactly when every subject has a teacher and
   * every group is complete and without idle hours.
   */
  method Run(selected: seq<int>, recs: seq<TeacherRecord>, stored: seq<Subject>, groups: seq<GroupInfo>,
             rooms: seq<Room>, compactions: seq<(int, int)>, interDays: seq<(int, int)>,
             weeklies: seq<(int, int, int)>)
    returns (r: Result<Outcome, Rejection>)
    requires DistinctGroupInfoIds(groups)
    ensures r.Failure? <==> Precheck(selected, recs).Failure?
    ensures r.Failure? ==> r.error == Precheck(selected, recs).error
    ensures r.Success? ==> HardRules(r.value.sessions, AvailabilityMap(SchedulerTeachers(recs)))
    ensures r.Success? ==> forall j :: 0 <= j < |groups| ==>
      GroupOutcome(r.value.sessions, SchedulerGroups(groups)[j], SelectedSubjects(selected, stored))
    ensures r.Success? ==> SessionsOf(r.value.placements) == Saved(r.value.sessions)
    ensures r.Success? ==> RoomsNeverDoubleBooked(r.value.placements) && OneSubjectPerRoom(r.value.placements)
    ensures r.Success? ==> r.value.response.total == |r.value.placements|
    ensures r.Success? ==> (r.value.response.success <==>
      (forall m :: m in SelectedSubjects(selected, stored) ==> Endpoint.Qualified(recs, m.id)) &&
      (forall j :: 0 <= j < |groups| ==> GroupClean(groups[j], SelectedSubjects(selected, stored), r.value.placements)))
  {
    var check := Precheck(selected, recs);
    if check.Failure? {
      return Failure(check.error);
    }
    var ms := SelectedSubjects(selected, stored);
    var S, _ := Timetable(SchedulerTeachers(recs), ms, SchedulerGroups(groups), compactions, interDays, weeklies);
    var P := AssignRooms(S, rooms);
    var response := Finish(ms, recs, groups, P);
    FinishMeaning(ms, recs, groups, P);
    r := Success(Outcome(S, P, response));
  }
}
