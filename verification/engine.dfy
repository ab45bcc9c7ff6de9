/**
 * The scheduler engine end to end: the greedy phase, then compaction,
 * inter-day balancing and weekly balancing, each pass threading the
 * occupancy and per-day counters of the one before. The passes' choices are
 * parameters (see module Passes). The final timetable keeps every hard rule
 * and passes the validator.
 */
module Engine {
  import opened Wrappers
  import opened Grid
  import opened Schedule
  import opened Greedy
  import opened Passes
  import opened Validation

  /** The passes keep, for every group, the outcome the greedy phase promised. */
  lemma {:induction false} PassesKeepOutcome(S0: seq<Session>, S: seq<Session>, grp: Group, subjects: seq<Subject>)
    requires |S| == |S0| && forall j :: 0 <= j < |S| ==> SameClass(S[j], S0[j])
    requires GroupOutcome(S0, grp, subjects)
    ensures GroupOutcome(S, grp, subjects)
  {
    var term := GroupTerm(grp);
    forall m | m in subjects && m.term == Some(term)
      ensures Count(S, GroupSubject, (grp.id, m.id)) <= Quota(m)
    {
      SameClassCount(S0, S, GroupSubject, (grp.id, m.id));
    }
    assert forall i :: 0 <= i < |S| ==> S[i].group == S0[i].group && S[i].subject == S0[i].subject;
  }

  /**
   * Generates a timetable: greedy placement, then the three passes over the
   * requested moves, then validation. The timetable keeps the hard rules,
   * every group's outcome, and the validator reports nothing.
   */
  method Timetable(teachers: seq<Teacher>, subjects: seq<Subject>, groups: seq<Group>,
                   compactions: seq<(int, int)>, interDays: seq<(int, int)>, weeklies: seq<(int, int, int)>)
    returns (S: seq<Session>, report: Report)
    requires DistinctSubjectIds(subjects) && DistinctGroupIds(groups)
    ensures HardRules(S, AvailabilityMap(teachers))
    ensures forall j :: 0 <= j < |groups| ==> GroupOutcome(S, groups[j], subjects)
    ensures report.errors == [] && report.warnings == []
  {
    var avail := AvailabilityMap(teachers);
    var S0, L0 := Generate(teachers, subjects, groups);
    var S1, L1 := Compaction(S0, L0, avail, compactions);
    var S2, L2 := InterDay(S1, L1, avail, interDays);
    var S3, L3 := Weekly(S2, L2, avail, weeklies);
    S := S3;
    forall j | 0 <= j < |groups| ensures GroupOutcome(S, groups[j], subjects) {
      PassesKeepOutcome(S0, S1, groups[j], subjects);
      PassesKeepOutcome(S1, S2, groups[j], subjects);
      PassesKeepOutcome(S2, S3, groups[j], subjects);
    }
    report := Validate(S);
    HardRulesValidate(S, avail);
  }
}
