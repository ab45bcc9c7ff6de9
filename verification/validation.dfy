/**
 * The timetable validator: it walks the sessions in order and reports a
 * teacher conflict for every session whose (teacher, day, start hour) has
 * already been seen. It never reports warnings.
 */
module Validation {
  import opened Grid
  import opened Schedule

  /** The key the validator looks sessions up by. */
  function ConflictKey(x: Session): (int, int, int) {
    (x.teacher, x.day, x.start)
  }

  /** The keys seen so far. */
  function SeenKeys(S: seq<Session>): set<(int, int, int)> {
    set i | 0 <= i < |S| :: ConflictKey(S[i])
  }

  lemma {:induction false} SeenKeysAppend(S: seq<Session>, x: Session)
    ensures SeenKeys(S + [x]) == SeenKeys(S) + {ConflictKey(x)}
  {
    var T := S + [x];
    forall k | k in SeenKeys(T) ensures k in SeenKeys(S) + {ConflictKey(x)} {
      var i :| 0 <= i < |T| && k == ConflictKey(T[i]);
      if i < |S| { assert T[i] == S[i]; }
    }
    forall k | k in SeenKeys(S) ensures k in SeenKeys(T) {
      var i :| 0 <= i < |S| && k == ConflictKey(S[i]);
      assert T[i] == S[i];
    }
    assert T[|S|] == x;
  }

  /** No two sessions share a (teacher, day, start hour). */
  predicate KeysDistinct(S: seq<Session>) {
    forall i, j :: 0 <= i < j < |S| ==> ConflictKey(S[i]) != ConflictKey(S[j])
  }

  /**
   * The reported conflicts, one key per session whose key occurred earlier,
   * in session order. Every session is either the first with its key or
   * reported, and nothing is reported exactly when the keys are distinct.
   */
  function ConflictErrors(S: seq<Session>): (errors: seq<(int, int, int)>)
    ensures |errors| + |SeenKeys(S)| == |S|
    ensures errors == [] <==> KeysDistinct(S)
    ensures forall e :: e in errors ==> e in SeenKeys(S)
  {
    if |S| == 0 then []
    else
      var init := S[..|S| - 1];
      var x := S[|S| - 1];
      var prev := ConflictErrors(init);
      assert S == init + [x];
      SeenKeysAppend(init, x);
      if ConflictKey(x) in SeenKeys(init) then
        RepeatedKey(init, x);
        assert SeenKeys(S) == SeenKeys(init);
        prev + [ConflictKey(x)]
      else
        FreshKey(init, x);
        assert SeenKeys(S) == SeenKeys(init) + {ConflictKey(x)};
        prev
  }

  /** A session whose key was seen before makes the keys repeat. */
  lemma {:induction false} RepeatedKey(init: seq<Session>, x: Session)
    requires ConflictKey(x) in SeenKeys(init)
    ensures !KeysDistinct(init + [x])
  {
    var S := init + [x];
    var i :| 0 <= i < |init| && ConflictKey(x) == ConflictKey(init[i]);
    assert S[i] == init[i] && S[|init|] == x;
  }

  /** A session with a new key keeps the keys distinct exactly when they were. */
  lemma {:induction false} FreshKey(init: seq<Session>, x: Session)
    requires ConflictKey(x) !in SeenKeys(init)
    ensures KeysDistinct(init + [x]) <==> KeysDistinct(init)
  {
    var S := init + [x];
    if KeysDistinct(init) {
      forall i, j | 0 <= i < j < |S| ensures ConflictKey(S[i]) != ConflictKey(S[j]) {
        assert S[i] == init[i];
        if j < |init| {
          assert S[j] == init[j];
        } else {
          assert ConflictKey(init[i]) in SeenKeys(init);
        }
      }
    }
    if KeysDistinct(S) {
      forall i, j | 0 <= i < j < |init| ensures ConflictKey(init[i]) != ConflictKey(init[j]) {
        assert S[i] == init[i] && S[j] == init[j];
      }
    }
  }

  /** The validator's report. */
  datatype Report = Report(errors: seq<(int, int, int)>, warnings: seq<string>)

  /** Validates a timetable: conflicts as errors, and never a warning. */
  function Validate(S: seq<Session>): (r: Report)
    ensures r.warnings == []
    ensures r.errors == [] <==> KeysDistinct(S)
    ensures |r.errors| == |S| - |SeenKeys(S)|
  {
    Report(ConflictErrors(S), [])
  }

  /**
   * A timetable that keeps the hard rules passes validation: its sessions are
   * on non-break slots, where the start hour determines the slot, so equal
   * (teacher, day, start hour) would mean the teacher is double-booked.
   */
  lemma {:induction false} HardRulesValidate(S: seq<Session>, avail: Availability)
    requires HardRules(S, avail)
    ensures Validate(S).errors == []
  {
    forall i, j | 0 <= i < j < |S| ensures ConflictKey(S[i]) != ConflictKey(S[j]) {
      assert WellTimed(S[i]) && WellTimed(S[j]);
      if ConflictKey(S[i]) == ConflictKey(S[j]) {
        SlotStartInjective(S[i].slot, S[j].slot);
      }
    }
  }
}
