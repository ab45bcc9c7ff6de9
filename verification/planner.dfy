/**
 * The capacity planner of the generation page: the terms selected (at most
 * four, kept ascending), the students per selected term, the groups each
 * term needs at 35 students per room, the totals shown, the check that every
 * selected term's subjects add up to 35 weekly hours, and the request sent
 * to the generation endpoint.
 */
module Planner {
  import opened Wrappers
  import opened Sorting
  import Endpoint

  /** The terms the page offers; 6 and 10 are internships and are not offered. */
  const ValidTerms: seq<int> := [1, 2, 3, 4, 5, 7, 8, 9]
  /** Students per room, hence per group. */
  const RoomCapacity := 35
  /** At most this many terms can be selected at once. */
  const MaxSelected := 4
  /** The student count a term starts with when selected, and the fallback when it is missing. */
  const DefaultStudents := 35
  /** The weekly hours every selected term's subjects must add up to. */
  const TermHoursTarget := 35

  // ---------------------------------------------------------------------
  // Groups per term
  // ---------------------------------------------------------------------

  /** `Math.ceil(a / b)` for a positive divisor. */
  function CeilDiv(a: int, b: int): (r: int)
    requires b > 0
    ensures b * (r - 1) < a <= b * r
  {
    -((-a) / b)
  }

  /**
   * `Math.ceil(students / 35) || 1`: the rooms the students fill, and 1 when
   * that is 0.
   */
  function Groups(students: int): (r: int)
    ensures r != 0
    ensures students >= 0 ==> r >= 1 && students <= RoomCapacity * r
    ensures students >= 1 ==> RoomCapacity * (r - 1) < students
    ensures -RoomCapacity < students <= 0 ==> r == 1
  {
    var c := CeilDiv(students, RoomCapacity);
    if c == 0 then 1 else c
  }

  /** For a non-negative count, the group count is the least positive number of rooms that seats everyone. */
  lemma {:induction false} GroupsLeast(students: int, n: int)
    requires students >= 0 && n >= 1 && RoomCapacity * n >= students
    ensures Groups(students) <= n
  {
  }

  /** More students never need fewer groups. */
  lemma {:induction false} GroupsMonotone(a: int, b: int)
    requires 0 <= a <= b
    ensures Groups(a) <= Groups(b)
  {
    if a > 0 {
      GroupsLeast(a, Groups(b));
    }
  }

  // ---------------------------------------------------------------------
  // Student counts: an object with integer keys, iterated in ascending key order
  // ---------------------------------------------------------------------

  /** Entries (term, students) with strictly ascending terms. */
  predicate Ascending(s: seq<(int, int)>) {
    forall i, j :: 0 <= i < j < |s| ==> s[i].0 < s[j].0
  }

  /** An entry before entries with larger keys keeps the keys ascending. */
  lemma {:induction false} AscendingCons(h: (int, int), t: seq<(int, int)>)
    ensures Ascending(t) && (forall p :: p in t ==> h.0 < p.0) ==> Ascending([h] + t)
  {
    var r := [h] + t;
    forall i, j | 0 <= i < j < |r| && Ascending(t) && (forall p :: p in t ==> h.0 < p.0) ensures r[i].0 < r[j].0 {
      assert r[j] == t[j - 1] && r[j] in t;
      if i > 0 {
        assert r[i] == t[i - 1];
      }
    }
  }

  /** The value stored under `k`. */
  function Lookup(s: seq<(int, int)>, k: int): (r: Option<int>)
    ensures r.Some? ==> (k, r.value) in s
    ensures r.None? ==> forall i :: 0 <= i < |s| ==> s[i].0 != k
  {
    if |s| == 0 then None
    else if s[0].0 == k then Some(s[0].1)
    else Lookup(s[1..], k)
  }

  /** `{ ...s, [k]: v }`: the entry for `k` set to `v`, keys kept ascending. */
  function Put(s: seq<(int, int)>, k: int, v: int): (r: seq<(int, int)>)
    ensures forall j :: Lookup(r, j) == if j == k then Some(v) else Lookup(s, j)
    ensures forall p :: p in r ==> p == (k, v) || p in s
    ensures Ascending(s) ==> Ascending(r)
  {
    if |s| == 0 then [(k, v)]
    else if s[0].0 == k then
      PutReplaces(s, k, v);
      [(k, v)] + s[1..]
    else if k < s[0].0 then
      PutBefore(s, k, v);
      [(k, v)] + s
    else
      var rest := Put(s[1..], k, v);
      PutAfter(s, k, v, rest);
      [s[0]] + rest
  }

  /** Overwriting the first entry when it has the key. */
  lemma {:induction false} PutReplaces(s: seq<(int, int)>, k: int, v: int)
    requires |s| > 0 && s[0].0 == k
    ensures forall j :: Lookup([(k, v)] + s[1..], j) == if j == k then Some(v) else Lookup(s, j)
    ensures forall p :: p in [(k, v)] + s[1..] ==> p == (k, v) || p in s
    ensures Ascending(s) ==> Ascending([(k, v)] + s[1..])
  {
    assert ([(k, v)] + s[1..])[1..] == s[1..];
    assert forall p :: p in s[1..] ==> p in s;
    assert Ascending(s) ==> forall p :: p in s[1..] ==> k < p.0;
    AscendingCons((k, v), s[1..]);
  }

  /** Inserting in front of a larger first key. */
  lemma {:induction false} PutBefore(s: seq<(int, int)>, k: int, v: int)
    requires |s| > 0 && k < s[0].0
    ensures forall j :: Lookup([(k, v)] + s, j) == if j == k then Some(v) else Lookup(s, j)
    ensures forall p :: p in [(k, v)] + s ==> p == (k, v) || p in s
    ensures Ascending(s) ==> Ascending([(k, v)] + s)
  {
    assert ([(k, v)] + s)[1..] == s;
    assert Ascending(s) ==> forall p :: p in s ==> k < p.0;
    AscendingCons((k, v), s);
  }

  /** Keeping a smaller first key in front of the updated rest. */
  lemma {:induction false} PutAfter(s: seq<(int, int)>, k: int, v: int, rest: seq<(int, int)>)
    requires |s| > 0 && s[0].0 < k
    requires forall j :: Lookup(rest, j) == if j == k then Some(v) else Lookup(s[1..], j)
    requires forall p :: p in rest ==> p == (k, v) || p in s[1..]
    requires Ascending(s[1..]) ==> Ascending(rest)
    ensures forall j :: Lookup([s[0]] + rest, j) == if j == k then Some(v) else Lookup(s, j)
    ensures forall p :: p in [s[0]] + rest ==> p == (k, v) || p in s
    ensures Ascending(s) ==> Ascending([s[0]] + rest)
  {
    assert ([s[0]] + rest)[1..] == rest;
    assert forall p :: p in s[1..] ==> p in s;
    assert Ascending(s) ==> forall p :: p in s[1..] ==> s[0].0 < p.0;
    AscendingCons(s[0], rest);
  }

  /** `delete s[k]`: the entry for `k` removed. */
  function Remove(s: seq<(int, int)>, k: int): (r: seq<(int, int)>)
    ensures forall j :: Lookup(r, j) == if j == k then None else Lookup(s, j)
    ensures forall p :: p in r ==> p in s
    ensures Ascending(s) ==> Ascending(r)
  {
    if |s| == 0 then []
    else
      var rest := Remove(s[1..], k);
      assert forall p :: p in s[1..] ==> p in s;
      assert Ascending(s) ==> forall p :: p in s[1..] ==> s[0].0 < p.0;
      AscendingCons(s[0], rest);
      if s[0].0 == k then rest else [s[0]] + rest
  }

  /** The terms of the entries, in order. */
  function Keys(s: seq<(int, int)>): (r: seq<int>)
    ensures |r| == |s|
    ensures forall i :: 0 <= i < |s| ==> r[i] == s[i].0
  {
    if |s| == 0 then [] else [s[0].0] + Keys(s[1..])
  }

  // ---------------------------------------------------------------------
  // Selecting terms
  // ---------------------------------------------------------------------

  /** The page's planning state: the selected terms and the students per term. */
  datatype Selection = Selection(terms: seq<int>, students: seq<(int, int)>)

  /** Strictly ascending: sorted with no repeats. */
  predicate StrictlyAscending(s: seq<int>) {
    forall i, j :: 0 <= i < j < |s| ==> s[i] < s[j]
  }

  /**
   * The state every sequence of clicks and edits keeps: at most four terms,
   * ascending and distinct; a student count exactly for the selected terms,
   * and each count at least 1.
   */
  ghost predicate Consistent(st: Selection) {
    && |st.terms| <= MaxSelected
    && StrictlyAscending(st.terms)
    && Ascending(st.students)
    && (forall k :: Lookup(st.students, k).Some? <==> k in st.terms)
    && (forall p :: p in st.students ==> p.1 >= 1)
  }

  lemma {:induction false} StrictCons(h: int, t: seq<int>)
    ensures StrictlyAscending(t) && (forall x :: x in t ==> h < x) ==> StrictlyAscending([h] + t)
  {
    var r := [h] + t;
    forall i, j | 0 <= i < j < |r| && StrictlyAscending(t) && (forall x :: x in t ==> h < x) ensures r[i] < r[j] {
      assert r[j] == t[j - 1] && r[j] in t;
      if i > 0 {
        assert r[i] == t[i - 1];
      }
    }
  }

  /** The terms without `c`, order kept. */
  function Without(terms: seq<int>, c: int): (r: seq<int>)
    ensures forall x :: x in r <==> x in terms && x != c
    ensures |r| <= |terms| && (c in terms ==> |r| < |terms|)
    ensures StrictlyAscending(terms) ==> StrictlyAscending(r)
  {
    if |terms| == 0 then []
    else
      var rest := Without(terms[1..], c);
      if terms[0] == c then rest
      else
        assert StrictlyAscending(terms) ==> forall x :: x in terms[1..] ==> terms[0] < x;
        StrictCons(terms[0], rest);
        [terms[0]] + rest
  }

  /**
   * A click on a term's box, as the handler does it: a selected term is
   * removed together with its student count; an unselected one is added and
   * the selection re-sorted, unless four are already selected, in which case
   * the selection is kept but the count of 35 is still recorded.
   */
  function Toggle(st: Selection, c: int): Selection {
    if c in st.terms then Selection(Without(st.terms, c), Remove(st.students, c))
    else if |st.terms| >= MaxSelected then Selection(st.terms, Put(st.students, c, DefaultStudents))
    else Selection(SortBy(st.terms + [c], Endpoint.Identity), Put(st.students, c, DefaultStudents))
  }

  /** A click as the page delivers it: the box ignores clicks on an unselected term once four are selected. */
  function Click(st: Selection, c: int): (r: Selection)
    ensures |st.terms| >= MaxSelected && c !in st.terms ==> r == st
  {
    if |st.terms| >= MaxSelected && c !in st.terms then st else Toggle(st, c)
  }

  /** A sorted sequence with no repeats is strictly ascending. */
  lemma {:induction false} SortedDistinct(s: seq<int>)
    requires SortedBy(s, Endpoint.Identity)
    requires forall i, j :: 0 <= i < j < |s| ==> s[i] != s[j]
    ensures StrictlyAscending(s)
  {
    forall i, j | 0 <= i < j < |s| ensures s[i] < s[j] {
      assert Endpoint.Identity(s[i]) <= Endpoint.Identity(s[j]);
    }
  }

  /** Adding a new term to a selection without repeats gives, once sorted, a strictly ascending selection with that term. */
  lemma {:induction false} AddTerm(terms: seq<int>, c: int)
    requires StrictlyAscending(terms) && c !in terms
    ensures StrictlyAscending(SortBy(terms + [c], Endpoint.Identity))
    ensures forall x :: x in SortBy(terms + [c], Endpoint.Identity) <==> x in terms || x == c
    ensures |SortBy(terms + [c], Endpoint.Identity)| == |terms| + 1
  {
    var t := terms + [c];
    var r := SortBy(t, Endpoint.Identity);
    AppendNew(terms, c);
    PermutedDistinct(t, r);
    SortedDistinct(r);
    assert forall x :: x in r <==> x in multiset(r);
    assert forall x :: x in t <==> x in multiset(t);
  }

  /** Appending a term not yet present keeps the selection free of repeats. */
  lemma {:induction false} AppendNew(terms: seq<int>, c: int)
    requires StrictlyAscending(terms) && c !in terms
    ensures forall i, j :: 0 <= i < j < |terms + [c]| ==> (terms + [c])[i] != (terms + [c])[j]
  {
    var t := terms + [c];
    forall i, j | 0 <= i < j < |t| ensures t[i] != t[j] {
      if j == |terms| {
        assert t[i] == terms[i] && terms[i] in terms;
      } else {
        assert t[i] == terms[i] && t[j] == terms[j];
      }
    }
  }

  /** A rearrangement of a list without repeats has no repeats. */
  lemma {:induction false} PermutedDistinct(t: seq<int>, r: seq<int>)
    requires forall i, j :: 0 <= i < j < |t| ==> t[i] != t[j]
    requires multiset(r) == multiset(t)
    ensures forall i, j :: 0 <= i < j < |r| ==> r[i] != r[j]
  {
    forall x ensures multiset(t)[x] <= 1 {
      DistinctCount(t, x);
    }
    forall i, j | 0 <= i < j < |r| ensures r[i] != r[j] {
      PairCount(r, i, j);
    }
  }

  lemma {:induction false} DistinctCount(t: seq<int>, x: int)
    requires forall i, j :: 0 <= i < j < |t| ==> t[i] != t[j]
    ensures multiset(t)[x] <= 1
  {
    if |t| > 0 {
      var init := t[..|t| - 1];
      assert t == init + [t[|t| - 1]];
      DistinctCount(init, x);
      if t[|t| - 1] == x {
        assert x !in init;
      }
    }
  }

  lemma {:induction false} PairCount(r: seq<int>, i: int, j: int)
    requires 0 <= i < j < |r|
    ensures r[i] == r[j] ==> multiset(r)[r[i]] >= 2
  {
    assert r == r[..i] + [r[i]] + r[i + 1..j] + [r[j]] + r[j + 1..];
  }

  /**
   * A click keeps the planning state consistent; it selects `c` exactly when
   * `c` was unselected and fewer than four terms were selected, and leaves
   * every other term's selection and count unchanged.
   */
  lemma {:induction false} ClickKeepsConsistent(st: Selection, c: int)
    requires Consistent(st)
    ensures Consistent(Click(st, c))
    ensures c in Click(st, c).terms <==> c !in st.terms && |st.terms| < MaxSelected
    ensures forall x :: x != c ==> (x in Click(st, c).terms <==> x in st.terms)
    ensures forall x :: x != c ==> Lookup(Click(st, c).students, x) == Lookup(st.students, x)
  {
    if c !in st.terms && |st.terms| < MaxSelected {
      AddTerm(st.terms, c);
    }
  }

  /**
   * Without the click guard the handler loses consistency: with four terms
   * selected, a click on a fifth keeps the selection but records a count for
   * the unselected term.
   */
  lemma {:induction false} ToggleAtLimitRecordsUnselected(st: Selection, c: int)
    requires Consistent(st) && |st.terms| == MaxSelected && c !in st.terms
    ensures Toggle(st, c).terms == st.terms
    ensures Lookup(Toggle(st, c).students, c) == Some(DefaultStudents)
    ensures !Consistent(Toggle(st, c))
  {
  }

  /**
   * An edit of a selected term's student count: the field's integer, or 1
   * when it is not a number or is 0, and never less than 1.
   */
  function Edit(st: Selection, c: int, parsed: Option<int>): (r: Selection)
    ensures r.terms == st.terms
    ensures Lookup(r.students, c).Some? && Lookup(r.students, c).value >= 1
    ensures parsed.Some? && parsed.value >= 1 ==> Lookup(r.students, c) == parsed
    ensures forall x :: x != c ==> Lookup(r.students, x) == Lookup(st.students, x)
  {
    var v := if parsed.Some? && parsed.value != 0 then parsed.value else 1;
    Selection(st.terms, Put(st.students, c, if v < 1 then 1 else v))
  }

  /** Editing a selected term's count keeps the planning state consistent. */
  lemma {:induction false} EditKeepsConsistent(st: Selection, c: int, parsed: Option<int>)
    requires Consistent(st) && c in st.terms
    ensures Consistent(Edit(st, c, parsed))
  {
  }

  // ---------------------------------------------------------------------
  // Totals
  // ---------------------------------------------------------------------

  /** `totalGrupos`: groups summed over every recorded count. */
  function TotalGroups(s: seq<(int, int)>): int {
    if |s| == 0 then 0 else Groups(s[0].1) + TotalGroups(s[1..])
  }

  /** `totalAlumnos`: the recorded counts summed. */
  function TotalStudents(s: seq<(int, int)>): int {
    if |s| == 0 then 0 else s[0].1 + TotalStudents(s[1..])
  }

  /** With counts of at least 1, every recorded term adds at least one group and at least one student. */
  lemma {:induction false} TotalsBounds(s: seq<(int, int)>)
    requires forall p :: p in s ==> p.1 >= 1
    ensures TotalGroups(s) >= |s|
    ensures TotalStudents(s) >= |s|
    ensures TotalStudents(s) <= RoomCapacity * TotalGroups(s)
  {
    if |s| > 0 {
      assert forall p :: p in s[1..] ==> p in s;
      TotalsBounds(s[1..]);
    }
  }

  /** In a consistent state the recorded terms are exactly the selected terms, in the same order. */
  lemma {:induction false} KeysAreTerms(st: Selection)
    requires Consistent(st)
    ensures Keys(st.students) == st.terms
  {
    AscendingSameSet(Keys(st.students), st.terms);
  }

  lemma {:induction false} HasElement(s: seq<int>)
    ensures |s| > 0 ==> s[0] in s
    ensures |s| == 0 ==> forall x :: x !in s
  {
  }

  lemma {:induction false} AscendingSameSet(a: seq<int>, b: seq<int>)
    requires StrictlyAscending(a) && StrictlyAscending(b)
    requires forall x :: x in a <==> x in b
    ensures a == b
    decreases |a| + |b|
  {
    if |a| == 0 || |b| == 0 {
      HasElement(a);
      HasElement(b);
    } else {
      assert a[0] in b && b[0] in a;
      assert a[0] == b[0] by {
        var i :| 0 <= i < |b| && b[i] == a[0];
        var j :| 0 <= j < |a| && a[j] == b[0];
        assert a[0] <= a[j] && b[0] <= b[i];
      }
      forall x ensures x in a[1..] <==> x in b[1..] {
        if x in a[1..] {
          var i :| 1 <= i < |a| && a[i] == x;
          assert x != b[0] && x in b;
        }
        if x in b[1..] {
          var i :| 1 <= i < |b| && b[i] == x;
          assert x != a[0] && x in a;
        }
      }
      AscendingSameSet(a[1..], b[1..]);
      assert a == [a[0]] + a[1..] && b == [b[0]] + b[1..];
    }
  }

  // ---------------------------------------------------------------------
  // The 35-hour check and the request
  // ---------------------------------------------------------------------

  /** A study plan: its id and, when loaded, the weekly hours of each term's subjects (missing hours as `None`). */
  datatype StudyPlan = StudyPlan(id: int, hoursByTerm: Option<map<int, seq<Option<int>>>>)

  /** The first plan whose id is the selected one. */
  function FindPlan(plans: seq<StudyPlan>, selected: Option<int>): (r: Option<StudyPlan>)
    ensures r.Some? ==> r.value in plans && Some(r.value.id) == selected
    ensures r.None? ==> forall p :: p in plans ==> Some(p.id) != selected
  {
    if |plans| == 0 then None
    else if Some(plans[0].id) == selected then Some(plans[0])
    else FindPlan(plans[1..], selected)
  }

  /** Missing hours counted as 0, summed. */
  function HoursSum(hours: seq<Option<int>>): int {
    if |hours| == 0 then 0 else HoursSum(hours[..|hours| - 1]) + hours[|hours| - 1].GetOr(0)
  }

  /** A term's weekly hours in a plan's table; a term the table lacks has none. */
  function TermHours(table: map<int, seq<Option<int>>>, c: int): int {
    HoursSum(if c in table then table[c] else [])
  }

  /**
   * `todos35`: true when no plan is found or it has no table; otherwise true
   * exactly when every selected term's hours add up to 35.
   */
  function AllTerms35(plans: seq<StudyPlan>, selected: Option<int>, terms: seq<int>): (r: bool)
    ensures !r <==> (FindPlan(plans, selected).Some? && FindPlan(plans, selected).value.hoursByTerm.Some? &&
      exists c :: c in terms && TermHours(FindPlan(plans, selected).value.hoursByTerm.value, c) != TermHoursTarget)
  {
    var plan := FindPlan(plans, selected);
    if plan.None? || plan.value.hoursByTerm.None? then true
    else FirstOff(plan.value.hoursByTerm.value, terms).None?
  }

  /** The first selected term whose hours are not 35. */
  function FirstOff(table: map<int, seq<Option<int>>>, terms: seq<int>): (r: Option<int>)
    ensures r.None? <==> forall c :: c in terms ==> TermHours(table, c) == TermHoursTarget
    ensures r.Some? ==> r.value in terms && TermHours(table, r.value) != TermHoursTarget
  {
    if |terms| == 0 then None
    else if TermHours(table, terms[0]) != TermHoursTarget then Some(terms[0])
    else
      var rest := FirstOff(table, terms[1..]);
      assert forall c :: c in terms ==> c == terms[0] || c in terms[1..];
      rest
  }

  /** Each selected term whose hours are not 35, with its hours, in selection order. */
  function OffTerms(table: map<int, seq<Option<int>>>, terms: seq<int>): (r: seq<(int, int)>)
    ensures forall c, h :: (c, h) in r <==> c in terms && h == TermHours(table, c) && h != TermHoursTarget
    ensures r == [] <==> forall c :: c in terms ==> TermHours(table, c) == TermHoursTarget
  {
    if |terms| == 0 then []
    else
      var init := terms[..|terms| - 1];
      var c := terms[|terms| - 1];
      assert terms == init + [c];
      var h := TermHours(table, c);
      OffTerms(table, init) + (if h != TermHoursTarget then [(c, h)] else [])
  }

  /** Why the page refuses to send a request. */
  datatype GenerateError = NoPlan | NoTerms | WrongHours(terms: seq<(int, int)>)

  /**
   * The request: the plan, the ids of every teacher the page loaded, the
   * selected terms and the groups per selected term.
   */
  datatype Request = Request(planId: int, teachers: seq<int>, terms: seq<int>, groupsPerTerm: seq<(int, int)>)

  /** The groups of each selected term: `calcularGrupos(students || 35)`. */
  function GroupsPerTerm(terms: seq<int>, students: seq<(int, int)>): (r: seq<(int, int)>)
    ensures Keys(r) == terms
    ensures forall i :: 0 <= i < |r| ==> r[i].1 == Groups(if Lookup(students, terms[i]).GetOr(0) != 0 then Lookup(students, terms[i]).value else DefaultStudents)
  {
    if |terms| == 0 then []
    else
      var c := terms[0];
      var n := Lookup(students, c).GetOr(0);
      [(c, Groups(if n != 0 then n else DefaultStudents))] + GroupsPerTerm(terms[1..], students)
  }

  /**
   * The generate button: no plan chosen, then no term selected, then every
   * selected term whose hours are not 35 (only when the plan and its table
   * are found); otherwise the request, which names every loaded teacher.
   */
  function Generate(plans: seq<StudyPlan>, loaded: seq<int>, selected: Option<int>, st: Selection): (r: Result<Request, GenerateError>)
    ensures r == Failure(NoPlan) <==> selected.None?
    ensures r == Failure(NoTerms) <==> selected.Some? && st.terms == []
    ensures r.Failure? && r.error.WrongHours? ==>
      FindPlan(plans, selected).Some? && FindPlan(plans, selected).value.hoursByTerm.Some? &&
      r.error.terms != [] &&
      forall c, h :: (c, h) in r.error.terms <==>
        c in st.terms && h == TermHours(FindPlan(plans, selected).value.hoursByTerm.value, c) && h != TermHoursTarget
    ensures r.Success? ==> Some(r.value.planId) == selected && r.value.terms == st.terms && Keys(r.value.groupsPerTerm) == st.terms
    ensures r.Success? ==> r.value.teachers == loaded
  {
    if selected.None? then Failure(NoPlan)
    else if st.terms == [] then Failure(NoTerms)
    else
      var plan := FindPlan(plans, selected);
      var off := if plan.Some? && plan.value.hoursByTerm.Some? then OffTerms(plan.value.hoursByTerm.value, st.terms) else [];
      if off != [] then Failure(WrongHours(off))
      else Success(Request(selected.value, loaded, st.terms, GroupsPerTerm(st.terms, st.students)))
  }

  /** The request is sent exactly when a plan and a term are chosen and the page shows every term at 35 hours. */
  lemma {:induction false} GenerateAgreesWithBadge(plans: seq<StudyPlan>, loaded: seq<int>, selected: Option<int>, st: Selection)
    ensures Generate(plans, loaded, selected, st).Success? <==> selected.Some? && st.terms != [] && AllTerms35(plans, selected, st.terms)
  {
  }

  /**
   * From a consistent state the request asks for exactly the groups the page
   * totals, and the endpoint creates exactly the requested number for each term.
   */
  lemma {:induction false} RequestMatchesTotals(plans: seq<StudyPlan>, loaded: seq<int>, selected: Option<int>, st: Selection)
    requires Consistent(st)
    requires Generate(plans, loaded, selected, st).Success?
    ensures var req := Generate(plans, loaded, selected, st).value;
      && Sum2(req.groupsPerTerm) == TotalGroups(st.students)
      && forall p :: p in req.groupsPerTerm ==> p.1 >= 1 && Endpoint.RequestedGroups(Some(p.1)) == p.1
  {
    var req := Generate(plans, loaded, selected, st).value;
    KeysAreTerms(st);
    assert req.groupsPerTerm == GroupsPerTerm(Keys(st.students), st.students);
    SameGroups(st.students);
    PositiveGroups(st);
  }

  lemma {:induction false} PositiveGroups(st: Selection)
    requires Consistent(st)
    ensures forall p :: p in GroupsPerTerm(st.terms, st.students) ==> p.1 >= 1
  {
    var g := GroupsPerTerm(st.terms, st.students);
    forall p | p in g ensures p.1 >= 1 {
      var i :| 0 <= i < |g| && g[i] == p;
      assert st.terms[i] in st.terms;
    }
  }

  /** The second components summed. */
  function Sum2(s: seq<(int, int)>): int {
    if |s| == 0 then 0 else s[0].1 + Sum2(s[1..])
  }

  lemma {:induction false} SameGroups(s: seq<(int, int)>)
    requires Ascending(s)
    requires forall p :: p in s ==> p.1 >= 1
    ensures Sum2(GroupsPerTerm(Keys(s), s)) == TotalGroups(s)
  {
    var g := GroupsPerTerm(Keys(s), s);
    forall i | 0 <= i < |s| ensures g[i].1 == Groups(s[i].1) {
      LookupAt(s, i);
    }
    SumOfGroups(g, s);
  }

  /** With ascending keys, the entry at position `i` is the one looked up by its key. */
  lemma {:induction false} LookupAt(s: seq<(int, int)>, i: int)
    requires Ascending(s) && 0 <= i < |s|
    ensures Lookup(s, s[i].0) == Some(s[i].1)
  {
    if i > 0 {
      LookupAt(s[1..], i - 1);
      assert s[0].0 < s[i].0;
    }
  }

  lemma {:induction false} SumOfGroups(g: seq<(int, int)>, s: seq<(int, int)>)
    requires |g| == |s|
    requires forall i :: 0 <= i < |s| ==> g[i].1 == Groups(s[i].1)
    ensures Sum2(g) == TotalGroups(s)
  {
    if |s| > 0 {
      SumOfGroups(g[1..], s[1..]);
    }
  }
}
