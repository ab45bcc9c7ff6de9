/** One scheduled session as the schedule-detail endpoint returns it to the pages. */
module Sessions {
  import opened Wrappers

  /**
   * A session: the teacher's name (which may be missing), the subject, the
   * group, the day's name and the start hour.
   */
  datatype Session = Session(maestro: Option<string>, materia: string, grupo: string, dia: string, start: int)

  /** The number of sessions on day `d`. */
  function OnDay(xs: seq<Session>, d: string): nat {
    if |xs| == 0 then 0 else OnDay(xs[..|xs| - 1], d) + (if xs[|xs| - 1].dia == d then 1 else 0)
  }

  /** The number of sessions of subject `m`. */
  function OfSubject(xs: seq<Session>, m: string): nat {
    if |xs| == 0 then 0 else OfSubject(xs[..|xs| - 1], m) + (if xs[|xs| - 1].materia == m then 1 else 0)
  }

  /** Some session is of subject `m`. */
  predicate HasSubject(xs: seq<Session>, m: string) {
    exists i :: 0 <= i < |xs| && xs[i].materia == m
  }

  /** Some session is of group `g`. */
  predicate HasGroup(xs: seq<Session>, g: string) {
    exists i :: 0 <= i < |xs| && xs[i].grupo == g
  }

  /** The subjects of the sessions, in order. */
  function SubjectsOf(xs: seq<Session>): (r: seq<string>)
    ensures |r| == |xs|
    ensures forall i :: 0 <= i < |xs| ==> r[i] == xs[i].materia
    ensures forall m :: m in r <==> HasSubject(xs, m)
  {
    var r := seq(|xs|, i requires 0 <= i < |xs| => xs[i].materia);
    assert forall m :: m in r ==> HasSubject(xs, m) by {
      forall m | m in r ensures HasSubject(xs, m) {
        var i :| 0 <= i < |r| && r[i] == m;
      }
    }
    r
  }

  /** The groups of the sessions, in order. */
  function GroupsOf(xs: seq<Session>): (r: seq<string>)
    ensures |r| == |xs|
    ensures forall i :: 0 <= i < |xs| ==> r[i] == xs[i].grupo
    ensures forall g :: g in r <==> HasGroup(xs, g)
  {
    var r := seq(|xs|, i requires 0 <= i < |xs| => xs[i].grupo);
    assert forall g :: g in r ==> HasGroup(xs, g) by {
      forall g | g in r ensures HasGroup(xs, g) {
        var i :| 0 <= i < |r| && r[i] == g;
      }
    }
    r
  }

  lemma {:induction false} OnDayPositive(xs: seq<Session>, d: string)
    ensures OnDay(xs, d) > 0 <==> exists i :: 0 <= i < |xs| && xs[i].dia == d
    decreases |xs|
  {
    if |xs| > 0 {
      var init := xs[..|xs| - 1];
      OnDayPositive(init, d);
      assert forall i :: 0 <= i < |init| ==> init[i] == xs[i];
    }
  }

  lemma {:induction false} OfSubjectPositive(xs: seq<Session>, m: string)
    ensures OfSubject(xs, m) > 0 <==> HasSubject(xs, m)
    decreases |xs|
  {
    if |xs| > 0 {
      var init := xs[..|xs| - 1];
      OfSubjectPositive(init, m);
      assert forall i :: 0 <= i < |init| ==> init[i] == xs[i];
    }
  }
}

/**
 * The per-teacher page: a teacher's sessions are those whose teacher name
 * equals its own after trimming and lower-casing; the page lists their
 * distinct subjects and groups, counts them as weekly hours, and checks that
 * no day has more than two.
 */
module TeacherView {
  import opened Wrappers
  import opened Text
  import opened Listing
  import opened Sessions

  /** `(name || '').trim().toLowerCase()`. */
  function NormalizeName(name: Option<string>): (r: string)
    ensures name.None? ==> r == ""
    ensures name == Some("") ==> r == ""
    ensures name.Some? ==> r == Lower(Trim(name.value))
  {
    assert Trim("") == "";
    Lower(Trim(name.GetOr("")))
  }

  /** A normalised name has no surrounding blanks and no capital letters. */
  lemma {:induction false} NormalizedShape(name: Option<string>)
    ensures var r := NormalizeName(name);
      (|r| > 0 ==> !IsSpace(r[0]) && !IsSpace(r[|r| - 1])) && forall i :: 0 <= i < |r| ==> !IsUpper(r[i])
  {
    var t := Trim(name.GetOr(""));
    assert NormalizeName(name) == Lower(t);
    LowerShape(t);
  }

  lemma {:induction false} LowerShape(t: string)
    requires |t| > 0 ==> !IsSpace(t[0]) && !IsSpace(t[|t| - 1])
    ensures |Lower(t)| > 0 ==> !IsSpace(Lower(t)[0]) && !IsSpace(Lower(t)[|t| - 1])
    ensures forall i :: 0 <= i < |Lower(t)| ==> !IsUpper(Lower(t)[i])
  {
  }

  lemma {:induction false} LowerOfLowerCase(s: string)
    requires forall i :: 0 <= i < |s| ==> !IsUpper(s[i])
    ensures Lower(s) == s
  {
    assert forall i :: 0 <= i < |s| ==> LowerChar(s[i]) == s[i];
  }

  /** A normalised name normalises to itself. */
  lemma {:induction false} NormalizeIdempotent(name: Option<string>)
    ensures NormalizeName(Some(NormalizeName(name))) == NormalizeName(name)
  {
    var n := NormalizeName(name);
    NormalizedShape(name);
    if |n| > 0 {
      TrimOfNonSpaceEnds(n);
    } else {
      assert Trim(n) == "";
    }
    LowerOfLowerCase(n);
  }

  /** The session is taught by the teacher named `name`. */
  predicate SameTeacher(a: Session, name: string) {
    NormalizeName(a.maestro) == NormalizeName(Some(name))
  }

  /** The filter's test for the teacher named `name`. */
  function Mine(name: string): Session -> bool {
    (a: Session) => SameTeacher(a, name)
  }

  /** `getAsignacionesProfesor`: the teacher's sessions, in order. */
  function TeacherSessions(all: seq<Session>, name: string): (r: seq<Session>)
    ensures forall a :: a in r <==> a in all && SameTeacher(a, name)
    ensures forall a :: multiset(r)[a] == if SameTeacher(a, name) then multiset(all)[a] else 0
  {
    forall a ensures multiset(Keep(all, Mine(name)))[a] == if Mine(name)(a) then multiset(all)[a] else 0 {
      KeepCount(all, Mine(name), a);
    }
    Keep(all, Mine(name))
  }

  /** Two names that normalise alike select the same sessions, whatever their case or surrounding blanks. */
  lemma {:induction false} NamesThatNormaliseAlike(all: seq<Session>, n1: string, n2: string)
    requires NormalizeName(Some(n1)) == NormalizeName(Some(n2))
    ensures TeacherSessions(all, n1) == TeacherSessions(all, n2)
  {
    KeepSame(all, Mine(n1), Mine(n2));
  }

  lemma {:induction false} KeepSame(xs: seq<Session>, p: Session -> bool, q: Session -> bool)
    requires forall i :: 0 <= i < |xs| ==> p(xs[i]) == q(xs[i])
    ensures Keep(xs, p) == Keep(xs, q)
    decreases |xs|
  {
    if |xs| > 0 {
      KeepSame(xs[..|xs| - 1], p, q);
    }
  }

  /** The teacher's sessions of a schedule list followed by another are those of each, in order. */
  lemma {:induction false} TeacherSessionsAppend(a: seq<Session>, b: seq<Session>, name: string)
    ensures TeacherSessions(a + b, name) == TeacherSessions(a, name) + TeacherSessions(b, name)
  {
    KeepAppend(a, b, Mine(name));
  }

  /** Some session of `all` is the teacher's and of subject `m`. */
  predicate TeachesSubject(all: seq<Session>, name: string, m: string) {
    exists i :: 0 <= i < |all| && SameTeacher(all[i], name) && all[i].materia == m
  }

  /** Some session of `all` is the teacher's and of group `g`. */
  predicate TeachesGroup(all: seq<Session>, name: string, g: string) {
    exists i :: 0 <= i < |all| && SameTeacher(all[i], name) && all[i].grupo == g
  }

  lemma {:induction false} MineHasSubject(all: seq<Session>, name: string, m: string)
    ensures HasSubject(TeacherSessions(all, name), m) <==> TeachesSubject(all, name, m)
  {
    KeepSome(all, Mine(name), (a: Session) => a.materia == m);
  }

  lemma {:induction false} MineHasGroup(all: seq<Session>, name: string, g: string)
    ensures HasGroup(TeacherSessions(all, name), g) <==> TeachesGroup(all, name, g)
  {
    KeepSome(all, Mine(name), (a: Session) => a.grupo == g);
  }

  /**
   * `getMateriasProfesor`: the distinct subjects of the teacher's sessions,
   * in the order in which the sessions first show them.
   */
  function Subjects(all: seq<Session>, name: string): (r: seq<string>)
    ensures Distinct(r)
    ensures forall m :: m in r <==> TeachesSubject(all, name, m)
    ensures FirstSeenOrder(SubjectsOf(TeacherSessions(all, name)), r)
  {
    forall m ensures HasSubject(TeacherSessions(all, name), m) <==> TeachesSubject(all, name, m) {
      MineHasSubject(all, name, m);
    }
    Dedup(SubjectsOf(TeacherSessions(all, name)))
  }

  /**
   * `getGruposProfesor`: the distinct groups of the teacher's sessions, in
   * the order in which the sessions first show them.
   */
  function Groups(all: seq<Session>, name: string): (r: seq<string>)
    ensures Distinct(r)
    ensures forall g :: g in r <==> TeachesGroup(all, name, g)
    ensures FirstSeenOrder(GroupsOf(TeacherSessions(all, name)), r)
  {
    forall g ensures HasGroup(TeacherSessions(all, name), g) <==> TeachesGroup(all, name, g) {
      MineHasGroup(all, name, g);
    }
    Dedup(GroupsOf(TeacherSessions(all, name)))
  }

  /** The weekly hours shown: one per session of the teacher, i.e. all sessions but the other teachers'. */
  function WeeklyHours(all: seq<Session>, name: string): (r: nat)
    ensures r == |all| - |Keep(all, (a: Session) => !SameTeacher(a, name))|
  {
    KeepSplit(all, Mine(name), (a: Session) => !SameTeacher(a, name));
    |TeacherSessions(all, name)|
  }

  /** The per-day tally `porDia`: each day with a session, mapped to its number of sessions. */
  function DayCounts(xs: seq<Session>): (r: map<string, int>)
    ensures forall d :: d in r <==> exists i :: 0 <= i < |xs| && xs[i].dia == d
    ensures forall d :: d in r ==> r[d] == OnDay(xs, d)
  {
    if |xs| == 0 then map[]
    else
      var init := xs[..|xs| - 1];
      var x := xs[|xs| - 1];
      var prev := DayCounts(init);
      assert forall i :: 0 <= i < |init| ==> init[i] == xs[i];
      OnDayPositive(init, x.dia);
      prev[x.dia := (if x.dia in prev then prev[x.dia] else 0) + 1]
  }

  /**
   * `validarSesionesPorDia`: no day has more than two of the teacher's
   * sessions; a teacher without sessions passes.
   */
  function WithinTwoPerDay(all: seq<Session>, name: string): (r: bool)
    ensures r <==> forall i :: 0 <= i < |TeacherSessions(all, name)| ==>
      OnDay(TeacherSessions(all, name), TeacherSessions(all, name)[i].dia) <= 2
    ensures TeacherSessions(all, name) == [] ==> r
  {
    var mine := TeacherSessions(all, name);
    AllDaysWithinTwo(mine);
    var counts := DayCounts(mine);
    forall d | d in counts :: counts[d] <= 2
  }

  lemma {:induction false} AllDaysWithinTwo(xs: seq<Session>)
    ensures (forall d | d in DayCounts(xs) :: DayCounts(xs)[d] <= 2) <==>
      forall i :: 0 <= i < |xs| ==> OnDay(xs, xs[i].dia) <= 2
  {
    var counts := DayCounts(xs);
    forall i | 0 <= i < |xs| ensures xs[i].dia in counts && counts[xs[i].dia] == OnDay(xs, xs[i].dia) {
    }
    if forall i :: 0 <= i < |xs| ==> OnDay(xs, xs[i].dia) <= 2 {
      forall d | d in counts ensures counts[d] <= 2 {
        var i :| 0 <= i < |xs| && xs[i].dia == d;
      }
    }
  }
}

/**
 * The per-group page: the sessions of the selected group, the timetable cell
 * of each (day, start hour), and the credit sidebar that counts sessions per
 * subject, largest first.
 */
module GroupView {
  import opened Wrappers
  import opened Listing
  import opened Sorting
  import opened Sessions

  /** No group is selected: the selection is missing or empty text. */
  predicate NoSelection(selected: Option<string>) {
    selected.None? || selected == Some("")
  }

  /**
   * `getAsignacionesFiltradas`: nothing without a loaded detail, all of it
   * without a selection, otherwise the selected group's sessions in order.
   */
  function Filtered(detail: Option<seq<Session>>, selected: Option<string>): (r: seq<Session>)
    ensures detail.None? ==> r == []
    ensures detail.Some? && NoSelection(selected) ==> r == detail.value
    ensures detail.Some? && !NoSelection(selected) ==>
      forall a :: a in r <==> a in detail.value && a.grupo == selected.value
    ensures |r| <= |detail.GetOr([])|
  {
    match detail
    case None => []
    case Some(xs) =>
      if NoSelection(selected) then xs
      else Keep(xs, (a: Session) => a.grupo == selected.value)
  }

  /**
   * Every session of a loaded schedule appears in its own group's view, in
   * no other group's, and a view keeps the schedule's order.
   */
  lemma {:induction false} EachSessionInItsGroup(xs: seq<Session>, a: Session, g: string)
    requires a in xs && a.grupo != "" && g != ""
    ensures a in Filtered(Some(xs), Some(a.grupo))
    ensures a in Filtered(Some(xs), Some(g)) <==> g == a.grupo
  {
  }

  /** Filtering the concatenation of two lists filters each. */
  lemma {:induction false} FilteredAppend(a: seq<Session>, b: seq<Session>, g: string)
    requires g != ""
    ensures Filtered(Some(a + b), Some(g)) == Filtered(Some(a), Some(g)) + Filtered(Some(b), Some(g))
  {
    KeepAppend(a, b, (x: Session) => x.grupo == g);
  }

  /** The key of a timetable cell: `${dia}|${hora_inicio}`. */
  function CellOf(a: Session): (string, int) {
    (a.dia, a.start)
  }

  /** Session `a` is the last of `xs` in cell `k`. */
  predicate LastIn(xs: seq<Session>, k: (string, int), a: Session) {
    exists i :: 0 <= i < |xs| && xs[i] == a && CellOf(a) == k && forall j :: i < j < |xs| ==> CellOf(xs[j]) != k
  }

  /** The cell index `idx`: each occupied cell holds the last session written to it. */
  function CellIndex(xs: seq<Session>): (r: map<(string, int), Session>)
    ensures forall k :: k in r <==> exists i :: 0 <= i < |xs| && CellOf(xs[i]) == k
    ensures forall k :: k in r ==> LastIn(xs, k, r[k])
  {
    if |xs| == 0 then map[]
    else
      var init := xs[..|xs| - 1];
      var x := xs[|xs| - 1];
      var prev := CellIndex(init);
      assert forall i :: 0 <= i < |init| ==> init[i] == xs[i];
      var r := prev[CellOf(x) := x];
      CellStep(xs, prev, r);
      r
  }

  lemma {:induction false} CellStep(xs: seq<Session>, prev: map<(string, int), Session>, r: map<(string, int), Session>)
    requires |xs| > 0
    requires forall k :: k in prev <==> exists i :: 0 <= i < |xs| - 1 && CellOf(xs[i]) == k
    requires forall k :: k in prev ==> LastIn(xs[..|xs| - 1], k, prev[k])
    requires r == prev[CellOf(xs[|xs| - 1]) := xs[|xs| - 1]]
    ensures forall k :: k in r <==> exists i :: 0 <= i < |xs| && CellOf(xs[i]) == k
    ensures forall k :: k in r ==> LastIn(xs, k, r[k])
  {
    forall k ensures k in r <==> exists i :: 0 <= i < |xs| && CellOf(xs[i]) == k {
      CellDomainStep(xs, k);
    }
    forall k | k in r ensures LastIn(xs, k, r[k]) {
      if k != CellOf(xs[|xs| - 1]) {
        LastInStep(xs, k, prev[k]);
      } else {
        assert xs[|xs| - 1] == r[k];
      }
    }
  }

  lemma {:induction false} CellDomainStep(xs: seq<Session>, k: (string, int))
    requires |xs| > 0
    ensures (exists i :: 0 <= i < |xs| && CellOf(xs[i]) == k) <==>
      (exists i :: 0 <= i < |xs| - 1 && CellOf(xs[i]) == k) || CellOf(xs[|xs| - 1]) == k
  {
  }

  lemma {:induction false} LastInStep(xs: seq<Session>, k: (string, int), a: Session)
    requires |xs| > 0 && CellOf(xs[|xs| - 1]) != k
    requires LastIn(xs[..|xs| - 1], k, a)
    ensures LastIn(xs, k, a)
  {
    var init := xs[..|xs| - 1];
    var i :| 0 <= i < |init| && init[i] == a && CellOf(a) == k && forall j :: i < j < |init| ==> CellOf(init[j]) != k;
    assert xs[i] == a;
    assert forall j :: i < j < |xs| ==> CellOf(xs[j]) != k by {
      forall j | i < j < |xs| ensures CellOf(xs[j]) != k {
        if j < |init| {
          assert xs[j] == init[j];
        }
      }
    }
  }

  /** A session written after every other session of its cell is the one the cell shows. */
  lemma {:induction false} LastWins(xs: seq<Session>, i: int)
    requires 0 <= i < |xs|
    requires forall j :: i < j < |xs| ==> CellOf(xs[j]) != CellOf(xs[i])
    ensures CellOf(xs[i]) in CellIndex(xs) && CellIndex(xs)[CellOf(xs[i])] == xs[i]
  {
    var k := CellOf(xs[i]);
    var m :| 0 <= m < |xs| && xs[m] == CellIndex(xs)[k] && CellOf(xs[m]) == k && forall j :: m < j < |xs| ==> CellOf(xs[j]) != k;
    if m < i {
      assert CellOf(xs[i]) == k;
    } else if i < m {
      assert CellOf(xs[m]) == k;
    }
  }

  /** A sidebar entry: a subject and its number of sessions. */
  datatype Credit = Credit(materia: string, credits: int)

  /** The sum of the entries' counts. */
  function Total(cs: seq<Credit>): int {
    if |cs| == 0 then 0 else Total(cs[..|cs| - 1]) + cs[|cs| - 1].credits
  }

  /** One entry per listed subject, with its number of sessions in `xs`. */
  function TallyOf(ms: seq<string>, xs: seq<Session>): (r: seq<Credit>)
    ensures |r| == |ms|
    ensures forall i :: 0 <= i < |ms| ==> r[i] == Credit(ms[i], OfSubject(xs, ms[i]))
  {
    seq(|ms|, i requires 0 <= i < |ms| => Credit(ms[i], OfSubject(xs, ms[i])))
  }

  /** The credit key sorts larger counts first. */
  function ByCreditsDesc(c: Credit): int { -c.credits }

  /** Some entry of the list is for subject `m`. */
  predicate Listed(cs: seq<Credit>, m: string) {
    exists i :: 0 <= i < |cs| && cs[i].materia == m
  }

  /** No subject has two entries. */
  predicate OnePerSubject(cs: seq<Credit>) {
    forall i, j :: 0 <= i < j < |cs| ==> cs[i].materia != cs[j].materia
  }

  /**
   * The sidebar list: `countByMateria` in first-seen order, then sorted
   * (stably) by decreasing count.
   */
  function CreditList(xs: seq<Session>): (r: seq<Credit>)
    ensures forall i, j :: 0 <= i < j < |r| ==> r[i].credits >= r[j].credits
    ensures forall i :: 0 <= i < |r| ==> r[i].credits == OfSubject(xs, r[i].materia) && r[i].credits > 0
    ensures forall m :: Listed(r, m) <==> HasSubject(xs, m)
    ensures OnePerSubject(r)
    ensures multiset(r) == multiset(Tally(xs))
  {
    var r := SortBy(Tally(xs), ByCreditsDesc);
    assert forall i, j :: 0 <= i < j < |r| ==> ByCreditsDesc(r[i]) <= ByCreditsDesc(r[j]);
    SortedTallyFacts(xs, r);
    r
  }

  /** `countByMateria` as a list in first-seen order. */
  function Tally(xs: seq<Session>): seq<Credit> {
    TallyOf(Dedup(SubjectsOf(xs)), xs)
  }

  /** Any reordering of the tally keeps its entries' meaning. */
  lemma {:induction false} SortedTallyFacts(xs: seq<Session>, r: seq<Credit>)
    requires multiset(r) == multiset(Tally(xs))
    ensures forall i :: 0 <= i < |r| ==> r[i].credits == OfSubject(xs, r[i].materia) && r[i].credits > 0
    ensures forall m :: Listed(r, m) <==> HasSubject(xs, m)
    ensures OnePerSubject(r)
  {
    TallyEntries(xs);
    SameEntries(Tally(xs), r);
    OnePerSubjectTally(Dedup(SubjectsOf(xs)), xs);
    OnePerSubjectKept(Tally(xs), r);
  }

  /** Each entry of the unsorted tally counts a subject that occurs, and every subject that occurs has one. */
  lemma {:induction false} TallyEntries(xs: seq<Session>)
    ensures forall c :: c in Tally(xs) ==> c.credits == OfSubject(xs, c.materia) && c.credits > 0
    ensures forall m :: Listed(Tally(xs), m) <==> HasSubject(xs, m)
  {
    var ms := Dedup(SubjectsOf(xs));
    var tally := Tally(xs);
    forall c | c in tally ensures c.credits == OfSubject(xs, c.materia) && c.credits > 0 {
      var k :| 0 <= k < |tally| && tally[k] == c;
      assert ms[k] in ms;
      OfSubjectPositive(xs, c.materia);
    }
    forall m ensures Listed(tally, m) <==> HasSubject(xs, m) {
      if HasSubject(xs, m) {
        assert m in ms;
        var k :| 0 <= k < |ms| && ms[k] == m;
        assert tally[k].materia == m;
      }
      if Listed(tally, m) {
        var k :| 0 <= k < |tally| && tally[k].materia == m;
        assert ms[k] in ms;
      }
    }
  }

  /** Lists with the same multiset have the same entries. */
  lemma {:induction false} SameEntries(a: seq<Credit>, b: seq<Credit>)
    requires multiset(a) == multiset(b)
    ensures forall c :: c in a <==> c in b
    ensures forall m :: Listed(a, m) <==> Listed(b, m)
  {
    forall c ensures c in a <==> c in b {
      assert c in a <==> c in multiset(a);
      assert c in b <==> c in multiset(b);
    }
    forall m | Listed(a, m) ensures Listed(b, m) {
      var i :| 0 <= i < |a| && a[i].materia == m;
      assert a[i] in b;
      var j :| 0 <= j < |b| && b[j] == a[i];
    }
    forall m | Listed(b, m) ensures Listed(a, m) {
      var i :| 0 <= i < |b| && b[i].materia == m;
      assert b[i] in a;
      var j :| 0 <= j < |a| && a[j] == b[i];
    }
  }

  lemma {:induction false} OnePerSubjectTally(ms: seq<string>, xs: seq<Session>)
    requires Distinct(ms)
    ensures OnePerSubject(TallyOf(ms, xs))
  {
  }

  /** Reordering a list with one entry per subject keeps one entry per subject. */
  lemma {:induction false} OnePerSubjectKept(a: seq<Credit>, b: seq<Credit>)
    requires OnePerSubject(a) && multiset(a) == multiset(b)
    ensures OnePerSubject(b)
  {
    forall i, j | 0 <= i < j < |b| ensures b[i].materia != b[j].materia {
      assert b[i] in multiset(a) && b[j] in multiset(a);
      var p :| 0 <= p < |a| && a[p] == b[i];
      var q :| 0 <= q < |a| && a[q] == b[j];
      MultisetRank(b, i, j);
      CountAtMostOne(a, b[i]);
      assert a[p].materia == a[q].materia ==> p == q;
    }
  }

  lemma {:induction false} MultisetRank(r: seq<Credit>, i: int, j: int)
    requires 0 <= i < j < |r|
    ensures r[i] == r[j] ==> multiset(r)[r[i]] >= 2
  {
    if r[i] == r[j] {
      var rest := r[..i] + r[i + 1..];
      assert r == r[..i] + [r[i]] + r[i + 1..];
      assert r[j] in rest by { assert rest[j - 1] == r[j]; }
      assert multiset(r) == multiset(r[..i]) + multiset{r[i]} + multiset(r[i + 1..]);
    }
  }

  lemma {:induction false} CountAtMostOne(s: seq<Credit>, c: Credit)
    requires OnePerSubject(s)
    ensures multiset(s)[c] <= 1
    decreases |s|
  {
    if |s| > 0 {
      var init := s[..|s| - 1];
      CountAtMostOne(init, c);
      assert s == init + [s[|s| - 1]];
      assert s[|s| - 1] == c ==> c !in init;
    }
  }

  // ---------------------------------------------------------------------
  // The credit total
  // ---------------------------------------------------------------------

  lemma {:induction false} TotalAppend(a: seq<Credit>, b: seq<Credit>)
    ensures Total(a + b) == Total(a) + Total(b)
    decreases |b|
  {
    if |b| == 0 {
      assert a + b == a;
    } else {
      var init := b[..|b| - 1];
      assert a + b == (a + init) + [b[|b| - 1]];
      assert (a + b)[..|a + b| - 1] == a + init;
      TotalAppend(a, init);
    }
  }

  /** Reordering a list does not change its total. */
  lemma {:induction false} TotalPermutation(a: seq<Credit>, b: seq<Credit>)
    requires multiset(a) == multiset(b)
    ensures Total(a) == Total(b)
    decreases |a|
  {
    if |a| == 0 {
      assert |multiset(b)| == 0;
      assert b == [];
    } else {
      var init := a[..|a| - 1];
      var x := a[|a| - 1];
      assert a == init + [x];
      assert x in multiset(b);
      var k :| 0 <= k < |b| && b[k] == x;
      var rest := b[..k] + b[k + 1..];
      RemoveAt(b, k);
      CancelOne(multiset(init), multiset(rest), x);
      TotalPermutation(init, rest);
      TotalWithout(b, k);
    }
  }

  /** Taking one entry out of a list takes its credits off the total. */
  lemma {:induction false} TotalWithout(b: seq<Credit>, k: int)
    requires 0 <= k < |b|
    ensures Total(b) == Total(b[..k] + b[k + 1..]) + b[k].credits
  {
    assert b == b[..k] + [b[k]] + b[k + 1..];
    TotalMiddle(b[..k], b[k], b[k + 1..]);
  }

  lemma {:induction false} TotalMiddle(front: seq<Credit>, x: Credit, back: seq<Credit>)
    ensures Total(front + [x] + back) == Total(front + back) + x.credits
  {
    TotalAppend(front + [x], back);
    TotalSnoc(front, x);
    TotalAppend(front, back);
  }

  lemma {:induction false} TotalSnoc(front: seq<Credit>, x: Credit)
    ensures Total(front + [x]) == Total(front) + x.credits
  {
    assert (front + [x])[..|front|] == front;
  }

  lemma {:induction false} RemoveAt(b: seq<Credit>, k: int)
    requires 0 <= k < |b|
    ensures multiset(b) == multiset(b[..k] + b[k + 1..]) + multiset{b[k]}
  {
    assert b == b[..k] + [b[k]] + b[k + 1..];
  }

  lemma {:induction false} CancelOne(p: multiset<Credit>, q: multiset<Credit>, x: Credit)
    requires p + multiset{x} == q + multiset{x}
    ensures p == q
  {
    assert forall y :: p[y] == (p + multiset{x})[y] - (if y == x then 1 else 0);
    assert forall y :: q[y] == (q + multiset{x})[y] - (if y == x then 1 else 0);
  }

  lemma {:induction false} TallyOfSnoc(ms: seq<string>, xs: seq<Session>)
    requires |ms| > 0
    ensures TallyOf(ms, xs) == TallyOf(ms[..|ms| - 1], xs) + [Credit(ms[|ms| - 1], OfSubject(xs, ms[|ms| - 1]))]
  {
  }

  /** One more session adds one to the tally total of any list of distinct subjects naming its subject. */
  lemma {:induction false} TallyStep(ms: seq<string>, init: seq<Session>, x: Session)
    requires Distinct(ms)
    ensures Total(TallyOf(ms, init + [x])) == Total(TallyOf(ms, init)) + (if x.materia in ms then 1 else 0)
    decreases |ms|
  {
    var xs := init + [x];
    assert xs[..|xs| - 1] == init;
    if |ms| > 0 {
      var front := ms[..|ms| - 1];
      var m := ms[|ms| - 1];
      assert ms == front + [m];
      TallyOfSnoc(ms, xs);
      TallyOfSnoc(ms, init);
      TallyStep(front, init, x);
      assert x.materia in ms <==> x.materia in front || x.materia == m;
      assert m !in front;
    }
  }

  /** The counts of the first-seen subjects add up to the number of sessions. */
  lemma {:induction false} TallyTotal(xs: seq<Session>)
    ensures Total(Tally(xs)) == |xs|
    decreases |xs|
  {
    if |xs| > 0 {
      var init := xs[..|xs| - 1];
      var x := xs[|xs| - 1];
      assert xs == init + [x];
      TallyTotal(init);
      TallyStep(Dedup(SubjectsOf(init)), init, x);
      TallyGrow(init, x);
    }
  }

  /** A new session's subject either is already tallied or adds an entry counting just that session. */
  lemma {:induction false} TallyGrow(init: seq<Session>, x: Session)
    ensures var d := Dedup(SubjectsOf(init));
      Total(Tally(init + [x])) == Total(TallyOf(d, init + [x])) + (if x.materia in d then 0 else 1)
  {
    var xs := init + [x];
    var d := Dedup(SubjectsOf(init));
    assert xs[..|xs| - 1] == init;
    assert SubjectsOf(xs) == SubjectsOf(init) + [x.materia];
    assert SubjectsOf(xs)[..|xs| - 1] == SubjectsOf(init);
    if x.materia !in d {
      assert Dedup(SubjectsOf(xs)) == d + [x.materia];
      TallyOfSnoc(d + [x.materia], xs);
      assert (d + [x.materia])[..|d|] == d;
      OfSubjectPositive(init, x.materia);
      assert OfSubject(xs, x.materia) == OfSubject(init, x.materia) + 1;
    }
  }

  /** The sidebar total equals the number of sessions shown, the "Total de Sesiones". */
  lemma {:induction false} CreditTotal(xs: seq<Session>)
    ensures Total(CreditList(xs)) == |xs|
  {
    TallyTotal(xs);
    TotalPermutation(CreditList(xs), Tally(xs));
  }
}
