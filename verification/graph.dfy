/**
 * The validation graph page: every session contributes a course, a teacher,
 * a group and a time-slot node, each keyed by a kind prefix and created on
 * first sight, and three links from its course node (four with the optional
 * teacher-to-group links). The page only draws this graph; it computes no
 * conflicts.
 */
module Graph {
  import opened Wrappers
  import opened Text
  import opened Sessions

  datatype Kind = Course | Teacher | Group | Slot

  /** The key prefix of each kind: `C:`, `P:`, `G:`, `S:`. */
  function Prefix(k: Kind): string {
    match k
    case Course => "C:"
    case Teacher => "P:"
    case Group => "G:"
    case Slot => "S:"
  }

  /** A node key: the kind's prefix followed by the text. */
  function KeyOf(k: Kind, text: string): string {
    Prefix(k) + text
  }

  /** Keys of different kinds never coincide, and a key determines its text. */
  lemma {:induction false} KeyInjective(k1: Kind, t1: string, k2: Kind, t2: string)
    ensures KeyOf(k1, t1) == KeyOf(k2, t2) <==> k1 == k2 && t1 == t2
  {
    if KeyOf(k1, t1) == KeyOf(k2, t2) {
      assert KeyOf(k1, t1)[0] == Prefix(k1)[0];
      assert KeyOf(k2, t2)[0] == Prefix(k2)[0];
      assert t1 == KeyOf(k1, t1)[2..];
      assert t2 == KeyOf(k2, t2)[2..];
    }
  }

  /** The teacher's name as the page writes it: a missing name prints as `null`. */
  function TeacherText(a: Session): string {
    a.maestro.GetOr("null")
  }

  /** The slot key's text `${dia}-${hora_inicio}`. */
  function SlotText(a: Session): string {
    a.dia + "-" + IntToString(a.start)
  }

  /** The slot label `${dia} H${hora_inicio}`. */
  function SlotLabel(a: Session): string {
    a.dia + " H" + IntToString(a.start)
  }

  /** A node: its key, its caption, its kind and its drawn size. */
  datatype Node = Node(id: string, caption: string, kind: Kind, size: int)

  /** The node a session contributes for each kind. */
  function NodeFor(a: Session, k: Kind): (n: Node)
    ensures n.kind == k
  {
    match k
    case Course => Node(KeyOf(Course, a.materia), a.materia, Course, 8)
    case Teacher => Node(KeyOf(Teacher, TeacherText(a)), TeacherText(a), Teacher, 6)
    case Group => Node(KeyOf(Group, a.grupo), a.grupo, Group, 6)
    case Slot => Node(KeyOf(Slot, SlotText(a)), SlotLabel(a), Slot, 5)
  }

  /** The four nodes of a session, in the order the page looks them up. */
  function Makers(a: Session): (r: seq<Node>)
    ensures |r| == 4
    ensures forall k :: NodeFor(a, k) in r
    ensures forall n :: n in r ==> exists k :: n == NodeFor(a, k)
  {
    var r := [NodeFor(a, Course), NodeFor(a, Teacher), NodeFor(a, Group), NodeFor(a, Slot)];
    assert forall n :: n in r ==> n == r[0] || n == r[1] || n == r[2] || n == r[3];
    r
  }

  /** A link between two node keys; `thin` marks the optional teacher-to-group links. */
  datatype Link = Link(source: string, target: string, thin: bool)

  /** A session's links: course to teacher, group and slot, then teacher to group when shown. */
  function LinksFor(a: Session, showTeacherLinks: bool): (r: seq<Link>)
    ensures |r| == if showTeacherLinks then 4 else 3
    ensures forall l :: l in r ==> exists k1, k2 :: l.source == NodeFor(a, k1).id && l.target == NodeFor(a, k2).id
  {
    var c := NodeFor(a, Course).id;
    var p := NodeFor(a, Teacher).id;
    var g := NodeFor(a, Group).id;
    var s := NodeFor(a, Slot).id;
    [Link(c, p, false), Link(c, g, false), Link(c, s, false)] + (if showTeacherLinks then [Link(p, g, true)] else [])
  }

  /** Some node has key `id`. */
  predicate HasId(nodes: seq<Node>, id: string) {
    exists j :: 0 <= j < |nodes| && nodes[j].id == id
  }

  /** No two nodes share a key. */
  predicate DistinctIds(nodes: seq<Node>) {
    forall i, j :: 0 <= i < j < |nodes| ==> nodes[i].id != nodes[j].id
  }

  /** `if (!nodesMap.has(k)) nodesMap.set(k, n)`, with the map kept in insertion order. */
  function AddNode(nodes: seq<Node>, n: Node): (r: seq<Node>)
    ensures HasId(nodes, n.id) ==> r == nodes
    ensures !HasId(nodes, n.id) ==> r == nodes + [n]
  {
    if exists j :: 0 <= j < |nodes| && nodes[j].id == n.id then nodes else nodes + [n]
  }

  /** Adding several nodes in turn. */
  function AddNodes(nodes: seq<Node>, ns: seq<Node>): seq<Node>
    decreases |ns|
  {
    if |ns| == 0 then nodes else AddNodes(AddNode(nodes, ns[0]), ns[1..])
  }

  /** One `AddNode`: the keys grow by the new one, stay distinct, and the old nodes stay in front. */
  lemma {:induction false} AddNodeSpec(nodes: seq<Node>, n: Node)
    ensures forall id :: HasId(AddNode(nodes, n), id) <==> HasId(nodes, id) || id == n.id
    ensures DistinctIds(nodes) ==> DistinctIds(AddNode(nodes, n))
    ensures |nodes| <= |AddNode(nodes, n)| && AddNode(nodes, n)[..|nodes|] == nodes
    ensures forall j :: |nodes| <= j < |AddNode(nodes, n)| ==> AddNode(nodes, n)[j] == n && !HasId(nodes, n.id)
  {
    var r := AddNode(nodes, n);
    if !HasId(nodes, n.id) {
      assert r[|nodes|] == n;
      forall id | HasId(r, id) && !HasId(nodes, id) ensures id == n.id {
        var j :| 0 <= j < |r| && r[j].id == id;
        assert j == |nodes|;
      }
      forall i | 0 <= i < |nodes| ensures nodes[i].id != n.id {
        assert !(0 <= i < |nodes| && nodes[i].id == n.id);
      }
      forall id | HasId(nodes, id) ensures HasId(r, id) {
        var j :| 0 <= j < |nodes| && nodes[j].id == id;
        assert r[j] == nodes[j];
      }
    }
  }

  /** A key occurs in a non-empty list exactly when it is the head's or occurs in the tail. */
  lemma {:induction false} HasIdCons(ns: seq<Node>, id: string)
    requires |ns| > 0
    ensures HasId(ns, id) <==> id == ns[0].id || HasId(ns[1..], id)
  {
    if HasId(ns[1..], id) {
      var j :| 0 <= j < |ns[1..]| && ns[1..][j].id == id;
      assert ns[j + 1].id == id;
    }
    if HasId(ns, id) && id != ns[0].id {
      var j :| 0 <= j < |ns| && ns[j].id == id;
      assert ns[1..][j - 1].id == id;
    }
  }

  /** Adding several nodes: the keys are the union, and what is appended comes from `ns` with a new key. */
  lemma {:induction false} AddNodesSpec(nodes: seq<Node>, ns: seq<Node>)
    ensures forall id :: HasId(AddNodes(nodes, ns), id) <==> HasId(nodes, id) || HasId(ns, id)
    ensures DistinctIds(nodes) ==> DistinctIds(AddNodes(nodes, ns))
    ensures |nodes| <= |AddNodes(nodes, ns)| && AddNodes(nodes, ns)[..|nodes|] == nodes
    ensures forall j :: |nodes| <= j < |AddNodes(nodes, ns)| ==> AddNodes(nodes, ns)[j] in ns && !HasId(nodes, AddNodes(nodes, ns)[j].id)
    decreases |ns|
  {
    if |ns| > 0 {
      var next := AddNode(nodes, ns[0]);
      AddNodeSpec(nodes, ns[0]);
      AddNodesSpec(next, ns[1..]);
      var r := AddNodes(nodes, ns);
      assert r == AddNodes(next, ns[1..]);
      forall id ensures HasId(r, id) <==> HasId(nodes, id) || HasId(ns, id) {
        HasIdCons(ns, id);
      }
      assert r[..|next|] == next;
      assert next[..|nodes|] == nodes;
      forall j | |nodes| <= j < |r| ensures r[j] in ns && !HasId(nodes, r[j].id) {
        if j < |next| {
          assert r[j] == next[j];
        } else {
          assert r[j] in ns[1..];
        }
      }
    }
  }

  /** Some session contributes a node with key `id`. */
  predicate Made(xs: seq<Session>, id: string) {
    exists i, k :: 0 <= i < |xs| && NodeFor(xs[i], k).id == id
  }

  /** No session before the `i`-th contributes key `id`. */
  predicate NotBefore(xs: seq<Session>, i: int, id: string) {
    forall p, k :: 0 <= p < i && p < |xs| ==> NodeFor(xs[p], k).id != id
  }

  /** `n` is the node of the first session that contributes its key. */
  predicate FirstMade(xs: seq<Session>, n: Node) {
    exists i, k :: 0 <= i < |xs| && n == NodeFor(xs[i], k) && NotBefore(xs, i, n.id)
  }

  /** The drawn graph: its nodes in creation order, and its links. */
  datatype Drawn = Drawn(nodes: seq<Node>, links: seq<Link>)

  /**
   * `processGraphData`: one node per distinct key, with the attributes of
   * the session that created it first, and the links of every session.
   */
  function Build(xs: seq<Session>, showTeacherLinks: bool): (r: Drawn)
    ensures DistinctIds(r.nodes)
    ensures forall id :: HasId(r.nodes, id) <==> Made(xs, id)
    ensures forall j :: 0 <= j < |r.nodes| ==> FirstMade(xs, r.nodes[j])
    ensures |r.links| == (if showTeacherLinks then 4 else 3) * |xs|
    ensures forall l :: l in r.links ==> HasId(r.nodes, l.source) && HasId(r.nodes, l.target)
  {
    if |xs| == 0 then Drawn([], [])
    else
      var init := xs[..|xs| - 1];
      var x := xs[|xs| - 1];
      var prev := Build(init, showTeacherLinks);
      var nodes := AddNodes(prev.nodes, Makers(x));
      var links := prev.links + LinksFor(x, showTeacherLinks);
      BuildStep(xs, prev.nodes, nodes);
      LinksStep(xs, prev.nodes, nodes, prev.links, showTeacherLinks);
      Drawn(nodes, links)
  }

  lemma {:induction false} BuildStep(xs: seq<Session>, prev: seq<Node>, nodes: seq<Node>)
    requires |xs| > 0
    requires DistinctIds(prev)
    requires forall id :: HasId(prev, id) <==> Made(xs[..|xs| - 1], id)
    requires forall j :: 0 <= j < |prev| ==> FirstMade(xs[..|xs| - 1], prev[j])
    requires nodes == AddNodes(prev, Makers(xs[|xs| - 1]))
    ensures DistinctIds(nodes)
    ensures forall id :: HasId(nodes, id) <==> Made(xs, id)
    ensures forall j :: 0 <= j < |nodes| ==> FirstMade(xs, nodes[j])
  {
    var init := xs[..|xs| - 1];
    var x := xs[|xs| - 1];
    AddNodesSpec(prev, Makers(x));
    forall id ensures HasId(nodes, id) <==> Made(xs, id) {
      MadeStep(xs, id);
      MakersIds(x, id);
    }
    forall j | 0 <= j < |nodes| ensures FirstMade(xs, nodes[j]) {
      if j < |prev| {
        assert nodes[j] == prev[j];
        FirstMadeExtends(xs, prev[j]);
      } else {
        var n := nodes[j];
        var k :| n == NodeFor(x, k);
        assert !Made(init, n.id);
        NotBeforeLast(xs, n.id);
        assert n == NodeFor(xs[|xs| - 1], k);
      }
    }
  }

  /** A key no earlier session made is not made before the last one. */
  lemma {:induction false} NotBeforeLast(xs: seq<Session>, id: string)
    requires |xs| > 0 && !Made(xs[..|xs| - 1], id)
    ensures NotBefore(xs, |xs| - 1, id)
  {
    var init := xs[..|xs| - 1];
    forall p, k | 0 <= p < |xs| - 1 ensures NodeFor(xs[p], k).id != id {
      assert xs[p] == init[p];
    }
  }

  /** Session `x` contributes a node with key `id`. */
  predicate MadeBy(x: Session, id: string) {
    exists k :: NodeFor(x, k).id == id
  }

  lemma {:induction false} MakersIds(x: Session, id: string)
    ensures HasId(Makers(x), id) <==> MadeBy(x, id)
  {
    var m := Makers(x);
    if HasId(m, id) {
      var j :| 0 <= j < |m| && m[j].id == id;
      assert m[j] in m;
    }
    if MadeBy(x, id) {
      var k :| NodeFor(x, k).id == id;
      assert NodeFor(x, k) in m;
      var j :| 0 <= j < |m| && m[j] == NodeFor(x, k);
    }
  }

  lemma {:induction false} MadeStep(xs: seq<Session>, id: string)
    requires |xs| > 0
    ensures Made(xs, id) <==> Made(xs[..|xs| - 1], id) || MadeBy(xs[|xs| - 1], id)
  {
    var init := xs[..|xs| - 1];
    if Made(xs, id) {
      var i, k :| 0 <= i < |xs| && NodeFor(xs[i], k).id == id;
      if i < |init| {
        assert init[i] == xs[i];
      }
    }
    if Made(init, id) {
      var i, k :| 0 <= i < |init| && NodeFor(init[i], k).id == id;
      assert xs[i] == init[i];
    }
  }

  lemma {:induction false} FirstMadeExtends(xs: seq<Session>, n: Node)
    requires |xs| > 0
    requires FirstMade(xs[..|xs| - 1], n)
    ensures FirstMade(xs, n)
  {
    var init := xs[..|xs| - 1];
    var i, k :| 0 <= i < |init| && n == NodeFor(init[i], k) && NotBefore(init, i, n.id);
    assert xs[i] == init[i];
    assert NotBefore(xs, i, n.id) by {
      forall p, k' | 0 <= p < i ensures NodeFor(xs[p], k').id != n.id {
        assert xs[p] == init[p];
      }
    }
  }

  lemma {:induction false} LinksStep(xs: seq<Session>, prev: seq<Node>, nodes: seq<Node>, links: seq<Link>, show: bool)
    requires |xs| > 0
    requires forall l :: l in links ==> HasId(prev, l.source) && HasId(prev, l.target)
    requires nodes == AddNodes(prev, Makers(xs[|xs| - 1]))
    ensures forall l :: l in links + LinksFor(xs[|xs| - 1], show) ==> HasId(nodes, l.source) && HasId(nodes, l.target)
  {
    var x := xs[|xs| - 1];
    AddNodesSpec(prev, Makers(x));
    forall l | l in links + LinksFor(x, show) ensures HasId(nodes, l.source) && HasId(nodes, l.target) {
      if l !in links {
        var k1, k2 :| l.source == NodeFor(x, k1).id && l.target == NodeFor(x, k2).id;
        MakersIds(x, l.source);
        MakersIds(x, l.target);
      }
    }
  }

  /** The number of nodes of kind `k`. */
  function CountKind(nodes: seq<Node>, k: Kind): nat {
    if |nodes| == 0 then 0 else CountKind(nodes[..|nodes| - 1], k) + (if nodes[|nodes| - 1].kind == k then 1 else 0)
  }

  /** The counters shown above the graph. */
  datatype Stats = Stats(courses: nat, teachers: nat, groups: nat, slots: nat, links: nat)

  function StatsOf(d: Drawn): Stats {
    Stats(CountKind(d.nodes, Course), CountKind(d.nodes, Teacher), CountKind(d.nodes, Group), CountKind(d.nodes, Slot), |d.links|)
  }

  /** The four node counters add up to the number of nodes. */
  lemma {:induction false} CountersCoverNodes(nodes: seq<Node>)
    ensures CountKind(nodes, Course) + CountKind(nodes, Teacher) + CountKind(nodes, Group) + CountKind(nodes, Slot) == |nodes|
    decreases |nodes|
  {
    if |nodes| > 0 {
      CountersCoverNodes(nodes[..|nodes| - 1]);
    }
  }

  /**
   * The page's counters: the kinds partition the nodes, the link counter
   * is three or four per session, and no sessions draw nothing.
   */
  lemma {:induction false} GraphStats(xs: seq<Session>, show: bool)
    ensures var s := StatsOf(Build(xs, show));
      s.courses + s.teachers + s.groups + s.slots == |Build(xs, show).nodes|
    ensures StatsOf(Build(xs, show)).links == (if show then 4 else 3) * |xs|
    ensures xs == [] ==> Build(xs, show) == Drawn([], [])
  {
    CountersCoverNodes(Build(xs, show).nodes);
  }

  /** A subject and a teacher with the same name are two different nodes. */
  lemma {:induction false} CourseIsNotTeacher(a: Session, b: Session)
    ensures NodeFor(a, Course).id != NodeFor(b, Teacher).id
  {
    KeyInjective(Course, a.materia, Teacher, TeacherText(b));
  }

  /** Sessions sharing a subject share its node: course keys are equal exactly when subjects are. */
  lemma {:induction false} SameSubjectSameNode(a: Session, b: Session)
    ensures NodeFor(a, Course).id == NodeFor(b, Course).id <==> a.materia == b.materia
  {
    KeyInjective(Course, a.materia, Course, b.materia);
  }
}
