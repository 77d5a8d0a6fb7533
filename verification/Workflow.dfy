/** The cross-node checks of a workflow definition: unique ids, known dependencies,
    input bindings, and the depth-first search for dependency cycles. */
module Workflow {
  import opened Sequences

  datatype Binding = Binding(name: string, fromNode: string)

  datatype Node = Node(id: string, dependsOn: seq<string>, inputBindings: seq<Binding>)

  datatype Issue =
    | DuplicateNodeId(id: string)
    | BadDependency(id: string, dependency: string)
    | BindingNotDirect(id: string, name: string)
    | DuplicateBinding(id: string, name: string)
    | CycleAt(id: string)

  type Graph = map<string, Node>

  // ---------------------------------------------------------------- the graph

  /** The last node with a given id wins, as in a JavaScript `Map` built from pairs. */
  function ById(nodes: seq<Node>): Graph {
    if nodes == [] then map[]
    else ById(nodes[..|nodes| - 1])[nodes[|nodes| - 1].id := nodes[|nodes| - 1]]
  }

  function Deps(g: Graph, id: string): seq<string> {
    if id in g then g[id].dependsOn else []
  }

  ghost predicate IsWalk(g: Graph, w: seq<string>) {
    forall i, j | 0 <= i && j == i + 1 && j < |w| :: w[j] in Deps(g, w[i])
  }

  ghost predicate ClosedWalk(g: Graph, w: seq<string>) {
    |w| >= 2 && w[0] == w[|w| - 1] && IsWalk(g, w)
  }

  ghost predicate OnCycle(g: Graph, id: string) {
    exists w :: ClosedWalk(g, w) && w[0] == id
  }

  ghost predicate Acyclic(g: Graph) {
    forall w :: !ClosedWalk(g, w)
  }

  function Ids(nodes: seq<Node>): set<string> {
    set i | 0 <= i < |nodes| :: nodes[i].id
  }

  /** Every id the search can meet: the declared ones and everything a kept node depends on. */
  function Universe(g: Graph): set<string> {
    g.Keys + set id, d | id in g.Keys && d in g[id].dependsOn :: d
  }

  lemma DepsInUniverse(g: Graph, id: string, d: string)
    requires d in Deps(g, id)
    ensures d in Universe(g)
  {
    assert id in g.Keys && d in g[id].dependsOn;
  }

  lemma {:induction false} ByIdKeys(nodes: seq<Node>)
    ensures ById(nodes).Keys == Ids(nodes)
    ensures forall id | id in ById(nodes) :: ById(nodes)[id] in nodes && ById(nodes)[id].id == id
  {
    if nodes != [] {
      var front, last := nodes[..|nodes| - 1], nodes[|nodes| - 1];
      ByIdKeys(front);
      assert nodes == front + [last];
      forall id | id in Ids(nodes) ensures id in ById(nodes) {
        var i :| 0 <= i < |nodes| && nodes[i].id == id;
        if i < |front| { assert front[i].id == id; }
      }
      forall id | id in ById(nodes) ensures id in Ids(nodes) {
        if id != last.id {
          var i :| 0 <= i < |front| && front[i].id == id;
          assert nodes[i].id == id;
        } else {
          assert nodes[|nodes| - 1].id == id;
        }
      }
    }
  }

  /** Of several nodes with one id the last is kept. */
  lemma {:induction false} ByIdIsLast(nodes: seq<Node>, k: int)
    requires 0 <= k < |nodes| && forall m | k < m < |nodes| :: nodes[m].id != nodes[k].id
    ensures nodes[k].id in ById(nodes) && ById(nodes)[nodes[k].id] == nodes[k]
  {
    var front := nodes[..|nodes| - 1];
    if k < |front| {
      assert front[k] == nodes[k];
      forall m | k < m < |front| ensures front[m].id != front[k].id {
        assert front[m] == nodes[m];
      }
      ByIdIsLast(front, k);
    }
  }

  /** With unique ids, looking a node up by its id gives that node back. */
  lemma {:induction false} ByIdOfDistinct(nodes: seq<Node>, k: int)
    requires DistinctIds(nodes) && 0 <= k < |nodes|
    ensures nodes[k].id in ById(nodes) && ById(nodes)[nodes[k].id] == nodes[k]
  {
    var front := nodes[..|nodes| - 1];
    if k < |front| {
      assert front[k] == nodes[k];
      assert DistinctIds(front) by {
        forall i, j | 0 <= i < j < |front| ensures front[i].id != front[j].id {
          assert nodes[i].id != nodes[j].id;
        }
      }
      ByIdOfDistinct(front, k);
      assert nodes[k].id != nodes[|nodes| - 1].id;
    }
  }

  // ------------------------------------------------- what a good definition is

  ghost predicate DistinctIds(nodes: seq<Node>) {
    forall i, j | 0 <= i < j < |nodes| :: nodes[i].id != nodes[j].id
  }

  ghost predicate DistinctBindingNames(bindings: seq<Binding>) {
    forall i, j | 0 <= i < j < |bindings| :: bindings[i].name != bindings[j].name
  }

  ghost predicate GoodReferences(node: Node, ids: set<string>) {
    && (forall d | d in node.dependsOn :: d != node.id && d in ids)
    && (forall b | b in node.inputBindings :: b.fromNode in node.dependsOn)
    && DistinctBindingNames(node.inputBindings)
  }

  ghost predicate WellFormed(nodes: seq<Node>) {
    && DistinctIds(nodes)
    && (forall node | node in nodes :: GoodReferences(node, Ids(nodes)))
    && Acyclic(ById(nodes))
  }

  /** `order` lists every node id once, and each node after everything it depends on. */
  ghost predicate ExecutionOrder(nodes: seq<Node>, order: seq<string>) {
    && Distinct(order)
    && Elements(order) == Ids(nodes)
    && (forall node, d, i | node in nodes && d in node.dependsOn && 0 <= i < |order| && order[i] == node.id
          :: d in order[..i])
    && (forall node, b, i | node in nodes && b in node.inputBindings && 0 <= i < |order| && order[i] == node.id
          :: b.fromNode in order[..i])
  }

  // ----------------------------------------- the issues of the first two passes

  function DuplicateIssues(nodes: seq<Node>): seq<Issue> {
    if nodes == [] then []
    else
      var front, last := nodes[..|nodes| - 1], nodes[|nodes| - 1];
      DuplicateIssues(front) + if last.id in Ids(front) then [DuplicateNodeId(last.id)] else []
  }

  function DependencyIssues(node: Node, deps: seq<string>, ids: set<string>): seq<Issue> {
    if deps == [] then []
    else
      var front, last := deps[..|deps| - 1], deps[|deps| - 1];
      DependencyIssues(node, front, ids)
      + if last == node.id || last !in ids then [BadDependency(node.id, last)] else []
  }

  function BindingNames(bindings: seq<Binding>): set<string> {
    set i | 0 <= i < |bindings| :: bindings[i].name
  }

  function BindingIssues(node: Node, bindings: seq<Binding>): seq<Issue> {
    if bindings == [] then []
    else
      var front, last := bindings[..|bindings| - 1], bindings[|bindings| - 1];
      BindingIssues(node, front)
      + (if last.fromNode !in node.dependsOn then [BindingNotDirect(node.id, last.name)] else [])
      + (if last.name in BindingNames(front) then [DuplicateBinding(node.id, last.name)] else [])
  }

  function ReferenceIssues(nodes: seq<Node>, ids: set<string>): seq<Issue> {
    if nodes == [] then []
    else
      var last := nodes[|nodes| - 1];
      ReferenceIssues(nodes[..|nodes| - 1], ids)
      + DependencyIssues(last, last.dependsOn, ids)
      + BindingIssues(last, last.inputBindings)
  }

  /** Everything the first two passes report. */
  function LocalIssues(nodes: seq<Node>): seq<Issue> {
    DuplicateIssues(nodes) + ReferenceIssues(nodes, Ids(nodes))
  }

  lemma {:induction false} NoDuplicateIssues(nodes: seq<Node>)
    ensures DuplicateIssues(nodes) == [] <==> DistinctIds(nodes)
  {
    if nodes != [] {
      var front, last := nodes[..|nodes| - 1], nodes[|nodes| - 1];
      NoDuplicateIssues(front);
      assert nodes == front + [last];
      if DistinctIds(nodes) {
        assert DistinctIds(front) by {
          forall i, j | 0 <= i < j < |front| ensures front[i].id != front[j].id {
            assert nodes[i].id != nodes[j].id;
          }
        }
      } else if DistinctIds(front) {
        var i, j :| 0 <= i < j < |nodes| && nodes[i].id == nodes[j].id;
        assert front[i].id == last.id;
      }
    }
  }

  lemma {:induction false} NoDependencyIssues(node: Node, deps: seq<string>, ids: set<string>)
    ensures DependencyIssues(node, deps, ids) == [] <==> forall d | d in deps :: d != node.id && d in ids
  {
    if deps != [] {
      var front, last := deps[..|deps| - 1], deps[|deps| - 1];
      NoDependencyIssues(node, front, ids);
      assert deps == front + [last];
      assert forall d :: d in deps <==> d in front || d == last;
      if DependencyIssues(node, deps, ids) == [] {
        assert DependencyIssues(node, front, ids) == [];
      } else if DependencyIssues(node, front, ids) == [] {
        assert last in deps;
      }
    }
  }

  lemma DistinctBindingNamesSnoc(front: seq<Binding>, last: Binding)
    ensures DistinctBindingNames(front + [last]) <==> DistinctBindingNames(front) && last.name !in BindingNames(front)
  {
    var bindings := front + [last];
    if DistinctBindingNames(bindings) {
      forall i, j | 0 <= i < j < |front| ensures front[i].name != front[j].name {
        assert bindings[i].name != bindings[j].name;
      }
      forall i | 0 <= i < |front| ensures front[i].name != last.name {
        assert bindings[i].name != bindings[|front|].name;
      }
    }
    if DistinctBindingNames(front) && last.name !in BindingNames(front) {
      forall i, j | 0 <= i < j < |bindings| ensures bindings[i].name != bindings[j].name {
        assert front[i].name in BindingNames(front);
      }
    }
  }

  lemma {:induction false} NoBindingIssues(node: Node, bindings: seq<Binding>)
    ensures BindingIssues(node, bindings) == []
       <==> (forall b | b in bindings :: b.fromNode in node.dependsOn) && DistinctBindingNames(bindings)
  {
    if bindings != [] {
      var front, last := bindings[..|bindings| - 1], bindings[|bindings| - 1];
      NoBindingIssues(node, front);
      DistinctBindingNamesSnoc(front, last);
      assert bindings == front + [last];
      assert forall b :: b in bindings <==> b in front || b == last;
      var a := if last.fromNode !in node.dependsOn then [BindingNotDirect(node.id, last.name)] else [];
      var c := if last.name in BindingNames(front) then [DuplicateBinding(node.id, last.name)] else [];
      assert BindingIssues(node, bindings) == BindingIssues(node, front) + a + c;
      assert a == [] <==> last.fromNode in node.dependsOn;
      assert c == [] <==> last.name !in BindingNames(front);
    }
  }

  lemma ReferenceIssuesEmpty(nodes: seq<Node>, ids: set<string>)
    requires nodes != []
    ensures var last := nodes[|nodes| - 1];
            ReferenceIssues(nodes, ids) == [] <==>
              && ReferenceIssues(nodes[..|nodes| - 1], ids) == []
              && DependencyIssues(last, last.dependsOn, ids) == []
              && BindingIssues(last, last.inputBindings) == []
  {}

  lemma {:induction false} NoReferenceIssues(nodes: seq<Node>, ids: set<string>)
    ensures ReferenceIssues(nodes, ids) == [] <==> forall node | node in nodes :: GoodReferences(node, ids)
  {
    if nodes != [] {
      var front, last := nodes[..|nodes| - 1], nodes[|nodes| - 1];
      NoReferenceIssues(front, ids);
      NoDependencyIssues(last, last.dependsOn, ids);
      NoBindingIssues(last, last.inputBindings);
      assert nodes == front + [last];
      ReferenceIssuesEmpty(nodes, ids);
      if forall node | node in nodes :: GoodReferences(node, ids) {
        assert last in nodes;
      } else if forall node | node in front :: GoodReferences(node, ids) {
        assert !GoodReferences(last, ids);
      }
    }
  }

  // What exactly is reported by the first two passes.

  lemma {:induction false} DuplicateIssuesKind(nodes: seq<Node>)
    ensures forall issue | issue in DuplicateIssues(nodes) :: issue.DuplicateNodeId?
  {
    if nodes != [] { DuplicateIssuesKind(nodes[..|nodes| - 1]); }
  }

  lemma {:induction false} DependencyIssuesKind(node: Node, deps: seq<string>, ids: set<string>)
    ensures forall issue | issue in DependencyIssues(node, deps, ids) :: issue.BadDependency?
  {
    if deps != [] { DependencyIssuesKind(node, deps[..|deps| - 1], ids); }
  }

  lemma {:induction false} BindingIssuesKind(node: Node, bindings: seq<Binding>)
    ensures forall issue | issue in BindingIssues(node, bindings) :: issue.BindingNotDirect? || issue.DuplicateBinding?
  {
    if bindings != [] { BindingIssuesKind(node, bindings[..|bindings| - 1]); }
  }

  lemma {:induction false} DependencyIssuesExact(node: Node, deps: seq<string>, ids: set<string>, a: string, d: string)
    ensures BadDependency(a, d) in DependencyIssues(node, deps, ids)
       <==> a == node.id && d in deps && (d == a || d !in ids)
  {
    if deps != [] {
      var front, last := deps[..|deps| - 1], deps[|deps| - 1];
      DependencyIssuesExact(node, front, ids, a, d);
      assert deps == front + [last];
      assert d in deps <==> d in front || d == last;
    }
  }

  ghost predicate HasIndirect(node: Node, bindings: seq<Binding>, name: string) {
    exists b :: b in bindings && b.name == name && b.fromNode !in node.dependsOn
  }

  ghost predicate HasTwice(bindings: seq<Binding>, name: string) {
    exists i, j :: 0 <= i < j < |bindings| && bindings[i].name == name && bindings[j].name == name
  }

  lemma HasIndirectSnoc(node: Node, front: seq<Binding>, last: Binding, name: string)
    ensures HasIndirect(node, front + [last], name) <==>
              HasIndirect(node, front, name) || (last.name == name && last.fromNode !in node.dependsOn)
  {
    assert forall b :: b in front + [last] <==> b in front || b == last;
  }

  lemma HasTwiceSnoc(front: seq<Binding>, last: Binding, name: string)
    ensures HasTwice(front + [last], name) <==>
              HasTwice(front, name) || (last.name == name && name in BindingNames(front))
  {
    var bindings := front + [last];
    if HasTwice(front, name) {
      var i, j :| 0 <= i < j < |front| && front[i].name == name && front[j].name == name;
      assert bindings[i].name == name && bindings[j].name == name;
    }
    if last.name == name && name in BindingNames(front) {
      var i :| 0 <= i < |front| && front[i].name == name;
      assert bindings[i].name == name && bindings[|front|].name == name;
    }
    if HasTwice(bindings, name) {
      var i, j :| 0 <= i < j < |bindings| && bindings[i].name == name && bindings[j].name == name;
      assert front[i].name in BindingNames(front);
      assert j < |front| ==> front[j].name == name;
    }
  }

  lemma {:induction false} BindingIssuesExact(node: Node, bindings: seq<Binding>, a: string, name: string)
    ensures BindingNotDirect(a, name) in BindingIssues(node, bindings)
       <==> a == node.id && HasIndirect(node, bindings, name)
    ensures DuplicateBinding(a, name) in BindingIssues(node, bindings) <==> a == node.id && HasTwice(bindings, name)
  {
    if bindings != [] {
      var front, last := bindings[..|bindings| - 1], bindings[|bindings| - 1];
      BindingIssuesExact(node, front, a, name);
      assert bindings == front + [last];
      HasIndirectSnoc(node, front, last, name);
      HasTwiceSnoc(front, last, name);
    }
  }

  /** Node `k` is why `issue` is reported in the second pass. */
  ghost predicate ReportedFor(nodes: seq<Node>, ids: set<string>, issue: Issue, k: int)
    requires 0 <= k < |nodes|
  {
    || issue in DependencyIssues(nodes[k], nodes[k].dependsOn, ids)
    || issue in BindingIssues(nodes[k], nodes[k].inputBindings)
  }

  ghost predicate ReportedForSome(nodes: seq<Node>, ids: set<string>, issue: Issue) {
    exists k :: 0 <= k < |nodes| && ReportedFor(nodes, ids, issue, k)
  }

  lemma ReportedForSomeSnoc(nodes: seq<Node>, ids: set<string>, issue: Issue)
    requires nodes != []
    ensures ReportedForSome(nodes, ids, issue) <==>
              ReportedForSome(nodes[..|nodes| - 1], ids, issue) || ReportedFor(nodes, ids, issue, |nodes| - 1)
  {
    var front := nodes[..|nodes| - 1];
    forall k | 0 <= k < |front| ensures ReportedFor(front, ids, issue, k) <==> ReportedFor(nodes, ids, issue, k) {
      assert front[k] == nodes[k];
    }
    if k :| 0 <= k < |nodes| && ReportedFor(nodes, ids, issue, k) {
      assert k < |front| ==> ReportedFor(front, ids, issue, k);
    }
  }

  lemma ReferenceIssuesStep(nodes: seq<Node>, ids: set<string>, issue: Issue)
    requires nodes != []
    ensures issue in ReferenceIssues(nodes, ids) <==>
              issue in ReferenceIssues(nodes[..|nodes| - 1], ids) || ReportedFor(nodes, ids, issue, |nodes| - 1)
  {}

  lemma {:induction false} ReferenceIssuesExact(nodes: seq<Node>, ids: set<string>, issue: Issue)
    ensures issue in ReferenceIssues(nodes, ids) <==> ReportedForSome(nodes, ids, issue)
  {
    if nodes != [] {
      ReferenceIssuesExact(nodes[..|nodes| - 1], ids, issue);
      ReferenceIssuesStep(nodes, ids, issue);
      ReportedForSomeSnoc(nodes, ids, issue);
    }
  }

  function NodeIds(nodes: seq<Node>): seq<string> {
    seq(|nodes|, i requires 0 <= i < |nodes| => nodes[i].id)
  }

  /** Every declaration of an id after its first is reported once. */
  lemma {:induction false} DuplicateIssuesCount(nodes: seq<Node>, id: string)
    ensures var n := multiset(NodeIds(nodes))[id];
            multiset(DuplicateIssues(nodes))[DuplicateNodeId(id)] == if n == 0 then 0 else n - 1
  {
    if nodes != [] {
      var front, last := nodes[..|nodes| - 1], nodes[|nodes| - 1];
      DuplicateIssuesCount(front, id);
      assert NodeIds(nodes) == NodeIds(front) + [last.id];
      IdsCounted(front, last.id);
    }
  }

  lemma IdsCounted(nodes: seq<Node>, id: string)
    ensures id in Ids(nodes) <==> multiset(NodeIds(nodes))[id] > 0
  {
    if id in Ids(nodes) {
      var i :| 0 <= i < |nodes| && nodes[i].id == id;
      assert NodeIds(nodes)[i] == id;
    }
    if id in NodeIds(nodes) {
      var i :| 0 <= i < |nodes| && NodeIds(nodes)[i] == id;
    }
    assert id in NodeIds(nodes) <==> id in multiset(NodeIds(nodes));
  }

  // The same in terms of the definition alone.

  /** Some node `a` depends on `d`, which is itself or is declared nowhere. */
  ghost predicate DependsBadly(nodes: seq<Node>, a: string, d: string) {
    exists k :: && 0 <= k < |nodes| && nodes[k].id == a && d in nodes[k].dependsOn
                && (d == a || forall m | 0 <= m < |nodes| :: nodes[m].id != d)
  }

  /** Some node `a` takes the input `name` from a node it does not depend on. */
  ghost predicate BindsIndirectly(nodes: seq<Node>, a: string, name: string) {
    exists k, b :: && 0 <= k < |nodes| && nodes[k].id == a && b in nodes[k].inputBindings
                   && b.name == name && b.fromNode !in nodes[k].dependsOn
  }

  /** Some node `a` binds the input `name` twice. */
  ghost predicate BindsTwice(nodes: seq<Node>, a: string, name: string) {
    exists k, i, j :: && 0 <= k < |nodes| && nodes[k].id == a && 0 <= i < j < |nodes[k].inputBindings|
                      && nodes[k].inputBindings[i].name == name && nodes[k].inputBindings[j].name == name
  }

  /** Which of the issues other than cycles are in the list. */
  ghost predicate ReportsExactly(nodes: seq<Node>, issues: seq<Issue>) {
    && (forall a, d :: BadDependency(a, d) in issues <==> DependsBadly(nodes, a, d))
    && (forall a, name :: BindingNotDirect(a, name) in issues <==> BindsIndirectly(nodes, a, name))
    && (forall a, name :: DuplicateBinding(a, name) in issues <==> BindsTwice(nodes, a, name))
    && (forall id :: multiset(issues)[DuplicateNodeId(id)] ==
                     var n := multiset(NodeIds(nodes))[id]; if n == 0 then 0 else n - 1)
  }

  lemma DependencyReported(nodes: seq<Node>, a: string, d: string)
    ensures BadDependency(a, d) in ReferenceIssues(nodes, Ids(nodes)) <==> DependsBadly(nodes, a, d)
  {
    var issue, ids := BadDependency(a, d), Ids(nodes);
    ReferenceIssuesExact(nodes, ids, issue);
    forall k | 0 <= k < |nodes|
      ensures ReportedFor(nodes, ids, issue, k)
         <==> nodes[k].id == a && d in nodes[k].dependsOn && (d == a || d !in ids)
    {
      DependencyIssuesExact(nodes[k], nodes[k].dependsOn, ids, a, d);
      BindingIssuesKind(nodes[k], nodes[k].inputBindings);
    }
    assert d !in ids <==> forall m | 0 <= m < |nodes| :: nodes[m].id != d;
  }

  lemma BindingReported(nodes: seq<Node>, a: string, name: string)
    ensures BindingNotDirect(a, name) in ReferenceIssues(nodes, Ids(nodes)) <==> BindsIndirectly(nodes, a, name)
    ensures DuplicateBinding(a, name) in ReferenceIssues(nodes, Ids(nodes)) <==> BindsTwice(nodes, a, name)
  {
    var ids := Ids(nodes);
    ReferenceIssuesExact(nodes, ids, BindingNotDirect(a, name));
    ReferenceIssuesExact(nodes, ids, DuplicateBinding(a, name));
    forall k | 0 <= k < |nodes|
      ensures ReportedFor(nodes, ids, BindingNotDirect(a, name), k)
         <==> nodes[k].id == a && HasIndirect(nodes[k], nodes[k].inputBindings, name)
      ensures ReportedFor(nodes, ids, DuplicateBinding(a, name), k)
         <==> nodes[k].id == a && HasTwice(nodes[k].inputBindings, name)
    {
      DependencyIssuesKind(nodes[k], nodes[k].dependsOn, ids);
      BindingIssuesExact(nodes[k], nodes[k].inputBindings, a, name);
    }
  }

  lemma {:induction false} ReferenceIssuesKind(nodes: seq<Node>, ids: set<string>)
    ensures forall issue | issue in ReferenceIssues(nodes, ids) :: !issue.DuplicateNodeId? && !issue.CycleAt?
  {
    forall issue | issue in ReferenceIssues(nodes, ids) ensures !issue.DuplicateNodeId? && !issue.CycleAt? {
      ReferenceIssuesExact(nodes, ids, issue);
      var k :| 0 <= k < |nodes| && ReportedFor(nodes, ids, issue, k);
      DependencyIssuesKind(nodes[k], nodes[k].dependsOn, ids);
      BindingIssuesKind(nodes[k], nodes[k].inputBindings);
    }
  }

  lemma LocalIssuesHaveNoCycle(nodes: seq<Node>, id: string)
    ensures CycleAt(id) !in LocalIssues(nodes)
  {
    DuplicateIssuesKind(nodes);
    ReferenceIssuesKind(nodes, Ids(nodes));
  }

  lemma CountedInFront(a: seq<Issue>, b: seq<Issue>, c: seq<Issue>, issue: Issue)
    requires issue !in b && issue !in c
    ensures multiset(a + b + c)[issue] == multiset(a)[issue]
  {
    assert issue !in multiset(b) && issue !in multiset(c);
    assert multiset(a + b + c) == multiset(a) + multiset(b) + multiset(c);
  }

  lemma DuplicateReported(nodes: seq<Node>, cycleIds: seq<string>, id: string)
    ensures multiset(LocalIssues(nodes) + Cycles(cycleIds))[DuplicateNodeId(id)] ==
            var n := multiset(NodeIds(nodes))[id]; if n == 0 then 0 else n - 1
  {
    DuplicateIssuesCount(nodes, id);
    ReferenceIssuesKind(nodes, Ids(nodes));
    CountedInFront(DuplicateIssues(nodes), ReferenceIssues(nodes, Ids(nodes)), Cycles(cycleIds), DuplicateNodeId(id));
  }

  /** The whole list, cycle issues included, reports what is wrong with the definition locally, and
      nothing else. */
  lemma LocalIssuesExact(nodes: seq<Node>, cycleIds: seq<string>)
    ensures ReportsExactly(nodes, LocalIssues(nodes) + Cycles(cycleIds))
  {
    DuplicateIssuesKind(nodes);
    forall a, d
      ensures BadDependency(a, d) in LocalIssues(nodes) + Cycles(cycleIds) <==> DependsBadly(nodes, a, d)
    {
      DependencyReported(nodes, a, d);
    }
    forall a, name
      ensures BindingNotDirect(a, name) in LocalIssues(nodes) + Cycles(cycleIds) <==> BindsIndirectly(nodes, a, name)
      ensures DuplicateBinding(a, name) in LocalIssues(nodes) + Cycles(cycleIds) <==> BindsTwice(nodes, a, name)
    {
      BindingReported(nodes, a, name);
    }
    forall id
      ensures multiset(LocalIssues(nodes) + Cycles(cycleIds))[DuplicateNodeId(id)] ==
              var n := multiset(NodeIds(nodes))[id]; if n == 0 then 0 else n - 1
    {
      DuplicateReported(nodes, cycleIds, id);
    }
  }

  // --------------------------------------------------------- back edges, in order

  /** For the finishing order `order`, the dependencies that had not finished when their
      dependent did, for the positions from `lo` on. */
  ghost function BackTargets(g: Graph, order: seq<string>, lo: nat): seq<string>
    decreases |order|
  {
    if |order| <= lo then []
    else
      var front := order[..|order| - 1];
      BackTargets(g, front, lo) + Skip(Deps(g, order[|order| - 1]), Elements(front))
  }

  lemma BackTargetsStep(g: Graph, order: seq<string>, lo: nat)
    requires lo < |order|
    ensures var front := order[..|order| - 1];
            BackTargets(g, order, lo) == BackTargets(g, front, lo) + Skip(Deps(g, order[|order| - 1]), Elements(front))
  {}

  lemma {:induction false} BackTargetsSplit(g: Graph, order: seq<string>, lo: nat, mid: nat)
    requires lo <= mid <= |order|
    ensures BackTargets(g, order, lo) == BackTargets(g, order[..mid], lo) + BackTargets(g, order, mid)
    decreases |order|
  {
    if mid == |order| {
      assert order[..mid] == order && BackTargets(g, order, mid) == [];
    } else {
      var front, last := order[..|order| - 1], order[|order| - 1];
      BackTargetsSplit(g, front, lo, mid);
      assert front[..mid] == order[..mid];
      BackTargetsStep(g, order, lo);
      BackTargetsStep(g, order, mid);
      AppendAssociates(BackTargets(g, order[..mid], lo), BackTargets(g, front, mid),
                       Skip(Deps(g, last), Elements(front)));
    }
  }

  lemma {:induction false} BackTargetsComplete(g: Graph, order: seq<string>, i: int, d: string)
    requires 0 <= i < |order| && d in Deps(g, order[i]) && d !in order[..i]
    ensures d in BackTargets(g, order, 0)
    decreases |order|
  {
    var front := order[..|order| - 1];
    if i < |front| {
      assert front[..i] == order[..i];
      BackTargetsComplete(g, front, i, d);
    } else {
      assert front == order[..i];
      SkipIn(Deps(g, order[i]), Elements(front), d);
    }
  }

  /** A finishing order whose back-edge targets are all in `cut` proves that every closed
      walk inside it meets `cut`. */
  lemma {:induction false} ClosedWalkMeetsBackTarget(g: Graph, order: seq<string>, w: seq<string>)
    requires Distinct(order) && Elements(order) == Universe(g) && ClosedWalk(g, w)
    ensures exists k :: 0 <= k < |w| && w[k] in BackTargets(g, order, 0)
  {
    if forall k | 0 <= k < |w| :: w[k] !in BackTargets(g, order, 0) {
      var first :| 0 <= first < |order| && order[first] == w[0] by {
        DepsInUniverse(g, w[|w| - 2], w[|w| - 1]);
        assert w[0] in Elements(order);
      }
      var last := DescendAlong(g, order, w, first, |w| - 1);
    }
  }

  /** Along a walk that meets no back-edge target the finishing position goes strictly down. */
  lemma {:induction false} DescendAlong(g: Graph, order: seq<string>, w: seq<string>, first: int, k: int)
    returns (pos: int)
    requires Distinct(order) && IsWalk(g, w) && 0 <= k < |w|
    requires 0 <= first < |order| && order[first] == w[0]
    requires forall k | 0 <= k < |w| :: w[k] !in BackTargets(g, order, 0)
    ensures 0 <= pos <= first && order[pos] == w[k] && (k > 0 ==> pos < first)
    decreases k
  {
    if k == 0 {
      pos := first;
    } else {
      var before := DescendAlong(g, order, w, first, k - 1);
      assert w[k] in Deps(g, w[k - 1]);
      if w[k] !in order[..before] {
        BackTargetsComplete(g, order, before, w[k]);
      }
      pos :| 0 <= pos < before && order[pos] == w[k];
    }
  }

  function Cycles(ids: seq<string>): seq<Issue> {
    seq(|ids|, i requires 0 <= i < |ids| => CycleAt(ids[i]))
  }

  lemma CyclesSnoc(before: seq<Issue>, ids: seq<string>, id: string)
    ensures before + Cycles(ids + [id]) == before + Cycles(ids) + [CycleAt(id)]
  {
    assert Cycles(ids + [id]) == Cycles(ids) + [CycleAt(id)];
  }

  lemma CyclesIn(ids: seq<string>, id: string)
    ensures CycleAt(id) in Cycles(ids) <==> id in ids
  {
    if id in ids {
      var i :| 0 <= i < |ids| && ids[i] == id;
      assert Cycles(ids)[i] == CycleAt(id);
    }
  }

  // ---------------------------------------------------- the search as a function

  /** The finishing order so far, and the ids named by cycle issues so far. */
  datatype Trace = Trace(order: seq<string>, reported: seq<string>)

  ghost predicate Known(g: Graph, ids: seq<string>) {
    forall id | id in ids :: id in Universe(g)
  }

  lemma DepsKnown(g: Graph, id: string)
    ensures Known(g, Deps(g, id))
  {
    forall d | d in Deps(g, id) ensures d in Universe(g) {
      DepsInUniverse(g, id, d);
    }
  }

  /** The trace after a depth-first visit of `id` while `visiting` is open. */
  ghost function SearchNode(g: Graph, visiting: set<string>, t: Trace, id: string): (r: Trace)
    requires id in Universe(g)
    ensures t.order <= r.order
    decreases Universe(g) - visiting - Elements(t.order), 0, 0
  {
    if id in t.order then t
    else if id in visiting then Trace(t.order, t.reported + [id])
    else
      DepsKnown(g, id);
      assert id in Universe(g) - visiting - Elements(t.order);
      var r := SearchAll(g, visiting + {id}, t, Deps(g, id));
      Trace(r.order + [id], r.reported)
  }

  /** The trace after visits of all of `ids`, from left to right. */
  ghost function SearchAll(g: Graph, visiting: set<string>, t: Trace, ids: seq<string>): (r: Trace)
    requires Known(g, ids)
    ensures t.order <= r.order
    decreases Universe(g) - visiting - Elements(t.order), 1, |ids|
  {
    if ids == [] then t
    else
      var front := SearchAll(g, visiting, t, ids[..|ids| - 1]);
      SearchNode(g, visiting, front, ids[|ids| - 1])
  }

  lemma SearchAllSnoc(g: Graph, visiting: set<string>, t: Trace, ids: seq<string>, k: nat)
    requires k < |ids| && Known(g, ids)
    ensures Known(g, ids[..k]) && Known(g, ids[..k + 1])
    ensures SearchAll(g, visiting, t, ids[..k + 1])
            == SearchNode(g, visiting, SearchAll(g, visiting, t, ids[..k]), ids[k])
  {
    assert ids[..k + 1][..k] == ids[..k];
  }

  /** The trace after one visit for each of the first `k` declared nodes. */
  ghost function SearchFirst(nodes: seq<Node>, k: nat): Trace
    requires k <= |nodes|
  {
    if k == 0 then Trace([], [])
    else
      NodeKnown(nodes, k - 1);
      SearchNode(ById(nodes), {}, SearchFirst(nodes, k - 1), nodes[k - 1].id)
  }

  /** The whole search. */
  ghost function Search(nodes: seq<Node>): Trace {
    SearchFirst(nodes, |nodes|)
  }

  lemma NodeKnown(nodes: seq<Node>, i: nat)
    requires i < |nodes|
    ensures nodes[i].id in Universe(ById(nodes))
  {
    ByIdKeys(nodes);
    assert nodes[i].id in Ids(nodes);
  }

  // ------------------------------------------------- what every visit keeps

  /** What holds between any two steps of the search, with the call stack `path`, outermost first:
      the stack is a walk, no id is both open and finished, and each reported id is on a cycle. */
  ghost predicate SearchState(g: Graph, path: seq<string>, t: Trace) {
    && Distinct(path) && IsWalk(g, path)
    && Distinct(t.order)
    && Elements(path) !! Elements(t.order)
    && Elements(path) + Elements(t.order) <= Universe(g)
    && (forall id | id in t.reported :: OnCycle(g, id))
  }

  lemma SearchOpens(g: Graph, path: seq<string>, t: Trace, id: string)
    requires SearchState(g, path, t)
    requires id in Universe(g) && id !in path && id !in t.order
    requires path != [] ==> id in Deps(g, path[|path| - 1])
    ensures SearchState(g, path + [id], t) && Elements(path + [id]) == Elements(path) + {id}
  {
    assert Elements(path + [id]) == Elements(path) + {id};
  }

  lemma SearchReports(g: Graph, path: seq<string>, t: Trace, id: string)
    requires SearchState(g, path, t)
    requires id in path && id in Deps(g, path[|path| - 1])
    ensures SearchState(g, path, Trace(t.order, t.reported + [id]))
  {
    OpenNodeOnCycle(g, path, id);
  }

  lemma SearchFinishes(g: Graph, path: seq<string>, id: string, t: Trace)
    requires SearchState(g, path + [id], t)
    ensures SearchState(g, path, Trace(t.order + [id], t.reported))
  {
    var longer := path + [id];
    PathWithoutTop(g, path, id);
    assert Elements(longer) == Elements(path) + {id};
    assert Elements(t.order + [id]) == Elements(t.order) + {id};
    assert id !in t.order by { assert id in Elements(longer); }
    assert Distinct(t.order + [id]);
  }

  lemma PathWithoutTop(g: Graph, path: seq<string>, id: string)
    requires Distinct(path + [id]) && IsWalk(g, path + [id])
    ensures Distinct(path) && IsWalk(g, path) && id !in path
  {
    var longer := path + [id];
    forall i, j | 0 <= i && j == i + 1 && j < |path| ensures path[j] in Deps(g, path[i]) {
      assert longer[j] in Deps(g, longer[i]);
    }
    forall i, j | 0 <= i < j < |path| ensures path[i] != path[j] {
      assert longer[i] != longer[j];
    }
    forall i | 0 <= i < |path| ensures path[i] != id {
      assert longer[i] != longer[|path|];
    }
  }

  /** Meeting an id that is still open closes the walk from it to the top of the call stack. */
  lemma OpenNodeOnCycle(g: Graph, path: seq<string>, id: string)
    requires IsWalk(g, path) && id in path && id in Deps(g, path[|path| - 1])
    ensures OnCycle(g, id)
  {
    var i :| 0 <= i < |path| && path[i] == id;
    var w := path[i..] + [id];
    forall a, b | 0 <= a && b == a + 1 && b < |w| ensures w[b] in Deps(g, w[a]) {
      if b < |w| - 1 {
        assert path[i + b] in Deps(g, path[i + a]);
      }
    }
    assert ClosedWalk(g, w);
  }

  /** Each of `deps` is open or finished. */
  ghost predicate Settled(deps: seq<string>, visiting: set<string>, order: seq<string>) {
    forall d | d in deps :: d in visiting || d in order
  }

  /** Between `base` and `now` the search reported each back edge into the stretch of `order`
      from `lo` on, and besides those exactly `open`. */
  ghost predicate Ledger(g: Graph, base: seq<string>, now: seq<string>, order: seq<string>, lo: nat,
                         open: seq<string>) {
    multiset(now) == multiset(base) + multiset(BackTargets(g, order, lo)) + multiset(open)
  }

  /** The report a visit of `id` owes at once: one if `id` is still open. */
  ghost function Owed(id: string, visiting: set<string>): seq<string> {
    if id in visiting then [id] else []
  }

  lemma LedgerStarts(g: Graph, base: seq<string>, order: seq<string>, open: seq<string>)
    ensures Ledger(g, base, base + open, order, |order|, open)
    ensures open == [] ==> Ledger(g, base, base, order, |order|, open)
  {
    assert open == [] ==> base + open == base;
  }

  lemma LedgerJoins(g: Graph, base: seq<string>, mid: seq<string>, now: seq<string>, midOrder: seq<string>,
                    order: seq<string>, lo: nat, open: seq<string>, more: seq<string>)
    requires lo <= |midOrder| && midOrder <= order
    requires Ledger(g, base, mid, midOrder, lo, open) && Ledger(g, mid, now, order, |midOrder|, more)
    ensures Ledger(g, base, now, order, lo, open + more)
  {
    BackTargetsSplit(g, order, lo, |midOrder|);
    assert order[..|midOrder|] == midOrder;
  }

  lemma LedgerCloses(g: Graph, base: seq<string>, now: seq<string>, order: seq<string>, lo: nat,
                     visiting: set<string>, id: string)
    requires lo <= |order| && visiting !! Elements(order)
    requires Settled(Deps(g, id), visiting, order)
    requires Ledger(g, base, now, order, lo, Keep(Deps(g, id), visiting))
    ensures Ledger(g, base, now, order + [id], lo, [])
  {
    KeepIsSkip(Deps(g, id), visiting, Elements(order));
    assert (order + [id])[..|order|] == order;
  }

  /** A visit keeps the state of the search, finishes its node unless it is still open, and
      reports exactly one id for every back edge it meets. */
  lemma {:induction false} VisitKeeps(g: Graph, path: seq<string>, t: Trace, id: string)
    requires SearchState(g, path, t) && id in Universe(g)
    requires path != [] ==> id in Deps(g, path[|path| - 1])
    ensures var r := SearchNode(g, Elements(path), t, id);
            && SearchState(g, path, r)
            && (id in path || id in r.order)
            && Ledger(g, t.reported, r.reported, r.order, |t.order|, Owed(id, Elements(path)))
    decreases Universe(g) - Elements(path) - Elements(t.order), 0, 0
  {
    if id in t.order {
      assert id in Elements(t.order);
      LedgerStarts(g, t.reported, t.order, []);
    } else if id in path {
      SearchReports(g, path, t, id);
      LedgerStarts(g, t.reported, t.order, [id]);
    } else {
      SearchOpens(g, path, t, id);
      DepsKnown(g, id);
      assert id in Universe(g) - Elements(path) - Elements(t.order);
      var deps, r := Deps(g, id), SearchAll(g, Elements(path + [id]), t, Deps(g, id));
      VisitsKeep(g, path + [id], t, deps);
      LedgerCloses(g, t.reported, r.reported, r.order, |t.order|, Elements(path + [id]), id);
      SearchFinishes(g, path, id, r);
    }
  }

  lemma {:induction false} VisitsKeep(g: Graph, path: seq<string>, t: Trace, ids: seq<string>)
    requires SearchState(g, path, t) && Known(g, ids)
    requires path != [] && forall id | id in ids :: id in Deps(g, path[|path| - 1])
    ensures var r := SearchAll(g, Elements(path), t, ids);
            && SearchState(g, path, r)
            && Settled(ids, Elements(path), r.order)
            && Ledger(g, t.reported, r.reported, r.order, |t.order|, Keep(ids, Elements(path)))
    decreases Universe(g) - Elements(path) - Elements(t.order), 1, |ids|
  {
    if ids == [] {
      LedgerStarts(g, t.reported, t.order, []);
    } else {
      var front, last := ids[..|ids| - 1], ids[|ids| - 1];
      assert ids == front + [last] && last in ids && forall id | id in front :: id in ids;
      VisitsKeep(g, path, t, front);
      var mid := SearchAll(g, Elements(path), t, front);
      var r := SearchNode(g, Elements(path), mid, last);
      ElementsGrow(t.order, mid.order);
      VisitKeeps(g, path, mid, last);
      SettledSnoc(front, last, Elements(path), mid.order, r.order);
      LedgerJoins(g, t.reported, mid.reported, r.reported, mid.order, r.order, |t.order|,
                  Keep(front, Elements(path)), Owed(last, Elements(path)));
      assert Keep(front, Elements(path)) + Owed(last, Elements(path)) == Keep(ids, Elements(path));
    }
  }

  lemma ElementsGrow(a: seq<string>, b: seq<string>)
    requires a <= b
    ensures Elements(a) <= Elements(b)
  {
    forall x | x in a ensures x in b {
      var i :| 0 <= i < |a| && a[i] == x;
      assert b[i] == x;
    }
  }

  lemma SettledSnoc(front: seq<string>, last: string, visiting: set<string>, mid: seq<string>, order: seq<string>)
    requires Settled(front, visiting, mid) && mid <= order
    requires last in visiting || last in order
    ensures Settled(front + [last], visiting, order)
  {
    ElementsGrow(mid, order);
    assert forall x :: x in mid ==> x in Elements(mid);
  }

  ghost predicate FirstFinished(nodes: seq<Node>, k: nat, order: seq<string>)
    requires k <= |nodes|
  {
    forall i | 0 <= i < k :: nodes[i].id in order
  }

  lemma FirstFinishedNext(nodes: seq<Node>, k: nat, before: seq<string>, order: seq<string>)
    requires k < |nodes| && FirstFinished(nodes, k, before) && before <= order && nodes[k].id in order
    ensures FirstFinished(nodes, k + 1, order)
  {
    ElementsGrow(before, order);
    forall i | 0 <= i < k + 1 ensures nodes[i].id in order {
      if i < k { assert nodes[i].id in Elements(before); }
    }
  }

  /** The state between two of the outermost visits, after the first `k` of them. */
  ghost predicate BetweenVisits(g: Graph, nodes: seq<Node>, k: nat, t: Trace)
    requires k <= |nodes|
  {
    SearchState(g, [], t) && FirstFinished(nodes, k, t.order) && Ledger(g, [], t.reported, t.order, 0, [])
  }

  /** An outermost visit owes nothing when it returns. */
  lemma OuterVisitKeeps(g: Graph, t: Trace, id: string)
    requires SearchState(g, [], t) && id in Universe(g)
    ensures var r := SearchNode(g, {}, t, id);
            SearchState(g, [], r) && id in r.order && Ledger(g, t.reported, r.reported, r.order, |t.order|, [])
  {
    assert Elements<string>([]) == {};
    VisitKeeps(g, [], t, id);
  }

  lemma NextVisit(g: Graph, nodes: seq<Node>, k: nat, t: Trace)
    requires k < |nodes| && BetweenVisits(g, nodes, k, t) && nodes[k].id in Universe(g)
    ensures BetweenVisits(g, nodes, k + 1, SearchNode(g, {}, t, nodes[k].id))
  {
    var r := SearchNode(g, {}, t, nodes[k].id);
    OuterVisitKeeps(g, t, nodes[k].id);
    FirstFinishedNext(nodes, k, t.order, r.order);
    LedgerJoins(g, [], t.reported, r.reported, t.order, r.order, 0, [], []);
    assert Ledger(g, [], r.reported, r.order, 0, []);
  }

  lemma {:induction false} SearchFirstKeeps(nodes: seq<Node>, k: nat)
    requires k <= |nodes|
    ensures BetweenVisits(ById(nodes), nodes, k, SearchFirst(nodes, k))
  {
    if k == 0 {
      LedgerStarts(ById(nodes), [], [], []);
    } else {
      SearchFirstKeeps(nodes, k - 1);
      NodeKnown(nodes, k - 1);
      NextVisit(ById(nodes), nodes, k - 1, SearchFirst(nodes, k - 1));
    }
  }

  // ------------------------------------------------------------- main results

  /** What a finished search knows: `order` lists every id it could meet exactly once, and
      `reported` is one id per back edge of that order, each lying on a cycle. */
  ghost predicate SearchOutcome(g: Graph, order: seq<string>, reported: seq<string>) {
    && Distinct(order) && Elements(order) == Universe(g)
    && multiset(reported) == multiset(BackTargets(g, order, 0))
    && (forall id | id in reported :: OnCycle(g, id))
  }

  lemma SearchEnds(nodes: seq<Node>)
    ensures SearchOutcome(ById(nodes), Search(nodes).order, Search(nodes).reported)
  {
    var g, order, reported := ById(nodes), Search(nodes).order, Search(nodes).reported;
    SearchFirstKeeps(nodes, |nodes|);
    assert Elements<string>([]) == {};
    assert multiset(reported) == multiset(BackTargets(g, order, 0));
    forall id | id in g.Keys ensures id in order {
      ByIdKeys(nodes);
      var i :| 0 <= i < |nodes| && nodes[i].id == id;
      assert nodes[i].id in order;
    }
    AllFinished(g, order, reported);
  }

  /** Once all declared nodes have finished, so has everything they depend on. */
  lemma AllFinished(g: Graph, order: seq<string>, reported: seq<string>)
    requires multiset(reported) == multiset(BackTargets(g, order, 0))
    requires (forall id | id in g.Keys :: id in order) && forall id | id in reported :: OnCycle(g, id)
    ensures Universe(g) <= Elements(order)
  {
    forall d | d in Universe(g) ensures d in order {
      if d !in g.Keys {
        var id :| id in g.Keys && d in g[id].dependsOn;
        var i :| 0 <= i < |order| && order[i] == id;
        if d !in order[..i] {
          BackTargetsComplete(g, order, i, d);
          assert d in multiset(reported);
          OnlyDeclaredOnCycle(g, d);
        }
      }
    }
  }

  lemma OnlyDeclaredOnCycle(g: Graph, id: string)
    requires OnCycle(g, id)
    ensures id in g.Keys
  {
    var w :| ClosedWalk(g, w) && w[0] == id;
    assert w[1] in Deps(g, w[0]);
  }

  /** Every cycle, not just one, runs through a reported id: deleting the reported ids leaves
      an acyclic graph. */
  lemma EveryCycleIsReported(g: Graph, order: seq<string>, reported: seq<string>, w: seq<string>)
    requires SearchOutcome(g, order, reported) && ClosedWalk(g, w)
    ensures exists k :: 0 <= k < |w| && w[k] in reported
  {
    ClosedWalkMeetsBackTarget(g, order, w);
    var k :| 0 <= k < |w| && w[k] in BackTargets(g, order, 0);
    assert w[k] in multiset(reported);
    assert w[k] in reported;
  }

  lemma ReportedIffCyclic(g: Graph, order: seq<string>, reported: seq<string>)
    requires SearchOutcome(g, order, reported)
    ensures reported == [] <==> Acyclic(g)
  {
    if reported == [] {
      forall w ensures !ClosedWalk(g, w) {
        if ClosedWalk(g, w) {
          EveryCycleIsReported(g, order, reported, w);
        }
      }
    } else {
      assert OnCycle(g, reported[0]);
    }
  }

  /** On an acyclic graph the finishing order runs every node after its dependencies. */
  lemma FinishingOrderIsExecutionOrder(nodes: seq<Node>, order: seq<string>)
    requires WellFormed(nodes) && SearchOutcome(ById(nodes), order, [])
    ensures ExecutionOrder(nodes, order)
  {
    var g := ById(nodes);
    ByIdKeys(nodes);
    assert Universe(g) == Ids(nodes) by {
      forall id, d | id in g.Keys && d in g[id].dependsOn ensures d in Ids(nodes) {
        assert GoodReferences(g[id], Ids(nodes));
      }
    }
    var back := BackTargets(g, order, 0);
    assert |back| == |multiset(back)| == 0;
    forall node, d, i | node in nodes && d in node.dependsOn && 0 <= i < |order| && order[i] == node.id
      ensures d in order[..i]
    {
      var k :| 0 <= k < |nodes| && nodes[k] == node;
      ByIdOfDistinct(nodes, k);
      if d !in order[..i] {
        BackTargetsComplete(g, order, i, d);
      }
    }
    forall node, b, i | node in nodes && b in node.inputBindings && 0 <= i < |order| && order[i] == node.id
      ensures b.fromNode in order[..i]
    {
      assert GoodReferences(node, Ids(nodes));
    }
  }

  /** The refinement accepts exactly the well-formed definitions. */
  lemma AcceptsExactlyWellFormed(nodes: seq<Node>, order: seq<string>, reported: seq<string>)
    requires SearchOutcome(ById(nodes), order, reported)
    ensures LocalIssues(nodes) + Cycles(reported) == [] <==> WellFormed(nodes)
  {
    NoDuplicateIssues(nodes);
    NoReferenceIssues(nodes, Ids(nodes));
    ReportedIffCyclic(ById(nodes), order, reported);
    assert |LocalIssues(nodes) + Cycles(reported)| == |LocalIssues(nodes)| + |reported|;
  }

  // ----------------------------------------------------------- left to right

  lemma FreshVisit(g: Graph, visiting: set<string>, t: Trace, id: string)
    requires id in Universe(g) && id !in t.order && id !in visiting
    ensures Known(g, Deps(g, id))
    ensures var r := SearchAll(g, visiting + {id}, t, Deps(g, id));
            SearchNode(g, visiting, t, id) == Trace(r.order + [id], r.reported)
  {
    DepsKnown(g, id);
  }

  lemma {:induction false} EarlierFinished(g: Graph, visiting: set<string>, t: Trace, ids: seq<string>, k: nat)
    requires k <= |ids| && Known(g, ids)
    ensures Known(g, ids[..k])
    ensures SearchAll(g, visiting, t, ids[..k]).order <= SearchAll(g, visiting, t, ids).order
    decreases |ids| - k
  {
    if k < |ids| {
      SearchAllSnoc(g, visiting, t, ids, k);
      EarlierFinished(g, visiting, t, ids, k + 1);
    } else {
      assert ids[..k] == ids;
    }
  }

  /** Dependencies are visited from left to right, and all before their dependent: what a visit of the
      first `k` of them finishes comes first in the finishing order, and the dependent comes last. */
  lemma DepthFirstLeftToRight(g: Graph, visiting: set<string>, t: Trace, id: string, k: nat)
    requires id in Universe(g) && id !in t.order && id !in visiting && k <= |Deps(g, id)|
    ensures Known(g, Deps(g, id)[..k])
    ensures var r := SearchNode(g, visiting, t, id);
            && SearchAll(g, visiting + {id}, t, Deps(g, id)[..k]).order <= r.order[..|r.order| - 1]
            && r.order[|r.order| - 1] == id
  {
    FreshVisit(g, visiting, t, id);
    EarlierFinished(g, visiting + {id}, t, Deps(g, id), k);
    var r := SearchNode(g, visiting, t, id);
    assert r.order[..|r.order| - 1] == SearchAll(g, visiting + {id}, t, Deps(g, id)).order;
  }

  /** Nodes are started in the order of their declaration. */
  lemma {:induction false} DeclaredOrder(nodes: seq<Node>, k: nat, n: nat)
    requires k <= n <= |nodes|
    ensures SearchFirst(nodes, k).order <= SearchFirst(nodes, n).order
  {
    if k < n { DeclaredOrder(nodes, k, n - 1); }
  }

  // ------------------------------------------------------------- the refinement

  /** `WorkflowDefinitionSchema`'s cross-node refinement. */
  class DefinitionCheck {
    const nodes: seq<Node>
    const byId: Graph
    var issues: seq<Issue>
    var visiting: set<string>
    var visited: set<string>

    /** The ids in the order in which they entered `visited`, and those named by cycle issues. */
    ghost var trace: Trace
    /** What was reported before the cycle search began. */
    ghost var before: seq<Issue>

    ghost predicate Valid()
      reads this
    {
      visited == Elements(trace.order) && issues == before + Cycles(trace.reported)
    }

    constructor (nodes: seq<Node>)
      ensures this.nodes == nodes && byId == ById(nodes)
      ensures issues == [] && visiting == {} && before == [] && trace == Trace([], []) && Valid()
    {
      this.nodes := nodes;
      byId := ById(nodes);
      issues, visiting, visited := [], {}, {};
      before, trace := [], Trace([], []);
    }

    method CheckIds() returns (ids: set<string>)
      modifies this`issues
      ensures ids == Ids(nodes)
      ensures issues == old(issues) + DuplicateIssues(nodes)
    {
      ids := {};
      for i := 0 to |nodes|
        invariant ids == Ids(nodes[..i])
        invariant issues == old(issues) + DuplicateIssues(nodes[..i])
      {
        assert nodes[..i + 1][..i] == nodes[..i];
        if nodes[i].id in ids {
          issues := issues + [DuplicateNodeId(nodes[i].id)];
        }
        assert Ids(nodes[..i + 1]) == Ids(nodes[..i]) + {nodes[i].id} by { IdsSnoc(nodes, i); }
        ids := ids + {nodes[i].id};
      }
      assert nodes[..|nodes|] == nodes;
    }

    method CheckReferences(ids: set<string>)
      modifies this`issues
      ensures issues == old(issues) + ReferenceIssues(nodes, ids)
    {
      for i := 0 to |nodes|
        invariant issues == old(issues) + ReferenceIssues(nodes[..i], ids)
      {
        ReferenceIssuesSnoc(old(issues), nodes, ids, i);
        var node := nodes[i];
        CheckDependencies(node, ids);
        CheckBindings(node);
      }
      assert nodes[..|nodes|] == nodes;
    }

    method CheckDependencies(node: Node, ids: set<string>)
      modifies this`issues
      ensures issues == old(issues) + DependencyIssues(node, node.dependsOn, ids)
    {
      for k := 0 to |node.dependsOn|
        invariant issues == old(issues) + DependencyIssues(node, node.dependsOn[..k], ids)
      {
        var dependency := node.dependsOn[k];
        assert node.dependsOn[..k + 1][..k] == node.dependsOn[..k];
        if dependency == node.id || dependency !in ids {
          issues := issues + [BadDependency(node.id, dependency)];
        }
      }
      assert node.dependsOn[..|node.dependsOn|] == node.dependsOn;
    }

    method CheckBindings(node: Node)
      modifies this`issues
      ensures issues == old(issues) + BindingIssues(node, node.inputBindings)
    {
      var bindingNames := {};
      for k := 0 to |node.inputBindings|
        invariant bindingNames == BindingNames(node.inputBindings[..k])
        invariant issues == old(issues) + BindingIssues(node, node.inputBindings[..k])
      {
        var binding := node.inputBindings[k];
        BindingIssuesSnoc(old(issues), node, k);
        if binding.fromNode !in node.dependsOn {
          issues := issues + [BindingNotDirect(node.id, binding.name)];
        }
        if binding.name in bindingNames {
          issues := issues + [DuplicateBinding(node.id, binding.name)];
        }
        BindingNamesSnoc(node.inputBindings, k);
        bindingNames := bindingNames + {binding.name};
      }
      assert node.inputBindings[..|node.inputBindings|] == node.inputBindings;
    }

    /** One call of the recursive search: it terminates on every graph, leaves `visiting` as it
        found it, and extends the trace as the function does. */
    method Visit(nodeId: string)
      requires Valid() && nodeId in Universe(byId)
      modifies this
      ensures Valid() && visiting == old(visiting) && before == old(before)
      ensures trace == SearchNode(byId, visiting, old(trace), nodeId)
      decreases Universe(byId) - visiting - visited, 0
    {
      if nodeId in visited {
        return;
      }
      if nodeId in visiting {
        CyclesSnoc(before, trace.reported, nodeId);
        issues := issues + [CycleAt(nodeId)];
        trace := Trace(trace.order, trace.reported + [nodeId]);
        return;
      }
      assert nodeId in Universe(byId) - visiting - visited;
      visiting := visiting + {nodeId};
      VisitDependencies(nodeId);
      visiting := visiting - {nodeId};
      assert visiting == old(visiting);
      visited := visited + {nodeId};
      trace := Trace(trace.order + [nodeId], trace.reported);
    }

    /** The loop over the dependencies of a node. */
    method VisitDependencies(nodeId: string)
      requires Valid()
      modifies this
      ensures Valid() && visiting == old(visiting) && before == old(before)
      ensures Known(byId, Deps(byId, nodeId))
      ensures trace == SearchAll(byId, visiting, old(trace), Deps(byId, nodeId))
      decreases Universe(byId) - visiting - visited, 1
    {
      var dependencies := Deps(byId, nodeId);
      DepsKnown(byId, nodeId);
      for k := 0 to |dependencies|
        invariant Valid() && visiting == old(visiting) && before == old(before)
        invariant old(visited) <= visited
        invariant Known(byId, dependencies[..k]) && trace == SearchAll(byId, visiting, old(trace), dependencies[..k])
      {
        ghost var mid := trace;
        SearchAllSnoc(byId, visiting, old(trace), dependencies, k);
        Visit(dependencies[k]);
        ElementsGrow(mid.order, trace.order);
      }
      assert dependencies[..|dependencies|] == dependencies;
    }

    /** The loop that starts a visit at every declared node. */
    method VisitAll()
      requires Valid() && byId == ById(nodes) && visiting == {} && trace == Trace([], [])
      modifies this
      ensures Valid() && before == old(before) && trace == Search(nodes)
    {
      for i := 0 to |nodes|
        invariant Valid() && visiting == {} && before == old(before)
        invariant trace == SearchFirst(nodes, i)
      {
        NodeKnown(nodes, i);
        Visit(nodes[i].id);
      }
    }

    /** The whole refinement, on a fresh check. */
    method Refine()
      requires byId == ById(nodes) && issues == [] && visiting == {} && before == [] && trace == Trace([], [])
              && Valid()
      modifies this
      ensures issues == LocalIssues(nodes) + Cycles(Search(nodes).reported)
    {
      var ids := CheckIds();
      CheckReferences(ids);
      before := issues;
      VisitAll();
    }
  }

  lemma ReferenceIssuesSnoc(base: seq<Issue>, nodes: seq<Node>, ids: set<string>, i: nat)
    requires i < |nodes|
    ensures base + ReferenceIssues(nodes[..i + 1], ids) ==
            base + ReferenceIssues(nodes[..i], ids) + DependencyIssues(nodes[i], nodes[i].dependsOn, ids)
            + BindingIssues(nodes[i], nodes[i].inputBindings)
  {
    assert nodes[..i + 1][..i] == nodes[..i];
    var a, b, c := ReferenceIssues(nodes[..i], ids), DependencyIssues(nodes[i], nodes[i].dependsOn, ids),
                   BindingIssues(nodes[i], nodes[i].inputBindings);
    assert ReferenceIssues(nodes[..i + 1], ids) == a + b + c;
    AppendAssociates(base, a + b, c);
    AppendAssociates(base, a, b);
  }

  lemma BindingIssuesSnoc(base: seq<Issue>, node: Node, k: nat)
    requires k < |node.inputBindings|
    ensures var binding, front := node.inputBindings[k], node.inputBindings[..k];
            base + BindingIssues(node, node.inputBindings[..k + 1]) ==
            base + BindingIssues(node, front)
            + (if binding.fromNode !in node.dependsOn then [BindingNotDirect(node.id, binding.name)] else [])
            + (if binding.name in BindingNames(front) then [DuplicateBinding(node.id, binding.name)] else [])
  {
    var binding, front := node.inputBindings[k], node.inputBindings[..k];
    assert node.inputBindings[..k + 1][..k] == front;
    var a := if binding.fromNode !in node.dependsOn then [BindingNotDirect(node.id, binding.name)] else [];
    var b := if binding.name in BindingNames(front) then [DuplicateBinding(node.id, binding.name)] else [];
    AppendAssociates(base, BindingIssues(node, front) + a, b);
    AppendAssociates(base, BindingIssues(node, front), a);
  }

  lemma IdsSnoc(nodes: seq<Node>, i: nat)
    requires i < |nodes|
    ensures Ids(nodes[..i + 1]) == Ids(nodes[..i]) + {nodes[i].id}
  {
    forall id | id in Ids(nodes[..i]) + {nodes[i].id} ensures id in Ids(nodes[..i + 1]) {
      if id == nodes[i].id {
        assert nodes[..i + 1][i].id == id;
      } else {
        var k :| 0 <= k < i && nodes[..i][k].id == id;
        assert nodes[..i + 1][k].id == id;
      }
    }
    forall id | id in Ids(nodes[..i + 1]) ensures id in Ids(nodes[..i]) + {nodes[i].id} {
      var k :| 0 <= k < i + 1 && nodes[..i + 1][k].id == id;
      if k < i { assert nodes[..i][k].id == id; }
    }
  }

  lemma BindingNamesSnoc(bindings: seq<Binding>, i: nat)
    requires i < |bindings|
    ensures BindingNames(bindings[..i + 1]) == BindingNames(bindings[..i]) + {bindings[i].name}
  {
    forall name | name in BindingNames(bindings[..i]) + {bindings[i].name}
      ensures name in BindingNames(bindings[..i + 1])
    {
      if name == bindings[i].name {
        assert bindings[..i + 1][i].name == name;
      } else {
        var k :| 0 <= k < i && bindings[..i][k].name == name;
        assert bindings[..i + 1][k].name == name;
      }
    }
    forall name | name in BindingNames(bindings[..i + 1])
      ensures name in BindingNames(bindings[..i]) + {bindings[i].name}
    {
      var k :| 0 <= k < i + 1 && bindings[..i + 1][k].name == name;
      if k < i { assert bindings[..i][k].name == name; }
    }
  }

  /** The refinement of a definition. Its cycle issues name only ids on a cycle, every cycle runs
      through one of them, and a definition without issues can be run in the finishing order. */
  method Validate(nodes: seq<Node>) returns (issues: seq<Issue>)
    ensures issues == LocalIssues(nodes) + Cycles(Search(nodes).reported)
    ensures ReportsExactly(nodes, issues)
    ensures forall id :: CycleAt(id) in issues ==> OnCycle(ById(nodes), id)
    ensures forall w | ClosedWalk(ById(nodes), w) :: exists k :: 0 <= k < |w| && CycleAt(w[k]) in issues
    ensures (exists id :: CycleAt(id) in issues) <==> !Acyclic(ById(nodes))
    ensures issues == [] <==> WellFormed(nodes)
    ensures issues == [] ==> ExecutionOrder(nodes, Search(nodes).order)
  {
    var check := new DefinitionCheck(nodes);
    check.Refine();
    issues := check.issues;
    IssuesMeaning(nodes, issues);
  }

  lemma IssuesMeaning(nodes: seq<Node>, issues: seq<Issue>)
    requires issues == LocalIssues(nodes) + Cycles(Search(nodes).reported)
    ensures ReportsExactly(nodes, issues)
    ensures forall id :: CycleAt(id) in issues ==> OnCycle(ById(nodes), id)
    ensures forall w | ClosedWalk(ById(nodes), w) :: exists k :: 0 <= k < |w| && CycleAt(w[k]) in issues
    ensures (exists id :: CycleAt(id) in issues) <==> !Acyclic(ById(nodes))
    ensures issues == [] <==> WellFormed(nodes)
    ensures issues == [] ==> ExecutionOrder(nodes, Search(nodes).order)
  {
    var order, cycleIds := Search(nodes).order, Search(nodes).reported;
    SearchEnds(nodes);
    LocalIssuesExact(nodes, cycleIds);
    forall id ensures CycleAt(id) in issues <==> id in cycleIds {
      LocalIssuesHaveNoCycle(nodes, id);
      CyclesIn(cycleIds, id);
    }
    forall w | ClosedWalk(ById(nodes), w) ensures exists k :: 0 <= k < |w| && CycleAt(w[k]) in issues {
      EveryCycleIsReported(ById(nodes), order, cycleIds, w);
      var k :| 0 <= k < |w| && w[k] in cycleIds;
      assert CycleAt(w[k]) in issues;
    }
    AcceptsExactlyWellFormed(nodes, order, cycleIds);
    if issues == [] {
      FinishingOrderIsExecutionOrder(nodes, order);
    }
    ReportedIffCyclic(ById(nodes), order, cycleIds);
    if cycleIds != [] {
      assert CycleAt(cycleIds[0]) in issues;
    }
  }
}
