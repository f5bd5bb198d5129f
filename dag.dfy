/**
 * The graph model shared by the dependency-resolution engine.
 *
 * A graph has string-named nodes; each node carries a payload that holds a task, a data node
 * (an artifact such as a file) or both, and edges are ordered pairs of names. The node names are
 * also kept in insertion order, the order in which the engine visits them.
 *
 * The module also defines the three graph helpers the engine relies on but which are not part of
 * this model's source: the topological order of the tasks, a node with its direct neighbours, and
 * a task with its descending tasks. Each is given a ghost definition, which is the assumption the
 * engine makes about it, and an executable method proved against that definition.
 */
module Dag {
  import opened Wrappers

  /** An opaque, equality-comparable state value (a hash or a modification time). */
  type Fingerprint = string

  /** An artifact a task consumes or produces; `state` is None when the artifact does not exist. */
  datatype DataNode = DataNode(name: string, state: Option<Fingerprint>)

  /** A marker attached to a task. */
  datatype Mark = Mark(name: string)

  /** The marker that tells the execution layer to skip a task. */
  const SkipUnchanged: Mark := Mark("skip_unchanged")

  /** A declared task. Only its list of markers changes after creation. */
  class Task {
    const name: string
    const dependsOn: seq<DataNode>
    const produces: seq<DataNode>
    /** The task's own state; None when it cannot be determined. */
    const state: Option<Fingerprint>
    var markers: seq<Mark>

    constructor (name: string, dependsOn: seq<DataNode>, produces: seq<DataNode>,
                 state: Option<Fingerprint>, markers: seq<Mark>)
      ensures this.name == name && this.dependsOn == dependsOn && this.produces == produces
      ensures this.state == state && this.markers == markers
    {
      this.name := name;
      this.dependsOn := dependsOn;
      this.produces := produces;
      this.state := state;
      this.markers := markers;
    }
  }

  /** The attributes of a graph node: the task stored under it and the data node stored under it. */
  datatype Payload = Payload(task: Option<Task>, data: Option<DataNode>)

  type Edge = (string, string)

  /** A directed graph: node names in insertion order, their payloads, and the edge set. */
  datatype Graph = Graph(names: seq<string>, nodes: map<string, Payload>, edges: set<Edge>)

  predicate Distinct<T(==)>(s: seq<T>) {
    forall i, j :: 0 <= i < j < |s| ==> s[i] != s[j]
  }

  /**
   * The well-formedness of a graph built from task declarations: the name list enumerates the
   * nodes once each, edges join existing nodes, every node has a payload, and a payload is stored
   * under its own name.
   */
  ghost predicate Valid(g: Graph) {
    && Distinct(g.names)
    && (forall n :: n in g.names <==> n in g.nodes)
    && (forall e :: e in g.edges ==> e.0 in g.nodes && e.1 in g.nodes)
    && (forall n :: n in g.nodes ==> g.nodes[n].task.Some? || g.nodes[n].data.Some?)
    && (forall n :: n in g.nodes && g.nodes[n].task.Some? ==> g.nodes[n].task.value.name == n)
    && (forall n :: n in g.nodes && g.nodes[n].data.Some? ==> g.nodes[n].data.value.name == n)
  }

  predicate IsTask(g: Graph, n: string) {
    n in g.nodes && g.nodes[n].task.Some?
  }

  /** The task objects stored in the graph. */
  ghost function TaskObjects(g: Graph): set<Task> {
    set n | n in g.nodes.Keys && g.nodes[n].task.Some? :: g.nodes[n].task.value
  }

  function Predecessors(g: Graph, n: string): (r: set<string>)
    ensures forall m :: m in r <==> (m, n) in g.edges
  {
    set e | e in g.edges && e.1 == n :: e.0
  }

  function Successors(g: Graph, n: string): (r: set<string>)
    ensures forall m :: m in r <==> (n, m) in g.edges
  {
    set e | e in g.edges && e.0 == n :: e.1
  }

  // ---------------------------------------------------------------------------------------------
  // Graph mutation, as the graph library provides it

  /** Attribute update: a given attribute overwrites the stored one, a missing one keeps it. */
  function Merge(old_: Payload, attrs: Payload): (p: Payload)
    ensures p.task == (if attrs.task.Some? then attrs.task else old_.task)
    ensures p.data == (if attrs.data.Some? then attrs.data else old_.data)
  {
    Payload(if attrs.task.Some? then attrs.task else old_.task,
            if attrs.data.Some? then attrs.data else old_.data)
  }

  /** Add a node with attributes; an existing node keeps its place and has its attributes updated. */
  function AddNode(g: Graph, n: string, attrs: Payload): (r: Graph)
    ensures r.nodes.Keys == g.nodes.Keys + {n} && r.edges == g.edges
    ensures r.nodes[n] == if n in g.nodes then Merge(g.nodes[n], attrs) else attrs
    ensures forall m :: m in g.nodes && m != n ==> r.nodes[m] == g.nodes[m]
    ensures r.names == if n in g.nodes then g.names else g.names + [n]
  {
    if n in g.nodes then g.(nodes := g.nodes[n := Merge(g.nodes[n], attrs)])
    else Graph(g.names + [n], g.nodes[n := attrs], g.edges)
  }

  /** Add an edge; missing endpoints are added as nodes without attributes. */
  function AddEdge(g: Graph, u: string, v: string): (r: Graph)
    ensures r.edges == g.edges + {(u, v)}
    ensures u in g.nodes && v in g.nodes ==> r == g.(edges := g.edges + {(u, v)})
  {
    var g1 := AddNode(AddNode(g, u, Payload(None, None)), v, Payload(None, None));
    g1.(edges := g1.edges + {(u, v)})
  }

  /** Adding a node with a payload stored under its own name keeps the graph well formed. */
  lemma AddNodeKeepsValid(g: Graph, n: string, attrs: Payload)
    requires Valid(g)
    requires attrs.task.Some? || attrs.data.Some?
    requires attrs.task.Some? ==> attrs.task.value.name == n
    requires attrs.data.Some? ==> attrs.data.value.name == n
    ensures Valid(AddNode(g, n, attrs))
  {
    var r := AddNode(g, n, attrs);
    if n !in g.nodes {
      assert Distinct(r.names) by {
        forall i, j | 0 <= i < j < |r.names|
          ensures r.names[i] != r.names[j]
        {
          if j == |g.names| {
            assert r.names[i] == g.names[i];
          }
        }
      }
    }
  }

  // ---------------------------------------------------------------------------------------------
  // Paths, reachability and cycles

  /** A path of at least one edge, as the sequence of the names it visits. */
  ghost predicate IsPath(g: Graph, p: seq<string>) {
    |p| >= 2 && forall i :: 0 <= i < |p| - 1 ==> (p[i], p[i + 1]) in g.edges
  }

  /** `v` can be reached from `u` by following at least one edge forward. */
  ghost predicate Reachable(g: Graph, u: string, v: string) {
    exists p :: IsPath(g, p) && p[0] == u && p[|p| - 1] == v
  }

  /** A closed walk given as its list of (from, to) edges, each ending where the next begins. */
  ghost predicate IsCycle(g: Graph, c: seq<Edge>) {
    && |c| >= 1
    && (forall i :: 0 <= i < |c| ==> c[i] in g.edges)
    && (forall i :: 0 <= i < |c| - 1 ==> c[i].1 == c[i + 1].0)
    && c[|c| - 1].1 == c[0].0
  }

  ghost predicate HasCycle(g: Graph) {
    exists c :: IsCycle(g, c)
  }

  lemma EdgeIsReachable(g: Graph, u: string, v: string)
    requires (u, v) in g.edges
    ensures Reachable(g, u, v)
  {
    assert IsPath(g, [u, v]);
  }

  lemma ReachableThenEdge(g: Graph, u: string, v: string, w: string)
    requires Reachable(g, u, v) && (v, w) in g.edges
    ensures Reachable(g, u, w)
  {
    var p :| IsPath(g, p) && p[0] == u && p[|p| - 1] == v;
    assert IsPath(g, p + [w]);
  }

  lemma ReachableTransitive(g: Graph, u: string, v: string, w: string)
    requires Reachable(g, u, v) && Reachable(g, v, w)
    ensures Reachable(g, u, w)
  {
    var p :| IsPath(g, p) && p[0] == u && p[|p| - 1] == v;
    var q :| IsPath(g, q) && q[0] == v && q[|q| - 1] == w;
    var r := p + q[1..];
    forall i | 0 <= i < |r| - 1
      ensures (r[i], r[i + 1]) in g.edges
    {
      if i < |p| - 1 {
        assert r[i] == p[i] && r[i + 1] == p[i + 1];
      } else {
        assert r[i] == q[i - |p| + 1] && r[i + 1] == q[i - |p| + 2];
      }
    }
    assert IsPath(g, r);
  }

  /** Every node on a path that starts in a set closed under successors lies in that set. */
  lemma {:induction false} PathStaysIn(g: Graph, s: set<string>, p: seq<string>, i: nat)
    requires IsPath(g, p) && p[0] in s && i < |p|
    requires forall x, y :: x in s && (x, y) in g.edges ==> y in s
    ensures p[i] in s
    decreases i
  {
    if i > 0 {
      PathStaysIn(g, s, p, i - 1);
      assert (p[i - 1], p[i]) in g.edges;
    }
  }

  lemma ClosedSetHoldsReachable(g: Graph, s: set<string>, u: string, v: string)
    requires u in s && Reachable(g, u, v)
    requires forall x, y :: x in s && (x, y) in g.edges ==> y in s
    ensures v in s
  {
    var p :| IsPath(g, p) && p[0] == u && p[|p| - 1] == v;
    PathStaysIn(g, s, p, |p| - 1);
  }

  /** The nodes of a cycle's edge list form a path from its first node back to itself. */
  lemma CycleIsClosedPath(g: Graph, c: seq<Edge>)
    requires IsCycle(g, c)
    ensures Reachable(g, c[0].0, c[0].0)
  {
    var p := [c[0].0] + seq(|c|, i requires 0 <= i < |c| => c[i].1);
    forall i | 0 <= i < |p| - 1
      ensures (p[i], p[i + 1]) in g.edges
    {
      if i == 0 {
        assert (p[0], p[1]) == c[0];
      } else {
        assert (p[i], p[i + 1]) == (c[i - 1].1, c[i].1) == c[i];
      }
    }
    assert IsPath(g, p);
  }

  // ---------------------------------------------------------------------------------------------
  // Orders

  /** The position of the first occurrence of `x` in `s`. */
  function IndexOf<T(==)>(s: seq<T>, x: T): (i: nat)
    requires x in s
    ensures i < |s| && s[i] == x && x !in s[..i]
  {
    if s[0] == x then 0 else
      assert s[1..][..IndexOf(s[1..], x)] == s[1..IndexOf(s[1..], x) + 1];
      1 + IndexOf(s[1..], x)
  }

  lemma IndexOfDistinct<T>(s: seq<T>, k: nat)
    requires Distinct(s) && k < |s|
    ensures IndexOf(s, s[k]) == k
  {
  }

  lemma IndexOfInPrefix<T>(s: seq<T>, x: T, k: nat)
    requires k <= |s| && x in s[..k]
    ensures IndexOf(s, x) < k
  {
  }

  /** `o` lists every node once and every edge points forward in it. */
  ghost predicate IsTopoOrder(g: Graph, o: seq<string>) {
    && Distinct(o)
    && (forall x :: x in o <==> x in g.nodes)
    && (forall e :: e in g.edges ==> e.0 in o && e.1 in o && IndexOf(o, e.0) < IndexOf(o, e.1))
  }

  lemma {:induction false} PathGoesForward(g: Graph, o: seq<string>, p: seq<string>, i: nat)
    requires IsTopoOrder(g, o) && IsPath(g, p) && 1 <= i < |p|
    ensures p[0] in o && p[i] in o && IndexOf(o, p[0]) < IndexOf(o, p[i])
    decreases i
  {
    assert (p[i - 1], p[i]) in g.edges;
    if i > 1 {
      PathGoesForward(g, o, p, i - 1);
    } else {
      assert (p[0], p[1]) in g.edges;
    }
  }

  lemma ReachableGoesForward(g: Graph, o: seq<string>, u: string, v: string)
    requires IsTopoOrder(g, o) && Reachable(g, u, v)
    ensures u in o && v in o && IndexOf(o, u) < IndexOf(o, v)
  {
    var p :| IsPath(g, p) && p[0] == u && p[|p| - 1] == v;
    PathGoesForward(g, o, p, |p| - 1);
  }

  /** A graph with a topological order has no cycle. */
  lemma TopoOrderMeansAcyclic(g: Graph, o: seq<string>)
    requires IsTopoOrder(g, o)
    ensures !HasCycle(g)
  {
    if HasCycle(g) {
      var c: seq<Edge> :| IsCycle(g, c);
      CycleIsClosedPath(g, c);
      ReachableGoesForward(g, o, c[0].0, c[0].0);
    }
  }

  /**
   * The assumed contract of the task ordering: every task exactly once, and no task listed
   * after another can reach it.
   */
  ghost predicate IsTaskTopoOrder(g: Graph, o: seq<string>) {
    && Distinct(o)
    && (forall x :: x in o <==> IsTask(g, x))
    && (forall a, b :: 0 <= a < b < |o| ==> !Reachable(g, o[b], o[a]))
  }

  // ---------------------------------------------------------------------------------------------
  // Cycle finding and topological sorting

  /** Some node of `rest` is a predecessor of `v`. */
  predicate HasPredecessorIn(g: Graph, rest: set<string>, v: string) {
    exists u :: u in rest && (u, v) in g.edges
  }

  /** The edges between consecutive nodes of `q`. */
  function EdgesAlong(q: seq<string>): (c: seq<Edge>)
    ensures |c| == if |q| == 0 then 0 else |q| - 1
    ensures forall i :: 0 <= i < |c| ==> c[i] == (q[i], q[i + 1])
  {
    if |q| <= 1 then [] else [(q[0], q[1])] + EdgesAlong(q[1..])
  }

  /**
   * A path `p` extended at the front by `u`, where `u` already occurs on `p` at index `j`, closes
   * into a cycle from `u` back to `u`.
   */
  lemma ClosingEdgeMakesCycle(g: Graph, p: seq<string>, u: string, j: nat)
    requires j < |p| && p[j] == u && (u, p[0]) in g.edges
    requires forall i :: 0 <= i < |p| - 1 ==> (p[i], p[i + 1]) in g.edges
    ensures IsCycle(g, EdgesAlong([u] + p[..j + 1]))
  {
    var q := [u] + p[..j + 1];
    var c := EdgesAlong(q);
    assert |q| == j + 2 && q[0] == u && q[j + 1] == u;
    forall i | 0 <= i < |c|
      ensures c[i] in g.edges
    {
      if i > 0 {
        assert c[i] == (p[i - 1], p[i]);
      }
    }
    assert c[|c| - 1].1 == q[j + 1];
    assert c[0].0 == u;
    forall i | 0 <= i < |c| - 1
      ensures c[i].1 == c[i + 1].0
    {
      assert c[i] == (q[i], q[i + 1]) && c[i + 1] == (q[i + 1], q[i + 2]);
    }
  }

  /**
   * Given a non-empty set of nodes in which every node has a predecessor inside the set, walk
   * backwards from one of them until a node repeats, and return the cycle found.
   */
  method FindCycle(g: Graph, rest: set<string>) returns (c: seq<Edge>)
    requires rest != {}
    requires forall v :: v in rest ==> HasPredecessorIn(g, rest, v)
    ensures IsCycle(g, c)
  {
    var v0 :| v0 in rest;
    var p := [v0];
    ghost var onPath := {v0};
    var found := false;
    c := [];
    while !found
      invariant |p| >= 1 && Distinct(p)
      invariant forall x :: x in p <==> x in onPath
      invariant onPath <= rest
      invariant forall i :: 0 <= i < |p| - 1 ==> (p[i], p[i + 1]) in g.edges
      invariant found ==> IsCycle(g, c)
      decreases rest - onPath, if found then 0 else 1
    {
      assert HasPredecessorIn(g, rest, p[0]);
      var u :| u in rest && (u, p[0]) in g.edges;
      if u in p {
        var j :| 0 <= j < |p| && p[j] == u;
        ClosingEdgeMakesCycle(g, p, u, j);
        c := EdgesAlong([u] + p[..j + 1]);
        found := true;
      } else {
        p := [u] + p;
        onPath := onPath + {u};
      }
    }
  }

  /** No node of `rest` is a predecessor of `v`. */
  predicate NoPredecessorIn(g: Graph, rest: set<string>, v: string) {
    forall u :: u in rest ==> (u, v) !in g.edges
  }

  /**
   * The state of the sort: `done` lists the nodes already placed, `rest` holds the others, and
   * every predecessor of a placed node was placed before it.
   */
  ghost predicate SortState(g: Graph, done: seq<string>, rest: set<string>) {
    && Distinct(done) && rest <= g.nodes.Keys
    && (forall x :: x in done ==> x in g.nodes && x !in rest)
    && (forall x :: x in g.nodes ==> x in done || x in rest)
    && (forall k, u :: 0 <= k < |done| && (u, done[k]) in g.edges ==> u in done[..k])
  }

  lemma SortStep(g: Graph, done: seq<string>, rest: set<string>, v: string)
    requires Valid(g) && SortState(g, done, rest) && v in rest && NoPredecessorIn(g, rest, v)
    ensures SortState(g, done + [v], rest - {v})
  {
    var done' := done + [v];
    forall k, u | 0 <= k < |done'| && (u, done'[k]) in g.edges
      ensures u in done'[..k]
    {
      if k < |done| {
        assert done'[..k] == done[..k];
      } else {
        assert done'[..k] == done;
      }
    }
  }

  lemma SortFinished(g: Graph, done: seq<string>)
    requires Valid(g) && SortState(g, done, {})
    ensures IsTopoOrder(g, done)
  {
    forall e | e in g.edges
      ensures e.0 in done && e.1 in done && IndexOf(done, e.0) < IndexOf(done, e.1)
    {
      var k := IndexOf(done, e.1);
      IndexOfInPrefix(done, e.0, k);
    }
  }

  /**
   * Order all nodes so that every edge points forward, or return a cycle when no such order
   * exists. Nodes are taken one at a time among those none of whose predecessors is left.
   */
  method TopologicalSort(g: Graph) returns (r: Result<seq<string>, seq<Edge>>)
    requires Valid(g)
    ensures r.Success? ==> IsTopoOrder(g, r.value)
    ensures r.Failure? ==> IsCycle(g, r.error)
    ensures r.Success? <==> !HasCycle(g)
  {
    var done: seq<string> := [];
    var rest := g.nodes.Keys;
    while rest != {}
      invariant SortState(g, done, rest)
      decreases rest
    {
      var ready := set v | v in rest && NoPredecessorIn(g, rest, v);
      if ready == {} {
        forall v | v in rest
          ensures HasPredecessorIn(g, rest, v)
        {
          assert v !in ready;
        }
        var c := FindCycle(g, rest);
        return Failure(c);
      }
      var v :| v in ready;
      SortStep(g, done, rest, v);
      done := done + [v];
      rest := rest - {v};
    }
    SortFinished(g, done);
    TopoOrderMeansAcyclic(g, done);
    return Success(done);
  }

  /**
   * The tasks of an acyclic graph in topological order; fails with a cycle on a cyclic graph.
   * (Models `sort_tasks_topologically`.)
   */
  method SortTasksTopologically(g: Graph) returns (r: Result<seq<string>, seq<Edge>>)
    requires Valid(g)
    ensures r.Success? ==> IsTaskTopoOrder(g, r.value)
    ensures r.Failure? ==> IsCycle(g, r.error)
    ensures r.Success? <==> !HasCycle(g)
  {
    var full := TopologicalSort(g);
    if full.Failure? {
      return Failure(full.error);
    }
    var o := full.value;
    var tasks: seq<string> := [];
    for i := 0 to |o|
      invariant forall x :: x in tasks <==> x in o[..i] && IsTask(g, x)
      invariant forall a :: 0 <= a < |tasks| ==> tasks[a] in o
      invariant forall a :: 0 <= a < |tasks| ==> IndexOf(o, tasks[a]) < i
      invariant forall a, b :: 0 <= a < b < |tasks| ==> IndexOf(o, tasks[a]) < IndexOf(o, tasks[b])
    {
      if IsTask(g, o[i]) {
        IndexOfDistinct(o, i);
        tasks := tasks + [o[i]];
      }
      assert o[..i + 1] == o[..i] + [o[i]];
    }
    assert o[..|o|] == o;
    forall a, b | 0 <= a < b < |tasks|
      ensures tasks[a] != tasks[b] && !Reachable(g, tasks[b], tasks[a])
    {
      if Reachable(g, tasks[b], tasks[a]) {
        ReachableGoesForward(g, o, tasks[b], tasks[a]);
      }
    }
    return Success(tasks);
  }

  // ---------------------------------------------------------------------------------------------
  // Neighbourhoods and descendants

  /** A node together with its direct predecessors and successors. (Models `node_and_neigbors`.) */
  function NodeAndNeighbors(g: Graph, n: string): (r: set<string>)
    ensures forall m :: m in r <==> m == n || (m, n) in g.edges || (n, m) in g.edges
  {
    {n} + Predecessors(g, n) + Successors(g, n)
  }

  /** The assumed meaning of a task's descending tasks: itself and every task reachable from it. */
  ghost function TaskAndDescendants(g: Graph, t: string): set<string> {
    {t} + set v | v in g.nodes.Keys && IsTask(g, v) && Reachable(g, t, v)
  }

  /** Every descendant of a descendant is a descendant. */
  lemma DescendantsTransitive(g: Graph, u: string, t: string, x: string)
    requires t in TaskAndDescendants(g, u) && x in TaskAndDescendants(g, t)
    ensures x in TaskAndDescendants(g, u)
  {
    if t != u && x != t {
      ReachableTransitive(g, u, t, x);
    }
  }

  /**
   * The task and every task reachable from it, found by a breadth-first search.
   * (Models `task_and_descending_tasks`.)
   */
  method TaskAndDescendingTasks(g: Graph, t: string) returns (ds: set<string>)
    requires Valid(g) && IsTask(g, t)
    ensures ds == TaskAndDescendants(g, t)
  {
    var seen := {t};
    var frontier := {t};
    while frontier != {}
      invariant frontier <= seen <= g.nodes.Keys && t in seen
      invariant forall v :: v in seen && v != t ==> Reachable(g, t, v)
      invariant forall v, w :: v in seen && v !in frontier && (v, w) in g.edges ==> w in seen
      decreases g.nodes.Keys - seen, frontier
    {
      var v :| v in frontier;
      var next := Successors(g, v) - seen;
      forall w | w in next
        ensures Reachable(g, t, w)
      {
        if v == t {
          EdgeIsReachable(g, t, w);
        } else {
          ReachableThenEdge(g, t, v, w);
        }
      }
      seen := seen + next;
      frontier := (frontier - {v}) + next;
    }
    ds := {t} + set v | v in seen && IsTask(g, v);
    forall v | v in g.nodes.Keys && IsTask(g, v) && Reachable(g, t, v)
      ensures v in seen
    {
      ClosedSetHoldsReachable(g, seen, t, v);
    }
  }
}
