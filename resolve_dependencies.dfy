/**
 * The dependency-resolution engine of the task runner: build a graph from the declared tasks,
 * validate it (no cycle, every root input exists), and select the tasks that can be skipped
 * because neither they nor anything upstream of them changed since the last run.
 */
module ResolveDependencies {
  import opened Wrappers
  import opened Dag

  /** The persisted states: (task name, node name) to the fingerprint recorded for it. */
  type Store = map<(string, string), Fingerprint>

  /** Why resolution failed. */
  datatype ResolveError =
    | CycleError(cycle: seq<Edge>)
    | MissingRootError(node: string, successors: set<string>)

  /** The error is true of `g`: a reported cycle is a cycle of it, a reported root is missing in it. */
  ghost predicate Describes(g: Graph, e: ResolveError) {
    match e
    case CycleError(c) => IsCycle(g, c)
    case MissingRootError(n, succ) => IsMissingRoot(g, n) && succ == Successors(g, n)
  }

  // =============================================================================================
  // Building the graph

  function TaskNames(tasks: seq<Task>): set<string> {
    set t | t in tasks :: t.name
  }

  /** The dependencies and then the products of each task, task by task, in declaration order. */
  function DataRefs(tasks: seq<Task>): (refs: seq<DataNode>)
    ensures forall d :: d in refs <==> exists t :: t in tasks && (d in t.dependsOn || d in t.produces)
    decreases |tasks|
  {
    if tasks == [] then []
    else
      var init := tasks[..|tasks| - 1];
      var t := tasks[|tasks| - 1];
      assert tasks == init + [t];
      DataRefs(init) + t.dependsOn + t.produces
  }

  function DataNames(refs: seq<DataNode>): set<string> {
    set d | d in refs :: d.name
  }

  /** One edge from each dependency to its task and one from each task to each of its products. */
  function DagEdges(tasks: seq<Task>): set<Edge> {
    (set t, d | t in tasks && d in t.dependsOn :: (d.name, t.name)) +
    (set t, p | t in tasks && p in t.produces :: (t.name, p.name))
  }

  /** The last task in `tasks` named `n`: later declarations overwrite earlier ones. */
  function LastTaskNamed(tasks: seq<Task>, n: string): (r: Option<Task>)
    ensures r.Some? ==> r.value in tasks && r.value.name == n
    ensures r.None? <==> n !in TaskNames(tasks)
    decreases |tasks|
  {
    if tasks == [] then None
    else if tasks[|tasks| - 1].name == n then Some(tasks[|tasks| - 1])
    else
      var init := tasks[..|tasks| - 1];
      assert tasks == init + [tasks[|tasks| - 1]];
      LastTaskNamed(init, n)
  }

  /** The last data node in `refs` named `n`. */
  function LastDataNamed(refs: seq<DataNode>, n: string): (r: Option<DataNode>)
    ensures r.Some? ==> r.value in refs && r.value.name == n
    ensures r.None? <==> n !in DataNames(refs)
    decreases |refs|
  {
    if refs == [] then None
    else if refs[|refs| - 1].name == n then Some(refs[|refs| - 1])
    else
      var init := refs[..|refs| - 1];
      assert refs == init + [refs[|refs| - 1]];
      LastDataNamed(init, n)
  }

  /**
   * `g` is the graph made of the tasks `ts`, the data references `refs` and the edges `es`: it is
   * well formed, its nodes are exactly the task and data names, its edges are exactly `es`, and each
   * node carries the last task and the last data node declared under its name.
   */
  ghost predicate Represents(g: Graph, ts: seq<Task>, refs: seq<DataNode>, es: set<Edge>) {
    && Valid(g)
    && g.nodes.Keys == TaskNames(ts) + DataNames(refs)
    && g.edges == es
    && (forall n {:trigger DeclaredPayload(ts, refs, n)} :: n in g.nodes ==> g.nodes[n] == DeclaredPayload(ts, refs, n))
  }

  /** What the node named `n` carries: the last task and the last data node declared with that name. */
  function DeclaredPayload(ts: seq<Task>, refs: seq<DataNode>, n: string): Payload {
    Payload(LastTaskNamed(ts, n), LastDataNamed(refs, n))
  }

  lemma AddTaskNodeKeeps(g: Graph, ts: seq<Task>, refs: seq<DataNode>, es: set<Edge>, t: Task)
    requires Represents(g, ts, refs, es)
    ensures Represents(AddNode(g, t.name, Payload(Some(t), None)), ts + [t], refs, es)
  {
    var g' := AddNode(g, t.name, Payload(Some(t), None));
    AddNodeKeepsValid(g, t.name, Payload(Some(t), None));
    assert (ts + [t])[..|ts|] == ts;
    assert TaskNames(ts + [t]) == TaskNames(ts) + {t.name};
    forall n | n in g'.nodes
      ensures g'.nodes[n] == DeclaredPayload(ts + [t], refs, n)
    {
      if n != t.name {
        assert g'.nodes[n] == g.nodes[n] == DeclaredPayload(ts, refs, n);
      } else if n in g.nodes {
        assert g.nodes[n] == DeclaredPayload(ts, refs, n);
        assert g'.nodes[n] == Payload(Some(t), g.nodes[n].data);
      } else {
        assert n !in DataNames(refs);
      }
    }
  }

  lemma AddDataNodeKeeps(g: Graph, ts: seq<Task>, refs: seq<DataNode>, es: set<Edge>, d: DataNode)
    requires Represents(g, ts, refs, es)
    ensures Represents(AddNode(g, d.name, Payload(None, Some(d))), ts, refs + [d], es)
  {
    var g' := AddNode(g, d.name, Payload(None, Some(d)));
    AddNodeKeepsValid(g, d.name, Payload(None, Some(d)));
    assert (refs + [d])[..|refs|] == refs;
    assert DataNames(refs + [d]) == DataNames(refs) + {d.name};
    forall n | n in g'.nodes
      ensures g'.nodes[n] == DeclaredPayload(ts, refs + [d], n)
    {
      if n != d.name {
        assert g'.nodes[n] == g.nodes[n] == DeclaredPayload(ts, refs, n);
      } else if n in g.nodes {
        assert g.nodes[n] == DeclaredPayload(ts, refs, n);
        assert g'.nodes[n] == Payload(g.nodes[n].task, Some(d));
      } else {
        assert n !in TaskNames(ts);
      }
    }
  }

  lemma AddEdgeKeeps(g: Graph, ts: seq<Task>, refs: seq<DataNode>, es: set<Edge>, u: string, v: string)
    requires Represents(g, ts, refs, es) && u in g.nodes && v in g.nodes
    ensures Represents(AddEdge(g, u, v), ts, refs, es + {(u, v)})
  {
    var g' := g.(edges := es + {(u, v)});
    assert AddEdge(g, u, v) == g';
    assert Valid(g') by {
      forall e | e in g'.edges
        ensures e.0 in g'.nodes && e.1 in g'.nodes
      {
      }
    }
  }

  /** The task objects of a represented graph are among the declared ones. */
  lemma GraphTasksAreDeclared(g: Graph, ts: seq<Task>, refs: seq<DataNode>, es: set<Edge>)
    requires Represents(g, ts, refs, es)
    ensures TaskObjects(g) <= set t | t in ts
  {
    forall t | t in TaskObjects(g)
      ensures t in ts
    {
      var n :| n in g.nodes && g.nodes[n].task.Some? && g.nodes[n].task.value == t;
      assert g.nodes[n] == DeclaredPayload(ts, refs, n);
    }
  }

  /** The edges from the first `j` dependencies of `t` to `t`. */
  ghost function DependencyEdges(t: Task, j: nat): set<Edge>
    requires j <= |t.dependsOn|
  {
    set d | d in t.dependsOn[..j] :: (d.name, t.name)
  }

  /** The edges from `t` to its first `k` products. */
  ghost function ProductEdges(t: Task, k: nat): set<Edge>
    requires k <= |t.produces|
  {
    set p | p in t.produces[..k] :: (t.name, p.name)
  }

  lemma DependencyEdgesNext(t: Task, j: nat)
    requires j < |t.dependsOn|
    ensures DependencyEdges(t, j + 1) == DependencyEdges(t, j) + {(t.dependsOn[j].name, t.name)}
  {
    assert t.dependsOn[..j + 1] == t.dependsOn[..j] + [t.dependsOn[j]];
  }

  lemma ProductEdgesNext(t: Task, k: nat)
    requires k < |t.produces|
    ensures ProductEdges(t, k + 1) == ProductEdges(t, k) + {(t.name, t.produces[k].name)}
  {
    assert t.produces[..k + 1] == t.produces[..k] + [t.produces[k]];
  }

  lemma DagEdgesAppend(ts: seq<Task>, t: Task)
    ensures DagEdges(ts + [t]) ==
      DagEdges(ts) + DependencyEdges(t, |t.dependsOn|) + ProductEdges(t, |t.produces|)
  {
    assert t.dependsOn[..|t.dependsOn|] == t.dependsOn;
    assert t.produces[..|t.produces|] == t.produces;
  }

  // The steps of the build, each stated on the loop's own terms.

  lemma TaskArgsStart(tasks: seq<Task>, i: nat)
    requires i < |tasks|
    ensures tasks[..i + 1] == tasks[..i] + [tasks[i]]
    ensures DataRefs(tasks[..i]) + tasks[i].dependsOn[..0] == DataRefs(tasks[..i])
    ensures DagEdges(tasks[..i]) + DependencyEdges(tasks[i], 0) == DagEdges(tasks[..i])
  {
    assert DataRefs(tasks[..i]) + tasks[i].dependsOn[..0] == DataRefs(tasks[..i]);
  }

  lemma TaskStep(g: Graph, tasks: seq<Task>, i: nat)
    requires i < |tasks|
    requires Represents(g, tasks[..i], DataRefs(tasks[..i]), DagEdges(tasks[..i]))
    ensures Represents(AddNode(g, tasks[i].name, Payload(Some(tasks[i]), None)), tasks[..i + 1],
                       DataRefs(tasks[..i]) + tasks[i].dependsOn[..0],
                       DagEdges(tasks[..i]) + DependencyEdges(tasks[i], 0))
  {
    TaskArgsStart(tasks, i);
    AddTaskNodeKeeps(g, tasks[..i], DataRefs(tasks[..i]), DagEdges(tasks[..i]), tasks[i]);
  }

  /** Adding a data node and an edge between it and a node already present. */
  lemma DataStep(g: Graph, ts: seq<Task>, refs: seq<DataNode>, es: set<Edge>, d: DataNode, u: string, v: string)
    requires Represents(g, ts, refs, es)
    requires (u == d.name && v in g.nodes) || (v == d.name && u in g.nodes)
    ensures Represents(AddEdge(AddNode(g, d.name, Payload(None, Some(d))), u, v), ts, refs + [d], es + {(u, v)})
  {
    AddDataNodeKeeps(g, ts, refs, es, d);
    AddEdgeKeeps(AddNode(g, d.name, Payload(None, Some(d))), ts, refs + [d], es, u, v);
  }

  lemma DependencyArgsNext(refs: seq<DataNode>, es: set<Edge>, t: Task, j: nat)
    requires j < |t.dependsOn|
    ensures refs + t.dependsOn[..j + 1] == (refs + t.dependsOn[..j]) + [t.dependsOn[j]]
    ensures es + DependencyEdges(t, j + 1) == (es + DependencyEdges(t, j)) + {(t.dependsOn[j].name, t.name)}
  {
    assert t.dependsOn[..j + 1] == t.dependsOn[..j] + [t.dependsOn[j]];
    DependencyEdgesNext(t, j);
  }

  lemma DependencyStep(g: Graph, tasks: seq<Task>, i: nat, j: nat)
    requires i < |tasks| && j < |tasks[i].dependsOn|
    requires Represents(g, tasks[..i + 1], DataRefs(tasks[..i]) + tasks[i].dependsOn[..j],
                        DagEdges(tasks[..i]) + DependencyEdges(tasks[i], j))
    ensures var d := tasks[i].dependsOn[j];
      Represents(AddEdge(AddNode(g, d.name, Payload(None, Some(d))), d.name, tasks[i].name),
                 tasks[..i + 1], DataRefs(tasks[..i]) + tasks[i].dependsOn[..j + 1],
                 DagEdges(tasks[..i]) + DependencyEdges(tasks[i], j + 1))
  {
    var t, d := tasks[i], tasks[i].dependsOn[j];
    DependencyArgsNext(DataRefs(tasks[..i]), DagEdges(tasks[..i]), t, j);
    assert t.name in g.nodes by {
      assert t in tasks[..i + 1];
    }
    DataStep(g, tasks[..i + 1], DataRefs(tasks[..i]) + t.dependsOn[..j], DagEdges(tasks[..i]) + DependencyEdges(t, j),
             d, d.name, t.name);
  }

  lemma DependencyArgsDone(refs: seq<DataNode>, es: set<Edge>, t: Task)
    ensures refs + t.dependsOn + t.produces[..0] == refs + t.dependsOn[..|t.dependsOn|]
    ensures es + DependencyEdges(t, |t.dependsOn|) + ProductEdges(t, 0) == es + DependencyEdges(t, |t.dependsOn|)
  {
    assert t.dependsOn[..|t.dependsOn|] == t.dependsOn;
    assert refs + t.dependsOn + t.produces[..0] == refs + t.dependsOn;
  }

  lemma DependenciesDone(g: Graph, tasks: seq<Task>, i: nat)
    requires i < |tasks|
    requires var t := tasks[i];
      Represents(g, tasks[..i + 1], DataRefs(tasks[..i]) + t.dependsOn[..|t.dependsOn|],
                 DagEdges(tasks[..i]) + DependencyEdges(t, |t.dependsOn|))
    ensures var t := tasks[i];
      Represents(g, tasks[..i + 1], DataRefs(tasks[..i]) + t.dependsOn + t.produces[..0],
                 DagEdges(tasks[..i]) + DependencyEdges(t, |t.dependsOn|) + ProductEdges(t, 0))
  {
    DependencyArgsDone(DataRefs(tasks[..i]), DagEdges(tasks[..i]), tasks[i]);
  }

  lemma ProductArgsNext(refs: seq<DataNode>, es: set<Edge>, t: Task, k: nat)
    requires k < |t.produces|
    ensures refs + t.produces[..k + 1] == (refs + t.produces[..k]) + [t.produces[k]]
    ensures es + ProductEdges(t, k + 1) == (es + ProductEdges(t, k)) + {(t.name, t.produces[k].name)}
  {
    assert t.produces[..k + 1] == t.produces[..k] + [t.produces[k]];
    ProductEdgesNext(t, k);
  }

  lemma ProductStep(g: Graph, tasks: seq<Task>, i: nat, k: nat)
    requires i < |tasks| && k < |tasks[i].produces|
    requires var t := tasks[i];
      Represents(g, tasks[..i + 1], DataRefs(tasks[..i]) + t.dependsOn + t.produces[..k],
                 DagEdges(tasks[..i]) + DependencyEdges(t, |t.dependsOn|) + ProductEdges(t, k))
    ensures var t, p := tasks[i], tasks[i].produces[k];
      Represents(AddEdge(AddNode(g, p.name, Payload(None, Some(p))), t.name, p.name),
                 tasks[..i + 1], DataRefs(tasks[..i]) + t.dependsOn + t.produces[..k + 1],
                 DagEdges(tasks[..i]) + DependencyEdges(t, |t.dependsOn|) + ProductEdges(t, k + 1))
  {
    var t, p := tasks[i], tasks[i].produces[k];
    ProductArgsNext(DataRefs(tasks[..i]) + t.dependsOn, DagEdges(tasks[..i]) + DependencyEdges(t, |t.dependsOn|), t, k);
    assert t.name in g.nodes by {
      assert t in tasks[..i + 1];
    }
    DataStep(g, tasks[..i + 1], DataRefs(tasks[..i]) + t.dependsOn + t.produces[..k],
             DagEdges(tasks[..i]) + DependencyEdges(t, |t.dependsOn|) + ProductEdges(t, k), p, t.name, p.name);
  }

  lemma TaskArgsDone(tasks: seq<Task>, i: nat)
    requires i < |tasks|
    ensures var t := tasks[i];
      && DataRefs(tasks[..i]) + t.dependsOn + t.produces[..|t.produces|] == DataRefs(tasks[..i + 1])
      && DagEdges(tasks[..i]) + DependencyEdges(t, |t.dependsOn|) + ProductEdges(t, |t.produces|) == DagEdges(tasks[..i + 1])
  {
    var t := tasks[i];
    assert tasks[..i + 1] == tasks[..i] + [t];
    assert tasks[..i + 1][..i] == tasks[..i];
    assert t.produces[..|t.produces|] == t.produces;
    DagEdgesAppend(tasks[..i], t);
  }

  lemma ProductsDone(g: Graph, tasks: seq<Task>, i: nat)
    requires i < |tasks|
    requires var t := tasks[i];
      Represents(g, tasks[..i + 1], DataRefs(tasks[..i]) + t.dependsOn + t.produces[..|t.produces|],
                 DagEdges(tasks[..i]) + DependencyEdges(t, |t.dependsOn|) + ProductEdges(t, |t.produces|))
    ensures Represents(g, tasks[..i + 1], DataRefs(tasks[..i + 1]), DagEdges(tasks[..i + 1]))
  {
    TaskArgsDone(tasks, i);
  }

  /**
   * Build the graph: a node per task carrying the task, a node per dependency and product
   * carrying the data node, an edge from each dependency to its task and from each task to each of
   * its products. Re-adding a node updates its attributes; re-adding an edge changes nothing.
   */
  method CreateDag(tasks: seq<Task>) returns (g: Graph)
    ensures Represents(g, tasks, DataRefs(tasks), DagEdges(tasks))
  {
    g := Graph([], map[], {});
    for i := 0 to |tasks|
      invariant Represents(g, tasks[..i], DataRefs(tasks[..i]), DagEdges(tasks[..i]))
    {
      var task := tasks[i];
      TaskStep(g, tasks, i);
      g := AddNode(g, task.name, Payload(Some(task), None));
      for j := 0 to |task.dependsOn|
        invariant Represents(g, tasks[..i + 1], DataRefs(tasks[..i]) + task.dependsOn[..j],
                             DagEdges(tasks[..i]) + DependencyEdges(task, j))
      {
        var dependency := task.dependsOn[j];
        DependencyStep(g, tasks, i, j);
        g := AddNode(g, dependency.name, Payload(None, Some(dependency)));
        g := AddEdge(g, dependency.name, task.name);
      }
      DependenciesDone(g, tasks, i);
      for k := 0 to |task.produces|
        invariant Represents(g, tasks[..i + 1], DataRefs(tasks[..i]) + task.dependsOn + task.produces[..k],
                             DagEdges(tasks[..i]) + DependencyEdges(task, |task.dependsOn|) + ProductEdges(task, k))
      {
        var product := task.produces[k];
        ProductStep(g, tasks, i, k);
        g := AddNode(g, product.name, Payload(None, Some(product)));
        g := AddEdge(g, task.name, product.name);
      }
      ProductsDone(g, tasks, i);
    }
    assert tasks[..|tasks|] == tasks;
  }

  // =============================================================================================
  // Validating the graph

  /** A data node with no predecessor whose artifact does not exist. */
  predicate IsMissingRoot(g: Graph, n: string) {
    && n in g.nodes
    && g.nodes[n].data.Some?
    && Predecessors(g, n) == {}
    && g.nodes[n].data.value.state.None?
  }

  /** Fail with a cycle's edge list when the graph has a directed cycle. */
  method CheckIfDagHasCycles(g: Graph) returns (r: Outcome<ResolveError>)
    requires Valid(g)
    ensures r.Pass? <==> !HasCycle(g)
    ensures r.Fail? ==> r.error.CycleError? && IsCycle(g, r.error.cycle)
  {
    var sorted := TopologicalSort(g);
    if sorted.Failure? {
      return Fail(CycleError(sorted.error));
    }
    return Pass;
  }

  /**
   * Visit the nodes in insertion order and fail on the first data node without predecessors
   * whose artifact is missing, naming it and its successors.
   */
  method CheckIfRootNodesAreAvailable(g: Graph) returns (r: Outcome<ResolveError>)
    requires Valid(g)
    ensures r.Pass? <==> forall n :: n in g.nodes ==> !IsMissingRoot(g, n)
    ensures r.Fail? ==> r.error.MissingRootError? && IsMissingRoot(g, r.error.node)
    ensures r.Fail? ==> r.error.successors == Successors(g, r.error.node)
    ensures r.Fail? ==> exists k :: 0 <= k < |g.names| && g.names[k] == r.error.node &&
                                   forall j :: 0 <= j < k ==> !IsMissingRoot(g, g.names[j])
  {
    for i := 0 to |g.names|
      invariant forall j :: 0 <= j < i ==> !IsMissingRoot(g, g.names[j])
    {
      var node := g.names[i];
      var isNode := g.nodes[node].data.Some?;
      var isWithoutParents := |Predecessors(g, node)| == 0;
      if isNode && isWithoutParents && g.nodes[node].data.value.state.None? {
        return Fail(MissingRootError(node, Successors(g, node)));
      }
    }
    forall n | n in g.nodes
      ensures !IsMissingRoot(g, n)
    {
      var k :| 0 <= k < |g.names| && g.names[k] == n;
    }
    return Pass;
  }

  /** The cycle check runs first; the root check runs only on an acyclic graph. */
  method ValidateDag(g: Graph) returns (r: Outcome<ResolveError>)
    requires Valid(g)
    ensures HasCycle(g) ==> r.Fail? && r.error.CycleError?
    ensures r.Fail? && r.error.CycleError? ==> IsCycle(g, r.error.cycle)
    ensures r.Fail? && r.error.MissingRootError? ==>
      !HasCycle(g) && IsMissingRoot(g, r.error.node) && r.error.successors == Successors(g, r.error.node)
    ensures r.Pass? <==> !HasCycle(g) && forall n :: n in g.nodes ==> !IsMissingRoot(g, n)
  {
    r := CheckIfDagHasCycles(g);
    if r.Fail? {
      return;
    }
    r := CheckIfRootNodesAreAvailable(g);
  }

  // =============================================================================================
  // Deciding what changed

  /** The object a node's state is read from: the task when there is one, else the data node. */
  function CurrentName(p: Payload): string
    requires p.task.Some? || p.data.Some?
  {
    if p.task.Some? then p.task.value.name else p.data.value.name
  }

  function CurrentState(p: Payload): Option<Fingerprint>
    requires p.task.Some? || p.data.Some?
  {
    if p.task.Some? then p.task.value.state else p.data.value.state
  }

  /** The fingerprint recorded for (task, node), or None when there is no record. */
  function Recorded(store: Store, taskName: string, nodeName: string): Option<Fingerprint> {
    if (taskName, nodeName) in store then Some(store[(taskName, nodeName)]) else None
  }

  /**
   * A node has changed for a task unless its current state exists and equals the state recorded
   * for (task, node); a missing state and a missing record both count as changed.
   */
  function HasNodeChanged(store: Store, taskName: string, p: Payload): (changed: bool)
    requires p.task.Some? || p.data.Some?
    ensures !changed <==> CurrentState(p).Some? && Recorded(store, taskName, CurrentName(p)) == CurrentState(p)
  {
    match CurrentState(p)
    case None => true
    case Some(state) =>
      if (taskName, CurrentName(p)) !in store then true
      else state != store[(taskName, CurrentName(p))]
  }

  /** Whether the task, one of its direct predecessors or one of its direct successors changed. */
  function HaveTaskOrNeighborsChanged(g: Graph, store: Store, taskName: string): (changed: bool)
    requires Valid(g) && taskName in g.nodes
    ensures changed <==>
      || HasNodeChanged(store, taskName, g.nodes[taskName])
      || (exists m :: (m, taskName) in g.edges && HasNodeChanged(store, taskName, g.nodes[m]))
      || (exists m :: (taskName, m) in g.edges && HasNodeChanged(store, taskName, g.nodes[m]))
  {
    exists n :: n in NodeAndNeighbors(g, taskName) && HasNodeChanged(store, taskName, g.nodes[n])
  }

  // =============================================================================================
  // Selecting the tasks to skip

  /** The state of the selection pass: the tasks known to be invalidated, and those marked. */
  datatype SelectState = SelectState(visited: set<string>, skipped: set<string>)

  /** One step of the pass over task `t`. */
  ghost function Step(g: Graph, store: Store, s: SelectState, t: string): SelectState
    requires Valid(g) && IsTask(g, t)
  {
    if t in s.visited then s
    else if HaveTaskOrNeighborsChanged(g, store, t) then s.(visited := s.visited + TaskAndDescendants(g, t))
    else s.(skipped := s.skipped + {t})
  }

  /** The pass over the tasks of `order`, from the first to the last. */
  ghost function Walk(g: Graph, store: Store, order: seq<string>): SelectState
    requires Valid(g) && forall x :: x in order ==> IsTask(g, x)
    decreases |order|
  {
    if order == [] then SelectState({}, {})
    else Step(g, store, Walk(g, store, order[..|order| - 1]), order[|order| - 1])
  }

  /**
   * Walk the tasks in topological order. A task that changed invalidates itself and all its
   * descending tasks; a task that is neither invalidated nor changed gets the skip marker.
   */
  method SelectExecutionDag(g: Graph, store: Store) returns (r: Outcome<ResolveError>, ghost order: seq<string>)
    requires Valid(g)
    modifies TaskObjects(g)
    ensures r.Pass? <==> !HasCycle(g)
    ensures r.Fail? ==> r.error.CycleError? && IsCycle(g, r.error.cycle)
    ensures r.Pass? ==> IsTaskTopoOrder(g, order)
    ensures forall n :: IsTask(g, n) ==>
      g.nodes[n].task.value.markers ==
        old(g.nodes[n].task.value.markers) +
        (if r.Pass? && n in Walk(g, store, order).skipped then [SkipUnchanged] else [])
  {
    var sorted := SortTasksTopologically(g);
    if sorted.Failure? {
      return Fail(CycleError(sorted.error)), [];
    }
    var tasks := sorted.value;
    assert forall x :: x in tasks ==> IsTask(g, x);
    var visitedNodes: set<string> := {};
    ghost var skipped: set<string> := {};
    for i := 0 to |tasks|
      invariant Walk(g, store, tasks[..i]) == SelectState(visitedNodes, skipped)
      invariant forall x :: x in skipped ==> x in tasks[..i]
      invariant forall n :: IsTask(g, n) ==>
        g.nodes[n].task.value.markers ==
          old(g.nodes[n].task.value.markers) + (if n in skipped then [SkipUnchanged] else [])
    {
      var taskName := tasks[i];
      assert IsTask(g, taskName);
      assert tasks[..i + 1][..i] == tasks[..i];
      assert taskName !in tasks[..i];
      if taskName !in visitedNodes {
        var haveChanged := HaveTaskOrNeighborsChanged(g, store, taskName);
        if haveChanged {
          var descendants := TaskAndDescendingTasks(g, taskName);
          visitedNodes := visitedNodes + descendants;
        } else {
          var task := g.nodes[taskName].task.value;
          assert task in TaskObjects(g);
          assert forall n :: IsTask(g, n) && n != taskName ==> g.nodes[n].task.value != task;
          task.markers := task.markers + [SkipUnchanged];
          skipped := skipped + {taskName};
        }
      }
    }
    assert tasks[..|tasks|] == tasks;
    return Pass, tasks;
  }

  // =============================================================================================
  // The whole resolution

  /**
   * The part of the resolution after the build: validation, then selection. It fails with the
   * validation error, or passes and leaves the selection's markers; of the tasks in `declared`,
   * those outside the graph keep their markers.
   */
  method ValidateAndSelect(g: Graph, store: Store, ghost declared: seq<Task>)
    returns (r: Outcome<ResolveError>, ghost order: seq<string>)
    requires Valid(g)
    modifies TaskObjects(g)
    ensures r.Pass? <==> !HasCycle(g) && forall n :: n in g.nodes ==> !IsMissingRoot(g, n)
    ensures r.Fail? ==> (r.error.CycleError? <==> HasCycle(g))
    ensures r.Fail? ==> Describes(g, r.error)
    ensures r.Pass? ==> IsTaskTopoOrder(g, order)
    ensures forall t :: t in declared ==>
      t.markers ==
        old(t.markers) +
        (if r.Pass? && t in TaskObjects(g) && t.name in Walk(g, store, order).skipped then [SkipUnchanged] else [])
  {
    r := ValidateDag(g);
    order := [];
    if r.Pass? {
      // The selection fails only on a cycle, which validation has ruled out.
      r, order := SelectExecutionDag(g, store);
      assert r.Pass?;
    }
    forall t | t in TaskObjects(g)
      ensures IsTask(g, t.name) && g.nodes[t.name].task.value == t
    {
      var n :| n in g.nodes && g.nodes[n].task.Some? && g.nodes[n].task.value == t;
    }
  }

  /** The part of a session this engine reads and writes. */
  class Session {
    var tasks: seq<Task>
    var dag: Option<Graph>
    var report: Option<ResolveError>

    constructor (tasks: seq<Task>)
      ensures this.tasks == tasks && dag == None && report == None
    {
      this.tasks := tasks;
      dag := None;
      report := None;
    }

    /**
     * Build, validate and select in sequence. Returns true on success; on any failure records the
     * cause in `report` and returns false (the source raises its resolution error there).
     */
    method ResolveDependencies(store: Store) returns (ok: bool, ghost order: seq<string>)
      modifies this, set t | t in tasks
      ensures tasks == old(tasks) && dag.Some?
      ensures Represents(dag.value, tasks, DataRefs(tasks), DagEdges(tasks))
      ensures ok <==> !HasCycle(dag.value) && forall n :: n in dag.value.nodes ==> !IsMissingRoot(dag.value, n)
      ensures !ok ==>
        report.Some? && (report.value.CycleError? <==> HasCycle(dag.value)) && Describes(dag.value, report.value)
      ensures ok ==> report == old(report) && IsTaskTopoOrder(dag.value, order)
      ensures TaskObjects(dag.value) <= set t | t in tasks
      ensures forall t :: t in old(tasks) ==>
        t.markers ==
          old(t.markers) +
          (if ok && t in TaskObjects(dag.value) && t.name in Walk(dag.value, store, order).skipped
           then [SkipUnchanged] else [])
    {
      var g := CreateDag(tasks);
      dag := Some(g);
      GraphTasksAreDeclared(g, tasks, DataRefs(tasks), DagEdges(tasks));
      var r;
      r, order := ValidateAndSelect(g, store, tasks);
      ok := r.Pass?;
      if !ok {
        report := Some(r.error);
      }
    }
  }
}
