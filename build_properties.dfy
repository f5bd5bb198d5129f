/**
 * What the built graph is, stated on the declarations: which node carries which task, that the
 * node and edge sets ignore the order of the declarations, and what a missing root can be.
 */
module BuildProperties {
  import opened Wrappers
  import opened Dag
  import opened ResolveDependencies

  /** No two declared tasks share a name. */
  predicate DistinctTaskNames(tasks: seq<Task>) {
    forall i, j :: 0 <= i < j < |tasks| ==> tasks[i].name != tasks[j].name
  }

  /** The task kept under a name is the last one declared with it: later declarations overwrite. */
  lemma {:induction false} LastTaskNamedIsLast(tasks: seq<Task>, n: string, k: nat)
    requires k < |tasks| && tasks[k].name == n
    requires forall j :: k < j < |tasks| ==> tasks[j].name != n
    ensures LastTaskNamed(tasks, n) == Some(tasks[k])
    decreases |tasks|
  {
    var last := |tasks| - 1;
    if k < last {
      var init := tasks[..last];
      assert tasks[last].name != n;
      assert init[k] == tasks[k];
      LastTaskNamedIsLast(init, n, k);
    }
  }

  /** The data node kept under a name is the last reference with it: later references overwrite. */
  lemma {:induction false} LastDataNamedIsLast(refs: seq<DataNode>, n: string, k: nat)
    requires k < |refs| && refs[k].name == n
    requires forall j :: k < j < |refs| ==> refs[j].name != n
    ensures LastDataNamed(refs, n) == Some(refs[k])
    decreases |refs|
  {
    var last := |refs| - 1;
    if k < last {
      var init := refs[..last];
      assert refs[last].name != n;
      assert init[k] == refs[k];
      LastDataNamedIsLast(init, n, k);
    }
  }

  /** With distinct names, the task kept under a name is the one declared with it. */
  lemma LastTaskNamedIsDeclared(tasks: seq<Task>, k: nat)
    requires DistinctTaskNames(tasks) && k < |tasks|
    ensures LastTaskNamed(tasks, tasks[k].name) == Some(tasks[k])
  {
    LastTaskNamedIsLast(tasks, tasks[k].name, k);
  }

  /**
   * In a graph built from tasks with distinct names, every task's name is a node carrying exactly
   * that task.
   */
  lemma BuiltGraphCarriesEachTask(tasks: seq<Task>, g: Graph, k: nat)
    requires DistinctTaskNames(tasks) && k < |tasks|
    requires Represents(g, tasks, DataRefs(tasks), DagEdges(tasks))
    ensures tasks[k].name in g.nodes && g.nodes[tasks[k].name].task == Some(tasks[k])
  {
    var n := tasks[k].name;
    assert n in TaskNames(tasks);
    assert g.nodes[n] == DeclaredPayload(tasks, DataRefs(tasks), n);
    LastTaskNamedIsDeclared(tasks, k);
  }

  /** In a concatenation, a data node named `n` in the later part overrides one in the earlier part. */
  lemma {:induction false} LastDataNamedAppend(a: seq<DataNode>, b: seq<DataNode>, n: string)
    ensures LastDataNamed(a + b, n) ==
      if LastDataNamed(b, n).Some? then LastDataNamed(b, n) else LastDataNamed(a, n)
    decreases |b|
  {
    if b == [] {
      assert a + b == a;
    } else {
      var init := b[..|b| - 1];
      assert (a + b)[..|a + b| - 1] == a + init;
      assert (a + b)[|a + b| - 1] == b[|b| - 1];
      LastDataNamedAppend(a, init, n);
    }
  }

  /**
   * The data node a built graph keeps under a name is the last one declared with it: among the
   * last task's products, else among its dependencies, else among the earlier tasks' references.
   */
  lemma LastDeclaredDataWins(tasks: seq<Task>, t: Task, n: string)
    ensures LastDataNamed(DataRefs(tasks + [t]), n) ==
      if LastDataNamed(t.produces, n).Some? then LastDataNamed(t.produces, n)
      else if LastDataNamed(t.dependsOn, n).Some? then LastDataNamed(t.dependsOn, n)
      else LastDataNamed(DataRefs(tasks), n)
  {
    assert (tasks + [t])[..|tasks + [t]| - 1] == tasks;
    assert DataRefs(tasks + [t]) == (DataRefs(tasks) + t.dependsOn) + t.produces;
    LastDataNamedAppend(DataRefs(tasks) + t.dependsOn, t.produces, n);
    LastDataNamedAppend(DataRefs(tasks), t.dependsOn, n);
  }

  /** The data references of a list of tasks, as a set, depend only on which tasks are listed. */
  lemma DataRefsIgnoreOrder(a: seq<Task>, b: seq<Task>)
    requires forall t :: t in a <==> t in b
    ensures forall d :: d in DataRefs(a) <==> d in DataRefs(b)
  {
    forall d
      ensures d in DataRefs(a) <==> d in DataRefs(b)
    {
      if d in DataRefs(a) {
        var t :| t in a && (d in t.dependsOn || d in t.produces);
        assert t in b;
      }
      if d in DataRefs(b) {
        var t :| t in b && (d in t.dependsOn || d in t.produces);
        assert t in a;
      }
    }
  }

  /** Declaring the same tasks in another order gives the same node names and the same edges. */
  lemma BuildIgnoresTaskOrder(a: seq<Task>, b: seq<Task>)
    requires forall t :: t in a <==> t in b
    ensures TaskNames(a) + DataNames(DataRefs(a)) == TaskNames(b) + DataNames(DataRefs(b))
    ensures DagEdges(a) == DagEdges(b)
  {
    DataRefsIgnoreOrder(a, b);
    assert DataNames(DataRefs(a)) == DataNames(DataRefs(b));
  }

  /** Every edge of the built graph comes from a declaration, one way or the other. */
  lemma BuiltEdgeIsDeclared(tasks: seq<Task>, u: string, v: string)
    requires (u, v) in DagEdges(tasks)
    ensures exists t :: (t in tasks &&
      ((t.name == v && exists d :: d in t.dependsOn && d.name == u) ||
       (t.name == u && exists p :: p in t.produces && p.name == v)))
  {
  }

  /**
   * A missing root of a built graph is declared as some task's dependency, no task produces it,
   * and it is not itself a task that depends on anything.
   */
  lemma MissingRootIsUnproducedInput(tasks: seq<Task>, g: Graph, n: string)
    requires Represents(g, tasks, DataRefs(tasks), DagEdges(tasks))
    requires IsMissingRoot(g, n)
    ensures forall t, p :: t in tasks && p in t.produces ==> p.name != n
    ensures forall t :: t in tasks && t.name == n ==> |t.dependsOn| == 0
    ensures exists t, d :: t in tasks && d in t.dependsOn && d.name == n
  {
    forall t, p | t in tasks && p in t.produces
      ensures p.name != n
    {
      assert (t.name, p.name) in g.edges;
    }
    forall t | t in tasks && t.name == n
      ensures |t.dependsOn| == 0
    {
      assert |t.dependsOn| > 0 ==> (t.dependsOn[0].name, n) in g.edges;
    }
    assert g.nodes[n] == DeclaredPayload(tasks, DataRefs(tasks), n);
    var d := g.nodes[n].data.value;
    assert d in DataRefs(tasks) && d.name == n;
    var t :| t in tasks && (d in t.dependsOn || d in t.produces);
    assert d !in t.produces;
  }
}
