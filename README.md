# pytask dependency resolution, modelled in Dafny

This project models the dependency-resolution stage of the pytask build tool
(`src/pytask/resolve_dependencies.py`). The stage runs three steps in order:

1. **Build.** The declared tasks become a directed graph. Each task name is a node carrying the
   task. Each dependency and product name is a node carrying that data node. Each dependency gets
   an edge dependency → task, and each product gets an edge task → product.
2. **Validate.** The graph is rejected if it has a directed cycle; the error carries the cycle as
   a list of edges. Only then is it rejected if a data node without predecessors has no state
   (its artifact does not exist); that error names the node and its successors.
3. **Select.** The tasks are walked in a topological order, keeping a set of visited tasks.
   - A task is *changed* when it, one of its direct predecessors or one of its direct successors
     has changed for it. A node has changed for a task when its current state is missing, when
     the store holds no record for (task, node), or when the record differs from the state.
   - A changed task adds itself and every task reachable from it to the visited set.
   - An unvisited task that did not change gets the `skip_unchanged` marker.

The model is split into four modules:

- `Dag` (`dag.dfy`) holds the graph value:
  - node names in insertion order, a payload map (an optional task and an optional data node per
    name) and an edge set;
  - the `Task` class, whose only mutable field is its list of markers;
  - paths, reachability and cycles.

  It also holds the three graph helpers the engine imports from `pytask.dag`, which are not part
  of this model. Each is given a definition, and that definition is the model's explicit
  assumption about it:
  - `sort_tasks_topologically` yields the task nodes once each, with no task reaching an earlier
    one (`IsTaskTopoOrder`);
  - `node_and_neigbors` is the node, its direct predecessors and its direct successors
    (`NodeAndNeighbors`);
  - `task_and_descending_tasks` is the task and every task reachable from it
    (`TaskAndDescendants`).

  Executable methods are proved against these definitions: a topological sort that returns a
  cycle when there is one, a filter to task nodes, and a breadth-first search.
- `ResolveDependencies` (`resolve_dependencies.dfy`) holds the three steps and the pipeline:
  - the build is a method with the source's nested loops, proved equal to a declarative
    description of the nodes, payloads and edges;
  - the two checks are methods and validation runs them in order;
  - change detection is two functions;
  - selection is a method that appends markers to the `Task` objects in place, proved equal to a
    ghost fold `Walk` over the order it used;
  - the pipeline is the `Session.ResolveDependencies` method.
- `SelectionProperties` (`selection_properties.dfy`) characterises the fold independently of the
  walk. Over any topological order, the tasks skipped are exactly those that no changed task
  reaches (the task itself counts), and the visited tasks are exactly the others. Monotonic
  invalidation, order independence, first-run behaviour and stability follow from this.
- `BuildProperties` (`build_properties.dfy`) states facts about the built graph:
  - the node and edge sets do not depend on the order of the declarations;
  - with distinct task names, each task sits under its own name;
  - every edge comes from a declaration;
  - a missing root is a declared dependency that no task produces.

Notes on where the model follows the code rather than a looser reading of it:

- **Re-adding a node.** `add_node` on an existing name is not a no-op: networkx updates the
  node's attribute dictionary. A later task or data node with the same name therefore replaces
  the earlier one's payload. The model keeps this (`LastTaskNamed`, `LastDataNamed`). The node set
  and the edge set are still independent of declaration order (`BuildIgnoresTaskOrder`); the
  payload under a shared name is not.
- **Task and data under one name.** A name can carry both a task and a data node. When deciding
  whether it changed, the task is preferred; the root check looks only at the data node.
- **A changed product changes its producer.** A task's neighbourhood includes its successors, so
  a product whose state differs from the record kept for its producing task makes that producer
  changed as well, not only the tasks that consume the product (`ChangedProductChangesProducer`).

## Model

| member | source | states |
|---|---|---|
| `Dag.Predecessors` | src/pytask/resolve_dependencies.py:125 | m is a predecessor of n exactly when (m, n) is an edge |
| `Dag.Successors` | src/pytask/resolve_dependencies.py:130 | m is a successor of n exactly when (n, m) is an edge |
| `Dag.AddNode` | src/pytask/resolve_dependencies.py:51 | the node set gains the name; an existing node keeps its place and has the new attributes merged over the old ones; a new node is appended to the insertion order; other nodes and all edges are unchanged |
| `Dag.AddEdge` | src/pytask/resolve_dependencies.py:55 | the edge set gains exactly (u, v); when both endpoints exist nothing else changes |
| `Dag.TopoOrderMeansAcyclic` | src/pytask/resolve_dependencies.py:66 | a graph that has a topological order has no cycle |
| `Dag.FindCycle` | src/pytask/resolve_dependencies.py:110 | given a non-empty set of nodes each having a predecessor inside the set, the returned edge list is a cycle of the graph |
| `Dag.TopologicalSort` | src/pytask/resolve_dependencies.py:110 | succeeds exactly when the graph has no cycle; a success lists every node once with every edge pointing forward; a failure is a cycle of the graph |
| `Dag.SortTasksTopologically` | src/pytask/resolve_dependencies.py:66 | succeeds exactly when the graph has no cycle; a success lists exactly the task nodes, once each, no task reaching an earlier one; a failure is a cycle |
| `Dag.NodeAndNeighbors` | src/pytask/resolve_dependencies.py:89 | m is in the neighbourhood of n exactly when m is n, a direct predecessor or a direct successor |
| `Dag.DescendantsTransitive` | src/pytask/resolve_dependencies.py:72 | a descending task of a descending task of u is a descending task of u |
| `Dag.TaskAndDescendingTasks` | src/pytask/resolve_dependencies.py:72 | the search returns exactly the task and every task reachable from it |
| `ResolveDependencies.DataRefs` | src/pytask/resolve_dependencies.py:53-58 | a data node is referenced exactly when some task depends on it or produces it |
| `ResolveDependencies.LastTaskNamed` | src/pytask/resolve_dependencies.py:51 | the task kept under a name is a declared task with that name, and there is one exactly when some task has that name (which one is stated by `LastTaskNamedIsLast`) |
| `ResolveDependencies.LastDataNamed` | src/pytask/resolve_dependencies.py:54 | the data node kept under a name is a referenced one with that name, and there is one exactly when some reference has that name (which one is stated by `LastDataNamedIsLast`) |
| `ResolveDependencies.AddTaskNodeKeeps` | src/pytask/resolve_dependencies.py:51 | adding a task node keeps the graph equal to the description of the declarations read so far, with that task appended |
| `ResolveDependencies.AddDataNodeKeeps` | src/pytask/resolve_dependencies.py:54 | adding a dependency or product node keeps the graph equal to the description, with that reference appended |
| `ResolveDependencies.AddEdgeKeeps` | src/pytask/resolve_dependencies.py:55 | adding an edge between present nodes keeps the description, with that edge added |
| `ResolveDependencies.GraphTasksAreDeclared` | src/pytask/resolve_dependencies.py:51 | every task object in the graph is one of the declared tasks |
| `ResolveDependencies.CreateDag` | src/pytask/resolve_dependencies.py:47-61 | the graph is well formed; its nodes are exactly the task, dependency and product names; its edges are exactly dependency → task and task → product; each node carries the last task and the last data node declared under its name |
| `ResolveDependencies.CheckIfDagHasCycles` | src/pytask/resolve_dependencies.py:108-119 | passes exactly when the graph has no cycle; a failure carries a cycle error whose edges form a closed path in the graph |
| `ResolveDependencies.CheckIfRootNodesAreAvailable` | src/pytask/resolve_dependencies.py:122-133 | passes exactly when no data node without predecessors has a missing state; a failure names such a node, the first in insertion order, together with its successors |
| `ResolveDependencies.ValidateDag` | src/pytask/resolve_dependencies.py:81-83 | a cyclic graph always fails with a cycle error carrying a real cycle; a missing-root error only comes from an acyclic graph and names a missing root with its successors; it passes exactly when the graph is acyclic and has no missing root |
| `ResolveDependencies.HasNodeChanged` | src/pytask/resolve_dependencies.py:93-105 | a node is unchanged for a task exactly when its current state (the task's when there is one) exists and equals the record for (task, node) |
| `ResolveDependencies.HaveTaskOrNeighborsChanged` | src/pytask/resolve_dependencies.py:86-90 | true exactly when the task itself, a direct predecessor or a direct successor has changed for that task |
| `ResolveDependencies.SelectExecutionDag` | src/pytask/resolve_dependencies.py:65-77 | fails exactly on a cyclic graph, with a real cycle; otherwise it walks a topological order of the tasks, and each task gains exactly one skip marker if the walk over that order skips it and none otherwise |
| `ResolveDependencies.ValidateAndSelect` | src/pytask/resolve_dependencies.py:33-34 | passes exactly when the graph is acyclic and has no missing root; a failure is a cycle error exactly when the graph is cyclic, and the error is true of the graph: a reported cycle is a cycle of it, a reported root is a missing root and comes with its successors; on success each task in the graph gains one skip marker exactly when the walk over a topological order skips it, and on failure no task gains a marker |
| `ResolveDependencies.Session.ResolveDependencies` | src/pytask/resolve_dependencies.py:19-43 | the session's graph is the graph built from its tasks; the result is true exactly when validation passes; on failure the report holds the error, a cycle error exactly when the graph is cyclic, whose cycle is a cycle of the graph or whose node is a missing root listed with its successors, and no marker is added; on success each task in the graph gains one skip marker exactly when the selection skips it; tasks not in the graph keep their markers |
| `SelectionProperties.StepKeepsVisited` | src/pytask/resolve_dependencies.py:69-73 | after any step the visited set is exactly the descending tasks of the changed tasks seen so far |
| `SelectionProperties.StepKeepsSkipped` | src/pytask/resolve_dependencies.py:68-77 | when the new task reaches no earlier task, after the step the skipped tasks are exactly the tasks seen that are not visited |
| `SelectionProperties.WalkInvariant` | src/pytask/resolve_dependencies.py:66-77 | after every prefix of a topological order, the visited set is the descending tasks of the changed tasks seen, and the skipped tasks are the unvisited tasks seen |
| `SelectionProperties.SkipIffNotInvalidated` | src/pytask/resolve_dependencies.py:65-77 | over a topological order, the skipped tasks are exactly the tasks that no changed task (the task itself included) reaches |
| `SelectionProperties.VisitedIffInvalidated` | src/pytask/resolve_dependencies.py:67-73 | over a topological order, the visited tasks are exactly the tasks that some changed task reaches or is |
| `SelectionProperties.TopologicalOrderIrrelevant` | src/pytask/resolve_dependencies.py:66 | any two topological orders give the same visited and skipped sets |
| `SelectionProperties.ChangeInvalidatesDescendants` | src/pytask/resolve_dependencies.py:71-73 | a changed task and every task it reaches are never skipped |
| `SelectionProperties.SkippedMeansUpstreamUnchanged` | src/pytask/resolve_dependencies.py:69-77 | for a skipped task, the task and every task reaching it are unchanged: each node in their neighbourhoods has a state equal to its record |
| `SelectionProperties.UnchangedTaskIsSkipped` | src/pytask/resolve_dependencies.py:74-77 | an unchanged task that no changed task reaches is skipped |
| `SelectionProperties.FirstRunSkipsNothing` | src/pytask/resolve_dependencies.py:100-103 | with an empty store no task is skipped |
| `SelectionProperties.AllRecordedSkipsEverything` | src/pytask/resolve_dependencies.py:86-105 | when every node next to every task is recorded with its current state, every task is skipped |
| `SelectionProperties.ChangedProductChangesProducer` | src/pytask/resolve_dependencies.py:86-90 | a task whose product has changed for it is itself changed |
| `BuildProperties.LastTaskNamedIsLast` | src/pytask/resolve_dependencies.py:49-51 | when the task at position k has the name and no later task has it, that task is the one kept: a later declaration overwrites an earlier one |
| `BuildProperties.LastDataNamedIsLast` | src/pytask/resolve_dependencies.py:52-58 | when the reference at position k has the name and no later reference has it, that data node is the one kept |
| `BuildProperties.LastDataNamedAppend` | src/pytask/resolve_dependencies.py:52-58 | a data node named n in a later part of the references overrides one in an earlier part |
| `BuildProperties.LastDeclaredDataWins` | src/pytask/resolve_dependencies.py:49-58 | after one more task, the data node kept under a name is the last such product of that task, else its last such dependency, else the one kept before |
| `BuildProperties.LastTaskNamedIsDeclared` | src/pytask/resolve_dependencies.py:51 | with distinct task names, the task kept under a task's name is that task |
| `BuildProperties.BuiltGraphCarriesEachTask` | src/pytask/resolve_dependencies.py:50-51 | with distinct task names, each task's name is a node of the built graph carrying exactly that task |
| `BuildProperties.DataRefsIgnoreOrder` | src/pytask/resolve_dependencies.py:53-58 | the same tasks in any order reference the same data nodes |
| `BuildProperties.BuildIgnoresTaskOrder` | src/pytask/resolve_dependencies.py:50-59 | the same tasks in any order give the same node names and the same edge set |
| `BuildProperties.BuiltEdgeIsDeclared` | src/pytask/resolve_dependencies.py:53-59 | every edge of the built graph joins a dependency to its task or a task to its product |
| `BuildProperties.MissingRootIsUnproducedInput` | src/pytask/resolve_dependencies.py:122-133 | in a built graph, a missing root is some task's dependency, no task produces it, and a task under its name has no dependencies |

## Left out

- The logging hook `pytask_resolve_dependencies_log` (lines 136-145) is terminal output and is not modelled.
- Hook dispatch and the report object are not modelled. The pipeline calls the three steps directly. It returns false, with the error kept in `report`, where the source records a report and raises its resolution error.
- Exceptions other than a cycle or a missing root are not modelled. The source also catches those and turns them into the same resolution error.
- The database session and the `State` lookup are modelled as an immutable map from (task name, node name) to a fingerprint; a missing key is the not-found case.
- `state()` on a task or data node, which hashes or stats files, is a given optional fingerprint per object; None stands for the not-found error.
- networkx itself is replaced by a map-and-set graph. The cycle is some cycle of the graph, not necessarily the one `find_cycle` would report, and the error message text and its `pprint` formatting are not modelled.
- Marker arguments are dropped: a marker is its name, since the source attaches `skip_unchanged` with no arguments.
- The successors in a missing-root error are a set. The source lists them in networkx's adjacency order.
- The visited list of the selection is a set. The source only tests membership in it, so duplicates in the list make no difference.
- Topological tie-breaking is not modelled. The selection returns the order it used, and `TopologicalOrderIrrelevant` shows that the choice does not matter.
- The graph helpers `sort_tasks_topologically`, `node_and_neigbors` and `task_and_descending_tasks` are not part of this model. They are replaced by the definitions stated above, and those definitions are assumptions.
- `tests/test_config.py` tests configuration helpers that are not part of this model.
- ResolveDependencies.CreateDag: does not state the insertion order of the node names, only their set; the order matters only to which missing root is reported first.
- On a cyclic graph, `SelectExecutionDag` fails with a cycle error carrying a cycle. The source's topological sort raises an error that carries no cycle. After validation this path cannot be reached.
- Dag.FindCycle: states only that its result is a cycle, not which cycle, since the source's cycle search is a networkx internal.
