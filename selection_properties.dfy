/**
 * What the selection pass decides, independently of how it walks the graph: a task is marked to be
 * skipped exactly when no task upstream of it (itself included) or next to such a task changed.
 */
module SelectionProperties {
  import opened Wrappers
  import opened Dag
  import opened ResolveDependencies

  /** Some changed task is `t` itself or reaches `t`. */
  ghost predicate Invalidated(g: Graph, store: Store, t: string)
    requires Valid(g)
  {
    exists u :: IsTask(g, u) && HaveTaskOrNeighborsChanged(g, store, u) && t in TaskAndDescendants(g, u)
  }

  /** The tasks the pass must skip: those nothing invalidates. */
  ghost function Unaffected(g: Graph, store: Store): set<string>
    requires Valid(g)
  {
    set t | t in g.nodes.Keys && IsTask(g, t) && !Invalidated(g, store, t)
  }

  /** `visited` holds exactly the descendants of the changed tasks in `p`. */
  ghost predicate VisitedMatches(g: Graph, store: Store, p: seq<string>, visited: set<string>)
    requires Valid(g) && forall x :: x in p ==> IsTask(g, x)
  {
    forall x :: x in visited <==>
      exists u :: u in p && IsTask(g, u) && HaveTaskOrNeighborsChanged(g, store, u) && x in TaskAndDescendants(g, u)
  }

  /** `skipped` holds exactly the tasks of `p` that are not visited. */
  ghost predicate SkippedMatches(p: seq<string>, s: SelectState) {
    forall x :: x in s.skipped <==> x in p && x !in s.visited
  }

  /** One step of the pass keeps the visited set equal to the descendants of the changed tasks. */
  lemma StepKeepsVisited(g: Graph, store: Store, p: seq<string>, t: string, w: SelectState)
    requires Valid(g) && IsTask(g, t) && forall x :: x in p ==> IsTask(g, x)
    requires VisitedMatches(g, store, p, w.visited)
    ensures forall x :: x in p + [t] ==> IsTask(g, x)
    ensures VisitedMatches(g, store, p + [t], Step(g, store, w, t).visited)
  {
    var w' := Step(g, store, w, t);
    forall x
      ensures x in w'.visited <==>
        exists u :: u in p + [t] && HaveTaskOrNeighborsChanged(g, store, u) && x in TaskAndDescendants(g, u)
    {
      if x in w'.visited {
        if x in w.visited {
          var u :| u in p && HaveTaskOrNeighborsChanged(g, store, u) && x in TaskAndDescendants(g, u);
          assert u in p + [t];
        } else {
          assert t in p + [t] && HaveTaskOrNeighborsChanged(g, store, t) && x in TaskAndDescendants(g, t);
        }
      } else {
        forall u | u in p + [t] && HaveTaskOrNeighborsChanged(g, store, u)
          ensures x !in TaskAndDescendants(g, u)
        {
          if u == t && t in w.visited && x in TaskAndDescendants(g, t) {
            // t was already visited: an earlier changed task reaches it, hence reaches x.
            var v :| v in p && HaveTaskOrNeighborsChanged(g, store, v) && t in TaskAndDescendants(g, v);
            DescendantsTransitive(g, v, t, x);
          }
        }
      }
    }
  }

  /**
   * One step of the pass keeps the skipped set equal to the unvisited tasks seen, provided the new
   * task is new and reaches none of the tasks seen before it.
   */
  lemma StepKeepsSkipped(g: Graph, store: Store, p: seq<string>, t: string, w: SelectState)
    requires Valid(g) && IsTask(g, t) && t !in p
    requires forall x :: x in p ==> !Reachable(g, t, x)
    requires SkippedMatches(p, w)
    ensures SkippedMatches(p + [t], Step(g, store, w, t))
  {
    var w' := Step(g, store, w, t);
    forall x
      ensures x in w'.skipped <==> x in p + [t] && x !in w'.visited
    {
      if x in w.skipped && t !in w.visited && HaveTaskOrNeighborsChanged(g, store, t) {
        assert x in p && x != t;
        assert x !in TaskAndDescendants(g, t);
      }
    }
  }

  /**
   * After the first `i` tasks of a topological order, the visited set holds exactly the
   * descendants of the changed tasks seen so far, and the skipped set exactly the tasks seen so far
   * that are not visited.
   */
  lemma {:induction false} WalkInvariant(g: Graph, store: Store, o: seq<string>, i: nat)
    requires Valid(g) && IsTaskTopoOrder(g, o) && i <= |o|
    ensures forall x :: x in o[..i] ==> IsTask(g, x)
    ensures VisitedMatches(g, store, o[..i], Walk(g, store, o[..i]).visited)
    ensures SkippedMatches(o[..i], Walk(g, store, o[..i]))
  {
    assert forall x :: x in o[..i] ==> IsTask(g, x);
    if i == 0 {
      assert o[..0] == [];
    } else {
      var p, t := o[..i - 1], o[i - 1];
      WalkInvariant(g, store, o, i - 1);
      assert o[..i] == p + [t];
      assert (p + [t])[..i - 1] == p;
      var w := Walk(g, store, p);
      assert Walk(g, store, p + [t]) == Step(g, store, w, t);
      forall x | x in p
        ensures x != t && !Reachable(g, t, x)
      {
        var a :| 0 <= a < i - 1 && o[a] == x;
      }
      StepKeepsVisited(g, store, p, t, w);
      StepKeepsSkipped(g, store, p, t, w);
    }
  }

  /** Over a whole topological order the pass skips exactly the tasks nothing invalidates. */
  lemma SkipIffNotInvalidated(g: Graph, store: Store, o: seq<string>)
    requires Valid(g) && IsTaskTopoOrder(g, o)
    ensures forall x :: x in o ==> IsTask(g, x)
    ensures Walk(g, store, o).skipped == Unaffected(g, store)
  {
    WalkInvariant(g, store, o, |o|);
    assert o[..|o|] == o;
    var w := Walk(g, store, o);
    assert VisitedMatches(g, store, o, w.visited) && SkippedMatches(o, w);
    forall x
      ensures x in w.skipped <==> x in Unaffected(g, store)
    {
      if x in w.skipped {
        forall u | IsTask(g, u) && HaveTaskOrNeighborsChanged(g, store, u)
          ensures x !in TaskAndDescendants(g, u)
        {
          assert u in o;
        }
      }
      if x in Unaffected(g, store) {
        assert x in o;
        forall u | u in o && HaveTaskOrNeighborsChanged(g, store, u)
          ensures x !in TaskAndDescendants(g, u)
        {
        }
      }
    }
  }

  /** The visited set is the set of invalidated tasks. */
  lemma VisitedIffInvalidated(g: Graph, store: Store, o: seq<string>)
    requires Valid(g) && IsTaskTopoOrder(g, o)
    ensures forall x :: x in o ==> IsTask(g, x)
    ensures forall x :: x in Walk(g, store, o).visited <==> IsTask(g, x) && Invalidated(g, store, x)
  {
    WalkInvariant(g, store, o, |o|);
    assert o[..|o|] == o;
    var w := Walk(g, store, o);
    assert VisitedMatches(g, store, o, w.visited);
    forall x
      ensures x in w.visited <==> IsTask(g, x) && Invalidated(g, store, x)
    {
      if x in w.visited {
        var u :| u in o && HaveTaskOrNeighborsChanged(g, store, u) && x in TaskAndDescendants(g, u);
        assert IsTask(g, x);
      }
      if IsTask(g, x) && Invalidated(g, store, x) {
        var u :| IsTask(g, u) && HaveTaskOrNeighborsChanged(g, store, u) && x in TaskAndDescendants(g, u);
        assert u in o;
      }
    }
  }

  /** Which tasks get skipped does not depend on which topological order the pass follows. */
  lemma TopologicalOrderIrrelevant(g: Graph, store: Store, o1: seq<string>, o2: seq<string>)
    requires Valid(g) && IsTaskTopoOrder(g, o1) && IsTaskTopoOrder(g, o2)
    ensures forall x :: x in o1 ==> IsTask(g, x)
    ensures forall x :: x in o2 ==> IsTask(g, x)
    ensures Walk(g, store, o1) == Walk(g, store, o2)
  {
    SkipIffNotInvalidated(g, store, o1);
    SkipIffNotInvalidated(g, store, o2);
    VisitedIffInvalidated(g, store, o1);
    VisitedIffInvalidated(g, store, o2);
  }

  /** A changed task and every task it reaches are never skipped. */
  lemma ChangeInvalidatesDescendants(g: Graph, store: Store, o: seq<string>, u: string, x: string)
    requires Valid(g) && IsTaskTopoOrder(g, o)
    requires IsTask(g, u) && HaveTaskOrNeighborsChanged(g, store, u) && x in TaskAndDescendants(g, u)
    ensures forall y :: y in o ==> IsTask(g, y)
    ensures x !in Walk(g, store, o).skipped
  {
    SkipIffNotInvalidated(g, store, o);
  }

  /**
   * A skipped task is unchanged, and so is every task that reaches it: its own state, the states
   * of its direct neighbours, and those of every upstream task's neighbours match the records.
   */
  lemma SkippedMeansUpstreamUnchanged(g: Graph, store: Store, o: seq<string>, x: string, u: string)
    requires Valid(g) && IsTaskTopoOrder(g, o)
    requires forall y :: y in o ==> IsTask(g, y)
    requires x in Walk(g, store, o).skipped
    requires IsTask(g, u) && (u == x || Reachable(g, u, x))
    ensures !HaveTaskOrNeighborsChanged(g, store, u)
    ensures forall n :: n in NodeAndNeighbors(g, u) ==>
      CurrentState(g.nodes[n]).Some? && Recorded(store, u, CurrentName(g.nodes[n])) == CurrentState(g.nodes[n])
  {
    SkipIffNotInvalidated(g, store, o);
    assert x in Unaffected(g, store);
    assert IsTask(g, x);
    assert x in TaskAndDescendants(g, u);
    forall n | n in NodeAndNeighbors(g, u)
      ensures CurrentState(g.nodes[n]).Some? && Recorded(store, u, CurrentName(g.nodes[n])) == CurrentState(g.nodes[n])
    {
      assert !HasNodeChanged(store, u, g.nodes[n]);
    }
  }

  /**
   * A task that did not change, and that no changed task reaches, is skipped: the pass does not
   * invalidate anything beyond the descendants of changed tasks.
   */
  lemma UnchangedTaskIsSkipped(g: Graph, store: Store, o: seq<string>, t: string)
    requires Valid(g) && IsTaskTopoOrder(g, o) && IsTask(g, t)
    requires !HaveTaskOrNeighborsChanged(g, store, t)
    requires forall u :: IsTask(g, u) && Reachable(g, u, t) ==> !HaveTaskOrNeighborsChanged(g, store, u)
    ensures forall y :: y in o ==> IsTask(g, y)
    ensures t in Walk(g, store, o).skipped
  {
    SkipIffNotInvalidated(g, store, o);
    forall u | IsTask(g, u) && HaveTaskOrNeighborsChanged(g, store, u)
      ensures t !in TaskAndDescendants(g, u)
    {
    }
    assert t in Unaffected(g, store);
  }

  /** With no recorded states (a first run) every task is changed, so nothing is skipped. */
  lemma FirstRunSkipsNothing(g: Graph, o: seq<string>)
    requires Valid(g) && IsTaskTopoOrder(g, o)
    ensures forall y :: y in o ==> IsTask(g, y)
    ensures Walk(g, map[], o).skipped == {}
  {
    SkipIffNotInvalidated(g, map[], o);
    forall x | IsTask(g, x)
      ensures Invalidated(g, map[], x)
    {
      assert x in NodeAndNeighbors(g, x) && HasNodeChanged(map[], x, g.nodes[x]);
      assert x in TaskAndDescendants(g, x);
    }
  }

  /**
   * When every node the tasks see is recorded with its current state, nothing is invalidated and
   * every task is skipped.
   */
  lemma AllRecordedSkipsEverything(g: Graph, store: Store, o: seq<string>)
    requires Valid(g) && IsTaskTopoOrder(g, o)
    requires forall u, n :: IsTask(g, u) && n in NodeAndNeighbors(g, u) ==>
      CurrentState(g.nodes[n]).Some? && Recorded(store, u, CurrentName(g.nodes[n])) == CurrentState(g.nodes[n])
    ensures forall y :: y in o ==> IsTask(g, y)
    ensures Walk(g, store, o).skipped == set x | x in o
  {
    SkipIffNotInvalidated(g, store, o);
    forall u | IsTask(g, u)
      ensures !HaveTaskOrNeighborsChanged(g, store, u)
    {
      forall n | n in NodeAndNeighbors(g, u)
        ensures !HasNodeChanged(store, u, g.nodes[n])
      {
      }
    }
  }

  /**
   * A task whose product's state differs from the one recorded for that task counts as changed:
   * the neighbourhood looked at includes the successors.
   */
  lemma ChangedProductChangesProducer(g: Graph, store: Store, t: string, p: string)
    requires Valid(g) && IsTask(g, t) && (t, p) in g.edges
    requires HasNodeChanged(store, t, g.nodes[p])
    ensures HaveTaskOrNeighborsChanged(g, store, t)
  {
    assert p in NodeAndNeighbors(g, t);
  }
}
