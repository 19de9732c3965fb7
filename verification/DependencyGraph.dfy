/**
 Dependency graphs: paths, cycles and topological orders, and the search that decides whether
 registering a task would close a cycle.

 A graph maps each known node to the list of nodes it depends on; a listed node need not be known.
 */
module DependencyGraph {

  type Graph<T> = map<T, seq<T>>

  ghost predicate DependsOn<T>(g: Graph<T>, u: T, v: T) {
    u in g && v in g[u]
  }

  /** Each node of the path depends on the next one. */
  ghost predicate IsPath<T>(g: Graph<T>, p: seq<T>) {
    |p| > 0 && forall k :: 0 <= k < |p| - 1 ==> DependsOn(g, p[k], p[k + 1])
  }

  ghost predicate IsPathFromTo<T>(g: Graph<T>, p: seq<T>, u: T, v: T) {
    IsPath(g, p) && p[0] == u && p[|p| - 1] == v
  }

  ghost predicate Reaches<T(!new)>(g: Graph<T>, u: T, v: T) {
    exists p: seq<T> :: IsPathFromTo(g, p, u, v)
  }

  ghost predicate OnCycle<T(!new)>(g: Graph<T>, u: T) {
    exists p: seq<T> :: IsPathFromTo(g, p, u, u) && |p| >= 2
  }

  ghost predicate Cyclic<T(!new)>(g: Graph<T>) {
    exists u :: OnCycle(g, u)
  }

  // ------------------------------------------------------------------ topological orders

  ghost predicate Distinct<T>(s: seq<T>) {
    forall i, j :: 0 <= i < j < |s| ==> s[i] != s[j]
  }

  /** Known nodes without repetition, each after all the known nodes it depends on. */
  ghost predicate TopologicallyOrdered<T>(g: Graph<T>, order: seq<T>) {
    && Distinct(order)
    && (forall k :: 0 <= k < |order| ==> order[k] in g)
    && forall k, d :: 0 <= k < |order| && d in g[order[k]] && d in g ==> d in order[..k]
  }

  ghost predicate IsTopologicalSort<T>(g: Graph<T>, order: seq<T>) {
    TopologicallyOrdered(g, order) && forall v :: v in g ==> v in order
  }

  /** A graph that has a topological sort has no cycle. */
  lemma SortedGraphIsAcyclic<T(!new)>(g: Graph<T>, order: seq<T>)
    requires IsTopologicalSort(g, order)
    ensures !Cyclic(g)
  {
    forall u | OnCycle(g, u)
      ensures false
    {
      var p: seq<T> :| IsPathFromTo(g, p, u, u) && |p| >= 2;
      assert DependsOn(g, p[0], p[1]);
      var i :| 0 <= i < |order| && order[i] == u;
      PathDescends(g, order, p, i, |p| - 1);
    }
  }

  /** Along a path between known nodes the position in the order strictly decreases. */
  lemma {:induction false} PathDescends<T>(g: Graph<T>, order: seq<T>, p: seq<T>, i: nat, n: nat)
    requires IsTopologicalSort(g, order) && IsPath(g, p)
    requires 0 < n < |p| && p[n] in g
    requires i < |order| && order[i] == p[0]
    ensures p[n] in order[..i]
    decreases n
  {
    if n == 1 {
      assert DependsOn(g, p[0], p[1]);
    } else {
      assert DependsOn(g, p[n - 1], p[n]);
      PathDescends(g, order, p, i, n - 1);
      var j :| 0 <= j < i && order[j] == p[n - 1];
      assert p[n] in order[..j];
    }
  }

  // ------------------------------------------------------------------ three-colour depth-first search

  /** `visiting` holds exactly the nodes on the stack, and each depends on the one above it. */
  ghost predicate OnStack<T>(g: Graph<T>, stack: seq<T>, visiting: set<T>, visited: set<T>) {
    && Distinct(stack)
    && visiting == (set u | u in stack)
    && visited !! visiting
    && (forall k :: 0 <= k < |stack| - 1 ==> DependsOn(g, stack[k], stack[k + 1]))
  }

  /** The finished known nodes are in topological order, closed under dependencies. */
  ghost predicate Finished<T>(g: Graph<T>, order: seq<T>, visited: set<T>) {
    TopologicallyOrdered(g, order) && forall u :: u in g ==> (u in visited <==> u in order)
  }

  lemma PushNode<T>(g: Graph<T>, stack: seq<T>, visiting: set<T>, visited: set<T>, u: T)
    requires OnStack(g, stack, visiting, visited)
    requires u !in visiting && u !in visited
    requires stack != [] ==> DependsOn(g, stack[|stack| - 1], u)
    ensures OnStack(g, stack + [u], visiting + {u}, visited)
  {
  }

  lemma PopNode<T>(g: Graph<T>, stack: seq<T>, visiting: set<T>, visited: set<T>, u: T)
    requires OnStack(g, stack + [u], visiting, visited)
    ensures OnStack(g, stack, visiting - {u}, visited + {u})
  {
    var deeper := stack + [u];
    assert deeper[|stack|] == u;
    assert forall k :: 0 <= k < |stack| ==> stack[k] == deeper[k];
    forall k | 0 <= k < |stack| - 1
      ensures DependsOn(g, stack[k], stack[k + 1])
    {
      assert DependsOn(g, deeper[k], deeper[k + 1]);
    }
    assert forall v :: v in deeper <==> v in stack || v == u;
  }

  lemma FinishNode<T>(g: Graph<T>, order: seq<T>, visited: set<T>, u: T)
    requires Finished(g, order, visited) && u in g && u !in visited
    requires forall d :: d in g[u] ==> d in visited
    ensures Finished(g, order + [u], visited + {u})
  {
    var longer := order + [u];
    forall k, d | 0 <= k < |longer| && d in g[longer[k]] && d in g
      ensures d in longer[..k]
    {
      if k < |order| {
        assert order[k] == longer[k] && longer[..k] == order[..k];
      } else {
        assert longer[..k] == order;
      }
    }
  }

  /** Meeting a node that is still on the stack closes a cycle through it. */
  lemma StackClosesACycle<T(!new)>(g: Graph<T>, stack: seq<T>, visiting: set<T>, visited: set<T>, u: T)
    requires OnStack(g, stack, visiting, visited)
    requires u in visiting && DependsOn(g, stack[|stack| - 1], u)
    ensures OnCycle(g, u) && u in g
  {
    var i :| 0 <= i < |stack| && stack[i] == u;
    var p := stack[i..] + [u];
    forall k | 0 <= k < |p| - 1
      ensures DependsOn(g, p[k], p[k + 1])
    {
      assert p[k] == stack[i + k];
      assert k < |p| - 2 ==> p[k + 1] == stack[i + k + 1];
    }
    assert IsPathFromTo(g, p, u, u);
    assert DependsOn(g, p[0], p[1]);
  }

  // ------------------------------------------------------------------ the cycle check

  /** `visit` inside `wouldCreateCycle`: `seen` holds the nodes of the current path only. */
  predicate Visit<T(==)>(g: Graph<T>, target: T, current: T, seen: set<T>)
    decreases g.Keys - seen
  {
    if current == target then true
    else if current !in g || current in seen then false
    else
      exists k :: 0 <= k < |g[current]| && Visit(g, target, g[current][k], seen + {current})
  }

  /** `wouldCreateCycle` */
  predicate WouldCreateCycle<T(==)>(g: Graph<T>, taskId: T, dependencies: seq<T>) {
    exists k :: 0 <= k < |dependencies| && Visit(g, taskId, dependencies[k], {})
  }

  lemma {:induction false} VisitIsSound<T(!new)>(g: Graph<T>, target: T, current: T, seen: set<T>)
    requires Visit(g, target, current, seen)
    ensures Reaches(g, current, target)
    decreases g.Keys - seen
  {
    if current == target {
      assert IsPathFromTo(g, [current], current, target);
    } else {
      var k :| 0 <= k < |g[current]| && Visit(g, target, g[current][k], seen + {current});
      var next := g[current][k];
      VisitIsSound(g, target, next, seen + {current});
      var p: seq<T> :| IsPathFromTo(g, p, next, target);
      PrependNode(g, current, p);
      assert IsPathFromTo(g, [current] + p, current, target);
    }
  }

  lemma PrependNode<T>(g: Graph<T>, u: T, p: seq<T>)
    requires IsPath(g, p) && DependsOn(g, u, p[0])
    ensures IsPath(g, [u] + p) && ([u] + p)[|p|] == p[|p| - 1]
  {
    var q := [u] + p;
    forall k | 0 <= k < |q| - 1
      ensures DependsOn(g, q[k], q[k + 1])
    {
      assert k > 0 ==> DependsOn(g, p[k - 1], p[k]);
    }
  }

  lemma SuffixOfPath<T>(g: Graph<T>, p: seq<T>, k: nat)
    requires IsPath(g, p) && k < |p|
    ensures IsPath(g, p[k..])
  {
    forall i | 0 <= i < |p[k..]| - 1
      ensures DependsOn(g, p[k..][i], p[k..][i + 1])
    {
      assert DependsOn(g, p[k + i], p[k + i + 1]);
    }
  }

  /** The search misses no path: cutting a path after the last occurrence of its first node leaves a path
      that avoids that node, which the path-local `seen` set therefore never blocks. */
  lemma {:induction false} VisitIsComplete<T(!new)>(g: Graph<T>, target: T, p: seq<T>, seen: set<T>)
    requires IsPath(g, p) && p[|p| - 1] == target
    requires forall k :: 0 <= k < |p| - 1 ==> p[k] !in seen
    ensures Visit(g, target, p[0], seen)
    decreases |p|
  {
    var current := p[0];
    if current != target {
      var k := LastOccurrence(p, current);
      assert DependsOn(g, p[k], p[k + 1]);
      var q := p[k + 1..];
      SuffixOfPath(g, p, k + 1);
      VisitIsComplete(g, target, q, seen + {current});
      var i :| 0 <= i < |g[current]| && g[current][i] == q[0];
      assert Visit(g, target, g[current][i], seen + {current});
    }
  }

  lemma LastOccurrence<T>(p: seq<T>, x: T) returns (k: nat)
    requires x in p
    ensures k < |p| && p[k] == x && forall i :: k < i < |p| ==> p[i] != x
  {
    k := |p| - 1;
    while p[k] != x
      invariant k < |p| && x in p[..k + 1]
      invariant forall i :: k < i < |p| ==> p[i] != x
      decreases k
    {
      assert p[..k + 1] == p[..k] + [p[k]];
      k := k - 1;
    }
  }

  /** The check answers exactly: is the task reachable from one of the given dependencies? */
  lemma CycleCheckIsReachability<T(!new)>(g: Graph<T>, taskId: T, dependencies: seq<T>)
    ensures WouldCreateCycle(g, taskId, dependencies) <==> exists d :: d in dependencies && Reaches(g, d, taskId)
  {
    if WouldCreateCycle(g, taskId, dependencies) {
      var k :| 0 <= k < |dependencies| && Visit(g, taskId, dependencies[k], {});
      VisitIsSound(g, taskId, dependencies[k], {});
    }
    forall d | d in dependencies && Reaches(g, d, taskId)
      ensures WouldCreateCycle(g, taskId, dependencies)
    {
      var p: seq<T> :| IsPathFromTo(g, p, d, taskId);
      VisitIsComplete(g, taskId, p, {});
      var k :| 0 <= k < |dependencies| && dependencies[k] == d;
      assert Visit(g, taskId, dependencies[k], {});
    }
  }

  /** Giving a task these dependencies makes the graph cyclic exactly when the check says so or a cycle
      avoids the task altogether. */
  lemma CycleCheckIsExact<T(!new)>(g: Graph<T>, taskId: T, dependencies: seq<T>)
    ensures Cyclic(g[taskId := dependencies]) <==>
            WouldCreateCycle(g, taskId, dependencies) || Cyclic(g - {taskId})
  {
    var extended, rest := g[taskId := dependencies], g - {taskId};
    CycleCheckIsReachability(g, taskId, dependencies);
    if Cyclic(rest) {
      var u :| OnCycle(rest, u);
      var p: seq<T> :| IsPathFromTo(rest, p, u, u) && |p| >= 2;
      PathInLargerGraph(rest, extended, p);
      assert IsPathFromTo(extended, p, u, u);
      assert OnCycle(extended, u);
    }
    if WouldCreateCycle(g, taskId, dependencies) {
      var d :| d in dependencies && Reaches(g, d, taskId);
      CheckedPathClosesACycle(g, taskId, dependencies, d);
    }
    if Cyclic(extended) {
      var u :| OnCycle(extended, u);
      var p: seq<T> :| IsPathFromTo(extended, p, u, u) && |p| >= 2;
      CycleMeetsTheTask(g, taskId, dependencies, p);
    }
  }

  lemma PathInLargerGraph<T>(g: Graph<T>, larger: Graph<T>, p: seq<T>)
    requires IsPath(g, p)
    requires forall k :: 0 <= k < |p| - 1 && p[k] in g ==> p[k] in larger && larger[p[k]] == g[p[k]]
    ensures IsPath(larger, p)
  {
    forall k | 0 <= k < |p| - 1
      ensures DependsOn(larger, p[k], p[k + 1])
    {
      assert DependsOn(g, p[k], p[k + 1]);
    }
  }

  /** Cut at its first visit to the task, a path from a dependency to the task does not use the task's own
      edges, so it survives redefining them, and the new edge closes it. */
  lemma CheckedPathClosesACycle<T(!new)>(g: Graph<T>, taskId: T, dependencies: seq<T>, d: T)
    requires d in dependencies && Reaches(g, d, taskId)
    ensures OnCycle(g[taskId := dependencies], taskId)
  {
    var extended := g[taskId := dependencies];
    var p: seq<T> :| IsPathFromTo(g, p, d, taskId);
    var n := FirstOccurrence(p, taskId);
    var q := p[..n + 1];
    forall k | 0 <= k < |q| - 1
      ensures DependsOn(extended, q[k], q[k + 1])
    {
      assert DependsOn(g, p[k], p[k + 1]);
    }
    assert DependsOn(extended, taskId, q[0]);
    PrependNode(extended, taskId, q);
    assert IsPathFromTo(extended, [taskId] + q, taskId, taskId);
  }

  lemma FirstOccurrence<T>(p: seq<T>, x: T) returns (k: nat)
    requires x in p
    ensures k < |p| && p[k] == x && x !in p[..k]
  {
    k := 0;
    while p[k] != x
      invariant k < |p| && x !in p[..k]
      decreases |p| - k
    {
      k := k + 1;
      assert p[..k] == p[..k - 1] + [p[k - 1]];
    }
  }

  /** A cycle of the extended graph that is not one of the rest leaves the task by a new edge, and the walk
      around the cycle comes back to it. */
  lemma CycleMeetsTheTask<T(!new)>(g: Graph<T>, taskId: T, dependencies: seq<T>, p: seq<T>)
    requires IsPath(g[taskId := dependencies], p) && |p| >= 2 && p[0] == p[|p| - 1]
    ensures WouldCreateCycle(g, taskId, dependencies) || Cyclic(g - {taskId})
  {
    var extended := g[taskId := dependencies];
    if taskId !in p[..|p| - 1] {
      CycleAvoidsTheTask(g, taskId, dependencies, p);
      return;
    }
    // walk twice around: the second visit to the task comes after the first
    var m := FirstOccurrence(p[..|p| - 1], taskId);
    var twice := p + p[1..];
    WalkTwice(extended, p);
    var tail := twice[m + 1..];
    SuffixOfPath(extended, twice, m + 1);
    assert twice[m + |p| - 1] == taskId;
    assert tail[|p| - 2] == taskId;
    var n := FirstOccurrence(tail, taskId);
    var q := tail[..n + 1];
    forall k | 0 <= k < |q| - 1
      ensures DependsOn(g, q[k], q[k + 1])
    {
      assert DependsOn(extended, tail[k], tail[k + 1]);
      assert tail[k] in tail[..n];
    }
    assert DependsOn(extended, twice[m], twice[m + 1]);
    assert IsPathFromTo(g, q, q[0], taskId);
    assert q[0] in dependencies && Reaches(g, q[0], taskId);
    CycleCheckIsReachability(g, taskId, dependencies);
  }

  lemma CycleAvoidsTheTask<T(!new)>(g: Graph<T>, taskId: T, dependencies: seq<T>, p: seq<T>)
    requires IsPath(g[taskId := dependencies], p) && |p| >= 2 && p[0] == p[|p| - 1]
    requires taskId !in p[..|p| - 1]
    ensures Cyclic(g - {taskId})
  {
    forall k | 0 <= k < |p| - 1
      ensures DependsOn(g - {taskId}, p[k], p[k + 1])
    {
      assert DependsOn(g[taskId := dependencies], p[k], p[k + 1]);
      assert p[k] in p[..|p| - 1];
    }
    assert IsPathFromTo(g - {taskId}, p, p[0], p[0]);
    assert OnCycle(g - {taskId}, p[0]);
  }

  lemma WalkTwice<T>(g: Graph<T>, p: seq<T>)
    requires IsPath(g, p) && |p| >= 2 && p[0] == p[|p| - 1]
    ensures IsPath(g, p + p[1..])
  {
    var twice := p + p[1..];
    forall k | 0 <= k < |twice| - 1
      ensures DependsOn(g, twice[k], twice[k + 1])
    {
      if k < |p| - 1 {
        assert DependsOn(g, p[k], p[k + 1]);
      } else {
        var i := k - (|p| - 1);
        assert twice[k] == p[i] && twice[k + 1] == p[i + 1];
        assert DependsOn(g, p[i], p[i + 1]);
      }
    }
  }
}
