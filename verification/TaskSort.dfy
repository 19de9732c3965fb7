/** Registered tasks and their topological sort by three-colour depth-first search. */
module TaskSort {
  import opened Prelude
  import opened DependencyGraph

  type TaskId = string

  datatype TaskState = Pending | Ready | Running | Succeeded | Failed | Blocked | Cancelled

  /** A task whose definition has no dependency list is one with an empty list. */
  datatype RegisteredTask = RegisteredTask(
    id: TaskId,
    title: string,
    dependsOn: seq<TaskId>,
    state: TaskState,
    createdAt: int,
    updatedAt: int
  )

  /** `new Map(tasks.map(t => [t.id, t]))`: of two tasks with one id the later wins. */
  function TaskMap(tasks: seq<RegisteredTask>): map<TaskId, RegisteredTask> {
    if tasks == [] then map[]
    else
      var last := tasks[|tasks| - 1];
      TaskMap(tasks[..|tasks| - 1])[last.id := last]
  }

  function GraphOf(tasks: map<TaskId, RegisteredTask>): Graph<TaskId> {
    map id | id in tasks :: tasks[id].dependsOn
  }

  function Ids(tasks: seq<RegisteredTask>): (ids: seq<TaskId>)
    ensures |ids| == |tasks|
    ensures forall k :: 0 <= k < |tasks| ==> ids[k] == tasks[k].id
  {
    seq(|tasks|, k requires 0 <= k < |tasks| => tasks[k].id)
  }

  lemma {:induction false} TaskMapHasTheIds(tasks: seq<RegisteredTask>)
    ensures forall id :: id in TaskMap(tasks) <==> id in Ids(tasks)
    ensures forall id :: id in TaskMap(tasks) ==> TaskMap(tasks)[id].id == id && TaskMap(tasks)[id] in tasks
  {
    if tasks != [] {
      var init, last := tasks[..|tasks| - 1], tasks[|tasks| - 1];
      TaskMapHasTheIds(init);
      assert Ids(tasks) == Ids(init) + [last.id];
      assert tasks == init + [last];
    }
  }

  lemma {:induction false} TaskMapOfDistinctIds(tasks: seq<RegisteredTask>)
    requires Distinct(Ids(tasks))
    ensures forall k :: 0 <= k < |tasks| ==> tasks[k].id in TaskMap(tasks) && TaskMap(tasks)[tasks[k].id] == tasks[k]
  {
    if tasks != [] {
      var init, last := tasks[..|tasks| - 1], tasks[|tasks| - 1];
      assert forall k :: 0 <= k < |init| ==> Ids(init)[k] == Ids(tasks)[k];
      TaskMapOfDistinctIds(init);
      forall k | 0 <= k < |tasks|
        ensures tasks[k].id in TaskMap(tasks) && TaskMap(tasks)[tasks[k].id] == tasks[k]
      {
        if k < |init| {
          assert init[k] == tasks[k];
          assert Ids(tasks)[k] != Ids(tasks)[|init|];
        }
      }
    }
  }

  /** The mutable state shared by the recursive visits of one sort. */
  class TopologicalSorter {
    const taskMap: map<TaskId, RegisteredTask>
    var sorted: seq<RegisteredTask>
    var visited: set<TaskId>
    var visiting: set<TaskId>

    constructor (taskMap: map<TaskId, RegisteredTask>)
      ensures this.taskMap == taskMap && sorted == [] && visited == {} && visiting == {}
    {
      this.taskMap := taskMap;
      sorted, visited, visiting := [], {}, {};
    }

    /** `stack` lists the tasks being visited, outermost first; everything visited is sorted. */
    ghost predicate Searching(stack: seq<TaskId>)
      reads this
    {
      && OnStack(GraphOf(taskMap), stack, visiting, visited)
      && Finished(GraphOf(taskMap), Ids(sorted), visited)
      && FromMap(taskMap, sorted)
    }

    ghost predicate KeysMatch() {
      forall id :: id in taskMap ==> taskMap[id].id == id
    }

    /** `visit`. The result names the task at which a cycle was met, if one was. */
    method Visit(taskId: TaskId, ghost stack: seq<TaskId>) returns (cycleAt: Option<TaskId>)
      requires KeysMatch() && Searching(stack)
      requires stack != [] ==> DependsOn(GraphOf(taskMap), stack[|stack| - 1], taskId)
      modifies this`sorted, this`visited, this`visiting
      ensures cycleAt.None? ==> Searching(stack) && visiting == old(visiting)
      ensures cycleAt.None? ==> old(visited) + {taskId} <= visited
      ensures cycleAt.Some? ==> OnCycle(GraphOf(taskMap), cycleAt.value)
      ensures taskId in old(visited) || taskId !in taskMap ==> cycleAt.None? && sorted == old(sorted)
      ensures NextInOrder(taskMap, old(visited), old(visiting), taskId) ==> cycleAt.None? && sorted == old(sorted) + [taskMap[taskId]]
      decreases taskMap.Keys - visiting
    {
      if taskId in visited { return None; }
      if taskId in visiting {
        StackClosesACycle(GraphOf(taskMap), stack, visiting, visited, taskId);
        return Some(taskId);
      }

      PushNode(GraphOf(taskMap), stack, visiting, visited, taskId);
      visiting := visiting + {taskId};
      ghost var deeper := stack + [taskId];
      if taskId in taskMap {
        var task := taskMap[taskId];
        for k := 0 to |task.dependsOn|
          invariant Searching(deeper) && visiting == old(visiting) + {taskId}
          invariant old(visited) <= visited
          invariant forall i :: 0 <= i < k ==> task.dependsOn[i] in visited
          invariant NextInOrder(taskMap, old(visited), old(visiting), taskId) ==> sorted == old(sorted)
        {
          assert DependsOn(GraphOf(taskMap), taskId, task.dependsOn[k]);
          cycleAt := Visit(task.dependsOn[k], deeper);
          if cycleAt.Some? { return; }
        }
        FinishTask(taskMap, sorted, visited, taskId);
        sorted := sorted + [task];
      }
      PopNode(GraphOf(taskMap), stack, visiting, visited, taskId);
      visiting := visiting - {taskId};
      visited := visited + {taskId};
      return None;
    }
  }

  /** Nothing is left to do below the task: its known dependencies are all visited. */
  ghost predicate NextInOrder(
      taskMap: map<TaskId, RegisteredTask>, visited: set<TaskId>, visiting: set<TaskId>, id: TaskId)
  {
    && id in taskMap && id !in visited && id !in visiting
    && forall d :: d in taskMap[id].dependsOn && d in taskMap ==> d in visited
  }

  /** The sorted tasks are the map's own values. */
  ghost predicate FromMap(taskMap: map<TaskId, RegisteredTask>, sorted: seq<RegisteredTask>) {
    forall k :: 0 <= k < |sorted| ==> sorted[k].id in taskMap && taskMap[sorted[k].id] == sorted[k]
  }

  lemma FinishTask(taskMap: map<TaskId, RegisteredTask>, sorted: seq<RegisteredTask>, visited: set<TaskId>, id: TaskId)
    requires Finished(GraphOf(taskMap), Ids(sorted), visited) && FromMap(taskMap, sorted)
    requires id in taskMap && id !in visited && taskMap[id].id == id
    requires forall d :: d in taskMap[id].dependsOn ==> d in visited
    ensures Finished(GraphOf(taskMap), Ids(sorted + [taskMap[id]]), visited + {id})
    ensures FromMap(taskMap, sorted + [taskMap[id]])
  {
    FinishNode(GraphOf(taskMap), Ids(sorted), visited, id);
    assert Ids(sorted + [taskMap[id]]) == Ids(sorted) + [id];
  }

  /** `sortTasksTopologically`: it throws exactly when the dependencies among the given tasks form a cycle;
      otherwise every listed dependency precedes its dependents, and a list already in such an order is
      returned unchanged. */
  method SortTasksTopologically(tasks: seq<RegisteredTask>) returns (r: Result<seq<RegisteredTask>, TaskId>)
    ensures r.Err? <==> Cyclic(GraphOf(TaskMap(tasks)))
    ensures r.Err? ==> OnCycle(GraphOf(TaskMap(tasks)), r.error)
    ensures r.Ok? ==> IsTopologicalSort(GraphOf(TaskMap(tasks)), Ids(r.value)) && FromMap(TaskMap(tasks), r.value)
    ensures TopologicallyOrdered(GraphOf(TaskMap(tasks)), Ids(tasks)) ==> r == Ok(tasks)
  {
    TaskMapIsKeyedById(tasks);
    var sorter := new TopologicalSorter(TaskMap(tasks));
    ghost var presorted := TopologicallyOrdered(GraphOf(TaskMap(tasks)), Ids(tasks));
    for i := 0 to |tasks|
      invariant sorter.Searching([])
      invariant forall k :: 0 <= k < i ==> tasks[k].id in sorter.visited
      invariant presorted ==> sorter.sorted == tasks[..i]
    {
      if presorted {
        PresortedStep(sorter.taskMap, sorter.sorted, sorter.visited, sorter.visiting, tasks, i);
      }
      var cycleAt := sorter.Visit(tasks[i].id, []);
      if cycleAt.Some? {
        return Err(cycleAt.value);
      }
    }
    assert tasks[..|tasks|] == tasks;
    AllVisitedIsSorted(tasks, sorter.sorted, sorter.visited);
    r := Ok(sorter.sorted);
  }

  lemma TaskMapIsKeyedById(tasks: seq<RegisteredTask>)
    ensures forall id :: id in TaskMap(tasks) ==> TaskMap(tasks)[id].id == id
  {
    TaskMapHasTheIds(tasks);
  }

  lemma AllVisitedIsSorted(tasks: seq<RegisteredTask>, sorted: seq<RegisteredTask>, visited: set<TaskId>)
    requires Finished(GraphOf(TaskMap(tasks)), Ids(sorted), visited)
    requires forall k :: 0 <= k < |tasks| ==> tasks[k].id in visited
    ensures IsTopologicalSort(GraphOf(TaskMap(tasks)), Ids(sorted))
    ensures !Cyclic(GraphOf(TaskMap(tasks)))
  {
    TaskMapHasTheIds(tasks);
    SortedGraphIsAcyclic(GraphOf(TaskMap(tasks)), Ids(sorted));
  }

  /** In a list that is already in order, the next task is unvisited and its dependencies are not. */
  lemma PresortedStep(
      taskMap: map<TaskId, RegisteredTask>, sorted: seq<RegisteredTask>,
      visited: set<TaskId>, visiting: set<TaskId>, tasks: seq<RegisteredTask>, i: nat)
    requires taskMap == TaskMap(tasks) && Finished(GraphOf(taskMap), Ids(sorted), visited) && visiting == {}
    requires i < |tasks| && sorted == tasks[..i]
    requires TopologicallyOrdered(GraphOf(taskMap), Ids(tasks))
    ensures NextInOrder(taskMap, visited, visiting, tasks[i].id)
    ensures sorted + [taskMap[tasks[i].id]] == tasks[..i + 1]
  {
    TaskMapOfDistinctIds(tasks);
    assert Ids(tasks[..i]) == Ids(tasks)[..i];
    assert Ids(tasks)[i] == tasks[i].id;
  }

  /** With distinct ids, the sorted list is a permutation of the given one. */
  lemma SortIsAPermutation(tasks: seq<RegisteredTask>, sorted: seq<RegisteredTask>)
    requires Distinct(Ids(tasks))
    requires IsTopologicalSort(GraphOf(TaskMap(tasks)), Ids(sorted)) && FromMap(TaskMap(tasks), sorted)
    ensures multiset(sorted) == multiset(tasks)
  {
    TaskMapHasTheIds(tasks);
    TaskMapOfDistinctIds(tasks);
    forall t | t in tasks
      ensures t in sorted
    {
      assert t.id in Ids(sorted);
    }
    SameElementsArePermutations(sorted, tasks);
  }

  lemma {:induction false} SameElementsArePermutations(a: seq<RegisteredTask>, b: seq<RegisteredTask>)
    requires Distinct(Ids(a)) && Distinct(Ids(b))
    requires forall t :: t in a <==> t in b
    ensures multiset(a) == multiset(b)
  {
    forall t
      ensures multiset(a)[t] == multiset(b)[t]
    {
      DistinctCountsOne(a, t);
      DistinctCountsOne(b, t);
    }
  }

  lemma {:induction false} DistinctCountsOne(a: seq<RegisteredTask>, t: RegisteredTask)
    requires Distinct(Ids(a))
    ensures multiset(a)[t] == if t in a then 1 else 0
  {
    if a != [] {
      var init, last := a[..|a| - 1], a[|a| - 1];
      assert a == init + [last];
      assert forall k :: 0 <= k < |init| ==> Ids(init)[k] == Ids(a)[k];
      DistinctCountsOne(init, t);
      assert last !in init by {
        assert forall k :: 0 <= k < |init| ==> Ids(a)[k] != Ids(a)[|init|];
      }
    }
  }
}
