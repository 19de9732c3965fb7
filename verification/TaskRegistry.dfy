/** The stateful task registry: registration, state transitions, stored results and the refresh that
    promotes pending tasks. */
module TaskRegistryModel {
  import opened Prelude
  import opened DependencyGraph
  import opened TaskSort

  datatype TaskDefinition = TaskDefinition(id: TaskId, title: string, dependsOn: seq<TaskId>)

  datatype ResultStatus = ResultSucceeded | ResultFailed | ResultCancelled

  datatype TaskResult = TaskResult(taskId: TaskId, status: ResultStatus, finishedAt: int)

  datatype ErrorCode = Cycle | Duplicate | InvalidTransition | MissingDependency | NotFound

  /** `canTransition` */
  predicate CanTransition(current: TaskState, next: TaskState) {
    match current
    case Pending => next == Ready || next == Blocked || next == Cancelled
    case Ready => next == Running || next == Blocked || next == Cancelled
    case Running => next == Succeeded || next == Failed || next == Cancelled
    case Succeeded => false
    case Failed => next == Ready
    case Blocked => next == Ready || next == Cancelled
    case Cancelled => false
  }

  /** The moves the table allows, by the state they lead to: nothing becomes pending again, only a ready task starts to
      run, only a running one succeeds or fails, and only a failed one can be retried. */
  lemma MovesIntoEachState(from: TaskState, to: TaskState)
    ensures CanTransition(from, to) <==>
            match to
            case Pending => false
            case Ready => from == Pending || from == Failed || from == Blocked
            case Running => from == Ready
            case Succeeded => from == Running
            case Failed => from == Running
            case Blocked => from == Pending || from == Ready
            case Cancelled => from != Succeeded && from != Failed && from != Cancelled
  {
  }

  type Tasks = map<TaskId, RegisteredTask>

  predicate IsReady(tasks: Tasks, dependencies: seq<TaskId>) {
    forall k :: 0 <= k < |dependencies| ==> dependencies[k] in tasks && tasks[dependencies[k]].state == Succeeded
  }

  /** Ready means that every listed dependency is registered and has succeeded; so without dependencies always. */
  lemma ReadyMeansAllSucceeded(tasks: Tasks, dependencies: seq<TaskId>)
    ensures IsReady(tasks, dependencies) <==>
            forall d :: d in dependencies ==> d in tasks && tasks[d].state == Succeeded
  {
  }

  predicate ShouldPromote(tasks: Tasks, task: RegisteredTask) {
    task.state == Pending && IsReady(tasks, task.dependsOn)
  }

  /** The clock reading made when a task is promoted. */
  type Clock = TaskId -> int

  /** Every pending task whose dependencies have all succeeded becomes ready; nothing else changes. */
  function Refreshed(tasks: Tasks, now: Clock): Tasks {
    map id | id in tasks ::
      if ShouldPromote(tasks, tasks[id]) then tasks[id].(state := Ready, updatedAt := now(id)) else tasks[id]
  }

  /** No pending task has all its dependencies succeeded. */
  ghost predicate Settled(tasks: Tasks) {
    forall id :: id in tasks ==> !ShouldPromote(tasks, tasks[id])
  }

  /** The registration order lists each task once, every dependency strictly before its dependents. */
  ghost predicate RegisteredInOrder(order: seq<TaskId>, tasks: Tasks) {
    && Distinct(order)
    && (forall id :: id in tasks <==> id in order)
    && (forall id :: id in tasks ==> tasks[id].id == id)
    && forall k, d :: 0 <= k < |order| && d in tasks[order[k]].dependsOn ==> d in order[..k]
  }

  class TaskRegistry {
    // an insertion-ordered map: the ids in the order in which they were first set, and the values
    var order: seq<TaskId>
    var tasks: Tasks
    var results: map<TaskId, TaskResult>

    ghost predicate Valid()
      reads this
    {
      RegisteredInOrder(order, tasks) && results.Keys <= tasks.Keys
    }

    constructor ()
      ensures Valid() && order == [] && tasks == map[] && results == map[]
    {
      order, tasks, results := [], map[], map[];
    }

    method Register(definition: TaskDefinition, now: int) returns (r: Result<RegisteredTask, ErrorCode>)
      requires Valid()
      modifies this
      ensures Valid() && results == old(results)
      ensures r.Err? ==> order == old(order) && tasks == old(tasks)
      ensures r == Err(Duplicate) <==> definition.id in old(tasks)
      ensures r == Err(MissingDependency) <==>
                definition.id !in old(tasks) && exists d :: d in definition.dependsOn && d !in old(tasks)
      ensures r.Err? ==> r.error == Duplicate || r.error == MissingDependency
      ensures r.Ok? ==>
                && r.value == RegisteredTask(definition.id, definition.title, definition.dependsOn,
                                             if IsReady(old(tasks), definition.dependsOn) then Ready else Pending,
                                             now, now)
                && order == old(order) + [definition.id]
                && tasks == old(tasks)[definition.id := r.value]
      ensures old(Settled(tasks)) ==> Settled(tasks)
    {
      if definition.id in tasks { return Err(Duplicate); }
      for k := 0 to |definition.dependsOn|
        invariant forall i :: 0 <= i < k ==> definition.dependsOn[i] in tasks
      {
        if definition.dependsOn[k] !in tasks { return Err(MissingDependency); }
      }
      RegisterNeverReportsACycle(order, tasks, definition);
      if WouldCreateCycle(GraphOf(tasks), definition.id, definition.dependsOn) { return Err(Cycle); }

      var task := RegisteredTask(definition.id, definition.title, definition.dependsOn,
                                 if IsReady(tasks, definition.dependsOn) then Ready else Pending, now, now);
      RegisterKeepsOrder(order, tasks, task);
      order, tasks := order + [task.id], tasks[task.id := task];
      return Ok(task);
    }

    method Transition(taskId: TaskId, nextState: TaskState, now: int) returns (r: Result<RegisteredTask, ErrorCode>)
      requires Valid()
      modifies this
      ensures Valid() && order == old(order) && results == old(results)
      ensures r == Err(NotFound) <==> taskId !in old(tasks)
      ensures r == Err(InvalidTransition) <==> taskId in old(tasks) && !CanTransition(old(tasks)[taskId].state, nextState)
      ensures r.Err? ==> tasks == old(tasks) && r.error in {NotFound, InvalidTransition}
      ensures r.Ok? ==> r.value == old(tasks)[taskId].(state := nextState, updatedAt := now)
                        && tasks == old(tasks)[taskId := r.value]
    {
      if taskId !in tasks { return Err(NotFound); }
      var task := tasks[taskId];
      if !CanTransition(task.state, nextState) { return Err(InvalidTransition); }
      var updated := task.(state := nextState, updatedAt := now);
      tasks := tasks[taskId := updated];
      return Ok(updated);
    }

    method StoreResult(result: TaskResult, now: Clock) returns (r: Result<TaskResult, ErrorCode>)
      requires Valid()
      modifies this
      ensures Valid() && order == old(order)
      ensures r.Err? <==> result.taskId !in old(tasks)
      ensures r.Err? ==> r.error == NotFound && tasks == old(tasks) && results == old(results)
      ensures r.Ok? ==>
                && r.value == result && results == old(results)[result.taskId := result]
                && tasks == Refreshed(WithResult(old(tasks), result), now)
                && tasks[result.taskId] == old(tasks)[result.taskId].(
                     state := (match result.status
                               case ResultSucceeded => Succeeded
                               case ResultFailed => Failed
                               case ResultCancelled => Cancelled),
                     updatedAt := result.finishedAt)
                && Settled(tasks)
    {
      if result.taskId !in tasks { return Err(NotFound); }
      results := results[result.taskId := result];
      tasks := WithResult(tasks, result);
      RefreshPendingTasks(now);
      return Ok(result);
    }

    /** The ready tasks in registration order; `from` says where they are in it. */
    method ListReady(now: Clock) returns (ready: seq<RegisteredTask>, ghost from: seq<nat>)
      requires Valid()
      modifies this
      ensures Valid() && order == old(order) && results == old(results)
      ensures tasks == Refreshed(old(tasks), now) && Settled(tasks)
      ensures ListsReady(order, tasks, |order|, ready, from)
      ensures forall t :: t in ready <==> t.id in tasks && tasks[t.id] == t && t.state == Ready
    {
      RefreshPendingTasks(now);
      var ids, values := order, tasks;
      ready, from := [], [];
      for k := 0 to |ids|
        invariant ListsReady(ids, values, k, ready, from)
        modifies {}
      {
        ListsOneMore(ids, values, k, ready, from);
        if values[ids[k]].state == Ready {
          ready, from := ready + [values[ids[k]]], from + [k];
        }
      }
      ReadyAreListed(ids, values, ready, from);
    }

    /** `#refreshPendingTasks`: one pass in registration order, updating the map it iterates over. */
    method RefreshPendingTasks(now: Clock)
      requires Valid()
      modifies this`tasks
      ensures Valid() && tasks == Refreshed(old(tasks), now) && Settled(tasks)
    {
      ghost var before := tasks;
      for k := 0 to |order|
        invariant Valid()
        invariant PartlyRefreshed(before, tasks, order[..k], now)
      {
        RefreshStep(order, before, tasks, k, now);
        var task := tasks[order[k]];
        if task.state == Pending && IsReady(tasks, task.dependsOn) {
          tasks := tasks[task.id := task.(state := Ready, updatedAt := now(task.id))];
        }
      }
      OnePassSettles(before, now);
      AllRefreshed(order, before, tasks, now);
    }

    /** `snapshot().tasks` */
    function Snapshot(): (ts: seq<RegisteredTask>)
      requires Valid()
      reads this
      ensures Ids(ts) == order
    {
      InOrder(order, tasks)
    }
  }

  /** The list holds the ready ones of the first k registered tasks, each once, in registration order. */
  ghost predicate ListsReady(order: seq<TaskId>, tasks: Tasks, k: nat, ready: seq<RegisteredTask>, from: seq<nat>) {
    && k <= |order| && |from| == |ready|
    && (forall i :: 0 <= i < |from| ==>
          from[i] < k && order[from[i]] in tasks && ready[i] == tasks[order[from[i]]] && ready[i].state == Ready)
    && (forall i, j :: 0 <= i < j < |from| ==> from[i] < from[j])
    && forall i :: 0 <= i < k && order[i] in tasks && tasks[order[i]].state == Ready ==> i in from
  }

  lemma ListsOneMore(order: seq<TaskId>, tasks: Tasks, k: nat, ready: seq<RegisteredTask>, from: seq<nat>)
    requires RegisteredInOrder(order, tasks) && k < |order| && ListsReady(order, tasks, k, ready, from)
    ensures order[k] in tasks
    ensures var t := tasks[order[k]];
            if t.state == Ready then ListsReady(order, tasks, k + 1, ready + [t], from + [k])
            else ListsReady(order, tasks, k + 1, ready, from)
  {
    assert order[k] in order;
    assert (from + [k])[|from|] == k;
    assert forall i :: i in from ==> i in from + [k];
  }

  lemma ReadyAreListed(order: seq<TaskId>, tasks: Tasks, ready: seq<RegisteredTask>, from: seq<nat>)
    requires RegisteredInOrder(order, tasks) && ListsReady(order, tasks, |order|, ready, from)
    ensures forall t :: t in ready <==> t.id in tasks && tasks[t.id] == t && t.state == Ready
  {
    forall t: RegisteredTask | t.id in tasks && tasks[t.id] == t && t.state == Ready
      ensures t in ready
    {
      var i :| 0 <= i < |order| && order[i] == t.id;
      var n :| 0 <= n < |from| && from[n] == i;
      assert ready[n] == t;
    }
    forall t | t in ready
      ensures t.id in tasks && tasks[t.id] == t
    {
      var n :| 0 <= n < |ready| && ready[n] == t;
      assert order[from[n]] in order;
    }
  }

  /** The values of the map in registration order. */
  function InOrder(order: seq<TaskId>, tasks: Tasks): (ts: seq<RegisteredTask>)
    requires RegisteredInOrder(order, tasks)
    ensures Ids(ts) == order
    ensures forall k :: 0 <= k < |order| ==> ts[k] == tasks[order[k]]
  {
    seq(|order|, k requires 0 <= k < |order| => assert order[k] in order; tasks[order[k]])
  }

  function StateOf(status: ResultStatus): TaskState {
    match status
    case ResultSucceeded => Succeeded
    case ResultFailed => Failed
    case ResultCancelled => Cancelled
  }

  /** `storeResult` overwrites the task's state whatever it was. */
  function WithResult(tasks: Tasks, result: TaskResult): Tasks
    requires result.taskId in tasks
  {
    tasks[result.taskId := tasks[result.taskId].(state := StateOf(result.status), updatedAt := result.finishedAt)]
  }

  // ------------------------------------------------------------------ the refresh pass

  /** The tasks in `done` are refreshed, the others still as before. */
  ghost predicate PartlyRefreshed(before: Tasks, tasks: Tasks, done: seq<TaskId>, now: Clock) {
    && tasks.Keys == before.Keys
    && forall id :: id in tasks ==> tasks[id] == if id in done then Refreshed(before, now)[id] else before[id]
  }

  /** Promoting tasks makes nothing else ready: only success counts, and promotion is not success. */
  lemma PromotionIsStable(before: Tasks, tasks: Tasks, done: seq<TaskId>, now: Clock, id: TaskId)
    requires PartlyRefreshed(before, tasks, done, now)
    requires id in tasks
    ensures IsReady(tasks, tasks[id].dependsOn) <==> IsReady(before, before[id].dependsOn)
  {
    assert forall d :: d in tasks ==> (tasks[d].state == Succeeded <==> before[d].state == Succeeded);
  }

  lemma RefreshStep(order: seq<TaskId>, before: Tasks, tasks: Tasks, k: nat, now: Clock)
    requires RegisteredInOrder(order, tasks) && k < |order|
    requires PartlyRefreshed(before, tasks, order[..k], now)
    ensures var task := tasks[order[k]];
            var next := if ShouldPromote(tasks, task)
                        then tasks[task.id := task.(state := Ready, updatedAt := now(task.id))] else tasks;
            && PartlyRefreshed(before, next, order[..k + 1], now)
            && RegisteredInOrder(order, next)
  {
    assert order[k] in order;
    PromotionIsStable(before, tasks, order[..k], now, order[k]);
    assert forall id :: id in order[..k + 1] <==> id in order[..k] || id == order[k] by {
      assert order[..k + 1] == order[..k] + [order[k]];
    }
    assert order[k] !in order[..k];
  }

  lemma AllRefreshed(order: seq<TaskId>, before: Tasks, tasks: Tasks, now: Clock)
    requires RegisteredInOrder(order, tasks)
    requires PartlyRefreshed(before, tasks, order[..|order|], now)
    ensures tasks == Refreshed(before, now)
  {
    assert order[..|order|] == order;
  }

  /** A refresh changes exactly the pending tasks all of whose dependencies have succeeded, and these only in becoming ready
      at their own clock reading. */
  lemma RefreshPromotesExactly(tasks: Tasks, now: Clock, id: TaskId)
    requires id in tasks
    ensures Refreshed(tasks, now).Keys == tasks.Keys
    ensures var t := tasks[id];
            Refreshed(tasks, now)[id] ==
            if t.state == Pending && forall d :: d in t.dependsOn ==> d in tasks && tasks[d].state == Succeeded
            then RegisteredTask(t.id, t.title, t.dependsOn, Ready, t.createdAt, now(id)) else t
  {
    ReadyMeansAllSucceeded(tasks, tasks[id].dependsOn);
  }

  /** One pass reaches a fixed point. */
  lemma OnePassSettles(tasks: Tasks, now: Clock)
    ensures Settled(Refreshed(tasks, now))
    ensures forall later: Clock :: Refreshed(Refreshed(tasks, now), later) == Refreshed(tasks, now)
  {
    var refreshed := Refreshed(tasks, now);
    assert forall d :: d in tasks ==> (refreshed[d].state == Succeeded <==> tasks[d].state == Succeeded);
    forall id | id in refreshed
      ensures !ShouldPromote(refreshed, refreshed[id])
    {
      assert IsReady(refreshed, refreshed[id].dependsOn) <==> IsReady(tasks, tasks[id].dependsOn);
    }
  }

  // ------------------------------------------------------------------ what stored results and transitions can break

  predicate IsTerminal(state: TaskState) {
    state == Succeeded || state == Failed || state == Cancelled
  }

  /** Terminal states survive a stored result exactly when its task was not terminal or already in the state that the
      result sets. */
  lemma TerminalStatesStayExactly(tasks: Tasks, result: TaskResult, now: Clock)
    requires result.taskId in tasks
    ensures (forall id :: id in tasks && IsTerminal(tasks[id].state) ==>
               Refreshed(WithResult(tasks, result), now)[id].state == tasks[id].state)
            <==> !IsTerminal(tasks[result.taskId].state) || tasks[result.taskId].state == StateOf(result.status)
  {
    var stored := WithResult(tasks, result);
    var id := result.taskId;
    assert Refreshed(stored, now)[id].state == StateOf(result.status);
  }

  /** Every ready task has all its dependencies succeeded. */
  ghost predicate ReadyTasksAreDue(tasks: Tasks) {
    forall id :: id in tasks && tasks[id].state == Ready ==> IsReady(tasks, tasks[id].dependsOn)
  }

  /** A transition keeps the ready tasks due exactly when it does not make a task ready whose dependencies have not all
      succeeded; the table does not look at them. */
  lemma TransitionKeepsReadyTasksDueExactly(tasks: Tasks, id: TaskId, next: TaskState, now: int)
    requires ReadyTasksAreDue(tasks) && id in tasks && CanTransition(tasks[id].state, next)
    ensures ReadyTasksAreDue(tasks[id := tasks[id].(state := next, updatedAt := now)])
            <==> (next == Ready ==> IsReady(tasks, tasks[id].dependsOn))
  {
    var after := tasks[id := tasks[id].(state := next, updatedAt := now)];
    assert forall other, d :: other in tasks && d in after ==> (tasks[d].state == Succeeded ==> after[d].state == Succeeded);
    forall other | other in tasks && IsReady(tasks, tasks[other].dependsOn)
      ensures IsReady(after, tasks[other].dependsOn)
    {
    }
    if next == Ready && IsReady(after, tasks[id].dependsOn) {
      assert IsReady(tasks, tasks[id].dependsOn);
    }
    assert after[id].state == next;
  }

  /** A stored result keeps the ready tasks due exactly when it does not take back a success on which another ready task
      depends. */
  lemma ResultKeepsReadyTasksDueExactly(tasks: Tasks, result: TaskResult, now: Clock)
    requires ReadyTasksAreDue(tasks) && result.taskId in tasks
    ensures ReadyTasksAreDue(Refreshed(WithResult(tasks, result), now))
            <==> || result.status == ResultSucceeded
                 || forall id :: id in tasks && id != result.taskId && tasks[id].state == Ready ==>
                      result.taskId !in tasks[id].dependsOn
  {
    var stored := WithResult(tasks, result);
    var after := Refreshed(stored, now);
    forall id | id in tasks
      ensures after[id].state == Ready <==> (id != result.taskId && tasks[id].state == Ready) || ShouldPromote(stored, stored[id])
      ensures IsReady(after, after[id].dependsOn) <==> IsReady(stored, tasks[id].dependsOn)
    {
      assert forall d :: d in stored ==> (after[d].state == Succeeded <==> stored[d].state == Succeeded);
    }
    forall id | id in tasks && IsReady(tasks, tasks[id].dependsOn)
      ensures IsReady(stored, tasks[id].dependsOn) <==>
              result.status == ResultSucceeded || result.taskId !in tasks[id].dependsOn
    {
      ResultKeepsReady(tasks, result, tasks[id].dependsOn);
    }
  }

  lemma ResultKeepsReady(tasks: Tasks, result: TaskResult, dependencies: seq<TaskId>)
    requires result.taskId in tasks && IsReady(tasks, dependencies)
    ensures IsReady(WithResult(tasks, result), dependencies) <==>
            result.status == ResultSucceeded || result.taskId !in dependencies
  {
    if result.taskId in dependencies {
      var k :| 0 <= k < |dependencies| && dependencies[k] == result.taskId;
    }
  }

  // ------------------------------------------------------------------ the registry's graph

  lemma RegisterKeepsOrder(order: seq<TaskId>, tasks: Tasks, task: RegisteredTask)
    requires RegisteredInOrder(order, tasks) && task.id !in tasks
    requires forall k :: 0 <= k < |task.dependsOn| ==> task.dependsOn[k] in tasks
    ensures RegisteredInOrder(order + [task.id], tasks[task.id := task])
  {
    var longer, more := order + [task.id], tasks[task.id := task];
    forall k, d | 0 <= k < |longer| && d in more[longer[k]].dependsOn
      ensures d in longer[..k]
    {
      if k < |order| {
        assert longer[k] == order[k] && longer[..k] == order[..k];
        assert order[k] in order;
      } else {
        assert longer[..k] == order;
      }
    }
  }

  /** In a registry every dependency was registered strictly earlier, so the dependency graph has no cycle. */
  lemma RegistryIsAcyclic(order: seq<TaskId>, tasks: Tasks)
    requires RegisteredInOrder(order, tasks)
    ensures IsTopologicalSort(GraphOf(tasks), order)
    ensures !Cyclic(GraphOf(tasks))
  {
    SortedGraphIsAcyclic(GraphOf(tasks), order);
  }

  /** The cycle branch of `register` is never taken: once the earlier checks have passed, no path from the
      registered dependencies can reach an id that is not registered. */
  lemma RegisterNeverReportsACycle(order: seq<TaskId>, tasks: Tasks, definition: TaskDefinition)
    requires RegisteredInOrder(order, tasks)
    requires definition.id !in tasks
    requires forall d :: d in definition.dependsOn ==> d in tasks
    ensures !WouldCreateCycle(GraphOf(tasks), definition.id, definition.dependsOn)
  {
    var g := GraphOf(tasks);
    CycleCheckIsReachability(g, definition.id, definition.dependsOn);
    forall d, p: seq<TaskId> | d in definition.dependsOn && IsPath(g, p) && p[0] == d
      ensures p[|p| - 1] in tasks
    {
      PathStaysRegistered(order, tasks, p, |p| - 1);
    }
  }

  lemma {:induction false} PathStaysRegistered(order: seq<TaskId>, tasks: Tasks, p: seq<TaskId>, n: nat)
    requires RegisteredInOrder(order, tasks)
    requires IsPath(GraphOf(tasks), p) && p[0] in tasks && n < |p|
    ensures p[n] in tasks
  {
    if n > 0 {
      PathStaysRegistered(order, tasks, p, n - 1);
      assert DependsOn(GraphOf(tasks), p[n - 1], p[n]);
      var k :| 0 <= k < |order| && order[k] == p[n - 1];
      assert p[n] in order[..k];
    }
  }

  /** The snapshot lists the tasks in an order that the topological sort returns unchanged. */
  lemma SnapshotNeedsNoSorting(order: seq<TaskId>, tasks: Tasks)
    requires RegisteredInOrder(order, tasks)
    ensures TopologicallyOrdered(GraphOf(TaskMap(InOrder(order, tasks))), Ids(InOrder(order, tasks)))
  {
    SnapshotMapIsTheRegistry(order, tasks);
    RegistryIsAcyclic(order, tasks);
  }

  lemma SnapshotMapIsTheRegistry(order: seq<TaskId>, tasks: Tasks)
    requires RegisteredInOrder(order, tasks)
    ensures TaskMap(InOrder(order, tasks)) == tasks
  {
    var snapshot := InOrder(order, tasks);
    TaskMapHasTheIds(snapshot);
    TaskMapOfDistinctIds(snapshot);
    forall id | id in tasks
      ensures id in TaskMap(snapshot) && TaskMap(snapshot)[id] == tasks[id]
    {
      var k :| 0 <= k < |order| && order[k] == id;
      assert snapshot[k].id == id;
    }
  }
}
