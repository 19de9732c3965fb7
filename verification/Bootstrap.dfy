/** Service bootstrap: ordering services by their dependencies, starting them once, stopping them in reverse. */
module Bootstrap {
  import opened Prelude
  import opened DependencyGraph

  type ServiceId = string

  datatype PlanError = CircularDependency(at: ServiceId) | MissingDependency(missing: ServiceId)

  datatype BootError = PlanFailed(error: PlanError) | StartFailed(id: ServiceId)

  /** Every dependency of a known service is a known service. */
  ghost predicate NothingMissing(g: Graph<ServiceId>) {
    forall s, d :: s in g && d in g[s] ==> d in g
  }

  ghost predicate IsMissing(g: Graph<ServiceId>, d: ServiceId) {
    d !in g && exists s :: s in g && d in g[s]
  }

  /** Each listed service comes after all of its dependencies, known or not. */
  ghost predicate AfterDependencies(g: Graph<ServiceId>, order: seq<ServiceId>) {
    && Distinct(order)
    && (forall k :: 0 <= k < |order| ==> order[k] in g)
    && forall k, d :: 0 <= k < |order| && d in g[order[k]] ==> d in order[..k]
  }

  /** The sets and the list that `visitService` mutates while one plan is made. */
  class ServicePlanner {
    const services: Graph<ServiceId>
    var visiting: set<ServiceId>
    var visited: set<ServiceId>
    var ordered: seq<ServiceId>

    constructor (services: Graph<ServiceId>)
      ensures this.services == services && visiting == {} && visited == {} && ordered == []
    {
      this.services := services;
      visiting, visited, ordered := {}, {}, [];
    }

    ghost predicate Searching(stack: seq<ServiceId>)
      reads this
    {
      && OnStack(services, stack, visiting, visited)
      && AfterDependencies(services, ordered)
      && visited == (set s | s in ordered)
    }

    method VisitService(id: ServiceId, ghost stack: seq<ServiceId>) returns (failure: Option<PlanError>)
      requires Searching(stack)
      requires if stack == [] then id in services else DependsOn(services, stack[|stack| - 1], id)
      modifies this`visiting, this`visited, this`ordered
      ensures failure.None? ==> Searching(stack) && visiting == old(visiting) && old(visited) + {id} <= visited
      ensures failure.Some? && failure.value.CircularDependency? ==> OnCycle(services, failure.value.at)
      ensures failure.Some? && failure.value.MissingDependency? ==> IsMissing(services, failure.value.missing)
      decreases services.Keys - visiting
    {
      if id in visited { return None; }
      if id in visiting {
        StackClosesACycle(services, stack, visiting, visited, id);
        return Some(CircularDependency(id));
      }
      if id !in services { return Some(MissingDependency(id)); }

      PushNode(services, stack, visiting, visited, id);
      visiting := visiting + {id};
      ghost var deeper := stack + [id];
      var dependencies := services[id];
      for k := 0 to |dependencies|
        invariant Searching(deeper) && visiting == old(visiting) + {id} && old(visited) <= visited
        invariant forall i :: 0 <= i < k ==> dependencies[i] in visited
      {
        assert DependsOn(services, id, dependencies[k]);
        failure := VisitService(dependencies[k], deeper);
        if failure.Some? { return; }
      }
      PopNode(services, stack, visiting, visited, id);
      AppendService(services, ordered, id);
      visiting := visiting - {id};
      visited := visited + {id};
      ordered := ordered + [id];
      return None;
    }
  }

  lemma AppendService(g: Graph<ServiceId>, order: seq<ServiceId>, id: ServiceId)
    requires AfterDependencies(g, order) && id in g && id !in order
    requires forall d :: d in g[id] ==> d in order
    ensures AfterDependencies(g, order + [id])
  {
    var longer := order + [id];
    forall k, d | 0 <= k < |longer| && d in g[longer[k]]
      ensures d in longer[..k]
    {
      if k < |order| {
        assert longer[k] == order[k] && longer[..k] == order[..k];
      } else {
        assert longer[..k] == order;
      }
    }
  }

  /** `orderServices`, over the services in registration order. It fails exactly when a dependency is missing
      or the dependencies form a cycle; otherwise it lists every service once, after its dependencies. */
  method OrderServices(order: seq<ServiceId>, services: Graph<ServiceId>)
    returns (r: Result<seq<ServiceId>, PlanError>)
    requires forall id :: id in services <==> id in order
    ensures r.Ok? <==> NothingMissing(services) && !Cyclic(services)
    ensures r.Ok? ==> AfterDependencies(services, r.value) && forall id :: id in services <==> id in r.value
    ensures r.Err? && r.error.CircularDependency? ==> OnCycle(services, r.error.at)
    ensures r.Err? && r.error.MissingDependency? ==> IsMissing(services, r.error.missing)
  {
    var planner := new ServicePlanner(services);
    for i := 0 to |order|
      invariant planner.Searching([])
      invariant forall k :: 0 <= k < i ==> order[k] in planner.visited
    {
      var failure := planner.VisitService(order[i], []);
      if failure.Some? {
        return Err(failure.value);
      }
    }
    CompletePlan(services, planner.ordered);
    r := Ok(planner.ordered);
  }

  lemma CompletePlan(g: Graph<ServiceId>, plan: seq<ServiceId>)
    requires AfterDependencies(g, plan) && forall id :: id in g ==> id in plan
    ensures NothingMissing(g) && !Cyclic(g)
  {
    forall s, d | s in g && d in g[s]
      ensures d in g
    {
      var k :| 0 <= k < |plan| && plan[k] == s;
      assert d in plan[..k];
    }
    SortedGraphIsAcyclic(g, plan);
  }

  // ------------------------------------------------------------------ boot and shutdown

  function Reversed<T>(s: seq<T>): (r: seq<T>)
    ensures |r| == |s| && forall k :: 0 <= k < |s| ==> r[k] == s[|s| - 1 - k]
  {
    seq(|s|, k requires 0 <= k < |s| => s[|s| - 1 - k])
  }

  /** Every start that ever succeeded, in order: no service twice, each after all its dependencies;
      and the services still listed as started are the latest of these. */
  ghost predicate HistoryOk(
      services: Graph<ServiceId>, container: set<ServiceId>, started: seq<ServiceId>, history: seq<ServiceId>)
  {
    && AfterDependencies(services, history)
    && container == (set s | s in history)
    && |started| <= |history| && started == history[|history| - |started|..]
  }

  /** Old instances are kept; new ones are what the services' start functions returned. */
  ghost predicate GrewByStarting<I>(before: map<ServiceId, I>, after: map<ServiceId, I>, start: ServiceId -> Option<I>) {
    && before.Keys <= after.Keys
    && forall id :: id in after ==> if id in before then after[id] == before[id] else start(id) == Some(after[id])
  }

  lemma GrowBy<I>(before: map<ServiceId, I>, after: map<ServiceId, I>, start: ServiceId -> Option<I>, id: ServiceId)
    requires GrewByStarting(before, after, start) && id !in after && start(id).Some?
    ensures GrewByStarting(before, after[id := start(id).value], start)
  {
  }

  /** The ids of the list that are not in the set. */
  ghost function NotIn(ids: seq<ServiceId>, known: set<ServiceId>): seq<ServiceId> {
    if ids == [] then []
    else
      var last := ids[|ids| - 1];
      NotIn(ids[..|ids| - 1], known) + (if last in known then [] else [last])
  }

  /** How far a boot has come: from what it found it has started, in plan order, exactly what was missing from the first i
      services of the plan. */
  ghost predicate BootedTo<I>(
      services: Graph<ServiceId>, plan: seq<ServiceId>, i: nat, start: ServiceId -> Option<I>,
      container0: map<ServiceId, I>, started0: seq<ServiceId>, history0: seq<ServiceId>,
      container: map<ServiceId, I>, started: seq<ServiceId>, history: seq<ServiceId>)
  {
    && i <= |plan| && AfterDependencies(services, plan) && (forall id :: id in services <==> id in plan)
    && HistoryOk(services, container.Keys, started, history)
    && GrewByStarting(container0, container, start)
    && history == history0 + NotIn(plan[..i], container0.Keys)
    && started == started0 + NotIn(plan[..i], container0.Keys)
    && forall id :: id in container <==> id in container0 || id in plan[..i]
  }

  lemma BootBegins<I>(
      services: Graph<ServiceId>, plan: seq<ServiceId>, start: ServiceId -> Option<I>,
      container: map<ServiceId, I>, started: seq<ServiceId>, history: seq<ServiceId>)
    requires AfterDependencies(services, plan) && (forall id :: id in services <==> id in plan)
    requires HistoryOk(services, container.Keys, started, history)
    ensures BootedTo(services, plan, 0, start, container, started, history, container, started, history)
  {
    assert history + [] == history && started + [] == started;
  }

  lemma InPrefix(ids: seq<ServiceId>, i: nat, id: ServiceId)
    requires i < |ids|
    ensures id in ids[..i + 1] <==> id in ids[..i] || id == ids[i]
  {
    assert ids[..i + 1] == ids[..i] + [ids[i]];
  }

  lemma BootSkips<I>(
      services: Graph<ServiceId>, plan: seq<ServiceId>, i: nat, start: ServiceId -> Option<I>,
      container0: map<ServiceId, I>, started0: seq<ServiceId>, history0: seq<ServiceId>,
      container: map<ServiceId, I>, started: seq<ServiceId>, history: seq<ServiceId>)
    requires BootedTo(services, plan, i, start, container0, started0, history0, container, started, history)
    requires i < |plan| && plan[i] in container
    ensures BootedTo(services, plan, i + 1, start, container0, started0, history0, container, started, history)
  {
    assert plan[i] !in plan[..i];
    NotInAppend(plan, i, container0.Keys);
    assert NotIn(plan[..i + 1], container0.Keys) == NotIn(plan[..i], container0.Keys);
    forall id
      ensures id in plan[..i + 1] <==> id in plan[..i] || id == plan[i]
    {
      InPrefix(plan, i, id);
    }
  }

  lemma BootedDependencies<I>(
      services: Graph<ServiceId>, plan: seq<ServiceId>, i: nat, start: ServiceId -> Option<I>,
      container0: map<ServiceId, I>, started0: seq<ServiceId>, history0: seq<ServiceId>,
      container: map<ServiceId, I>, started: seq<ServiceId>, history: seq<ServiceId>)
    requires BootedTo(services, plan, i, start, container0, started0, history0, container, started, history)
    requires i < |plan|
    ensures plan[i] in services && forall d :: d in services[plan[i]] ==> d in container
  {
    assert plan[i] in plan;
  }

  lemma BootStarts<I>(
      services: Graph<ServiceId>, plan: seq<ServiceId>, i: nat, start: ServiceId -> Option<I>,
      container0: map<ServiceId, I>, started0: seq<ServiceId>, history0: seq<ServiceId>,
      container: map<ServiceId, I>, started: seq<ServiceId>, history: seq<ServiceId>)
    requires BootedTo(services, plan, i, start, container0, started0, history0, container, started, history)
    requires i < |plan| && plan[i] !in container && start(plan[i]).Some?
    ensures BootedTo(services, plan, i + 1, start, container0, started0, history0,
                     container[plan[i] := start(plan[i]).value], started + [plan[i]], history + [plan[i]])
  {
    var id := plan[i];
    var after := container[id := start(id).value];
    BootedDependencies(services, plan, i, start, container0, started0, history0, container, started, history);
    StartNext(services, container.Keys, started, history, id);
    assert after.Keys == container.Keys + {id};
    GrowBy(container0, container, start, id);
    NotInAppend(plan, i, container0.Keys);
    forall other
      ensures other in plan[..i + 1] <==> other in plan[..i] || other == id
    {
      InPrefix(plan, i, other);
    }
    var added := NotIn(plan[..i], container0.Keys);
    assert (history0 + added) + [id] == history0 + (added + [id]);
    assert (started0 + added) + [id] == started0 + (added + [id]);
  }

  /** A complete boot has started everything; if everything was there, it has started nothing. */
  lemma BootEnds<I>(
      services: Graph<ServiceId>, plan: seq<ServiceId>, start: ServiceId -> Option<I>,
      container0: map<ServiceId, I>, started0: seq<ServiceId>, history0: seq<ServiceId>,
      container: map<ServiceId, I>, started: seq<ServiceId>, history: seq<ServiceId>)
    requires BootedTo(services, plan, |plan|, start, container0, started0, history0, container, started, history)
    ensures container.Keys == services.Keys
    ensures services.Keys <= container0.Keys ==> history == history0
  {
    assert plan[..|plan|] == plan;
    if services.Keys <= container0.Keys {
      NothingMissingNothingStarts(plan, container0.Keys);
    }
    EverythingStarted(services, plan, container.Keys, started, history);
  }

  lemma {:induction false} NothingMissingNothingStarts(ids: seq<ServiceId>, known: set<ServiceId>)
    requires forall k :: 0 <= k < |ids| ==> ids[k] in known
    ensures NotIn(ids, known) == []
  {
    if ids != [] {
      NothingMissingNothingStarts(ids[..|ids| - 1], known);
    }
  }

  lemma NotInAppend(ids: seq<ServiceId>, i: nat, known: set<ServiceId>)
    requires i < |ids|
    ensures NotIn(ids[..i + 1], known) == NotIn(ids[..i], known) + (if ids[i] in known then [] else [ids[i]])
  {
    assert ids[..i + 1][..i] == ids[..i];
  }

  class BootstrapRegistry<Instance> {
    var order: seq<ServiceId>
    var services: Graph<ServiceId>
    var container: map<ServiceId, Instance>
    var started: seq<ServiceId>
    ghost var history: seq<ServiceId>     // ids of all successful starts
    ghost var stops: seq<ServiceId>       // ids of all stop calls that returned

    ghost predicate Valid()
      reads this
    {
      && Distinct(order) && (forall id :: id in services <==> id in order)
      && HistoryOk(services, container.Keys, started, history)
    }

    constructor ()
      ensures Valid() && order == [] && services == map[] && container == map[]
      ensures started == [] && history == [] && stops == []
    {
      order, services, container, started, history, stops := [], map[], map[], [], [], [];
    }

    method Register(id: ServiceId, dependencies: seq<ServiceId>) returns (ok: bool)
      requires Valid()
      modifies this`order, this`services
      ensures Valid() && ok == (id !in old(services))
      ensures order == (if ok then old(order) + [id] else old(order))
      ensures services == if ok then old(services)[id := dependencies] else old(services)
    {
      if id in services { return false; }
      order, services := order + [id], services[id := dependencies];
      return true;
    }

    /** The loop of `boot`: start what the plan lists and the container lacks, up to the first start that throws. */
    method StartPlanned(
        plan: seq<ServiceId>, start: ServiceId -> Option<Instance>,
        ghost container0: map<ServiceId, Instance>, ghost started0: seq<ServiceId>, ghost history0: seq<ServiceId>)
      returns (failed: Option<ServiceId>, ghost reached: nat)
      requires BootedTo(services, plan, 0, start, container0, started0, history0, container, started, history)
      modifies this`container, this`started, this`history
      ensures BootedTo(services, plan, reached, start, container0, started0, history0, container, started, history)
      ensures failed.None? ==> reached == |plan|
      ensures failed.Some? ==>
                reached < |plan| && failed.value == plan[reached] && failed.value !in container && start(failed.value).None?
    {
      reached := 0;
      for i := 0 to |plan|
        invariant reached == i
        invariant BootedTo(services, plan, i, start, container0, started0, history0, container, started, history)
      {
        var id := plan[i];
        if id in container {
          BootSkips(services, plan, i, start, container0, started0, history0, container, started, history);
          reached := i + 1;
          continue;
        }
        var instance := start(id);
        if instance.None? { return Some(id), i; }
        BootStarts(services, plan, i, start, container0, started0, history0, container, started, history);
        container := container[id := instance.value];
        started := started + [id];
        history := history + [id];
        reached := i + 1;
      }
      return None, reached;
    }

    /** `start` gives the outcome of each service's start function: an instance, or None when it throws. The boot goes
        through the plan up to position `reached`, where a start throws, or to its end. */
    method Boot(start: ServiceId -> Option<Instance>)
      returns (failure: Option<BootError>, ghost plan: seq<ServiceId>, ghost reached: nat)
      requires Valid()
      modifies this`container, this`started, this`history
      ensures Valid()
      ensures old(history) <= history && GrewByStarting(old(container), container, start)
      ensures failure.None? ==> container.Keys == services.Keys
      ensures failure.Some? && failure.value.PlanFailed? <==> !(NothingMissing(services) && !Cyclic(services))
      ensures failure.Some? && failure.value.PlanFailed? ==> history == old(history) && started == old(started)
      ensures failure.Some? && failure.value.StartFailed? ==>
                && start(failure.value.id).None?
                && failure.value.id in services && failure.value.id !in container
                && forall d :: d in services[failure.value.id] ==> d in container
      ensures !(failure.Some? && failure.value.PlanFailed?) ==>
                AfterDependencies(services, plan) && (forall id :: id in services <==> id in plan)
      ensures reached <= |plan| && (failure.None? ==> reached == |plan|)
      ensures failure.Some? && failure.value.StartFailed? ==> reached < |plan| && failure.value.id == plan[reached]
      ensures history == old(history) + NotIn(plan[..reached], old(container.Keys))
      ensures started == old(started) + NotIn(plan[..reached], old(container.Keys))
      ensures |history| - |old(history)| == |started| - |old(started)|
      ensures services.Keys <= old(container.Keys) ==> history == old(history)   // even after a shutdown
    {
      var planned := OrderServices(order, services);
      if planned.Err? { return Some(PlanFailed(planned.error)), [], 0; }

      plan := planned.value;
      BootBegins(services, plan, start, container, started, history);
      var failed;
      failed, reached := StartPlanned(planned.value, start, container, started, history);
      if failed.Some? {
        BootedDependencies(services, plan, reached, start, old(container), old(started), old(history), container, started, history);
        return Some(StartFailed(failed.value)), plan, reached;
      }
      BootEnds(services, plan, start, old(container), old(started), old(history), container, started, history);
      return None, plan, reached;
    }

    /** `stop` says whether each service's stop function returns (true) or throws (false). The services are stopped
        in the reverse of their start order, up to the first that throws; only a complete shutdown empties the list. */
    method Shutdown(stop: ServiceId -> bool) returns (failure: Option<ServiceId>, ghost n: nat)
      requires Valid()
      modifies this`started, this`stops
      ensures Valid() && n <= |old(started)|
      ensures stops == old(stops) + Reversed(old(started))[..n]
      ensures failure.None? ==> n == |old(started)| && started == []
      ensures failure.Some? ==> n < |old(started)| && failure.value == Reversed(old(started))[n] && !stop(failure.value)
      ensures failure.Some? ==> started == old(started)
    {
      var reversed := Reversed(started);
      n := 0;
      for i := 0 to |reversed|
        invariant n == i && started == old(started) && stops == old(stops) + reversed[..i]
      {
        if !stop(reversed[i]) { return Some(reversed[i]), i; }
        assert reversed[..i + 1] == reversed[..i] + [reversed[i]];
        stops := stops + [reversed[i]];
        n := i + 1;
      }
      started := [];
      return None, n;
    }
  }

  lemma EverythingStarted(
      g: Graph<ServiceId>, plan: seq<ServiceId>, container: set<ServiceId>, started: seq<ServiceId>, history: seq<ServiceId>)
    requires HistoryOk(g, container, started, history)
    requires forall id :: id in g <==> id in plan
    requires forall k :: 0 <= k < |plan| ==> plan[k] in container
    ensures container == g.Keys
  {
  }

  lemma DependenciesAreIn(g: Graph<ServiceId>, plan: seq<ServiceId>, i: nat, container: set<ServiceId>)
    requires AfterDependencies(g, plan) && i < |plan|
    requires forall k :: 0 <= k < i ==> plan[k] in container
    ensures forall d :: d in g[plan[i]] ==> d in container
  {
    forall d | d in g[plan[i]]
      ensures d in container
    {
      assert d in plan[..i];
    }
  }

  lemma StartNext(
      g: Graph<ServiceId>, container: set<ServiceId>, started: seq<ServiceId>, history: seq<ServiceId>, id: ServiceId)
    requires HistoryOk(g, container, started, history)
    requires id in g && id !in container && forall d :: d in g[id] ==> d in container
    ensures HistoryOk(g, container + {id}, started + [id], history + [id])
  {
    AppendService(g, history, id);
    assert (history + [id])[|history| - |started|..] == history[|history| - |started|..] + [id];
  }

  /** A service that is in the container has all its dependencies there too. */
  lemma ContainerIsClosed(
      g: Graph<ServiceId>, container: set<ServiceId>, started: seq<ServiceId>, history: seq<ServiceId>, id: ServiceId)
    requires HistoryOk(g, container, started, history) && id in container
    ensures id in g && forall d :: d in g[id] ==> d in container
  {
    var k :| 0 <= k < |history| && history[k] == id;
    forall d | d in g[id]
      ensures d in container
    {
      assert d in history[..k];
    }
  }

  /** Shutdown stops a service before every dependency that is still in the list. */
  lemma DependentsStopFirst(
      g: Graph<ServiceId>, container: set<ServiceId>, started: seq<ServiceId>, history: seq<ServiceId>, i: nat, j: nat)
    requires HistoryOk(g, container, started, history)
    requires i < |started| && j < |started|
    requires Reversed(started)[i] in g && Reversed(started)[j] in g[Reversed(started)[i]]
    ensures i < j
  {
    var offset := |history| - |started|;
    var a, b := |history| - 1 - i, |history| - 1 - j;
    assert Reversed(started)[i] == history[a] && Reversed(started)[j] == history[b];
    assert history[b] in history[..a];
  }
}
