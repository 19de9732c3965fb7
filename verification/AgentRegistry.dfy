/** The agent registry: live maps of agents and projects, append-only histories and logs, project isolation. */
module AgentRegistryModel {
  import opened Prelude
  import opened Lifecycle

  datatype AgentStatus = Idle | Busy | Offline | InError | Stale

  datatype AgentEntry = AgentEntry(
    agentId: string, agentType: AgentType, status: AgentStatus, currentProjectId: Option<string>, lastActivity: int)

  datatype ProjectEntry = ProjectEntry(
    projectId: string, clientId: string, lifecycleState: LifecycleState,
    activeAgentIds: seq<string>, currentMilestone: string, updatedAt: int)

  /** The fields an update sets; None leaves a field as it is. The project id cannot be updated. */
  datatype ProjectUpdate = ProjectUpdate(
    clientId: Option<string>, lifecycleState: Option<LifecycleState>, activeAgentIds: Option<seq<string>>,
    currentMilestone: Option<string>, updatedAt: Option<int>)

  datatype Snapshot = Snapshot(entry: ProjectEntry, recordedAt: int)

  datatype AgentSnapshot = AgentSnapshot(entry: AgentEntry, recordedAt: int)

  datatype AuditEvent =
    | AccessDenied(agent: string, project: string)
    | AgentRegistered(agent: string)
    | ProjectRegistered(project: string)
    | StateUpdated(project: string)
    | MessageRouted(project: string)
    | MessageRejected(named: Option<string>)
    | LifecycleMoved(project: string)
    | LifecycleRejected(project: string)

  datatype Message = Message(from: AgentType, to: AgentType, projectId: string)

  /** Why a message is not let through. */
  datatype Denial = SenderUnknown | ReceiverUnknown | NotOnProject(agent: string)

  /** A message that was routed, or rejected for a reason. */
  datatype CommunicationEntry = CommunicationEntry(logId: nat, message: Message, rejection: Option<Denial>)

  function GetOr<T>(o: Option<T>, d: T): T {
    if o.Some? then o.value else d
  }

  /** A field is what the update sets it to, and else what it was; the id stays. */
  ghost predicate Merges(e: ProjectEntry, u: ProjectUpdate, r: ProjectEntry) {
    && r.projectId == e.projectId
    && (if u.clientId.Some? then u.clientId == Some(r.clientId) else r.clientId == e.clientId)
    && (if u.lifecycleState.Some? then u.lifecycleState == Some(r.lifecycleState) else r.lifecycleState == e.lifecycleState)
    && (if u.activeAgentIds.Some? then u.activeAgentIds == Some(r.activeAgentIds) else r.activeAgentIds == e.activeAgentIds)
    && (if u.currentMilestone.Some? then u.currentMilestone == Some(r.currentMilestone)
        else r.currentMilestone == e.currentMilestone)
    && (if u.updatedAt.Some? then u.updatedAt == Some(r.updatedAt) else r.updatedAt == e.updatedAt)
  }

  function ApplyUpdate(e: ProjectEntry, u: ProjectUpdate): (r: ProjectEntry)
    ensures Merges(e, u, r)
  {
    ProjectEntry(e.projectId, GetOr(u.clientId, e.clientId), GetOr(u.lifecycleState, e.lifecycleState),
                 GetOr(u.activeAgentIds, e.activeAgentIds), GetOr(u.currentMilestone, e.currentMilestone),
                 GetOr(u.updatedAt, e.updatedAt))
  }

  function StatesOf(history: seq<Snapshot>): seq<LifecycleState> {
    seq(|history|, k requires 0 <= k < |history| => history[k].entry.lifecycleState)
  }

  /** The history starts as a lead and moves along the transition table only. */
  ghost predicate LawfulHistory(history: seq<Snapshot>) {
    history != [] && history[0].entry.lifecycleState == Lead && IsWalk(StatesOf(history))
  }

  /** The state stays or moves along the transition table. */
  predicate IsLawfulMove(from: LifecycleState, to: LifecycleState) {
    from == to || IsValidTransition(from, to)
  }

  lemma LawfulGrows(history: seq<Snapshot>, s: Snapshot)
    requires LawfulHistory(history)
    requires IsLawfulMove(history[|history| - 1].entry.lifecycleState, s.entry.lifecycleState)
    ensures LawfulHistory(history + [s])
  {
    var states, longer := StatesOf(history), StatesOf(history + [s]);
    assert longer == states + [s.entry.lifecycleState];
    forall k | 0 <= k < |longer| - 1
      ensures longer[k] == longer[k + 1] || IsValidTransition(longer[k], longer[k + 1])
    {
      if k < |states| - 1 {
        assert states[k] == states[k + 1] || IsValidTransition(states[k], states[k + 1]);
      }
    }
  }

  type Projects = map<string, ProjectEntry>

  type Histories = map<string, seq<Snapshot>>

  /** Every project has a history, whose last snapshot is the live entry. */
  ghost predicate HistoriesMatch(projects: Projects, histories: Histories) {
    && projects.Keys == histories.Keys
    && forall id :: id in projects ==>
         && projects[id].projectId == id
         && histories[id] != []
         && histories[id][|histories[id]| - 1].entry == projects[id]
  }

  function HistoryOf(histories: Histories, id: string): seq<Snapshot> {
    if id in histories then histories[id] else []
  }

  /** No history loses or changes a snapshot. */
  ghost predicate OnlyGrew(before: Histories, after: Histories) {
    forall id :: id in before ==> id in after && before[id] <= after[id]
  }

  /** Histories that were lawful still are. */
  ghost predicate KeptLawful(before: Histories, after: Histories) {
    forall id :: id in before && LawfulHistory(before[id]) ==> id in after && LawfulHistory(after[id])
  }

  type Agents = map<string, AgentEntry>

  type AgentHistories = map<string, seq<AgentSnapshot>>

  /** Every registered agent is listed once and has a history, whose last snapshot is the live entry. */
  ghost predicate AgentsMatch(order: seq<string>, agents: Agents, histories: AgentHistories) {
    && (forall id :: id in agents <==> id in order)
    && (forall i, j :: 0 <= i < j < |order| ==> order[i] != order[j])
    && agents.Keys == histories.Keys
    && forall id :: id in agents ==>
         && histories[id] != []
         && histories[id][|histories[id]| - 1].entry == agents[id]
  }

  function AgentHistoryOf(histories: AgentHistories, id: string): seq<AgentSnapshot> {
    if id in histories then histories[id] else []
  }

  lemma RegisterKeepsAgents(order: seq<string>, agents: Agents, histories: AgentHistories, entry: AgentEntry, now: int)
    requires AgentsMatch(order, agents, histories)
    ensures var id := entry.agentId;
            AgentsMatch(if id in agents then order else order + [id], agents[id := entry],
                        histories[id := AgentHistoryOf(histories, id) + [AgentSnapshot(entry, now)]])
  {
  }

  /** Log ids count from one. */
  ghost predicate Numbered(log: seq<CommunicationEntry>) {
    forall k :: 0 <= k < |log| ==> log[k].logId == k + 1
  }

  class AgentRegistry {
    // an insertion-ordered map of agents, and the maps and logs of the rest
    var agentOrder: seq<string>
    var agents: Agents
    var agentHistory: AgentHistories
    var projects: Projects
    var projectHistory: Histories
    var auditLog: seq<AuditEvent>
    var communicationLog: seq<CommunicationEntry>

    ghost predicate Valid()
      reads this
    {
      && HistoriesMatch(projects, projectHistory)
      && AgentsMatch(agentOrder, agents, agentHistory)
      && Numbered(communicationLog)
    }

    constructor ()
      ensures Valid() && projects == map[] && agents == map[] && auditLog == [] && communicationLog == []
    {
      agentOrder, agents, agentHistory, projects, projectHistory := [], map[], map[], map[], map[];
      auditLog, communicationLog := [], [];
    }

    // ---------------------------------------------------------------- projects

    method AppendProjectSnapshot(entry: ProjectEntry, now: int)
      modifies this`projectHistory
      ensures projectHistory ==
              old(projectHistory)[entry.projectId := HistoryOf(old(projectHistory), entry.projectId) + [Snapshot(entry, now)]]
    {
      var history := HistoryOf(projectHistory, entry.projectId);
      projectHistory := projectHistory[entry.projectId := history + [Snapshot(entry, now)]];
    }

    /** Registers a project or replaces its state; either way the history grows by one snapshot. */
    method RegisterProject(entry: ProjectEntry, now: int)
      requires Valid()
      modifies this`projects, this`projectHistory, this`auditLog
      ensures Valid() && OnlyGrew(old(projectHistory), projectHistory)
      ensures projects == old(projects)[entry.projectId := entry]
      ensures auditLog == old(auditLog) + [ProjectRegistered(entry.projectId)]
      ensures projectHistory == old(projectHistory)[entry.projectId :=
                HistoryOf(old(projectHistory), entry.projectId) + [Snapshot(entry, now)]]
      ensures entry.projectId !in old(projects) && entry.lifecycleState == Lead ==>
                LawfulHistory(projectHistory[entry.projectId])
      ensures (entry.projectId in old(projects) ==>
                 IsLawfulMove(old(projects)[entry.projectId].lifecycleState, entry.lifecycleState))
              ==> KeptLawful(old(projectHistory), projectHistory)
    {
      RegisterKeepsLawful(projects, projectHistory, entry, now);
      projects := projects[entry.projectId := entry];
      AppendProjectSnapshot(entry, now);
      auditLog := auditLog + [ProjectRegistered(entry.projectId)];
    }

    /** Merges fields into an existing project. Unless the update sets the lifecycle state to one the table does not
        lead to, lawful histories stay lawful. */
    method UpdateProject(projectId: string, updates: ProjectUpdate, now: int) returns (found: bool)
      requires Valid()
      modifies this`projects, this`projectHistory, this`auditLog
      ensures Valid() && OnlyGrew(old(projectHistory), projectHistory)
      ensures found == (projectId in old(projects))
      ensures !found ==> projects == old(projects) && projectHistory == old(projectHistory) && auditLog == old(auditLog)
      ensures found ==> projects == old(projects)[projectId := ApplyUpdate(old(projects)[projectId], updates)]
      ensures found ==> auditLog == old(auditLog) + [StateUpdated(projectId)]
      ensures found ==> projectHistory == old(projectHistory)[projectId :=
                old(projectHistory)[projectId] + [Snapshot(projects[projectId], now)]]
      ensures (updates.lifecycleState.Some? && projectId in old(projects) ==>
                 IsLawfulMove(old(projects)[projectId].lifecycleState, updates.lifecycleState.value))
              ==> KeptLawful(old(projectHistory), projectHistory)
    {
      if projectId !in projects { return false; }
      var updated := ApplyUpdate(projects[projectId], updates);
      UpdateKeepsLawful(projects, projectHistory, projectId, updated, now);
      assert HistoryOf(projectHistory, projectId) == projectHistory[projectId];
      projects := projects[projectId := updated];
      AppendProjectSnapshot(updated, now);
      assert projectHistory == old(projectHistory)[projectId := old(projectHistory)[projectId] + [Snapshot(updated, now)]];
      auditLog := auditLog + [StateUpdated(projectId)];
      return true;
    }

    /** `transitionProjectLifecycle`: the project moves exactly when it exists and the table has this very
        transition; otherwise nothing but the audit log changes. */
    method TransitionProjectLifecycle(
        projectId: string, to: LifecycleState, event: LifecycleEvent, actor: AgentType, milestone: string, updatedAt: int, now: int)
      returns (allowed: bool)
      requires Valid()
      modifies this`projects, this`projectHistory, this`auditLog
      ensures Valid() && OnlyGrew(old(projectHistory), projectHistory) && KeptLawful(old(projectHistory), projectHistory)
      ensures allowed <==>
              && projectId in old(projects)
              && ValidateLifecycleTransition(old(projects)[projectId].lifecycleState, to, event, actor)
      ensures !allowed ==> projects == old(projects) && projectHistory == old(projectHistory)
      ensures !allowed ==> auditLog == old(auditLog) + (if projectId in old(projects) then [LifecycleRejected(projectId)] else [])
      ensures allowed ==> projects == old(projects)[projectId :=
                old(projects)[projectId].(lifecycleState := to, currentMilestone := milestone, updatedAt := updatedAt)]
      ensures allowed ==> projectHistory == old(projectHistory)[projectId :=
                old(projectHistory)[projectId] + [Snapshot(projects[projectId], now)]]
      ensures allowed ==> auditLog == old(auditLog) + [StateUpdated(projectId), LifecycleMoved(projectId)]
    {
      if projectId !in projects { return false; }
      var project := projects[projectId];
      if !ValidateLifecycleTransition(project.lifecycleState, to, event, actor) {
        auditLog := auditLog + [LifecycleRejected(projectId)];
        return false;
      }
      ValidatedIsValid(project.lifecycleState, to, event, actor);
      var found := UpdateProject(projectId, ProjectUpdate(None, Some(to), None, Some(milestone), Some(updatedAt)), now);
      auditLog := auditLog + [LifecycleMoved(projectId)];
      return true;
    }

    // ---------------------------------------------------------------- agents and messages

    /** Registers an agent or replaces its state; either way its history grows by one snapshot. */
    method RegisterAgent(entry: AgentEntry, now: int)
      requires Valid()
      modifies this`agentOrder, this`agents, this`agentHistory, this`auditLog
      ensures Valid() && agents == old(agents)[entry.agentId := entry]
      ensures agentOrder == if entry.agentId in old(agents) then old(agentOrder) else old(agentOrder) + [entry.agentId]
      ensures agentHistory == old(agentHistory)[entry.agentId :=
                AgentHistoryOf(old(agentHistory), entry.agentId) + [AgentSnapshot(entry, now)]]
      ensures auditLog == old(auditLog) + [AgentRegistered(entry.agentId)]
    {
      RegisterKeepsAgents(agentOrder, agents, agentHistory, entry, now);
      if entry.agentId !in agents {
        agentOrder := agentOrder + [entry.agentId];
      }
      agents := agents[entry.agentId := entry];
      var history := AgentHistoryOf(agentHistory, entry.agentId);
      agentHistory := agentHistory[entry.agentId := history + [AgentSnapshot(entry, now)]];
      auditLog := auditLog + [AgentRegistered(entry.agentId)];
    }

    /** The first registered agent of a type. */
    method FindAgentByType(agentType: AgentType) returns (found: Option<string>)
      requires Valid()
      ensures found == FirstOfType(agentOrder, agents, agentType)
    {
      for k := 0 to |agentOrder|
        invariant FirstOfType(agentOrder, agents, agentType) == FirstOfType(agentOrder[k..], agents, agentType)
      {
        if agentOrder[k] in agents && agents[agentOrder[k]].agentType == agentType { return Some(agentOrder[k]); }
      }
      return None;
    }

    method ValidateAgentProjectAccess(agentId: string, projectId: string) returns (allowed: bool)
      modifies this`auditLog
      ensures allowed <==> agentId in agents && agents[agentId].currentProjectId == Some(projectId)
      ensures auditLog == old(auditLog) + (if allowed then [] else [AccessDenied(agentId, projectId)])
    {
      allowed := agentId in agents && agents[agentId].currentProjectId == Some(projectId);
      if !allowed {
        auditLog := auditLog + [AccessDenied(agentId, projectId)];
      }
    }

    /** `validateMessageAccess`, stopping at the first denial, which it logs. */
    method ValidateMessageAccess(message: Message) returns (denial: Option<Denial>)
      requires Valid()
      modifies this`auditLog
      ensures denial == DenialOf(agentOrder, agents, message)
      ensures auditLog == old(auditLog) + DenialLog(denial, message)
    {
      var sender := FindAgentByType(message.from);
      var receiver := FindAgentByType(message.to);
      if sender.None? {
        auditLog := auditLog + [AccessDenied(TypeName(message.from), message.projectId)];
        return Some(SenderUnknown);
      }
      if receiver.None? {
        auditLog := auditLog + [AccessDenied(TypeName(message.to), message.projectId)];
        return Some(ReceiverUnknown);
      }
      var allowed := ValidateAgentProjectAccess(sender.value, message.projectId);
      if !allowed { return Some(NotOnProject(sender.value)); }
      allowed := ValidateAgentProjectAccess(receiver.value, message.projectId);
      if !allowed { return Some(NotOnProject(receiver.value)); }
      return None;
    }

    /** `routeMessage`: a well-formed message is logged once, as routed exactly when sender and receiver both work on
        its project, and else with the reason; a malformed one is not logged as a communication at all. */
    method RouteMessage(message: Option<Message>) returns (allowed: bool)
      requires Valid()
      modifies this`auditLog, this`communicationLog
      ensures Valid()
      ensures allowed <==> message.Some? && MayExchange(agentOrder, agents, message.value)
      ensures message.None? ==>
                communicationLog == old(communicationLog) && auditLog == old(auditLog) + [MessageRejected(None)]
      ensures message.Some? ==>
                var denial, project := DenialOf(agentOrder, agents, message.value), message.value.projectId;
                && communicationLog ==
                   old(communicationLog) + [CommunicationEntry(|old(communicationLog)| + 1, message.value, denial)]
                && auditLog == old(auditLog) + DenialLog(denial, message.value)
                               + [if allowed then MessageRouted(project) else MessageRejected(Some(project))]
    {
      if message.None? {
        auditLog := auditLog + [MessageRejected(None)];
        return false;
      }
      var denial := ValidateMessageAccess(message.value);
      NoDenialExactlyWhenBothWorkThere(agentOrder, agents, message.value);
      allowed := denial.None?;
      communicationLog := communicationLog + [CommunicationEntry(|communicationLog| + 1, message.value, denial)];
      auditLog := auditLog + [if allowed then MessageRouted(message.value.projectId)
                              else MessageRejected(Some(message.value.projectId))];
    }
  }

  /** `applyLifecycleUpdate`: the project moves exactly when it exists and the event, raised by its owner, leads
      somewhere from its state. */
  method ApplyLifecycleUpdate(
      registry: AgentRegistry, projectId: string, event: LifecycleEvent, actor: AgentType, timestamp: int, milestone: string, now: int)
    returns (next: Option<LifecycleState>)
    requires registry.Valid()
    modifies registry`projects, registry`projectHistory, registry`auditLog
    ensures registry.Valid() && OnlyGrew(old(registry.projectHistory), registry.projectHistory)
    ensures KeptLawful(old(registry.projectHistory), registry.projectHistory)
    ensures projectId !in old(registry.projects) ==> next == None
    ensures projectId in old(registry.projects) ==> forall to ::
              next == Some(to) <==>
              ValidateLifecycleTransition(old(registry.projects)[projectId].lifecycleState, to, event, actor)
    ensures next.None? ==> registry.projects == old(registry.projects) && registry.projectHistory == old(registry.projectHistory)
    ensures registry.auditLog == old(registry.auditLog) + (if next.Some? then [StateUpdated(projectId)] else [])
    ensures next.Some? ==> registry.projectHistory == old(registry.projectHistory)[projectId :=
              old(registry.projectHistory)[projectId] + [Snapshot(registry.projects[projectId], now)]]
    ensures next.Some? ==> registry.projects == old(registry.projects)[projectId :=
              old(registry.projects)[projectId].(lifecycleState := next.value, currentMilestone := milestone, updatedAt := timestamp)]
  {
    if projectId !in registry.projects { return None; }
    var project := registry.projects[projectId];
    var resolved := ResolveLifecycleTransition(project.lifecycleState, event, actor);
    forall to
      ensures resolved == Ok(to) <==> ValidateLifecycleTransition(project.lifecycleState, to, event, actor)
    {
      ResolveAgreesWithValidate(project.lifecycleState, event, actor, to);
    }
    if resolved.Err? { return None; }
    ValidatedIsValid(project.lifecycleState, resolved.value, event, actor);
    var found := registry.UpdateProject(
      projectId, ProjectUpdate(None, Some(resolved.value), None, Some(milestone), Some(timestamp)), now);
    return Some(resolved.value);
  }

  lemma ValidatedIsValid(from: LifecycleState, to: LifecycleState, event: LifecycleEvent, owner: AgentType)
    requires ValidateLifecycleTransition(from, to, event, owner)
    ensures IsValidTransition(from, to)
  {
    var k :| 0 <= k < |LIFECYCLE_TRANSITIONS| && LIFECYCLE_TRANSITIONS[k] == Transition(event, from, to, owner);
    assert Permits(LIFECYCLE_TRANSITIONS, from, to);
  }

  lemma UpdateKeepsLawful(projects: Projects, histories: Histories, id: string, updated: ProjectEntry, now: int)
    requires HistoriesMatch(projects, histories) && id in projects && updated.projectId == id
    ensures var after := histories[id := histories[id] + [Snapshot(updated, now)]];
            && HistoriesMatch(projects[id := updated], after)
            && OnlyGrew(histories, after)
            && (IsLawfulMove(projects[id].lifecycleState, updated.lifecycleState) ==> KeptLawful(histories, after))
  {
    if LawfulHistory(histories[id]) && IsLawfulMove(projects[id].lifecycleState, updated.lifecycleState) {
      LawfulGrows(histories[id], Snapshot(updated, now));
    }
  }

  lemma RegisterKeepsLawful(projects: Projects, histories: Histories, entry: ProjectEntry, now: int)
    requires HistoriesMatch(projects, histories)
    ensures var id := entry.projectId;
            var after := histories[id := HistoryOf(histories, id) + [Snapshot(entry, now)]];
            && HistoriesMatch(projects[id := entry], after)
            && OnlyGrew(histories, after)
            && (id !in projects && entry.lifecycleState == Lead ==> LawfulHistory(after[id]))
            && ((id in projects ==> IsLawfulMove(projects[id].lifecycleState, entry.lifecycleState))
                ==> KeptLawful(histories, after))
  {
    if entry.projectId in projects {
      UpdateKeepsLawful(projects, histories, entry.projectId, entry, now);
    }
  }

  function FirstOfType(order: seq<string>, agents: map<string, AgentEntry>, agentType: AgentType): Option<string> {
    if order == [] then None
    else if order[0] in agents && agents[order[0]].agentType == agentType then Some(order[0])
    else FirstOfType(order[1..], agents, agentType)
  }

  /** The agent found has the type, and none listed before it has; none is found only if no listed agent has it. */
  lemma {:induction false} FirstOfTypeIsTheFirst(order: seq<string>, agents: Agents, agentType: AgentType)
    ensures match FirstOfType(order, agents, agentType)
            case None => forall k :: 0 <= k < |order| ==> !HasType(agents, order[k], agentType)
            case Some(id) => exists k :: 0 <= k < |order| && order[k] == id && HasType(agents, id, agentType)
                               && forall j :: 0 <= j < k ==> !HasType(agents, order[j], agentType)
  {
    if order != [] && !HasType(agents, order[0], agentType) {
      FirstOfTypeIsTheFirst(order[1..], agents, agentType);
      match FirstOfType(order[1..], agents, agentType) {
        case None =>
          forall k | 0 <= k < |order|
            ensures !HasType(agents, order[k], agentType)
          {
            assert k > 0 ==> order[1..][k - 1] == order[k];
          }
        case Some(id) =>
          var k :| 0 <= k < |order| - 1 && order[1..][k] == id && HasType(agents, id, agentType)
                   && forall j :: 0 <= j < k ==> !HasType(agents, order[1..][j], agentType);
          assert order[k + 1] == id;
          forall j | 0 <= j < k + 1
            ensures !HasType(agents, order[j], agentType)
          {
            assert j > 0 ==> order[1..][j - 1] == order[j];
          }
      }
    }
  }

  predicate HasType(agents: Agents, id: string, agentType: AgentType) {
    id in agents && agents[id].agentType == agentType
  }

  /** The isolation rule: the first registered agent of the sender's type and that of the receiver's type both work
      on the message's project. */
  predicate MayExchange(order: seq<string>, agents: Agents, m: Message) {
    var sender, receiver := FirstOfType(order, agents, m.from), FirstOfType(order, agents, m.to);
    && sender.Some? && WorksOn(agents, sender.value, m.projectId)
    && receiver.Some? && WorksOn(agents, receiver.value, m.projectId)
  }

  predicate WorksOn(agents: Agents, id: string, projectId: string) {
    id in agents && agents[id].currentProjectId == Some(projectId)
  }

  /** The first thing that stands in the way of a message. */
  function DenialOf(order: seq<string>, agents: Agents, m: Message): Option<Denial> {
    match (FirstOfType(order, agents, m.from), FirstOfType(order, agents, m.to))
    case (None, _) => Some(SenderUnknown)
    case (Some(_), None) => Some(ReceiverUnknown)
    case (Some(sender), Some(receiver)) =>
      if !WorksOn(agents, sender, m.projectId) then Some(NotOnProject(sender))
      else if !WorksOn(agents, receiver, m.projectId) then Some(NotOnProject(receiver))
      else None
  }

  /** The audit entry of a denial: it names an agent, or the type that has none. */
  function DenialLog(denial: Option<Denial>, m: Message): seq<AuditEvent> {
    match denial
    case None => []
    case Some(SenderUnknown) => [AccessDenied(TypeName(m.from), m.projectId)]
    case Some(ReceiverUnknown) => [AccessDenied(TypeName(m.to), m.projectId)]
    case Some(NotOnProject(agent)) => [AccessDenied(agent, m.projectId)]
  }

  /** Nothing stands in the way exactly when the isolation rule lets sender and receiver exchange the message; and an agent
      that is named does not work on the project. */
  lemma NoDenialExactlyWhenBothWorkThere(order: seq<string>, agents: Agents, m: Message)
    ensures DenialOf(order, agents, m).None? <==> MayExchange(order, agents, m)
    ensures forall agent :: DenialOf(order, agents, m) == Some(NotOnProject(agent)) ==> !WorksOn(agents, agent, m.projectId)
  {
  }

  function TypeName(t: AgentType): string {
    match t
    case Ceo => "ceo_agent"
    case Sales => "sales_agent"
    case Marketing => "marketing_agent"
    case Product => "product_agent"
    case Engineering => "engineering_agent"
    case ProjectManager => "project_manager_agent"
    case SupportAgent => "support_agent"
  }

  /** A project with a lawful history that is delivered has been, in this order, a lead, qualified, proposed, won, in
      discovery, in implementation and in qa. */
  lemma DeliveredProjectsPassedEveryStage(history: seq<Snapshot>) returns (at: seq<nat>)
    requires LawfulHistory(history) && history[|history| - 1].entry.lifecycleState == Delivered
    ensures |at| == 8
    ensures forall r :: 0 <= r < 8 ==> at[r] < |history| && Rank(history[at[r]].entry.lifecycleState) == r
    ensures forall r, q :: 0 <= r < q < 8 ==> at[r] < at[q]
  {
    at := WalkVisitsEveryStage(StatesOf(history), |history| - 1);
  }

  /** A closed project with a lawful history stays closed, whatever lawful snapshots follow. */
  lemma ClosedProjectsStayClosed(history: seq<Snapshot>, k: nat)
    requires LawfulHistory(history) && k < |history| && history[k].entry.lifecycleState == ClosedProject
    ensures forall n :: k <= n < |history| ==> history[n].entry.lifecycleState == ClosedProject
  {
    forall n | k <= n < |history|
      ensures history[n].entry.lifecycleState == ClosedProject
    {
      ClosedIsFinal(StatesOf(history), k, n);
      assert StatesOf(history)[n] == history[n].entry.lifecycleState;
    }
  }
}
