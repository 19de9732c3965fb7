/** The project lifecycle: its transition table, and what walking along it means. */
module Lifecycle {
  import opened Prelude

  datatype LifecycleState =
    Lead | Qualified | Proposal | Won | Discovery | Implementation | Qa | Delivered | Support | ClosedProject

  datatype LifecycleEvent =
    LeadCreated | LeadQualified | ProposalSent | DealWon | DiscoveryStarted | BuildStarted
    | FinalValidationStarted | DeliveryApproved | PostDeliveryIssue | SupportClosed

  datatype AgentType = Ceo | Sales | Marketing | Product | Engineering | ProjectManager | SupportAgent

  datatype Transition = Transition(event: LifecycleEvent, from: LifecycleState, to: LifecycleState, owner: AgentType)

  const LIFECYCLE_TRANSITIONS: seq<Transition> := [
    Transition(LeadCreated, Lead, Lead, Sales),
    Transition(LeadQualified, Lead, Qualified, Sales),
    Transition(ProposalSent, Qualified, Proposal, Sales),
    Transition(DealWon, Proposal, Won, Sales),
    Transition(DiscoveryStarted, Won, Discovery, Product),
    Transition(BuildStarted, Discovery, Implementation, Engineering),
    Transition(FinalValidationStarted, Implementation, Qa, Engineering),
    Transition(DeliveryApproved, Qa, Delivered, Engineering),
    Transition(PostDeliveryIssue, Delivered, Support, SupportAgent),
    Transition(SupportClosed, Support, ClosedProject, SupportAgent),
    Transition(SupportClosed, Delivered, ClosedProject, SupportAgent)
  ]

  predicate Permits(table: seq<Transition>, from: LifecycleState, to: LifecycleState) {
    exists k :: 0 <= k < |table| && table[k].from == from && table[k].to == to
  }

  predicate Lists(table: seq<Transition>, t: Transition) {
    exists k :: 0 <= k < |table| && table[k] == t
  }

  predicate IsValidTransition(from: LifecycleState, to: LifecycleState) {
    Permits(LIFECYCLE_TRANSITIONS, from, to)
  }

  /** `validateLifecycleTransition` with its event and owner given. */
  predicate ValidateLifecycleTransition(from: LifecycleState, to: LifecycleState, event: LifecycleEvent, owner: AgentType) {
    Lists(LIFECYCLE_TRANSITIONS, Transition(event, from, to, owner))
  }

  /** The first transition of the table from a state by an event. */
  function FindFrom(table: seq<Transition>, current: LifecycleState, event: LifecycleEvent): Option<Transition> {
    if table == [] then None
    else if table[0].from == current && table[0].event == event then Some(table[0])
    else FindFrom(table[1..], current, event)
  }

  datatype ResolveError = NoTransition | WrongOwner | IllegalTransition

  function ResolveIn(table: seq<Transition>, current: LifecycleState, event: LifecycleEvent, actor: AgentType)
    : Result<LifecycleState, ResolveError>
  {
    match FindFrom(table, current, event)
    case None => Err(NoTransition)
    case Some(t) =>
      if t.owner != actor then Err(WrongOwner)
      else if !Permits(table, t.from, t.to) then Err(IllegalTransition)
      else Ok(t.to)
  }

  /** `resolveLifecycleTransition` */
  function ResolveLifecycleTransition(current: LifecycleState, event: LifecycleEvent, actor: AgentType)
    : Result<LifecycleState, ResolveError>
  {
    ResolveIn(LIFECYCLE_TRANSITIONS, current, event, actor)
  }

  /** From one state, one event leads along one transition only. */
  ghost predicate Deterministic(table: seq<Transition>) {
    forall i, j :: 0 <= i < j < |table| ==> table[i].from != table[j].from || table[i].event != table[j].event
  }

  lemma TableIsDeterministic()
    ensures Deterministic(LIFECYCLE_TRANSITIONS)
  {
    assert forall k :: 0 <= k < |LIFECYCLE_TRANSITIONS| ==>
      Position(LIFECYCLE_TRANSITIONS[k].from, LIFECYCLE_TRANSITIONS[k].event) == k;
  }

  /** Where the table lists the transition from a state by an event, if it lists one. */
  function Position(from: LifecycleState, event: LifecycleEvent): nat {
    if event == LeadCreated then 0
    else if event == SupportClosed && from == Delivered then 10
    else Rank(from) + 1
  }

  lemma {:induction false} FindFromFinds(table: seq<Transition>, current: LifecycleState, event: LifecycleEvent)
    ensures match FindFrom(table, current, event)
            case Some(t) => t in table && t.from == current && t.event == event
            case None => forall t :: t in table ==> !(t.from == current && t.event == event)
  {
    if table != [] {
      FindFromFinds(table[1..], current, event);
      assert table == [table[0]] + table[1..];
    }
  }

  lemma ResolvesWhatItNames(
      table: seq<Transition>, current: LifecycleState, event: LifecycleEvent, actor: AgentType, to: LifecycleState)
    requires Deterministic(table)
    ensures ResolveIn(table, current, event, actor) == Ok(to) <==> Lists(table, Transition(event, current, to, actor))
    ensures ResolveIn(table, current, event, actor) != Err(IllegalTransition)
  {
    FindFromFinds(table, current, event);
    var found := FindFrom(table, current, event);
    if Lists(table, Transition(event, current, to, actor)) {
      assert Transition(event, current, to, actor) in table;
      var j :| 0 <= j < |table| && table[j] == Transition(event, current, to, actor);
      var k :| 0 <= k < |table| && table[k] == found.value;
      assert j == k;
    }
    if found.Some? {
      var k :| 0 <= k < |table| && table[k] == found.value;
      assert Permits(table, found.value.from, found.value.to);
    }
  }

  /** The two entry points accept the same moves: resolving by event and actor leads to a state exactly when
      validating the move to that state succeeds. The illegal-transition error never occurs. */
  lemma ResolveAgreesWithValidate(current: LifecycleState, event: LifecycleEvent, actor: AgentType, to: LifecycleState)
    ensures ResolveLifecycleTransition(current, event, actor) == Ok(to) <==>
            ValidateLifecycleTransition(current, to, event, actor)
    ensures ResolveLifecycleTransition(current, event, actor) != Err(IllegalTransition)
  {
    TableIsDeterministic();
    ResolvesWhatItNames(LIFECYCLE_TRANSITIONS, current, event, actor, to);
  }

  // ------------------------------------------------------------------ walks

  /** Consecutive states are equal or joined by a transition of the table. */
  ghost predicate IsWalk(states: seq<LifecycleState>) {
    forall k :: 0 <= k < |states| - 1 ==> states[k] == states[k + 1] || IsValidTransition(states[k], states[k + 1])
  }

  /** How far a state is along the pipeline. */
  function Rank(s: LifecycleState): nat {
    match s
    case Lead => 0
    case Qualified => 1
    case Proposal => 2
    case Won => 3
    case Discovery => 4
    case Implementation => 5
    case Qa => 6
    case Delivered => 7
    case Support => 8
    case ClosedProject => 9
  }

  /** A transition that changes the state goes one stage up, or closes a delivered project directly. */
  lemma TransitionsClimb(from: LifecycleState, to: LifecycleState)
    requires IsValidTransition(from, to)
    ensures to == from == Lead || Rank(to) == Rank(from) + 1 || (from == Delivered && to == ClosedProject)
  {
  }

  /** Who may move a project into a state: sales until it is won, product into discovery, engineering until it is delivered,
      and support afterwards. */
  lemma EachStageHasItsOwner(from: LifecycleState, to: LifecycleState, event: LifecycleEvent, owner: AgentType)
    requires ValidateLifecycleTransition(from, to, event, owner)
    ensures owner == if Rank(to) <= Rank(Won) then Sales else if to == Discovery then Product
                     else if Rank(to) <= Rank(Delivered) then Engineering else SupportAgent
  {
  }

  /** Every stage but the last has a way on, to the next stage. */
  lemma EveryStageLeadsOn(from: LifecycleState) returns (to: LifecycleState, event: LifecycleEvent, owner: AgentType)
    requires from != ClosedProject
    ensures ValidateLifecycleTransition(from, to, event, owner) && Rank(to) == Rank(from) + 1
  {
    var t := LIFECYCLE_TRANSITIONS[Rank(from) + 1];
    to, event, owner := t.to, t.event, t.owner;
  }

  /** The visits to the stages up to delivery, in order: the r-th is at position at[r]. */
  ghost predicate VisitsStages(states: seq<LifecycleState>, at: seq<nat>, n: nat) {
    && (forall r :: 0 <= r < |at| ==> at[r] <= n && n < |states| && Rank(states[at[r]]) == r)
    && forall r, q :: 0 <= r < q < |at| ==> at[r] < at[q]
  }

  /** A walk that starts as a lead has passed, in order, every stage up to the one it is in. */
  lemma {:induction false} WalkVisitsEveryStage(states: seq<LifecycleState>, n: nat) returns (at: seq<nat>)
    requires IsWalk(states) && states != [] && states[0] == Lead && n < |states|
    ensures |at| == (if Rank(states[n]) <= 7 then Rank(states[n]) else 7) + 1 && VisitsStages(states, at, n)
    decreases n
  {
    if n == 0 {
      at := [0];
    } else {
      at := WalkVisitsEveryStage(states, n - 1);
      if states[n] != states[n - 1] {
        assert IsValidTransition(states[n - 1], states[n]);
        TransitionsClimb(states[n - 1], states[n]);
        if Rank(states[n]) <= 7 {
          at := at + [n];
        }
      }
    }
  }

  /** Nothing leaves the closed state. */
  lemma {:induction false} ClosedIsFinal(states: seq<LifecycleState>, k: nat, n: nat)
    requires IsWalk(states) && k <= n < |states| && states[k] == ClosedProject
    ensures states[n] == ClosedProject
    decreases n
  {
    if k < n {
      ClosedIsFinal(states, k, n - 1);
      if states[n] != states[n - 1] {
        TransitionsClimb(states[n - 1], states[n]);
      }
    }
  }
}
