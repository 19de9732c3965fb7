/**
 The resumable flow engine. A run saves its record before and after every step; a later run of the same
 flow loads the last saved record and skips the steps recorded as succeeded.

 A crash is modelled by what survives it: the record of the last save that completed.
 */
module FlowEngine {
  import opened Prelude

  datatype StepStatus = StepPending | StepRunning | StepSucceeded | StepFailed | StepSkipped

  datatype FlowStatus = FlowPending | FlowRunning | FlowSucceeded | FlowFailed | FlowRecovering

  datatype FlowErrorCode = CodeStepFailed | CodeDefinitionInvalid

  datatype FlowError = FlowError(code: FlowErrorCode, message: string, stepId: Option<string>)

  /** What a step function or a recovery function does: return a new state or throw. */
  datatype Outcome<+S> = Returned(state: S) | Threw(message: string)

  datatype FlowStep<!S> = FlowStep(id: string, run: S -> Outcome<S>, recover: Option<(S, FlowError) -> Outcome<S>>)

  datatype FlowDefinition<!S> = FlowDefinition(id: string, initialState: S, steps: seq<FlowStep<S>>)

  datatype StepRecord = StepRecord(stepId: string, status: StepStatus, error: Option<string>)

  datatype RunState<S> = RunState(flowId: string, status: FlowStatus, state: S, steps: seq<StepRecord>)

  // ------------------------------------------------------------------ validation

  /** Non-blank ids, and no step id twice. */
  ghost predicate IsValidDefinition<S>(def: FlowDefinition<S>) {
    && !IsBlank(def.id)
    && (forall i :: 0 <= i < |def.steps| ==> !IsBlank(def.steps[i].id))
    && forall i, j :: 0 <= i < j < |def.steps| ==> def.steps[i].id != def.steps[j].id
  }

  /** `validateFlowDefinition` */
  method ValidateFlowDefinition<S>(def: FlowDefinition<S>) returns (invalid: Option<FlowError>)
    ensures invalid.None? <==> IsValidDefinition(def)
    ensures invalid.Some? ==> invalid.value.code == CodeDefinitionInvalid
  {
    if IsBlank(def.id) {
      return Some(FlowError(CodeDefinitionInvalid, "Flow id is required.", None));
    }
    var stepIds: set<string> := {};
    for i := 0 to |def.steps|
      invariant stepIds == set k | 0 <= k < i :: def.steps[k].id
      invariant forall k :: 0 <= k < i ==> !IsBlank(def.steps[k].id)
      invariant forall j, k :: 0 <= j < k < i ==> def.steps[j].id != def.steps[k].id
    {
      var step := def.steps[i];
      if IsBlank(step.id) {
        return Some(FlowError(CodeDefinitionInvalid, "Flow step id is required.", None));
      }
      if step.id in stepIds {
        return Some(FlowError(CodeDefinitionInvalid, "Duplicate flow step.", Some(step.id)));
      }
      stepIds := stepIds + {step.id};
    }
    return None;
  }

  // ------------------------------------------------------------------ run records

  /** `updateStep` */
  function UpdateStep<S>(rs: RunState<S>, stepId: string, status: StepStatus, error: Option<string>): (r: RunState<S>)
    ensures r.flowId == rs.flowId && r.status == rs.status && r.state == rs.state && |r.steps| == |rs.steps|
    ensures forall k :: 0 <= k < |rs.steps| ==>
              r.steps[k] == if rs.steps[k].stepId == stepId then StepRecord(stepId, status, error) else rs.steps[k]
  {
    rs.(steps := seq(|rs.steps|, k requires 0 <= k < |rs.steps| =>
      if rs.steps[k].stepId == stepId then StepRecord(stepId, status, error) else rs.steps[k]))
  }

  /** The status of the first record found for a step. */
  function StatusOf(records: seq<StepRecord>, stepId: string): Option<StepStatus> {
    if records == [] then None
    else if records[0].stepId == stepId then Some(records[0].status)
    else StatusOf(records[1..], stepId)
  }

  function InitialRecord<S>(def: FlowDefinition<S>): RunState<S> {
    RunState(def.id, FlowPending, def.initialState,
             seq(|def.steps|, k requires 0 <= k < |def.steps| => StepRecord(def.steps[k].id, StepPending, None)))
  }

  // ------------------------------------------------------------------ what a run does

  /** The records saved while one step runs, the last of them, and the error if the flow fails there. */
  datatype StepTrace<S> = StepTrace(saves: seq<RunState<S>>, last: RunState<S>, error: Option<FlowError>)

  function StepError(message: string, stepId: string): FlowError {
    FlowError(CodeStepFailed, message, Some(stepId))
  }

  function RunStep<S>(step: FlowStep<S>, before: RunState<S>): StepTrace<S> {
    var running := UpdateStep(before, step.id, StepRunning, None);
    match step.run(running.state)
    case Returned(next) =>
      var done := UpdateStep(running.(state := next), step.id, StepSucceeded, None);
      StepTrace([running, done], done, None)
    case Threw(message) =>
      match step.recover
      case None =>
        var failed := UpdateStep(running.(status := FlowFailed), step.id, StepFailed, Some(message));
        StepTrace([running, failed], failed, Some(StepError(message, step.id)))
      case Some(recover) =>
        var recovering := running.(status := FlowRecovering);
        match recover(recovering.state, StepError(message, step.id))
        case Returned(next) =>
          var done := UpdateStep(recovering.(state := next, status := FlowRunning), step.id, StepSucceeded, None);
          StepTrace([running, recovering, done], done, None)
        case Threw(again) =>
          var failed := UpdateStep(recovering.(status := FlowFailed), step.id, StepFailed, Some(again));
          StepTrace([running, recovering, failed], failed, Some(StepError(again, step.id)))
  }

  /** A run: the records it saves in order, the indices of the steps it executes, and its result. */
  datatype Trace<S> = Trace(saves: seq<RunState<S>>, executed: seq<nat>, result: Result<RunState<S>, FlowError>)

  function RunFrom<S>(def: FlowDefinition<S>, rs: RunState<S>, i: nat): (t: Trace<S>)
    requires i <= |def.steps|
    ensures t.saves != []
    decreases |def.steps| - i
  {
    if i == |def.steps| then
      var done := rs.(status := FlowSucceeded);
      Trace([done], [], Ok(done))
    else if StatusOf(rs.steps, def.steps[i].id) == Some(StepSucceeded) then
      RunFrom(def, rs, i + 1)
    else
      var step := RunStep(def.steps[i], rs);
      if step.error.Some? then
        Trace(step.saves, [i], Err(step.error.value))
      else
        var rest := RunFrom(def, step.last, i + 1);
        Trace(step.saves + rest.saves, [i] + rest.executed, rest.result)
  }

  /** One whole run of a valid flow, given the record the store holds. */
  function Run<S>(def: FlowDefinition<S>, stored: Option<RunState<S>>): (t: Trace<S>)
    ensures t.saves != []
  {
    var loaded := if stored.Some? then stored.value else InitialRecord(def);
    var started := loaded.(status := FlowRunning);
    var rest := RunFrom(def, started, 0);
    Trace([started] + rest.saves, rest.executed, rest.result)
  }

  // ------------------------------------------------------------------ the engine

  class FlowStateStore<S> {
    var record: Option<RunState<S>>
    ghost var saves: seq<RunState<S>>

    /** The record held is the one saved last. */
    ghost predicate HoldsLastSave()
      reads this
    {
      saves != [] && record == Some(saves[|saves| - 1])
    }

    constructor ()
      ensures record == None && saves == []
    {
      record, saves := None, [];
    }

    method Save(rs: RunState<S>)
      modifies this
      ensures record == Some(rs) && saves == old(saves) + [rs] && HoldsLastSave()
    {
      record, saves := Some(rs), saves + [rs];
    }
  }

  /** The body of the step loop: run one step, recover if it throws, and save every record on the way. */
  method ExecuteStep<S>(step: FlowStep<S>, before: RunState<S>, store: FlowStateStore<S>)
    returns (runState: RunState<S>, error: Option<FlowError>)
    modifies store
    ensures store.saves == old(store.saves) + RunStep(step, before).saves
    ensures store.HoldsLastSave() && runState == RunStep(step, before).last
    ensures error == RunStep(step, before).error
  {
    runState := UpdateStep(before, step.id, StepRunning, None);
    store.Save(runState);
    match step.run(runState.state) {
      case Returned(nextState) =>
        runState := UpdateStep(runState.(state := nextState), step.id, StepSucceeded, None);
        store.Save(runState);
        return runState, None;
      case Threw(message) =>
        var flowError := StepError(message, step.id);
        if step.recover.None? {
          runState := UpdateStep(runState.(status := FlowFailed), step.id, StepFailed, Some(message));
          store.Save(runState);
          return runState, Some(flowError);
        }
        runState := runState.(status := FlowRecovering);
        store.Save(runState);
        match step.recover.value(runState.state, flowError) {
          case Returned(recovered) =>
            runState := UpdateStep(runState.(state := recovered, status := FlowRunning), step.id, StepSucceeded, None);
            store.Save(runState);
            return runState, None;
          case Threw(again) =>
            runState := UpdateStep(runState.(status := FlowFailed), step.id, StepFailed, Some(again));
            store.Save(runState);
            return runState, Some(StepError(again, step.id));
        }
    }
  }

  /** The saves and executed steps so far and those of the rest of the run make up the whole run. */
  ghost predicate OnTrack<S>(
      def: FlowDefinition<S>, run: Trace<S>, before: seq<RunState<S>>, saves: seq<RunState<S>>, executed: seq<nat>,
      rs: RunState<S>, i: nat)
  {
    && i <= |def.steps|
    && saves + RunFrom(def, rs, i).saves == before + run.saves
    && executed + RunFrom(def, rs, i).executed == run.executed
    && RunFrom(def, rs, i).result == run.result
  }

  /** Exactly this run has been performed. */
  ghost predicate Performed<S>(
      run: Trace<S>, before: seq<RunState<S>>, saves: seq<RunState<S>>, executed: seq<nat>,
      result: Result<RunState<S>, FlowError>)
  {
    saves == before + run.saves && executed == run.executed && result == run.result
  }

  lemma StartsOnTrack<S>(def: FlowDefinition<S>, started: RunState<S>, run: Trace<S>, before: seq<RunState<S>>)
    requires var rest := RunFrom(def, started, 0); run == Trace([started] + rest.saves, rest.executed, rest.result)
    ensures OnTrack(def, run, before, before + [started], [], started, 0)
  {
  }

  lemma StaysOnTrack<S>(
      def: FlowDefinition<S>, run: Trace<S>, before: seq<RunState<S>>, saves: seq<RunState<S>>, executed: seq<nat>,
      rs: RunState<S>, i: nat)
    requires i < |def.steps| && StatusOf(rs.steps, def.steps[i].id) != Some(StepSucceeded)
    requires OnTrack(def, run, before, saves, executed, rs, i)
    ensures var step := RunStep(def.steps[i], rs);
            match step.error
            case Some(e) => Performed(run, before, saves + step.saves, executed + [i], Err(e))
            case None => OnTrack(def, run, before, saves + step.saves, executed + [i], step.last, i + 1)
  {
    var step := RunStep(def.steps[i], rs);
    if step.error.None? {
      var rest := RunFrom(def, step.last, i + 1);
      assert (saves + step.saves) + rest.saves == saves + (step.saves + rest.saves);
      assert (executed + [i]) + rest.executed == executed + ([i] + rest.executed);
    }
  }

  lemma EndsOnTrack<S>(
      def: FlowDefinition<S>, run: Trace<S>, before: seq<RunState<S>>, saves: seq<RunState<S>>, executed: seq<nat>,
      rs: RunState<S>)
    requires OnTrack(def, run, before, saves, executed, rs, |def.steps|)
    ensures var done := rs.(status := FlowSucceeded); Performed(run, before, saves + [done], executed, Ok(done))
  {
    assert executed + [] == executed;
  }

  /** `executeFlow` once the definition is found valid: the loop performs exactly the run that `Run` describes,
      saving every record in turn. `executed` lists the steps it runs. */
  method ExecuteValidFlow<S>(def: FlowDefinition<S>, store: FlowStateStore<S>)
    returns (result: Result<RunState<S>, FlowError>, ghost executed: seq<nat>)
    modifies store
    ensures Performed(Run(def, old(store.record)), old(store.saves), store.saves, executed, result)
    ensures store.HoldsLastSave()
  {
    ghost var run, before := Run(def, store.record), store.saves;
    var runState := if store.record.Some? then store.record.value else InitialRecord(def);
    runState := runState.(status := FlowRunning);
    store.Save(runState);

    executed := [];
    StartsOnTrack(def, runState, run, before);
    for i := 0 to |def.steps|
      invariant store.HoldsLastSave()
      invariant OnTrack(def, run, before, store.saves, executed, runState, i)
    {
      var step := def.steps[i];
      if StatusOf(runState.steps, step.id) == Some(StepSucceeded) {
        continue;
      }
      StaysOnTrack(def, run, before, store.saves, executed, runState, i);
      var error;
      executed := executed + [i];
      runState, error := ExecuteStep(step, runState, store);
      if error.Some? {
        return Err(error.value), executed;
      }
    }

    EndsOnTrack(def, run, before, store.saves, executed, runState);
    runState := runState.(status := FlowSucceeded);
    store.Save(runState);
    return Ok(runState), executed;
  }

  /** `executeFlow` */
  method ExecuteFlow<S>(def: FlowDefinition<S>, store: FlowStateStore<S>)
    returns (result: Result<RunState<S>, FlowError>, ghost executed: seq<nat>)
    modifies store
    ensures !IsValidDefinition(def) ==> result.Err? && result.error.code == CodeDefinitionInvalid
    ensures !IsValidDefinition(def) ==>
              store.record == old(store.record) && store.saves == old(store.saves) && executed == []
    ensures IsValidDefinition(def) ==>
              Performed(Run(def, old(store.record)), old(store.saves), store.saves, executed, result)
    ensures IsValidDefinition(def) ==> store.HoldsLastSave()
  {
    var invalid := ValidateFlowDefinition(def);
    if invalid.Some? { return Err(invalid.value), []; }
    result, executed := ExecuteValidFlow(def, store);
  }

  // ------------------------------------------------------------------ the meaning of a flow

  /** What one step makes of a state, recovery included. */
  function StepValue<S>(step: FlowStep<S>, s: S): Result<S, FlowError> {
    match step.run(s)
    case Returned(next) => Ok(next)
    case Threw(message) =>
      if step.recover.None? then Err(StepError(message, step.id))
      else
        match step.recover.value(s, StepError(message, step.id))
        case Returned(next) => Ok(next)
        case Threw(again) => Err(StepError(again, step.id))
  }

  /** The state after the first k steps, if they all succeed. */
  function StateAfter<S>(def: FlowDefinition<S>, k: nat): Result<S, FlowError>
    requires k <= |def.steps|
  {
    if k == 0 then Ok(def.initialState)
    else
      match StateAfter(def, k - 1)
      case Err(e) => Err(e)
      case Ok(s) => StepValue(def.steps[k - 1], s)
  }

  /** The result a run of the flow should have: every step recorded as succeeded and the folded state, or the
      first error. */
  function Meaning<S>(def: FlowDefinition<S>): Result<RunState<S>, FlowError> {
    match StateAfter(def, |def.steps|)
    case Err(e) => Err(e)
    case Ok(s) =>
      Ok(RunState(def.id, FlowSucceeded, s,
                  seq(|def.steps|, k requires 0 <= k < |def.steps| => StepRecord(def.steps[k].id, StepSucceeded, None))))
  }

  /** The record belongs to this flow; exactly the first k steps are recorded as succeeded, and the state is the
      fold of their outcomes. */
  ghost predicate SucceededPrefix<S>(def: FlowDefinition<S>, rs: RunState<S>, k: nat) {
    && rs.flowId == def.id
    && |rs.steps| == |def.steps|
    && k <= |def.steps|
    && (forall i :: 0 <= i < |def.steps| ==> rs.steps[i].stepId == def.steps[i].id)
    && (forall i :: 0 <= i < |def.steps| ==> if i < k then rs.steps[i] == StepRecord(def.steps[i].id, StepSucceeded, None)
                                                      else rs.steps[i].status != StepSucceeded)
    && StateAfter(def, k) == Ok(rs.state)
  }

  ghost predicate Consistent<S(!new)>(def: FlowDefinition<S>, rs: RunState<S>) {
    exists k :: SucceededPrefix(def, rs, k)
  }

  // ------------------------------------------------------------------ every save is consistent

  lemma {:induction false} StatusOfOwnRecord(records: seq<StepRecord>, k: nat)
    requires k < |records|
    requires forall i :: 0 <= i < k ==> records[i].stepId != records[k].stepId
    ensures StatusOf(records, records[k].stepId) == Some(records[k].status)
  {
    if k > 0 {
      assert records[1..][k - 1] == records[k];
      StatusOfOwnRecord(records[1..], k - 1);
    }
  }

  /** The engine skips a step exactly when it belongs to the succeeded prefix. */
  lemma SkipsThePrefix<S>(def: FlowDefinition<S>, rs: RunState<S>, k: nat, i: nat)
    requires IsValidDefinition(def) && SucceededPrefix(def, rs, k) && i < |def.steps|
    ensures StatusOf(rs.steps, def.steps[i].id) == Some(StepSucceeded) <==> i < k
  {
    StatusOfOwnRecord(rs.steps, i);
  }

  lemma NotYetSucceeded<S>(def: FlowDefinition<S>, rs: RunState<S>, k: nat, status: StepStatus, error: Option<string>)
    requires IsValidDefinition(def) && SucceededPrefix(def, rs, k) && k < |def.steps| && status != StepSucceeded
    ensures SucceededPrefix(def, UpdateStep(rs, def.steps[k].id, status, error), k)
  {
  }

  lemma OneMoreSucceeded<S>(def: FlowDefinition<S>, rs: RunState<S>, k: nat, next: S)
    requires IsValidDefinition(def) && SucceededPrefix(def, rs, k) && k < |def.steps|
    requires StepValue(def.steps[k], rs.state) == Ok(next)
    ensures SucceededPrefix(def, UpdateStep(rs.(state := next), def.steps[k].id, StepSucceeded, None), k + 1)
  {
  }

  /** Running step k from a consistent record: every save is consistent, and the step has its meaning. */
  lemma StepKeepsConsistency<S(!new)>(def: FlowDefinition<S>, rs: RunState<S>, k: nat)
    requires IsValidDefinition(def) && SucceededPrefix(def, rs, k) && k < |def.steps|
    ensures var t := RunStep(def.steps[k], rs);
            && AllConsistent(def, t.saves)
            && match StepValue(def.steps[k], rs.state)
               case Ok(_) => t.error.None? && SucceededPrefix(def, t.last, k + 1)
               case Err(e) => t.error == Some(e)
  {
    var step := def.steps[k];
    NotYetSucceeded(def, rs, k, StepRunning, None);
    var running := UpdateStep(rs, step.id, StepRunning, None);
    assert SucceededPrefix(def, running.(status := FlowRecovering), k);
    match StepValue(step, rs.state) {
      case Ok(next) =>
        OneMoreSucceeded(def, running, k, next);
        OneMoreSucceeded(def, running.(status := FlowRecovering).(status := FlowRunning), k, next);
      case Err(e) =>
        assert SucceededPrefix(def, running.(status := FlowFailed), k);
        NotYetSucceeded(def, running.(status := FlowFailed), k, StepFailed, Some(e.message));
    }
  }

  ghost predicate AllConsistent<S(!new)>(def: FlowDefinition<S>, saves: seq<RunState<S>>) {
    forall n :: 0 <= n < |saves| ==> Consistent(def, saves[n])
  }

  lemma AllConsistentConcat<S(!new)>(def: FlowDefinition<S>, a: seq<RunState<S>>, b: seq<RunState<S>>)
    requires AllConsistent(def, a) && AllConsistent(def, b)
    ensures AllConsistent(def, a + b)
  {
  }

  /** From any consistent record, every save of the rest of a run is consistent and the result is the flow's
      meaning. */
  lemma {:induction false} RunFromIsFaithful<S(!new)>(def: FlowDefinition<S>, rs: RunState<S>, k: nat, i: nat)
    requires IsValidDefinition(def) && SucceededPrefix(def, rs, k) && i <= k
    ensures AllConsistent(def, RunFrom(def, rs, i).saves)
    ensures RunFrom(def, rs, i).result == Meaning(def)
    decreases |def.steps| - i
  {
    if i < |def.steps| {
      SkipsThePrefix(def, rs, k, i);
      if i < k {
        RunFromIsFaithful(def, rs, k, i + 1);
      } else {
        StepKeepsConsistency(def, rs, k);
        var step := RunStep(def.steps[i], rs);
        if step.error.None? {
          RunFromIsFaithful(def, step.last, k + 1, i + 1);
          AllConsistentConcat(def, step.saves, RunFrom(def, step.last, i + 1).saves);
        } else {
          ErrorsPropagate(def, k + 1);
        }
      }
    } else {
      assert SucceededPrefix(def, rs.(status := FlowSucceeded), k);
      FinishedRecord(def, rs);
    }
  }

  lemma StepAdvances<S(!new)>(def: FlowDefinition<S>, rs: RunState<S>, k: nat)
    requires IsValidDefinition(def) && SucceededPrefix(def, rs, k) && k < |def.steps|
    ensures RunStep(def.steps[k], rs).error.None? ==> SucceededPrefix(def, RunStep(def.steps[k], rs).last, k + 1)
  {
    StepKeepsConsistency(def, rs, k);
  }

  /** No step of the succeeded prefix is executed again. */
  lemma {:induction false} PrefixIsNotExecuted<S(!new)>(def: FlowDefinition<S>, rs: RunState<S>, k: nat, i: nat)
    requires IsValidDefinition(def) && SucceededPrefix(def, rs, k) && i <= k
    ensures forall n :: 0 <= n < |RunFrom(def, rs, i).executed| ==> k <= RunFrom(def, rs, i).executed[n] < |def.steps|
    decreases |def.steps| - i
  {
    if i < |def.steps| {
      SkipsThePrefix(def, rs, k, i);
      if i < k {
        PrefixIsNotExecuted(def, rs, k, i + 1);
      } else {
        StepAdvances(def, rs, k);
        var step := RunStep(def.steps[i], rs);
        if step.error.None? {
          PrefixIsNotExecuted(def, step.last, k + 1, i + 1);
        }
      }
    }
  }

  lemma FinishedRecord<S>(def: FlowDefinition<S>, rs: RunState<S>)
    requires SucceededPrefix(def, rs, |def.steps|)
    ensures Meaning(def) == Ok(rs.(status := FlowSucceeded))
  {
    assert Meaning(def).value.steps == rs.steps;
  }

  lemma {:induction false} ErrorsPropagate<S>(def: FlowDefinition<S>, k: nat)
    requires k <= |def.steps| && StateAfter(def, k).Err?
    ensures StateAfter(def, |def.steps|) == Err(StateAfter(def, k).error)
    decreases |def.steps| - k
  {
    if k < |def.steps| {
      ErrorsPropagate(def, k + 1);
    }
  }

  // ------------------------------------------------------------------ what the saves of a run record

  /** Step i is the running one: those before it have succeeded. */
  ghost predicate RunningAt<S>(def: FlowDefinition<S>, rs: RunState<S>, i: nat)
    requires i < |def.steps|
  {
    SucceededPrefix(def, rs, i) && rs.status == FlowRunning && rs.steps[i] == StepRecord(def.steps[i].id, StepRunning, None)
  }

  ghost predicate DoneAt<S>(def: FlowDefinition<S>, rs: RunState<S>, i: nat, next: S)
    requires i < |def.steps|
  {
    SucceededPrefix(def, rs, i + 1) && rs.status == FlowRunning && rs.state == next
  }

  ghost predicate FailedAt<S>(def: FlowDefinition<S>, rs: RunState<S>, i: nat, message: string)
    requires i < |def.steps|
  {
    && SucceededPrefix(def, rs, i) && rs.status == FlowFailed
    && rs.steps[i] == StepRecord(def.steps[i].id, StepFailed, Some(message))
  }

  /** From position p on, the saves record that step i ran: first as the running one; then, if it threw and has a
      recovery, the same with the flow recovering; and then how it ended. */
  ghost predicate StepIsSaved<S>(def: FlowDefinition<S>, saves: seq<RunState<S>>, p: nat, i: nat)
    requires i < |def.steps|
  {
    var step := def.steps[i];
    && p + 1 < |saves| && RunningAt(def, saves[p], i)
    && match step.run(saves[p].state)
       case Returned(next) => DoneAt(def, saves[p + 1], i, next)
       case Threw(message) =>
         if step.recover.None? then FailedAt(def, saves[p + 1], i, message)
         else
           && p + 2 < |saves| && saves[p + 1] == saves[p].(status := FlowRecovering)
           && match step.recover.value(saves[p].state, FlowError(CodeStepFailed, message, Some(step.id)))
              case Returned(next) => DoneAt(def, saves[p + 2], i, next)
              case Threw(again) => FailedAt(def, saves[p + 2], i, again)
  }

  ghost predicate HasSavedStep<S(!new)>(def: FlowDefinition<S>, saves: seq<RunState<S>>, i: nat) {
    i < |def.steps| && exists p :: StepIsSaved(def, saves, p, i)
  }

  /** A run that fails has saved the failure of the step that its error names; one that succeeds has saved its result. */
  ghost predicate EndIsSaved<S(!new)>(def: FlowDefinition<S>, last: RunState<S>, result: Result<RunState<S>, FlowError>) {
    match result
    case Ok(rs) => last == rs && rs.status == FlowSucceeded
    case Err(e) => exists i :: FailureIsSaved(def, last, e, i)
  }

  ghost predicate FailureIsSaved<S>(def: FlowDefinition<S>, last: RunState<S>, e: FlowError, i: nat) {
    i < |def.steps| && e == FlowError(CodeStepFailed, e.message, Some(def.steps[i].id)) && FailedAt(def, last, i, e.message)
  }

  lemma RunningRecord<S>(def: FlowDefinition<S>, rs: RunState<S>, k: nat)
    requires IsValidDefinition(def) && SucceededPrefix(def, rs, k) && k < |def.steps| && rs.status == FlowRunning
    ensures RunningAt(def, UpdateStep(rs, def.steps[k].id, StepRunning, None), k)
  {
    NotYetSucceeded(def, rs, k, StepRunning, None);
  }

  lemma DoneRecord<S>(def: FlowDefinition<S>, rs: RunState<S>, k: nat, next: S)
    requires IsValidDefinition(def) && SucceededPrefix(def, rs, k) && k < |def.steps|
    requires StepValue(def.steps[k], rs.state) == Ok(next)
    ensures DoneAt(def, UpdateStep(rs.(state := next, status := FlowRunning), def.steps[k].id, StepSucceeded, None), k, next)
  {
    var running := rs.(status := FlowRunning);
    assert SucceededPrefix(def, running, k);
    OneMoreSucceeded(def, running, k, next);
    assert running.(state := next) == rs.(state := next, status := FlowRunning);
  }

  lemma FailedRecord<S>(def: FlowDefinition<S>, rs: RunState<S>, k: nat, message: string)
    requires IsValidDefinition(def) && SucceededPrefix(def, rs, k) && k < |def.steps|
    ensures FailedAt(def, UpdateStep(rs.(status := FlowFailed), def.steps[k].id, StepFailed, Some(message)), k, message)
  {
    var failed := rs.(status := FlowFailed);
    assert SucceededPrefix(def, failed, k);
    NotYetSucceeded(def, failed, k, StepFailed, Some(message));
  }

  /** One step records that it ran and how it ended. */
  lemma StepIsRecorded<S(!new)>(def: FlowDefinition<S>, rs: RunState<S>, k: nat)
    requires IsValidDefinition(def) && SucceededPrefix(def, rs, k) && k < |def.steps| && rs.status == FlowRunning
    ensures var t := RunStep(def.steps[k], rs);
            && StepIsSaved(def, t.saves, 0, k)
            && t.saves != [] && t.last == t.saves[|t.saves| - 1]
            && match t.error
               case None => SucceededPrefix(def, t.last, k + 1) && t.last.status == FlowRunning
               case Some(e) => FailureIsSaved(def, t.last, e, k)
  {
    var step := def.steps[k];
    var running := UpdateStep(rs, step.id, StepRunning, None);
    RunningRecord(def, rs, k);
    match step.run(running.state) {
      case Returned(next) => DoneRecord(def, running, k, next);
      case Threw(message) =>
        if step.recover.None? {
          FailedRecord(def, running, k, message);
        } else {
          var recovering := running.(status := FlowRecovering);
          assert SucceededPrefix(def, recovering, k);
          match step.recover.value(running.state, StepError(message, step.id)) {
            case Returned(next) => DoneRecord(def, recovering, k, next);
            case Threw(again) => FailedRecord(def, recovering, k, again);
          }
        }
    }
  }

  lemma SavedStepShifts<S(!new)>(def: FlowDefinition<S>, before: seq<RunState<S>>, saves: seq<RunState<S>>, after: seq<RunState<S>>, i: nat)
    requires HasSavedStep(def, saves, i)
    ensures HasSavedStep(def, before + saves + after, i)
  {
    var p :| StepIsSaved(def, saves, p, i);
    var all := before + saves + after;
    assert forall q :: 0 <= q < |saves| ==> all[|before| + q] == saves[q];
    assert StepIsSaved(def, all, |before| + p, i);
  }

  ghost predicate AllStepsSaved<S(!new)>(def: FlowDefinition<S>, saves: seq<RunState<S>>, executed: seq<nat>) {
    forall n :: 0 <= n < |executed| ==> HasSavedStep(def, saves, executed[n])
  }

  /** From k succeeded steps on, the executed steps are those from k up to the failing one or the last. */
  ghost predicate ExecutedFrom<S>(def: FlowDefinition<S>, t: Trace<S>, k: nat) {
    && (forall n :: 0 <= n < |t.executed| ==> t.executed[n] == k + n)
    && match t.result
       case Ok(_) => k + |t.executed| == |def.steps|
       case Err(e) => 0 < |t.executed| <= |def.steps| - k && e.stepId == Some(def.steps[k + |t.executed| - 1].id)
  }

  lemma AllSavedShift<S(!new)>(
      def: FlowDefinition<S>, before: seq<RunState<S>>, saves: seq<RunState<S>>, after: seq<RunState<S>>, executed: seq<nat>)
    requires AllStepsSaved(def, saves, executed)
    ensures AllStepsSaved(def, before + saves + after, executed)
  {
    forall n | 0 <= n < |executed|
      ensures HasSavedStep(def, before + saves + after, executed[n])
    {
      SavedStepShifts(def, before, saves, after, executed[n]);
    }
  }

  lemma AllSavedConcat<S(!new)>(
      def: FlowDefinition<S>, a: seq<RunState<S>>, b: seq<RunState<S>>, first: seq<nat>, rest: seq<nat>)
    requires AllStepsSaved(def, a, first) && AllStepsSaved(def, b, rest)
    ensures AllStepsSaved(def, a + b, first + rest)
  {
    AllSavedShift(def, [], a, b, first);
    AllSavedShift(def, a, b, [], rest);
    assert [] + a + b == a + b == a + b + [];
  }

  /** How one step leaves the record: advanced and running, or failed with the step's error. */
  ghost predicate StepEnd<S>(def: FlowDefinition<S>, t: StepTrace<S>, k: nat) {
    && t.saves != [] && t.last == t.saves[|t.saves| - 1]
    && match t.error
       case None => SucceededPrefix(def, t.last, k + 1) && t.last.status == FlowRunning
       case Some(e) => FailureIsSaved(def, t.last, e, k)
  }

  /** The rest of a run from step k: that step, and unless it fails the rest from the next one. */
  lemma FirstOfTheRest<S(!new)>(def: FlowDefinition<S>, rs: RunState<S>, k: nat) returns (step: StepTrace<S>)
    requires IsValidDefinition(def) && SucceededPrefix(def, rs, k) && k < |def.steps| && rs.status == FlowRunning
    ensures StepEnd(def, step, k) && AllStepsSaved(def, step.saves, [k])
    ensures match step.error
            case Some(e) => RunFrom(def, rs, k) == Trace(step.saves, [k], Err(e))
            case None =>
              var rest := RunFrom(def, step.last, k + 1);
              RunFrom(def, rs, k) == Trace(step.saves + rest.saves, [k] + rest.executed, rest.result)
  {
    SkipsThePrefix(def, rs, k, k);
    StepIsRecorded(def, rs, k);
    step := RunStep(def.steps[k], rs);
  }

  /** The succeeded prefix is skipped. */
  lemma {:induction false} SkipsToPrefixEnd<S>(def: FlowDefinition<S>, rs: RunState<S>, k: nat, i: nat)
    requires IsValidDefinition(def) && SucceededPrefix(def, rs, k) && i <= k
    ensures RunFrom(def, rs, i) == RunFrom(def, rs, k)
    decreases k - i
  {
    if i < k {
      SkipsThePrefix(def, rs, k, i);
      SkipsToPrefixEnd(def, rs, k, i + 1);
    }
  }

  lemma LastOfBoth<T>(a: seq<T>, b: seq<T>)
    requires b != []
    ensures (a + b)[|a + b| - 1] == b[|b| - 1]
  {
  }

  /** What a run from k succeeded steps on leaves behind. */
  ghost predicate IsRecorded<S(!new)>(def: FlowDefinition<S>, t: Trace<S>, k: nat) {
    && t.saves != []
    && ExecutedFrom(def, t, k)
    && AllStepsSaved(def, t.saves, t.executed)
    && EndIsSaved(def, t.saves[|t.saves| - 1], t.result)
  }

  lemma NothingLeft<S(!new)>(def: FlowDefinition<S>, rs: RunState<S>)
    ensures IsRecorded(def, RunFrom(def, rs, |def.steps|), |def.steps|)
  {
  }

  lemma FailureIsRecorded<S(!new)>(def: FlowDefinition<S>, step: StepTrace<S>, e: FlowError, k: nat)
    requires k < |def.steps| && StepEnd(def, step, k) && step.error == Some(e) && AllStepsSaved(def, step.saves, [k])
    ensures IsRecorded(def, Trace(step.saves, [k], Err(e)), k)
  {
  }

  lemma OneMoreExecuted<S>(def: FlowDefinition<S>, saves: seq<RunState<S>>, rest: Trace<S>, k: nat)
    requires ExecutedFrom(def, rest, k + 1)
    ensures ExecutedFrom(def, Trace(saves + rest.saves, [k] + rest.executed, rest.result), k)
  {
  }

  lemma OneMoreRecorded<S(!new)>(def: FlowDefinition<S>, step: StepTrace<S>, rest: Trace<S>, k: nat)
    requires AllStepsSaved(def, step.saves, [k]) && IsRecorded(def, rest, k + 1)
    ensures IsRecorded(def, Trace(step.saves + rest.saves, [k] + rest.executed, rest.result), k)
  {
    OneMoreExecuted(def, step.saves, rest, k);
    AllSavedConcat(def, step.saves, rest.saves, [k], rest.executed);
    LastOfBoth(step.saves, rest.saves);
  }

  lemma {:induction false} RestIsRecorded<S(!new)>(def: FlowDefinition<S>, rs: RunState<S>, k: nat)
    requires IsValidDefinition(def) && SucceededPrefix(def, rs, k) && rs.status == FlowRunning
    ensures IsRecorded(def, RunFrom(def, rs, k), k)
    decreases |def.steps| - k
  {
    if k == |def.steps| {
      NothingLeft(def, rs);
    } else {
      var step := FirstOfTheRest(def, rs, k);
      match step.error {
        case Some(e) => FailureIsRecorded(def, step, e, k);
        case None =>
          RestIsRecorded(def, step.last, k + 1);
          OneMoreRecorded(def, step, RunFrom(def, step.last, k + 1), k);
      }
    }
  }

  /** What a whole run leaves behind, from nothing or from a record with k succeeded steps. It executes the steps from k
      on, up to the failing one or the last. Each of them is saved as running, with the flow recovering if it threw and
      can recover, and then as it ended. The last save is the result, or records the failure that the error names. */
  lemma RunIsRecorded<S(!new)>(def: FlowDefinition<S>, stored: Option<RunState<S>>, k: nat)
    requires IsValidDefinition(def)
    requires if stored.Some? then SucceededPrefix(def, stored.value, k) else k == 0
    ensures IsRecorded(def, Run(def, stored), k)
  {
    var started, rest := WholeRun(def, stored, k);
    RestIsRecorded(def, started, k);
    StartIsRecorded(def, started, rest, k);
  }

  lemma StartIsRecorded<S(!new)>(def: FlowDefinition<S>, started: RunState<S>, rest: Trace<S>, k: nat)
    requires IsRecorded(def, rest, k)
    ensures IsRecorded(def, Trace([started] + rest.saves, rest.executed, rest.result), k)
  {
    AllSavedConcat(def, [started], rest.saves, [], rest.executed);
    assert [] + rest.executed == rest.executed;
    LastOfBoth([started], rest.saves);
  }

  /** A run saves the loaded record as running, and then goes on from the end of the succeeded prefix. */
  lemma WholeRun<S(!new)>(def: FlowDefinition<S>, stored: Option<RunState<S>>, k: nat)
    returns (started: RunState<S>, rest: Trace<S>)
    requires IsValidDefinition(def)
    requires if stored.Some? then SucceededPrefix(def, stored.value, k) else k == 0
    ensures started.status == FlowRunning && SucceededPrefix(def, started, k)
    ensures rest == RunFrom(def, started, k)
    ensures Run(def, stored) == Trace([started] + rest.saves, rest.executed, rest.result)
  {
    started := (if stored.Some? then stored.value else InitialRecord(def)).(status := FlowRunning);
    rest := RunFrom(def, started, 0);
    SkipsToPrefixEnd(def, started, k, 0);
  }

  /** The records of steps that a run does not execute stay as they were loaded, in every save. */
  ghost predicate OthersStay<S>(saves: seq<RunState<S>>, loaded: seq<StepRecord>, executed: seq<nat>) {
    forall q, j :: 0 <= q < |saves| && 0 <= j < |loaded| && j !in executed ==>
      |saves[q].steps| == |loaded| && saves[q].steps[j] == loaded[j]
  }

  lemma StepTouchesOnlyItself<S>(def: FlowDefinition<S>, rs: RunState<S>, k: nat)
    requires IsValidDefinition(def) && SucceededPrefix(def, rs, k) && k < |def.steps|
    ensures var t := RunStep(def.steps[k], rs); OthersStay(t.saves, rs.steps, [k]) && OthersStay([t.last], rs.steps, [k])
  {
    assert forall j :: 0 <= j < |rs.steps| && j !in [k] ==> rs.steps[j].stepId != def.steps[k].id;
  }

  lemma {:induction false} UnexecutedRecordsStay<S(!new)>(def: FlowDefinition<S>, rs: RunState<S>, k: nat, i: nat)
    requires IsValidDefinition(def) && SucceededPrefix(def, rs, k) && i <= k
    ensures OthersStay(RunFrom(def, rs, i).saves, rs.steps, RunFrom(def, rs, i).executed)
    decreases |def.steps| - i
  {
    if i < |def.steps| {
      SkipsThePrefix(def, rs, k, i);
      if i < k {
        UnexecutedRecordsStay(def, rs, k, i + 1);
      } else {
        StepTouchesOnlyItself(def, rs, k);
        StepAdvances(def, rs, k);
        var step := RunStep(def.steps[k], rs);
        if step.error.None? {
          UnexecutedRecordsStay(def, step.last, k + 1, k + 1);
          OthersStayOn(step.saves, step.last, RunFrom(def, step.last, k + 1), rs.steps, k);
        }
      }
    }
  }

  lemma OthersStayOn<S>(saves: seq<RunState<S>>, last: RunState<S>, rest: Trace<S>, loaded: seq<StepRecord>, k: nat)
    requires OthersStay(saves, loaded, [k]) && OthersStay([last], loaded, [k]) && OthersStay(rest.saves, last.steps, rest.executed)
    requires |last.steps| == |loaded|
    ensures OthersStay(saves + rest.saves, loaded, [k] + rest.executed)
  {
    var all, executed := saves + rest.saves, [k] + rest.executed;
    forall q, j | 0 <= q < |all| && 0 <= j < |loaded| && j !in executed
      ensures |all[q].steps| == |loaded| && all[q].steps[j] == loaded[j]
    {
      assert j !in [k] && j !in rest.executed;
      assert [last][0].steps[j] == loaded[j];
      if q >= |saves| {
        assert all[q] == rest.saves[q - |saves|];
      }
    }
  }

  /** In a run from nothing or from a consistent record, steps not executed keep their loaded records: from nothing they
      stay pending. */
  lemma RunTouchesOnlyExecutedSteps<S(!new)>(def: FlowDefinition<S>, stored: Option<RunState<S>>)
    requires IsValidDefinition(def) && (stored.Some? ==> Consistent(def, stored.value))
    ensures stored.Some? ==> OthersStay(Run(def, stored).saves, stored.value.steps, Run(def, stored).executed)
    ensures stored.None? ==> forall q, j :: 0 <= q < |Run(def, None).saves| && 0 <= j < |def.steps| && j !in Run(def, None).executed ==>
              && |Run(def, None).saves[q].steps| == |def.steps|
              && Run(def, None).saves[q].steps[j] == StepRecord(def.steps[j].id, StepPending, None)
  {
    var started := (if stored.Some? then stored.value else InitialRecord(def)).(status := FlowRunning);
    var k :| if stored.Some? then SucceededPrefix(def, stored.value, k) else k == 0;
    assert SucceededPrefix(def, started, k);
    UnexecutedRecordsStay(def, started, k, 0);
    assert OthersStay([started] + RunFrom(def, started, 0).saves, started.steps, RunFrom(def, started, 0).executed);
  }

  // ------------------------------------------------------------------ crashes and restarts

  /** What the store holds after a run that crashed once `completed` of its saves had been made. A run with no
      more saves than that ended by itself. */
  function StoredAfter<S>(def: FlowDefinition<S>, stored: Option<RunState<S>>, completed: nat): Option<RunState<S>> {
    var saves := Run(def, stored).saves;
    if completed == 0 then stored
    else Some(saves[(if completed <= |saves| then completed else |saves|) - 1])
  }

  /** The record stored after any number of runs, each crashed at an arbitrary save. */
  function AfterCrashes<S>(def: FlowDefinition<S>, crashes: seq<nat>): Option<RunState<S>> {
    if crashes == [] then None
    else StoredAfter(def, AfterCrashes(def, crashes[..|crashes| - 1]), crashes[|crashes| - 1])
  }

  lemma RunIsFaithful<S(!new)>(def: FlowDefinition<S>, stored: Option<RunState<S>>)
    requires IsValidDefinition(def)
    requires stored.Some? ==> Consistent(def, stored.value)
    ensures Run(def, stored).result == Meaning(def)
    ensures AllConsistent(def, Run(def, stored).saves)
  {
    var started := (if stored.Some? then stored.value else InitialRecord(def)).(status := FlowRunning);
    var k :| if stored.Some? then SucceededPrefix(def, stored.value, k) else k == 0;
    assert SucceededPrefix(def, started, k);
    RunFromIsFaithful(def, started, k, 0);
    AllConsistentConcat(def, [started], RunFrom(def, started, 0).saves);
  }

  /** A run that resumes after k succeeded steps executes only later ones; if all have succeeded, none. */
  lemma ResumeSkipsSucceededSteps<S(!new)>(def: FlowDefinition<S>, stored: RunState<S>, k: nat)
    requires IsValidDefinition(def) && SucceededPrefix(def, stored, k)
    ensures forall n :: 0 <= n < |Run(def, Some(stored)).executed| ==> k <= Run(def, Some(stored)).executed[n] < |def.steps|
    ensures k == |def.steps| ==> Run(def, Some(stored)).executed == []
  {
    assert SucceededPrefix(def, stored.(status := FlowRunning), k);
    PrefixIsNotExecuted(def, stored.(status := FlowRunning), k, 0);
    var executed := Run(def, Some(stored)).executed;
    assert executed == [] || k <= executed[0] < |def.steps|;
  }

  /** However often the process crashes and restarts, the stored record is consistent. */
  lemma {:induction false} CrashesKeepConsistency<S(!new)>(def: FlowDefinition<S>, crashes: seq<nat>)
    requires IsValidDefinition(def)
    ensures AfterCrashes(def, crashes).Some? ==> Consistent(def, AfterCrashes(def, crashes).value)
  {
    if crashes != [] {
      var before := AfterCrashes(def, crashes[..|crashes| - 1]);
      CrashesKeepConsistency(def, crashes[..|crashes| - 1]);
      RunIsFaithful(def, before);
    }
  }

  /** A run after any crashes ends exactly as one uninterrupted run does: the same final record, or the same
      error. */
  lemma ResumedRunEqualsCleanRun<S(!new)>(def: FlowDefinition<S>, crashes: seq<nat>)
    requires IsValidDefinition(def)
    ensures Run(def, AfterCrashes(def, crashes)).result == Run(def, None).result == Meaning(def)
  {
    CrashesKeepConsistency(def, crashes);
    RunIsFaithful(def, AfterCrashes(def, crashes));
    RunIsFaithful(def, None);
  }

  /** Re-running a flow that has succeeded executes no step and succeeds with the same record. */
  lemma RerunExecutesNothing<S(!new)>(def: FlowDefinition<S>, crashes: seq<nat>)
    requires IsValidDefinition(def) && Run(def, AfterCrashes(def, crashes)).result.Ok?
    ensures var finished := Run(def, AfterCrashes(def, crashes)).result.value;
            Run(def, Some(finished)).executed == [] && Run(def, Some(finished)).result == Ok(finished)
  {
    ResumedRunEqualsCleanRun(def, crashes);
    var finished := Meaning(def).value;
    assert SucceededPrefix(def, finished, |def.steps|);
    RunIsFaithful(def, Some(finished));
    ResumeSkipsSucceededSteps(def, finished, |def.steps|);
  }
}
