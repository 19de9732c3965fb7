# Verified model of the agent runtime's algorithms and protocols

This project models, in Dafny 4.11, the parts of the agent runtime that hold real algorithms, protocols or state
machines, and proves what they are for. Each module follows one component of the runtime. Code that updates variables,
maps or arrays in place is a method or a class here, proved against a specification function; the results proper are
lemmas about those functions, over every input and every run.

| module | component |
|---|---|
| `EditDistance` | word error counting: the edit matrix, the greedy backtrack, the accuracy figures |
| `DependencyGraph`, `TaskSort`, `TaskRegistryModel` | task dependencies: cycle check, topological sort, the stateful registry |
| `Bootstrap` | service ordering, start-up and shutdown |
| `FlowEngine` | the flow engine that saves its record at every step and resumes from it |
| `KeyedQueue`, `WorkerPool`, `DraftStream` | three asynchronous protocols |
| `Dedupe`, `PersistentDedupeModel`, `RateLimiter`, `ProviderRuntime` | bounded caches and limiters, retry and circuit breaker |
| `Migrations` | the two migration engines |
| `Chunking` | splitting text into chunks |
| `Lifecycle`, `AgentRegistryModel` | the project lifecycle and the agent registry |
| `Prelude` | result types and the white-space predicate |

`dafny verify dfyconfig.toml` checks the whole project.

How the asynchronous code is modelled: a stretch of code between two awaits runs without interruption, so it is one
event. A state is a value, `Step` is the effect of an event, `After` is the state after a sequence of events each of
which was possible when it happened, and the lemmas quantify over all such sequences. The classes beside these
functions carry the original's mutable variables; each method is proved to have exactly the effect of `Step`.

Clock readings, outcomes of callbacks and promises, and the locale's order on keys are parameters. An operation that
reads the clock several times takes several readings.

## Where the code and a natural expectation differ

- A refused send puts its own text back even over a newer update. `DraftStream.PendingTurnsStaleExactlyByRefusal` says
  that in every run this is the only way in which the pending text becomes stale, and
  `DraftStream.RefusalLosesANewerUpdate` gives a run. A rejected send loses its text altogether:
  `DraftStream.RejectionLosesTheNewestText` gives a run, and `DraftStream.AtRestTheNewestIsAccountedFor` says what else
  can have become of the newest text. A waiting text is left without timer and flush exactly by the events that
  `DraftStream.TextIsStrandedExactly` names.
- The throttle of the draft stream does not bind timers: `DraftStream.TimerSendsTooEarly` gives a run in which one fires on
  time and sends too early, and `DraftStream.TimerKeepsTheThrottleExactly` says exactly when none can. Updates always
  keep it: `DraftStream.UpdatesFollowTheThrottle`.
- With equal creation times a key can be forgotten by the claim that accepted it, so that the same claim is accepted
  twice in a row. `Dedupe.ClaimIsForgottenAtOnce` says exactly when, `Dedupe.AcceptedTwiceInARow` gives a run.
- If the clock may run backwards, the reply limiter's bound holds exactly for an empty window or at most one reply per
  window: `RateLimiter.BoundHoldsForEveryClockExactly`. `RateLimiter.ClockRunningBackOverfillsAWindow` gives the requests
  that break it otherwise. With a clock that does not run backwards it always holds.
- The two migration engines end alike from every version exactly when every first match below the target either raises
  the version or leads strictly down to a version from which no migration starts:
  `Migrations.EnginesAgreeEverywhere`, and `Migrations.EnginesAgree` for one starting version.
  `Migrations.DownwardMigrationSeparatesTheEngines` gives an input on which they differ. The record engine's loop may run
  for ever; `Migrations.ClimbEndsWithinTheList` says exactly when it ends.
- A service that was started stays in the container after a shutdown, so no later boot starts it again: the last clause
  of `Bootstrap.BootstrapRegistry.Boot`.
- In the task registry, `storeResult` overwrites any state and a pending task may be made ready by hand.
  `TaskRegistryModel.TerminalStatesStayExactly` says when terminal states stay, and
  `TaskRegistryModel.TransitionKeepsReadyTasksDueExactly` and `TaskRegistryModel.ResultKeepsReadyTasksDueExactly` say when
  a ready task still has all its dependencies succeeded. After a refresh, in any case, no pending task has.

## Model

| member | source | states |
|---|---|---|
| EditDistance.CreateEditMatrix | src/realtime-transcription/index.ts:155-180 | The filled matrix has the right borders, and each inner cell is the cheapest of its three neighbours' continuations. |
| EditDistance.CellIsDistance | src/realtime-transcription/index.ts:168-177 | Every cell of such a matrix is the distance between the two word prefixes. |
| EditDistance.DistanceIsOptimal | src/realtime-transcription/index.ts:155-180 | The corner value is the minimum cost over all edit scripts that turn the reference into the hypothesis: some script achieves it and none is cheaper. |
| EditDistance.NoScriptIsCheaper | src/realtime-transcription/index.ts:171-175 | Any script that rewrites the reference into the hypothesis costs at least the distance. |
| EditDistance.WalksIffApplies | src/realtime-transcription/index.ts:193-224 | Walking through the matrix positions with a script is the same as applying the script and obtaining the hypothesis. |
| EditDistance.EqualWordsTakeTheDiagonal | src/realtime-transcription/index.ts:194-199 | Equal words force a cell to equal its diagonal neighbour. |
| EditDistance.BacktrackEdits | src/realtime-transcription/index.ts:182-227 | The backtrack stays inside the matrix, terminates, and returns the counts of one script whose cost is the corner cell and whose substitutions all change the word. Among all scripts of that cost it comes first: compared from the end, keeping is preferred to substituting, that to inserting, that to deleting. |
| EditDistance.GreedyScriptComesFirstOfAll | src/realtime-transcription/index.ts:193-224 | The script that the branch order of the backtrack leads to comes first among all cheapest scripts. |
| EditDistance.BacktrackIsOptimal | src/realtime-transcription/index.ts:193-226 | Such a script is a cheapest one, its counts add up to its cost, insertions minus deletions is the length difference, and the cost is zero exactly for equal inputs. |
| EditDistance.DistanceSeparates | src/realtime-transcription/index.ts:168-177 | The distance is zero exactly when the two word lists are equal. |
| EditDistance.CountEdits | src/realtime-transcription/index.ts:130-131 | The counts of matrix and backtrack together belong to the first of the cheapest scripts. |
| EditDistance.CalculateTranscriptionAccuracy | src/realtime-transcription/index.ts:124-145 | The reported counts are optimal; the error rate times the reference words is the number of errors (0 or 1 without reference words), and accuracy is one minus the rate, but never negative; it is 1 exactly for a perfect transcription. |
| EditDistance.WordErrorRate | src/realtime-transcription/index.ts:132-134 | The rate times the number of reference words is the number of errors; without reference words it is 0 if nothing was heard and else 1. |
| DependencyGraph.VisitIsSound | src/tasks/graph.ts:9-20 | If the search says yes, there is a dependency path from the node to the target. |
| DependencyGraph.VisitIsComplete | src/tasks/graph.ts:9-20 | The search with its path-local seen set misses no path: any path to the target that avoids the seen nodes makes it say yes. |
| DependencyGraph.CycleCheckIsReachability | src/tasks/graph.ts:4-23 | The check is true exactly when the task is reachable from one of the given dependencies. |
| DependencyGraph.CycleCheckIsExact | src/tasks/graph.ts:4-23 | Giving the task these dependencies makes the graph cyclic exactly when the check is true or a cycle avoids the task. |
| DependencyGraph.SortedGraphIsAcyclic | src/tasks/graph.ts:25-52 | A graph with a topological sort has no cycle. |
| TaskSort.TopologicalSorter.Visit | src/tasks/graph.ts:31-45 | One visit of the three-colour search keeps everything visited sorted and closed under dependencies, or names a task on a cycle. |
| TaskSort.SortTasksTopologically | src/tasks/graph.ts:25-52 | The sort fails exactly when the listed tasks' dependencies form a cycle; otherwise every listed dependency comes before its dependents, and a list already in order is returned unchanged. |
| TaskSort.SortIsAPermutation | src/tasks/graph.ts:25-52 | With distinct ids the sorted list is a permutation of the given one. |
| TaskRegistryModel.TaskRegistry.Register | src/tasks/registry.ts:25-49 | Which error is reported when, never a cycle; what a successful registration adds; and that it keeps every dependency registered strictly earlier. |
| TaskRegistryModel.RegisterNeverReportsACycle | src/tasks/registry.ts:36-38 | Once the earlier checks have passed, the cycle check is false in every registry: that branch is never taken. |
| TaskRegistryModel.RegistryIsAcyclic | src/tasks/registry.ts:30-34 | Registration order is a topological sort of the registry, so its dependency graph has no cycle. |
| TaskRegistryModel.SnapshotNeedsNoSorting | src/tasks/registry.ts:98-103 | The snapshot's task list is already in the order that the topological sort returns unchanged. |
| TaskRegistryModel.TaskRegistry.Transition | src/tasks/registry.ts:61-74 | A transition succeeds exactly when the task exists and the table allows it, and changes that task's state and time only. |
| TaskRegistryModel.MovesIntoEachState | src/tasks/transitions.ts:4-16 | Which states can move into each state: none into pending, only ready into running, only running into succeeded and failed, and so on. |
| TaskRegistryModel.ReadyMeansAllSucceeded | src/tasks/registry.ts:113-115 | A task is ready exactly if each listed dependency is registered and succeeded. |
| TaskRegistryModel.TaskRegistry.StoreResult | src/tasks/registry.ts:76-91 | Storing a result sets the task's state from it and then refreshes: afterwards no pending task has all dependencies succeeded. |
| TaskRegistryModel.TaskRegistry.ListReady | src/tasks/registry.ts:56-59 | The listed tasks are exactly the ready ones after a refresh, each once and in registration order. |
| TaskRegistryModel.TaskRegistry.RefreshPendingTasks | src/tasks/registry.ts:105-111 | The one-pass loop over the map it updates promotes exactly the pending tasks whose dependencies had succeeded, each at its own clock reading. |
| TaskRegistryModel.RefreshPromotesExactly | src/tasks/registry.ts:105-111 | A refresh makes exactly the pending tasks ready all of whose dependencies have succeeded, and changes nothing else. |
| TaskRegistryModel.OnePassSettles | src/tasks/registry.ts:105-111 | One refresh leaves nothing to promote; a second one changes nothing. |
| TaskRegistryModel.TerminalStatesStayExactly | src/tasks/registry.ts:87-88 | Terminal states survive a stored result exactly when its task was not terminal or already in the state the result sets. |
| TaskRegistryModel.TransitionKeepsReadyTasksDueExactly | src/tasks/registry.ts:61-74 | After a transition every ready task still has its dependencies succeeded, exactly when the transition itself did not make a task ready too early. |
| TaskRegistryModel.ResultKeepsReadyTasksDueExactly | src/tasks/registry.ts:76-91 | After a stored result every ready task still has its dependencies succeeded, exactly when the result did not take back a success that another ready task depends on. |
| Bootstrap.ServicePlanner.VisitService | src/bootstrap/index.ts:140-167 | One visit lists a service after all its dependencies, or reports a service on a cycle or a missing dependency. |
| Bootstrap.OrderServices | src/bootstrap/index.ts:128-138 | Planning fails exactly when a dependency is missing or the dependencies form a cycle; otherwise it lists every service once, after all its dependencies. |
| Bootstrap.BootstrapRegistry.Register | src/bootstrap/index.ts:47-53 | A duplicate id is refused; registration keeps the invariant of all starts so far. |
| Bootstrap.BootstrapRegistry.Boot | src/bootstrap/index.ts:59-72 | A boot starts exactly what its plan lists and the container lacks, in plan order, up to the first start that throws. So across any boots each service starts successfully at most once and only after all its dependencies; a complete boot has started everything. |
| Bootstrap.ContainerIsClosed | src/bootstrap/index.ts:60-69 | A service in the container has all its dependencies there too. |
| Bootstrap.BootstrapRegistry.Shutdown | src/bootstrap/index.ts:74-80 | Services are stopped in the reverse of their start order up to the first stop that throws; only a complete shutdown empties the list. |
| Bootstrap.DependentsStopFirst | src/bootstrap/index.ts:75-78 | A service is stopped before every dependency that is still in the list. |
| FlowEngine.ValidateFlowDefinition | src/flows/validate.ts:5-26 | A definition is accepted exactly when its id and step ids are non-blank and no step id repeats. |
| FlowEngine.ExecuteStep | src/flows/engine.ts:42-79 | Running one step, with recovery, saves exactly the records that the specification of a step lists. |
| FlowEngine.ExecuteFlow | src/flows/engine.ts:12-85 | The engine rejects invalid definitions without saving or executing anything; otherwise it performs exactly the specified run: result, saves and executed steps. |
| FlowEngine.StepKeepsConsistency | src/flows/engine.ts:42-79 | From a consistent record, every save during a step is consistent, and the step succeeds or fails as its meaning says. |
| FlowEngine.RunFromIsFaithful | src/flows/engine.ts:36-84 | From any consistent record the rest of a run saves only consistent records and ends with the flow's meaning. |
| FlowEngine.RunIsFaithful | src/flows/engine.ts:24-84 | A run from nothing or from any consistent record saves only consistent records and ends with the flow's meaning. |
| FlowEngine.RunIsRecorded | src/flows/engine.ts:36-84 | A run executes the steps from the succeeded prefix on, up to the failing one or the last. Each has a save in which it is the running one; if it throws and can recover, one with the flow recovering follows; then comes its outcome. The last save is the result of a successful run, and of a failed one the failed flow with the failed step and the error's message. |
| FlowEngine.StepIsRecorded | src/flows/engine.ts:42-79 | The same for one step. |
| FlowEngine.RunTouchesOnlyExecutedSteps | src/flows/engine.ts:87-99 | The records of steps that a run does not execute stay as loaded in every save; from nothing they stay pending. |
| FlowEngine.CrashesKeepConsistency | src/flows/engine.ts:24-34 | After any number of runs, each crashed after any of its saves, the stored record is a succeeded prefix with the fold of those steps' outcomes. |
| FlowEngine.ResumedRunEqualsCleanRun | src/flows/engine.ts:24-85 | After any crashes, a run ends with the same record or the same error as one uninterrupted run. |
| FlowEngine.ResumeSkipsSucceededSteps | src/flows/engine.ts:37-40 | A resumed run executes only steps after the succeeded prefix. |
| FlowEngine.RerunExecutesNothing | src/flows/engine.ts:37-40 | Re-running a succeeded flow executes no step and succeeds with the same record. |
| KeyedQueue.KeyedAsyncQueue.EnqueueKeyedTask | src/plugin-sdk/keyed-async-queue.ts:19-38 | Enqueueing chains the task behind the tail in the map and makes it the new tail. |
| KeyedQueue.KeyedAsyncQueue.CleanupTail | src/plugin-sdk/keyed-async-queue.ts:32-37 | The cleanup callback has exactly the effect of the cleanup event. |
| KeyedQueue.JobsRecordTheirEvents | src/plugin-sdk/keyed-async-queue.ts:19-38 | In every run job t is the t-th enqueued one with its key; it waits until its start, is settled fulfilled or rejected as its settle event says, and is cleaned up by its cleanup. |
| KeyedQueue.Reachable | src/plugin-sdk/keyed-async-queue.ts:19-38 | Every interleaving keeps the invariant: chained, serial, the map holds the newest uncleaned tails. |
| KeyedQueue.NeverOverlap | src/plugin-sdk/keyed-async-queue.ts:20-23 | Two tasks of one key are never running together. |
| KeyedQueue.StartsInEnqueueOrder | src/plugin-sdk/keyed-async-queue.ts:20-26 | When a task starts, every task of its key enqueued earlier has settled, fulfilled or rejected. |
| KeyedQueue.UnsettledKeysHaveTheirTail | src/plugin-sdk/keyed-async-queue.ts:27-31 | While a task of a key is unsettled, the map holds that key's newest tail. |
| KeyedQueue.CleanupRemovesOnlyItsOwnTail | src/plugin-sdk/keyed-async-queue.ts:32-36 | A late cleanup never removes a newer tail; the newest task's cleanup removes the entry. |
| KeyedQueue.DrainedKeysAreAbsent | src/plugin-sdk/keyed-async-queue.ts:32-37 | A key is in the map exactly as long as its newest task is not cleaned up; a drained key is absent. |
| KeyedQueue.UnsettledTasksCanProgress | src/plugin-sdk/keyed-async-queue.ts:20-26 | As long as a task is unsettled, some task of its key is running or can start. |
| WorkerPool.Runner.ContinueLoop | src/utils/run-with-concurrency.ts:29-37 | The top of a worker's loop claims the next index, or returns when stopped or out of tasks. |
| WorkerPool.Runner.SettleTask | src/utils/run-with-concurrency.ts:38-49 | Settling a task stores its result or error and continues the worker, exactly as the event says. |
| WorkerPool.ResolvedLimit | src/utils/run-with-concurrency.ts:22 | The pool has as many workers as the limit says, but no more than tasks and at least one. |
| WorkerPool.Reachable | src/utils/run-with-concurrency.ts:22-53 | Every schedule keeps the pool's invariant. |
| WorkerPool.ClaimsAreConsecutive | src/utils/run-with-concurrency.ts:33-37 | The claimed indices are exactly 0, 1, 2, ... each once, never more in flight than the resolved limit. |
| WorkerPool.EveryTaskRunsOnce | src/utils/run-with-concurrency.ts:28-53 | When the pool is done with a worker surviving, in continue mode or without error, every task has settled exactly once and each success is at its own index. |
| WorkerPool.WorkersDieExactlyByThrowing | src/utils/run-with-concurrency.ts:40-49 | A worker dies exactly if the error callback throws on a rejection of one of its tasks. |
| WorkerPool.WithoutThrowingEveryTaskRunsOnce | src/utils/run-with-concurrency.ts:28-53 | If the error callback does not throw, a pool that is done has run every task once, in continue mode or without error. |
| WorkerPool.RecordsTheOutcomes | src/utils/run-with-concurrency.ts:38-44 | What is recorded as settled is what settled, in that order. |
| WorkerPool.FirstErrorIsEarliest | src/utils/run-with-concurrency.ts:40-44 | The reported first error is the earliest failure, and the flag is set exactly when there is one. |
| WorkerPool.EarliestFailureIsFirst | src/utils/run-with-concurrency.ts:40-44 | Earliest means that everything that settled before it succeeded. |
| WorkerPool.NothingClaimedAfterTheFirstError | src/utils/run-with-concurrency.ts:30-32 | In stop mode no task is claimed once an error has occurred, and the first error stays. |
| DraftStream.DraftStreamLoop.LoopTop | src/plugin-sdk/draft-stream-loop.ts:25-41 | The top of the flush loop waits, drops a blank text, or begins a send, exactly as specified. |
| DraftStream.DraftStreamLoop.AcceptUpdate | src/plugin-sdk/draft-stream-loop.ts:65-79 | An update replaces the pending text and flushes at once or schedules, exactly as the event says. |
| DraftStream.UpdatesFollowTheThrottle | src/plugin-sdk/draft-stream-loop.ts:65-79 | In every run an update is sent at once exactly if it is not blank, no send is open, no timer is set and the throttle time since the last delivery has passed. Otherwise a text that is not blank waits and there is a timer: the one set before, or one due at the later of now and the last delivery plus the throttle time. |
| DraftStream.FlushesSendExactly | src/plugin-sdk/draft-stream-loop.ts:20-53 | In every run, which other events begin a send, always of the pending text. |
| DraftStream.LastSentIsLastDelivery | src/plugin-sdk/draft-stream-loop.ts:47 | The time the throttle counts from is that of the last delivery found, or 0 before one and after a reset. |
| DraftStream.TimerKeepsTheThrottleExactly | src/plugin-sdk/draft-stream-loop.ts:55-63 | In every run in time, a set timer never fires within the throttle time after the last delivery, exactly if no delivery was found since it was set or that time has passed already. |
| DraftStream.TimerSendsTooEarly | src/plugin-sdk/draft-stream-loop.ts:55-63 | A run in which a timer fired on time sends within the throttle time after a delivery. |
| DraftStream.MarksAreRecorded | src/plugin-sdk/channel-lifecycle.ts:31-47 | The stream is stopped or final exactly after being marked so, and the newest text is that of the last accepted update. |
| DraftStream.SendsRecordTheirSettling | src/plugin-sdk/draft-stream-loop.ts:35-42 | Every send ends as its settle event says, and only by one. |
| DraftStream.DraftStreamLoop.ResumeFlush | src/plugin-sdk/draft-stream-loop.ts:42-51 | A resumed flush ends, restores a refused text or goes round, exactly as the event says. |
| DraftStream.DraftStreamLoop.StopForClear | src/plugin-sdk/channel-lifecycle.ts:43-47 | Stopping marks the stream stopped and drops the pending text and the timer. |
| DraftStream.AtMostOneInFlight | src/plugin-sdk/draft-stream-loop.ts:25-42 | In every interleaving at most one send is unsettled. |
| DraftStream.ActiveFlushesProgress | src/plugin-sdk/draft-stream-loop.ts:26-29 | While flushes are active, a send is unsettled or some flush can resume. |
| DraftStream.SendsCarryTheNewestUpdate | src/plugin-sdk/draft-stream-loop.ts:30-41 | In every run that has put back no stale text, every send begun carries the newest accepted update. |
| DraftStream.WithoutRefusalsNothingIsStale | src/plugin-sdk/draft-stream-loop.ts:42-46 | A run without refused sends, whatever is rejected, reset or discarded in it, puts back no stale text. |
| DraftStream.PendingTextIsNeverStranded | src/plugin-sdk/draft-stream-loop.ts:20-79 | Without refusals, rejections and throttle resets a non-blank pending text always has a timer or an active flush, unless stopped. |
| DraftStream.TextIsStrandedExactly | src/plugin-sdk/draft-stream-loop.ts:20-97 | In every run no waiting text is ever left without timer and flush, exactly when no throttle reset drops the timer of a waiting text and no last flush ends by a rejection or refusal that leaves one. |
| DraftStream.AtRestTheNewestIsAccountedFor | src/plugin-sdk/draft-stream-loop.ts:20-79 | In every run that has discarded nothing and put back nothing stale, once no flush is active the newest update is blank, still pending, delivered by the last send, or lost by its rejection. |
| DraftStream.AtRestTheNewestIsDelivered | src/plugin-sdk/draft-stream-loop.ts:20-79 | When a run without refusals, rejections and throttle resets comes to rest with nothing discarded, the newest non-blank update was delivered by the last send. |
| DraftStream.NoSendAfterStop | src/plugin-sdk/channel-lifecycle.ts:43-47 | Once the stream is stopped, no later event begins a send. |
| DraftStream.NoUpdateAfterFinal | src/plugin-sdk/channel-lifecycle.ts:31-41 | Once the stream is final, updates through the controls are not accepted. |
| DraftStream.PendingTurnsStaleExactlyByRefusal | src/plugin-sdk/draft-stream-loop.ts:42-46 | In every run the pending text is always none or the newest update, exactly when no refused send puts back a text that is no longer the newest. |
| DraftStream.RefusalLosesANewerUpdate | src/plugin-sdk/draft-stream-loop.ts:42-46 | A run in which an old text is sent again after a newer update. |
| DraftStream.RejectionLosesTheNewestText | src/plugin-sdk/draft-stream-loop.ts:34-42 | A run in which the only text is lost because its send rejects. |
| Dedupe.AtLeastOne | src/plugin-sdk/secure-random.ts:38-44 | An option is its whole part, raised to one if it is less, or the default if it is not finite. |
| Dedupe.PruneEntries | src/plugin-sdk/secure-random.ts:54-87 | The pruning loops compute the specified pruning: expiry, eviction of the oldest, repair. |
| Dedupe.PruneKeepsTheGreatestUnexpired | src/plugin-sdk/secure-random.ts:60-80 | Pruning leaves exactly the maxSize greatest unexpired entries by creation time and key. |
| Dedupe.DedupeCache.Claim | src/plugin-sdk/secure-random.ts:100-114 | A claim prunes, answers and inserts as specified; a blank key does nothing. |
| Dedupe.StepAnswersFromHistory | src/plugin-sdk/secure-random.ts:99-139 | With increasing creation times every operation keeps the cache equal to the latest accepted claims and answers as the history says. |
| Dedupe.ClaimsAreRejectedExactlyWhenRecent | src/plugin-sdk/secure-random.ts:100-114 | After any timely operations a non-blank key is rejected exactly when it is among the last maxSize accepted claims and unexpired. |
| Dedupe.ClaimIsForgottenAtOnce | src/plugin-sdk/secure-random.ts:66-80 | A just-claimed key is evicted at once exactly when the cache is full and every held entry is after it in the eviction order. |
| Dedupe.AcceptedTwiceInARow | src/plugin-sdk/secure-random.ts:66-80 | A run in which the same claim is accepted twice in a row. |
| PersistentDedupeModel.PersistentDedupe.LoadFile | src/plugin-sdk/secure-random.ts:234-259 | The first operation reads the saved entries and prunes them; later ones do not. |
| PersistentDedupeModel.PersistentDedupe.Claim | src/plugin-sdk/secure-random.ts:194-210 | A claim loads, prunes, answers, inserts and saves as specified. |
| PersistentDedupeModel.PersistentDedupe.Has | src/plugin-sdk/secure-random.ts:212-216 | A query loads, prunes and answers as specified. |
| PersistentDedupeModel.PersistentDedupe.ClearFile | src/plugin-sdk/secure-random.ts:218-222 | Clearing empties memory and file. |
| PersistentDedupeModel.PersistentDedupe.SnapshotKeys | src/plugin-sdk/secure-random.ts:224-228 | The snapshot lists the keys held after loading and pruning. |
| PersistentDedupeModel.LoadedViewIsTheFile | src/plugin-sdk/secure-random.ts:200-201 | What an operation sees after loading and pruning depends on the file alone. |
| PersistentDedupeModel.RestartingChangesNoAnswer | src/plugin-sdk/secure-random.ts:194-272 | However often the process restarts, every operation is answered as if it never had. |
| PersistentDedupeModel.AnswersFollowTheHistory | src/plugin-sdk/secure-random.ts:194-272 | After any events in time, restarts included, a claim is accepted exactly when its key is not blank and not among the last maxSize accepted claims still unexpired; a query affirms exactly those, and the snapshot lists their keys in order of acceptance. |
| RateLimiter.ReplyRateLimiter.Allow | src/auto-reply/index.ts:55-66 | A request filters the conversation's hits, answers by their number, records itself if allowed, and touches no other conversation. |
| RateLimiter.DeniedExactlyWhenTheWindowIsFull | src/auto-reply/index.ts:56-61 | A request is denied exactly when the full accepted history already has maxReplies in the window: dropping old hits loses nothing. |
| RateLimiter.NoWindowIsOverfull | src/auto-reply/index.ts:55-66 | No window (t - windowMs, t] ever holds more than maxReplies accepted requests. |
| RateLimiter.BoundHoldsForEveryClockExactly | src/auto-reply/index.ts:55-66 | Whatever order the request times come in, no window is overfull, exactly for an empty window or at most one reply per window. |
| RateLimiter.ClockRunningBackOverfillsAWindow | src/auto-reply/index.ts:55-66 | For every other configuration, requests that put one too many into a window: a full burst, one at the end of its window, and one a moment earlier. |
| ProviderRuntime.NormalizeRetry | src/provider-runtime/retry.ts:13-20 | The attempts are cut to a whole number and at least one, a negative base delay becomes none, cap and jitter stay; without a strategy, one attempt and no delay. |
| ProviderRuntime.SleepIsBounded | src/provider-runtime/retry.ts:22-26 | Between k attempts the loop sleeps at most base*(2^(k-1)-1)+(k-1)*jitter, exactly that without a cap, and with a cap at most (k-1)*(cap+jitter). |
| ProviderRuntime.SleptGeometric | src/provider-runtime/retry.ts:22-26 | The delays and jitters add up to base*2^(k-1) - base plus k-1 jitters without a cap, and to no more with one. |
| ProviderRuntime.SleptCapped | src/provider-runtime/retry.ts:24-25 | With a cap the gaps add up to at most k-1 times cap plus jitter. |
| ProviderRuntime.GapIsExact | src/provider-runtime/retry.ts:22-26 | Each gap is the doubled base delay, or the cap if that is less, plus the jitter unless it is negative. |
| ProviderRuntime.RetriedExactly | src/provider-runtime/execute.ts:75-114 | An error is retried by its own flag; without one by the code of the caller's classification, or else its own code, or else by status 429, status 500 and more, or being an abort. |
| ProviderRuntime.CircuitBreaker.RecordSuccess | src/provider-runtime/circuit-breaker.ts:48-51 | A success closes the breaker, as its history of reports says. |
| ProviderRuntime.CircuitBreaker.RecordFailure | src/provider-runtime/circuit-breaker.ts:52-57 | A failure counts, and opens the breaker at the threshold, as its history of reports says. |
| ProviderRuntime.OpenExactlyAfterThresholdFailures | src/provider-runtime/circuit-breaker.ts:48-57 | The breaker has an open time exactly when the last threshold reports are all failures, and then it is the latest failure's time. |
| ProviderRuntime.RefusedExactly | src/provider-runtime/circuit-breaker.ts:30-47 | A request is refused exactly if the last threshold reports are all failures and the reset delay since the last has not passed. |
| ProviderRuntime.AdmissionFollowsTheHistory | src/provider-runtime/circuit-breaker.ts:30-47 | The breaker admits exactly what its history admits. |
| ProviderRuntime.OpenRefusesUntilReset | src/provider-runtime/circuit-breaker.ts:30-47 | Once open, every execution that asks before the reset delay is refused, however many there are, and leaves the open time unchanged. |
| ProviderRuntime.ExecuteProviderOperation | src/provider-runtime/execute.ts:35-73 | Not admitted, the operation runs zero times and nothing is reported; admitted, it runs 1 to maxAttempts times, every run but the last threw a retryable error, the last decides, exactly one outcome is reported, and the sleep is that of the backoff, within its bounds. |
| Migrations.FirstMatchIsTheFirst | src/plugin-state/migrate.ts:14 | Lookup finds the first listed migration from the version, if any. |
| Migrations.FollowIsAPath | src/plugin-state/migrate.ts:13-23 | Following lookups goes along a path of first matches, each giving the next version and value, to a version from which no migration starts. |
| Migrations.MigrateMemory | src/memory/migrate.ts:5-36 | Each record is rewritten exactly if the sweep changes its version, and the rewritten ones are returned in order. |
| Migrations.MigratedRecord | src/memory/migrate.ts:13-32 | From an orderly version, a record whose version changes becomes the value where lookups end, stamped with the version where they end; either way it then reads as that version. |
| Migrations.SecondMigrationRewritesNothing | src/memory/migrate.ts:13-32 | If all records are at orderly versions, a second migration rewrites nothing. |
| Migrations.RewrittenInOrder | src/memory/migrate.ts:30-35 | The returned records are exactly the rewritten ones, in order. |
| Migrations.MigrateRecord | src/plugin-state/migrate.ts:6-26 | On every input on which the loop ends, the saved records are the successive first-match lookups from the start, each from below the target; the last is returned if it has reached the target, and otherwise no migration starts at its version; within as many rounds as there are migrations. |
| Migrations.ClimbEndsWithinTheList | src/plugin-state/migrate.ts:13-23 | The loop ends at all if and only if it ends within as many rounds as there are migrations. |
| Migrations.SortKeepsMatches | src/memory/migrate.ts:15-17 | The stable sort keeps the first match of every version. |
| Migrations.SweepEqualsLookup | src/memory/migrate.ts:15-28 | The single sweep over the sorted chain ends at the version and value where iterated first-match lookup ends, duplicates included, exactly when on the way every first match raises the version or, as the last, leads down to a version from which no migration starts. |
| Migrations.EnginesAgree | src/plugin-state/migrate.ts:12-25 | From one version, the climb to a target ends as the sweep over the migrations below the target says (success, version and value, or the version where both stop), exactly when the way from there is orderly in that sense. |
| Migrations.EnginesAgreeEverywhere | src/plugin-state/migrate.ts:12-25 | From every version the engines end alike, exactly when every first match below the target raises the version or leads strictly down to a version from which no migration starts. |
| Migrations.IncreasingMigrationsAgree | src/memory/migrate.ts:15-28 | If every migration leads to a higher version, sweep, lookup and climb always end alike. |
| Migrations.StuckLookupNeverArrives | src/plugin-state/migrate.ts:13-23 | A first match that leads back to its own version keeps lookup there for ever. |
| Migrations.DownwardMigrationSeparatesTheEngines | src/memory/migrate.ts:21-28 | With a migration down to a version from which another one starts, the sweep stops below the target and the climb reaches it. |
| Chunking.ChunkTextByBreakResolver | src/plugin-sdk/text-chunking.ts:4-39 | For any resolver the text is the non-empty chunks in order with only white space between and after them; each window is the next limit characters of the text, cut where the resolver says, and a break takes in all the white space there. |
| Chunking.ChunksFit | src/plugin-sdk/text-chunking.ts:22-32 | With a resolver that stays within its window no chunk exceeds the limit. |
| Chunking.BreakPoint | src/plugin-sdk/reply-chunking.ts:33-41 | The break is at the last newline of the window, without one at the last space, and none if the window has neither after its first character. |
| Chunking.ChunkText | src/plugin-sdk/reply-chunking.ts:29-42 | The chunks cover the text, none exceeds the limit, and every chunk but the last is the next limit characters of the text up to their last newline, else their last space, else all of them. |
| Chunking.NothingVisibleIsLost | src/plugin-sdk/text-chunking.ts:13-38 | No character that is not white space is lost, duplicated or moved. |
| Lifecycle.ResolveAgreesWithValidate | src/domain/lifecycle.ts:28-56 | Resolving an event leads to a state exactly when validating that move succeeds; the illegal-transition error never occurs. |
| Lifecycle.TransitionsClimb | src/domain/types.ts:93-161 | Every transition that changes the state goes one stage up or closes a delivered project. |
| Lifecycle.EveryStageLeadsOn | src/domain/types.ts:93-161 | Every stage but the last has a transition to the next one. |
| Lifecycle.EachStageHasItsOwner | src/domain/types.ts:93-161 | Sales moves projects until they are won, product into discovery, engineering until delivery, support afterwards. |
| Lifecycle.WalkVisitsEveryStage | src/domain/types.ts:93-161 | A walk of the table from lead has passed, in order, every stage up to the one it is in. |
| Lifecycle.ClosedIsFinal | src/domain/types.ts:93-161 | Nothing leaves closed. |
| AgentRegistryModel.AgentRegistry.RegisterProject | src/registry/AgentRegistry.ts:212-220 | The entry becomes live, its history grows by exactly its snapshot, no other history changes, a project first registered as a lead starts a lawful history, and lawful histories stay lawful unless a registered project is replaced by a state the table does not lead to. |
| AgentRegistryModel.AgentRegistry.UpdateProject | src/registry/AgentRegistry.ts:230-254 | The fields are merged, the last snapshot equals the live entry, histories only grow, and lawful ones stay lawful unless the update sets a state the table does not lead to. |
| AgentRegistryModel.AgentRegistry.TransitionProjectLifecycle | src/registry/AgentRegistry.ts:435-475 | The project moves exactly when it exists and the table has this very transition, and then its history grows by exactly one snapshot; otherwise only the audit log changes; lawful histories stay lawful. |
| AgentRegistryModel.ApplyLifecycleUpdate | src/domain/lifecycle.ts:58-86 | The project moves exactly when it exists and the event, raised by its owner, leads somewhere, and then its history grows by exactly one snapshot and the audit log by one entry; lawful histories stay lawful. |
| AgentRegistryModel.DeliveredProjectsPassedEveryStage | src/domain/types.ts:93-161 | A delivered project with a lawful history has been through every earlier stage in order. |
| AgentRegistryModel.ClosedProjectsStayClosed | src/domain/types.ts:93-161 | A closed project with a lawful history stays closed. |
| AgentRegistryModel.AgentRegistry.RegisterAgent | src/registry/AgentRegistry.ts:147-155 | The agent is added or replaced, keeping its place in the registration order, and its history grows by exactly its snapshot. |
| AgentRegistryModel.AgentRegistry.ValidateAgentProjectAccess | src/registry/AgentRegistry.ts:293-314 | Access is allowed exactly to the agent's current project, and a denial is logged. |
| AgentRegistryModel.AgentRegistry.ValidateMessageAccess | src/registry/AgentRegistry.ts:329-366 | The first thing that stands in the way of a message is returned, and logged as one denial. |
| AgentRegistryModel.NoDenialExactlyWhenBothWorkThere | src/registry/AgentRegistry.ts:329-366 | Nothing stands in the way exactly when the first agents of both types work on the message's project. |
| AgentRegistryModel.FirstOfTypeIsTheFirst | src/registry/AgentRegistry.ts:600-605 | The agent looked up by type has the type and is the first registered one that has it; none is found only if no agent has it. |
| AgentRegistryModel.AgentRegistry.RouteMessage | src/registry/AgentRegistry.ts:368-405 | A well-formed message is logged once, as routed exactly when the isolation rule allows it and else with the reason; the audit log grows by the denial, if any, and the outcome. |

## Left out

- MigrateRecord: takes only inputs on which its loop ends, because a Dafny method has to; `ClimbEndsWithinTheList` says exactly which those are.
- UpdateProject: the free text of audit entries is left out; an entry keeps its kind and the ids it names.
- RouteMessage: the validation of the message's shape is not modelled; a malformed message is the absent one.
- Claim: keys are taken as already trimmed.
- `updateAgent`, which follows the pattern of `updateProject`; acknowledgement of handoffs; approval records.
- Tokenising a transcript into words; words are an abstract type with equality, and the final division is exact.
- UTF-16: a text is a sequence of characters, each standing for one code unit.
- Failures of the flow store, aborts, and step functions that modify the state they are given.
- Hooks of the keyed queue, and callbacks that call back into a component synchronously.
- Overlapping calls of one service registry's boot or shutdown, and overlapping operations on one dedupe file.
- Dedupe files that this program did not write; the process-wide registry of caches.
- The empty task list of the worker pool, which returns at once.
- Provider timeouts, measured latency and the default sleep; an attempt is its outcome.
- Optional fields that the algorithms do not read, such as task tags and inputs; health reports of services.
- Template rendering and the policy branches around the reply limiter; resolving the configured chunk limit.
- HTTP, messaging channels, terminal interfaces, file and database storage, and the thin registries.
