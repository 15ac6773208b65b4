# Nutmeg engine runtime, modelled in Dafny

A model of the runtime of the Nutmeg engine, a small tick-driven simulation
engine with a visual-scripting style event pipeline. Scenes hold objects
(id, name, position, velocity) and events. An event has a scope (GLOBAL,
SCENE or OBJECTS), a `once` flag with its `triggered` state, an ordered list
of conditions and an ordered list of actions. Each engine tick advances time
and runs the events of the active scene.

The model is functional. Engine, scene, object store, object and event are
immutable datatypes, and every operation returns the new state:

- `wrappers.dfy`, `vectors.dfy`, `names.dfy`: optional values (null pointers),
  2-vectors over the reals, and the 64-byte name buffers. `strncpy` becomes a
  63-character truncation and `strncmp` a bounded comparison.
- `growth.dfy`: the capacity rule of `nutmeg_realloc_array`.
- `objects.dfy`: the per-scene object store. Ids come from a counter that
  starts at 1, spawn appends, and destroy swaps the last object into the freed slot.
- `builtins.dfy`: the timer condition and the integrate, accelerate,
  add-velocity, translate and debug-print actions.
- `events.dfy`, `scenes.dfy`: events with their builders and reset; scenes.
- `dispatch.dfy`: one dispatch pass (`nutmeg_tick_scene`). It returns a trace
  of every condition and action invocation, so that ordering and
  short-circuiting can be stated directly.
- `dispatch_properties.dfy`: what the callbacks compute (`ApplyActions` is the
  reference semantics of an action list), which targets a pass tries, the
  once-flag, and scenario lemmas about a pass.
- `metrics.dfy`: the clamp and the metrics update.
- `engine.dfy`: the scene registry, the object/event entry points that take a
  scene, and the tick.
- `tick_properties.dfy`: what the tick's double dispatch does.

Modelling choices:

- The C callback pointers and their `void *` payloads become closed variants.
  Conditions are `TimerElapsed(payload)`, `NameEquals(filter)` and `Constant(b)`.
  Actions are `Integrate`, `Accelerate`, `AddVelocity`, `Translate` and `DebugPrint`.
  `NameEquals` and `Constant` stand in for user-supplied predicates. `NameEquals`
  follows `condition_name_equals` in examples/orbit_demo.c.
- Timer payloads live in a map from payload id to timer. The map is threaded
  through dispatch, so conditions naming the same id share one accumulator, as
  two events sharing one `NutmegTimer *` do. A payload id with no entry is a
  null payload.
- A scene pointer is the scene's position in the registry. Scenes are never
  removed, so that position never changes. An object pointer is the object's
  id, which is unique within its scene.
- Callbacks read the engine only for `last_delta`. The engine argument is
  therefore `dt: Option<real>`, with `None` for a null engine.
- The tick runs the dispatch pass twice on the scene that was active on entry:
  once before the metrics update (src/engine.c:559) and once after it
  (src/engine.c:573). The model keeps this, and `TickProperties` proves what it
  causes. A timer condition accumulates the delta twice per tick. An
  integration moves objects by twice the delta. A once-event that fires in the
  first pass is skipped in the second.

Where the header comments and the code disagree, the model follows the code:

- `nutmeg_engine_tick` is documented as ticking the engine forward by the
  delta (include/nutmeg_engine.h:159). The code runs the active scene's
  events twice per call (src/engine.c:559, 573), and so does the model.
- The header comment of `nutmeg_event_reset` (include/nutmeg_engine.h:151)
  says it clears the once and triggered flags. The code clears only
  `triggered` (src/engine.c:439). `Events.Reset` keeps `once`.
- `nutmeg_engine_find_scene` is documented as a lookup by name
  (include/nutmeg_engine.h:109). The code compares the stored, truncated name
  over 64 bytes, so a name of 64 or more characters is stored but never found
  under its full spelling (`Engine.LongNameIsNeverFound`).
- A once-event is documented to "run at most a single time"
  (include/nutmeg_engine.h:76). The code marks it as soon as its conditions
  pass for some target, even if the event has no actions, and an OBJECTS
  once-event runs its actions on every matching object of that pass
  (src/engine.c:520-541). `DispatchProperties.EventTriedOnEveryTarget` states
  the flag in terms of conditions passing, for events with or without actions.

## Model

| member | source | states |
|---|---|---|
| Names.StoreName | src/engine.c:81-86 | the stored name is the longest prefix of the caller's name that fits in 63 characters; a null name is stored as the empty string |
| Names.StrNEqualFits | src/engine.c:285 | when the stored name is shorter than the compared length, `strncmp(...) == 0` holds exactly when the two strings are equal |
| Names.StoredNameMatchesOriginal | src/engine.c:82-83 | a stored name compares equal to its original spelling exactly when that spelling has at most 63 characters |
| Growth.Doublings | src/engine.c:50-53 | the growth loop's doubling count is the least one that reaches the requested minimum |
| Growth.Grow | src/engine.c:44-63 | the new capacity is at least the requested minimum and never below the old capacity; a capacity that already suffices is unchanged |
| Growth.GrowIsFirstDoubling | src/engine.c:50-53 | a growth that happens stops at the first doubling of the old capacity (4 when it was 0) that reaches the minimum |
| Objects.Spawn | src/engine.c:321-352 | the new object gets the scene's next id, is alive, starts at zero position and velocity, has the truncated name, and is appended after the unchanged earlier objects; the counter grows by one; id uniqueness and freshness are kept |
| Objects.SpawnAllCountsUp | src/engine.c:79 | successive spawns append ids that count up from the next id, so a fresh scene numbers its objects 1, 2, 3, ... |
| Objects.IndexFrom | src/engine.c:377-381 | destroy's search returns the first slot holding the object, or reports that no slot holds it |
| Objects.RemoveAt | src/engine.c:354-369 | removing a slot moves the last object into it, keeps every other slot, drops the count by one and removes exactly that object from the multiset; an index past the end changes nothing |
| Objects.Destroy | src/engine.c:371-383 | destroying removes exactly the first stored occurrence of the object; a null or absent object leaves the store unchanged; the id counter never goes back |
| Objects.DestroyRemovesExactly | src/engine.c:354-383 | in a valid store the survivors are the old multiset minus that object; every other object survives and the store stays valid |
| Objects.DestroyTwiceIsDestroyOnce | src/engine.c:371-383 | destroying the same object a second time changes nothing |
| Builtins.TimerMake | include/nutmeg_builtin.h:21-28 | a new timer has the given interval and repeat flag and an empty accumulator |
| Builtins.TimerCondition | src/builtins.c:5-30 | a null engine or payload answers false and leaves the payload unchanged; an interval of at most 0 answers true and leaves it unchanged; otherwise the delta is accumulated and the answer is whether the sum reached the interval, after which a repeating timer subtracts the interval and a one-shot timer holds at the interval |
| Builtins.RepeatingTimerConservesTime | src/builtins.c:19-27 | over any sequence of calls, the accumulated time plus one interval per firing equals the starting accumulator plus all deltas fed in |
| Builtins.RepeatingTimerStaysBelowInterval | src/builtins.c:19-27 | with deltas no larger than the interval, a repeating timer's accumulator stays in [0, interval) |
| Builtins.RepeatingTimerCountsIntervals | include/nutmeg_builtin.h:30-31 | for a repeating timer with a positive interval whose accumulator starts in [0, interval), fed deltas each in [0, interval], the number of firings is the number of whole intervals in the starting accumulator plus the deltas |
| Builtins.FiredOneShotTimerLatches | src/builtins.c:20-26 | a one-shot timer that has fired stays at its interval and answers true on every later call with a non-negative delta |
| Builtins.ActionIntegrate | src/builtins.c:32-46 | position advances by velocity times the last delta and nothing else of the object changes; a null engine or object is a no-op |
| Builtins.ActionAccelerate | src/builtins.c:48-61 | velocity changes by acceleration times the last delta and the position is unchanged; a missing engine, object or payload is a no-op |
| Builtins.ActionAddVelocity | src/builtins.c:63-76 | the payload's delta is added to the velocity only; a missing object or payload is a no-op |
| Builtins.ActionTranslate | src/builtins.c:78-91 | the payload's delta is added to the position only; a missing object or payload is a no-op |
| Builtins.ActionDebugPrint | src/builtins.c:93-104 | printing changes no object state |
| Builtins.IntegrateTimesMovesLinearly | src/builtins.c:41-45 | n integrations with the same delta move the object by n times delta along its unchanged velocity |
| Events.MakeEvent | src/engine.c:446-460 | a new event is untriggered, has the given name, scope and once flag, and has empty condition and action lists |
| Events.AddCondition | src/engine.c:462-472 | a non-null condition is appended after the unchanged earlier ones; a null callback is a no-op; nothing else of the event changes |
| Events.AddAction | src/engine.c:474-484 | a non-null action is appended after the unchanged earlier ones; a null callback is a no-op; nothing else of the event changes |
| Events.Reset | src/engine.c:433-444 | reset clears `triggered`, keeps `once`, and changes nothing else |
| Scenes.SceneCreate | src/engine.c:65-89 | a new scene has the truncated name, no objects, no events and an id counter of 1 |
| Scenes.AddEvent | src/engine.c:423-431 | the scene stores its own copy of the event after its earlier events and keeps its objects |
| Dispatch.Evaluate | src/engine.c:489-490 | a condition changes only its own timer payload; a timer with a null payload fails; a name filter holds exactly for a non-null object with that name |
| DispatchProperties.EvaluateFollowsCallback | src/builtins.c:5-30 | a timer condition with a payload answers and updates that payload exactly as the timer built-in does; every other condition leaves all timers alone |
| Dispatch.Perform | src/engine.c:500-501 | an action keeps the identity of its target (id, name, liveness); a null target stays null |
| DispatchProperties.PerformRunsBuiltin | src/engine.c:500-501 | each action variant has exactly the effect of its built-in: integrate and accelerate with the last delta, add-velocity and translate with their payload vector, debug-print none |
| Dispatch.CheckFrom | src/engine.c:486-495 | conditions are invoked in list order up to and including the first failing one, and none after it; the list passes exactly when every condition was invoked and answered true |
| DispatchProperties.CheckFromRecordsAnswers | src/engine.c:488-491 | the first recorded answer is what the first condition answered, and a timer payload that no invoked condition names is unchanged |
| DispatchProperties.StatelessConditionsPassIffAllHold | src/engine.c:486-495 | without timer conditions the list passes exactly when every condition holds, and no timer changes |
| DispatchProperties.StatelessRecordsAreAnswers | src/engine.c:488-491 | without timer conditions each recorded answer is that condition's own answer |
| Dispatch.ExecuteFrom | src/engine.c:497-503 | every action is invoked exactly once, in list order, on the same target |
| DispatchProperties.ExecuteFromContinuesApply | src/engine.c:499-502 | running the actions from position `from` on an object the earlier actions already changed ends where applying the whole list in order ends |
| DispatchProperties.ExecuteAppliesActionsInOrder | src/engine.c:497-503 | executing an action list leaves its target as applying each action in list order to the result of the previous one does |
| Dispatch.TryTarget | src/engine.c:532-535 | a target whose conditions fail is left unchanged; actions keep the target's identity; every invocation names the event and that target |
| DispatchProperties.TryTargetChecksThenRuns | src/engine.c:520-523 | for one target, either the conditions stop at a failing one and no action runs, or every condition passes in list order and then every action runs once, in list order |
| DispatchProperties.TryTargetFiresIffLastConditionPassed | src/engine.c:520-523 | a target's first invocation is the first in its lists, and the target counts as triggered exactly when its last condition passed, or at once when there is no condition |
| Dispatch.SweepFrom | src/engine.c:526-536 | the OBJECTS loop keeps every object's identity, leaves dead objects and objects before the starting slot untouched, records only invocations of this event, and keeps the set of timer payloads |
| Dispatch.SweepCallsFollowSlots | src/engine.c:526-536 | each invocation of the loop is given the live object of some slot from the starting slot on, and the slots are visited in storage order |
| DispatchProperties.SweepTriesEveryLiveObject | src/engine.c:526-536 | an event with any condition or action is tried, from its first callback, on every live object from the starting slot on |
| DispatchProperties.SweepFiresIffSomeTargetPassed | src/engine.c:526-536 | the loop counts as triggered exactly when some object passed every condition, or, with no condition, when a live object exists |
| Dispatch.DispatchEvent | src/engine.c:510-542 | a spent once-event is skipped entirely; GLOBAL and SCENE events use the null object and leave objects alone; otherwise the event's trace, timers and objects are those of its one attempt (GLOBAL, SCENE) or of the OBJECTS loop, and it becomes triggered exactly when it is a once-event and that attempt or loop counted as triggered; only `triggered` can change and never back to false |
| DispatchProperties.EventTriedOnEveryTarget | src/engine.c:510-542 | an event that is not spent and has any callback is tried on every target its scope names, and ends triggered exactly when it already was or it is a once-event and some target passed all its conditions, with or without actions |
| Dispatch.PassFrom | src/engine.c:509-543 | events are processed in registration order; spent events are never invoked; events change only in their `triggered` flag and objects keep their identity |
| DispatchProperties.PassTriesEveryEvent | src/engine.c:509-543 | a pass tries every event that is not spent and has a callback on every target its scope names, and marks each once-event triggered exactly when some target passed all its conditions during the pass |
| Dispatch.TickScene | src/engine.c:505-544 | a pass over the scene's events in order keeps the scene's name, ids, id counter and capacities, changes only events' `triggered` flags and never clears one, invokes no spent event, and keeps the scene valid |
| DispatchProperties.TryTargetRunsAllOrNothing | src/engine.c:520-523 | for one target either no action runs or every action runs exactly once |
| DispatchProperties.SweepFiredIffActionsRan | src/engine.c:526-536 | the sweep counts as triggered this pass exactly when some action ran (for events with actions) |
| DispatchProperties.EventOnceFlagFollowsActions | src/engine.c:511-542 | a once-event with actions ends triggered exactly when it was triggered before or one of its actions ran; a GLOBAL or SCENE event runs its action list at most once per pass |
| DispatchProperties.PassOnceFlagFollowsActions | src/engine.c:509-543 | the same over a whole pass, event by event, and a spent event stays as it was and runs no action |
| DispatchProperties.SweepIntegratesEveryLiveObject | src/engine.c:526-536 | an unconditional OBJECTS integration moves every live object once and no dead one, and counts as triggered exactly when a live object exists |
| DispatchProperties.TimerEventAccumulates | src/engine.c:518-524 | a GLOBAL or SCENE timer event below its interval adds the delta to its timer and runs no action |
| DispatchProperties.SharedTimerPayloadAccumulatesPerEvent | include/nutmeg_builtin.h:10-18 | two events whose timer conditions share one payload share one accumulator, which receives the delta once per event |
| MetricsEstimator.ClampPercentage | src/engine.c:150-159 | the result is in [0, 100], equals the input inside that range and saturates outside it |
| MetricsEstimator.UpdateMetrics | src/engine.c:161-188 | every channel ends in [0, 100]; cpu is 0 without a positive delta and a non-negative cost, and is otherwise the cost-to-delta ratio in percent, saturating at 100; ram is the footprint's share of a 256 MiB budget in percent, saturating at 100; the phase advances by 0.8 times the delta |
| Engine.Create | src/engine.c:190-209 | a new engine has no scenes, no active scene, zero time and zero last delta, and is valid |
| Engine.AddScene | src/engine.c:256-275 | the new scene is appended and becomes active only if no scene was active; nothing else changes |
| Engine.FindScene | src/engine.c:277-291 | the result is the first registered scene whose stored name compares equal over 64 bytes; "not found" means no scene compares equal; a null name is not found |
| Engine.FindSceneIsFirstExactMatch | src/engine.c:283-288 | in a valid engine the lookup returns the first scene stored under exactly the queried name, and "not found" means no scene has it |
| Engine.LongNameIsNeverFound | src/engine.c:285 | a query of 64 characters or more is never found |
| Engine.AddedSceneIsFound | src/engine.c:256-291 | a scene added under a fresh name of at most 63 characters is found under that name |
| Engine.SetActiveScene | src/engine.c:293-311 | a null name clears the active scene and succeeds; a name succeeds exactly when lookup finds it, and then only the active scene changes; a failure changes nothing |
| Engine.SetActiveSceneSelectsNamedScene | src/engine.c:293-311 | after a successful activation the active scene is stored under the given name; a failure means no scene has that name and the engine is unchanged |
| Engine.GetActiveScene | src/engine.c:313-319 | the result is the engine's active scene, possibly none; one that exists is registered |
| Engine.ActiveSceneFollowsActivation | src/engine.c:270-272 | the active scene is the one a successful activation looked up (none after clearing), a failed activation keeps it, and adding a scene makes the new one active only when none was |
| Engine.SpawnObject | src/engine.c:321-352 | spawning in a null scene does nothing; otherwise only that scene's store changes, gaining an object with the scene's next id; the engine stays valid |
| Engine.DestroyObject | src/engine.c:371-383 | a null scene or object changes nothing; otherwise only that scene's store changes, by the store's destroy; the engine stays valid |
| Engine.SurvivorsKeepTheirIds | include/nutmeg_engine.h:124-125 | spawning, or destroying another object, keeps every stored object together with its id |
| Engine.AddEvent | src/engine.c:423-431 | a null scene is a no-op; otherwise only that scene changes, gaining a copy of the event after its earlier events |
| Engine.ResetSceneEvent | include/nutmeg_engine.h:151-152 | resetting the event a scene stores clears its triggered flag, so it is no longer spent, and changes nothing else; a null scene or an index past its events changes nothing; the engine stays valid |
| Engine.SceneObjects | src/engine.c:576-589 | enumeration returns the scene's storage sequence with its exact count, or nothing for a null scene |
| Engine.Tick | src/engine.c:546-574 | a negative delta changes nothing; otherwise `last_delta` becomes the delta, time grows by it, the active scene stays, only the active scene's state changes, and every metric is in [0, 100]; the engine stays valid |
| TickProperties.TickRunsActiveSceneTwice | src/engine.c:557-573 | the scene active on entry goes through two dispatch passes, the second starting from the state left by the first |
| TickProperties.TickAdvancesTimerTwice | src/engine.c:559-573 | a GLOBAL or SCENE timer condition below its interval gains twice the delta in one tick |
| TickProperties.TickIntegratesTwice | src/engine.c:559-573 | an unconditional OBJECTS integration moves each live object by twice the delta in one tick |
| TickProperties.TickOnceIntegrateMovesOnce | src/engine.c:511-573 | the same integration as a once-event moves objects only once in a tick and leaves the event triggered; the second pass invokes nothing |
| TickProperties.TickOnceEventFiresInFirstPassOnly | src/engine.c:540-573 | a once-event whose actions ran in the first pass ends triggered and is not invoked in the second pass |
| TickProperties.StoredOnceEventStaysSpent | src/engine.c:423-444 | a once-event stored in the active scene that has fired is neither invoked in either pass of a tick nor changed by it |
| TickProperties.ResetSceneEventReenablesDispatch | include/nutmeg_engine.h:151-152 | after the stored copy of an event with callbacks is reset, the next tick tries it again on every target its scope names |

## Findings

| source | as written | input that shows it | evidently intended | confidence | as-written member | corrected member |
|---|---|---|---|---|---|---|
| include/nutmeg_engine.h:151-152, src/engine.c:423-444 | `nutmeg_scene_add_event` stores a copy of the event, and no entry point returns a pointer to that copy, so `nutmeg_event_reset` can only reach the caller's copy | a once-event with no conditions added to the active scene: after the first tick the stored copy is triggered, resetting the caller's event changes nothing, and no later tick runs it | resetting an event that is in a scene makes the scene's copy dispatchable again | medium, not executed | TickProperties.StoredOnceEventStaysSpent | Engine.ResetSceneEvent (with TickProperties.ResetSceneEventReenablesDispatch) |

## Left out

- Null engine: the engine is a value, so null-engine guards of the engine entry points have nothing to model. The callbacks' null-engine case is modelled (`dt == None`).
- Memory management (`calloc`, `realloc`, `free`, `abort`) and allocation failure. Capacities are tracked; allocation always succeeds.
- Fixed-width arithmetic: ids and capacities are unbounded. The 64-bit wrap-around of `next_object_id` and `size_t` overflow in the doubling loop are not modelled.
- Floating point: positions, velocities, time and metrics are reals with no IEEE-754 rounding.
- Wall-clock measurement (`clock()`, src/engine.c:552-566): the tick's cost is the `cpuTime` parameter.
- RAM estimate (src/engine.c:128-148, 172-179): it depends on platform `sizeof` values. The byte total is the `footprint` parameter.
- `sinf` (src/engine.c:182) is the `sin` parameter. The gpu bound holds for any sine.
- MetricsEstimator.UpdateMetrics: the gpu channel is stated only as lying in [0, 100], not as its moving-average formula, because its value depends on the platform sine.
- Objects.Destroy: an object is designated by its id, not its address, so passing an object that belongs to another scene is not modelled.
- Spawning or destroying from inside an action during an OBJECTS sweep: the loop at src/engine.c:526 re-reads a mutable count. The modelled actions touch only the current object and timer payloads.
- Console output of `nutmeg_action_debug_print` and the demo.
- Opaque `userdata` of engine and objects, the object's scene back-pointer, and the one-line accessors (`nutmeg_object_id`, `nutmeg_object_position`, …): they carry no logic.
- An event's stored copy in a scene cannot be reached through the public API, so `Events.Reset` is modelled on an event value; `Engine.ResetSceneEvent` is the reset of a stored copy that the code lacks (see Findings).
- The null-event guards of `nutmeg_event_reset`, `nutmeg_event_add_condition` and `nutmeg_event_add_action` (src/engine.c:435, 464, 476): an event is a value, so there is no null event to pass.
- Names.StoreName: a name character stands for one C byte; multi-byte encodings, where a character takes several bytes of the 64-byte buffer, are not modelled. `Engine.AddedSceneIsFound` and the 63-character limit count characters as bytes.
- The object `alive` flag is never cleared by the code. The model keeps the sweep's check of it anyway.
- Engine destruction (`nutmeg_engine_destroy`, `nutmeg_scene_free`, `nutmeg_event_free`): these only release memory.
