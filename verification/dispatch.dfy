/**
  One dispatch pass over a scene (`nutmeg_tick_scene`): events in
  registration order, conditions short-circuiting in list order, actions in
  list order, once-events marked after the whole event has been processed.
  Every condition and action invocation is recorded in a trace.
 */
module Dispatch {
  import opened Wrappers
  import opened Objects
  import opened Builtins
  import opened Events
  import Scenes

  /** Timer payloads by identity; a payload id without an entry is a null payload. */
  type Timers = map<PayloadId, Timer>

  /** One callback invocation: event index, position in its list, and the object
      it was given (`None` for the null object). */
  datatype Call =
    | Check(event: nat, index: nat, target: Option<ObjectId>, result: bool)
    | Run(event: nat, index: nat, target: Option<ObjectId>)

  predicate Passed(c: Call)
  {
    c.Check? && c.result
  }

  predicate Failed(c: Call)
  {
    c.Check? && !c.result
  }

  function TargetOf(obj: Option<Object>): Option<ObjectId>
  {
    if obj.Some? then Some(obj.value.id) else None
  }

  /** Same object as far as callbacks can tell apart: only the vectors may differ. */
  predicate SameIdentity(a: Object, b: Object)
  {
    a.id == b.id && a.name == b.name && a.alive == b.alive
  }

  predicate SameTarget(a: Option<Object>, b: Option<Object>)
  {
    a.Some? == b.Some? && (a.Some? ==> SameIdentity(a.value, b.value))
  }

  /** Number of action invocations of event `e` in a trace. */
  function Runs(calls: seq<Call>, e: nat): nat
  {
    if |calls| == 0 then 0
    else (if calls[0].Run? && calls[0].event == e then 1 else 0) + Runs(calls[1..], e)
  }

  function LookupTimer(timers: Timers, p: PayloadId): Option<Timer>
  {
    if p in timers then Some(timers[p]) else None
  }

  datatype Checked = Checked(result: bool, timers: Timers)

  /** One condition callback; only a timer condition changes state, and only its own payload. */
  function Evaluate(c: Condition, dt: real, obj: Option<Object>, timers: Timers): (r: Checked)
    ensures r.timers.Keys == timers.Keys
    ensures forall p | p in timers && (!c.TimerElapsed? || p != c.payload) :: r.timers[p] == timers[p]
    ensures c.TimerElapsed? && c.payload !in timers ==> !r.result
    ensures c.NameEquals? ==> (r.result <==> obj.Some? && c.filter == Some(obj.value.name))
    ensures c.Constant? ==> r.result == c.value
  {
    match c
    case TimerElapsed(p) =>
      var step := TimerCondition(Some(dt), LookupTimer(timers, p));
      Checked(step.fired, if p in timers then timers[p := step.timer.value] else timers)
    case NameEquals(filter) =>
      Checked(obj.Some? && filter.Some? && obj.value.name == filter.value, timers)
    case Constant(b) =>
      Checked(b, timers)
  }

  /** One action callback: the built-in the variant names, with its payload. */
  function Perform(a: Action, dt: real, obj: Option<Object>): (r: Option<Object>)
    ensures SameTarget(obj, r)
  {
    match a
    case Integrate => ActionIntegrate(Some(dt), obj)
    case Accelerate(v) => ActionAccelerate(Some(dt), obj, v)
    case AddVelocity(v) => ActionAddVelocity(obj, v)
    case Translate(v) => ActionTranslate(obj, v)
    case DebugPrint(m) => ActionDebugPrint(obj, m)
  }

  /** The conditions numbered `from` to `n - 1` were invoked in order, each one
      after a passing one, the last invoked being the first failure if any. */
  ghost predicate ShortCircuit(calls: seq<Call>, from: nat, n: nat, e: nat, target: Option<ObjectId>, pass: bool)
  {
    && from + |calls| <= n
    && (forall k | 0 <= k < |calls| ::
          calls[k].Check? && calls[k].event == e && calls[k].index == from + k && calls[k].target == target)
    && (forall k | 0 <= k < |calls| - 1 :: Passed(calls[k]))
    && (pass ==> from + |calls| == n && (|calls| == 0 || Passed(calls[|calls| - 1])))
    && (!pass ==> |calls| > 0 && Failed(calls[|calls| - 1]))
  }

  /** Every payload that no timer condition numbered `from` to `to - 1` names
      keeps its timer. */
  ghost predicate KeepsUnnamedTimers(conds: seq<Condition>, from: nat, to: nat, before: Timers, after: Timers)
    requires from <= to <= |conds|
  {
    forall p | p in before && p in after && (forall k | from <= k < to :: conds[k] != TimerElapsed(p)) ::
      after[p] == before[p]
  }

  datatype CondsOutcome = CondsOutcome(pass: bool, timers: Timers, calls: seq<Call>)

  /** `nutmeg_conditions_pass`, from condition `from` on. */
  function CheckFrom(conds: seq<Condition>, from: nat, e: nat, dt: real, obj: Option<Object>, timers: Timers): (r: CondsOutcome)
    requires from <= |conds|
    ensures ShortCircuit(r.calls, from, |conds|, e, TargetOf(obj), r.pass)
    ensures r.timers.Keys == timers.Keys
    decreases |conds| - from
  {
    if from == |conds| then CondsOutcome(true, timers, [])
    else
      var c := Evaluate(conds[from], dt, obj, timers);
      var call := Check(e, from, TargetOf(obj), c.result);
      if !c.result then CondsOutcome(false, c.timers, [call])
      else
        var rest := CheckFrom(conds, from + 1, e, dt, obj, c.timers);
        CondsOutcome(rest.pass, rest.timers, [call] + rest.calls)
  }

  datatype Executed = Executed(obj: Option<Object>, calls: seq<Call>)

  /** `nutmeg_execute_actions`, from action `from` on: each action once, in list order. */
  function ExecuteFrom(actions: seq<Action>, from: nat, e: nat, dt: real, obj: Option<Object>): (r: Executed)
    requires from <= |actions|
    ensures |r.calls| == |actions| - from
    ensures forall k | 0 <= k < |r.calls| :: r.calls[k] == Run(e, from + k, TargetOf(obj))
    ensures SameTarget(obj, r.obj)
    decreases |actions| - from
  {
    if from == |actions| then Executed(obj, [])
    else
      var o := Perform(actions[from], dt, obj);
      var rest := ExecuteFrom(actions, from + 1, e, dt, o);
      Executed(rest.obj, [Run(e, from, TargetOf(obj))] + rest.calls)
  }

  datatype Attempt = Attempt(fired: bool, obj: Option<Object>, timers: Timers, calls: seq<Call>)

  /** Conditions, then the actions if they all passed, for one target. */
  function TryTarget(ev: Event, e: nat, dt: real, obj: Option<Object>, timers: Timers): (r: Attempt)
    ensures SameTarget(obj, r.obj)
    ensures !r.fired ==> r.obj == obj
    ensures forall k | 0 <= k < |r.calls| :: r.calls[k].event == e && r.calls[k].target == TargetOf(obj)
    ensures r.timers.Keys == timers.Keys
  {
    var c := CheckFrom(ev.conditions, 0, e, dt, obj, timers);
    if !c.pass then Attempt(false, obj, c.timers, c.calls)
    else
      var x := ExecuteFrom(ev.actions, 0, e, dt, obj);
      Attempt(true, x.obj, c.timers, c.calls + x.calls)
  }

  datatype Sweep = Sweep(fired: bool, objects: seq<Object>, timers: Timers, calls: seq<Call>, slots: seq<nat>)

  /** The OBJECTS loop from storage slot `from` on; `slots[k]` is the slot of
      the object given to invocation `k`. */
  function SweepFrom(ev: Event, e: nat, dt: real, objs: seq<Object>, from: nat, timers: Timers): (r: Sweep)
    requires from <= |objs|
    ensures |r.objects| == |objs|
    ensures forall j | 0 <= j < |objs| :: SameIdentity(objs[j], r.objects[j])
    ensures forall j | 0 <= j < |objs| && (j < from || !objs[j].alive) :: r.objects[j] == objs[j]
    ensures forall k | 0 <= k < |r.calls| :: r.calls[k].event == e
    ensures r.timers.Keys == timers.Keys
    decreases |objs| - from
  {
    if from == |objs| then Sweep(false, objs, timers, [], [])
    else if !objs[from].alive then SweepFrom(ev, e, dt, objs, from + 1, timers)
    else
      var a := TryTarget(ev, e, dt, Some(objs[from]), timers);
      var rest := SweepFrom(ev, e, dt, objs[from := a.obj.value], from + 1, a.timers);
      Sweep(a.fired || rest.fired, rest.objects, rest.timers, a.calls + rest.calls, seq(|a.calls|, _ => from) + rest.slots)
  }

  /** Invocation `k` of the OBJECTS loop went to the live object in slot
      `slots[k]`, and the loop visits the slots in storage order. */
  lemma {:induction false} SweepCallsFollowSlots(ev: Event, e: nat, dt: real, objs: seq<Object>, from: nat, timers: Timers)
    requires from <= |objs|
    ensures var r := SweepFrom(ev, e, dt, objs, from, timers);
            && |r.slots| == |r.calls|
            && (forall k | 0 <= k < |r.calls| ::
                  && from <= r.slots[k] < |objs| && objs[r.slots[k]].alive
                  && r.calls[k].target == Some(objs[r.slots[k]].id))
            && (forall k1, k2 | 0 <= k1 <= k2 < |r.slots| :: r.slots[k1] <= r.slots[k2])
    decreases |objs| - from
  {
    if from < |objs| {
      if !objs[from].alive {
        SweepCallsFollowSlots(ev, e, dt, objs, from + 1, timers);
      } else {
        var a := TryTarget(ev, e, dt, Some(objs[from]), timers);
        var objs' := objs[from := a.obj.value];
        SweepCallsFollowSlots(ev, e, dt, objs', from + 1, a.timers);
        var rest := SweepFrom(ev, e, dt, objs', from + 1, a.timers);
        var r := SweepFrom(ev, e, dt, objs, from, timers);
        PrependSlot(from, |a.calls|, rest.slots, r.slots);
        assert r.calls == a.calls + rest.calls;
        forall k | |a.calls| <= k < |r.calls|
          ensures objs[r.slots[k]] == objs'[r.slots[k]]
        {
        }
      }
    }
  }

  /** Prepending invocations on slot `from` to a sorted list of later slots
      keeps it sorted. */
  lemma PrependSlot(from: nat, n: nat, later: seq<nat>, slots: seq<nat>)
    requires slots == seq(n, _ => from) + later
    requires forall k | 0 <= k < |later| :: from < later[k]
    requires forall k1, k2 | 0 <= k1 <= k2 < |later| :: later[k1] <= later[k2]
    ensures |slots| == n + |later|
    ensures forall k | 0 <= k < |slots| :: slots[k] == if k < n then from else later[k - n]
    ensures forall k1, k2 | 0 <= k1 <= k2 < |slots| :: slots[k1] <= slots[k2]
  {
  }

  datatype EventOutcome = EventOutcome(event: Event, objects: seq<Object>, timers: Timers, calls: seq<Call>)

  /** One event of a pass, numbered `e`. */
  function DispatchEvent(ev: Event, e: nat, dt: real, objs: seq<Object>, timers: Timers): (r: EventOutcome)
    ensures Spent(ev) ==> r == EventOutcome(ev, objs, timers, [])
    ensures r.event == ev.(triggered := r.event.triggered)
    ensures ev.triggered ==> r.event.triggered
    ensures !ev.once ==> r.event.triggered == ev.triggered
    ensures |r.objects| == |objs| && forall j | 0 <= j < |objs| :: SameIdentity(objs[j], r.objects[j])
    ensures forall j | 0 <= j < |objs| && !objs[j].alive :: r.objects[j] == objs[j]
    ensures forall k | 0 <= k < |r.calls| :: r.calls[k].event == e
    ensures ev.scope != ObjectsScope ==> r.objects == objs && forall k | 0 <= k < |r.calls| :: r.calls[k].target.None?
    ensures !Spent(ev) && ev.scope != ObjectsScope ==>
      var a := TryTarget(ev, e, dt, None, timers);
      r.calls == a.calls && r.timers == a.timers && r.event.triggered == (ev.triggered || (ev.once && a.fired))
    ensures !Spent(ev) && ev.scope == ObjectsScope ==>
      var sw := SweepFrom(ev, e, dt, objs, 0, timers);
      && r.calls == sw.calls && r.objects == sw.objects && r.timers == sw.timers
      && r.event.triggered == (ev.triggered || (ev.once && sw.fired))
    ensures r.timers.Keys == timers.Keys
  {
    if Spent(ev) then EventOutcome(ev, objs, timers, [])
    else if ev.scope == ObjectsScope then
      var s := SweepFrom(ev, e, dt, objs, 0, timers);
      EventOutcome(ev.(triggered := ev.triggered || (ev.once && s.fired)), s.objects, s.timers, s.calls)
    else
      var a := TryTarget(ev, e, dt, None, timers);
      EventOutcome(ev.(triggered := ev.triggered || (ev.once && a.fired)), objs, a.timers, a.calls)
  }

  datatype PassOutcome = PassOutcome(events: seq<Event>, objects: seq<Object>, timers: Timers, calls: seq<Call>)

  /** The events numbered `from` onwards, in registration order. */
  function PassFrom(events: seq<Event>, from: nat, dt: real, objs: seq<Object>, timers: Timers): (r: PassOutcome)
    requires from <= |events|
    ensures |r.events| == |events|
    ensures forall k | 0 <= k < |events| :: r.events[k] == events[k].(triggered := r.events[k].triggered)
    ensures forall k | 0 <= k < from :: r.events[k] == events[k]
    ensures forall k | 0 <= k < |events| :: events[k].triggered ==> r.events[k].triggered
    ensures forall k | 0 <= k < |events| :: !events[k].once ==> r.events[k].triggered == events[k].triggered
    ensures forall k | 0 <= k < |r.calls| ::
              from <= r.calls[k].event < |events| && !Spent(events[r.calls[k].event])
    ensures forall k1, k2 | 0 <= k1 <= k2 < |r.calls| :: r.calls[k1].event <= r.calls[k2].event
    ensures |r.objects| == |objs| && forall j | 0 <= j < |objs| :: SameIdentity(objs[j], r.objects[j])
    ensures r.timers.Keys == timers.Keys
    decreases |events| - from
  {
    if from == |events| then PassOutcome(events, objs, timers, [])
    else
      var o := DispatchEvent(events[from], from, dt, objs, timers);
      var rest := PassFrom(events[from := o.event], from + 1, dt, o.objects, o.timers);
      PassOutcome(rest.events, rest.objects, rest.timers, o.calls + rest.calls)
  }

  datatype SceneTick = SceneTick(scene: Scenes.Scene, timers: Timers, calls: seq<Call>)

  /** `nutmeg_tick_scene`: one pass over the scene's events, the engine's last
      delta being `dt`. */
  function TickScene(s: Scenes.Scene, dt: real, timers: Timers): (r: SceneTick)
    ensures r.scene.name == s.name && r.scene.eventCapacity == s.eventCapacity
    ensures r.scene.store.capacity == s.store.capacity && r.scene.store.nextId == s.store.nextId
    ensures |r.scene.store.objects| == |s.store.objects|
    ensures forall j | 0 <= j < |s.store.objects| :: SameIdentity(s.store.objects[j], r.scene.store.objects[j])
    ensures |r.scene.events| == |s.events|
    ensures forall k | 0 <= k < |s.events| :: r.scene.events[k] == s.events[k].(triggered := r.scene.events[k].triggered)
    ensures forall k | 0 <= k < |s.events| :: s.events[k].triggered ==> r.scene.events[k].triggered
    ensures r.calls == PassFrom(s.events, 0, dt, s.store.objects, timers).calls
    ensures forall k | 0 <= k < |r.calls| :: r.calls[k].event < |s.events| && !Spent(s.events[r.calls[k].event])
    ensures forall k1, k2 | 0 <= k1 <= k2 < |r.calls| :: r.calls[k1].event <= r.calls[k2].event
    ensures r.timers.Keys == timers.Keys
    ensures Scenes.Valid(s) ==> Scenes.Valid(r.scene)
  {
    var p := PassFrom(s.events, 0, dt, s.store.objects, timers);
    var r := SceneTick(s.(events := p.events, store := s.store.(objects := p.objects)), p.timers, p.calls);
    assert Scenes.Valid(s) ==> Scenes.Valid(r.scene) by {
      if Scenes.Valid(s) {
        forall k | 0 <= k < |p.events|
          ensures Events.Valid(p.events[k])
        {
          assert Events.Valid(s.events[k]);
        }
        assert Objects.UniqueIds(p.objects) by {
          forall i, j | 0 <= i < j < |p.objects|
            ensures p.objects[i].id != p.objects[j].id
          {
            assert SameIdentity(s.store.objects[i], p.objects[i]);
            assert SameIdentity(s.store.objects[j], p.objects[j]);
          }
        }
      }
    }
    r
  }
}
