/**
  Consequences of the tick running the active scene's dispatch pass twice:
  a timer condition sees the delta twice, an integration moves objects twice,
  and a once-event that fires in the first pass is skipped in the second.
 */
module TickProperties {
  import opened Wrappers
  import opened Vectors
  import opened Objects
  import opened Builtins
  import opened Events
  import opened Scenes
  import opened Dispatch
  import opened DispatchProperties
  import opened Engine

  /** The tick runs the scene active on entry through two passes, the second
      starting from the scene and timers the first left behind. */
  lemma TickRunsActiveSceneTwice(e: Engine, timers: Timers, delta: real, cpuTime: real, footprint: nat, sin: real -> real)
    requires ActiveInRange(e) && e.active.Some? && delta >= 0.0
    ensures var i := e.active.value;
            var r := Tick(e, timers, delta, cpuTime, footprint, sin);
            var p1 := TickScene(e.scenes[i], delta, timers);
            var p2 := TickScene(p1.scene, delta, p1.timers);
            r.first == p1.calls && r.second == p2.calls && r.engine.scenes[i] == p2.scene && r.timers == p2.timers
  {
  }

  /** A single-event pass leaves its event as `DispatchEvent` does and runs
      nothing else. */
  lemma SingleEventPass(ev: Event, dt: real, objs: seq<Object>, timers: Timers)
    ensures var p := PassFrom([ev], 0, dt, objs, timers);
            var o := DispatchEvent(ev, 0, dt, objs, timers);
            p == PassOutcome([o.event], o.objects, o.timers, o.calls)
  {
    var o := DispatchEvent(ev, 0, dt, objs, timers);
    assert [ev][0 := o.event] == [o.event];
    assert o.calls + [] == o.calls;
  }

  /** With a GLOBAL or SCENE event whose only condition is a timer that stays
      below its interval, one tick adds the delta to the timer twice. */
  lemma TickAdvancesTimerTwice(e: Engine, timers: Timers, delta: real, cpuTime: real, footprint: nat, sin: real -> real, p: PayloadId)
    requires ActiveInRange(e) && e.active.Some? && delta >= 0.0
    requires |e.scenes[e.active.value].events| == 1
    requires var ev := e.scenes[e.active.value].events[0];
             ev.scope != ObjectsScope && !Spent(ev) && ev.conditions == [TimerElapsed(p)]
    requires p in timers && timers[p].interval > 0.0 && timers[p].accumulator + 2.0 * delta < timers[p].interval
    ensures var r := Tick(e, timers, delta, cpuTime, footprint, sin);
            && p in r.timers && r.timers[p] == timers[p].(accumulator := timers[p].accumulator + 2.0 * delta)
            && Runs(r.first, 0) == 0 && Runs(r.second, 0) == 0
  {
    var s := e.scenes[e.active.value];
    var ev := s.events[0];
    assert s.events == [ev];
    var objs := s.store.objects;
    SingleEventPass(ev, delta, objs, timers);
    TimerEventAccumulates(ev, 0, delta, objs, timers, p);
    var o1 := DispatchEvent(ev, 0, delta, objs, timers);
    SingleEventPass(ev, delta, o1.objects, o1.timers);
    TimerEventAccumulates(ev, 0, delta, o1.objects, o1.timers, p);
  }

  /** With one OBJECTS event, not a once-event, with no conditions and the
      single action `Integrate`, a tick moves every live object by twice the
      delta along its velocity. */
  lemma TickIntegratesTwice(e: Engine, timers: Timers, delta: real, cpuTime: real, footprint: nat, sin: real -> real)
    requires ActiveInRange(e) && e.active.Some? && delta >= 0.0
    requires |e.scenes[e.active.value].events| == 1
    requires var ev := e.scenes[e.active.value].events[0];
             ev.scope == ObjectsScope && !ev.once && ev.conditions == [] && ev.actions == [Integrate]
    ensures var i := e.active.value;
            var before := e.scenes[i].store.objects;
            var after := Tick(e, timers, delta, cpuTime, footprint, sin).engine.scenes[i].store.objects;
            && |after| == |before|
            && forall j | 0 <= j < |before| ::
                 after[j] == if before[j].alive
                             then before[j].(position := Add(before[j].position, Scale(before[j].velocity, 2.0 * delta)))
                             else before[j]
  {
    var s := e.scenes[e.active.value];
    var ev := s.events[0];
    assert s.events == [ev];
    var objs := s.store.objects;
    SingleEventPass(ev, delta, objs, timers);
    var o1 := DispatchEvent(ev, 0, delta, objs, timers);
    SweepIntegratesEveryLiveObject(ev, 0, delta, objs, 0, timers);
    assert o1.event == ev;
    SingleEventPass(ev, delta, o1.objects, o1.timers);
    SweepIntegratesEveryLiveObject(ev, 0, delta, o1.objects, 0, o1.timers);
    forall j | 0 <= j < |objs| && objs[j].alive
      ensures IntegrateTimes(objs[j], delta, 2)
           == objs[j].(position := Add(objs[j].position, Scale(objs[j].velocity, 2.0 * delta)))
    {
      IntegrateTimesMovesLinearly(objs[j], delta, 2);
    }
  }

  /** The same event as a once-event, in a scene with a live object: the first
      pass moves every live object by one delta and marks the event, and the
      second pass skips it, so the tick moves objects only once. */
  lemma TickOnceIntegrateMovesOnce(e: Engine, timers: Timers, delta: real, cpuTime: real, footprint: nat, sin: real -> real)
    requires ActiveInRange(e) && e.active.Some? && delta >= 0.0
    requires |e.scenes[e.active.value].events| == 1
    requires var ev := e.scenes[e.active.value].events[0];
             ev.scope == ObjectsScope && ev.once && !ev.triggered && ev.conditions == [] && ev.actions == [Integrate]
    requires exists j | 0 <= j < |e.scenes[e.active.value].store.objects| :: e.scenes[e.active.value].store.objects[j].alive
    ensures var i := e.active.value;
            var before := e.scenes[i].store.objects;
            var r := Tick(e, timers, delta, cpuTime, footprint, sin);
            var after := r.engine.scenes[i].store.objects;
            && r.engine.scenes[i].events[0].triggered
            && r.second == []
            && |after| == |before|
            && forall j | 0 <= j < |before| ::
                 after[j] == if before[j].alive
                             then before[j].(position := Add(before[j].position, Scale(before[j].velocity, delta)))
                             else before[j]
  {
    var s := e.scenes[e.active.value];
    var ev := s.events[0];
    assert s.events == [ev];
    var objs := s.store.objects;
    SingleEventPass(ev, delta, objs, timers);
    SweepIntegratesEveryLiveObject(ev, 0, delta, objs, 0, timers);
    var o1 := DispatchEvent(ev, 0, delta, objs, timers);
    assert o1.event.triggered;
    SingleEventPass(o1.event, delta, o1.objects, o1.timers);
  }

  /** Over one tick, a once-event with actions whose actions ran in the first
      pass ends triggered and is not invoked at all in the second pass. */
  lemma TickOnceEventFiresInFirstPassOnly(e: Engine, timers: Timers, delta: real, cpuTime: real, footprint: nat, sin: real -> real, k: nat)
    requires ActiveInRange(e) && e.active.Some? && delta >= 0.0
    requires k < |e.scenes[e.active.value].events|
    requires var ev := e.scenes[e.active.value].events[k]; ev.once && |ev.actions| > 0
    ensures var r := Tick(e, timers, delta, cpuTime, footprint, sin);
            Runs(r.first, k) > 0 ==>
              && r.engine.scenes[e.active.value].events[k].triggered
              && forall n | 0 <= n < |r.second| :: r.second[n].event != k
  {
    var s := e.scenes[e.active.value];
    PassOnceFlagFollowsActions(s.events, 0, delta, s.store.objects, timers);
  }

  /** As written, an event stored in the active scene that has already fired
      once stays that way: a tick neither invokes it in either pass nor
      changes it, and resetting the caller's copy cannot reach it. */
  lemma StoredOnceEventStaysSpent(e: Engine, timers: Timers, delta: real, cpuTime: real, footprint: nat, sin: real -> real, k: nat)
    requires ActiveInRange(e) && e.active.Some? && delta >= 0.0
    requires k < |e.scenes[e.active.value].events| && Spent(e.scenes[e.active.value].events[k])
    ensures var r := Tick(e, timers, delta, cpuTime, footprint, sin);
            && r.engine.scenes[e.active.value].events[k] == e.scenes[e.active.value].events[k]
            && (forall n | 0 <= n < |r.first| :: r.first[n].event != k)
            && (forall n | 0 <= n < |r.second| :: r.second[n].event != k)
  {
    var s := e.scenes[e.active.value];
    var p1 := TickScene(s, delta, timers);
    assert Spent(p1.scene.events[k]);
  }

  /** With the stored copy reset, the next tick tries the event again on
      every target its scope names. */
  lemma ResetSceneEventReenablesDispatch(e: Engine, timers: Timers, delta: real, cpuTime: real, footprint: nat, sin: real -> real, k: nat)
    requires ActiveInRange(e) && e.active.Some? && delta >= 0.0
    requires k < |e.scenes[e.active.value].events|
    requires var ev := e.scenes[e.active.value].events[k]; |ev.conditions| + |ev.actions| > 0
    ensures var i := e.active.value;
            var e' := ResetSceneEvent(e, e.active, k);
            var r := Tick(e', timers, delta, cpuTime, footprint, sin);
            Tried(e.scenes[i].events[k], k, e.scenes[i].store.objects, r.first)
  {
    var i := e.active.value;
    var e' := ResetSceneEvent(e, e.active, k);
    var s' := e'.scenes[i];
    PassTriesEveryEvent(s'.events, 0, delta, s'.store.objects, timers);
    assert s'.events[k] == Reset(e.scenes[i].events[k]);
  }
}
