/** Properties of a dispatch pass stated over its invocation trace. */
module DispatchProperties {
  import opened Wrappers
  import opened Vectors
  import opened Objects
  import opened Builtins
  import opened Events
  import opened Dispatch

  lemma {:induction false} RunsAppend(a: seq<Call>, b: seq<Call>, e: nat)
    ensures Runs(a + b, e) == Runs(a, e) + Runs(b, e)
    decreases |a|
  {
    if |a| > 0 {
      RunsAppend(a[1..], b, e);
      assert (a + b)[1..] == a[1..] + b;
    } else {
      assert a + b == b;
    }
  }

  /** A trace holding no action invocation of event `e` counts none. */
  lemma {:induction false} RunsAbsent(calls: seq<Call>, e: nat)
    requires forall k | 0 <= k < |calls| :: calls[k].Check? || calls[k].event != e
    ensures Runs(calls, e) == 0
    decreases |calls|
  {
    if |calls| > 0 {
      RunsAbsent(calls[1..], e);
    }
  }

  /** A trace of action invocations of event `e` only counts all of them. */
  lemma {:induction false} RunsAll(calls: seq<Call>, e: nat)
    requires forall k | 0 <= k < |calls| :: calls[k].Run? && calls[k].event == e
    ensures Runs(calls, e) == |calls|
    decreases |calls|
  {
    if |calls| > 0 {
      RunsAll(calls[1..], e);
    }
  }

  /** A condition callback is the built-in or predicate its variant names: a
      timer condition with a payload answers and updates it as the timer
      built-in does, and any other condition leaves the timers alone. */
  lemma EvaluateFollowsCallback(c: Condition, dt: real, obj: Option<Object>, timers: Timers)
    ensures var r := Evaluate(c, dt, obj, timers);
            && (c.TimerElapsed? && c.payload in timers ==>
                  var step := TimerCondition(Some(dt), Some(timers[c.payload]));
                  r.result == step.fired && r.timers == timers[c.payload := step.timer.value])
            && (!c.TimerElapsed? ==> r.timers == timers)
  {
  }

  /** The recorded answers are the conditions' answers: the first record is
      what the first condition answered, and a payload that no invoked
      condition names keeps its timer. */
  lemma {:induction false} CheckFromRecordsAnswers(conds: seq<Condition>, from: nat, e: nat, dt: real, obj: Option<Object>, timers: Timers)
    requires from <= |conds|
    ensures var r := CheckFrom(conds, from, e, dt, obj, timers);
            && (|r.calls| > 0 ==> r.calls[0].result == Evaluate(conds[from], dt, obj, timers).result)
            && KeepsUnnamedTimers(conds, from, from + |r.calls|, timers, r.timers)
    decreases |conds| - from
  {
    if from < |conds| {
      var c := Evaluate(conds[from], dt, obj, timers);
      if c.result {
        CheckFromRecordsAnswers(conds, from + 1, e, dt, obj, c.timers);
        var r := CheckFrom(conds, from, e, dt, obj, timers);
        var rest := CheckFrom(conds, from + 1, e, dt, obj, c.timers);
        forall p | p in timers && p in r.timers && (forall k | from <= k < from + |r.calls| :: conds[k] != TimerElapsed(p))
          ensures r.timers[p] == timers[p]
        {
          assert conds[from] != TimerElapsed(p);
          assert forall k | from + 1 <= k < from + 1 + |rest.calls| :: conds[k] != TimerElapsed(p);
        }
      }
    }
  }

  /** No condition of the list is a timer. */
  predicate Stateless(conds: seq<Condition>)
  {
    forall k | 0 <= k < |conds| :: !conds[k].TimerElapsed?
  }

  /** Without timer conditions, the list passes exactly when every condition
      holds, and no timer changes. */
  lemma {:induction false} StatelessConditionsPassIffAllHold(conds: seq<Condition>, from: nat, e: nat, dt: real, obj: Option<Object>, timers: Timers)
    requires from <= |conds| && Stateless(conds)
    ensures var r := CheckFrom(conds, from, e, dt, obj, timers);
            && r.timers == timers
            && (r.pass <==> forall k | from <= k < |conds| :: Evaluate(conds[k], dt, obj, timers).result)
    decreases |conds| - from
  {
    if from < |conds| {
      var c := Evaluate(conds[from], dt, obj, timers);
      assert c.timers == timers by { assert !conds[from].TimerElapsed?; }
      if c.result {
        StatelessConditionsPassIffAllHold(conds, from + 1, e, dt, obj, timers);
      }
    }
  }

  /** Without timer conditions, each record holds that condition's answer. */
  lemma {:induction false} StatelessRecordsAreAnswers(conds: seq<Condition>, from: nat, e: nat, dt: real, obj: Option<Object>, timers: Timers)
    requires from <= |conds| && Stateless(conds)
    ensures var r := CheckFrom(conds, from, e, dt, obj, timers);
            forall k | from <= k < from + |r.calls| :: r.calls[k - from].result == Evaluate(conds[k], dt, obj, timers).result
    decreases |conds| - from
  {
    var r := CheckFrom(conds, from, e, dt, obj, timers);
    if from < |conds| {
      var c := Evaluate(conds[from], dt, obj, timers);
      assert c.timers == timers by { assert !conds[from].TimerElapsed?; }
      if c.result {
        StatelessRecordsAreAnswers(conds, from + 1, e, dt, obj, timers);
        var rest := CheckFrom(conds, from + 1, e, dt, obj, timers);
        assert r == CondsOutcome(rest.pass, rest.timers, [Check(e, from, TargetOf(obj), true)] + rest.calls);
        forall k | from + 1 <= k < from + |r.calls|
          ensures r.calls[k - from].result == Evaluate(conds[k], dt, obj, timers).result
        {
          assert r.calls[k - from] == rest.calls[k - (from + 1)];
        }
      }
    }
  }

  /** An action callback is the built-in its variant names. */
  lemma PerformRunsBuiltin(a: Action, dt: real, obj: Option<Object>)
    ensures var r := Perform(a, dt, obj);
            && (a.Integrate? ==> r == ActionIntegrate(Some(dt), obj))
            && (a.Accelerate? ==> r == ActionAccelerate(Some(dt), obj, a.acceleration))
            && (a.AddVelocity? ==> r == ActionAddVelocity(obj, a.change))
            && (a.Translate? ==> r == ActionTranslate(obj, a.translation))
            && (a.DebugPrint? ==> r == obj)
  {
  }

  /** Reference semantics of an action list: the last action applies last, to
      what the earlier ones left. */
  function ApplyActions(actions: seq<Action>, dt: real, obj: Option<Object>): Option<Object>
    decreases |actions|
  {
    if |actions| == 0 then obj
    else Perform(actions[|actions| - 1], dt, ApplyActions(actions[..|actions| - 1], dt, obj))
  }

  /** Executing from action `from` on, given what the earlier actions left,
      ends where the whole list leaves the object. */
  lemma {:induction false} ExecuteFromContinuesApply(actions: seq<Action>, from: nat, e: nat, dt: real, obj: Option<Object>)
    requires from <= |actions|
    ensures ExecuteFrom(actions, from, e, dt, ApplyActions(actions[..from], dt, obj)).obj == ApplyActions(actions, dt, obj)
    decreases |actions| - from
  {
    if from == |actions| {
      assert actions[..from] == actions;
    } else {
      var prefix := actions[..from + 1];
      assert prefix[..from] == actions[..from];
      assert ApplyActions(prefix, dt, obj) == Perform(actions[from], dt, ApplyActions(actions[..from], dt, obj));
      ExecuteFromContinuesApply(actions, from + 1, e, dt, obj);
    }
  }

  /** `nutmeg_execute_actions` applies the actions to its target in list order. */
  lemma ExecuteAppliesActionsInOrder(actions: seq<Action>, e: nat, dt: real, obj: Option<Object>)
    ensures ExecuteFrom(actions, 0, e, dt, obj).obj == ApplyActions(actions, dt, obj)
  {
    assert actions[..0] == [];
    ExecuteFromContinuesApply(actions, 0, e, dt, obj);
  }

  /** For one target, either the conditions failed and no action ran, or every
      action ran exactly once. */
  lemma TryTargetRunsAllOrNothing(ev: Event, e: nat, dt: real, obj: Option<Object>, timers: Timers)
    ensures var r := TryTarget(ev, e, dt, obj, timers);
            && (r.fired ==> Runs(r.calls, e) == |ev.actions|)
            && (!r.fired ==> Runs(r.calls, e) == 0)
  {
    var c := CheckFrom(ev.conditions, 0, e, dt, obj, timers);
    RunsAbsent(c.calls, e);
    if c.pass {
      var x := ExecuteFrom(ev.actions, 0, e, dt, obj);
      RunsAll(x.calls, e);
      RunsAppend(c.calls, x.calls, e);
    }
  }

  /** For one target the conditions are invoked first: either the last one
      invoked failed and no action ran, or every condition passed, in list
      order, and then every action ran once, in list order. */
  lemma TryTargetChecksThenRuns(ev: Event, e: nat, dt: real, obj: Option<Object>, timers: Timers)
    ensures var r := TryTarget(ev, e, dt, obj, timers);
            && (!r.fired ==>
                  && |r.calls| > 0 && Failed(r.calls[|r.calls| - 1])
                  && forall k | 0 <= k < |r.calls| :: r.calls[k].Check?)
            && (r.fired ==>
                  && |r.calls| == |ev.conditions| + |ev.actions|
                  && (forall k | 0 <= k < |ev.conditions| :: Passed(r.calls[k]) && r.calls[k].index == k)
                  && (forall k | 0 <= k < |ev.actions| :: r.calls[|ev.conditions| + k] == Run(e, k, TargetOf(obj))))
  {
    var r := TryTarget(ev, e, dt, obj, timers);
    var c := CheckFrom(ev.conditions, 0, e, dt, obj, timers);
    if c.pass {
      var x := ExecuteFrom(ev.actions, 0, e, dt, obj);
      assert r == Attempt(true, x.obj, c.timers, c.calls + x.calls);
      forall k | 0 <= k < |ev.conditions|
        ensures Passed(r.calls[k]) && r.calls[k].index == k
      {
        assert r.calls[k] == c.calls[k];
      }
      forall k | 0 <= k < |ev.actions|
        ensures r.calls[|ev.conditions| + k] == Run(e, k, TargetOf(obj))
      {
        assert r.calls[|ev.conditions| + k] == x.calls[k];
      }
    } else {
      assert r == Attempt(false, obj, c.timers, c.calls);
    }
  }

  /** Event `e` was tried on `target` from the start of its lists. */
  ghost predicate TriedOn(calls: seq<Call>, e: nat, target: Option<ObjectId>)
  {
    exists k | 0 <= k < |calls| :: calls[k].event == e && calls[k].index == 0 && calls[k].target == target
  }

  /** Some target of event `e` passed the last of its `n` conditions. */
  ghost predicate SomeTargetPassedAll(calls: seq<Call>, e: nat, n: nat)
  {
    exists k | 0 <= k < |calls| :: calls[k].event == e && Passed(calls[k]) && calls[k].index + 1 == n
  }

  ghost predicate AnyAlive(objs: seq<Object>, from: nat)
  {
    exists j | from <= j < |objs| :: objs[j].alive
  }

  /** Event `e` was tried on every target its scope names: each live object
      for OBJECTS, the null object otherwise. */
  ghost predicate Tried(ev: Event, e: nat, objs: seq<Object>, calls: seq<Call>)
  {
    if ev.scope == ObjectsScope then
      forall j | 0 <= j < |objs| && objs[j].alive :: TriedOn(calls, e, Some(objs[j].id))
    else TriedOn(calls, e, None)
  }

  /** Some target of event `e` passed all its conditions: with no condition,
      that is any target at all. */
  ghost predicate Succeeded(ev: Event, e: nat, objs: seq<Object>, calls: seq<Call>)
  {
    if |ev.conditions| > 0 then SomeTargetPassedAll(calls, e, |ev.conditions|)
    else ev.scope != ObjectsScope || AnyAlive(objs, 0)
  }

  lemma TraceAppend(a: seq<Call>, b: seq<Call>, e: nat, n: nat, target: Option<ObjectId>)
    ensures TriedOn(a + b, e, target) <==> TriedOn(a, e, target) || TriedOn(b, e, target)
    ensures SomeTargetPassedAll(a + b, e, n) <==> SomeTargetPassedAll(a, e, n) || SomeTargetPassedAll(b, e, n)
  {
    forall k | 0 <= k < |a|
      ensures (a + b)[k] == a[k]
    {
    }
    forall k | 0 <= k < |b|
      ensures (a + b)[|a| + k] == b[k]
    {
    }
    if TriedOn(a + b, e, target) {
      var k :| 0 <= k < |a + b| && (a + b)[k].event == e && (a + b)[k].index == 0 && (a + b)[k].target == target;
      if k >= |a| {
        assert b[k - |a|] == (a + b)[k];
      }
    }
    if SomeTargetPassedAll(a + b, e, n) {
      var k :| 0 <= k < |a + b| && (a + b)[k].event == e && Passed((a + b)[k]) && (a + b)[k].index + 1 == n;
      if k >= |a| {
        assert b[k - |a|] == (a + b)[k];
      }
    }
  }

  /** Calls of other events before a trace do not change whether event `k`
      was tried or succeeded, nor do identity-preserving changes of the objects. */
  lemma OnlyLaterCallsCount(ev: Event, k: nat, objs: seq<Object>, objs2: seq<Object>, a: seq<Call>, b: seq<Call>)
    requires |objs| == |objs2| && forall j | 0 <= j < |objs| :: SameIdentity(objs[j], objs2[j])
    requires forall n | 0 <= n < |a| :: a[n].event != k
    ensures Tried(ev, k, objs, a + b) <==> Tried(ev, k, objs2, b)
    ensures Succeeded(ev, k, objs, a + b) <==> Succeeded(ev, k, objs2, b)
  {
    TriedSameIdentities(ev, k, objs, objs2, a + b);
    TraceAppend(a, b, k, |ev.conditions|, None);
    forall j | 0 <= j < |objs2|
      ensures TriedOn(a + b, k, Some(objs2[j].id)) <==> TriedOn(b, k, Some(objs2[j].id))
    {
      TraceAppend(a, b, k, |ev.conditions|, Some(objs2[j].id));
    }
  }

  /** Calls of later events after a trace do not change whether event `k`
      was tried or succeeded. */
  lemma OnlyEarlierCallsCount(ev: Event, k: nat, objs: seq<Object>, a: seq<Call>, b: seq<Call>)
    requires forall n | 0 <= n < |b| :: b[n].event != k
    ensures Tried(ev, k, objs, a + b) <==> Tried(ev, k, objs, a)
    ensures Succeeded(ev, k, objs, a + b) <==> Succeeded(ev, k, objs, a)
  {
    TraceAppend(a, b, k, |ev.conditions|, None);
    forall j | 0 <= j < |objs|
      ensures TriedOn(a + b, k, Some(objs[j].id)) <==> TriedOn(a, k, Some(objs[j].id))
    {
      TraceAppend(a, b, k, |ev.conditions|, Some(objs[j].id));
    }
  }

  /** Whether an event was tried and succeeded depends only on which objects
      are alive and their ids, which a dispatch never changes. */
  lemma TriedSameIdentities(ev: Event, e: nat, objs: seq<Object>, objs2: seq<Object>, calls: seq<Call>)
    requires |objs| == |objs2| && forall j | 0 <= j < |objs| :: SameIdentity(objs[j], objs2[j])
    ensures Tried(ev, e, objs, calls) <==> Tried(ev, e, objs2, calls)
    ensures Succeeded(ev, e, objs, calls) <==> Succeeded(ev, e, objs2, calls)
  {
    if AnyAlive(objs, 0) {
      var j :| 0 <= j < |objs| && objs[j].alive;
      assert objs2[j].alive;
    }
    if AnyAlive(objs2, 0) {
      var j :| 0 <= j < |objs2| && objs2[j].alive;
      assert objs[j].alive;
    }
  }

  /** For one target the first invocation is the first in its list, and the
      target fires exactly when it passes the last condition, or at once when
      there is none. */
  lemma TryTargetFiresIffLastConditionPassed(ev: Event, e: nat, dt: real, obj: Option<Object>, timers: Timers)
    ensures var r := TryTarget(ev, e, dt, obj, timers);
            && (|ev.conditions| + |ev.actions| > 0 ==> |r.calls| > 0 && r.calls[0].index == 0)
            && (r.fired <==> |ev.conditions| == 0 || SomeTargetPassedAll(r.calls, e, |ev.conditions|))
  {
    var r := TryTarget(ev, e, dt, obj, timers);
    var n := |ev.conditions|;
    var c := CheckFrom(ev.conditions, 0, e, dt, obj, timers);
    if c.pass {
      var x := ExecuteFrom(ev.actions, 0, e, dt, obj);
      assert r.calls == c.calls + x.calls;
      if n > 0 {
        assert r.calls[n - 1] == c.calls[n - 1];
      } else if |ev.actions| > 0 {
        assert r.calls[0] == x.calls[0];
      }
    } else {
      assert r.calls == c.calls;
      forall k | 0 <= k < |r.calls|
        ensures !(Passed(r.calls[k]) && r.calls[k].index + 1 == n)
      {
        if k < |r.calls| - 1 {
          assert r.calls[k].index == k;
        }
      }
    }
  }

  /** The OBJECTS loop tries the event on every live object from slot `from`
      on. */
  lemma {:induction false} SweepTriesEveryLiveObject(ev: Event, e: nat, dt: real, objs: seq<Object>, from: nat, timers: Timers)
    requires from <= |objs| && |ev.conditions| + |ev.actions| > 0
    ensures var r := SweepFrom(ev, e, dt, objs, from, timers);
            forall j | from <= j < |objs| && objs[j].alive :: TriedOn(r.calls, e, Some(objs[j].id))
    decreases |objs| - from
  {
    if from < |objs| {
      if !objs[from].alive {
        SweepTriesEveryLiveObject(ev, e, dt, objs, from + 1, timers);
      } else {
        var r := SweepFrom(ev, e, dt, objs, from, timers);
        var a := TryTarget(ev, e, dt, Some(objs[from]), timers);
        var objs' := objs[from := a.obj.value];
        var rest := SweepFrom(ev, e, dt, objs', from + 1, a.timers);
        TryTargetFiresIffLastConditionPassed(ev, e, dt, Some(objs[from]), timers);
        SweepTriesEveryLiveObject(ev, e, dt, objs', from + 1, a.timers);
        assert r == Sweep(a.fired || rest.fired, rest.objects, rest.timers, a.calls + rest.calls, seq(|a.calls|, _ => from) + rest.slots);
        forall j | from <= j < |objs| && objs[j].alive
          ensures TriedOn(r.calls, e, Some(objs[j].id))
        {
          TraceAppend(a.calls, rest.calls, e, |ev.conditions|, Some(objs[j].id));
          if j == from {
            assert a.calls[0].target == Some(objs[j].id);
          } else {
            assert objs'[j] == objs[j];
          }
        }
      }
    }
  }

  /** The OBJECTS loop fires exactly when some target passed every condition,
      or, with no condition, when there is a live object from slot `from` on. */
  lemma {:induction false} SweepFiresIffSomeTargetPassed(ev: Event, e: nat, dt: real, objs: seq<Object>, from: nat, timers: Timers)
    requires from <= |objs|
    ensures var r := SweepFrom(ev, e, dt, objs, from, timers);
            r.fired <==> if |ev.conditions| == 0 then AnyAlive(objs, from)
                         else SomeTargetPassedAll(r.calls, e, |ev.conditions|)
    decreases |objs| - from
  {
    if from < |objs| {
      if !objs[from].alive {
        SweepFiresIffSomeTargetPassed(ev, e, dt, objs, from + 1, timers);
        assert AnyAlive(objs, from) <==> AnyAlive(objs, from + 1);
      } else {
        var r := SweepFrom(ev, e, dt, objs, from, timers);
        var a := TryTarget(ev, e, dt, Some(objs[from]), timers);
        var objs' := objs[from := a.obj.value];
        var rest := SweepFrom(ev, e, dt, objs', from + 1, a.timers);
        TryTargetFiresIffLastConditionPassed(ev, e, dt, Some(objs[from]), timers);
        SweepFiresIffSomeTargetPassed(ev, e, dt, objs', from + 1, a.timers);
        TraceAppend(a.calls, rest.calls, e, |ev.conditions|, None);
        assert r == Sweep(a.fired || rest.fired, rest.objects, rest.timers, a.calls + rest.calls, seq(|a.calls|, _ => from) + rest.slots);
        assert AnyAlive(objs, from);
      }
    }
  }

  /** A dispatched event that is not spent is tried on every target its scope
      names, and a once-event is marked triggered exactly when some target
      passed all its conditions, whether or not it has actions. */
  lemma EventTriedOnEveryTarget(ev: Event, e: nat, dt: real, objs: seq<Object>, timers: Timers)
    ensures var r := DispatchEvent(ev, e, dt, objs, timers);
            !Spent(ev) ==>
              && (|ev.conditions| + |ev.actions| > 0 ==> Tried(ev, e, objs, r.calls))
              && (r.event.triggered <==> ev.triggered || (ev.once && Succeeded(ev, e, objs, r.calls)))
  {
    var r := DispatchEvent(ev, e, dt, objs, timers);
    if !Spent(ev) {
      if ev.scope == ObjectsScope {
        if |ev.conditions| + |ev.actions| > 0 {
          SweepTriesEveryLiveObject(ev, e, dt, objs, 0, timers);
        }
        SweepFiresIffSomeTargetPassed(ev, e, dt, objs, 0, timers);
      } else {
        var a := TryTarget(ev, e, dt, None, timers);
        TryTargetFiresIffLastConditionPassed(ev, e, dt, None, timers);
        if |ev.conditions| + |ev.actions| > 0 {
          assert r.calls[0].event == e && r.calls[0].index == 0 && r.calls[0].target == None;
        }
      }
    }
  }

  /** A pass tries every event from `from` on that is not spent on every
      target its scope names, and marks each once-event triggered exactly when
      some target passed all its conditions in the pass. */
  lemma {:induction false} PassTriesEveryEvent(events: seq<Event>, from: nat, dt: real, objs: seq<Object>, timers: Timers)
    requires from <= |events|
    ensures var r := PassFrom(events, from, dt, objs, timers);
            forall k | from <= k < |events| && !Spent(events[k]) ::
              && (|events[k].conditions| + |events[k].actions| > 0 ==> Tried(events[k], k, objs, r.calls))
              && (r.events[k].triggered <==> events[k].triggered || (events[k].once && Succeeded(events[k], k, objs, r.calls)))
    decreases |events| - from
  {
    if from < |events| {
      var o := DispatchEvent(events[from], from, dt, objs, timers);
      var events' := events[from := o.event];
      var rest := PassFrom(events', from + 1, dt, o.objects, o.timers);
      var r := PassFrom(events, from, dt, objs, timers);
      assert r.calls == o.calls + rest.calls && r.events == rest.events;
      EventTriedOnEveryTarget(events[from], from, dt, objs, timers);
      PassTriesEveryEvent(events', from + 1, dt, o.objects, o.timers);
      forall k | from <= k < |events| && !Spent(events[k])
        ensures && (|events[k].conditions| + |events[k].actions| > 0 ==> Tried(events[k], k, objs, r.calls))
                && (r.events[k].triggered <==> events[k].triggered || (events[k].once && Succeeded(events[k], k, objs, r.calls)))
      {
        if k == from {
          OnlyEarlierCallsCount(events[k], k, objs, o.calls, rest.calls);
        } else {
          assert events'[k] == events[k];
          OnlyLaterCallsCount(events[k], k, objs, o.objects, o.calls, rest.calls);
        }
      }
    }
  }

  /** An OBJECTS sweep reports firing exactly when some action ran, when the
      event has actions; it never reports firing with no action run otherwise. */
  lemma {:induction false} SweepFiredIffActionsRan(ev: Event, e: nat, dt: real, objs: seq<Object>, from: nat, timers: Timers)
    requires from <= |objs|
    ensures var r := SweepFrom(ev, e, dt, objs, from, timers);
            && (!r.fired ==> Runs(r.calls, e) == 0)
            && (|ev.actions| > 0 ==> (r.fired <==> Runs(r.calls, e) > 0))
    decreases |objs| - from
  {
    if from < |objs| {
      if !objs[from].alive {
        SweepFiredIffActionsRan(ev, e, dt, objs, from + 1, timers);
      } else {
        var a := TryTarget(ev, e, dt, Some(objs[from]), timers);
        TryTargetRunsAllOrNothing(ev, e, dt, Some(objs[from]), timers);
        SweepFiredIffActionsRan(ev, e, dt, objs[from := a.obj.value], from + 1, a.timers);
        var rest := SweepFrom(ev, e, dt, objs[from := a.obj.value], from + 1, a.timers);
        RunsAppend(a.calls, rest.calls, e);
      }
    }
  }

  /** The once flag of a dispatched event: a once-event with actions is marked
      triggered exactly when one of its actions ran in this pass; GLOBAL and
      SCENE events run their action list at most once per pass. */
  lemma EventOnceFlagFollowsActions(ev: Event, e: nat, dt: real, objs: seq<Object>, timers: Timers)
    ensures var r := DispatchEvent(ev, e, dt, objs, timers);
            && (!Spent(ev) && |ev.actions| > 0 ==>
                  (r.event.triggered <==> ev.triggered || (ev.once && Runs(r.calls, e) > 0)))
            && (ev.scope != ObjectsScope ==> Runs(r.calls, e) == 0 || Runs(r.calls, e) == |ev.actions|)
  {
    if !Spent(ev) {
      if ev.scope == ObjectsScope {
        SweepFiredIffActionsRan(ev, e, dt, objs, 0, timers);
      } else {
        TryTargetRunsAllOrNothing(ev, e, dt, None, timers);
      }
    }
  }

  /** Over a whole pass: each once-event with actions, unless already spent,
      ends triggered exactly when it was already triggered or one of its
      actions ran in the pass; a spent event is untouched and never invoked. */
  lemma {:induction false} PassOnceFlagFollowsActions(events: seq<Event>, from: nat, dt: real, objs: seq<Object>, timers: Timers)
    requires from <= |events|
    ensures var r := PassFrom(events, from, dt, objs, timers);
            forall k | from <= k < |events| ::
              && (|events[k].actions| > 0 && !Spent(events[k]) ==>
                    (r.events[k].triggered <==> events[k].triggered || (events[k].once && Runs(r.calls, k) > 0)))
              && (Spent(events[k]) ==> r.events[k] == events[k] && Runs(r.calls, k) == 0)
    decreases |events| - from
  {
    if from < |events| {
      var o := DispatchEvent(events[from], from, dt, objs, timers);
      var events' := events[from := o.event];
      var rest := PassFrom(events', from + 1, dt, o.objects, o.timers);
      var r := PassFrom(events, from, dt, objs, timers);
      assert r.calls == o.calls + rest.calls;
      PassOnceFlagFollowsActions(events', from + 1, dt, o.objects, o.timers);
      EventOnceFlagFollowsActions(events[from], from, dt, objs, timers);
      forall k | from <= k < |events|
        ensures && (|events[k].actions| > 0 && !Spent(events[k]) ==>
                      (r.events[k].triggered <==> events[k].triggered || (events[k].once && Runs(r.calls, k) > 0)))
                && (Spent(events[k]) ==> r.events[k] == events[k] && Runs(r.calls, k) == 0)
      {
        RunsAppend(o.calls, rest.calls, k);
        if k == from {
          RunsAbsent(rest.calls, k);
        } else {
          RunsAbsent(o.calls, k);
          assert events'[k] == events[k];
          if Spent(events[k]) {
            RunsAbsent(rest.calls, k);
          }
        }
      }
    }
  }

  /** An OBJECTS event with no conditions whose one action is `Integrate`
      moves every live object from slot `from` on by one delta along its
      velocity and leaves every other object as it was. */
  lemma {:induction false} SweepIntegratesEveryLiveObject(ev: Event, e: nat, dt: real, objs: seq<Object>, from: nat, timers: Timers)
    requires from <= |objs|
    requires ev.conditions == [] && ev.actions == [Integrate]
    ensures var r := SweepFrom(ev, e, dt, objs, from, timers);
            && (forall j | from <= j < |objs| ::
                  r.objects[j] == if objs[j].alive then ActionIntegrate(Some(dt), Some(objs[j])).value else objs[j])
            && (r.fired <==> exists j | from <= j < |objs| :: objs[j].alive)
    decreases |objs| - from
  {
    if from < |objs| {
      if !objs[from].alive {
        SweepIntegratesEveryLiveObject(ev, e, dt, objs, from + 1, timers);
      } else {
        var a := TryTarget(ev, e, dt, Some(objs[from]), timers);
        var moved := Perform(Integrate, dt, Some(objs[from]));
        assert CheckFrom(ev.conditions, 0, e, dt, Some(objs[from]), timers).pass;
        assert ExecuteFrom(ev.actions, 0, e, dt, Some(objs[from])).obj
            == ExecuteFrom(ev.actions, 1, e, dt, moved).obj == moved;
        assert a.obj == ActionIntegrate(Some(dt), Some(objs[from]));
        SweepIntegratesEveryLiveObject(ev, e, dt, objs[from := a.obj.value], from + 1, a.timers);
      }
    }
  }

  /** A GLOBAL or SCENE event whose only condition is a timer that does not
      reach its interval adds the delta to that timer and runs no action. */
  lemma TimerEventAccumulates(ev: Event, e: nat, dt: real, objs: seq<Object>, timers: Timers, p: PayloadId)
    requires ev.scope != ObjectsScope && !Spent(ev) && ev.conditions == [TimerElapsed(p)]
    requires p in timers && timers[p].interval > 0.0 && timers[p].accumulator + dt < timers[p].interval
    ensures var r := DispatchEvent(ev, e, dt, objs, timers);
            && p in r.timers && r.timers[p] == timers[p].(accumulator := timers[p].accumulator + dt)
            && r.event == ev && Runs(r.calls, e) == 0
  {
    TryTargetRunsAllOrNothing(ev, e, dt, None, timers);
  }

  /** Two GLOBAL or SCENE events whose timer conditions name the same payload
      share one accumulator: a pass adds the delta to it once per event. */
  lemma SharedTimerPayloadAccumulatesPerEvent(ev1: Event, ev2: Event, dt: real, objs: seq<Object>, timers: Timers, p: PayloadId)
    requires dt >= 0.0
    requires ev1.scope != ObjectsScope && !Spent(ev1) && ev1.conditions == [TimerElapsed(p)]
    requires ev2.scope != ObjectsScope && !Spent(ev2) && ev2.conditions == [TimerElapsed(p)]
    requires p in timers && timers[p].interval > 0.0 && timers[p].accumulator + 2.0 * dt < timers[p].interval
    ensures var r := PassFrom([ev1, ev2], 0, dt, objs, timers);
            p in r.timers && r.timers[p].accumulator == timers[p].accumulator + 2.0 * dt
  {
    var o1 := DispatchEvent(ev1, 0, dt, objs, timers);
    TimerEventAccumulates(ev1, 0, dt, objs, timers, p);
    var events' := [ev1, ev2][0 := o1.event];
    var o2 := DispatchEvent(ev2, 1, dt, o1.objects, o1.timers);
    TimerEventAccumulates(ev2, 1, dt, o1.objects, o1.timers, p);
    assert events'[1] == ev2;
    assert PassFrom(events', 1, dt, o1.objects, o1.timers).timers == o2.timers;
  }
}
