/**
  The built-in condition and action callbacks. The engine pointer a callback
  receives matters to them only through the engine's last tick delta, so it
  is passed as `dt`, with `None` for a null engine; a null object or payload
  is `None` as well.
 */
module Builtins {
  import opened Wrappers
  import opened Vectors
  import opened Objects

  /** The timer payload: its state persists between calls. */
  datatype Timer = Timer(interval: real, accumulator: real, repeat: bool)

  /** `nutmeg_timer_make`. */
  function TimerMake(interval: real, repeat: bool): (t: Timer)
    ensures t.interval == interval && t.accumulator == 0.0 && t.repeat == repeat
  {
    Timer(interval, 0.0, repeat)
  }

  /** What a timer condition answers, and its payload afterwards. */
  datatype TimerStep = TimerStep(fired: bool, timer: Option<Timer>)

  /** `nutmeg_condition_timer`. */
  function TimerCondition(dt: Option<real>, timer: Option<Timer>): (r: TimerStep)
    ensures dt.None? || timer.None? ==> !r.fired && r.timer == timer
    ensures timer.Some? ==> r.timer.Some? && r.timer.value.interval == timer.value.interval
                            && r.timer.value.repeat == timer.value.repeat
    ensures dt.Some? && timer.Some? && timer.value.interval <= 0.0 ==> r.fired && r.timer == timer
    ensures dt.Some? && timer.Some? && timer.value.interval > 0.0 ==>
      var t := timer.value;
      var sum := t.accumulator + dt.value;
      && (r.fired <==> sum >= t.interval)
      && (r.fired && t.repeat ==> r.timer.value.accumulator == sum - t.interval)
      && (r.fired && !t.repeat ==> r.timer.value.accumulator == t.interval)
      && (!r.fired ==> r.timer.value.accumulator == sum)
  {
    if dt.None? || timer.None? then TimerStep(false, timer)
    else
      var t := timer.value;
      if t.interval <= 0.0 then TimerStep(true, timer)
      else
        var sum := t.accumulator + dt.value;
        if sum >= t.interval then
          TimerStep(true, Some(t.(accumulator := if t.repeat then sum - t.interval else t.interval)))
        else TimerStep(false, Some(t.(accumulator := sum)))
  }

  function Sum(ds: seq<real>): real
  {
    if |ds| == 0 then 0.0 else ds[0] + Sum(ds[1..])
  }

  datatype TimerRun = TimerRun(fires: nat, timer: Timer)

  /** Successive timer condition calls on one payload, the engine's last delta
      being `ds[0]`, then `ds[1]`, and so on. */
  function RunTimer(t: Timer, ds: seq<real>): TimerRun
    decreases |ds|
  {
    if |ds| == 0 then TimerRun(0, t)
    else
      var step := TimerCondition(Some(ds[0]), Some(t));
      var rest := RunTimer(step.timer.value, ds[1..]);
      TimerRun(rest.fires + (if step.fired then 1 else 0), rest.timer)
  }

  /** A repeating timer loses exactly one interval per firing: the time fed in
      equals the time still accumulated plus one interval per firing. */
  lemma {:induction false} RepeatingTimerConservesTime(t: Timer, ds: seq<real>)
    requires t.repeat && t.interval > 0.0
    ensures RunTimer(t, ds).timer.accumulator + (RunTimer(t, ds).fires as real) * t.interval
            == t.accumulator + Sum(ds)
    decreases |ds|
  {
    if |ds| > 0 {
      var step := TimerCondition(Some(ds[0]), Some(t));
      RepeatingTimerConservesTime(step.timer.value, ds[1..]);
      var rest := RunTimer(step.timer.value, ds[1..]);
      if step.fired {
        assert ((rest.fires + 1) as real) * t.interval == (rest.fires as real) * t.interval + t.interval;
      }
    }
  }

  /** With no delta above the interval, a repeating timer's accumulator stays in [0, interval). */
  lemma {:induction false} RepeatingTimerStaysBelowInterval(t: Timer, ds: seq<real>)
    requires t.repeat && t.interval > 0.0 && 0.0 <= t.accumulator < t.interval
    requires forall k | 0 <= k < |ds| :: 0.0 <= ds[k] <= t.interval
    ensures 0.0 <= RunTimer(t, ds).timer.accumulator < t.interval
    ensures RunTimer(t, ds).timer.interval == t.interval && RunTimer(t, ds).timer.repeat
    decreases |ds|
  {
    if |ds| > 0 {
      var step := TimerCondition(Some(ds[0]), Some(t));
      RepeatingTimerStaysBelowInterval(step.timer.value, ds[1..]);
    }
  }

  /** A repeating timer fires once per whole interval elapsed: after the calls,
      the number of firings is the number of intervals in the accumulated time. */
  lemma RepeatingTimerCountsIntervals(t: Timer, ds: seq<real>)
    requires t.repeat && t.interval > 0.0 && 0.0 <= t.accumulator < t.interval
    requires forall k | 0 <= k < |ds| :: 0.0 <= ds[k] <= t.interval
    ensures var n := RunTimer(t, ds).fires as real;
            n * t.interval <= t.accumulator + Sum(ds) < (n + 1.0) * t.interval
  {
    RepeatingTimerConservesTime(t, ds);
    RepeatingTimerStaysBelowInterval(t, ds);
  }

  /** A non-repeating timer that has fired stays at its interval and answers
      true on every later call with a non-negative delta. */
  lemma {:induction false} FiredOneShotTimerLatches(t: Timer, ds: seq<real>)
    requires !t.repeat && t.interval > 0.0 && t.accumulator == t.interval
    requires forall k | 0 <= k < |ds| :: 0.0 <= ds[k]
    ensures RunTimer(t, ds) == TimerRun(|ds|, t)
    decreases |ds|
  {
    if |ds| > 0 {
      FiredOneShotTimerLatches(t, ds[1..]);
    }
  }

  /** `nutmeg_action_integrate`: moves the object along its velocity for one delta. */
  function ActionIntegrate(dt: Option<real>, obj: Option<Object>): (r: Option<Object>)
    ensures dt.None? || obj.None? ==> r == obj
    ensures dt.Some? && obj.Some? ==>
      && r.Some? && r.value.velocity == obj.value.velocity
      && r.value.position == Add(obj.value.position, Scale(obj.value.velocity, dt.value))
      && r.value == obj.value.(position := r.value.position)
  {
    if dt.None? || obj.None? then obj
    else
      var o := obj.value;
      Some(o.(position := Add(o.position, Scale(o.velocity, dt.value))))
  }

  /** `nutmeg_action_accelerate`: changes the velocity by the acceleration over one delta. */
  function ActionAccelerate(dt: Option<real>, obj: Option<Object>, acceleration: Option<Vec2>): (r: Option<Object>)
    ensures dt.None? || obj.None? || acceleration.None? ==> r == obj
    ensures dt.Some? && obj.Some? && acceleration.Some? ==>
      && r.Some? && r.value.position == obj.value.position
      && r.value.velocity == Add(obj.value.velocity, Scale(acceleration.value, dt.value))
      && r.value == obj.value.(velocity := r.value.velocity)
  {
    if dt.None? || obj.None? || acceleration.None? then obj
    else
      var o := obj.value;
      Some(o.(velocity := Add(o.velocity, Scale(acceleration.value, dt.value))))
  }

  /** `nutmeg_action_add_velocity`: adds the payload's delta to the velocity. */
  function ActionAddVelocity(obj: Option<Object>, change: Option<Vec2>): (r: Option<Object>)
    ensures obj.None? || change.None? ==> r == obj
    ensures obj.Some? && change.Some? ==>
      && r.Some? && r.value.position == obj.value.position
      && r.value.velocity == Add(obj.value.velocity, change.value)
      && r.value == obj.value.(velocity := r.value.velocity)
  {
    if obj.None? || change.None? then obj
    else Some(obj.value.(velocity := Add(obj.value.velocity, change.value)))
  }

  /** `nutmeg_action_translate`: adds the payload's delta to the position. */
  function ActionTranslate(obj: Option<Object>, translation: Option<Vec2>): (r: Option<Object>)
    ensures obj.None? || translation.None? ==> r == obj
    ensures obj.Some? && translation.Some? ==>
      && r.Some? && r.value.velocity == obj.value.velocity
      && r.value.position == Add(obj.value.position, translation.value)
      && r.value == obj.value.(position := r.value.position)
  {
    if obj.None? || translation.None? then obj
    else Some(obj.value.(position := Add(obj.value.position, translation.value)))
  }

  /** `nutmeg_action_debug_print`: console output only, no state change. */
  function ActionDebugPrint(obj: Option<Object>, message: Option<string>): (r: Option<Object>)
    ensures r == obj
  {
    obj
  }

  /** `n` integrations with the same delta. */
  function IntegrateTimes(o: Object, dt: real, n: nat): Object
    decreases n
  {
    if n == 0 then o else IntegrateTimes(ActionIntegrate(Some(dt), Some(o)).value, dt, n - 1)
  }

  /** Integrating `n` times with delta `dt` moves the object by `n * dt` times its
      unchanged velocity. */
  lemma {:induction false} IntegrateTimesMovesLinearly(o: Object, dt: real, n: nat)
    ensures IntegrateTimes(o, dt, n) == o.(position := Add(o.position, Scale(o.velocity, (n as real) * dt)))
    decreases n
  {
    if n > 0 {
      var o1 := ActionIntegrate(Some(dt), Some(o)).value;
      IntegrateTimesMovesLinearly(o1, dt, n - 1);
      var m := ((n - 1) as real) * dt;
      assert o.velocity.x * dt + o.velocity.x * m == o.velocity.x * ((n as real) * dt);
      assert o.velocity.y * dt + o.velocity.y * m == o.velocity.y * ((n as real) * dt);
    }
  }
}
