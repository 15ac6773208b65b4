/**
  Events: a scope, a once flag with its triggered state, and ordered lists of
  conditions and actions. The callback/payload pairs of the C API become the
  closed variants below.
 */
module Events {
  import opened Wrappers
  import opened Vectors
  import opened Names
  import Growth

  /** Identity of a timer payload; conditions naming the same id share one timer. */
  type PayloadId = nat

  datatype Scope = GlobalScope | SceneScope | ObjectsScope

  datatype Condition =
    | TimerElapsed(payload: PayloadId)   // nutmeg_condition_timer
    | NameEquals(filter: Option<CStr>)   // a user predicate on the object's name
    | Constant(value: bool)              // a user predicate with a fixed answer

  datatype Action =
    | Integrate                              // nutmeg_action_integrate
    | Accelerate(acceleration: Option<Vec2>) // nutmeg_action_accelerate
    | AddVelocity(change: Option<Vec2>)      // nutmeg_action_add_velocity
    | Translate(translation: Option<Vec2>)   // nutmeg_action_translate
    | DebugPrint(message: Option<string>)    // nutmeg_action_debug_print

  datatype Event = Event(
    name: Option<string>,
    scope: Scope,
    once: bool,
    triggered: bool,
    conditions: seq<Condition>,
    conditionCapacity: nat,
    actions: seq<Action>,
    actionCapacity: nat)

  /** Both lists fit their allocated arrays. */
  ghost predicate Valid(ev: Event)
  {
    |ev.conditions| <= ev.conditionCapacity && |ev.actions| <= ev.actionCapacity
  }

  /** `nutmeg_event_make`. */
  function MakeEvent(name: Option<string>, scope: Scope, once: bool): (ev: Event)
    ensures ev.name == name && ev.scope == scope && ev.once == once
    ensures !ev.triggered && ev.conditions == [] && ev.actions == []
    ensures Valid(ev)
  {
    Event(name, scope, once, false, [], 0, [], 0)
  }

  /** `nutmeg_event_add_condition`; a null callback is `None`. */
  function AddCondition(ev: Event, condition: Option<Condition>): (r: Event)
    ensures condition.None? ==> r == ev
    ensures condition.Some? ==> r.conditions == ev.conditions + [condition.value]
    ensures r == ev.(conditions := r.conditions, conditionCapacity := r.conditionCapacity)
    ensures Valid(ev) ==> Valid(r)
  {
    match condition
    case None => ev
    case Some(c) =>
      ev.(conditions := ev.conditions + [c],
          conditionCapacity := Growth.Grow(ev.conditionCapacity, |ev.conditions| + 1))
  }

  /** `nutmeg_event_add_action`; a null callback is `None`. */
  function AddAction(ev: Event, action: Option<Action>): (r: Event)
    ensures action.None? ==> r == ev
    ensures action.Some? ==> r.actions == ev.actions + [action.value]
    ensures r == ev.(actions := r.actions, actionCapacity := r.actionCapacity)
    ensures Valid(ev) ==> Valid(r)
  {
    match action
    case None => ev
    case Some(a) =>
      ev.(actions := ev.actions + [a],
          actionCapacity := Growth.Grow(ev.actionCapacity, |ev.actions| + 1))
  }

  /** `nutmeg_event_reset`: clears the triggered state and nothing else. */
  function Reset(ev: Event): (r: Event)
    ensures !r.triggered && r.once == ev.once
    ensures r.(triggered := ev.triggered) == ev
  {
    ev.(triggered := false)
  }

  /** Whether dispatch skips the event: a once-event that has already fired. */
  predicate Spent(ev: Event)
  {
    ev.once && ev.triggered
  }
}
