/**
  The engine: the scene registry with its active scene, the object and event
  entry points that take a scene, and the tick. A scene is referred to by its
  position in the registry, which never changes since scenes are never removed;
  `None` stands for a null scene.
 */
module Engine {
  import opened Wrappers
  import opened Names
  import opened Objects
  import opened Events
  import opened Scenes
  import opened Dispatch
  import opened MetricsEstimator
  import Growth

  type SceneRef = nat

  datatype Engine = Engine(
    scenes: seq<Scene>,
    sceneCapacity: nat,
    active: Option<SceneRef>,
    time: real,
    lastDelta: real,
    metrics: Metrics,
    gpuPhase: real)

  /** The active scene, when there is one, is a registered scene. */
  predicate ActiveInRange(e: Engine)
  {
    e.active.Some? ==> e.active.value < |e.scenes|
  }

  /** A non-null scene handle names a registered scene. */
  predicate SceneInRange(e: Engine, scene: Option<SceneRef>)
  {
    scene.Some? ==> scene.value < |e.scenes|
  }

  ghost predicate Valid(e: Engine)
  {
    && |e.scenes| <= e.sceneCapacity
    && ActiveInRange(e)
    && (forall i | 0 <= i < |e.scenes| :: Scenes.Valid(e.scenes[i]))
    && Bounded(e.metrics)
  }

  /** `nutmeg_engine_create`. */
  function Create(): (e: Engine)
    ensures e.scenes == [] && e.active.None? && e.time == 0.0 && e.lastDelta == 0.0
    ensures Valid(e)
  {
    Engine([], 0, None, 0.0, 0.0, NoLoad, 0.0)
  }

  datatype Added = Added(engine: Engine, scene: SceneRef)

  /** `nutmeg_engine_add_scene`. */
  function AddScene(e: Engine, name: Option<CStr>): (r: Added)
    ensures r.engine.scenes == e.scenes + [SceneCreate(name)] && r.scene == |e.scenes|
    ensures r.engine.active == (if e.active.None? then Some(r.scene) else e.active)
    ensures r.engine == e.(scenes := r.engine.scenes, sceneCapacity := r.engine.sceneCapacity, active := r.engine.active)
    ensures Valid(e) ==> Valid(r.engine)
  {
    var scenes := e.scenes + [SceneCreate(name)];
    var capacity := Growth.Grow(e.sceneCapacity, |e.scenes| + 1);
    var active := if e.active.None? then Some(|e.scenes|) else e.active;
    Added(e.(scenes := scenes, sceneCapacity := capacity, active := active), |e.scenes|)
  }

  function FindFrom(scenes: seq<Scene>, name: CStr, from: nat): (r: Option<SceneRef>)
    requires from <= |scenes|
    ensures r.Some? ==> from <= r.value < |scenes| && StrNEqual(scenes[r.value].name, name, NameBufferSize)
    ensures forall j | from <= j < |scenes| && (r.None? || j < r.value) :: !StrNEqual(scenes[j].name, name, NameBufferSize)
    decreases |scenes| - from
  {
    if from == |scenes| then None
    else if StrNEqual(scenes[from].name, name, NameBufferSize) then Some(from)
    else FindFrom(scenes, name, from + 1)
  }

  /** `nutmeg_engine_find_scene`: the first registered scene whose stored name
      compares equal over 64 bytes. */
  function FindScene(e: Engine, name: Option<CStr>): (r: Option<SceneRef>)
    ensures name.None? ==> r.None?
    ensures r.Some? ==> r.value < |e.scenes| && StrNEqual(e.scenes[r.value].name, name.value, NameBufferSize)
    ensures name.Some? ==> forall j | 0 <= j < |e.scenes| && (r.None? || j < r.value) ::
                             !StrNEqual(e.scenes[j].name, name.value, NameBufferSize)
  {
    match name
    case None => None
    case Some(n) => FindFrom(e.scenes, n, 0)
  }

  /** In a valid engine the lookup is by exact stored name: it returns the first
      scene whose name is the query, and "not found" when none has it. */
  lemma FindSceneIsFirstExactMatch(e: Engine, name: CStr)
    requires Valid(e)
    ensures var r := FindScene(e, Some(name));
            && (r.Some? ==> e.scenes[r.value].name == name)
            && (forall j | 0 <= j < |e.scenes| && (r.None? || j < r.value) :: e.scenes[j].name != name)
  {
    forall j | 0 <= j < |e.scenes|
      ensures StrNEqual(e.scenes[j].name, name, NameBufferSize) <==> e.scenes[j].name == name
    {
      assert Scenes.Valid(e.scenes[j]);
      StrNEqualFits(e.scenes[j].name, name, NameBufferSize);
    }
  }

  /** A query of 64 characters or more is never found: stored names keep at most 63. */
  lemma LongNameIsNeverFound(e: Engine, name: CStr)
    requires Valid(e) && |name| > MaxNameLength
    ensures FindScene(e, Some(name)).None?
  {
    FindSceneIsFirstExactMatch(e, name);
  }

  /** A scene added under a fresh name of at most 63 characters is found under it. */
  lemma AddedSceneIsFound(e: Engine, name: CStr)
    requires Valid(e) && |name| <= MaxNameLength
    requires forall j | 0 <= j < |e.scenes| :: e.scenes[j].name != name
    ensures var a := AddScene(e, Some(name));
            FindScene(a.engine, Some(name)) == Some(a.scene)
  {
    var a := AddScene(e, Some(name));
    FindSceneIsFirstExactMatch(a.engine, name);
    assert a.engine.scenes[a.scene].name == name;
  }

  datatype Activation = Activation(engine: Engine, ok: bool)

  /** `nutmeg_engine_set_active_scene`; a null name clears the active scene. */
  function SetActiveScene(e: Engine, name: Option<CStr>): (r: Activation)
    ensures name.None? ==> r.ok && r.engine == e.(active := None)
    ensures !r.ok ==> r.engine == e
    ensures r.ok ==> r.engine == e.(active := r.engine.active)
    ensures name.Some? ==> (r.ok <==> FindScene(e, name).Some?)
    ensures Valid(e) ==> Valid(r.engine)
  {
    match name
    case None => Activation(e.(active := None), true)
    case Some(n) =>
      match FindScene(e, name)
      case None => Activation(e, false)
      case Some(i) => Activation(e.(active := Some(i)), true)
  }

  /** Activating by name selects a scene stored under exactly that name, or
      fails when no scene has it and then leaves the engine unchanged. */
  lemma SetActiveSceneSelectsNamedScene(e: Engine, name: CStr)
    requires Valid(e)
    ensures var r := SetActiveScene(e, Some(name));
            && (r.ok ==> r.engine.active.Some? && e.scenes[r.engine.active.value].name == name)
            && (!r.ok ==> r.engine == e && forall j | 0 <= j < |e.scenes| :: e.scenes[j].name != name)
  {
    FindSceneIsFirstExactMatch(e, name);
  }

  /** `nutmeg_engine_get_active_scene`: the scene last made active, possibly none. */
  function GetActiveScene(e: Engine): (r: Option<SceneRef>)
    ensures ActiveInRange(e) && r.Some? ==> r.value < |e.scenes|
    ensures r == e.active
  {
    e.active
  }

  /** The active scene is the one the last successful activation named, the
      first scene added to an engine without one, and none after clearing. */
  lemma ActiveSceneFollowsActivation(e: Engine, name: Option<CStr>, added: Option<CStr>)
    ensures var r := SetActiveScene(e, name);
            && (r.ok ==> GetActiveScene(r.engine) == FindScene(e, name))
            && (!r.ok ==> GetActiveScene(r.engine) == GetActiveScene(e))
    ensures var a := AddScene(e, added);
            GetActiveScene(a.engine) == if GetActiveScene(e).None? then Some(a.scene) else GetActiveScene(e)
  {
  }

  datatype SpawnResult = SpawnResult(engine: Engine, obj: Option<Object>)

  /** `nutmeg_scene_spawn_object`. */
  function SpawnObject(e: Engine, scene: Option<SceneRef>, name: Option<CStr>): (r: SpawnResult)
    requires SceneInRange(e, scene)
    ensures scene.None? ==> r == SpawnResult(e, None)
    ensures |r.engine.scenes| == |e.scenes|
    ensures scene.Some? ==>
      var before := e.scenes[scene.value].store;
      var after := r.engine.scenes[scene.value].store;
      && r.obj.Some? && r.obj.value.id == before.nextId && after.nextId == before.nextId + 1
      && after.objects == before.objects + [r.obj.value]
      && r.engine == e.(scenes := e.scenes[scene.value := e.scenes[scene.value].(store := after)])
    ensures Valid(e) ==> Valid(r.engine)
  {
    match scene
    case None => SpawnResult(e, None)
    case Some(i) =>
      var s := Spawn(e.scenes[i].store, name);
      SpawnResult(e.(scenes := e.scenes[i := e.scenes[i].(store := s.store)]), Some(s.obj))
  }

  /** `nutmeg_scene_destroy_object`, the object handle being its id. */
  function DestroyObject(e: Engine, scene: Option<SceneRef>, target: Option<ObjectId>): (r: Engine)
    requires SceneInRange(e, scene)
    ensures scene.None? || target.None? ==> r == e
    ensures scene.Some? ==>
      r == e.(scenes := e.scenes[scene.value := e.scenes[scene.value].(store := Destroy(e.scenes[scene.value].store, target))])
    ensures Valid(e) ==> Valid(r)
  {
    match scene
    case None => e
    case Some(i) =>
      var s := e.scenes[i];
      var st := Destroy(s.store, target);
      assert Valid(e) ==> Valid(e.(scenes := e.scenes[i := s.(store := st)])) by {
        if Valid(e) && target.Some? {
          var idx := IndexOf(s.store.objects, target.value);
          if idx.Some? {
            DestroyRemovesExactly(s.store, s.store.objects[idx.value]);
          }
        }
      }
      e.(scenes := e.scenes[i := s.(store := st)])
  }

  /** An object's id is stable: spawning, or destroying another object, keeps
      every stored object, id included. */
  lemma SurvivorsKeepTheirIds(e: Engine, scene: SceneRef, o: Object, name: Option<CStr>, target: Option<ObjectId>)
    requires Valid(e) && scene < |e.scenes| && o in e.scenes[scene].store.objects
    requires target != Some(o.id)
    ensures o in SpawnObject(e, Some(scene), name).engine.scenes[scene].store.objects
    ensures o in DestroyObject(e, Some(scene), target).scenes[scene].store.objects
  {
    var st := e.scenes[scene].store;
    assert Scenes.Valid(e.scenes[scene]);
    if target.Some? && IndexOf(st.objects, target.value).Some? {
      var victim := st.objects[IndexOf(st.objects, target.value).value];
      DestroyRemovesExactly(st, victim);
    }
  }

  /** `nutmeg_scene_add_event`: the scene receives its own copy of the event. */
  function AddEvent(e: Engine, scene: Option<SceneRef>, ev: Event): (r: Engine)
    requires SceneInRange(e, scene)
    ensures scene.None? ==> r == e
    ensures |r.scenes| == |e.scenes|
    ensures scene.Some? ==>
      && r.scenes[scene.value].events == e.scenes[scene.value].events + [ev]
      && r.scenes[scene.value].store == e.scenes[scene.value].store
      && r == e.(scenes := e.scenes[scene.value := r.scenes[scene.value]])
    ensures Valid(e) && Events.Valid(ev) ==> Valid(r)
  {
    match scene
    case None => e
    case Some(i) => e.(scenes := e.scenes[i := Scenes.AddEvent(e.scenes[i], ev)])
  }

  /** Clears the triggered flag of event `k` as the scene stores it: the
      reset the header promises for events that were added to a scene.
      Nothing happens for a null scene or an index past the scene's events. */
  function ResetSceneEvent(e: Engine, scene: Option<SceneRef>, k: nat): (r: Engine)
    requires SceneInRange(e, scene)
    ensures scene.None? || k >= |e.scenes[scene.value].events| ==> r == e
    ensures |r.scenes| == |e.scenes|
    ensures scene.Some? && k < |e.scenes[scene.value].events| ==>
      var s := e.scenes[scene.value];
      && r.scenes[scene.value] == s.(events := s.events[k := Reset(s.events[k])])
      && r == e.(scenes := e.scenes[scene.value := r.scenes[scene.value]])
      && !Spent(r.scenes[scene.value].events[k])
    ensures Valid(e) ==> Valid(r)
  {
    match scene
    case None => e
    case Some(i) =>
      if k >= |e.scenes[i].events| then e
      else
        var s := e.scenes[i];
        var r := e.(scenes := e.scenes[i := s.(events := s.events[k := Reset(s.events[k])])]);
        assert Valid(e) ==> Valid(r) by {
          if Valid(e) {
            assert Scenes.Valid(s);
            assert Events.Valid(s.events[k]);
          }
        }
        r
  }

  datatype Listing = Listing(objects: seq<Object>, count: nat)

  /** `nutmeg_scene_objects`: the storage sequence and its length. */
  function SceneObjects(e: Engine, scene: Option<SceneRef>): (r: Listing)
    requires SceneInRange(e, scene)
    ensures r.count == |r.objects|
    ensures scene.None? ==> r.objects == []
    ensures scene.Some? ==> r.objects == e.scenes[scene.value].store.objects
  {
    match scene
    case None => Listing([], 0)
    case Some(i) => Listing(e.scenes[i].store.objects, |e.scenes[i].store.objects|)
  }

  datatype TickResult = TickResult(engine: Engine, timers: Timers, first: seq<Call>, second: seq<Call>)

  /** `nutmeg_engine_tick`: the active scene is dispatched once before and once
      after the metrics update. `cpuTime` is the measured cost of the tick,
      `footprint` the estimated memory in use and `sin` the sine function. */
  function Tick(e: Engine, timers: Timers, delta: real, cpuTime: real, footprint: nat, sin: real -> real): (r: TickResult)
    requires ActiveInRange(e)
    ensures delta < 0.0 ==> r == TickResult(e, timers, [], [])
    ensures delta >= 0.0 ==>
      && r.engine.lastDelta == delta && r.engine.time == e.time + delta
      && r.engine.active == e.active && Bounded(r.engine.metrics)
    ensures delta >= 0.0 && e.active.None? ==> r.engine.scenes == e.scenes && r.timers == timers && r.first == [] && r.second == []
    ensures |r.engine.scenes| == |e.scenes| && r.engine.sceneCapacity == e.sceneCapacity
    ensures forall i | 0 <= i < |e.scenes| && e.active != Some(i) :: r.engine.scenes[i] == e.scenes[i]
    ensures r.timers.Keys == timers.Keys
    ensures Valid(e) ==> Valid(r.engine)
  {
    if delta < 0.0 then TickResult(e, timers, [], [])
    else
      var started := e.(lastDelta := delta, time := e.time + delta);
      var m := UpdateMetrics(e.metrics, e.gpuPhase, cpuTime, delta, footprint, sin);
      match e.active
      case None =>
        TickResult(started.(metrics := m.metrics, gpuPhase := m.phase), timers, [], [])
      case Some(i) =>
        var first := TickScene(e.scenes[i], delta, timers);
        var second := TickScene(first.scene, delta, first.timers);
        TickResult(started.(scenes := e.scenes[i := second.scene], metrics := m.metrics, gpuPhase := m.phase),
                   second.timers, first.calls, second.calls)
  }
}
