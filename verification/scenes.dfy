/** A scene: its name, its object store and its events in registration order. */
module Scenes {
  import opened Wrappers
  import opened Names
  import Objects
  import Events
  import Growth

  datatype Scene = Scene(name: CStr, store: Objects.Store, events: seq<Events.Event>, eventCapacity: nat)

  ghost predicate Valid(s: Scene)
  {
    && |s.name| <= MaxNameLength
    && Objects.Valid(s.store)
    && |s.events| <= s.eventCapacity
    && forall k | 0 <= k < |s.events| :: Events.Valid(s.events[k])
  }

  /** `nutmeg_scene_create`: an empty scene whose ids start at 1. */
  function SceneCreate(name: Option<CStr>): (s: Scene)
    ensures s.name == StoreName(name)
    ensures s.store.objects == [] && s.store.nextId == Objects.FirstId && s.events == []
    ensures Valid(s)
  {
    Scene(StoreName(name), Objects.EmptyStore, [], 0)
  }

  /** `nutmeg_scene_add_event` on a scene: the scene keeps its own copy of the event. */
  function AddEvent(s: Scene, ev: Events.Event): (r: Scene)
    ensures r.events == s.events + [ev]
    ensures r.name == s.name && r.store == s.store
    ensures Valid(s) && Events.Valid(ev) ==> Valid(r)
  {
    s.(events := s.events + [ev], eventCapacity := Growth.Grow(s.eventCapacity, |s.events| + 1))
  }
}
