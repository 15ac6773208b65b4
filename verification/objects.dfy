/**
  The object store of a scene: a growable array of objects, an id counter
  that starts at 1, spawn by appending and destroy by swap-with-last.
 */
module Objects {
  import opened Wrappers
  import opened Vectors
  import opened Names
  import Growth

  type ObjectId = nat

  /** The first id a scene hands out. */
  const FirstId: ObjectId := 1

  datatype Object = Object(id: ObjectId, alive: bool, name: CStr, position: Vec2, velocity: Vec2)

  /** The objects of one scene in storage order, the allocated capacity of
      their array and the scene's next object id. */
  datatype Store = Store(objects: seq<Object>, capacity: nat, nextId: ObjectId)

  const EmptyStore: Store := Store([], 0, FirstId)

  /** No two stored objects share an id. */
  ghost predicate UniqueIds(objects: seq<Object>)
  {
    forall i, j | 0 <= i < j < |objects| :: objects[i].id != objects[j].id
  }

  /** Every id in use was handed out already, ids are distinct, and the array fits its capacity. */
  ghost predicate Valid(st: Store)
  {
    && |st.objects| <= st.capacity
    && FirstId <= st.nextId
    && (forall i | 0 <= i < |st.objects| :: FirstId <= st.objects[i].id < st.nextId)
    && UniqueIds(st.objects)
  }

  /** The object `nutmeg_scene_spawn_object` creates for the given id and name. */
  function NewObject(id: ObjectId, name: Option<CStr>): Object
  {
    Object(id, true, StoreName(name), Zero, Zero)
  }

  datatype Spawned = Spawned(store: Store, obj: Object)

  function Spawn(st: Store, name: Option<CStr>): (r: Spawned)
    ensures r.obj.id == st.nextId && r.store.nextId == st.nextId + 1
    ensures r.store.objects == st.objects + [r.obj]
    ensures r.obj.alive && r.obj.position == Zero && r.obj.velocity == Zero
    ensures r.obj.name == StoreName(name)
    ensures |r.store.objects| <= r.store.capacity && st.capacity <= r.store.capacity
    ensures Valid(st) ==> Valid(r.store)
    ensures Valid(st) ==> forall i | 0 <= i < |st.objects| :: st.objects[i].id < r.obj.id
  {
    var created := NewObject(st.nextId, name);
    var capacity := Growth.Grow(st.capacity, |st.objects| + 1);
    Spawned(Store(st.objects + [created], capacity, st.nextId + 1), created)
  }

  /** The first storage slot, at or after `from`, holding the object with id `id`. */
  function IndexFrom(objects: seq<Object>, id: ObjectId, from: nat): (r: Option<nat>)
    requires from <= |objects|
    ensures r.Some? ==> from <= r.value < |objects| && objects[r.value].id == id
    ensures forall j | from <= j < |objects| && (r.None? || j < r.value) :: objects[j].id != id
    decreases |objects| - from
  {
    if from == |objects| then None
    else if objects[from].id == id then Some(from)
    else IndexFrom(objects, id, from + 1)
  }

  function IndexOf(objects: seq<Object>, id: ObjectId): Option<nat>
  {
    IndexFrom(objects, id, 0)
  }

  lemma SwapRemoveMultiset<T>(s: seq<T>, index: nat)
    requires index < |s|
    ensures multiset(s[index := s[|s| - 1]][..|s| - 1]) == multiset(s) - multiset{s[index]}
  {
    var last := |s| - 1;
    assert s == s[..last] + [s[last]];
    if index < last {
      assert s[index := s[last]][..last] == s[..last][index := s[last]];
    } else {
      assert s[index := s[last]][..last] == s[..last];
    }
  }

  /** `nutmeg_scene_remove_object`: the last object moves into the freed slot. */
  function RemoveAt(st: Store, index: nat): (r: Store)
    ensures index >= |st.objects| ==> r == st
    ensures index < |st.objects| ==>
      && |r.objects| == |st.objects| - 1
      && multiset(r.objects) == multiset(st.objects) - multiset{st.objects[index]}
      && (forall j | 0 <= j < |r.objects| && j != index :: r.objects[j] == st.objects[j])
      && (index < |r.objects| ==> r.objects[index] == st.objects[|st.objects| - 1])
    ensures r.capacity == st.capacity && r.nextId == st.nextId
  {
    if index >= |st.objects| then st
    else
      var last := |st.objects| - 1;
      SwapRemoveMultiset(st.objects, index);
      st.(objects := st.objects[index := st.objects[last]][..last])
  }

  /** `nutmeg_scene_destroy_object`, the object handle being its id. */
  function Destroy(st: Store, target: Option<ObjectId>): (r: Store)
    ensures target.None? ==> r == st
    ensures target.Some? && IndexOf(st.objects, target.value).None? ==> r == st
    ensures target.Some? && IndexOf(st.objects, target.value).Some? ==>
      var i := IndexOf(st.objects, target.value).value;
      |r.objects| == |st.objects| - 1 && multiset(r.objects) == multiset(st.objects) - multiset{st.objects[i]}
    ensures r.capacity == st.capacity && r.nextId == st.nextId
  {
    match target
    case None => st
    case Some(id) =>
      match IndexOf(st.objects, id)
      case None => st
      case Some(i) => RemoveAt(st, i)
  }

  lemma UniqueIdsSubset(a: seq<Object>, b: seq<Object>)
    requires UniqueIds(a)
    requires multiset(b) <= multiset(a)
    ensures UniqueIds(b)
  {
    forall i, j | 0 <= i < j < |b|
      ensures b[i].id != b[j].id
    {
      assert b[i] in multiset(a) && b[j] in multiset(a);
      if b[i] == b[j] {
        assert b == b[..j] + b[j..];
        assert b[i] in b[..j] && b[j] in b[j..];
        assert multiset(b)[b[i]] == multiset(b[..j])[b[i]] + multiset(b[j..])[b[i]];
        DuplicateSlots(a, b[i]);
      } else {
        var x :| 0 <= x < |a| && a[x] == b[i];
        var y :| 0 <= y < |a| && a[y] == b[j];
        if x < y { assert a[x].id != a[y].id; } else { assert a[y].id != a[x].id; }
      }
    }
  }

  /** A value occurring twice in a sequence sits in two different slots. */
  lemma DuplicateSlots(a: seq<Object>, v: Object)
    requires multiset(a)[v] >= 2
    ensures exists x, y :: 0 <= x < y < |a| && a[x] == v && a[y] == v
  {
    var x :| 0 <= x < |a| && a[x] == v;
    assert a == a[..x] + [a[x]] + a[x + 1..];
    if v in a[..x] {
      var y :| 0 <= y < x && a[..x][y] == v;
      assert a[y] == v;
    } else {
      assert multiset(a[x + 1..])[v] >= 1;
      var y :| 0 <= y < |a[x + 1..]| && a[x + 1..][y] == v;
      assert a[x + 1 + y] == v;
    }
  }

  /** In a store with distinct ids, the search by an object's id finds that object. */
  lemma IndexOfFindsObject(objects: seq<Object>, o: Object)
    requires UniqueIds(objects) && o in objects
    ensures IndexOf(objects, o.id).Some? && objects[IndexOf(objects, o.id).value] == o
  {
    var x :| 0 <= x < |objects| && objects[x] == o;
    assert objects[x].id == o.id;
    var k := IndexOf(objects, o.id).value;
    assert objects[k].id == objects[x].id;
  }

  /** In a store with distinct ids, every stored object occurs once. */
  lemma OccursOnce(objects: seq<Object>, o: Object)
    requires UniqueIds(objects) && o in objects
    ensures multiset(objects)[o] == 1
  {
    if multiset(objects)[o] >= 2 {
      DuplicateSlots(objects, o);
    }
  }

  /** Removing one occurrence of `o` from a sequence where it occurs once
      keeps exactly the other elements. */
  lemma RemovedOnce(a: seq<Object>, b: seq<Object>, o: Object)
    requires multiset(a)[o] == 1 && multiset(b) == multiset(a) - multiset{o}
    ensures o !in b
    ensures forall p | p in b :: p in a
    ensures forall p | p in a && p != o :: p in b
  {
    forall p | p in b
      ensures p in a
    {
      assert p in multiset(b);
    }
    forall p | p in a && p != o
      ensures p in b
    {
      assert p in multiset(a);
      assert p in multiset(b);
    }
    assert o !in multiset(b);
  }

  /** Destroying an object of a valid store removes exactly that object;
      every other object survives with its id, and the store stays valid. */
  lemma DestroyRemovesExactly(st: Store, o: Object)
    requires Valid(st) && o in st.objects
    ensures var r := Destroy(st, Some(o.id));
      && multiset(r.objects) == multiset(st.objects) - multiset{o}
      && o !in r.objects
      && (forall p | p in st.objects && p != o :: p in r.objects)
      && Valid(r)
  {
    IndexOfFindsObject(st.objects, o);
    OccursOnce(st.objects, o);
    var r := Destroy(st, Some(o.id));
    RemovedOnce(st.objects, r.objects, o);
    UniqueIdsSubset(st.objects, r.objects);
    assert forall i | 0 <= i < |r.objects| :: r.objects[i] in st.objects;
  }

  /** A second destroy of the same object changes nothing. */
  lemma DestroyTwiceIsDestroyOnce(st: Store, o: Object)
    requires Valid(st) && o in st.objects
    ensures Destroy(Destroy(st, Some(o.id)), Some(o.id)) == Destroy(st, Some(o.id))
  {
    DestroyRemovesExactly(st, o);
    var r := Destroy(st, Some(o.id));
    forall j | 0 <= j < |r.objects|
      ensures r.objects[j].id != o.id
    {
      var p := r.objects[j];
      assert p in multiset(r.objects);
      assert p in multiset(st.objects);
      DistinctObjectsDistinctIds(st.objects, p, o);
    }
  }

  /** Two different objects of a sequence with unique ids have different ids. */
  lemma DistinctObjectsDistinctIds(objects: seq<Object>, p: Object, q: Object)
    requires UniqueIds(objects) && p in objects && q in objects && p != q
    ensures p.id != q.id
  {
    var x :| 0 <= x < |objects| && objects[x] == p;
    var y :| 0 <= y < |objects| && objects[y] == q;
    assert x < y || y < x;
  }

  /** Spawning one object per name, in order. */
  function SpawnAll(st: Store, names: seq<Option<CStr>>): Store
    decreases |names|
  {
    if |names| == 0 then st else SpawnAll(Spawn(st, names[0]).store, names[1..])
  }

  /** Successive spawns append objects whose ids count up from the scene's next id,
      so a fresh scene numbers its objects 1, 2, 3, ... */
  lemma {:induction false} SpawnAllCountsUp(st: Store, names: seq<Option<CStr>>)
    ensures var r := SpawnAll(st, names);
            && |r.objects| == |st.objects| + |names|
            && r.objects[..|st.objects|] == st.objects
            && (forall k | |st.objects| <= k < |r.objects| :: r.objects[k].id == st.nextId + (k - |st.objects|))
            && r.nextId == st.nextId + |names|
    decreases |names|
  {
    if |names| > 0 {
      var s1 := Spawn(st, names[0]).store;
      SpawnAllCountsUp(s1, names[1..]);
      var r := SpawnAll(st, names);
      assert r.objects[..|st.objects|] == s1.objects[..|st.objects|];
      assert r.objects[|st.objects|] == s1.objects[|st.objects|];
    }
  }
}
