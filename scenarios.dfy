/** Concrete runs of the world and the query: slot recycling, an entity with
    only some components, despawning a never-spawned slot, a recycled slot
    beyond `entityCount`, and the unit test in crates/xylux-ecs/src/lib.rs.
    Keys are `int`s standing for component types and component values are
    `int`s standing for their payloads. */
module Scenarios {
  import opened Wrappers
  import opened Entities
  import opened Worlds
  import opened Queries

  const TRANSFORM: int := 0
  const VELOCITY: int := 1

  /** Capacity 10: spawn ids 0..9, despawn id 3, spawn again: slot 3 comes
      back with version 1, and the old handle to slot 3 stays dead. */
  method RecyclingScenario() returns (spawned: seq<Entity>, recycled: Result<Entity, WorldError>, staleAlive: bool)
    ensures |spawned| == 10 && forall i :: 0 <= i < 10 ==> spawned[i] == Entity(i, 0)
    ensures recycled == Ok(Entity(3, 1))
    ensures !staleAlive
  {
    var w := new World<int, int>(10);
    spawned := [];
    while |spawned| < 10
      invariant w.Valid() && w.maxEntities == 10 && w.components == map[]
      invariant w.entityCount == |spawned| <= 10 && w.freeEntities == []
      invariant w.entityVersions == seq(10, _ => 0)
      invariant forall i :: 0 <= i < |spawned| ==> spawned[i] == Entity(i, 0)
    {
      var r := w.SpawnEntity();
      spawned := spawned + [r.value];
    }
    w.DespawnEntity(Entity(3, 0));
    recycled := w.SpawnEntity();
    staleAlive := w.IsAlive(Entity(3, 0));
  }

  /** The unit test of lib.rs: one entity with both components yields exactly
      one pair carrying the inserted values; after a new Velocity is stored
      in its slot, a fresh query sees it. */
  method SpawnAndQueryScenario() returns (first: Option<Item<int>>, next: Option<Item<int>>, later: Option<Item<int>>)
    ensures first == Some(Pair(1, 10)) && next == None
    ensures later == Some(Pair(1, 11))
  {
    var w, e := OneEntityWorld(1000, Some(1), Some(10));
    var shape := TransformVelocity(TRANSFORM, VELOCITY);
    var collected, ended;
    collected, first, next := QueryOneSlot(w, shape);
    assert first == Some(Pair(1, 10));

    var o := w.Insert(e, VELOCITY, 11);
    assert w.Get(TRANSFORM, e) == Some(1) && w.Get(VELOCITY, e) == Some(11);
    collected, later, ended := QueryOneSlot(w, shape);
  }

  /** An entity holding only a Transform is collected by a Transform query
      and not by a Transform-and-Velocity query. */
  method PartialComponentsScenario() returns (pairs: seq<Entity>, singles: seq<Entity>)
    ensures pairs == [] && singles == [Entity(0, 0)]
  {
    var w, e := OneEntityWorld(8, Some(5), None);
    var first, next;
    pairs, first, next := QueryOneSlot(w, TransformVelocity(TRANSFORM, VELOCITY));
    singles, first, next := QueryOneSlot(w, TransformOnly(TRANSFORM));
  }

  /** A world of capacity `capacity` with both component types registered
      and one spawned entity holding the given components. */
  method OneEntityWorld(capacity: nat, transform: Option<int>, velocity: Option<int>) returns (w: World<int, int>, e: Entity)
    requires capacity > 0
    ensures fresh(w) && w.Valid() && w.entityCount == 1
    ensures w.components.Keys == {TRANSFORM, VELOCITY}
    ensures fresh(w.components[TRANSFORM]) && fresh(w.components[VELOCITY])
    ensures e == Entity(0, 0) && e.id < w.maxEntities && w.IsAlive(e)
    ensures w.Get(TRANSFORM, e) == transform && w.Get(VELOCITY, e) == velocity
  {
    w := new World<int, int>(capacity);
    w.RegisterComponent(TRANSFORM, 0);
    w.RegisterComponent(VELOCITY, 0);
    var spawned := w.SpawnEntity();
    e := spawned.value;
    if transform.Some? {
      var o := w.Insert(e, TRANSFORM, transform.value);
    }
    if velocity.Some? {
      var o := w.Insert(e, VELOCITY, velocity.value);
    }
  }

  /** `iter` on a world with one spawned slot, followed by two `next` calls:
      the slot's handle is collected exactly when `fetch` succeeds for it,
      the first call yields that fetch and the second ends the iteration. */
  method QueryOneSlot(w: World<int, int>, shape: Shape<int>) returns (collected: seq<Entity>, first: Option<Item<int>>, next: Option<Item<int>>)
    requires w.Valid() && w.entityCount == 1
    ensures old(collected == if Fetch(w, shape, Entity(0, w.entityVersions[0])).Some? then [Entity(0, w.entityVersions[0])] else [])
    ensures old(first == Fetch(w, shape, Entity(0, w.entityVersions[0]))) && next == None
  {
    ghost var handle := Entity(0, w.entityVersions[0]);
    ghost var fetched := Fetch(w, shape, handle);
    OnlySlotCollected(w, shape);
    var query := new Query(w, shape);
    var it := query.Iter();
    collected := it.entities;
    assert collected == if fetched.Some? then [handle] else [];
    first := it.Next();
    next := it.Next();
  }

  /** On a world with one spawned slot, `Tagged` over the match flags is that
      slot's handle or nothing. */
  lemma OnlySlotCollected<K, T>(w: World<K, T>, shape: Shape<K>)
    requires w.Valid() && w.entityCount == 1
    ensures Tagged(w.entityVersions, Matches(w, shape), 1) ==
      if Fetch(w, shape, Entity(0, w.entityVersions[0])).Some? then [Entity(0, w.entityVersions[0])] else []
  {
  }

  /** `is_alive` compares versions only, so on a fresh world the handle
      {id 0, version 0} counts as alive before slot 0 was ever spawned.
      Despawning it pushes slot 0 on the free stack while `entityCount`
      stays 0, and the next two spawns hand out the same handle twice. */
  method NeverSpawnedDespawnScenario() returns (a: Result<Entity, WorldError>, b: Result<Entity, WorldError>)
    ensures a == b == Ok(Entity(0, 1))
  {
    var w := new World<int, int>(1);
    w.DespawnEntity(Entity(0, 0));
    a := w.SpawnEntity();
    b := w.SpawnEntity();
  }

  /** The same quirk on capacity 2: despawning the never-spawned handle
      {id 1, version 0} and spawning again hands out {id 1, version 1} while
      `entityCount` stays 0. That entity is alive and holds a Transform, yet
      `iter` scans only slots `0..entityCount` and never collects it. */
  method RecycledBeyondCountScenario() returns (spawned: Result<Entity, WorldError>, holds: bool, collected: seq<Entity>)
    ensures spawned == Ok(Entity(1, 1))
    ensures holds
    ensures collected == []
  {
    var w := new World<int, int>(2);
    w.RegisterComponent(TRANSFORM, 0);
    w.DespawnEntity(Entity(1, 0));
    spawned := w.SpawnEntity();
    var e := spawned.value;
    var o := w.Insert(e, TRANSFORM, 7);
    holds := w.HasComponent(e, TRANSFORM);
    var query := new Query(w, TransformOnly(TRANSFORM));
    var it := query.Iter();
    collected := it.entities;
  }
}
