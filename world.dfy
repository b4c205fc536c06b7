/** The ECS world (crates/xylux-ecs/src/world.rs). */
module Worlds {
  import opened Wrappers
  import opened Entities
  import opened Components

  /** The three conditions under which the world's operations panic. */
  datatype WorldError =
    | MaxEntitiesReached      // spawn with no free slot and `entity_count >= max_entities`
    | InvalidEntity           // insert on an entity that is not alive
    | UnregisteredComponent   // insert of a component type that was never registered

  /** The world: a version per slot, a LIFO stack of freed slots, an alive
      bitmask, the high-water `entityCount`, and one storage per component
      type key. The accessors `entity_count` and `capacity` of the source
      are the fields `entityCount` and `maxEntities`. */
  class World<K(==), T> {
    const maxEntities: nat
    var entityCount: nat
    var components: map<K, ComponentStorage<T>>
    var entityVersions: seq<Version>
    var freeEntities: seq<nat>
    var aliveMask: seq<bool>

    ghost predicate Valid()
      reads this, components.Values
    {
      && |entityVersions| == maxEntities
      && |aliveMask| == maxEntities
      && entityCount <= maxEntities
      && (forall i :: 0 <= i < |freeEntities| ==> freeEntities[i] < maxEntities)
      && (forall k :: k in components ==>
            components[k].Valid() && |components[k].bitmask| == maxEntities)
      && (forall k, k' :: k in components && k' in components && k != k' ==>
            components[k] != components[k'])
    }

    /** `World::new`: every version 0, no slot handed out, nothing registered. */
    constructor (maxEntities: nat)
      ensures Valid()
      ensures this.maxEntities == maxEntities && entityCount == 0
      ensures components == map[] && freeEntities == []
      ensures entityVersions == seq(maxEntities, _ => 0)
      ensures aliveMask == seq(maxEntities, _ => false)
    {
      this.maxEntities := maxEntities;
      entityCount := 0;
      components := map[];
      entityVersions := seq(maxEntities, _ => 0);
      freeEntities := [];
      aliveMask := seq(maxEntities, _ => false);
    }

    /** `is_alive`: the handle's version is the slot's current version. The
        alive bitmask is not consulted. */
    predicate IsAlive(entity: Entity)
      reads this
      requires entity.id < |entityVersions|
      ensures IsAlive(entity) <==> entity == Entity(entity.id, entityVersions[entity.id])
    {
      entityVersions[entity.id] == entity.version
    }

    /** `entity_version`: the slot's current version, which is the one
        version that makes a handle to the slot alive. */
    function EntityVersion(id: nat): (v: Version)
      reads this
      requires id < |entityVersions|
      ensures IsAlive(Entity(id, v))
      ensures forall w: Version :: IsAlive(Entity(id, w)) ==> w == v
    {
      entityVersions[id]
    }

    /** `spawn_entity`: pop the most recently freed slot if there is one,
        else hand out slot `entityCount`, or fail when the world is full. */
    method SpawnEntity() returns (r: Result<Entity, WorldError>)
      requires Valid()
      modifies this
      ensures Valid()
      ensures components == old(components) && entityVersions == old(entityVersions)
      ensures old(freeEntities) == [] && old(entityCount) >= maxEntities ==>
        r == Err(MaxEntitiesReached) && unchanged(this)
      ensures old(freeEntities) == [] && old(entityCount) < maxEntities ==>
        && r.Ok? && r.value.id == old(entityCount)
        && entityCount == old(entityCount) + 1 && freeEntities == []
      ensures old(freeEntities) != [] ==>
        && r.Ok? && r.value.id == old(freeEntities)[|old(freeEntities)| - 1]
        && freeEntities == old(freeEntities)[..|old(freeEntities)| - 1]
        && entityCount == old(entityCount)
      ensures r.Ok? ==>
        && r.value.id < maxEntities
        && r.value.version == entityVersions[r.value.id]
        && aliveMask == old(aliveMask)[r.value.id := true]
        && IsAlive(r.value)
      ensures old(entityCount) <= entityCount
    {
      var id: nat;
      if |freeEntities| > 0 {
        id := freeEntities[|freeEntities| - 1];
        freeEntities := freeEntities[..|freeEntities| - 1];
      } else {
        if entityCount >= maxEntities {
          return Err(MaxEntitiesReached);
        }
        id := entityCount;
        entityCount := entityCount + 1;
      }
      aliveMask := aliveMask[id := true];
      r := Ok(Entity(id, entityVersions[id]));
    }

    /** `despawn_entity`: a no-op on a handle that is not alive; otherwise bump
        the slot's version (wrapping), push the slot on the free stack, clear
        its alive bit and its bit in every storage. */
    method DespawnEntity(entity: Entity)
      requires Valid() && entity.id < maxEntities
      modifies this, components.Values
      ensures Valid()
      ensures components == old(components) && entityCount == old(entityCount)
      ensures !old(IsAlive(entity)) ==> unchanged(this) && unchanged(old(components).Values)
      ensures old(IsAlive(entity)) ==>
        && entityVersions == old(entityVersions)[entity.id := NextVersion(old(entityVersions)[entity.id])]
        && freeEntities == old(freeEntities) + [entity.id]
        && aliveMask == old(aliveMask)[entity.id := false]
        && (forall k :: k in components ==>
              components[k].bitmask == old(components[k].bitmask)[entity.id := false])
      ensures forall k :: k in components ==> components[k].data == old(components[k].data)
      ensures !IsAlive(entity)
      ensures forall k :: Get(k, entity) == None && !HasComponent(entity, k)
    {
      if !IsAlive(entity) {
        return;
      }
      entityVersions := entityVersions[entity.id := NextVersion(entityVersions[entity.id])];
      freeEntities := freeEntities + [entity.id];
      aliveMask := aliveMask[entity.id := false];

      var keys := components.Keys;
      while keys != {}
        invariant keys <= components.Keys
        invariant forall k :: k in components && k !in keys ==>
          components[k].bitmask == old(components[k].bitmask)[entity.id := false]
        invariant forall k :: k in keys ==> components[k].bitmask == old(components[k].bitmask)
        invariant forall k :: k in components ==>
          components[k].data == old(components[k].data) && components[k].Valid()
        modifies components.Values
        decreases keys
      {
        var k :| k in keys;
        components[k].Remove(entity.id);
        keys := keys - {k};
      }
    }

    /** `register_component`: a type that already has a storage keeps it and
        its data; otherwise it gets a new storage sized to `maxEntities`. */
    method RegisterComponent(key: K, fill: T)
      requires Valid()
      modifies this
      ensures Valid()
      ensures entityCount == old(entityCount) && entityVersions == old(entityVersions)
      ensures freeEntities == old(freeEntities) && aliveMask == old(aliveMask)
      ensures key in old(components) ==> components == old(components)
      ensures key !in old(components) ==>
        && key in components && components == old(components)[key := components[key]]
        && fresh(components[key])
        && components[key].fill == fill
        && components[key].data == seq(maxEntities, _ => fill)
        && forall e :: !components[key].Has(e)
    {
      if key !in components {
        var storage := new ComponentStorage(maxEntities, fill);
        components := components[key := storage];
      }
    }

    /** `insert`: fails on a dead entity, then on an unregistered type;
        otherwise stores the value in that type's storage. */
    method Insert(entity: Entity, key: K, component: T) returns (o: Outcome<WorldError>)
      requires Valid() && entity.id < maxEntities
      modifies components.Values
      ensures Valid()
      ensures !IsAlive(entity) ==> o == Fail(InvalidEntity) && unchanged(components.Values)
      ensures IsAlive(entity) && key !in components ==>
        o == Fail(UnregisteredComponent) && unchanged(components.Values)
      ensures IsAlive(entity) && key in components ==>
        && o == Pass
        && Get(key, entity) == Some(component)
        && |components[key].data| == old(|components[key].data|)
        && (forall j :: 0 <= j < |components[key].data| && j != entity.id ==>
              components[key].data[j] == old(components[key].data)[j])
        && (forall j :: j != entity.id ==>
              components[key].Has(j) == old(components[key].Has(j)) &&
              components[key].Get(j) == old(components[key].Get(j)))
        && (forall k :: k in components && k != key ==> unchanged(components[k]))
    {
      if !IsAlive(entity) {
        return Fail(InvalidEntity);
      }
      if key !in components {
        return Fail(UnregisteredComponent);
      }
      components[key].Insert(entity.id, component);
      o := Pass;
    }

    /** `get` (and the value read through `get_mut`): nothing for a dead
        entity or an unregistered type, else what the storage holds. */
    function Get(key: K, entity: Entity): (r: Option<T>)
      reads this, components.Values
      requires entity.id < |entityVersions|
      ensures r.Some? <==> IsAlive(entity) && key in components && components[key].Get(entity.id).Some?
      ensures r.Some? ==> r == components[key].Get(entity.id)
    {
      if !IsAlive(entity) then None
      else if key in components then components[key].Get(entity.id)
      else None
    }

    /** `has_component`: the entity is alive and the type's bit is set. */
    predicate HasComponent(entity: Entity, key: K)
      reads this, components.Values
      requires entity.id < |entityVersions|
      ensures Valid() ==> (HasComponent(entity, key) <==> Get(key, entity).Some?)
    {
      IsAlive(entity) && key in components && components[key].Has(entity.id)
    }

    /** `entities_with_component`: nothing for an unregistered type; else
        every slot whose bit is set, ascending, with its current version. */
    function EntitiesWithComponent(key: K): (r: Option<seq<Entity>>)
      reads this, components.Values
      requires Valid()
      ensures r.None? <==> key !in components
      ensures r.Some? ==> forall e :: e in r.value <==>
        e.id < maxEntities && components[key].Has(e.id) && e.version == entityVersions[e.id]
      ensures r.Some? ==> forall i, j :: 0 <= i < j < |r.value| ==> r.value[i].id < r.value[j].id
    {
      if key in components then
        var storage := components[key];
        var es := Tagged(entityVersions, storage.bitmask, |storage.bitmask|);
        assert forall e: Entity :: e.id < maxEntities && storage.Has(e.id) && e.version == entityVersions[e.id] ==> e in es
          by {
            forall e: Entity | e.id < maxEntities && storage.Has(e.id) && e.version == entityVersions[e.id]
              ensures e in es
            {
              TaggedComplete(entityVersions, storage.bitmask, |storage.bitmask|, e.id);
            }
          }
        Some(es)
      else None
    }
  }
}
