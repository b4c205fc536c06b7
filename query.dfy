/** Queries over the world (crates/xylux-ecs/src/query.rs). */
module Queries {
  import opened Wrappers
  import opened Entities
  import opened Worlds

  /** The two `Queryable` implementations of the source: `&Transform`, and
      `(&Transform, &mut Velocity)`. Each names the storage keys it reads. */
  datatype Shape<K> =
    | TransformOnly(transform: K)
    | TransformVelocity(transform: K, velocity: K)

  /** What one `fetch` yields: the Transform value, or the Transform and
      Velocity values. */
  datatype Item<T> =
    | Single(transform: T)
    | Pair(transform: T, velocity: T)

  /** `Queryable::fetch`: nothing for a dead entity; otherwise every requested
      component through `World::get`, failing as soon as one is missing. */
  function Fetch<K(==), T>(w: World<K, T>, shape: Shape<K>, e: Entity): (r: Option<Item<T>>)
    reads w, w.components.Values
    requires e.id < |w.entityVersions|
    ensures r.Some? <==>
      && w.IsAlive(e)
      && w.Get(shape.transform, e).Some?
      && (shape.TransformVelocity? ==> w.Get(shape.velocity, e).Some?)
    ensures r.Some? ==> r.value.transform == w.Get(shape.transform, e).value
    ensures r.Some? && shape.TransformVelocity? ==>
      r.value.Pair? && r.value.velocity == w.Get(shape.velocity, e).value
    ensures r.Some? && shape.TransformOnly? ==> r.value.Single?
  {
    if !w.IsAlive(e) then None
    else
      match shape
      case TransformOnly(t) =>
        (match w.Get(t, e)
         case None => None
         case Some(x) => Some(Single(x)))
      case TransformVelocity(t, v) =>
        (match w.Get(t, e)
         case None => None
         case Some(x) =>
           match w.Get(v, e)
           case None => None
           case Some(y) => Some(Pair(x, y)))
  }

  /** Whether `fetch` succeeds for slot `i`'s handle with its current version,
      for every slot below `entityCount`. */
  ghost function Matches<K, T>(w: World<K, T>, shape: Shape<K>): (m: seq<bool>)
    reads w, w.components.Values
    requires w.Valid()
  {
    seq(w.entityCount, i reads w, w.components.Values
                         requires 0 <= i < w.entityCount && w.Valid() =>
      Fetch(w, shape, Entity(i, w.entityVersions[i])).Some?)
  }

  /** What `iter` collects: exactly the slots below `entityCount` whose handle
      with the current version holds every requested component. Such a
      handle is alive by construction, so the liveness test of `fetch` never
      rejects a slot during the scan. */
  lemma IterCollectsExactly<K, T>(w: World<K, T>, shape: Shape<K>, e: Entity)
    requires w.Valid()
    ensures e in Tagged(w.entityVersions, Matches(w, shape), w.entityCount) <==>
      && e.id < w.entityCount
      && e.version == w.entityVersions[e.id]
      && w.Get(shape.transform, e).Some?
      && (shape.TransformVelocity? ==> w.Get(shape.velocity, e).Some?)
  {
    var hits := Matches(w, shape);
    if e.id < w.entityCount && e.version == w.entityVersions[e.id] && Fetch(w, shape, e).Some? {
      TaggedComplete(w.entityVersions, hits, w.entityCount, e.id);
    }
  }

  /** `Query::new`: a query over `world` for the components `shape` names. */
  class Query<K(==), T> {
    const world: World<K, T>
    const shape: Shape<K>

    constructor (world: World<K, T>, shape: Shape<K>)
      ensures this.world == world && this.shape == shape
    {
      this.world := world;
      this.shape := shape;
    }

    /** `Query::iter`: scan slots `0..entityCount` in order, build each
        handle from the slot's current version, and keep the handles whose
        `fetch` succeeds. */
    method Iter() returns (it: QueryIter<K, T>)
      requires world.Valid()
      ensures fresh(it) && it.world == world && it.shape == shape && it.index == 0
      ensures it.entities == Tagged(world.entityVersions, Matches(world, shape), world.entityCount)
      ensures it.Valid()
    {
      var count := world.entityCount;
      var entities: seq<Entity> := [];
      ghost var hits := Matches(world, shape);
      var id := 0;
      while id < count
        invariant id <= count
        invariant entities == Tagged(world.entityVersions, hits, id)
      {
        var entity := Entity(id, world.EntityVersion(id));
        var hasComponents := Fetch(world, shape, entity).Some?;
        if hasComponents {
          entities := entities + [entity];
        }
        id := id + 1;
      }
      it := new QueryIter(world, shape, entities);
    }
  }

  /** `QueryIter`: the handles collected by `iter` and a cursor into them. */
  class QueryIter<K(==), T> {
    const world: World<K, T>
    const shape: Shape<K>
    const entities: seq<Entity>
    var index: nat

    /** Every collected handle names a slot of the world. */
    ghost predicate Valid()
      reads this, world
    {
      forall i :: 0 <= i < |entities| ==> entities[i].id < |world.entityVersions|
    }

    constructor (world: World<K, T>, shape: Shape<K>, entities: seq<Entity>)
      ensures this.world == world && this.shape == shape
      ensures this.entities == entities && index == 0
    {
      this.world := world;
      this.shape := shape;
      this.entities := entities;
      index := 0;
    }

    /** `QueryIter::next`: `None` once the cursor is past the end; otherwise
        advance the cursor by one and return a fresh `fetch` of that handle. */
    method Next() returns (r: Option<Item<T>>)
      requires Valid()
      modifies this`index
      ensures Valid()
      ensures old(index) >= |entities| ==> r == None && index == old(index)
      ensures old(index) < |entities| ==>
        index == old(index) + 1 && r == old(Fetch(world, shape, entities[index]))
    {
      if index >= |entities| {
        return None;
      }
      var entity := entities[index];
      index := index + 1;
      r := Fetch(world, shape, entity);
    }
  }
}
