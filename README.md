# xylux-ecs in Dafny

A verified model of the `xylux-ecs` crate, the entity/component store of the
Xylux engine. It covers five parts:

- **Entities** (`entity.dfy`, module `Entities`): generational handles. Each
  handle is a slot id plus a `u32` version. The module also holds the derived
  equality and ordering, and the wrapping version increment.
- **Component storage** (`storage.dfy`, module `Components`): one class per
  component type. It keeps a dense value array indexed by slot and a parallel
  presence bitmask. `component/storage.rs` and the older copy in
  `component.rs` contain the same code, and this one class models both.
- **The world** (`world.dfy`, module `Worlds`): a class holding the version
  table, the LIFO stack of freed slots, the alive bitmask, the high-water
  `entityCount` and a map from component-type key to storage. It provides
  spawn, despawn, register, insert, get, has, the per-type entity listing and
  the liveness test.
- **Queries** (`query.dfy`, module `Queries`): `Query::iter` eagerly scans
  slots `0..entityCount` and collects the handles whose `fetch` succeeds.
  `QueryIter::next` then fetches each collected handle again as it is
  yielded. Both `Queryable` shapes of the crate are modelled: Transform
  alone, and Transform with Velocity.
- **Systems** (`system.dfy`, module `Systems`): the `TaskGraph` maps names
  to (system, dependencies). Its execution order comes from a depth-first
  topological sort that stops at a cycle. `run` applies the systems in that
  order.

`scenarios.dfy` (module `Scenarios`) states, as verified postconditions,
what the world and the queries return on concrete inputs. It covers slot
recycling, the unit test of `lib.rs`, entities that hold only some
components, despawning a slot that was never spawned, and a recycled slot
that lies beyond `entityCount`. `wrappers.dfy` holds `Option`, `Result` and `Outcome`.

How the model maps the Rust:

- Component values are a type parameter `T`. Each storage carries its own
  `fill` value, which stands for `T::default()`.
- Component-type ids are a key type `K` with equality.
- A system is an opaque function `W -> W` over an abstract world state `W`.
- A `panic!` or `expect` with a message becomes an error value:
  - `spawn_entity` on a full world returns `Err(MaxEntitiesReached)`.
  - `insert` on a dead entity returns `Fail(InvalidEntity)`.
  - `insert` of an unregistered type returns `Fail(UnregisteredComponent)`.
  - A dependency cycle makes the sort return `Some(name)`, where `name` is
    the node the panic message would name.
  For the spawn and insert errors the state is left as it was. A cycle
  leaves the replaced entry and the partial order behind, as the source
  does.
- An out-of-range index, such as a handle whose id is at least the
  capacity, is a panic the source does not check for. It becomes a
  `requires`.

Quirks that are modelled as written:

- `is_alive` compares versions only and never reads the alive bitmask. On a
  fresh world, the handle `{id 0, version 0}` therefore counts as alive
  before slot 0 is spawned. Despawning it bumps the slot's version and
  pushes the slot on the free stack, while `entityCount` stays 0. The next
  two spawns then return the same handle
  (`Scenarios.NeverSpawnedDespawnScenario`).
- The same quirk lets a slot at or beyond `entityCount` come alive: on a
  capacity-2 world, despawning the never-spawned handle `{1, 0}` and
  spawning again hands out `{1, 1}` with `entityCount` still 0. That entity
  is alive and can hold a Transform, but `iter` scans only
  `0..entityCount` and never collects it
  (`Scenarios.RecycledBeyondCountScenario`).
- `QueryIter::next` returns the result of the re-fetch as it is. A handle
  that no longer fetches yields `None`, which ends a Rust iteration; the
  iterator does not skip ahead.
- `compute_execution_order` visits the registered names in `HashMap`
  iteration order. That order is unspecified, so the model takes it as an
  arbitrary choice (`:|`). Every property is proved for every such order.

## Model

| member | source | states |
|---|---|---|
| Entities.NextVersion | crates/xylux-ecs/src/world.rs:65 | the despawn increment is `u32::wrapping_add(1)`: `(v + 1) mod 2^32`, which always differs from `v` |
| Entities.Compare | crates/xylux-ecs/src/entity.rs:6-10 | the derived ordering reports `Equal` exactly when both id and version are equal |
| Entities.CompareIsRankOrder | crates/xylux-ecs/src/entity.rs:6-10 | the derived order is lexicographic, id first and then version: it agrees with the integer rank `id * 2^32 + version` in all three outcomes |
| Entities.Tagged | crates/xylux-ecs/src/world.rs:139-143 | the handles built from a flag sequence: at most `n` of them, each for a flagged slot below `n` with that slot's current version, in strictly ascending id order |
| Entities.TaggedComplete | crates/xylux-ecs/src/world.rs:139-143 | every flagged slot below `n` appears in the list with its current version |
| Components.Grown | crates/xylux-ecs/src/component/storage.rs:35-42 | growing keeps every old element and pads the new tail up to length `n` |
| Components.ComponentStorage.constructor | crates/xylux-ecs/src/component/storage.rs:18-26 | data holds `capacity` default values, the bitmask has length `capacity`, and no slot is present; the older copy has the same code at `component.rs:44-52` |
| Components.ComponentStorage.Has | crates/xylux-ecs/src/component/storage.rs:78-80 | `has(e)` is false for every `e` beyond the bitmask, and under the equal-lengths invariant `has(e)` means slot `e` exists in the data array; the older copy has the same code at `component.rs:104-106` |
| Components.ComponentStorage.Get | crates/xylux-ecs/src/component/storage.rs:54-75 | under the equal-lengths invariant, `get` is `None` exactly when `has` is false; otherwise it is the stored value `data[e]`; the older copy has the same code at `component.rs:80-106` |
| Components.ComponentStorage.Insert | crates/xylux-ecs/src/component/storage.rs:29-44 | the length becomes max(old, e+1), `has(e)` holds and `get(e)` is the value, no other slot's bit or data changes, and the new tail holds defaults; the older copy has the same code at `component.rs:55-70` |
| Components.ComponentStorage.Remove | crates/xylux-ecs/src/component/storage.rs:47-51 | clears bit `e` only when it is in range and is otherwise a no-op; data and length never change; no other bit changes; a second remove changes nothing; the older copy has the same code at `component.rs:73-77` |
| Worlds.World.constructor | crates/xylux-ecs/src/world.rs:25-34 | every version is 0, nothing is alive in the bitmask, no slot has been handed out, no type is registered |
| Worlds.World.IsAlive | crates/xylux-ecs/src/world.rs:152-154 | a handle is alive exactly when it equals its slot's id paired with the slot's current version, so at most one handle per slot is alive; the alive bitmask plays no part |
| Worlds.World.EntityVersion | crates/xylux-ecs/src/world.rs:120-122 | the version returned for a slot is the only version whose handle `is_alive` accepts |
| Worlds.World.SpawnEntity | crates/xylux-ecs/src/world.rs:39-55 | pops the most recently freed slot and leaves `entityCount` alone; with no free slot, returns `entityCount` and increments it, or fails when the world is full, changing nothing; the handle carries the slot's version, sets its alive bit and is alive; `entityCount` never decreases or exceeds the capacity |
| Worlds.World.DespawnEntity | crates/xylux-ecs/src/world.rs:60-70 | a handle that is not alive changes nothing, so a double despawn is a no-op; otherwise the version wraps up by one, the slot is pushed on the free stack, its alive bit and its bit in every storage are cleared, and nothing else changes; afterwards the handle is dead and every `get`/`has_component` on it is absent |
| Worlds.World.RegisterComponent | crates/xylux-ecs/src/world.rs:75-80 | a registered type keeps its storage and data (idempotent); a new type gets a fresh storage of `maxEntities` defaults with no slot present; all other state is unchanged |
| Worlds.World.Insert | crates/xylux-ecs/src/world.rs:87-97 | fails on a dead entity, then on an unregistered type, changing nothing; otherwise `get` returns the inserted value, the written storage keeps its length and every other slot's bit and stored data, and no other storage changes |
| Worlds.World.Get | crates/xylux-ecs/src/world.rs:100-117 | a value is returned exactly when the entity is alive, the type is registered and the storage holds the slot, and it is the storage's value |
| Worlds.World.HasComponent | crates/xylux-ecs/src/world.rs:125-132 | `has_component` agrees with `get`: false for a dead entity or an unregistered type |
| Worlds.World.EntitiesWithComponent | crates/xylux-ecs/src/world.rs:138-144 | `None` exactly for an unregistered type; otherwise a handle is listed exactly when its slot's bit is set and its version is current, in ascending id order |
| Queries.Fetch | crates/xylux-ecs/src/query.rs:99-122 | `None` for a dead entity; the Transform fetch succeeds exactly when the entity holds a Transform and yields it; the pair fetch succeeds exactly when it holds both Transform and Velocity and yields both stored values |
| Queries.IterCollectsExactly | crates/xylux-ecs/src/query.rs:47-56 | a handle is collected exactly when its slot is below `entityCount`, its version is current, and it holds every requested component |
| Queries.Query.constructor | crates/xylux-ecs/src/query.rs:35-41 | the query remembers its world and shape |
| Queries.Query.Iter | crates/xylux-ecs/src/query.rs:43-66 | scans slots `0..entityCount` in order; the collected list is the `Tagged` list of fetch successes, so it is ascending, has no duplicate ids and is at most `entityCount` long; the cursor starts at 0 |
| Queries.QueryIter.constructor | crates/xylux-ecs/src/query.rs:59-65 | the iterator holds the world, the collected handles and a cursor at 0 |
| Queries.QueryIter.Next | crates/xylux-ecs/src/query.rs:81-90 | `None` once the cursor reaches the end, with the cursor unchanged; otherwise the cursor advances by exactly one and the result is a fresh `fetch` of that handle |
| Systems.DepInNames | crates/xylux-ecs/src/system.rs:76-79 | every dependency the sort follows is a name the sort can meet |
| Systems.WalkExtend | crates/xylux-ecs/src/system.rs:76-79 | following one more dependency edge extends a dependency walk |
| Systems.WalkSuffix | crates/xylux-ecs/src/system.rs:71-73 | the part of the visit stack from a repeated node on is itself a dependency walk |
| Systems.Visit | crates/xylux-ecs/src/system.rs:61-85 | a node met while on the visit stack (and not yet visited) is reported under its own name, and any reported name lies on a dependency cycle; otherwise the node ends up visited, the order only grows, holds each name once, and places every dependency before its dependent |
| Systems.ComputeExecutionOrder | crates/xylux-ecs/src/system.rs:56-90 | starting from an empty order, for any key order of the map: either a name on a dependency cycle, or an order with each name once, every registered name present, and every dependency before its dependent |
| Systems.ExecutionOrderAcyclic | crates/xylux-ecs/src/system.rs:71-73 | a graph that has an execution order has no dependency cycle, so a cyclic configuration can never be sorted and must end in the cycle report |
| Systems.DependenciesComeFirst | crates/xylux-ecs/src/system.rs:76-84 | along any dependency walk, the transitive dependency at its end is placed before the node at its start |
| Systems.UnregisteredDependencyOrdered | crates/xylux-ecs/src/system.rs:76-84 | a dependency is placed before its dependent even when it has no registered system, and `run` then skips it |
| Systems.Invoked | crates/xylux-ecs/src/system.rs:97-101 | the names `run` calls: the order's names that have a registered system, in order |
| Systems.InvokedMembers | crates/xylux-ecs/src/system.rs:97-101 | a name is called exactly when it is in the order and registered |
| Systems.InvokedNoDuplicates | crates/xylux-ecs/src/system.rs:97-101 | skipping unregistered names keeps a duplicate-free order duplicate-free |
| Systems.InvokedDepsFirst | crates/xylux-ecs/src/system.rs:97-101 | skipping unregistered names keeps registered dependencies before their dependents |
| Systems.RunInvokesEachOnce | crates/xylux-ecs/src/system.rs:93-103 | over a computed order, `run` calls exactly the registered systems, each once, every registered dependency before its dependent |
| Systems.TaskGraph.constructor | crates/xylux-ecs/src/system.rs:41-46 | no systems and an empty order, which is a valid execution order |
| Systems.TaskGraph.AddSystem | crates/xylux-ecs/src/system.rs:49-53 | inserts or replaces the entry under the name, then recomputes the order: either a name on a cycle, or a valid execution order for the new map |
| Systems.TaskGraph.Run | crates/xylux-ecs/src/system.rs:93-103 | the resulting world is the called systems' functions composed in order; the map of systems is not changed |
| Scenarios.RecyclingScenario | crates/xylux-ecs/src/world.rs:39-70 | with capacity 10, spawning yields ids 0 to 9 at version 0; after despawning id 3 the next spawn returns id 3 at version 1, and the old handle stays dead |
| Scenarios.SpawnAndQueryScenario | crates/xylux-ecs/src/lib.rs:28-55 | one entity with both components yields exactly one pair carrying the inserted values; after a new Velocity is stored in its slot, a later query sees the new value |
| Scenarios.PartialComponentsScenario | crates/xylux-ecs/src/query.rs:113-122 | an entity with only a Transform is not collected by the pair query but is collected by the Transform query |
| Scenarios.NeverSpawnedDespawnScenario | crates/xylux-ecs/src/world.rs:152-154 | on a fresh world of capacity 1, despawning the never-spawned handle `{0, 0}` makes the next two spawns both return `{0, 1}` |
| Scenarios.RecycledBeyondCountScenario | crates/xylux-ecs/src/query.rs:44-47 | on capacity 2, despawning the never-spawned `{1, 0}` then spawning gives `{1, 1}`; it holds an inserted Transform, yet a Transform query collects nothing |
| Scenarios.OneEntityWorld | crates/xylux-ecs/src/lib.rs:29-39 | registering both types, spawning once and inserting the given components gives one alive entity holding exactly those components |
| Scenarios.QueryOneSlot | crates/xylux-ecs/src/query.rs:43-90 | on a world with one spawned slot, the slot is collected exactly when `fetch` succeeds; the first `next` yields that fetch and the second returns `None` |
| Scenarios.OnlySlotCollected | crates/xylux-ecs/src/query.rs:47-56 | on a world with one spawned slot, the collected list is that slot's handle or nothing |

## Left out

- Worlds.World.Get: `get_mut` is modelled by the same lookup. The mutable
  reference it returns is not modelled. A write through it is modelled as
  `World.Insert` on the same slot, which is what the lib.rs scenario does.
- Queries.Fetch: the pair shape reads Velocity through `get_mut`. It is
  modelled as a read, so aliasing of the returned `&mut` is not captured.
- `World::entity_count`, `World::capacity` and the crate-private
  `alive_mask()` only return a field. The model reads the fields
  `entityCount`, `maxEntities` and `aliveMask` directly.
- `ComponentId`/`TypeId` and the `Box<dyn Any>` downcast are runtime type
  identity. Each storage is generic in its value type, so the "wrong type"
  `expect` cannot fail. All storages of one world share one value type `T`,
  told apart by key.
- The Transform and Velocity payloads are `glam` floating-point vectors and
  quaternions. They are the abstract value type `T`.
- `move_system` is left out. It is a floating-point update, and it queries
  the shape `(&mut Transform, &Velocity)`, which has no `Queryable`
  implementation.
- `Queryable::component_ids` is left out, because nothing in the crate
  calls it.
- The raw `*mut World` pointer, `PhantomData` lifetimes, borrowing, and the
  `Send + Sync` bounds on `System` are Rust ownership and concurrency rules.
  They are not modelled.
- `System::run` calls a closure the model cannot see. A system is an opaque
  function from world state to world state.
- Systems.TaskGraph.AddSystem: the model returns the cycle instead of
  panicking. After a cycle, the partial order is kept, the way the Rust
  state would look if the panic were caught.
- `Query::iter().collect()` is not modelled as one operation. Iteration is
  `Queries.QueryIter.Next` called until it returns `None`.
- `usize` ids are unbounded naturals. Every id the world uses is below its
  capacity, so no overflow can occur.
- The benches, the renderer, the window, the CLI and the module/re-export
  files are not part of this model.
