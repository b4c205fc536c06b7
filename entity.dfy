/** Generational entity handles (crates/xylux-ecs/src/entity.rs). */
module Entities {

  /** Versions are Rust `u32` values: they live in [0, 2^32). */
  const VERSION_RANGE: int := 0x1_0000_0000

  type Version = v: int | 0 <= v < VERSION_RANGE

  /** A slot id plus the generation of that slot the handle was issued for.
      A Dafny datatype value is copied freely and compares equal exactly when
      both fields are equal, as the derived `Copy`/`PartialEq`/`Eq` promise. */
  datatype Entity = Entity(id: nat, version: Version)

  /** `u32::wrapping_add(1)`: the version a slot gets when it is despawned. */
  function NextVersion(v: Version): (r: Version)
    ensures r == (v + 1) % VERSION_RANGE
    ensures r != v
  {
    if v == VERSION_RANGE - 1 then 0 else v + 1
  }

  datatype Ordering = Less | Equal | Greater

  /** The derived `Ord::cmp`: fields compared in declaration order, `id` first. */
  function Compare(a: Entity, b: Entity): (c: Ordering)
    ensures c == Equal <==> a == b
  {
    if a.id < b.id then Less
    else if a.id > b.id then Greater
    else if a.version < b.version then Less
    else if a.version > b.version then Greater
    else Equal
  }

  /** An independent reading of the same order: each handle as one integer,
      the id in the high part and the version in the low 32 bits. */
  function Rank(e: Entity): int
  {
    e.id * VERSION_RANGE + e.version
  }

  /** The derived ordering is the order of `Rank`, so it is a strict total
      order whose equality is handle equality. */
  lemma CompareIsRankOrder(a: Entity, b: Entity)
    ensures Compare(a, b) == Less <==> Rank(a) < Rank(b)
    ensures Compare(a, b) == Equal <==> Rank(a) == Rank(b)
    ensures Compare(a, b) == Greater <==> Rank(a) > Rank(b)
  {
    if a.id < b.id {
      assert (b.id - a.id) * VERSION_RANGE >= VERSION_RANGE;
    } else if a.id > b.id {
      assert (a.id - b.id) * VERSION_RANGE >= VERSION_RANGE;
    }
  }

  /** The handles of the slots `0..n` whose flag is set, each carrying the
      slot's current version, in ascending slot order. This is what
      `World::entities_with_component` builds from a presence bitmask and
      what `Query::iter` collects from the per-slot fetch results. */
  function Tagged(versions: seq<Version>, flags: seq<bool>, n: nat): (r: seq<Entity>)
    requires n <= |versions| && n <= |flags|
    ensures |r| <= n
    ensures forall i :: 0 <= i < |r| ==>
      r[i].id < n && flags[r[i].id] && r[i].version == versions[r[i].id]
    ensures forall i, j :: 0 <= i < j < |r| ==> r[i].id < r[j].id
  {
    if n == 0 then []
    else
      Tagged(versions, flags, n - 1)
      + (if flags[n - 1] then [Entity(n - 1, versions[n - 1])] else [])
  }

  /** Every flagged slot below `n` is in `Tagged`, with its current version. */
  lemma {:induction false} TaggedComplete(versions: seq<Version>, flags: seq<bool>, n: nat, id: nat)
    requires n <= |versions| && n <= |flags|
    requires id < n && flags[id]
    ensures Entity(id, versions[id]) in Tagged(versions, flags, n)
  {
    if id < n - 1 {
      TaggedComplete(versions, flags, n - 1, id);
    }
  }
}
