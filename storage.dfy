/** Per-type component storage (crates/xylux-ecs/src/component/storage.rs; the
    older copy in crates/xylux-ecs/src/component.rs has the same code). */
module Components {
  import opened Wrappers

  /** `Vec::resize_with(n, Default::default)` and `BitVec::resize(n, false)`
      when `n` is at least the current length: the old elements stay, and the
      new tail is filled with `pad`. */
  function Grown<A>(s: seq<A>, n: nat, pad: A): (r: seq<A>)
    requires |s| <= n
    ensures |r| == n
    ensures forall i :: 0 <= i < |s| ==> r[i] == s[i]
    ensures forall i :: |s| <= i < n ==> r[i] == pad
  {
    s + seq(n - |s|, _ => pad)
  }

  /** A dense array of values indexed by entity slot, with a parallel
      presence bitmask. `fill` is the component type's `Default` value. */
  class ComponentStorage<T> {
    const fill: T
    var data: seq<T>
    var bitmask: seq<bool>

    /** The data array and the bitmask always have the same length. */
    ghost predicate Valid()
      reads this
    {
      |data| == |bitmask|
    }

    /** `ComponentStorage::new`: `capacity` default values, every bit clear. */
    constructor (capacity: nat, fill: T)
      ensures Valid() && this.fill == fill
      ensures |data| == capacity && forall i :: 0 <= i < capacity ==> data[i] == fill
      ensures |bitmask| == capacity && forall e :: !Has(e)
    {
      this.fill := fill;
      data := seq(capacity, _ => fill);
      bitmask := seq(capacity, _ => false);
    }

    /** `has`: the slot is inside the bitmask and its bit is set. */
    predicate Has(entity: nat)
      reads this
      ensures entity >= |bitmask| ==> !Has(entity)
      ensures Valid() && Has(entity) ==> entity < |data|
    {
      entity < |bitmask| && bitmask[entity]
    }

    /** `get` (and the value read through `get_mut`): nothing when the bit is
        clear; otherwise the value stored at the slot. */
    function Get(entity: nat): (r: Option<T>)
      reads this
      ensures r.Some? ==> Has(entity) && entity < |data| && r.value == data[entity]
      ensures Valid() ==> (r.None? <==> !Has(entity))
    {
      if !Has(entity) then None
      else if entity < |data| then Some(data[entity])
      else None
    }

    /** `insert`: grow both arrays to cover the slot, store the value, set the bit. */
    method Insert(entity: nat, component: T)
      requires Valid()
      modifies this
      ensures Valid()
      ensures |data| == if entity < old(|data|) then old(|data|) else entity + 1
      ensures Has(entity) && Get(entity) == Some(component)
      ensures forall j :: j != entity ==> Has(j) == old(Has(j))
      ensures forall j :: 0 <= j < old(|data|) && j != entity ==> data[j] == old(data[j])
      ensures forall j :: old(|data|) <= j < |data| && j != entity ==> data[j] == fill
    {
      if entity >= |data| {
        data := Grown(data, entity + 1, fill);
      }
      data := data[entity := component];
      if entity >= |bitmask| {
        bitmask := Grown(bitmask, entity + 1, false);
      }
      bitmask := bitmask[entity := true];
    }

    /** `remove`: clear the bit when the slot is in range; the data array is
        never shrunk or edited. */
    method Remove(entity: nat)
      requires Valid()
      modifies this
      ensures Valid()
      ensures data == old(data) && |bitmask| == old(|bitmask|)
      ensures bitmask == if entity < old(|bitmask|) then old(bitmask)[entity := false] else old(bitmask)
      ensures !Has(entity)
      ensures forall j :: j != entity ==> Has(j) == old(Has(j))
      ensures !old(Has(entity)) ==> bitmask == old(bitmask)
    {
      if entity < |bitmask| {
        bitmask := bitmask[entity := false];
      }
    }
  }
}
