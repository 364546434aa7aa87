// Component pools (src/ECS/ECS.h, class Pool<T>): a plain vector of
// component values indexed directly by entity id, 100 slots to start with.
// Pools are held by the registry as values; this module gives the vector
// operations the registry applies to them.

module Pools {

  /** `Pool(int size = 100)`. */
  const InitialPoolSize: nat := 100

  /** A new pool: `InitialPoolSize` default-constructed slots. */
  function NewPool<T>(fill: T): (p: seq<T>)
    ensures |p| == InitialPoolSize
    ensures forall i :: 0 <= i < |p| ==> p[i] == fill
  {
    seq(InitialPoolSize, _ => fill)
  }

  /** `Pool::Resize(n)`, i.e. `std::vector::resize`: keep the first `n` slots,
      adding default-constructed ones when growing. */
  function Resize<T>(data: seq<T>, n: nat, fill: T): (r: seq<T>)
    ensures |r| == n
    ensures forall i :: 0 <= i < n ==> r[i] == if i < |data| then data[i] else fill
  {
    if n <= |data| then data[..n] else data + seq(n - |data|, _ => fill)
  }

  /** The pool after `Registry::AddComponent` stored `v` for entity `id`: when
      `id` has no slot yet the vector is resized to `numEntities` slots, then
      slot `id` is overwritten. The pool never shrinks, `id` ends up in range
      holding `v`, and every other slot keeps its value (new ones are default). */
  function Store<T>(data: seq<T>, id: nat, numEntities: nat, fill: T, v: T): (r: seq<T>)
    requires id < numEntities
    ensures |r| >= |data| && id < |r|
    ensures |r| == if id < |data| then |data| else numEntities
    ensures r[id] == v
    ensures forall i :: 0 <= i < |r| && i != id ==> r[i] == if i < |data| then data[i] else fill
  {
    var sized := if id >= |data| then Resize(data, numEntities, fill) else data;
    sized[id := v]
  }

  /** Storing twice for the same entity overwrites in place: the second value
      wins and the pool does not grow again. */
  lemma StoreOverwrites<T>(data: seq<T>, id: nat, numEntities: nat, fill: T, v: T, w: T)
    requires id < numEntities
    ensures Store(Store(data, id, numEntities, fill, v), id, numEntities, fill, w)
         == Store(data, id, numEntities, fill, w)
  {
  }
}
