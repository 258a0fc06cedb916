/**
 * The per-type component store `SparseSet<T>` and the type-erased view
 * `SparseSetHolder` of it (src/ECS/ECS.h:11-29).
 *
 * The holder exposes exactly `Has` and `Drop`; every component value type is
 * represented by one value type `V`, so the concrete store and its holder are
 * the same datatype here.
 */
module SparseSets {

  /** `entityID`: an unbounded natural number (0 is the "no entity" sentinel). */
  type EntityId = nat

  /** A `SparseSet<T>`: its `data` map from entity to component value. */
  datatype SparseSet<V> = SparseSet(data: map<EntityId, V>)
  {
    /** `SparseSet::Has`: whether a value is stored for `e`. */
    predicate Has(e: EntityId)
      ensures Has(e) <==> e in data.Keys
      ensures !Has(e) <==> data - {e} == data
    {
      e in data
    }

    /** `SparseSet::Drop`: erases `e`'s value if there is one, a no-op otherwise. */
    function Drop(e: EntityId): (s: SparseSet<V>)
      ensures !s.Has(e)
      ensures forall x :: x != e ==> (s.Has(x) <==> Has(x))
      ensures forall x :: x in s.data ==> x in data && s.data[x] == data[x]
      ensures !Has(e) ==> s == this
    {
      SparseSet(data - {e})
    }
  }

  /** The store `std::make_unique<SparseSet<T>>()` creates. */
  function Empty<V>(): (s: SparseSet<V>)
    ensures forall e :: !s.Has(e)
  {
    SparseSet(map[])
  }
}
