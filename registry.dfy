/**
 * The registry `m_components` of src/ECS/ECS.h:104 and the effect of each
 * facade operation on it, as functions of the registry before the call.
 *
 * A registry maps a component type key to its holder. An entry may hold
 * `None`: that is the null `unique_ptr` that `m_components[index]` inserts
 * for a key it has not seen (src/ECS/ECS.h:55, 79, 89, 114).
 */
module Registry {

  import opened Wrappers
  import opened SparseSets

  type Components<K(!new), V> = map<K, Option<SparseSet<V>>>

  /** What `m_components[k]` yields: the entry's holder, or null for a key without an entry. */
  function Slot<K(==, !new), V>(r: Components<K, V>, k: K): Option<SparseSet<V>>
  {
    if k in r then r[k] else None
  }

  /** Two registries hold the same store (or none) for every key. */
  ghost predicate SameSlots<K(!new), V>(a: Components<K, V>, b: Components<K, V>)
  {
    forall k :: Slot(a, k) == Slot(b, k)
  }

  lemma SameSlotsTransitive<K(!new), V>(a: Components<K, V>, b: Components<K, V>, c: Components<K, V>)
    requires SameSlots(a, b) && SameSlots(b, c)
    ensures SameSlots(a, c)
  {
  }

  /** No entry of the registry is a null pointer. */
  ghost predicate NoNullEntries<K(!new), V>(r: Components<K, V>)
  {
    forall k :: k in r ==> r[k].Some?
  }

  /** Registries with the same keys and the same slots are equal. */
  lemma SlotsDetermine<K(!new), V>(a: Components<K, V>, b: Components<K, V>)
    requires a.Keys == b.Keys && SameSlots(a, b)
    ensures a == b
  {
    forall k | k in a
      ensures a[k] == b[k]
    {
      assert Slot(a, k) == Slot(b, k);
    }
  }

  /**
   * The registry after `m_components[k]` is evaluated: a null entry is added
   * for `k` when it had none; no store is created or changed.
   */
  function Touch<K(==, !new), V>(r: Components<K, V>, k: K): (r': Components<K, V>)
    ensures r'.Keys == r.Keys + {k}
    ensures SameSlots(r', r)
    ensures Slot(r, k).None? ==> r'[k] == None
  {
    if k in r then r else r[k := None]
  }

  /** The registry after `m_components[k]` for every key of `ks`, in any order. */
  function TouchAll<K(==, !new), V>(r: Components<K, V>, ks: set<K>): (r': Components<K, V>)
    ensures r'.Keys == r.Keys + ks
    ensures SameSlots(r', r)
  {
    map k | k in r.Keys + ks :: Slot(r, k)
  }

  /** The answer of `Has<T>(e)` for key `k`: false for a missing or null holder, else the store's `Has`. */
  predicate HasIn<K(==, !new), V>(r: Components<K, V>, k: K, e: EntityId)
    ensures k !in r ==> !HasIn(r, k, e)
    ensures k in r && r[k].None? ==> !HasIn(r, k, e)
    ensures k in r && r[k].Some? ==> (HasIn(r, k, e) <==> r[k].value.Has(e))
  {
    Slot(r, k).Some? && Slot(r, k).value.Has(e)
  }

  /** The value stored for `e` in `k`'s store. */
  function ValueAt<K(==, !new), V>(r: Components<K, V>, k: K, e: EntityId): V
    requires HasIn(r, k, e)
  {
    Slot(r, k).value.data[e]
  }

  /** Null entries are invisible to `Has`: registries with the same slots answer alike. */
  lemma SameSlotsSameAnswers<K(!new), V>(a: Components<K, V>, b: Components<K, V>, k: K, e: EntityId)
    requires SameSlots(a, b)
    ensures HasIn(a, k, e) == HasIn(b, k, e)
    ensures HasIn(a, k, e) ==> ValueAt(a, k, e) == ValueAt(b, k, e)
  {
  }

  /**
   * The registry after `GetAppropriateSparseSet<T>()`: an empty store is
   * created for `k` only when its entry is missing or null; an existing
   * store, and every other key's entry, is left as it was.
   */
  function WithStore<K(==, !new), V>(r: Components<K, V>, k: K): (r': Components<K, V>)
    ensures Slot(r', k).Some?
    ensures Slot(r, k).Some? ==> r' == r
    ensures Slot(r, k).None? ==> forall e :: !HasIn(r', k, e)
    ensures r'.Keys == r.Keys + {k}
    ensures forall j :: j != k ==> Slot(r', j) == Slot(r, j)
  {
    if Slot(r, k).Some? then r else r[k := Some(Empty())]
  }

  /**
   * The registry after `Get<T>(e)`: `e` is present in `k`'s store afterwards,
   * holding its old value if it had one and the default `d` if not; no other
   * entity's component and no other key's entry changes.
   */
  function Upsert<K(==, !new), V>(r: Components<K, V>, k: K, e: EntityId, d: V): (r': Components<K, V>)
    ensures HasIn(r', k, e)
    ensures ValueAt(r', k, e) == if HasIn(r, k, e) then ValueAt(r, k, e) else d
    ensures HasIn(r, k, e) ==> r' == r
    ensures r'.Keys == r.Keys + {k}
    ensures forall j :: j != k ==> Slot(r', j) == Slot(r, j)
    ensures forall x :: x != e ==> HasIn(r', k, x) == HasIn(r, k, x)
    ensures forall x :: x != e && HasIn(r, k, x) ==> ValueAt(r', k, x) == ValueAt(r, k, x)
  {
    var w := WithStore(r, k);
    var s := Slot(w, k).value;
    if s.Has(e) then w else w[k := Some(SparseSet(s.data[e := d]))]
  }

  /**
   * The registry after `Get<T>(e) = v`, a write through the reference that
   * `Get` returns: `e`'s value in `k`'s store is `v`, nothing else changes.
   */
  function Assigned<K(==, !new), V>(r: Components<K, V>, k: K, e: EntityId, v: V): (r': Components<K, V>)
    ensures HasIn(r', k, e) && ValueAt(r', k, e) == v
    ensures r'.Keys == r.Keys + {k}
    ensures forall j :: j != k ==> Slot(r', j) == Slot(r, j)
    ensures forall x :: x != e ==> HasIn(r', k, x) == HasIn(r, k, x)
    ensures forall x :: x != e && HasIn(r, k, x) ==> ValueAt(r', k, x) == ValueAt(r, k, x)
  {
    var w := WithStore(r, k);
    w[k := Some(SparseSet(Slot(w, k).value.data[e := v]))]
  }

  /**
   * The registry after `Drop<T>(e)`: `e` is absent from `k`'s store, which
   * exists afterwards; nothing else changes, and when `e` was absent the only
   * effect is the creation of the store.
   */
  function Dropped<K(==, !new), V>(r: Components<K, V>, k: K, e: EntityId): (r': Components<K, V>)
    ensures !HasIn(r', k, e)
    ensures Slot(r', k).Some?
    ensures !HasIn(r, k, e) ==> r' == WithStore(r, k)
    ensures r'.Keys == r.Keys + {k}
    ensures forall j :: j != k ==> Slot(r', j) == Slot(r, j)
    ensures forall x :: x != e ==> HasIn(r', k, x) == HasIn(r, k, x)
    ensures forall x :: x != e && HasIn(r, k, x) ==> ValueAt(r', k, x) == ValueAt(r, k, x)
  {
    var w := WithStore(r, k);
    w[k := Some(Slot(w, k).value.Drop(e))]
  }

  /** A holder after `Drop(e)`; a null holder is skipped. */
  function DropSlot<V>(o: Option<SparseSet<V>>, e: EntityId): (o': Option<SparseSet<V>>)
    ensures o'.Some? <==> o.Some?
    ensures o'.Some? ==> !o'.value.Has(e)
    ensures o'.Some? ==> forall x :: x != e ==> (o'.value.Has(x) <==> o.value.Has(x))
    ensures o'.Some? ==> forall x :: x in o'.value.data ==> x in o.value.data && o'.value.data[x] == o.value.data[x]
  {
    match o
    case None => None
    case Some(s) => Some(s.Drop(e))
  }

  /**
   * The registry after `Destroy(e)`: `e` is absent from every store, including
   * stores of types it never held; the key set, the null entries and every
   * other entity's components are unchanged.
   */
  function Destroyed<K(==, !new), V>(r: Components<K, V>, e: EntityId): (r': Components<K, V>)
    ensures r'.Keys == r.Keys
    ensures forall k :: !HasIn(r', k, e)
    ensures forall k :: Slot(r', k).None? <==> Slot(r, k).None?
    ensures forall k, x :: x != e ==> HasIn(r', k, x) == HasIn(r, k, x)
    ensures forall k, x :: x != e && HasIn(r, k, x) ==> ValueAt(r', k, x) == ValueAt(r, k, x)
  {
    map k | k in r :: DropSlot(r[k], e)
  }

  /**
   * `Destroy(e)` as src/ECS/ECS.cpp:22-24 writes it: `comps->Drop(e)` on every
   * entry, which dereferences the holder, so it is defined only when no entry
   * is null.
   */
  function DestroyAsWritten<K(==, !new), V>(r: Components<K, V>, e: EntityId): (r': Components<K, V>)
    requires NoNullEntries(r)
    ensures r'.Keys == r.Keys && NoNullEntries(r')
    ensures forall k :: !HasIn(r', k, e)
  {
    map k | k in r :: Some(r[k].value.Drop(e))
  }

  /** Where the written `Destroy` is defined, skipping null entries changes nothing. */
  lemma DestroyAsWrittenAgrees<K(!new), V>(r: Components<K, V>, e: EntityId)
    requires NoNullEntries(r)
    ensures DestroyAsWritten(r, e) == Destroyed(r, e)
  {
  }

  /**
   * `Has<T>(e)` for a type without a store leaves a null entry behind, after
   * which the written `Destroy` dereferences a null pointer.
   */
  lemma HasBreaksDestroyAsWritten<K(!new), V>(r: Components<K, V>, k: K)
    requires Slot(r, k).None?
    ensures !NoNullEntries(Touch(r, k))
  {
  }

  /** `e` has a component of every type in `rest`. */
  predicate HasAll<K(==, !new), V>(r: Components<K, V>, rest: seq<K>, e: EntityId)
  {
    forall i :: 0 <= i < |rest| ==> HasIn(r, rest[i], e)
  }

  /** `e` has a component of each of the first `j` types of `rest`. */
  predicate PassesBefore<K(==, !new), V>(r: Components<K, V>, rest: seq<K>, e: EntityId, j: int)
  {
    forall i :: 0 <= i < j && i < |rest| ==> HasIn(r, rest[i], e)
  }

  /**
   * The entities `ForEach<First, Rest...>` calls back: those in `first`'s
   * store that are in every store of `rest`; a missing or null store counts
   * as absent, and an entity outside `first`'s store is never included.
   */
  function Matches<K(==, !new), V>(r: Components<K, V>, first: K, rest: seq<K>): (m: set<EntityId>)
    ensures forall e :: e in m <==> HasIn(r, first, e) && HasAll(r, rest, e)
    ensures Slot(r, first).None? ==> m == {}
  {
    if Slot(r, first).None? then {}
    else set e | e in Slot(r, first).value.data && HasAll(r, rest, e)
  }

  /**
   * The keys of `rest` whose registry entry the inner loop of `ForEach`
   * evaluates for candidate `e`: every key up to and including the first one
   * `e` lacks (the loop breaks there).
   */
  function ReachedBy<K(==, !new), V>(r: Components<K, V>, rest: seq<K>, e: EntityId): set<K>
  {
    set j | 0 <= j < |rest| && PassesBefore(r, rest, e, j) :: rest[j]
  }

  /** The keys the inner loop evaluates for all the candidates of `es`. */
  function ReachedByAll<K(==, !new), V>(r: Components<K, V>, rest: seq<K>, es: set<EntityId>): set<K>
  {
    set k, e | e in es && k in ReachedBy(r, rest, e) :: k
  }

  /** Null entries are invisible to the inner loop of `ForEach` too. */
  lemma SameSlotsSameReach<K(!new), V>(a: Components<K, V>, b: Components<K, V>, rest: seq<K>, e: EntityId)
    requires SameSlots(a, b)
    ensures HasAll(a, rest, e) == HasAll(b, rest, e)
    ensures ReachedBy(a, rest, e) == ReachedBy(b, rest, e)
  {
  }

  /** Every key whose entry `ForEach<First, Rest...>` evaluates, given the registry before it. */
  function QueryTouched<K(==, !new), V>(r: Components<K, V>, first: K, rest: seq<K>): set<K>
  {
    if Slot(r, first).None? then {first}
    else {first} + ReachedByAll(r, rest, Slot(r, first).value.data.Keys)
  }

  lemma ReachedByAllAdd<K(!new), V>(r: Components<K, V>, rest: seq<K>, es: set<EntityId>, e: EntityId)
    ensures ReachedByAll(r, rest, es + {e}) == ReachedByAll(r, rest, es) + ReachedBy(r, rest, e)
  {
  }

  /** When the inner loop completes, it has evaluated every key of `rest`. */
  lemma ReachedByComplete<K(!new), V>(r: Components<K, V>, rest: seq<K>, e: EntityId)
    requires HasAll(r, rest, e)
    ensures ReachedBy(r, rest, e) == set j | 0 <= j < |rest| :: rest[j]
  {
  }

  /** When the inner loop breaks at index `i`, it has evaluated the keys up to `i`. */
  lemma ReachedByBreak<K(!new), V>(r: Components<K, V>, rest: seq<K>, e: EntityId, i: nat)
    requires i < |rest| && PassesBefore(r, rest, e, i) && !HasIn(r, rest[i], e)
    ensures ReachedBy(r, rest, e) == set j | 0 <= j <= i :: rest[j]
  {
  }

  /**
   * Null entries are invisible to queries: a registry with extra null
   * entries answers every `Has` and every `ForEach` as `r` does.
   */
  lemma TouchAllPreservesMatches<K(!new), V>(r: Components<K, V>, ks: set<K>, first: K, rest: seq<K>)
    ensures Matches(TouchAll(r, ks), first, rest) == Matches(r, first, rest)
  {
  }

  /** After `Destroy(e)`, a query returns what it returned before, without `e`. */
  lemma DestroyedMatches<K(!new), V>(r: Components<K, V>, e: EntityId, first: K, rest: seq<K>)
    ensures Matches(Destroyed(r, e), first, rest) == Matches(r, first, rest) - {e}
  {
  }

  /** What a later `Get<T>(e)` returns after `Get<T>(e) = v` is `v`, and it changes nothing. */
  lemma AssignedThenGet<K(!new), V>(r: Components<K, V>, k: K, e: EntityId, v: V, d: V)
    ensures Upsert(Assigned(r, k, e, v), k, e, d) == Assigned(r, k, e, v)
    ensures ValueAt(Upsert(Assigned(r, k, e, v), k, e, d), k, e) == v
  {
  }

  /**
   * `Drop<T>(e)` after `Get<T>(e)` leaves what `Drop<T>(e)` alone leaves; when
   * the store existed and `e` was absent, that is the registry before `Get`.
   */
  lemma UpsertThenDrop<K(!new), V>(r: Components<K, V>, k: K, e: EntityId, d: V)
    ensures Dropped(Upsert(r, k, e, d), k, e) == Dropped(r, k, e)
    ensures Slot(r, k).Some? && !HasIn(r, k, e) ==> Dropped(Upsert(r, k, e, d), k, e) == r
  {
    var s := Slot(WithStore(r, k), k).value;
    assert s.data[e := d] - {e} == s.data - {e};
    if Slot(r, k).Some? && !HasIn(r, k, e) {
      assert s.data - {e} == s.data;
    }
  }
}
