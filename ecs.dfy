/**
 * The facade `ECS` of src/ECS/ECS.h:31-121 and src/ECS/ECS.cpp: the entity id
 * allocator and the registry of per-type stores.
 *
 * The class is generic in the type key `K` (the `std::type_index` of a
 * component type) and in the component value type `V`; `defaultOf(k)` is the
 * value a default-constructed component of type `k` has.
 */
module ECSCore {

  import opened Wrappers
  import opened SparseSets
  import opened Registry

  class ECS<K(==, !new), V> {
    /** `m_nextID`: the last id `Create` returned (0 before the first call). */
    var nextID: nat
    /** `m_components`: type key to holder; `None` is a null `unique_ptr`. */
    var components: Components<K, V>
    /** Default construction of a component of each type. */
    const defaultOf: K -> V

    /** `ECS::ECS`: no entity issued yet, no store. */
    constructor (defaultOf: K -> V)
      ensures nextID == 0 && components == map[]
      ensures this.defaultOf == defaultOf
    {
      nextID := 0;
      components := map[];
      this.defaultOf := defaultOf;
    }

    /** `ECS::Create`: pre-increments the counter and returns it. */
    method Create() returns (id: EntityId)
      modifies this
      ensures id == old(nextID) + 1 && nextID == id
      ensures components == old(components)
    {
      nextID := nextID + 1;
      id := nextID;
    }

    /** `m_components[k]`: reads the entry, inserting a null one for a new key. */
    method Index(k: K) returns (slot: Option<SparseSet<V>>)
      modifies this
      ensures slot == Slot(old(components), k)
      ensures components == Touch(old(components), k)
      ensures nextID == old(nextID)
    {
      if k !in components {
        components := components[k := None];
      }
      slot := components[k];
    }

    /**
     * `GetAppropriateSparseSet<T>`: the contents of `k`'s store, which is
     * created (empty) only when `k`'s entry is missing or null.
     */
    method GetAppropriateSparseSet(k: K) returns (data: map<EntityId, V>)
      modifies this
      ensures components == WithStore(old(components), k)
      ensures Slot(components, k) == Some(SparseSet(data))
      ensures Slot(old(components), k).Some? ==> data == Slot(old(components), k).value.data
      ensures Slot(old(components), k).None? ==> data == map[]
      ensures nextID == old(nextID)
    {
      var slot := Index(k);
      if slot == None {
        components := components[k := Some(Empty())];
      }
      data := components[k].value.data;
    }

    /**
     * `Get<T>(e)`: the value stored for `e` in `k`'s store, after inserting
     * `defaultOf(k)` for `e` if it had none.
     */
    method Get(k: K, e: EntityId) returns (v: V)
      modifies this
      ensures components == Upsert(old(components), k, e, defaultOf(k))
      ensures HasIn(components, k, e) && v == ValueAt(components, k, e)
      ensures v == if HasIn(old(components), k, e) then ValueAt(old(components), k, e) else defaultOf(k)
      ensures nextID == old(nextID)
    {
      var data := GetAppropriateSparseSet(k);
      if e !in data {
        data := data[e := defaultOf(k)];
        components := components[k := Some(SparseSet(data))];
      }
      v := data[e];
    }

    /** `Get<T>(e) = v`: a write through the reference `Get` returns. */
    method Assign(k: K, e: EntityId, v: V)
      modifies this
      ensures components == Assigned(old(components), k, e, v)
      ensures nextID == old(nextID)
    {
      var _ := Get(k, e);
      var data := components[k].value.data;
      assert data[e := v] == Slot(WithStore(old(components), k), k).value.data[e := v];
      components := components[k := Some(SparseSet(data[e := v]))];
    }

    /**
     * `Has<T>(e)`: false when `k` has no store, otherwise whether the store
     * holds `e`; creates no store but may add a null entry for `k`.
     */
    method Has(k: K, e: EntityId) returns (b: bool)
      modifies this
      ensures b == HasIn(old(components), k, e)
      ensures components == Touch(old(components), k)
      ensures nextID == old(nextID)
    {
      var slot := Index(k);
      if slot == None {
        return false;
      }
      b := slot.value.Has(e);
    }

    /** `Drop<T>(e)`: erases `e` from `k`'s store, creating the store if needed. */
    method Drop(k: K, e: EntityId)
      modifies this
      ensures components == Dropped(old(components), k, e)
      ensures nextID == old(nextID)
    {
      var data := GetAppropriateSparseSet(k);
      components := components[k := Some(SparseSet(data - {e}))];
    }

    /**
     * `ECS::Destroy`: drops `e` from the holder of every registry entry. A
     * null entry is skipped (the source dereferences it; see
     * `Registry.DestroyAsWritten`).
     */
    method Destroy(e: EntityId)
      modifies this
      ensures components == Destroyed(old(components), e)
      ensures nextID == old(nextID)
    {
      ghost var r0 := components;
      var pending := components.Keys;
      while pending != {}
        invariant pending <= r0.Keys
        invariant components.Keys == r0.Keys
        invariant forall k :: k in r0 ==> components[k] == if k in pending then r0[k] else DropSlot(r0[k], e)
        invariant nextID == old(nextID)
        decreases pending
      {
        var k :| k in pending;
        var comps := components[k];
        if comps.Some? {
          components := components[k := Some(comps.value.Drop(e))];
        }
        pending := pending - {k};
      }
      assert forall k :: k in r0 ==> components[k] == Destroyed(r0, e)[k];
    }

    /**
     * `ForEach<First, Rest...>`: the sequence of entities the callback is
     * called with. They are the entities of `first`'s store that are in every
     * store of `rest`, each once, in the store's (unspecified) iteration
     * order; no store changes, and the registry gains null entries exactly for
     * the keys whose entries the loops evaluate.
     */
    method ForEach(first: K, rest: seq<K>) returns (visited: seq<EntityId>)
      modifies this
      ensures forall e :: e in visited <==> e in Matches(old(components), first, rest)
      ensures forall i, j :: 0 <= i < j < |visited| ==> visited[i] != visited[j]
      ensures Slot(old(components), first).None? ==> visited == []
      ensures components == TouchAll(old(components), QueryTouched(old(components), first, rest))
      ensures SameSlots(components, old(components))
      ensures nextID == old(nextID)
    {
      ghost var r0 := components;
      var firstSlot := Index(first);
      if firstSlot == None {
        visited := [];
        SlotsDetermine(components, TouchAll(r0, {first}));
        return;
      }
      var store := GetAppropriateSparseSet(first);
      assert components == r0;
      var remaining := store.Keys;
      visited := [];
      ghost var done: set<EntityId> := {};
      ghost var touched: set<K> := {};
      while remaining != {}
        invariant done <= store.Keys && remaining == store.Keys - done
        invariant SameSlots(components, r0)
        invariant components.Keys == r0.Keys + touched
        invariant touched == ReachedByAll(r0, rest, done)
        invariant VisitedExactly(r0, rest, done, visited)
        invariant nextID == old(nextID)
        decreases remaining
      {
        var e :| e in remaining;
        ghost var before := components;
        var hasAllComponents := HasAllComponents(rest, e);
        SameSlotsSameReach(before, r0, rest, e);
        SameSlotsTransitive(components, before, r0);
        VisitStep(r0, rest, done, visited, e);
        if hasAllComponents {
          visited := visited + [e];
        }
        ReachedByAllAdd(r0, rest, done, e);
        touched := touched + ReachedBy(r0, rest, e);
        done := done + {e};
        remaining := remaining - {e};
      }
      SlotsDetermine(components, TouchAll(r0, QueryTouched(r0, first, rest)));
    }

    /**
     * The inner loop of `ForEach` for candidate `e`: whether `e` is in the
     * store of every key of `rest`, testing them in order and stopping at the
     * first it lacks; each key tested gets a (null) registry entry.
     */
    method HasAllComponents(rest: seq<K>, e: EntityId) returns (hasAllComponents: bool)
      modifies this
      ensures hasAllComponents == HasAll(old(components), rest, e)
      ensures components == TouchAll(old(components), ReachedBy(old(components), rest, e))
      ensures nextID == old(nextID)
    {
      ghost var r0 := components;
      hasAllComponents := true;
      var i := 0;
      while i < |rest|
        invariant 0 <= i <= |rest|
        invariant SameSlots(components, r0)
        invariant components.Keys == r0.Keys + set j | 0 <= j < i :: rest[j]
        invariant PassesBefore(r0, rest, e, i)
        invariant nextID == old(nextID)
      {
        var slot := Index(rest[i]);
        assert slot == Slot(r0, rest[i]);
        if slot == None || !slot.value.Has(e) {
          hasAllComponents := false;
          assert components.Keys == r0.Keys + set j | 0 <= j <= i :: rest[j];
          ReachedByBreak(r0, rest, e, i);
          break;
        }
        i := i + 1;
      }
      if hasAllComponents {
        ReachedByComplete(r0, rest, e);
      }
      SlotsDetermine(components, TouchAll(r0, ReachedBy(r0, rest, e)));
    }
  }

  /** `visited` lists, each once, the candidates of `done` that have every type of `rest`. */
  ghost predicate VisitedExactly<K(!new), V>(r: Components<K, V>, rest: seq<K>, done: set<EntityId>, visited: seq<EntityId>)
  {
    && (forall i, j :: 0 <= i < j < |visited| ==> visited[i] != visited[j])
    && (forall e :: e in visited <==> e in done && HasAll(r, rest, e))
  }

  /** One step of the outer loop of `ForEach` keeps `VisitedExactly`. */
  lemma VisitStep<K(!new), V>(r: Components<K, V>, rest: seq<K>, done: set<EntityId>, visited: seq<EntityId>, e: EntityId)
    requires VisitedExactly(r, rest, done, visited) && e !in done
    ensures VisitedExactly(r, rest, done + {e}, if HasAll(r, rest, e) then visited + [e] else visited)
  {
  }

  /** The ids that `n` successive `Create()` calls return when the counter is at `next`. */
  function IdsFrom(next: nat, n: nat): (ids: seq<EntityId>)
    ensures |ids| == n
    decreases n
  {
    if n == 0 then [] else [next + 1] + IdsFrom(next + 1, n - 1)
  }

  /** The `i`-th of those calls returns `next + 1 + i`. */
  lemma {:induction false} IdsFromAt(next: nat, n: nat, i: nat)
    requires i < n
    ensures IdsFrom(next, n)[i] == next + 1 + i
    decreases n
  {
    if i > 0 {
      IdsFromAt(next + 1, n - 1, i - 1);
    }
  }

  /** Calls `Create()` `n` times on `ecs`; the ids it collects are `IdsFrom` of the starting counter. */
  method CreateN<K(==, !new), V>(ecs: ECS<K, V>, n: nat) returns (ids: seq<EntityId>)
    modifies ecs
    ensures ids == IdsFrom(old(ecs.nextID), n)
    ensures ecs.nextID == old(ecs.nextID) + n
    ensures ecs.components == old(ecs.components)
  {
    ids := [];
    var i := 0;
    while i < n
      invariant 0 <= i <= n
      invariant ecs.nextID == old(ecs.nextID) + i
      invariant ecs.components == old(ecs.components)
      invariant ids + IdsFrom(old(ecs.nextID) + i, n - i) == IdsFrom(old(ecs.nextID), n)
    {
      var id := ecs.Create();
      ids := ids + [id];
      i := i + 1;
    }
  }

  /**
   * `n` successive `Create()` calls return strictly increasing, hence
   * pairwise distinct, ids, all above the counter's starting value; from a
   * fresh `ECS` (counter 0) none of them is the 0 sentinel.
   */
  lemma IdsStrictlyIncreasing(next: nat, n: nat)
    ensures forall i, j :: 0 <= i < j < n ==> IdsFrom(next, n)[i] < IdsFrom(next, n)[j]
    ensures forall i :: 0 <= i < n ==> IdsFrom(next, n)[i] > next
  {
    forall i | 0 <= i < n ensures IdsFrom(next, n)[i] == next + 1 + i {
      IdsFromAt(next, n, i);
    }
  }

  datatype Kind = Position | Velocity

  /**
   * The first half of the end-to-end scenario below: `e1 = Create()` is 1 and
   * gets Position 10; `e2 = Create()` is 2 and gets Position 20 and Velocity 1.
   */
  method Populate() returns (ecs: ECS<Kind, int>, e1: EntityId, e2: EntityId)
    ensures fresh(ecs) && e1 == 1 && e2 == 2 && ecs.nextID == 2
    ensures forall x :: HasIn(ecs.components, Position, x) <==> x == e1 || x == e2
    ensures forall x :: HasIn(ecs.components, Velocity, x) <==> x == e2
    ensures ValueAt(ecs.components, Position, e1) == 10 && ValueAt(ecs.components, Position, e2) == 20
  {
    ecs := new ECS<Kind, int>(k => 0);
    e1 := ecs.Create();
    ecs.Assign(Position, e1, 10);
    assert forall x :: HasIn(ecs.components, Position, x) <==> x == e1;
    assert Slot(ecs.components, Velocity) == None;
    e2 := ecs.Create();
    ecs.Assign(Position, e2, 20);
    assert forall x :: HasIn(ecs.components, Position, x) <==> x == e1 || x == e2;
    ecs.Assign(Velocity, e2, 1);
  }

  /**
   * The end-to-end scenario: after `Populate`, the Position/Velocity query
   * calls back with `e2` only; after `Destroy(e2)`, `Has<Position>(e2)` is
   * false and the same query calls back with nothing.
   */
  method Scenario()
  {
    var ecs, e1, e2 := Populate();
    var x := ecs.Get(Position, e2);
    assert x == 20;
    ghost var before := ecs.components;
    assert forall y :: HasAll(before, [Velocity], y) <==> HasIn(before, Velocity, y) by {
      assert [Velocity][0] == Velocity;
    }
    var seen := ecs.ForEach(Position, [Velocity]);
    assert Matches(before, Position, [Velocity]) == {e2};
    assert e2 in seen && forall x :: x in seen ==> x == e2;
    ecs.Destroy(e2);
    var has := ecs.Has(Position, e2);
    assert !has;
    before := ecs.components;
    seen := ecs.ForEach(Position, [Velocity]);
    assert forall x :: x !in Matches(before, Position, [Velocity]);
    assert forall x :: x !in seen;
  }

  /**
   * `Has<T>` for a type that was never used leaves a null entry, on which the
   * written `Destroy` would dereference a null pointer.
   */
  method NullEntryScenario()
  {
    var ecs := new ECS<Kind, int>(k => 0);
    var e := ecs.Create();
    var has := ecs.Has(Velocity, e);
    assert !has;
    HasBreaksDestroyAsWritten<Kind, int>(map[], Velocity);
    assert !NoNullEntries(ecs.components);
    ecs.Destroy(e);
    assert ecs.components == map[Velocity := None];
  }
}
