# willengine ECS core, modelled in Dafny

This project models the entity/component store of the willengine game engine
(`src/ECS/ECS.h`, `src/ECS/ECS.cpp`) and proves what it promises:

- the id allocator `ECS::Create` pre-increments `m_nextID`, so ids start at 1
  and strictly increase;
- a per-type store `SparseSet<T>` maps entity ids to component values, and its
  type-erased base `SparseSetHolder` offers only `Has` and `Drop`;
- the registry `m_components` maps a type key (built from `std::type_index`, `src/ECS/ECS.h:54`) to a holder.
  `Get<T>`, `Drop<T>` and `GetAppropriateSparseSet<T>` create the store for `T`
  lazily; `Get<T>` inserts a default value for an absent entity;
- `Has<T>`, `Drop<T>`, `Destroy` and the intersection query
  `ForEach<First, Rest...>`, which is driven by `First`'s store.

Layout:

- `wrappers.dfy`: `Option`. `None` is the null `unique_ptr` that
  `m_components[index]` inserts for a key it has not seen.
- `sparse_set.dfy` (module `SparseSets`): `EntityId` and the store datatype.
- `registry.dfy` (module `Registry`): the registry as
  `map<K, Option<SparseSet<V>>>`. Each facade operation's effect on it is a
  function of the registry before the call (`Touch`, `WithStore`, `Upsert`,
  `Assigned`, `Dropped`, `Destroyed`, `Matches`, `QueryTouched`). Those
  functions carry the properties, and the lemmas relate them to each other.
- `ecs.dfy` (module `ECSCore`): the class `ECS<K, V>` with fields `nextID` and
  `components`. Its methods update those fields in place. Each `ensures` ties
  the new state to the registry functions of the old state. The module also
  holds `CreateN` (n calls of `Create`), the id-sequence lemmas, and the
  client scenarios `Populate`, `Scenario` and `NullEntryScenario`.

The class is generic. `K` stands for the component type key. `V` stands for
component values, one value type for all component types. The constructor
takes `defaultOf: K -> V`, which gives the value a default-constructed
component of each type has.

Three behaviours of the code are easy to miss, and the model keeps all three.

- `Has<T>` on a type that was never used does not create an empty store. It
  inserts a null entry for the key, compares it with `nullptr` and returns
  false (`src/ECS/ECS.h:55`).
- `ForEach` on a `First` without a store does insert a null entry for
  `First` (`src/ECS/ECS.h:79`).
- The inner loop of `ForEach` inserts null entries for the `Rest` keys it
  reaches. The model states exactly which keys these are (`QueryTouched`).

## Model

| member | source | states |
|---|---|---|
| `SparseSets.SparseSet.Drop` | src/ECS/ECS.h:28 | afterwards `e` is absent; membership and values of every other entity are unchanged; a no-op when `e` was absent |
| `SparseSets.SparseSet.Has` | src/ECS/ECS.h:27 | holds exactly when a value is stored for `e` |
| `SparseSets.Empty` | src/ECS/ECS.h:115 | a freshly made store holds no entity |
| `Registry.Touch` | src/ECS/ECS.h:55 | `m_components[k]` adds `k` to the registry's keys and changes no store: every key has the same (possibly null) holder as before; a null entry results whenever `k` had no store |
| `Registry.HasIn` | src/ECS/ECS.h:54-56 | the answer of `Has<T>(e)`: false when `T` has no entry or a null one, otherwise whether `T`'s store holds `e` |
| `Registry.WithStore` | src/ECS/ECS.h:107-120 | `GetAppropriateSparseSet` leaves a store for `k`; an existing store is kept as is (so there is at most one per key); a new one is empty; other keys' entries are untouched |
| `Registry.Upsert` | src/ECS/ECS.h:44-48 | after `Get<T>(e)` the entity has T; its value is the old one if present and the default otherwise; a present entity leaves the registry unchanged; other entities and other keys are untouched |
| `Registry.Assigned` | src/ECS/ECS.h:43-48 | a write `Get<T>(e) = v` leaves `e` holding `v` in T's store; other entities and other keys are untouched |
| `Registry.AssignedThenGet` | src/ECS/ECS.h:47 | a later `Get<T>(e)` after `Get<T>(e) = v` returns `v` and changes nothing |
| `Registry.Dropped` | src/ECS/ECS.h:60-64 | after `Drop<T>(e)`, `Has<T>(e)` is false and T's store exists; other entities, values and keys are unchanged; when `e` was absent the only effect is the creation of T's store |
| `Registry.UpsertThenDrop` | src/ECS/ECS.h:45-64 | for every registry, `Drop<T>(e)` after `Get<T>(e)` leaves the same registry as `Drop<T>(e)` alone; dropping an entity that `Get` just auto-vivified in an existing store restores the registry exactly |
| `Registry.DropSlot` | src/ECS/ECS.cpp:23 | `comps->Drop(e)` on one registry entry: a null entry stays null; a store loses `e` and keeps every other entity and value |
| `Registry.Destroyed` | src/ECS/ECS.cpp:19-25 | after `Destroy(e)`, `e` is absent from every store, including types it never held; the key set, null entries and all other entities' components and values are unchanged |
| `Registry.DestroyAsWritten` | src/ECS/ECS.cpp:22-24 | the loop as written is defined only when no entry is null; where it is defined, it leaves every entry non-null and `e` in no store |
| `Registry.DestroyAsWrittenAgrees` | src/ECS/ECS.cpp:22-24 | where no entry is null, the written loop and the null-skipping `Destroyed` give the same registry |
| `Registry.HasBreaksDestroyAsWritten` | src/ECS/ECS.h:54-56 | `Has<T>` on a type without a store leaves a null entry, which violates the precondition of the written `Destroy` |
| `Registry.SameSlotsSameAnswers` | src/ECS/ECS.h:55-56 | a null entry answers `Has` exactly as a missing one does: registries with the same holders agree on every `Has` and every value |
| `Registry.Matches` | src/ECS/ECS.h:84-99 | the callback set of `ForEach` is the set of entities in `First`'s store that are in every `Rest` store (a missing or null store counts as absent); it is empty when `First` has no store |
| `Registry.ReachedByBreak` | src/ECS/ECS.h:88-93 | when the inner loop breaks at the first key the entity lacks, the keys it has evaluated are exactly those up to that one |
| `Registry.SameSlotsSameReach` | src/ECS/ECS.h:88-93 | the null entries inserted during the query change neither the inner loop's answer nor the keys it reaches |
| `Registry.TouchAllPreservesMatches` | src/ECS/ECS.h:79 | null entries left by `Has`/`ForEach` never change a later query's result |
| `Registry.DestroyedMatches` | src/ECS/ECS.cpp:19-25 | after `Destroy(e)` every query returns what it returned before, minus `e` |
| `ECSCore.ECS.constructor` | src/ECS/ECS.cpp:5-7 | a fresh engine has `m_nextID == 0` and an empty registry |
| `ECSCore.ECS.Create` | src/ECS/ECS.cpp:13-17 | returns the previous counter + 1 and stores it as the new counter; the registry is unchanged |
| `ECSCore.ECS.Index` | src/ECS/ECS.h:114 | `m_components[k]` returns `k`'s holder (null when absent) and leaves the registry as `Touch` says |
| `ECSCore.ECS.GetAppropriateSparseSet` | src/ECS/ECS.h:107-120 | the registry becomes `WithStore`; returns the contents of `k`'s store: the existing contents, or empty for a new store |
| `ECSCore.ECS.Get` | src/ECS/ECS.h:44-48 | the registry becomes `Upsert` with `defaultOf(k)`; returns the stored value (the old value, or the default for an absent entity), which is now present |
| `ECSCore.ECS.Assign` | src/ECS/ECS.h:43-48 | a write through `Get`'s reference: the registry becomes `Assigned` |
| `ECSCore.ECS.Has` | src/ECS/ECS.h:51-57 | returns false without a store and otherwise whether the store holds `e`; creates no store, but the registry becomes `Touch(k)` |
| `ECSCore.ECS.Drop` | src/ECS/ECS.h:60-64 | the registry becomes `Dropped` |
| `ECSCore.ECS.Destroy` | src/ECS/ECS.cpp:19-25 | the loop over all registry entries leaves the registry `Destroyed(e)`; the counter is unchanged |
| `ECSCore.ECS.HasAllComponents` | src/ECS/ECS.h:86-93 | the inner loop returns whether `e` is in every `Rest` store; it leaves null entries exactly for the keys up to the first one missing |
| `ECSCore.ECS.ForEach` | src/ECS/ECS.h:69-100 | the visited entities are exactly `Matches`, each visited once; none when `First` has no store; no store changes; the registry gains null entries exactly for `QueryTouched` |
| `ECSCore.CreateN` | src/ECS/ECS.cpp:13-17 | n successive `Create` calls on an engine return exactly `IdsFrom` of its starting counter, advance the counter by n and leave the registry unchanged |
| `ECSCore.IdsFromAt` | src/ECS/ECS.cpp:15-16 | the i-th id of `IdsFrom(next, n)`, i.e. of n successive `Create` calls by `CreateN`, is `next + 1 + i` |
| `ECSCore.IdsStrictlyIncreasing` | src/ECS/ECS.cpp:13-17 | the ids of `IdsFrom(next, n)`, which `CreateN` returns for n successive `Create` calls, are strictly increasing, pairwise distinct and all above the starting counter; from a fresh engine (counter 0) none is the 0 sentinel |

## Left out

- The `ForEach` callback: the model returns the sequence of entities the callback is called with. The callback's side effects are not modelled. This covers the physics step's `Get` calls inside its callback, `src/PhysicsManager/PhysicsManager.cpp:21`.
- `unordered_map` iteration order: `ForEach` and `Destroy` take the next key by an arbitrary choice from the keys not yet visited. Nothing is proved about order, because the source promises none.
- References: `Get<T>` returns a reference, which the model replaces by a value. A write through the reference is modelled as the method `Assign`. Reference-invalidation rules of `unordered_map` are not modelled.
- In-place update of a store: `SparseSet::Drop` and the facade's `erase` and `operator[]` on a store are modelled as functions on the store's map, and the registry field is then reassigned. Each store is owned by exactly one `unique_ptr`, so there is no aliasing to lose.
- Type erasure and the `static_cast` at `src/ECS/ECS.h:119`: all component types share one value type `V`, and stores are keyed by type key. The cast is therefore trivially safe.
- Type keys: a `ComponentIndex` is built from `std::type_index(typeid(T))` (`src/ECS/ECS.h:54`, `src/ECS/ECS.h:73`); its typedef is in a header this model does not include. Here it is the type parameter `K`. That distinct types get distinct keys is taken as given.
- `entityID`: its typedef is in a header this model does not include. Here it is an unbounded `nat`, so overflow of `m_nextID` after 2^N calls is not modelled.
- `ECS::~ECS` (`src/ECS/ECS.cpp:9-11`): it has an empty body, and memory release is not modelled.
- `Has<T>` evaluates `m_components[index]` twice; the model evaluates it once. The second evaluation cannot change the registry.
- The inner loop of `ForEach` (`src/ECS/ECS.h:87-93`): the model writes it as its own method, `HasAllComponents`. The loop, its early `break` and its registry effect are the same as in the source.
- `ECSCore.ECS.Destroy` skips null registry entries, whereas the source dereferences them. The as-written behaviour is `Registry.DestroyAsWritten` (see Findings).
- The rest of the repository is not modelled: graphics, scripting, sound, input, physics, scene and resource management, the editor, the engine loop and events. None of it is part of the entity/component store.

## Findings

| source | as written | input that shows it | evidently intended | confidence | as-written member | corrected member |
|---|---|---|---|---|---|---|
| src/ECS/ECS.cpp:22-24 | `Destroy` calls `comps->Drop(e)` on every registry entry. `Has<T>` (`src/ECS/ECS.h:55`) and `ForEach` (`src/ECS/ECS.h:79`, `src/ECS/ECS.h:89`) insert null entries via `m_components[index]`, so some entries may be null | on a fresh engine, `e = Create(); Has<Velocity>(e); Destroy(e)` dereferences the null holder left for `Velocity` | `Destroy` removes `e` from every store that exists and skips null entries | not executed; high | `Registry.DestroyAsWritten`, `Registry.HasBreaksDestroyAsWritten` | `Registry.Destroyed`, `ECSCore.ECS.Destroy` |
