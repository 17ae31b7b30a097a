# ecs-tiny in Dafny

A model of `ECS<C, K>`, the entity/component store of the `ecs-tiny` crate,
together with the `slab::Slab` allocator it is built on. Both are modelled
as imperative classes. The model proves:

- every query and update of the store computes exactly what a pure function
  over the store's tables computes;
- the consistency invariant that the crate's `.check()` calls rely on is
  preserved by every operation, so none of those checks can fail.

## What is modelled

The store keeps four tables (`src/lib.rs:93-99`):

- `entities`: a slab of `()`. An entity key is a slot of this slab.
- `comp_metas`: a hash map from a kind `K` to a slab of `CompMeta`
  (`src/lib.rs:59-65`). A `CompMeta` is a component value, its owner, and
  the owner's two relation slots that point back at it. A component key is
  the pair (kind, slot).
- `relation_0`: a hash map from an entity to a slab of (kind, slot). This is
  the entity's *directory* of its components.
- `relation_1`: a hash map from (entity, kind) to a slab of slots. This is
  the entity's *index* of its kind-`k` components.

The project is four files:

- `slab.dfy`:
  - `Options`: the `Option` datatype. `None` is the store's only error.
  - `KeyOrder`: ascending key order and `Listing`, the (key, value) pairs of
    a map in that order. Slabs iterate in this order.
  - `Slabs`: `Slab<T>`, a class over a vector of `Vacant(next)` /
    `Occupied(value)` entries. `next` is the head of the free list. `Valid()`
    says the free list is well formed and that the occupied entries are
    exactly the ghost map `Contents`. `Alloc()` is the slab's allocation
    state, a `Vacancy`: its free list, head first, and the vector's length.
    `NextKey`, `Popped` and `Pushed` say which key the next insert returns
    and how an insert or a removal moves that state. So every key a slab
    hands out follows from its contracts.
- `slab_map.dfy`, module `SlabMaps`: `SlabMap<Q, T>`, a hash map of slabs.
  The field `slabs: map<Q, Slab<T>>` holds distinct slab objects. The ghost
  map `M` holds the contents of each slab, and the ghost map `A` its
  allocation state. Each method stands for one
  `entry(q).or_default()`, `get`, `get_mut` or `remove` call of the crate,
  followed by the slab call made on the slab it finds.
- `ecs_model.dfy`, module `EcsModel`:
  - the four tables as one value, `Tables` (`src/lib.rs:93-99`), over
    `CompMeta` (`src/lib.rs:59-65`);
  - the invariant `Consistent`: every component links to its owner's
    directory and index, and every directory and index entry points back.
    It is what each `.check()` (`src/lib.rs:626-634`) relies on;
  - every operation as a function from tables to tables;
  - the lemmas that prove what the store promises.
- `ecs.dfy`, module `Ecs`: the class `ECS`. It holds the four tables as
  objects. `Model()` reads their live contents as a `Tables` value. Each
  method is proved to change `Model()` exactly as the matching `EcsModel`
  function does.

Behaviours of the crate that the model keeps as they are:

- Every failure is `None`, and keys carry no generation. A stale component
  key therefore reaches whatever component later reuses its slot.
- `remove_entity` takes the entity's directory out of `relation_0`, but it
  leaves the entity's emptied index slabs in `relation_1`. So once an entity
  has held a kind-`k` component, `iter_comp_by_entity(e, k)` answers
  `Some` of an empty sequence, even after the entity is removed
  (`EcsModel.StaleIndex`).
- Slab keys are handed out in order: from the head of the free list, most
  recently freed first, and from the end of the vector when the list is
  empty (`Slabs.FreshKeysExample`, `Slabs.ReusedKeysExample`). The store's
  methods state how each call moves the allocation state of every slab it
  touches; `remove_entity` frees the directory's components in directory
  order (`SlabMaps.Freed`, `Ecs.IndexFreed`). For example, the key
  `remove_entity` frees is the next one `insert_entity` hands out, unless
  another entity is removed in between or `clear` is called
  (`Ecs.EntityReuse`); and the slot `remove_comp` frees is the next one
  `insert_comp` gives a component of that kind, unless another component of
  that kind is removed in between or `clear` is called (`Ecs.SlotReuse`).
- The store's tables are never replaced. Each method states which of them
  it may change, and what each table's footprint of objects becomes: only
  `new`, `insert_comp` and its helpers create slab objects, and every other
  method keeps every footprint as it was.

`get_comp_mut`, `iter_comp_mut` and `iter_comp_mut_by_entity` hand out
mutable references. Each is modelled as a method that takes the caller's
write as a function `update: C -> C`. The method returns the values the
references pointed at, and stores `update` of each value in its place.

## Model

| member | source | states |
|---|---|---|
| KeyOrder.AscendingSpec | src/lib.rs:246-248 | the ascending order in which a slab yields its keys is strictly increasing and holds exactly the live keys |
| KeyOrder.ListingHolds | src/lib.rs:434-439 | a slab's iteration yields every live (key, value) pair, each with its stored value, in strictly ascending key order, and nothing else |
| KeyOrder.AscendingExample | src/lib.rs:246-248 | the live keys 0, 1 and 2 are listed as 0, 1, 2 |
| KeyOrder.ListingIs | src/lib.rs:246-248 | any sequence of entries with ascending keys that holds exactly a map's entries is that map's listing, so iteration order is unique |
| Slabs.Slab.constructor | src/lib.rs:101-110 | a new slab is empty, with no free slots and no entries, so its first key is 0 |
| Slabs.Slab.VacantKey | src/lib.rs:276 | `vacant_key` names a slot that is not live: the head of the free list, or the end of the vector when the list is empty |
| Slabs.Slab.Insert | src/lib.rs:152-154 | `insert` returns the key `vacant_key` named before the call and stores the value there; the free list is popped, or the vector grows by one when it is empty |
| Slabs.Slab.Get | src/lib.rs:217-220 | `get` is `Some` exactly for a live key, with its value |
| Slabs.Slab.TryRemove | src/lib.rs:175-176 | `try_remove` returns the live value and frees its slot, which is pushed on the free list and becomes the next vacant key; on a free or out-of-range key it returns `None` and changes nothing |
| Slabs.Slab.Update | src/lib.rs:397-404 | `get_mut` plus a write: returns the live value, stores `f` of it, and keeps the allocation state |
| Slabs.Slab.Clear | src/lib.rs:617-618 | `clear` empties the slab and its free list, so allocation restarts at 0 |
| Slabs.Slab.Iter | src/lib.rs:246-248 | `iter` yields the live (key, value) pairs in ascending key order |
| Slabs.Slab.IterMut | src/lib.rs:469-474 | `iter_mut` plus a write through each reference: returns the values in key order, each live slot holds `f` of its old value, and the allocation state is kept |
| Slabs.Slab.UpdateEach | src/lib.rs:589-594 | writing through `get_mut` on distinct keys updates exactly those live keys, once each, and keeps the allocation state |
| Slabs.FreshKeysExample | src/lib.rs:236-244 | the `iter_entity` example: a new slab hands out 0, 1 and 2 in turn and iteration yields them in that order |
| Slabs.FreedKeysExample | src/lib.rs:175-176 | freeing 0 and then 1 returns both values and leaves 1 on top of the free list |
| Slabs.ReusedKeysExample | src/lib.rs:152-154 | after freeing 0 and then 1, the next two inserts get 1 and then 0, and iteration goes by key, not by insertion |
| SlabMaps.FreedLastIsNext | src/lib.rs:180-191 | after a run of frees, the slot freed last is the next key its slab hands out |
| SlabMaps.FreedElsewhere | src/lib.rs:180-191 | a run of frees leaves the allocation state of every slab it does not free from |
| SlabMaps.SlabMap.constructor | src/lib.rs:101-110 | a new hash map of slabs is empty |
| SlabMaps.SlabMap.Has | src/lib.rs:434-435 | the lookup finds a slab exactly for a present key |
| SlabMaps.SlabMap.VacantKey | src/lib.rs:274-276 | the vacant key of the slab under `q` is not live and is the next key of its allocation state; an absent slab's vacant key is 0 |
| SlabMaps.SlabMap.Get | src/lib.rs:366-373 | `get(q)` then `get(key)` is `Some` exactly when both exist, with the stored value |
| SlabMaps.SlabMap.Iter | src/lib.rs:543-545 | `get(q)` then `iter()` yields the slab's listing in ascending key order, or `None` for an absent slab |
| SlabMaps.SlabMap.OrDefault | src/lib.rs:274 | `entry(q).or_default()` creates an empty slab only when none exists; contents and allocation states stay the same |
| SlabMaps.SlabMap.Insert | src/lib.rs:278-282 | `entry(q).or_default().insert(v)` returns the slab's former vacant key and stores `v` there, in a new empty slab if needed; only `q`'s allocation state moves, popped |
| SlabMaps.SlabMap.Put | src/lib.rs:278-282 | the slab call of `insert` on an existing slab: the value goes to its vacant key and only that slab's allocation state moves, popped |
| SlabMaps.SlabMap.Remove | src/lib.rs:326-327 | `get_mut(q)?.try_remove(key)` returns the live value and removes it, pushing `key` on `q`'s free list so it is `q`'s next vacant key; otherwise `None` and nothing changes |
| SlabMaps.SlabMap.Free | src/lib.rs:326-327 | the slab call of `try_remove` on a live key: the key leaves its slab, is pushed on its free list and is its next vacant key |
| SlabMaps.SlabMap.Take | src/lib.rs:178 | `remove(q)` returns the slab's listing and drops `q`'s contents and allocation state; `None` when absent |
| SlabMaps.SlabMap.Forget | src/lib.rs:178 | the hash map drops `q` with its contents and allocation state; the other slabs stay |
| SlabMaps.SlabMap.Update | src/lib.rs:397-404 | `get_mut(q)?.get_mut(key)` plus a write: returns the old value and stores `f` of it; every allocation state is kept |
| SlabMaps.SlabMap.Write | src/lib.rs:397-404 | a write through `get_mut` on a live key stores the new value and keeps every allocation state |
| SlabMaps.SlabMap.UpdateAll | src/lib.rs:469-474 | `get_mut(q)?.iter_mut()` plus a write: returns the old values in key order and maps `f` over the slab; every allocation state is kept |
| SlabMaps.SlabMap.UpdateEach | src/lib.rs:580-597 | writes `f` through the distinct listed keys of one slab, changes no other value and keeps every allocation state |
| SlabMaps.SlabMap.Clear | src/lib.rs:619-621 | `clear` drops every slab and its allocation state |
| EcsModel.GetEntity | src/lib.rs:217-220 | `get_entity` is `Some` exactly for a live entity |
| EcsModel.GetComp | src/lib.rs:366-373 | `get_comp` is `Some` exactly for a live (kind, slot), with its value |
| EcsModel.GetEntityByComp | src/lib.rs:501-508 | `get_entity_by_comp` is `Some` exactly for a live (kind, slot), with its owner |
| EcsModel.IterComp | src/lib.rs:434-439 | `iter_comp(k)` is `None` exactly when no store for `k` was created; otherwise it yields one value per live component |
| EcsModel.IterCompInSlotOrder | src/lib.rs:434-439 | `iter_comp(k)` yields the value of every live kind-`k` component, each once, in ascending slot order |
| EcsModel.IterCompByEntity | src/lib.rs:537-551 | `iter_comp_by_entity(e, k)` is `None` exactly when the kind store or `e`'s kind-`k` index is missing; otherwise it yields one value per index entry |
| EcsModel.IndexIsStored | src/lib.rs:546-548 | every slot an index lists is live in its kind's store: the `.check()` of `iter_comp_by_entity` never fails |
| EcsModel.ByEntityExactly | src/lib.rs:580-597 | `e`'s kind-`k` index lists exactly the live kind-`k` components `e` owns, each once, so the per-slot writes are disjoint |
| EcsModel.Empty | src/lib.rs:617-622 | the empty tables are consistent; every `get_*` and `iter_comp*` returns `None` and `iter_entity` yields nothing |
| EcsModel.InsertEntity | src/lib.rs:152-154 | after `insert_entity` the new key is live and no other key changes liveness |
| EcsModel.InsertEntityEffect | src/lib.rs:152-154 | `insert_entity` keeps the invariant; a new or reused key starts with no directory, no components and only empty index slabs |
| EcsModel.EntityLifecycle | src/lib.rs:175-176 | an inserted entity is live; the first `remove_entity` kills it; the second finds nothing and changes nothing |
| EcsModel.InsertComp | src/lib.rs:269-299 | after `insert_comp`, `get_comp` of the new key returns the component and `get_entity_by_comp` returns its owner |
| EcsModel.InsertCompLinks | src/lib.rs:290-296 | after `insert_comp` every component still links to its owner's directory and index, including the new one |
| EcsModel.InsertCompEntries | src/lib.rs:278-288 | after `insert_comp` every directory and index entry still names a live component that points back at it |
| EcsModel.InsertCompEffect | src/lib.rs:269-299 | `insert_comp` into fresh slots keeps the invariant and every other component's value and owner |
| EcsModel.RemoveComp | src/lib.rs:323-342 | after `remove_comp`, `get_comp` and `get_entity_by_comp` of that key return `None` |
| EcsModel.RemoveCompLinks | src/lib.rs:326-339 | after `remove_comp` every remaining component still links to its owner's directory and index |
| EcsModel.RemoveCompEntries | src/lib.rs:329-339 | after `remove_comp` every remaining directory and index entry names a live component that points back at it |
| EcsModel.RemoveCompEffect | src/lib.rs:323-342 | `remove_comp` keeps the invariant and every other component; a second `remove_comp` or a `get_comp_mut` of that key changes nothing |
| EcsModel.Drop | src/lib.rs:180-191 | one turn of `remove_entity`'s loop leaves that slot dead and keeps the table shapes |
| EcsModel.Cascade | src/lib.rs:179-192 | `remove_entity`'s loop keeps the entities, the directories and the table shapes |
| EcsModel.Directory | src/lib.rs:178-179 | the loop visits one entry per directory slot |
| EcsModel.RemoveEntity | src/lib.rs:175-196 | after `remove_entity` the entity is dead |
| EcsModel.DirectoryListsOwned | src/lib.rs:178-179 | a live entity's directory lists exactly the components it owns, each once |
| EcsModel.CascadeStartLinks | src/lib.rs:176-178 | with the entity and its directory gone, the links of other owners' components still hold |
| EcsModel.CascadeStart | src/lib.rs:176-179 | before the loop, the components left to drop are exactly the directory's entries |
| EcsModel.DropLinks | src/lib.rs:180-191 | dropping an owned component keeps all other links |
| EcsModel.DropPending | src/lib.rs:180-191 | after a turn, the rest of the directory is exactly the components the entity still owns |
| EcsModel.CascadeStep | src/lib.rs:180-191 | each turn of the loop keeps the loop invariant, so both `.check()` calls of the next turn succeed |
| EcsModel.DropTrimmed | src/lib.rs:180-191 | a turn drops only the removed entity's component and its index entry |
| EcsModel.CascadeFrom | src/lib.rs:179-192 | the whole loop ends with nothing left pending and nothing but the entity's components dropped |
| EcsModel.CascadeEnd | src/lib.rs:192-195 | after the loop the tables are consistent and nothing refers to the removed entity |
| EcsModel.RemovedState | src/lib.rs:175-196 | `remove_entity` on a live entity ends in a consistent, trimmed state |
| EcsModel.TrimmedQueries | src/lib.rs:175-196 | after `remove_entity` exactly the components of the entity are gone and every other keeps its value and owner |
| EcsModel.RemoveEntityEffect | src/lib.rs:175-196 | `remove_entity` keeps the invariant and removes exactly the entity, its directory and the components it owned; its index slabs stay, emptied |
| EcsModel.StaleIndex | src/lib.rs:544 | after `remove_entity(e)`, `iter_comp_by_entity(e, k)` answers `Some` of nothing once `e` has held a kind-`k` component |
| EcsModel.StaleIndexReused | src/lib.rs:544 | when `insert_entity` hands a removed key out again, the new entity is live, the tables are consistent, and it inherits the empty index: `iter_comp_by_entity` answers `Some` of nothing |
| EcsModel.UpdateComp | src/lib.rs:397-404 | `get_comp_mut` plus a write: the live component under the key holds `f` of its old value |
| EcsModel.ValuesOnlyConsistent | src/lib.rs:397-404 | writing component values without touching links keeps the invariant |
| EcsModel.UpdateCompEffect | src/lib.rs:397-404 | `get_comp_mut` keeps the invariant, every owner and every other value |
| EcsModel.UpdateKind | src/lib.rs:469-474 | `iter_comp_mut(k)` changes component values only: every slot, owner, directory and index entry stays |
| EcsModel.UpdateKindEffect | src/lib.rs:469-474 | `iter_comp_mut(k)` keeps the invariant and changes exactly the kind-`k` values, each to `f` of itself |
| EcsModel.UpdateOwned | src/lib.rs:580-597 | `iter_comp_mut_by_entity(e, k)` changes component values only: every slot, owner, directory and index entry stays |
| EcsModel.UpdateOwnedValues | src/lib.rs:580-597 | `iter_comp_mut_by_entity(e, k)` changes exactly `e`'s kind-`k` values, each once |
| EcsModel.UpdateOwnedEffect | src/lib.rs:580-597 | `iter_comp_mut_by_entity` keeps the invariant and every owner |
| Ecs.ECS.constructor | src/lib.rs:132-134 | `new` builds four empty, consistent tables; every slab's allocation starts empty, so entity keys start at 0; the entity slab and the three hash maps of slabs, with their footprints, are new objects |
| Ecs.ECS.InsertEntity | src/lib.rs:152-154 | `insert_entity` returns the entity slab's vacant key, which was dead, makes it live and pops the entity slab's allocation state |
| Ecs.ECS.GetEntity | src/lib.rs:217-220 | `get_entity` on the slab agrees with `EcsModel.GetEntity` |
| Ecs.ECS.IterEntity | src/lib.rs:246-248 | `iter_entity` yields the live entity keys in ascending order |
| Ecs.ECS.InsertComp | src/lib.rs:269-299 | `insert_comp` returns `None` and changes nothing for a dead entity; otherwise it returns (kind(c), the kind store's former vacant key), moves the tables as `EcsModel.InsertComp` does, pops the allocation state of each of the three slabs it inserts into, and leaves the entity slab alone; each hash map of slabs gains only new objects |
| Ecs.ECS.Add | src/lib.rs:274-296 | the three inserts of `insert_comp`: the directory entry, the index entry and the meta go to their slabs' vacant keys, each slab's allocation state is popped, and each hash map of slabs gains only new objects |
| Ecs.ECS.Link | src/lib.rs:278-288 | the directory and index entries go to their slabs' vacant keys, whose allocation states are popped; the kind stores stay and the relations gain only new objects |
| Ecs.ECS.Place | src/lib.rs:296 | the meta goes to the kind store's vacant key, whose allocation state is popped; the relations stay and the kind stores gain only new objects |
| Ecs.ECS.Unstore | src/lib.rs:326-327 | the kind store gives up the live meta at (kind, slot) and the slot becomes its next vacant key, or `None` and the kind stores do not change |
| Ecs.ECS.Unlink0 | src/lib.rs:329-333 | the `.check()`ed directory removal finds its entry, removes just it and pushes its slot on that directory's free list; the directories' footprint stays |
| Ecs.ECS.Unlink1 | src/lib.rs:335-339 | the `.check()`ed index removal finds its entry, removes just it and pushes its slot on that index's free list |
| Ecs.ECS.RemoveComp | src/lib.rs:323-342 | `remove_comp` returns what `get_comp` saw before and moves the tables as `EcsModel.RemoveComp` does; on a live key each of the three freed slots is pushed on its slab's free list, so the slot is the kind store's next vacant key; otherwise nothing changes; every table keeps its footprint |
| Ecs.ECS.DropComp | src/lib.rs:180-191 | turn `i` of `remove_entity`'s loop is `EcsModel.Drop` of the `i`-th directory entry, both `.check()` calls succeed, and the later entries are still pending; the meta's slot and its index slot are freed, one step of `SlabMaps.Freed` and `Ecs.IndexFreed` |
| Ecs.ECS.TakeDirectory | src/lib.rs:178 | `relation_0.remove(e)` yields the directory's entries in slot order, or none, and drops `e`'s directory with its allocation state |
| Ecs.ECS.Cascade | src/lib.rs:179-192 | the loop is `EcsModel.Cascade` over the directory's entries and ends with nothing pending; the kind stores' allocation states are `Freed` of the entries in order, the indexes' are `IndexFreed` of them, and no footprint changes |
| Ecs.IndexFreedElsewhere | src/lib.rs:180-191 | `remove_entity(e)`'s loop frees only from `e`'s indexes: every other entity's keep their allocation states |
| Ecs.ECS.RemoveOwned | src/lib.rs:178-193 | after the entity slab, the rest of `remove_entity` is `EcsModel.RemoveEntity` and leaves the tables consistent; `e`'s directory and its allocation state are gone, and the kind stores and indexes free the directory's entries in order |
| Ecs.ECS.RemoveEntity | src/lib.rs:175-196 | `remove_entity` is `Some` exactly for a live entity and moves the tables as `EcsModel.RemoveEntity` does; the freed key is pushed on the entity slab's free list and is the next one handed out; the directory's allocation state is dropped, the kind stores' become `SlabMaps.Freed` of the directory's entries in directory order and the indexes' `Ecs.IndexFreed` of them; on `None` nothing changes; every table keeps its footprint |
| Ecs.ECS.GetComp | src/lib.rs:366-373 | `get_comp` over the slabs agrees with `EcsModel.GetComp` |
| Ecs.ECS.GetEntityByComp | src/lib.rs:501-508 | `get_entity_by_comp` over the slabs agrees with `EcsModel.GetEntityByComp` |
| Ecs.ECS.GetCompMut | src/lib.rs:397-404 | `get_comp_mut` returns what `get_comp` saw and writes `update` of it in place; only the kind stores change, and their allocation states are kept and footprint |
| Ecs.ECS.IterComp | src/lib.rs:434-439 | `iter_comp` over the slab agrees with `EcsModel.IterComp` |
| Ecs.ECS.IterCompMut | src/lib.rs:469-474 | `iter_comp_mut` returns what `iter_comp` saw and writes `update` of every kind-`k` value in place; only the kind stores change, and their allocation states are kept and footprint |
| Ecs.ECS.IterCompByEntity | src/lib.rs:537-551 | `iter_comp_by_entity` agrees with `EcsModel.IterCompByEntity`; each `.check()` lookup finds its component |
| Ecs.ECS.IterCompMutByEntity | src/lib.rs:580-597 | `iter_comp_mut_by_entity` returns what `iter_comp_by_entity` saw and writes `update` of each of those values in place; only the kind stores change, and their allocation states are kept and footprint |
| Ecs.ECS.UpdateSlots | src/lib.rs:589-594 | the per-slot writes touch only the listed slots of one kind store and keep its allocation states and footprint |
| Ecs.ECS.ClearMaps | src/lib.rs:619-621 | the three hash maps of slabs are emptied, with their allocation states, and keep their footprints |
| Ecs.ECS.Clear | src/lib.rs:617-622 | `clear` leaves the empty tables, and every slab's allocation restarts, so entity keys start again at 0; the store's footprint is the same objects |
| Ecs.SlotReuse | src/lib.rs:323-342 | after `remove_comp` of a live key, the next `insert_comp` of that kind by a live entity returns the same key, and `get_comp` of it returns the new component |
| Ecs.EntityReuse | src/lib.rs:175-196 | `remove_entity` succeeds exactly for a live entity, and then the next `insert_entity` returns the same key, live again, which answers `iter_comp_by_entity` with `Some` of nothing for every kind the old entity had an index of |
| Ecs.TwoEntitiesExample | src/lib.rs:236-238 | on a store as `new` or `clear` leaves it, two `insert_entity` calls return 0 and then 1 |
| Ecs.IterEntityExample | src/lib.rs:236-244 | the `iter_entity` example through a whole store: three `insert_entity` calls return 0, 1 and 2, and `iter_entity` yields them in that order |

## Left out

- Integer widths. Keys are `u32`, and slab keys are `usize` cast with
  `as u32`. The model uses unbounded `nat`, so it says nothing about stores
  with more than 2^32 slots in one slab.
- The slab crate's `len` counter, and its other operations. The store never
  reads them.
- Hashing. `AHashMap` is a Dafny `map`, and the hash function plays no part.
- Lazy iterators. Each iterator is its whole output as a sequence. The
  `_mut` iterators are read-then-write with a function `update`, applied to
  every element. Partial consumption of an iterator is not modelled.
- The raw-pointer cast in `iter_comp_mut_by_entity`
  (`src/lib.rs:589-594`). It is modelled as writes to a list of distinct
  slots, and that distinctness is proved (`EcsModel.ByEntityExactly`).
  The same lemma discharges that function's `.check()` (`src/lib.rs:591`):
  every slot the index lists is live in the kind store.
- `K::from(&C)`. It is the function `kind`, given to the constructor.
- Panics. `IntegrityCheck::check` (`src/lib.rs:626-634`) is not a modelled
  panic. Each `.check()` is an assertion proved from the invariant, in
  `Unlink0`, `Unlink1`, `DropComp`, `IterCompByEntity` and
  `IterCompMutByEntity`.
- The `Default`, `Debug` and `Clone` impls, and `src/main.rs`, a demo
  program for a different API.
- Order of operations in `insert_comp`. It creates the kind's slab before
  the two relation inserts. The model (`Ecs.ECS.Add`) does the two relation
  inserts first, then the meta insert, which creates the kind's slab if
  needed. No caller can observe the difference.
- The `iter_comp` example (`src/lib.rs:422-432`) is not a member through a
  whole store: a client method chaining two `insert_entity` and three
  `insert_comp` calls needs more than the verifier's resource limit. Its
  order follows from `EcsModel.IterCompInSlotOrder` and the allocation
  states `Ecs.ECS.InsertComp` states. The `iter_entity` example is a member
  through the store (`Ecs.IterEntityExample`).
