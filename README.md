# geode entity/component bookkeeping, modelled in Dafny

This project models the bookkeeping core of the geode entity-component
system:

- **Lifetime registry.** `Lifetimes.Registry` is the table of generational
  lifetime slots from `src/debug/lifetime.rs`. Each slot has a generation, a
  dependency count and a current and a dead name. A handle is alive while its
  generation matches its slot's. Destroying a lifetime bumps the generation
  (saturating at `u64::MAX`, where the slot is leaked rather than pooled).
  `Dependent` and `OwnedLifetime` count or destroy on construction and drop.
- **Archetypes.** `Entities.Archetype` (`src/entity.rs`) hands out entity
  slots. It reuses the least free slot first, owns the lifetime of every
  entity it holds, and ignores despawns of foreign or dead entities. The
  file's `ids_are_unique` test is replayed as `Entities.IdsAreUnique`.
- **Component storage.** `StorageCore.Storage` maps an archetype id to a run
  of slots. `insert` grows the run with `Empty` up to `slot + 1`. `remove`
  empties a slot and pops trailing `Empty` slots. `try_remove` drops a run
  from the map once a removal empties it.
  - `src/storage/core.rs`, `src/storage.rs` and `src/ecs/storage.rs` run the
    same algorithm. The shared run algorithm is `SlotRuns`; the map is
    `StorageCore`.
  - `StorageViews` has the mapped views and `try_remove_many` of
    `src/storage.rs`.
  - `StorageNew.StorageRun` is the owned/borrowed run of
    `src/storage_new.rs`.
- **Leaf utilities:**
  - `FreeLists.FreeList` (`src/util/free_list.rs`).
  - `NoHash.NoOpHasher` and `NoHash.RandIdGen` (`src/mem/no_hash.rs`).
  - `Events.EventQueue` and `Events.TaskQueue` (`src/event.rs`).
  - `Polyfill`, the `VecExt` helpers of `src/lang/polyfill.rs`.

Conventions:

- The debug configuration is modelled (`debug_assertions` on, real
  lifetimes).
- A `log::error!` / `log::warn!` that falls through changes no state and is
  not modelled.
- A panic (`assert!`, `expect`, `unwrap`, indexing out of range, arithmetic
  overflow) becomes a precondition.
- Integers are unbounded. `u32`/`u64` limits appear as explicit constants and
  preconditions. The `as u32` cast of `max_slot` is written out as `% 2^32`.
- `ArchetypeId` equality includes a `DebugLifetime`, whose equality is
  constantly true. Storage maps are therefore keyed by the numeric id alone
  (`Entities.ArchetypeIdEq`, `StorageCore.KeyMatchesEq`).
- The `hibitset` bitsets iterate in ascending order, so "the first free slot"
  is the least one.
- The global slot pool and the global archetype-id generator are objects the
  caller passes in (`Registry`, `RandIdGen`).

## Model

| member | source | states |
|---|---|---|
| Lifetimes.LifetimeEq | src/debug/lifetime.rs:85-89 | two handles are equal exactly when slot and generation agree |
| Lifetimes.DebugLifetimeEq | src/debug/lifetime.rs:362-368 | any two debug lifetimes compare equal |
| Lifetimes.DebugLifetimeCmp | src/debug/lifetime.rs:374-384 | every comparison of debug lifetimes is `Equal` |
| Lifetimes.SaturatingInc | src/debug/lifetime.rs:174 | below `u64::MAX` the generation grows by exactly one; at `u64::MAX` it stays put, and only there |
| Lifetimes.IncDeppedN | src/debug/lifetime.rs:113-128 | `n` increments add `n` to a live lifetime's count and touch no other field |
| Lifetimes.DecDeppedN | src/debug/lifetime.rs:139-153 | `n` decrements subtract `n` from a live lifetime's count and touch no other field |
| Lifetimes.DependentsBalance | src/debug/lifetime.rs:496-535 | `n` dependents created and `n` dropped give back the original table |
| Lifetimes.DeadIsUntouched | src/debug/lifetime.rs:116-118 | increments and decrements of a dead lifetime change nothing |
| Lifetimes.Registry.constructor | src/debug/lifetime.rs:37-57 | the registry starts with no slots, an empty pool and no handles |
| Lifetimes.Registry.FmtLifetimeName | src/debug/lifetime.rs:206-223 | current name when the generations match, dead name one generation behind, placeholder otherwise |
| Lifetimes.Registry.IsAlive | src/debug/lifetime.rs:105-107 | a handle is alive exactly when its captured generation is the slot's current one |
| Lifetimes.Registry.New | src/debug/lifetime.rs:92-103 | reuses a pooled slot or appends a fresh one (gen 1, no deps); stores the name; the new handle was never issued and is alive; no other handle changes liveness |
| Lifetimes.Registry.TryIncDep | src/debug/lifetime.rs:113-128 | true exactly for a live lifetime, whose count grows by one; a dead one leaves the table as it was |
| Lifetimes.Registry.IncDep | src/debug/lifetime.rs:130-137 | the table effect of `try_inc_dep`; a dead lifetime is only logged |
| Lifetimes.Registry.DecDep | src/debug/lifetime.rs:139-153 | no-op on a dead lifetime; one fewer on a live one, which must have a count (underflow panics) |
| Lifetimes.Registry.TryDestroy | src/debug/lifetime.rs:155-191 | a live lifetime gets gen+1, deps 0 and dead name := current name; it returns true and the handle is dead; the slot goes back to the pool unless its generation reached `u64::MAX`; a dead one returns false with no change; no other handle changes liveness |
| Lifetimes.Registry.Destroy | src/debug/lifetime.rs:193-200 | the effect of `try_destroy`: a live lifetime's slot gets gen+1, deps 0, no current name and the old current name as dead name, and goes back to the pool unless its generation reached `u64::MAX`; a double destruction changes nothing |
| Lifetimes.Registry.NewDependent | src/debug/lifetime.rs:497-500 | a dependent wraps the lifetime and counts one more dependency |
| Lifetimes.Registry.CloneDependent | src/debug/lifetime.rs:519-523 | a clone is a new dependent on the same lifetime |
| Lifetimes.Registry.DropDependent | src/debug/lifetime.rs:531-535 | dropping a dependent decrements the count |
| Lifetimes.Registry.DropOwned | src/debug/lifetime.rs:487-491 | dropping an owned lifetime destroys it: the slot is reset and pooled as in `destroy`, the handle is dead and every other handle keeps its liveness |
| Lifetimes.DependentsRoundTrip | src/debug/lifetime.rs:496-535 | constructing `n` dependents and dropping them leaves table and pool unchanged |
| NoHash.U32Hash | src/mem/no_hash.rs:15-19 | `(i << 32) + i` fits in 64 bits and both 32-bit halves are `i` |
| NoHash.NoOpHasher.constructor | src/mem/no_hash.rs:11-12 | a new hasher holds 0 |
| NoHash.NoOpHasher.WriteU32 | src/mem/no_hash.rs:15-19 | requires a fresh hasher; stores `(i << 32) + i` |
| NoHash.NoOpHasher.WriteU64 | src/mem/no_hash.rs:21-24 | requires a fresh hasher; stores `i` |
| NoHash.HashOfU32AndU64 | src/mem/no_hash.rs:15-32 | `finish` after `write_u32(i)` has `i` in both halves; after `write_u64(j)` it is `j` |
| NoHash.FreshIdExists | src/mem/no_hash.rs:44-63 | below `u32::MAX` ids in use, some nonzero `u32` id is still free, so the draw loop has a value to find |
| NoHash.RandIdGen.constructor | src/mem/no_hash.rs:37-41 | a new generator has no ids in use |
| NoHash.RandIdGen.Alloc | src/mem/no_hash.rs:44-63 | panics from `u32::MAX / 2` ids in use; returns a nonzero `u32` not in use before and adds exactly it |
| NoHash.RandIdGen.Dealloc | src/mem/no_hash.rs:65-68 | the id must be in use; it is removed |
| NoHash.AllocThenDealloc | src/mem/no_hash.rs:44-68 | `alloc` then `dealloc` of its result restores the id set |
| Entities.ArchetypeIdEq | src/entity.rs:23-27 | two archetype ids are equal exactly when their numbers are |
| Entities.ArchetypeHash | src/mem/no_hash.rs:15-19 | an archetype id hashes to a 64-bit value whose low half is the id |
| Entities.HashMatchesEq | src/entity.rs:23-27 | ids are equal exactly when their hashes are, so the identity hasher never collides |
| Entities.LeastExists | src/entity.rs:125 | a nonempty set of slot indices has a least member, which is what the bitset yields first |
| Entities.Archetype.constructor | src/entity.rs:103-118 | a new archetype has a fresh id from the generator, a new live lifetime, no slots and no free slots; the registry's other slots are untouched and only the lifetime's slot leaves the pool |
| Entities.Archetype.Id | src/entity.rs:207-212 | the handle carries the archetype's number and lifetime |
| Entities.Archetype.Spawn | src/entity.rs:120-146 | the entity gets a new live lifetime and `self.id()`; it takes the least free slot (leaving the free set) or appends one, and a new index may not be `u32::MAX`; the slot stores the owned lifetime; free slots stay exactly the empty ones; every other registry slot is unchanged, only the new lifetime's slot leaves the pool, and no other handle changes liveness |
| Entities.Archetype.Despawn | src/entity.rs:166-187 | a foreign or dead entity changes nothing; otherwise the slot is freed and cleared, and the owned lifetime stored there is destroyed exactly as `destroy` does (gen+1, deps 0, name moved, slot pooled below `u64::MAX`); only that lifetime dies |
| Entities.Archetype.Drop | src/entity.rs:242-249 | the id returns to the generator; the archetype's lifetime and every stored entity lifetime are dead afterwards; any other handle keeps its liveness, a registry slot used by none of them is unchanged, and the pool only grows |
| Entities.Archetype.DropSlots | src/entity.rs:98 | dropping the slot vector destroys each stored owned lifetime in order: all are dead afterwards, dead handles stay dead, other handles keep their liveness and unused registry slots are unchanged |
| Entities.SpawnPair | src/entity.rs:278-286 | two spawns into an empty archetype take slots 0 and 1 and both entities are alive |
| Entities.ReuseThenAppend | src/entity.rs:288-301 | after despawning slot 0 of two, the next spawn reuses 0 and the one after appends 2; the despawned entity is dead and the new ones alive |
| Entities.DespawnThenReuse | src/entity.rs:303-307 | a despawned entity is dead and its slot is reused by the next spawn |
| Entities.IdsAreUnique | src/entity.rs:269-308 | the test's scenario: distinct ids, slots 0,1,0,1,0,2,0, entity 1 dead and 2 to 6 alive, entity 3 dead after its despawn |
| SlotRuns.Value | src/storage.rs:752-764 | the component of a full slot, `None` for an empty one |
| SlotRuns.Pair | src/storage.rs:731-743 | the lifetime and component of a full slot, `None` for an empty one |
| SlotRuns.AccessorsAgree | src/storage.rs:727-729 | `is_full` holds exactly when `value()` is `Some`, and `pair` agrees with `value` |
| SlotRuns.IsFull | src/storage.rs:727-729 | a slot is full exactly when `value()` is `Some` |
| SlotRuns.Lookup | src/ecs/storage.rs:253-257 | reading past the end of a run gives an empty slot |
| SlotRuns.Placed | src/storage/core.rs:395-412 | after an insert the run has length `max(len, slot + 1)`, holds the new slot at `slot`, keeps the old slots and fills the gap with `Empty` |
| SlotRuns.Trim | src/storage/core.rs:419-421 | popping trailing `Empty` slots leaves a prefix that is empty or ends full, and only `Empty` slots were dropped |
| SlotRuns.Insert | src/storage.rs:563-581 | grow-and-replace gives the placed run and returns the slot's previous content (`Empty` for a new slot) |
| SlotRuns.Take | src/ecs/storage.rs:243-251 | out of range returns `Empty` with no trimming; otherwise takes the slot, empties it and pops trailing `Empty` slots |
| SlotRuns.PlacedTrimmed | src/storage/core.rs:396-412 | inserting keeps a run empty or ending full |
| SlotRuns.PlacedLookup | src/storage/core.rs:401-412 | after an insert only the inserted slot reads differently |
| SlotRuns.TrimLookup | src/storage/core.rs:419-421 | trimming changes no slot's reading |
| SlotRuns.TakenLookup | src/storage/core.rs:415-425 | removal returns the slot's old content; the slot then reads empty and every other slot as before |
| SlotRuns.TakenTrimmed | src/storage/core.rs:415-425 | removal keeps a run empty or ending full |
| SlotRuns.TrimmedUnique | src/storage/core.rs:419-421 | two trimmed runs that read alike everywhere are equal |
| SlotRuns.PlaceThenTake | src/storage/core.rs:374-425 | inserting into an empty slot of a trimmed run and removing it again restores the run and returns the value |
| SlotRuns.TakeEmptyIsNoOp | src/storage/core.rs:415-425 | removing from an empty slot of a trimmed run changes nothing |
| StorageCore.KeyMatchesEq | src/ecs/storage.rs:24 | two archetype ids select the same run exactly when they compare equal |
| StorageCore.GetIn | src/storage/core.rs:159-172 | `get` is `Some` exactly when the archetype has a run whose slot at the entity's index is full, and then it is that component |
| StorageCore.InsertThenGet | src/storage/core.rs:95-98 | after `insert(e, v)`, `get(e)` is `v` and every other entity reads as before |
| StorageCore.RemoveThenGet | src/storage/core.rs:116-135 | `try_remove(e)` returns what `get(e)` gave, leaves `get(e)` empty and every other entity as before |
| StorageCore.InsertKeepsTrimmed | src/storage/core.rs:396-412 | insertion keeps every run empty or ending full |
| StorageCore.RemoveKeepsTrimmed | src/storage/core.rs:419-421 | removal keeps every run empty or ending full |
| StorageCore.RemovalDropsEmptiedRun | src/storage/core.rs:130-132 | after a successful removal the archetype has no empty run left in the map |
| StorageCore.InsertThenRemove | src/storage.rs:285-304 | inserting into an entity without the component and removing it again restores the map and returns the value |
| StorageCore.GetSlotByIdx | src/storage.rs:443-460 | `None` at or past the end or for an empty slot; otherwise the stored pair |
| StorageCore.MaxSlot | src/storage/core.rs:334-336 | the run's length cast to `u32`: below 2^32 and equal to the length when it fits |
| StorageCore.PastMaxSlotIsAbsent | src/ecs/storage.rs:294-296 | no slot at or past `max_slot` holds a component |
| StorageCore.Storage.constructor | src/ecs/storage.rs:28-32 | a new storage has no runs |
| StorageCore.Storage.GetRun | src/storage/core.rs:51-58 | the archetype's run exactly when the map has one |
| StorageCore.Storage.GetOrCreateRun | src/ecs/storage.rs:69-78 | an existing run is returned unchanged; a missing one is created empty under the archetype's id |
| StorageCore.Storage.Get | src/storage.rs:328-341 | the component is the run's `get_slot_by_idx` at the entity's slot |
| StorageCore.Storage.Has | src/storage/core.rs:189-191 | `has` is true exactly when `get` returns a component |
| StorageCore.Storage.Insert | src/storage/core.rs:95-98 | the run map becomes the inserted map; returns the replaced component; afterwards `get(e) == Some(v)` and `has(e)` |
| StorageCore.Storage.Add | src/storage/core.rs:100-114 | the same state effect as `insert`; the already-present warning changes nothing |
| StorageCore.Storage.TryRemove | src/ecs/storage.rs:101-120 | returns the stored component and leaves `get(e)` empty; no run or an out-of-range slot changes nothing; an emptied run leaves the map |
| StorageCore.Storage.Remove | src/storage/core.rs:146-157 | the state effect of `try_remove`; the warning changes nothing |
| StorageCore.Storage.Index | src/ecs/storage.rs:187-194 | callable exactly when `has(e)`, and yields the component stored in the entity's slot |
| StorageCore.Storage.IndexMut | src/storage/core.rs:215-220 | requires the component; replaces the value and keeps the slot's lifetime |
| StorageCore.Storage.Clear | src/storage/core.rs:193-195 | no runs remain |
| StorageViews.MappedGet | src/storage.rs:126-128 | the mapped `get` is `Some` exactly when the storage has the component, and then it is the mapper applied to it |
| StorageViews.MappedHas | src/storage.rs:130-132 | `has` through the view is the storage's `has` |
| StorageViews.MappedIndex | src/storage.rs:114-116 | indexing through the view gives what the mapped `get` gives |
| StorageViews.RemovedAllSnoc | src/storage.rs:306-313 | removing from `es + [e]` is removing from `es` and then from `e` |
| StorageViews.RemovedAllClears | src/storage.rs:306-313 | after the removals, none of the entities has the component |
| StorageViews.RemovedAllKeepsAbsent | src/storage.rs:306-313 | removals never give an entity a component |
| StorageViews.TryRemoveMany | src/storage/core.rs:137-144 | the map is `try_remove` applied to each entity in order, and none of them has the component afterwards |
| StorageNew.StorageRun.constructor | src/storage_new.rs:212-220 | a new run is owned, with capacity 0 and no slots |
| StorageNew.StorageRun.TryAsMutSlice | src/storage_new.rs:234-240 | the slice exactly when the run is owned |
| StorageNew.StorageRun.IsOwned | src/storage_new.rs:226-228 | a run is owned exactly when its capacity is not the `usize::MAX` marker of a borrowed slice |
| StorageNew.StorageRun.UpdateSlotVec | src/storage_new.rs:259-282 | only an owned run may be updated; the resulting vector's capacity and slots become the run's |
| StorageNew.StorageRun.Insert | src/storage_new.rs:286-312 | requires an owned run; grows to `slot + 1` with `None` when needed, replaces the slot, returns the previous value; the capacity stays when no growth was needed |
| StorageNew.StorageRun.Remove | src/storage_new.rs:314-324 | requires an owned run even out of range; takes the slot's value and pops trailing `None` slots; out of range nothing changes; capacity unchanged |
| StorageNew.StorageRun.Get | src/storage_new.rs:326-343 | `None` past the end or for an empty slot; otherwise the slot's lifetime and value |
| StorageNew.StorageRun.IsEmpty | src/storage_new.rs:367-369 | true exactly when there are no slots, and then every `get` is `None` |
| StorageNew.StorageRun.MaxSlot | src/storage_new.rs:371-373 | always below 2^32 (the `as u32` cast), and the length when it fits in `u32` |
| StorageNew.BorrowedRefusesMutation | src/storage_new.rs:226-240 | a borrowed run (`cap == usize::MAX`) refuses mutable access |
| StorageNew.InsertRemoveRoundTrip | src/storage_new.rs:296-324 | an insert at slot 3 into a new run shows length 4 through the slice and the pair at slot 3; removing it returns the value and leaves the run empty |
| Events.IntoTuple | src/event.rs:111-121 | the entity is rebuilt from the event's slot and lifetime and the given archetype, paired with the payload |
| Events.IntoTupleRebuildsTarget | src/event.rs:40-51 | an event pushed for a target comes back as exactly that target |
| Events.Items | src/event.rs:133-138 | the iterator yields each event of its run, in order, through `into_tuple` |
| Events.EventQueue.constructor | src/event.rs:36-38 | a new queue has no runs and a lowered flag |
| Events.EventQueue.Pending | src/event.rs:30-33 | an archetype's queued events, none when it has no run |
| Events.EventQueue.Push | src/event.rs:40-51 | appends the event to its archetype's run, leaving other runs alone; raises the flag exactly when the run is new |
| Events.EventQueue.FlushAll | src/event.rs:53-65 | the queue ends empty; one iterator per former run, each archetype once, carrying the run's lifetime and events |
| Events.EventQueue.FlushIn | src/event.rs:67-75 | returns the archetype's events in push order (none without a run) and removes only its run |
| Events.EventQueue.MaybeRecursivelyDispatched | src/event.rs:77-79 | returns the flag and lowers it |
| Events.EventQueue.IsEmpty | src/event.rs:81-83 | true exactly when no archetype has a run |
| Events.PushTwiceThenFlushIn | src/event.rs:40-79 | two events for one archetype come back from `flush_in` in push order, as their targets; the other run stays; the flag reads true once, then false |
| Events.PendingOf | src/event.rs:171-187 | the tasks still to come start with the buffered ones in push order |
| Events.TaskQueue.constructor | src/event.rs:167-169 | a new queue has both buffers empty |
| Events.TaskQueue.Push | src/event.rs:171-175 | the task is appended to the buffer and the stack is untouched |
| Events.TaskQueue.NextTask | src/event.rs:177-187 | `None` exactly when nothing is pending; otherwise the first pending task, which alone leaves the queue; the buffer is drained |
| Events.TaskQueue.ClearCapacities | src/event.rs:189-192 | both buffers are empty |
| Events.PushAll | src/event.rs:171-187 | tasks pushed after a `next_task` come out in push order before every task already pending |
| Events.PushThenNext | src/event.rs:171-187 | pushing a non-empty batch after a `next_task` and taking one task yields the batch's first task; the rest of the batch then precedes every task pending before |
| Events.NextOf | src/event.rs:177-187 | `next_task` on a queue with known pending tasks: `None` for none, otherwise the head, leaving the tail pending |
| Events.TaskOrder | src/event.rs:171-187 | push 1, 2, take, push 3, 4, drain: the tasks come out as 1, 3, 4, 2, then `None` |
| FreeLists.FreeList.constructor | src/util/free_list.rs:10-15 | a new list has no slots and no free slots |
| FreeLists.FreeList.Get | src/util/free_list.rs:39-44 | `None` past the end or for an empty slot, otherwise the value |
| FreeLists.FreeList.Index | src/util/free_list.rs:62-68 | callable exactly when `get` is `Some`, and yields that value |
| FreeLists.FreeList.GetMut | src/util/free_list.rs:46-51 | a write through `get_mut` reaches exactly the occupied slots |
| FreeLists.FreeList.AllocAsWritten | src/util/free_list.rs:18-32 | reuses the least free slot, or pushes at `len` and also marks that new index free |
| FreeLists.FreeList.Alloc | src/util/free_list.rs:18-32 | reuses the least free slot or pushes at `len`; the slot was empty or new, no other slot changes, and free slots stay exactly the empty ones |
| FreeLists.FreeList.Dealloc | src/util/free_list.rs:34-37 | the slot must exist; it joins the free set and its previous content is returned; nothing else changes |
| FreeLists.AllocTwiceAsWritten | src/util/free_list.rs:25-30 | two allocations as written on a new list both return slot 0, and the second value replaces the first |
| FreeLists.AllocTwice | src/util/free_list.rs:18-37 | corrected allocations on a new list return 0 and 1 with both values kept; freeing 0 makes the next allocation reuse it |
| FreeLists.AllocKeepsLive | src/util/free_list.rs:18-32 | with the corrected `alloc`, a live slot keeps its value and the vector never shrinks |
| Polyfill.Extended | src/lang/polyfill.rs:16-23 | the result has length `max(len, min_len)`, the old elements as prefix, and the generator's values after them |
| Polyfill.EnsureLengthWith | src/lang/polyfill.rs:16-23 | appending the generator's values one by one yields the extended vector |
| Polyfill.ExtendedIdempotent | src/lang/polyfill.rs:16-23 | a second call with the same length changes nothing, whatever the generator |
| Polyfill.ExtendedNoOp | src/lang/polyfill.rs:20 | a vector already long enough is unchanged |
| Polyfill.EnsureSlotWith | src/lang/polyfill.rs:25-31 | for an index below `usize::MAX` (the `index + 1` overflow panics), afterwards `len > index` and the element is the one at `index`: the old element if it existed, else the generator's |

## Left out

- The global and thread-local slot pools and the per-slot mutexes (`src/debug/lifetime.rs:20-66`) are one free set of slot indices in `Registry`. Block allocation and the cross-thread pool exchange are not modelled.
- Lifetimes.Registry.New: picks any pooled slot. The order in which the local and global pools hand slots out is not modelled.
- The release build's `DebugLifetime` stub (`src/debug/lifetime.rs:306-354`) is not modelled. There, every debug lifetime is always alive and counting is a no-op.
- `Lifetime`'s `Hash` and `Debug` impls and `LifetimeName` formatting are not modelled. Neither are the `DebugLifetimeWrapper` / `LifetimeWrapper` helper traits or `filter_alive`.
- Logging is not modelled. Every `log::error!` / `log::warn!` fallthrough leaves the state as it was, so no model member records it.
- NoHash.RandIdGen.Alloc: the random retry loop is one nondeterministic successful draw. A rejected draw (zero or already used) changes nothing, and the loop's termination is only probabilistic.
- `NoOpHasher::write` is not modelled. It panics on every call (`unimplemented!`).
- NoHash.NoOpHasher.Finish is a plain read of the state and has no contract of its own.
- Storage slots (in all four storage files) and event runs (`src/event.rs`) hold `Dependent` lifetimes. Their dependency counts are not threaded through `Registry`; stored lifetimes are plain `Lifetime` values.
- StorageCore.Storage.Insert: the `&mut T` to the stored value that `insert` and `add` also return is not modelled. Writes through it are covered by `IndexMut`.
- `get_run_view`, `get_run_slice(_mut)`, `as_celled`, `as_wrapped`, `get_slot`, `has_by_idx`, the `get_mut` variants returning references, and `query_in_ref` / `query_in_mut` are not modelled. They are reference plumbing, or they depend on a query module that is not part of this model.
- `ShardedStorage`, `UnshardedStorage` and `StorageShard` (`src/storage_new.rs:184-199`) are not modelled. Neither are `LocatedStorage` / `CompLocation` (`src/storage.rs:774-937`).
- StorageNew.StorageRun.Insert: the capacity after growth is any value the vector could have. `Vec`'s growth policy is not modelled.
- StorageNew.StorageRun.UpdateSlotVec: the closure is represented by the vector and capacity it leaves behind. The raw-parts reconstruction and the drop guard are not modelled.
- `Archetype::spawn_with`, `despawn_and_extract` and the bundle plumbing are not modelled. `cast_marker` and the release-build `despawn` that skips the archetype check are not modelled either.
- The `EventQueue` and `TaskQueue` `Drop` impls only log leaked items and are not modelled. `has_remaining`, `EventQueueIter::arch`, the iterator's size hints and `next_back` are not modelled. `OpaqueBox` is not modelled.
- Events.EventQueue.FlushAll: the iterators come out in an unspecified order, because the source iterates a `HashMap`.
- Polyfill.EnsureSlotWith: returns the element instead of a mutable reference into the vector.
- The `FnMut` generator of `ensure_length_with` is a function of the call count.

## Findings

| source | as written | input that shows it | evidently intended | confidence | as-written member | corrected member |
|---|---|---|---|---|---|---|
| src/util/free_list.rs:28 | when no slot is free, `alloc` pushes the value at index `len` and also adds that index to the free set | two `alloc(a)`, `alloc(b)` on a new list: both return slot 0, and `b` overwrites `a` | a newly pushed slot is occupied and stays out of the free set, so `alloc` never returns a slot that holds a live value | high; not executed | FreeLists.AllocTwiceAsWritten | FreeLists.FreeList.Alloc |
