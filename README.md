# Pool Service — a verified model of the pooling and coroutine core

This project models the in-memory bookkeeping at the centre of the Pool Service
package for Unity. The package has four parts:

- **`ObjectPool<T>`** is a bounded first-in first-out pool of plain objects. A
  factory fills it, and a creation counter is capped by `maxSize`. A `maxSize`
  of zero or less stands for `int.MaxValue`.
- **`MonoPool`** is a bounded pool of scene objects. It has two stores: a queue
  of available instances and a set of active (checked-out) ones.
- **`PoolService`** is the registry. It files scene pools by their key and
  object pools by the key they were registered under. It also remembers, by
  identity, which object pool every handed-out object came from. Returns can be
  deferred to the coroutine service.
- **`CoroutineService`** runs routines as Unity coroutines. It keeps three
  dictionaries: owner → handles, tag → handles, and handle → record. Every run,
  stop, bulk stop and natural completion must keep them exact. No list may be
  left empty.

Each part is a class whose fields are the source's containers, held as `seq`,
`set` and `map`. The methods follow the source statement by statement. Each
method states its new state as a function of the old one. For MonoPool,
PoolService and CoroutineService that function is defined on a value copy of
the state (`Stores`, `Registry`, `ServiceState`). Lemmas about those functions
prove the invariants:

- MonoPool: every instance is in at most one place, and every instance it
  holds is one it created and bound to itself, so it never holds more than it created.
- ObjectPool and MonoPool: the number of creations never exceeds `maxSize`.
- PoolService: scene pools are filed under their own key, and every
  reverse-map entry points to a registered pool.
- CoroutineService: every index entry is backed by a record, no index list is
  empty, and every running coroutine has a matching record.

The model has six modules:

- `Common` holds the shared helpers: `Option` (null), `Int32`, `IsNullOrEmpty`, the
  factory-call folds and a set snapshot.
- `CoroutineIndex` holds a dictionary of handle lists and its two operations.
- `CoroutineModel` holds the coroutine service's state as a value, its invariants
  and one function per operation.
- `CoroutineProofs` proves what those operations keep.
- `Coroutines` is the `CoroutineService` class.
- `ObjectPooling`, `MonoPooling` and `PoolRegistry` are the pools and the registry.

Some things are parameters rather than computed:

- A factory is a function from the call number to `Option<Item>`.
- `Instantiate` is a function from the call number to success or failure.
- Whether an instance's GameObject still exists is a function `alive`: the
  engine's answer at the time of the call.
- `instance as T` is a predicate on items.
- What `ServiceLocator` finds is a constructor or method parameter that may be
  null.

Unity runs coroutines itself. Here that machinery is the `running` map together
with `Tick`, which is one `MoveNext` of one running coroutine. The first
`MoveNext` happens synchronously inside `StartCoroutine`, before the handle is
stored in the `TrackedRoutine`; the model states that order explicitly. As in
Unity, `StartCoroutine` returns null when the routine finishes or throws within
that first step, so `Run` then registers nothing (the null checks of
`RegisterOwner`, `RegisterTag` and `RegisterCoroutineData`) and returns null.

## Model

| member | source | states |
|---|---|---|
| ObjectPooling.WarmCount | Assets/Pooling/ObjectPool/Scripts/ObjectPool.cs:27-35 | a negative initial size becomes 0; a positive maxSize caps it; otherwise the initial size is kept |
| ObjectPooling.Capacity | Assets/Pooling/ObjectPool/Scripts/ObjectPool.cs:38 | the cap is maxSize when positive and int.MaxValue otherwise, so it is always between 1 and int.MaxValue |
| ObjectPooling.ObjectPool.TotalCreated | Assets/Pooling/ObjectPool/Scripts/ObjectPool.cs:15 | the creation count lies between 0 and MaxSize |
| ObjectPooling.ObjectPool.MaxSize | Assets/Pooling/ObjectPool/Scripts/ObjectPool.cs:16 | the cap lies between 1 and int.MaxValue |
| ObjectPooling.ObjectPool.constructor | Assets/Pooling/ObjectPool/Scripts/ObjectPool.cs:20-41 | the pool makes exactly WarmCount factory calls, holds their non-null results in call order, counts only those, and respects the cap |
| ObjectPooling.ObjectPool.WarmPool | Assets/Pooling/ObjectPool/Scripts/ObjectPool.cs:43-61 | at most `count` calls; only non-null results are queued and counted; stopping early means the cap was reached |
| ObjectPooling.ObjectPool.Get | Assets/Pooling/ObjectPool/Scripts/ObjectPool.cs:63-93 | FIFO: returns the oldest queued item and fires its hook; with an empty queue below the cap, one factory call that is counted even when it yields null; at the cap, null and no change |
| ObjectPooling.ObjectPool.Return | Assets/Pooling/ObjectPool/Scripts/ObjectPool.cs:95-109 | null or a non-T is ignored; otherwise the item is appended at the back with no duplicate check, and the count is untouched |
| Common.Successes | Assets/Pooling/ObjectPool/Scripts/ObjectPool.cs:52-59 | the warm-up keeps at most one item per call, and exactly one per call when no call yields null |
| Common.SuccessesAreAnswers | Assets/Pooling/ObjectPool/Scripts/ObjectPool.cs:52-59 | every queued warm-up item is the answer of one of the factory calls made |
| Common.Hits | Assets/Pooling/MonoPool/Scripts/MonoPool.cs:54-65 | the number of successful creations is at most the number of attempts; it equals them when all succeed and is zero when all fail |
| MonoPooling.AttemptCount | Assets/Pooling/MonoPool/Scripts/MonoPool.cs:54 | the warm-up tries Mathf.Min(initialSize, maxSize) creations, or none when that is negative |
| MonoPooling.CheckoutKeepsPlaced | Assets/Pooling/MonoPool/Scripts/MonoPool.cs:135-143 | a checkout dequeues the oldest instance into the active set, whether or not its GameObject still exists, and keeps every instance in at most one place |
| MonoPooling.CheckoutReturnRoundTrip | Assets/Pooling/MonoPool/Scripts/MonoPool.cs:135-143 | checking out the oldest live instance and returning it restores the active set, keeps the queue's length and members with that instance moved to the back, and logs OnRequestedFromPool then OnReturnedToPool |
| MonoPooling.HeldWithinCreated | Assets/Pooling/MonoPool/Scripts/MonoPool.cs:68-90 | when every queued and active instance is one the pool created, the queue and the active set together hold at most as many instances as were created |
| MonoPooling.AdmitKeepsPlaced | Assets/Pooling/MonoPool/Scripts/MonoPool.cs:146-156 | a newly created instance becomes active and every instance stays in at most one place |
| MonoPooling.ReturnOneKeepsPlaced | Assets/Pooling/MonoPool/Scripts/MonoPool.cs:233-257 | a return takes the instance out of the active set; afterwards it is queued exactly when it was queued already or was active and alive; the queue and the active set stay disjoint and the queue has no duplicates |
| MonoPooling.ReturnOneTwice | Assets/Pooling/MonoPool/Scripts/MonoPool.cs:247-256 | returning the same instance a second time is a no-op |
| MonoPooling.Requeued | Assets/Pooling/MonoPool/Scripts/MonoPool.cs:191-204 | an instance is requeued exactly when it is listed, active and alive; a list without duplicates yields requeues without duplicates |
| MonoPooling.ReturnEachSpec | Assets/Pooling/MonoPool/Scripts/MonoPool.cs:198-203 | returning distinct instances in order removes them all from the active set and appends exactly the active, alive ones, in order, behind the old queue |
| MonoPooling.ReturnAllEmpties | Assets/Pooling/MonoPool/Scripts/MonoPool.cs:191-204 | returning a snapshot of the whole active set empties it, and every live previously-active instance is queued exactly once |
| MonoPooling.PendingReturnsShape | Assets/Pooling/MonoPool/Scripts/MonoPool.cs:226-230 | the delayed returns sit on consecutive handles from the first fresh one, and the i-th one returns the i-th instance to the pool |
| MonoPooling.PendingRecordsShape | Assets/Pooling/MonoPool/Scripts/MonoPool.cs:226-230 | each delayed return has a record owned by the pool on its own handle |
| MonoPooling.ScheduleOne | Assets/Pooling/MonoPool/Scripts/MonoPool.cs:183-184 | one delayed return with a positive delay adds one running coroutine and one record owned by the pool; nothing fires yet |
| MonoPooling.ScheduleEachRecords | Assets/Pooling/MonoPool/Scripts/MonoPool.cs:220-230 | ReturnAll(delay) adds one pending return per instance on fresh handles and leaves the coroutines already running untouched |
| MonoPooling.ScheduleEachKeepsValid | Assets/Pooling/MonoPool/Scripts/MonoPool.cs:220-230 | scheduling delayed returns keeps the coroutine service's invariant and leaves no stale record |
| MonoPooling.Poolable.constructor | Assets/Pooling/MonoPool/Scripts/MonoPool.cs:80 | SetPool binds the instance to its pool |
| MonoPooling.MonoPool.constructor | Assets/Pooling/MonoPool/Scripts/MonoPool.cs:30-39 | Awake warms the pool: the key, prefab flag, sizes, Instantiate outcomes and coroutine service are the ones given; AttemptCount creations when a prefab is set (none otherwise); every success is a fresh instance bound to this pool, queued and counted; nothing is active |
| MonoPooling.MonoPool.WarmPool | Assets/Pooling/MonoPool/Scripts/MonoPool.cs:46-66 | without a prefab no creation is tried; otherwise AttemptCount attempts, and exactly the successes -- fresh instances bound to this pool -- are queued behind the old queue and counted |
| MonoPooling.MonoPool.CreateNew | Assets/Pooling/MonoPool/Scripts/MonoPool.cs:68-90 | one Instantiate; on success a fresh instance bound to this pool joins the created instances and the count grows by one; on failure neither changes |
| MonoPooling.MonoPool.HeldCount | Assets/Pooling/MonoPool/Scripts/MonoPool.cs:68-90 | under the invariant (every held instance was created by this pool, the count is the number created), queued plus active instances never exceed the creation count |
| MonoPooling.MonoPool.Get | Assets/Pooling/MonoPool/Scripts/MonoPool.cs:121-162 | with a non-empty queue the oldest instance is dequeued and made active; if its GameObject was destroyed, SetActive throws after that, no hook runs and no instance is handed out; otherwise OnRequestedFromPool runs and it is returned; with an empty queue below maxSize, one Instantiate whose success is a fresh active instance (null on failure, and no change); at maxSize, null with both stores and counters unchanged |
| MonoPooling.MonoPool.Return | Assets/Pooling/MonoPool/Scripts/MonoPool.cs:164-167 | null is ignored; otherwise the stores change as ReturnOne says, and every instance stays in at most one place |
| MonoPooling.MonoPool.ReturnAll | Assets/Pooling/MonoPool/Scripts/MonoPool.cs:191-204 | the snapshot is exactly the active set; afterwards the active set is empty and the queue holds the old queue plus every live previously-active instance |
| MonoPooling.MonoPool.ReturnAfter | Assets/Pooling/MonoPool/Scripts/MonoPool.cs:169-189 | null is ignored; with no delay, or no coroutine service, the instance is returned at once and the service is untouched; otherwise exactly one RunDelayed of this pool's Return, owned by the pool, is scheduled and the stores are unchanged |
| MonoPooling.MonoPool.ReturnAllAfter | Assets/Pooling/MonoPool/Scripts/MonoPool.cs:206-231 | with no delay, or no service, this is ReturnAll; otherwise one RunDelayed owned by the pool per snapshot instance, and the stores are unchanged |
| PoolRegistry.RegisterMono | Assets/Pooling/Scripts/PoolService.cs:29-56 | a null pool or a null/empty key is ignored; a taken key keeps its original pool; otherwise the pool is filed under its key and no other key changes |
| PoolRegistry.DeregisterMono | Assets/Pooling/Scripts/PoolService.cs:58-75 | the key is removed only when it is bound to that exact pool; otherwise nothing changes |
| PoolRegistry.LookupMono | Assets/Pooling/Scripts/PoolService.cs:276-291 | a pool is found exactly when the key is non-empty and registered, and it is the pool filed under that key |
| PoolRegistry.RegisterPool | Assets/Pooling/Scripts/PoolService.cs:157-169 | an empty key, a null pool or a taken key changes nothing (TryAdd); otherwise the key is bound to the pool |
| PoolRegistry.Purge | Assets/Pooling/Scripts/PoolService.cs:204-216 | keeps exactly the reverse entries that do not point to the pool, with their values unchanged |
| PoolRegistry.DeregisterPool | Assets/Pooling/Scripts/PoolService.cs:195-218 | an empty or unknown key changes nothing; otherwise the key goes, together with exactly the reverse entries pointing to its pool |
| PoolRegistry.LookupPool | Assets/Pooling/Scripts/PoolService.cs:293-308 | a pool is found exactly when the key is non-empty and registered, and it is the pool bound to that key |
| PoolRegistry.RecordItem | Assets/Pooling/Scripts/PoolService.cs:234 | the item is recorded under the pool it came from, and no other record changes |
| PoolRegistry.ForgetItem | Assets/Pooling/Scripts/PoolService.cs:248 | the item's record is dropped, and nothing else changes |
| PoolRegistry.RegisterMonoKeepsCoherent | Assets/Pooling/Scripts/PoolService.cs:29-56 | registering keeps every scene pool filed under its own non-empty key |
| PoolRegistry.RegisterMonoTwice | Assets/Pooling/Scripts/PoolService.cs:43-48 | re-registering the same pool is a no-op |
| PoolRegistry.LookupAfterRegisterMono | Assets/Pooling/Scripts/PoolService.cs:43-55 | after registration the key finds the pool exactly when the key was free or already bound to it; a different pool under a taken key is rejected and the original is still found |
| PoolRegistry.DeregisterMonoUndoesRegister | Assets/Pooling/Scripts/PoolService.cs:43-75 | deregistering undoes a registration that took a free key |
| PoolRegistry.DeregisterMonoForgets | Assets/Pooling/Scripts/PoolService.cs:71-74 | after a filed pool is deregistered its key finds nothing, and the invariant holds |
| PoolRegistry.RegisterPoolKeepsCoherent | Assets/Pooling/Scripts/PoolService.cs:164 | registering an object pool keeps every reverse entry pointing to a registered pool |
| PoolRegistry.DeregisterPoolKeepsCoherent | Assets/Pooling/Scripts/PoolService.cs:202-217 | deregistering keeps every reverse entry pointing to a registered pool, even when a pool is filed under two keys |
| PoolRegistry.DeregisterPoolUndoesRegister | Assets/Pooling/Scripts/PoolService.cs:157-218 | deregistering undoes a registration that took a free key, provided no object is recorded under that pool |
| PoolRegistry.RecordItemKeepsCoherent | Assets/Pooling/Scripts/PoolService.cs:234 | recording an object under a registered pool keeps the invariant |
| PoolRegistry.ForgetItemKeepsCoherent | Assets/Pooling/Scripts/PoolService.cs:248 | dropping a record keeps the invariant |
| PoolRegistry.ForgetUndoesRecord | Assets/Pooling/Scripts/PoolService.cs:220-253 | returning an object that had no record before it was handed out restores the reverse map |
| PoolRegistry.RemovingCollectedPurges | Assets/Pooling/Scripts/PoolService.cs:204-216 | removing the collected keys leaves exactly the reverse map without the entries pointing to the pool |
| PoolRegistry.PoolService.constructor | Assets/Pooling/Scripts/PoolService.cs:13-25 | Awake: all three dictionaries empty, and the coroutine service is whatever the locator found |
| PoolRegistry.PoolService.RegisterMonoPool | Assets/Pooling/Scripts/PoolService.cs:29-56 | the dictionaries become RegisterMono of the old ones, and the invariant is kept |
| PoolRegistry.PoolService.DeregisterMonoPool | Assets/Pooling/Scripts/PoolService.cs:58-75 | the dictionaries become DeregisterMono of the old ones, and the invariant is kept |
| PoolRegistry.PoolService.Get | Assets/Pooling/Scripts/PoolService.cs:88-97 | the registry is unchanged; a key that finds no pool gives null; otherwise exactly the pool's Get: checkout of the oldest queued instance (throwing for a destroyed one) with the counters unchanged, or one creation attempt below maxSize, or null at maxSize with nothing changed; any instance handed out is active in, and bound to, that pool |
| PoolRegistry.PoolService.Return | Assets/Pooling/Scripts/PoolService.cs:99-115 | an instance bound to a pool goes back to that pool as ReturnOne says, and the pool's creation count and Instantiate calls are unchanged |
| PoolRegistry.PoolService.ReturnAfter | Assets/Pooling/Scripts/PoolService.cs:117-151 | null is ignored; with no delay the return is immediate; otherwise the locator's answer fills a missing service, and one RunDelayed of the service's Return is scheduled, owned by the instance's pool (or by nobody when it has none) and leaving the pool's stores unchanged; with no service the return is immediate; the pool's creation count and calls never change, and a located service that is not used is left as it was |
| PoolRegistry.PoolService.RegisterObjectPool | Assets/Pooling/Scripts/PoolService.cs:157-169 | the dictionaries become RegisterPool of the old ones |
| PoolRegistry.PoolService.RegisterObjectPoolFrom | Assets/Pooling/Scripts/PoolService.cs:171-193 | an empty key, a null factory or a taken key changes nothing; otherwise a new, warmed pool with that factory and cap is filed under the key |
| PoolRegistry.PoolService.DeregisterObjectPool | Assets/Pooling/Scripts/PoolService.cs:195-218 | collect then remove: the dictionaries become DeregisterPool of the old ones |
| PoolRegistry.PoolService.CollectRecordsOf | Assets/Pooling/Scripts/PoolService.cs:204-211 | collects exactly the objects recorded under the pool |
| PoolRegistry.PoolService.RemoveRecords | Assets/Pooling/Scripts/PoolService.cs:213-216 | drops exactly the records of the collected objects |
| PoolRegistry.PoolService.GetObject | Assets/Pooling/Scripts/PoolService.cs:220-236 | no pool gives null and no change; otherwise the pool's Get in each of its three branches (queue, creation count, factory calls and hooks as ObjectPool.Get states them); a null answer is passed on, and a non-null item is recorded under its pool and handed out when it is a T (the record is kept even when it is not) |
| PoolRegistry.PoolService.ReturnObject | Assets/Pooling/Scripts/PoolService.cs:238-253 | an object with a recorded pool goes back to that pool (queued and OnReturnedToPool logged when it is a T; counters unchanged) and its record is dropped; without a record nothing changes |
| PoolRegistry.PoolService.ReturnObjectTo | Assets/Pooling/Scripts/PoolService.cs:255-270 | an object goes back to the keyed pool (queued and OnReturnedToPool logged when it is a T; counters unchanged), and its record is dropped whichever pool it named; a null object leaves the pool untouched |
| CoroutineIndex.Append | Assets/Coroutines/Scripts/CoroutineService.cs:352-382 | the handle is appended to the key's list, which is created on first use; no other list changes |
| CoroutineIndex.Detach | Assets/Coroutines/Scripts/CoroutineService.cs:427-458 | no other key changes; the key's list loses the first occurrence of the handle, and the key is removed exactly when that leaves the list empty; a list without duplicates no longer holds the handle |
| CoroutineIndex.TrackKeepsIndexed | Assets/Coroutines/Scripts/CoroutineService.cs:352-411 | filing a new record and indexing it keeps the index exact: non-empty, duplicate-free lists that hold exactly the handles whose record names the key |
| CoroutineIndex.UntrackKeepsIndexed | Assets/Coroutines/Scripts/CoroutineService.cs:427-458 | dropping a record and unindexing it keeps the index exact |
| CoroutineModel.DelayRoutine | Assets/Coroutines/Scripts/CoroutineService.cs:414-425 | the routine yields once when the delay is positive, then fires the action (if any) and finishes |
| CoroutineModel.Fresh | Assets/Coroutines/Scripts/CoroutineService.cs:12-15 | a new service satisfies the invariant and has no stale record |
| CoroutineModel.Completed | Assets/Coroutines/Scripts/CoroutineService.cs:502-520 | a completion with a null handle changes nothing; otherwise the handle's record is gone |
| CoroutineModel.Step | Assets/Coroutines/Scripts/CoroutineService.cs:543-563 | MoveNext reports another step exactly when the inner routine yields; the callbacks of that step fire; the running set and the handle counter are untouched |
| CoroutineModel.Tick | Assets/Coroutines/Scripts/CoroutineService.cs:543-563 | a coroutine that yields advances; one that finishes leaves the running set |
| CoroutineModel.Start | Assets/Coroutines/Scripts/CoroutineService.cs:63-64 | StartCoroutine uses the next fresh handle and takes the first step at once; when that step yields it returns the handle and the routine runs; otherwise it returns null and the running set is unchanged |
| CoroutineModel.Register | Assets/Coroutines/Scripts/CoroutineService.cs:352-411 | a null handle changes nothing; otherwise the record is filed under the handle and the handle is appended to the owner's list when there is an owner and to the tag's list when the tag is non-empty, nothing else changing |
| CoroutineModel.Run | Assets/Coroutines/Scripts/CoroutineService.cs:56-122 | a null routine gives null and no change; otherwise the counter advances and the first step's callbacks fire; a handle is returned exactly when that step yields, and it is then running and recorded |
| CoroutineModel.RunDelayed | Assets/Coroutines/Scripts/CoroutineService.cs:124-142 | a positive delay returns the next fresh handle; no delay fires the action at once and returns null |
| CoroutineModel.Stop | Assets/Coroutines/Scripts/CoroutineService.cs:144-174 | a null handle changes nothing; otherwise the handle neither runs nor has a record |
| CoroutineModel.StopAll | Assets/Coroutines/Scripts/CoroutineService.cs:176-190 | every dictionary is empty and nothing runs |
| CoroutineModel.StopAllOwnedBy | Assets/Coroutines/Scripts/CoroutineService.cs:192-235 | a null owner, or one with no list, changes nothing; otherwise afterwards the owner has no list |
| CoroutineModel.StopAllTagged | Assets/Coroutines/Scripts/CoroutineService.cs:237-280 | a null/empty tag, or one with no list, changes nothing; otherwise afterwards the tag has no list |
| CoroutineModel.RecordCount | Assets/Coroutines/Scripts/CoroutineService.cs:345-348 | the record count is at least the number of running coroutines, and equal to it when no record is stale |
| CoroutineProofs.UntrackKeepsConsistent | Assets/Coroutines/Scripts/CoroutineService.cs:160-173 | removing a recorded handle from its owner list, its tag list and the records keeps the dictionaries consistent |
| CoroutineProofs.RegisterKeepsConsistent | Assets/Coroutines/Scripts/CoroutineService.cs:352-411 | registering a fresh handle keeps the dictionaries consistent |
| CoroutineProofs.AddKeepsTracks | Assets/Coroutines/Scripts/CoroutineService.cs:63-67 | a started coroutine recorded with its own owner and tag keeps every running coroutine matched by its record |
| CoroutineProofs.UnrecordedIsForgotten | Assets/Coroutines/Scripts/CoroutineService.cs:160 | under the invariant, a handle with no record is in no index list |
| CoroutineProofs.UntrackKeepsValid | Assets/Coroutines/Scripts/CoroutineService.cs:502-520 | completing a recorded handle with its own owner and tag keeps the invariant and forgets the handle |
| CoroutineProofs.TickKeepsValid | Assets/Coroutines/Scripts/CoroutineService.cs:543-563 | a tick keeps the invariant and adds no stale record; a finished or thrown routine is removed from every index; one that yields leaves the dictionaries as they were |
| CoroutineProofs.RunResult | Assets/Coroutines/Scripts/CoroutineService.cs:63-67 | closed form of Run: the handle is returned, runs, is recorded and is indexed exactly when the first step yields; otherwise null is returned and only the counter and the fired callbacks change |
| CoroutineProofs.RunKeepsValid | Assets/Coroutines/Scripts/CoroutineService.cs:56-122 | Run keeps the invariant and adds no stale record, because a routine that ends within StartCoroutine gets a null handle and the register steps skip it |
| CoroutineProofs.RunRecords | Assets/Coroutines/Scripts/CoroutineService.cs:56-122 | a run whose first step yields records the handle and indexes it under the owner only when there is one and under the tag only when it is non-empty; a run whose first step ends returns null and leaves the dictionaries unchanged |
| CoroutineProofs.RunDelayedRecords | Assets/Coroutines/Scripts/CoroutineService.cs:124-142 | with a positive delay, the next fresh handle is returned, one running coroutine is recorded and nothing fires; with no delay, null is returned, the action fires at once and nothing is recorded |
| CoroutineProofs.DelayedTickFires | Assets/Coroutines/Scripts/CoroutineService.cs:414-425 | the delayed coroutine's next tick fires its action and completes it, leaving its handle in no dictionary |
| CoroutineProofs.StopKeepsValid | Assets/Coroutines/Scripts/CoroutineService.cs:144-174 | Stop keeps the invariant, forgets the handle and keeps every other record; an unknown handle leaves the dictionaries unchanged |
| CoroutineProofs.StopOneOwnedStep | Assets/Coroutines/Scripts/CoroutineService.cs:203-231 | one iteration of StopAll(owner) forgets the front handle and shortens the owner's list |
| CoroutineProofs.StopEachOwnedInv | Assets/Coroutines/Scripts/CoroutineService.cs:199-233 | after i iterations over the snapshot, exactly the remaining handles are still listed and recorded |
| CoroutineProofs.StopAllOwnedByForgets | Assets/Coroutines/Scripts/CoroutineService.cs:192-235 | afterwards the owner has no list, other owners' lists are unchanged, and exactly the other owners' records and coroutines remain |
| CoroutineProofs.OwnedAreIndexed | Assets/Coroutines/Scripts/CoroutineService.cs:199 | an owner's list holds exactly the handles whose record names that owner |
| CoroutineProofs.StopOneTaggedStep | Assets/Coroutines/Scripts/CoroutineService.cs:248-276 | one iteration of StopAll(tag) forgets the front handle and shortens the tag's list |
| CoroutineProofs.StopEachTaggedInv | Assets/Coroutines/Scripts/CoroutineService.cs:244-278 | after i iterations over the snapshot, exactly the remaining handles are still listed and recorded |
| CoroutineProofs.StopAllTaggedForgets | Assets/Coroutines/Scripts/CoroutineService.cs:237-280 | afterwards the tag has no list, other tags' lists are unchanged, and exactly the other tags' records and coroutines remain |
| CoroutineProofs.TaggedAreIndexed | Assets/Coroutines/Scripts/CoroutineService.cs:244 | a tag's list holds exactly the handles whose record carries that tag |
| Coroutines.CoroutineService.constructor | Assets/Coroutines/Scripts/CoroutineService.cs:12-15 | a new service is Fresh |
| Coroutines.CoroutineService.RegisterOwner | Assets/Coroutines/Scripts/CoroutineService.cs:352-366 | no owner or a null handle means no entry; otherwise the handle joins the owner's list, which is created on first use |
| Coroutines.CoroutineService.RegisterTag | Assets/Coroutines/Scripts/CoroutineService.cs:368-382 | no tag or a null handle means no entry; otherwise the handle joins the tag's list, which is created on first use |
| Coroutines.CoroutineService.RegisterCoroutineData | Assets/Coroutines/Scripts/CoroutineService.cs:384-412 | a null handle stores nothing; otherwise the record is stored under its handle |
| Coroutines.CoroutineService.RemoveFromOwners | Assets/Coroutines/Scripts/CoroutineService.cs:427-442 | the handle leaves the owner's list, and the key goes once the list is empty |
| Coroutines.CoroutineService.RemoveFromTags | Assets/Coroutines/Scripts/CoroutineService.cs:444-459 | the handle leaves the tag's list, and the key goes once the list is empty |
| Coroutines.CoroutineService.OnTrackedRoutineCompleted | Assets/Coroutines/Scripts/CoroutineService.cs:502-520 | the state becomes Completed of the old one |
| Coroutines.CoroutineService.MoveNext | Assets/Coroutines/Scripts/CoroutineService.cs:543-563 | the state and result are Step of the old state |
| Coroutines.CoroutineService.Tick | Assets/Coroutines/Scripts/CoroutineService.cs:543-563 | the state and result are Tick of the old state |
| Coroutines.CoroutineService.StartCoroutine | Assets/Coroutines/Scripts/CoroutineService.cs:64 | the state and the handle (null when the first step does not yield) are Start of the old state |
| Coroutines.CoroutineService.Run | Assets/Coroutines/Scripts/CoroutineService.cs:56-122 | the state and handle are Run of the old state |
| Coroutines.CoroutineService.RunDelayed | Assets/Coroutines/Scripts/CoroutineService.cs:124-142 | the state and handle are RunDelayed of the old state |
| Coroutines.CoroutineService.Stop | Assets/Coroutines/Scripts/CoroutineService.cs:144-174 | the state becomes Stop of the old one |
| Coroutines.CoroutineService.StopAll | Assets/Coroutines/Scripts/CoroutineService.cs:176-190 | the state becomes StopAll of the old one |
| Coroutines.CoroutineService.StopAllOwnedBy | Assets/Coroutines/Scripts/CoroutineService.cs:192-235 | the snapshot loop ends in StopAllOwnedBy of the old state |
| Coroutines.CoroutineService.StopAllTagged | Assets/Coroutines/Scripts/CoroutineService.cs:237-280 | the snapshot loop ends in StopAllTagged of the old state |
| Coroutines.CoroutineService.GetData | Assets/Coroutines/Scripts/CoroutineService.cs:282-295 | lists exactly the records, one entry per record |
| Coroutines.CoroutineService.GetDataOwnedBy | Assets/Coroutines/Scripts/CoroutineService.cs:297-319 | a null owner gives an empty list; otherwise one entry per record naming the owner: the i-th entry is the record of the i-th handle of a duplicate-free handle list that holds exactly the handles whose record names the owner |
| Coroutines.CoroutineService.GetDataTagged | Assets/Coroutines/Scripts/CoroutineService.cs:321-343 | a null/empty tag gives an empty list; otherwise one entry per record carrying the tag: the i-th entry is the record of the i-th handle of a duplicate-free handle list that holds exactly the handles whose record carries the tag |
| Coroutines.CoroutineService.ActiveCount | Assets/Coroutines/Scripts/CoroutineService.cs:345-348 | the count is at least the number of running coroutines, and equal to it when no record is stale |

## Left out

- Unity engine calls are not modelled as effects:
  - `Instantiate` is a success/failure parameter per call.
  - `Destroy`, `SetActive`, `SetParent` and `GetComponent` have no effect on any store. The one exception is `SetActive` on a destroyed instance in MonoPool.Get, which throws; the model reports that as `threw`.
  - `Debug.Log*` is dropped, and so are the try/catch blocks around engine calls.
  - PoolService.Return's `Destroy` of an instance without a pool therefore changes nothing.
- `StopCoroutine` and `StopAllCoroutines` are modelled as removal from the `running` map. Unity's scheduling of `MoveNext` calls over frames is modelled as `Tick`, one call at a time. Nothing calls Tick on its own.
- The callbacks a finished delayed routine fires are collected in `fired`. They are not dispatched back into `MonoPool.Return` or `PoolService.Return`, because the callee is outside the coroutine service's state.
- Float time is left out:
  - `WaitForSeconds` is one yielded step.
  - A delay matters only through its comparison with 0.
  - StartedTime, the elapsed times and the editor pause tracking in the records are left out.
- `ServiceLocator` lookups and the `BaseService` lifecycle hooks are left out. What the locator finds is a parameter that may be null.
- MonoPool's Awake registration with the pool service, and its OnDestroy deregistration, are left out. In the model the caller registers the pool with `RegisterMonoPool`.
- The `Get<T>` overloads of MonoPool and PoolService are left out. Each is Get followed by a component lookup on the GameObject.
- ObjectPool.Get: the branch where a dequeued item is null is left out, because the queue's element type has no null. The model therefore never falls through to the create branch from a non-empty queue.
- ObjectPool.constructor: the `ArgumentNullException` for a null factory is left out, because the factory is a function value. `PoolService.RegisterObjectPoolFrom` keeps the null check, with the factory as an `Option`.
- ObjectPool items are identities (`nat`), and `instance as T` is a predicate on them. The generic `T` is not modelled as a type.
- The lifecycle hooks `OnRequestedFromPool` and `OnReturnedToPool` are recorded in a `hooks` log and have no effect on pool state.
- The editor windows, the demo scripts, the interfaces and CoroutineData's clock fields are not part of this model.
- CoroutineModel.Completed, CoroutineModel.Stop and CoroutineModel.StopAllOwnedBy treat an owner as a reference that is never destroyed. In Unity a destroyed MonoBehaviour compares equal to null. After its owner is destroyed, a completion and a Stop would skip RemoveFromOwners (CoroutineService.cs lines 509 and 162), and StopAll(owner) would return at once (line 196). The owner's list would then keep handles that have no record. The index invariant the model proves holds only while owners live.
- CoroutineModel.TypeName records a DelayRoutine as "DelayRoutine". `GetType().Name` gives the compiler-generated `<DelayRoutine>d__N`, whose number N the compiler chooses.
