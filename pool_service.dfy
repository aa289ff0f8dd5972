/**
 * PoolService: the registry of pools. Scene pools are filed under their own
 * key, plain-object pools under the key they were registered with, and every
 * plain object handed out by GetObject under the pool it came from (by
 * identity). The three dictionaries are also given as a value, with the
 * registry operations as functions and the lemmas that say what they keep.
 */
module PoolRegistry {
  import opened Common
  import opened CoroutineModel
  import opened Coroutines
  import opened ObjectPooling
  import opened MonoPooling

  /** _monoPoolByKey, _objectPoolByKey and _objectPoolByPoolable as a value. */
  datatype Registry = Registry(monoPools: map<string, MonoPool>, objectPools: map<string, ObjectPool>, poolOfItem: map<Item, ObjectPool>)

  /** Every scene pool is filed under its own PoolKey, which is not empty. */
  predicate Filed(r: Registry)
  {
    forall k :: k in r.monoPools ==> k != "" && r.monoPools[k].key == Some(k)
  }

  /** Every pool recorded as the owner of a handed-out object is a registered pool. */
  predicate Linked(r: Registry)
  {
    forall i :: i in r.poolOfItem ==> r.poolOfItem[i] in r.objectPools.Values
  }

  /** The registry's invariant. */
  predicate Coherent(r: Registry)
  {
    Filed(r) && Linked(r)
  }

  /**
   * RegisterMonoPool: a null pool, or one with a null or empty key, is ignored;
   * a key already taken keeps its pool (the same pool again, or a different one
   * that is rejected); otherwise the pool is filed under its key.
   */
  function RegisterMono(r: Registry, pool: MonoPool?): (r': Registry)
    ensures r'.objectPools == r.objectPools && r'.poolOfItem == r.poolOfItem
    ensures pool == null || IsNullOrEmpty(pool.key) ==> r' == r
    ensures pool != null && !IsNullOrEmpty(pool.key) ==>
      var k := pool.key.value;
      && k in r'.monoPools
      && r'.monoPools[k] == (if k in r.monoPools then r.monoPools[k] else pool)
      && r'.monoPools - {k} == r.monoPools - {k}
  {
    if pool == null || IsNullOrEmpty(pool.key) then r
    else if pool.key.value in r.monoPools then r
    else r.(monoPools := r.monoPools[pool.key.value := pool])
  }

  /**
   * DeregisterMonoPool: the pool's key is unfiled only when it is filed to that
   * very pool; a null pool, an empty key, or a key filed to another pool
   * changes nothing.
   */
  function DeregisterMono(r: Registry, pool: MonoPool?): (r': Registry)
    ensures r'.objectPools == r.objectPools && r'.poolOfItem == r.poolOfItem
    ensures pool == null || IsNullOrEmpty(pool.key) ==> r' == r
    ensures pool != null && !IsNullOrEmpty(pool.key) ==>
      var k := pool.key.value;
      && (k in r.monoPools && r.monoPools[k] == pool ==> r'.monoPools == r.monoPools - {k})
      && (k !in r.monoPools || r.monoPools[k] != pool ==> r' == r)
  {
    if pool == null || IsNullOrEmpty(pool.key) then r
    else if pool.key.value in r.monoPools && r.monoPools[pool.key.value] == pool then
      r.(monoPools := r.monoPools - {pool.key.value})
    else r
  }

  /** GetMonoPool: null for a null, empty or unknown key; otherwise the pool filed under it. */
  function LookupMono(r: Registry, key: Option<string>): (pool: MonoPool?)
    ensures pool != null <==> !IsNullOrEmpty(key) && key.value in r.monoPools
    ensures pool != null ==> pool == r.monoPools[key.value]
  {
    if IsNullOrEmpty(key) then null
    else if key.value in r.monoPools then r.monoPools[key.value]
    else null
  }

  /**
   * RegisterObjectPool(key, pool): an empty key or a null pool is ignored, and
   * so is a key already taken (TryAdd); otherwise the pool is filed under the key.
   */
  function RegisterPool(r: Registry, key: Option<string>, pool: ObjectPool?): (r': Registry)
    ensures r'.monoPools == r.monoPools && r'.poolOfItem == r.poolOfItem
    ensures IsNullOrEmpty(key) || pool == null || key.value in r.objectPools ==> r' == r
    ensures !IsNullOrEmpty(key) && pool != null && key.value !in r.objectPools ==>
      r'.objectPools == r.objectPools[key.value := pool]
  {
    if IsNullOrEmpty(key) || pool == null then r
    else if key.value in r.objectPools then r
    else r.(objectPools := r.objectPools[key.value := pool])
  }

  /** The reverse entries that do not point to `pool`. */
  function Purge(m: map<Item, ObjectPool>, pool: ObjectPool): (m': map<Item, ObjectPool>)
    ensures forall i :: i in m' ==> i in m && m[i] != pool && m'[i] == m[i]
    ensures forall i :: i in m && m[i] != pool ==> i in m'
  {
    map i | i in m && m[i] != pool :: m[i]
  }

  /**
   * DeregisterObjectPool: an empty or unknown key changes nothing; otherwise the
   * key is unfiled, and so is every handed-out object recorded under its pool.
   */
  function DeregisterPool(r: Registry, key: Option<string>): (r': Registry)
    ensures r'.monoPools == r.monoPools
    ensures IsNullOrEmpty(key) || key.value !in r.objectPools ==> r' == r
    ensures !IsNullOrEmpty(key) && key.value in r.objectPools ==>
      && r'.objectPools == r.objectPools - {key.value}
      && (forall i :: i in r'.poolOfItem ==> i in r.poolOfItem && r'.poolOfItem[i] == r.poolOfItem[i] != r.objectPools[key.value])
      && (forall i :: i in r.poolOfItem && r.poolOfItem[i] != r.objectPools[key.value] ==> i in r'.poolOfItem)
  {
    if IsNullOrEmpty(key) || key.value !in r.objectPools then r
    else
      var pool := r.objectPools[key.value];
      r.(objectPools := r.objectPools - {key.value}, poolOfItem := Purge(r.poolOfItem, pool))
  }

  /** GetObjectPool: null for a null, empty or unknown key; otherwise the pool filed under it. */
  function LookupPool(r: Registry, key: Option<string>): (pool: ObjectPool?)
    ensures pool != null <==> !IsNullOrEmpty(key) && key.value in r.objectPools
    ensures pool != null ==> pool == r.objectPools[key.value]
  {
    if IsNullOrEmpty(key) then null
    else if key.value in r.objectPools then r.objectPools[key.value]
    else null
  }

  /** GetObject: a handed-out object is recorded under the pool it came from. */
  function RecordItem(r: Registry, item: Item, pool: ObjectPool): (r': Registry)
    ensures item in r'.poolOfItem && r'.poolOfItem[item] == pool
    ensures r'.monoPools == r.monoPools && r'.objectPools == r.objectPools
    ensures r'.poolOfItem - {item} == r.poolOfItem - {item}
  {
    r.(poolOfItem := r.poolOfItem[item := pool])
  }

  /** ReturnObject: the record of a returned object is dropped. */
  function ForgetItem(r: Registry, item: Item): (r': Registry)
    ensures item !in r'.poolOfItem
    ensures r'.monoPools == r.monoPools && r'.objectPools == r.objectPools
    ensures r'.poolOfItem == r.poolOfItem - {item}
  {
    r.(poolOfItem := r.poolOfItem - {item})
  }

  /** Registering a scene pool keeps the invariant. */
  lemma RegisterMonoKeepsCoherent(r: Registry, pool: MonoPool?)
    requires Coherent(r)
    ensures Coherent(RegisterMono(r, pool))
  {
  }

  /** Registering the same scene pool twice is registering it once. */
  lemma RegisterMonoTwice(r: Registry, pool: MonoPool?)
    ensures RegisterMono(RegisterMono(r, pool), pool) == RegisterMono(r, pool)
  {
  }

  /**
   * After a scene pool is registered its key finds it, unless the key was taken
   * by another pool, which the key still finds.
   */
  lemma LookupAfterRegisterMono(r: Registry, pool: MonoPool)
    requires !IsNullOrEmpty(pool.key)
    ensures LookupMono(RegisterMono(r, pool), pool.key) == pool <==>
      pool.key.value !in r.monoPools || r.monoPools[pool.key.value] == pool
    ensures pool.key.value in r.monoPools ==>
      LookupMono(RegisterMono(r, pool), pool.key) == r.monoPools[pool.key.value]
  {
  }

  /** Deregistering undoes a registration that took a free key. */
  lemma {:induction false} DeregisterMonoUndoesRegister(r: Registry, pool: MonoPool)
    requires !IsNullOrEmpty(pool.key) && pool.key.value !in r.monoPools
    ensures DeregisterMono(RegisterMono(r, pool), pool) == r
  {
    var k := pool.key.value;
    assert r.monoPools[k := pool] - {k} == r.monoPools;
  }

  /** Deregistering a filed scene pool leaves its key finding nothing; deregistering keeps the invariant. */
  lemma DeregisterMonoForgets(r: Registry, pool: MonoPool)
    requires Coherent(r) && pool in r.monoPools.Values
    ensures LookupMono(DeregisterMono(r, pool), pool.key) == null
    ensures Coherent(DeregisterMono(r, pool))
  {
    var k :| k in r.monoPools && r.monoPools[k] == pool;
    assert pool.key == Some(k);
  }

  /** Registering an object pool keeps the invariant. */
  lemma RegisterPoolKeepsCoherent(r: Registry, key: Option<string>, pool: ObjectPool?)
    requires Coherent(r)
    ensures Coherent(RegisterPool(r, key, pool))
  {
    var r' := RegisterPool(r, key, pool);
    forall i | i in r'.poolOfItem
      ensures r'.poolOfItem[i] in r'.objectPools.Values
    {
      var k :| k in r.objectPools && r.objectPools[k] == r.poolOfItem[i];
      assert r'.objectPools[k] == r.poolOfItem[i];
    }
  }

  /**
   * Deregistering an object pool keeps the invariant: every record left points
   * to a pool other than the removed one, and that pool is still filed under
   * its own, different, key.
   */
  lemma DeregisterPoolKeepsCoherent(r: Registry, key: Option<string>)
    requires Coherent(r)
    ensures Coherent(DeregisterPool(r, key))
  {
    var r' := DeregisterPool(r, key);
    if !IsNullOrEmpty(key) && key.value in r.objectPools {
      forall i | i in r'.poolOfItem
        ensures r'.poolOfItem[i] in r'.objectPools.Values
      {
        var k :| k in r.objectPools && r.objectPools[k] == r.poolOfItem[i];
        assert k != key.value;
        assert r'.objectPools[k] == r'.poolOfItem[i];
      }
    }
  }

  /**
   * Deregistering undoes a registration that took a free key, as long as no
   * object handed out is recorded under the pool.
   */
  lemma DeregisterPoolUndoesRegister(r: Registry, key: Option<string>, pool: ObjectPool)
    requires !IsNullOrEmpty(key) && key.value !in r.objectPools
    requires forall i :: i in r.poolOfItem ==> r.poolOfItem[i] != pool
    ensures DeregisterPool(RegisterPool(r, key, pool), key) == r
  {
    assert r.objectPools[key.value := pool] - {key.value} == r.objectPools;
    assert Purge(r.poolOfItem, pool) == r.poolOfItem;
  }

  /** Recording a handed-out object under a registered pool keeps the invariant. */
  lemma RecordItemKeepsCoherent(r: Registry, item: Item, pool: ObjectPool)
    requires Coherent(r) && pool in r.objectPools.Values
    ensures Coherent(RecordItem(r, item, pool))
  {
  }

  /** Dropping a record keeps the invariant. */
  lemma ForgetItemKeepsCoherent(r: Registry, item: Item)
    requires Coherent(r)
    ensures Coherent(ForgetItem(r, item))
  {
  }

  /** Returning an object that was not recorded before it was handed out restores the records. */
  lemma {:induction false} ForgetUndoesRecord(r: Registry, item: Item, pool: ObjectPool)
    requires item !in r.poolOfItem
    ensures ForgetItem(RecordItem(r, item, pool), item) == r
  {
    assert r.poolOfItem[item := pool] - {item} == r.poolOfItem;
  }

  /** Removing the collected keys from the reverse map is purging the pool from it. */
  lemma {:induction false} RemovingCollectedPurges(m: map<Item, ObjectPool>, pool: ObjectPool, collected: set<Item>)
    requires forall i :: i in collected <==> i in m && m[i] == pool
    ensures m - collected == Purge(m, pool)
  {
    assert forall i :: i in m - collected <==> i in Purge(m, pool);
  }

  class PoolService {
    /** _monoPoolByKey */
    var monoPools: map<string, MonoPool>
    /** _objectPoolByKey */
    var objectPools: map<string, ObjectPool>
    /** _objectPoolByPoolable */
    var poolOfItem: map<Item, ObjectPool>
    /** _coroutineService: null when no coroutine service has been found. */
    var coroutines: CoroutineService?<Deferred>

    /** The three dictionaries as a value. */
    function Model(): Registry
      reads this
    {
      Registry(monoPools, objectPools, poolOfItem)
    }

    ghost predicate Valid()
      reads this
    {
      Coherent(Model())
    }

    /** Awake: empty dictionaries, and the coroutine service the service locator found (or null). */
    constructor(located: CoroutineService?<Deferred>)
      ensures Valid()
      ensures Model() == Registry(map[], map[], map[]) && coroutines == located
    {
      monoPools := map[];
      objectPools := map[];
      poolOfItem := map[];
      coroutines := located;
    }

    /** RegisterMonoPool */
    method RegisterMonoPool(monoPool: MonoPool?)
      requires Valid()
      modifies this`monoPools
      ensures Valid()
      ensures Model() == RegisterMono(old(Model()), monoPool)
    {
      RegisterMonoKeepsCoherent(Model(), monoPool);
      if monoPool == null {
        return;
      }
      var key := monoPool.key;
      if IsNullOrEmpty(key) {
        return;
      }
      if key.value in monoPools {
        // The same pool again, or a different pool under a taken key: either way
        // the first registration stands (the duplicate only logs a warning).
        return;
      }
      monoPools := monoPools[key.value := monoPool];
    }

    /** DeregisterMonoPool */
    method DeregisterMonoPool(monoPool: MonoPool?)
      requires Valid()
      modifies this`monoPools
      ensures Valid()
      ensures Model() == DeregisterMono(old(Model()), monoPool)
    {
      if monoPool == null {
        return;
      }
      var key := monoPool.key;
      if IsNullOrEmpty(key) {
        return;
      }
      if key.value in monoPools && monoPools[key.value] == monoPool {
        DeregisterMonoForgets(Model(), monoPool);
        monoPools := monoPools - {key.value};
      }
    }

    /**
     * Get(poolKey): null for a key that finds no pool, and nothing changes;
     * otherwise whatever the pool's Get hands out (`threw` when the pool's
     * oldest queued instance had been destroyed).
     */
    method Get(key: Option<string>, alive: Poolable -> bool) returns (instance: Poolable?, threw: bool)
      requires Valid()
      requires LookupMono(Model(), key) != null ==> LookupMono(Model(), key).Valid()
      modifies LookupMono(Model(), key)
      ensures Model() == old(Model())
      ensures LookupMono(Model(), key) == null ==> instance == null && !threw
      ensures var pool := LookupMono(Model(), key);
        pool != null ==>
          && pool.Valid()
          && (instance != null ==> instance in pool.active && instance.pool == pool)
          && (threw <==> old(pool.available) != [] && !alive(old(pool.available)[0]))
          && (old(pool.available) != [] ==>
                && instance == (if threw then null else old(pool.available)[0])
                && pool.Model() == Checkout(old(pool.Model()), !threw)
                && pool.totalCreated == old(pool.totalCreated) && pool.calls == old(pool.calls))
          && (old(pool.available) == [] && old(pool.totalCreated) < pool.maxSize ==>
                && pool.calls == old(pool.calls) + 1
                && (instance != null <==> pool.instantiates(old(pool.calls)))
                && (instance != null ==>
                      && fresh(instance)
                      && pool.Model() == Admit(old(pool.Model()), instance)
                      && pool.totalCreated == old(pool.totalCreated) + 1)
                && (instance == null ==> pool.Model() == old(pool.Model()) && pool.totalCreated == old(pool.totalCreated)))
          && (old(pool.available) == [] && old(pool.totalCreated) >= pool.maxSize ==>
                && instance == null
                && pool.Model() == old(pool.Model())
                && pool.totalCreated == old(pool.totalCreated) && pool.calls == old(pool.calls))
    {
      var pool := LookupMono(Model(), key);
      if pool == null {
        return null, false;
      }
      instance, threw := pool.Get(alive);
    }

    /**
     * Return(instance): null is ignored; an instance bound to a pool goes back
     * to that pool; one without a pool is destroyed, which no store records.
     */
    method Return(instance: Poolable?, alive: Poolable -> bool)
      requires instance != null && instance.pool != null ==> instance.pool.Valid()
      modifies if instance != null && instance.pool != null then {instance.pool} else {}
      ensures instance != null && instance.pool != null ==>
        && instance.pool.Valid()
        && instance.pool.Model() == ReturnOne(old(instance.pool.Model()), instance, alive(instance))
        && instance.pool.totalCreated == old(instance.pool.totalCreated)
        && instance.pool.calls == old(instance.pool.calls)
        && instance.pool.created == old(instance.pool.created)
    {
      if instance == null {
        return;
      }
      var pool := instance.pool;
      if pool != null {
        pool.Return(instance, alive);
        return;
      }
    }

    /**
     * Return(instance, delaySeconds): null is ignored; with no delay the
     * instance is returned at once. Otherwise the service locator is asked for
     * a coroutine service when there is none yet (`located` is its answer); with
     * one, a delayed Return is scheduled, owned by the instance's pool or by no
     * one; without one the instance is returned at once.
     */
    method ReturnAfter(instance: Poolable?, delaySeconds: real, alive: Poolable -> bool, located: CoroutineService?<Deferred>)
      requires instance != null && instance.pool != null ==> instance.pool.Valid()
      modifies this`coroutines, coroutines, located
      modifies if instance != null && instance.pool != null then {instance.pool} else {}
      ensures instance == null || delaySeconds <= 0.0 ==> coroutines == old(coroutines)
      ensures instance != null && delaySeconds > 0.0 ==>
        coroutines == if old(coroutines) == null then located else old(coroutines)
      ensures var c := coroutines;
        instance != null && delaySeconds > 0.0 && c != null ==>
          && c.Model() == RunDelayed(old(c.Model()), instance.pool, Some(ServiceReturn(instance)), delaySeconds, None).0
          && (instance.pool != null ==> instance.pool.Model() == old(instance.pool.Model()))
      ensures instance != null && instance.pool != null && (delaySeconds <= 0.0 || coroutines == null) ==>
        && instance.pool.Valid()
        && instance.pool.Model() == ReturnOne(old(instance.pool.Model()), instance, alive(instance))
      ensures var c := old(coroutines);
        instance != null && delaySeconds <= 0.0 && c != null ==> c.Model() == old(c.Model())
      ensures instance != null && instance.pool != null ==>
        && instance.pool.totalCreated == old(instance.pool.totalCreated)
        && instance.pool.calls == old(instance.pool.calls)
        && instance.pool.created == old(instance.pool.created)
      ensures (located != null && located != old(coroutines) && (instance == null || delaySeconds <= 0.0 || old(coroutines) != null))
        ==> located.Model() == old(located.Model())
    {
      if instance == null {
        return;
      }
      if delaySeconds <= 0.0 {
        Return(instance, alive);
        return;
      }
      if coroutines == null {
        coroutines := located;
      }
      var owner := instance.pool;
      if coroutines != null {
        if owner != null {
          var _ := coroutines.RunDelayed(owner, Some(ServiceReturn(instance)), delaySeconds, None);
          return;
        }
        var _ := coroutines.RunDelayed(null, Some(ServiceReturn(instance)), delaySeconds, None);
        return;
      }
      Return(instance, alive);
    }

    /** RegisterObjectPool(poolKey, pool) */
    method RegisterObjectPool(key: Option<string>, pool: ObjectPool?)
      requires Valid()
      modifies this`objectPools
      ensures Valid()
      ensures Model() == RegisterPool(old(Model()), key, pool)
    {
      RegisterPoolKeepsCoherent(Model(), key, pool);
      if IsNullOrEmpty(key) || pool == null {
        return;
      }
      if key.value in objectPools {
        return;
      }
      objectPools := objectPools[key.value := pool];
    }

    /**
     * RegisterObjectPool(poolKey, factory, initialSize, maxSize): an empty key,
     * a null factory or a key already taken is ignored; otherwise a new pool is
     * built (and warmed) from the factory and filed under the key.
     */
    method RegisterObjectPoolFrom(key: Option<string>, factory: Option<nat -> Option<Item>>, isItem: Item -> bool,
                                  initialSize: Int32, maxSize: Int32)
      requires Valid()
      modifies this`objectPools
      ensures Valid()
      ensures IsNullOrEmpty(key) || factory.None? || key.value in old(objectPools) ==> Model() == old(Model())
      ensures !IsNullOrEmpty(key) && factory.Some? && key.value !in old(objectPools) ==>
        && key.value in objectPools
        && var pool := objectPools[key.value];
        && fresh(pool)
        && Model() == RegisterPool(old(Model()), key, pool)
        && pool.Valid() && pool.factory == factory.value && pool.maxSize == Capacity(maxSize)
        && pool.calls == WarmCount(initialSize, maxSize)
        && pool.available == Successes(factory.value, 0, pool.calls)
    {
      if IsNullOrEmpty(key) {
        return;
      }
      if factory.None? {
        return;
      }
      if key.value in objectPools {
        return;
      }
      var pool := new ObjectPool(factory.value, isItem, initialSize, maxSize);
      RegisterPoolKeepsCoherent(Model(), key, pool);
      objectPools := objectPools[key.value := pool];
    }

    /**
     * DeregisterObjectPool: the key is removed, then the objects recorded under
     * its pool are collected from the reverse map and removed one by one.
     */
    method DeregisterObjectPool(key: Option<string>)
      requires Valid()
      modifies this`objectPools, this`poolOfItem
      ensures Valid()
      ensures Model() == DeregisterPool(old(Model()), key)
    {
      DeregisterPoolKeepsCoherent(Model(), key);
      if IsNullOrEmpty(key) || key.value !in objectPools {
        return;
      }
      var pool := objectPools[key.value];
      objectPools := objectPools - {key.value};
      var toRemove := CollectRecordsOf(pool);
      RemovingCollectedPurges(poolOfItem, pool, Elems(toRemove));
      RemoveRecords(toRemove);
    }

    /** The collecting pass of DeregisterObjectPool: every object recorded under `pool`, once each. */
    method CollectRecordsOf(pool: ObjectPool) returns (toRemove: seq<Item>)
      ensures forall x :: x in Elems(toRemove) <==> x in poolOfItem && poolOfItem[x] == pool
    {
      var entries := Snapshot(poolOfItem.Keys);
      toRemove := [];
      var i := 0;
      while i < |entries|
        invariant 0 <= i <= |entries|
        invariant forall x :: x in toRemove <==> x in entries[..i] && poolOfItem[x] == pool
      {
        if poolOfItem[entries[i]] == pool {
          toRemove := toRemove + [entries[i]];
        }
        PrefixNext(entries, i);
        i := i + 1;
      }
      assert entries[..|entries|] == entries;
    }

    /** The removing pass of DeregisterObjectPool: the records of `items` are dropped, one at a time. */
    method RemoveRecords(items: seq<Item>)
      modifies this`poolOfItem
      ensures poolOfItem == old(poolOfItem) - Elems(items)
    {
      var j := 0;
      while j < |items|
        invariant 0 <= j <= |items|
        invariant poolOfItem == old(poolOfItem) - Elems(items[..j])
      {
        poolOfItem := poolOfItem - {items[j]};
        MinusOneMore(old(poolOfItem), Elems(items[..j]), items[j]);
        j := j + 1;
        ElemsPrefix(items, j);
      }
      assert items[..|items|] == items;
    }

    /**
     * GetObject(poolKey): a key that finds no pool yields null; otherwise the
     * pool's Get is asked (`got` is its answer): a null answer is passed on,
     * anything else is recorded under the pool, then handed out when it is a T
     * (`as T`), or null when it is not -- recorded all the same.
     */
    method GetObject(key: Option<string>, isT: Item -> bool) returns (item: Option<Item>, ghost got: Option<Item>)
      requires Valid()
      requires LookupPool(Model(), key) != null ==> LookupPool(Model(), key).Valid()
      modifies this`poolOfItem, LookupPool(Model(), key)
      ensures Valid()
      ensures var pool := LookupPool(old(Model()), key);
        && (pool == null ==> item == None && Model() == old(Model()))
        && (pool != null ==>
              && pool.Valid()
              && (old(pool.available) != [] ==>
                    && got == Some(old(pool.available)[0])
                    && pool.available == old(pool.available)[1..]
                    && pool.totalCreated == old(pool.totalCreated) && pool.calls == old(pool.calls)
                    && pool.hooks == old(pool.hooks) + [Requested(got.value)])
              && (old(pool.available) == [] && old(pool.totalCreated) < pool.maxSize ==>
                    && got == pool.factory(old(pool.calls))
                    && pool.calls == old(pool.calls) + 1
                    && pool.totalCreated == old(pool.totalCreated) + 1
                    && pool.available == []
                    && pool.hooks == old(pool.hooks) + (if got.Some? then [Requested(got.value)] else []))
              && (old(pool.available) == [] && old(pool.totalCreated) >= pool.maxSize ==>
                    && got == None
                    && pool.available == [] && pool.totalCreated == old(pool.totalCreated)
                    && pool.calls == old(pool.calls) && pool.hooks == old(pool.hooks))
              && (got.None? ==> item == None && Model() == old(Model()))
              && (got.Some? ==>
                    && item == (if isT(got.value) then got else None)
                    && Model() == RecordItem(old(Model()), got.value, pool)))
    {
      var pool := LookupPool(Model(), key);
      if pool == null {
        return None, None;
      }
      var answer := pool.Get();
      got := answer;
      if answer.None? {
        return None, got;
      }
      RecordItemKeepsCoherent(Model(), answer.value, pool);
      poolOfItem := poolOfItem[answer.value := pool];
      item := if isT(answer.value) then answer else None;
    }

    /**
     * ReturnObject(instance): null, or an object with no recorded pool, changes
     * nothing; otherwise the object goes back to its recorded pool and the
     * record is dropped.
     */
    method ReturnObject(instance: Option<Item>)
      requires Valid()
      requires instance.Some? && instance.value in poolOfItem ==> poolOfItem[instance.value].Valid()
      modifies this`poolOfItem
      modifies if instance.Some? && instance.value in poolOfItem then {poolOfItem[instance.value]} else {}
      ensures Valid()
      ensures instance.None? || instance.value !in old(poolOfItem) ==> Model() == old(Model())
      ensures instance.Some? && instance.value in old(poolOfItem) ==>
        && Model() == ForgetItem(old(Model()), instance.value)
        && var pool := old(poolOfItem)[instance.value];
        && pool.Valid()
        && pool.available == old(pool.available) + (if pool.isItem(instance.value) then [instance.value] else [])
        && pool.hooks == old(pool.hooks) + (if pool.isItem(instance.value) then [Returned(instance.value)] else [])
        && pool.totalCreated == old(pool.totalCreated) && pool.calls == old(pool.calls)
    {
      if instance.None? {
        return;
      }
      if instance.value in poolOfItem {
        var pool := poolOfItem[instance.value];
        pool.Return(instance);
        ForgetItemKeepsCoherent(Model(), instance.value);
        poolOfItem := poolOfItem - {instance.value};
        return;
      }
    }

    /**
     * ReturnObject(poolKey, instance): null, or a key that finds no pool, changes
     * nothing; otherwise the object goes back to that pool, and whatever record
     * it had is dropped -- even one naming another pool.
     */
    method ReturnObjectTo(key: Option<string>, instance: Option<Item>)
      requires Valid()
      requires LookupPool(Model(), key) != null ==> LookupPool(Model(), key).Valid()
      modifies this`poolOfItem, LookupPool(Model(), key)
      ensures Valid()
      ensures instance.None? || LookupPool(old(Model()), key) == null ==> Model() == old(Model())
      ensures instance.None? && LookupPool(old(Model()), key) != null ==> unchanged(LookupPool(old(Model()), key))
      ensures instance.Some? && LookupPool(old(Model()), key) != null ==>
        && Model() == ForgetItem(old(Model()), instance.value)
        && var pool := LookupPool(old(Model()), key);
        && pool.Valid()
        && pool.available == old(pool.available) + (if pool.isItem(instance.value) then [instance.value] else [])
        && pool.hooks == old(pool.hooks) + (if pool.isItem(instance.value) then [Returned(instance.value)] else [])
        && pool.totalCreated == old(pool.totalCreated) && pool.calls == old(pool.calls)
    {
      if instance.None? {
        return;
      }
      var pool := LookupPool(Model(), key);
      if pool == null {
        return;
      }
      pool.Return(instance);
      ForgetItemKeepsCoherent(Model(), instance.value);
      poolOfItem := poolOfItem - {instance.value};
    }
  }
}
