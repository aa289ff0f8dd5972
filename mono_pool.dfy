/**
 * MonoPool: a bounded pool of scene objects with two stores, a queue of
 * available instances and a set of active (checked-out) ones. The stores are
 * also given as a value, with the operations on them as functions and the
 * lemmas that say each operation keeps every instance in at most one place.
 */
module MonoPooling {
  import opened Common
  import opened CoroutineIndex
  import opened CoroutineModel
  import opened CoroutineProofs
  import opened Coroutines

  /** A pooled scene object (an IPoolableMono), by identity; `pool` is what SetPool bound it to. */
  class Poolable {
    const pool: MonoPool?

    constructor(pool: MonoPool?)
      ensures this.pool == pool
    {
      this.pool := pool;
    }
  }

  /**
   * The callbacks handed to RunDelayed for a deferred return: the pool's own
   * Return(instance), or PoolService.Return(instance).
   */
  datatype Deferred = PoolReturn(pool: MonoPool, instance: Poolable) | ServiceReturn(instance: Poolable)

  /** The two stores, and the OnRequestedFromPool / OnReturnedToPool calls made so far. */
  datatype Stores = Stores(available: seq<Poolable>, active: set<Poolable>, hooks: seq<Hook<Poolable>>)

  /** At most one location per instance: none is queued twice, none is both queued and active. */
  ghost predicate Placed(s: Stores)
  {
    Distinct(s.available) && forall p :: p in s.available ==> p !in s.active
  }

  /**
   * GetInternal with a non-empty queue: the oldest instance is dequeued and
   * joins the active set. OnRequestedFromPool is called on it only when its
   * GameObject still exists (`alive`); for a destroyed one, SetActive throws
   * after the instance was added to the active set, and no hook runs.
   */
  function Checkout(s: Stores, alive: bool): Stores
    requires s.available != []
  {
    Stores(s.available[1..], s.active + {s.available[0]}, s.hooks + (if alive then [Requested(s.available[0])] else []))
  }

  /** GetInternal with a newly created instance: it becomes active. */
  function Admit(s: Stores, p: Poolable): Stores
  {
    Stores(s.available, s.active + {p}, s.hooks + [Requested(p)])
  }

  /**
   * ReturnInternal of a non-null instance; `alive` says whether its GameObject
   * still exists. A destroyed one only leaves the active set; a live one that is
   * not active is ignored; a live active one goes to the back of the queue.
   */
  function ReturnOne(s: Stores, p: Poolable, alive: bool): Stores
  {
    if !alive then s.(active := s.active - {p})
    else if p !in s.active then s
    else Stores(s.available + [p], s.active - {p}, s.hooks + [Returned(p)])
  }

  /** ReturnInternal of each instance of `ps`, in order. */
  function ReturnEach(s: Stores, ps: seq<Poolable>, alive: Poolable -> bool): Stores
    decreases |ps|
  {
    if ps == [] then s
    else ReturnOne(ReturnEach(s, ps[..|ps| - 1], alive), ps[|ps| - 1], alive(ps[|ps| - 1]))
  }

  /** The instances of `ps` that ReturnEach queues: the active ones whose GameObject exists, in order. */
  function Requeued(ps: seq<Poolable>, active: set<Poolable>, alive: Poolable -> bool): (r: seq<Poolable>)
    ensures forall p :: p in r ==> p in ps && p in active && alive(p)
    ensures forall p :: p in ps && p in active && alive(p) ==> p in r
    ensures Distinct(ps) ==> Distinct(r)
    decreases |ps|
  {
    if ps == [] then []
    else
      var last := ps[|ps| - 1];
      assert forall i :: 0 <= i < |ps| - 1 ==> ps[..|ps| - 1][i] == ps[i];
      Requeued(ps[..|ps| - 1], active, alive) + (if last in active && alive(last) then [last] else [])
  }

  /** How many instances warm-up tries to create: Mathf.Min(initialSize, maxSize), or none when negative. */
  function AttemptCount(initialSize: int, maxSize: int): (n: nat)
    ensures n == 0 || (n <= initialSize && n <= maxSize)
    ensures 0 <= initialSize <= maxSize ==> n == initialSize
    ensures 0 <= maxSize <= initialSize ==> n == maxSize
  {
    var m := if initialSize < maxSize then initialSize else maxSize;
    if m < 0 then 0 else m
  }

  /**
   * The RunDelayed calls of ReturnAll(delaySeconds), one per instance of `ps`,
   * each owned by the pool and calling back the pool's Return.
   */
  function ScheduleEach(s: ServiceState<Deferred>, pool: MonoPool, ps: seq<Poolable>, delaySeconds: real): ServiceState<Deferred>
    decreases |ps|
  {
    if ps == [] then s
    else RunDelayed(ScheduleEach(s, pool, ps[..|ps| - 1], delaySeconds), pool, Some(PoolReturn(pool, ps[|ps| - 1])), delaySeconds, None).0
  }

  // ---------------------------------------------------------------------------
  // What the operations on the stores keep
  // ---------------------------------------------------------------------------

  /** Checkout hands out the oldest queued instance and keeps every instance in one place. */
  lemma CheckoutKeepsPlaced(s: Stores, alive: bool)
    requires Placed(s) && s.available != []
    ensures var r := Checkout(s, alive);
      && Placed(r)
      && s.available[0] in r.active && s.available[0] !in r.available
      && r.available == s.available[1..]
  {
    assert s.available == [s.available[0]] + s.available[1..];
  }

  /**
   * Checking out the oldest queued instance and returning it puts it at the
   * back of the queue: the active set is as before, the queue has the same
   * instances and the same length, and the two hooks ran on it in order.
   */
  lemma CheckoutReturnRoundTrip(s: Stores)
    requires Placed(s) && s.available != []
    ensures var p := s.available[0];
      var r := ReturnOne(Checkout(s, true), p, true);
      && r.active == s.active
      && r.available == s.available[1..] + [p]
      && |r.available| == |s.available| && Elems(r.available) == Elems(s.available)
      && r.hooks == s.hooks + [Requested(p), Returned(p)]
  {
    var p := s.available[0];
    assert s.available == [p] + s.available[1..];
    assert p !in s.active;
    assert Elems(s.available[1..] + [p]) == Elems(s.available);
  }

  /**
   * Every queued and every active instance was created by the pool, so the two
   * stores together never hold more instances than were created.
   */
  lemma HeldWithinCreated(s: Stores, created: set<Poolable>)
    requires Placed(s) && Elems(s.available) <= created && s.active <= created
    ensures |s.available| + |s.active| <= |created|
  {
    DistinctCard(s.available);
    assert Elems(s.available) * s.active == {};
    SubsetCard(Elems(s.available) + s.active, created);
  }

  /** Admitting an instance that is not queued keeps every instance in one place. */
  lemma AdmitKeepsPlaced(s: Stores, p: Poolable)
    requires Placed(s) && p !in s.available
    ensures Placed(Admit(s, p)) && p in Admit(s, p).active
  {
  }

  /**
   * A return keeps every instance in one place, leaves the instance inactive,
   * and queues it only when it was active and alive.
   */
  lemma ReturnOneKeepsPlaced(s: Stores, p: Poolable, alive: bool)
    requires Placed(s)
    ensures var r := ReturnOne(s, p, alive);
      && Placed(r)
      && p !in r.active
      && r.active == s.active - {p}
      && (p in r.available <==> p in s.available || (p in s.active && alive))
  {
  }

  /** Returning twice is returning once: the second return finds the instance inactive. */
  lemma ReturnOneTwice(s: Stores, p: Poolable, alive: bool)
    ensures ReturnOne(ReturnOne(s, p, alive), p, alive) == ReturnOne(s, p, alive)
  {
  }

  /**
   * Returning a list of distinct instances in order: every instance stays in one
   * place, the listed ones leave the active set, and exactly the active live ones
   * among them are queued, in list order, behind what was queued before.
   */
  lemma {:induction false} ReturnEachSpec(s: Stores, ps: seq<Poolable>, alive: Poolable -> bool)
    requires Placed(s) && Distinct(ps)
    ensures var r := ReturnEach(s, ps, alive);
      && Placed(r)
      && r.active == s.active - Elems(ps)
      && r.available == s.available + Requeued(ps, s.active, alive)
    decreases |ps|
  {
    if ps != [] {
      var init := ps[..|ps| - 1];
      var last := ps[|ps| - 1];
      assert Distinct(init);
      ReturnEachSpec(s, init, alive);
      var m := ReturnEach(s, init, alive);
      ReturnOneKeepsPlaced(m, last, alive(last));
      ElemsPrefix(ps, |ps|);
      assert ps[..|ps|] == ps;
      assert last !in init;
      assert last in m.active <==> last in s.active;
    }
  }

  /**
   * ReturnAll: returning a snapshot of the whole active set empties it and
   * queues every live previously-active instance exactly once.
   */
  lemma ReturnAllEmpties(s: Stores, ps: seq<Poolable>, alive: Poolable -> bool)
    requires Placed(s) && Distinct(ps) && Elems(ps) == s.active
    ensures var r := ReturnEach(s, ps, alive);
      && Placed(r)
      && r.active == {}
      && (forall p :: p in r.available <==> p in s.available || (p in s.active && alive(p)))
      && |r.available| == |s.available| + |Requeued(ps, s.active, alive)|
  {
    ReturnEachSpec(s, ps, alive);
  }

  /** The coroutine that returns `p` to `pool` after its delay, once started on handle `h`. */
  function PendingReturn(pool: MonoPool, p: Poolable, h: Handle): Tracked<Deferred>
  {
    Tracked(pool, None, Delay(true, Some(PoolReturn(pool, p))), 1, Some(h))
  }

  /**
   * The delayed returns of `ps`, on handles `base` onwards: each coroutine is
   * owned by the pool, has taken its first step, and calls the pool's Return
   * for its instance on the next one.
   */
  function PendingReturns(pool: MonoPool, ps: seq<Poolable>, base: Handle): map<Handle, Tracked<Deferred>>
    decreases |ps|
  {
    if ps == [] then map[]
    else PendingReturns(pool, ps[..|ps| - 1], base)[base + |ps| - 1 := PendingReturn(pool, ps[|ps| - 1], base + |ps| - 1)]
  }

  /** The records of the delayed returns on handles `base` .. `base + n - 1`, all owned by the pool. */
  function PendingRecords(pool: MonoPool, n: nat, base: Handle): map<Handle, Record>
  {
    if n == 0 then map[] else PendingRecords(pool, n - 1, base)[base + n - 1 := Record(base + n - 1, pool, None, "DelayRoutine")]
  }

  /** One more delayed return extends both maps by its handle. */
  lemma PendingNext(pool: MonoPool, init: seq<Poolable>, p: Poolable, base: Handle, h: Handle)
    requires h == base + |init|
    ensures PendingReturns(pool, init + [p], base) == PendingReturns(pool, init, base)[h := PendingReturn(pool, p, h)]
    ensures PendingRecords(pool, |init| + 1, base) == PendingRecords(pool, |init|, base)[h := Record(h, pool, None, "DelayRoutine")]
  {
    assert (init + [p])[..|init|] == init;
  }

  /**
   * The pending returns in closed form: one per instance, on consecutive handles
   * from `base`, the i-th returning `ps[i]`.
   */
  lemma {:induction false} PendingReturnsShape(pool: MonoPool, ps: seq<Poolable>, base: Handle)
    ensures forall h :: h in PendingReturns(pool, ps, base) <==> base <= h < base + |ps|
    ensures forall i :: 0 <= i < |ps| ==> PendingReturns(pool, ps, base)[base + i] == PendingReturn(pool, ps[i], base + i)
    decreases |ps|
  {
    if ps != [] {
      var init := ps[..|ps| - 1];
      PendingReturnsShape(pool, init, base);
      assert forall i :: 0 <= i < |init| ==> init[i] == ps[i];
    }
  }

  /** The pending records in closed form: one per handle from `base`, all owned by the pool. */
  lemma {:induction false} PendingRecordsShape(pool: MonoPool, n: nat, base: Handle)
    ensures forall h :: h in PendingRecords(pool, n, base) <==> base <= h < base + n
    ensures forall h :: h in PendingRecords(pool, n, base) ==> PendingRecords(pool, n, base)[h] == Record(h, pool, None, "DelayRoutine")
  {
    if n > 0 {
      PendingRecordsShape(pool, n - 1, base);
    }
  }

  /** Every running coroutine's handle was handed out already. */
  ghost predicate Below(s: ServiceState<Deferred>)
  {
    forall h :: h in s.running ==> h < s.next
  }

  /** One delayed return: a fresh running coroutine, recorded under the pool. */
  lemma ScheduleOne(m: ServiceState<Deferred>, pool: MonoPool, p: Poolable, delaySeconds: real)
    requires Below(m) && delaySeconds > 0.0
    ensures var r := RunDelayed(m, pool, Some(PoolReturn(pool, p)), delaySeconds, None).0;
      && Below(r)
      && r.next == m.next + 1
      && r.fired == m.fired
      && r.running == m.running[m.next := PendingReturn(pool, p, m.next)]
      && r.data == m.data[m.next := Record(m.next, pool, None, "DelayRoutine")]
  {
    RunResult(m, pool, DelayRoutine(Some(PoolReturn(pool, p)), delaySeconds), None);
  }

  /**
   * ReturnAll(delaySeconds) with a positive delay: one delayed return per
   * instance, on consecutive fresh handles, each recorded under the pool; the
   * coroutines already running are left as they were and nothing fires yet.
   */
  lemma {:induction false} ScheduleEachRecords(s: ServiceState<Deferred>, pool: MonoPool, ps: seq<Poolable>, delaySeconds: real)
    requires Below(s) && delaySeconds > 0.0
    ensures var r := ScheduleEach(s, pool, ps, delaySeconds);
      && Below(r)
      && r.next == s.next + |ps|
      && r.fired == s.fired
      && r.running == s.running + PendingReturns(pool, ps, s.next)
      && r.data == s.data + PendingRecords(pool, |ps|, s.next)
    decreases |ps|
  {
    if ps == [] {
      assert PendingReturns(pool, ps, s.next) == map[];
      assert PendingRecords(pool, 0, s.next) == map[];
    } else {
      var init := ps[..|ps| - 1];
      var p := ps[|ps| - 1];
      ScheduleEachRecords(s, pool, init, delaySeconds);
      var m := ScheduleEach(s, pool, init, delaySeconds);
      ScheduleOne(m, pool, p, delaySeconds);
      var r := ScheduleEach(s, pool, ps, delaySeconds);
      assert r == RunDelayed(m, pool, Some(PoolReturn(pool, p)), delaySeconds, None).0;
      var h := s.next + |init|;
      assert m.next == h;
      FrontLast(ps);
      PendingNext(pool, init, p, s.next, h);
      UnionUpdate(r.running, m.running, s.running, PendingReturns(pool, init, s.next), PendingReturns(pool, init + [p], s.next),
        h, PendingReturn(pool, p, h));
      UnionUpdate(r.data, m.data, s.data, PendingRecords(pool, |init|, s.next), PendingRecords(pool, |init| + 1, s.next),
        h, Record(h, pool, None, "DelayRoutine"));
    }
  }

  /** Scheduling delayed returns keeps the service's invariant, and leaves no stale record. */
  lemma {:induction false} ScheduleEachKeepsValid(s: ServiceState<Deferred>, pool: MonoPool, ps: seq<Poolable>, delaySeconds: real)
    requires CoroutineModel.Valid(s)
    ensures CoroutineModel.Valid(ScheduleEach(s, pool, ps, delaySeconds))
    ensures NoStale(s) ==> NoStale(ScheduleEach(s, pool, ps, delaySeconds))
    decreases |ps|
  {
    if ps != [] {
      var init := ps[..|ps| - 1];
      ScheduleEachKeepsValid(s, pool, init, delaySeconds);
      RunDelayedRecords(ScheduleEach(s, pool, init, delaySeconds), pool, Some(PoolReturn(pool, ps[|ps| - 1])), delaySeconds, None);
    }
  }

  // ---------------------------------------------------------------------------
  // The pool
  // ---------------------------------------------------------------------------

  class MonoPool {
    /** _poolKey */
    const key: Option<string>
    /** Whether a prefab is assigned. */
    const hasPrefab: bool
    /** _initialSize */
    const initialSize: int
    /** _maxSize */
    const maxSize: int
    /**
     * Whether the n-th Instantiate of the prefab yields an object carrying an
     * IPoolableMono (false: the component is missing, or Instantiate threw).
     */
    const instantiates: nat -> bool
    /** _coroutineService, as found when the pool woke up (null when there is none). */
    const coroutines: CoroutineService?<Deferred>

    /** _availablePoolables, oldest first */
    var available: seq<Poolable>
    /** _activePoolables */
    var active: set<Poolable>
    /** The hook calls made on instances, in order. */
    var hooks: seq<Hook<Poolable>>
    /** _totalCreatedCount */
    var totalCreated: int
    /** How many times the prefab has been instantiated. */
    var calls: nat
    /** The instances this pool has created. */
    ghost var created: set<Poolable>

    /** The stores as a value. */
    function Model(): Stores
      reads this
    {
      Stores(available, active, hooks)
    }

    /**
     * Every instance is in one place, every held instance was created by this
     * pool and is bound to it, and creations stay within maxSize.
     */
    ghost predicate Valid()
      reads this
    {
      && Placed(Model())
      && Elems(available) <= created && active <= created
      && (forall p :: p in created ==> p.pool == this)
      && |created| == totalCreated
      && (totalCreated == 0 || totalCreated <= maxSize)
    }

    /** The two stores together hold at most the instances created so far. */
    lemma HeldCount()
      requires Valid()
      ensures |available| + |active| <= totalCreated
    {
      HeldWithinCreated(Model(), created);
    }

    /** Awake: the pool warms up, and finds the coroutine service (null when there is none). */
    constructor(key: Option<string>, hasPrefab: bool, initialSize: Int32, maxSize: Int32,
                instantiates: nat -> bool, coroutines: CoroutineService?<Deferred>)
      ensures Valid()
      ensures this.key == key && this.maxSize == maxSize && this.coroutines == coroutines
      ensures this.hasPrefab == hasPrefab && this.initialSize == initialSize && this.instantiates == instantiates
      ensures active == {} && hooks == []
      ensures calls == (if hasPrefab then AttemptCount(initialSize, maxSize) else 0)
      ensures totalCreated == |available| == Hits(instantiates, 0, calls)
      ensures forall p :: p in available ==> fresh(p) && p.pool == this
    {
      this.key := key;
      this.hasPrefab := hasPrefab;
      this.initialSize := initialSize;
      this.maxSize := maxSize;
      this.instantiates := instantiates;
      this.coroutines := coroutines;
      available := [];
      active := {};
      hooks := [];
      totalCreated := 0;
      calls := 0;
      created := {};
      new;
      WarmPool();
    }

    /**
     * WarmPool (run once, by Awake): without a prefab nothing happens; otherwise
     * Mathf.Min(initialSize, maxSize) creations are tried and the successful
     * ones queued.
     */
    method WarmPool()
      requires Valid() && totalCreated == 0
      modifies this`available, this`totalCreated, this`calls, this`created
      ensures Valid()
      ensures calls == old(calls) + (if hasPrefab then AttemptCount(initialSize, maxSize) else 0)
      ensures totalCreated == Hits(instantiates, old(calls), calls - old(calls))
      ensures |available| == |old(available)| + totalCreated
      ensures available[..|old(available)|] == old(available)
      ensures forall k :: |old(available)| <= k < |available| ==> fresh(available[k]) && available[k].pool == this
    {
      if !hasPrefab {
        return;
      }
      ghost var c0 := calls;
      var warmCount := if initialSize < maxSize then initialSize else maxSize;
      var i := 0;
      while i < warmCount
        invariant 0 <= i <= AttemptCount(initialSize, maxSize)
        invariant calls == c0 + i
        invariant totalCreated == Hits(instantiates, c0, i)
        invariant 0 <= totalCreated && |available| == |old(available)| + totalCreated
        invariant available[..|old(available)|] == old(available)
        invariant forall k :: |old(available)| <= k < |available| ==> fresh(available[k]) && available[k].pool == this
        invariant Valid()
      {
        var instance := CreateNew();
        if instance != null {
          available := available + [instance];
        }
        i := i + 1;
      }
    }

    /** CreateNew: one Instantiate; a success is bound to this pool and counted. */
    method CreateNew() returns (instance: Poolable?)
      modifies this`totalCreated, this`calls, this`created
      ensures calls == old(calls) + 1
      ensures instance != null <==> instantiates(old(calls))
      ensures instance != null ==>
        && fresh(instance) && instance.pool == this
        && totalCreated == old(totalCreated) + 1
        && created == old(created) + {instance} && |created| == |old(created)| + 1
      ensures instance == null ==> totalCreated == old(totalCreated) && created == old(created)
    {
      var ok := instantiates(calls);
      calls := calls + 1;
      if !ok {
        return null;
      }
      instance := new Poolable(this);
      totalCreated := totalCreated + 1;
      created := created + {instance};
    }

    /**
     * Get (GetInternal): the oldest queued instance when there is one;
     * otherwise, below maxSize, a new instance (or null when creation fails);
     * at maxSize, null with both stores untouched. `alive` says whether an
     * instance's GameObject still exists: when the dequeued one was destroyed,
     * SetActive throws (`threw`) after it joined the active set, and the
     * caller gets no instance.
     */
    method Get(alive: Poolable -> bool) returns (instance: Poolable?, threw: bool)
      requires Valid()
      modifies this
      ensures Valid()
      ensures threw <==> old(available) != [] && !alive(old(available)[0])
      ensures old(available) != [] ==>
        && instance == (if threw then null else old(available)[0])
        && Model() == Checkout(old(Model()), !threw)
        && totalCreated == old(totalCreated) && calls == old(calls) && created == old(created)
      ensures old(available) == [] && old(totalCreated) < maxSize ==>
        && calls == old(calls) + 1
        && (instance != null <==> instantiates(old(calls)))
        && (instance != null ==>
              && fresh(instance) && instance.pool == this
              && Model() == Admit(old(Model()), instance)
              && totalCreated == old(totalCreated) + 1)
        && (instance == null ==> Model() == old(Model()) && totalCreated == old(totalCreated))
      ensures old(available) == [] && old(totalCreated) >= maxSize ==>
        && instance == null
        && Model() == old(Model()) && totalCreated == old(totalCreated) && calls == old(calls)
    {
      threw := false;
      if |available| > 0 {
        var next := available[0];
        CheckoutKeepsPlaced(Model(), alive(next));
        available := available[1..];
        active := active + {next};
        if !alive(next) {
          // SetActive on a destroyed GameObject throws; the exception leaves Get here.
          return null, true;
        }
        hooks := hooks + [Requested(next)];
        return next, false;
      }
      if totalCreated < maxSize {
        instance := CreateNew();
        if instance != null {
          active := active + {instance};
          hooks := hooks + [Requested(instance)];
        }
        return;
      }
      return null, false;
    }

    /**
     * ReturnInternal (and Return(instance)): null is ignored; otherwise the
     * stores change as ReturnOne says, by whether the GameObject is `alive`.
     */
    method Return(instance: Poolable?, alive: Poolable -> bool)
      requires Valid()
      modifies this`available, this`active, this`hooks
      ensures Valid()
      ensures instance == null ==> Model() == old(Model())
      ensures instance != null ==> Model() == ReturnOne(old(Model()), instance, alive(instance))
    {
      if instance == null {
        return;
      }
      ReturnOneKeepsPlaced(Model(), instance, alive(instance));
      if !alive(instance) {
        active := active - {instance};
        return;
      }
      if instance !in active {
        return;
      }
      active := active - {instance};
      hooks := hooks + [Returned(instance)];
      available := available + [instance];
    }

    /** ReturnAll: every instance of a snapshot of the active set is returned. */
    method ReturnAll(alive: Poolable -> bool) returns (ghost snapshot: seq<Poolable>)
      requires Valid()
      modifies this`available, this`active, this`hooks
      ensures Valid()
      ensures Distinct(snapshot) && Elems(snapshot) == old(active)
      ensures Model() == ReturnEach(old(Model()), snapshot, alive)
      ensures active == {}
      ensures forall p :: p in available <==> p in old(available) || (p in old(active) && alive(p))
    {
      var items := Snapshot(active);
      assert Elems(items) == active;
      var i := 0;
      while i < |items|
        invariant 0 <= i <= |items|
        invariant Valid()
        invariant Model() == ReturnEach(old(Model()), items[..i], alive)
      {
        Return(items[i], alive);
        PrefixNext(items, i);
        i := i + 1;
      }
      assert items[..|items|] == items;
      ReturnAllEmpties(old(Model()), items, alive);
      snapshot := items;
    }

    /**
     * Return(instance, delaySeconds): null is ignored; with no delay, or no
     * coroutine service, the instance is returned at once; otherwise one delayed
     * call of the pool's Return is scheduled, owned by the pool.
     */
    method ReturnAfter(instance: Poolable?, delaySeconds: real, alive: Poolable -> bool)
      requires Valid()
      modifies this`available, this`active, this`hooks, coroutines
      ensures Valid()
      ensures instance == null || (delaySeconds > 0.0 && coroutines != null) ==> Model() == old(Model())
      ensures instance != null && (delaySeconds <= 0.0 || coroutines == null) ==>
        Model() == ReturnOne(old(Model()), instance, alive(instance))
      ensures coroutines != null ==>
        coroutines.Model() ==
          if instance != null && delaySeconds > 0.0
          then RunDelayed(old(coroutines.Model()), this, Some(PoolReturn(this, instance)), delaySeconds, None).0
          else old(coroutines.Model())
    {
      if instance == null {
        return;
      }
      if delaySeconds <= 0.0 {
        Return(instance, alive);
        return;
      }
      if coroutines != null {
        var _ := coroutines.RunDelayed(this, Some(PoolReturn(this, instance)), delaySeconds, None);
        return;
      }
      Return(instance, alive);
    }

    /**
     * ReturnAll(delaySeconds): with no delay, or no coroutine service, ReturnAll;
     * otherwise one delayed Return per instance of a snapshot of the active set.
     */
    method ReturnAllAfter(delaySeconds: real, alive: Poolable -> bool) returns (ghost snapshot: seq<Poolable>)
      requires Valid()
      modifies this`available, this`active, this`hooks, coroutines
      ensures Valid()
      ensures Distinct(snapshot) && Elems(snapshot) == old(active)
      ensures delaySeconds <= 0.0 || coroutines == null ==> Model() == ReturnEach(old(Model()), snapshot, alive)
      ensures delaySeconds > 0.0 && coroutines != null ==>
        && Model() == old(Model())
        && coroutines.Model() == ScheduleEach(old(coroutines.Model()), this, snapshot, delaySeconds)
      ensures delaySeconds <= 0.0 && coroutines != null ==> coroutines.Model() == old(coroutines.Model())
    {
      if delaySeconds <= 0.0 || coroutines == null {
        snapshot := ReturnAll(alive);
        return;
      }
      var items := Snapshot(active);
      assert Elems(items) == active;
      var i := 0;
      while i < |items|
        invariant 0 <= i <= |items|
        invariant Model() == old(Model())
        invariant coroutines.Model() == ScheduleEach(old(coroutines.Model()), this, items[..i], delaySeconds)
      {
        var instance := items[i];
        var _ := coroutines.RunDelayed(this, Some(PoolReturn(this, instance)), delaySeconds, None);
        PrefixNext(items, i);
        i := i + 1;
      }
      assert items[..|items|] == items;
      snapshot := items;
    }
  }
}
