/**
 * ObjectPool<T>: a bounded first-in first-out pool of plain objects, filled by a
 * factory. The queue of available items, the creation counter and the factory
 * calls are the pool's state; the factory's answers are given up front, one per
 * call, and an item's type test (`instance as T`) is a fixed predicate.
 */
module ObjectPooling {
  import opened Common

  /** A plain pooled object (an IPoolable), by identity. */
  type Item = nat

  /**
   * The warm-up size the constructor settles on: a negative initialSize counts
   * as zero, and a positive maxSize caps it.
   */
  function WarmCount(initialSize: Int32, maxSize: Int32): (n: nat)
    ensures n <= Capacity(maxSize)
    ensures initialSize <= 0 ==> n == 0
    ensures 0 <= initialSize && (maxSize <= 0 || initialSize <= maxSize) ==> n == initialSize
    ensures 0 < maxSize < initialSize ==> n == maxSize
  {
    var n := if initialSize < 0 then 0 else initialSize;
    if maxSize > 0 && n > maxSize then maxSize else n
  }

  /** The cap on creations: maxSize when positive, int.MaxValue ("unbounded") otherwise. */
  function Capacity(maxSize: Int32): (m: int)
    ensures 1 <= m <= IntMax
    ensures maxSize > 0 ==> m == maxSize
    ensures maxSize <= 0 ==> m == IntMax
  {
    if maxSize > 0 then maxSize else IntMax
  }

  class ObjectPool {
    /** _available: the items waiting to be handed out, oldest first. */
    var available: seq<Item>
    /** _factory: what its n-th call yields (None for null). */
    const factory: nat -> Option<Item>
    /** Whether an object is a T, i.e. `instance as T` is not null. */
    const isItem: Item -> bool
    /** _maxSize */
    const maxSize: int
    /** _totalCreated */
    var totalCreated: int
    /** How many times the factory has been called. */
    var calls: nat
    /** The OnRequestedFromPool / OnReturnedToPool calls made on items, in order. */
    var hooks: seq<Hook<Item>>

    /**
     * The creation count stays within the cap. (The queue never holds null: the
     * type of its elements has no null.)
     */
    ghost predicate Valid()
      reads this
    {
      1 <= maxSize <= IntMax && 0 <= totalCreated <= maxSize
    }

    /** TotalCreated */
    function TotalCreated(): (n: int)
      reads this
      ensures Valid() ==> 0 <= n <= MaxSize()
    {
      totalCreated
    }

    /** MaxSize */
    function MaxSize(): (n: int)
      reads this
      ensures Valid() ==> 1 <= n <= IntMax
    {
      maxSize
    }

    /** AvailableCount */
    function AvailableCount(): nat
      reads this
    {
      |available|
    }

    /**
     * The constructor: clamps the warm-up size, caps creations and warms the
     * pool, which then holds every non-null item of the first factory calls.
     */
    constructor(factory: nat -> Option<Item>, isItem: Item -> bool, initialSize: Int32, maxSize: Int32)
      ensures Valid()
      ensures this.factory == factory && this.isItem == isItem
      ensures this.maxSize == Capacity(maxSize)
      ensures calls == WarmCount(initialSize, maxSize)
      ensures available == Successes(factory, 0, calls)
      ensures totalCreated == |available|
      ensures hooks == []
    {
      this.factory := factory;
      this.isItem := isItem;
      this.maxSize := Capacity(maxSize);
      available := [];
      totalCreated := 0;
      calls := 0;
      hooks := [];
      new;
      var count := WarmCount(initialSize, maxSize);
      WarmPool(count);
      // every warm-up call is made: the cap is at least the warm-up size
      assert totalCreated == |Successes(factory, 0, calls)| <= calls <= count <= this.maxSize;
      assert [] + Successes(factory, 0, calls) == Successes(factory, 0, calls);
    }

    /**
     * WarmPool: up to `count` factory calls, stopping once the cap is reached;
     * only non-null items are counted and queued.
     */
    method WarmPool(count: int)
      requires Valid()
      modifies this
      ensures Valid()
      ensures old(calls) <= calls <= old(calls) + (if count < 0 then 0 else count)
      ensures available == old(available) + Successes(factory, old(calls), calls - old(calls))
      ensures totalCreated == old(totalCreated) + |Successes(factory, old(calls), calls - old(calls))|
      ensures calls - old(calls) < count ==> totalCreated == maxSize
      ensures hooks == old(hooks)
    {
      ghost var from := calls;
      ghost var made: seq<Item> := [];
      var i := 0;
      while i < count
        invariant 0 <= i <= (if count < 0 then 0 else count)
        invariant calls == from + i
        invariant made == Successes(factory, from, i)
        invariant available == old(available) + made
        invariant totalCreated == old(totalCreated) + |made|
        invariant Valid()
        invariant hooks == old(hooks)
      {
        if totalCreated >= maxSize {
          break;
        }
        var created := factory(calls);
        SuccessesNext(factory, from, i);
        calls := calls + 1;
        if created.Some? {
          totalCreated := totalCreated + 1;
          available := available + [created.value];
          made := made + [created.value];
        }
        i := i + 1;
      }
    }

    /**
     * Get (GetTyped): the oldest queued item when there is one; otherwise, below
     * the cap, a new factory item -- counted even when the factory yields null;
     * at the cap, null and no change.
     */
    method Get() returns (r: Option<Item>)
      requires Valid()
      modifies this
      ensures Valid()
      ensures old(available) != [] ==>
        && r == Some(old(available)[0])
        && available == old(available)[1..]
        && totalCreated == old(totalCreated) && calls == old(calls)
        && hooks == old(hooks) + [Requested(r.value)]
      ensures old(available) == [] && old(totalCreated) < maxSize ==>
        && r == factory(old(calls))
        && calls == old(calls) + 1
        && totalCreated == old(totalCreated) + 1
        && available == []
        && hooks == old(hooks) + (if r.Some? then [Requested(r.value)] else [])
      ensures old(available) == [] && old(totalCreated) >= maxSize ==>
        && r == None
        && available == [] && totalCreated == old(totalCreated) && calls == old(calls)
        && hooks == old(hooks)
    {
      if |available| > 0 {
        var instance := available[0];
        available := available[1..];
        hooks := hooks + [Requested(instance)];
        return Some(instance);
      }
      if totalCreated < maxSize {
        var created := factory(calls);
        calls := calls + 1;
        totalCreated := totalCreated + 1;
        if created.Some? {
          hooks := hooks + [Requested(created.value)];
        }
        return created;
      }
      return None;
    }

    /**
     * Return (ReturnTyped): null, or an object that is not a T, is ignored;
     * anything else goes to the back of the queue -- even when it is queued already.
     */
    method Return(instance: Option<Item>)
      requires Valid()
      modifies this
      ensures Valid()
      ensures totalCreated == old(totalCreated) && calls == old(calls)
      ensures instance.Some? && isItem(instance.value) ==>
        && available == old(available) + [instance.value]
        && hooks == old(hooks) + [Returned(instance.value)]
      ensures instance.None? || !isItem(instance.value) ==>
        available == old(available) && hooks == old(hooks)
    {
      if instance.None? || !isItem(instance.value) {
        return;
      }
      hooks := hooks + [Returned(instance.value)];
      available := available + [instance.value];
    }
  }
}
