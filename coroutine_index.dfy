/**
 * The index layer under CoroutineService: a dictionary from a key (an owner or a
 * tag) to the list of coroutine handles registered under it, kept in step with
 * the handle -> record dictionary.
 */
module CoroutineIndex {
  import opened Common

  /** A Coroutine handle, as StartCoroutine returns it: fresh on every start. */
  type Handle = nat

  /**
   * `idx` indexes exactly the handles of `data` whose record has a key under
   * `key`, each under that key and only once; no key maps to an empty list.
   */
  ghost predicate Indexed<K, R>(idx: map<K, seq<Handle>>, data: map<Handle, R>, key: R -> Option<K>)
  {
    && (forall k :: k in idx ==> idx[k] != [] && Distinct(idx[k]))
    && (forall k, h :: k in idx && h in idx[k] ==> h in data && key(data[h]) == Some(k))
    && (forall h :: h in data && key(data[h]).Some? ==> key(data[h]).value in idx && h in idx[key(data[h]).value])
  }

  /**
   * RegisterOwner / RegisterTag: append `h` to the list under `k`, creating the
   * list when `k` has none yet.
   */
  function Append<K>(idx: map<K, seq<Handle>>, k: K, h: Handle): (r: map<K, seq<Handle>>)
    ensures r.Keys == idx.Keys + {k}
    ensures r[k] == (if k in idx then idx[k] else []) + [h]
    ensures forall k' :: k' in idx && k' != k ==> r[k'] == idx[k']
  {
    idx[k := (if k in idx then idx[k] else []) + [h]]
  }

  /**
   * RemoveFromOwners / RemoveFromTags: take `h` out of the list under `k` and
   * delete the key once its list is empty; an absent key is left alone.
   */
  function Detach<K>(idx: map<K, seq<Handle>>, k: K, h: Handle): (r: map<K, seq<Handle>>)
    ensures r.Keys <= idx.Keys
    ensures r - {k} == idx - {k}
    ensures k in idx ==> (k in r <==> RemoveFirst(idx[k], h) != [])
    ensures k in r ==> r[k] == RemoveFirst(idx[k], h) && r[k] != []
    ensures k in idx && Distinct(idx[k]) && k in r ==> h !in r[k] && Distinct(r[k])
  {
    if k in idx then
      var rest := RemoveFirst(idx[k], h);
      RemoveFirstDistinctIf(idx[k], h);
      if rest == [] then idx - {k} else idx[k := rest]
    else idx
  }

  /** Index `h` under `k` when there is a key, leave the index alone when there is none. */
  function AppendIf<K>(idx: map<K, seq<Handle>>, k: Option<K>, h: Handle): map<K, seq<Handle>>
  {
    if k.Some? then Append(idx, k.value, h) else idx
  }

  /** Take `h` out from under `k` when there is a key, leave the index alone when there is none. */
  function DetachIf<K>(idx: map<K, seq<Handle>>, k: Option<K>, h: Handle): map<K, seq<Handle>>
  {
    if k.Some? then Detach(idx, k.value, h) else idx
  }

  /** Registering a new handle's record and indexing it under its key keeps the index exact. */
  lemma {:induction false} TrackKeepsIndexed<K, R>(idx: map<K, seq<Handle>>, data: map<Handle, R>, key: R -> Option<K>, h: Handle, rec: R)
    requires Indexed(idx, data, key)
    requires h !in data
    ensures Indexed(AppendIf(idx, key(rec), h), data[h := rec], key)
  {
    var data' := data[h := rec];
    var idx' := AppendIf(idx, key(rec), h);
    forall k | k in idx'
      ensures idx'[k] != [] && Distinct(idx'[k])
    {
      if key(rec) == Some(k) {
        var old_ := if k in idx then idx[k] else [];
        assert idx'[k] == old_ + [h];
        assert h !in old_;
      }
    }
    forall k, h' | k in idx' && h' in idx'[k]
      ensures h' in data' && key(data'[h']) == Some(k)
    {
      if key(rec) == Some(k) && h' !in idx'[k][..|idx'[k]| - 1] {
        var old_ := if k in idx then idx[k] else [];
        assert idx'[k] == old_ + [h];
      } else if key(rec) == Some(k) {
        var old_ := if k in idx then idx[k] else [];
        assert idx'[k] == old_ + [h];
        assert h' in old_;
      }
    }
    forall h' | h' in data' && key(data'[h']).Some?
      ensures key(data'[h']).value in idx' && h' in idx'[key(data'[h']).value]
    {
      if h' != h && key(rec).Some? && key(data[h']).value == key(rec).value {
        var k := key(rec).value;
        assert idx'[k] == idx[k] + [h];
      }
    }
  }

  /** Dropping a handle's record and taking it out from under its key keeps the index exact. */
  lemma {:induction false} UntrackKeepsIndexed<K, R>(idx: map<K, seq<Handle>>, data: map<Handle, R>, key: R -> Option<K>, h: Handle)
    requires Indexed(idx, data, key)
    requires h in data
    ensures Indexed(DetachIf(idx, key(data[h]), h), data - {h}, key)
  {
    var data' := data - {h};
    var idx' := DetachIf(idx, key(data[h]), h);
    if key(data[h]).Some? {
      var k := key(data[h]).value;
      RemoveFirstDistinct(idx[k], h);
      forall k', h' | k' in idx' && h' in idx'[k']
        ensures h' in data' && key(data'[h']) == Some(k')
      {
        if k' == k {
          assert h' in idx[k];
        }
      }
      forall h' | h' in data' && key(data'[h']).Some?
        ensures key(data'[h']).value in idx' && h' in idx'[key(data'[h']).value]
      {
        if key(data[h']).value == k {
          assert h' in RemoveFirst(idx[k], h);
        }
      }
    } else {
      forall k', h' | k' in idx && h' in idx[k']
        ensures h' != h
      {
      }
    }
  }
}
