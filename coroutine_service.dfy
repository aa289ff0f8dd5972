/**
 * CoroutineService as an object: the three dictionaries it keeps, Unity's set
 * of running coroutines, the next handle StartCoroutine hands out and the
 * callbacks fired so far. Every method follows the statements of the service
 * and states its new state as the matching function of CoroutineModel applied
 * to the old one; the lemmas of CoroutineProofs say what those functions keep.
 */
module Coroutines {
  import opened Common
  import opened CoroutineIndex
  import opened CoroutineModel

  class CoroutineService<A> {
    /** _ownedCoroutines */
    var owned: map<object, seq<Handle>>
    /** _taggedCoroutines */
    var tagged: map<string, seq<Handle>>
    /** _coroutineData */
    var data: map<Handle, Record>
    /** Unity's coroutines started on this service and not yet finished or stopped. */
    var running: map<Handle, Tracked<A>>
    /** The handle the next StartCoroutine returns. */
    var next: Handle
    /** The callbacks the routines have invoked, in order. */
    var fired: seq<A>

    /** The state of the service as a value. */
    function Model(): ServiceState<A>
      reads this
    {
      ServiceState(owned, tagged, data, running, next, fired)
    }

    constructor()
      ensures Model() == Fresh()
    {
      owned := map[];
      tagged := map[];
      data := map[];
      running := map[];
      next := 0;
      fired := [];
    }

    /** RegisterOwner: no owner or no handle, no entry; otherwise the handle joins the owner's list, created on first use. */
    method RegisterOwner(owner: object?, coroutine: Option<Handle>)
      modifies this`owned
      ensures coroutine.None? ==> owned == old(owned)
      ensures coroutine.Some? ==> owned == AppendIf(old(owned), KeyOfOwner(owner), coroutine.value)
    {
      if owner == null || coroutine.None? {
        return;
      }
      var list := if owner in owned then owned[owner] else [];
      owned := owned[owner := list + [coroutine.value]];
    }

    /** RegisterTag: no tag or no handle, no entry; otherwise the handle joins the tag's list, created on first use. */
    method RegisterTag(tag: Option<string>, coroutine: Option<Handle>)
      modifies this`tagged
      ensures coroutine.None? ==> tagged == old(tagged)
      ensures coroutine.Some? ==> tagged == AppendIf(old(tagged), KeyOfTag(tag), coroutine.value)
    {
      if IsNullOrEmpty(tag) || coroutine.None? {
        return;
      }
      var list := if tag.value in tagged then tagged[tag.value] else [];
      tagged := tagged[tag.value := list + [coroutine.value]];
    }

    /** RegisterCoroutineData: no handle, no record; otherwise the record, filed (or overwritten) under the handle. */
    method RegisterCoroutineData(coroutine: Option<Handle>, owner: object?, tag: Option<string>, routine: Routine<A>)
      modifies this`data
      ensures coroutine.None? ==> data == old(data)
      ensures coroutine.Some? ==> data == old(data)[coroutine.value := Record(coroutine.value, owner, tag, TypeName(routine))]
    {
      if coroutine.None? {
        return;
      }
      var c := coroutine.value;
      data := data[c := Record(c, owner, tag, TypeName(routine))];
    }

    /** RemoveFromOwners: `c` leaves the owner's list, and the owner goes once the list is empty. */
    method RemoveFromOwners(owner: object?, c: Handle)
      modifies this`owned
      ensures owned == DetachIf(old(owned), KeyOfOwner(owner), c)
    {
      if owner == null {
        return;
      }
      if owner in owned {
        var list := RemoveFirst(owned[owner], c);
        if |list| == 0 {
          owned := owned - {owner};
        } else {
          owned := owned[owner := list];
        }
      }
    }

    /** RemoveFromTags: `c` leaves the tag's list, and the tag goes once the list is empty. */
    method RemoveFromTags(tag: Option<string>, c: Handle)
      modifies this`tagged
      ensures tagged == DetachIf(old(tagged), KeyOfTag(tag), c)
    {
      if IsNullOrEmpty(tag) {
        return;
      }
      if tag.value in tagged {
        var list := RemoveFirst(tagged[tag.value], c);
        if |list| == 0 {
          tagged := tagged - {tag.value};
        } else {
          tagged := tagged[tag.value := list];
        }
      }
    }

    /** OnTrackedRoutineCompleted */
    method OnTrackedRoutineCompleted(owner: object?, tag: Option<string>, coroutine: Option<Handle>)
      modifies this`owned, this`tagged, this`data
      ensures Model() == Completed(old(Model()), owner, tag, coroutine)
    {
      if coroutine.None? {
        return;
      }
      var c := coroutine.value;
      if owner != null {
        RemoveFromOwners(owner, c);
      }
      if !IsNullOrEmpty(tag) {
        RemoveFromTags(tag, c);
      }
      data := data - {c};
    }

    /**
     * TrackedRoutine.MoveNext: one step of the inner routine (a throw counts as
     * finishing); a routine that does not go on reports its completion.
     */
    method MoveNext(t: Tracked<A>) returns (hasNext: bool)
      modifies this`owned, this`tagged, this`data, this`fired
      ensures (Model(), hasNext) == Step(old(Model()), t)
    {
      hasNext := StepOf(t.routine, t.steps) == Yielded;
      fired := fired + FiredAt(t.routine, t.steps);
      if !hasNext {
        OnTrackedRoutineCompleted(t.owner, t.tag, t.coroutine);
      }
    }

    /** Unity resuming the running coroutine `c` for one frame. */
    method Tick(c: Handle) returns (hasNext: bool)
      requires c in running
      modifies this
      ensures (Model(), hasNext) == CoroutineModel.Tick(old(Model()), c)
    {
      var t := running[c];
      hasNext := MoveNext(t);
      if hasNext {
        running := running[c := Advance(t)];
      } else {
        running := running - {c};
      }
    }

    /**
     * Unity's StartCoroutine: the first MoveNext straight away; a fresh handle
     * when the routine goes on, null when it is already over.
     */
    method StartCoroutine(t: Tracked<A>) returns (coroutine: Option<Handle>)
      modifies this
      ensures (Model(), coroutine) == Start(old(Model()), t)
    {
      var h := next;
      next := next + 1;
      var hasNext := MoveNext(t);
      if hasNext {
        running := running[h := Advance(t)];
        coroutine := Some(h);
      } else {
        coroutine := None;
      }
    }

    /**
     * Run: start the routine inside a TrackedRoutine, store the handle in it,
     * then index and record the handle -- each step a no-op for a null handle.
     */
    method Run(owner: object?, routine: Option<Routine<A>>, tag: Option<string>) returns (coroutine: Option<Handle>)
      modifies this
      ensures (Model(), coroutine) == CoroutineModel.Run(old(Model()), owner, routine, tag)
    {
      if routine.None? {
        return None;
      }
      coroutine := StartCoroutine(Tracked(owner, tag, routine.value, 0, None));
      if coroutine.Some? && coroutine.value in running {
        running := running[coroutine.value := running[coroutine.value].(coroutine := coroutine)];
      }
      RegisterOwner(owner, coroutine);
      RegisterTag(tag, coroutine);
      RegisterCoroutineData(coroutine, owner, tag, routine.value);
    }

    /** RunDelayed */
    method RunDelayed(owner: object?, action: Option<A>, delaySeconds: real, tag: Option<string>) returns (coroutine: Option<Handle>)
      modifies this
      ensures (Model(), coroutine) == CoroutineModel.RunDelayed(old(Model()), owner, action, delaySeconds, tag)
    {
      coroutine := Run(owner, Some(DelayRoutine(action, delaySeconds)), tag);
    }

    /** Stop */
    method Stop(coroutine: Option<Handle>)
      modifies this`owned, this`tagged, this`data, this`running
      ensures Model() == CoroutineModel.Stop(old(Model()), coroutine)
    {
      if coroutine.None? {
        return;
      }
      var c := coroutine.value;
      running := running - {c};
      if c in data {
        var d := data[c];
        if d.owner != null {
          RemoveFromOwners(d.owner, c);
        }
        if !IsNullOrEmpty(d.tag) {
          RemoveFromTags(d.tag, c);
        }
        data := data - {c};
      }
    }

    /** StopAll() */
    method StopAll()
      modifies this`owned, this`tagged, this`data, this`running
      ensures Model() == CoroutineModel.StopAll(old(Model()))
    {
      running := map[];
      owned := map[];
      tagged := map[];
      data := map[];
    }

    /** StopAll(owner): stops each coroutine of a copy of the owner's list, then drops the owner. */
    method StopAllOwnedBy(owner: object?)
      modifies this`owned, this`tagged, this`data, this`running
      ensures Model() == CoroutineModel.StopAllOwnedBy(old(Model()), owner)
    {
      if owner == null {
        return;
      }
      if owner in owned {
        var coroutines := owned[owner];
        var i := 0;
        while i < |coroutines|
          invariant 0 <= i <= |coroutines|
          invariant Model() == StopEachOwned(old(Model()), owner, coroutines[..i])
        {
          var c := coroutines[i];
          running := running - {c};
          if c in data {
            var d := data[c];
            if !IsNullOrEmpty(d.tag) {
              RemoveFromTags(d.tag, c);
            }
            data := data - {c};
          }
          RemoveFromOwners(owner, c);
          PrefixNext(coroutines, i);
          i := i + 1;
        }
        assert coroutines[..|coroutines|] == coroutines;
        owned := owned - {owner};
      }
    }

    /** StopAll(tag): stops each coroutine of a copy of the tag's list, then drops the tag. */
    method StopAllTagged(tag: Option<string>)
      modifies this`owned, this`tagged, this`data, this`running
      ensures Model() == CoroutineModel.StopAllTagged(old(Model()), tag)
    {
      if IsNullOrEmpty(tag) {
        return;
      }
      var t := tag.value;
      if t in tagged {
        var snapshot := tagged[t];
        var i := 0;
        while i < |snapshot|
          invariant 0 <= i <= |snapshot|
          invariant Model() == StopEachTagged(old(Model()), t, snapshot[..i])
        {
          var c := snapshot[i];
          running := running - {c};
          if c in data {
            var d := data[c];
            if d.owner != null {
              RemoveFromOwners(d.owner, c);
            }
            data := data - {c};
          }
          RemoveFromTags(tag, c);
          PrefixNext(snapshot, i);
          i := i + 1;
        }
        assert snapshot[..|snapshot|] == snapshot;
        tagged := tagged - {t};
      }
    }

    /** GetData(): a copy of every record, one per entry of the records. */
    method GetData() returns (list: seq<Record>)
      ensures forall r :: r in list <==> r in data.Values
      ensures |list| == |data|
    {
      var keys := Snapshot(data.Keys);
      list := [];
      var i := 0;
      while i < |keys|
        invariant 0 <= i <= |keys|
        invariant |list| == i
        invariant forall j :: 0 <= j < i ==> list[j] == data[keys[j]]
      {
        list := list + [data[keys[i]]];
        i := i + 1;
      }
      forall r | r in data.Values
        ensures r in list
      {
        var h :| h in data && data[h] == r;
        var j :| 0 <= j < |keys| && keys[j] == h;
        assert list[j] == r;
      }
    }

    /**
     * GetData(owner): one entry per record whose owner is `owner`, listed by
     * the handles it was stored under (`handles`, in enumeration order); none
     * for a null owner.
     */
    method GetDataOwnedBy(owner: object?) returns (list: seq<Record>, ghost handles: seq<Handle>)
      ensures owner == null ==> list == [] && handles == []
      ensures Distinct(handles) && |handles| == |list|
      ensures forall j :: 0 <= j < |list| ==> handles[j] in data && list[j] == data[handles[j]]
      ensures owner != null ==> forall h :: h in handles <==> h in data && data[h].owner == owner
      ensures owner != null ==> forall r :: r in list <==> r in data.Values && r.owner == owner
    {
      if owner == null {
        return [], [];
      }
      var keys := Snapshot(data.Keys);
      list := [];
      handles := [];
      var i := 0;
      while i < |keys|
        invariant 0 <= i <= |keys|
        invariant Distinct(handles) && |handles| == |list|
        invariant forall j :: 0 <= j < |list| ==> handles[j] in data && list[j] == data[handles[j]]
        invariant forall h :: h in handles <==> h in keys[..i] && data[h].owner == owner
      {
        var d := data[keys[i]];
        assert keys[i] !in keys[..i];
        PrefixNext(keys, i);
        assert keys[..i + 1] == keys[..i] + [keys[i]];
        if d.owner == owner {
          list := list + [d];
          handles := handles + [keys[i]];
        }
        i := i + 1;
      }
      assert keys[..|keys|] == keys;
      forall r | r in data.Values && r.owner == owner
        ensures r in list
      {
        var h :| h in data && data[h] == r;
        var j :| 0 <= j < |handles| && handles[j] == h;
        assert list[j] == r;
      }
    }

    /**
     * GetData(tag): one entry per record whose tag is `tag`, listed by the
     * handles it was stored under (`handles`, in enumeration order); none for a
     * null or empty tag.
     */
    method GetDataTagged(tag: Option<string>) returns (list: seq<Record>, ghost handles: seq<Handle>)
      ensures IsNullOrEmpty(tag) ==> list == [] && handles == []
      ensures Distinct(handles) && |handles| == |list|
      ensures forall j :: 0 <= j < |list| ==> handles[j] in data && list[j] == data[handles[j]]
      ensures !IsNullOrEmpty(tag) ==> forall h :: h in handles <==> h in data && data[h].tag == tag
      ensures !IsNullOrEmpty(tag) ==> forall r :: r in list <==> r in data.Values && r.tag == tag
    {
      if IsNullOrEmpty(tag) {
        return [], [];
      }
      var keys := Snapshot(data.Keys);
      list := [];
      handles := [];
      var i := 0;
      while i < |keys|
        invariant 0 <= i <= |keys|
        invariant Distinct(handles) && |handles| == |list|
        invariant forall j :: 0 <= j < |list| ==> handles[j] in data && list[j] == data[handles[j]]
        invariant forall h :: h in handles <==> h in keys[..i] && data[h].tag == tag
      {
        var d := data[keys[i]];
        assert keys[i] !in keys[..i];
        PrefixNext(keys, i);
        assert keys[..i + 1] == keys[..i] + [keys[i]];
        if d.tag == tag {
          list := list + [d];
          handles := handles + [keys[i]];
        }
        i := i + 1;
      }
      assert keys[..|keys|] == keys;
      forall r | r in data.Values && r.tag == tag
        ensures r in list
      {
        var h :| h in data && data[h] == r;
        var j :| 0 <= j < |handles| && handles[j] == h;
        assert list[j] == r;
      }
    }

    /**
     * GetActiveCoroutineCount: the number of records. It is never below the
     * number of running coroutines, and equals it while no record is stale.
     */
    function ActiveCount(): (n: nat)
      reads this
      ensures CoroutineModel.Valid(Model()) ==> |running| <= n
      ensures CoroutineModel.Valid(Model()) && NoStale(Model()) ==> n == |running|
    {
      RecordCount(Model());
      |data|
    }
  }
}
