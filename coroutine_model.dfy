/**
 * The bookkeeping of CoroutineService as a value: the owner index, the tag
 * index, the records, the coroutines Unity is running on the service's behalf,
 * the next handle and the callbacks fired so far. Every operation of the service
 * is a function from one such state to the next, and the lemmas here state what
 * each operation promises about the three dictionaries.
 */
module CoroutineModel {
  import opened Common
  import opened CoroutineIndex

  /** What one MoveNext of a routine does: asks for another step, finishes, or throws. */
  datatype StepResult = Yielded | Finished | Threw

  /**
   * An IEnumerator handed to Run.
   * Script: any routine, told by what its n-th MoveNext does.
   * Delay: the routine DelayRoutine builds -- it waits one step when `waits`,
   * then invokes its action, if there is one, and finishes.
   */
  datatype Routine<A> =
    | Script(typeName: string, step: nat -> StepResult)
    | Delay(waits: bool, action: Option<A>)

  /** What the n-th MoveNext of `r` does. */
  function StepOf<A>(r: Routine<A>, n: nat): StepResult
  {
    match r
    case Script(_, step) => step(n)
    case Delay(waits, _) => if waits && n == 0 then Yielded else Finished
  }

  /** The callbacks the n-th MoveNext of `r` invokes. */
  function FiredAt<A>(r: Routine<A>, n: nat): seq<A>
  {
    match r
    case Script(_, _) => []
    case Delay(waits, action) =>
      if action.Some? && n == (if waits then 1 else 0) then [action.value] else []
  }

  /**
   * routine.GetType().Name, as the record keeps it. The iterator class the
   * compiler generates for DelayRoutine is named `<DelayRoutine>d__N`, with a
   * compiler-chosen N; the model writes it "DelayRoutine".
   */
  function TypeName<A>(r: Routine<A>): string
  {
    match r
    case Script(name, _) => name
    case Delay(_, _) => "DelayRoutine"
  }

  /** The MoveNext on which a DelayRoutine finishes: the second when it waits, the first otherwise. */
  function FinalStep(delaySeconds: real): nat
  {
    if delaySeconds > 0.0 then 1 else 0
  }

  /**
   * DelayRoutine: waits one step when the delay is positive, then invokes the
   * action, if there is one, on the step on which it finishes -- never earlier and never twice.
   */
  function DelayRoutine<A>(action: Option<A>, delaySeconds: real): (r: Routine<A>)
    ensures forall n: nat :: n < FinalStep(delaySeconds) ==> StepOf(r, n) == Yielded
    ensures StepOf(r, FinalStep(delaySeconds)) == Finished
    ensures FiredAt(r, FinalStep(delaySeconds)) == (if action.Some? then [action.value] else [])
    ensures forall n: nat :: n != FinalStep(delaySeconds) ==> FiredAt(r, n) == []
    ensures TypeName(r) == "DelayRoutine"
  {
    Delay(delaySeconds > 0.0, action)
  }

  /** CoroutineData without its clock readings. */
  datatype Record = Record(coroutine: Handle, owner: object?, tag: Option<string>, routineTypeName: string)

  /** The key an owner is indexed under: none for a null owner. */
  function KeyOfOwner(owner: object?): Option<object>
  {
    if owner == null then None else Some(owner)
  }

  /** The key a tag is indexed under: none for a null or empty tag. */
  function KeyOfTag(tag: Option<string>): Option<string>
  {
    if IsNullOrEmpty(tag) then None else Some(tag.value)
  }

  function OwnerKey(r: Record): Option<object>
  {
    KeyOfOwner(r.owner)
  }

  function TagKey(r: Record): Option<string>
  {
    KeyOfTag(r.tag)
  }

  /**
   * A TrackedRoutine: owner, tag, the inner routine, how many MoveNext calls it
   * has had, and its Coroutine property (None until Run stores the handle that
   * StartCoroutine returned).
   */
  datatype Tracked<A> = Tracked(owner: object?, tag: Option<string>, routine: Routine<A>, steps: nat, coroutine: Option<Handle>)

  /** The TrackedRoutine after one more MoveNext. */
  function Advance<A>(t: Tracked<A>): Tracked<A>
  {
    t.(steps := t.steps + 1)
  }

  /**
   * The service's three dictionaries (_ownedCoroutines, _taggedCoroutines,
   * _coroutineData), Unity's running coroutines by handle, the handle the next
   * StartCoroutine hands out, and the callbacks fired so far, in order.
   */
  datatype ServiceState<A> = ServiceState(
    owned: map<object, seq<Handle>>,
    tagged: map<string, seq<Handle>>,
    data: map<Handle, Record>,
    running: map<Handle, Tracked<A>>,
    next: Handle,
    fired: seq<A>)

  /** A freshly created service: nothing running, nothing recorded. */
  function Fresh<A>(): (r: ServiceState<A>)
    ensures Valid(r) && NoStale(r)
  {
    ServiceState(map[], map[], map[], map[], 0, [])
  }

  /** Both indices are exact and every record is filed under its own handle, below `next`. */
  ghost predicate Consistent(owned: map<object, seq<Handle>>, tagged: map<string, seq<Handle>>, data: map<Handle, Record>, next: Handle)
  {
    && Indexed(owned, data, OwnerKey)
    && Indexed(tagged, data, TagKey)
    && (forall h :: h in data ==> data[h].coroutine == h && h < next)
  }

  /** Every running coroutine has its handle stored and a record that matches its owner and tag. */
  ghost predicate Tracks<A>(running: map<Handle, Tracked<A>>, data: map<Handle, Record>)
  {
    forall h :: h in running ==>
      && running[h].coroutine == Some(h)
      && h in data
      && running[h].owner == data[h].owner
      && running[h].tag == data[h].tag
  }

  /** The invariant every public operation keeps. */
  ghost predicate Valid<A>(s: ServiceState<A>)
  {
    Consistent(s.owned, s.tagged, s.data, s.next) && Tracks(s.running, s.data)
  }

  /** Every record belongs to a coroutine that is still running. */
  ghost predicate NoStale<A>(s: ServiceState<A>)
  {
    s.data.Keys <= s.running.Keys
  }

  /** `c` appears in none of the three dictionaries and is not running. */
  ghost predicate Forgotten<A>(s: ServiceState<A>, c: Handle)
  {
    && c !in s.data
    && c !in s.running
    && (forall o :: o in s.owned ==> c !in s.owned[o])
    && (forall t :: t in s.tagged ==> c !in s.tagged[t])
  }

  // ---------------------------------------------------------------------------
  // Operations
  // ---------------------------------------------------------------------------

  /**
   * OnTrackedRoutineCompleted: a completion that carries no handle is ignored;
   * otherwise the handle leaves the owner's list (when there is an owner), the
   * tag's list (when there is a tag) and the records.
   */
  function Completed<A>(s: ServiceState<A>, owner: object?, tag: Option<string>, coroutine: Option<Handle>): (r: ServiceState<A>)
    ensures coroutine.None? ==> r == s
    ensures coroutine.Some? ==> coroutine.value !in r.data && r.data.Keys == s.data.Keys - {coroutine.value}
    ensures r.running == s.running && r.next == s.next && r.fired == s.fired
  {
    if coroutine.None? then s
    else
      var c := coroutine.value;
      s.(owned := DetachIf(s.owned, KeyOfOwner(owner), c),
         tagged := DetachIf(s.tagged, KeyOfTag(tag), c),
         data := s.data - {c})
  }

  /**
   * TrackedRoutine.MoveNext: one step of the inner routine, which may fire a
   * callback; a routine that finishes or throws is completed with the handle the
   * TrackedRoutine holds at that moment. Answers whether the routine goes on.
   */
  function Step<A>(s: ServiceState<A>, t: Tracked<A>): (r: (ServiceState<A>, bool))
    ensures r.1 <==> StepOf(t.routine, t.steps) == Yielded
    ensures r.0.fired == s.fired + FiredAt(t.routine, t.steps)
    ensures r.0.running == s.running && r.0.next == s.next
  {
    var s1 := s.(fired := s.fired + FiredAt(t.routine, t.steps));
    if StepOf(t.routine, t.steps) == Yielded then (s1, true)
    else (Completed(s1, t.owner, t.tag, t.coroutine), false)
  }

  /**
   * Unity advancing the running coroutine `c` by one frame: its TrackedRoutine
   * steps and leaves the running set when it completes.
   */
  function Tick<A>(s: ServiceState<A>, c: Handle): (r: (ServiceState<A>, bool))
    requires c in s.running
    ensures r.1 ==> r.0.running == s.running[c := Advance(s.running[c])]
    ensures !r.1 ==> r.0.running == s.running - {c}
  {
    var t := s.running[c];
    var (s1, hasNext) := Step(s, t);
    (s1.(running := if hasNext then s1.running[c := Advance(t)] else s1.running - {c}), hasNext)
  }

  /**
   * Unity's StartCoroutine: the first MoveNext happens at once, before the
   * caller can store any handle in the TrackedRoutine. A routine that yields
   * there keeps running under a fresh handle; one that finishes or throws there
   * is already over, and StartCoroutine gives null instead of a handle.
   */
  function Start<A>(s: ServiceState<A>, t: Tracked<A>): (r: (ServiceState<A>, Option<Handle>))
    ensures r.0.next == s.next + 1 && r.0.fired == s.fired + FiredAt(t.routine, t.steps)
    ensures StepOf(t.routine, t.steps) == Yielded ==>
      r.1 == Some(s.next) && s.next in r.0.running && r.0.running == s.running[s.next := Advance(t)]
    ensures StepOf(t.routine, t.steps) != Yielded ==> r.1 == None && r.0.running == s.running
  {
    var h := s.next;
    var (s1, hasNext) := Step(s.(next := h + 1), t);
    if hasNext then (s1.(running := s1.running[h := Advance(t)]), Some(h)) else (s1, None)
  }

  /**
   * RegisterOwner, RegisterTag and RegisterCoroutineData for the handle
   * StartCoroutine gave: a null handle registers nothing.
   */
  function Register<A>(s: ServiceState<A>, coroutine: Option<Handle>, owner: object?, tag: Option<string>, routine: Routine<A>): (r: ServiceState<A>)
    ensures coroutine.None? ==> r == s
    ensures coroutine.Some? ==>
      var h := coroutine.value;
      && r.data == s.data[h := Record(h, owner, tag, TypeName(routine))]
      && (owner != null ==> owner in r.owned && r.owned[owner] == (if owner in s.owned then s.owned[owner] else []) + [h])
      && (owner == null ==> r.owned == s.owned)
      && (!IsNullOrEmpty(tag) ==> tag.value in r.tagged && r.tagged[tag.value] == (if tag.value in s.tagged then s.tagged[tag.value] else []) + [h])
      && (IsNullOrEmpty(tag) ==> r.tagged == s.tagged)
    ensures r.running == s.running && r.next == s.next && r.fired == s.fired
  {
    if coroutine.None? then s
    else
      var h := coroutine.value;
      s.(owned := AppendIf(s.owned, KeyOfOwner(owner), h),
         tagged := AppendIf(s.tagged, KeyOfTag(tag), h),
         data := s.data[h := Record(h, owner, tag, TypeName(routine))])
  }

  /** `trackedRoutine.Coroutine = coroutine`: the handle, if any, is stored in the running TrackedRoutine. */
  function StoreHandle<A>(s: ServiceState<A>, coroutine: Option<Handle>): ServiceState<A>
  {
    if coroutine.Some? && coroutine.value in s.running then
      s.(running := s.running[coroutine.value := s.running[coroutine.value].(coroutine := coroutine)])
    else s
  }

  /**
   * Run (all four overloads; an absent owner is null, an absent tag null): a
   * null routine starts nothing; otherwise the routine is started inside a
   * TrackedRoutine, the handle StartCoroutine gave is stored in it, indexed and
   * recorded -- and a null handle is stored, indexed and recorded nowhere.
   */
  function Run<A>(s: ServiceState<A>, owner: object?, routine: Option<Routine<A>>, tag: Option<string>): (r: (ServiceState<A>, Option<Handle>))
    ensures routine.None? ==> r == (s, None)
    ensures routine.Some? ==> r.0.next == s.next + 1 && r.0.fired == s.fired + FiredAt(routine.value, 0)
    ensures routine.Some? ==> (r.1.Some? <==> StepOf(routine.value, 0) == Yielded)
    ensures r.1.Some? ==> r.1 == Some(s.next) && s.next in r.0.running && s.next in r.0.data
  {
    if routine.None? then (s, None)
    else
      var (s1, c) := Start(s, Tracked(owner, tag, routine.value, 0, None));
      (Register(StoreHandle(s1, c), c, owner, tag, routine.value), c)
  }

  /**
   * RunDelayed (all four overloads): Run of DelayRoutine(action, delaySeconds).
   * With a positive delay the routine waits and gets a handle; otherwise it
   * fires its action inside StartCoroutine and the caller gets null.
   */
  function RunDelayed<A>(s: ServiceState<A>, owner: object?, action: Option<A>, delaySeconds: real, tag: Option<string>): (r: (ServiceState<A>, Option<Handle>))
    ensures r.1 == if delaySeconds > 0.0 then Some(s.next) else None
    ensures delaySeconds <= 0.0 ==> r.0.fired == s.fired + (if action.Some? then [action.value] else [])
  {
    Run(s, owner, Some(DelayRoutine(action, delaySeconds)), tag)
  }

  /**
   * Stop: a null handle is ignored; otherwise the coroutine is stopped and, if
   * it has a record, taken out of its owner's list, its tag's list and the records.
   */
  function Stop<A>(s: ServiceState<A>, coroutine: Option<Handle>): (r: ServiceState<A>)
    ensures coroutine.None? ==> r == s
    ensures coroutine.Some? ==> coroutine.value !in r.running && coroutine.value !in r.data
    ensures r.next == s.next && r.fired == s.fired
  {
    if coroutine.None? then s
    else
      var c := coroutine.value;
      var s1 := s.(running := s.running - {c});
      if c in s1.data then Completed(s1, s1.data[c].owner, s1.data[c].tag, Some(c)) else s1
  }

  /** StopAll(): every coroutine stops and all three dictionaries are cleared. */
  function StopAll<A>(s: ServiceState<A>): (r: ServiceState<A>)
    ensures Valid(r) && NoStale(r)
    ensures forall c :: Forgotten(r, c)
    ensures r.next == s.next && r.fired == s.fired
  {
    s.(owned := map[], tagged := map[], data := map[], running := map[])
  }

  /**
   * One iteration of StopAll(owner): stop `c`, drop its tag entry and its record
   * when it has one, then take it out of `owner`'s list.
   */
  function StopOneOwned<A>(s: ServiceState<A>, owner: object, c: Handle): ServiceState<A>
  {
    var s1 := s.(running := s.running - {c});
    var s2 := if c in s1.data then Completed(s1, null, s1.data[c].tag, Some(c)) else s1;
    s2.(owned := Detach(s2.owned, owner, c))
  }

  /** The iterations of StopAll(owner) over the handles `cs`, in order. */
  function StopEachOwned<A>(s: ServiceState<A>, owner: object, cs: seq<Handle>): ServiceState<A>
    decreases |cs|
  {
    if cs == [] then s
    else StopOneOwned(StopEachOwned(s, owner, cs[..|cs| - 1]), owner, cs[|cs| - 1])
  }

  /**
   * StopAll(owner): a null owner, or one with no list, is ignored; otherwise
   * every coroutine of a snapshot of the owner's list is stopped, and the owner's
   * key is removed.
   */
  function StopAllOwnedBy<A>(s: ServiceState<A>, owner: object?): (r: ServiceState<A>)
    ensures owner == null || owner !in s.owned ==> r == s
    ensures owner != null ==> owner !in r.owned
  {
    if owner == null || owner !in s.owned then s
    else
      var s1 := StopEachOwned(s, owner, s.owned[owner]);
      s1.(owned := s1.owned - {owner})
  }

  /**
   * One iteration of StopAll(tag): stop `c`, drop its owner entry and its record
   * when it has one, then take it out of `tag`'s list.
   */
  function StopOneTagged<A>(s: ServiceState<A>, tag: string, c: Handle): ServiceState<A>
  {
    var s1 := s.(running := s.running - {c});
    var s2 := if c in s1.data then Completed(s1, s1.data[c].owner, None, Some(c)) else s1;
    s2.(tagged := Detach(s2.tagged, tag, c))
  }

  /** The iterations of StopAll(tag) over the handles `cs`, in order. */
  function StopEachTagged<A>(s: ServiceState<A>, tag: string, cs: seq<Handle>): ServiceState<A>
    decreases |cs|
  {
    if cs == [] then s
    else StopOneTagged(StopEachTagged(s, tag, cs[..|cs| - 1]), tag, cs[|cs| - 1])
  }

  /**
   * StopAll(tag): a null or empty tag, or one with no list, is ignored;
   * otherwise every coroutine of a snapshot of the tag's list is stopped, and the
   * tag's key is removed.
   */
  function StopAllTagged<A>(s: ServiceState<A>, tag: Option<string>): (r: ServiceState<A>)
    ensures IsNullOrEmpty(tag) || tag.value !in s.tagged ==> r == s
    ensures !IsNullOrEmpty(tag) ==> tag.value !in r.tagged
  {
    if IsNullOrEmpty(tag) || tag.value !in s.tagged then s
    else
      var s1 := StopEachTagged(s, tag.value, s.tagged[tag.value]);
      s1.(tagged := s1.tagged - {tag.value})
  }

  /**
   * What GetActiveCoroutineCount (the number of records) says: it counts every
   * running coroutine, and nothing else as long as no record is stale.
   */
  lemma RecordCount<A>(s: ServiceState<A>)
    ensures Valid(s) ==> |s.running| <= |s.data|
    ensures Valid(s) && NoStale(s) ==> |s.data| == |s.running|
  {
    if Valid(s) {
      SubsetCard(s.running.Keys, s.data.Keys);
      if NoStale(s) {
        SubsetCard(s.data.Keys, s.running.Keys);
      }
    }
  }
}
