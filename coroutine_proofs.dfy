/**
 * What CoroutineService promises about its three dictionaries, proved about the
 * operations of CoroutineModel: every operation keeps the indices exact, and
 * each one adds or removes exactly the handles it should.
 */
module CoroutineProofs {
  import opened Common
  import opened CoroutineIndex
  import opened CoroutineModel

  // ---------------------------------------------------------------------------
  // The invariant, one change at a time
  // ---------------------------------------------------------------------------

  /** Taking a recorded handle out of both indices and the records keeps the dictionaries consistent. */
  lemma UntrackKeepsConsistent(owned: map<object, seq<Handle>>, tagged: map<string, seq<Handle>>, data: map<Handle, Record>, next: Handle, c: Handle)
    requires Consistent(owned, tagged, data, next)
    requires c in data
    ensures Consistent(DetachIf(owned, OwnerKey(data[c]), c), DetachIf(tagged, TagKey(data[c]), c), data - {c}, next)
  {
    UntrackKeepsIndexed(owned, data, OwnerKey, c);
    UntrackKeepsIndexed(tagged, data, TagKey, c);
  }

  /** Filing a record under the next fresh handle, and indexing it, keeps the dictionaries consistent. */
  lemma RegisterKeepsConsistent(owned: map<object, seq<Handle>>, tagged: map<string, seq<Handle>>, data: map<Handle, Record>, next: Handle, rec: Record)
    requires Consistent(owned, tagged, data, next)
    requires rec.coroutine == next
    ensures Consistent(AppendIf(owned, OwnerKey(rec), next), AppendIf(tagged, TagKey(rec), next), data[next := rec], next + 1)
  {
    TrackKeepsIndexed(owned, data, OwnerKey, next, rec);
    TrackKeepsIndexed(tagged, data, TagKey, next, rec);
  }

  /** A coroutine that starts, and is recorded under its fresh handle, keeps the running set tracked. */
  lemma AddKeepsTracks<A>(running: map<Handle, Tracked<A>>, data: map<Handle, Record>, h: Handle, t: Tracked<A>, rec: Record)
    requires Tracks(running, data)
    requires t.coroutine == Some(h) && t.owner == rec.owner && t.tag == rec.tag
    ensures Tracks(running[h := t], data[h := rec])
  {
  }

  /** Under a consistent index, a handle with no record is in no owner list and no tag list. */
  lemma UnrecordedIsForgotten<A>(s: ServiceState<A>, c: Handle)
    requires Valid(s)
    requires c !in s.data
    ensures Forgotten(s, c)
  {
  }

  /** A completion or a stop of a recorded handle, with the record's own owner and tag. */
  lemma {:induction false} UntrackKeepsValid<A>(s: ServiceState<A>, c: Handle)
    requires Valid(s)
    requires c in s.data
    ensures var r := Completed(s.(running := s.running - {c}), s.data[c].owner, s.data[c].tag, Some(c));
      && Valid(r)
      && Forgotten(r, c)
      && r.data == s.data - {c}
      && r.running == s.running - {c}
  {
    var d := s.data[c];
    var r := Completed(s.(running := s.running - {c}), d.owner, d.tag, Some(c));
    UntrackKeepsConsistent(s.owned, s.tagged, s.data, s.next, c);
    assert r.owned == DetachIf(s.owned, OwnerKey(d), c);
    assert r.tagged == DetachIf(s.tagged, TagKey(d), c);
    UnrecordedIsForgotten(r, c);
  }

  // ---------------------------------------------------------------------------
  // Completion, ticks and starts
  // ---------------------------------------------------------------------------

  /**
   * A tick keeps the invariant and never leaves a stale record behind. A routine
   * that finishes or throws is removed from every index; one that yields leaves
   * the dictionaries untouched.
   */
  lemma {:induction false} TickKeepsValid<A>(s: ServiceState<A>, c: Handle)
    requires Valid(s)
    requires c in s.running
    ensures Valid(Tick(s, c).0)
    ensures NoStale(s) ==> NoStale(Tick(s, c).0)
    ensures !Tick(s, c).1 ==> Forgotten(Tick(s, c).0, c)
    ensures Tick(s, c).1 ==> Tick(s, c).0.owned == s.owned && Tick(s, c).0.tagged == s.tagged && Tick(s, c).0.data == s.data
  {
    var t := s.running[c];
    var r := Tick(s, c).0;
    if StepOf(t.routine, t.steps) == Yielded {
      assert r == s.(running := s.running[c := Advance(t)], fired := r.fired);
    } else {
      UntrackKeepsValid(s, c);
      assert r == Completed(s.(running := s.running - {c}), s.data[c].owner, s.data[c].tag, Some(c)).(fired := r.fired);
    }
  }

  /**
   * What Run does to a state whose next handle is not running yet: with a
   * routine that yields on its first step, the handle runs, is recorded and is
   * indexed; otherwise only the handle counter and the fired callbacks move.
   */
  lemma RunResult<A>(s: ServiceState<A>, owner: object?, routine: Routine<A>, tag: Option<string>)
    requires s.next !in s.running
    ensures var h := s.next;
      Run(s, owner, Some(routine), tag).0 ==
        if StepOf(routine, 0) == Yielded then
          ServiceState(AppendIf(s.owned, KeyOfOwner(owner), h), AppendIf(s.tagged, KeyOfTag(tag), h),
                       s.data[h := Record(h, owner, tag, TypeName(routine))],
                       s.running[h := Tracked(owner, tag, routine, 1, Some(h))],
                       h + 1, s.fired + FiredAt(routine, 0))
        else
          s.(next := h + 1, fired := s.fired + FiredAt(routine, 0))
  {
  }

  /**
   * Run keeps the invariant and never leaves a record without a running
   * coroutine behind it: a routine that is over inside StartCoroutine gets a
   * null handle, which the Register steps skip.
   */
  lemma {:induction false} RunKeepsValid<A>(s: ServiceState<A>, owner: object?, routine: Option<Routine<A>>, tag: Option<string>)
    requires Valid(s)
    ensures Valid(Run(s, owner, routine, tag).0)
    ensures NoStale(s) ==> NoStale(Run(s, owner, routine, tag).0)
  {
    if routine.Some? {
      var h := s.next;
      assert h !in s.running && h !in s.data;
      RunResult(s, owner, routine.value, tag);
      if StepOf(routine.value, 0) == Yielded {
        var rec := Record(h, owner, tag, TypeName(routine.value));
        assert OwnerKey(rec) == KeyOfOwner(owner) && TagKey(rec) == KeyOfTag(tag);
        RegisterKeepsConsistent(s.owned, s.tagged, s.data, h, rec);
        AddKeepsTracks(s.running, s.data, h, Tracked(owner, tag, routine.value, 1, Some(h)), rec);
      }
    }
  }

  /**
   * Run of a routine that yields on its first step hands out a fresh handle,
   * which is recorded, running, and indexed under the owner (only when there is
   * one) and under the tag (only when there is one). Run of a routine that is
   * over on its first step gives null and leaves the three dictionaries and the
   * running set as they were.
   */
  lemma {:induction false} RunRecords<A>(s: ServiceState<A>, owner: object?, routine: Routine<A>, tag: Option<string>)
    requires Valid(s)
    ensures var (r, c) := Run(s, owner, Some(routine), tag);
      var h := s.next;
      && h !in s.data && h !in s.running
      && (StepOf(routine, 0) == Yielded ==>
            && c == Some(h)
            && r.data == s.data[h := Record(h, owner, tag, TypeName(routine))]
            && r.running == s.running[h := Tracked(owner, tag, routine, 1, Some(h))]
            && (forall o :: o in r.owned && h in r.owned[o] <==> KeyOfOwner(owner) == Some(o))
            && (forall k :: k in r.tagged && h in r.tagged[k] <==> KeyOfTag(tag) == Some(k)))
      && (StepOf(routine, 0) != Yielded ==>
            c == None && r.data == s.data && r.running == s.running && r.owned == s.owned && r.tagged == s.tagged)
  {
    var h := s.next;
    assert h !in s.running && h !in s.data;
    RunResult(s, owner, routine, tag);
    if StepOf(routine, 0) == Yielded {
      var r := Run(s, owner, Some(routine), tag).0;
      RunKeepsValid(s, owner, Some(routine), tag);
      forall o | o in r.owned && h in r.owned[o]
        ensures KeyOfOwner(owner) == Some(o)
      {
        assert OwnerKey(r.data[h]) == Some(o);
      }
      forall k | k in r.tagged && h in r.tagged[k]
        ensures KeyOfTag(tag) == Some(k)
      {
        assert TagKey(r.data[h]) == Some(k);
      }
    }
  }

  /**
   * RunDelayed with a positive delay records a running coroutine and fires
   * nothing yet; with no delay the action fires at once and nothing is recorded.
   */
  lemma {:induction false} RunDelayedRecords<A>(s: ServiceState<A>, owner: object?, action: Option<A>, delaySeconds: real, tag: Option<string>)
    requires Valid(s)
    ensures var (r, c) := RunDelayed(s, owner, action, delaySeconds, tag);
      && Valid(r)
      && (NoStale(s) ==> NoStale(r))
      && (delaySeconds > 0.0 ==>
            && c == Some(s.next)
            && r.fired == s.fired
            && r.running == s.running[c.value := Tracked(owner, tag, Delay(true, action), 1, Some(c.value))]
            && r.data == s.data[c.value := Record(c.value, owner, tag, "DelayRoutine")])
      && (delaySeconds <= 0.0 ==>
            && c == None
            && r.fired == s.fired + (if action.Some? then [action.value] else [])
            && r.data == s.data && r.running == s.running && r.owned == s.owned && r.tagged == s.tagged)
  {
    var routine := DelayRoutine(action, delaySeconds);
    RunKeepsValid(s, owner, Some(routine), tag);
    RunRecords(s, owner, routine, tag);
  }

  /**
   * The delayed coroutine's next tick fires its action and completes it:
   * afterwards its handle is in no dictionary.
   */
  lemma {:induction false} DelayedTickFires<A>(s: ServiceState<A>, c: Handle, action: Option<A>)
    requires Valid(s)
    requires c in s.running && s.running[c].routine == Delay(true, action) && s.running[c].steps == 1
    ensures Valid(Tick(s, c).0)
    ensures !Tick(s, c).1
    ensures Tick(s, c).0.fired == s.fired + (if action.Some? then [action.value] else [])
    ensures Forgotten(Tick(s, c).0, c)
  {
    TickKeepsValid(s, c);
  }

  // ---------------------------------------------------------------------------
  // Stopping
  // ---------------------------------------------------------------------------

  /**
   * Stop of a handle takes it out of the running set and, when it is recorded,
   * out of its owner's list, its tag's list and the records; every other record
   * stays. An unknown handle leaves the dictionaries as they were.
   */
  lemma {:induction false} StopKeepsValid<A>(s: ServiceState<A>, coroutine: Option<Handle>)
    requires Valid(s)
    ensures Valid(Stop(s, coroutine))
    ensures NoStale(s) ==> NoStale(Stop(s, coroutine))
    ensures coroutine.Some? ==> Forgotten(Stop(s, coroutine), coroutine.value)
    ensures coroutine.Some? ==> Stop(s, coroutine).data == s.data - {coroutine.value}
    ensures coroutine.Some? && coroutine.value !in s.data ==>
      Stop(s, coroutine).owned == s.owned && Stop(s, coroutine).tagged == s.tagged && Stop(s, coroutine).data == s.data
  {
    if coroutine.Some? {
      var c := coroutine.value;
      if c in s.data {
        UntrackKeepsValid(s, c);
      } else {
        assert c !in s.running;
        UnrecordedIsForgotten(s, c);
      }
    }
  }

  /**
   * One iteration of StopAll(owner) on the front handle of the owner's list:
   * the handle is forgotten, the list loses its front -- and its key once it is
   * empty -- and no other owner's list changes.
   */
  lemma {:induction false} StopOneOwnedStep<A>(p: ServiceState<A>, owner: object, rest: seq<Handle>)
    requires Valid(p)
    requires owner in p.owned && p.owned[owner] == rest && rest != []
    ensures var q := StopOneOwned(p, owner, rest[0]);
      && Valid(q)
      && (|rest| > 1 ==> owner in q.owned && q.owned[owner] == rest[1..])
      && (|rest| == 1 ==> owner !in q.owned)
      && q.owned - {owner} == p.owned - {owner}
      && q.data == p.data - {rest[0]}
      && q.running == p.running - {rest[0]}
      && q.next == p.next && q.fired == p.fired
  {
    var c := rest[0];
    assert c in p.data && OwnerKey(p.data[c]) == Some(owner);
    var d := p.data[c];
    var q := StopOneOwned(p, owner, c);
    UntrackKeepsValid(p, c);
    assert q == Completed(p.(running := p.running - {c}), d.owner, d.tag, Some(c));
    assert RemoveFirst(rest, c) == rest[1..];
  }

  /** The loop of StopAll(owner) after `i` iterations over the snapshot of the owner's list. */
  lemma {:induction false} StopEachOwnedInv<A>(s: ServiceState<A>, owner: object, i: nat)
    requires Valid(s)
    requires owner in s.owned && i <= |s.owned[owner]|
    ensures var cs := s.owned[owner];
      var r := StopEachOwned(s, owner, cs[..i]);
      && Valid(r)
      && (i < |cs| ==> owner in r.owned && r.owned[owner] == cs[i..])
      && (i == |cs| ==> owner !in r.owned)
      && r.owned - {owner} == s.owned - {owner}
      && r.data == s.data - Elems(cs[..i])
      && r.running == s.running - Elems(cs[..i])
      && r.next == s.next && r.fired == s.fired
  {
    var cs := s.owned[owner];
    if i == 0 {
      assert Elems(cs[..0]) == {};
    } else {
      StopEachOwnedInv(s, owner, i - 1);
      var p := StopEachOwned(s, owner, cs[..i - 1]);
      assert cs[..i][..i - 1] == cs[..i - 1];
      assert StopEachOwned(s, owner, cs[..i]) == StopOneOwned(p, owner, cs[i - 1]);
      assert cs[i - 1..][1..] == cs[i..];
      StopOneOwnedStep(p, owner, cs[i - 1..]);
      ElemsPrefix(cs, i);
      MinusOneMore(s.data, Elems(cs[..i - 1]), cs[i - 1]);
      MinusOneMore(s.running, Elems(cs[..i - 1]), cs[i - 1]);
    }
  }

  /**
   * StopAll(owner): afterwards the owner has no list and every other owner's
   * list is as it was; exactly the records of other owners remain, unchanged,
   * and exactly the coroutines of other owners still run.
   */
  lemma {:induction false} StopAllOwnedByForgets<A>(s: ServiceState<A>, owner: object)
    requires Valid(s)
    ensures var r := StopAllOwnedBy(s, owner);
      && Valid(r)
      && (NoStale(s) ==> NoStale(r))
      && r.owned == s.owned - {owner}
      && (forall h :: h in r.data <==> h in s.data && s.data[h].owner != owner)
      && (forall h :: h in r.data ==> r.data[h] == s.data[h])
      && (forall h :: h in r.running <==> h in s.running && s.running[h].owner != owner)
      && (forall h :: h in r.running ==> r.running[h] == s.running[h])
  {
    if owner in s.owned {
      var cs := s.owned[owner];
      StopEachOwnedInv(s, owner, |cs|);
      assert cs[..|cs|] == cs;
      var s1 := StopEachOwned(s, owner, cs);
      assert s1.owned - {owner} == s1.owned;
      assert StopAllOwnedBy(s, owner) == s1;
      OwnedAreIndexed(s, owner);
    } else {
      forall h | h in s.data
        ensures s.data[h].owner != owner
      {
        assert OwnerKey(s.data[h]) != Some(owner);
      }
    }
  }

  /** The owner's list holds exactly the handles whose record names that owner. */
  lemma OwnedAreIndexed<A>(s: ServiceState<A>, owner: object)
    requires Valid(s)
    requires owner in s.owned
    ensures forall h :: h in Elems(s.owned[owner]) <==> h in s.data && s.data[h].owner == owner
  {
    forall h | h in s.data && s.data[h].owner == owner
      ensures h in s.owned[owner]
    {
      assert OwnerKey(s.data[h]) == Some(owner);
    }
  }

  /** One iteration of StopAll(tag) on the front handle of the tag's list. */
  lemma {:induction false} StopOneTaggedStep<A>(p: ServiceState<A>, tag: string, rest: seq<Handle>)
    requires Valid(p)
    requires tag in p.tagged && p.tagged[tag] == rest && rest != []
    ensures var q := StopOneTagged(p, tag, rest[0]);
      && Valid(q)
      && (|rest| > 1 ==> tag in q.tagged && q.tagged[tag] == rest[1..])
      && (|rest| == 1 ==> tag !in q.tagged)
      && q.tagged - {tag} == p.tagged - {tag}
      && q.data == p.data - {rest[0]}
      && q.running == p.running - {rest[0]}
      && q.next == p.next && q.fired == p.fired
  {
    var c := rest[0];
    assert c in p.data && TagKey(p.data[c]) == Some(tag);
    var d := p.data[c];
    var q := StopOneTagged(p, tag, c);
    UntrackKeepsValid(p, c);
    assert q == Completed(p.(running := p.running - {c}), d.owner, d.tag, Some(c));
    assert RemoveFirst(rest, c) == rest[1..];
  }

  /** The loop of StopAll(tag) after `i` iterations over the snapshot of the tag's list. */
  lemma {:induction false} StopEachTaggedInv<A>(s: ServiceState<A>, tag: string, i: nat)
    requires Valid(s)
    requires tag in s.tagged && i <= |s.tagged[tag]|
    ensures var cs := s.tagged[tag];
      var r := StopEachTagged(s, tag, cs[..i]);
      && Valid(r)
      && (i < |cs| ==> tag in r.tagged && r.tagged[tag] == cs[i..])
      && (i == |cs| ==> tag !in r.tagged)
      && r.tagged - {tag} == s.tagged - {tag}
      && r.data == s.data - Elems(cs[..i])
      && r.running == s.running - Elems(cs[..i])
      && r.next == s.next && r.fired == s.fired
  {
    var cs := s.tagged[tag];
    if i == 0 {
      assert Elems(cs[..0]) == {};
    } else {
      StopEachTaggedInv(s, tag, i - 1);
      var p := StopEachTagged(s, tag, cs[..i - 1]);
      assert cs[..i][..i - 1] == cs[..i - 1];
      assert StopEachTagged(s, tag, cs[..i]) == StopOneTagged(p, tag, cs[i - 1]);
      assert cs[i - 1..][1..] == cs[i..];
      StopOneTaggedStep(p, tag, cs[i - 1..]);
      ElemsPrefix(cs, i);
      MinusOneMore(s.data, Elems(cs[..i - 1]), cs[i - 1]);
      MinusOneMore(s.running, Elems(cs[..i - 1]), cs[i - 1]);
    }
  }

  /**
   * StopAll(tag) for a non-empty tag: afterwards the tag has no list and every
   * other tag's list is as it was; exactly the records with other tags remain,
   * unchanged, and exactly the coroutines with other tags still run.
   */
  lemma {:induction false} StopAllTaggedForgets<A>(s: ServiceState<A>, tag: string)
    requires Valid(s)
    requires tag != ""
    ensures var r := StopAllTagged(s, Some(tag));
      && Valid(r)
      && (NoStale(s) ==> NoStale(r))
      && r.tagged == s.tagged - {tag}
      && (forall h :: h in r.data <==> h in s.data && s.data[h].tag != Some(tag))
      && (forall h :: h in r.data ==> r.data[h] == s.data[h])
      && (forall h :: h in r.running <==> h in s.running && s.running[h].tag != Some(tag))
      && (forall h :: h in r.running ==> r.running[h] == s.running[h])
  {
    if tag in s.tagged {
      var cs := s.tagged[tag];
      StopEachTaggedInv(s, tag, |cs|);
      assert cs[..|cs|] == cs;
      var s1 := StopEachTagged(s, tag, cs);
      assert s1.tagged - {tag} == s1.tagged;
      assert StopAllTagged(s, Some(tag)) == s1;
      TaggedAreIndexed(s, tag);
    } else {
      forall h | h in s.data
        ensures s.data[h].tag != Some(tag)
      {
        assert TagKey(s.data[h]) != Some(tag);
      }
    }
  }

  /** A non-empty tag's list holds exactly the handles whose record carries that tag. */
  lemma TaggedAreIndexed<A>(s: ServiceState<A>, tag: string)
    requires Valid(s)
    requires tag != "" && tag in s.tagged
    ensures forall h :: h in Elems(s.tagged[tag]) <==> h in s.data && s.data[h].tag == Some(tag)
  {
    forall h | h in s.data && s.data[h].tag == Some(tag)
      ensures h in s.tagged[tag]
    {
      assert TagKey(s.data[h]) == Some(tag);
    }
  }
}
