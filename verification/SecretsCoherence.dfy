/** When overlapping calls leave the cache coherent (src/config/SecretsManager.ts), exactly.

    The backend is changed only through the manager here.  Between the moment a write takes effect and
    the moment its call goes on, the cache may hold the value that was overwritten; that is settled as
    soon as the call goes on and deletes the key.  What is never settled is a fill with a value that a
    write has already overtaken. */
module SecretsCoherence {
  import opened Text
  import opened SecretsCache
  import opened SecretsRuns

  /** A write to the key has taken effect, and its call is about to delete the key from the cache. */
  ghost predicate DeletesSoon(w: World, key: string) {
    exists id :: id in w.calls && w.calls[id] == HasWritten(key, None)
  }

  ghost predicate HoldsNow(w: World, key: string, value: string)
    requires w.past != []
  {
    Find(Current(w), key) == Ok(value) || DeletesSoon(w, key)
  }

  /** Every cached value is the backend's, or about to be deleted. */
  ghost predicate Settled(w: World)
    requires w.past != []
  {
    forall s :: s in w.cache ==> HoldsNow(w, s.key, s.value)
  }

  /** The slot is still there after the prune that follows it: it has not expired, or there was room. */
  predicate Lands(c: Cache, slot: Slot, pruned: int) {
    slot.expiresAt > pruned || |Put(c, slot)| <= MAX_ENTRIES
  }

  /** The step does not fill the cache with a value that a finished write has overtaken. */
  ghost predicate NotOvertaken(w: World, step: Step)
    requires w.past != []
  {
    step.Resume? && step.id in w.calls && w.calls[step.id].HasRead? && w.calls[step.id].answer.Ok? ==>
      var call := w.calls[step.id];
      Lands(w.cache, Slot(call.key, call.answer.value, step.stored + TtlOf(call.ttl)), step.pruned) ==>
        HoldsNow(w, call.key, call.answer.value)
  }

  // ---------- One step ----------

  /** What stays in the cache stays settled while the backend and the finished writes stay. */
  lemma SubsetStaysSettled(w: World, w': World)
    requires w.past != [] && w'.past != [] && Settled(w)
    requires Current(w') == Current(w)
    requires forall s :: s in w'.cache ==> s in w.cache && (DeletesSoon(w, s.key) ==> DeletesSoon(w', s.key))
    ensures Settled(w')
  {
    forall s | s in w'.cache ensures HoldsNow(w', s.key, s.value) {
      assert HoldsNow(w, s.key, s.value);
    }
  }

  /** Calls that are not finished writes may come, go and change. */
  lemma DeletesSoonStays(w: World, w': World, id: nat, key: string)
    requires id !in w.calls || !w.calls[id].HasWritten?
    requires forall i :: i in w.calls && i != id ==> i in w'.calls && w'.calls[i] == w.calls[i]
    requires DeletesSoon(w, key)
    ensures DeletesSoon(w', key)
  {
    var i :| i in w.calls && w.calls[i] == HasWritten(key, None);
    assert i in w'.calls && w'.calls[i] == HasWritten(key, None);
  }

  lemma BeginStaysSettled(w: World, step: Step)
    requires Inv(w) && Settled(w) && (step.BeginGet? || step.BeginWrite?)
    ensures Settled(Next(w, step))
  {
    var w' := Next(w, step);
    if step.id !in w.calls {
      if step.BeginGet? { FirstPruneIsIdle(w.cache, step.pruned); }
      assert w'.cache == w.cache && Current(w') == Current(w);
      forall key | DeletesSoon(w, key) ensures DeletesSoon(w', key) {
        DeletesSoonStays(w, w', step.id, key);
      }
      hide DeletesSoon;
      SubsetStaysSettled(w, w');
    }
  }

  lemma ReadActStaysSettled(w: World, id: nat, reachable: bool)
    requires Inv(w) && Settled(w) && id in w.calls && !w.calls[id].Writing?
    ensures Settled(Act(w, id, w.calls[id], reachable))
  {
    var w' := Act(w, id, w.calls[id], reachable);
    if w.calls[id].Reading? {
      forall key | DeletesSoon(w, key) ensures DeletesSoon(w', key) {
        DeletesSoonStays(w, w', id, key);
      }
      hide DeletesSoon;
      SubsetStaysSettled(w, w');
    }
  }

  /** A write that takes effect changes one key, and will delete just that key. */
  lemma WriteActStaysSettled(w: World, id: nat, reachable: bool)
    requires Inv(w) && Settled(w) && id in w.calls && w.calls[id].Writing?
    ensures Settled(Act(w, id, w.calls[id], reachable))
  {
    var w' := Act(w, id, w.calls[id], reachable);
    var key, value := w.calls[id].key, w.calls[id].value;
    forall k | DeletesSoon(w, k) ensures DeletesSoon(w', k) {
      DeletesSoonStays(w, w', id, k);
    }
    if WriteError(w.platform, reachable) == None {
      assert w'.calls[id] == HasWritten(key, None);
      assert Current(w') == Overwrite(Current(w), key, value);
      forall s | s in w'.cache ensures HoldsNow(w', s.key, s.value) {
        assert HoldsNow(w, s.key, s.value);
        if s.key != key { FindElsewhere(Current(w), key, value, s.key); }
      }
    } else {
      hide DeletesSoon;
      SubsetStaysSettled(w, w');
    }
  }

  lemma FindElsewhere(kv: Store, key: string, value: Option<string>, other: string)
    requires other != key
    ensures Find(Overwrite(kv, key, value), other) == Find(kv, other)
  {
  }

  lemma ActStaysSettled(w: World, id: nat, reachable: bool)
    requires Inv(w) && Settled(w) && id in w.calls
    ensures Settled(Act(w, id, w.calls[id], reachable))
  {
    if w.calls[id].Writing? { WriteActStaysSettled(w, id, reachable); } else { ReadActStaysSettled(w, id, reachable); }
  }

  lemma DeletionStaysSettled(w: World, id: nat, stored: int, pruned: int)
    requires Inv(w) && Settled(w) && id in w.calls
    requires !(w.calls[id].HasRead? && w.calls[id].answer.Ok?)
    ensures Settled(GoOn(w, id, w.calls[id], stored, pruned))
  {
    var call := w.calls[id];
    var w' := GoOn(w, id, call, stored, pruned);
    if call.HasWritten? && call.error == None {
      RemoveKeepsOthers(w.cache, call.key);
      forall s | s in w'.cache && DeletesSoon(w, s.key) ensures DeletesSoon(w', s.key) {
        var i :| i in w.calls && w.calls[i] == HasWritten(s.key, None);
        assert i != id && i in w'.calls && w'.calls[i] == w.calls[i];
      }
      hide DeletesSoon;
      SubsetStaysSettled(w, w');
    } else if call.HasWritten? || call.HasRead? {
      forall key | DeletesSoon(w, key) ensures DeletesSoon(w', key) {
        var i :| i in w.calls && w.calls[i] == HasWritten(key, None);
        assert i != id && i in w'.calls && w'.calls[i] == w.calls[i];
      }
      hide DeletesSoon;
      SubsetStaysSettled(w, w');
    }
  }

  /** Whether the slot of a fill is in the cache afterwards. */
  lemma FillLandsExactlyWhen(c: Cache, slot: Slot, pruned: int)
    requires UniqueKeys(c) && |c| <= MAX_ENTRIES
    ensures slot in Pruned(Put(c, slot), MAX_ENTRIES, pruned) <==> Lands(c, slot, pruned)
    ensures forall s :: s in Pruned(Put(c, slot), MAX_ENTRIES, pruned) ==> s == slot || s in c
  {
    PruneAfterPut(c, slot, pruned);
    PutKeepsOthers(c, slot);
    PutKeepsUnique(c, slot);
    PrunedKeepsUnique(Put(c, slot), MAX_ENTRIES, pruned);
    UnexpiredKeepsUnique(Put(c, slot), pruned);
    hide Put, Unexpired, UniqueKeys;
  }

  lemma FillDeletesNothing(w: World, id: nat, stored: int, pruned: int)
    requires w.past != [] && id in w.calls && w.calls[id].HasRead? && w.calls[id].answer.Ok?
    ensures forall key :: DeletesSoon(GoOn(w, id, w.calls[id], stored, pruned), key) <==> DeletesSoon(w, key)
  {
    var w' := GoOn(w, id, w.calls[id], stored, pruned);
    assert w'.calls == w.calls - {id};
    hide AfterFill;
    forall key ensures DeletesSoon(w', key) <==> DeletesSoon(w, key) {
      if DeletesSoon(w', key) {
        var i :| i in w'.calls && w'.calls[i] == HasWritten(key, None);
        assert i in w.calls && w.calls[i] == HasWritten(key, None);
      }
      if DeletesSoon(w, key) { DeletesSoonStays(w, w', id, key); }
    }
  }

  /** A fill keeps the cache settled exactly if its value has not been overtaken. */
  lemma FillStaysSettledExactlyWhen(w: World, id: nat, stored: int, pruned: int)
    requires Inv(w) && Settled(w) && id in w.calls && w.calls[id].HasRead? && w.calls[id].answer.Ok?
    ensures Settled(GoOn(w, id, w.calls[id], stored, pruned)) <==> NotOvertaken(w, Resume(id, stored, pruned))
  {
    var call := w.calls[id];
    var w' := GoOn(w, id, call, stored, pruned);
    var slot := Slot(call.key, call.answer.value, stored + TtlOf(call.ttl));
    FillLandsExactlyWhen(w.cache, slot, pruned);
    FillDeletesNothing(w, id, stored, pruned);
    hide DeletesSoon, Lands, UniqueKeys, Put, Pruned;
    forall key, value ensures HoldsNow(w', key, value) <==> HoldsNow(w, key, value) {
    }
    forall s | s in w.cache ensures HoldsNow(w, s.key, s.value) {
    }
    hide HoldsNow;
    assert slot in w'.cache <==> Lands(w.cache, slot, pruned);
  }

  lemma ClearStaysSettled(w: World, only: Option<string>)
    requires Inv(w) && Settled(w)
    ensures Settled(w.(cache := AfterClear(w.cache, only)))
  {
    var w' := w.(cache := AfterClear(w.cache, only));
    if only.Some? { RemoveKeepsOthers(w.cache, only.value); }
    forall key | DeletesSoon(w, key) ensures DeletesSoon(w', key) {
      var i :| i in w.calls && w.calls[i] == HasWritten(key, None);
      assert i in w'.calls && w'.calls[i] == HasWritten(key, None);
    }
    hide DeletesSoon;
    SubsetStaysSettled(w, w');
  }

  lemma StepStaysSettledExactlyWhen(w: World, step: Step)
    requires Inv(w) && Settled(w) && !step.BackendChanges?
    ensures Settled(Next(w, step)) <==> NotOvertaken(w, step)
  {
    match step
    case BeginGet(_, _, _, _, _) => BeginStaysSettled(w, step);
    case BeginWrite(_, _, _) => BeginStaysSettled(w, step);
    case BackendActs(id, reachable) => if id in w.calls { ActStaysSettled(w, id, reachable); }
    case Resume(id, stored, pruned) =>
      if id in w.calls {
        if w.calls[id].HasRead? && w.calls[id].answer.Ok? {
          FillStaysSettledExactlyWhen(w, id, stored, pruned);
        } else {
          DeletionStaysSettled(w, id, stored, pruned);
        }
      }
    case Clear(only) => ClearStaysSettled(w, only);
  }

  // ---------- Whole runs ----------

  ghost predicate OnlyTheManagerWrites(run: seq<Step>) {
    forall i :: 0 <= i < |run| ==> !run[i].BackendChanges?
  }

  /** After every step the cache is settled. */
  ghost predicate AlwaysSettled(w: World, run: seq<Step>)
    requires w.past != []
  {
    Settled(After(w, run)) && (run != [] ==> AlwaysSettled(w, run[..|run| - 1]))
  }

  /** No step of the run fills the cache with an overtaken value. */
  ghost predicate NeverOvertaken(w: World, run: seq<Step>)
    requires w.past != []
  {
    run != [] ==>
      var before := run[..|run| - 1];
      NeverOvertaken(w, before) && NotOvertaken(After(w, before), run[|run| - 1])
  }

  /** For every interleaving: the cache is settled all the time if and only if no read goes on with a value
      that a finished write has overtaken.  An overlap alone does no harm. */
  lemma {:induction false} SettledExactlyWhen(platform: Platform, kv: Store, run: seq<Step>)
    requires OnlyTheManagerWrites(run)
    ensures AlwaysSettled(Start(platform, kv), run) <==> NeverOvertaken(Start(platform, kv), run)
  {
    if run != [] {
      var before, w0 := run[..|run| - 1], Start(platform, kv);
      SettledExactlyWhen(platform, kv, before);
      if AlwaysSettled(w0, before) {
        RunKeepsInv(platform, kv, before);
        NowSettled(w0, before);
        StepStaysSettledExactlyWhen(After(w0, before), run[|run| - 1]);
      }
    }
  }

  lemma NowSettled(w: World, run: seq<Step>)
    requires w.past != [] && AlwaysSettled(w, run)
    ensures Settled(After(w, run))
  {
  }

  /** With no call in flight, a settled cache holds the backend's values and nothing else. */
  lemma SettledAtRestIsCoherent(w: World, s: Slot)
    requires w.past != [] && Settled(w) && w.calls == map[] && s in w.cache
    ensures Find(Current(w), s.key) == Ok(s.value)
  {
    assert HoldsNow(w, s.key, s.value);
  }

  /** A hit on a settled cache answers what the backend holds, or the value that a write has just replaced
      whose call has not gone on yet. */
  lemma SettledHitIsCurrent(w: World, key: string, now: int)
    requires w.past != [] && Settled(w) && IsHit(w.cache, key, now)
    ensures HoldsNow(w, key, Lookup(w.cache, key).value.value)
  {
    assert Lookup(w.cache, key).value in w.cache;
  }

  // ---------- What a caller can do about it ----------

  predicate Reads(call: SecretsRuns.Call, key: string) { (call.Reading? || call.HasRead?) && call.key == key }
  predicate Writes(call: SecretsRuns.Call, key: string) { (call.Writing? || call.HasWritten?) && call.key == key }

  /** The step begins no write of a key that is being read. */
  ghost predicate WritesWait(w: World, step: Step) {
    step.BeginWrite? ==> forall id :: id in w.calls ==> !Reads(w.calls[id], step.key)
  }

  /** Nor does it begin a read of a key that is being written. */
  ghost predicate Apart(w: World, step: Step) {
    && WritesWait(w, step)
    && (step.BeginGet? ==> forall id :: id in w.calls ==> !Writes(w.calls[id], step.key))
  }

  ghost predicate AllApart(w: World, run: seq<Step>)
    requires w.past != []
  {
    run != [] ==>
      var before := run[..|run| - 1];
      AllApart(w, before) && Apart(After(w, before), run[|run| - 1])
  }

  /** No key is read and written at once, and every value that was read is still the backend's. */
  ghost predicate ReadsAreFresh(w: World)
    requires w.past != []
  {
    KeysApart(w) && ReadsHold(w)
  }

  ghost predicate ReadsHold(w: World)
    requires w.past != []
  {
    forall i :: i in w.calls && w.calls[i].HasRead? && w.calls[i].answer.Ok? ==>
      Find(Current(w), w.calls[i].key) == w.calls[i].answer
  }

  ghost predicate KeysApart(w: World) {
    forall i, j :: i in w.calls && j in w.calls && w.calls[i].key == w.calls[j].key ==>
      !(Reads(w.calls[i], w.calls[i].key) && Writes(w.calls[j], w.calls[j].key))
  }

  lemma ApartKeepsKeysApart(w: World, step: Step)
    requires w.past != [] && KeysApart(w) && Apart(w, step)
    ensures KeysApart(Next(w, step))
  {
    hide IsHit, AfterMiss, AfterFill, AfterClear, ReadAnswer, Overwrite, WriteError;
  }

  lemma ApartKeepsReadsFresh(w: World, step: Step)
    requires w.past != [] && ReadsAreFresh(w) && Apart(w, step) && !step.BackendChanges?
    ensures ReadsAreFresh(Next(w, step))
    ensures NotOvertaken(w, step)
  {
    ApartKeepsKeysApart(w, step);
    hide KeysApart, AfterFill, AfterMiss, AfterClear, IsHit;
    if step.BackendActs? && step.id in w.calls { ActKeepsReadsFresh(w, step.id, step.reachable); }
  }

  lemma ActKeepsReadsFresh(w: World, id: nat, reachable: bool)
    requires w.past != [] && ReadsAreFresh(w) && id in w.calls
    ensures ReadsHold(Act(w, id, w.calls[id], reachable))
  {
    var w' := Act(w, id, w.calls[id], reachable);
    if w.calls[id].Writing? {
      forall i | i in w'.calls && w'.calls[i].HasRead? && w'.calls[i].answer.Ok?
        ensures Find(Current(w'), w'.calls[i].key) == w'.calls[i].answer
      {
        assert w.calls[i] == w'.calls[i];
        assert w.calls[i].key != w.calls[id].key;
        FindElsewhere(Current(w), w.calls[id].key, w.calls[id].value, w.calls[i].key);
      }
    }
  }

  /** If no read of a key overlaps a write of that key, the cache is settled all the time. */
  lemma {:induction false} ApartIsSettled(platform: Platform, kv: Store, run: seq<Step>)
    requires OnlyTheManagerWrites(run) && AllApart(Start(platform, kv), run)
    ensures AlwaysSettled(Start(platform, kv), run)
  {
    ApartIsNeverOvertaken(platform, kv, run);
    SettledExactlyWhen(platform, kv, run);
  }

  lemma {:induction false} ApartIsNeverOvertaken(platform: Platform, kv: Store, run: seq<Step>)
    requires OnlyTheManagerWrites(run) && AllApart(Start(platform, kv), run)
    ensures NeverOvertaken(Start(platform, kv), run)
    ensures ReadsAreFresh(After(Start(platform, kv), run))
  {
    if run != [] {
      var before := run[..|run| - 1];
      ApartIsNeverOvertaken(platform, kv, before);
      ApartKeepsReadsFresh(After(Start(platform, kv), before), run[|run| - 1]);
    }
  }

  // ---------- Holding back writes only is not enough ----------

  ghost predicate AllWritesWait(w: World, run: seq<Step>)
    requires w.past != []
  {
    run != [] ==>
      var before := run[..|run| - 1];
      AllWritesWait(w, before) && WritesWait(After(w, before), run[|run| - 1])
  }

  lemma OneStep(w: World, run: seq<Step>, step: Step)
    requires w.past != []
    ensures After(w, run + [step]) == Next(After(w, run), step)
    ensures AllWritesWait(w, run + [step]) <==> AllWritesWait(w, run) && WritesWait(After(w, run), step)
  {
    assert (run + [step])[..|run|] == run;
  }

  /** The write begins before the read and takes effect after it: no write was begun during a read, and yet
      the old value stays in the cache with no call in flight. */
  lemma WaitingWritesAreNotEnough(key: string, old': string, new': string)
    requires old' != "" && old' != new'
    ensures var w0 := Start(Cloudflare(true), map[key := old']);
            var run := [BeginWrite(1, key, Some(new'))] + [BeginGet(0, key, None, 0, 0)] + [BackendActs(0, true)]
                       + [BackendActs(1, true)] + [Resume(1, 0, 0)] + [Resume(0, 0, 0)];
            && AllWritesWait(w0, run) && !Settled(After(w0, run))
            && After(w0, run).calls == map[]
  {
    var w0 := Start(Cloudflare(true), map[key := old']);
    var r1: seq<Step> := [BeginWrite(1, key, Some(new'))];
    var r2 := r1 + [BeginGet(0, key, None, 0, 0)];
    var r3 := r2 + [BackendActs(0, true)];
    var r4 := r3 + [BackendActs(1, true)];
    var r5 := r4 + [Resume(1, 0, 0)];
    assert [] + r1 == r1;
    OneStep(w0, [], BeginWrite(1, key, Some(new')));
    OneStep(w0, r1, BeginGet(0, key, None, 0, 0));
    OneStep(w0, r2, BackendActs(0, true));
    OneStep(w0, r3, BackendActs(1, true));
    OneStep(w0, r4, Resume(1, 0, 0));
    OneStep(w0, r5, Resume(0, 0, 0));
    hide After, AllWritesWait;
    assert After(w0, []) == w0 && AllWritesWait(w0, []) by { StartOfRun(w0); }
    BothBegin(key, old', new', w0);
    BothActAndGoOn(key, old', new', After(w0, r2));
  }

  lemma StartOfRun(w: World)
    requires w.past != []
    ensures After(w, []) == w && AllWritesWait(w, [])
  {
  }

  lemma BothBegin(key: string, old': string, new': string, w: World)
    requires w == Start(Cloudflare(true), map[key := old'])
    ensures Next(Next(w, BeginWrite(1, key, Some(new'))), BeginGet(0, key, None, 0, 0))
            == w.(calls := map[0 := Reading(key, None, 0), 1 := Writing(key, Some(new'))])
  {
    assert Lookup([], key) == None;
    var w1 := Next(w, BeginWrite(1, key, Some(new')));
    assert w1.calls == map[1 := Writing(key, Some(new'))];
  }

  lemma BothActAndGoOn(key: string, old': string, new': string, w: World)
    requires old' != "" && old' != new' && w.platform == Cloudflare(true)
    requires w.past == [map[key := old']] && w.cache == [] && w.given == [] && w.fills == []
    requires w.calls == map[0 := Reading(key, None, 0), 1 := Writing(key, Some(new'))]
    ensures var w' := Next(Next(Next(Next(w, BackendActs(0, true)), BackendActs(1, true)), Resume(1, 0, 0)),
                           Resume(0, 0, 0));
            w'.calls == map[] && !Settled(w')
  {
    var w3 := Next(w, BackendActs(0, true));
    assert w3.calls == map[0 := HasRead(key, None, 0, Ok(old'), 0), 1 := Writing(key, Some(new'))];
    var w4 := Next(w3, BackendActs(1, true));
    assert w4.calls == map[0 := HasRead(key, None, 0, Ok(old'), 0), 1 := HasWritten(key, None)];
    assert map[key := old'][key := new'] == map[key := new'];
    assert w4.past == [map[key := old'], map[key := new']];
    var w5 := Next(w4, Resume(1, 0, 0));
    assert w5.calls == map[0 := HasRead(key, None, 0, Ok(old'), 0)] && w5.cache == [] by {
      assert Remove([], key) == [];
    }
    var w6 := Next(w5, Resume(0, 0, 0));
    assert w6.cache == [Slot(key, old', DEFAULT_TTL)];
    assert w6.calls == map[];
    assert w6.cache[0] in w6.cache && !HoldsNow(w6, key, old');
  }
}
