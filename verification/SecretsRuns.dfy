/** Overlapping calls on one secrets manager (src/config/SecretsManager.ts).

    A call is cut at its await into a beginning, the moment at which the backend acts, and an end;
    the parts of different calls interleave freely, the backend may also change on its own, and every
    clock reading is arbitrary.  What survives all interleavings is provenance, bounded staleness and
    the size bound; coherence does not. */
module SecretsRuns {
  import opened Text
  import opened SecretsCache

  type Store = map<string, string>

  datatype Platform = Aws | Cloudflare(bound: bool) | Deno | Local

  datatype Error = NotFound | Unavailable | NotConfigured | Unsupported | Rejected

  datatype Answer = Ok(value: string) | Err(error: Error)

  /** An empty value counts as missing. */
  function Find(kv: Store, key: string): Answer {
    if key in kv && kv[key] != "" then Ok(kv[key]) else Err(NotFound)
  }

  /** The answer to a read; `reachable` is false when the KV request itself fails. */
  function ReadAnswer(platform: Platform, kv: Store, key: string, reachable: bool): Answer {
    match platform
    case Aws => Err(Unavailable)
    case Cloudflare(bound) =>
      if !bound then Err(NotConfigured) else if !reachable then Err(Rejected) else Find(kv, key)
    case Deno => Find(kv, key)
    case Local => Find(kv, key)
  }

  /** None: the write (a put, or a delete when `value` is None) goes through. */
  function WriteError(platform: Platform, reachable: bool): Option<Error> {
    match platform
    case Aws => Some(Unavailable)
    case Cloudflare(bound) =>
      if !bound then Some(NotConfigured) else if !reachable then Some(Rejected) else None
    case Deno => Some(Unsupported)
    case Local => Some(Unsupported)
  }

  function Overwrite(kv: Store, key: string, value: Option<string>): Store {
    match value
    case Some(v) => kv[key := v]
    case None => kv - {key}
  }

  // ---------- The system ----------

  /** A call that is suspended: waiting for the backend, or with its answer and about to go on.
      `since` is the backend instant at which a read call began, `at` the one at which it was read. */
  datatype Call =
    | Reading(key: string, ttl: Option<int>, since: nat)
    | HasRead(key: string, ttl: Option<int>, since: nat, answer: Answer, at: nat)
    | Writing(key: string, value: Option<string>)
    | HasWritten(key: string, error: Option<Error>)

  /** A slot was stored: its value was read at instant `at`, by a call begun at instant `since`. */
  datatype Fill = Fill(key: string, value: string, stored: int, ttl: Option<int>, since: nat, at: nat)

  /** A value was returned by `getSecret`; a cache hit comes when `filled` slots have been stored so far. */
  datatype Return =
    | FromCache(key: string, value: string, now: int, filled: nat)
    | FromBackend(key: string, value: string, since: nat, at: nat)

  /** `past` holds every state of the backend so far, the last one being the current one. */
  datatype World = World(
    platform: Platform, past: seq<Store>, cache: Cache, calls: map<nat, Call>,
    fills: seq<Fill>, given: seq<Return>)

  datatype Step =
    | BeginGet(id: nat, key: string, ttl: Option<int>, now: int, pruned: int)
    | BeginWrite(id: nat, key: string, value: Option<string>)
    | BackendActs(id: nat, reachable: bool)
    | Resume(id: nat, stored: int, pruned: int)
    | Clear(only: Option<string>)
    | BackendChanges(kv: Store)

  function Current(w: World): Store
    requires w.past != []
  {
    w.past[|w.past| - 1]
  }

  function Start(platform: Platform, kv: Store): World { World(platform, [kv], [], map[], [], []) }

  /** One atomic step; a step that does not apply to the world leaves it as it is. */
  function Next(w: World, step: Step): (w': World)
    requires w.past != []
    ensures w'.past != []
  {
    match step
    case BeginGet(id, key, ttl, now, pruned) =>
      if id in w.calls then w
      else if IsHit(w.cache, key, now)
      then w.(given := w.given + [FromCache(key, Lookup(w.cache, key).value.value, now, |w.fills|)])
      else w.(cache := AfterMiss(w.cache, pruned),
              calls := w.calls[id := Reading(key, ttl, |w.past| - 1)])
    case BeginWrite(id, key, value) =>
      if id in w.calls then w else w.(calls := w.calls[id := Writing(key, value)])
    case BackendActs(id, reachable) => if id in w.calls then Act(w, id, w.calls[id], reachable) else w
    case Resume(id, stored, pruned) => if id in w.calls then GoOn(w, id, w.calls[id], stored, pruned) else w
    case Clear(key) => w.(cache := AfterClear(w.cache, key))
    case BackendChanges(kv) => w.(past := w.past + [kv])
  }

  function Act(w: World, id: nat, call: Call, reachable: bool): (w': World)
    requires w.past != []
    ensures w'.past != []
  {
    match call
    case Reading(key, ttl, since) =>
      w.(calls := w.calls[id := HasRead(key, ttl, since,
                                        ReadAnswer(w.platform, Current(w), key, reachable), |w.past| - 1)])
    case Writing(key, value) =>
      var error := WriteError(w.platform, reachable);
      w.(calls := w.calls[id := HasWritten(key, error)],
         past := if error == None then w.past + [Overwrite(Current(w), key, value)] else w.past)
    case HasRead(_, _, _, _, _) => w
    case HasWritten(_, _) => w
  }

  function GoOn(w: World, id: nat, call: Call, stored: int, pruned: int): (w': World)
    requires w.past != []
    ensures w'.past != []
  {
    match call
    case HasRead(key, ttl, since, Ok(value), at) =>
      w.(cache := AfterFill(w.cache, key, value, ttl, stored, pruned),
         calls := w.calls - {id},
         fills := w.fills + [Fill(key, value, stored, ttl, since, at)],
         given := w.given + [FromBackend(key, value, since, at)])
    case HasRead(_, _, _, Err(_), _) => w.(calls := w.calls - {id})
    case HasWritten(key, error) =>
      w.(cache := if error == None then Remove(w.cache, key) else w.cache, calls := w.calls - {id})
    case Reading(_, _, _) => w
    case Writing(_, _) => w
  }

  function After(w: World, run: seq<Step>): (w': World)
    requires w.past != []
    ensures w'.past != []
  {
    if run == [] then w else Next(After(w, run[..|run| - 1]), run[|run| - 1])
  }

  // ---------- What every interleaving keeps ----------

  /** At instant `at` the backend held this value for this key. */
  ghost predicate WasStored(past: seq<Store>, at: nat, key: string, value: string) {
    at < |past| && key in past[at] && past[at][key] == value && value != ""
  }

  ghost predicate FillIsJustified(w: World, f: Fill) {
    f.since <= f.at && WasStored(w.past, f.at, f.key, f.value)
  }

  /** A returned value was the backend's value for the key: read during the call, or stored by a fill that
      came before the hit and is younger than its time to live. */
  ghost predicate ReturnIsJustified(w: World, r: Return) {
    match r
    case FromBackend(key, value, since, at) => since <= at && WasStored(w.past, at, key, value)
    case FromCache(key, value, now, filled) =>
      filled <= |w.fills| && exists i :: 0 <= i < filled && FillAnswers(w, w.fills[i], key, value, now)
  }

  ghost predicate FillAnswers(w: World, f: Fill, key: string, value: string, now: int) {
    && f.key == key && f.value == value && FillIsJustified(w, f)
    && now - f.stored < match f.ttl case Some(ms) => ms case None => 3600000
  }

  ghost predicate SlotIsJustified(w: World, s: Slot) {
    exists f :: f in w.fills && f.key == s.key && f.value == s.value && s.expiresAt == f.stored + TtlOf(f.ttl)
  }

  ghost predicate CallIsJustified(w: World, call: Call) {
    match call
    case Reading(_, _, since) => since < |w.past|
    case HasRead(key, _, since, answer, at) =>
      since <= at && (answer.Ok? ==> WasStored(w.past, at, key, answer.value))
    case Writing(_, _) => true
    case HasWritten(_, _) => true
  }

  ghost predicate Inv(w: World) {
    && w.past != []
    && UniqueKeys(w.cache) && |w.cache| <= MAX_ENTRIES
    && (forall s :: s in w.cache ==> SlotIsJustified(w, s))
    && (forall id :: id in w.calls ==> CallIsJustified(w, w.calls[id]))
    && (forall f :: f in w.fills ==> FillIsJustified(w, f))
    && (forall r :: r in w.given ==> ReturnIsJustified(w, r))
  }

  /** The history only grows. */
  ghost predicate Extends(w: World, w': World) {
    && |w.past| <= |w'.past| && w'.past[..|w.past|] == w.past
    && |w.fills| <= |w'.fills| && w'.fills[..|w.fills|] == w.fills
  }

  lemma StoredStays(w: World, w': World, at: nat, key: string, value: string)
    requires Extends(w, w') && WasStored(w.past, at, key, value)
    ensures WasStored(w'.past, at, key, value)
  {
    assert w'.past[at] == w'.past[..|w.past|][at];
  }

  lemma FillStays(w: World, w': World, f: Fill)
    requires Extends(w, w') && FillIsJustified(w, f)
    ensures FillIsJustified(w', f)
  {
    StoredStays(w, w', f.at, f.key, f.value);
  }

  lemma ReturnStays(w: World, w': World, r: Return)
    requires Extends(w, w') && ReturnIsJustified(w, r)
    ensures ReturnIsJustified(w', r)
  {
    match r
    case FromBackend(key, value, since, at) => StoredStays(w, w', at, key, value);
    case FromCache(key, value, now, filled) =>
      var i :| 0 <= i < filled && FillAnswers(w, w.fills[i], key, value, now);
      FillStays(w, w', w.fills[i]);
      assert w'.fills[i] == w'.fills[..|w.fills|][i];
  }

  lemma CallStays(w: World, w': World, call: Call)
    requires Extends(w, w') && CallIsJustified(w, call)
    ensures CallIsJustified(w', call)
  {
    if call.HasRead? && call.answer.Ok? {
      StoredStays(w, w', call.at, call.key, call.answer.value);
    }
  }

  /** Everything that was justified stays so; only what is new needs an argument. */
  lemma InvGrows(w: World, w': World)
    requires Inv(w) && Extends(w, w')
    requires UniqueKeys(w'.cache) && |w'.cache| <= MAX_ENTRIES
    requires forall s :: s in w'.cache ==> s in w.cache || SlotIsJustified(w', s)
    requires forall id :: id in w'.calls ==>
      (id in w.calls && w'.calls[id] == w.calls[id]) || CallIsJustified(w', w'.calls[id])
    requires forall f :: f in w'.fills ==> f in w.fills || FillIsJustified(w', f)
    requires forall r :: r in w'.given ==> r in w.given || ReturnIsJustified(w', r)
    ensures Inv(w')
  {
    forall s | s in w'.cache ensures SlotIsJustified(w', s) {
      if s in w.cache {
        var f :| f in w.fills && f.key == s.key && f.value == s.value && s.expiresAt == f.stored + TtlOf(f.ttl);
        var i :| 0 <= i < |w.fills| && w.fills[i] == f;
        assert w'.fills[i] == w'.fills[..|w.fills|][i];
      }
    }
    forall id | id in w'.calls ensures CallIsJustified(w', w'.calls[id]) {
      if id in w.calls && w'.calls[id] == w.calls[id] { CallStays(w, w', w.calls[id]); }
    }
    forall f | f in w'.fills ensures FillIsJustified(w', f) {
      if f in w.fills { FillStays(w, w', f); }
    }
    forall r | r in w'.given ensures ReturnIsJustified(w', r) {
      if r in w.given { ReturnStays(w, w', r); }
    }
  }

  lemma HitIsJustified(w: World, key: string, now: int)
    requires Inv(w) && IsHit(w.cache, key, now)
    ensures ReturnIsJustified(w, FromCache(key, Lookup(w.cache, key).value.value, now, |w.fills|))
  {
    var slot := Lookup(w.cache, key).value;
    var f :| f in w.fills && f.key == slot.key && f.value == slot.value && slot.expiresAt == f.stored + TtlOf(f.ttl);
    assert FillAnswers(w, f, key, slot.value, now);
    var i :| 0 <= i < |w.fills| && w.fills[i] == f;
  }

  lemma BeginKeepsInv(w: World, step: Step)
    requires Inv(w) && (step.BeginGet? || step.BeginWrite?)
    ensures Inv(Next(w, step))
  {
    var w' := Next(w, step);
    if step.BeginGet? && step.id !in w.calls {
      if IsHit(w.cache, step.key, step.now) {
        HitIsJustified(w, step.key, step.now);
        var r := FromCache(step.key, Lookup(w.cache, step.key).value.value, step.now, |w.fills|);
        ReturnStays(w, w', r);
      }
    }
    InvGrows(w, w');
  }

  lemma ActKeepsInv(w: World, id: nat, reachable: bool)
    requires Inv(w) && id in w.calls
    ensures Inv(Act(w, id, w.calls[id], reachable))
  {
    var w' := Act(w, id, w.calls[id], reachable);
    match w.calls[id] {
      case Reading(key, ttl, since) =>
        assert CallIsJustified(w, w.calls[id]);
        assert CallIsJustified(w', w'.calls[id]);
      case Writing(_, _) =>
        assert CallIsJustified(w', w'.calls[id]);
      case HasRead(_, _, _, _, _) =>
      case HasWritten(_, _) =>
    }
    InvGrows(w, w');
  }

  lemma FillKeepsSlots(w: World, w': World, id: nat, stored: int, pruned: int)
    requires Inv(w) && id in w.calls && w.calls[id].HasRead? && w.calls[id].answer.Ok?
    requires w' == GoOn(w, id, w.calls[id], stored, pruned)
    ensures UniqueKeys(w'.cache) && |w'.cache| <= MAX_ENTRIES
    ensures forall s :: s in w'.cache ==> s in w.cache || SlotIsJustified(w', s)
  {
    var call := w.calls[id];
    var slot := Slot(call.key, call.answer.value, stored + TtlOf(call.ttl));
    PutKeepsUnique(w.cache, slot);
    PutKeepsOthers(w.cache, slot);
    PrunedKeepsUnique(Put(w.cache, slot), MAX_ENTRIES, pruned);
    assert w'.fills[|w.fills|] == Fill(call.key, call.answer.value, stored, call.ttl, call.since, call.at);
    assert SlotIsJustified(w', slot);
  }

  lemma ResumeKeepsInv(w: World, id: nat, stored: int, pruned: int)
    requires Inv(w) && id in w.calls
    ensures Inv(GoOn(w, id, w.calls[id], stored, pruned))
  {
    var w' := GoOn(w, id, w.calls[id], stored, pruned);
    var call := w.calls[id];
    assert CallIsJustified(w, call);
    if call.HasRead? && call.answer.Ok? {
      FillKeepsSlots(w, w', id, stored, pruned);
      InvGrows(w, w');
    } else {
      RemoveKeepsOthers(w.cache, call.key);
      InvGrows(w, w');
    }
  }

  lemma ClearKeepsInv(w: World, key: Option<string>)
    requires Inv(w)
    ensures Inv(w.(cache := AfterClear(w.cache, key)))
  {
    if key.Some? { RemoveKeepsOthers(w.cache, key.value); }
    InvGrows(w, w.(cache := AfterClear(w.cache, key)));
  }

  lemma StepKeepsInv(w: World, step: Step)
    requires Inv(w)
    ensures Inv(Next(w, step))
  {
    match step
    case BeginGet(_, _, _, _, _) => BeginKeepsInv(w, step);
    case BeginWrite(_, _, _) => BeginKeepsInv(w, step);
    case BackendActs(id, reachable) => if id in w.calls { ActKeepsInv(w, id, reachable); }
    case Resume(id, stored, pruned) => if id in w.calls { ResumeKeepsInv(w, id, stored, pruned); }
    case Clear(key) => ClearKeepsInv(w, key);
    case BackendChanges(kv) => InvGrows(w, Next(w, step));
  }

  lemma {:induction false} RunKeepsInv(platform: Platform, kv: Store, run: seq<Step>)
    ensures Inv(After(Start(platform, kv), run))
  {
    if run != [] {
      RunKeepsInv(platform, kv, run[..|run| - 1]);
      StepKeepsInv(After(Start(platform, kv), run[..|run| - 1]), run[|run| - 1]);
    }
  }

  /** Provenance and bounded staleness, for every interleaving: whatever `getSecret` returned was the
      backend's value for that key at some instant, and a cached value was stored before the hit by a fill
      that is younger than its time to live. */
  lemma EveryReturnIsJustified(platform: Platform, kv: Store, run: seq<Step>, r: Return)
    requires r in After(Start(platform, kv), run).given
    ensures ReturnIsJustified(After(Start(platform, kv), run), r)
    ensures exists at :: WasStored(After(Start(platform, kv), run).past, at, r.key, r.value)
  {
    RunKeepsInv(platform, kv, run);
    var w := After(Start(platform, kv), run);
    assert ReturnIsJustified(w, r);
    if r.FromCache? {
      var i :| 0 <= i < r.filled && FillAnswers(w, w.fills[i], r.key, r.value, r.now);
      assert WasStored(w.past, w.fills[i].at, r.key, r.value);
    } else {
      assert WasStored(w.past, r.at, r.key, r.value);
    }
  }

  /** The size bound, at every await of every interleaving; so the prune that begins a miss is idle. */
  lemma EveryCacheIsBounded(platform: Platform, kv: Store, run: seq<Step>, now: int)
    ensures var c := After(Start(platform, kv), run).cache;
            |c| <= 500 && AfterMiss(c, now) == c
  {
    RunKeepsInv(platform, kv, run);
    FirstPruneIsIdle(After(Start(platform, kv), run).cache, now);
  }

  // ---------- What no interleaving promises ----------

  /** A read that overlaps a set can bring back the old value after the set has invalidated it: with no
      call left in flight, the cache answers `old` while the backend holds `new`. */
  lemma OverlappingSetLeavesAStaleValue(key: string, old': string, new': string)
    requires old' != "" && old' != new'
    ensures var w := After(Start(Cloudflare(true), map[key := old']),
              [BeginGet(0, key, None, 0, 0), BackendActs(0, true), BeginWrite(1, key, Some(new')),
               BackendActs(1, true), Resume(1, 0, 0), Resume(0, 0, 0), BeginGet(2, key, None, 1, 1)]);
            && w.calls == map[]
            && w.given == [FromBackend(key, old', 0, 0), FromCache(key, old', 1, 1)]
            && Current(w) == map[key := new']
  {
    var w0 := Start(Cloudflare(true), map[key := old']);
    var run := [BeginGet(0, key, None, 0, 0), BackendActs(0, true), BeginWrite(1, key, Some(new')),
                BackendActs(1, true), Resume(1, 0, 0), Resume(0, 0, 0), BeginGet(2, key, None, 1, 1)];
    AfterSeven(w0, run);
    OldValueIsRead(key, old', w0);
    NewValueIsSet(key, old', new', Next(Next(w0, run[0]), run[1]));
    OldValueReturns(key, old', new', Next(Next(Next(Next(Next(w0, run[0]), run[1]), run[2]), run[3]), run[4]));
  }

  /** The read has its answer and has not gone on. */
  lemma OldValueIsRead(key: string, old': string, w: World)
    requires old' != "" && w == Start(Cloudflare(true), map[key := old'])
    ensures Next(Next(w, BeginGet(0, key, None, 0, 0)), BackendActs(0, true))
            == w.(calls := map[0 := HasRead(key, None, 0, Ok(old'), 0)])
  {
    var w1 := Next(w, BeginGet(0, key, None, 0, 0));
    assert w1 == w.(calls := map[0 := Reading(key, None, 0)]);
    assert map[0 := Reading(key, None, 0)][0 := HasRead(key, None, 0, Ok(old'), 0)]
           == map[0 := HasRead(key, None, 0, Ok(old'), 0)];
  }

  /** Meanwhile a whole set takes place. */
  lemma NewValueIsSet(key: string, old': string, new': string, w: World)
    requires w.platform == Cloudflare(true) && w.past == [map[key := old']] && w.cache == []
    requires w.calls == map[0 := HasRead(key, None, 0, Ok(old'), 0)]
    ensures Next(Next(Next(w, BeginWrite(1, key, Some(new'))), BackendActs(1, true)), Resume(1, 0, 0))
            == w.(past := [map[key := old'], map[key := new']])
  {
    var w1 := Next(w, BeginWrite(1, key, Some(new')));
    var w2 := Next(w1, BackendActs(1, true));
    assert map[key := old'][key := new'] == map[key := new'];
    assert w2.past == [map[key := old'], map[key := new']];
    assert w2.calls - {1} == w.calls;
    assert Remove([], key) == [];
  }

  /** The read goes on, and its value is answered from then on. */
  lemma OldValueReturns(key: string, old': string, new': string, w: World)
    requires w.cache == [] && w.given == [] && w.fills == [] && w.past == [map[key := old'], map[key := new']]
    requires w.calls == map[0 := HasRead(key, None, 0, Ok(old'), 0)]
    ensures var w' := Next(Next(w, Resume(0, 0, 0)), BeginGet(2, key, None, 1, 1));
            && w'.calls == map[] && w'.past == w.past
            && w'.given == [FromBackend(key, old', 0, 0), FromCache(key, old', 1, 1)]
  {
    var w1 := Next(w, Resume(0, 0, 0));
    assert w1.cache == [Slot(key, old', DEFAULT_TTL)];
    assert w1.calls == map[];
  }

  lemma AfterSeven(w: World, run: seq<Step>)
    requires w.past != [] && |run| == 7
    ensures After(w, run)
            == Next(Next(Next(Next(Next(Next(Next(w, run[0]), run[1]), run[2]), run[3]), run[4]), run[5]), run[6])
  {
    assert run[..6][..5] == run[..5] && run[..5][..4] == run[..4] && run[..4][..3] == run[..3];
    assert run[..3][..2] == run[..2] && run[..2][..1] == run[..1] && run[..1][..0] == [];
    assert After(w, run[..1]) == Next(w, run[0]);
    assert After(w, run[..2]) == Next(After(w, run[..1]), run[1]);
    assert After(w, run[..3]) == Next(After(w, run[..2]), run[2]);
    assert After(w, run[..4]) == Next(After(w, run[..3]), run[3]);
    assert After(w, run[..5]) == Next(After(w, run[..4]), run[4]);
    assert After(w, run[..6]) == Next(After(w, run[..5]), run[5]);
  }
}
