/** Calls that do not overlap: a secrets manager with its cache answers like one without.

    The backend is changed only by these calls (no expiry, no other writer), a failed put or delete
    changes nothing, and clock readings and times to live are arbitrary. */
module SecretsTransparency {
  import opened Text
  import opened SecretsCache
  import opened SecretsRuns

  /** A whole call with everything its environment decides: whether the KV requests it makes succeed,
      and what the clock reads at the lookup, at the first prune, at the fill and at the second prune. */
  datatype Op =
    | Get(key: string, ttl: Option<int>, reachable: bool, clock: (int, int, int, int))
    | Write(key: string, value: Option<string>, reachable: bool)
    | Clear(only: Option<string>)

  datatype Result = Value(value: string) | Failed(error: Error) | Done

  datatype Manager = Manager(kv: Store, cache: Cache)

  function ResultOf(answer: Answer): Result {
    match answer
    case Ok(value) => Value(value)
    case Err(error) => Failed(error)
  }

  function WriteResult(error: Option<Error>): Result {
    match error
    case None => Done
    case Some(e) => Failed(e)
  }

  /** The call with the cache: its segments one after the other, nothing in between. */
  function Call(platform: Platform, m: Manager, op: Op): (Manager, Result) {
    match op
    case Get(key, ttl, reachable, clock) =>
      if IsHit(m.cache, key, clock.0) then (m, Value(Lookup(m.cache, key).value.value))
      else
        var cache := AfterMiss(m.cache, clock.1);
        var answer := ReadAnswer(platform, m.kv, key, reachable);
        (Manager(m.kv, match answer
                       case Ok(value) => AfterFill(cache, key, value, ttl, clock.2, clock.3)
                       case Err(_) => cache),
         ResultOf(answer))
    case Write(key, value, reachable) =>
      var error := WriteError(platform, reachable);
      (if error == None then Manager(Overwrite(m.kv, key, value), Remove(m.cache, key)) else m, WriteResult(error))
    case Clear(only) => (Manager(m.kv, AfterClear(m.cache, only)), Done)
  }

  /** The call of a manager that has no cache. */
  function DirectCall(platform: Platform, kv: Store, op: Op): (Store, Result) {
    match op
    case Get(key, _, reachable, _) => (kv, ResultOf(ReadAnswer(platform, kv, key, reachable)))
    case Write(key, value, reachable) =>
      var error := WriteError(platform, reachable);
      (if error == None then Overwrite(kv, key, value) else kv, WriteResult(error))
    case Clear(_) => (kv, Done)
  }

  function CallAll(platform: Platform, m: Manager, ops: seq<Op>): (Manager, seq<Result>)
    decreases |ops|
  {
    if ops == [] then (m, [])
    else
      var (m', r) := Call(platform, m, ops[0]);
      var (m'', rs) := CallAll(platform, m', ops[1..]);
      (m'', [r] + rs)
  }

  function DirectCallAll(platform: Platform, kv: Store, ops: seq<Op>): (Store, seq<Result>)
    decreases |ops|
  {
    if ops == [] then (kv, [])
    else
      var (kv', r) := DirectCall(platform, kv, ops[0]);
      var (kv'', rs) := DirectCallAll(platform, kv', ops[1..]);
      (kv'', [r] + rs)
  }

  /** What the three segments of a call give its caller: the value of a hit, or what the call learned from
      the backend and holds when it goes on. */
  ghost predicate Gives(before: World, during: World, after: World, op: Op, id: nat, result: Result)
    requires before.past != []
  {
    match op
    case Get(key, _, _, clock) =>
      if IsHit(before.cache, key, clock.0) then
        && result.Value? && after.given == before.given + [FromCache(key, result.value, clock.0, |before.fills|)]
      else
        && id in during.calls && during.calls[id].HasRead? && result == ResultOf(during.calls[id].answer)
        && after.given == before.given
                          + if result.Value? then [FromBackend(key, result.value, |before.past| - 1, |before.past| - 1)]
                            else []
    case Write(_, _, _) =>
      id in during.calls && during.calls[id].HasWritten? && result == WriteResult(during.calls[id].error)
    case Clear(_) => result == Done
  }

  /** The calls above are runs of the interleaved system in which nothing comes between: the same backend,
      the same cache, and the same value or error for the caller. */
  lemma CallIsARun(w: World, op: Op, id: nat)
    requires w.past != [] && w.calls == map[]
    ensures var m := Manager(Current(w), w.cache);
            var (m', r) := Call(w.platform, m, op);
            var during := match op
                          case Get(key, ttl, reachable, clock) =>
                            Next(Next(w, BeginGet(id, key, ttl, clock.0, clock.1)), BackendActs(id, reachable))
                          case Write(key, value, reachable) =>
                            Next(Next(w, BeginWrite(id, key, value)), BackendActs(id, reachable))
                          case Clear(only) => w;
            var w' := match op
                      case Get(_, _, _, clock) => Next(during, Resume(id, clock.2, clock.3))
                      case Write(_, _, _) => Next(during, Resume(id, 0, 0))
                      case Clear(only) => Next(during, SecretsRuns.Step.Clear(only));
            && w'.calls == map[] && m' == Manager(Current(w'), w'.cache) && Gives(w, during, w', op, id, r)
  {
    match op
    case Get(key, ttl, reachable, clock) => GetIsARun(w, key, ttl, reachable, clock, id);
    case Write(key, value, reachable) => WriteIsARun(w, key, value, reachable, id);
    case Clear(only) =>
  }

  lemma GetIsARun(w: World, key: string, ttl: Option<int>, reachable: bool, clock: (int, int, int, int), id: nat)
    requires w.past != [] && w.calls == map[]
    ensures var (m', r) := Call(w.platform, Manager(Current(w), w.cache), Get(key, ttl, reachable, clock));
            var during := Next(Next(w, BeginGet(id, key, ttl, clock.0, clock.1)), BackendActs(id, reachable));
            var w' := Next(during, Resume(id, clock.2, clock.3));
            && w'.calls == map[] && m' == Manager(Current(w'), w'.cache)
            && Gives(w, during, w', Get(key, ttl, reachable, clock), id, r)
  {
    hide Pruned, Put, Lookup, Remove, ReadAnswer, Overwrite;
    if !IsHit(w.cache, key, clock.0) {
      var w1 := Next(w, BeginGet(id, key, ttl, clock.0, clock.1));
      OnlyCall(id, Reading(key, ttl, |w.past| - 1), w1.calls);
      OnlyCall(id, HasRead(key, ttl, |w.past| - 1, ReadAnswer(w.platform, Current(w), key, reachable), |w.past| - 1),
               Next(w1, BackendActs(id, reachable)).calls);
    }
  }

  lemma WriteIsARun(w: World, key: string, value: Option<string>, reachable: bool, id: nat)
    requires w.past != [] && w.calls == map[]
    ensures var (m', r) := Call(w.platform, Manager(Current(w), w.cache), Write(key, value, reachable));
            var during := Next(Next(w, BeginWrite(id, key, value)), BackendActs(id, reachable));
            var w' := Next(during, Resume(id, 0, 0));
            && w'.calls == map[] && m' == Manager(Current(w'), w'.cache)
            && Gives(w, during, w', Write(key, value, reachable), id, r)
  {
    hide Pruned, Put, Lookup, Remove, ReadAnswer, Overwrite;
    OnlyCall(id, Writing(key, value), Next(w, BeginWrite(id, key, value)).calls);
    OnlyCall(id, HasWritten(key, WriteError(w.platform, reachable)),
             Next(Next(w, BeginWrite(id, key, value)), BackendActs(id, reachable)).calls);
  }

  lemma OnlyCall(id: nat, call: SecretsRuns.Call, calls: map<nat, SecretsRuns.Call>)
    requires id in calls && calls[id] == call && calls.Keys == {id}
    ensures calls == map[id := call] && calls - {id} == map[]
  {
  }

  // ---------- Coherence ----------

  /** Every cached value is what the backend holds now, and what a read that gets through returns. */
  ghost predicate Coherent(platform: Platform, m: Manager) {
    && UniqueKeys(m.cache)
    && forall s :: s in m.cache ==> ReadAnswer(platform, m.kv, s.key, true) == Ok(s.value)
  }

  lemma FillKeepsCoherence(platform: Platform, m: Manager, slot: Slot, now: int)
    requires Coherent(platform, m)
    requires ReadAnswer(platform, m.kv, slot.key, true) == Ok(slot.value)
    ensures Coherent(platform, m.(cache := Pruned(Put(m.cache, slot), MAX_ENTRIES, now)))
  {
    PutKeepsUnique(m.cache, slot);
    PutKeepsOthers(m.cache, slot);
    PrunedKeepsUnique(Put(m.cache, slot), MAX_ENTRIES, now);
  }

  lemma CallKeepsCoherence(platform: Platform, m: Manager, op: Op)
    requires Coherent(platform, m)
    ensures Coherent(platform, Call(platform, m, op).0)
  {
    match op
    case Get(key, ttl, reachable, clock) => GetKeepsCoherence(platform, m, key, ttl, reachable, clock);
    case Write(key, value, reachable) => RemoveKeepsOthers(m.cache, key);
    case Clear(only) => if only.Some? { RemoveKeepsOthers(m.cache, only.value); }
  }

  lemma GetKeepsCoherence(platform: Platform, m: Manager, key: string, ttl: Option<int>, reachable: bool,
                          clock: (int, int, int, int))
    requires Coherent(platform, m)
    ensures Coherent(platform, Call(platform, m, Get(key, ttl, reachable, clock)).0)
  {
    hide *;
    MissKeepsCoherence(platform, m, clock.1);
    var answer := ReadAnswer(platform, m.kv, key, reachable);
    if answer.Ok? {
      GotThrough(platform, m.kv, key, reachable);
      FillKeepsCoherence(platform, Manager(m.kv, AfterMiss(m.cache, clock.1)),
                         Slot(key, answer.value, clock.2 + TtlOf(ttl)), clock.3);
    }
    GetCases(platform, m, key, ttl, reachable, clock);
  }

  lemma GotThrough(platform: Platform, kv: Store, key: string, reachable: bool)
    requires ReadAnswer(platform, kv, key, reachable).Ok?
    ensures ReadAnswer(platform, kv, key, true) == ReadAnswer(platform, kv, key, reachable)
  {
  }

  /** A read hits, fails, or fills. */
  lemma GetCases(platform: Platform, m: Manager, key: string, ttl: Option<int>, reachable: bool,
                 clock: (int, int, int, int))
    ensures var m' := Call(platform, m, Get(key, ttl, reachable, clock)).0;
            var missed := AfterMiss(m.cache, clock.1);
            var answer := ReadAnswer(platform, m.kv, key, reachable);
            || m' == m
            || m' == m.(cache := missed)
            || (answer.Ok?
                && m' == m.(cache := Pruned(Put(missed, Slot(key, answer.value, clock.2 + TtlOf(ttl))),
                                            MAX_ENTRIES, clock.3)))
  {
  }

  lemma MissKeepsCoherence(platform: Platform, m: Manager, now: int)
    requires Coherent(platform, m)
    ensures Coherent(platform, m.(cache := AfterMiss(m.cache, now)))
  {
    PrunedKeepsUnique(m.cache, MAX_ENTRIES, now);
  }

  /** The one difference a cache can make: it answers a read whose KV request would have failed. */
  predicate MasksOutage(platform: Platform, m: Manager, op: Op) {
    && op.Get? && platform == Cloudflare(true) && !op.reachable
    && IsHit(m.cache, op.key, op.clock.0)
  }

  lemma CallIsTransparent(platform: Platform, m: Manager, op: Op)
    requires Coherent(platform, m)
    ensures Call(platform, m, op).0.kv == DirectCall(platform, m.kv, op).0
    ensures Call(platform, m, op).1 == DirectCall(platform, m.kv, op).1 <==> !MasksOutage(platform, m, op)
    ensures MasksOutage(platform, m, op) ==>
      Call(platform, m, op).1 == ResultOf(ReadAnswer(platform, m.kv, op.key, true))
  {
    if op.Get? && IsHit(m.cache, op.key, op.clock.0) {
      assert ReadAnswer(platform, m.kv, op.key, true) == Ok(Lookup(m.cache, op.key).value.value);
    }
  }

  ghost predicate NoOutageMasked(platform: Platform, m: Manager, ops: seq<Op>)
    decreases |ops|
  {
    ops != [] ==>
      && !MasksOutage(platform, m, ops[0])
      && NoOutageMasked(platform, Call(platform, m, ops[0]).0, ops[1..])
  }

  /** Every run of calls that do not overlap gives the results, the errors and the backend of a manager
      without a cache, exactly when no call is answered from the cache during an outage. */
  lemma {:induction false} RunsAreTransparent(platform: Platform, m: Manager, ops: seq<Op>)
    requires Coherent(platform, m)
    ensures CallAll(platform, m, ops).0.kv == DirectCallAll(platform, m.kv, ops).0
    ensures CallAll(platform, m, ops).1 == DirectCallAll(platform, m.kv, ops).1
            <==> NoOutageMasked(platform, m, ops)
    decreases |ops|
  {
    if ops != [] {
      var (m', r) := Call(platform, m, ops[0]);
      var (kv', d) := DirectCall(platform, m.kv, ops[0]);
      CallKeepsCoherence(platform, m, ops[0]);
      CallIsTransparent(platform, m, ops[0]);
      RunsAreTransparent(platform, m', ops[1..]);
      HeadAndTail(r, CallAll(platform, m', ops[1..]).1, d, DirectCallAll(platform, kv', ops[1..]).1);
    }
  }

  lemma HeadAndTail(a: Result, s: seq<Result>, b: Result, t: seq<Result>)
    ensures [a] + s == [b] + t <==> a == b && s == t
  {
    assert ([a] + s)[0] == a && ([b] + t)[0] == b;
    assert ([a] + s)[1..] == s && ([b] + t)[1..] == t;
  }

  /** In particular, when every KV request gets through, no client can tell that there is a cache. */
  lemma TransparentWhileReachable(platform: Platform, kv: Store, ops: seq<Op>)
    requires forall i :: 0 <= i < |ops| ==> ops[i].Get? ==> ops[i].reachable
    ensures CallAll(platform, Manager(kv, []), ops).1 == DirectCallAll(platform, kv, ops).1
  {
    ReachableMasksNothing(platform, Manager(kv, []), ops);
    RunsAreTransparent(platform, Manager(kv, []), ops);
  }

  lemma {:induction false} ReachableMasksNothing(platform: Platform, m: Manager, ops: seq<Op>)
    requires forall i :: 0 <= i < |ops| ==> ops[i].Get? ==> ops[i].reachable
    ensures NoOutageMasked(platform, m, ops)
    decreases |ops|
  {
    if ops != [] {
      ReachableMasksNothing(platform, Call(platform, m, ops[0]).0, ops[1..]);
    }
  }

  // ---------- What a write is for ----------

  /** A write succeeds exactly on a reachable KV namespace; where it fails nothing has changed. */
  lemma WriteSucceedsExactlyWhen(platform: Platform, m: Manager, key: string, value: Option<string>, reachable: bool)
    ensures var (m', r) := Call(platform, m, Write(key, value, reachable));
            && (r == Done <==> platform == Cloudflare(true) && reachable)
            && (r != Done ==> r.Failed? && m' == m)
            && (r == Done ==> forall k :: k != key ==> Find(m'.kv, k) == Find(m.kv, k))
  {
  }

  /** After a set, a get returns the value that was set; after a delete, or after setting an empty value, the
      key is not found.  The gets of other keys are not affected. */
  lemma GetAfterWrite(m: Manager, key: string, value: Option<string>, ttl: Option<int>, clock: (int, int, int, int),
                      k: string, reachable: bool)
    requires UniqueKeys(m.cache) && |m.cache| <= 500
    ensures var written := Call(Cloudflare(true), m, Write(key, value, true)).0;
            && Call(Cloudflare(true), written, Get(key, ttl, true, clock)).1
               == (match value case Some(v) => if v == "" then Failed(NotFound) else Value(v)
                   case None => Failed(NotFound))
            && (k != key ==> Call(Cloudflare(true), written, Get(k, ttl, reachable, clock)).1
                             == Call(Cloudflare(true), m, Get(k, ttl, reachable, clock)).1)
  {
    RemoveLeavesOthers(m.cache, key);
    var written := Call(Cloudflare(true), m, Write(key, value, true)).0;
    assert written == Manager(Overwrite(m.kv, key, value), Remove(m.cache, key));
    hide Remove, Pruned, Put, Lookup, Others, UniqueKeys;
  }

  /** A get that the cache cannot answer: each platform's answer. */
  lemma MissAnswersTheBackend(platform: Platform, m: Manager, key: string, ttl: Option<int>, reachable: bool,
                              clock: (int, int, int, int))
    requires !IsHit(m.cache, key, clock.0)
    ensures var r := Call(platform, m, Get(key, ttl, reachable, clock)).1;
            && (platform == Aws ==> r == Failed(Unavailable))
            && (platform == Cloudflare(false) ==> r == Failed(NotConfigured))
            && (platform == Cloudflare(true) && !reachable ==> r == Failed(Rejected))
            && (platform == Deno || platform == Local || (platform == Cloudflare(true) && reachable) ==>
                  r == if key in m.kv && m.kv[key] != "" then Value(m.kv[key]) else Failed(NotFound))
  {
    hide Pruned, Put, Lookup;
  }
}
