/** The in-memory sliding-window rate limiter of app/Middleware/index.ts.

    The filter, the test, the push and the store all happen before the only `await`, so one
    request is one atomic step on `requestCounts`.  The log kept for a client is pruned only when
    that client is admitted; the lemmas below say exactly when this lazily pruned log decides as the
    full history of admissions would, and that then no window holds more than 100 admissions.  A clock
    that never steps back is one case of it. */
module RateLimiter {
  import opened Text

  const WINDOW_MS := 60 * 1000
  const MAX_REQUESTS := 100

  /** A request: the remote address of the socket (it may be absent) and the clock reading. */
  datatype Request = Request(address: Option<string>, time: int)

  type Store = map<string, seq<int>>

  function ClientOf(address: Option<string>): string {
    match address
    case Some(ip) => ip
    case None => "unknown"
  }

  /** The times of `log` that the filter of the middleware keeps at clock reading `now`. */
  function Recent(log: seq<int>, now: int): (kept: seq<int>)
    ensures |kept| <= |log|
    ensures forall t :: t in kept <==> t in log && now - t < WINDOW_MS
  {
    if log == [] then []
    else
      var last := log[|log| - 1];
      var kept := Recent(log[..|log| - 1], now);
      assert log == log[..|log| - 1] + [last];
      if now - last < WINDOW_MS then kept + [last] else kept
  }

  function LogOf(store: Store, ip: string): seq<int> {
    if ip in store then store[ip] else []
  }

  predicate Admits(store: Store, r: Request) {
    |Recent(LogOf(store, ClientOf(r.address)), r.time)| < MAX_REQUESTS
  }

  function Serve(store: Store, r: Request): Store {
    var ip := ClientOf(r.address);
    var recent := Recent(LogOf(store, ip), r.time);
    if |recent| < MAX_REQUESTS then store[ip := recent + [r.time]] else store[ip := LogOf(store, ip)]
  }

  class Limiter {
    var requestCounts: Store

    constructor ()
      ensures requestCounts == map[]
    {
      requestCounts := map[];
    }

    /** One pass through the middleware; `admitted` is false when it answers 429. */
    method Handle(address: Option<string>, now: int) returns (admitted: bool)
      modifies this
      ensures admitted <==> Admits(old(requestCounts), Request(address, now))
      ensures requestCounts == Serve(old(requestCounts), Request(address, now))
    {
      var ip := ClientOf(address);
      if ip !in requestCounts {
        requestCounts := requestCounts[ip := []];
      }
      var recentRequests := Recent(requestCounts[ip], now);
      if |recentRequests| >= MAX_REQUESTS {
        return false;
      }
      recentRequests := recentRequests + [now];
      requestCounts := requestCounts[ip := recentRequests];
      return true;
    }
  }

  // ---------- Whole runs ----------

  /** The store after a sequence of requests, starting from the empty map. */
  function StoreAfter(reqs: seq<Request>): Store {
    if reqs == [] then map[] else Serve(StoreAfter(reqs[..|reqs| - 1]), reqs[|reqs| - 1])
  }

  /** The times at which client `ip` was admitted in the run, in order: nothing is ever pruned here. */
  function AdmittedTimes(reqs: seq<Request>, ip: string): seq<int> {
    if reqs == [] then []
    else
      var before, r := reqs[..|reqs| - 1], reqs[|reqs| - 1];
      if ClientOf(r.address) == ip && Admits(StoreAfter(before), r)
      then AdmittedTimes(before, ip) + [r.time] else AdmittedTimes(before, ip)
  }

  /** How many times lie in the half-open window from `lo` to `hi`. */
  function CountIn(times: seq<int>, lo: int, hi: int): nat {
    if times == [] then 0
    else
      var last := times[|times| - 1];
      CountIn(times[..|times| - 1], lo, hi) + if lo <= last < hi then 1 else 0
  }

  ghost predicate ClockNeverStepsBack(reqs: seq<Request>) {
    forall i, j :: 0 <= i < j < |reqs| ==> reqs[i].time <= reqs[j].time
  }

  // ---------- Steps of a run ----------

  lemma {:induction false} PruningTwice(log: seq<int>, early: int, late: int)
    requires early <= late
    ensures Recent(Recent(log, early), late) == Recent(log, late)
  {
    if log != [] {
      var last, front := log[|log| - 1], log[..|log| - 1];
      PruningTwice(front, early, late);
      if early - last < WINDOW_MS {
        assert (Recent(front, early) + [last])[..|Recent(front, early)|] == Recent(front, early);
      }
    }
  }

  lemma {:induction false} RecentOfAppend(log: seq<int>, t: int, now: int)
    ensures Recent(log + [t], now) == Recent(log, now) + if now - t < WINDOW_MS then [t] else []
  {
    assert (log + [t])[..|log|] == log;
  }

  /** What one more request does to the log and the admissions of a client. */
  lemma OneMore(reqs: seq<Request>, r: Request, ip: string)
    ensures var log := LogOf(StoreAfter(reqs), ip);
            if ClientOf(r.address) == ip && |Recent(log, r.time)| < MAX_REQUESTS then
              && LogOf(StoreAfter(reqs + [r]), ip) == Recent(log, r.time) + [r.time]
              && AdmittedTimes(reqs + [r], ip) == AdmittedTimes(reqs, ip) + [r.time]
            else
              && LogOf(StoreAfter(reqs + [r]), ip) == log
              && AdmittedTimes(reqs + [r], ip) == AdmittedTimes(reqs, ip)
  {
    hide Recent;
    assert (reqs + [r])[..|reqs|] == reqs;
  }

  // ---------- Any clock: what the stored log has forgotten ----------

  /** A log that is pruned at every admission, and only then. */
  function Kept(history: seq<int>): seq<int> {
    if history == [] then []
    else
      var last := history[|history| - 1];
      Recent(Kept(history[..|history| - 1]), last) + [last]
  }

  /** The stored log, for any clock. */
  lemma {:induction false} StoredLogIsKept(reqs: seq<Request>, ip: string)
    ensures LogOf(StoreAfter(reqs), ip) == Kept(AdmittedTimes(reqs, ip))
  {
    if reqs != [] {
      var before, r := reqs[..|reqs| - 1], reqs[|reqs| - 1];
      StoredLogIsKept(before, ip);
      OneMore(before, r, ip);
      assert before + [r] == reqs;
      var history := AdmittedTimes(before, ip);
      assert (history + [r.time])[..|history|] == history;
      hide Recent, StoreAfter, AdmittedTimes;
    }
  }

  /** Some later admission came at least a whole window after admission `i`. */
  ghost predicate Outlived(history: seq<int>, i: nat) {
    exists j :: i < j < |history| && history[j] - history[i] >= WINDOW_MS
  }

  /** The admissions that no later one outlives. */
  ghost function NotOutlived(history: seq<int>): seq<int> {
    if history == [] then []
    else (if Outlived(history, 0) then [] else [history[0]]) + NotOutlived(history[1..])
  }

  lemma OutlivedInTail(history: seq<int>, i: nat)
    requires i < |history| - 1
    ensures Outlived(history, i + 1) <==> Outlived(history[1..], i)
  {
    var tail := history[1..];
    if Outlived(history, i + 1) {
      var j :| i + 1 < j < |history| && history[j] - history[i + 1] >= WINDOW_MS;
      assert tail[j - 1] - tail[i] >= WINDOW_MS;
    }
    if Outlived(tail, i) {
      var j :| i < j < |tail| && tail[j] - tail[i] >= WINDOW_MS;
      assert history[j + 1] - history[i + 1] >= WINDOW_MS;
    }
  }

  lemma OutlivedByNext(history: seq<int>, t: int, i: nat)
    requires i < |history|
    ensures Outlived(history + [t], i) <==> Outlived(history, i) || t - history[i] >= WINDOW_MS
  {
    var all := history + [t];
    if Outlived(history, i) {
      var j :| i < j < |history| && history[j] - history[i] >= WINDOW_MS;
      assert all[j] - all[i] >= WINDOW_MS;
    }
    if t - history[i] >= WINDOW_MS { assert all[|history|] - all[i] >= WINDOW_MS; }
    if Outlived(all, i) {
      var j :| i < j < |all| && all[j] - all[i] >= WINDOW_MS;
      assert j < |history| ==> history[j] - history[i] >= WINDOW_MS;
    }
  }

  lemma {:induction false} RecentConcat(a: seq<int>, b: seq<int>, now: int)
    ensures Recent(a + b, now) == Recent(a, now) + Recent(b, now)
  {
    if b == [] {
      assert a + b == a;
    } else {
      var front, last := b[..|b| - 1], b[|b| - 1];
      assert (a + b)[..|a + b| - 1] == a + front;
      RecentConcat(a, front, now);
    }
  }

  lemma {:induction false} NotOutlivedByNext(history: seq<int>, t: int)
    ensures NotOutlived(history + [t]) == Recent(NotOutlived(history), t) + [t]
  {
    if history == [] {
      assert [t][1..] == [];
    } else {
      var x, tail := history[0], history[1..];
      NotOutlivedByNext(tail, t);
      hide Outlived, Recent;
      OutlivedByNext(history, t, 0);
      assert (history + [t])[1..] == tail + [t] && (history + [t])[0] == x;
      RecentOfHead(history, t);
    }
  }

  lemma RecentOfOne(x: int, now: int)
    ensures Recent([x], now) == if now - x < WINDOW_MS then [x] else []
    ensures Recent([], now) == []
  {
  }

  /** Pruning at every admission keeps just the admissions that no later one outlives. */
  lemma {:induction false} KeptIsNotOutlived(history: seq<int>)
    ensures Kept(history) == NotOutlived(history)
  {
    if history != [] {
      var front, last := history[..|history| - 1], history[|history| - 1];
      KeptIsNotOutlived(front);
      NotOutlivedByNext(front, last);
      assert front + [last] == history;
    }
  }

  /** At reading `now` the filter would let an admission pass that the stored log no longer has. */
  ghost predicate Forgets(history: seq<int>, now: int) {
    exists i: nat :: i < |history| && now - history[i] < WINDOW_MS && Outlived(history, i)
  }

  lemma ForgetsInTail(history: seq<int>, now: int)
    requires history != []
    ensures Forgets(history, now)
            <==> (now - history[0] < WINDOW_MS && Outlived(history, 0)) || Forgets(history[1..], now)
  {
    var tail := history[1..];
    if Forgets(history, now) {
      var i: nat :| i < |history| && now - history[i] < WINDOW_MS && Outlived(history, i);
      if i > 0 {
        OutlivedInTail(history, i - 1);
        assert tail[i - 1] == history[i];
      }
    }
    if Forgets(tail, now) {
      var i: nat :| i < |tail| && now - tail[i] < WINDOW_MS && Outlived(tail, i);
      OutlivedInTail(history, i);
      assert history[i + 1] == tail[i];
    }
  }

  /** The first admission and the others. */
  lemma RecentOfHead(history: seq<int>, now: int)
    requires history != []
    ensures var x, tail := history[0], history[1..];
            && Recent(history, now) == (if now - x < WINDOW_MS then [x] else []) + Recent(tail, now)
            && Recent(NotOutlived(history), now)
               == (if now - x < WINDOW_MS && !Outlived(history, 0) then [x] else []) + Recent(NotOutlived(tail), now)
  {
    var x, tail := history[0], history[1..];
    hide Outlived, Recent;
    assert history == [x] + tail;
    RecentConcat([x], tail, now);
    RecentConcat(if Outlived(history, 0) then [] else [x], NotOutlived(tail), now);
    RecentOfOne(x, now);
  }

  lemma {:induction false} RecentOfNotOutlived(history: seq<int>, now: int)
    ensures |Recent(NotOutlived(history), now)| <= |Recent(history, now)|
    ensures Recent(NotOutlived(history), now) == Recent(history, now) <==> !Forgets(history, now)
  {
    if history != [] {
      var x, tail := history[0], history[1..];
      RecentOfNotOutlived(tail, now);
      hide Outlived, Recent, Forgets;
      ForgetsInTail(history, now);
      RecentOfHead(history, now);
      var a, b := Recent(NotOutlived(tail), now), Recent(tail, now);
      SamePrefix([x], a, b);
      assert [] + a == a && [] + b == b;
    }
  }

  lemma SamePrefix(p: seq<int>, a: seq<int>, b: seq<int>)
    ensures p + a == p + b <==> a == b
  {
    assert (p + a)[|p|..] == a && (p + b)[|p|..] == b;
  }

  /** For any clock: at reading `now` the stored log shows the same recent admissions as the whole history
      if and only if none of them was outlived by a later admission. */
  lemma SeesTheWholeHistoryExactlyWhen(reqs: seq<Request>, ip: string, now: int)
    ensures Recent(LogOf(StoreAfter(reqs), ip), now) == Recent(AdmittedTimes(reqs, ip), now)
            <==> !Forgets(AdmittedTimes(reqs, ip), now)
    ensures |Recent(LogOf(StoreAfter(reqs), ip), now)| <= |Recent(AdmittedTimes(reqs, ip), now)|
  {
    var history := AdmittedTimes(reqs, ip);
    StoredLogIsKept(reqs, ip);
    KeptIsNotOutlived(history);
    RecentOfNotOutlived(history, now);
  }

  // ---------- Safety over whole runs, for any clock ----------

  /** The clock readings of the client's admissions never step back over a whole window: no admission is
      outlived by a second one and yet has a third, still later one within a window of it. */
  ghost predicate NoStepBackOverAWindow(history: seq<int>) {
    forall i, j, k :: 0 <= i < j < k < |history| && history[j] - history[i] >= WINDOW_MS ==>
      history[k] - history[i] >= WINDOW_MS || history[i] - history[k] >= WINDOW_MS
  }

  lemma {:induction false} CountInConcat(a: seq<int>, b: seq<int>, lo: int, hi: int)
    ensures CountIn(a + b, lo, hi) == CountIn(a, lo, hi) + CountIn(b, lo, hi)
  {
    if b == [] {
      assert a + b == a;
    } else {
      assert (a + b)[..|a + b| - 1] == a + b[..|b| - 1];
      CountInConcat(a, b[..|b| - 1], lo, hi);
    }
  }

  /** Whatever an admission shares a window with is still in the log when that admission is decided. */
  lemma {:induction false} WindowIsRemembered(history: seq<int>, now: int, w: int)
    requires w <= now < w + WINDOW_MS
    requires forall i: nat :: i < |history| && Outlived(history, i) ==>
      now - history[i] >= WINDOW_MS || history[i] - now >= WINDOW_MS
    ensures CountIn(history, w, w + WINDOW_MS) <= |Recent(NotOutlived(history), now)|
  {
    if history != [] {
      var x, tail := history[0], history[1..];
      forall i: nat | i < |tail| && Outlived(tail, i)
        ensures now - tail[i] >= WINDOW_MS || tail[i] - now >= WINDOW_MS
      {
        OutlivedInTail(history, i);
        assert tail[i] == history[i + 1];
      }
      WindowIsRemembered(tail, now, w);
      assert Outlived(history, 0) ==> now - history[0] >= WINDOW_MS || history[0] - now >= WINDOW_MS;
      hide Recent, CountIn, Outlived, NotOutlived;
      assert history == [x] + tail;
      CountInConcat([x], tail, w, w + WINDOW_MS);
      CountOfOne(x, w, w + WINDOW_MS);
      RecentOfHead(history, now);
    }
  }

  lemma CountOfOne(x: int, lo: int, hi: int)
    ensures CountIn([x], lo, hi) == if lo <= x < hi then 1 else 0
  {
    assert [x][..0] == [];
  }

  lemma StepBackSeenByNext(history: seq<int>, t: int)
    requires NoStepBackOverAWindow(history + [t])
    ensures NoStepBackOverAWindow(history)
    ensures forall i: nat :: i < |history| && Outlived(history, i) ==>
      t - history[i] >= WINDOW_MS || history[i] - t >= WINDOW_MS
  {
    var all := history + [t];
    assert forall i :: 0 <= i < |history| ==> all[i] == history[i];
    forall i: nat | i < |history| && Outlived(history, i)
      ensures t - history[i] >= WINDOW_MS || history[i] - t >= WINDOW_MS
    {
      var j :| i < j < |history| && history[j] - history[i] >= WINDOW_MS;
      assert all[j] - all[i] >= WINDOW_MS && all[|history|] == t;
    }
  }

  /** Every window of 60000 ms holds at most 100 admissions of a client, for any clock that does not step
      back over a whole window between that client's admissions; other clients' readings do not matter. */
  lemma {:induction false} WindowIsBoundedWithoutStepBack(reqs: seq<Request>, ip: string, w: int)
    requires NoStepBackOverAWindow(AdmittedTimes(reqs, ip))
    ensures CountIn(AdmittedTimes(reqs, ip), w, w + 60000) <= 100
  {
    if reqs != [] {
      var before, r := reqs[..|reqs| - 1], reqs[|reqs| - 1];
      var history := AdmittedTimes(before, ip);
      if ClientOf(r.address) == ip && Admits(StoreAfter(before), r) {
        StepBackSeenByNext(history, r.time);
        WindowIsBoundedWithoutStepBack(before, ip, w);
        CountOfAppend(history, r.time, w, w + WINDOW_MS);
        StoredLogIsKept(before, ip);
        KeptIsNotOutlived(history);
        if w <= r.time < w + WINDOW_MS { WindowIsRemembered(history, r.time, w); }
      } else {
        WindowIsBoundedWithoutStepBack(before, ip, w);
      }
    }
  }

  // ---------- A clock that never steps back ----------

  lemma {:induction false} AdmissionsAreNotLater(reqs: seq<Request>, ip: string, limit: int)
    requires forall i :: 0 <= i < |reqs| ==> reqs[i].time <= limit
    ensures forall i :: 0 <= i < |AdmittedTimes(reqs, ip)| ==> AdmittedTimes(reqs, ip)[i] <= limit
  {
    if reqs != [] {
      AdmissionsAreNotLater(reqs[..|reqs| - 1], ip, limit);
    }
  }

  lemma {:induction false} AdmissionsRise(reqs: seq<Request>, ip: string)
    requires ClockNeverStepsBack(reqs)
    ensures forall i, j :: 0 <= i < j < |AdmittedTimes(reqs, ip)| ==>
      AdmittedTimes(reqs, ip)[i] <= AdmittedTimes(reqs, ip)[j]
  {
    if reqs != [] {
      AdmissionsRise(reqs[..|reqs| - 1], ip);
      AdmissionsAreNotLater(reqs[..|reqs| - 1], ip, reqs[|reqs| - 1].time);
    }
  }

  lemma SteadyClockForgetsNothing(reqs: seq<Request>, ip: string, now: int)
    requires ClockNeverStepsBack(reqs)
    ensures NoStepBackOverAWindow(AdmittedTimes(reqs, ip))
    ensures (forall i :: 0 <= i < |reqs| ==> reqs[i].time <= now) ==> !Forgets(AdmittedTimes(reqs, ip), now)
  {
    AdmissionsRise(reqs, ip);
    if forall i :: 0 <= i < |reqs| ==> reqs[i].time <= now { AdmissionsAreNotLater(reqs, ip, now); }
    hide AdmittedTimes;
  }

  /** The log that stands for a full history. */
  function LastSeen(history: seq<int>): seq<int> {
    if history == [] then [] else Recent(history, history[|history| - 1])
  }

  /** The stored log is the full history seen from the client's last admission. */
  lemma StoredLogIsPrunedHistory(reqs: seq<Request>, ip: string)
    requires ClockNeverStepsBack(reqs)
    ensures LogOf(StoreAfter(reqs), ip) == LastSeen(AdmittedTimes(reqs, ip))
  {
    StoredLogIsKept(reqs, ip);
    AdmissionsRise(reqs, ip);
    KeptOfRising(AdmittedTimes(reqs, ip));
  }

  lemma {:induction false} KeptOfRising(history: seq<int>)
    requires forall i, j :: 0 <= i < j < |history| ==> history[i] <= history[j]
    ensures Kept(history) == LastSeen(history)
  {
    if history != [] {
      var front, last := history[..|history| - 1], history[|history| - 1];
      KeptOfRising(front);
      RecentOfAppend(front, last, last);
      assert front + [last] == history;
      if front != [] { PruningTwice(front, front[|front| - 1], last); }
    }
  }

  lemma {:induction false} RecentIsCounted(history: seq<int>, now: int)
    requires forall i :: 0 <= i < |history| ==> history[i] <= now
    ensures |Recent(history, now)| == CountIn(history, now - 59999, now + 1)
  {
    if history != [] { RecentIsCounted(history[..|history| - 1], now); }
  }

  lemma LaterThanAll(reqs: seq<Request>, r: Request)
    requires ClockNeverStepsBack(reqs + [r])
    ensures ClockNeverStepsBack(reqs) && forall i :: 0 <= i < |reqs| ==> reqs[i].time <= r.time
  {
    var all := reqs + [r];
    assert forall i :: 0 <= i < |reqs| ==> all[i] == reqs[i] && all[i].time <= all[|reqs|].time;
  }

  /** Pruning loses nothing: the test on the stored log is the test on the whole history.  A request is
      admitted exactly if fewer than 100 earlier admissions lie less than 60000 ms back. */
  lemma DecisionRefinesFullHistory(reqs: seq<Request>, r: Request)
    requires ClockNeverStepsBack(reqs + [r])
    ensures Admits(StoreAfter(reqs), r)
            <==> CountIn(AdmittedTimes(reqs, ClientOf(r.address)), r.time - 59999, r.time + 1) < 100
    ensures Admits(StoreAfter(reqs), r)
            <==> |Recent(AdmittedTimes(reqs, ClientOf(r.address)), r.time)| < MAX_REQUESTS
  {
    hide *;
    var ip, store := ClientOf(r.address), StoreAfter(reqs);
    AdmitsMeans(store, r);
    LaterThanAll(reqs, r);
    SteadyView(reqs, ip, r.time);
  }

  lemma AdmitsMeans(store: Store, r: Request)
    ensures Admits(store, r) <==> |Recent(LogOf(store, ClientOf(r.address)), r.time)| < 100
    ensures MAX_REQUESTS == 100
  {
  }

  lemma SteadyView(reqs: seq<Request>, ip: string, now: int)
    requires ClockNeverStepsBack(reqs) && forall i :: 0 <= i < |reqs| ==> reqs[i].time <= now
    ensures Recent(LogOf(StoreAfter(reqs), ip), now) == Recent(AdmittedTimes(reqs, ip), now)
    ensures |Recent(AdmittedTimes(reqs, ip), now)| == CountIn(AdmittedTimes(reqs, ip), now - 59999, now + 1)
  {
    hide *;
    AdmissionsAreNotLater(reqs, ip, now);
    RecentIsCounted(AdmittedTimes(reqs, ip), now);
    SteadyClockForgetsNothing(reqs, ip, now);
    SeesTheWholeHistoryExactlyWhen(reqs, ip, now);
  }

  /** Whatever the clients send, every window of 60000 ms holds at most 100 admissions of one client. */
  lemma EveryWindowIsBounded(reqs: seq<Request>, ip: string, w: int)
    requires ClockNeverStepsBack(reqs)
    ensures CountIn(AdmittedTimes(reqs, ip), w, w + 60000) <= 100
  {
    SteadyClockForgetsNothing(reqs, ip, 0);
    WindowIsBoundedWithoutStepBack(reqs, ip, w);
  }

  /** Memory: no stored list ever grows beyond 100 entries, even if the clock steps back. */
  lemma {:induction false} StoredListsAreBounded(reqs: seq<Request>, ip: string)
    ensures |LogOf(StoreAfter(reqs), ip)| <= 100
  {
    if reqs != [] {
      StoredListsAreBounded(reqs[..|reqs| - 1], ip);
    }
  }

  // ---------- Clients do not affect each other ----------

  function Only(reqs: seq<Request>, ip: string): seq<Request> {
    if reqs == [] then []
    else
      var r := reqs[|reqs| - 1];
      var rest := Only(reqs[..|reqs| - 1], ip);
      if r.address == Some(ip) || (r.address == None && ip == "unknown") then rest + [r] else rest
  }

  lemma OnlyIsByClient(before: seq<Request>, r: Request, ip: string)
    ensures Only(before + [r], ip) == if ClientOf(r.address) == ip then Only(before, ip) + [r] else Only(before, ip)
  {
    assert (before + [r])[..|before|] == before;
  }

  /** The list and the admissions of the client are those of its own requests alone. */
  ghost predicate Isolated(reqs: seq<Request>, ip: string) {
    && LogOf(StoreAfter(reqs), ip) == LogOf(StoreAfter(Only(reqs, ip)), ip)
    && AdmittedTimes(reqs, ip) == AdmittedTimes(Only(reqs, ip), ip)
  }

  lemma OneMoreIsolated(before: seq<Request>, r: Request, ip: string)
    requires Isolated(before, ip)
    ensures Isolated(before + [r], ip)
  {
    OnlyIsByClient(before, r, ip);
    hide StoreAfter, AdmittedTimes, Recent, LogOf, Only;
    OneMore(before, r, ip);
    OneMore(Only(before, ip), r, ip);
  }

  lemma {:induction false} AllIsolated(reqs: seq<Request>, ip: string)
    ensures Isolated(reqs, ip)
  {
    if reqs != [] {
      var before, r := reqs[..|reqs| - 1], reqs[|reqs| - 1];
      AllIsolated(before, ip);
      hide *;
      OneMoreIsolated(before, r, ip);
      assert before + [r] == reqs;
    }
  }

  /** A client is a remote address; all requests without one count as one client, which shares its log with the
      address "unknown".  Deleting every request of the other clients changes neither the log nor the
      admissions of `ip`. */
  lemma ClientsAreIsolated(reqs: seq<Request>, ip: string)
    ensures LogOf(StoreAfter(reqs), ip) == LogOf(StoreAfter(Only(reqs, ip)), ip)
    ensures AdmittedTimes(reqs, ip) == AdmittedTimes(Only(reqs, ip), ip)
  {
    AllIsolated(reqs, ip);
  }

  // ---------- The condition on the clock is needed ----------

  function Burst(ip: string, a: int, n: nat): seq<Request> {
    if n == 0 then [] else Burst(ip, a, n - 1) + [Request(Some(ip), a)]
  }

  function Times(a: int, n: nat): (times: seq<int>)
    ensures |times| == n && forall i :: 0 <= i < n ==> times[i] == a
  {
    if n == 0 then [] else Times(a, n - 1) + [a]
  }

  lemma CountOfAppend(times: seq<int>, t: int, lo: int, hi: int)
    ensures CountIn(times + [t], lo, hi) == CountIn(times, lo, hi) + if lo <= t < hi then 1 else 0
  {
    assert (times + [t])[..|times|] == times;
  }

  lemma {:induction false} CountOfTimes(a: int, n: nat, lo: int, hi: int)
    ensures CountIn(Times(a, n), lo, hi) == if lo <= a < hi then n else 0
  {
    if n > 0 {
      CountOfTimes(a, n - 1, lo, hi);
      CountOfAppend(Times(a, n - 1), a, lo, hi);
    }
  }

  lemma {:induction false} RecentOfTimes(a: int, n: nat, now: int)
    ensures Recent(Times(a, n), now) == if now - a < WINDOW_MS then Times(a, n) else []
  {
    if n > 0 {
      RecentOfTimes(a, n - 1, now);
      RecentOfAppend(Times(a, n - 1), a, now);
    }
  }

  lemma {:induction false} BurstIsAdmitted(ip: string, a: int, n: nat)
    requires n <= MAX_REQUESTS
    ensures LogOf(StoreAfter(Burst(ip, a, n)), ip) == AdmittedTimes(Burst(ip, a, n), ip) == Times(a, n)
  {
    if n == 0 {
      assert Burst(ip, a, 0) == [];
    } else {
      BurstIsAdmitted(ip, a, n - 1);
      var before, times := Burst(ip, a, n - 1), Times(a, n - 1);
      assert Burst(ip, a, n) == before + [Request(Some(ip), a)] && Times(a, n) == times + [a];
      RecentOfTimes(a, n - 1, a);
      hide StoreAfter, AdmittedTimes, Recent, LogOf, Burst, Times;
      OneMore(before, Request(Some(ip), a), ip);
    }
  }

  /** A full burst at reading `a`, then one request at `b` and one at `c`. */
  function ThreeReadings(ip: string, a: int, b: int, c: int): seq<Request> {
    Burst(ip, a, MAX_REQUESTS) + [Request(Some(ip), b)] + [Request(Some(ip), c)]
  }

  ghost predicate Overfull(times: seq<int>, w: int) { CountIn(times, w, w + WINDOW_MS) > MAX_REQUESTS }

  /** Such a run puts more than 100 admissions into some window if and only if its clock steps back over a
      whole window: `b` outlives the burst and `c` is again within a window of it. */
  lemma ThreeReadingsBreakTheBoundExactlyWhen(ip: string, a: int, b: int, c: int)
    ensures (exists w :: Overfull(AdmittedTimes(ThreeReadings(ip, a, b, c), ip), w))
            <==> b - a >= 60000 && -60000 < c - a < 60000
  {
    var reqs := ThreeReadings(ip, a, b, c);
    if b - a >= WINDOW_MS && -WINDOW_MS < c - a < WINDOW_MS {
      var w := if a <= c then a else c;
      StepBackOverfills(ip, a, b, c, w);
      assert Overfull(AdmittedTimes(reqs, ip), w);
    } else {
      NoOverfill(ip, a, b, c);
      forall w ensures !Overfull(AdmittedTimes(reqs, ip), w) {
        WindowIsBoundedWithoutStepBack(reqs, ip, w);
      }
    }
  }

  lemma StepBackOverfills(ip: string, a: int, b: int, c: int, w: int)
    requires b - a >= WINDOW_MS && w <= a < w + WINDOW_MS && w <= c < w + WINDOW_MS
    ensures CountIn(AdmittedTimes(ThreeReadings(ip, a, b, c), ip), w, w + WINDOW_MS) == MAX_REQUESTS + 1
  {
    var n := MAX_REQUESTS;
    var burst := Burst(ip, a, n);
    var two := burst + [Request(Some(ip), b)];
    BurstIsAdmitted(ip, a, n);
    RecentOfTimes(a, n, b);
    OneMore(burst, Request(Some(ip), b), ip);
    OneMore(two, Request(Some(ip), c), ip);
    CountOfTimes(a, n, w, w + WINDOW_MS);
    CountOfAppend(Times(a, n), b, w, w + WINDOW_MS);
    CountOfAppend(Times(a, n) + [b], c, w, w + WINDOW_MS);
  }

  lemma AdmittedOfThree(ip: string, a: int, b: int, c: int)
    ensures var all, burst := AdmittedTimes(ThreeReadings(ip, a, b, c), ip), Times(a, MAX_REQUESTS);
            all == burst || all == burst + [b] || all == burst + [c] || all == burst + [b] + [c]
  {
    var burst := Burst(ip, a, MAX_REQUESTS);
    BurstIsAdmitted(ip, a, MAX_REQUESTS);
    OneMore(burst, Request(Some(ip), b), ip);
    OneMore(burst + [Request(Some(ip), b)], Request(Some(ip), c), ip);
  }

  lemma NoOverfill(ip: string, a: int, b: int, c: int)
    requires !(b - a >= WINDOW_MS && -WINDOW_MS < c - a < WINDOW_MS)
    ensures NoStepBackOverAWindow(AdmittedTimes(ThreeReadings(ip, a, b, c), ip))
  {
    AdmittedOfThree(ip, a, b, c);
    hide AdmittedTimes, ThreeReadings, Times;
  }

  /** For instance: the burst at 0, one admission at 60000, and a step back to 0. */
  lemma ClockStepBackBreaksTheBound(ip: string)
    ensures CountIn(AdmittedTimes(ThreeReadings(ip, 0, 60000, 0), ip), 0, 60000) == 101
  {
    StepBackOverfills(ip, 0, WINDOW_MS, 0, 0);
  }
}
