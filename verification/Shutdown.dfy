/** Graceful shutdown in src/boot/bootstrap.ts, as a timed state machine.

    A signal starts the one shutdown; it runs up to three phases in sequence (the worker system, the
    server, the application), two of them under a budget of their own, all of them under an outer
    budget, and the process under a forced exit.  Signals, the time each phase takes, and its outcome
    are arbitrary; a timer that is due fires before the clock goes on. */
module Shutdown {
  import opened Text

  const WORKER_BUDGET_MS := 15000
  const APP_BUDGET_MS := 5000
  const FORCE_MARGIN_MS := 250

  /** SHUTDOWN_TIMEOUT, SHUTDOWN_FORCE_EXIT_MS, and what there is to shut down. */
  datatype Config = Config(budgetMs: int, forceExitMs: int, workers: bool, server: bool, app: bool)

  datatype Phase = Idle | LoadingWorkers | StoppingWorkers | ClosingServer | StoppingApp

  datatype Event =
    | Began(at: int)
    | Started(phase: Phase, at: int)
    | Settled(phase: Phase, at: int)
    | TimedOut(phase: Phase, at: int)

  datatype Reason = Completed | ServerFailed | BudgetSpent | Forced

  datatype Exit = Exit(reason: Reason, at: int)

  function ExitCode(reason: Reason): int {
    match reason
    case Completed => 0
    case Forced => 0
    case ServerFailed => 1
    case BudgetSpent => 1
  }

  /** The clock, the two module flags, the suspended call of `gracefulShutdown` with its deadline and
      the due times of its timers, what happened so far, and how the process ended. */
  datatype Process = Process(
    now: int, handlersRegistered: bool, isShuttingDown: bool,
    phase: Phase, deadline: int, inner: Option<int>, outer: Option<int>, force: Option<int>,
    log: seq<Event>, exit: Option<Exit>)

  datatype Timer = Inner | Outer | Force

  datatype Step =
    | SetUp
    | Signal
    | Settles(ok: bool)
    | Fires(timer: Timer)
    | TimePasses(ms: nat)

  function Boot(now: int): Process {
    Process(now, false, false, Idle, now, None, None, None, [], None)
  }

  function Min(a: int, b: int): int { if a < b then a else b }
  function Max(a: int, b: int): int { if a < b then b else a }

  function RemainingMs(p: Process): int { Max(0, p.deadline - p.now) }

  /** `withTimeout` arms a timer only for a positive time. */
  function DueIn(now: int, ms: int): Option<int> { if ms <= 0 then None else Some(now + ms) }

  function End(p: Process, reason: Reason): Process {
    p.(phase := Idle, inner := None, outer := None, force := None, exit := Some(Exit(reason, p.now)))
  }

  // ---------- The phases ----------

  function StartWorkers(p: Process): Process {
    p.(phase := StoppingWorkers, inner := DueIn(p.now, Min(WORKER_BUDGET_MS, RemainingMs(p))),
       log := p.log + [Started(StoppingWorkers, p.now)])
  }

  function StartServer(cfg: Config, p: Process): Process {
    if cfg.server
    then p.(phase := ClosingServer, inner := None, log := p.log + [Started(ClosingServer, p.now)])
    else StartApp(cfg, p)
  }

  function StartApp(cfg: Config, p: Process): Process {
    if cfg.app
    then p.(phase := StoppingApp, inner := DueIn(p.now, Min(APP_BUDGET_MS, RemainingMs(p))),
            log := p.log + [Started(StoppingApp, p.now)])
    else End(p, Completed)
  }

  /** The flag is set, the deadline fixed, the forced exit scheduled. */
  function Begin(cfg: Config, p: Process): Process {
    var forceMs := Max(cfg.forceExitMs, cfg.budgetMs + FORCE_MARGIN_MS);
    p.(isShuttingDown := true, deadline := p.now + cfg.budgetMs,
       force := Some(p.now + Max(1, forceMs)), log := p.log + [Began(p.now)])
  }

  /** The first call; later calls return at once.  The inner function runs up to its first await, then
      the outer timer is armed. */
  function GracefulShutdown(cfg: Config, p: Process): Process {
    if p.isShuttingDown then p
    else
      var begun := Begin(cfg, p);
      var first := if cfg.workers then begun.(phase := LoadingWorkers) else StartServer(cfg, begun);
      if first.exit.Some? then first else first.(outer := DueIn(p.now, cfg.budgetMs))
  }

  /** The awaited promise of the current phase settles.  Only a failing server close is not caught. */
  function PhaseSettles(cfg: Config, p: Process, ok: bool): Process {
    var done := p.(inner := None, log := p.log + [Settled(p.phase, p.now)]);
    match p.phase
    case Idle => p
    case LoadingWorkers => if ok then StartWorkers(p) else StartServer(cfg, p)
    case StoppingWorkers => StartServer(cfg, done)
    case ClosingServer => if ok then StartApp(cfg, done) else End(done, ServerFailed)
    case StoppingApp => End(done, Completed)
  }

  function PhaseTimesOut(cfg: Config, p: Process): Process {
    var late := p.(inner := None, log := p.log + [TimedOut(p.phase, p.now)]);
    match p.phase
    case StoppingWorkers => StartServer(cfg, late)
    case StoppingApp => End(late, Completed)
    case _ => p
  }

  predicate IsDue(p: Process, timer: Option<int>) { timer.Some? && timer.value <= p.now }

  /** Time passes up to the next timer, not beyond it. */
  predicate MayPass(p: Process, ms: nat) {
    && (p.inner.Some? ==> p.now + ms <= p.inner.value)
    && (p.outer.Some? ==> p.now + ms <= p.outer.value)
    && (p.force.Some? ==> p.now + ms <= p.force.value)
  }

  function Next(cfg: Config, p: Process, step: Step): Process {
    if p.exit.Some? then p
    else match step
      case SetUp => p.(handlersRegistered := true)
      case Signal => if p.handlersRegistered then GracefulShutdown(cfg, p) else p
      case Settles(ok) => PhaseSettles(cfg, p, ok)
      case Fires(Inner) => if IsDue(p, p.inner) then PhaseTimesOut(cfg, p) else p
      case Fires(Outer) => if IsDue(p, p.outer) then End(p, BudgetSpent) else p
      case Fires(Force) => if IsDue(p, p.force) then End(p, Forced) else p
      case TimePasses(ms) => if MayPass(p, ms) then p.(now := p.now + ms) else p
  }

  function After(cfg: Config, start: int, run: seq<Step>): Process {
    if run == [] then Boot(start) else Next(cfg, After(cfg, start, run[..|run| - 1]), run[|run| - 1])
  }

  /** The module: its two flags and the call that the first signal leaves suspended. */
  class Bootstrap {
    const cfg: Config
    var isShuttingDown: bool
    var shutdownHandlersRegistered: bool
    var suspended: Process

    ghost function View(): Process
      reads this
    {
      suspended.(isShuttingDown := isShuttingDown, handlersRegistered := shutdownHandlersRegistered)
    }

    constructor (cfg: Config, now: int)
      ensures this.cfg == cfg && View() == Boot(now)
    {
      this.cfg := cfg;
      isShuttingDown, shutdownHandlersRegistered := false, false;
      suspended := Boot(now);
    }

    /** Registers the handlers of both signals, once. */
    method SetupShutdownHandler() returns (registers: bool)
      modifies this
      ensures registers <==> !old(shutdownHandlersRegistered)
      ensures View() == old(View()).(handlersRegistered := true)
    {
      if shutdownHandlersRegistered { return false; }
      shutdownHandlersRegistered := true;
      return true;
    }

    /** What either handler calls. */
    method OnSignal()
      modifies this
      ensures View() == GracefulShutdown(cfg, old(View()))
    {
      if isShuttingDown { return; }
      isShuttingDown := true;
      var now := suspended.now;
      var minForceExitMs := cfg.budgetMs + FORCE_MARGIN_MS;
      var forceExitMs := Max(cfg.forceExitMs, minForceExitMs);
      var p := suspended.(deadline := now + cfg.budgetMs, isShuttingDown := true,
                          handlersRegistered := shutdownHandlersRegistered);
      p := p.(force := Some(now + Max(1, forceExitMs)), log := p.log + [Began(now)]);
      if cfg.workers {
        p := p.(phase := LoadingWorkers);
      } else {
        p := StartServer(cfg, p);
      }
      if p.exit.None? {
        p := p.(outer := DueIn(now, cfg.budgetMs));
      }
      suspended := p;
    }
  }

  // ---------- Order ----------

  function Rank(phase: Phase): nat {
    match phase
    case StoppingWorkers => 1
    case ClosingServer => 2
    case StoppingApp => 3
    case _ => 0
  }

  /** The last phase that was started, and whether it is still running. */
  datatype Progress = Progress(rank: nat, open: bool)

  /** Reads a log after its first event; None when the phases do not come one after the other, in the
      order workers, server, application. */
  function Track(events: seq<Event>): Option<Progress> {
    if events == [] then Some(Progress(0, false))
    else
      match (Track(events[..|events| - 1]), events[|events| - 1])
      case (Some(Progress(rank, false)), Started(phase, _)) =>
        if rank < Rank(phase) then Some(Progress(Rank(phase), true)) else None
      case (Some(Progress(rank, true)), Settled(phase, _)) =>
        if rank == Rank(phase) then Some(Progress(rank, false)) else None
      case (Some(Progress(rank, true)), TimedOut(phase, _)) =>
        if rank == Rank(phase) then Some(Progress(rank, false)) else None
      case _ => None
  }

  lemma TrackOfAppend(events: seq<Event>, e: Event)
    ensures Track(events + [e])
            == match (Track(events), e)
               case (Some(Progress(rank, false)), Started(phase, _)) =>
                 if rank < Rank(phase) then Some(Progress(Rank(phase), true)) else None
               case (Some(Progress(rank, true)), Settled(phase, _)) =>
                 if rank == Rank(phase) then Some(Progress(rank, false)) else None
               case (Some(Progress(rank, true)), TimedOut(phase, _)) =>
                 if rank == Rank(phase) then Some(Progress(rank, false)) else None
               case _ => None
  {
    assert (events + [e])[..|events|] == events;
  }

  lemma {:induction false} TrackedPhasesRise(events: seq<Event>, i: nat)
    requires Track(events).Some? && i < |events|
    ensures !events[i].Began?
    ensures events[i].Started? ==> 0 < Rank(events[i].phase) <= Track(events).value.rank
    ensures events[i].Started? && !Track(events).value.open ==> Ends(events, i, |events|)
    ensures events[i].Started? && Rank(events[i].phase) < Track(events).value.rank ==> Ends(events, i, |events|)
  {
    var front, n := events[..|events| - 1], |events| - 1;
    if i < n {
      TrackedPhasesRise(front, i);
      assert front[i] == events[i];
      if Ends(front, i, n) {
        var k :| i < k < n && IsEndOf(front[k], front[i]);
        assert IsEndOf(events[k], events[i]);
      } else if events[i].Started? && !Track(events).value.open {
        SameRank(events[i].phase, events[n].phase);
        assert IsEndOf(events[n], events[i]);
      }
    }
  }

  lemma SameRank(a: Phase, b: Phase)
    requires Rank(a) == Rank(b) > 0
    ensures a == b
  {
  }

  ghost predicate IsEndOf(e: Event, start: Event) {
    start.Started? && (e.Settled? || e.TimedOut?) && e.phase == start.phase
  }

  /** The phase started at place i has settled or timed out before place j. */
  ghost predicate Ends(events: seq<Event>, i: nat, j: nat)
    requires i < j <= |events|
  {
    exists k :: i < k < j && IsEndOf(events[k], events[i])
  }

  /** One shutdown; its phases each at most once, in order, each after the end of the one before. */
  ghost predicate InOrder(log: seq<Event>) {
    && (forall i :: 0 < i < |log| ==> !log[i].Began?)
    && (forall i, j :: 0 <= i < j < |log| && log[i].Started? && log[j].Started? ==>
          Rank(log[i].phase) < Rank(log[j].phase) && Ends(log, i, j))
    && (forall i, j :: 0 <= i < j < |log| ==> log[i].at <= log[j].at)
  }

  lemma {:induction false} TrackedIsOrdered(events: seq<Event>, i: nat, j: nat)
    requires Track(events).Some? && i < j < |events| && events[i].Started? && events[j].Started?
    ensures Rank(events[i].phase) < Rank(events[j].phase) && Ends(events, i, j)
  {
    var n := |events| - 1;
    var front := events[..n];
    if j < n {
      TrackedIsOrdered(front, i, j);
      var k :| i < k < j && IsEndOf(front[k], front[i]);
      assert IsEndOf(events[k], events[i]);
    } else {
      TrackedPhasesRise(front, i);
      var k :| i < k < n && IsEndOf(front[k], front[i]);
      assert IsEndOf(events[k], events[i]);
    }
  }

  // ---------- What every run keeps ----------

  function ForceMs(cfg: Config): int { Max(1, Max(cfg.forceExitMs, cfg.budgetMs + FORCE_MARGIN_MS)) }

  ghost predicate Has(log: seq<Event>, phase: Phase) {
    exists e :: e in log && e.Started? && e.phase == phase
  }

  /** The log begins with the signal, its times are in order, and its phases have come this far. */
  ghost predicate LogInv(cfg: Config, p: Process, rank: nat, open: bool) {
    && p.isShuttingDown
    && p.log != [] && p.log[0].Began?
    && Track(p.log[1..]) == Some(Progress(rank, open))
    && (forall i, j :: 0 <= i < j < |p.log| ==> p.log[i].at <= p.log[j].at)
    && (forall i :: 0 <= i < |p.log| ==> p.log[i].at <= p.now)
    && p.deadline == p.log[0].at + cfg.budgetMs
    && (rank >= 3 && cfg.server ==> Has(p.log, ClosingServer))
    && (rank < 3 ==> !Has(p.log, StoppingApp))
  }

  ghost predicate InnerInv(p: Process) {
    p.inner.Some? ==> p.now <= p.inner.value <= p.deadline
  }

  /** A phase is running, or the workers are being loaded. */
  ghost predicate InPhase(cfg: Config, p: Process) {
    && p.exit == None && p.phase != Idle && InnerInv(p)
    && LogInv(cfg, p, Rank(p.phase), Rank(p.phase) > 0)
    && (p.phase == LoadingWorkers || p.phase == ClosingServer ==> p.inner == None)
  }

  ghost predicate TimersInv(cfg: Config, p: Process) {
    && p.log != []
    && p.outer == DueIn(p.log[0].at, cfg.budgetMs)
    && p.force == Some(p.log[0].at + ForceMs(cfg))
    && MayPass(p, 0)
  }

  /** No later than the budget, if there is one, and otherwise than the forced exit; a normal end has
      been through every phase, a failed server close keeps the application from being shut down. */
  ghost predicate ExitInv(cfg: Config, p: Process) {
    && p.exit.Some? && p.isShuttingDown
    && p.log != [] && p.log[0].Began? && Track(p.log[1..]).Some?
    && (forall i, j :: 0 <= i < j < |p.log| ==> p.log[i].at <= p.log[j].at)
    && p.log[0].at <= p.exit.value.at
    && p.exit.value.at <= p.log[0].at + (if cfg.budgetMs > 0 then cfg.budgetMs else ForceMs(cfg))
    && (cfg.budgetMs > 0 ==> p.exit.value.reason != Forced)
    && (p.exit.value.reason == Completed ==>
          && (cfg.server ==> Has(p.log, ClosingServer))
          && (cfg.app ==> Has(p.log, StoppingApp)))
    && (p.exit.value.reason == ServerFailed ==> !Has(p.log, StoppingApp))
  }

  ghost predicate Inv(cfg: Config, p: Process) {
    if !p.isShuttingDown then
      p.phase == Idle && p.log == [] && p.exit == None && p.inner == None && p.outer == None && p.force == None
    else if p.exit == None then InPhase(cfg, p) && TimersInv(cfg, p)
    else ExitInv(cfg, p)
  }

  lemma HasAppend(log: seq<Event>, e: Event, phase: Phase)
    ensures Has(log + [e], phase) <==> Has(log, phase) || (e.Started? && e.phase == phase)
  {
    if Has(log, phase) {
      var x :| x in log && x.Started? && x.phase == phase;
      assert x in log + [e];
    }
    if e.Started? && e.phase == phase { assert e in log + [e]; }
  }

  /** One more event at the present time. */
  lemma LogGrows(cfg: Config, p: Process, q: Process, rank: nat, open: bool, e: Event)
    requires LogInv(cfg, p, rank, open) && e.at == p.now
    requires q.log == p.log + [e] && q.now == p.now && q.deadline == p.deadline && q.isShuttingDown
    ensures Track(q.log[1..]) == Track(p.log[1..] + [e])
    ensures q.log != [] && q.log[0] == p.log[0]
    ensures forall i, j :: 0 <= i < j < |q.log| ==> q.log[i].at <= q.log[j].at
    ensures forall i :: 0 <= i < |q.log| ==> q.log[i].at <= q.now
    ensures forall phase :: Has(q.log, phase) <==> Has(p.log, phase) || (e.Started? && e.phase == phase)
  {
    assert q.log[1..] == p.log[1..] + [e];
    forall phase {
      HasAppend(p.log, e, phase);
    }
  }

  lemma PhaseOpens(cfg: Config, p: Process, q: Process, rank: nat, phase: Phase)
    requires LogInv(cfg, p, rank, false) && rank < Rank(phase)
    requires phase == StoppingApp && cfg.server ==> Has(p.log, ClosingServer)
    requires q.log == p.log + [Started(phase, p.now)] && q.now == p.now && q.deadline == p.deadline && q.isShuttingDown
    ensures LogInv(cfg, q, Rank(phase), true)
    ensures Has(q.log, phase) && forall x :: Has(p.log, x) ==> Has(q.log, x)
  {
    LogGrows(cfg, p, q, rank, false, Started(phase, p.now));
    TrackOfAppend(p.log[1..], Started(phase, p.now));
  }

  lemma PhaseCloses(cfg: Config, p: Process, q: Process, e: Event)
    requires Rank(p.phase) > 0 && LogInv(cfg, p, Rank(p.phase), true)
    requires e == Settled(p.phase, p.now) || e == TimedOut(p.phase, p.now)
    requires q.log == p.log + [e] && q.now == p.now && q.deadline == p.deadline && q.isShuttingDown
    ensures LogInv(cfg, q, Rank(p.phase), false)
    ensures forall x :: Has(p.log, x) <==> Has(q.log, x)
  {
    LogGrows(cfg, p, q, Rank(p.phase), true, e);
    TrackOfAppend(p.log[1..], e);
  }

  /** Between two phases: the next one starts, or there is none and the process ends. */
  ghost predicate Moves(cfg: Config, p: Process, q: Process) {
    && q.now == p.now && q.log != [] && p.log != [] && q.log[0] == p.log[0]
    && q.handlersRegistered == p.handlersRegistered && q.isShuttingDown
    && if q.exit == None then InPhase(cfg, q) && q.outer == p.outer && q.force == p.force
       else
         && q.exit == Some(Exit(Completed, p.now))
         && (exists rank, open :: LogInv(cfg, q, rank, open))
         && (cfg.server ==> Has(q.log, ClosingServer)) && (cfg.app ==> Has(q.log, StoppingApp))
  }

  lemma AppStarts(cfg: Config, p: Process, rank: nat)
    requires LogInv(cfg, p, rank, false) && rank < 3 && p.exit == None
    requires cfg.server ==> Has(p.log, ClosingServer)
    ensures Moves(cfg, p, StartApp(cfg, p))
  {
    var q := StartApp(cfg, p);
    if cfg.app {
      PhaseOpens(cfg, p, q, rank, StoppingApp);
    } else {
      assert LogInv(cfg, q, rank, false);
    }
  }

  lemma ServerStarts(cfg: Config, p: Process, rank: nat)
    requires LogInv(cfg, p, rank, false) && rank < 2 && p.exit == None
    ensures Moves(cfg, p, StartServer(cfg, p))
  {
    if cfg.server {
      PhaseOpens(cfg, p, StartServer(cfg, p), rank, ClosingServer);
    } else {
      AppStarts(cfg, p, rank);
    }
  }

  /** Whatever comes after a phase, the invariant holds again. */
  lemma MovesKeepsInv(cfg: Config, p: Process, q: Process)
    requires TimersInv(cfg, p) && Moves(cfg, p, q)
    ensures Inv(cfg, q)
  {
  }

  lemma BeginOpensTheLog(cfg: Config, p: Process)
    requires Inv(cfg, p) && !p.isShuttingDown
    ensures var begun := Begin(cfg, p);
            && LogInv(cfg, begun, 0, false) && begun.log == [Began(p.now)]
            && begun.force == Some(p.now + ForceMs(cfg)) && begun.exit == None && begun.inner == None
            && begun.now == p.now
  {
    assert Begin(cfg, p).log[1..] == [];
  }

  lemma SignalKeepsInv(cfg: Config, p: Process)
    requires Inv(cfg, p) && p.exit == None
    ensures Inv(cfg, GracefulShutdown(cfg, p))
  {
    if !p.isShuttingDown {
      BeginOpensTheLog(cfg, p);
      var begun := Begin(cfg, p);
      if cfg.workers {
        LoadingKeepsInv(cfg, begun);
      } else {
        ServerStarts(cfg, begun, 0);
        FirstPhaseKeepsInv(cfg, begun, StartServer(cfg, begun));
      }
      hide Begin, StartServer, Inv;
    }
  }

  lemma LoadingKeepsInv(cfg: Config, begun: Process)
    requires LogInv(cfg, begun, 0, false) && begun.log == [Began(begun.now)]
    requires begun.force == Some(begun.now + ForceMs(cfg)) && begun.exit == None && begun.inner == None
    ensures Inv(cfg, begun.(phase := LoadingWorkers, outer := DueIn(begun.now, cfg.budgetMs)))
  {
    hide Track, Has;
    assert InPhase(cfg, begun.(phase := LoadingWorkers, outer := DueIn(begun.now, cfg.budgetMs)));
  }

  /** Arming the outer timer after the inner function has run to its first await. */
  lemma FirstPhaseKeepsInv(cfg: Config, begun: Process, first: Process)
    requires Moves(cfg, begun, first) && begun.log == [Began(begun.now)]
    requires begun.force == Some(begun.now + ForceMs(cfg))
    ensures Inv(cfg, if first.exit.Some? then first else first.(outer := DueIn(begun.now, cfg.budgetMs)))
  {
    hide Track, Has;
    if first.exit == None {
      assert InPhase(cfg, first.(outer := DueIn(begun.now, cfg.budgetMs)));
    }
  }

  lemma EndKeepsInv(cfg: Config, p: Process, q: Process, rank: nat, open: bool, reason: Reason)
    requires TimersInv(cfg, p) && q.log != [] && q.log[0] == p.log[0] && q.now == p.now
    requires LogInv(cfg, q, rank, open)
    requires reason == Forced ==> cfg.budgetMs <= 0
    requires reason == Completed ==>
      (cfg.server ==> Has(q.log, ClosingServer)) && (cfg.app ==> Has(q.log, StoppingApp))
    requires reason == ServerFailed ==> !Has(q.log, StoppingApp)
    ensures Inv(cfg, End(q, reason))
  {
  }

  lemma SettlingKeepsInv(cfg: Config, p: Process, ok: bool)
    requires InPhase(cfg, p) && TimersInv(cfg, p)
    ensures Inv(cfg, PhaseSettles(cfg, p, ok))
  {
    hide Has, Track;
    var done := p.(inner := None, log := p.log + [Settled(p.phase, p.now)]);
    match p.phase
    case LoadingWorkers =>
      if ok {
        PhaseOpens(cfg, p, StartWorkers(p), 0, StoppingWorkers);
      } else {
        ServerStarts(cfg, p, 0);
        MovesKeepsInv(cfg, p, StartServer(cfg, p));
      }
    case StoppingWorkers =>
      PhaseCloses(cfg, p, done, Settled(p.phase, p.now));
      ServerStarts(cfg, done, 1);
      MovesKeepsInv(cfg, done, StartServer(cfg, done));
    case ClosingServer =>
      PhaseCloses(cfg, p, done, Settled(p.phase, p.now));
      ServerHasStarted(cfg, p);
      if ok {
        AppStarts(cfg, done, 2);
        MovesKeepsInv(cfg, done, StartApp(cfg, done));
      } else {
        EndKeepsInv(cfg, p, done, 2, false, ServerFailed);
      }
    case StoppingApp =>
      PhaseCloses(cfg, p, done, Settled(p.phase, p.now));
      AppHasStarted(cfg, p);
      EndKeepsInv(cfg, p, done, 3, false, Completed);
  }

  lemma LateKeepsInv(cfg: Config, p: Process)
    requires InPhase(cfg, p) && TimersInv(cfg, p) && p.inner.Some?
    ensures Inv(cfg, PhaseTimesOut(cfg, p))
  {
    var late := p.(inner := None, log := p.log + [TimedOut(p.phase, p.now)]);
    if p.phase == StoppingWorkers {
      PhaseCloses(cfg, p, late, TimedOut(p.phase, p.now));
      ServerStarts(cfg, late, 1);
      MovesKeepsInv(cfg, late, StartServer(cfg, late));
    } else {
      PhaseCloses(cfg, p, late, TimedOut(p.phase, p.now));
      AppHasStarted(cfg, p);
      EndKeepsInv(cfg, p, late, 3, false, Completed);
    }
  }

  lemma {:induction false} OpenHasStarted(events: seq<Event>, phase: Phase)
    requires Track(events) == Some(Progress(Rank(phase), true))
    ensures Has(events, phase)
  {
    var e := events[|events| - 1];
    assert e.Started? && Rank(e.phase) == Rank(phase);
    SameRank(e.phase, phase);
    assert e in events;
  }

  lemma ServerHasStarted(cfg: Config, p: Process)
    requires p.phase == ClosingServer && LogInv(cfg, p, 2, true)
    ensures Has(p.log, ClosingServer)
  {
    OpenHasStarted(p.log[1..], ClosingServer);
    var e :| e in p.log[1..] && e.Started? && e.phase == ClosingServer;
    assert e in p.log;
  }

  lemma AppHasStarted(cfg: Config, p: Process)
    requires p.phase == StoppingApp && LogInv(cfg, p, 3, true)
    ensures Has(p.log, StoppingApp)
  {
    OpenHasStarted(p.log[1..], StoppingApp);
    var e :| e in p.log[1..] && e.Started? && e.phase == StoppingApp;
    assert e in p.log;
  }

  lemma TimeKeepsInv(cfg: Config, p: Process, ms: nat)
    requires Inv(cfg, p) && p.exit == None && MayPass(p, ms)
    ensures Inv(cfg, p.(now := p.now + ms))
  {
    if p.isShuttingDown {
      assert LogInv(cfg, p.(now := p.now + ms), Rank(p.phase), Rank(p.phase) > 0);
    }
  }

  lemma StepKeepsInv(cfg: Config, p: Process, step: Step)
    requires Inv(cfg, p)
    ensures Inv(cfg, Next(cfg, p, step))
  {
    hide GracefulShutdown, PhaseTimesOut, Track, Has;
    if p.exit == None {
      match step
      case SetUp =>
        if p.isShuttingDown { assert LogInv(cfg, p.(handlersRegistered := true), Rank(p.phase), Rank(p.phase) > 0); }
      case Signal => SignalKeepsInv(cfg, p);
      case Settles(ok) => if p.isShuttingDown { SettlingKeepsInv(cfg, p, ok); }
      case Fires(Inner) => if IsDue(p, p.inner) { LateKeepsInv(cfg, p); }
      case Fires(Outer) =>
        if IsDue(p, p.outer) { EndKeepsInv(cfg, p, p, Rank(p.phase), Rank(p.phase) > 0, BudgetSpent); }
      case Fires(Force) =>
        if IsDue(p, p.force) { EndKeepsInv(cfg, p, p, Rank(p.phase), Rank(p.phase) > 0, Forced); }
      case TimePasses(ms) => if MayPass(p, ms) { TimeKeepsInv(cfg, p, ms); }
    }
  }

  lemma {:induction false} RunKeepsInv(cfg: Config, start: int, run: seq<Step>)
    ensures Inv(cfg, After(cfg, start, run))
  {
    if run != [] {
      RunKeepsInv(cfg, start, run[..|run| - 1]);
      StepKeepsInv(cfg, After(cfg, start, run[..|run| - 1]), run[|run| - 1]);
    }
  }

  // ---------- The promises ----------

  lemma LogIsInOrder(log: seq<Event>)
    requires log != [] && log[0].Began? && Track(log[1..]).Some?
    requires forall i, j :: 0 <= i < j < |log| ==> log[i].at <= log[j].at
    ensures InOrder(log)
  {
    var events := log[1..];
    forall i | 0 < i < |log| ensures !log[i].Began? {
      TrackedPhasesRise(events, i - 1);
      assert events[i - 1] == log[i];
    }
    forall i, j | 0 <= i < j < |log| && log[i].Started? && log[j].Started?
      ensures Rank(log[i].phase) < Rank(log[j].phase) && Ends(log, i, j)
    {
      assert events[i - 1] == log[i] && events[j - 1] == log[j];
      TrackedIsOrdered(events, i - 1, j - 1);
      var k :| i - 1 < k < j - 1 && IsEndOf(events[k], events[i - 1]);
      assert IsEndOf(log[k + 1], log[i]);
    }
  }

  /** However many signals arrive, and whatever the phases do: at most one shutdown begins, and its
      phases start at most once, in order, each after the one before has settled or timed out. */
  lemma ShutdownIsOrderly(cfg: Config, start: int, run: seq<Step>)
    ensures InOrder(After(cfg, start, run).log)
  {
    RunKeepsInv(cfg, start, run);
    var p := After(cfg, start, run);
    if p.log != [] { LogIsInOrder(p.log); }
  }

  /** With a positive budget the process ends within it, and never by the forced exit, which is due at
      least 250 ms later; without one it still ends no later than the forced exit. */
  lemma ShutdownIsInTime(cfg: Config, start: int, run: seq<Step>)
    ensures var p := After(cfg, start, run);
            p.isShuttingDown ==>
              && p.log != []
              && (p.exit == None ==> p.now <= p.log[0].at + if cfg.budgetMs > 0 then cfg.budgetMs else ForceMs(cfg))
              && (p.exit.Some? ==>
                    p.exit.value.at <= p.log[0].at + if cfg.budgetMs > 0 then cfg.budgetMs else ForceMs(cfg))
              && (p.exit.Some? && cfg.budgetMs > 0 ==>
                    p.exit.value.reason != Forced && p.exit.value.at + 250 <= p.log[0].at + ForceMs(cfg))
  {
    RunKeepsInv(cfg, start, run);
  }

  /** When the budget is spent, time stands still until the process ends with code 1. */
  lemma SpentBudgetEndsTheProcess(cfg: Config, start: int, run: seq<Step>, ms: nat)
    requires cfg.budgetMs > 0 && ms > 0
    requires var p := After(cfg, start, run);
             p.isShuttingDown && p.log != [] && p.exit == None && p.now == p.log[0].at + cfg.budgetMs
    ensures var p := After(cfg, start, run);
            && !MayPass(p, ms)
            && Next(cfg, p, Fires(Outer)).exit == Some(Exit(BudgetSpent, p.now))
            && ExitCode(BudgetSpent) == 1
  {
    RunKeepsInv(cfg, start, run);
  }

  /** A normal end has closed the server and shut the application down, if they exist; after a failed
      server close the application is never shut down. */
  lemma NormalEndWasComplete(cfg: Config, start: int, run: seq<Step>)
    ensures var p := After(cfg, start, run);
            p.exit.Some? ==>
              && (p.exit.value.reason == Completed ==>
                    && (cfg.server ==> Has(p.log, ClosingServer))
                    && (cfg.app ==> Has(p.log, StoppingApp)))
              && (p.exit.value.reason == ServerFailed ==> !Has(p.log, StoppingApp))
  {
    RunKeepsInv(cfg, start, run);
  }
}
