/** Which phases a shutdown goes through and how long each may take (src/boot/bootstrap.ts:105-194), said
    by an itinerary that does not mention the steps of the state machine. */
module ShutdownPhases {
  import opened Text
  import opened Shutdown

  // ---------- The itinerary ----------

  function If(c: bool, phase: Phase): seq<Phase> { if c then [phase] else [] }

  /** The phases of a shutdown, in order; the workers only if their module could be loaded. */
  function Itinerary(cfg: Config, loadFailed: bool): seq<Phase> {
    If(cfg.workers && !loadFailed, StoppingWorkers) + If(cfg.server, ClosingServer) + If(cfg.app, StoppingApp)
  }

  /** The phases that were started, in order. */
  function Phases(log: seq<Event>): seq<Phase> {
    if log == [] then []
    else
      var e := log[|log| - 1];
      Phases(log[..|log| - 1]) + if e.Started? then [e.phase] else []
  }

  /** In the course of the run the loading of the workers module was rejected. */
  predicate LoadFailed(cfg: Config, start: int, run: seq<Step>) {
    run != [] &&
      var before := run[..|run| - 1];
      || LoadFailed(cfg, start, before)
      || (run[|run| - 1] == Settles(false) && After(cfg, start, before).phase == LoadingWorkers
          && After(cfg, start, before).exit.None?)
  }

  /** The time a phase that starts at `at` has of its own; None is no limit. */
  function LimitMs(phase: Phase, remaining: int): Option<int> {
    var budget := if phase == StoppingWorkers then 15000 else 5000;
    if phase == ClosingServer || remaining <= 0 then None
    else Some(if remaining < budget then remaining else budget)
  }

  /** Every phase that was started is followed by its own end, no later than its limit; it times out exactly
      at the limit. */
  ghost predicate WellTimed(cfg: Config, log: seq<Event>) {
    forall i :: 0 <= i < |log| - 1 && log[i].Started? ==>
      var limit := LimitMs(log[i].phase, log[0].at + cfg.budgetMs - log[i].at);
      && IsEndOf(log[i + 1], log[i])
      && (limit.Some? ==> log[i + 1].at <= log[i].at + limit.value)
      && (log[i + 1].TimedOut? ==> limit.Some? && log[i + 1].at == log[i].at + limit.value)
  }

  // ---------- What every run keeps ----------

  /** The phases that come after the present one. */
  function Rest(cfg: Config, phase: Phase): seq<Phase> {
    match phase
    case LoadingWorkers => Itinerary(cfg, false)
    case StoppingWorkers => If(cfg.server, ClosingServer) + If(cfg.app, StoppingApp)
    case ClosingServer => If(cfg.app, StoppingApp)
    case _ => []
  }

  ghost predicate RunningInv(cfg: Config, p: Process, failed: bool) {
    && p.log != [] && p.deadline == p.log[0].at + cfg.budgetMs && p.isShuttingDown && p.phase != Idle
    && WellTimed(cfg, p.log) && p.log[0].Began?
    && Phases(p.log) + Rest(cfg, p.phase) == Itinerary(cfg, failed)
    && (p.phase == LoadingWorkers ==> cfg.workers && !failed && p.inner == None && p.log == [p.log[0]])
    && (p.phase != LoadingWorkers ==>
          var last := p.log[|p.log| - 1];
          && last.Started? && last.phase == p.phase
          && p.inner == match LimitMs(p.phase, p.deadline - last.at)
                        case None => None
                        case Some(ms) => Some(last.at + ms))
    && (p.inner.Some? ==> p.now <= p.inner.value)
    && (p.phase == ClosingServer ==> cfg.server)
  }

  ghost predicate IsPrefix(a: seq<Phase>, b: seq<Phase>) { |a| <= |b| && b[..|a|] == a }

  ghost predicate EndedInv(cfg: Config, p: Process, failed: bool) {
    && p.exit.Some? && p.isShuttingDown && p.log != [] && p.log[0].Began? && WellTimed(cfg, p.log)
    && IsPrefix(Phases(p.log), Itinerary(cfg, failed))
    && var last := p.log[|p.log| - 1];
       match p.exit.value.reason
       case Completed =>
         && Phases(p.log) == Itinerary(cfg, failed) && !last.Started?
         && (last.Began? || p.exit.value.at == last.at)
       case ServerFailed =>
         && cfg.server && Phases(p.log) + If(cfg.app, StoppingApp) == Itinerary(cfg, failed)
         && last == Settled(ClosingServer, p.exit.value.at)
       case BudgetSpent => cfg.budgetMs > 0 && p.exit.value.at == p.log[0].at + cfg.budgetMs
       case Forced => cfg.budgetMs <= 0 && p.exit.value.at == p.log[0].at + ForceMs(cfg)
  }

  ghost predicate PhaseInv(cfg: Config, p: Process, failed: bool) {
    if !p.isShuttingDown then p.phase == Idle && p.log == [] && !failed && p.exit == None
    else if p.exit == None then RunningInv(cfg, p, failed)
    else EndedInv(cfg, p, failed)
  }

  lemma PhasesOfAppend(log: seq<Event>, e: Event)
    ensures Phases(log + [e]) == Phases(log) + if e.Started? then [e.phase] else []
  {
    assert (log + [e])[..|log|] == log;
  }

  lemma WellTimedAppend(cfg: Config, log: seq<Event>, e: Event)
    requires log != [] && WellTimed(cfg, log)
    requires log[|log| - 1].Started? ==>
      var last := log[|log| - 1];
      var limit := LimitMs(last.phase, log[0].at + cfg.budgetMs - last.at);
      && IsEndOf(e, last) && (limit.Some? ==> e.at <= last.at + limit.value)
      && (e.TimedOut? ==> limit.Some? && e.at == last.at + limit.value)
    ensures WellTimed(cfg, log + [e])
  {
    var all := log + [e];
    assert forall i :: 0 <= i < |log| ==> all[i] == log[i];
    hide LimitMs, IsEndOf;
  }

  // ---------- Between two phases ----------

  /** The log is closed, and these phases are still to come. */
  ghost predicate Between(cfg: Config, p: Process, failed: bool, rest: seq<Phase>) {
    && p.log != [] && p.deadline == p.log[0].at + cfg.budgetMs && p.isShuttingDown && p.exit == None
    && WellTimed(cfg, p.log) && p.log[0].Began? && !p.log[|p.log| - 1].Started?
    && (p.log[|p.log| - 1].Began? || p.log[|p.log| - 1].at == p.now)
    && Phases(p.log) + rest == Itinerary(cfg, failed)
  }

  /** A phase starts, with its timer. */
  lemma PhaseStarts(cfg: Config, p: Process, q: Process, failed: bool, rest: seq<Phase>)
    requires Between(cfg, p, failed, [q.phase] + rest) && rest == Rest(cfg, q.phase)
    requires q.phase == StoppingWorkers || q.phase == ClosingServer || q.phase == StoppingApp
    requires q.log == p.log + [Started(q.phase, p.now)] && q.now == p.now && q.deadline == p.deadline
    requires q.isShuttingDown && q.exit == None && (q.phase == ClosingServer ==> cfg.server)
    requires q.inner == match LimitMs(q.phase, p.deadline - p.now) case None => None case Some(ms) => Some(p.now + ms)
    ensures RunningInv(cfg, q, failed)
  {
    var e := Started(q.phase, p.now);
    WellTimedAppend(cfg, p.log, e);
    PhasesOfAppend(p.log, e);
    Associate(Phases(p.log), [q.phase], rest);
    hide WellTimed, Phases, Rest, Itinerary;
  }

  lemma WorkersStart(cfg: Config, p: Process)
    requires Between(cfg, p, false, [StoppingWorkers] + Rest(cfg, StoppingWorkers))
    ensures RunningInv(cfg, StartWorkers(p), false)
  {
    PhaseStarts(cfg, p, StartWorkers(p), false, Rest(cfg, StoppingWorkers));
  }

  ghost predicate Goes(cfg: Config, q: Process, failed: bool) {
    if q.exit == None then RunningInv(cfg, q, failed) else EndedInv(cfg, q, failed)
  }

  lemma AppGoes(cfg: Config, p: Process, failed: bool)
    requires Between(cfg, p, failed, If(cfg.app, StoppingApp))
    ensures Goes(cfg, StartApp(cfg, p), failed)
  {
    if cfg.app {
      assert [StoppingApp] + [] == [StoppingApp];
      PhaseStarts(cfg, p, StartApp(cfg, p), failed, []);
    } else {
      assert Phases(p.log) + [] == Phases(p.log);
    }
  }

  lemma ServerGoes(cfg: Config, p: Process, failed: bool)
    requires Between(cfg, p, failed, If(cfg.server, ClosingServer) + If(cfg.app, StoppingApp))
    ensures Goes(cfg, StartServer(cfg, p), failed)
  {
    if cfg.server {
      PhaseStarts(cfg, p, StartServer(cfg, p), failed, If(cfg.app, StoppingApp));
    } else {
      assert [] + If(cfg.app, StoppingApp) == If(cfg.app, StoppingApp);
      AppGoes(cfg, p, failed);
    }
  }

  /** A phase ends, by itself or by its timer. */
  lemma PhaseEnds(cfg: Config, p: Process, q: Process, failed: bool, e: Event)
    requires RunningInv(cfg, p, failed) && p.exit == None && p.phase != LoadingWorkers
    requires e == Settled(p.phase, p.now) || (e == TimedOut(p.phase, p.now) && p.inner == Some(p.now))
    requires q == p.(inner := None, log := p.log + [e])
    ensures Between(cfg, q, failed, Rest(cfg, p.phase))
  {
    WellTimedAppend(cfg, p.log, e);
    PhasesOfAppend(p.log, e);
    assert Phases(p.log) + [] == Phases(p.log);
    hide WellTimed, Phases, Rest, Itinerary;
  }

  // ---------- One step ----------

  lemma SignalKeepsPhases(cfg: Config, p: Process)
    requires PhaseInv(cfg, p, false) && !p.isShuttingDown && Inv(cfg, p)
    ensures PhaseInv(cfg, GracefulShutdown(cfg, p), false)
  {
    var begun := Begin(cfg, p);
    BegunIsBetween(cfg, p);
    if cfg.workers {
      LoadingIsRunning(cfg, begun);
    } else {
      ServerGoes(cfg, begun, false);
      ArmedKeeps(cfg, StartServer(cfg, begun), DueIn(p.now, cfg.budgetMs));
    }
    hide RunningInv, EndedInv, Begin, StartServer;
  }

  lemma ArmedKeeps(cfg: Config, q: Process, outer: Option<int>)
    requires Goes(cfg, q, false)
    ensures Goes(cfg, if q.exit.Some? then q else q.(outer := outer), false)
  {
    hide WellTimed, Phases, Itinerary, Rest, LimitMs;
  }

  lemma BegunIsBetween(cfg: Config, p: Process)
    requires PhaseInv(cfg, p, false) && !p.isShuttingDown && Inv(cfg, p)
    ensures var begun := Begin(cfg, p);
            && begun.log == [Began(p.now)] && begun.inner == None && begun.now == p.now
            && Between(cfg, begun, false, Itinerary(cfg, false))
            && (!cfg.workers ==> Between(cfg, begun, false, If(cfg.server, ClosingServer) + If(cfg.app, StoppingApp)))
  {
    var begun := Begin(cfg, p);
    assert begun.log == [Began(p.now)];
    assert Phases(begun.log) == [] by { assert [Began(p.now)][..0] == []; }
    assert [] + Itinerary(cfg, false) == Itinerary(cfg, false);
    if !cfg.workers {
      assert [] + If(cfg.server, ClosingServer) == If(cfg.server, ClosingServer);
    }
  }

  lemma LoadingIsRunning(cfg: Config, begun: Process)
    requires Between(cfg, begun, false, Itinerary(cfg, false)) && cfg.workers
    requires begun.inner == None && begun.log == [begun.log[0]]
    ensures RunningInv(cfg, begun.(phase := LoadingWorkers, outer := DueIn(begun.now, cfg.budgetMs)), false)
  {
  }

  /** The module was loaded or not: the workers come next, or they are left out. */
  lemma LoadingEnds(cfg: Config, p: Process, ok: bool)
    requires RunningInv(cfg, p, false) && p.phase == LoadingWorkers && p.exit == None
    ensures Goes(cfg, PhaseSettles(cfg, p, ok), !ok)
  {
    assert Phases(p.log) == [] by { assert p.log[..0] == []; }
    if ok {
      LoadedStarts(cfg, p);
    } else {
      NotLoadedGoes(cfg, p);
    }
  }

  lemma LoadedStarts(cfg: Config, p: Process)
    requires RunningInv(cfg, p, false) && p.phase == LoadingWorkers && p.exit == None && Phases(p.log) == []
    ensures RunningInv(cfg, StartWorkers(p), false)
  {
    var q, e := StartWorkers(p), Started(StoppingWorkers, p.now);
    WellTimedAppend(cfg, p.log, e);
    PhasesOfAppend(p.log, e);
    Associate([StoppingWorkers], If(cfg.server, ClosingServer), If(cfg.app, StoppingApp));
    hide WellTimed, Phases;
  }

  lemma NotLoadedGoes(cfg: Config, p: Process)
    requires RunningInv(cfg, p, false) && p.phase == LoadingWorkers && p.exit == None && Phases(p.log) == []
    ensures Goes(cfg, StartServer(cfg, p), true)
  {
    assert [] + If(cfg.server, ClosingServer) == If(cfg.server, ClosingServer);
    assert Phases(p.log) + (If(cfg.server, ClosingServer) + If(cfg.app, StoppingApp)) == Itinerary(cfg, true);
    ServerGoes(cfg, p, true);
  }

  lemma SettlingKeepsPhases(cfg: Config, p: Process, failed: bool, ok: bool)
    requires RunningInv(cfg, p, failed) && p.exit == None
    ensures Goes(cfg, PhaseSettles(cfg, p, ok), failed || (p.phase == LoadingWorkers && !ok))
  {
    if p.phase == LoadingWorkers {
      LoadingEnds(cfg, p, ok);
    } else {
      var done := p.(inner := None, log := p.log + [Settled(p.phase, p.now)]);
      PhaseEnds(cfg, p, done, failed, Settled(p.phase, p.now));
      match p.phase
      case StoppingWorkers => ServerGoes(cfg, done, failed);
      case ClosingServer => if ok { AppGoes(cfg, done, failed); } else { ServerFails(cfg, done, failed); }
      case StoppingApp => AllDone(cfg, done, failed);
    }
  }

  lemma ServerFails(cfg: Config, done: Process, failed: bool)
    requires Between(cfg, done, failed, If(cfg.app, StoppingApp)) && cfg.server
    requires done.log[|done.log| - 1] == Settled(ClosingServer, done.now)
    ensures EndedInv(cfg, End(done, ServerFailed), failed)
  {
    var phases := Phases(done.log);
    assert (phases + If(cfg.app, StoppingApp))[..|phases|] == phases;
  }

  lemma AllDone(cfg: Config, done: Process, failed: bool)
    requires Between(cfg, done, failed, []) && done.log[|done.log| - 1].at == done.now
    ensures EndedInv(cfg, End(done, Completed), failed)
  {
    assert Phases(done.log) + [] == Phases(done.log);
  }

  lemma TimeoutKeepsPhases(cfg: Config, p: Process, failed: bool)
    requires RunningInv(cfg, p, failed) && p.exit == None && IsDue(p, p.inner)
    ensures Goes(cfg, PhaseTimesOut(cfg, p), failed)
  {
    var late := p.(inner := None, log := p.log + [TimedOut(p.phase, p.now)]);
    PhaseEnds(cfg, p, late, failed, TimedOut(p.phase, p.now));
    if p.phase == StoppingWorkers { ServerGoes(cfg, late, failed); } else { AllDone(cfg, late, failed); }
  }

  lemma CutShort(cfg: Config, p: Process, failed: bool, reason: Reason)
    requires RunningInv(cfg, p, failed) && p.exit == None && TimersInv(cfg, p)
    requires (reason == BudgetSpent && IsDue(p, p.outer)) || (reason == Forced && IsDue(p, p.force))
    ensures EndedInv(cfg, End(p, reason), failed)
  {
    var phases := Phases(p.log);
    assert (phases + Rest(cfg, p.phase))[..|phases|] == phases;
    hide WellTimed, Phases, Rest, Itinerary;
  }

  lemma StepKeepsPhases(cfg: Config, p: Process, failed: bool, step: Step)
    requires Inv(cfg, p) && PhaseInv(cfg, p, failed)
    ensures PhaseInv(cfg, Next(cfg, p, step),
                     failed || (step == Settles(false) && p.phase == LoadingWorkers && p.exit.None?))
  {
    hide GracefulShutdown, PhaseTimesOut, PhaseSettles, WellTimed, Phases, Itinerary, Rest, LimitMs;
    if p.exit == None {
      match step
      case SetUp =>
      case Signal => if p.isShuttingDown { LaterSignal(cfg, p); } else { SignalKeepsPhases(cfg, p); }
      case Settles(ok) =>
        if p.isShuttingDown { SettlingKeepsPhases(cfg, p, failed, ok); } else { NothingSettles(cfg, p, ok); }
      case Fires(Inner) => if IsDue(p, p.inner) { TimeoutKeepsPhases(cfg, p, failed); }
      case Fires(Outer) => if IsDue(p, p.outer) { CutShort(cfg, p, failed, BudgetSpent); }
      case Fires(Force) => if IsDue(p, p.force) { CutShort(cfg, p, failed, Forced); }
      case TimePasses(ms) =>
    }
  }

  lemma LaterSignal(cfg: Config, p: Process)
    requires p.isShuttingDown
    ensures GracefulShutdown(cfg, p) == p
  {
  }

  lemma NothingSettles(cfg: Config, p: Process, ok: bool)
    requires p.phase == Idle
    ensures PhaseSettles(cfg, p, ok) == p
  {
  }

  lemma {:induction false} RunKeepsPhases(cfg: Config, start: int, run: seq<Step>)
    ensures PhaseInv(cfg, After(cfg, start, run), LoadFailed(cfg, start, run))
  {
    if run != [] {
      var before := run[..|run| - 1];
      RunKeepsPhases(cfg, start, before);
      RunKeepsInv(cfg, start, before);
      StepKeepsPhases(cfg, After(cfg, start, before), LoadFailed(cfg, start, before), run[|run| - 1]);
    }
  }

  // ---------- The promises ----------

  /** In every run the phases that were started are the first ones of the itinerary: workers if there are any
      and their module was loaded, then server, then application.  A completed shutdown has been through all of
      them, one that ended at a failed server close through all but the application. */
  lemma PhasesFollowTheItinerary(cfg: Config, start: int, run: seq<Step>)
    ensures var p, way := After(cfg, start, run), Itinerary(cfg, LoadFailed(cfg, start, run));
            && (p.isShuttingDown ==> IsPrefix(Phases(p.log), way))
            && (p.exit.Some? && p.exit.value.reason == Completed ==> Phases(p.log) == way)
            && (p.exit.Some? && p.exit.value.reason == ServerFailed ==>
                  cfg.server && Phases(p.log) + If(cfg.app, StoppingApp) == way)
  {
    RunKeepsPhases(cfg, start, run);
    var p, way := After(cfg, start, run), Itinerary(cfg, LoadFailed(cfg, start, run));
    if p.isShuttingDown && p.exit == None {
      assert way == Phases(p.log) + Rest(cfg, p.phase);
      assert (Phases(p.log) + Rest(cfg, p.phase))[..|Phases(p.log)|] == Phases(p.log);
    }
  }

  lemma NothingIsWellTimed(cfg: Config)
    ensures WellTimed(cfg, [])
  {
  }

  /** Each phase that was started ends before anything else happens, the workers within 15000 ms and the
      application within 5000 ms or what is left of the budget, if that is less and positive; the server has no
      limit of its own. */
  lemma PhasesEndInTime(cfg: Config, start: int, run: seq<Step>)
    ensures var p := After(cfg, start, run);
            && WellTimed(cfg, p.log) && (p.isShuttingDown ==> p.log != [])
            && (p.exit == None && p.isShuttingDown && p.log[|p.log| - 1].Started? ==>
                  var last := p.log[|p.log| - 1];
                  var limit := LimitMs(last.phase, p.log[0].at + cfg.budgetMs - last.at);
                  limit.Some? ==> p.now <= last.at + limit.value)
  {
    RunKeepsPhases(cfg, start, run);
    NothingIsWellTimed(cfg);
    hide WellTimed, Phases, Itinerary, Rest, LoadFailed;
  }

  /** The exit says how the shutdown went: code 0 when all phases are over (or by the forced exit, which comes
      only without a budget), code 1 exactly when the budget is spent or with a failed server close. */
  lemma ExitTellsTheEnd(cfg: Config, start: int, run: seq<Step>)
    ensures var p := After(cfg, start, run);
            p.exit.Some? ==>
              p.log != [] &&
              var began, last, exit := p.log[0].at, p.log[|p.log| - 1], p.exit.value;
              match exit.reason
              case Completed => ExitCode(exit.reason) == 0 && !last.Started? && (last.Began? || exit.at == last.at)
              case ServerFailed => ExitCode(exit.reason) == 1 && last == Settled(ClosingServer, exit.at)
              case BudgetSpent => ExitCode(exit.reason) == 1 && cfg.budgetMs > 0 && exit.at == began + cfg.budgetMs
              case Forced =>
                var ms := if cfg.forceExitMs > cfg.budgetMs + 250 then cfg.forceExitMs else cfg.budgetMs + 250;
                ExitCode(exit.reason) == 0 && cfg.budgetMs <= 0 && exit.at == began + if ms > 1 then ms else 1
  {
    RunKeepsPhases(cfg, start, run);
  }

  /** The first phase that was started, and its place in the log. */
  lemma {:induction false} FirstPhase(log: seq<Event>) returns (i: nat)
    requires Phases(log) != []
    ensures i < |log| && log[i].Started? && log[i].phase == Phases(log)[0]
    ensures forall j :: 0 <= j < i ==> !log[j].Started?
  {
    var front, last := log[..|log| - 1], log[|log| - 1];
    if Phases(front) != [] {
      i := FirstPhase(front);
      assert log[i] == front[i];
    } else {
      i := |log| - 1;
      NothingStarted(front);
      assert forall j :: 0 <= j < i ==> log[j] == front[j];
    }
  }

  lemma {:induction false} NothingStarted(log: seq<Event>)
    ensures Phases(log) == [] <==> forall j :: 0 <= j < |log| ==> !log[j].Started?
  {
    if log != [] {
      var front := log[..|log| - 1];
      NothingStarted(front);
      assert forall j :: 0 <= j < |front| ==> log[j] == front[j];
    }
  }

  /** With workers whose module was loaded, nothing is shut down before the workers, and no shutdown completes or
      fails at the server without them. */
  lemma WorkersGoFirst(cfg: Config, start: int, run: seq<Step>, j: nat)
    requires cfg.workers && !LoadFailed(cfg, start, run)
    ensures var p := After(cfg, start, run);
            && (j < |p.log| && p.log[j].Started? && p.log[j].phase != StoppingWorkers ==>
                  exists i :: 0 <= i < j && p.log[i].Started? && p.log[i].phase == StoppingWorkers)
            && (p.exit.Some? && (p.exit.value.reason == Completed || p.exit.value.reason == ServerFailed) ==>
                  exists i :: 0 <= i < |p.log| && p.log[i].Started? && p.log[i].phase == StoppingWorkers)
  {
    PhasesFollowTheItinerary(cfg, start, run);
    var p, way := After(cfg, start, run), Itinerary(cfg, false);
    assert way[0] == StoppingWorkers && |way| <= 3;
    NothingStarted(p.log);
    RunKeepsPhases(cfg, start, run);
    if p.exit.Some? && p.exit.value.reason == ServerFailed {
      FailedServerIsSecond(cfg, Phases(p.log));
    }
    hide PhaseInv, LoadFailed, Itinerary;
    if Phases(p.log) != [] {
      assert Phases(p.log)[0] == way[..|Phases(p.log)|][0];
      var i := FirstPhase(p.log);
    }
  }

  lemma FailedServerIsSecond(cfg: Config, phases: seq<Phase>)
    requires cfg.workers && phases + If(cfg.app, StoppingApp) == Itinerary(cfg, false)
    ensures phases != []
  {
    assert |Itinerary(cfg, false)| >= 1 + |If(cfg.app, StoppingApp)|;
    assert |phases + If(cfg.app, StoppingApp)| == |phases| + |If(cfg.app, StoppingApp)|;
  }

  // ---------- Something happens ----------

  lemma {:induction false} SetUpLasts(cfg: Config, start: int, run: seq<Step>)
    requires SetUp in run
    ensures var p := After(cfg, start, run); p.handlersRegistered || p.exit.Some?
  {
    var before, last := run[..|run| - 1], run[|run| - 1];
    assert run == before + [last];
    if SetUp in before { SetUpLasts(cfg, start, before); }
  }

  /** Once the handlers are set up, a signal begins the shutdown. */
  lemma SignalIsHeard(cfg: Config, start: int, run: seq<Step>)
    requires SetUp in run
    ensures After(cfg, start, run + [Signal]).isShuttingDown
  {
    assert (run + [Signal])[..|run|] == run;
    SetUpLasts(cfg, start, run);
    RunKeepsPhases(cfg, start, run);
    hide After, LoadFailed, RunningInv, EndedInv;
    BegunShutsDown(cfg, After(cfg, start, run));
  }

  /** Without handlers it does not. */
  lemma {:induction false} SignalIsNotHeard(cfg: Config, start: int, run: seq<Step>)
    requires SetUp !in run
    ensures var p := After(cfg, start, run); !p.isShuttingDown && !p.handlersRegistered && p.exit == None
    ensures After(cfg, start, run).phase == Idle && After(cfg, start, run).outer == None
    ensures After(cfg, start, run).inner == None && After(cfg, start, run).force == None
  {
    if run != [] {
      SignalIsNotHeard(cfg, start, run[..|run| - 1]);
      assert run[|run| - 1] in run;
    }
  }

  lemma BegunShutsDown(cfg: Config, p: Process)
    ensures GracefulShutdown(cfg, p).isShuttingDown
  {
  }

  /** The state when the next `n` promises have been fulfilled at once. */
  function Fulfilled(cfg: Config, p: Process, n: nat): Process
    decreases n
  {
    if n == 0 then p else Fulfilled(cfg, Next(cfg, p, Settles(true)), n - 1)
  }

  function StepsLeft(phase: Phase): nat {
    match phase
    case Idle => 0
    case LoadingWorkers => 4
    case StoppingWorkers => 3
    case ClosingServer => 2
    case StoppingApp => 1
  }

  lemma {:induction false} RunningFinishes(cfg: Config, p: Process, n: nat)
    requires p.isShuttingDown && p.exit == None && p.phase != Idle && StepsLeft(p.phase) <= n
    ensures Fulfilled(cfg, p, n).exit == Some(Exit(Completed, p.now))
    decreases n
  {
    var q := Next(cfg, p, Settles(true));
    if q.exit == None {
      assert StepsLeft(q.phase) < StepsLeft(p.phase);
      RunningFinishes(cfg, q, n - 1);
    } else {
      EndedStays(cfg, q, n - 1);
    }
  }

  lemma {:induction false} EndedStays(cfg: Config, p: Process, n: nat)
    requires p.exit.Some?
    ensures Fulfilled(cfg, p, n) == p
    decreases n
  {
    if n > 0 { EndedStays(cfg, p, n - 1); }
  }

  /** From any moment of a shutdown, if all that is awaited is fulfilled at once, the shutdown completes then. */
  lemma FulfilledShutdownCompletes(cfg: Config, start: int, run: seq<Step>)
    ensures var p := After(cfg, start, run);
            p.isShuttingDown && p.exit == None ==> Fulfilled(cfg, p, 4).exit == Some(Exit(Completed, p.now))
  {
    RunKeepsPhases(cfg, start, run);
    var p := After(cfg, start, run);
    hide After, Fulfilled, LoadFailed;
    if p.isShuttingDown && p.exit == None { RunningFinishes(cfg, p, 4); }
  }
}
