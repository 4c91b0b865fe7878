/** Every buffered line reaches the disk: a file with pending lines has a tick scheduled, and once the
    scheduled ticks have run nothing is pending. */
module LogProgress {
  import opened Text
  import opened LogNames
  import opened LogRetention
  import opened LogWriter
  import opened LogConservation
  import opened LogReading

  // ---------- Pending lines have a tick ----------

  ghost predicate Scheduled(s: State) {
    forall name :: PendingOf(s, name) != [] ==> name in s.ticks
  }

  lemma StepSchedules(cfg: Settings, s: State, step: Step)
    requires Scheduled(s)
    ensures Scheduled(Do(cfg, s, step))
  {
    var s' := Do(cfg, s, step);
    hide AgeSurvivors, LiveName, RotatedName, Concat, MustRotate;
    forall name | PendingOf(s', name) != [] ensures name in s'.ticks {
      match step
      case Write(line, clock) =>
        if name != LogFileAt(clock) { assert PendingOf(s', name) == PendingOf(s, name); }
      case RunTick(now) =>
        assert s.ticks != [] ==> s.ticks == [s.ticks[0]] + s.ticks[1..];
        assert PendingOf(s', name) == PendingOf(s, name);
      case FlushAll(now) =>
    }
  }

  /** In every reachable state, a file with pending lines has a tick scheduled. */
  lemma {:induction false} PendingIsScheduled(cfg: Settings, files: Dir, run: seq<Step>, name: string)
    ensures PendingOf(After(cfg, files, run), name) != [] ==> name in After(cfg, files, run).ticks
  {
    RunSchedules(cfg, files, run);
  }

  lemma {:induction false} RunSchedules(cfg: Settings, files: Dir, run: seq<Step>)
    ensures Scheduled(After(cfg, files, run))
  {
    if run != [] {
      RunSchedules(cfg, files, run[..|run| - 1]);
      StepSchedules(cfg, After(cfg, files, run[..|run| - 1]), run[|run| - 1]);
    }
  }

  // ---------- Running the ticks ----------

  /** The event loop runs one tick at each of these clock readings. */
  function Ticks(nows: seq<int>): (steps: seq<Step>)
    ensures |steps| == |nows|
  {
    if nows == [] then [] else Ticks(nows[..|nows| - 1]) + [RunTick(nows[|nows| - 1])]
  }

  lemma TickOfAppend(cfg: Settings, files: Dir, run: seq<Step>, now: int, day: nat, earlier: seq<nat>)
    ensures var all := run + [RunTick(now)];
            && After(cfg, files, all) == AfterTick(cfg, After(cfg, files, run), now)
            && LinesOf(all, day) == LinesOf(run, day)
            && Stamps(cfg, files, all, day) == Stamps(cfg, files, run, day)
            && (CarefulRun(cfg, files, run, day, earlier) ==> CarefulRun(cfg, files, all, day, earlier))
  {
    var all := run + [RunTick(now)];
    assert all[..|all| - 1] == run;
    hide AfterTick;
  }

  lemma {:induction false} TicksRun(cfg: Settings, files: Dir, run: seq<Step>, nows: seq<int>, day: nat,
                                    earlier: seq<nat>)
    requires |nows| <= |After(cfg, files, run).ticks|
    ensures var all := run + Ticks(nows);
            && After(cfg, files, all).ticks == After(cfg, files, run).ticks[|nows|..]
            && LinesOf(all, day) == LinesOf(run, day)
            && Stamps(cfg, files, all, day) == Stamps(cfg, files, run, day)
            && (CarefulRun(cfg, files, run, day, earlier) ==> CarefulRun(cfg, files, all, day, earlier))
  {
    if nows == [] {
      assert run + [] == run;
      hide *;
    } else {
      var before, now := nows[..|nows| - 1], nows[|nows| - 1];
      assert Ticks(nows) == Ticks(before) + [RunTick(now)];
      hide *;
      TicksRun(cfg, files, run, before, day, earlier);
      Associate(run, Ticks(before), [RunTick(now)]);
      TickOfAppend(cfg, files, run + Ticks(before), now, day, earlier);
      TickPops(cfg, After(cfg, files, run + Ticks(before)), now);
      OneFewer(After(cfg, files, run).ticks, |nows|);
    }
  }

  lemma OneFewer(ticks: seq<string>, n: nat)
    requires 0 < n <= |ticks|
    ensures ticks[n - 1..] != [] && ticks[n - 1..][1..] == ticks[n..]
  {
  }

  lemma TickPops(cfg: Settings, s: State, now: int)
    ensures s.ticks != [] ==> AfterTick(cfg, s, now).ticks == s.ticks[1..]
  {
  }

  /** After any careful run, once the ticks that are scheduled then have run, nothing is pending: the earlier
      pieces, the pieces of the run and the live file hold what was there and every line written that day. */
  lemma EveryLineReachesTheDisk(cfg: Settings, files: Dir, run: seq<Step>, nows: seq<int>, day: nat,
                                earlier: seq<nat>)
    requires day < LAST_DAY && CarefulRun(cfg, files, run, day, earlier)
    requires |nows| == |After(cfg, files, run).ticks|
    ensures var s := After(cfg, files, run + Ticks(nows));
            && (forall name :: PendingOf(s, name) == [])
            && Pieces(s.files, day, earlier + Stamps(cfg, files, run, day)) + ContentOf(s.files, LiveName(day))
               == Pieces(files, day, earlier) + ContentOf(files, LiveName(day)) + LinesOf(run, day)
  {
    var all := run + Ticks(nows);
    var s := After(cfg, files, all);
    TicksRun(cfg, files, run, nows, day, earlier);
    forall name ensures PendingOf(s, name) == [] {
      PendingIsScheduled(cfg, files, all, name);
    }
    LinesAreConserved(cfg, files, all, day, earlier);
    HeldWithoutPending(s, day, earlier + Stamps(cfg, files, run, day));
    HeldWithoutPending(Start(files), day, earlier);
    hide *;
    assert Start(files).files == files by { StartFiles(files); }
  }

  lemma StartFiles(files: Dir)
    ensures Start(files).files == files
  {
  }

  lemma HeldWithoutPending(s: State, day: nat, stamps: seq<nat>)
    requires PendingOf(s, LiveName(day)) == []
    ensures Held(s, day, stamps) == Pieces(s.files, day, stamps) + ContentOf(s.files, LiveName(day))
  {
    hide LiveName, Pieces;
    var held := Pieces(s.files, day, stamps) + ContentOf(s.files, LiveName(day));
    assert held + "" == held;
  }

  /** The same, read from the day's files in the order of their names. */
  lemma EveryLineIsReadBack(cfg: Settings, files: Dir, run: seq<Step>, nows: seq<int>, day: nat, earlier: seq<nat>)
    requires day < LAST_DAY && CarefulRun(cfg, files, run, day, earlier)
    requires DayFiles(files, day, earlier) && Rising(earlier + Stamps(cfg, files, run, day))
    requires |nows| == |After(cfg, files, run).ticks|
    ensures ReadDay(After(cfg, files, run + Ticks(nows)).files, day) == ReadDay(files, day) + LinesOf(run, day)
  {
    var s := After(cfg, files, run + Ticks(nows));
    TicksRun(cfg, files, run, nows, day, earlier);
    NameOrderReadsTheDayBack(cfg, files, run + Ticks(nows), day, earlier);
    EveryLineReachesTheDisk(cfg, files, run, nows, day, earlier);
    assert PendingOf(s, LiveName(day)) == [];
    hide *;
    NothingPending(ReadDay(s.files, day));
  }

  lemma NothingPending(text: string)
    ensures text + Concat([]) == text
  {
  }

  // ---------- Streams ----------

  /** Once a tick has written to a file, a line that follows survives a flush before its own tick, as long as
      the file is not rotated in between. */
  lemma FlushAfterATickKeepsTheLine(cfg: Settings, s: State, tick: int, line: string, clock: Clock, now: int,
                                    day: nat, stamps: seq<nat>)
    requires cfg.streams && Inv(cfg, s) && clock.today < CLOCK_END && day == DayOf(clock.today)
    requires s.ticks != [] && s.ticks[0] == LiveName(day) && PendingOf(s, LiveName(day)) != []
    requires var ticked := AfterTick(cfg, s, tick);
             Careful(cfg, ticked, Write(line, clock), day, stamps) && !Rotates(cfg, ticked, Write(line, clock), day)
    ensures var written := AfterWrite(cfg, AfterTick(cfg, s, tick), line, clock);
            Held(AfterFlush(written, now), day, stamps) == Held(s, day, stamps) + (line + "\n")
  {
    DayInRange(clock);
    var ticked := AfterTick(cfg, s, tick);
    var written := AfterWrite(cfg, ticked, line, clock);
    TickConserves(cfg, s, tick, day, stamps);
    TickOpensTheStream(cfg, s, tick);
    WriteConserves(cfg, ticked, line, clock, day, stamps);
    WriteKeepsTheStream(cfg, ticked, line, clock);
    assert stamps + [] == stamps;
    hide AfterTick, AfterWrite, LiveName, Held, AfterFlush, Careful, Inv;
    KeptByFlush(cfg, written, now, day, stamps);
  }

  /** A flush forgets the streams: the next line is lost to a second flush that precedes its tick. */
  lemma SecondFlushLosesTheLine(cfg: Settings, s: State, first: int, line: string, clock: Clock, now: int,
                                day: nat, stamps: seq<nat>)
    requires cfg.streams && Inv(cfg, s) && clock.today < CLOCK_END && day == DayOf(clock.today)
    requires Careful(cfg, AfterFlush(s, first), Write(line, clock), day, stamps)
    ensures var flushed, step := AfterFlush(s, first), Write(line, clock);
            Held(AfterFlush(AfterWrite(cfg, flushed, line, clock), now), day,
                 stamps + StampOf(cfg, flushed, step, day))
            == Held(flushed, day, stamps)
  {
    FlushEmpties(cfg, s, first);
    hide AfterFlush, AfterWrite, Held, Careful, LiveName, MustRotate;
    FlushBeforeTheTickLosesTheLine(cfg, AfterFlush(s, first), line, clock, now, day, stamps);
  }

  lemma FlushEmpties(cfg: Settings, s: State, now: int)
    ensures AfterFlush(s, now).cached == {} && AfterFlush(s, now).pending == map[] && Inv(cfg, AfterFlush(s, now))
    ensures forall name :: PendingOf(AfterFlush(s, now), name) == []
  {
  }

  lemma KeptByFlush(cfg: Settings, s: State, now: int, day: nat, stamps: seq<nat>)
    requires day < LAST_DAY && Inv(cfg, s) && LiveName(day) in s.cached
    ensures Held(AfterFlush(s, now), day, stamps) == Held(s, day, stamps)
  {
    FlushHolds(s, now, day, stamps);
  }

  lemma TickOpensTheStream(cfg: Settings, s: State, now: int)
    requires cfg.streams && s.ticks != [] && PendingOf(s, s.ticks[0]) != []
    ensures s.ticks[0] in AfterTick(cfg, s, now).cached
  {
  }

  lemma WriteKeepsTheStream(cfg: Settings, s: State, line: string, clock: Clock)
    requires !Rotates(cfg, s, Write(line, clock), DayOf(clock.today))
    ensures AfterWrite(cfg, s, line, clock).cached == s.cached
  {
    hide AgeSurvivors, LiveName;
  }

  // ---------- Rotation and age in a write ----------

  /** Whenever lines are buffered for a file, the file is within the rotation size, if there is one. */
  lemma WriteFindsRoom(cfg: Settings, s: State, line: string, clock: Clock)
    requires cfg.streams && cfg.rotationSize > 0 && clock.today < CLOCK_END
    ensures |Encoded(ContentOf(AfterWrite(cfg, s, line, clock).files, LogFileAt(clock)))| <= cfg.rotationSize
  {
    DayInRange(clock);
    var live := LogFileAt(clock);
    PieceIsNoLiveFile(DayOf(clock.today), clock.stamp, DayOf(clock.today));
    if live in s.files { ByteSizeIsEncodedLength(s.files[live].content); }
    hide LiveName, RotatedName, Aged, ByteSize, Encoded;
    assert Encoded("") == [] by { NothingEncoded(); }
  }

  lemma NothingEncoded()
    ensures Encoded("") == []
  {
  }

  /** A write ends by removing what is too old: of the files it has not just written or renamed, exactly those
      remain that the age policy lets stay. */
  lemma WriteRemovesOldFiles(cfg: Settings, s: State, line: string, clock: Clock, name: string)
    requires name != LogFileAt(clock) && name != RotatedName(LogFileAt(clock), clock.stamp)
    ensures name in AfterWrite(cfg, s, line, clock).files
            <==> name in s.files && StaysByAge(name, s.files[name].mtime, cfg.rotationDays, clock.cleanup)
  {
    var live := LogFileAt(clock);
    var buffered := Buffer(cfg, AfterRotate(cfg, s, live, clock.stamp), live, line, clock.today);
    AgeSurvivorsExactlyWhen(buffered.files, cfg.rotationDays, clock.cleanup);
    hide LiveName, RotatedName, StaysByAge, AgeSurvivors;
  }
}
