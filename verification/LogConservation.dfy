/** Whole runs of the log writer: no line is lost, duplicated or reordered, for any interleaving of
    writes, ticks and flushes, as long as no rotation reuses a stamp, no flush finds pending lines
    without a stream, and the age policy has not yet reached the day in question. */
module LogConservation {
  import opened Text
  import opened LogNames
  import opened LogRetention
  import opened LogWriter

  const LAST_DAY := EPOCH_DAY + CLOCK_END / DAY_MS

  datatype Step = Write(line: string, clock: Clock) | RunTick(now: int) | FlushAll(now: int)

  function Do(cfg: Settings, s: State, step: Step): State {
    match step
    case Write(line, clock) => AfterWrite(cfg, s, line, clock)
    case RunTick(now) => AfterTick(cfg, s, now)
    case FlushAll(now) => AfterFlush(s, now)
  }

  /** A writer that has just been loaded, over whatever the directory holds. */
  function Start(files: Dir): State { State(files, {}, map[], []) }

  function After(cfg: Settings, files: Dir, run: seq<Step>): State {
    if run == [] then Start(files) else Do(cfg, After(cfg, files, run[..|run| - 1]), run[|run| - 1])
  }

  // ---------- What was written and where it is ----------

  predicate IsWriteOn(step: Step, day: nat) { step.Write? && DayOf(step.clock.today) == day }

  /** Everything the run wrote on a day, in order. */
  function LinesOf(run: seq<Step>, day: nat): string {
    if run == [] then ""
    else
      var last := run[|run| - 1];
      LinesOf(run[..|run| - 1], day) + if IsWriteOn(last, day) then last.line + "\n" else ""
  }

  predicate Rotates(cfg: Settings, s: State, step: Step, day: nat) {
    IsWriteOn(step, day) && MustRotate(cfg, s.files, LiveName(day))
  }

  function StampOf(cfg: Settings, s: State, step: Step, day: nat): seq<nat> {
    if Rotates(cfg, s, step, day) then [step.clock.stamp] else []
  }

  /** The stamps of the rotations of a day's file, in the order of the rotations. */
  function Stamps(cfg: Settings, files: Dir, run: seq<Step>, day: nat): seq<nat> {
    if run == [] then []
    else
      var before := run[..|run| - 1];
      Stamps(cfg, files, before, day) + StampOf(cfg, After(cfg, files, before), run[|run| - 1], day)
  }

  function PieceName(day: nat, stamp: nat): string { NameOf(Rotated(day, stamp)) }

  function Pieces(files: Dir, day: nat, stamps: seq<nat>): string {
    if stamps == [] then ""
    else
      Pieces(files, day, stamps[..|stamps| - 1]) + ContentOf(files, PieceName(day, stamps[|stamps| - 1]))
  }

  /** The rotated pieces in rotation order, then the live file, then the pending lines. */
  function Held(s: State, day: nat, stamps: seq<nat>): string {
    var live := LiveName(day);
    Pieces(s.files, day, stamps) + ContentOf(s.files, live) + Concat(PendingOf(s, live))
  }

  // ---------- The conditions ----------

  /** The step neither reuses a rotation stamp of the day, nor flushes pending lines that have no
      stream, nor lets the age policy reach the day. */
  predicate Careful(cfg: Settings, s: State, step: Step, day: nat, stamps: seq<nat>) {
    match step
    case Write(_, clock) =>
      && clock.today < CLOCK_END
      && (Rotates(cfg, s, step, day) ==> clock.stamp !in stamps)
      && (cfg.rotationDays > 0 ==> clock.cleanup - cfg.rotationDays * DAY_MS <= Midnight(day))
    case RunTick(_) => true
    case FlushAll(_) => PendingOf(s, LiveName(day)) != [] ==> LiveName(day) in s.cached
  }

  /** Every step is careful, also of the pieces of the day that an earlier process has left. */
  ghost predicate CarefulRun(cfg: Settings, files: Dir, run: seq<Step>, day: nat, earlier: seq<nat>) {
    run != [] ==>
      var before := run[..|run| - 1];
      && CarefulRun(cfg, files, before, day, earlier)
      && Careful(cfg, After(cfg, files, before), run[|run| - 1], day, earlier + Stamps(cfg, files, before, day))
  }

  /** Lines are only ever pending for live files. */
  ghost predicate PendingIsLive(s: State) {
    forall name :: name in s.pending ==> exists d: nat :: d < LAST_DAY && name == LiveName(d)
  }

  // ---------- One step ----------

  lemma {:induction false} PiecesAgree(files: Dir, files': Dir, day: nat, stamps: seq<nat>)
    requires forall stamp :: stamp in stamps ==>
      ContentOf(files, PieceName(day, stamp)) == ContentOf(files', PieceName(day, stamp))
    ensures Pieces(files, day, stamps) == Pieces(files', day, stamps)
  {
    if stamps != [] {
      assert stamps[|stamps| - 1] in stamps;
      assert forall stamp :: stamp in stamps[..|stamps| - 1] ==> stamp in stamps;
      PiecesAgree(files, files', day, stamps[..|stamps| - 1]);
    }
  }

  lemma PieceIsNoLiveFile(day: nat, stamp: nat, d: nat)
    requires day < LAST_DAY && d < LAST_DAY
    ensures PieceName(day, stamp) != LiveName(d)
  {
    NamesAreDistinct(Rotated(day, stamp), Live(d));
  }

  lemma LiveNamesDiffer(d: nat, day: nat)
    requires day < LAST_DAY && d < LAST_DAY
    ensures LiveName(d) == LiveName(day) <==> d == day
  {
    NamesAreDistinct(Live(d), Live(day));
  }

  lemma RotationRenames(cfg: Settings, s: State, d: nat, stamp: nat)
    requires MustRotate(cfg, s.files, LiveName(d))
    ensures AfterRotate(cfg, s, LiveName(d), stamp).files
            == (s.files - {LiveName(d)})[PieceName(d, stamp) := s.files[LiveName(d)]]
    ensures AfterRotate(cfg, s, LiveName(d), stamp).pending == s.pending
  {
  }

  lemma PiecesDiffer(d: nat, stamp: nat, day: nat, t: nat)
    requires day < LAST_DAY && d < LAST_DAY && (d != day || stamp != t)
    ensures PieceName(d, stamp) != PieceName(day, t)
  {
    NamesAreDistinct(Rotated(d, stamp), Rotated(day, t));
  }

  lemma RotationOfAnotherDay(cfg: Settings, s: State, d: nat, stamp: nat, day: nat, stamps: seq<nat>)
    requires day < LAST_DAY && d < LAST_DAY && d != day
    ensures Held(AfterRotate(cfg, s, LiveName(d), stamp), day, stamps) == Held(s, day, stamps)
  {
    if MustRotate(cfg, s.files, LiveName(d)) {
      hide LiveName, PieceName, MustRotate;
      var s' := AfterRotate(cfg, s, LiveName(d), stamp);
      RotationRenames(cfg, s, d, stamp);
      LiveNamesDiffer(d, day);
      PieceIsNoLiveFile(d, stamp, day);
      forall t | t in stamps
        ensures ContentOf(s.files, PieceName(day, t)) == ContentOf(s'.files, PieceName(day, t))
      {
        PieceIsNoLiveFile(day, t, d);
        PiecesDiffer(d, stamp, day, t);
      }
      PiecesAgree(s.files, s'.files, day, stamps);
    }
  }

  /** What a rotation does to the other pieces of its day: nothing. */
  lemma OtherPiecesStay(cfg: Settings, s: State, stamp: nat, day: nat, t: nat)
    requires day < LAST_DAY && MustRotate(cfg, s.files, LiveName(day)) && t != stamp
    ensures ContentOf(AfterRotate(cfg, s, LiveName(day), stamp).files, PieceName(day, t))
            == ContentOf(s.files, PieceName(day, t))
  {
    hide LiveName, PieceName, MustRotate;
    RotationRenames(cfg, s, day, stamp);
    PieceIsNoLiveFile(day, t, day);
    PiecesDiffer(day, stamp, day, t);
  }

  /** The live file becomes the piece of its stamp. */
  lemma LiveBecomesPiece(cfg: Settings, s: State, stamp: nat, day: nat)
    requires day < LAST_DAY && MustRotate(cfg, s.files, LiveName(day))
    ensures var s' := AfterRotate(cfg, s, LiveName(day), stamp);
            && ContentOf(s'.files, PieceName(day, stamp)) == ContentOf(s.files, LiveName(day))
            && ContentOf(s'.files, LiveName(day)) == ""
            && s'.pending == s.pending
  {
    hide LiveName, PieceName;
    RotationRenames(cfg, s, day, stamp);
    PieceIsNoLiveFile(day, stamp, day);
  }

  lemma RotationKeepsContent(cfg: Settings, s: State, stamp: nat, day: nat, stamps: seq<nat>)
    requires day < LAST_DAY && MustRotate(cfg, s.files, LiveName(day)) && stamp !in stamps
    ensures Held(AfterRotate(cfg, s, LiveName(day), stamp), day, stamps + [stamp]) == Held(s, day, stamps)
  {
    var s' := AfterRotate(cfg, s, LiveName(day), stamp);
    forall t | t in stamps
      ensures ContentOf(s.files, PieceName(day, t)) == ContentOf(s'.files, PieceName(day, t))
    {
      OtherPiecesStay(cfg, s, stamp, day, t);
    }
    LiveBecomesPiece(cfg, s, stamp, day);
    PiecesAgree(s.files, s'.files, day, stamps);
    OnePieceMore(s'.files, day, stamps, stamp);
    hide AfterRotate, LiveName, PieceName, ContentOf, MustRotate, Pieces, Concat;
    var kept := Pieces(s.files, day, stamps) + ContentOf(s.files, LiveName(day));
    assert kept + "" == kept;
  }

  lemma OnePieceMore(files: Dir, day: nat, stamps: seq<nat>, stamp: nat)
    ensures Pieces(files, day, stamps + [stamp])
            == Pieces(files, day, stamps) + ContentOf(files, PieceName(day, stamp))
  {
    assert (stamps + [stamp])[..|stamps|] == stamps;
  }

  lemma AppendToLive(s: State, d: nat, text: string, now: int, day: nat, stamps: seq<nat>)
    requires day < LAST_DAY && d < LAST_DAY
    ensures Pieces(Append(s.files, LiveName(d), text, now), day, stamps) == Pieces(s.files, day, stamps)
    ensures d != day ==>
      ContentOf(Append(s.files, LiveName(d), text, now), LiveName(day)) == ContentOf(s.files, LiveName(day))
  {
    hide LiveName, PieceName;
    LiveNamesDiffer(d, day);
    forall t | t in stamps ensures PieceName(day, t) != LiveName(d) {
      PieceIsNoLiveFile(day, t, d);
    }
    PiecesAgree(s.files, Append(s.files, LiveName(d), text, now), day, stamps);
  }

  lemma ConcatOne(lines: seq<string>, line: string)
    ensures Concat(lines + [line]) == Concat(lines) + line
  {
    assert (lines + [line])[..|lines|] == lines;
  }

  lemma Regroup(a: string, b: string, c: string, d: string)
    ensures a + b + (c + d) == a + b + c + d
    ensures a + (b + c) + "" == a + b + "" + c
    ensures a + (b + c) + "" == a + b + c
  {
  }

  lemma BufferAddsTheLine(cfg: Settings, s: State, d: nat, line: string, now: int, day: nat, stamps: seq<nat>)
    requires day < LAST_DAY && d < LAST_DAY
    requires !cfg.streams ==> Concat(PendingOf(s, LiveName(day))) == ""
    ensures Held(Buffer(cfg, s, LiveName(d), line, now), day, stamps)
            == Held(s, day, stamps) + if d == day then line + "\n" else ""
  {
    hide LiveName, Pieces, Concat;
    var live := LiveName(day);
    var pieces, content := Pieces(s.files, day, stamps), ContentOf(s.files, live);
    LiveNamesDiffer(d, day);
    AppendToLive(s, d, line + "\n", now, day, stamps);
    ConcatOne(PendingOf(s, live), line + "\n");
    Regroup(pieces, content, Concat(PendingOf(s, live)), line + "\n");
    if !cfg.streams { Regroup(pieces, content, line + "\n", ""); }
  }

  lemma AgeSpares(cfg: Settings, files: Dir, name: LogName, now: int)
    requires name.day < LAST_DAY
    requires cfg.rotationDays > 0 ==> now - cfg.rotationDays * DAY_MS <= Midnight(name.day)
    ensures ContentOf(AgeSurvivors(files, cfg.rotationDays, now), NameOf(name)) == ContentOf(files, NameOf(name))
  {
    NameParsesToItsDay(name);
  }

  lemma CleanupKeepsContent(cfg: Settings, s: State, now: int, day: nat, stamps: seq<nat>)
    requires day < LAST_DAY
    requires cfg.rotationDays > 0 ==> now - cfg.rotationDays * DAY_MS <= Midnight(day)
    ensures Held(Cleanup(cfg, s, now), day, stamps) == Held(s, day, stamps)
  {
    AgeSpares(cfg, s.files, Live(day), now);
    forall t | t in stamps
      ensures ContentOf(s.files, PieceName(day, t)) == ContentOf(Cleanup(cfg, s, now).files, PieceName(day, t))
    {
      AgeSpares(cfg, s.files, Rotated(day, t), now);
    }
    PiecesAgree(s.files, Cleanup(cfg, s, now).files, day, stamps);
  }

  lemma FlushOneKeepsContent(cfg: Settings, s: State, name: string, now: int, day: nat, stamps: seq<nat>)
    requires day < LAST_DAY && PendingIsLive(s)
    ensures Held(FlushOne(cfg, s, name, now), day, stamps) == Held(s, day, stamps)
    ensures PendingIsLive(FlushOne(cfg, s, name, now))
  {
    if PendingOf(s, name) != [] {
      var d: nat :| d < LAST_DAY && name == LiveName(d);
      var live := LiveName(day);
      hide LiveName, Pieces, Concat;
      AppendToLive(s, d, Concat(s.pending[name]), now, day, stamps);
      LiveNamesDiffer(d, day);
      Regroup(Pieces(s.files, day, stamps), ContentOf(s.files, live), Concat(PendingOf(s, live)), "");
    }
  }

  lemma PieceIsNotPending(s: State, day: nat, t: nat)
    requires day < LAST_DAY && PendingIsLive(s)
    ensures PieceName(day, t) !in s.pending
  {
    hide LiveName, PieceName;
    if PieceName(day, t) in s.pending {
      var d: nat :| d < LAST_DAY && PieceName(day, t) == LiveName(d);
      PieceIsNoLiveFile(day, t, d);
    }
  }

  lemma FlushSparesPieces(s: State, now: int, day: nat, t: nat)
    requires day < LAST_DAY && PendingIsLive(s)
    ensures ContentOf(AfterFlush(s, now).files, PieceName(day, t)) == ContentOf(s.files, PieceName(day, t))
  {
    PieceIsNotPending(s, day, t);
    hide PieceName, Concat, PendingIsLive;
  }

  /** `flush` writes out the pending lines of the day's file if it has a cached stream, else drops them. */
  lemma FlushHolds(s: State, now: int, day: nat, stamps: seq<nat>)
    requires day < LAST_DAY && PendingIsLive(s)
    ensures var live := LiveName(day);
            Held(AfterFlush(s, now), day, stamps)
            == Pieces(s.files, day, stamps) + ContentOf(s.files, live)
               + if live in s.cached then Concat(PendingOf(s, live)) else ""
  {
    var live, s' := LiveName(day), AfterFlush(s, now);
    forall t | t in stamps
      ensures ContentOf(s.files, PieceName(day, t)) == ContentOf(s'.files, PieceName(day, t))
    {
      FlushSparesPieces(s, now, day, t);
    }
    hide LiveName, PieceName, PendingIsLive;
    PiecesAgree(s.files, s'.files, day, stamps);
    Regroup(Pieces(s.files, day, stamps), ContentOf(s.files, live), Concat(PendingOf(s, live)), "");
  }

  lemma DayInRange(clock: Clock)
    requires clock.today < CLOCK_END
    ensures DayOf(clock.today) < LAST_DAY
  {
  }

  // ---------- Whole runs ----------

  ghost predicate Inv(cfg: Settings, s: State) {
    PendingIsLive(s) && (!cfg.streams ==> s.pending == map[])
  }

  lemma RotationStep(cfg: Settings, s: State, step: Step, day: nat, stamps: seq<nat>)
    requires day < LAST_DAY && step.Write? && Careful(cfg, s, step, day, stamps)
    ensures Held(AfterRotate(cfg, s, LogFileAt(step.clock), step.clock.stamp), day,
                 stamps + StampOf(cfg, s, step, day))
            == Held(s, day, stamps)
  {
    var d := DayOf(step.clock.today);
    DayInRange(step.clock);
    if d != day {
      assert stamps + [] == stamps;
      RotationOfAnotherDay(cfg, s, d, step.clock.stamp, day, stamps);
    } else if MustRotate(cfg, s.files, LiveName(day)) {
      RotationKeepsContent(cfg, s, step.clock.stamp, day, stamps);
    } else {
      assert stamps + [] == stamps;
    }
  }

  lemma WriteKeepsInv(cfg: Settings, s: State, line: string, clock: Clock)
    requires Inv(cfg, s) && clock.today < CLOCK_END
    ensures Inv(cfg, AfterRotate(cfg, s, LogFileAt(clock), clock.stamp))
    ensures Inv(cfg, AfterWrite(cfg, s, line, clock))
  {
    DayInRange(clock);
  }

  lemma WriteConserves(cfg: Settings, s: State, line: string, clock: Clock, day: nat, stamps: seq<nat>)
    requires day < LAST_DAY && Inv(cfg, s)
    requires Careful(cfg, s, Write(line, clock), day, stamps)
    ensures var step := Write(line, clock);
            Held(AfterWrite(cfg, s, line, clock), day, stamps + StampOf(cfg, s, step, day))
            == Held(s, day, stamps) + if IsWriteOn(step, day) then line + "\n" else ""
    ensures Inv(cfg, AfterWrite(cfg, s, line, clock))
  {
    var d := DayOf(clock.today);
    var rotated := AfterRotate(cfg, s, LiveName(d), clock.stamp);
    var stamps' := stamps + StampOf(cfg, s, Write(line, clock), day);
    DayInRange(clock);
    WriteKeepsInv(cfg, s, line, clock);
    RotationStep(cfg, s, Write(line, clock), day, stamps);
    BufferAddsTheLine(cfg, rotated, d, line, clock.today, day, stamps');
    CleanupKeepsContent(cfg, Buffer(cfg, rotated, LiveName(d), line, clock.today), clock.cleanup, day, stamps');
  }

  lemma StepConserves(cfg: Settings, s: State, step: Step, day: nat, stamps: seq<nat>)
    requires day < LAST_DAY && Inv(cfg, s) && Careful(cfg, s, step, day, stamps)
    ensures Held(Do(cfg, s, step), day, stamps + StampOf(cfg, s, step, day))
            == Held(s, day, stamps) + if IsWriteOn(step, day) then step.line + "\n" else ""
    ensures Inv(cfg, Do(cfg, s, step))
  {
    hide AfterWrite, AfterTick, AfterFlush, LiveName, Held, Inv;
    match step
    case Write(line, clock) => WriteConserves(cfg, s, line, clock, day, stamps);
    case RunTick(now) =>
      assert stamps + [] == stamps;
      TickConserves(cfg, s, now, day, stamps);
    case FlushAll(now) =>
      assert stamps + [] == stamps;
      CarefulFlushConserves(cfg, s, now, day, stamps);
  }

  lemma TickConserves(cfg: Settings, s: State, now: int, day: nat, stamps: seq<nat>)
    requires day < LAST_DAY && Inv(cfg, s)
    ensures Held(AfterTick(cfg, s, now), day, stamps) == Held(s, day, stamps)
    ensures Inv(cfg, AfterTick(cfg, s, now))
  {
    if s.ticks != [] {
      FlushOneKeepsContent(cfg, s.(ticks := s.ticks[1..]), s.ticks[0], now, day, stamps);
    }
  }

  lemma CarefulFlushConserves(cfg: Settings, s: State, now: int, day: nat, stamps: seq<nat>)
    requires day < LAST_DAY && Inv(cfg, s) && Careful(cfg, s, FlushAll(now), day, stamps)
    ensures Held(AfterFlush(s, now), day, stamps) == Held(s, day, stamps)
    ensures Inv(cfg, AfterFlush(s, now))
  {
    FlushHolds(s, now, day, stamps);
    hide LiveName, Pieces;
  }

  /** Conservation and order: what the pieces of earlier processes and the live file held at the start, then
      the lines of the run, is what these pieces, the pieces of the run, the live file and the pending lines
      hold, in that order. */
  lemma {:induction false} LinesAreConserved(cfg: Settings, files: Dir, run: seq<Step>, day: nat, earlier: seq<nat>)
    requires day < LAST_DAY && CarefulRun(cfg, files, run, day, earlier)
    ensures Held(After(cfg, files, run), day, earlier + Stamps(cfg, files, run, day))
            == Held(Start(files), day, earlier) + LinesOf(run, day)
    ensures Inv(cfg, After(cfg, files, run))
  {
    if run == [] {
      assert earlier + [] == earlier;
      assert Held(Start(files), day, earlier) + "" == Held(Start(files), day, earlier);
    } else {
      var before, last := run[..|run| - 1], run[|run| - 1];
      var s, stamps := After(cfg, files, before), Stamps(cfg, files, before, day);
      LinesAreConserved(cfg, files, before, day, earlier);
      StepConserves(cfg, s, last, day, earlier + stamps);
      Associate(earlier, stamps, StampOf(cfg, s, last, day));
      Associate(Held(Start(files), day, earlier), LinesOf(before, day),
                if IsWriteOn(last, day) then last.line + "\n" else "");
      hide Held, Do, Inv, StampOf, Careful;
    }
  }

  // ---------- When the conditions are needed, exactly ----------

  /** `flush` keeps every line of the day exactly when no line is pending or a stream is cached. */
  lemma FlushKeepsLinesExactlyWhen(s: State, now: int, day: nat, stamps: seq<nat>)
    requires day < LAST_DAY && PendingIsLive(s)
    ensures Held(AfterFlush(s, now), day, stamps) == Held(s, day, stamps)
            <==> Concat(PendingOf(s, LiveName(day))) == "" || LiveName(day) in s.cached
  {
    var live := LiveName(day);
    FlushHolds(s, now, day, stamps);
    var rest := Pieces(s.files, day, stamps) + ContentOf(s.files, live);
    assert |rest + Concat(PendingOf(s, live))| == |rest| + |Concat(PendingOf(s, live))|;
  }

  lemma SameFront(a: string, b: string, tail: string)
    requires a + tail == b + tail
    ensures a == b
  {
    assert a == (a + tail)[..|a|] && b == (b + tail)[..|b|];
  }

  /** A line written to a file without a stream (the first of the process, or the first after a
      rotation) leaves no trace if `flush` runs before its tick. */
  lemma FlushBeforeTheTickLosesTheLine(cfg: Settings, s: State, line: string, clock: Clock, now: int,
                                       day: nat, stamps: seq<nat>)
    requires cfg.streams && Inv(cfg, s) && clock.today < CLOCK_END && day == DayOf(clock.today)
    requires LiveName(day) !in s.cached || MustRotate(cfg, s.files, LiveName(day))
    requires PendingOf(s, LiveName(day)) == []
    requires Careful(cfg, s, Write(line, clock), day, stamps)
    ensures var step := Write(line, clock);
            Held(AfterFlush(AfterWrite(cfg, s, line, clock), now), day, stamps + StampOf(cfg, s, step, day))
            == Held(s, day, stamps)
  {
    DayInRange(clock);
    WriteConserves(cfg, s, line, clock, day, stamps);
    var live, stamps' := LiveName(day), stamps + StampOf(cfg, s, Write(line, clock), day);
    var written := AfterWrite(cfg, s, line, clock);
    FlushHolds(written, now, day, stamps');
    assert PendingOf(written, live) == [] + [line + "\n"];
    ConcatOne([], line + "\n");
    var left := Pieces(written.files, day, stamps') + ContentOf(written.files, live);
    assert left + "" == left && "" + (line + "\n") == line + "\n";
    SameFront(left, Held(s, day, stamps), line + "\n");
  }

  // ---------- Two rotations with one stamp ----------

  ghost predicate Distinct(stamps: seq<nat>) {
    forall i, j :: 0 <= i < j < |stamps| ==> stamps[i] != stamps[j]
  }

  lemma {:induction false} OverwrittenPiece(files: Dir, files': Dir, day: nat, stamps: seq<nat>, stamp: nat)
    requires Distinct(stamps) && stamp in stamps
    requires forall t :: t in stamps && t != stamp ==>
      ContentOf(files, PieceName(day, t)) == ContentOf(files', PieceName(day, t))
    ensures |Pieces(files', day, stamps)| - |Pieces(files, day, stamps)|
            == |ContentOf(files', PieceName(day, stamp))| - |ContentOf(files, PieceName(day, stamp))|
  {
    var front, last := stamps[..|stamps| - 1], stamps[|stamps| - 1];
    assert stamps == front + [last];
    assert forall t :: t in front ==> t in stamps;
    if last == stamp {
      forall t | t in front ensures t != stamp {
        var i :| 0 <= i < |front| && front[i] == t;
        assert stamps[i] != stamps[|stamps| - 1];
      }
      PiecesAgree(files, files', day, front);
    } else {
      OverwrittenPiece(files, files', day, front, stamp);
    }
  }

  lemma HeldLength(s: State, day: nat, stamps: seq<nat>)
    ensures |Held(s, day, stamps)|
            == |Pieces(s.files, day, stamps)| + |ContentOf(s.files, LiveName(day))|
               + |Concat(PendingOf(s, LiveName(day)))|
  {
  }

  lemma RotationOntoAPiece(cfg: Settings, s: State, stamp: nat, day: nat, stamps: seq<nat>)
    requires day < LAST_DAY && MustRotate(cfg, s.files, LiveName(day)) && Distinct(stamps) && stamp in stamps
    ensures |Held(AfterRotate(cfg, s, LiveName(day), stamp), day, stamps)|
            == |Held(s, day, stamps)| - |ContentOf(s.files, PieceName(day, stamp))|
  {
    var s' := AfterRotate(cfg, s, LiveName(day), stamp);
    LiveBecomesPiece(cfg, s, stamp, day);
    forall t | t in stamps && t != stamp
      ensures ContentOf(s.files, PieceName(day, t)) == ContentOf(s'.files, PieceName(day, t))
    {
      OtherPiecesStay(cfg, s, stamp, day, t);
    }
    hide AfterRotate, LiveName, PieceName, ContentOf, MustRotate;
    OverwrittenPiece(s.files, s'.files, day, stamps, stamp);
    HeldLength(s, day, stamps);
    HeldLength(s', day, stamps);
  }

  /** A rotation keeps every line of the day exactly when its stamp was not used before: a rename onto
      an earlier piece destroys that piece. */
  lemma RotationKeepsLinesExactlyWhen(cfg: Settings, s: State, stamp: nat, day: nat, stamps: seq<nat>)
    requires day < LAST_DAY && MustRotate(cfg, s.files, LiveName(day)) && Distinct(stamps)
    requires forall t :: t in stamps ==> ContentOf(s.files, PieceName(day, t)) != ""
    ensures var stamps' := if stamp in stamps then stamps else stamps + [stamp];
            Held(AfterRotate(cfg, s, LiveName(day), stamp), day, stamps') == Held(s, day, stamps)
            <==> stamp !in stamps
  {
    if stamp !in stamps {
      RotationKeepsContent(cfg, s, stamp, day, stamps);
    } else {
      RotationOntoAPiece(cfg, s, stamp, day, stamps);
    }
  }
}
