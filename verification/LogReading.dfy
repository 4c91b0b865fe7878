/** Reading a day's log files in the order of their names gives back the lines of that day.

    The rotation stamps are clock readings, the retention policies sort names as strings, and nothing
    in the writer says that the two orders agree; here conservation and name order are put together. */
module LogReading {
  import opened Text
  import opened LogNames
  import opened LogRetention
  import opened LogWriter
  import opened LogConservation

  predicate IsOfDay(name: string, day: nat) {
    IsAppLogFile(name) && ParseDateFromLogFilename(name) == Some(Midnight(day))
  }

  function OfDay(list: seq<string>, day: nat): (r: seq<string>)
    ensures forall name :: name in r <==> name in list && IsOfDay(name, day)
  {
    if list == [] then []
    else
      assert list == [list[0]] + list[1..];
      if IsOfDay(list[0], day) then [list[0]] + OfDay(list[1..], day) else OfDay(list[1..], day)
  }

  function ReadAll(files: Dir, list: seq<string>): string {
    if list == [] then "" else ReadAll(files, list[..|list| - 1]) + ContentOf(files, list[|list| - 1])
  }

  /** The contents of the day's log files, taken in the order of their names. */
  ghost function ReadDay(files: Dir, day: nat): string {
    ReadAll(files, OfDay(Listing(files), day))
  }

  /** On disk, the day has the pieces of its rotations, perhaps a live file, and nothing else. */
  ghost predicate DayFiles(files: Dir, day: nat, stamps: seq<nat>) {
    && (forall stamp :: stamp in stamps ==> PieceName(day, stamp) in files)
    && (forall name :: name in files && IsOfDay(name, day) ==>
          name == LiveName(day) || exists stamp :: stamp in stamps && name == PieceName(day, stamp))
  }

  lemma IsOfParsedDay(name: string, d: nat, day: nat)
    requires IsAppLogFile(name) && ParseDateFromLogFilename(name) == Some(Midnight(d))
    ensures IsOfDay(name, day) <==> d == day
  {
  }

  lemma IsOfItsDay(n: LogName, day: nat)
    requires n.day < LAST_DAY && day < LAST_DAY
    ensures IsOfDay(NameOf(n), day) <==> n.day == day
  {
    NameParsesToItsDay(n);
    IsOfParsedDay(NameOf(n), n.day, day);
  }

  // ---------- Which files a run leaves ----------

  lemma AppendKeepsDayFiles(files: Dir, d: nat, text: string, now: int, day: nat, stamps: seq<nat>)
    requires day < LAST_DAY && d < LAST_DAY && DayFiles(files, day, stamps)
    ensures DayFiles(Append(files, LiveName(d), text, now), day, stamps)
  {
    IsOfItsDay(Live(d), day);
  }

  lemma RotationKeepsDayFiles(cfg: Settings, s: State, step: Step, day: nat, stamps: seq<nat>)
    requires day < LAST_DAY && step.Write? && step.clock.today < CLOCK_END
    requires DayFiles(s.files, day, stamps)
    ensures DayFiles(AfterRotate(cfg, s, LogFileAt(step.clock), step.clock.stamp).files, day,
                     stamps + StampOf(cfg, s, step, day))
  {
    DayInRange(step.clock);
    var d := DayOf(step.clock.today);
    if MustRotate(cfg, s.files, LiveName(d)) {
      RotationRenames(cfg, s, d, step.clock.stamp);
      RenamingKeepsDayFiles(s.files, d, step.clock.stamp, day, stamps);
    } else {
      assert stamps + [] == stamps;
    }
  }

  lemma RenamingKeepsDayFiles(files: Dir, d: nat, stamp: nat, day: nat, stamps: seq<nat>)
    requires day < LAST_DAY && d < LAST_DAY && DayFiles(files, day, stamps) && LiveName(d) in files
    ensures DayFiles((files - {LiveName(d)})[PieceName(d, stamp) := files[LiveName(d)]], day,
                     stamps + if d == day then [stamp] else [])
  {
    var stamps' := stamps + if d == day then [stamp] else [];
    var files' := (files - {LiveName(d)})[PieceName(d, stamp) := files[LiveName(d)]];
    IsOfItsDay(Rotated(d, stamp), day);
    hide IsOfDay, LiveName, RotatedName;
    forall t | t in stamps' ensures PieceName(day, t) in files' {
      PieceIsNoLiveFile(day, t, d);
    }
    forall name | name in files' && IsOfDay(name, day)
      ensures name == LiveName(day) || exists t :: t in stamps' && name == PieceName(day, t)
    {
      if name == PieceName(d, stamp) {
        assert d == day && stamp in stamps';
      } else if name != LiveName(day) {
        var t :| t in stamps && name == PieceName(day, t);
        assert t in stamps';
      }
    }
  }

  lemma CleanupKeepsDayFiles(cfg: Settings, files: Dir, now: int, day: nat, stamps: seq<nat>)
    requires day < LAST_DAY && DayFiles(files, day, stamps)
    requires cfg.rotationDays > 0 ==> now - cfg.rotationDays * DAY_MS <= Midnight(day)
    ensures DayFiles(AgeSurvivors(files, cfg.rotationDays, now), day, stamps)
  {
    forall stamp | stamp in stamps ensures PieceName(day, stamp) in AgeSurvivors(files, cfg.rotationDays, now) {
      NameParsesToItsDay(Rotated(day, stamp));
    }
  }

  lemma FlushKeepsDayFiles(s: State, now: int, day: nat, stamps: seq<nat>)
    requires day < LAST_DAY && PendingIsLive(s) && DayFiles(s.files, day, stamps)
    ensures DayFiles(AfterFlush(s, now).files, day, stamps)
  {
    var files' := AfterFlush(s, now).files;
    forall name | name in files' && IsOfDay(name, day)
      ensures name == LiveName(day) || exists stamp :: stamp in stamps && name == PieceName(day, stamp)
    {
      if name !in s.files {
        assert name in s.pending;
        var d: nat :| d < LAST_DAY && name == LiveName(d);
        IsOfItsDay(Live(d), day);
      }
    }
  }

  lemma StepKeepsDayFiles(cfg: Settings, s: State, step: Step, day: nat, stamps: seq<nat>)
    requires day < LAST_DAY && Inv(cfg, s) && Careful(cfg, s, step, day, stamps)
    requires DayFiles(s.files, day, stamps)
    ensures DayFiles(Do(cfg, s, step).files, day, stamps + StampOf(cfg, s, step, day))
  {
    match step
    case Write(line, clock) =>
      DayInRange(clock);
      RotationKeepsDayFiles(cfg, s, step, day, stamps);
      var rotated := AfterRotate(cfg, s, LogFileAt(clock), clock.stamp);
      var stamps' := stamps + StampOf(cfg, s, step, day);
      AppendKeepsDayFiles(rotated.files, DayOf(clock.today), line + "\n", clock.today, day, stamps');
      CleanupKeepsDayFiles(cfg, Buffer(cfg, rotated, LogFileAt(clock), line, clock.today).files,
                           clock.cleanup, day, stamps');
    case RunTick(now) =>
      assert stamps + [] == stamps;
      if s.ticks != [] && PendingOf(s, s.ticks[0]) != [] {
        var d: nat :| d < LAST_DAY && s.ticks[0] == LiveName(d);
        AppendKeepsDayFiles(s.files, d, Concat(s.pending[s.ticks[0]]), now, day, stamps);
      }
    case FlushAll(now) =>
      assert stamps + [] == stamps;
      FlushKeepsDayFiles(s, now, day, stamps);
  }

  lemma {:induction false} RunKeepsDayFiles(cfg: Settings, files: Dir, run: seq<Step>, day: nat, earlier: seq<nat>)
    requires day < LAST_DAY && CarefulRun(cfg, files, run, day, earlier) && DayFiles(files, day, earlier)
    ensures DayFiles(After(cfg, files, run).files, day, earlier + Stamps(cfg, files, run, day))
  {
    if run == [] {
      assert earlier + [] == earlier;
    } else {
      var before, last := run[..|run| - 1], run[|run| - 1];
      var s, stamps := After(cfg, files, before), Stamps(cfg, files, before, day);
      RunKeepsDayFiles(cfg, files, before, day, earlier);
      LinesAreConserved(cfg, files, before, day, earlier);
      StepKeepsDayFiles(cfg, s, last, day, earlier + stamps);
      Associate(earlier, stamps, StampOf(cfg, s, last, day));
      hide DayFiles, Held, Do, Inv, StampOf, Careful;
    }
  }

  // ---------- Their order ----------

  /** The stamps of a clock that moves forward between rotations, all of thirteen digits. */
  ghost predicate Rising(stamps: seq<nat>) {
    && (forall i, j :: 0 <= i < j < |stamps| ==> stamps[i] < stamps[j])
    && (forall i :: 0 <= i < |stamps| ==> 1000000000000 <= stamps[i] < 10000000000000)
  }

  function PieceNames(day: nat, stamps: seq<nat>): (names: seq<string>)
    ensures |names| == |stamps|
    ensures forall i :: 0 <= i < |names| ==> names[i] == PieceName(day, stamps[i])
  {
    hide PieceName;
    if stamps == [] then []
    else PieceNames(day, stamps[..|stamps| - 1]) + [PieceName(day, stamps[|stamps| - 1])]
  }

  lemma {:induction false} ReadPieces(files: Dir, day: nat, stamps: seq<nat>)
    ensures ReadAll(files, PieceNames(day, stamps)) == Pieces(files, day, stamps)
  {
    if stamps != [] {
      var front := stamps[..|stamps| - 1];
      ReadPieces(files, day, front);
      var names := PieceNames(day, stamps);
      assert names[..|names| - 1] == PieceNames(day, front);
    }
  }

  lemma PieceNamesRise(day: nat, stamps: seq<nat>)
    requires day < LAST_DAY && Rising(stamps)
    ensures StrictlySorted(PieceNames(day, stamps) + [LiveName(day)])
  {
    hide Before, LiveName, RotatedName;
    var names := PieceNames(day, stamps) + [LiveName(day)];
    forall i, j | 0 <= i < j < |names| ensures Before(names[i], names[j]) {
      NameOrderIsTimeOrder(Rotated(day, stamps[i]), if j < |stamps| then Rotated(day, stamps[j]) else Live(day));
    }
  }

  lemma {:induction false} FilterKeepsOrder(list: seq<string>, day: nat)
    requires StrictlySorted(list)
    ensures StrictlySorted(OfDay(list, day))
  {
    if list != [] {
      FilterKeepsOrder(list[1..], day);
      var rest := OfDay(list[1..], day);
      forall i | 0 <= i < |rest| ensures Before(list[0], rest[i]) {
        assert rest[i] in list[1..];
      }
    }
  }

  /** The files a day leaves, in name order: the pieces in rotation order, then the live file. */
  lemma DayListing(files: Dir, day: nat, stamps: seq<nat>)
    requires day < LAST_DAY && Rising(stamps) && DayFiles(files, day, stamps)
    ensures OfDay(Listing(files), day)
            == PieceNames(day, stamps) + if LiveName(day) in files then [LiveName(day)] else []
  {
    var names, live := PieceNames(day, stamps), LiveName(day);
    var expected := names + if live in files then [live] else [];
    ListingIsSorted(files);
    PieceNamesRise(day, stamps);
    forall name ensures name in OfDay(Listing(files), day) <==> name in expected {
      DayListingMember(files, day, stamps, name);
    }
    hide *;
    FrontIsSorted(names, live, live in files);
    FilterKeepsOrder(Listing(files), day);
    StrictlySortedIsUnique(OfDay(Listing(files), day), expected);
  }

  lemma ListingIsSorted(files: Dir)
    ensures StrictlySorted(Listing(files))
  {
    hide Listing, Before;
    assert ListsAppFiles(Listing(files), files);
  }

  lemma FrontIsSorted(list: seq<string>, last: string, keep: bool)
    requires StrictlySorted(list + [last])
    ensures StrictlySorted(list + if keep then [last] else [])
  {
    hide Before;
    if !keep {
      assert forall i :: 0 <= i < |list| ==> (list + [last])[i] == list[i];
      assert list + [] == list;
    }
  }

  lemma DayListingMember(files: Dir, day: nat, stamps: seq<nat>, name: string)
    requires day < LAST_DAY && DayFiles(files, day, stamps)
    ensures name in OfDay(Listing(files), day)
            <==> name in PieceNames(day, stamps) + if LiveName(day) in files then [LiveName(day)] else []
  {
    var names := PieceNames(day, stamps);
    IsOfItsDay(Live(day), day);
    hide LiveName, RotatedName, ParseDateFromLogFilename, Before, OfDay, Listing, PieceNames;
    assert ListsAppFiles(Listing(files), files);
    if name in names {
      var i :| 0 <= i < |names| && names[i] == name;
      IsOfItsDay(Rotated(day, stamps[i]), day);
      assert stamps[i] in stamps;
    }
    if name in files && IsOfDay(name, day) && name != LiveName(day) {
      var stamp :| stamp in stamps && name == PieceName(day, stamp);
      var i :| 0 <= i < |stamps| && stamps[i] == stamp;
      assert names[i] == name;
    }
  }

  /** Reading a day's files in name order gives what is held on disk for the day. */
  lemma ReadingIsHolding(s: State, day: nat, stamps: seq<nat>)
    requires day < LAST_DAY && Rising(stamps) && DayFiles(s.files, day, stamps)
    ensures ReadDay(s.files, day) + Concat(PendingOf(s, LiveName(day))) == Held(s, day, stamps)
  {
    DayListing(s.files, day, stamps);
    ReadPieces(s.files, day, stamps);
    ReadWithLive(s.files, PieceNames(day, stamps), LiveName(day));
    hide LiveName, Rising, DayFiles, OfDay, Listing, ReadAll;
  }

  /** After any careful run, reading the day's files in the order of their names, then the pending lines, gives
      what reading them gave before the run, then exactly the lines written that day.  The day may have a live
      file and rotated pieces at the start, as after a restart. */
  lemma NameOrderReadsTheDayBack(cfg: Settings, files: Dir, run: seq<Step>, day: nat, earlier: seq<nat>)
    requires day < LAST_DAY && CarefulRun(cfg, files, run, day, earlier)
    requires DayFiles(files, day, earlier) && Rising(earlier + Stamps(cfg, files, run, day))
    ensures var s := After(cfg, files, run);
            ReadDay(s.files, day) + Concat(PendingOf(s, LiveName(day))) == ReadDay(files, day) + LinesOf(run, day)
  {
    var s, stamps := After(cfg, files, run), Stamps(cfg, files, run, day);
    LinesAreConserved(cfg, files, run, day, earlier);
    RunKeepsDayFiles(cfg, files, run, day, earlier);
    RisingAtFirst(earlier, stamps);
    hide *;
    ReadingIsHolding(s, day, earlier + stamps);
    ReadingIsHolding(Start(files), day, earlier);
    NothingPendingAtStart(files, day);
  }

  lemma NothingPendingAtStart(files: Dir, day: nat)
    ensures Start(files).files == files
    ensures ReadDay(files, day) + Concat(PendingOf(Start(files), LiveName(day))) == ReadDay(files, day)
  {
    hide ReadDay, LiveName;
  }

  lemma RisingAtFirst(earlier: seq<nat>, stamps: seq<nat>)
    requires Rising(earlier + stamps)
    ensures Rising(earlier)
  {
    assert forall i :: 0 <= i < |earlier| ==> (earlier + stamps)[i] == earlier[i];
  }

  /** In a directory without files of the day, only the lines of the run are read. */
  lemma NothingReadAtFirst(files: Dir, day: nat)
    requires day < LAST_DAY && forall name :: name in files ==> !IsOfDay(name, day)
    ensures DayFiles(files, day, []) && ReadDay(files, day) == ""
  {
    hide LiveName, RotatedName, OfDay, Listing;
    assert ListsAppFiles(Listing(files), files);
    NoneOfDay(Listing(files), day);
  }

  lemma {:induction false} NoneOfDay(list: seq<string>, day: nat)
    requires forall name :: name in list ==> !IsOfDay(name, day)
    ensures OfDay(list, day) == []
  {
    if list != [] { NoneOfDay(list[1..], day); }
  }

  lemma ReadWithLive(files: Dir, names: seq<string>, live: string)
    ensures ReadAll(files, names + if live in files then [live] else [])
            == ReadAll(files, names) + ContentOf(files, live)
  {
    assert (names + [live])[..|names|] == names;
    assert names + [] == names;
  }
}
