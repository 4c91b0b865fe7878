/** The buffered, rotating writer of src/config/FileLogWriter.ts.

    `write` appends a line to the pending lines of today's file and schedules a tick; a tick moves the
    pending lines of one file to disk; a file that has grown too large is renamed before the next line
    is buffered; `flush` is called at shutdown.  A stream write is an append to the file it was opened
    on, and the stamp of a rotation is whatever the clock reads at that moment. */
module LogWriter {
  import opened Text
  import opened LogNames
  import opened LogRetention

  /** LOG_ROTATION_SIZE, LOG_ROTATION_DAYS, and whether `createWriteStream` exists. */
  datatype Settings = Settings(rotationSize: int, rotationDays: int, streams: bool)

  /** Disk, files with a cached stream, pending lines, scheduled ticks. */
  datatype State = State(files: Dir, cached: set<string>, pending: map<string, seq<string>>, ticks: seq<string>)

  /** The clock readings of one `write`: for the date, for the rotation, for the cleanup. */
  datatype Clock = Clock(today: nat, stamp: nat, cleanup: int)

  function Concat(lines: seq<string>): string {
    if lines == [] then "" else Concat(lines[..|lines| - 1]) + lines[|lines| - 1]
  }

  function ContentOf(files: Dir, name: string): string {
    if name in files then files[name].content else ""
  }

  function PendingOf(s: State, name: string): seq<string> {
    if name in s.pending then s.pending[name] else []
  }

  function Append(files: Dir, name: string, text: string, now: int): Dir {
    files[name := File(ContentOf(files, name) + text, now)]
  }

  function LogFileAt(clock: Clock): string { LiveName(DayOf(clock.today)) }

  predicate MustRotate(cfg: Settings, files: Dir, name: string) {
    cfg.rotationSize > 0 && name in files && ByteSize(files[name].content) > cfg.rotationSize
  }

  function AfterRotate(cfg: Settings, s: State, name: string, stamp: nat): State {
    if !MustRotate(cfg, s.files, name) then s
    else s.(cached := s.cached - {name},
            files := (s.files - {name})[RotatedName(name, stamp) := s.files[name]])
  }

  function FlushOne(cfg: Settings, s: State, name: string, now: int): State {
    if PendingOf(s, name) == [] then s
    else s.(files := Append(s.files, name, Concat(s.pending[name]), now),
            cached := if cfg.streams then s.cached + {name} else s.cached,
            pending := s.pending - {name})
  }

  function Buffer(cfg: Settings, s: State, name: string, line: string, now: int): State {
    if cfg.streams
    then s.(pending := s.pending[name := PendingOf(s, name) + [line + "\n"]], ticks := s.ticks + [name])
    else s.(files := Append(s.files, name, line + "\n", now))
  }

  function Cleanup(cfg: Settings, s: State, now: int): State {
    s.(files := AgeSurvivors(s.files, cfg.rotationDays, now))
  }

  function AfterWrite(cfg: Settings, s: State, line: string, clock: Clock): State {
    var name := LogFileAt(clock);
    var rotated := AfterRotate(cfg, s, name, clock.stamp);
    Cleanup(cfg, Buffer(cfg, rotated, name, line, clock.today), clock.cleanup)
  }

  function AfterTick(cfg: Settings, s: State, now: int): State {
    if s.ticks == [] then s else FlushOne(cfg, s.(ticks := s.ticks[1..]), s.ticks[0], now)
  }

  /** The files among `done` that have lines to write. */
  function Due(s: State, done: set<string>): set<string> {
    set name | name in done && PendingOf(s, name) != []
  }

  function WrittenOut(s: State, due: set<string>, now: int): Dir
    requires due <= s.pending.Keys
  {
    map name | name in s.files.Keys + due ::
      if name in due then File(ContentOf(s.files, name) + Concat(s.pending[name]), now) else s.files[name]
  }

  /** The pending lines of every file in `done` are on disk, those of the other files are not. */
  function FlushedPart(s: State, done: set<string>, now: int): State {
    s.(files := WrittenOut(s, Due(s, done), now), pending := s.pending - Due(s, done))
  }

  /** Only files with a cached stream are written out; then every stream and pending line is dropped. */
  function AfterFlush(s: State, now: int): State {
    FlushedPart(s, s.cached, now).(cached := {}, pending := map[])
  }

  lemma FlushedNothing(s: State, now: int)
    ensures FlushedPart(s, s.cached - s.cached, now) == s
  {
    assert Due(s, s.cached - s.cached) == {};
    assert WrittenOut(s, {}, now) == s.files;
  }

  lemma FlushOneMore(cfg: Settings, s: State, done: set<string>, name: string, now: int)
    requires name in s.cached && name !in done
    ensures FlushOne(cfg, FlushedPart(s, done, now), name, now) == FlushedPart(s, done + {name}, now)
  {
    hide Concat;
    if PendingOf(s, name) == [] {
      assert Due(s, done + {name}) == Due(s, done);
    } else {
      assert Due(s, done + {name}) == Due(s, done) + {name};
      WrittenOutOneMore(s, Due(s, done), name, now);
      assert s.cached + {name} == s.cached;
    }
  }

  lemma WrittenOutOneMore(s: State, due: set<string>, name: string, now: int)
    requires due <= s.pending.Keys && name in s.pending && name !in due
    ensures WrittenOut(s, due + {name}, now)
            == Append(WrittenOut(s, due, now), name, Concat(s.pending[name]), now)
  {
    hide Concat;
    assert ContentOf(WrittenOut(s, due, now), name) == ContentOf(s.files, name);
  }

  class FileLogWriter {
    const cfg: Settings
    const logs: LogDir
    var streamCache: set<string>
    var pendingWrites: map<string, seq<string>>
    var ticks: seq<string>

    ghost function View(): State
      reads this, logs
    {
      State(logs.files, streamCache, pendingWrites, ticks)
    }

    constructor (cfg: Settings, logs: LogDir)
      ensures this.cfg == cfg && this.logs == logs
      ensures View() == State(logs.files, {}, map[], [])
    {
      this.cfg, this.logs := cfg, logs;
      streamCache, pendingWrites, ticks := {}, map[], [];
    }

    method RotateIfNeeded(logFile: string, stamp: nat)
      modifies this`streamCache, logs
      ensures View() == AfterRotate(cfg, old(View()), logFile, stamp)
      ensures cfg.rotationSize > 0 && logFile in old(logs.files)
                && |Encoded(old(logs.files)[logFile].content)| > cfg.rotationSize ==>
                logs.files == (old(logs.files) - {logFile})[RotatedName(logFile, stamp) := old(logs.files)[logFile]]
                && logFile !in streamCache
      ensures !(cfg.rotationSize > 0 && logFile in old(logs.files)
                && |Encoded(old(logs.files)[logFile].content)| > cfg.rotationSize) ==>
                logs.files == old(logs.files) && streamCache == old(streamCache)
    {
      if logFile in logs.files { ByteSizeIsEncodedLength(logs.files[logFile].content); }
      if cfg.rotationSize <= 0 { return; }
      if logFile !in logs.files { return; }
      if ByteSize(logs.files[logFile].content) <= cfg.rotationSize { return; }
      if logFile in streamCache {
        streamCache := streamCache - {logFile};
      }
      var renamed := logs.files[logFile];
      logs.files := (logs.files - {logFile})[RotatedName(logFile, stamp) := renamed];
    }

    method AppendFile(logFile: string, text: string, now: int)
      modifies logs
      ensures logs.files == Append(old(logs.files), logFile, text, now)
    {
      logs.files := Append(logs.files, logFile, text, now);
    }

    method FlushPendingWrites(logFile: string, now: int)
      modifies this, logs
      ensures View() == FlushOne(cfg, old(View()), logFile, now)
    {
      if logFile !in pendingWrites { return; }
      var pending := pendingWrites[logFile];
      if |pending| == 0 { return; }
      var lines := Concat(pending);
      if cfg.streams {
        streamCache := streamCache + {logFile};
      }
      AppendFile(logFile, lines, now);
      pendingWrites := pendingWrites - {logFile};
    }

    method Write(line: string, clock: Clock)
      modifies this, logs
      ensures View() == AfterWrite(cfg, old(View()), line, clock)
    {
      hide AfterRotate, AgeSurvivors, LiveName;
      var logFile := LiveName(DayOf(clock.today));
      RotateIfNeeded(logFile, clock.stamp);
      if !cfg.streams {
        AppendFile(logFile, line + "\n", clock.today);
        logs.CleanupOldLogs(cfg.rotationDays, clock.cleanup);
        return;
      }
      var pending := if logFile in pendingWrites then pendingWrites[logFile] else [];
      pendingWrites := pendingWrites[logFile := pending + [line + "\n"]];
      ticks := ticks + [logFile];
      logs.CleanupOldLogs(cfg.rotationDays, clock.cleanup);
    }

    /** The event loop runs the oldest scheduled tick. */
    method RunTick(now: int)
      modifies this, logs
      ensures View() == AfterTick(cfg, old(View()), now)
    {
      if ticks == [] { return; }
      var logFile := ticks[0];
      ticks := ticks[1..];
      FlushPendingWrites(logFile, now);
    }

    method Flush(now: int)
      modifies this, logs
      ensures View() == AfterFlush(old(View()), now)
    {
      ghost var s := View();
      var rest := streamCache;
      FlushedNothing(s, now);
      while rest != {}
        invariant rest <= s.cached
        invariant View() == FlushedPart(s, s.cached - rest, now)
        decreases |rest|
      {
        var logFile :| logFile in rest;
        FlushOneMore(cfg, s, s.cached - rest, logFile, now);
        assert s.cached - (rest - {logFile}) == s.cached - rest + {logFile};
        FlushPendingWrites(logFile, now);
        rest := rest - {logFile};
      }
      assert s.cached - rest == s.cached;
      streamCache := {};
      pendingWrites := map[];
    }
  }
}
