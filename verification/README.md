# Verified models of ZinTrust's stateful core

This project models, in Dafny, the parts of the repository that hold real algorithms, and proves what
each of them is for: no log line is lost, no client gets more than its share of requests, no secret is
returned that the backend never held, a diff is read back exactly as it was printed.

`dafny verify dfyconfig.toml` checks everything.

| file | models |
|---|---|
| `LogNames.dfy`, `LogDates.dfy`, `LogRetention.dfy` | the calendar, the log file names, their order and their dates; the three retention policies |
| `LogWriter.dfy`, `LogConservation.dfy`, `LogReading.dfy`, `LogProgress.dfy` | the buffered, rotating log writer; conservation and order of lines over whole runs, and their way to the disk |
| `SecretsCache.dfy`, `SecretsRuns.dfy`, `SecretsCoherence.dfy`, `SecretsTransparency.dfy` | the secrets cache; its interleavings at every `await`; when they leave it coherent; calls that do not overlap |
| `RateLimiter.dfy` | the sliding-window rate limiter |
| `DiffLines.dfy`, `DiffPrinter.dfy`, `DiffInverse.dfy`, `DiffContext.dfy`, `DiffOutput.dfy`, `Coverage.dfy` | the reader of `git diff -U0`, a printer for such diffs, the proof that one inverts the other, line by line and from the whole text; the counting and the gates |
| `CaseConvert.dfy`, `CaseWords.dfy` | the converters between snake, Pascal and camel case |
| `Shutdown.dfy`, `ShutdownPhases.dfy` | graceful shutdown as a timed state machine; which phases it goes through, and when they end |
| `SigV4.dfy`, `SigV4Layout.dfy` | the canonical request of AWS Signature Version 4 |
| `CollectionSort.dfy`, `CollectionGroups.dfy` | `sortBy`, `groupBy`, `keyBy`, `unique`, `chunk` |
| `StackFrames.dfy`, `StackLines.dfy` | the stack-trace parser of the error page |
| `Basename.dfy` | the database file-name normaliser |
| `Text.dfy`, `Sorting.dfy` | strings, numerals and string order; the stable sort |

Code that updates state in place is a class whose methods are proved equal to a function of the old
state; the theorems are then about runs of that function. Where the source interleaves (at an `await`, a
tick or a timer), the model is a state machine over arbitrary step sequences.

## Where the code and its promises differ

The model follows the code. Each point has a lemma.

- `flush` writes out only files that have a cached stream and then drops every pending line. A line that
  is written to a fresh (or freshly rotated) file and flushed before its tick is lost
  (`FlushBeforeTheTickLosesTheLine`, `FlushKeepsLinesExactlyWhen`).
- A rotation in the same millisecond as an earlier one of the same file renames onto the earlier piece and
  destroys it (`RotationKeepsLinesExactlyWhen`).
- `docs/logging.md:192` calls `LOG_KEEP_FILES` a minimum number of files kept regardless of size or age. In
  the code it is a maximum; it acts as a minimum only if that many files are young and small enough
  (`KeepFilesIsAMinimumExactlyWhen`), and its default of 0 deletes every log file (`KeepZeroKeepsNothing`).
- The rate limiter forgets an admission that a later one outlives by a whole window. Its bound holds as long
  as a client's clock does not step back over a whole window between its admissions; any three readings that
  do so can break it (`WindowIsBoundedWithoutStepBack`, `ThreeReadingsBreakTheBoundExactlyWhen`).
- A `get` that goes on with a value after a `set` or `delete` of the same key has finished leaves that old
  value in the cache (`OverlappingSetLeavesAStaleValue`). This is the only way, and other overlaps do no harm
  (`SettledExactlyWhen`); callers avoid it by keeping reads and writes of one key apart (`ApartIsSettled`).
- While an entry lives the cache hides an outage of the KV backend; this is the only way in which calls that
  do not overlap differ from a manager without a cache (`RunsAreTransparent`).
- The diff reader drops files whose names contain a space, because git ends such names with a tab, and takes
  an added line that starts with "++" for something else (`TabbedNameIsDropped`, `AddedLineIsSeenExactlyWhen`).
- The digit pass of `toSnakeCase` never changes anything (`DigitPassIsIdle`).
- Mixed keys, or NaN beside other numbers, can make the comparator of `sortBy` inconsistent
  (`ConsistentExactlyWhen`, `MixedKeysGoRound`).

## Model

| member | source | states |
|---|---|---|
| LogNames.DatesFollowDays | src/config/FileLogWriter.ts:54-65 | dates of the Gregorian calendar, compared field by field, are ordered as their day numbers, in both directions |
| LogNames.NameOrderIsTimeOrder | src/config/FileLogWriter.ts:123-136 | string order of two names the writer makes is: by day, then rotated pieces by stamp, then the live file; and equal names mean the same file |
| LogNames.NamesAreDistinct | src/config/FileLogWriter.ts:246-248 | live files and rotated pieces never share a name, whatever the width of the stamp |
| LogNames.NameParsesToItsDay | src/config/FileLogWriter.ts:54-65 | every name the writer makes is recognised, and parses to the midnight of its day |
| LogDates.KnownDays | src/config/FileLogWriter.ts:54-65 | the readings of the clock at known dates: 1970-01-01, 2000-03-01, 2024-06-30 |
| LogDates.LogNameExactlyWhen | src/config/FileLogWriter.ts:56-57 | a name is a log name if and only if it is "app-", anything, ".log" |
| LogDates.DateParsesExactlyWhen | src/config/FileLogWriter.ts:59-65 | a name yields a date if and only if it is "app-", four, two and two digits for a month from 1 to 12 and a day from 1 to 31, and ".log" or a hyphen, digits and ".log"; it yields the midnight of that date |
| LogRetention.ByteSizeIsEncodedLength | src/config/FileLogWriter.ts:153-170 | the size of a file is the length of the UTF-8 encoding of its content |
| LogRetention.LogDir.CleanupOldLogs | src/config/FileLogWriter.ts:59-114 | a file stays, unchanged, if and only if there is no age limit, it has no log name, its date is not before the cutoff, or without a date its modification time is not |
| LogRetention.WriterFilesStayExactlyWhen | src/config/FileLogWriter.ts:92-114 | a file the writer made stays exactly if there is no limit or the midnight of its day is not before the cutoff |
| LogRetention.LogDir.ListAppLogFiles | src/config/FileLogWriter.ts:123-136 | lists exactly the log files, strictly sorted by name, in either direction |
| LogRetention.LogDir.EnforceKeepFilesPolicy | src/config/FileLogWriter.ts:138-151 | deletes and reports all but the first `keepFiles` of the list; nothing if negative |
| LogRetention.LogDir.GetFileSizesTotal | src/config/FileLogWriter.ts:153-170 | the byte size of each file and their sum |
| LogRetention.LogDir.DeleteOldestUntilWithinLimit | src/config/FileLogWriter.ts:172-188 | deletes the shortest front of the list after which the rest is within the limit |
| LogRetention.LogDir.EnforceMaxTotalSizePolicy | src/config/FileLogWriter.ts:190-200 | removes the oldest files up to the first index from which on the rest fits |
| LogRetention.LogDir.CleanOnce | src/config/FileLogWriter.ts:206-228 | the three policies in sequence leave `Cleaned` and return `Deleted`, which are specified in one step; a file is kept or reported exactly if the age policy lets it stay |
| LogRetention.TwoStepsAreOne | src/config/FileLogWriter.ts:219-225 | the count limit, then the size limit on what is left, together cut the list once, where both limits first hold |
| LogRetention.SurvivorsAreTheLongestRun | src/config/FileLogWriter.ts:206-228 | the surviving log files are the longest newest-first run of age-surviving files that meets both limits |
| LogRetention.NothingElseIsTouched | src/config/FileLogWriter.ts:206-228 | other files stay, and no content changes |
| LogRetention.DeletedIsTheDifference | src/config/FileLogWriter.ts:216-227 | the returned list is exactly the files the two limits removed, each once |
| LogRetention.CleaningTwice | src/config/FileLogWriter.ts:206-228 | a second call at the same instant removes and reports nothing |
| LogRetention.RetentionKeepsTheNewest | src/config/FileLogWriter.ts:206-228 | among files the writer made, everything the limits remove is older than everything they keep |
| LogRetention.KeepZeroKeepsNothing | src/config/FileLogWriter.ts:138-151 | with `keepFiles` 0 no log file survives |
| LogRetention.KeepFilesIsAMinimumExactlyWhen | src/config/FileLogWriter.ts:216-225 | the documented minimum is met if and only if that many newest files are young enough and together within the size limit |
| LogWriter.FileLogWriter.RotateIfNeeded | src/config/FileLogWriter.ts:230-253 | if the encoded content is longer than the rotation size, the file moves with its content to its stamped name and its stream is forgotten; otherwise nothing changes |
| LogWriter.FileLogWriter.FlushPendingWrites | src/config/FileLogWriter.ts:277-301 | the file's pending lines are appended to it in order and are no longer pending |
| LogWriter.FileLogWriter.Write | src/config/FileLogWriter.ts:304-339 | rotates, buffers the line and schedules a tick (or appends without streams), then removes aged files |
| LogWriter.FileLogWriter.RunTick | src/config/FileLogWriter.ts:331-332 | the oldest scheduled tick writes out the pending lines of its file |
| LogWriter.FileLogWriter.Flush | src/config/FileLogWriter.ts:342-349 | in whatever order the streams are visited, exactly the files with a stream receive their pending lines; all streams and pending lines are dropped |
| LogConservation.StepConserves | src/config/FileLogWriter.ts:230-349 | every careful write, tick or flush adds to what a day's pieces, live file and pending lines hold exactly the line written that day, if any |
| LogConservation.LinesAreConserved | src/config/FileLogWriter.ts:230-349 | for every careful run, the pieces left by earlier processes, the rotated pieces of the run in rotation order, the live file and the pending lines concatenate to what pieces and live file held at the start, then exactly the lines written, in order |
| LogConservation.FlushKeepsLinesExactlyWhen | src/config/FileLogWriter.ts:342-349 | `flush` keeps a day's lines if and only if none is pending or the file has a cached stream |
| LogConservation.FlushBeforeTheTickLosesTheLine | src/config/FileLogWriter.ts:325-349 | a line written to a file without a stream, or to one that this write rotates, is gone after a flush that precedes its tick |
| LogConservation.RotationKeepsLinesExactlyWhen | src/config/FileLogWriter.ts:246-249 | a rotation keeps a day's lines if and only if its stamp is new |
| LogReading.DayListing | src/config/FileLogWriter.ts:123-136 | sorted by name, a day's files are its pieces in rotation order, then the live file |
| LogReading.NameOrderReadsTheDayBack | src/config/FileLogWriter.ts:230-349 | after any careful run, also one that starts with files of the day on disk, reading the day's files in name order, then the pending lines, gives what they gave before, then exactly the lines written that day |
| LogReading.NothingReadAtFirst | src/config/FileLogWriter.ts:123-136 | in a directory without files of the day, what they gave before is nothing |
| LogProgress.PendingIsScheduled | src/config/FileLogWriter.ts:325-333 | in every reachable state, a file with pending lines has a tick scheduled |
| LogProgress.EveryLineReachesTheDisk | src/config/FileLogWriter.ts:230-349 | after any careful run, once the ticks scheduled by then have run, nothing is pending, and the pieces and the live file alone hold what was there and every line written that day |
| LogProgress.EveryLineIsReadBack | src/config/FileLogWriter.ts:230-349 | and reading the day's files in name order gives just that |
| LogProgress.FlushAfterATickKeepsTheLine | src/config/FileLogWriter.ts:255-349 | once a tick has written to a file, the next line survives a flush that precedes its own tick |
| LogProgress.SecondFlushLosesTheLine | src/config/FileLogWriter.ts:325-349 | a flush forgets the streams, so the next line is lost to a second flush that precedes its tick |
| LogProgress.WriteFindsRoom | src/config/FileLogWriter.ts:230-253 | after a write, the live file is within the rotation size, if there is one |
| LogProgress.WriteRemovesOldFiles | src/config/FileLogWriter.ts:304-339 | of the files a write does not touch itself, exactly those remain that the age policy lets stay |
| SecretsCache.SecretsStore.PruneCache | src/config/SecretsManager.ts:19-36 | the two loops leave the specified suffix of the unexpired entries, and nothing else |
| SecretsCache.SecretsStore.GetBegin | src/config/SecretsManager.ts:46-54 | answers an unexpired entry and changes nothing, or prunes |
| SecretsCache.SecretsStore.GetFinish | src/config/SecretsManager.ts:73-82 | stores the value, keeping a key's old place, and prunes; a slot that is not expired by then is answered exactly for the caller's `cacheTtl`, or 3600000 ms without one |
| SecretsCache.HitExactlyWhile | src/config/SecretsManager.ts:46-80 | for any fill: the key is answered, with the stored value, if and only if the reading is before the end of its time to live and the slot survived its prune |
| SecretsCache.SecretsStore.Invalidate | src/config/SecretsManager.ts:88-136 | the key is answered no more, every other key is answered as before, and the slots of the other keys stay in their order |
| SecretsCache.SecretsStore.ClearCache | src/config/SecretsManager.ts:202-208 | without a key nothing is answered any more; with a key the same as above |
| SecretsCache.PruningIsNotGreedy | src/config/SecretsManager.ts:19-36 | pruning an oversized cache leaves a suffix, in insertion order, of the unexpired entries, and the longest that fits |
| SecretsCache.FirstPruneIsIdle | src/config/SecretsManager.ts:54 | the first prune of a read changes nothing in a cache within the bound |
| SecretsCache.SecondPruneEvictsAtMostOne | src/config/SecretsManager.ts:73-80 | the second prune evicts at most one unexpired entry, the oldest, and never the one just stored unless it has expired |
| SecretsCache.PutKeepsPlaces | src/config/SecretsManager.ts:73-78 | setting a present key keeps the order of the keys |
| SecretsRuns.StepKeepsInv | src/config/SecretsManager.ts:41-136 | every synchronous segment of every call keeps the bound, distinct keys and the provenance of each cached or in-flight value |
| SecretsRuns.EveryReturnIsJustified | src/config/SecretsManager.ts:41-136 | in every interleaving, each value returned was the backend's value for that key at some instant, and a cache hit was stored by an earlier fill less than the caller's `cacheTtl`, or 3600000 ms without one, ago |
| SecretsRuns.EveryCacheIsBounded | src/config/SecretsManager.ts:19-82 | in every reachable state at an `await` the cache holds at most 500 entries, so the next first prune is idle |
| SecretsRuns.OverlappingSetLeavesAStaleValue | src/config/SecretsManager.ts:41-112 | a run after which, with no call in flight, the cache answers an old value while the backend holds the new one; the exact condition is SecretsCoherence.SettledExactlyWhen |
| SecretsCoherence.FillLandsExactlyWhen | src/config/SecretsManager.ts:73-80 | a stored slot is in the cache after its prune if and only if it has not expired or there was room |
| SecretsCoherence.StepStaysSettledExactlyWhen | src/config/SecretsManager.ts:41-136 | a step keeps every cached value equal to the backend's, or about to be deleted, if and only if it does not fill the cache with a value that a finished write has overtaken |
| SecretsCoherence.SettledExactlyWhen | src/config/SecretsManager.ts:41-136 | for every interleaving: the cache is in this state after every step if and only if no step of the run is such a fill |
| SecretsCoherence.SettledAtRestIsCoherent | src/config/SecretsManager.ts:41-136 | in this state and with no call in flight, every cached value is the backend's |
| SecretsCoherence.SettledHitIsCurrent | src/config/SecretsManager.ts:48-51 | in this state a hit answers the backend's value, or one whose overwriting call is about to delete it |
| SecretsCoherence.ApartIsSettled | src/config/SecretsManager.ts:41-136 | if no read of a key overlaps a write of that key, the cache is in this state after every step |
| SecretsCoherence.WaitingWritesAreNotEnough | src/config/SecretsManager.ts:41-112 | it is not enough that no write of a key begins during a read of it: a run with a read that begins during a write leaves an old value |
| SecretsTransparency.CallIsARun | src/config/SecretsManager.ts:41-136 | a call that nothing interrupts is the run of its segments: same backend, same cache, same value or error for the caller |
| SecretsTransparency.CallKeepsCoherence | src/config/SecretsManager.ts:41-136 | after such a call every cached value is the backend's |
| SecretsTransparency.CallIsTransparent | src/config/SecretsManager.ts:41-136 | such a call has the result of a manager without a cache if and only if it is not a hit during an outage |
| SecretsTransparency.RunsAreTransparent | src/config/SecretsManager.ts:41-136 | any sequence of such calls gives the results, errors and backend of a manager without a cache, if and only if no hit masks an outage |
| SecretsTransparency.TransparentWhileReachable | src/config/SecretsManager.ts:254-283 | while the KV backend answers, no client can tell that there is a cache |
| SecretsTransparency.GetAfterWrite | src/config/SecretsManager.ts:41-136 | after a set, a get returns the value that was set; after a delete or an empty set it finds nothing; gets of other keys are not affected |
| SecretsTransparency.WriteSucceedsExactlyWhen | src/config/SecretsManager.ts:88-136 | a write succeeds if and only if the platform is a KV namespace that is reachable, and otherwise changes nothing |
| SecretsTransparency.MissAnswersTheBackend | src/config/SecretsManager.ts:217-319 | what each platform answers to a get that the cache cannot answer |
| RateLimiter.Limiter.Handle | app/Middleware/index.ts:118-146 | one request: admitted as `Admits` says, with the store of `Serve` |
| RateLimiter.StoredLogIsKept | app/Middleware/index.ts:130-143 | for any clock, a stored list is the client's admissions, pruned at each of them |
| RateLimiter.KeptIsNotOutlived | app/Middleware/index.ts:130-143 | these are just the admissions that no later admission outlives by a whole window |
| RateLimiter.SeesTheWholeHistoryExactlyWhen | app/Middleware/index.ts:134-137 | for any clock, the filter shows the same recent admissions on the stored list as on the whole history if and only if none of them was outlived |
| RateLimiter.WindowIsBoundedWithoutStepBack | app/Middleware/index.ts:118-146 | every window of 60000 ms holds at most 100 admissions of a client whose clock readings do not step back over a whole window between its admissions, whatever the other clients' readings |
| RateLimiter.StoredLogIsPrunedHistory | app/Middleware/index.ts:130-143 | with a clock that never steps back, a stored list is the full history of admissions, pruned at the last one |
| RateLimiter.DecisionRefinesFullHistory | app/Middleware/index.ts:130-143 | with such a clock a request is admitted if and only if fewer than 100 earlier admissions of its client lie less than 60000 ms back |
| RateLimiter.EveryWindowIsBounded | app/Middleware/index.ts:118-146 | in particular with a clock that never steps back, over any run of requests of any clients |
| RateLimiter.StoredListsAreBounded | app/Middleware/index.ts:130-143 | no stored list exceeds 100 entries, with any clock |
| RateLimiter.ClientsAreIsolated | app/Middleware/index.ts:118-146 | a client is a remote address, requests without one counting as "unknown"; deleting all requests of other clients changes neither a client's list nor its admissions |
| RateLimiter.ThreeReadingsBreakTheBoundExactlyWhen | app/Middleware/index.ts:130-143 | 100 requests at reading a, one at b and one at c overfill some window if and only if b is a whole window after a and c is again within a window of a |
| RateLimiter.ClockStepBackBreaksTheBound | app/Middleware/index.ts:130-143 | for instance a = 0, b = 60000, c = 0: 101 admissions in the window from 0 |
| DiffLines.Collector.HandleLine | scripts/coverage-diff.ts:197-246 | one line: the variables change as `OnLine` says |
| DiffLines.CollectChangedLines | scripts/coverage-diff.ts:175-261 | reading all lines leaves exactly the map that the line handler builds, line by line, from the empty one |
| DiffInverse.HeaderReadsBack | scripts/coverage-diff.ts:65-70 | a printed hunk header yields its new start, unless its section heading itself matches, and then yields that |
| DiffInverse.PlainHeadingIsQuiet | scripts/coverage-diff.ts:65-70 | a section heading without "@@" never matches |
| DiffInverse.NameLineSelects | scripts/coverage-diff.ts:198-218 | a printed name line selects its path exactly if it is a `.ts` or `.tsx` path without space and not under `/dev/null` |
| DiffInverse.TabbedNameIsDropped | scripts/coverage-diff.ts:198-218 | a path with a space is never selected |
| DiffInverse.AddedLineIsSeenExactlyWhen | scripts/coverage-diff.ts:228-235 | an added text is recorded at the running number if and only if it does not start with "++" |
| DiffInverse.HunksAreRecorded | scripts/coverage-diff.ts:197-246 | all hunks of a file record exactly the new-file numbers of their added lines |
| DiffInverse.AddedFromIsPlaces | scripts/coverage-diff.ts:220-235 | those running numbers are the places of the added lines in the new file itself |
| DiffInverse.FileIsRecorded | scripts/coverage-diff.ts:197-246 | a printed file diff records its added lines if its name is followed, and nothing otherwise |
| DiffInverse.ParserInvertsPrinter | scripts/coverage-diff.ts:197-246 | for every edit script over any number of files, the parser maps exactly the followed files with additions to exactly the numbers of their added lines |
| DiffContext.BodyIsRecorded | scripts/coverage-diff.ts:226-246 | whatever context, removed and added lines follow a hunk header, the numbers recorded are the places of the added lines among the lines of the new file |
| DiffOutput.LinesReadBackExactlyWhen | scripts/coverage-diff.ts:190-197 | printed lines, each ended by "\n" or "\r\n", are read back if and only if none holds a line terminator |
| DiffOutput.OutputReadsBack | scripts/coverage-diff.ts:175-261 | so the script is read back from the text of its diff, whatever line endings its files have |
| Coverage.ComputeCoveredLines | scripts/coverage-diff.ts:86-162 | from the fields of the coverage file alone: a line is executable if and only if a statement, an arm of a branch or a function lies there, and covered if and only if one lies there whose count is positive |
| Coverage.ModesAreNested | scripts/coverage-diff.ts:86-102 | covered lines are executable; the lines of the narrow mode are among those of the wide mode |
| Coverage.MeasureFile | scripts/coverage-diff.ts:295-338 | the counts of a file are the numbers of its changed lines that are executable, covered and uncovered by the fields, or, without coverage, all or none; the uncovered lines are listed once each in increasing order |
| Coverage.MeasureAll | scripts/coverage-diff.ts:293-339 | the same for every changed file |
| Coverage.FileBalances | scripts/coverage-diff.ts:295-338 | in every file, executable is covered plus uncovered |
| Coverage.TotalsBalance | scripts/coverage-diff.ts:341-375 | so are the totals, with and without files that have no coverage |
| Coverage.TotalsCountLines | scripts/coverage-diff.ts:341-375 | the totals count every executable, and every uncovered, changed line of every file once |
| Coverage.UncoveredGatePassesExactlyWhen | scripts/coverage-diff.ts:373-389 | the gate on uncovered lines passes if and only if in every file each executable changed line is covered |
| Coverage.BelowMinimumExactlyWhen | scripts/coverage-diff.ts:341-382 | for any minimum, the gate fails if and only if the uncovered lines exceed the share that the minimum leaves, plus the slack; where nothing counts, if and only if the minimum exceeds 100 plus the slack |
| Coverage.HundredPercentIsExact | scripts/coverage-diff.ts:341-382 | below 10^11 executable changed lines, a minimum of 100 passes if and only if every executable changed line is covered |
| CaseConvert.DigitPassIsIdle | src/common/index.ts:104-112 | the third pass of `toSnakeCase` never changes anything |
| CaseConvert.SnakeInOnePass | src/common/index.ts:104-112 | on ASCII strings without separators, the six passes are one: an underscore before each later capital, and lower case |
| CaseConvert.SnakeIsSnake | src/common/index.ts:104-112 | `toSnakeCase` of any ASCII string without separators is in snake form |
| CaseConvert.JoinedWordsAreSnake | src/common/index.ts:104-112 | snake form covers every list of words [a-z][a-z0-9]* joined by underscores |
| CaseConvert.SnakeSurvivesExactlyWhen | src/common/index.ts:85-123 | `toSnakeCase(toPascalCase(s))` and `toSnakeCase(camelCase(s))` are `s` if and only if `s` is in snake form |
| CaseConvert.PascalSurvivesExactlyWhen | src/common/index.ts:85-123 | `toPascalCase(toSnakeCase(p))` is `p` if and only if `p` has no separator and does not start with a small letter |
| CaseConvert.CamelSurvivesExactlyWhen | src/common/index.ts:85-123 | `camelCase(toSnakeCase(p))` is `p` if and only if `p` has no separator and does not start with a capital |
| CaseWords.SeparatedWordsAreCapitalised | src/common/index.ts:85-123 | words in any case, separated by any runs of white space, hyphens and underscores: Pascal case is the capitalised words, camel case the first word in lower case and the others capitalised |
| CaseWords.SeparatorsAre | src/common/index.ts:90-120 | the separators are white space, underscore and hyphen, and nothing else |
| CaseWords.SnakeKeepsEverythingElse | src/common/index.ts:104-112 | for any ASCII text, snake case without its underscores is the text without its underscores in lower case, and no two underscores stand together |
| Shutdown.Bootstrap.SetupShutdownHandler | src/boot/bootstrap.ts:296-307 | the handlers are registered once |
| Shutdown.Bootstrap.OnSignal | src/boot/bootstrap.ts:127-186 | the first signal sets the flag, the deadline and the timers and starts the first phase; later ones do nothing |
| Shutdown.StepKeepsInv | src/boot/bootstrap.ts:105-194 | every signal, settlement, timer and passing of time keeps the order of phases and the bounds of all timers |
| Shutdown.ShutdownIsOrderly | src/boot/bootstrap.ts:127-194 | in every run at most one shutdown begins, and its phases start at most once, in order, each after the one before settled or timed out |
| Shutdown.ShutdownIsInTime | src/boot/bootstrap.ts:105-194 | with a positive budget the process ends within it, never by the forced exit, which is due at least 250 ms later |
| Shutdown.SpentBudgetEndsTheProcess | src/boot/bootstrap.ts:105-194 | when the budget is spent, time cannot pass until the outer timer has ended the process with code 1 |
| Shutdown.NormalEndWasComplete | src/boot/bootstrap.ts:127-194 | exit code 0 by completion means that server and application were shut down if present; after a failed server close the application is not |
| ShutdownPhases.PhasesFollowTheItinerary | src/boot/bootstrap.ts:127-194 | in every run the phases started are the first ones of: workers if there are any and their module was loaded, server, application; a completed shutdown has been through all, one that failed at the server through all but the application |
| ShutdownPhases.WorkersGoFirst | src/boot/bootstrap.ts:145-168 | with workers whose module was loaded, no other phase starts, and no shutdown completes or fails at the server, without the workers before |
| ShutdownPhases.PhasesEndInTime | src/boot/bootstrap.ts:105-182 | every phase ends before the next event, the workers within 15000 ms and the application within 5000 ms or what is left of the budget, if less and positive; a phase times out exactly at its limit |
| ShutdownPhases.ExitTellsTheEnd | src/boot/bootstrap.ts:127-194 | the exit code, time and last event for each way in which the process ends |
| ShutdownPhases.SignalIsHeard | src/boot/bootstrap.ts:127-129 | a signal after the handlers are set up begins the shutdown |
| ShutdownPhases.SignalIsNotHeard | src/boot/bootstrap.ts:296-307 | without handlers it does not |
| ShutdownPhases.FulfilledShutdownCompletes | src/boot/bootstrap.ts:145-190 | from any moment of a shutdown, if all that is awaited is fulfilled at once, the shutdown completes then |
| SigV4.SigningParams.BuildCanonicalRequest | src/common/AwsSigV4.ts:64-90 | adds the session token to the caller's headers if it is missing, and builds the canonical request of the result |
| SigV4.NormalizedJoinsWords | src/common/AwsSigV4.ts:48-62 | a normalised header value is its words joined by single spaces |
| SigV4.SameNormalizedExactlyWhenSameWords | src/common/AwsSigV4.ts:48-62 | two values normalise alike if and only if they have the same words |
| SigV4.CanonicalExactlyWhenSame | src/common/AwsSigV4.ts:48-90 | two requests have one canonical form if and only if they agree in method, URI, query, payload hash, header names and words of header values |
| SigV4.OrderDoesNotMatter | src/common/AwsSigV4.ts:48-62 | the order in which headers were set does not matter |
| SigV4.TokenIsBound | src/common/AwsSigV4.ts:64-90 | requests that differ only in the words of their session tokens have different canonical forms |
| SigV4Layout.CanonicalLayout | src/common/AwsSigV4.ts:48-90 | split at its newlines, the canonical request is method, URI, query, one line for each header in ascending order of the names (name, colon, words of the value), an empty line, the names joined by semicolons, the payload hash |
| SigV4Layout.TokenIsAddedExactlyWhen | src/common/AwsSigV4.ts:72-79 | the token becomes a header if and only if it is not blank and the caller has not set that header; other headers are as the caller set them |
| Text.SpacesAre | src/common/AwsSigV4.ts:52-52 | the characters that `trim` and `\s` treat as white space, one by one |
| Text.TrimTakesTheEnds | src/common/AwsSigV4.ts:52-52 | trimming takes the white space at both ends and nothing else |
| CollectionSort.ConsistentExactlyWhen | src/collections/Collection.ts:76-92 | the comparator orders the items consistently if and only if no NaN stands beside two different numbers and no text crosses two numbers |
| CollectionSort.OneKindIsSane | src/collections/Collection.ts:76-92 | keys that are all numbers without NaN, or never numbers, with or without nil, meet that condition |
| CollectionSort.MixedKeysGoRound | src/collections/Collection.ts:76-92 | 2, 10 and "1a" compare in a circle, under any collation that puts "10" before "1a" before "2" |
| CollectionSort.TextsAreCompared | src/collections/Collection.ts:90-91 | keys of other kinds are compared as the texts that `String` makes of them |
| CollectionSort.SortByKey | src/collections/Collection.ts:76-92 | a permutation; with such keys numbers ascend, texts are collated, nil comes last, and ties keep their order |
| CollectionSort.SortByIsDetermined | src/collections/Collection.ts:76-92 | only one list is such a permutation |
| CollectionGroups.BucketIsByPosition | src/collections/Collection.ts:116-133 | a bucket holds the items at exactly the indices with its key, in increasing order |
| CollectionGroups.BucketsPartition | src/collections/Collection.ts:116-133 | every index lies in exactly one bucket, once |
| CollectionGroups.KeysAreInFirstSeenOrder | src/collections/Collection.ts:116-133 | of two keys the one seen first comes first |
| CollectionGroups.GroupByItems | src/collections/Collection.ts:116-133 | the groups are the buckets, with keys in first-seen order |
| CollectionGroups.KeyByItems | src/collections/Collection.ts:105-114 | each key leads to the last item of its bucket, with keys in first-seen order |
| CollectionGroups.UniqueItems | src/collections/Collection.ts:64-74 | the first item of each bucket, in key order |
| CollectionGroups.UniqueIsIdempotent | src/collections/Collection.ts:64-74 | no two items of the result share a key, the result is the input if and only if no two items did, and a second call changes nothing |
| CollectionGroups.ChunkItems | src/collections/Collection.ts:94-103 | nothing for sizes that are below 1 or not finite; otherwise the chunks concatenate to the input and all but the last are full |
| CollectionGroups.ChunksAreDetermined | src/collections/Collection.ts:94-103 | only one list of chunks does that |
| StackFrames.LocationReadsBack | public/error-pages/error.js:109-130 | a printed "file:line:column" is read back, whatever colons the file name holds |
| StackFrames.FrameReadsBack | public/error-pages/error.js:132-154 | a printed frame, named or anonymous, is read back |
| StackFrames.StackReadsBack | public/error-pages/error.js:101-174 | a printed stack is read back frame by frame, with its header |
| StackLines.LocationParsesExactlyWhen | public/error-pages/error.js:109-130 | a location is read if and only if, trimmed, it is a file name, a colon, digits, a colon and digits |
| StackLines.NoLineIsLost | public/error-pages/error.js:105-171 | every line that is not blank comes back as one frame with its text, in order, and is not taken apart if it does not start with "at " |
| Basename.ToSafeDbBasename | src/config/database.ts:95-127 | the result is the maximal runs of allowed characters of the lowered, trimmed name joined by single hyphens, or the fallback |
| Basename.ResultIsNormal | src/config/database.ts:95-127 | the result is always in normal form, equals the input if and only if the input was in normal form, and is a fixed point |
| Basename.WordCharsAreKept | src/config/database.ts:95-127 | the result has exactly the letters, digits and underscores of the lowered name, in order; a name without any becomes "zintrust" |

## Left out

- LogWriter.FileLogWriter.Write: does not model the early returns without a working directory or in a Workers runtime, which do nothing, nor file-system errors, which the source swallows.
- LogWriter.FileLogWriter.FlushPendingWrites: a stream write is an append at that moment; stream errors, delayed opening of the file and unlinking an open file are not modelled.
- LogConservation.LinesAreConserved: the conditions on a run (new stamps, no flush of lines without a stream, no ageing of the day itself) are part of `CarefulRun`; two of them are shown necessary by the exact lemmas beside it, the third is what the age policy is for.
- LogRetention.LogDir.CleanOnce: takes resolved options; environment defaults and files whose `unlink` fails are not modelled. `Date.parse` accepts days 1 to 31 of every month, as V8 does.
- LogRetention.LogDir.GetFileSizesTotal: files whose `stat` fails, which the source skips, are not modelled.
- SecretsRuns.EveryReturnIsJustified: the AWS calls always fail, as in the source; the environments of Deno and Node.js are read-only stores. `rotateSecret`, `listSecrets` and times to live that are not integers are not modelled.
- SecretsCoherence.SettledExactlyWhen: the backend changes only through the manager; expiry inside the KV store and other writers are covered by EveryReturnIsJustified alone.
- RateLimiter.ThreeReadingsBreakTheBoundExactlyWhen: shows for runs of this shape that the clock condition of WindowIsBoundedWithoutStepBack cannot be dropped; a run with too few requests keeps the bound with any clock.
- DiffInverse.ParserInvertsPrinter: assumes what a printed script may hold (`PlainFile`): hunk headings that do not look like headers, no added text starting with "++", name lines without git's quoting. `normalizeRel`, which leaves relative POSIX paths alone, is not modelled.
- DiffLines.CollectChangedLines: takes the lines; starting `git` and its exit code are not modelled.
- Coverage.BelowMinimumExactlyWhen: percentages are real numbers; rounding to doubles is not modelled.
- Coverage.MeasureAll: takes each file's coverage and whether the exclusion list names it; reading the coverage file, `isCoverageExcluded`, argument parsing and the printed report are not modelled.
- CaseConvert.SnakeSurvivesExactlyWhen: covers ASCII strings, as do SnakeInOnePass and SnakeIsSnake; Unicode case mapping is not modelled.
- Shutdown.ShutdownIsInTime: a due timer fires before the clock goes on; delays of the event loop, `setTimeout` overflow and what the phases do inside are not modelled.
- SigV4.CanonicalExactlyWhenSame: assumes single-line fields and distinct header names without colons; the collation of `localeCompare` is any total order on the names. Hashing, HMAC and the credential scope are not modelled.
- CollectionSort.SortByKey: `localeCompare` is any total preorder with opposite signs for exchanged arguments; without consistent keys only the permutation is stated, since ECMA-262 leaves the order open.
- CollectionGroups.GroupByItems: a collection is the sequence of its snapshot; freezing and the copies that protect it are not modelled. `map`, `filter`, `take`, `skip`, `where`, `first` and `last`, each a map, filter, slice or search of the snapshot, are not modelled.
- StackFrames.StackReadsBack: error headers of one line; frames with other shapes than V8's two are not printed.
- Basename.ToSafeDbBasename: `toLowerCase` is any function that is right on ASCII text. `parseReadHosts` and `normalizeReadHosts`, which split, trim and filter a list of hosts, are not modelled.
- Strings are sequences of code points, not of UTF-16 units; the order of file names with characters beyond the Basic Multilingual Plane, which the writer never makes, is that of code points.
- The CORS, CSRF, JWT and XSS middleware, controllers, routes, models, migrations, the CLI, cache and configuration drivers delegate to third-party libraries and to the file system, and are not modelled.
