/** The log directory and the three retention policies of src/config/FileLogWriter.ts, applied in
    sequence by `cleanOnce`: by age, by number of files, by total size.  Files are identified by
    their names (all paths share the directory); stats and unlinks succeed. */
module LogRetention {
  import opened Text
  import opened LogNames
  import opened LogDates
  import Sorting

  datatype File = File(content: string, mtime: int)

  type Dir = map<string, File>

  /** The length of a character in the UTF-8 encoding the streams write. */
  function Utf8Length(c: char): (n: nat)
    ensures 1 <= n <= 4
  {
    if c <= '\U{007F}' then 1 else if c <= '\U{07FF}' then 2 else if c <= '\U{FFFF}' then 3 else 4
  }

  /** `stat.size` */
  function ByteSize(content: string): nat {
    if content == "" then 0 else ByteSize(content[..|content| - 1]) + Utf8Length(content[|content| - 1])
  }

  /** The UTF-8 encoding of a character (section 3 of RFC 3629). */
  function Utf8(c: char): (bytes: seq<nat>)
    ensures forall b :: b in bytes ==> b < 256
  {
    var n := c as nat;
    if n < 0x80 then [n]
    else if n < 0x800 then [0xC0 + n / 0x40, 0x80 + n % 0x40]
    else if n < 0x10000 then [0xE0 + n / 0x1000, 0x80 + n / 0x40 % 0x40, 0x80 + n % 0x40]
    else [0xF0 + n / 0x40000, 0x80 + n / 0x1000 % 0x40, 0x80 + n / 0x40 % 0x40, 0x80 + n % 0x40]
  }

  function Encoded(content: string): seq<nat> {
    if content == "" then [] else Utf8(content[0]) + Encoded(content[1..])
  }

  lemma {:induction false} EncodedOfAppend(content: string, c: char)
    ensures Encoded(content + [c]) == Encoded(content) + Utf8(c)
  {
    if content == "" {
      assert [c][1..] == "" && Utf8(c) + [] == Utf8(c);
    } else {
      assert (content + [c])[1..] == content[1..] + [c];
      EncodedOfAppend(content[1..], c);
      Associate(Utf8(content[0]), Encoded(content[1..]), Utf8(c));
      hide Utf8;
    }
  }

  /** The size of a file is the length of its encoded content. */
  lemma {:induction false} ByteSizeIsEncodedLength(content: string)
    ensures ByteSize(content) == |Encoded(content)|
  {
    if content != "" {
      var front, last := content[..|content| - 1], content[|content| - 1];
      ByteSizeIsEncodedLength(front);
      EncodedOfAppend(front, last);
      assert content == front + [last];
    }
  }

  // ---------- Age ----------

  predicate ShouldDelete(name: string, file: File, cutoff: int) {
    match ParseDateFromLogFilename(name)
    case Some(midnight) => midnight < cutoff
    case None => file.mtime < cutoff
  }

  predicate Aged(name: string, file: File, keepDays: int, now: int) {
    keepDays > 0 && IsAppLogFile(name) && ShouldDelete(name, file, now - keepDays * DAY_MS)
  }

  function AgeSurvivors(dir: Dir, keepDays: int, now: int): Dir {
    map name | name in dir && !Aged(name, dir[name], keepDays, now) :: dir[name]
  }

  /** What the age policy leaves, in terms of the name: everything without a limit or with another name; of the
      log names those whose date, or without a date whose modification time, is not before the cutoff. */
  ghost predicate StaysByAge(name: string, mtime: int, keepDays: int, now: int) {
    var cutoff := now - keepDays * 86400000;
    || keepDays <= 0 || !IsLogName(name)
    || (&& (forall d, tail :: HasDate(name, d, tail) ==> Midnight(DayNumber(d)) >= cutoff)
        && ((exists d, tail :: HasDate(name, d, tail)) || mtime >= cutoff))
  }

  lemma AgedExactlyWhen(name: string, file: File, keepDays: int, now: int)
    ensures Aged(name, file, keepDays, now) <==> !StaysByAge(name, file.mtime, keepDays, now)
  {
    LogNameExactlyWhen(name);
    DateParsesExactlyWhen(name);
    hide ParseDateFromLogFilename, HasDate, IsAppLogFile, IsLogName;
  }

  lemma AgeSurvivorsExactlyWhen(dir: Dir, keepDays: int, now: int)
    ensures forall name ::
              name in AgeSurvivors(dir, keepDays, now)
              <==> name in dir && StaysByAge(name, dir[name].mtime, keepDays, now)
    ensures forall name :: name in AgeSurvivors(dir, keepDays, now) ==>
              AgeSurvivors(dir, keepDays, now)[name] == dir[name]
  {
    hide Aged, StaysByAge;
    forall name | name in dir
      ensures name in AgeSurvivors(dir, keepDays, now) <==> StaysByAge(name, dir[name].mtime, keepDays, now)
    {
      AgedExactlyWhen(name, dir[name], keepDays, now);
    }
  }

  /** For the files the writer makes: they stay exactly as long as their day is not before the cutoff. */
  lemma WriterFilesStayExactlyWhen(n: LogName, mtime: int, keepDays: int, now: int)
    requires n.day < EPOCH_DAY + CLOCK_END / DAY_MS
    ensures StaysByAge(NameOf(n), mtime, keepDays, now)
            <==> keepDays <= 0 || Midnight(n.day) >= now - keepDays * 86400000
  {
    WriterNamesHaveDates(n);
    NameParsesToItsDay(n);
    LogNameExactlyWhen(NameOf(n));
    hide HasDate, IsAppLogFile, IsLogName, ParseDateFromLogFilename, NameOf;
  }

  /** The aged files among the given names are gone. */
  function AgedOut(dir: Dir, names: seq<string>, keepDays: int, now: int): Dir {
    map name | name in dir && !(name in names && Aged(name, dir[name], keepDays, now)) :: dir[name]
  }

  lemma AgedOutStep(dir: Dir, names: seq<string>, next: string, keepDays: int, now: int)
    requires next in dir && next !in names
    ensures next in AgedOut(dir, names, keepDays, now) && AgedOut(dir, names, keepDays, now)[next] == dir[next]
    ensures AgedOut(dir, names + [next], keepDays, now)
            == if Aged(next, dir[next], keepDays, now)
               then AgedOut(dir, names, keepDays, now) - {next} else AgedOut(dir, names, keepDays, now)
  {
  }

  lemma NoAgeLimit(dir: Dir, keepDays: int, now: int)
    requires keepDays <= 0
    ensures AgeSurvivors(dir, keepDays, now) == dir
  {
  }

  lemma AgedOutAll(dir: Dir, names: seq<string>, keepDays: int, now: int)
    requires forall name :: name in names <==> name in dir
    ensures AgedOut(dir, names, keepDays, now) == AgeSurvivors(dir, keepDays, now)
    ensures AgedOut(dir, [], keepDays, now) == dir
  {
  }

  // ---------- Listing ----------

  ghost predicate StrictlySorted(list: seq<string>) {
    forall i, j :: 0 <= i < j < |list| ==> Before(list[i], list[j])
  }

  ghost predicate ListsAppFiles(list: seq<string>, dir: Dir) {
    && StrictlySorted(list)
    && forall name :: name in list <==> name in dir && IsAppLogFile(name)
  }

  lemma {:induction false} StrictlySortedIsUnique(a: seq<string>, b: seq<string>)
    requires StrictlySorted(a) && StrictlySorted(b)
    requires forall name :: name in a <==> name in b
    ensures a == b
  {
    assert b == [] || b[0] in b;
    if a != [] {
      assert a[0] in b;
      var i :| 0 <= i < |b| && b[i] == a[0];
      assert b[0] in a;
      var j :| 0 <= j < |a| && a[j] == b[0];
      if i > 0 && j > 0 {
        BeforeIsTransitive(a[0], b[0], a[0]);
      }
      BeforeIsIrreflexive(a[0]);
      assert a[0] == b[0];
      forall name ensures name in a[1..] <==> name in b[1..] {
        TailMembers(a, name);
        TailMembers(b, name);
      }
      StrictlySortedIsUnique(a[1..], b[1..]);
      assert a == [a[0]] + a[1..] && b == [b[0]] + b[1..];
    }
  }

  lemma TailMembers(list: seq<string>, name: string)
    requires StrictlySorted(list) && list != []
    ensures name in list[1..] <==> name in list && name != list[0]
  {
    assert list == [list[0]] + list[1..];
    BeforeIsIrreflexive(list[0]);
    if name in list[1..] {
      var i :| 0 <= i < |list[1..]| && list[1..][i] == name;
      assert Before(list[0], list[i + 1]);
    }
  }

  function Reverse(list: seq<string>): (r: seq<string>)
    ensures |r| == |list|
    ensures forall i :: 0 <= i < |r| ==> r[i] == list[|list| - 1 - i]
  {
    if list == [] then [] else [list[|list| - 1]] + Reverse(list[..|list| - 1])
  }

  predicate NotAfter(a: string, b: string) { !Before(b, a) }

  lemma NamesAreConsistent(list: seq<string>)
    ensures Sorting.ConsistentOn(NotAfter, list)
  {
    forall x, y | x in list && y in list ensures NotAfter(x, y) || NotAfter(y, x) {
      if Before(y, x) && Before(x, y) {
        BeforeIsTransitive(x, y, x);
        BeforeIsIrreflexive(x);
      }
    }
    forall x, y, z | x in list && y in list && z in list && NotAfter(x, y) && NotAfter(y, z)
      ensures NotAfter(x, z)
    {
      if Before(z, x) {
        BeforeIsTotal(x, y);
        if x != y {
          BeforeIsTransitive(z, x, y);
        }
      }
    }
  }

  /** Whatever order the directory is read in, sorting its names gives the same strict order. */
  lemma SortOfDistinctNames(list: seq<string>)
    requires Sorting.NoRepeats(list)
    ensures StrictlySorted(Sorting.Sort(NotAfter, list))
    ensures forall name :: name in Sorting.Sort(NotAfter, list) <==> name in list
  {
    var sorted := Sorting.Sort(NotAfter, list);
    NamesAreConsistent(list);
    Sorting.SortSorts(NotAfter, list);
    Sorting.SameMembers(sorted, list);
    Sorting.SortKeepsNoRepeats(NotAfter, list);
    forall i, j | 0 <= i < j < |sorted| ensures Before(sorted[i], sorted[j]) {
      assert NotAfter(sorted[i], sorted[j]);
      BeforeIsTotal(sorted[i], sorted[j]);
    }
  }

  ghost function Enumerate(names: set<string>): (list: seq<string>)
    ensures Sorting.NoRepeats(list)
    ensures forall name :: name in list <==> name in names
  {
    if names == {} then []
    else
      var name :| name in names;
      [name] + Enumerate(names - {name})
  }

  /** The log files of the directory, oldest first. */
  ghost function Listing(dir: Dir): (list: seq<string>)
    ensures ListsAppFiles(list, dir)
  {
    var names := set name | name in dir && IsAppLogFile(name);
    SortOfDistinctNames(Enumerate(names));
    Sorting.Sort(NotAfter, Enumerate(names))
  }

  // ---------- Number and size ----------

  function SizeOf(dir: Dir, list: seq<string>): nat {
    if list == [] then 0
    else (if list[0] in dir then ByteSize(dir[list[0]].content) else 0) + SizeOf(dir, list[1..])
  }

  /** A run of files meets the count limit and the size limit (each only where it is switched on). */
  predicate Fits(dir: Dir, run: seq<string>, keepFiles: int, maxTotalSize: int) {
    && (keepFiles >= 0 ==> |run| <= keepFiles)
    && (maxTotalSize > 0 ==> SizeOf(dir, run) <= maxTotalSize)
  }

  /** The first index at or after `from` from which on the files fit. */
  function FirstFit(dir: Dir, list: seq<string>, from: nat, keepFiles: int, maxTotalSize: int): (k: nat)
    requires from <= |list|
    ensures from <= k <= |list|
    ensures Fits(dir, list[k..], keepFiles, maxTotalSize)
    ensures forall j :: from <= j < k ==> !Fits(dir, list[j..], keepFiles, maxTotalSize)
    decreases |list| - from
  {
    if from == |list| || Fits(dir, list[from..], keepFiles, maxTotalSize) then from
    else FirstFit(dir, list, from + 1, keepFiles, maxTotalSize)
  }

  /** How many of the oldest files the count limit alone removes. */
  function Excess(list: seq<string>, keepFiles: int): (n: nat)
    ensures n <= |list|
  {
    if 0 <= keepFiles < |list| then |list| - keepFiles else 0
  }

  function Without(dir: Dir, names: seq<string>): Dir {
    map name | name in dir && name !in names :: dir[name]
  }

  /** The directory and the returned list after `cleanOnce`. */
  ghost function Cleaned(dir: Dir, keepDays: int, keepFiles: int, maxTotalSize: int, now: int): Dir {
    var young := AgeSurvivors(dir, keepDays, now);
    var list := Listing(young);
    Without(young, list[..FirstFit(young, list, 0, keepFiles, maxTotalSize)])
  }

  ghost function Deleted(dir: Dir, keepDays: int, keepFiles: int, maxTotalSize: int, now: int): seq<string> {
    var young := AgeSurvivors(dir, keepDays, now);
    var list := Listing(young);
    var k := FirstFit(young, list, 0, keepFiles, maxTotalSize);
    var n := Excess(list, keepFiles);
    FitsNeedsCount(young, list, keepFiles, maxTotalSize);
    Reverse(list[..n]) + list[n..k]
  }

  lemma FitsNeedsCount(dir: Dir, list: seq<string>, keepFiles: int, maxTotalSize: int)
    ensures Excess(list, keepFiles) <= FirstFit(dir, list, 0, keepFiles, maxTotalSize)
  {
  }

  class LogDir {
    var files: Dir

    method ReadDir() returns (names: seq<string>)
      ensures Sorting.NoRepeats(names)
      ensures forall name :: name in names <==> name in files
    {
      names := [];
      var rest := files.Keys;
      while rest != {}
        invariant rest <= files.Keys
        invariant Sorting.NoRepeats(names)
        invariant forall name :: name in names <==> name in files && name !in rest
        decreases |rest|
      {
        var name :| name in rest;
        names := names + [name];
        rest := rest - {name};
      }
    }

    method Unlink(name: string)
      modifies this
      ensures files == old(files) - {name}
    {
      files := files - {name};
    }

    method CleanupOldLogs(keepDays: int, now: int)
      modifies this
      ensures files == AgeSurvivors(old(files), keepDays, now)
      ensures forall name ::
                name in files <==> name in old(files) && StaysByAge(name, old(files)[name].mtime, keepDays, now)
      ensures forall name :: name in files ==> files[name] == old(files)[name]
    {
      hide AgedOut, AgeSurvivors, ShouldDelete, IsAppLogFile, StaysByAge;
      ghost var dir := files;
      AgeSurvivorsExactlyWhen(dir, keepDays, now);
      if keepDays <= 0 {
        NoAgeLimit(dir, keepDays, now);
        return;
      }
      var cutoff := now - keepDays * DAY_MS;
      var names := ReadDir();
      AgedOutAll(dir, names, keepDays, now);
      if |names| == 0 { return; }
      for i := 0 to |names|
        invariant files == AgedOut(dir, names[..i], keepDays, now)
      {
        assert names[..i + 1] == names[..i] + [names[i]] && names[i] in dir;
        AgedOutStep(dir, names[..i], names[i], keepDays, now);
        if !IsAppLogFile(names[i]) { continue; }
        if !ShouldDelete(names[i], files[names[i]], cutoff) { continue; }
        Unlink(names[i]);
      }
      assert names[..|names|] == names;
    }

    method ListAppLogFiles(newestFirst: bool) returns (list: seq<string>)
      ensures list == if newestFirst then Reverse(Listing(files)) else Listing(files)
    {
      var names := ReadDir();
      var kept := [];
      for i := 0 to |names|
        invariant Sorting.NoRepeats(kept)
        invariant forall name :: name in kept <==> name in names[..i] && IsAppLogFile(name)
      {
        assert names[..i + 1] == names[..i] + [names[i]];
        if IsAppLogFile(names[i]) { kept := kept + [names[i]]; }
      }
      assert names[..|names|] == names;
      list := Sorting.Sort(NotAfter, kept);
      SortOfDistinctNames(kept);
      StrictlySortedIsUnique(list, Listing(files));
      if newestFirst { list := Reverse(list); }
    }

    method EnforceKeepFilesPolicy(filesNewestFirst: seq<string>, keepFiles: int, deleted: seq<string>)
      returns (deleted': seq<string>)
      modifies this
      ensures var cut := if 0 <= keepFiles <= |filesNewestFirst| then keepFiles else |filesNewestFirst|;
              && deleted' == deleted + filesNewestFirst[cut..]
              && files == Without(old(files), filesNewestFirst[cut..])
    {
      deleted' := deleted;
      if keepFiles < 0 || |filesNewestFirst| <= keepFiles { return; }
      var toDelete := filesNewestFirst[keepFiles..];
      for i := 0 to |toDelete|
        invariant deleted' == deleted + toDelete[..i]
        invariant files == Without(old(files), toDelete[..i])
      {
        assert toDelete[..i + 1] == toDelete[..i] + [toDelete[i]];
        Unlink(toDelete[i]);
        deleted' := deleted' + [toDelete[i]];
      }
      assert toDelete[..|toDelete|] == toDelete;
    }

    method GetFileSizesTotal(filesOldestFirst: seq<string>) returns (total: nat, sizes: seq<(string, nat)>)
      requires forall i :: 0 <= i < |filesOldestFirst| ==> filesOldestFirst[i] in files
      ensures total == SizeOf(files, filesOldestFirst)
      ensures |sizes| == |filesOldestFirst|
      ensures forall i :: 0 <= i < |sizes| ==>
        && sizes[i].0 == filesOldestFirst[i]
        && sizes[i].1 == ByteSize(files[filesOldestFirst[i]].content)
    {
      total, sizes := 0, [];
      for i := 0 to |filesOldestFirst|
        invariant |sizes| == i
        invariant total + SizeOf(files, filesOldestFirst[i..]) == SizeOf(files, filesOldestFirst)
        invariant forall j :: 0 <= j < i ==>
          && sizes[j].0 == filesOldestFirst[j]
          && sizes[j].1 == ByteSize(files[filesOldestFirst[j]].content)
      {
        var size := ByteSize(files[filesOldestFirst[i]].content);
        assert filesOldestFirst[i..][1..] == filesOldestFirst[i + 1..];
        sizes := sizes + [(filesOldestFirst[i], size)];
        total := total + size;
      }
    }

    method DeleteOldestUntilWithinLimit(sizesOldestFirst: seq<(string, nat)>, maxTotalSize: int,
                                        deleted: seq<string>, initialTotal: int)
      returns (deleted': seq<string>, ghost idx': nat)
      modifies this
      ensures idx' <= |sizesOldestFirst|
      ensures var gone := Names(sizesOldestFirst[..idx']);
              deleted' == deleted + gone && files == Without(old(files), gone)
      ensures idx' < |sizesOldestFirst| ==> initialTotal - TotalOfFirst(sizesOldestFirst, idx') <= maxTotalSize
      ensures forall j :: 0 <= j < idx' ==> initialTotal - TotalOfFirst(sizesOldestFirst, j) > maxTotalSize
    {
      var total, idx := initialTotal, 0;
      deleted' := deleted;
      assert Without(files, []) == files && sizesOldestFirst[..0] == [] && Names([]) == [];
      assert TotalOfFirst(sizesOldestFirst, 0) == 0;
      hide *;
      while total > maxTotalSize && idx < |sizesOldestFirst|
        invariant idx <= |sizesOldestFirst|
        invariant total == initialTotal - TotalOfFirst(sizesOldestFirst, idx)
        invariant deleted' == deleted + Names(sizesOldestFirst[..idx])
        invariant files == Without(old(files), Names(sizesOldestFirst[..idx]))
        invariant forall j :: 0 <= j < idx ==> initialTotal - TotalOfFirst(sizesOldestFirst, j) > maxTotalSize
      {
        var del := sizesOldestFirst[idx];
        OneMore(sizesOldestFirst, idx);
        Associate(deleted, Names(sizesOldestFirst[..idx]), [del.0]);
        WithoutOneMore(old(files), Names(sizesOldestFirst[..idx]), del.0);
        Unlink(del.0);
        deleted' := deleted' + [del.0];
        total := total - del.1;
        idx := idx + 1;
      }
      idx' := idx;
    }

    method EnforceMaxTotalSizePolicy(maxTotalSize: int, deleted: seq<string>) returns (deleted': seq<string>)
      modifies this
      ensures var list := Listing(old(files));
              var k := FirstFit(old(files), list, 0, -1, maxTotalSize);
              deleted' == deleted + list[..k] && files == Without(old(files), list[..k])
    {
      hide *;
      ghost var dir, all := files, Listing(files);
      if maxTotalSize <= 0 {
        NoLimits(dir, all, -1, maxTotalSize);
        return deleted;
      }
      ListsOnlyFiles(all, dir);
      var remainingOldestFirst := ListAppLogFiles(false);
      var total, sizes := GetFileSizesTotal(remainingOldestFirst);
      ghost var k;
      deleted', k := DeleteOldestUntilWithinLimit(sizes, maxTotalSize, deleted, total);
      GreedyIsFirstFit(dir, all, sizes, k, maxTotalSize);
    }

    /** All three policies; `keepFiles` and `maxTotalSize` are the resolved options. */
    method CleanOnce(keepDays: int, keepFiles: int, maxTotalSize: int, now: int) returns (deleted: seq<string>)
      modifies this
      ensures files == Cleaned(old(files), keepDays, keepFiles, maxTotalSize, now)
      ensures deleted == Deleted(old(files), keepDays, keepFiles, maxTotalSize, now)
      ensures forall name ::
                name in files || name in deleted
                <==> name in old(files) && StaysByAge(name, old(files)[name].mtime, keepDays, now)
    {
      hide *;
      ghost var dir := files;
      KeptOrDeletedExactlyWhen(dir, keepDays, keepFiles, maxTotalSize, now);
      CleanupOldLogs(keepDays, now);
      ghost var young, list := files, Listing(files);
      ghost var n := Excess(list, keepFiles);
      NewestFirstTail(young, list, keepFiles);
      var filesNewestFirst := ListAppLogFiles(true);
      deleted := EnforceKeepFilesPolicy(filesNewestFirst, keepFiles, []);
      assert deleted == Reverse(list[..n]);
      ghost var rest := files;
      assert rest == Without(young, list[..n]);
      deleted := EnforceMaxTotalSizePolicy(maxTotalSize, deleted);
      StepsMakeCleaned(dir, young, files, deleted, keepDays, keepFiles, maxTotalSize, now);
    }
  }

  /** The three steps of `CleanOnce`, put together. */
  lemma StepsMakeCleaned(dir: Dir, young: Dir, kept: Dir, deleted: seq<string>,
                         keepDays: int, keepFiles: int, maxTotalSize: int, now: int)
    requires young == AgeSurvivors(dir, keepDays, now)
    requires var list := Listing(young);
             var n := Excess(list, keepFiles);
             var rest := Without(young, list[..n]);
             var m := FirstFit(rest, Listing(rest), 0, -1, maxTotalSize);
             && kept == Without(rest, Listing(rest)[..m])
             && deleted == Reverse(list[..n]) + Listing(rest)[..m]
    ensures kept == Cleaned(dir, keepDays, keepFiles, maxTotalSize, now)
    ensures deleted == Deleted(dir, keepDays, keepFiles, maxTotalSize, now)
  {
    TwoStepsAreOne(young, keepFiles, maxTotalSize);
  }

  /** What the count step cuts off the newest-first listing is the oldest part of the listing. */
  lemma NewestFirstTail(dir: Dir, list: seq<string>, keepFiles: int)
    ensures var n, newest := Excess(list, keepFiles), Reverse(list);
            var cut := if 0 <= keepFiles <= |newest| then keepFiles else |newest|;
            && newest[cut..] == Reverse(list[..n])
            && Without(dir, newest[cut..]) == Without(dir, list[..n])
  {
    hide Without;
    var n, newest := Excess(list, keepFiles), Reverse(list);
    var cut := if 0 <= keepFiles <= |newest| then keepFiles else |newest|;
    assert cut == |list| - n;
    ReverseSplit(list, n);
    WithoutReversed(dir, list[..n]);
  }

  lemma {:induction false} ReverseSplit(list: seq<string>, n: nat)
    requires n <= |list|
    ensures Reverse(list)[|list| - n..] == Reverse(list[..n])
  {
    if n == |list| {
      assert list[..n] == list && Reverse(list)[0..] == Reverse(list);
    } else {
      var front := list[..|list| - 1];
      ReverseSplit(front, n);
      assert front[..n] == list[..n];
      assert Reverse(list)[1..] == Reverse(front);
      assert Reverse(list)[|list| - n..] == Reverse(list)[1..][|front| - n..];
    }
  }

  /** The count step followed by the size step removes one prefix of the listing. */
  lemma TwoStepsAreOne(young: Dir, keepFiles: int, maxTotalSize: int)
    ensures var list := Listing(young);
            var n, k := Excess(list, keepFiles), FirstFit(young, list, 0, keepFiles, maxTotalSize);
            var rest := Without(young, list[..n]);
            var m := FirstFit(rest, Listing(rest), 0, -1, maxTotalSize);
            && n <= k
            && Listing(rest)[..m] == list[n..k]
            && Without(rest, Listing(rest)[..m]) == Without(young, list[..k])
  {
    var list := Listing(young);
    var n, k := Excess(list, keepFiles), FirstFit(young, list, 0, keepFiles, maxTotalSize);
    ListingWithout(young, n);
    FirstFitInTwoSteps(young, list, keepFiles, maxTotalSize);
    WithoutSlices(young, list, n, k);
  }

  lemma WithoutSlices(dir: Dir, list: seq<string>, n: nat, k: nat)
    requires n <= k <= |list|
    ensures list[n..][..k - n] == list[n..k]
    ensures Without(Without(dir, list[..n]), list[n..k]) == Without(dir, list[..k])
  {
    assert list[..n] + list[n..k] == list[..k];
    WithoutTwice(dir, list[..n], list[n..k]);
  }

  lemma FirstFitIsUnique(dir: Dir, list: seq<string>, k: nat, keepFiles: int, maxTotalSize: int)
    requires k <= |list| && Fits(dir, list[k..], keepFiles, maxTotalSize)
    requires forall j :: 0 <= j < k ==> !Fits(dir, list[j..], keepFiles, maxTotalSize)
    ensures FirstFit(dir, list, 0, keepFiles, maxTotalSize) == k
  {
  }

  lemma {:induction false} SizesSplit(dir: Dir, list: seq<string>, sizes: seq<(string, nat)>, j: nat)
    requires j <= |sizes| == |list|
    requires forall i :: 0 <= i < |list| ==> list[i] in dir
    requires forall i :: 0 <= i < |sizes| ==>
      sizes[i].0 == list[i] && sizes[i].1 == ByteSize(dir[list[i]].content)
    ensures TotalOf(sizes[..j]) + SizeOf(dir, list[j..]) == SizeOf(dir, list)
  {
    if j > 0 {
      SizesSplit(dir, list, sizes, j - 1);
      assert list[j - 1..][1..] == list[j..];
      assert sizes[..j][..j - 1] == sizes[..j - 1];
    }
  }

  lemma NoLimits(dir: Dir, list: seq<string>, keepFiles: int, maxTotalSize: int)
    requires keepFiles < 0 && maxTotalSize <= 0
    ensures FirstFit(dir, list, 0, keepFiles, maxTotalSize) == 0
    ensures list[..0] == [] && Without(dir, []) == dir
  {
  }

  lemma ListsOnlyFiles(list: seq<string>, dir: Dir)
    requires ListsAppFiles(list, dir)
    ensures forall i :: 0 <= i < |list| ==> list[i] in dir
  {
  }

  /** Deleting from the oldest file on until the limit is met stops at the first index that fits. */
  lemma GreedyIsFirstFit(dir: Dir, list: seq<string>, sizes: seq<(string, nat)>, k: nat, maxTotalSize: int)
    requires k <= |sizes| == |list| && maxTotalSize > 0
    requires forall i :: 0 <= i < |list| ==> list[i] in dir
    requires forall i :: 0 <= i < |sizes| ==>
      sizes[i].0 == list[i] && sizes[i].1 == ByteSize(dir[list[i]].content)
    requires k < |sizes| ==> SizeOf(dir, list) - TotalOfFirst(sizes, k) <= maxTotalSize
    requires forall j :: 0 <= j < k ==> SizeOf(dir, list) - TotalOfFirst(sizes, j) > maxTotalSize
    ensures FirstFit(dir, list, 0, -1, maxTotalSize) == k
    ensures Names(sizes[..k]) == list[..k]
  {
    hide ByteSize;
    forall j | 0 <= j <= |list| ensures SizeOf(dir, list) - TotalOfFirst(sizes, j) == SizeOf(dir, list[j..]) {
      SizesSplit(dir, list, sizes, j);
    }
    assert Fits(dir, list[k..], -1, maxTotalSize);
    FirstFitIsUnique(dir, list, k, -1, maxTotalSize);
  }

  lemma WithoutReversed(dir: Dir, names: seq<string>)
    ensures Without(dir, Reverse(names)) == Without(dir, names)
  {
    forall name ensures name in Reverse(names) <==> name in names {
      if name in names {
        var i :| 0 <= i < |names| && names[i] == name;
        assert Reverse(names)[|names| - 1 - i] == name;
      }
    }
  }

  lemma WithoutTwice(dir: Dir, a: seq<string>, b: seq<string>)
    ensures Without(Without(dir, a), b) == Without(dir, a + b)
  {
  }

  lemma SplitMembers(list: seq<string>, n: nat, name: string)
    requires StrictlySorted(list) && n <= |list|
    ensures name in list[n..] <==> name in list && name !in list[..n]
  {
    assert list == list[..n] + list[n..];
    if name in list[n..] && name in list[..n] {
      var i :| 0 <= i < n && list[i] == name;
      var j :| n <= j < |list| && list[j] == name;
      BeforeIsIrreflexive(name);
    }
  }

  /** Removing the oldest files leaves the rest of the listing. */
  lemma ListingWithout(dir: Dir, n: nat)
    requires n <= |Listing(dir)|
    ensures Listing(Without(dir, Listing(dir)[..n])) == Listing(dir)[n..]
  {
    var list := Listing(dir);
    forall name ensures name in list[n..] <==> name in Listing(Without(dir, list[..n])) {
      SplitMembers(list, n, name);
    }
    StrictlySortedIsUnique(Listing(Without(dir, list[..n])), list[n..]);
  }

  lemma {:induction false} SizeOfAgrees(dir: Dir, dir': Dir, list: seq<string>)
    requires forall name :: name in list ==> name in dir && name in dir' && dir[name] == dir'[name]
    ensures SizeOf(dir, list) == SizeOf(dir', list)
  {
    if list != [] { SizeOfAgrees(dir, dir', list[1..]); }
  }

  lemma FitsAfterCount(dir: Dir, list: seq<string>, n: nat, j: nat, maxTotalSize: int)
    requires StrictlySorted(list) && forall name :: name in list ==> name in dir
    requires n + j <= |list|
    ensures Fits(Without(dir, list[..n]), list[n..][j..], -1, maxTotalSize)
            <==> (maxTotalSize > 0 ==> SizeOf(dir, list[n + j..]) <= maxTotalSize)
  {
    var rest := Without(dir, list[..n]);
    assert list[n..][j..] == list[n + j..];
    forall name | name in list[n + j..] ensures name in rest && rest[name] == dir[name] {
      assert list[n..] == list[n..n + j] + list[n + j..];
      SplitMembers(list, n, name);
    }
    SizeOfAgrees(dir, rest, list[n + j..]);
  }

  /** Enforcing the count and then the size picks the first index that meets both. */
  lemma FirstFitInTwoSteps(dir: Dir, list: seq<string>, keepFiles: int, maxTotalSize: int)
    requires StrictlySorted(list) && forall name :: name in list ==> name in dir
    ensures var n := Excess(list, keepFiles);
            FirstFit(dir, list, 0, keepFiles, maxTotalSize)
            == n + FirstFit(Without(dir, list[..n]), list[n..], 0, -1, maxTotalSize)
  {
    hide SizeOf, Without, Before;
    var n := Excess(list, keepFiles);
    var rest := Without(dir, list[..n]);
    var k := FirstFit(rest, list[n..], 0, -1, maxTotalSize);
    FitsAfterCount(dir, list, n, k, maxTotalSize);
    forall j | 0 <= j < n + k ensures !Fits(dir, list[j..], keepFiles, maxTotalSize) {
      if j >= n {
        FitsAfterCount(dir, list, n, j - n, maxTotalSize);
        assert !Fits(rest, list[n..][j - n..], -1, maxTotalSize);
      }
    }
    FirstFitIsUnique(dir, list, n + k, keepFiles, maxTotalSize);
  }

  // ---------- What retention promises ----------

  /** The survivors among the log files: no longer run, counted from the newest, meets both limits. */
  lemma SurvivorsAreTheLongestRun(dir: Dir, keepDays: int, keepFiles: int, maxTotalSize: int, now: int)
    ensures var list := Listing(AgeSurvivors(dir, keepDays, now));
            var run := Listing(Cleaned(dir, keepDays, keepFiles, maxTotalSize, now));
            && |run| <= |list| && run == list[|list| - |run|..]
            && Fits(dir, run, keepFiles, maxTotalSize)
            && (forall j :: 0 <= j < |list| - |run| ==> !Fits(dir, list[j..], keepFiles, maxTotalSize))
  {
    hide SizeOf, Without, Before, Aged, IsAppLogFile, ByteSize, StrictlySorted;
    var young := AgeSurvivors(dir, keepDays, now);
    var list := Listing(young);
    var k := FirstFit(young, list, 0, keepFiles, maxTotalSize);
    ListingWithout(young, k);
    forall j | 0 <= j <= |list|
      ensures Fits(young, list[j..], keepFiles, maxTotalSize) <==> Fits(dir, list[j..], keepFiles, maxTotalSize)
    {
      assert forall name :: name in list[j..] ==> name in list;
      SizeOfAgrees(young, dir, list[j..]);
    }
  }

  /** What is left is that run and every file that is not a log file, with contents untouched. */
  lemma NothingElseIsTouched(dir: Dir, keepDays: int, keepFiles: int, maxTotalSize: int, now: int)
    ensures var kept := Cleaned(dir, keepDays, keepFiles, maxTotalSize, now);
            && (forall name :: name in kept <==>
                  (name in Listing(kept) || (name in dir && !IsAppLogFile(name))))
            && (forall name :: name in kept ==> name in dir && kept[name] == dir[name])
  {
    var young := AgeSurvivors(dir, keepDays, now);
    var kept := Cleaned(dir, keepDays, keepFiles, maxTotalSize, now);
    forall name | name in dir && !IsAppLogFile(name) ensures name in kept {
      assert name in young && name !in Listing(young);
    }
  }

  lemma ReversedPrefix(list: seq<string>, n: nat, k: nat)
    requires StrictlySorted(list) && n <= k <= |list|
    ensures var gone := Reverse(list[..n]) + list[n..k];
            && Sorting.NoRepeats(gone)
            && (forall name :: name in gone <==> name in list[..k])
  {
    var gone := Reverse(list[..n]) + list[n..k];
    forall i | 0 <= i < k ensures gone[i] == list[if i < n then n - 1 - i else i] {
    }
    forall i, j | 0 <= i < j < k ensures gone[i] != gone[j] {
      BeforeIsIrreflexive(gone[i]);
    }
    forall name | name in list[..k] ensures name in gone {
      var i :| 0 <= i < k && list[i] == name;
      assert gone[if i < n then n - 1 - i else i] == name;
    }
    forall name | name in gone ensures name in list[..k] {
      var i :| 0 <= i < k && gone[i] == name;
      assert list[..k][if i < n then n - 1 - i else i] == name;
    }
  }

  /** The returned list names exactly the files the two limits removed, each once. */
  lemma DeletedIsTheDifference(dir: Dir, keepDays: int, keepFiles: int, maxTotalSize: int, now: int)
    ensures var gone := Deleted(dir, keepDays, keepFiles, maxTotalSize, now);
            var kept := Cleaned(dir, keepDays, keepFiles, maxTotalSize, now);
            && Sorting.NoRepeats(gone)
            && (forall name :: name in gone <==> name in AgeSurvivors(dir, keepDays, now) && name !in kept)
  {
    var young := AgeSurvivors(dir, keepDays, now);
    var list := Listing(young);
    var k := FirstFit(young, list, 0, keepFiles, maxTotalSize);
    FitsNeedsCount(young, list, keepFiles, maxTotalSize);
    ReversedPrefix(list, Excess(list, keepFiles), k);
    assert forall name :: name in list[..k] ==> name in list;
  }

  /** What is neither kept nor reported is what the age policy removed. */
  lemma KeptOrDeletedExactlyWhen(dir: Dir, keepDays: int, keepFiles: int, maxTotalSize: int, now: int)
    ensures forall name ::
              name in Cleaned(dir, keepDays, keepFiles, maxTotalSize, now)
              || name in Deleted(dir, keepDays, keepFiles, maxTotalSize, now)
              <==> name in dir && StaysByAge(name, dir[name].mtime, keepDays, now)
  {
    CleanedIsYoung(dir, keepDays, keepFiles, maxTotalSize, now);
    DeletedIsTheDifference(dir, keepDays, keepFiles, maxTotalSize, now);
    AgeSurvivorsExactlyWhen(dir, keepDays, now);
    hide *;
  }

  lemma CleanedIsYoung(dir: Dir, keepDays: int, keepFiles: int, maxTotalSize: int, now: int)
    ensures forall name :: name in Cleaned(dir, keepDays, keepFiles, maxTotalSize, now) ==>
              name in AgeSurvivors(dir, keepDays, now)
  {
    hide Aged, Listing, FirstFit;
  }

  lemma YoungStaysYoung(dir: Dir, keepDays: int, keepFiles: int, maxTotalSize: int, now: int)
    ensures var kept := Cleaned(dir, keepDays, keepFiles, maxTotalSize, now);
            AgeSurvivors(kept, keepDays, now) == kept
  {
  }

  /** Cleaning again at the same instant changes nothing and reports nothing. */
  lemma CleaningTwice(dir: Dir, keepDays: int, keepFiles: int, maxTotalSize: int, now: int)
    ensures var kept := Cleaned(dir, keepDays, keepFiles, maxTotalSize, now);
            && Cleaned(kept, keepDays, keepFiles, maxTotalSize, now) == kept
            && Deleted(kept, keepDays, keepFiles, maxTotalSize, now) == []
  {
    var kept := Cleaned(dir, keepDays, keepFiles, maxTotalSize, now);
    var run := Listing(kept);
    SurvivorsAreTheLongestRun(dir, keepDays, keepFiles, maxTotalSize, now);
    NothingElseIsTouched(dir, keepDays, keepFiles, maxTotalSize, now);
    YoungStaysYoung(dir, keepDays, keepFiles, maxTotalSize, now);
    SizeOfAgrees(dir, kept, run);
    NothingToRemove(kept, run, keepFiles, maxTotalSize);
  }

  lemma NothingToRemove(dir: Dir, run: seq<string>, keepFiles: int, maxTotalSize: int)
    requires Fits(dir, run, keepFiles, maxTotalSize)
    ensures FirstFit(dir, run, 0, keepFiles, maxTotalSize) == 0 && Excess(run, keepFiles) == 0
    ensures Without(dir, run[..0]) == dir && Reverse(run[..0]) + run[0..0] == []
  {
    assert run[0..] == run;
  }

  /** Among files the writer made, whatever the limits remove is older than whatever they keep. */
  lemma RetentionKeepsTheNewest(dir: Dir, keepDays: int, keepFiles: int, maxTotalSize: int, now: int,
                                gone: LogName, kept: LogName)
    requires WriterName(gone) && WriterName(kept)
    requires NameOf(gone) in Deleted(dir, keepDays, keepFiles, maxTotalSize, now)
    requires NameOf(kept) in Cleaned(dir, keepDays, keepFiles, maxTotalSize, now)
    ensures Older(gone, kept)
  {
    var young := AgeSurvivors(dir, keepDays, now);
    var list := Listing(young);
    var k := FirstFit(young, list, 0, keepFiles, maxTotalSize);
    NameParsesToItsDay(gone);
    NameParsesToItsDay(kept);
    DeletedIsTheDifference(dir, keepDays, keepFiles, maxTotalSize, now);
    SplitMembers(list, k, NameOf(kept));
    SplitMembers(list, k, NameOf(gone));
    var i :| 0 <= i < k && list[i] == NameOf(gone);
    var j :| k <= j < |list| && list[j] == NameOf(kept);
    NameOrderIsTimeOrder(gone, kept);
  }

  /** A count limit of zero (the default of LOG_KEEP_FILES) removes every log file. */
  lemma KeepZeroKeepsNothing(dir: Dir, keepDays: int, maxTotalSize: int, now: int)
    ensures Listing(Cleaned(dir, keepDays, 0, maxTotalSize, now)) == []
  {
    SurvivorsAreTheLongestRun(dir, keepDays, 0, maxTotalSize, now);
  }

  /** docs/logging.md calls the count limit a minimum that holds regardless of size and age.  It is kept
      as a minimum exactly if that many files are young enough and together small enough. */
  lemma KeepFilesIsAMinimumExactlyWhen(dir: Dir, keepDays: int, keepFiles: nat, maxTotalSize: int, now: int)
    ensures var young := Listing(AgeSurvivors(dir, keepDays, now));
            var m := if keepFiles <= |Listing(dir)| then keepFiles else |Listing(dir)|;
            |Listing(Cleaned(dir, keepDays, keepFiles, maxTotalSize, now))| >= m
            <==> |young| >= m && (maxTotalSize <= 0 || SizeOf(dir, young[|young| - m..]) <= maxTotalSize)
  {
    SurvivorsAreTheLongestRun(dir, keepDays, keepFiles, maxTotalSize, now);
    NoMoreThanBefore(dir, keepDays, now);
    hide *;
    LongestRunReaches(dir, Listing(AgeSurvivors(dir, keepDays, now)),
                      Listing(Cleaned(dir, keepDays, keepFiles, maxTotalSize, now)),
                      keepFiles, maxTotalSize, |Listing(dir)|);
  }

  lemma LongestRunReaches(dir: Dir, list: seq<string>, run: seq<string>, keepFiles: nat, maxTotalSize: int, n: nat)
    requires |run| <= |list| <= n && run == list[|list| - |run|..]
    requires Fits(dir, run, keepFiles, maxTotalSize)
    requires forall j :: 0 <= j < |list| - |run| ==> !Fits(dir, list[j..], keepFiles, maxTotalSize)
    ensures var m := if keepFiles <= n then keepFiles else n;
            |run| >= m <==> |list| >= m && (maxTotalSize <= 0 || SizeOf(dir, list[|list| - m..]) <= maxTotalSize)
  {
    hide SizeOf;
    var m := if keepFiles <= n then keepFiles else n;
    if |run| >= m {
      assert |run| == m;
    } else if |list| >= m {
      assert !Fits(dir, list[|list| - m..], keepFiles, maxTotalSize);
    }
  }

  lemma NoMoreThanBefore(dir: Dir, keepDays: int, now: int)
    ensures |Listing(AgeSurvivors(dir, keepDays, now))| <= |Listing(dir)|
  {
    var a, b := Listing(AgeSurvivors(dir, keepDays, now)), Listing(dir);
    hide Listing;
    forall s | s in {a, b} ensures Sorting.NoRepeats(s) {
      assert StrictlySorted(s);
      forall i, j | 0 <= i < j < |s| ensures s[i] != s[j] {
        BeforeIsIrreflexive(s[i]);
      }
    }
    hide Before;
    Sorting.MembersSize(a);
    Sorting.MembersSize(b);
    assert Sorting.Members(a) <= Sorting.Members(b);
    Sorting.SubsetIsSmaller(Sorting.Members(a), Sorting.Members(b));
  }

  function Names(sizes: seq<(string, nat)>): (names: seq<string>)
    ensures |names| == |sizes|
    ensures forall i :: 0 <= i < |sizes| ==> names[i] == sizes[i].0
  {
    if sizes == [] then [] else Names(sizes[..|sizes| - 1]) + [sizes[|sizes| - 1].0]
  }

  function TotalOf(sizes: seq<(string, nat)>): nat {
    if sizes == [] then 0 else TotalOf(sizes[..|sizes| - 1]) + sizes[|sizes| - 1].1
  }

  lemma WithoutOneMore(dir: Dir, names: seq<string>, name: string)
    ensures Without(dir, names) - {name} == Without(dir, names + [name])
  {
  }

  function TotalOfFirst(sizes: seq<(string, nat)>, j: nat): nat
    requires j <= |sizes|
  {
    TotalOf(sizes[..j])
  }

  lemma OneMore(sizes: seq<(string, nat)>, j: nat)
    requires j < |sizes|
    ensures Names(sizes[..j + 1]) == Names(sizes[..j]) + [sizes[j].0]
    ensures TotalOfFirst(sizes, j + 1) == TotalOfFirst(sizes, j) + sizes[j].1
  {
    assert sizes[..j + 1][..j] == sizes[..j];
  }
}
