/** The parser of scripts/coverage-diff.ts inverts the printer of `git diff -U0`. */
module DiffInverse {
  import opened Text
  import opened DiffLines
  import opened DiffPrinter

  // ---------- Hunk headers ----------

  lemma {:induction false} DigitRunOf(d: string, rest: string)
    requires AllDigits(d) && (rest == "" || !IsDigit(rest[0]))
    ensures DigitRun(d + rest) == |d|
  {
    if d == "" {
      assert d + rest == rest;
    } else {
      assert (d + rest)[1..] == d[1..] + rest;
      DigitRunOf(d[1..], rest);
    }
  }

  /** The number that a range of the printer starts with. */
  function Shown(start: nat, count: nat): nat
    requires start > 0
  {
    if count == 0 then start - 1 else start
  }

  lemma RangeMatches(start: nat, count: nat, rest: string)
    requires start > 0
    ensures NewStartAt(" +" + (Range(start, count) + (" @@" + rest))) == Some(Shown(start, count))
  {
    var n := Decimal(Shown(start, count));
    ReadDecimal(Shown(start, count));
    if count == 1 {
      assert StartsWith(" @@" + rest, " @@");
      NumberMatches(n, " @@" + rest);
    } else {
      TwoNumbersMatch(n, Decimal(count), " @@" + rest);
    }
  }

  lemma Regroup(n: string, c: string, close: string)
    ensures n + "," + c + close == n + ("," + (c + close))
  {
  }

  lemma TwoNumbersMatch(n: string, c: string, close: string)
    requires AllDigits(n) && n != "" && AllDigits(c) && c != "" && StartsWith(close, " @@")
    ensures NewStartAt(" +" + (n + "," + c + close)) == Some(ValueOf(n))
  {
    Regroup(n, c, close);
    CountMatches(c, close);
    NumberMatches(n, "," + (c + close));
  }

  lemma NumberMatches(n: string, close: string)
    requires AllDigits(n) && n != "" && IsRangeEnd(close)
    ensures NewStartAt(" +" + (n + close)) == Some(ValueOf(n))
  {
    var s := " +" + (n + close);
    assert s[..2] == " +" && s[2..] == n + close;
    NumberIsRead(n, close);
  }

  lemma NumberIsRead(n: string, close: string)
    requires AllDigits(n) && n != "" && IsRangeEnd(close)
    ensures NumberAt(n + close) == Some(ValueOf(n))
  {
    assert close != "" && !IsDigit(close[0]) by {
      assert close[..1] == " " || close[..1] == ",";
    }
    DigitRunOf(n, close);
    assert (n + close)[|n|..] == close && (n + close)[..|n|] == n;
  }

  lemma CountMatches(c: string, close: string)
    requires AllDigits(c) && c != "" && StartsWith(close, " @@")
    ensures IsRangeEnd("," + (c + close))
  {
    var s := "," + (c + close);
    DigitRunOf(c, close);
    assert s[1..] == c + close;
    assert s[1..][|c|..] == close;
  }

  lemma {:induction false} LastOfPrefixed(p: string, x: string)
    requires LastNewStart(x).Some?
    ensures LastNewStart(p + x) == LastNewStart(x)
  {
    if p == "" {
      assert p + x == x;
    } else {
      assert (p + x)[1..] == p[1..] + x;
      LastOfPrefixed(p[1..], x);
    }
  }

  /** No space of the text is its last character or stands before a plus sign. */
  predicate Quiet(p: string) {
    p == "" || ((p[0] != ' ' || (|p| > 1 && p[1] != '+')) && Quiet(p[1..]))
  }

  /** A quiet text offers no place for a match. */
  lemma {:induction false} LastBehindQuiet(p: string, x: string)
    requires Quiet(p)
    ensures LastNewStart(p + x) == LastNewStart(x)
  {
    if p == "" {
      assert p + x == x;
    } else {
      assert (p + x)[1..] == p[1..] + x;
      LastBehindQuiet(p[1..], x);
      if p[0] != ' ' { DiffersAt(p + x, " +", 0); } else { DiffersAt(p + x, " +", 1); }
    }
  }

  lemma {:induction false} QuietBehind(p: string, q: string)
    requires ' ' !in p && Quiet(q)
    ensures Quiet(p + q)
  {
    if p == "" {
      assert p + q == q;
    } else {
      assert (p + q)[1..] == p[1..] + q;
      QuietBehind(p[1..], q);
    }
  }

  lemma RangeIsQuiet(start: nat, count: nat)
    requires start > 0
    ensures Quiet("+" + Range(start, count) + " @@")
  {
    var r := Range(start, count);
    assert forall i :: 0 <= i < |r| ==> r[i] == ',' || IsDigit(r[i]);
    assert " @@"[1..] == "@@" && "@@"[1..] == "@" && "@"[1..] == "";
    assert Quiet("") && Quiet("@") && Quiet("@@");
    QuietBehind("+" + r, " @@");
  }

  /** What the parser reads from a printed header, whatever the section heading is: the new start, unless
      the heading itself contains something that looks like the end of a header. */
  lemma HeaderReadsBack(h: Hunk, oldStart: nat, newStart: nat)
    requires oldStart > 0 && newStart > 0
    ensures var line := HunkHeader(h, oldStart, newStart);
            && StartsWith(line, "@@") && !StartsWith(line, "+++ ")
            && ParseHunkNewStart(line)
               == match LastNewStart(HeadingPart(h))
                  case Some(n) => Some(n)
                  case None => Some(Shown(newStart, |h.added|))
  {
    var line := HunkHeader(h, oldStart, newStart);
    var old', r, rest := "-" + Range(oldStart, |h.removed|), Range(newStart, |h.added|), HeadingPart(h);
    var quiet := "+" + r + " @@";
    var x := " " + (quiet + rest);
    assert line == "@@ " + (old' + x);
    assert line[..3] == "@@ " && line[..2] == "@@" && line[3..] == old' + x;
    DiffersAt(line, "+++ ", 0);
    assert x == " +" + (r + (" @@" + rest));
    RangeMatches(newStart, |h.added|, rest);
    RangeIsQuiet(newStart, |h.added|);
    LastBehindQuiet(quiet, rest);
    assert x[1..] == quiet + rest;
    LastOfPrefixed(old', x);
  }

  lemma {:induction false} ContainsSuffix(s: string, i: nat, part: string)
    requires i <= |s| && StartsWith(s[i..], part)
    ensures Contains(s, part)
  {
    if i > 0 {
      assert s[1..][i - 1..] == s[i..];
      ContainsSuffix(s[1..], i - 1, part);
    }
  }

  lemma {:induction false} NoMatchWithoutMarks(s: string)
    requires !Contains(s, "@@")
    ensures LastNewStart(s) == None
  {
    if s != [] {
      NoMatchWithoutMarks(s[1..]);
      if NewStartAt(s).Some? {
        MatchHasMarks(s);
      }
    }
  }

  lemma MatchHasMarks(s: string)
    requires NewStartAt(s).Some?
    ensures Contains(s, "@@")
  {
    var n := DigitRun(s[2..]);
    var end := s[2..][n..];
    assert end == s[2 + n..];
    if StartsWith(end, " @@") {
      assert s[3 + n..] == end[1..] && end[1..][..2] == "@@";
      ContainsSuffix(s, 3 + n, "@@");
    } else {
      var m := DigitRun(end[1..]);
      var tail := end[1..][m..];
      assert tail == s[3 + n + m..];
      assert s[4 + n + m..] == tail[1..] && tail[1..][..2] == tail[..3][1..] == "@@";
      ContainsSuffix(s, 4 + n + m, "@@");
    }
  }

  /** A heading without "@@" is always harmless. */
  lemma PlainHeadingIsQuiet(h: Hunk)
    requires !Contains(h.heading, "@@")
    ensures LastNewStart(HeadingPart(h)) == None
  {
    if h.heading != "" {
      assert HeadingPart(h)[1..] == h.heading;
      DiffersAt(HeadingPart(h), "@@", 0);
    } else {
      assert !Contains("", "@@");
    }
    NoMatchWithoutMarks(HeadingPart(h));
  }

  // ---------- File headers ----------

  /** The new file of a name line is followed exactly when it is a TypeScript file, its name has no
      space (the tab that git adds hides the extension), and no directory "dev" holds a name that
      starts with "null". */
  predicate IsFollowed(path: string) {
    (EndsWith(path, ".ts") || EndsWith(path, ".tsx")) && ' ' !in path && !Contains("/" + path, "/dev/null")
  }

  lemma NameLineSelects(path: Option<string>)
    ensures var line := NameLine("+++", "b/", path);
            && StartsWith(line, "+++ ")
            && FileOfHeader(line) == if path.Some? && IsFollowed(path.value) then path else None
  {
    match path
    case None =>
      var line := NameLine("+++", "b/", path);
      assert line[..4] == "+++ " && line[4..][..9] == "/dev/null";
      ContainsSuffix(line, 4, "/dev/null");
    case Some(p) =>
      if ' ' in p {
        TabbedNameIsDropped(p);
      } else {
        NamedLine(p);
        NameLineOfPlain(p);
      }
  }

  lemma NameLineOfPlain(p: string)
    requires ' ' !in p
    ensures NameLine("+++", "b/", Some(p)) == "+++ b/" + p
  {
    hide Contains, TrimStart;
    assert "+++" + " " == "+++ ";
    assert "+++ " + "b/" == "+++ b/";
    assert "+++ b/" + p + "" == "+++ b/" + p;
  }

  lemma NamedLine(p: string)
    ensures var line := "+++ b/" + p;
            && StartsWith(line, "+++ ")
            && PathOfHeader(line) == Some(p)
            && (Contains(line, "/dev/null") <==> Contains("/" + p, "/dev/null"))
  {
    NamedLineParts(p);
    BehindOneSpace("b/" + p);
    NoMatchBeforeSlash("+++ b", "/" + p);
  }

  lemma NamedLineParts(p: string)
    ensures var line := "+++ b/" + p;
            && StartsWith(line, "+++ ") && line[3..] == [' '] + ("b/" + p) && line == "+++ b" + ("/" + p)
            && StartsWith("b/" + p, "b/") && ("b/" + p)[2..] == p
  {
    hide Contains, TrimStart;
    var line := "+++ b/" + p;
    assert line[..4] == "+++ ";
    assert ("b/" + p)[..2] == "b/";
  }

  lemma BehindOneSpace(s: string)
    requires s != "" && !IsSpace(s[0])
    ensures TrimStart([' '] + s) == s
  {
    assert ([' '] + s)[1..] == s;
  }

  lemma TabbedNameIsDropped(p: string)
    requires ' ' in p
    ensures var line := NameLine("+++", "b/", Some(p));
            StartsWith(line, "+++ ") && FileOfHeader(line) == None
  {
    hide Contains, TrimStart, PathOfHeader;
    var name := p + "\t";
    NamedLine(name);
    assert NameLine("+++", "b/", Some(p)) == "+++ b/" + name;
    assert name[|name| - 1] == '\t';
  }

  lemma {:induction false} NoMatchBeforeSlash(front: string, rest: string)
    requires '/' !in front
    ensures Contains(front + rest, "/dev/null") <==> Contains(rest, "/dev/null")
  {
    if front == "" {
      assert front + rest == rest;
    } else {
      var s := front + rest;
      assert s[1..] == front[1..] + rest;
      DiffersAt(s, "/dev/null", 0);
      NoMatchBeforeSlash(front[1..], rest);
    }
  }

  // ---------- One hunk ----------

  predicate Inside(k: nat, lo: nat, n: nat) { lo <= k < lo + n }

  function Interval(lo: nat, n: nat): set<nat> { set k: nat | k < lo + n && Inside(k, lo, n) }

  lemma RecordTwice(changed: map<string, set<nat>>, file: string, a: set<nat>, b: set<nat>)
    ensures Record(Record(changed, file, a), file, b) == Record(changed, file, a + b)
  {
    if a == {} {
      assert a + b == b;
    } else if b == {} {
      assert a + b == a;
    } else {
      var old' := if file in changed then changed[file] else {};
      assert old' + (a + b) == old' + a + b;
      assert changed[file := old' + a][file := old' + a + b] == changed[file := old' + a + b];
    }
  }

  lemma RemovedLineIsIgnored(p: Parser, text: string)
    ensures OnLine(p, "-" + text) == p
  {
    assert ("-" + text)[0] == '-';
  }

  lemma {:induction false} RemovedLinesAreIgnored(p: Parser, removed: seq<string>)
    ensures OnLines(p, Marked("-", removed)) == p
  {
    if removed != [] {
      RemovedLineIsIgnored(p, removed[0]);
      var all := Marked("-", removed);
      assert all[0] == "-" + removed[0] && all[1..] == Marked("-", removed[1..]);
      RemovedLinesAreIgnored(p, removed[1..]);
    }
  }

  lemma EndMark(p: Parser)
    ensures OnLine(p, NO_NEWLINE) == p
  {
    var line := NO_NEWLINE;
    assert line[0] == '\\';
    DiffersAt(line, "+++ ", 0);
    DiffersAt(line, "@@", 0);
    DiffersAt(line, "+", 0);
    DiffersAt(line, " ", 0);
  }

  lemma EndMarkIsIgnored(p: Parser, present: bool)
    ensures OnLines(p, if present then [NO_NEWLINE] else []) == p
  {
    if present {
      EndMark(p);
      assert [NO_NEWLINE][1..] == [];
    }
  }

  lemma PlusMarks(text: string)
    ensures StartsWith("+" + text, "+++") <==> StartsWith(text, "++")
    ensures StartsWith("+" + text, "+++ ") ==> StartsWith(text, "++")
    ensures StartsWith("+" + text, "+") && !StartsWith("+" + text, "@@")
  {
    assert "+" + "++" == "+++" && "+" + "++ " == "+++ ";
    StartsBehind("+", text, "++");
    StartsBehind("+", text, "++ ");
    StartsBehind("+", text, "");
    if StartsWith(text, "++ ") { assert text[..2] == text[..3][..2] == "++"; }
    DiffersAt("+" + text, "@@", 0);
  }

  /** The lines of an added text are taken for added lines exactly when they do not start with "++". */
  lemma AddedLineIsSeenExactlyWhen(p: Parser, text: string)
    requires p.currentFile.Some?
    ensures OnLine(p, "+" + text)
            == p.(changed := Record(p.changed, p.currentFile.value, {p.newLine}), newLine := p.newLine + 1)
            <==> !StartsWith(text, "++")
  {
    PlusMarks(text);
  }

  lemma AddedLineElsewhere(p: Parser, text: string)
    requires p.currentFile == None && !StartsWith(text, "++")
    ensures OnLine(p, "+" + text) == p
  {
    PlusMarks(text);
  }

  ghost predicate PlainTexts(lines: seq<string>) {
    forall i :: 0 <= i < |lines| ==> !StartsWith(lines[i], "++")
  }

  lemma {:induction false} AddedLinesAreSeen(p: Parser, added: seq<string>)
    requires p.currentFile.Some? && PlainTexts(added)
    ensures OnLines(p, Marked("+", added))
            == p.(changed := Record(p.changed, p.currentFile.value, Interval(p.newLine, |added|)),
                  newLine := p.newLine + |added|)
    decreases |added|
  {
    if added == [] {
      assert Interval(p.newLine, 0) == {};
    } else {
      var all := Marked("+", added);
      assert all[0] == "+" + added[0] && all[1..] == Marked("+", added[1..]);
      AddedLineIsSeenExactlyWhen(p, added[0]);
      var p' := OnLine(p, all[0]);
      AddedLinesAreSeen(p', added[1..]);
      RecordTwice(p.changed, p.currentFile.value, {p.newLine}, Interval(p.newLine + 1, |added| - 1));
      assert {p.newLine} + Interval(p.newLine + 1, |added| - 1) == Interval(p.newLine, |added|);
    }
  }

  lemma {:induction false} AddedLinesElsewhere(p: Parser, added: seq<string>)
    requires p.currentFile == None && PlainTexts(added)
    ensures OnLines(p, Marked("+", added)) == p
  {
    if added != [] {
      var all := Marked("+", added);
      assert all[0] == "+" + added[0] && all[1..] == Marked("+", added[1..]);
      AddedLineElsewhere(p, added[0]);
      AddedLinesElsewhere(p, added[1..]);
    }
  }

  /** No added line starts with "++", and the heading holds nothing that reads as a range. */
  ghost predicate PlainHunk(h: Hunk) {
    PlainTexts(h.added) && LastNewStart(HeadingPart(h)) == None
  }

  /** What the lines of a hunk do to the map, whichever file they belong to. */
  function Recorded(p: Parser, lines: set<nat>): map<string, set<nat>> {
    match p.currentFile
    case None => p.changed
    case Some(file) => Record(p.changed, file, lines)
  }

  /** The current file gains these numbers, and stays the current file. */
  ghost predicate Adds(p: Parser, p': Parser, numbers: set<nat>) {
    p'.currentFile == p.currentFile && p'.changed == Recorded(p, numbers)
  }

  lemma AddsInTurn(p: Parser, p': Parser, p'': Parser, a: set<nat>, b: set<nat>)
    requires Adds(p, p', a) && Adds(p', p'', b)
    ensures Adds(p, p'', a + b)
  {
    if p.currentFile.Some? { RecordTwice(p.changed, p.currentFile.value, a, b); }
  }

  lemma HunkIsRecorded(p: Parser, h: Hunk, oldStart: nat, newStart: nat) returns (p': Parser)
    requires oldStart > 0 && newStart > 0 && PlainHunk(h)
    ensures p' == OnLines(p, PrintHunk(h, oldStart, newStart))
    ensures Adds(p, p', Interval(newStart, |h.added|))
  {
    var head := HunkHeader(h, oldStart, newStart);
    var end1 := if h.oldUnterminated then [NO_NEWLINE] else [];
    var end2 := if h.newUnterminated then [NO_NEWLINE] else [];
    var minus, plus := Marked("-", h.removed), Marked("+", h.added);
    HeaderReadsBack(h, oldStart, newStart);
    var p1 := OnLine(p, head);
    assert p1 == p.(newLine := Shown(newStart, |h.added|));
    assert OnLines(p, [head]) == p1 by { assert [head][1..] == []; }
    OnLinesConcat(p, [head] + minus + end1 + plus, end2);
    OnLinesConcat(p, [head] + minus + end1, plus);
    OnLinesConcat(p, [head] + minus, end1);
    OnLinesConcat(p, [head], minus);
    RemovedLinesAreIgnored(p1, h.removed);
    EndMarkIsIgnored(p1, h.oldUnterminated);
    p' := OnLines(p1, plus);
    EndMarkIsIgnored(p', h.newUnterminated);
    if p.currentFile.Some? {
      AddedLinesAreSeen(p1, h.added);
      if h.added == [] { assert Interval(newStart, 0) == Interval(newStart - 1, 0); }
    } else {
      AddedLinesElsewhere(p1, h.added);
    }
  }

  // ---------- One file ----------

  /** The lines a script adds when its next new line has number `newLine`. */
  function AddedFrom(hunks: seq<Hunk>, newLine: nat): set<nat> {
    if hunks == [] then {}
    else
      var start := newLine + hunks[0].gap;
      Interval(start, |hunks[0].added|) + AddedFrom(hunks[1..], start + |hunks[0].added|)
  }

  ghost predicate PlainHunks(hunks: seq<Hunk>) {
    forall i :: 0 <= i < |hunks| ==> PlainHunk(hunks[i])
  }

  lemma NoHunks(p: Parser, hunks: seq<Hunk>, oldLine: nat, newLine: nat)
    requires hunks == [] && oldLine > 0 && newLine > 0
    ensures OnLines(p, PrintHunks(hunks, oldLine, newLine)) == p
    ensures Adds(p, p, AddedFrom(hunks, newLine))
  {
  }

  lemma FirstIsPlain(hunks: seq<Hunk>)
    requires PlainHunks(hunks) && hunks != []
    ensures PlainHunk(hunks[0]) && PlainHunks(hunks[1..])
  {
    assert forall i :: 0 <= i < |hunks[1..]| ==> hunks[1..][i] == hunks[i + 1];
  }

  lemma FirstHunkAndRest(hunks: seq<Hunk>, oldLine: nat, newLine: nat)
    requires oldLine > 0 && newLine > 0 && hunks != []
    ensures var h, rest := hunks[0], hunks[1..];
            PrintHunks(hunks, oldLine, newLine)
            == PrintHunk(h, oldLine + h.gap, newLine + h.gap)
               + PrintHunks(rest, oldLine + h.gap + |h.removed|, newLine + h.gap + |h.added|)
    ensures var h, rest := hunks[0], hunks[1..];
            AddedFrom(hunks, newLine)
            == Interval(newLine + h.gap, |h.added|) + AddedFrom(rest, newLine + h.gap + |h.added|)
  {
  }

  lemma {:induction false} HunksAreRecorded(p: Parser, hunks: seq<Hunk>, oldLine: nat, newLine: nat)
    returns (p': Parser)
    requires oldLine > 0 && newLine > 0 && PlainHunks(hunks)
    ensures p' == OnLines(p, PrintHunks(hunks, oldLine, newLine))
    ensures Adds(p, p', AddedFrom(hunks, newLine))
    decreases |hunks|
  {
    hide *;
    if hunks == [] {
      p' := p;
      NoHunks(p, hunks, oldLine, newLine);
    } else {
      var h, rest := hunks[0], hunks[1..];
      var oldNext, newNext := oldLine + h.gap + |h.removed|, newLine + h.gap + |h.added|;
      FirstIsPlain(hunks);
      var p1 := HunkIsRecorded(p, h, oldLine + h.gap, newLine + h.gap);
      p' := HunksAreRecorded(p1, rest, oldNext, newNext);
      AddsInTurn(p, p1, p', Interval(newLine + h.gap, |h.added|), AddedFrom(rest, newNext));
      FirstHunkAndRest(hunks, oldLine, newLine);
      OnLinesConcat(p, PrintHunk(h, oldLine + h.gap, newLine + h.gap), PrintHunks(rest, oldNext, newNext));
    }
  }

  predicate IsAddedPlace(hunks: seq<Hunk>, newLine: nat, k: nat) {
    newLine <= k < newLine + |NewFile(hunks)| && NewFile(hunks)[k - newLine].Added?
  }

  lemma PlacesOfFirst(hunks: seq<Hunk>, newLine: nat, k: nat)
    requires hunks != []
    ensures var h, start := hunks[0], newLine + hunks[0].gap;
            IsAddedPlace(hunks, newLine, k)
            <==> Inside(k, start, |h.added|) || IsAddedPlace(hunks[1..], start + |h.added|, k)
  {
    var h, rest := hunks[0], NewFile(hunks[1..]);
    var front := KeptLines(h.gap) + AddedTexts(h.added);
    assert NewFile(hunks) == front + rest;
    if newLine <= k < newLine + |front| {
      assert NewFile(hunks)[k - newLine] == front[k - newLine];
    } else if newLine + |front| <= k < newLine + |NewFile(hunks)| {
      assert NewFile(hunks)[k - newLine] == rest[k - newLine - |front|];
    }
  }

  /** The running line numbers are the places of the added lines in the new file. */
  lemma {:induction false} AddedFromIsPlaces(hunks: seq<Hunk>, newLine: nat, k: nat)
    ensures k in AddedFrom(hunks, newLine) <==> IsAddedPlace(hunks, newLine, k)
  {
    if hunks != [] {
      PlacesOfFirst(hunks, newLine, k);
      AddedFromIsPlaces(hunks[1..], newLine + hunks[0].gap + |hunks[0].added|, k);
    }
  }

  lemma AddedFromOne(hunks: seq<Hunk>)
    ensures AddedFrom(hunks, 1) == AddedLines(hunks)
  {
    forall k: nat ensures k in AddedFrom(hunks, 1) <==> k in AddedLines(hunks) {
      AddedFromIsPlaces(hunks, 1, k);
      if IsAddedPlace(hunks, 1, k) {
        assert NewFile(hunks)[k - 1].Added?;
        assert (k - 1) + 1 in AddedLines(hunks);
      }
    }
  }

  /** Extended header lines are words. */
  ghost predicate PlainHeader(header: seq<string>) {
    forall i :: 0 <= i < |header| ==> header[i] != "" && (IsLower(header[i][0]) || IsUpper(header[i][0]))
  }

  lemma {:induction false} HeaderIsIgnored(p: Parser, header: seq<string>)
    requires PlainHeader(header)
    ensures OnLines(p, header) == p
  {
    if header != [] {
      assert OnLine(p, header[0]) == p;
      HeaderIsIgnored(p, header[1..]);
    }
  }

  ghost predicate PlainFile(f: FileDiff) {
    PlainHeader(f.header) && (f.Edited? ==> PlainHunks(f.hunks))
  }

  predicate Follows(f: FileDiff, path: string) {
    f.Edited? && f.newPath == Some(path) && IsFollowed(path)
  }

  lemma OldNameIsIgnored(p: Parser, path: Option<string>)
    ensures OnLine(p, NameLine("---", "a/", path)) == p
  {
    var line := NameLine("---", "a/", path);
    assert line[..3] == "---" && line[0] == '-';
  }

  lemma FileIsRecorded(p: Parser, f: FileDiff)
    requires PlainFile(f)
    ensures OnLines(p, PrintFile(f)).changed
            == if f.Edited? && f.newPath.Some? && IsFollowed(f.newPath.value)
               then Record(p.changed, f.newPath.value, AddedLines(f.hunks)) else p.changed
  {
    HeaderIsIgnored(p, f.header);
    if f.Edited? {
      var minus, plus := NameLine("---", "a/", f.oldPath), NameLine("+++", "b/", f.newPath);
      var body := PrintHunks(f.hunks, 1, 1);
      OnLinesConcat(p, f.header + [minus, plus], body);
      OnLinesConcat(p, f.header, [minus, plus]);
      OldNameIsIgnored(p, f.oldPath);
      NameLineSelects(f.newPath);
      var p' := p.(currentFile := FileOfHeader(plus));
      assert OnLines(p, [minus, plus]) == p' by {
        assert [minus, plus][1..] == [plus] && [plus][1..] == [];
        assert OnLines(p, [plus]) == OnLine(p, plus);
      }
      var _ := HunksAreRecorded(p', f.hunks, 1, 1);
      AddedFromOne(f.hunks);
    }
  }

  // ---------- Whole scripts ----------

  /** The line numbers of every added line of every edited file with this name. */
  function Additions(script: seq<FileDiff>, path: string): set<nat> {
    set i, n | 0 <= i < |script| && Follows(script[i], path) && n in AddedLines(script[i].hunks) :: n
  }

  lemma AdditionsStep(script: seq<FileDiff>, path: string)
    requires script != []
    ensures var f := script[|script| - 1];
            Additions(script, path)
            == Additions(script[..|script| - 1], path) + if Follows(f, path) then AddedLines(f.hunks) else {}
  {
    var front, f := script[..|script| - 1], script[|script| - 1];
    var last := if Follows(f, path) then AddedLines(f.hunks) else {};
    forall n | n in Additions(script, path) ensures n in Additions(front, path) + last {
      var i :| 0 <= i < |script| && Follows(script[i], path) && n in AddedLines(script[i].hunks);
      if i < |front| { assert Follows(front[i], path) && n in AddedLines(front[i].hunks); }
    }
    forall n | n in Additions(front, path) + last ensures n in Additions(script, path) {
      if n in Additions(front, path) {
        var i :| 0 <= i < |front| && Follows(front[i], path) && n in AddedLines(front[i].hunks);
        assert Follows(script[i], path) && n in AddedLines(script[i].hunks);
      } else {
        assert Follows(script[|script| - 1], path) && n in AddedLines(script[|script| - 1].hunks);
      }
    }
  }

  /** The parser inverts the printer: for every edit script over any number of files, the result holds
      exactly the followed files that gain lines, each with exactly the numbers of its added lines. */
  lemma {:induction false} ParserInvertsPrinter(script: seq<FileDiff>, path: string)
    requires forall i :: 0 <= i < |script| ==> PlainFile(script[i])
    ensures var changed := OnLines(INITIAL, Print(script)).changed;
            && (path in changed <==> Additions(script, path) != {})
            && (path in changed ==> changed[path] == Additions(script, path))
  {
    hide OnLine;
    if script == [] {
      assert Additions(script, path) == {};
    } else {
      var front, f := script[..|script| - 1], script[|script| - 1];
      ParserInvertsPrinter(front, path);
      OnLinesConcat(INITIAL, Print(front), PrintFile(f));
      FileIsRecorded(OnLines(INITIAL, Print(front)), f);
      AdditionsStep(script, path);
    }
  }
}
