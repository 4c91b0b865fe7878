/** The stack parser of public/error-pages/error.js: it takes the printed frames of a V8 stack apart. */
module StackFrames {
  import opened Text

  /** `lineNo` and `colNo` stay text, as in the source. */
  datatype Location = Location(file: string, lineNo: string, colNo: string)

  datatype Frame = Unparsed(raw: string) | Parsed(raw: string, fn: string, location: Location)

  datatype Stack = Stack(header: string, frames: seq<Frame>)

  /** `lastIndexOf(c, from)`: the last place at or before `from`; a negative `from` counts as zero. */
  function LastIndexOf(s: string, c: char, from: int): (r: Option<nat>)
    ensures r.Some? ==> r.value < |s| && r.value <= (if from < 0 then 0 else from) && s[r.value] == c
  {
    if s == "" then None
    else LastIndexFrom(s, c, if from < 0 then 0 else if from < |s| then from else |s| - 1)
  }

  function LastIndexFrom(s: string, c: char, from: nat): (r: Option<nat>)
    requires from < |s|
    ensures r.Some? ==> r.value <= from && s[r.value] == c
  {
    if s[from] == c then Some(from) else if from == 0 then None else LastIndexFrom(s, c, from - 1)
  }

  predicate IsNumber(s: string) { s != "" && AreDigits(s) }

  function ParseLocation(location: string): Option<Location> {
    var loc := Trim(location);
    if loc == "" then None
    else match LastIndexOf(loc, ':', |loc| - 1)
      case None => None
      case Some(lastColon) =>
        var colPart := loc[lastColon + 1..];
        if !IsNumber(colPart) then None
        else match LastIndexOf(loc, ':', lastColon - 1)
          case None => None
          case Some(secondLastColon) =>
            var linePart := if secondLastColon < lastColon then loc[secondLastColon + 1..lastColon] else "";
            if !IsNumber(linePart) then None
            else
              var file := loc[..secondLastColon];
              if file == "" then None else Some(Location(file, linePart, colPart))
  }

  /** `lastIndexOf(' (')` */
  function LastOpening(s: string): (r: Option<nat>)
    ensures r.Some? ==> r.value + 2 <= |s| && s[r.value + 1] == '('
  {
    if |s| < 2 then None
    else match LastOpening(s[1..])
      case Some(i) => Some(i + 1)
      case None => if s[0] == ' ' && s[1] == '(' then Some(0) else None
  }

  /** "fn (location)", or a bare location. */
  function NameAndLocation(afterAt: string): (string, string) {
    if !EndsWith(afterAt, ")") then ("", afterAt)
    else match LastOpening(afterAt)
      case None => ("", afterAt)
      case Some(i) =>
        (Trim(afterAt[..i]), Trim(if i + 2 < |afterAt| then afterAt[i + 2..|afterAt| - 1] else ""))
  }

  function ParseV8Frame(line: string): Option<(string, Location)> {
    var trimmed := Trim(line);
    if !StartsWith(trimmed, "at ") then None
    else
      var (fn, location) := NameAndLocation(Trim(trimmed[3..]));
      match ParseLocation(location)
      case Some(loc) => Some((fn, loc))
      case None => None
  }

  function ParseFrame(rawLine: string): Frame {
    var line := Trim(rawLine);
    match ParseV8Frame(line)
    case Some((fn, loc)) => Parsed(line, fn, loc)
    case None => Unparsed(line)
  }

  function TrimEnds(lines: seq<string>): (r: seq<string>)
    ensures |r| == |lines|
    ensures forall i :: 0 <= i < |r| ==> r[i] == TrimEnd(lines[i])
  {
    if lines == [] then [] else [TrimEnd(lines[0])] + TrimEnds(lines[1..])
  }

  /** Blank lines are dropped, the others parsed. */
  function ParseFrames(lines: seq<string>): seq<Frame> {
    if lines == [] then []
    else if Trim(lines[0]) == "" then ParseFrames(lines[1..])
    else [ParseFrame(lines[0])] + ParseFrames(lines[1..])
  }

  function ParseStackFrames(stackText: string): Option<Stack> {
    var trimmed := Trim(stackText);
    if trimmed == "" then None
    else
      var lines := TrimEnds(Split(trimmed, '\n'));
      Some(Stack(if lines[0] == "" then "Error" else lines[0], ParseFrames(lines[1..])))
  }

  // ---------- What V8 prints ----------

  /** A frame of an anonymous function has no name. */
  datatype Call = Call(fn: Option<string>, location: Location)

  function PrintLocation(l: Location): string { l.file + ":" + l.lineNo + ":" + l.colNo }

  function PrintCall(c: Call): string {
    match c.fn
    case Some(fn) => "at " + fn + " (" + PrintLocation(c.location) + ")"
    case None => "at " + PrintLocation(c.location)
  }

  function PrintCalls(calls: seq<Call>): (lines: seq<string>)
    ensures |lines| == |calls|
    ensures forall i :: 0 <= i < |calls| ==> lines[i] == "    " + PrintCall(calls[i])
  {
    if calls == [] then [] else ["    " + PrintCall(calls[0])] + PrintCalls(calls[1..])
  }

  function PrintStack(header: string, calls: seq<Call>): string {
    Join([header] + PrintCalls(calls), "\n")
  }

  /** A line of text: not empty, trimmed, without a line break. */
  predicate IsLine(s: string) { s != "" && IsTrimmed(s) && '\n' !in s }

  /** File names may hold colons and parentheses; in a named frame, though, no " (". */
  predicate IsPlain(c: Call) {
    && IsLine(c.location.file) && IsNumber(c.location.lineNo) && IsNumber(c.location.colNo)
    && (c.fn.Some? ==> IsLine(c.fn.value) && LastOpening(c.location.file) == None)
  }

  function Expected(c: Call): Frame {
    Parsed(PrintCall(c), match c.fn case Some(fn) => fn case None => "", c.location)
  }

  function ExpectedAll(calls: seq<Call>): seq<Frame> {
    if calls == [] then [] else [Expected(calls[0])] + ExpectedAll(calls[1..])
  }

  // ---------- Reading it back ----------

  lemma {:induction false} LastIndexBehind(a: string, c: char, b: string, from: nat)
    requires c !in b && |a| <= from <= |a| + |b|
    ensures LastIndexFrom(a + [c] + b, c, from) == Some(|a|)
  {
    var s := a + [c] + b;
    if from > |a| {
      assert s[from] == b[from - |a| - 1];
      LastIndexBehind(a, c, b, from - 1);
    } else {
      assert s[from] == c;
    }
  }

  lemma {:induction false} LastIndexInFront(a: string, b: string, c: char, from: nat)
    requires from < |a|
    ensures LastIndexFrom(a + b, c, from) == LastIndexFrom(a, c, from)
  {
    assert (a + b)[from] == a[from];
    if from > 0 { LastIndexInFront(a, b, c, from - 1); }
  }

  lemma PrintedLocationIsTrimmed(l: Location)
    requires IsLine(l.file) && IsNumber(l.lineNo) && IsNumber(l.colNo)
    ensures var s := PrintLocation(l); s != "" && IsTrimmed(s) && '\n' !in s && s[|s| - 1] != ')'
  {
    var s := PrintLocation(l);
    assert s[0] == l.file[0] && s[|s| - 1] == l.colNo[|l.colNo| - 1];
    assert IsDigit(s[|s| - 1]);
  }

  lemma PartsOfLocation(l: Location)
    ensures var s, front := PrintLocation(l), l.file + ":" + l.lineNo;
            && s == front + ":" + l.colNo && s == front + (":" + l.colNo)
            && s[|front| + 1..] == l.colNo && s[|l.file| + 1..|front|] == l.lineNo && s[..|l.file|] == l.file
  {
  }

  /** The last two colons of a printed location are those of the printer. */
  lemma LocationReadsBack(l: Location)
    requires IsLine(l.file) && IsNumber(l.lineNo) && IsNumber(l.colNo)
    ensures ParseLocation(PrintLocation(l)) == Some(l)
  {
    PrintedLocationIsTrimmed(l);
    TrimIsIdle(PrintLocation(l));
    assert l.file != "";
    hide *;
    PrintedParses(PrintLocation(l), l);
  }

  lemma PrintedParses(location: string, l: Location)
    requires l.file != "" && IsNumber(l.lineNo) && IsNumber(l.colNo) && Trim(location) == PrintLocation(l)
    ensures ParseLocation(location) == Some(l)
  {
    hide IsSpace, Trim, PrintLocation, AreDigits, LastIndexOf, LastIndexFrom;
    ColonsOfLocation(l);
    PartsOfLocation(l);
    PrintedIsLong(l);
  }

  lemma PrintedIsLong(l: Location)
    ensures PrintLocation(l) != "" && |PrintLocation(l)| == |l.file| + |l.lineNo| + |l.colNo| + 2
    ensures |l.file + ":" + l.lineNo| == |l.file| + 1 + |l.lineNo|
  {
  }

  lemma ColonsOfLocation(l: Location)
    requires l.file != "" && IsNumber(l.lineNo) && IsNumber(l.colNo)
    ensures var s, front := PrintLocation(l), l.file + ":" + l.lineNo;
            && LastIndexOf(s, ':', |s| - 1) == Some(|front|)
            && LastIndexOf(s, ':', |front| - 1) == Some(|l.file|)
  {
    assert ':' !in l.colNo && ':' !in l.lineNo;
    var s, front := PrintLocation(l), l.file + ":" + l.lineNo;
    PartsOfLocation(l);
    hide IsSpace, PrintLocation, AreDigits, LastIndexFrom;
    LastIndexBehind(front, ':', l.colNo, |s| - 1);
    LastIndexInFront(front, ":" + l.colNo, ':', |front| - 1);
    LastIndexBehind(l.file, ':', l.lineNo, |front| - 1);
  }

  lemma {:induction false} NoOpeningBehind(a: string, b: string)
    requires LastOpening(a) == None && '(' !in b && (a != "" ==> a[|a| - 1] != ' ')
    ensures LastOpening(a + b) == None
  {
    if a == "" {
      assert a + b == b;
      NoOpening(b);
    } else {
      assert (a + b)[1..] == a[1..] + b;
      assert |a| == 1 ==> LastOpening(a[1..]) == None;
      NoOpeningBehind(a[1..], b);
    }
  }

  lemma {:induction false} NoOpening(s: string)
    requires '(' !in s
    ensures LastOpening(s) == None
  {
    if |s| >= 2 {
      assert s[1] in s;
      NoOpening(s[1..]);
    }
  }

  lemma {:induction false} LastOpeningBehind(a: string, b: string)
    requires LastOpening(b) == None
    ensures LastOpening(a + (" (" + b)) == Some(|a|)
  {
    var s := a + (" (" + b);
    if a == "" {
      assert s[0] == ' ' && s[1] == '(' && s[1..] == "(" + b;
      assert ("(" + b)[1..] == b;
    } else {
      assert s[1..] == a[1..] + (" (" + b);
      LastOpeningBehind(a[1..], b);
    }
  }

  lemma NamedSplits(fn: string, l: Location)
    requires IsLine(fn) && IsLine(l.file) && IsNumber(l.lineNo) && IsNumber(l.colNo)
    requires LastOpening(l.file) == None
    ensures NameAndLocation(fn + (" (" + (PrintLocation(l) + ")"))) == (fn, PrintLocation(l))
  {
    hide Trim, LastIndexOf, ParseLocation;
    var loc := PrintLocation(l);
    var s := fn + (" (" + (loc + ")"));
    PrintedLocationIsTrimmed(l);
    assert s[|s| - 1..] == ")";
    OnlyOneOpening(l);
    LastOpeningBehind(fn, loc + ")");
    assert s[..|fn|] == fn && s[|fn| + 2..|s| - 1] == loc;
    TrimIsIdle(fn);
    TrimIsIdle(loc);
  }

  lemma OnlyOneOpening(l: Location)
    requires IsLine(l.file) && IsNumber(l.lineNo) && IsNumber(l.colNo) && LastOpening(l.file) == None
    ensures LastOpening(PrintLocation(l) + ")") == None
  {
    var rest := ":" + l.lineNo + ":" + l.colNo + ")";
    assert PrintLocation(l) + ")" == l.file + rest;
    assert '(' !in rest;
    NoOpeningBehind(l.file, rest);
  }

  lemma BehindAt(rest: string)
    requires rest != ""
    ensures var line := "at " + rest;
            |line| == 3 + |rest| && line[..3] == "at " && line[3..] == rest
            && line[0] == 'a' && line[|line| - 1] == rest[|rest| - 1]
  {
  }

  lemma FrameIsTrimmed(rest: string)
    requires rest != "" && IsTrimmed(rest)
    ensures var line := "at " + rest;
            |line| >= 3 && StartsWith(line, "at ") && line[3..] == rest
            && IsTrimmed(line) && Trim(line) == line && Trim(rest) == rest
  {
    assert !IsSpace('a');
    hide IsSpace, Trim;
    BehindAt(rest);
    TrimIsIdle("at " + rest);
    TrimIsIdle(rest);
  }

  lemma FrameReadsBack(c: Call)
    requires IsPlain(c)
    ensures ParseV8Frame(PrintCall(c)) == Some((match c.fn case Some(fn) => fn case None => "", c.location))
    ensures PrintCall(c) != "" && IsTrimmed(PrintCall(c)) && '\n' !in PrintCall(c)
  {
    hide Trim, LastOpening, ParseLocation, NameAndLocation;
    var loc := PrintLocation(c.location);
    PrintedLocationIsTrimmed(c.location);
    LocationReadsBack(c.location);
    match c.fn
    case Some(fn) =>
      var rest := fn + (" (" + (loc + ")"));
      assert PrintCall(c) == "at " + rest;
      assert rest[0] == fn[0] && rest[|rest| - 1] == ')';
      FrameIsTrimmed(rest);
      NamedSplits(fn, c.location);
    case None =>
      FrameIsTrimmed(loc);
      BareSplits(loc);
  }

  lemma BareSplits(loc: string)
    requires loc != "" && loc[|loc| - 1] != ')'
    ensures NameAndLocation(loc) == ("", loc)
  {
    assert loc[|loc| - 1..][0] == loc[|loc| - 1];
  }

  // ---------- Whole stacks ----------

  lemma SpacesIndent()
    ensures forall c :: c in "    " ==> IsSpace(c)
  {
  }

  lemma IndentedTrims(s: string)
    requires s != "" && IsTrimmed(s)
    ensures Trim("    " + s) == s && TrimEnd("    " + s) == "    " + s
  {
    SpacesIndent();
    EndIsKept("    ", s);
    hide IsSpace, Trim, TrimEnd, TrimStart;
    TrimTakesTheEnds("    ", s, "");
    assert "    " + s + "" == "    " + s;
  }

  lemma EndIsKept(indent: string, s: string)
    requires s != "" && IsTrimmed(s)
    ensures TrimEnd(indent + s) == indent + s
  {
    assert (indent + s)[|indent + s| - 1] == s[|s| - 1];
  }

  ghost predicate IsPrintedLine(line: string) {
    '\n' !in line && TrimEnd(line) == line && line != "" && !IsSpace(line[|line| - 1])
  }

  lemma CallReadsBack(c: Call)
    requires IsPlain(c)
    ensures var line := "    " + PrintCall(c);
            ParseFrame(line) == Expected(c) && Trim(line) != "" && IsPrintedLine(line)
  {
    var s := PrintCall(c);
    FrameReadsBack(c);
    IndentedTrims(s);
    assert ("    " + s)[|"    " + s| - 1] == s[|s| - 1];
    hide IsSpace, Trim, TrimEnd, ParseV8Frame, PrintCall, IsPlain;
  }

  lemma {:induction false} CallsReadBack(calls: seq<Call>)
    requires forall i :: 0 <= i < |calls| ==> IsPlain(calls[i])
    ensures ParseFrames(PrintCalls(calls)) == ExpectedAll(calls)
    ensures forall i :: 0 <= i < |calls| ==> IsPrintedLine(PrintCalls(calls)[i])
  {
    hide ParseFrame, Trim, PrintCall, IsPlain, Expected, IsPrintedLine;
    if calls != [] {
      CallReadsBack(calls[0]);
      CallsReadBack(calls[1..]);
      var lines := PrintCalls(calls);
      assert lines[0] == "    " + PrintCall(calls[0]) && lines[1..] == PrintCalls(calls[1..]);
      assert forall i :: 1 <= i < |calls| ==> lines[i] == PrintCalls(calls[1..])[i - 1];
    }
  }

  lemma {:induction false} TrimEndsIsIdle(lines: seq<string>)
    requires forall i :: 0 <= i < |lines| ==> TrimEnd(lines[i]) == lines[i]
    ensures TrimEnds(lines) == lines
  {
    hide TrimEnd;
    if lines != [] { TrimEndsIsIdle(lines[1..]); }
  }

  lemma {:induction false} JoinKeepsEnds(lines: seq<string>, sep: string)
    requires lines != [] && lines[0] != "" && lines[|lines| - 1] != ""
    ensures var s := Join(lines, sep);
            s != "" && s[0] == lines[0][0] && s[|s| - 1] == lines[|lines| - 1][|lines[|lines| - 1]| - 1]
  {
    if |lines| > 1 {
      var rest := lines[1..];
      assert rest[|rest| - 1] == lines[|lines| - 1];
      JoinEndsWith(rest, sep);
    }
  }

  lemma {:induction false} JoinEndsWith(lines: seq<string>, sep: string)
    requires lines != [] && lines[|lines| - 1] != ""
    ensures var s, last := Join(lines, sep), lines[|lines| - 1];
            s != "" && s[|s| - 1] == last[|last| - 1]
  {
    if |lines| > 1 {
      assert lines[1..][|lines[1..]| - 1] == lines[|lines| - 1];
      JoinEndsWith(lines[1..], sep);
    }
  }

  /** Every frame of a printed stack comes back with its function name, file, line and column. */
  lemma StackReadsBack(header: string, calls: seq<Call>)
    requires IsLine(header) && forall i :: 0 <= i < |calls| ==> IsPlain(calls[i])
    ensures ParseStackFrames(PrintStack(header, calls)) == Some(Stack(header, ExpectedAll(calls)))
  {
    hide *;
    var lines := [header] + PrintCalls(calls);
    CallsReadBack(calls);
    HeaderIsPrinted(header);
    assert PrintStack(header, calls) == Join(lines, "\n") by { StackIsJoined(header, calls); }
    forall i | 0 <= i < |lines| ensures IsPrintedLine(lines[i]) {
      assert lines[i] == if i == 0 then header else PrintCalls(calls)[i - 1];
    }
    LinesReadBack(lines);
    assert lines[0] == header && lines[1..] == PrintCalls(calls);
    StackOfLines(header, calls, lines);
  }

  lemma HeaderIsPrinted(header: string)
    requires IsLine(header)
    ensures IsPrintedLine(header) && !IsSpace(header[0]) && header != ""
  {
    hide IsSpace;
  }

  lemma StackIsJoined(header: string, calls: seq<Call>)
    ensures PrintStack(header, calls) == Join([header] + PrintCalls(calls), "\n")
  {
  }

  lemma LinesReadBack(lines: seq<string>)
    requires lines != [] && lines[0] != "" && !IsSpace(lines[0][0])
    requires forall i :: 0 <= i < |lines| ==> IsPrintedLine(lines[i])
    ensures var text := Join(lines, "\n");
            text != "" && Trim(text) == text && TrimEnds(Split(text, '\n')) == lines
  {
    var text := Join(lines, "\n");
    JoinKeepsEnds(lines, "\n");
    TrimIsIdle(text);
    SplitOfJoin(lines, '\n');
    TrimEndsIsIdle(lines);
  }

  lemma StackOfLines(header: string, calls: seq<Call>, lines: seq<string>)
    requires header != "" && lines != [] && lines[0] == header && lines[1..] == PrintCalls(calls)
    requires PrintStack(header, calls) == Join(lines, "\n")
    requires var text := Join(lines, "\n"); text != "" && Trim(text) == text && TrimEnds(Split(text, '\n')) == lines
    requires ParseFrames(PrintCalls(calls)) == ExpectedAll(calls)
    ensures ParseStackFrames(PrintStack(header, calls)) == Some(Stack(header, ExpectedAll(calls)))
  {
    hide ParseFrames, PrintCalls, ExpectedAll, Trim, TrimEnds, Split, Join, PrintStack;
  }
}
