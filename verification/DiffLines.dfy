/** The line handler of scripts/coverage-diff.ts: it reads the lines of `git diff -U0` and rebuilds,
    for every TypeScript file, the set of line numbers that the diff adds to the new file.

    A line is what the reader passes on: it holds no line terminator. */
module DiffLines {
  import opened Text

  /** The variables of the handler. */
  datatype Parser = Parser(currentFile: Option<string>, newLine: nat, changed: map<string, set<nat>>)

  const INITIAL := Parser(None, 0, map[])

  // ---------- File headers ----------

  /** The regular expression `^\+\+\+\s+b\/(.*)$`, for a line that starts with "+++ ". */
  function PathOfHeader(line: string): Option<string>
    requires StartsWith(line, "+++ ")
  {
    var rest := TrimStart(line[3..]);
    if StartsWith(rest, "b/") then Some(rest[2..]) else None
  }

  predicate IsTypeScript(path: string) { EndsWith(path, ".ts") || EndsWith(path, ".tsx") }

  function FileOfHeader(line: string): Option<string>
    requires StartsWith(line, "+++ ")
  {
    if Contains(line, "/dev/null") then None
    else match PathOfHeader(line)
         case None => None
         case Some(path) => if IsTypeScript(path) then Some(path) else None
  }

  // ---------- Hunk headers ----------

  function DigitRun(s: string): (n: nat)
    ensures n <= |s|
    ensures AllDigits(s[..n])
    ensures n < |s| ==> !IsDigit(s[n])
  {
    if s != [] && IsDigit(s[0]) then
      var n := 1 + DigitRun(s[1..]);
      assert s[..n] == [s[0]] + s[1..][..n - 1];
      n
    else 0
  }

  /** `(?:,(\d+))? @@` at the start of s. */
  predicate IsRangeEnd(s: string) {
    || StartsWith(s, " @@")
    || (&& StartsWith(s, ",") && DigitRun(s[1..]) > 0
        && StartsWith(s[1..][DigitRun(s[1..])..], " @@"))
  }

  /** `(\d+)(?:,(\d+))? @@` at the start of s; the number it captures. */
  function NumberAt(s: string): Option<nat> {
    var n := DigitRun(s);
    if n > 0 && IsRangeEnd(s[n..]) then Some(ValueOf(s[..n])) else None
  }

  /** ` \+(\d+)(?:,(\d+))? @@` at the start of s. */
  function NewStartAt(s: string): Option<nat> {
    if StartsWith(s, " +") then NumberAt(s[2..]) else None
  }

  /** `.*` is greedy: the last place at which the rest of the expression matches wins. */
  function LastNewStart(s: string): Option<nat> {
    if s == [] then None
    else match LastNewStart(s[1..])
         case Some(n) => Some(n)
         case None => NewStartAt(s)
  }

  function ParseHunkNewStart(line: string): Option<nat> {
    if StartsWith(line, "@@ ") then LastNewStart(line[3..]) else None
  }

  // ---------- The handler ----------

  /** Paths in a diff are relative and written with "/", which `normalizeRel` leaves alone. */
  function Record(changed: map<string, set<nat>>, file: string, lines: set<nat>): map<string, set<nat>> {
    if lines == {} then changed
    else changed[file := (if file in changed then changed[file] else {}) + lines]
  }

  function OnLine(p: Parser, line: string): Parser {
    if StartsWith(line, "+++ ") then p.(currentFile := FileOfHeader(line))
    else if StartsWith(line, "@@") then
      match ParseHunkNewStart(line)
      case Some(start) => p.(newLine := start)
      case None => p
    else if p.currentFile == None then p
    else if StartsWith(line, "+") && !StartsWith(line, "+++") then
      p.(changed := Record(p.changed, p.currentFile.value, {p.newLine}), newLine := p.newLine + 1)
    else if StartsWith(line, "-") && !StartsWith(line, "---") then p
    else if StartsWith(line, " ") then p.(newLine := p.newLine + 1)
    else p
  }

  function OnLines(p: Parser, lines: seq<string>): Parser
    decreases |lines|
  {
    if lines == [] then p else OnLines(OnLine(p, lines[0]), lines[1..])
  }

  class Collector {
    var currentFile: Option<string>
    var newLine: nat
    var changed: map<string, set<nat>>

    ghost function View(): Parser
      reads this
    {
      Parser(currentFile, newLine, changed)
    }

    constructor ()
      ensures View() == INITIAL
    {
      currentFile, newLine, changed := None, 0, map[];
    }

    method HandleLine(line: string)
      modifies this
      ensures View() == OnLine(old(View()), line)
    {
      if StartsWith(line, "+++ ") {
        if Contains(line, "/dev/null") {
          currentFile := None;
          return;
        }
        var path := PathOfHeader(line);
        if path.None? {
          currentFile := None;
          return;
        }
        if EndsWith(path.value, ".ts") || EndsWith(path.value, ".tsx") {
          currentFile := path;
        } else {
          currentFile := None;
        }
        return;
      }
      if StartsWith(line, "@@") {
        var start := ParseHunkNewStart(line);
        if start.Some? { newLine := start.value; }
        return;
      }
      if currentFile.None? { return; }
      if StartsWith(line, "+") && !StartsWith(line, "+++") {
        var rel := currentFile.value;
        var lines := if rel in changed then changed[rel] else {};
        changed := changed[rel := lines + {newLine}];
        newLine := newLine + 1;
        return;
      }
      if StartsWith(line, "-") && !StartsWith(line, "---") { return; }
      if StartsWith(line, " ") { newLine := newLine + 1; }
    }
  }

  /** The whole of `collectChangedLines`, with the lines the child process prints. */
  method CollectChangedLines(lines: seq<string>) returns (changed: map<string, set<nat>>)
    ensures changed == OnLines(INITIAL, lines).changed
  {
    var handler := new Collector();
    for i := 0 to |lines|
      invariant fresh(handler)
      invariant OnLines(handler.View(), lines[i..]) == OnLines(INITIAL, lines)
    {
      handler.HandleLine(lines[i]);
      assert lines[i..][1..] == lines[i + 1..];
    }
    changed := handler.changed;
  }

  lemma {:induction false} OnLinesConcat(p: Parser, a: seq<string>, b: seq<string>)
    ensures OnLines(p, a + b) == OnLines(OnLines(p, a), b)
    decreases |a|
  {
    if a == [] {
      assert a + b == b;
    } else {
      assert (a + b)[1..] == a[1..] + b;
      OnLinesConcat(OnLine(p, a[0]), a[1..], b);
    }
  }
}
