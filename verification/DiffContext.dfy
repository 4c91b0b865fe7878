/** Hunk bodies with context lines, which `git diff -U0` does not print but the handler of
    scripts/coverage-diff.ts provides for. */
module DiffContext {
  import opened Text
  import opened DiffLines
  import opened DiffInverse

  datatype BodyLine = Context(text: string) | Removed(text: string) | Added(text: string)

  function PrintBody(body: seq<BodyLine>): (lines: seq<string>)
    ensures |lines| == |body|
  {
    if body == [] then []
    else
      var front, last := body[..|body| - 1], body[|body| - 1];
      PrintBody(front) + [match last
                          case Context(text) => " " + text
                          case Removed(text) => "-" + text
                          case Added(text) => "+" + text]
  }

  /** The lines of the body that are in the new file. */
  function NewLines(body: seq<BodyLine>): seq<BodyLine> {
    if body == [] then []
    else
      var front, last := body[..|body| - 1], body[|body| - 1];
      NewLines(front) + if last.Removed? then [] else [last]
  }

  /** The numbers of the added ones among these lines, if the first has the number `start`. */
  ghost function AddedNumbers(lines: seq<BodyLine>, start: nat): set<nat> {
    set i | 0 <= i < |lines| && lines[i].Added? :: start + i
  }

  ghost predicate PlainBody(body: seq<BodyLine>) {
    forall i :: 0 <= i < |body| && body[i].Added? ==> !StartsWith(body[i].text, "++")
  }

  lemma ContextLine(p: Parser, text: string)
    requires p.currentFile.Some?
    ensures OnLine(p, " " + text) == p.(newLine := p.newLine + 1)
  {
    var line := " " + text;
    assert line[0] == ' ' && line[..1] == " ";
    DiffersAt(line, "+++ ", 0);
    DiffersAt(line, "@@", 0);
    DiffersAt(line, "+", 0);
    DiffersAt(line, "-", 0);
  }

  lemma {:induction false} OnOneMore(p: Parser, lines: seq<string>, line: string)
    ensures OnLines(p, lines + [line]) == OnLine(OnLines(p, lines), line)
  {
    OnLinesConcat(p, lines, [line]);
    assert [line][1..] == [];
  }

  lemma AddedNumbersOfAppend(lines: seq<BodyLine>, line: BodyLine, start: nat)
    ensures AddedNumbers(lines + [line], start)
            == AddedNumbers(lines, start) + if line.Added? then {start + |lines|} else {}
  {
    var all := lines + [line];
    var more := if line.Added? then {start + |lines|} else {};
    forall n | n in AddedNumbers(all, start) ensures n in AddedNumbers(lines, start) + more {
      var i :| 0 <= i < |all| && all[i].Added? && n == start + i;
      if i < |lines| { assert lines[i] == all[i]; }
    }
    forall n | n in AddedNumbers(lines, start) + more ensures n in AddedNumbers(all, start) {
      if n in AddedNumbers(lines, start) {
        var i :| 0 <= i < |lines| && lines[i].Added? && n == start + i;
        assert all[i] == lines[i];
      } else {
        assert all[|lines|] == line;
      }
    }
  }

  /** What the handler should have made of the body. */
  ghost function Expected(p: Parser, body: seq<BodyLine>): Parser
    requires p.currentFile.Some?
  {
    var lines := NewLines(body);
    p.(changed := Record(p.changed, p.currentFile.value, AddedNumbers(lines, p.newLine)), newLine := p.newLine + |lines|)
  }

  lemma ExpectedOfAppend(p: Parser, front: seq<BodyLine>, last: BodyLine)
    requires p.currentFile.Some?
    ensures var q, r := Expected(p, front), Expected(p, front + [last]);
            match last
            case Context(_) => r == q.(newLine := q.newLine + 1)
            case Removed(_) => r == q
            case Added(_) =>
              r == q.(changed := Record(q.changed, p.currentFile.value, {q.newLine}), newLine := q.newLine + 1)
  {
    var body, lines, file := front + [last], NewLines(front), p.currentFile.value;
    var numbers := AddedNumbers(lines, p.newLine);
    assert body[..|body| - 1] == front;
    assert NewLines(body) == lines + if last.Removed? then [] else [last];
    hide NewLines, AddedNumbers, Record;
    if last.Removed? {
      assert lines + [] == lines;
    } else {
      AddedNumbersOfAppend(lines, last, p.newLine);
      if last.Added? {
        RecordTwice(p.changed, file, numbers, {p.newLine + |lines|});
      } else {
        assert numbers + {} == numbers;
      }
    }
  }

  lemma OneLineMore(q: Parser, line: BodyLine, text: string)
    requires q.currentFile.Some? && (line.Added? ==> !StartsWith(line.text, "++"))
    requires text == match line case Context(t) => " " + t case Removed(t) => "-" + t case Added(t) => "+" + t
    ensures OnLine(q, text)
            == match line
               case Context(_) => q.(newLine := q.newLine + 1)
               case Removed(_) => q
               case Added(_) =>
                 q.(changed := Record(q.changed, q.currentFile.value, {q.newLine}), newLine := q.newLine + 1)
  {
    hide OnLine, Record;
    match line
    case Context(t) => ContextLine(q, t);
    case Removed(t) => RemovedLineIsIgnored(q, t);
    case Added(t) => AddedLineIsSeenExactlyWhen(q, t);
  }

  /** Whatever context, removed and added lines follow a hunk header, the numbers recorded are the places of the
      added lines among the lines of the new file, and the count stands behind the last of these. */
  lemma {:induction false} BodyIsRecorded(p: Parser, body: seq<BodyLine>)
    requires p.currentFile.Some? && PlainBody(body)
    ensures OnLines(p, PrintBody(body))
            == p.(changed := Record(p.changed, p.currentFile.value, AddedNumbers(NewLines(body), p.newLine)),
                  newLine := p.newLine + |NewLines(body)|)
  {
    BodyIsExpected(p, body);
  }

  lemma {:induction false} BodyIsExpected(p: Parser, body: seq<BodyLine>)
    requires p.currentFile.Some? && PlainBody(body)
    ensures OnLines(p, PrintBody(body)) == Expected(p, body)
  {
    if body == [] {
      assert AddedNumbers([], p.newLine) == {};
    } else {
      var n := |body| - 1;
      var front, last := body[..n], body[n];
      BodyIsExpected(p, front);
      var printed := PrintBody(body);
      assert printed == PrintBody(front) + [printed[n]];
      ExpectedOfAppend(p, front, last);
      assert body == front + [last];
      assert Expected(p, front).currentFile == p.currentFile;
      hide OnLine, OnLines, NewLines, AddedNumbers, Record, Expected;
      OnOneMore(p, PrintBody(front), printed[n]);
      OneLineMore(Expected(p, front), last, printed[n]);
    }
  }
}
