/** From the text that `git diff` writes to the lines that the handler of scripts/coverage-diff.ts sees.

    The reader of Node.js ends a line at a line feed, a carriage return, both together, or one of the
    Unicode separators U+2028 and U+2029; a printed line that holds one of these comes in pieces. */
module DiffOutput {
  import opened Text
  import opened DiffLines
  import opened DiffPrinter
  import opened DiffInverse

  predicate IsTerminator(c: char) { c == '\n' || c == '\r' || c == '\U{2028}' || c == '\U{2029}' }

  predicate IsOneLine(s: string) {
    forall c :: c in s ==> c != '\n' && c != '\r' && c != '\U{2028}' && c != '\U{2029}'
  }

  /** The length of the first line. */
  function LineLength(s: string): (n: nat)
    ensures n <= |s| && IsOneLine(s[..n])
    ensures n < |s| ==> IsTerminator(s[n])
  {
    if s == "" || IsTerminator(s[0]) then 0
    else
      var n := LineLength(s[1..]);
      assert s[..n + 1] == [s[0]] + s[1..][..n];
      n + 1
  }

  /** `readline` over the whole output; a last line without a terminator is a line if it is not empty. */
  function ReadLines(output: string): (lines: seq<string>)
    ensures forall i :: 0 <= i < |lines| ==> IsOneLine(lines[i])
    decreases |output|
  {
    if output == "" then []
    else
      var n := LineLength(output);
      var rest := if StartsWith(output[n..], "\r\n") then output[n + 2..]
                  else if n < |output| then output[n + 1..] else "";
      [output[..n]] + ReadLines(rest)
  }

  /** Each line with the line ending of its file: git copies the text of a file that ends its lines with
      "\r\n", carriage return and all. */
  function Output(lines: seq<string>, crlf: seq<bool>): string
    requires |lines| == |crlf|
  {
    if lines == [] then ""
    else lines[0] + ((if crlf[0] then "\r\n" else "\n") + Output(lines[1..], crlf[1..]))
  }

  lemma {:induction false} LineLengthOf(line: string, rest: string)
    requires IsOneLine(line) && rest != "" && IsTerminator(rest[0])
    ensures LineLength(line + rest) == |line|
  {
    if line == "" {
      assert line + rest == rest;
    } else {
      assert (line + rest)[1..] == line[1..] + rest;
      assert line[0] in line && forall c :: c in line[1..] ==> c in line;
      LineLengthOf(line[1..], rest);
    }
  }

  lemma FirstLine(line: string, crlf: bool, more: string)
    requires IsOneLine(line)
    ensures ReadLines(line + ((if crlf then "\r\n" else "\n") + more)) == [line] + ReadLines(more)
  {
    var end := if crlf then "\r\n" else "\n";
    var output := line + (end + more);
    assert (end + more)[0] == end[0] && (end + more)[|end|..] == more;
    LineLengthOf(line, end + more);
    assert output[..|line|] == line && output[|line|..] == end + more;
    if crlf {
      assert (end + more)[..2] == "\r\n";
      assert output[|line| + 2..] == (end + more)[2..];
    } else {
      DiffersAt(end + more, "\r\n", 0);
      assert output[|line| + 1..] == (end + more)[1..];
    }
  }

  lemma {:induction false} OneLinesReadBack(lines: seq<string>, crlf: seq<bool>)
    requires |lines| == |crlf| && forall i :: 0 <= i < |lines| ==> IsOneLine(lines[i])
    ensures ReadLines(Output(lines, crlf)) == lines
  {
    if lines != [] {
      OneLinesReadBack(lines[1..], crlf[1..]);
      FirstLine(lines[0], crlf[0], Output(lines[1..], crlf[1..]));
    }
  }

  /** The lines are read back exactly if none of them holds a terminator. */
  lemma LinesReadBackExactlyWhen(lines: seq<string>, crlf: seq<bool>)
    requires |lines| == |crlf|
    ensures ReadLines(Output(lines, crlf)) == lines <==> forall i :: 0 <= i < |lines| ==> IsOneLine(lines[i])
  {
    if forall i :: 0 <= i < |lines| ==> IsOneLine(lines[i]) { OneLinesReadBack(lines, crlf); }
  }

  /** From the output to the result: the script is read back from the text of its diff, whatever line endings
      its files have, if no line of it holds a terminator inside. */
  lemma OutputReadsBack(script: seq<FileDiff>, crlf: seq<bool>, path: string)
    requires forall i :: 0 <= i < |script| ==> PlainFile(script[i])
    requires |crlf| == |Print(script)| && forall i :: 0 <= i < |Print(script)| ==> IsOneLine(Print(script)[i])
    ensures var changed := OnLines(INITIAL, ReadLines(Output(Print(script), crlf))).changed;
            && (path in changed <==> Additions(script, path) != {})
            && (path in changed ==> changed[path] == Additions(script, path))
  {
    OneLinesReadBack(Print(script), crlf);
    ParserInvertsPrinter(script, path);
    hide *;
  }
}
