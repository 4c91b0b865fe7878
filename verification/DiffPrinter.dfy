/** The printer that the parser of scripts/coverage-diff.ts has to invert: an edit script, written out
    as `git diff -U0` writes it (section "Diff -u or -U Output Format" of the `diff` utility in
    IEEE Std 1003.1-2017), and what the script adds to each new file. */
module DiffPrinter {
  import opened Text

  /** `gap` unchanged lines, then some old lines replaced by some new ones.  The flags say that the
      last old or new line of the hunk is not terminated. */
  datatype Hunk = Hunk(
    gap: nat, removed: seq<string>, added: seq<string>, heading: string,
    oldUnterminated: bool, newUnterminated: bool)

  /** What git prints for one file: some extended header lines; unless there is nothing more to show
      (a pure rename, a mode change, a binary file), the two names and the hunks.  A name is None on the
      side where the file does not exist. */
  datatype FileDiff =
    | Edited(header: seq<string>, oldPath: Option<string>, newPath: Option<string>, hunks: seq<Hunk>)
    | HeaderOnly(header: seq<string>)

  const NO_NEWLINE := "\\ No newline at end of file"

  /** A name with a space is followed by a tab, so that its end can be seen. */
  function NameLine(mark: string, side: string, path: Option<string>): string {
    match path
    case None => mark + " /dev/null"
    case Some(p) => mark + " " + side + p + if ' ' in p then "\t" else ""
  }

  /** A count of one is left out; a count of zero goes with the line before. */
  function Range(start: nat, count: nat): string
    requires start > 0
  {
    if count == 1 then Decimal(start)
    else Decimal(if count == 0 then start - 1 else start) + "," + Decimal(count)
  }

  function HunkHeader(h: Hunk, oldStart: nat, newStart: nat): string
    requires oldStart > 0 && newStart > 0
  {
    "@@ -" + Range(oldStart, |h.removed|) + " +" + Range(newStart, |h.added|) + " @@" + HeadingPart(h)
  }

  function HeadingPart(h: Hunk): string { if h.heading == "" then "" else " " + h.heading }

  function Marked(mark: string, lines: seq<string>): (r: seq<string>)
    ensures |r| == |lines|
  {
    if lines == [] then [] else [mark + lines[0]] + Marked(mark, lines[1..])
  }

  function PrintHunk(h: Hunk, oldStart: nat, newStart: nat): seq<string>
    requires oldStart > 0 && newStart > 0
  {
    [HunkHeader(h, oldStart, newStart)]
    + Marked("-", h.removed) + (if h.oldUnterminated then [NO_NEWLINE] else [])
    + Marked("+", h.added) + (if h.newUnterminated then [NO_NEWLINE] else [])
  }

  /** `oldLine` and `newLine` are the next line numbers on either side. */
  function PrintHunks(hunks: seq<Hunk>, oldLine: nat, newLine: nat): seq<string>
    requires oldLine > 0 && newLine > 0
  {
    if hunks == [] then []
    else
      var h := hunks[0];
      PrintHunk(h, oldLine + h.gap, newLine + h.gap)
      + PrintHunks(hunks[1..], oldLine + h.gap + |h.removed|, newLine + h.gap + |h.added|)
  }

  function PrintFile(f: FileDiff): seq<string> {
    match f
    case HeaderOnly(header) => header
    case Edited(header, oldPath, newPath, hunks) =>
      header + [NameLine("---", "a/", oldPath), NameLine("+++", "b/", newPath)] + PrintHunks(hunks, 1, 1)
  }

  function Print(script: seq<FileDiff>): seq<string> {
    if script == [] then [] else Print(script[..|script| - 1]) + PrintFile(script[|script| - 1])
  }

  // ---------- What the script adds ----------

  /** A line of the new file: taken over from the old one, or added. */
  datatype NewLine = Kept | Added(text: string)

  function KeptLines(n: nat): (r: seq<NewLine>)
    ensures |r| == n
    ensures forall i :: 0 <= i < n ==> r[i] == Kept
  {
    if n == 0 then [] else KeptLines(n - 1) + [Kept]
  }

  function AddedTexts(lines: seq<string>): (r: seq<NewLine>)
    ensures |r| == |lines|
    ensures forall i :: 0 <= i < |lines| ==> r[i] == Added(lines[i])
  {
    if lines == [] then [] else [Added(lines[0])] + AddedTexts(lines[1..])
  }

  /** The new file, up to the end of the last hunk. */
  function NewFile(hunks: seq<Hunk>): seq<NewLine> {
    if hunks == [] then []
    else KeptLines(hunks[0].gap) + AddedTexts(hunks[0].added) + NewFile(hunks[1..])
  }

  /** The numbers of the lines of the new file that were added, counted from one. */
  function AddedLines(hunks: seq<Hunk>): set<nat> {
    set i: nat | i < |NewFile(hunks)| && NewFile(hunks)[i].Added? :: i + 1
  }
}
