/** The stack parser of public/error-pages/error.js on arbitrary text: which locations it accepts, and that no
    line is lost. */
module StackLines {
  import opened Text
  import opened StackFrames

  lemma TwoColons(s: string, i: nat, j: nat)
    requires i < j < |s| && s[i] == ':' && s[j] == ':'
    ensures s == s[..i] + ":" + s[i + 1..j] + ":" + s[j + 1..]
  {
    assert s == s[..i] + [s[i]] + s[i + 1..j] + [s[j]] + s[j + 1..];
  }

  /** A location is read exactly if, trimmed, it is a file name, a colon, digits, a colon and digits. */
  lemma LocationParsesExactlyWhen(location: string, l: Location)
    ensures ParseLocation(location) == Some(l)
            <==> && l.file != "" && l.lineNo != "" && AllDigits(l.lineNo) && l.colNo != "" && AllDigits(l.colNo)
                 && Trim(location) == l.file + ":" + l.lineNo + ":" + l.colNo
  {
    var s := Trim(location);
    if ParseLocation(location) == Some(l) {
      var j := LastIndexOf(s, ':', |s| - 1).value;
      var i := LastIndexOf(s, ':', j - 1).value;
      hide Trim, LastIndexOf;
      assert i < j;
      TwoColons(s, i, j);
    }
    if && l.file != "" && l.lineNo != "" && AllDigits(l.lineNo) && l.colNo != "" && AllDigits(l.colNo)
       && s == l.file + ":" + l.lineNo + ":" + l.colNo {
      PrintedParses(location, l);
    }
  }

  /** The lines that are not blank, trimmed. */
  function NonBlank(lines: seq<string>): seq<string> {
    if lines == [] then []
    else (if Trim(lines[0]) == "" then [] else [Trim(lines[0])]) + NonBlank(lines[1..])
  }

  /** The frame holds the text, and is not taken apart if the text does not start with "at ". */
  ghost predicate IsFrameOf(frame: Frame, text: string) {
    frame.raw == text && (!StartsWith(text, "at ") ==> frame == Unparsed(text))
  }

  ghost predicate AreFramesOf(frames: seq<Frame>, texts: seq<string>) {
    |frames| == |texts| && forall i :: 0 <= i < |frames| ==> IsFrameOf(frames[i], texts[i])
  }

  lemma OneFrameMore(frame: Frame, text: string, frames: seq<Frame>, texts: seq<string>)
    requires IsFrameOf(frame, text) && AreFramesOf(frames, texts)
    ensures AreFramesOf([frame] + frames, [text] + texts)
  {
    hide IsFrameOf;
  }

  /** Every line that is not blank comes back as one frame with its text, in order. */
  lemma {:induction false} NoLineIsLost(lines: seq<string>)
    ensures AreFramesOf(ParseFrames(lines), NonBlank(lines))
  {
    if lines != [] {
      NoLineIsLost(lines[1..]);
      hide Trim, ParseFrame, IsFrameOf, AreFramesOf;
      if Trim(lines[0]) != "" {
        FrameOfLine(lines[0]);
        OneFrameMore(ParseFrame(lines[0]), Trim(lines[0]), ParseFrames(lines[1..]), NonBlank(lines[1..]));
      } else {
        assert [] + NonBlank(lines[1..]) == NonBlank(lines[1..]);
      }
    } else {
      NoFrames();
    }
  }

  lemma NoFrames()
    ensures AreFramesOf([], [])
  {
  }

  lemma FrameOfLine(line: string)
    ensures IsFrameOf(ParseFrame(line), Trim(line))
  {
    TrimmedIsTrimmed(line);
    TrimIsIdle(Trim(line));
    hide Trim, IsSpace, NameAndLocation, ParseLocation, StartsWith;
  }

  lemma TrimmedIsTrimmed(line: string)
    ensures IsTrimmed(Trim(line))
  {
    hide IsSpace, TrimStart, TrimEnd;
    var t := TrimStart(line);
    if TrimEnd(t) != "" { assert TrimEnd(t)[0] == t[0]; }
  }
}
