/** The converters of src/common/index.ts on separated words: white space, hyphens and underscores in any
    number separate words, and nothing else of the text is lost. */
module CaseWords {
  import opened Text
  import opened CaseConvert

  /** One or more separators, written out. */
  predicate IsRun(s: string) { s != "" && forall c :: c in s ==> c in " \t\n\r-_" }

  /** Letters and digits in which no capital follows a small letter. */
  predicate IsPlainWord(w: string) {
    && w != ""
    && (forall c :: c in w ==> 'a' <= c <= 'z' || 'A' <= c <= 'Z' || '0' <= c <= '9')
    && (forall i :: 0 <= i < |w| - 1 && 'a' <= w[i] <= 'z' ==> !('A' <= w[i + 1] <= 'Z'))
  }

  /** The words with the runs between them. */
  function Separated(words: seq<string>, runs: seq<string>): string
    requires words != [] && |runs| == |words| - 1
  {
    if |words| == 1 then words[0] else words[0] + (runs[0] + Separated(words[1..], runs[1..]))
  }

  function UpperLetter(c: char): char { if 'a' <= c <= 'z' then (c as int - 32) as char else c }
  function LowerLetter(c: char): char { if 'A' <= c <= 'Z' then (c as int + 32) as char else c }

  function Lowered(w: string): (r: string)
    ensures |r| == |w| && forall i :: 0 <= i < |w| ==> r[i] == LowerLetter(w[i])
  {
    seq(|w|, i requires 0 <= i < |w| => LowerLetter(w[i]))
  }

  /** The first letter in upper case, the others in lower case. */
  function Capitalised(w: string): string { if w == "" then "" else [UpperLetter(w[0])] + Lowered(w[1..]) }

  function CapitalisedAll(words: seq<string>): string {
    if words == [] then "" else Capitalised(words[0]) + CapitalisedAll(words[1..])
  }

  ghost predicate PlainWords(words: seq<string>, runs: seq<string>) {
    && words != [] && |runs| == |words| - 1
    && (forall i :: 0 <= i < |words| ==> IsPlainWord(words[i]))
    && (forall i :: 0 <= i < |runs| ==> IsRun(runs[i]))
  }

  /** What separates words: white space (as `\s` matches it), underscores and hyphens. */
  lemma SeparatorsAre(c: char)
    ensures IsSeparator(c) <==> IsSpace(c) || c in "_-"
  {
  }

  // ---------- Splitting ----------

  lemma {:induction false} WordAtFirst(w: string, rest: string)
    requires forall c :: c in w ==> !IsSeparator(c)
    requires rest != "" ==> IsSeparator(rest[0])
    ensures Words(w + rest) == [w] + if rest == "" then [] else Words(DropSeparators(rest))
  {
    if w == "" {
      assert w + rest == rest;
    } else {
      assert (w + rest)[1..] == w[1..] + rest;
      assert w[0] in w && forall c :: c in w[1..] ==> c in w;
      WordAtFirst(w[1..], rest);
      assert [w[0]] + w[1..] == w;
    }
  }

  lemma {:induction false} RunIsDropped(run: string, rest: string)
    requires forall c :: c in run ==> IsSeparator(c)
    requires rest != "" ==> !IsSeparator(rest[0])
    ensures DropSeparators(run + rest) == rest
  {
    if run == "" {
      assert run + rest == rest;
    } else {
      assert (run + rest)[1..] == run[1..] + rest;
      assert run[0] in run && forall c :: c in run[1..] ==> c in run;
      RunIsDropped(run[1..], rest);
    }
  }

  lemma CharsOfRun(run: string)
    requires IsRun(run)
    ensures forall c :: c in run ==> IsSeparator(c)
  {
  }

  lemma CharsOfWord(w: string)
    requires IsPlainWord(w)
    ensures forall c :: c in w ==> !IsSeparator(c)
  {
  }

  lemma {:induction false} WordsOfSeparated(words: seq<string>, runs: seq<string>)
    requires PlainWords(words, runs)
    ensures Words(Separated(words, runs)) == words && Separated(words, runs) != ""
    ensures Separated(words, runs)[0] == words[0][0]
  {
    CharsOfWord(words[0]);
    if |words| == 1 {
      WordAtFirst(words[0], "");
      assert words[0] + "" == words[0] && words == [words[0]];
    } else {
      var more := Separated(words[1..], runs[1..]);
      WordsOfSeparated(words[1..], runs[1..]);
      CharsOfRun(runs[0]);
      assert runs[0][0] in runs[0];
      CharsOfWord(words[1]);
      assert words[1][0] in words[1];
      hide IsSeparator, Words, DropSeparators, IsRun, IsPlainWord;
      RunIsDropped(runs[0], more);
      WordAtFirst(words[0], runs[0] + more);
      assert words == [words[0]] + words[1..];
    }
  }

  // ---------- No humps ----------

  ghost predicate NoHumpIn(s: string) {
    forall i :: 0 <= i < |s| - 1 ==> !(IsLower(s[i]) && IsUpper(s[i + 1]))
  }

  lemma {:induction false} NothingToSplit(s: string)
    requires NoHumpIn(s)
    ensures SplitHumps(s) == s
  {
    if |s| >= 2 {
      assert !(IsLower(s[0]) && IsUpper(s[0 + 1]));
      forall i | 0 <= i < |s[1..]| - 1 ensures !(IsLower(s[1..][i]) && IsUpper(s[1..][i + 1])) {
        assert s[1..][i] == s[i + 1] && s[1..][i + 1] == s[i + 1 + 1];
      }
      NothingToSplit(s[1..]);
    }
  }

  lemma NoHumpBetween(a: string, b: string)
    requires NoHumpIn(a) && NoHumpIn(b)
    requires a != "" && b != "" ==> !IsLower(a[|a| - 1]) || !IsUpper(b[0])
    ensures NoHumpIn(a + b)
  {
    var s := a + b;
    forall i | 0 <= i < |s| - 1 ensures !(IsLower(s[i]) && IsUpper(s[i + 1])) {
      if i < |a| - 1 {
        assert s[i] == a[i] && s[i + 1] == a[i + 1];
      } else if i >= |a| {
        assert s[i] == b[i - |a|] && s[i + 1] == b[i - |a| + 1];
      }
    }
  }

  lemma NoHumpInRun(run: string)
    requires IsRun(run)
    ensures NoHumpIn(run) && !IsLower(run[|run| - 1]) && !IsUpper(run[0])
  {
    assert forall i :: 0 <= i < |run| ==> run[i] in run;
  }

  lemma {:induction false} NoHumpInSeparated(words: seq<string>, runs: seq<string>)
    requires PlainWords(words, runs)
    ensures NoHumpIn(Separated(words, runs))
  {
    assert NoHumpIn(words[0]);
    if |words| > 1 {
      var more := Separated(words[1..], runs[1..]);
      NoHumpInSeparated(words[1..], runs[1..]);
      NoHumpInRun(runs[0]);
      assert runs[0] != "";
      hide NoHumpIn, IsRun, IsPlainWord;
      NoHumpBetween(runs[0], more);
      NoHumpBetween(words[0], runs[0] + more);
    }
  }

  // ---------- Capitals ----------

  lemma {:induction false} LowerIsLowered(s: string)
    ensures Lower(s) == Lowered(s)
  {
    if s != "" {
      LowerIsLowered(s[1..]);
      assert Lowered(s) == [LowerLetter(s[0])] + Lowered(s[1..]);
    }
  }

  lemma {:induction false} CapitalsAreCapitalised(words: seq<string>)
    ensures Capitals(words) == CapitalisedAll(words)
  {
    if words != [] {
      if words[0] != "" { LowerIsLowered(words[0][1..]); }
      CapitalsAreCapitalised(words[1..]);
    }
  }

  /** However the words are separated, and whatever their case, Pascal case is the capitalised words, and camel case
      is the first word in lower case and the other words capitalised. */
  lemma SeparatedWordsAreCapitalised(words: seq<string>, runs: seq<string>)
    requires PlainWords(words, runs)
    ensures ToPascalCase(Separated(words, runs)) == CapitalisedAll(words)
    ensures CamelCase(Separated(words, runs)) == Lowered(words[0]) + CapitalisedAll(words[1..])
  {
    WordsOfSeparated(words, runs);
    NoHumpInSeparated(words, runs);
    NothingToSplit(Separated(words, runs));
    CapitalsAreCapitalised(words);
    CapitalsAreCapitalised(words[1..]);
    LowerIsLowered(words[0]);
    hide Words, Separated, Capitals, CapitalisedAll, Lower, Lowered, SplitHumps;
  }

  // ---------- Snake case of any text ----------

  /** The text without its underscores. */
  function Bare(s: string): string {
    if s == "" then "" else (if s[0] == '_' then "" else [s[0]]) + Bare(s[1..])
  }

  lemma {:induction false} BareConcat(a: string, b: string)
    ensures Bare(a + b) == Bare(a) + Bare(b)
  {
    if a == "" {
      assert a + b == b;
    } else {
      assert (a + b)[1..] == a[1..] + b;
      BareConcat(a[1..], b);
      Associate(if a[0] == '_' then "" else [a[0]], Bare(a[1..]), Bare(b));
    }
  }

  lemma BareOne(c: char, s: string)
    ensures Bare([c] + s) == (if c == '_' then "" else [c]) + Bare(s)
    ensures Bare(['_', c] + s) == Bare([c] + s)
  {
    assert ([c] + s)[1..] == s;
    assert (['_', c] + s)[1..] == [c] + s;
    assert "" + Bare([c] + s) == Bare([c] + s);
  }

  lemma BareMark(c: char, d: char, s: string)
    requires c != '_'
    ensures Bare([c, '_', d] + s) == [c] + Bare([d] + s)
  {
    assert [c, '_', d] + s == [c] + (['_', d] + s);
    BareOne(c, ['_', d] + s);
    BareOne(d, s);
  }

  lemma BareTwo(s: string)
    requires |s| >= 2 && s[0] != '_'
    ensures Bare(s) == [s[0]] + Bare([s[1]] + s[2..])
  {
    assert s[1..] == [s[1]] + s[2..];
  }

  lemma {:induction false} HumpsAreBare(s: string)
    ensures Bare(SplitHumps(s)) == Bare(s)
    decreases |s|
  {
    if |s| >= 2 {
      if IsLower(s[0]) && IsUpper(s[1]) {
        HumpsAreBare(s[2..]);
        BareMark(s[0], s[1], SplitHumps(s[2..]));
        BareTwo(s);
        BareOne(s[1], s[2..]);
        BareOne(s[1], SplitHumps(s[2..]));
      } else {
        HumpsAreBare(s[1..]);
        BareOne(s[0], SplitHumps(s[1..]));
      }
    }
  }

  lemma {:induction false} DigitsAreBare(s: string)
    ensures Bare(SplitDigits(s)) == Bare(s)
    decreases |s|
  {
    if |s| >= 2 {
      if IsDigit(s[0]) && IsUpper(s[1]) {
        DigitsAreBare(s[2..]);
        BareMark(s[0], s[1], SplitDigits(s[2..]));
        BareTwo(s);
        BareOne(s[1], s[2..]);
        BareOne(s[1], SplitDigits(s[2..]));
      } else {
        DigitsAreBare(s[1..]);
        BareOne(s[0], SplitDigits(s[1..]));
      }
    }
  }

  lemma {:induction false} MarksAreBare(s: string)
    ensures Bare(MarkCapitals(s)) == Bare(s)
  {
    if s != "" {
      MarksAreBare(s[1..]);
      BareOne(s[0], MarkCapitals(s[1..]));
      assert IsUpper(s[0]) ==> MarkCapitals(s) == ['_', s[0]] + MarkCapitals(s[1..]);
    }
  }

  lemma {:induction false} LowerOfBare(s: string)
    ensures Bare(Lower(s)) == Lowered(Bare(s))
  {
    if s != "" {
      LowerOfBare(s[1..]);
      BareOne(LowerChar(s[0]), Lower(s[1..]));
      LoweredConcat(if s[0] == '_' then "" else [s[0]], Bare(s[1..]));
    }
  }

  lemma LoweredConcat(a: string, b: string)
    ensures Lowered(a + b) == Lowered(a) + Lowered(b)
  {
  }

  lemma {:induction false} DroppedIsBare(s: string)
    ensures Bare(DropUnderscores(s)) == Bare(s)
    ensures DropUnderscores(s) != "" ==> DropUnderscores(s)[0] != '_'
  {
    if s != "" && s[0] == '_' {
      DroppedIsBare(s[1..]);
      assert "" + Bare(s[1..]) == Bare(s[1..]);
    }
  }

  ghost predicate NoDoubles(s: string) { forall i :: 0 <= i < |s| - 1 ==> !(s[i] == '_' && s[i + 1] == '_') }

  lemma NoDoublesBehind(c: char, s: string)
    requires NoDoubles(s) && (s != "" ==> c != '_' || s[0] != '_')
    ensures NoDoubles([c] + s)
  {
    var t := [c] + s;
    forall i | 0 <= i < |t| - 1 ensures !(t[i] == '_' && t[i + 1] == '_') {
      if i > 0 { assert t[i] == s[i - 1] && t[i + 1] == s[i - 1 + 1]; }
    }
  }

  lemma {:induction false} CollapsedIsBare(s: string)
    ensures Bare(Collapse(s)) == Bare(s) && NoDoubles(Collapse(s))
    ensures s != "" ==> Collapse(s) != "" && Collapse(s)[0] == s[0]
    decreases |s|
  {
    if s != "" {
      var rest := if s[0] == '_' then DropUnderscores(s) else s[1..];
      DroppedIsBare(s);
      CollapsedIsBare(rest);
      BareOne(s[0], Collapse(rest));
      hide NoDoubles;
      if s[0] == '_' {
        assert Collapse(s) == ['_'] + Collapse(rest);
        assert "" + Bare(rest) == Bare(rest);
        NoDoublesBehind('_', Collapse(rest));
      } else {
        NoDoublesBehind(s[0], Collapse(rest));
      }
    }
  }

  /** For any ASCII text at all: apart from underscores, snake case is the text in lower case, and no two
      underscores stand together. */
  lemma SnakeKeepsEverythingElse(s: string)
    requires CaseConvert.IsAscii(s)
    ensures Bare(ToSnakeCase(s)) == Lowered(Bare(s)) && NoDoubles(ToSnakeCase(s))
  {
    var a := SplitHumps(s);
    var b := MarkCapitals(a);
    var c := SplitDigits(b);
    var d := Lower(c);
    HumpsAreBare(s);
    MarksAreBare(a);
    DigitsAreBare(b);
    LowerOfBare(c);
    assert Bare(DropLeading(d)) == Bare(d) by { assert d != "" && d[0] == '_' ==> "" + Bare(d[1..]) == Bare(d[1..]); }
    CollapsedIsBare(DropLeading(d));
  }
}
