/** The case converters of src/common/index.ts: chains of regular-expression passes, and exactly which
    strings survive a conversion there and back.  Letters are the ASCII letters. */
module CaseConvert {
  import opened Text

  ghost predicate IsAscii(s: string) {
    forall i :: 0 <= i < |s| ==> s[i] < '\U{0080}'
  }

  function LowerChar(c: char): char { if IsUpper(c) then 'a' + (c - 'A') else c }
  function UpperChar(c: char): char { if IsLower(c) then 'A' + (c - 'a') else c }

  function Lower(s: string): (r: string)
    ensures |r| == |s|
  {
    if s == "" then "" else [LowerChar(s[0])] + Lower(s[1..])
  }

  // ---------- The passes ----------

  /** `replaceAll(/([a-z])([A-Z])/g, '$1_$2')` */
  function SplitHumps(s: string): string {
    if |s| < 2 then s
    else if IsLower(s[0]) && IsUpper(s[1]) then [s[0], '_', s[1]] + SplitHumps(s[2..])
    else [s[0]] + SplitHumps(s[1..])
  }

  /** `replaceAll(/([A-Z])/g, '_$1')` */
  function MarkCapitals(s: string): string {
    if s == "" then ""
    else (if IsUpper(s[0]) then ['_', s[0]] else [s[0]]) + MarkCapitals(s[1..])
  }

  /** `replaceAll(/(\d)([A-Z])/g, '$1_$2')` */
  function SplitDigits(s: string): string {
    if |s| < 2 then s
    else if IsDigit(s[0]) && IsUpper(s[1]) then [s[0], '_', s[1]] + SplitDigits(s[2..])
    else [s[0]] + SplitDigits(s[1..])
  }

  /** `replace(/^_/, '')` */
  function DropLeading(s: string): string {
    if s != "" && s[0] == '_' then s[1..] else s
  }

  function DropUnderscores(s: string): (r: string)
    ensures |r| <= |s|
    ensures s != "" && s[0] == '_' ==> |r| < |s|
  {
    if s != "" && s[0] == '_' then DropUnderscores(s[1..]) else s
  }

  /** `replaceAll(/__+/g, '_')` */
  function Collapse(s: string): string
    decreases |s|
  {
    if s == "" then ""
    else if s[0] == '_' then "_" + Collapse(DropUnderscores(s))
    else [s[0]] + Collapse(s[1..])
  }

  predicate IsSeparator(c: char) { IsSpace(c) || c == '_' || c == '-' }

  function DropSeparators(s: string): (r: string)
    ensures |r| <= |s|
    ensures s != "" && IsSeparator(s[0]) ==> |r| < |s|
  {
    if s != "" && IsSeparator(s[0]) then DropSeparators(s[1..]) else s
  }

  /** `split(/[\s_-]+/)`: a leading or trailing run of separators leaves an empty word. */
  function Words(s: string): (r: seq<string>)
    ensures r != []
    decreases |s|
  {
    if s == "" then [""]
    else if IsSeparator(s[0]) then [""] + Words(DropSeparators(s))
    else
      var rest := Words(s[1..]);
      [[s[0]] + rest[0]] + rest[1..]
  }

  /** `charAt(0).toUpperCase() + slice(1).toLowerCase()` */
  function Capital(word: string): string {
    if word == "" then "" else [UpperChar(word[0])] + Lower(word[1..])
  }

  function Capitals(words: seq<string>): string {
    if words == [] then "" else Capital(words[0]) + Capitals(words[1..])
  }

  function ToSnakeCase(s: string): string {
    Collapse(DropLeading(Lower(SplitDigits(MarkCapitals(SplitHumps(s))))))
  }

  function ToPascalCase(s: string): string {
    Capitals(Words(SplitHumps(s)))
  }

  function CamelCase(s: string): string {
    var words := Words(SplitHumps(s));
    Lower(words[0]) + Capitals(words[1..])
  }

  // ---------- The forms ----------

  /** No capital, space or hyphen; every underscore stands inside, before a small letter.  Every string
      of words [a-z][a-z0-9]* joined by single underscores is of this form. */
  predicate IsSnake(s: string) {
    && (s != "" ==> s[0] != '_')
    && IsSnakeTail(s)
  }

  predicate IsSnakeTail(s: string) {
    s != "" ==>
      && !IsUpper(s[0]) && (IsSeparator(s[0]) ==> s[0] == '_')
      && (s[0] == '_' ==> |s| > 1 && IsLower(s[1]))
      && IsSnakeTail(s[1..])
  }

  /** A word as it stands in an identifier: a small letter, then small letters and digits. */
  ghost predicate IsWord(w: string) {
    w != "" && IsLower(w[0]) && forall i :: 0 <= i < |w| ==> IsLower(w[i]) || IsDigit(w[i])
  }

  lemma {:induction false} WordBeforeTail(w: string, rest: string)
    requires forall i :: 0 <= i < |w| ==> IsLower(w[i]) || IsDigit(w[i])
    requires IsSnakeTail(rest)
    ensures IsSnakeTail(w + rest)
  {
    if w == "" {
      assert w + rest == rest;
    } else {
      assert (w + rest)[1..] == w[1..] + rest;
      WordBeforeTail(w[1..], rest);
    }
  }

  /** Any number of words joined by underscores are in snake form. */
  lemma {:induction false} JoinedWordsAreSnake(words: seq<string>)
    requires words != [] && forall i :: 0 <= i < |words| ==> IsWord(words[i])
    ensures IsSnake(Join(words, "_")) && Join(words, "_") != "" && IsLower(Join(words, "_")[0])
  {
    var w := words[0];
    if |words| == 1 {
      WordBeforeTail(w, "");
      assert w + "" == w;
    } else {
      JoinedWordsAreSnake(words[1..]);
      var rest := Join(words[1..], "_");
      assert ("_" + rest)[1..] == rest;
      WordBeforeTail(w, "_" + rest);
      assert Join(words, "_") == w + ("_" + rest);
    }
  }

  ghost predicate NoSeparators(s: string) {
    forall i :: 0 <= i < |s| ==> !IsSeparator(s[i])
  }

  // ---------- One pass instead of six ----------

  /** Every capital becomes an underscore and a small letter. */
  function Unhump(s: string): string {
    if s == "" then ""
    else (if IsUpper(s[0]) then ['_', LowerChar(s[0])] else [s[0]]) + Unhump(s[1..])
  }

  function DirectSnake(s: string): string {
    if s == "" then "" else [LowerChar(s[0])] + Unhump(s[1..])
  }

  /** The first passes together, character by character: a small letter before a capital is followed by
      one underscore, and the capital preceded by another. */
  function Marked(s: string): string {
    if s == "" then ""
    else
      (if IsUpper(s[0]) then ['_', LowerChar(s[0])] else [s[0]])
      + (if IsLower(s[0]) && |s| > 1 && IsUpper(s[1]) then "_" else "")
      + Marked(s[1..])
  }

  lemma {:induction false} LowerConcat(a: string, b: string)
    ensures Lower(a + b) == Lower(a) + Lower(b)
  {
    if a == "" {
      assert a + b == b;
    } else {
      assert (a + b)[1..] == a[1..] + b;
      LowerConcat(a[1..], b);
    }
  }

  lemma {:induction false} HumpsOneByOne(s: string)
    ensures s != "" ==>
      SplitHumps(s) == [s[0]] + (if IsLower(s[0]) && |s| > 1 && IsUpper(s[1]) then "_" else "") + SplitHumps(s[1..])
  {
    if |s| >= 2 && IsLower(s[0]) && IsUpper(s[1]) {
      HumpsOneByOne(s[1..]);
      assert s[1..][1..] == s[2..];
    }
  }

  lemma MarkCapitalsCons(c: char, s: string)
    ensures MarkCapitals([c] + s) == (if IsUpper(c) then ['_', c] else [c]) + MarkCapitals(s)
  {
    assert ([c] + s)[1..] == s;
  }

  lemma MarkedHead(c: char, rest: string)
    ensures Lower(MarkCapitals([c] + rest))
            == (if IsUpper(c) then ['_', LowerChar(c)] else [c]) + Lower(MarkCapitals(rest))
  {
    MarkCapitalsCons(c, rest);
    LowerConcat(if IsUpper(c) then ['_', c] else [c], MarkCapitals(rest));
    LowerOfHead(c);
  }

  lemma LowerOfHead(c: char)
    ensures Lower(if IsUpper(c) then ['_', c] else [c]) == if IsUpper(c) then ['_', LowerChar(c)] else [c]
  {
    assert Lower([c]) == [LowerChar(c)];
    LowerConcat(['_'], [c]);
    assert ['_'] + [c] == ['_', c];
  }

  lemma {:induction false} MarkedIsThePasses(s: string)
    ensures Lower(MarkCapitals(SplitHumps(s))) == Marked(s)
  {
    if s != "" {
      MarkedIsThePasses(s[1..]);
      HumpsOneByOne(s);
      var rest := SplitHumps(s[1..]);
      hide SplitHumps, MarkCapitals, Lower;
      if IsLower(s[0]) && |s| > 1 && IsUpper(s[1]) {
        Associate([s[0]], "_", rest);
        MarkedHead(s[0], "_" + rest);
        MarkedHead('_', rest);
      } else {
        assert [s[0]] + "" + rest == [s[0]] + rest;
        MarkedHead(s[0], rest);
      }
    }
  }

  ghost predicate CapitalsAreMarked(s: string) {
    forall i :: 0 <= i < |s| && IsUpper(s[i]) ==> i > 0 && s[i - 1] == '_'
  }

  lemma {:induction false} MarkingMarks(s: string)
    ensures CapitalsAreMarked(MarkCapitals(s))
  {
    if s != "" {
      MarkingMarks(s[1..]);
      var head := if IsUpper(s[0]) then ['_', s[0]] else [s[0]];
      var m, rest := MarkCapitals(s), MarkCapitals(s[1..]);
      forall i | 0 <= i < |m| && IsUpper(m[i]) ensures i > 0 && m[i - 1] == '_' {
        if i >= |head| {
          assert m[i] == rest[i - |head|];
          assert m[i - 1] == rest[i - |head| - 1];
        }
      }
    }
  }

  lemma {:induction false} NoDigitBeforeCapital(s: string)
    requires forall i :: 0 < i < |s| && IsUpper(s[i]) ==> s[i - 1] == '_'
    ensures SplitDigits(s) == s
  {
    if |s| >= 2 {
      assert IsUpper(s[1]) ==> s[0] == '_';
      forall i | 0 < i < |s[1..]| && IsUpper(s[1..][i]) ensures s[1..][i - 1] == '_' {
        assert IsUpper(s[i + 1]) && s[i + 1 - 1] == '_';
      }
      NoDigitBeforeCapital(s[1..]);
    }
  }

  /** The digit pass never changes anything: the pass before it has already marked every capital. */
  lemma {:induction false} DigitPassIsIdle(s: string)
    ensures SplitDigits(MarkCapitals(s)) == MarkCapitals(s)
  {
    MarkingMarks(s);
    NoDigitBeforeCapital(MarkCapitals(s));
  }

  lemma CollapseDoubled(t: string)
    requires t != "" && t[0] == '_'
    ensures Collapse("_" + t) == Collapse(t)
  {
    assert ("_" + t)[1..] == t;
  }

  lemma CollapseCons(c: char, t: string)
    requires c != '_'
    ensures Collapse([c] + t) == [c] + Collapse(t)
  {
    assert ([c] + t)[1..] == t;
  }

  lemma CollapseMark(c: char, t: string)
    requires c != '_'
    ensures Collapse(['_', c] + t) == ['_', c] + Collapse(t)
  {
    var s := ['_', c] + t;
    assert s[1..] == [c] + t;
    assert DropUnderscores(s) == [c] + t;
    CollapseCons(c, t);
  }

  /** A hump before a capital: its two underscores are the only run. */
  lemma MarkedHump(s: string)
    requires |s| > 1 && IsLower(s[0]) && IsUpper(s[1])
    ensures Marked(s) == [s[0]] + ("_" + Marked(s[1..])) && Marked(s[1..]) != "" && Marked(s[1..])[0] == '_'
  {
    assert Marked(s[1..]) == ['_', LowerChar(s[1])] + "" + Marked(s[1..][1..]);
    Associate([s[0]], "_", Marked(s[1..]));
  }

  lemma MarkedCapital(s: string)
    requires s != "" && IsUpper(s[0])
    ensures Marked(s) == ['_', LowerChar(s[0])] + Marked(s[1..])
  {
    assert ['_', LowerChar(s[0])] + "" == ['_', LowerChar(s[0])];
  }

  lemma MarkedPlain(s: string)
    requires s != "" && !IsUpper(s[0]) && !(IsLower(s[0]) && |s| > 1 && IsUpper(s[1]))
    ensures Marked(s) == [s[0]] + Marked(s[1..])
  {
    assert [s[0]] + "" == [s[0]];
  }

  /** The doubled underscores of a hump are the only runs, and collapsing makes them single. */
  lemma {:induction false} CollapseMarked(s: string)
    requires NoSeparators(s)
    ensures Collapse(Marked(s)) == Unhump(s)
  {
    if s != "" {
      CollapseMarked(s[1..]);
      assert s[0] != '_' by { assert !IsSeparator(s[0]); }
      hide Collapse, NoSeparators, IsSeparator, Marked;
      if IsUpper(s[0]) {
        MarkedCapital(s);
        CollapseMark(LowerChar(s[0]), Marked(s[1..]));
      } else if IsLower(s[0]) && |s| > 1 && IsUpper(s[1]) {
        MarkedHump(s);
        CollapseCons(s[0], "_" + Marked(s[1..]));
        CollapseDoubled(Marked(s[1..]));
      } else {
        MarkedPlain(s);
        CollapseCons(s[0], Marked(s[1..]));
      }
    }
  }

  /** On a string without separators the six passes are one. */
  lemma SnakeInOnePass(s: string)
    requires IsAscii(s) && NoSeparators(s)
    ensures ToSnakeCase(s) == DirectSnake(s)
  {
    DigitPassIsIdle(SplitHumps(s));
    MarkedIsThePasses(s);
    CollapseMarked(s);
    if s != "" {
      assert !IsSeparator(s[0]);
      var rest := Marked(s[1..]);
      CollapseMarked(s[1..]);
      if IsUpper(s[0]) {
        assert Marked(s) == ['_', LowerChar(s[0])] + rest;
        assert DropLeading(Marked(s)) == [LowerChar(s[0])] + rest;
        CollapseCons(LowerChar(s[0]), rest);
      } else {
        assert Marked(s)[0] == s[0];
        assert Unhump(s) == [s[0]] + Unhump(s[1..]);
      }
    }
  }

  // ---------- Snake form, read back ----------

  /** Every underscore and the letter behind it become a capital. */
  function Hump(s: string): string {
    if s == "" then ""
    else if s[0] == '_' && |s| > 1 then [UpperChar(s[1])] + Hump(s[2..])
    else [s[0]] + Hump(s[1..])
  }

  lemma {:induction false} SnakeHasNoCapitals(s: string)
    requires IsSnakeTail(s)
    ensures forall i :: 0 <= i < |s| ==> !IsUpper(s[i])
  {
    if s != "" { SnakeHasNoCapitals(s[1..]); }
  }

  lemma {:induction false} NoHumps(s: string)
    requires forall i :: 0 <= i < |s| ==> !IsUpper(s[i])
    ensures SplitHumps(s) == s && Lower(s) == s
  {
    if s != "" { NoHumps(s[1..]); }
  }

  /** The words, with all but the first capitalised, spell this text; the first has no capitals. */
  ghost predicate Spells(words: seq<string>, text: string) {
    && words != []
    && (forall i :: 0 <= i < |words[0]| ==> !IsUpper(words[0][i]))
    && words[0] + Capitals(words[1..]) == text
  }

  lemma LongerFirstWord(c: char, words: seq<string>, text: string)
    requires !IsUpper(c) && Spells(words, text)
    ensures Spells([[c] + words[0]] + words[1..], [c] + text)
  {
    var longer := [[c] + words[0]] + words[1..];
    assert longer[1..] == words[1..];
    assert [c] + words[0] + Capitals(words[1..]) == [c] + (words[0] + Capitals(words[1..]));
  }

  lemma EmptyFirstWord(c: char, words: seq<string>, text: string)
    requires Spells(words, [c] + text) && words[0] != ""
    ensures Spells([""] + words, [UpperChar(c)] + text)
  {
    var w, others := words[0], Capitals(words[1..]);
    BehindTheHead(w, others, c, text);
    NoHumps(w[1..]);
    assert Capital(w) == [UpperChar(c)] + w[1..];
    Associate([UpperChar(c)], w[1..], others);
    assert ([""] + words)[1..] == words;
    assert [""][0] + Capitals(words) == Capitals(words);
  }

  lemma BehindTheHead(w: string, others: string, c: char, text: string)
    requires w != "" && w + others == [c] + text
    ensures w[0] == c && w[1..] + others == text
  {
    assert w[0] == (w + others)[0] && (w + others)[1..] == w[1..] + others;
    assert ([c] + text)[1..] == text;
  }

  lemma {:induction false} WordsOfSnake(s: string)
    requires IsSnakeTail(s)
    ensures Spells(Words(s), Hump(s))
    ensures s != "" && s[0] != '_' ==> Words(s)[0] != ""
    decreases |s|
  {
    if s == "" {
      assert Words(s)[1..] == [];
    } else if s[0] == '_' {
      var rest := s[1..];
      assert rest[0] == s[1] && !IsSeparator(s[1]) && rest[1..] == s[2..];
      assert DropSeparators(s) == rest;
      WordsOfSnake(rest);
      assert Hump(rest) == [s[1]] + Hump(s[2..]);
      EmptyFirstWord(s[1], Words(rest), Hump(s[2..]));
    } else {
      WordsOfSnake(s[1..]);
      LongerFirstWord(s[0], Words(s[1..]), Hump(s[1..]));
    }
  }

  lemma PascalOfSnake(s: string)
    requires IsSnake(s)
    ensures ToPascalCase(s) == if s == "" then "" else [UpperChar(s[0])] + Hump(s[1..])
    ensures CamelCase(s) == if s == "" then "" else [s[0]] + Hump(s[1..])
  {
    SnakeHasNoCapitals(s);
    NoHumps(s);
    WordsOfSnake(s);
    var words := Words(s);
    NoHumps(words[0]);
    if s != "" {
      assert Hump(s) == [s[0]] + Hump(s[1..]);
      EmptyFirstWord(s[0], words, Hump(s[1..]));
      assert ([""] + words)[1..] == words && "" + Capitals(words) == Capitals(words);
    }
  }

  lemma UnhumpCons(c: char, rest: string)
    ensures Unhump([c] + rest) == (if IsUpper(c) then ['_', LowerChar(c)] else [c]) + Unhump(rest)
    ensures NoSeparators(rest) && !IsSeparator(c) ==> NoSeparators([c] + rest)
  {
    assert ([c] + rest)[1..] == rest;
  }

  lemma NoSeparatorIn(c: char)
    ensures IsLower(c) || IsUpper(c) || IsDigit(c) ==> !IsSeparator(c)
  {
  }

  lemma {:induction false} UnhumpOfHump(s: string)
    requires IsSnakeTail(s)
    ensures Unhump(Hump(s)) == s
    ensures NoSeparators(Hump(s))
    decreases |s|
  {
    if s != "" {
      if s[0] == '_' {
        assert s[1..][1..] == s[2..];
        UnhumpOfHump(s[2..]);
        UnhumpCons(UpperChar(s[1]), Hump(s[2..]));
        hide Unhump, NoSeparators;
        NoSeparatorIn(UpperChar(s[1]));
        hide IsSeparator;
        assert s == ['_', s[1]] + s[2..];
      } else {
        UnhumpOfHump(s[1..]);
        UnhumpCons(s[0], Hump(s[1..]));
        hide Unhump, NoSeparators;
        NoSeparatorIn(s[0]);
        hide IsSeparator;
        assert s == [s[0]] + s[1..];
      }
    }
  }

  lemma {:induction false} HumpOfUnhump(s: string)
    requires NoSeparators(s)
    ensures Hump(Unhump(s)) == s
    ensures IsSnakeTail(Unhump(s))
  {
    if s != "" {
      assert !IsSeparator(s[0]);
      HumpOfUnhump(s[1..]);
      assert s == [s[0]] + s[1..];
      if IsUpper(s[0]) {
        SnakeTailMark(LowerChar(s[0]), Unhump(s[1..]));
      } else {
        SnakeTailCons(s[0], Unhump(s[1..]));
      }
    }
  }

  lemma SnakeTailCons(c: char, rest: string)
    requires !IsUpper(c) && !IsSeparator(c) && IsSnakeTail(rest)
    ensures IsSnakeTail([c] + rest) && Hump([c] + rest) == [c] + Hump(rest)
  {
    assert ([c] + rest)[1..] == rest;
  }

  lemma SnakeTailMark(c: char, rest: string)
    requires IsLower(c) && IsSnakeTail(rest)
    ensures IsSnakeTail(['_', c] + rest) && Hump(['_', c] + rest) == [UpperChar(c)] + Hump(rest)
  {
    var s := ['_', c] + rest;
    assert s[1..] == [c] + rest && s[2..] == rest;
    SnakeTailCons(c, rest);
  }

  /** Converting a string without separators gives snake form. */
  lemma SnakeIsSnake(s: string)
    requires IsAscii(s) && NoSeparators(s)
    ensures IsSnake(ToSnakeCase(s))
  {
    SnakeInOnePass(s);
    if s != "" {
      assert !IsSeparator(s[0]);
      HumpOfUnhump(s[1..]);
      SnakeTailCons(LowerChar(s[0]), Unhump(s[1..]));
    }
  }

  // ---------- Capitalised words have no separators ----------

  lemma {:induction false} WordsHaveNoSeparators(s: string)
    ensures forall i :: 0 <= i < |Words(s)| ==> NoSeparators(Words(s)[i])
    decreases |s|
  {
    if s != "" {
      if IsSeparator(s[0]) {
        WordsHaveNoSeparators(DropSeparators(s));
      } else {
        WordsHaveNoSeparators(s[1..]);
        var rest := Words(s[1..]);
        assert Words(s)[0] == [s[0]] + rest[0];
        assert forall i :: 1 <= i < |Words(s)| ==> Words(s)[i] == rest[i];
      }
    }
  }

  lemma {:induction false} LowerHasNoSeparators(s: string)
    requires NoSeparators(s)
    ensures NoSeparators(Lower(s))
  {
    if s != "" {
      assert !IsSeparator(s[0]);
      LowerHasNoSeparators(s[1..]);
    }
  }

  lemma {:induction false} CapitalsHaveNoSeparators(words: seq<string>)
    requires forall i :: 0 <= i < |words| ==> NoSeparators(words[i])
    ensures NoSeparators(Capitals(words))
  {
    if words != [] {
      CapitalsHaveNoSeparators(words[1..]);
      var w := words[0];
      if w != "" {
        assert !IsSeparator(w[0]);
        LowerHasNoSeparators(w[1..]);
      }
    }
  }

  lemma ConvertedHasNoSeparators(s: string)
    ensures NoSeparators(ToPascalCase(s))
    ensures NoSeparators(CamelCase(s))
  {
    var words := Words(SplitHumps(s));
    WordsHaveNoSeparators(SplitHumps(s));
    CapitalsHaveNoSeparators(words);
    CapitalsHaveNoSeparators(words[1..]);
    LowerHasNoSeparators(words[0]);
  }

  // ---------- ASCII letters stay ASCII letters ----------

  lemma {:induction false} HumpsAreAscii(s: string)
    requires IsAscii(s)
    ensures IsAscii(SplitHumps(s))
    decreases |s|
  {
    if |s| >= 2 {
      if IsLower(s[0]) && IsUpper(s[1]) { HumpsAreAscii(s[2..]); } else { HumpsAreAscii(s[1..]); }
    }
  }

  lemma {:induction false} RestIsAscii(s: string)
    requires IsAscii(s)
    ensures IsAscii(DropSeparators(s))
  {
    if s != "" && IsSeparator(s[0]) { RestIsAscii(s[1..]); }
  }

  lemma {:induction false} WordsAreAscii(s: string)
    requires IsAscii(s)
    ensures forall i :: 0 <= i < |Words(s)| ==> IsAscii(Words(s)[i])
    decreases |s|
  {
    if s != "" {
      if IsSeparator(s[0]) {
        RestIsAscii(s);
        WordsAreAscii(DropSeparators(s));
      } else {
        WordsAreAscii(s[1..]);
        var rest := Words(s[1..]);
        assert Words(s)[0] == [s[0]] + rest[0];
        assert forall i :: 1 <= i < |Words(s)| ==> Words(s)[i] == rest[i];
      }
    }
  }

  lemma {:induction false} LowerIsAscii(s: string)
    requires IsAscii(s)
    ensures IsAscii(Lower(s))
  {
    if s != "" { LowerIsAscii(s[1..]); }
  }

  lemma {:induction false} CapitalsAreAscii(words: seq<string>)
    requires forall i :: 0 <= i < |words| ==> IsAscii(words[i])
    ensures IsAscii(Capitals(words))
  {
    if words != [] {
      CapitalsAreAscii(words[1..]);
      if words[0] != "" { LowerIsAscii(words[0][1..]); }
    }
  }

  lemma ConvertedIsAscii(s: string)
    requires IsAscii(s)
    ensures IsAscii(ToPascalCase(s)) && IsAscii(CamelCase(s))
  {
    var words := Words(SplitHumps(s));
    HumpsAreAscii(s);
    WordsAreAscii(SplitHumps(s));
    CapitalsAreAscii(words);
    CapitalsAreAscii(words[1..]);
    LowerIsAscii(words[0]);
  }

  // ---------- There and back ----------

  lemma HeadAndTail(c: char, rest: string)
    ensures ([c] + rest)[0] == c && ([c] + rest)[1..] == rest
  {
  }

  lemma SnakeSurvives(s: string)
    requires IsAscii(s) && IsSnake(s)
    ensures ToSnakeCase(ToPascalCase(s)) == s
    ensures ToSnakeCase(CamelCase(s)) == s
  {
    ConvertedHasNoSeparators(s);
    ConvertedIsAscii(s);
    PascalOfSnake(s);
    SnakeInOnePass(ToPascalCase(s));
    SnakeInOnePass(CamelCase(s));
    hide ToSnakeCase, ToPascalCase, CamelCase;
    if s != "" {
      assert IsSnakeTail(s[1..]);
      UnhumpOfHump(s[1..]);
      hide Hump, Unhump, IsSnake, NoSeparators;
      assert s == [s[0]] + s[1..];
      HeadAndTail(UpperChar(s[0]), Hump(s[1..]));
      HeadAndTail(s[0], Hump(s[1..]));
    }
  }

  /** From snake case and back: exactly the strings in snake form survive. */
  lemma SnakeSurvivesExactlyWhen(s: string)
    requires IsAscii(s)
    ensures ToSnakeCase(ToPascalCase(s)) == s <==> IsSnake(s)
    ensures ToSnakeCase(CamelCase(s)) == s <==> IsSnake(s)
  {
    ConvertedHasNoSeparators(s);
    ConvertedIsAscii(s);
    SnakeIsSnake(ToPascalCase(s));
    SnakeIsSnake(CamelCase(s));
    if IsSnake(s) { SnakeSurvives(s); }
  }

  lemma BackFromSnake(p: string)
    requires IsAscii(p) && NoSeparators(p)
    ensures ToPascalCase(ToSnakeCase(p)) == if p == "" then "" else [UpperChar(p[0])] + p[1..]
    ensures CamelCase(ToSnakeCase(p)) == if p == "" then "" else [LowerChar(p[0])] + p[1..]
  {
    SnakeIsSnake(p);
    SnakeInOnePass(p);
    PascalOfSnake(DirectSnake(p));
    hide *;
    if p != "" { BackFromDirectSnake(p); } else { NothingInSnake(); }
  }

  lemma NothingInSnake()
    ensures DirectSnake("") == ""
  {
  }

  lemma BackFromDirectSnake(p: string)
    requires NoSeparators(p) && p != ""
    ensures var s := DirectSnake(p);
            s != "" && Hump(s[1..]) == p[1..] && LowerChar(s[0]) == LowerChar(p[0]) && UpperChar(s[0]) == UpperChar(p[0])
            && s[0] == LowerChar(p[0])
  {
    HumpOfUnhump(p[1..]);
    assert DirectSnake(p)[1..] == Unhump(p[1..]);
  }

  lemma SameHead(c: char, p: string)
    requires p != ""
    ensures [c] + p[1..] == p <==> c == p[0]
  {
    assert p == [p[0]] + p[1..];
    assert ([c] + p[1..])[0] == c;
  }

  /** From Pascal case and back: exactly the strings survive that have no separator and do not start
      with a small letter. */
  lemma PascalSurvivesExactlyWhen(p: string)
    requires IsAscii(p)
    ensures ToPascalCase(ToSnakeCase(p)) == p
            <==> NoSeparators(p) && (p != "" ==> !IsLower(p[0]))
  {
    ConvertedHasNoSeparators(ToSnakeCase(p));
    hide ToSnakeCase, ToPascalCase, CamelCase, IsAscii, NoSeparators;
    if NoSeparators(p) {
      BackFromSnake(p);
      if p != "" { SameHead(UpperChar(p[0]), p); }
    }
  }

  /** From camel case and back: the same, for strings that do not start with a capital. */
  lemma CamelSurvivesExactlyWhen(p: string)
    requires IsAscii(p)
    ensures CamelCase(ToSnakeCase(p)) == p
            <==> NoSeparators(p) && (p != "" ==> !IsUpper(p[0]))
  {
    ConvertedHasNoSeparators(ToSnakeCase(p));
    hide ToSnakeCase, ToPascalCase, CamelCase, IsAscii, NoSeparators;
    if NoSeparators(p) {
      BackFromSnake(p);
      if p != "" { SameHead(LowerChar(p[0]), p); }
    }
  }
}
