/** The file-name normaliser of src/config/database.ts.

    `toLowerCase` is any function that treats ASCII text as it should; whatever it makes of other
    characters, the result below holds. */
module Basename {
  import opened Text

  const FALLBACK := "zintrust"

  predicate IsWordChar(c: char) { IsLower(c) || IsDigit(c) || c == '_' }

  function LowerAscii(s: string): string {
    if s == "" then "" else [if IsUpper(s[0]) then 'a' + (s[0] - 'A') else s[0]] + LowerAscii(s[1..])
  }

  ghost predicate IsAscii(s: string) {
    forall i :: 0 <= i < |s| ==> s[i] < '\U{0080}'
  }

  ghost predicate LowersAscii(lower: string -> string) {
    forall s :: IsAscii(s) ==> lower(s) == LowerAscii(s)
  }

  function SkipOther(s: string): (r: string)
    ensures |r| <= |s|
    ensures r != "" ==> IsWordChar(r[0]) || r[0] == '-'
    ensures s != "" && !IsWordChar(s[0]) && s[0] != '-' ==> |r| < |s|
  {
    if s != "" && !IsWordChar(s[0]) && s[0] != '-' then SkipOther(s[1..]) else s
  }

  /** `replaceAll(/[^a-z0-9_-]+/g, '-')` */
  function ReplaceOther(s: string): string
    decreases |s|
  {
    if s == "" then ""
    else if IsWordChar(s[0]) || s[0] == '-' then [s[0]] + ReplaceOther(s[1..])
    else "-" + ReplaceOther(SkipOther(s))
  }

  /** One hyphen for each run; `after` says that a hyphen has just been kept. */
  function Single(s: string, after: bool): string {
    if s == "" then ""
    else if s[0] == '-' then (if after then "" else "-") + Single(s[1..], true)
    else [s[0]] + Single(s[1..], false)
  }

  function StripStart(s: string): string {
    if s != "" && s[0] == '-' then StripStart(s[1..]) else s
  }

  function StripEnd(s: string): string {
    if s != "" && s[|s| - 1] == '-' then StripEnd(s[..|s| - 1]) else s
  }

  // ---------- What the result is ----------

  function WordLength(s: string): (n: nat)
    ensures n <= |s|
    ensures s != "" && IsWordChar(s[0]) ==> n > 0
    ensures forall i :: 0 <= i < n ==> IsWordChar(s[i])
    ensures n < |s| ==> !IsWordChar(s[n])
  {
    if s == "" || !IsWordChar(s[0]) then 0 else 1 + WordLength(s[1..])
  }

  /** The maximal runs of small letters, digits and underscores. */
  function Runs(s: string): seq<string>
    decreases |s|
  {
    if s == "" then []
    else if !IsWordChar(s[0]) then Runs(s[1..])
    else [s[..WordLength(s)]] + Runs(s[WordLength(s)..])
  }

  /** The runs of the lowered name, joined by hyphens. */
  function SafeBasename(raw: string, lower: string -> string): string {
    var runs := Runs(lower(Trim(raw)));
    if runs == [] then FALLBACK else Join(runs, "-")
  }

  method ToSafeDbBasename(raw: string, lower: string -> string) returns (result: string)
    requires LowersAscii(lower)
    ensures result == SafeBasename(raw, lower)
  {
    hide Trim, Runs, Join, ReplaceOther, Single, StripStart, StripEnd, Collapsing, OnlyHyphens;
    var trimmed := Trim(raw);
    if trimmed == "" {
      BlankIsFallback(raw, lower);
      return FALLBACK;
    }
    var collapsed := ReplaceOther(lower(trimmed));

    var normalized, prevHyphen := "", false;
    CollapsingStarts(collapsed);
    for i := 0 to |collapsed|
      invariant Collapsing(normalized, collapsed, i, prevHyphen)
    {
      var ch := collapsed[i];
      CollapsingStep(normalized, collapsed, i, prevHyphen);
      if ch == '-' {
        if !prevHyphen {
          normalized := normalized + [ch];
          prevHyphen := true;
        }
      } else {
        normalized := normalized + [ch];
        prevHyphen := false;
      }
    }
    CollapsingEnds(normalized, collapsed, prevHyphen);

    var start, end := 0, |normalized|;
    NoHyphens(normalized);
    while start < end && normalized[start] == '-'
      invariant start <= end
      invariant OnlyHyphens(normalized, 0, start)
    {
      HyphenBehind(normalized, 0, start);
      start := start + 1;
    }
    while end > start && normalized[end - 1] == '-'
      invariant start <= end <= |normalized|
      invariant OnlyHyphens(normalized, end, |normalized|)
    {
      HyphenInFront(normalized, end, |normalized|);
      end := end - 1;
    }
    Stripped(normalized, start, end);
    result := normalized[start..end];
    PassesJoinRuns(lower(trimmed));
    if result == "" { result := FALLBACK; }
  }

  // ---------- One turn of each loop ----------

  ghost predicate Collapsing(done: string, s: string, i: nat, after: bool) {
    i <= |s| && done + Single(s[i..], after) == Single(s, false)
  }

  lemma CollapsingStarts(s: string)
    ensures Collapsing("", s, 0, false)
  {
    assert s[0..] == s && "" + Single(s, false) == Single(s, false);
  }

  lemma CollapsingStep(done: string, s: string, i: nat, after: bool)
    requires i < |s| && Collapsing(done, s, i, after)
    ensures Collapsing(if s[i] == '-' && after then done else done + [s[i]], s, i + 1, s[i] == '-')
  {
    assert s[i..][1..] == s[i + 1..];
    var more := Single(s[i + 1..], s[i] == '-');
    Associate(done, [s[i]], more);
    if s[i] == '-' && after { assert "" + more == more; }
  }

  lemma CollapsingEnds(done: string, s: string, after: bool)
    requires Collapsing(done, s, |s|, after)
    ensures done == Single(s, false)
  {
  }

  ghost predicate OnlyHyphens(s: string, i: nat, j: nat) {
    i <= j <= |s| && forall k :: i <= k < j ==> s[k] == '-'
  }

  lemma NoHyphens(s: string)
    ensures OnlyHyphens(s, 0, 0) && OnlyHyphens(s, |s|, |s|)
  {
  }

  lemma HyphenBehind(s: string, i: nat, j: nat)
    requires OnlyHyphens(s, i, j) && j < |s| && s[j] == '-'
    ensures OnlyHyphens(s, i, j + 1)
  {
  }

  lemma HyphenInFront(s: string, i: nat, j: nat)
    requires OnlyHyphens(s, i, j) && 0 < i && s[i - 1] == '-'
    ensures OnlyHyphens(s, i - 1, j)
  {
  }

  lemma {:induction false} StrippedStart(s: string, start: nat)
    requires OnlyHyphens(s, 0, start) && (start < |s| ==> s[start] != '-')
    ensures StripStart(s) == s[start..]
  {
    if start > 0 { StrippedStart(s[1..], start - 1); }
  }

  lemma {:induction false} StrippedEnd(s: string, end: nat)
    requires OnlyHyphens(s, end, |s|) && (0 < end ==> s[end - 1] != '-')
    ensures StripEnd(s) == s[..end]
  {
    if end < |s| {
      StrippedEnd(s[..|s| - 1], end);
      assert s[..|s| - 1][..end] == s[..end];
    } else {
      assert s[..end] == s;
    }
  }

  lemma Stripped(s: string, start: nat, end: nat)
    requires OnlyHyphens(s, 0, start) && OnlyHyphens(s, end, |s|) && start <= end
    requires start < |s| ==> s[start] != '-'
    requires start < end ==> s[end - 1] != '-'
    ensures StripEnd(StripStart(s)) == s[start..end]
  {
    StrippedStart(s, start);
    hide StripStart, StripEnd;
    var t := s[start..];
    assert forall k :: 0 <= k < |t| ==> t[k] == s[start + k];
    assert end > start ==> t[end - start - 1] == s[end - 1];
    StrippedEnd(t, end - start);
    assert t[..end - start] == s[start..end];
  }

  lemma BlankIsFallback(raw: string, lower: string -> string)
    requires LowersAscii(lower) && Trim(raw) == ""
    ensures SafeBasename(raw, lower) == FALLBACK
  {
    assert IsAscii("");
    assert lower("") == LowerAscii("") == "";
  }

  // ---------- The passes join the runs ----------

  lemma {:induction false} SkipKeepsRuns(s: string)
    ensures Runs(SkipOther(s)) == Runs(s)
  {
    if s != "" && !IsWordChar(s[0]) && s[0] != '-' { SkipKeepsRuns(s[1..]); }
  }

  lemma {:induction false} WordLengthOf(w: string, rest: string)
    requires forall i :: 0 <= i < |w| ==> IsWordChar(w[i])
    requires rest != "" ==> !IsWordChar(rest[0])
    ensures WordLength(w + rest) == |w|
  {
    if w == "" {
      assert w + rest == rest;
    } else {
      assert (w + rest)[1..] == w[1..] + rest;
      WordLengthOf(w[1..], rest);
    }
  }

  lemma WordThenHyphen(w: string, rest: string)
    requires w != "" && (forall i :: 0 <= i < |w| ==> IsWordChar(w[i]))
    requires rest != "" ==> !IsWordChar(rest[0])
    ensures Runs(w + rest) == [w] + Runs(rest)
  {
    WordLengthOf(w, rest);
    assert (w + rest)[..|w|] == w && (w + rest)[|w|..] == rest;
  }

  lemma {:induction false} ReplaceWord(w: string, rest: string)
    requires forall i :: 0 <= i < |w| ==> IsWordChar(w[i])
    ensures ReplaceOther(w + rest) == w + ReplaceOther(rest)
    ensures Single(w + rest, false) == w + Single(rest, false)
  {
    if w == "" {
      assert w + rest == rest;
    } else {
      assert (w + rest)[1..] == w[1..] + rest;
      assert w[0] != '-';
      ReplaceWord(w[1..], rest);
    }
  }

  lemma {:induction false} ReplacingKeepsRuns(s: string)
    ensures Runs(ReplaceOther(s)) == Runs(s)
    ensures s != "" && !IsWordChar(s[0]) ==> ReplaceOther(s) != "" && ReplaceOther(s)[0] == '-'
    decreases |s|
  {
    if s != "" {
      if IsWordChar(s[0]) {
        var n := WordLength(s);
        var w, rest := s[..n], s[n..];
        assert s == w + rest;
        ReplaceWord(w, rest);
        ReplacingKeepsRuns(rest);
        WordThenHyphen(w, ReplaceOther(rest));
      } else if s[0] == '-' {
        ReplacingKeepsRuns(s[1..]);
        assert ReplaceOther(s)[1..] == ReplaceOther(s[1..]);
      } else {
        ReplacingKeepsRuns(SkipOther(s));
        SkipKeepsRuns(s);
        assert ReplaceOther(s)[1..] == ReplaceOther(SkipOther(s));
      }
    }
  }

  ghost predicate OnlyWordsAndHyphens(s: string) {
    forall i :: 0 <= i < |s| ==> IsWordChar(s[i]) || s[i] == '-'
  }

  lemma {:induction false} ReplacedIsClean(s: string)
    ensures OnlyWordsAndHyphens(ReplaceOther(s))
    decreases |s|
  {
    if s != "" {
      if IsWordChar(s[0]) || s[0] == '-' { ReplacedIsClean(s[1..]); } else { ReplacedIsClean(SkipOther(s)); }
    }
  }

  lemma {:induction false} StripEndBehind(a: string, b: string)
    requires StripEnd(b) != ""
    ensures StripEnd(a + b) == a + StripEnd(b)
  {
    assert (a + b)[|a + b| - 1] == b[|b| - 1];
    if b[|b| - 1] == '-' {
      assert (a + b)[..|a + b| - 1] == a + b[..|b| - 1];
      StripEndBehind(a, b[..|b| - 1]);
    }
  }

  lemma StripEndOfWord(w: string)
    requires w != "" && IsWordChar(w[|w| - 1])
    ensures StripEnd(w) == w && StripEnd(w + "-") == w
  {
    assert (w + "-")[..|w|] == w;
  }

  /** A name is a word, and then nothing or a hyphen and another name. */
  lemma FirstWord(t: string) returns (w: string, rest: string)
    requires t != "" && OnlyWordsAndHyphens(t) && t[0] != '-'
    ensures t == w + rest && w != "" && forall i :: 0 <= i < |w| ==> IsWordChar(w[i])
    ensures rest != "" ==> rest[0] == '-' && rest == "-" + rest[1..] && OnlyWordsAndHyphens(rest[1..])
    ensures Single(t, false) == Single(t, true) == w + Single(rest, false)
    ensures Runs(t) == [w] + Runs(rest)
    ensures rest != "" ==> Single(rest, false) == "-" + Single(rest[1..], true) && Runs(rest) == Runs(rest[1..])
  {
    assert IsWordChar(t[0]);
    var n := WordLength(t);
    w, rest := t[..n], t[n..];
    assert t == w + rest;
    if n < |t| {
      assert rest[0] == t[n] == '-';
      assert forall i :: 0 <= i < |rest[1..]| ==> rest[1..][i] == t[n + 1 + i];
    }
    ReplaceWord(w, rest);
  }

  lemma JoinBehind(w: string, runs: seq<string>)
    requires runs != []
    ensures Join([w] + runs, "-") == w + "-" + Join(runs, "-")
  {
    assert ([w] + runs)[1..] == runs;
  }

  /** With leading hyphens dropped, single hyphens remain between the runs and perhaps one at the end. */
  lemma {:induction false} SingleJoinsRuns(t: string)
    requires OnlyWordsAndHyphens(t)
    ensures Runs(t) == [] ==> Single(t, true) == ""
    ensures Runs(t) != [] ==> StripEnd(Single(t, true)) == Join(Runs(t), "-") != ""
    decreases |t|
  {
    if t != "" {
      if t[0] == '-' {
        SingleJoinsRuns(t[1..]);
        DropHyphen(t);
      } else {
        var w, rest := FirstWord(t);
        if rest != "" { SingleJoinsRuns(rest[1..]); }
        WordInFront(w, rest);
      }
    }
  }

  lemma DropHyphen(t: string)
    requires t != "" && t[0] == '-'
    ensures Runs(t) == Runs(t[1..]) && Single(t, true) == Single(t[1..], true)
  {
    assert "" + Single(t[1..], true) == Single(t[1..], true);
  }

  lemma WordInFront(w: string, rest: string)
    requires w != "" && IsWordChar(w[|w| - 1])
    requires rest != "" ==> Single(rest, false) == "-" + Single(rest[1..], true) && Runs(rest) == Runs(rest[1..])
    requires rest != "" && Runs(rest) == [] ==> Single(rest[1..], true) == ""
    requires rest != "" && Runs(rest) != [] ==> StripEnd(Single(rest[1..], true)) == Join(Runs(rest), "-") != ""
    ensures StripEnd(w + Single(rest, false)) == Join([w] + Runs(rest), "-") != ""
  {
    StripEndOfWord(w);
    if rest == "" {
      assert w + "" == w;
    } else {
      hide Single;
      var more := Single(rest[1..], true);
      if Runs(rest) == [] {
        assert "-" + more == "-";
      } else {
        Associate(w, "-", more);
        StripEndBehind(w + "-", more);
        JoinBehind(w, Runs(rest));
      }
    }
  }

  lemma {:induction false} StripStartOfSingle(t: string)
    requires OnlyWordsAndHyphens(t)
    ensures StripStart(Single(t, false)) == Single(t, true)
    ensures StripStart(Single(t, true)) == Single(t, true)
  {
    if t != "" && t[0] == '-' {
      StripStartOfSingle(t[1..]);
      assert ("-" + Single(t[1..], true))[1..] == Single(t[1..], true);
    }
  }

  lemma PassesJoinRuns(s: string)
    ensures var runs := Runs(s);
            StripEnd(StripStart(Single(ReplaceOther(s), false))) == if runs == [] then "" else Join(runs, "-")
    ensures Runs(s) != [] ==> Join(Runs(s), "-") != ""
  {
    ReplacedIsClean(s);
    ReplacingKeepsRuns(s);
    StripStartOfSingle(ReplaceOther(s));
    SingleJoinsRuns(ReplaceOther(s));
  }

  // ---------- Normal form ----------

  /** Not empty, over [a-z0-9_-], without a leading, trailing or doubled hyphen. */
  ghost predicate IsNormal(s: string) {
    && s != ""
    && (forall i :: 0 <= i < |s| ==> 'a' <= s[i] <= 'z' || '0' <= s[i] <= '9' || s[i] == '_' || s[i] == '-')
    && s[0] != '-' && s[|s| - 1] != '-'
    && forall i :: 0 <= i < |s| - 1 ==> !(s[i] == '-' && s[i + 1] == '-')
  }

  lemma {:induction false} RunsAreWords(s: string)
    ensures forall i :: 0 <= i < |Runs(s)| ==> Runs(s)[i] != "" && forall c :: c in Runs(s)[i] ==> IsWordChar(c)
    decreases |s|
  {
    if s != "" {
      if !IsWordChar(s[0]) { RunsAreWords(s[1..]); } else { RunsAreWords(s[WordLength(s)..]); }
    }
  }

  lemma {:induction false} JoinedRunsAreNormal(runs: seq<string>)
    requires runs != []
    requires forall i :: 0 <= i < |runs| ==> runs[i] != "" && forall c :: c in runs[i] ==> IsWordChar(c)
    ensures IsNormal(Join(runs, "-"))
  {
    var s := Join(runs, "-");
    var w := runs[0];
    assert forall i :: 0 <= i < |w| ==> w[i] in w;
    if |runs| > 1 {
      JoinedRunsAreNormal(runs[1..]);
      var rest := Join(runs[1..], "-");
      assert s == w + "-" + rest;
      forall i | 0 <= i < |s| - 1 ensures !(s[i] == '-' && s[i + 1] == '-') {
        if i > |w| { assert s[i] == rest[i - |w| - 1] && s[i + 1] == rest[i - |w|]; }
      }
    }
  }

  lemma TailIsNormal(w: string, tail: string)
    requires IsNormal(w + "-" + tail)
    ensures IsNormal(tail)
  {
    var s, n := w + "-" + tail, |w| + 1;
    assert s[n - 1] == '-' && s[n..] == tail;
    assert forall i :: 0 <= i < |tail| ==> tail[i] == s[n + i];
    forall i | 0 <= i < |tail| - 1 ensures !(tail[i] == '-' && tail[i + 1] == '-') {
      assert tail[i] == s[n + i] && tail[i + 1] == s[n + i + 1];
    }
  }

  lemma {:induction false} NormalIsItsRuns(s: string)
    requires IsNormal(s)
    ensures Join(Runs(s), "-") == s && Runs(s) != []
    decreases |s|
  {
    var w, rest := FirstWord(s);
    if rest == "" {
      assert w + "" == w;
    } else {
      Associate(w, "-", rest[1..]);
      TailIsNormal(w, rest[1..]);
      NormalIsItsRuns(rest[1..]);
      JoinBehind(w, Runs(rest));
    }
  }

  lemma {:induction false} LowerOfNormal(s: string)
    requires OnlyWordsAndHyphens(s)
    ensures LowerAscii(s) == s && IsAscii(s)
  {
    if s != "" {
      LowerOfNormal(s[1..]);
      assert s == [s[0]] + s[1..];
    }
  }

  /** The result is always in normal form; a name comes through unchanged exactly if it already was. */
  lemma ResultIsNormal(raw: string, lower: string -> string)
    requires LowersAscii(lower)
    ensures IsNormal(SafeBasename(raw, lower))
    ensures SafeBasename(raw, lower) == raw <==> IsNormal(raw)
    ensures SafeBasename(SafeBasename(raw, lower), lower) == SafeBasename(raw, lower)
  {
    AlwaysNormal(raw, lower);
    if IsNormal(raw) { NormalStays(raw, lower); }
    NormalStays(SafeBasename(raw, lower), lower);
  }

  lemma FallbackIsNormal()
    ensures IsNormal(FALLBACK)
  {
  }

  lemma AlwaysNormal(raw: string, lower: string -> string)
    ensures IsNormal(SafeBasename(raw, lower))
  {
    var t := lower(Trim(raw));
    RunsAreWords(t);
    assert SafeBasename(raw, lower) == if Runs(t) == [] then FALLBACK else Join(Runs(t), "-");
    if Runs(t) == [] { FallbackIsNormal(); } else { hide *; JoinedRunsAreNormal(Runs(t)); }
  }

  lemma NormalStays(s: string, lower: string -> string)
    requires LowersAscii(lower) && IsNormal(s)
    ensures SafeBasename(s, lower) == s
  {
    assert IsTrimmed(s);
    TrimIsIdle(s);
    LowerOfNormal(s);
    NormalIsItsRuns(s);
  }

  // ---------- Nothing else is lost ----------

  /** The small letters, digits and underscores of a text. */
  function WordChars(s: string): string {
    if s == "" then ""
    else (if 'a' <= s[0] <= 'z' || '0' <= s[0] <= '9' || s[0] == '_' then [s[0]] else "") + WordChars(s[1..])
  }

  function Together(words: seq<string>): string {
    if words == [] then "" else words[0] + Together(words[1..])
  }

  lemma {:induction false} WordCharsConcat(a: string, b: string)
    ensures WordChars(a + b) == WordChars(a) + WordChars(b)
  {
    if a == "" {
      assert a + b == b;
    } else {
      assert (a + b)[1..] == a[1..] + b;
      WordCharsConcat(a[1..], b);
      var head := if 'a' <= a[0] <= 'z' || '0' <= a[0] <= '9' || a[0] == '_' then [a[0]] else "";
      Associate(head, WordChars(a[1..]), WordChars(b));
    }
  }

  lemma {:induction false} WordCharsOfWord(w: string)
    requires forall i :: 0 <= i < |w| ==> IsWordChar(w[i])
    ensures WordChars(w) == w
  {
    if w != "" {
      WordCharsOfWord(w[1..]);
      assert w == [w[0]] + w[1..];
    }
  }

  lemma {:induction false} WordCharsOfRuns(s: string)
    ensures WordChars(s) == Together(Runs(s))
    decreases |s|
  {
    if s != "" {
      if !IsWordChar(s[0]) {
        WordCharsOfRuns(s[1..]);
        assert "" + WordChars(s[1..]) == WordChars(s[1..]);
      } else {
        var n := WordLength(s);
        WordCharsOfRuns(s[n..]);
        WordCharsOfWord(s[..n]);
        WordCharsConcat(s[..n], s[n..]);
        assert s == s[..n] + s[n..];
        assert Runs(s)[1..] == Runs(s[n..]);
      }
    }
  }

  lemma {:induction false} WordCharsOfJoin(runs: seq<string>)
    requires forall i :: 0 <= i < |runs| ==> forall c :: c in runs[i] ==> IsWordChar(c)
    ensures WordChars(Join(runs, "-")) == Together(runs)
  {
    if runs != [] {
      var w := runs[0];
      assert forall i :: 0 <= i < |w| ==> w[i] in w;
      WordCharsOfWord(w);
      WordCharsOfJoin(runs[1..]);
      if |runs| == 1 {
        assert w + "" == w;
      } else {
        hide IsWordChar;
        var more := Join(runs[1..], "-");
        assert w + "-" + more == w + ("-" + more);
        WordCharsConcat(w, "-" + more);
        HyphenIsNoWordChar(more);
      }
    }
  }

  lemma HyphenIsNoWordChar(more: string)
    ensures WordChars("-" + more) == WordChars(more)
  {
    assert ("-" + more)[1..] == more && "" + WordChars(more) == WordChars(more);
  }

  /** The result has exactly the small letters, digits and underscores of the lowered name, in their order; a name
      without any becomes "zintrust". */
  lemma WordCharsAreKept(raw: string, lower: string -> string)
    ensures var kept := WordChars(lower(Trim(raw)));
            if kept == "" then SafeBasename(raw, lower) == "zintrust"
            else WordChars(SafeBasename(raw, lower)) == kept
  {
    var s := lower(Trim(raw));
    WordCharsOfRuns(s);
    RunsAreWords(s);
    NoRunsExactlyWhen(Runs(s));
    WordCharsOfJoin(Runs(s));
    assert SafeBasename(raw, lower) == if Runs(s) == [] then FALLBACK else Join(Runs(s), "-");
    hide Runs, Join, Together, WordChars;
  }

  lemma NoRunsExactlyWhen(runs: seq<string>)
    requires forall i :: 0 <= i < |runs| ==> runs[i] != ""
    ensures Together(runs) == "" <==> runs == []
  {
  }
}
