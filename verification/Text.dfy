/** Strings as the JavaScript sources use them: code-unit order, decimal numerals, white space. */
module Text {
  datatype Option<+T> = None | Some(value: T)

  predicate IsDigit(c: char) { '0' <= c <= '9' }
  predicate IsLower(c: char) { 'a' <= c <= 'z' }
  predicate IsUpper(c: char) { 'A' <= c <= 'Z' }

  ghost predicate AllDigits(s: string) {
    forall i :: 0 <= i < |s| ==> IsDigit(s[i])
  }

  predicate AreDigits(s: string)
    ensures AreDigits(s) <==> AllDigits(s)
  {
    forall i | 0 <= i < |s| :: IsDigit(s[i])
  }

  predicate EndsWith(s: string, tail: string) {
    |tail| <= |s| && s[|s| - |tail|..] == tail
  }

  predicate StartsWith(s: string, head: string) {
    |head| <= |s| && s[..|head|] == head
  }

  lemma DiffersAt(s: string, head: string, i: nat)
    requires i < |s| && i < |head| && s[i] != head[i]
    ensures !StartsWith(s, head)
  {
    if |head| <= |s| { assert s[..|head|][i] == s[i]; }
  }

  lemma StartsBehind(front: string, s: string, head: string)
    ensures StartsWith(front + s, front + head) <==> StartsWith(s, head)
  {
    if |head| <= |s| {
      assert (front + s)[..|front + head|] == front + s[..|head|];
      assert (front + s[..|head|])[|front|..] == s[..|head|];
      assert (front + head)[|front|..] == head;
    }
  }

  predicate Contains(s: string, part: string) {
    StartsWith(s, part) || (s != [] && Contains(s[1..], part))
  }

  /** What `trim` removes and what `\s` matches (WhiteSpace and LineTerminator of ECMA-262). */
  predicate IsSpace(c: char) {
    || c == ' ' || '\t' <= c <= '\r'
    || c == '\U{00A0}' || c == '\U{1680}' || '\U{2000}' <= c <= '\U{200A}'
    || c == '\U{2028}' || c == '\U{2029}' || c == '\U{202F}' || c == '\U{205F}'
    || c == '\U{3000}' || c == '\U{FEFF}'
  }

  function TrimStart(s: string): (r: string)
    ensures |r| <= |s| && r == s[|s| - |r|..]
    ensures r != "" ==> !IsSpace(r[0])
  {
    if s != "" && IsSpace(s[0]) then TrimStart(s[1..]) else s
  }

  function TrimEnd(s: string): (r: string)
    ensures |r| <= |s| && r == s[..|r|]
    ensures r != "" ==> !IsSpace(r[|r| - 1])
  {
    if s != "" && IsSpace(s[|s| - 1]) then TrimEnd(s[..|s| - 1]) else s
  }

  function Trim(s: string): string { TrimEnd(TrimStart(s)) }

  /** The white space and line terminators of ECMA-262 (sections 12.2 and 12.3), one by one. */
  lemma SpacesAre(c: char)
    ensures IsSpace(c) <==> c in "\t\n\U{000B}\U{000C}\r \U{00A0}\U{1680}\U{2000}\U{2001}\U{2002}\U{2003}\U{2004}\U{2005}\U{2006}\U{2007}\U{2008}\U{2009}\U{200A}\U{2028}\U{2029}\U{202F}\U{205F}\U{3000}\U{FEFF}"
  {
  }

  lemma {:induction false} TrimStartOf(front: string, s: string)
    requires (forall c :: c in front ==> IsSpace(c)) && (s != "" ==> !IsSpace(s[0]))
    ensures TrimStart(front + s) == s
  {
    if front == "" {
      assert front + s == s;
    } else {
      assert (front + s)[1..] == front[1..] + s;
      assert front[0] in front && forall c :: c in front[1..] ==> c in front;
      TrimStartOf(front[1..], s);
    }
  }

  lemma {:induction false} TrimEndOf(s: string, back: string)
    requires (forall c :: c in back ==> IsSpace(c)) && (s != "" ==> !IsSpace(s[|s| - 1]))
    ensures TrimEnd(s + back) == s
  {
    if back == "" {
      assert s + back == s;
    } else {
      var n := |back| - 1;
      assert (s + back)[..|s + back| - 1] == s + back[..n];
      assert back[n] in back && forall c :: c in back[..n] ==> c in back;
      TrimEndOf(s, back[..n]);
    }
  }

  /** Trimming takes the white space at both ends, and nothing else. */
  lemma TrimTakesTheEnds(front: string, s: string, back: string)
    requires (forall c :: c in front ==> IsSpace(c)) && (forall c :: c in back ==> IsSpace(c)) && IsTrimmed(s)
    ensures s != "" ==> Trim(front + s + back) == s
    ensures s == "" ==> Trim(front + s + back) == ""
  {
    hide IsSpace;
    if s == "" {
      assert front + s + back == (front + back) + "";
      assert forall c :: c in front + back ==> IsSpace(c);
      TrimStartOf(front + back, "");
    } else {
      Associate(front, s, back);
      assert (s + back)[0] == s[0];
      TrimStartOf(front, s + back);
      TrimEndOf(s, back);
    }
  }

  lemma {:induction false} StartKeeps(s: string, i: nat)
    requires i < |s| && !IsSpace(s[i])
    ensures |s| - |TrimStart(s)| <= i
  {
    hide IsSpace;
    if IsSpace(s[0]) { StartKeeps(s[1..], i - 1); }
  }

  lemma {:induction false} EndKeeps(s: string, i: nat)
    requires i < |s| && !IsSpace(s[i])
    ensures i < |TrimEnd(s)|
    decreases |s|
  {
    hide IsSpace;
    if IsSpace(s[|s| - 1]) { EndKeeps(s[..|s| - 1], i); }
  }

  lemma BlankExactlyWhen(s: string)
    ensures Trim(s) != "" <==> exists i :: 0 <= i < |s| && !IsSpace(s[i])
  {
    hide IsSpace, TrimStart, TrimEnd;
    var t := TrimStart(s);
    if Trim(s) != "" { assert s[|s| - |t|] == t[0] && !IsSpace(t[0]); }
    if i :| 0 <= i < |s| && !IsSpace(s[i]) {
      StartKeeps(s, i);
      assert t[i - (|s| - |t|)] == s[i];
      EndKeeps(t, i - (|s| - |t|));
    }
  }

  lemma Associate<T>(a: seq<T>, b: seq<T>, c: seq<T>)
    ensures a + b + c == a + (b + c)
  {
  }

  // ---------- Joining ----------

  /** `parts.join(sep)` */
  function Join(parts: seq<string>, sep: string): string {
    if parts == [] then ""
    else if |parts| == 1 then parts[0]
    else parts[0] + sep + Join(parts[1..], sep)
  }

  /** The number of characters before the first separator. */
  function Cut(s: string, sep: char): nat {
    if s == "" || s[0] == sep then 0 else 1 + Cut(s[1..], sep)
  }

  lemma {:induction false} CutBehind(a: string, rest: string, sep: char)
    requires sep !in a && (rest == "" || rest[0] == sep)
    ensures Cut(a + rest, sep) == |a|
  {
    if a == "" {
      assert a + rest == rest;
    } else {
      assert (a + rest)[1..] == a[1..] + rest;
      CutBehind(a[1..], rest, sep);
    }
  }

  /** Two parts of a text, split at the first separator, are determined by the text. */
  lemma SplitAtFirst(a: string, b: string, x: string, y: string, sep: char)
    requires sep !in a && sep !in b && a + ([sep] + x) == b + ([sep] + y)
    ensures a == b && x == y
  {
    var s, t := a + ([sep] + x), b + ([sep] + y);
    CutBehind(a, [sep] + x, sep);
    CutBehind(b, [sep] + y, sep);
    assert a == s[..|a|] && b == t[..|b|];
    assert x == s[|a| + 1..] && y == t[|b| + 1..];
  }

  lemma JoinStarts(parts: seq<string>, sep: char)
    requires parts != [] && sep !in parts[0]
    ensures Cut(Join(parts, [sep]), sep) == |parts[0]|
    ensures |parts| > 1 <==> |Join(parts, [sep])| > |parts[0]|
    ensures |parts| > 1 ==> Join(parts, [sep]) == parts[0] + ([sep] + Join(parts[1..], [sep]))
  {
    if |parts| > 1 {
      assert Join(parts, [sep]) == parts[0] + ([sep] + Join(parts[1..], [sep]));
      CutBehind(parts[0], [sep] + Join(parts[1..], [sep]), sep);
    } else {
      assert parts[0] + "" == parts[0];
      CutBehind(parts[0], "", sep);
    }
  }

  /** Parts without the separator can be read back from the joined text. */
  lemma {:induction false} JoinIsInjective(a: seq<string>, b: seq<string>, sep: char)
    requires a != [] && b != []
    requires forall i :: 0 <= i < |a| ==> sep !in a[i]
    requires forall i :: 0 <= i < |b| ==> sep !in b[i]
    requires Join(a, [sep]) == Join(b, [sep])
    ensures a == b
  {
    JoinStarts(a, sep);
    JoinStarts(b, sep);
    if |a| > 1 {
      SplitAtFirst(a[0], b[0], Join(a[1..], [sep]), Join(b[1..], [sep]), sep);
      JoinIsInjective(a[1..], b[1..], sep);
      assert a == [a[0]] + a[1..] && b == [b[0]] + b[1..];
    }
  }

  lemma {:induction false} JoinConcat(a: seq<string>, b: seq<string>, sep: string)
    requires a != [] && b != []
    ensures Join(a + b, sep) == Join(a, sep) + sep + Join(b, sep)
  {
    assert (a + b)[1..] == a[1..] + b;
    if |a| > 1 {
      JoinConcat(a[1..], b, sep);
    } else {
      assert a[1..] + b == b;
    }
  }

  /** `s.split(sep)` for a separator of one character. */
  function Split(s: string, sep: char): (parts: seq<string>)
    ensures parts != []
  {
    if s == "" then [""]
    else
      var rest := Split(s[1..], sep);
      if s[0] == sep then [""] + rest else [[s[0]] + rest[0]] + rest[1..]
  }

  lemma {:induction false} SplitOne(part: string, sep: char)
    requires sep !in part
    ensures Split(part, sep) == [part]
  {
    if part != "" {
      SplitOne(part[1..], sep);
      assert [part[0]] + part[1..] == part;
    }
  }

  lemma {:induction false} SplitFirst(part: string, rest: string, sep: char)
    requires sep !in part
    ensures Split(part + ([sep] + rest), sep) == [part] + Split(rest, sep)
  {
    var s := part + ([sep] + rest);
    if part == "" {
      assert s == [sep] + rest && s[1..] == rest;
    } else {
      assert s[1..] == part[1..] + ([sep] + rest);
      SplitFirst(part[1..], rest, sep);
      var tail := Split(s[1..], sep);
      assert tail[0] == part[1..] && tail[1..] == Split(rest, sep);
      assert [part[0]] + part[1..] == part;
    }
  }

  /** Splitting gives back what was joined. */
  lemma {:induction false} SplitOfJoin(parts: seq<string>, sep: char)
    requires parts != [] && forall i :: 0 <= i < |parts| ==> sep !in parts[i]
    ensures Split(Join(parts, [sep]), sep) == parts
  {
    if |parts| == 1 {
      SplitOne(parts[0], sep);
    } else {
      JoinStarts(parts, sep);
      SplitFirst(parts[0], Join(parts[1..], [sep]), sep);
      SplitOfJoin(parts[1..], sep);
    }
  }

  /** A text that neither starts nor ends with white space. */
  predicate IsTrimmed(s: string) {
    s != "" ==> !IsSpace(s[0]) && !IsSpace(s[|s| - 1])
  }

  lemma TrimIsIdle(s: string)
    requires IsTrimmed(s)
    ensures Trim(s) == s
  {
  }

  // ---------- The order of the JavaScript operator < on strings ----------

  predicate Before(a: string, b: string) {
    if b == [] then false
    else if a == [] then true
    else if a[0] != b[0] then a[0] < b[0]
    else Before(a[1..], b[1..])
  }

  lemma {:induction false} BeforeIsIrreflexive(a: string)
    ensures !Before(a, a)
  {
    if a != [] { BeforeIsIrreflexive(a[1..]); }
  }

  lemma {:induction false} BeforeIsTransitive(a: string, b: string, c: string)
    requires Before(a, b) && Before(b, c)
    ensures Before(a, c)
  {
    if a != [] && a[0] == b[0] == c[0] { BeforeIsTransitive(a[1..], b[1..], c[1..]); }
  }

  lemma {:induction false} BeforeIsTotal(a: string, b: string)
    ensures Before(a, b) || Before(b, a) || a == b
  {
    if a != [] && b != [] && a[0] == b[0] {
      BeforeIsTotal(a[1..], b[1..]);
      assert a == [a[0]] + a[1..] && b == [b[0]] + b[1..];
    }
  }

  /** Texts that start with different prefixes of one length are ordered by these prefixes,
      texts with the same prefix by what follows it. */
  lemma {:induction false} BeforeOfPrefixed(p: string, x: string, q: string, y: string)
    requires |p| == |q|
    ensures Before(p + x, q + y) <==> if p == q then Before(x, y) else Before(p, q)
  {
    if p == [] {
      assert p + x == x && q + y == y;
    } else {
      assert (p + x)[1..] == p[1..] + x && (q + y)[1..] == q[1..] + y;
      assert p == [p[0]] + p[1..] && q == [q[0]] + q[1..];
      BeforeOfPrefixed(p[1..], x, q[1..], y);
    }
  }

  // ---------- Decimal numerals ----------

  function DigitChar(d: nat): (c: char)
    requires d < 10
    ensures IsDigit(c)
  {
    '0' + d as char
  }

  function DigitValue(c: char): (d: nat)
    requires IsDigit(c)
    ensures d < 10 && DigitChar(d) == c
  {
    (c - '0') as nat
  }

  /** The decimal numeral of n, without leading zeros. */
  function Decimal(n: nat): (s: string)
    ensures |s| > 0
    ensures AllDigits(s)
  {
    if n < 10 then [DigitChar(n)] else Decimal(n / 10) + [DigitChar(n % 10)]
  }

  /** The w lowest decimal digits of n (`padStart(w, '0')` of a number that fits). */
  function Padded(n: nat, w: nat): (s: string)
    ensures |s| == w
    ensures AllDigits(s)
  {
    if w == 0 then "" else Padded(n / 10, w - 1) + [DigitChar(n % 10)]
  }

  /** What `parseInt(s, 10)` reads. */
  function ValueOf(s: string): nat
    requires AllDigits(s)
  {
    if s == [] then 0 else 10 * ValueOf(s[..|s| - 1]) + DigitValue(s[|s| - 1])
  }

  function Pow10(w: nat): (p: nat)
    ensures p > 0
  {
    if w == 0 then 1 else 10 * Pow10(w - 1)
  }

  lemma {:induction false} ReadDecimal(n: nat)
    ensures ValueOf(Decimal(n)) == n
  {
    if n >= 10 {
      ReadDecimal(n / 10);
      var s := Decimal(n);
      assert s[..|s| - 1] == Decimal(n / 10);
    }
  }

  lemma {:induction false} ReadPadded(n: nat, w: nat)
    requires n < Pow10(w)
    ensures ValueOf(Padded(n, w)) == n
  {
    if w > 0 {
      ReadPadded(n / 10, w - 1);
      var s := Padded(n, w);
      assert s[..|s| - 1] == Padded(n / 10, w - 1);
    }
  }

  /** Numerals of one width are ordered as strings exactly as they are ordered as numbers. */
  lemma {:induction false} NumeralOrder(a: string, b: string)
    requires |a| == |b| && AllDigits(a) && AllDigits(b)
    ensures Before(a, b) <==> ValueOf(a) < ValueOf(b)
    ensures a == b <==> ValueOf(a) == ValueOf(b)
  {
    if a != [] {
      var n := |a| - 1;
      NumeralOrder(a[..n], b[..n]);
      assert a == a[..n] + [a[n]] && b == b[..n] + [b[n]];
      BeforeOfPrefixed(a[..n], [a[n]], b[..n], [b[n]]);
      assert Before([a[n]], [b[n]]) <==> a[n] < b[n];
    }
  }

  /** The number of digits of a numeral is determined by the power of ten below the number. */
  lemma {:induction false} DecimalWidth(n: nat, w: nat)
    requires w > 0 && Pow10(w - 1) <= n < Pow10(w)
    ensures |Decimal(n)| == w
  {
    if w > 1 {
      assert Pow10(w) == 10 * Pow10(w - 1) && Pow10(w - 1) == 10 * Pow10(w - 2);
      DecimalWidth(n / 10, w - 1);
    }
  }
}
