/** The canonical request of src/common/AwsSigV4.ts: what is hashed and signed.  A signature is only
    worth something if two different requests never have the same canonical request, and if the order
    in which the headers were set does not matter. */
module SigV4 {
  import opened Text
  import Sorting

  datatype Header = Header(name: string, value: string)

  /** The headers in the order in which they were set; no name occurs twice. */
  type Headers = seq<Header>

  function Names(headers: Headers): (names: seq<string>)
    ensures |names| == |headers|
    ensures forall i :: 0 <= i < |headers| ==> names[i] == headers[i].name
  {
    if headers == [] then [] else [headers[0].name] + Names(headers[1..])
  }

  function HeaderValue(headers: Headers, name: string): Option<string> {
    if headers == [] then None
    else if headers[0].name == name then Some(headers[0].value) else HeaderValue(headers[1..], name)
  }

  /** `localeCompare` on the names of these headers: a total order that tells different names apart. */
  ghost predicate Collation(collate: (string, string) -> bool, headers: Headers) {
    && Sorting.ConsistentOn(collate, Names(headers))
    && forall a, b :: a in Names(headers) && b in Names(headers) && Sorting.Ties(collate, a, b) ==> a == b
  }

  // ---------- White space ----------

  /** `replaceAll(/\s+/g, ' ')` */
  function CollapseSpaces(s: string): string
    decreases |s|
  {
    if s == "" then ""
    else if IsSpace(s[0]) then " " + CollapseSpaces(TrimStart(s))
    else [s[0]] + CollapseSpaces(s[1..])
  }

  function Normalized(value: string): string { CollapseSpaces(Trim(value)) }

  // ---------- The canonical request ----------

  function ValueText(headers: Headers, name: string): string {
    match HeaderValue(headers, name) case Some(v) => Normalized(v) case None => "undefined"
  }

  function HeaderLine(headers: Headers, name: string): string { name + ":" + ValueText(headers, name) }

  function HeaderLines(headers: Headers, names: seq<string>): (lines: seq<string>)
    ensures |lines| == |names|
    ensures forall i :: 0 <= i < |names| ==> lines[i] == HeaderLine(headers, names[i])
  {
    if names == [] then [] else [HeaderLine(headers, names[0])] + HeaderLines(headers, names[1..])
  }

  function SortedNames(collate: (string, string) -> bool, headers: Headers): seq<string> {
    Sorting.Sort(collate, Names(headers))
  }

  /** `canonicalizeHeaders`: the header block and the list of signed names. */
  function CanonicalizeHeaders(collate: (string, string) -> bool, headers: Headers): (string, string) {
    var names := SortedNames(collate, headers);
    (Join(HeaderLines(headers, names), "\n"), Join(names, ";"))
  }

  datatype Request = Request(method': string, uri: string, query: string, headers: Headers, payloadHash: string)

  function CanonicalRequest(collate: (string, string) -> bool, r: Request): string {
    var (canonicalHeaders, signedHeaders) := CanonicalizeHeaders(collate, r.headers);
    Join([r.method', r.uri, r.query, canonicalHeaders + "\n", signedHeaders, r.payloadHash], "\n")
  }

  const TOKEN_HEADER := "x-amz-security-token"

  /** A session token that is not blank is added, unless the header is there already. */
  function WithToken(headers: Headers, token: Option<string>): Headers {
    if token.Some? && Trim(token.value) != "" && HeaderValue(headers, TOKEN_HEADER).None?
    then headers + [Header(TOKEN_HEADER, token.value)] else headers
  }

  class SigningParams {
    var headers: Headers

    constructor (headers: Headers)
      ensures this.headers == headers
    {
      this.headers := headers;
    }

    /** The part of `buildAuthorization` before the hash; it adds the token to the caller's headers. */
    method BuildCanonicalRequest(collate: (string, string) -> bool, method': string, uri: string, query: string,
                                 payloadHash: string, token: Option<string>)
      returns (canonicalRequest: string, signedHeaders: string)
      modifies this
      ensures headers == WithToken(old(headers), token)
      ensures canonicalRequest == CanonicalRequest(collate, Request(method', uri, query, headers, payloadHash))
      ensures signedHeaders == Join(SortedNames(collate, headers), ";")
    {
      if token.Some? && Trim(token.value) != "" && HeaderValue(headers, TOKEN_HEADER).None? {
        headers := headers + [Header(TOKEN_HEADER, token.value)];
      }
      var canonicalHeaders;
      canonicalHeaders, signedHeaders := CanonicalizeHeaders(collate, headers).0, CanonicalizeHeaders(collate, headers).1;
      canonicalRequest := Join([method', uri, query, canonicalHeaders + "\n", signedHeaders, payloadHash], "\n");
    }
  }

  // ---------- What white-space normalisation keeps ----------

  /** The maximal runs of characters that are not white space. */
  function Words(s: string): seq<string>
    decreases |s|
  {
    if s == "" then []
    else if IsSpace(s[0]) then Words(s[1..])
    else
      var n := WordLength(s);
      [s[..n]] + Words(s[n..])
  }

  function WordLength(s: string): (n: nat)
    ensures n <= |s|
    ensures s != "" && !IsSpace(s[0]) ==> n > 0
    ensures forall i :: 0 <= i < n ==> !IsSpace(s[i])
    ensures n < |s| ==> IsSpace(s[n])
  {
    if s == "" || IsSpace(s[0]) then 0 else 1 + WordLength(s[1..])
  }

  lemma {:induction false} WordsBehindSpace(s: string)
    ensures Words(TrimStart(s)) == Words(s)
  {
    if s != "" && IsSpace(s[0]) { WordsBehindSpace(s[1..]); }
  }

  lemma {:induction false} WordsBeforeSpace(s: string, c: char)
    requires IsSpace(c)
    ensures Words(s + [c]) == Words(s)
    decreases |s|
  {
    var t := s + [c];
    if s == "" {
      assert t[1..] == "";
    } else if IsSpace(s[0]) {
      assert t[1..] == s[1..] + [c];
      WordsBeforeSpace(s[1..], c);
    } else {
      WordLengthOf(s, c);
      var n := WordLength(s);
      assert t[..n] == s[..n] && t[n..] == s[n..] + [c];
      WordsBeforeSpace(s[n..], c);
    }
  }

  lemma {:induction false} WordLengthOf(s: string, c: char)
    requires IsSpace(c)
    ensures WordLength(s + [c]) == WordLength(s)
  {
    if s != "" && !IsSpace(s[0]) {
      assert (s + [c])[1..] == s[1..] + [c];
      WordLengthOf(s[1..], c);
    }
  }

  lemma {:induction false} WordsOfTrimEnd(s: string)
    ensures Words(TrimEnd(s)) == Words(s)
  {
    if s != "" && IsSpace(s[|s| - 1]) {
      WordsOfTrimEnd(s[..|s| - 1]);
      WordsBeforeSpace(s[..|s| - 1], s[|s| - 1]);
      assert s == s[..|s| - 1] + [s[|s| - 1]];
    }
  }

  lemma {:induction false} CollapseWord(w: string, rest: string)
    requires forall i :: 0 <= i < |w| ==> !IsSpace(w[i])
    ensures CollapseSpaces(w + rest) == w + CollapseSpaces(rest)
  {
    if w == "" {
      assert w + rest == rest;
    } else {
      assert (w + rest)[1..] == w[1..] + rest;
      CollapseWord(w[1..], rest);
    }
  }

  lemma {:induction false} CollapseJoinsWords(s: string)
    requires s != "" ==> !IsSpace(s[0]) && !IsSpace(s[|s| - 1])
    ensures CollapseSpaces(s) == Join(Words(s), " ")
    decreases |s|
  {
    if s != "" {
      var n := WordLength(s);
      var w, rest := s[..n], s[n..];
      assert s == w + rest;
      CollapseWord(w, rest);
      if rest != "" {
        var t := TrimStart(rest);
        assert rest[|rest| - 1] == s[|s| - 1];
        LastStays(rest);
        WordsBehindSpace(rest);
        CollapseJoinsWords(t);
        FirstWordOfMany(s, n);
        Associate(w, " ", CollapseSpaces(t));
      }
    }
  }

  lemma {:induction false} LastStays(s: string)
    requires s != "" && !IsSpace(s[|s| - 1])
    ensures TrimStart(s) != "" && TrimStart(s)[|TrimStart(s)| - 1] == s[|s| - 1]
  {
    if IsSpace(s[0]) { LastStays(s[1..]); }
  }

  lemma FirstWordOfMany(s: string, n: nat)
    requires s != "" && !IsSpace(s[0]) && n == WordLength(s) && Words(s[n..]) != []
    ensures Join(Words(s), " ") == s[..n] + " " + Join(Words(s[n..]), " ")
  {
    assert Words(s)[1..] == Words(s[n..]);
  }

  /** Normalising joins the words of the value by single spaces. */
  lemma NormalizedJoinsWords(value: string)
    ensures Normalized(value) == Join(Words(value), " ")
  {
    var s := Trim(value);
    WordsOfTrimEnd(TrimStart(value));
    WordsBehindSpace(value);
    assert s != "" ==> s[0] == TrimStart(value)[0];
    CollapseJoinsWords(s);
  }

  lemma {:induction false} WordsAreWords(s: string)
    ensures forall i :: 0 <= i < |Words(s)| ==> Words(s)[i] != "" && forall c :: c in Words(s)[i] ==> !IsSpace(c)
    decreases |s|
  {
    if s != "" {
      if IsSpace(s[0]) { WordsAreWords(s[1..]); } else { WordsAreWords(s[WordLength(s)..]); }
    }
  }

  /** Two values are the same to the signer exactly when they have the same words. */
  lemma SameNormalizedExactlyWhenSameWords(v: string, w: string)
    ensures Normalized(v) == Normalized(w) <==> Words(v) == Words(w)
  {
    NormalizedJoinsWords(v);
    NormalizedJoinsWords(w);
    WordsAreWords(v);
    WordsAreWords(w);
    hide Words, Normalized, Join;
    if Normalized(v) == Normalized(w) {
      JoinOfWords(Words(v), Words(w));
    }
  }

  lemma JoinOfWords(a: seq<string>, b: seq<string>)
    requires forall i :: 0 <= i < |a| ==> a[i] != "" && ' ' !in a[i]
    requires forall i :: 0 <= i < |b| ==> b[i] != "" && ' ' !in b[i]
    requires Join(a, " ") == Join(b, " ")
    ensures a == b
  {
    if a != [] { JoinStarts(a, ' '); }
    if b != [] { JoinStarts(b, ' '); }
    if a != [] && b != [] { JoinIsInjective(a, b, ' '); }
  }

  // ---------- The parts of the canonical request ----------

  lemma NormalizedHasNoNewline(value: string)
    ensures '\n' !in Normalized(value)
  {
    NormalizedJoinsWords(value);
    WordsAreWords(value);
    hide Words, Normalized;
    JoinHasNo(Words(value), " ", '\n');
  }

  lemma {:induction false} JoinHasNo(parts: seq<string>, sep: string, c: char)
    requires c !in sep && forall i :: 0 <= i < |parts| ==> c !in parts[i]
    ensures c !in Join(parts, sep)
  {
    if |parts| > 1 { JoinHasNo(parts[1..], sep, c); }
  }

  /** Method, URI, query and hash are single lines; names are distinct, without colons and newlines. */
  ghost predicate Plain(r: Request) {
    && '\n' !in r.method' && '\n' !in r.uri && '\n' !in r.query && '\n' !in r.payloadHash
    && PlainHeaders(r.headers)
  }

  ghost predicate PlainHeaders(headers: Headers) {
    && Sorting.NoRepeats(Names(headers))
    && forall name :: name in Names(headers) ==> ':' !in name && '\n' !in name
  }

  function Block(headers: Headers, names: seq<string>): seq<string> {
    if names == [] then [""] else HeaderLines(headers, names)
  }

  function Parts(collate: (string, string) -> bool, r: Request): (parts: seq<string>)
    ensures |parts| == 6 + |Block(r.headers, SortedNames(collate, r.headers))|
  {
    var names := SortedNames(collate, r.headers);
    [r.method', r.uri, r.query] + Block(r.headers, names) + ["", Join(names, ";"), r.payloadHash]
  }

  /** A block of lines that is closed by a newline of its own, joined with what is around it. */
  lemma JoinAround(front: seq<string>, block: seq<string>, signed: string, hash: string)
    requires front != [] && block != []
    ensures Join(front + [Join(block, "\n") + "\n", signed, hash], "\n")
            == Join(front + block + ["", signed, hash], "\n")
  {
    var text, rest := Join(block, "\n"), "\n" + signed + "\n" + hash;
    JoinConcat(front, block, "\n");
    JoinConcat(front + block, ["", signed, hash], "\n");
    JoinConcat(front, [text + "\n", signed, hash], "\n");
    JoinOfThree(text + "\n", signed, hash);
    JoinOfThree("", signed, hash);
    hide *;
    Regroup(Join(front, "\n") + "\n", text, rest);
  }

  lemma RequestJoinsParts(collate: (string, string) -> bool, r: Request)
    ensures CanonicalRequest(collate, r) == Join(Parts(collate, r), "\n")
  {
    hide Join, SortedNames;
    var names := SortedNames(collate, r.headers);
    BlockJoins(r.headers, names);
    PartsInThree(collate, r);
    JoinAround([r.method', r.uri, r.query], Block(r.headers, names), Join(names, ";"), r.payloadHash);
    hide Block, Parts;
    assert [r.method', r.uri, r.query] + [Join(Block(r.headers, names), "\n") + "\n", Join(names, ";"), r.payloadHash]
           == [r.method', r.uri, r.query, Join(Block(r.headers, names), "\n") + "\n", Join(names, ";"), r.payloadHash];
  }

  lemma BlockJoins(headers: Headers, names: seq<string>)
    ensures Join(Block(headers, names), "\n") == Join(HeaderLines(headers, names), "\n")
  {
  }

  lemma JoinOfThree(a: string, b: string, c: string)
    ensures Join([a, b, c], "\n") == a + ("\n" + b + "\n" + c)
  {
    assert [a, b, c][1..] == [b, c] && [b, c][1..] == [c];
    assert Join([c], "\n") == c;
    assert Join([b, c], "\n") == b + "\n" + c;
    assert a + "\n" + (b + "\n" + c) == a + ("\n" + b + "\n" + c);
  }

  lemma Regroup(a: string, b: string, c: string)
    ensures a + (b + "\n" + c) == a + b + "\n" + ("" + c)
  {
    assert "" + c == c;
    Associate(b, "\n", c);
    Associate(a, b, "\n" + c);
    Associate(a + b, "\n", c);
  }

  lemma SortedNamesAreNames(collate: (string, string) -> bool, headers: Headers)
    ensures forall name :: name in SortedNames(collate, headers) <==> name in Names(headers)
  {
    Sorting.SameMembers(SortedNames(collate, headers), Names(headers));
  }

  lemma LinesArePlain(headers: Headers, names: seq<string>)
    requires forall name :: name in names ==> ':' !in name && '\n' !in name
    ensures forall i :: 0 <= i < |Block(headers, names)| ==> '\n' !in Block(headers, names)[i]
    ensures '\n' !in Join(names, ";")
  {
    JoinHasNo(names, ";", '\n');
    hide Normalized;
    forall i | 0 <= i < |names| ensures '\n' !in HeaderLine(headers, names[i]) {
      var value := HeaderValue(headers, names[i]);
      if value.Some? { NormalizedHasNoNewline(value.value); }
      assert names[i] in names;
    }
  }

  lemma PartsArePlain(collate: (string, string) -> bool, r: Request)
    requires Plain(r)
    ensures forall i :: 0 <= i < |Parts(collate, r)| ==> '\n' !in Parts(collate, r)[i]
  {
    var names := SortedNames(collate, r.headers);
    SortedNamesAreNames(collate, r.headers);
    LinesArePlain(r.headers, names);
    assert '\n' !in r.method' && '\n' !in r.uri && '\n' !in r.query && '\n' !in r.payloadHash;
    PartsInThree(collate, r);
    hide *;
    AllPlain([r.method', r.uri, r.query], Block(r.headers, names), ["", Join(names, ";"), r.payloadHash]);
  }

  lemma PartsInThree(collate: (string, string) -> bool, r: Request)
    ensures var names := SortedNames(collate, r.headers);
            Parts(collate, r)
            == [r.method', r.uri, r.query] + Block(r.headers, names) + ["", Join(names, ";"), r.payloadHash]
  {
  }

  lemma AllPlain(a: seq<string>, b: seq<string>, c: seq<string>)
    requires forall i :: 0 <= i < |a| ==> '\n' !in a[i]
    requires forall i :: 0 <= i < |b| ==> '\n' !in b[i]
    requires forall i :: 0 <= i < |c| ==> '\n' !in c[i]
    ensures forall i :: 0 <= i < |a + b + c| ==> '\n' !in (a + b + c)[i]
  {
    var s := a + b + c;
    forall i | 0 <= i < |s| ensures '\n' !in s[i] {
      assert s[i] == if i < |a| then a[i] else if i < |a| + |b| then b[i - |a|] else c[i - |a| - |b|];
    }
  }

  // ---------- Reading a canonical request ----------

  lemma LineIsInjective(name: string, value: string, name': string, value': string)
    requires ':' !in name && ':' !in name' && name + ":" + value == name' + ":" + value'
    ensures name == name' && value == value'
  {
    Associate(name, ":", value);
    Associate(name', ":", value');
    SplitAtFirst(name, name', value, value', ':');
  }

  /** The header block determines the names and their values; an empty block is no header. */
  lemma BlockIsInjective(h: Headers, names: seq<string>, k: Headers, names': seq<string>)
    requires forall name :: name in names || name in names' ==> ':' !in name
    requires Block(h, names) == Block(k, names')
    ensures names == names'
    ensures forall name :: name in names ==> HeaderLine(h, name) == HeaderLine(k, name)
  {
    hide HeaderValue, Normalized;
    assert |HeaderLines(h, names)| == |names| && |HeaderLines(k, names')| == |names'|;
    assert forall i :: 0 <= i < |names| ==> |HeaderLine(h, names[i])| > 0;
    assert forall i :: 0 <= i < |names'| ==> |HeaderLine(k, names'[i])| > 0;
    assert names == [] <==> Block(h, names)[0] == "";
    assert names' == [] <==> Block(k, names')[0] == "";
    forall i | 0 <= i < |names| ensures names[i] == names'[i] {
      assert names[i] in names && names'[i] in names';
      assert HeaderLines(h, names)[i] == HeaderLine(h, names[i]);
      assert HeaderLines(k, names')[i] == HeaderLine(k, names'[i]);
      LineIsInjective(names[i], ValueText(h, names[i]), names'[i], ValueText(k, names'[i]));
    }
    forall name | name in names ensures HeaderLine(h, name) == HeaderLine(k, name) {
      var i :| 0 <= i < |names| && names[i] == name;
      assert HeaderLines(h, names)[i] == HeaderLines(k, names')[i];
    }
  }

  lemma MiddleOfParts(a: seq<string>, b: seq<string>, c: seq<string>, a': seq<string>, b': seq<string>, c': seq<string>)
    requires |a| == |a'| && |c| == |c'| && a + b + c == a' + b' + c'
    ensures a == a' && b == b' && c == c'
  {
    var s, t := a + b + c, a' + b' + c';
    assert a == s[..|a|] && a' == t[..|a|];
    assert b == s[|a|..|s| - |c|] && b' == t[|a|..|t| - |c|];
    assert c == s[|s| - |c|..] && c' == t[|t| - |c|..];
  }

  /** The names a request signs, and the words of their values. */
  ghost predicate SameHeaders(h: Headers, k: Headers) {
    forall name ::
      match (HeaderValue(h, name), HeaderValue(k, name))
      case (Some(v), Some(w)) => Words(v) == Words(w)
      case (None, None) => true
      case _ => false
  }

  lemma {:induction false} ValueOfNames(headers: Headers, name: string)
    ensures HeaderValue(headers, name).Some? <==> name in Names(headers)
  {
    if headers != [] {
      ValueOfNames(headers[1..], name);
      assert Names(headers) == [headers[0].name] + Names(headers[1..]);
    }
  }

  lemma SameNamesSortAlike(collate: (string, string) -> bool, h: Headers, k: Headers)
    requires Collation(collate, h) && PlainHeaders(h) && PlainHeaders(k)
    requires forall name :: name in Names(h) <==> name in Names(k)
    ensures SortedNames(collate, h) == SortedNames(collate, k)
  {
    hide Sorting.Sort, Names, HeaderValue;
    Sorting.SameMembersSameMultiset(Names(h), Names(k));
    assert Sorting.ConsistentOn(collate, Names(k));
    SortedNamesAreNames(collate, h);
    Sorting.SortSorts(collate, Names(h));
    Sorting.SortSorts(collate, Names(k));
    Sorting.SortedIsUnique(collate, SortedNames(collate, h), SortedNames(collate, k));
  }

  lemma SameLines(h: Headers, k: Headers, name: string)
    requires SameHeaders(h, k)
    ensures HeaderLine(h, name) == HeaderLine(k, name)
    ensures name in Names(h) <==> name in Names(k)
  {
    ValueOfNames(h, name);
    ValueOfNames(k, name);
    hide HeaderValue, Normalized, Words, Names;
    match (HeaderValue(h, name), HeaderValue(k, name))
    case (Some(v), Some(w)) => SameNormalizedExactlyWhenSameWords(v, w);
    case _ =>
  }

  lemma SameRequestsAreSigned(collate: (string, string) -> bool, r: Request, s: Request)
    requires Collation(collate, r.headers) && Plain(r) && Plain(s) && SameHeaders(r.headers, s.headers)
    requires r.method' == s.method' && r.uri == s.uri && r.query == s.query && r.payloadHash == s.payloadHash
    ensures CanonicalRequest(collate, r) == CanonicalRequest(collate, s)
  {
    forall name {
      SameLines(r.headers, s.headers, name);
    }
    SameNamesSortAlike(collate, r.headers, s.headers);
    hide SameHeaders, HeaderLine, SortedNames, Join;
    var names := SortedNames(collate, r.headers);
    assert HeaderLines(r.headers, names) == HeaderLines(s.headers, names);
  }

  lemma SignedRequestsAreSame(collate: (string, string) -> bool, r: Request, s: Request)
    requires Plain(r) && Plain(s) && CanonicalRequest(collate, r) == CanonicalRequest(collate, s)
    ensures r.method' == s.method' && r.uri == s.uri && r.query == s.query && r.payloadHash == s.payloadHash
    ensures SameHeaders(r.headers, s.headers)
  {
    var names, names' := SortedNames(collate, r.headers), SortedNames(collate, s.headers);
    RequestJoinsParts(collate, r);
    RequestJoinsParts(collate, s);
    PartsArePlain(collate, r);
    PartsArePlain(collate, s);
    JoinIsInjective(Parts(collate, r), Parts(collate, s), '\n');
    var front, front' := [r.method', r.uri, r.query], [s.method', s.uri, s.query];
    var back, back' := ["", Join(names, ";"), r.payloadHash], ["", Join(names', ";"), s.payloadHash];
    MiddleOfParts(front, Block(r.headers, names), back, front', Block(s.headers, names'), back');
    SortedNamesAreNames(collate, r.headers);
    SortedNamesAreNames(collate, s.headers);
    BlockIsInjective(r.headers, names, s.headers, names');
    SameLinesSameHeaders(r.headers, s.headers, names);
    assert front[0] == front'[0] && front[1] == front'[1] && front[2] == front'[2] && back[2] == back'[2];
  }

  lemma SameLinesSameHeaders(h: Headers, k: Headers, names: seq<string>)
    requires forall name :: name in names <==> name in Names(h)
    requires forall name :: name in names <==> name in Names(k)
    requires forall name :: name in names ==> ':' !in name && HeaderLine(h, name) == HeaderLine(k, name)
    ensures SameHeaders(h, k)
  {
    hide Normalized, Words, HeaderValue, Names;
    forall name ensures
      match (HeaderValue(h, name), HeaderValue(k, name))
      case (Some(v), Some(w)) => Words(v) == Words(w)
      case (None, None) => true
      case _ => false
    {
      ValueOfNames(h, name);
      ValueOfNames(k, name);
      if name in names {
        LineIsInjective(name, ValueText(h, name), name, ValueText(k, name));
        SameNormalizedExactlyWhenSameWords(HeaderValue(h, name).value, HeaderValue(k, name).value);
      }
    }
  }

  /** Two requests have one canonical form exactly when they agree in method, URI, query, payload hash,
      header names and, up to white space, header values. */
  lemma CanonicalExactlyWhenSame(collate: (string, string) -> bool, r: Request, s: Request)
    requires Collation(collate, r.headers) && Plain(r) && Plain(s)
    ensures CanonicalRequest(collate, r) == CanonicalRequest(collate, s)
            <==> r.method' == s.method' && r.uri == s.uri && r.query == s.query
                 && r.payloadHash == s.payloadHash && SameHeaders(r.headers, s.headers)
  {
    hide CanonicalRequest, SameHeaders, Plain, Collation;
    if CanonicalRequest(collate, r) == CanonicalRequest(collate, s) {
      SignedRequestsAreSame(collate, r, s);
    } else if r.method' == s.method' && r.uri == s.uri && r.query == s.query
              && r.payloadHash == s.payloadHash && SameHeaders(r.headers, s.headers) {
      SameRequestsAreSigned(collate, r, s);
    }
  }

  /** The order in which the headers were set does not matter. */
  lemma OrderDoesNotMatter(collate: (string, string) -> bool, r: Request, headers: Headers)
    requires Collation(collate, r.headers) && Plain(r) && PlainHeaders(headers)
    requires forall h :: h in headers <==> h in r.headers
    ensures CanonicalRequest(collate, r) == CanonicalRequest(collate, r.(headers := headers))
  {
    forall name {
      ValueOfDistinct(headers, r.headers, name);
    }
    SameRequestsAreSigned(collate, r, r.(headers := headers));
  }

  lemma {:induction false} ValueIsOfAHeader(headers: Headers, name: string)
    ensures HeaderValue(headers, name).Some? ==> Header(name, HeaderValue(headers, name).value) in headers
  {
    if headers != [] && headers[0].name != name { ValueIsOfAHeader(headers[1..], name); }
  }

  lemma OneValuePerName(headers: Headers, a: Header, b: Header)
    requires Sorting.NoRepeats(Names(headers)) && a in headers && b in headers && a.name == b.name
    ensures a == b
  {
    hide Names;
    var names := Names(headers);
    var i :| 0 <= i < |headers| && headers[i] == a;
    var j :| 0 <= j < |headers| && headers[j] == b;
    assert names[i] == a.name && names[j] == b.name;
  }

  lemma ValueOfDistinct(h: Headers, k: Headers, name: string)
    requires Sorting.NoRepeats(Names(h)) && Sorting.NoRepeats(Names(k))
    requires forall x :: x in h <==> x in k
    ensures HeaderValue(h, name) == HeaderValue(k, name)
  {
    ValueIsOfAHeader(h, name);
    ValueIsOfAHeader(k, name);
    if HeaderValue(h, name).Some? {
      NameOfMember(k, Header(name, HeaderValue(h, name).value));
      ValueOfNames(k, name);
      OneValuePerName(k, Header(name, HeaderValue(h, name).value), Header(name, HeaderValue(k, name).value));
    } else if HeaderValue(k, name).Some? {
      NameOfMember(h, Header(name, HeaderValue(k, name).value));
      ValueOfNames(h, name);
    }
  }

  lemma NameOfMember(headers: Headers, h: Header)
    requires h in headers
    ensures h.name in Names(headers)
  {
    var i :| 0 <= i < |headers| && headers[i] == h;
    assert Names(headers)[i] == h.name;
  }

  /** The session token is bound: requests that differ only in the words of the token that is added
      have different canonical forms. */
  lemma TokenIsBound(collate: (string, string) -> bool, r: Request, token: string, token': string)
    requires HeaderValue(r.headers, TOKEN_HEADER).None?
    requires Trim(token) != "" && Trim(token') != "" && Words(token) != Words(token')
    requires Plain(r.(headers := WithToken(r.headers, Some(token))))
    requires Plain(r.(headers := WithToken(r.headers, Some(token'))))
    ensures CanonicalRequest(collate, r.(headers := WithToken(r.headers, Some(token))))
            != CanonicalRequest(collate, r.(headers := WithToken(r.headers, Some(token'))))
  {
    var h, k := WithToken(r.headers, Some(token)), WithToken(r.headers, Some(token'));
    ValueOfLast(r.headers, Header(TOKEN_HEADER, token));
    ValueOfLast(r.headers, Header(TOKEN_HEADER, token'));
    hide Words, CanonicalRequest, Plain;
    if CanonicalRequest(collate, r.(headers := h)) == CanonicalRequest(collate, r.(headers := k)) {
      SignedRequestsAreSame(collate, r.(headers := h), r.(headers := k));
    }
    assert HeaderValue(h, TOKEN_HEADER) == Some(token) && HeaderValue(k, TOKEN_HEADER) == Some(token');
  }

  lemma {:induction false} ValueOfLast(headers: Headers, h: Header)
    requires HeaderValue(headers, h.name).None?
    ensures HeaderValue(headers + [h], h.name) == Some(h.value)
  {
    if headers != [] {
      assert (headers + [h])[1..] == headers[1..] + [h];
      ValueOfLast(headers[1..], h);
    }
  }
}
