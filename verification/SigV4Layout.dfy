/** What a canonical request of src/common/AwsSigV4.ts looks like, line by line, and what is signed. */
module SigV4Layout {
  import opened Text
  import opened SigV4
  import Sorting

  /** The names of the headers, each once, ascending. */
  ghost predicate AscendingNames(collate: (string, string) -> bool, names: seq<string>, headers: Headers) {
    && (forall i, j :: 0 <= i < j < |names| ==> collate(names[i], names[j]) && names[i] != names[j])
    && (forall name :: name in names <==> exists h :: h in headers && h.name == name)
  }

  /** A header line: the name, a colon, and the words of the value with single spaces between them. */
  ghost predicate IsLineOf(line: string, name: string, headers: Headers) {
    exists h :: h in headers && h.name == name && line == name + ":" + Join(Words(h.value), " ")
  }

  lemma NamesOfHeaders(headers: Headers, name: string)
    ensures name in Names(headers) <==> exists h :: h in headers && h.name == name
  {
    if name in Names(headers) {
      var i :| 0 <= i < |headers| && Names(headers)[i] == name;
      assert headers[i] in headers;
    }
    if h :| h in headers && h.name == name { NameOfMember(headers, h); }
  }

  lemma SortedNamesAscend(collate: (string, string) -> bool, headers: Headers)
    requires Collation(collate, headers) && PlainHeaders(headers)
    ensures AscendingNames(collate, SortedNames(collate, headers), headers)
  {
    var names := SortedNames(collate, headers);
    Sorting.SortSorts(collate, Names(headers));
    Sorting.SortKeepsNoRepeats(collate, Names(headers));
    SortedNamesAreNames(collate, headers);
    hide SortedNames, Names;
    forall name ensures name in names <==> exists h :: h in headers && h.name == name {
      NamesOfHeaders(headers, name);
    }
  }

  lemma LineOfName(headers: Headers, name: string)
    requires name in Names(headers)
    ensures IsLineOf(HeaderLine(headers, name), name, headers)
  {
    ValueOfNames(headers, name);
    ValueIsOfAHeader(headers, name);
    NormalizedJoinsWords(HeaderValue(headers, name).value);
    hide Words, Normalized, HeaderValue, Names;
    assert Header(name, HeaderValue(headers, name).value) in headers;
  }

  /** Split at its newlines, the canonical request is: method, URI, query; a line for each header in ascending
      order of the names, or an empty line if there is none; an empty line; the names joined by semicolons; the
      payload hash. */
  lemma CanonicalLayout(collate: (string, string) -> bool, r: Request) returns (names: seq<string>, lines: seq<string>)
    requires Collation(collate, r.headers) && Plain(r)
    ensures AscendingNames(collate, names, r.headers)
    ensures |lines| == |names| && forall i :: 0 <= i < |lines| ==> IsLineOf(lines[i], names[i], r.headers)
    ensures Split(CanonicalRequest(collate, r), '\n')
            == [r.method', r.uri, r.query] + (if names == [] then [""] else lines)
               + ["", Join(names, ";"), r.payloadHash]
  {
    names := SortedNames(collate, r.headers);
    lines := HeaderLines(r.headers, names);
    SortedNamesAscend(collate, r.headers);
    LinesOfNames(collate, r.headers);
    BlockOf(r.headers, names);
    PartsInThree(collate, r);
    PartsArePlain(collate, r);
    RequestJoinsParts(collate, r);
    hide *;
    SplitOfJoin(Parts(collate, r), '\n');
  }

  lemma BlockOf(headers: Headers, names: seq<string>)
    ensures Block(headers, names) == if names == [] then [""] else HeaderLines(headers, names)
    ensures |HeaderLines(headers, names)| == |names|
  {
  }

  lemma LinesOfNames(collate: (string, string) -> bool, headers: Headers)
    ensures var names := SortedNames(collate, headers);
            forall i :: 0 <= i < |names| ==> IsLineOf(HeaderLines(headers, names)[i], names[i], headers)
  {
    var names := SortedNames(collate, headers);
    SortedNamesAreNames(collate, headers);
    hide SortedNames, HeaderLine, IsLineOf, Names;
    forall i | 0 <= i < |names| ensures IsLineOf(HeaderLines(headers, names)[i], names[i], headers) {
      assert names[i] in names;
      LineOfName(headers, names[i]);
    }
  }

  // ---------- The session token ----------

  lemma {:induction false} ValueBeforeLast(headers: Headers, h: Header, name: string)
    ensures HeaderValue(headers + [h], name)
            == if HeaderValue(headers, name).Some? then HeaderValue(headers, name)
               else if name == h.name then Some(h.value) else None
  {
    if headers != [] {
      assert (headers + [h])[1..] == headers[1..] + [h];
      ValueBeforeLast(headers[1..], h, name);
    }
  }

  /** The token becomes a header exactly if it has a character that is not white space and the caller has not
      set that header; every other header is as the caller set it. */
  lemma TokenIsAddedExactlyWhen(headers: Headers, token: Option<string>, name: string)
    ensures HeaderValue(WithToken(headers, token), name)
            == if name == "x-amz-security-token" && HeaderValue(headers, name).None? && token.Some?
                  && exists i :: 0 <= i < |token.value| && !IsSpace(token.value[i])
               then token else HeaderValue(headers, name)
  {
    if token.Some? {
      BlankExactlyWhen(token.value);
      ValueBeforeLast(headers, Header(TOKEN_HEADER, token.value), name);
    }
    hide Trim, IsSpace, HeaderValue;
  }
}
