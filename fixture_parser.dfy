/** Reading a fixture document (tests/Functional/AbstractApiTest.php): the split
    into request and response blocks, the two block parsers and their header
    sections. Every parser is written twice: a function that says what it
    yields, and a method with the loop the PHP code runs, proved to agree.
    Renderings of well-formed requests and responses read back to themselves. */
module FixtureParser {
  import opened Wrappers
  import opened PhpStrings
  import opened PhpArrays
  import opened FixtureGrammar

  // ------------------------------------------------------------ the document

  /** The line that separates the request block from the response block. */
  const Separator: string := "\n---\n"

  /** The first piece of a list of pieces starts their join. */
  lemma JoinHead(pieces: seq<string>, sep: string)
    requires |pieces| > 0
    ensures pieces[0] <= Join(pieces, sep)
  {
    if |pieces| > 1 {
      assert Join(pieces, sep) == pieces[0] + (sep + Join(pieces[1..], sep));
    }
  }

  /** `[$input, $output] = explode("\n---\n", $content)`: the first two pieces.
      None when there is no separator at all (the PHP code would then pass
      null on as the response block and fail). The request block is the text
      before the first separator; the response block runs from there to the
      next separator, and whatever follows that is ignored. */
  function SplitDocument(content: string): (r: Option<(string, string)>)
    ensures r.None? <==> NoOccurrence(content, Separator)
    ensures r.Some? ==> r.value.0 + Separator + r.value.1 <= content
    ensures r.Some? ==> NoOccurrence(r.value.0 + "\n---", Separator)
    ensures r.Some? ==> r.value.1 == SplitFirst(Separator, content[|r.value.0| + 5..]).0
  {
    var pieces := Explode(Separator, content);
    ExplodeJoin(Separator, content);
    if |pieces| < 2 then
      assert Find(content, Separator, 0).None?;
      None
    else
      assert !NoOccurrence(content, Separator) by {
        var i := Find(content, Separator, 0).value;
        assert OccursAt(content, Separator, i);
      }
      JoinHead(pieces[1..], Separator);
      assert content == pieces[0] + Separator + Join(pieces[1..], Separator);
      ExplodeFirstTwo(Separator, content);
      assert Separator[..4] == "\n---";
      Some((pieces[0], pieces[1]))
  }

  /** The first piece of explode is the first part of explode with limit 2. */
  lemma ExplodeHead(sep: string, s: string)
    requires |sep| > 0
    ensures Explode(sep, s)[0] == SplitFirst(sep, s).0
  {
  }

  /** The first two pieces of explode: the text before the first separator,
      and the text from there to the next one. */
  lemma ExplodeFirstTwo(sep: string, s: string)
    requires |sep| > 0 && |Explode(sep, s)| >= 2
    ensures var pieces := Explode(sep, s);
      && pieces[0] == SplitFirst(sep, s).0
      && |pieces[0]| + |sep| <= |s|
      && pieces[1] == SplitFirst(sep, s[|pieces[0]| + |sep|..]).0
  {
    ExplodeHead(sep, s);
    var i := Find(s, sep, 0).value;
    ExplodeHead(sep, s[i + |sep|..]);
  }

  /** A request block without a separator, not even one completed by the
      separator's own first four characters, ends at the first separator. */
  lemma SeparatorAfter(input: string, rest: string)
    requires NoOccurrence(input + "\n---", Separator)
    ensures SplitFirst(Separator, input + Separator + rest) == (input, Some(rest))
  {
    var s := input + Separator + rest;
    var n := |input|;
    assert s[..n + 4] == input + "\n---";
    forall j | 0 <= j < n ensures !OccursAt(s, Separator, j) {
      assert !OccursAt(input + "\n---", Separator, j);
      assert s[j..j + 5] == (input + "\n---")[j..j + 5];
    }
    assert OccursAt(s, Separator, n) by { assert s[n..n + 5] == Separator; }
    FindIs(s, Separator, 0, n);
    assert s[..n] == input;
    assert s[n + 5..] == rest;
  }

  /** A document made of a request block and what follows the separator
      splits into the block and the text up to the next separator. */
  lemma SplitDocumentOf(input: string, output: string)
    requires NoOccurrence(input + "\n---", Separator)
    ensures SplitDocument(input + Separator + output) == Some((input, SplitFirst(Separator, output).0))
  {
    var s := input + Separator + output;
    SeparatorAfter(input, output);
    var r := SplitDocument(s);
    assert r.Some? by {
      assert OccursAt(s, Separator, Find(s, Separator, 0).value);
    }
    assert |r.value.0| == |input| by {
      assert Find(s, Separator, 0) == Some(|input|);
    }
    assert s[|input| + 5..] == output;
  }

  /** Later pieces are ignored: with a third block, the response block is the
      second one. */
  lemma SplitDocumentIgnoresRest(input: string, output: string, more: string)
    requires NoOccurrence(input + "\n---", Separator)
    requires NoOccurrence(output + "\n---", Separator)
    ensures SplitDocument(input + Separator + output + Separator + more) == Some((input, output))
  {
    assert input + Separator + output + Separator + more == input + Separator + (output + Separator + more);
    SplitDocumentOf(input, output + Separator + more);
    SeparatorAfter(output, more);
  }

  // ----------------------------------------------------- the header section

  /** The values array_filter drops from a list of strings. */
  predicate IsFalsy(line: string) {
    line == "" || line == "0"
  }

  /** array_filter on the lines: the ones PHP treats as true, in their order. */
  function DropFalsy(lines: seq<string>): (r: seq<string>)
    ensures |r| <= |lines|
    ensures forall k :: 0 <= k < |r| ==> !IsFalsy(r[k]) && r[k] in lines
    ensures forall k :: 0 <= k < |lines| && !IsFalsy(lines[k]) ==> lines[k] in r
  {
    if |lines| == 0 then []
    else
      var init := DropFalsy(lines[..|lines| - 1]);
      var last := lines[|lines| - 1];
      assert forall x :: x in lines[..|lines| - 1] ==> x in lines;
      assert forall k :: 0 <= k < |lines| - 1 ==> lines[k] == lines[..|lines| - 1][k];
      if IsFalsy(last) then init else init + [last]
  }

  /** The lines of a header section that carry a header. */
  function HeaderLines(section: string): (r: seq<string>)
    ensures forall k :: 0 <= k < |r| ==> !IsFalsy(r[k]) && Lacks(r[k], '\n')
  {
    var pieces := Explode("\n", section);
    ExplodeJoin("\n", section);
    forall k | 0 <= k < |pieces| ensures Lacks(pieces[k], '\n') {
      NoOccurrenceLacks(pieces[k], '\n');
    }
    DropFalsy(pieces)
  }

  /** array_filter keeps the order and the repetitions of the lines it keeps:
      filtering a concatenation filters each part. */
  lemma {:induction false} DropFalsyAppend(a: seq<string>, b: seq<string>)
    ensures DropFalsy(a + b) == DropFalsy(a) + DropFalsy(b)
    decreases |b|
  {
    if |b| == 0 {
      assert a + b == a;
    } else {
      var n := |b| - 1;
      var x := b[n];
      assert b == b[..n] + [x];
      assert a + b == (a + b[..n]) + [x];
      DropFalsyAppend(a, b[..n]);
      DropFalsySnoc(a + b[..n], x);
      DropFalsySnoc(b[..n], x);
      AppendAssoc(DropFalsy(a), DropFalsy(b[..n]), if IsFalsy(x) then [] else [x]);
    }
  }

  /** One line more at the end is kept exactly when it is truthy. */
  lemma DropFalsySnoc(lines: seq<string>, x: string)
    ensures DropFalsy(lines + [x]) == DropFalsy(lines) + if IsFalsy(x) then [] else [x]
  {
    assert (lines + [x])[..|lines|] == lines;
  }

  lemma AppendAssoc<T>(x: seq<T>, y: seq<T>, z: seq<T>)
    ensures x + y + z == x + (y + z)
  {
  }

  /** A single line is kept exactly when it is truthy. */
  lemma DropFalsyOne(line: string)
    ensures DropFalsy([line]) == if IsFalsy(line) then [] else [line]
  {
  }

  /** A section of one line without a newline has that line as its only
      header line, unless it is falsy. */
  lemma HeaderLinesOne(line: string)
    requires Lacks(line, '\n')
    ensures HeaderLines(line) == if IsFalsy(line) then [] else [line]
  {
    NoOccurrenceLacks(line, '\n');
    assert Explode("\n", line) == [line];
    DropFalsyOne(line);
  }

  /** One more line at the end of a section adds that line to the header
      lines, unless it is falsy. */
  lemma HeaderLinesAppend(section: string, line: string)
    requires Lacks(line, '\n')
    ensures HeaderLines(section + "\n" + line) == HeaderLines(section) + if IsFalsy(line) then [] else [line]
  {
    ExplodeAppend("\n", section, line);
    NoOccurrenceLacks(line, '\n');
    assert Explode("\n", line) == [line];
    DropFalsyAppend(Explode("\n", section), [line]);
    DropFalsyOne(line);
  }

  /** One header line: `explode(':', $line, 2)`, both halves trimmed. A line
      without a colon leaves the value null, which trim turns into "". */
  function HeaderEntry(line: string): (e: Entry)
    ensures IsTrimmed(e.key) && IsTrimmed(e.value)
  {
    var (name, value) := SplitFirst(":", line);
    Entry(Trim(name), match value case None => "" case Some(v) => Trim(v))
  }

  /** The line is split at its first colon only, so a value may hold colons. */
  lemma HeaderEntryAtFirstColon(name: string, rest: string)
    requires Lacks(name, ':')
    ensures HeaderEntry(name + ":" + rest) == Entry(Trim(name), Trim(rest))
  {
    SplitFirstAt(':', name, rest);
  }

  /** A line without a colon is a name with an empty value. */
  lemma HeaderEntryWithoutColon(line: string)
    requires Lacks(line, ':')
    ensures HeaderEntry(line) == Entry(Trim(line), "")
  {
    NoOccurrenceLacks(line, ':');
  }

  /** A header name never holds a colon, and name and value only hold
      characters of their line. */
  lemma HeaderEntryChars(line: string, d: char)
    ensures Lacks(HeaderEntry(line).key, ':')
    ensures Lacks(line, d) ==> Lacks(HeaderEntry(line).key, d) && Lacks(HeaderEntry(line).value, d)
  {
    var (name, value) := SplitFirst(":", line);
    assert ":"[..0] == "";
    assert name + ""[..0] == name;
    NoOccurrenceLacks(name, ':');
    TrimLacks(name, ':');
    if Lacks(line, d) {
      match value
      case None =>
        TrimLacks(name, d);
      case Some(v) =>
        assert line == name + ":" + v;
        LacksConcat(name, ":" + v, d);
        LacksConcat(":", v, d);
        TrimLacks(name, d);
        TrimLacks(v, d);
    }
  }

  /** The entry of every line. */
  function HeaderEntries(lines: seq<string>): (r: seq<Entry>)
    ensures |r| == |lines| && forall k :: 0 <= k < |lines| ==> r[k] == HeaderEntry(lines[k])
  {
    seq(|lines|, k requires 0 <= k < |lines| => HeaderEntry(lines[k]))
  }

  /** What a header entry can hold once parsed: a trimmed name free of colons,
      newlines and backticks, and a trimmed value free of newlines and backticks. */
  predicate HeaderOk(e: Entry) {
    && IsTrimmed(e.key) && Lacks(e.key, ':') && Lacks(e.key, '\n') && Lacks(e.key, '`')
    && IsTrimmed(e.value) && Lacks(e.value, '\n') && Lacks(e.value, '`')
  }

  /** A well-formed header array: distinct names, each entry as parsing leaves it. */
  predicate HeadersOk(h: PhpArray) {
    UniqueKeys(h) && forall j :: 0 <= j < |h| ==> HeaderOk(h[j])
  }

  /** The header array a section yields: `$headers[trim($name)] = trim($value)`
      for every header line in turn. Every header it holds is the entry of one
      of the section's header lines. */
  function HeadersOf(section: string): (h: PhpArray)
    ensures forall j :: 0 <= j < |h| ==> h[j] in HeaderEntries(HeaderLines(section))
  {
    PutAllFrom([], HeaderEntries(HeaderLines(section)));
    PutAll([], HeaderEntries(HeaderLines(section)))
  }

  /** The header array has distinct names and, without a backtick in the
      section (the pattern guarantees none), is well formed. */
  lemma HeadersOfOk(section: string)
    ensures UniqueKeys(HeadersOf(section))
    ensures AllIn(section, NotBacktick) ==> HeadersOk(HeadersOf(section))
  {
    var es := HeaderEntries(HeaderLines(section));
    PutAllUnique([], es);
    if AllIn(section, NotBacktick) {
      HeaderEntriesOk(section);
      PutAllKeeps([], es, HeaderOk);
    }
  }

  /** Every entry of a backtick-free section is well formed. */
  lemma HeaderEntriesOk(section: string)
    requires AllIn(section, NotBacktick)
    ensures forall k :: 0 <= k < |HeaderLines(section)| ==> HeaderOk(HeaderEntries(HeaderLines(section))[k])
  {
    var pieces := Explode("\n", section);
    var lines := HeaderLines(section);
    ExplodeLacks("\n", section, '`');
    forall k | 0 <= k < |lines| ensures HeaderOk(HeaderEntry(lines[k])) {
      var line := lines[k];
      assert line in pieces;
      assert Lacks(line, '`');
      HeaderEntryChars(line, '`');
      HeaderEntryChars(line, '\n');
    }
  }

  /** One more line at the end of a section: a falsy line changes nothing,
      any other line assigns exactly its own entry (see Put). */
  lemma HeadersOfAppendLine(section: string, line: string)
    requires Lacks(line, '\n')
    ensures HeadersOf(section + "\n" + line)
      == if IsFalsy(line) then HeadersOf(section)
         else Put(HeadersOf(section), HeaderEntry(line).key, HeaderEntry(line).value)
  {
    HeaderLinesAppend(section, line);
    var lines := HeaderLines(section);
    if !IsFalsy(line) {
      HeaderEntriesSnoc(lines, line);
      PutAllSnoc([], HeaderEntries(lines), HeaderEntry(line));
    } else {
      assert lines + [] == lines;
    }
  }

  /** The entries of one more line. */
  lemma HeaderEntriesSnoc(lines: seq<string>, line: string)
    ensures HeaderEntries(lines + [line]) == HeaderEntries(lines) + [HeaderEntry(line)]
  {
  }

  /** A repeated header name keeps the value of its last line. */
  lemma HeadersOfLastWins(section: string, k: nat)
    requires k < |HeaderLines(section)|
    requires var lines := HeaderLines(section);
      forall k' :: k < k' < |lines| ==> HeaderEntry(lines[k']).key != HeaderEntry(lines[k]).key
    ensures var e := HeaderEntry(HeaderLines(section)[k]);
      Get(HeadersOf(section), e.key) == Some(e.value)
  {
    PutAllLastWins([], HeaderEntries(HeaderLines(section)), k);
  }

  /** The foreach loop over the header lines, assigning into `$headers`. */
  method ParseHeaderSection(section: string) returns (headers: PhpArray)
    ensures headers == HeadersOf(section)
  {
    var lines := HeaderLines(section);
    ghost var es := HeaderEntries(lines);
    headers := [];
    var i := 0;
    while i < |lines|
      invariant 0 <= i <= |lines|
      invariant headers == PutAll([], es[..i])
    {
      var e := HeaderEntry(lines[i]);
      assert e == es[i];
      PutAllNext([], es, i);
      headers := Put(headers, e.key, e.value);
      i := i + 1;
    }
    assert es[..i] == es;
  }

  // ------------------------------------------------------------ the blocks

  /** What parseRequest returns: method, URI, headers and body. */
  datatype ParsedRequest = ParsedRequest(httpMethod: string, uri: string, headers: PhpArray, body: string)

  /** What parseResponse returns: protocol version, status code, headers and body. */
  datatype ParsedResponse = ParsedResponse(protocolVersion: string, statusCode: int, headers: PhpArray, body: string)

  /** A request as parsing can produce it. */
  predicate RequestOk(r: ParsedRequest) {
    && |r.httpMethod| > 0 && AllIn(r.httpMethod, Word)
    && |r.uri| > 0 && AllIn(r.uri, NotNewline)
    && HeadersOk(r.headers)
    && AllIn(r.body, NotBacktick)
  }

  /** A response as parsing can produce it; the status code is the (int) cast of a digit run. */
  predicate ResponseOk(r: ParsedResponse) {
    && VersionLike(r.protocolVersion)
    && 0 <= r.statusCode <= PhpIntMax
    && HeadersOk(r.headers)
    && AllIn(r.body, NotBacktick)
  }

  /** parseRequest: the captures of the request pattern; None when it does not match. */
  function RequestOf(input: string): (r: Option<ParsedRequest>)
    ensures r.None? <==> Match(RequestGrammar, input).None?
    ensures r.Some? ==> RequestOk(r.value)
  {
    match Match(RequestGrammar, input)
    case None => None
    case Some(m) =>
      HeadersOfOk(m.headerSection);
      Some(ParsedRequest(m.start.httpMethod, m.start.uri, HeadersOf(m.headerSection), m.body))
  }

  /** parseResponse: the captures of the response pattern, the status code cast
      to an integer; None when it does not match. */
  function ResponseOf(output: string): (r: Option<ParsedResponse>)
    ensures r.None? <==> Match(ResponseGrammar, output).None?
    ensures r.Some? ==> ResponseOk(r.value)
  {
    match Match(ResponseGrammar, output)
    case None => None
    case Some(m) =>
      HeadersOfOk(m.headerSection);
      Some(ParsedResponse(m.start.version, IntCast(m.start.code), HeadersOf(m.headerSection), m.body))
  }

  /** parseRequest, with the header loop. */
  method ParseRequest(input: string) returns (r: Option<ParsedRequest>)
    ensures r == RequestOf(input)
  {
    var m := Match(RequestGrammar, input);
    if m.None? {
      return None;
    }
    var headers := ParseHeaderSection(m.value.headerSection);
    r := Some(ParsedRequest(m.value.start.httpMethod, m.value.start.uri, headers, m.value.body));
  }

  /** parseResponse, with the header loop. */
  method ParseResponse(output: string) returns (r: Option<ParsedResponse>)
    ensures r == ResponseOf(output)
  {
    var m := Match(ResponseGrammar, output);
    if m.None? {
      return None;
    }
    var statusCode := IntCast(m.value.start.code);
    var headers := ParseHeaderSection(m.value.headerSection);
    r := Some(ParsedResponse(m.value.start.version, statusCode, headers, m.value.body));
  }

  /** The whole fixture: the request and the expected response; None when the
      document does not split or a block does not match. */
  function FixtureOf(content: string): (r: Option<(ParsedRequest, ParsedResponse)>)
    ensures r.Some? ==> RequestOk(r.value.0) && ResponseOk(r.value.1)
    ensures r.Some? <==>
      SplitDocument(content).Some?
      && RequestOf(SplitDocument(content).value.0).Some?
      && ResponseOf(SplitDocument(content).value.1).Some?
  {
    match SplitDocument(content)
    case None => None
    case Some((input, output)) =>
      match (RequestOf(input), ResponseOf(output))
      case (Some(q), Some(p)) => Some((q, p))
      case _ => None
  }

  // ------------------------------------------------------------ renderings

  /** One header line as a fixture writes it. */
  function HeaderLine(e: Entry): string {
    e.key + ": " + e.value
  }

  /** A header section, one line per entry, each ended by a newline. */
  function RenderHeaders(h: PhpArray): string {
    if |h| == 0 then "" else HeaderLine(h[0]) + "\n" + RenderHeaders(h[1..])
  }

  /** The body block: none for an empty body, a json block otherwise. */
  function RenderBody(body: string): string {
    if body == "" then "" else "\n" + Fence + "json" + "\n" + body + Fence
  }

  /** A block as a fixture writes it: marker, start line, header lines, fence, body block. */
  function RenderBlock(line: string, headers: PhpArray, body: string): string {
    Marker + line + "\n" + RenderHeaders(headers) + Fence + RenderBody(body)
  }

  /** The start line of a request. */
  function RequestLineText(r: ParsedRequest): string {
    r.httpMethod + " " + r.uri
  }

  /** A request block as a fixture writes it. */
  function RenderRequest(r: ParsedRequest): string {
    RenderBlock(RequestLineText(r), r.headers, r.body)
  }

  /** The status line of a response, with the protocol token (such as HTTP)
      and the reason phrase that the parser reads past. */
  function StatusLineText(r: ParsedResponse, proto: string, reason: string): string
    requires r.statusCode >= 0
  {
    proto + "/" + r.protocolVersion + " " + Decimal(r.statusCode) + " " + reason
  }

  /** A response block as a fixture writes it. */
  function RenderResponse(r: ParsedResponse, proto: string, reason: string): string
    requires r.statusCode >= 0
  {
    RenderBlock(StatusLineText(r, proto, reason), r.headers, r.body)
  }

  /** A whole fixture document. */
  function RenderFixture(q: ParsedRequest, p: ParsedResponse, proto: string, reason: string): string
    requires p.statusCode >= 0
  {
    RenderRequest(q) + Separator + RenderResponse(p, proto, reason)
  }

  // ------------------------------------------------------------ round trips

  /** The lines of a rendered header section. */
  function RenderedLines(h: PhpArray): (r: seq<string>)
    ensures |r| == |h| && forall j :: 0 <= j < |h| ==> r[j] == HeaderLine(h[j])
  {
    seq(|h|, j requires 0 <= j < |h| => HeaderLine(h[j]))
  }

  /** A header line holds only characters of its name and value, and ": ". */
  lemma HeaderLineLacks(e: Entry, c: char)
    requires Lacks(e.key, c) && Lacks(e.value, c) && c != ':' && c != ' '
    ensures Lacks(HeaderLine(e), c)
  {
    var line := HeaderLine(e);
    forall j | 0 <= j < |line| ensures line[j] != c {
      if j < |e.key| {
        assert line[j] == e.key[j];
      } else if j >= |e.key| + 2 {
        assert line[j] == e.value[j - |e.key| - 2];
      }
    }
  }

  /** A rendered section holds no character that no name and no value holds,
      other than the colon, space and newline it adds. */
  lemma {:induction false} RenderHeadersLacks(h: PhpArray, c: char)
    requires forall j :: 0 <= j < |h| ==> Lacks(h[j].key, c) && Lacks(h[j].value, c)
    requires c != ':' && c != ' ' && c != '\n'
    ensures Lacks(RenderHeaders(h), c)
  {
    if |h| > 0 {
      HeaderLineLacks(h[0], c);
      assert forall j :: 0 <= j < |h| - 1 ==> h[1..][j] == h[j + 1];
      RenderHeadersLacks(h[1..], c);
      var line := HeaderLine(h[0]);
      var rest := RenderHeaders(h[1..]);
      var r := line + "\n" + rest;
      forall j | 0 <= j < |r| ensures r[j] != c {
        if j < |line| {
          assert r[j] == line[j];
        } else if j > |line| {
          assert r[j] == rest[j - |line| - 1];
        }
      }
    }
  }

  /** The rendered headers explode into their lines and a final empty piece. */
  lemma {:induction false} ExplodeRenderedHeaders(h: PhpArray)
    requires forall j :: 0 <= j < |h| ==> Lacks(h[j].key, '\n') && Lacks(h[j].value, '\n')
    ensures Explode("\n", RenderHeaders(h)) == RenderedLines(h) + [""]
  {
    if |h| == 0 {
      Explode1("");
    } else {
      var line := HeaderLine(h[0]);
      var rest := RenderHeaders(h[1..]);
      assert RenderHeaders(h) == line + "\n" + rest;
      HeaderLineLacks(h[0], '\n');
      ExplodeCons("\n", line, rest);
      NewlineFreeTail(h);
      ExplodeRenderedHeaders(h[1..]);
      RenderedLinesCons(h);
    }
  }

  /** The requirement of ExplodeRenderedHeaders passes on to the tail. */
  lemma NewlineFreeTail(h: PhpArray)
    requires |h| > 0
    requires forall j :: 0 <= j < |h| ==> Lacks(h[j].key, '\n') && Lacks(h[j].value, '\n')
    ensures forall j :: 0 <= j < |h[1..]| ==> Lacks(h[1..][j].key, '\n') && Lacks(h[1..][j].value, '\n')
  {
    forall j | 0 <= j < |h[1..]| ensures Lacks(h[1..][j].key, '\n') && Lacks(h[1..][j].value, '\n') {
      assert h[1..][j] == h[j + 1];
    }
  }

  /** The rendered lines of a non-empty array: its first line, then the rest. */
  lemma RenderedLinesCons(h: PhpArray)
    requires |h| > 0
    ensures RenderedLines(h) == [HeaderLine(h[0])] + RenderedLines(h[1..])
  {
    assert forall j :: 0 <= j < |h| - 1 ==> h[1..][j] == h[j + 1];
  }

  /** The empty string explodes into one empty piece. */
  lemma Explode1(s: string)
    requires |s| == 0
    ensures Explode("\n", s) == [s]
  {
  }

  /** A well-formed entry reads back from its rendered line. */
  lemma HeaderLineRoundTrip(e: Entry)
    requires HeaderOk(e)
    ensures HeaderEntry(HeaderLine(e)) == e
  {
    assert HeaderLine(e) == e.key + ":" + (" " + e.value);
    HeaderEntryOfLine(e.key, e.value);
  }

  /** `name: value` with a trimmed, colon-free name and a trimmed value. */
  lemma HeaderEntryOfLine(k: string, v: string)
    requires Lacks(k, ':') && IsTrimmed(k) && IsTrimmed(v)
    ensures HeaderEntry(k + ":" + (" " + v)) == Entry(k, v)
  {
    HeaderEntryAtFirstColon(k, " " + v);
    TrimOfTrimmed(k);
    TrimSpaceBefore(v);
  }

  /** The header lines of a rendered section are the rendered lines. */
  lemma RenderedHeaderLines(h: PhpArray)
    requires HeadersOk(h)
    ensures HeaderLines(RenderHeaders(h)) == RenderedLines(h)
  {
    ExplodeRenderedHeaders(h);
    var lines := RenderedLines(h);
    assert (lines + [""])[..|lines|] == lines;
    DropTruthy(lines);
  }

  /** Rendering a well-formed header array and parsing it back gives the array. */
  lemma HeadersRoundTrip(h: PhpArray)
    requires HeadersOk(h)
    ensures HeadersOf(RenderHeaders(h)) == h
  {
    RenderedHeaderLines(h);
    var lines := RenderedLines(h);
    forall j | 0 <= j < |h| ensures HeaderEntry(lines[j]) == h[j] {
      HeaderLineRoundTrip(h[j]);
    }
    assert HeaderEntries(lines) == h;
    PutAllDistinct(h);
  }

  /** Header lines are never falsy, so array_filter keeps them all. */
  lemma {:induction false} DropTruthy(lines: seq<string>)
    requires forall j :: 0 <= j < |lines| ==> |lines[j]| >= 2
    ensures DropFalsy(lines) == lines
  {
    if |lines| > 0 {
      DropTruthy(lines[..|lines| - 1]);
      assert lines[..|lines| - 1] + [lines[|lines| - 1]] == lines;
    }
  }

  /** The optional group reads a rendered body back. */
  lemma BodyRoundTrip(body: string)
    requires AllIn(body, NotBacktick)
    ensures OptionalBody(RenderBody(body)) == body
  {
    if body == "" {
      assert RunEnd("", 0, NotBacktick) == 0;
    } else {
      assert AllIn("json", Word);
      OptionalBodyOf("\n", "json", body, "");
      assert "\n" + Fence + "json" + "\n" + body + Fence + "" == RenderBody(body);
    }
  }

  /** A rendered block matches at its start, capturing its start line, its
      header section and its body, and the header section reads back. */
  lemma BlockRoundTrip(g: Grammar, line: string, sl: StartLine, headers: PhpArray, body: string)
    requires AllIn(line, NotNewline) && ParseStartLine(g, line) == Some(sl)
    requires HeadersOk(headers) && AllIn(body, NotBacktick)
    ensures Match(g, RenderBlock(line, headers, body)) == Some(FenceMatch(sl, RenderHeaders(headers), body))
    ensures HeadersOf(RenderHeaders(headers)) == headers
  {
    RenderHeadersLacks(headers, '`');
    BlockMatch(g, line, sl, RenderHeaders(headers), RenderBody(body));
    BodyRoundTrip(body);
    HeadersRoundTrip(headers);
  }

  /** Rendering a well-formed request and parsing it back gives the request. */
  lemma RequestRoundTrip(r: ParsedRequest)
    requires RequestOk(r)
    ensures RequestOf(RenderRequest(r)) == Some(r)
  {
    var line := RequestLineText(r);
    assert AllIn(line, NotNewline) by {
      forall j | 0 <= j < |line| ensures line[j] != '\n' {
        if j < |r.httpMethod| {
          assert line[j] == r.httpMethod[j];
        } else if j > |r.httpMethod| {
          assert line[j] == r.uri[j - |r.httpMethod| - 1];
        }
      }
    }
    RequestLineComplete(r.httpMethod, r.uri);
    BlockRoundTrip(RequestGrammar, line, RequestLine(r.httpMethod, r.uri), r.headers, r.body);
  }

  /** Rendering a well-formed response and parsing it back gives the response,
      whatever protocol token and reason phrase the status line carries. */
  lemma ResponseRoundTrip(r: ParsedResponse, proto: string, reason: string)
    requires ResponseOk(r)
    requires |proto| > 0 && AllIn(proto, Word) && |reason| > 0 && AllIn(reason, Word)
    ensures ResponseOf(RenderResponse(r, proto, reason)) == Some(r)
  {
    var code := Decimal(r.statusCode);
    var line := StatusLineText(r, proto, reason);
    assert StatusLineAs(line, proto, r.protocolVersion, code, reason);
    StatusLineComplete(line, proto, r.protocolVersion, code, reason);
    StatusLineHasNoNewline(line, proto, r.protocolVersion, code, reason);
    BlockRoundTrip(ResponseGrammar, line, StatusLine(r.protocolVersion, code), r.headers, r.body);
    DecimalValue(r.statusCode);
  }

  /** A status line of the pattern's shape is a single line. */
  lemma StatusLineHasNoNewline(line: string, proto: string, version: string, code: string, reason: string)
    requires StatusLineAs(line, proto, version, code, reason)
    ensures AllIn(line, NotNewline)
  {
    var k :| 1 <= k < |version| - 1 && AllIn(version[..k], Digit) && version[k] != '\n' && AllIn(version[k + 1..], Digit);
    forall j | 0 <= j < |version| ensures version[j] != '\n' {
      if j < k {
        assert version[j] == version[..k][j];
      } else if j > k {
        assert version[j] == version[k + 1..][j - k - 1];
      }
    }
    var a := |proto| + 1;
    var b := a + |version| + 1;
    var c := b + |code| + 1;
    forall j | 0 <= j < |line| ensures line[j] != '\n' {
      if j < |proto| {
        assert line[j] == proto[j];
      } else if a <= j < a + |version| {
        assert line[j] == version[j - a];
      } else if b <= j < b + |code| {
        assert line[j] == code[j - b];
      } else if c <= j {
        assert line[j] == reason[j - c];
      }
    }
  }

  /** A rendered fixture reads back to its request and response, as long as
      neither block holds the separator. */
  lemma FixtureRoundTrip(q: ParsedRequest, p: ParsedResponse, proto: string, reason: string)
    requires RequestOk(q) && ResponseOk(p)
    requires |proto| > 0 && AllIn(proto, Word) && |reason| > 0 && AllIn(reason, Word)
    requires NoOccurrence(RenderRequest(q) + "\n---", Separator)
    requires NoOccurrence(RenderResponse(p, proto, reason), Separator)
    ensures FixtureOf(RenderFixture(q, p, proto, reason)) == Some((q, p))
  {
    SplitDocumentOf(RenderRequest(q), RenderResponse(p, proto, reason));
    RequestRoundTrip(q);
    ResponseRoundTrip(p, proto, reason);
  }
}
