/** Running one fixture (doTestFileInfo in tests/Functional/AbstractApiTest.php):
    the request headers become server variables, the request goes to the
    application, and the response is checked against the expected one in the
    order of the PHPUnit assertions, the first failing assertion ending the
    run. The application (through the test client) and the body matcher are
    parameters. */
module FixtureRunner {
  import opened Wrappers
  import opened PhpStrings
  import opened PhpArrays
  import opened FixtureGrammar
  import opened FixtureParser

  // ------------------------------------------------------------ server keys

  /** The shape of every server variable the loop writes: the HTTP_ prefix,
      no dash and no lower-case ASCII letter. */
  predicate IsServerKey(k: string) {
    |k| >= 5 && k[..5] == "HTTP_" && Lacks(k, '-') && forall j :: 0 <= j < |k| ==> !('a' <= k[j] <= 'z')
  }

  /** `'HTTP_' . strtoupper(str_replace('-', '_', $key))`: the server variable
      that carries request header `name`. */
  function ServerKey(name: string): (k: string)
    ensures |k| == |name| + 5 && IsServerKey(k)
  {
    var k := "HTTP_" + StrToUpper(StrReplaceChar('-', '_', name));
    assert forall j :: 5 <= j < |k| ==> k[j] == UpperChar(StrReplaceChar('-', '_', name)[j - 5]);
    k
  }

  /** What a name character becomes in the server key. */
  function KeyChar(c: char): char {
    UpperChar(if c == '-' then '_' else c)
  }

  /** Two header names share a server key exactly when they agree character by
      character up to case and up to `-` versus `_`. */
  lemma ServerKeyEq(a: string, b: string)
    ensures ServerKey(a) == ServerKey(b) <==> |a| == |b| && forall j :: 0 <= j < |a| ==> KeyChar(a[j]) == KeyChar(b[j])
  {
    var ka, kb := ServerKey(a), ServerKey(b);
    assert forall j :: 0 <= j < |a| ==> ka[5 + j] == KeyChar(a[j]);
    assert forall j :: 0 <= j < |b| ==> kb[5 + j] == KeyChar(b[j]);
    if |a| == |b| && forall j :: 0 <= j < |a| ==> KeyChar(a[j]) == KeyChar(b[j]) {
      assert forall j :: 0 <= j < |ka| ==> ka[j] == kb[j] by {
        forall j | 0 <= j < |ka| ensures ka[j] == kb[j] {
          if j < 5 {
            assert ka[j] == ka[..5][j] && kb[j] == kb[..5][j];
          } else {
            assert ka[j] == KeyChar(a[j - 5]);
          }
        }
      }
    }
  }

  /** Two names that differ in one position whose characters map alike share a server key. */
  lemma ServerKeyOneChar(a: string, b: string, c: char, d: char)
    requires KeyChar(c) == KeyChar(d)
    ensures ServerKey(a + [c] + b) == ServerKey(a + [d] + b)
  {
    var x, y := a + [c] + b, a + [d] + b;
    forall j | 0 <= j < |x| ensures KeyChar(x[j]) == KeyChar(y[j]) {
      if j < |a| {
        assert x[j] == a[j] == y[j];
      } else if j > |a| {
        assert x[j] == b[j - |a| - 1] == y[j];
      }
    }
    ServerKeyEq(x, y);
  }

  /** Distinct header names can collide: a dash and an underscore land in the
      same server variable, and so do a lower-case letter and its capital. */
  lemma ServerKeyCollision(a: string, b: string, c: char)
    requires 'a' <= c <= 'z'
    ensures a + "-" + b != a + "_" + b && ServerKey(a + "-" + b) == ServerKey(a + "_" + b)
    ensures a + [c] + b != a + [UpperChar(c)] + b && ServerKey(a + [c] + b) == ServerKey(a + [UpperChar(c)] + b)
  {
    assert (a + "-" + b)[|a|] != (a + "_" + b)[|a|];
    ServerKeyOneChar(a, b, '-', '_');
    assert (a + [c] + b)[|a|] != (a + [UpperChar(c)] + b)[|a|];
    ServerKeyOneChar(a, b, c, UpperChar(c));
  }

  /** The assignments the loop makes, in order. */
  function ServerEntries(headers: PhpArray): (r: seq<Entry>)
    ensures |r| == |headers|
    ensures forall j :: 0 <= j < |headers| ==> r[j] == Entry(ServerKey(headers[j].key), headers[j].value)
  {
    seq(|headers|, j requires 0 <= j < |headers| => Entry(ServerKey(headers[j].key), headers[j].value))
  }

  /** The `$server` array built from the request headers: distinct keys, each
      entry the server key and value of one of the headers. */
  function ServerOf(headers: PhpArray): (r: PhpArray)
    ensures UniqueKeys(r)
    ensures forall i :: 0 <= i < |r| ==> IsServerKey(r[i].key)
    ensures forall i :: 0 <= i < |r| ==> r[i] in ServerEntries(headers)
  {
    PutAllUnique([], ServerEntries(headers));
    PutAllFrom([], ServerEntries(headers));
    PutAllKeeps([], ServerEntries(headers), (e: Entry) => IsServerKey(e.key));
    PutAll([], ServerEntries(headers))
  }

  /** The foreach loop that fills `$server`. */
  method BuildServer(headers: PhpArray) returns (server: PhpArray)
    ensures server == ServerOf(headers)
  {
    ghost var es := ServerEntries(headers);
    server := [];
    var i := 0;
    while i < |headers|
      invariant 0 <= i <= |headers|
      invariant server == PutAll([], es[..i])
    {
      PutAllNext([], es, i);
      server := Put(server, ServerKey(headers[i].key), headers[i].value);
      i := i + 1;
    }
    assert es[..i] == es;
  }

  /** A header reaches the application under its server key, unless a later
      header with a colliding name overwrote it. */
  lemma ServerOfLookup(headers: PhpArray, j: nat)
    requires j < |headers|
    requires forall j' :: j < j' < |headers| ==> ServerKey(headers[j'].key) != ServerKey(headers[j].key)
    ensures Get(ServerOf(headers), ServerKey(headers[j].key)) == Some(headers[j].value)
  {
    PutAllLastWins([], ServerEntries(headers), j);
  }

  /** Every header has its server variable, though with colliding names it
      may carry the value of a later header. */
  lemma ServerOfCovers(headers: PhpArray, j: nat)
    requires j < |headers|
    ensures Get(ServerOf(headers), ServerKey(headers[j].key)).Some?
  {
    PutAllDefines([], ServerEntries(headers), j);
  }

  /** Without collisions every header gets a server variable of its own, in the
      order of the headers. */
  lemma ServerOfDistinct(headers: PhpArray)
    requires forall i, j :: 0 <= i < j < |headers| ==> ServerKey(headers[i].key) != ServerKey(headers[j].key)
    ensures ServerOf(headers) == ServerEntries(headers)
  {
    PutAllDistinct(ServerEntries(headers));
  }

  // ---------------------------------------------------------- header check

  /** The headers of the actual response, by name. */
  type ActualHeaders = map<string, string>

  /** `assertSame($expectedHeaderValue, $response->headers->get($headerName))`. */
  predicate HeaderHolds(e: Entry, actual: ActualHeaders) {
    e.key in actual && actual[e.key] == e.value
  }

  /** Every expected header holds. */
  predicate HeadersHold(expected: PhpArray, actual: ActualHeaders) {
    forall j :: 0 <= j < |expected| ==> HeaderHolds(expected[j], actual)
  }

  /** The first expected header, from position `from` on, whose assertion fails. */
  function FirstFailingHeader(expected: PhpArray, actual: ActualHeaders, from: nat := 0): (r: Option<nat>)
    requires from <= |expected|
    decreases |expected| - from
    ensures r.Some? ==> from <= r.value < |expected| && !HeaderHolds(expected[r.value], actual)
    ensures r.Some? ==> forall j :: from <= j < r.value ==> HeaderHolds(expected[j], actual)
    ensures r.None? <==> forall j :: from <= j < |expected| ==> HeaderHolds(expected[j], actual)
  {
    if from == |expected| then None
    else if !HeaderHolds(expected[from], actual) then Some(from)
    else FirstFailingHeader(expected, actual, from + 1)
  }

  /** The first failing header is determined by its defining facts. */
  lemma FirstFailingHeaderIs(expected: PhpArray, actual: ActualHeaders, from: nat, i: nat)
    requires from <= i < |expected| && !HeaderHolds(expected[i], actual)
    requires forall j :: from <= j < i ==> HeaderHolds(expected[j], actual)
    ensures FirstFailingHeader(expected, actual, from) == Some(i)
    decreases i - from
  {
    if from < i {
      FirstFailingHeaderIs(expected, actual, from + 1, i);
    }
  }

  /** The foreach loop of header assertions: the position of the first one that
      fails, if any. */
  method CheckHeaders(expected: PhpArray, actual: ActualHeaders) returns (failed: Option<nat>)
    ensures failed == FirstFailingHeader(expected, actual)
  {
    var i := 0;
    while i < |expected|
      invariant 0 <= i <= |expected|
      invariant forall j :: 0 <= j < i ==> HeaderHolds(expected[j], actual)
    {
      var e := expected[i];
      if !(e.key in actual && actual[e.key] == e.value) {
        FirstFailingHeaderIs(expected, actual, 0, i);
        return Some(i);
      }
      i := i + 1;
    }
    return None;
  }

  /** The check is a subset test: for expected headers without repeated names
      it holds exactly when every expected name carries the expected value in
      the response. */
  lemma HeadersHoldAsSubset(expected: PhpArray, actual: ActualHeaders)
    requires UniqueKeys(expected)
    ensures HeadersHold(expected, actual) <==>
      forall k :: Get(expected, k).Some? ==> k in actual && actual[k] == Get(expected, k).value
  {
    forall k | Get(expected, k).Some?
      ensures exists j :: 0 <= j < |expected| && expected[j].key == k && Get(expected, k) == Some(expected[j].value)
    {
      GetSome(expected, k);
      var j :| 0 <= j < |expected| && expected[j].key == k;
      GetUnique(expected, j);
    }
    forall j | 0 <= j < |expected| ensures Get(expected, expected[j].key) == Some(expected[j].value) {
      GetUnique(expected, j);
    }
  }

  /** Headers the fixture does not mention never make the check fail. */
  lemma ExtraHeadersIgnored(expected: PhpArray, actual: ActualHeaders, more: ActualHeaders)
    requires HeadersHold(expected, actual)
    requires forall k :: k in actual ==> k in more && more[k] == actual[k]
    ensures HeadersHold(expected, more)
  {
    forall j | 0 <= j < |expected| ensures HeaderHolds(expected[j], more) {
      assert HeaderHolds(expected[j], actual);
    }
  }

  // ------------------------------------------------------------- one run

  /** `$client->request($method, $uri, [], [], $server, $content)`: what the
      application receives. */
  datatype ClientRequest = ClientRequest(httpMethod: string, uri: string, server: PhpArray, content: string)

  /** What the test reads back from `$client->getResponse()`. */
  datatype ActualResponse = ActualResponse(protocolVersion: string, statusCode: int, headers: ActualHeaders, content: string)

  /** How a run ends: every assertion passed, or the first failing one. */
  datatype Outcome =
    | Passed
    | ProtocolMismatch(expectedVersion: string, actualVersion: string)
    | StatusMismatch(expectedCode: int, actualCode: int)
    | HeaderMismatch(name: string, expectedValue: string)
    | BodyMismatch(pattern: string, actualContent: string)

  /** The request the test client sends for a parsed request block: its
      method, URI and body as parsed, no parameters or files, and the headers
      only as `HTTP_*` server variables. */
  function RequestFor(q: ParsedRequest): (c: ClientRequest)
    ensures c.httpMethod == q.httpMethod && c.uri == q.uri && c.content == q.body
    ensures forall i :: 0 <= i < |c.server| ==> IsServerKey(c.server[i].key) && c.server[i] in ServerEntries(q.headers)
  {
    ClientRequest(q.httpMethod, q.uri, ServerOf(q.headers), q.body)
  }

  /** The assertions in their order, given a matcher for the body pattern. */
  function Verdict(expected: ParsedResponse, actual: ActualResponse, matches: (string, string) -> bool): (o: Outcome)
    ensures o.Passed? <==>
      && expected.protocolVersion == actual.protocolVersion
      && expected.statusCode == actual.statusCode
      && HeadersHold(expected.headers, actual.headers)
      && matches(expected.body, actual.content)
    ensures o.ProtocolMismatch? ==> expected.protocolVersion != actual.protocolVersion
    ensures o.StatusMismatch? ==>
      expected.protocolVersion == actual.protocolVersion && expected.statusCode != actual.statusCode
    ensures o.HeaderMismatch? ==>
      && expected.protocolVersion == actual.protocolVersion
      && expected.statusCode == actual.statusCode
      && FirstFailingHeader(expected.headers, actual.headers).Some?
      && var i := FirstFailingHeader(expected.headers, actual.headers).value;
         && expected.headers[i] == Entry(o.name, o.expectedValue)
         && !HeaderHolds(expected.headers[i], actual.headers)
         && forall j :: 0 <= j < i ==> HeaderHolds(expected.headers[j], actual.headers)
    ensures o.BodyMismatch? ==>
      && expected.protocolVersion == actual.protocolVersion
      && expected.statusCode == actual.statusCode
      && HeadersHold(expected.headers, actual.headers)
      && !matches(expected.body, actual.content)
  {
    if expected.protocolVersion != actual.protocolVersion then
      ProtocolMismatch(expected.protocolVersion, actual.protocolVersion)
    else if expected.statusCode != actual.statusCode then
      StatusMismatch(expected.statusCode, actual.statusCode)
    else match FirstFailingHeader(expected.headers, actual.headers)
      case Some(i) => HeaderMismatch(expected.headers[i].key, expected.headers[i].value)
      case None =>
        if matches(expected.body, actual.content) then Passed
        else BodyMismatch(expected.body, actual.content)
  }

  /** The whole run of a fixture document against an application; None when
      the document does not split or a block does not match its pattern.
      Otherwise the test passes exactly when the response to the request of
      the first block has the version, status, headers and body of the second. */
  function Run(content: string, app: ClientRequest -> ActualResponse, matches: (string, string) -> bool): (r: Option<Outcome>)
    ensures r.None? <==> FixtureOf(content).None?
    ensures r.Some? ==>
      var (q, p) := FixtureOf(content).value;
      var actual := app(RequestFor(q));
      r.value.Passed? <==>
        && p.protocolVersion == actual.protocolVersion
        && p.statusCode == actual.statusCode
        && HeadersHold(p.headers, actual.headers)
        && matches(p.body, actual.content)
  {
    match FixtureOf(content)
    case None => None
    case Some((q, p)) => Some(Verdict(p, app(RequestFor(q)), matches))
  }

  /** doTestFileInfo after the file has been read. */
  method RunFixture(content: string, app: ClientRequest -> ActualResponse, matches: (string, string) -> bool)
    returns (outcome: Option<Outcome>)
    ensures outcome == Run(content, app, matches)
  {
    var halves := SplitDocument(content);
    if halves.None? {
      return None;
    }
    var (input, output) := halves.value;
    var request := ParseRequest(input);
    var expected := ParseResponse(output);
    if request.None? || expected.None? {
      return None;
    }
    var q, p := request.value, expected.value;
    var server := BuildServer(q.headers);
    var actual := app(ClientRequest(q.httpMethod, q.uri, server, q.body));
    if p.protocolVersion != actual.protocolVersion {
      return Some(ProtocolMismatch(p.protocolVersion, actual.protocolVersion));
    }
    if p.statusCode != actual.statusCode {
      return Some(StatusMismatch(p.statusCode, actual.statusCode));
    }
    var failed := CheckHeaders(p.headers, actual.headers);
    if failed.Some? {
      var i := failed.value;
      return Some(HeaderMismatch(p.headers[i].key, p.headers[i].value));
    }
    if !matches(p.body, actual.content) {
      return Some(BodyMismatch(p.body, actual.content));
    }
    return Some(Passed);
  }

  /** A rendered fixture runs exactly the request it was rendered from and
      checks the response it was rendered from. */
  lemma RunRendered(q: ParsedRequest, p: ParsedResponse, proto: string, reason: string,
                    app: ClientRequest -> ActualResponse, matches: (string, string) -> bool)
    requires RequestOk(q) && ResponseOk(p)
    requires |proto| > 0 && AllIn(proto, Word) && |reason| > 0 && AllIn(reason, Word)
    requires NoOccurrence(RenderRequest(q) + "\n---", Separator)
    requires NoOccurrence(RenderResponse(p, proto, reason), Separator)
    ensures Run(RenderFixture(q, p, proto, reason), app, matches) == Some(Verdict(p, app(RequestFor(q)), matches))
  {
    FixtureRoundTrip(q, p, proto, reason);
  }
}
