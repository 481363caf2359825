# Markdown-based API testing, modelled in Dafny

The repository tests an HTTP API with fixtures written as Markdown. A fixture
document has two fenced blocks separated by a line `---`:

- a request block: a request line `METHOD URI`, header lines `Name: value`,
  and an optional json body block;
- a response block: a status line `HTTP/1.1 200 OK`, the expected headers, and
  an optional body pattern.

The functional test base class does four things with a fixture:

1. It splits the document and parses both blocks with one regular expression
   each.
2. It turns the request headers into `HTTP_*` server variables.
3. It sends the request to the application.
4. It asserts, in order, the protocol version, the status code, each expected
   header, and the body (the body through a pattern matcher).

The example controller answers `GET /api/examples/{id}` behind a fixed token
and creates examples with `POST /api/examples`.

The model has these modules:

- `Wrappers`: `Option`.
- `PhpStrings`: the PHP string functions the harness relies on, as it calls
  them:
  - `strpos`-style search;
  - `explode` without a limit, and with limit 2;
  - `trim` with its default characters;
  - `strtoupper`;
  - single-character `str_replace`;
  - the `(int)` cast of a digit string, which saturates at `PHP_INT_MAX`
    while the value is a finite double and gives 0 beyond the double range.
- `PhpArrays`: PHP's ordered string-keyed array as a sequence of entries.
  - `$a[$k] = $v` replaces an existing key in place and appends a new one.
  - A foreach loop of assignments is a left fold (`PutAll`).
- `FixtureGrammar`: the two `preg_match` patterns, hand-coded.
  - Every repetition in them but one is followed by a character its class
    cannot match, so greedy backtracking has one outcome. The functions
    compute that outcome directly, including the leftmost-match search.
  - The exception is the first `\d+` of the version group `(\d+.\d+)`: the
    `.` after it matches digits too, so that group can match in several ways.
    It captures the same text in each of them (`StatusLineComplete`).
  - Soundness and completeness lemmas pin down what each capture group holds.
- `FixtureParser`:
  - the document split;
  - the header-section loop, a method proved equal to a fold;
  - `parseRequest` and `parseResponse`, each as a specification function and as
    a method;
  - renderings of requests and responses, with round-trip lemmas.
- `FixtureRunner`:
  - the server-variable loop;
  - the header-assertion loop;
  - the whole run, `doTestFileInfo`. The application and the body matcher are
    function parameters.
- `ExampleController`: `getAction` and `postAction` as functions of what they
  read.

## Behaviour worth noting

- `postAction` performs no authentication. Only `getAction` checks the
  `X-Auth-Token` header.
- The assertions run in order, and the first failing one ends the run:
  PHPUnit stops a test at its first failed assertion. `Outcome` names that
  assertion.
- The separator is `"\n---\n"`, with newlines on both sides of the dashes.
  The request block is the text before the first separator, and the response
  block is the text after it up to the next separator after the first one;
  anything after that is ignored. In `"a\n---\n---\nb"` the response block
  is `"---\nb"`.
- The optional body group reads the first fenced block after the header
  section, and only when its label is a non-empty word (`\w+`) followed
  directly by a newline. An unlabelled block, or a label with another
  character, gives `""`, as does no block at all.
- The reason phrase after the status code is `\w+`, a single word. A phrase
  such as `Not Found` does not match.
- In the version group `\d+.\d+` the dot matches any character except a
  newline.
- `array_filter` drops every line equal to `"0"`, as well as empty lines
  (`IsFalsy`).
- A header line without a colon has the value `""`, because `trim(null)` is
  `""`.

## Model

| member | source | states |
|---|---|---|
| PhpStrings.Explode | tests/Functional/AbstractApiTest.php:36 | explode always returns at least one piece; ExplodeJoin and the lemmas below say which pieces |
| PhpStrings.ExplodeJoin | tests/Functional/AbstractApiTest.php:36 | explode's pieces joined with the separator give back the input, and no piece contains the separator |
| PhpStrings.ExplodeAppend | tests/Functional/AbstractApiTest.php:80 | exploding `a + sep + b` on a one-character separator gives the pieces of `a` followed by the pieces of `b` |
| PhpStrings.ExplodeCons | tests/Functional/AbstractApiTest.php:80 | a first line without the separator becomes the first piece, and the rest is exploded on its own |
| PhpStrings.ExplodeLacks | tests/Functional/AbstractApiTest.php:80 | the pieces of a text that lacks a character also lack it |
| PhpStrings.SplitFirst | tests/Functional/AbstractApiTest.php:82 | explode with limit 2: no second part exactly when the separator does not occur, in which case the first part is the whole line; otherwise the line is first part + separator + second part, and the first part contains no separator, not even one completed by the separator's first character |
| PhpStrings.SplitFirstAt | tests/Functional/AbstractApiTest.php:82 | the line is split at its first colon, so the second part may hold further colons |
| PhpStrings.Trim | tests/Functional/AbstractApiTest.php:83 | the result starts and ends with no trim character (" \t\n\r\0\x0B"); TrimAround says which string it is |
| PhpStrings.TrimAround | tests/Functional/AbstractApiTest.php:83 | trim characters on both sides of a trimmed value are removed and the value is left unchanged; since every string has this shape, this fixes the result of trim |
| PhpStrings.TrimIdempotent | tests/Functional/AbstractApiTest.php:83 | trimming twice is trimming once |
| PhpStrings.TrimLacks | tests/Functional/AbstractApiTest.php:83 | trim never introduces a character |
| PhpStrings.TrimLeadingBlanks | tests/Functional/AbstractApiTest.php:83 | trim removes any run of trim characters before a trimmed value |
| PhpStrings.StrToUpper | tests/Functional/AbstractApiTest.php:44 | same length; each character is its ASCII upper-case form |
| PhpStrings.StrReplaceChar | tests/Functional/AbstractApiTest.php:44 | same length; each occurrence of the search character is replaced and every other character is kept |
| PhpStrings.IntCast | tests/Functional/AbstractApiTest.php:101 | the (int) cast of a digit string is between 0 and PHP_INT_MAX: the digits' value whenever it fits, PHP_INT_MAX above that while the value is a finite double, and 0 from the first value that rounds to an infinite double |
| PhpStrings.DecimalValue | tests/Functional/AbstractApiTest.php:101 | reading back the decimal digits of n gives n |
| PhpArrays.Put | tests/Functional/AbstractApiTest.php:83 | after `$a[$k] = $v`, k holds v and every other key holds what it held |
| PhpArrays.PutPlacement | tests/Functional/AbstractApiTest.php:83 | an existing key stays at its position with every other key; a new key is appended last |
| PhpArrays.PutKeepsUnique | tests/Functional/AbstractApiTest.php:83 | assignment never creates a repeated key |
| PhpArrays.GetSome | tests/Functional/AbstractApiTest.php:83 | reading a key finds a value exactly when some entry carries the key, and the value is that entry's |
| PhpArrays.PutAllFrom | tests/Functional/AbstractApiTest.php:81-84 | after a loop of assignments every entry was already in the array or is one of the assigned entries |
| PhpArrays.PutAllDefines | tests/Functional/AbstractApiTest.php:81-84 | after a loop of assignments every assigned key is present |
| PhpArrays.PutAllLastWins | tests/Functional/AbstractApiTest.php:81-84 | after a loop of assignments a key holds the value of the last assignment to it |
| PhpArrays.PutAllUntouched | tests/Functional/AbstractApiTest.php:81-84 | a key no assignment names keeps its value |
| PhpArrays.PutAllDistinct | tests/Functional/AbstractApiTest.php:43-45 | assigning entries with distinct keys to an empty array gives exactly those entries, in order |
| FixtureGrammar.ParseRequestLine | tests/Functional/AbstractApiTest.php:73 | a parsed request line yields a non-empty word method and a non-empty URI without newlines |
| FixtureGrammar.RequestLineSound | tests/Functional/AbstractApiTest.php:73 | a parsed line is exactly method + " " + URI, with the method a word and the URI newline-free |
| FixtureGrammar.RequestLineComplete | tests/Functional/AbstractApiTest.php:73 | every line `(\w+) (.+)` is parsed into exactly its method and URI |
| FixtureGrammar.ParseStatusLine | tests/Functional/AbstractApiTest.php:99 | a parsed status line yields a version of the form `\d+.\d+` and a non-empty digit code |
| FixtureGrammar.StatusLineSound | tests/Functional/AbstractApiTest.php:99 | a parsed line is protocol token / version SP code SP reason, as the pattern demands |
| FixtureGrammar.StatusLineComplete | tests/Functional/AbstractApiTest.php:99 | every line of the pattern's shape parses, with the same version and code however the pattern's groups could match |
| FixtureGrammar.OptionalBody | tests/Functional/AbstractApiTest.php:73 | the optional body group (group 5, "" when absent) holds no backtick |
| FixtureGrammar.OptionalBodyOf | tests/Functional/AbstractApiTest.php:77 | for any backtick-free text, a fence, a non-empty word label, a newline, a backtick-free body and a closing fence, followed by anything, group 5 is exactly that body |
| FixtureGrammar.OptionalBodySound | tests/Functional/AbstractApiTest.php:77 | conversely a non-empty group 5 comes from such a block: backtick-free text, a fence, a word label, a newline, the body and a closing fence |
| FixtureGrammar.MatchAt | tests/Functional/AbstractApiTest.php:73 | a match anchored at a position yields a start line of the grammar's kind, and a header section and body without backticks |
| FixtureGrammar.MatchAtSound | tests/Functional/AbstractApiTest.php:73 | a match is the marker, a single start line that parses to the captured groups, a newline, the header section, a fence and a tail whose optional group is the captured body |
| FixtureGrammar.MatchAtComplete | tests/Functional/AbstractApiTest.php:73 | text of that shape matches at that position, capturing exactly the start line's groups, the header section and the optional body |
| FixtureGrammar.FirstMatch | tests/Functional/AbstractApiTest.php:73 | the leftmost position where the pattern matches: it matches there and nowhere before; None when it matches nowhere |
| FixtureGrammar.Match | tests/Functional/AbstractApiTest.php:99 | the leftmost match's captures: a start line of the grammar's kind, and a header section and body without backticks |
| FixtureGrammar.MatchAtStart | tests/Functional/AbstractApiTest.php:73 | text that matches at its very start is matched there |
| FixtureParser.SplitDocument | tests/Functional/AbstractApiTest.php:36 | None exactly when there is no separator; otherwise the request block precedes the first separator (none inside it, not even one completed by the separator's first characters), and the response block is the text after it up to the next separator |
| FixtureParser.SplitDocumentOf | tests/Functional/AbstractApiTest.php:36 | a request block free of the separator, then the separator, then any text, splits into that block and the text up to the next separator |
| FixtureParser.SplitDocumentIgnoresRest | tests/Functional/AbstractApiTest.php:36 | with a third block after a second separator, the response block is the second block and the rest is ignored |
| FixtureParser.DropFalsy | tests/Functional/AbstractApiTest.php:80 | array_filter keeps the lines that are neither "" nor "0", and only those |
| FixtureParser.DropFalsyAppend | tests/Functional/AbstractApiTest.php:80 | filtering a concatenation filters each part, so the kept lines keep their order and their repetitions |
| FixtureParser.DropFalsyOne | tests/Functional/AbstractApiTest.php:80 | a single line is kept exactly when it is neither "" nor "0" |
| FixtureParser.HeaderLines | tests/Functional/AbstractApiTest.php:80 | every header line kept is truthy and newline-free |
| FixtureParser.HeaderLinesOne | tests/Functional/AbstractApiTest.php:80 | a newline-free section has itself as its only header line, or none if it is "" or "0" |
| FixtureParser.HeaderLinesAppend | tests/Functional/AbstractApiTest.php:80 | one more line at the end of a section adds that line to the header lines unless it is "" or "0" |
| FixtureParser.HeaderEntry | tests/Functional/AbstractApiTest.php:82-83 | name and value are both trimmed |
| FixtureParser.HeaderEntryAtFirstColon | tests/Functional/AbstractApiTest.php:82-83 | a line name:rest with no colon in name gives (trim(name), trim(rest)) |
| FixtureParser.HeaderEntryWithoutColon | tests/Functional/AbstractApiTest.php:82-83 | a line without a colon gives (trim(line), "") |
| FixtureParser.HeaderEntryChars | tests/Functional/AbstractApiTest.php:82-83 | the name never holds a colon; neither part holds a character the line lacks |
| FixtureParser.HeadersOf | tests/Functional/AbstractApiTest.php:79-84 | every header of the array is the entry of one of the section's header lines |
| FixtureParser.HeadersOfOk | tests/Functional/AbstractApiTest.php:79-84 | the header array has distinct names; for a backtick-free section every entry is trimmed and free of newlines and backticks |
| FixtureParser.HeadersOfAppendLine | tests/Functional/AbstractApiTest.php:80-84 | one more line: a falsy line changes nothing, any other line assigns its own entry |
| FixtureParser.HeadersOfLastWins | tests/Functional/AbstractApiTest.php:83 | a repeated header name keeps the value of its last line |
| FixtureParser.ParseHeaderSection | tests/Functional/AbstractApiTest.php:79-84 | the foreach loop builds the same array as the fold HeadersOf |
| FixtureParser.RequestOf | tests/Functional/AbstractApiTest.php:71-87 | None exactly when the request pattern does not match; otherwise a well-formed request |
| FixtureParser.ResponseOf | tests/Functional/AbstractApiTest.php:97-113 | None exactly when the response pattern does not match; otherwise a well-formed response with a status code between 0 and PHP_INT_MAX |
| FixtureParser.ParseRequest | tests/Functional/AbstractApiTest.php:71-87 | the method with the header loop returns what RequestOf specifies |
| FixtureParser.ParseResponse | tests/Functional/AbstractApiTest.php:97-113 | the method with the header loop returns what ResponseOf specifies |
| FixtureParser.FixtureOf | tests/Functional/AbstractApiTest.php:36-39 | Some exactly when the document splits and both blocks parse; both results are then well formed |
| FixtureParser.HeadersRoundTrip | tests/Functional/AbstractApiTest.php:79-84 | rendering a well-formed header array as `Name: value` lines parses back to the same array |
| FixtureParser.BodyRoundTrip | tests/Functional/AbstractApiTest.php:77 | a backtick-free body rendered as a json block is read back by group 5; no block gives "" |
| FixtureParser.RequestRoundTrip | tests/Functional/AbstractApiTest.php:71-87 | rendering a well-formed request and parsing it gives the request back |
| FixtureParser.ResponseRoundTrip | tests/Functional/AbstractApiTest.php:97-113 | rendering a well-formed response, with any protocol token and reason word, and parsing it gives the response back |
| FixtureParser.FixtureRoundTrip | tests/Functional/AbstractApiTest.php:36-39 | a rendered fixture document parses back to its request and response |
| FixtureRunner.ServerKey | tests/Functional/AbstractApiTest.php:44 | the server key is five characters longer than the name, starts with HTTP_, and has no dash and no lower-case letter |
| FixtureRunner.ServerKeyEq | tests/Functional/AbstractApiTest.php:44 | two names share a server key exactly when they agree character by character up to ASCII case and up to dash versus underscore |
| FixtureRunner.ServerKeyCollision | tests/Functional/AbstractApiTest.php:43-45 | distinct names collide: a dash and an underscore, and a lower-case letter and its capital |
| FixtureRunner.ServerOf | tests/Functional/AbstractApiTest.php:41-45 | the server array has distinct keys, all of server-key shape, and every entry is the server key and value of one of the request headers |
| FixtureRunner.BuildServer | tests/Functional/AbstractApiTest.php:41-45 | the foreach loop builds the same array as ServerOf |
| FixtureRunner.ServerOfLookup | tests/Functional/AbstractApiTest.php:43-45 | a header reaches the application under its server key unless a later, colliding header overwrote it |
| FixtureRunner.ServerOfCovers | tests/Functional/AbstractApiTest.php:43-45 | every request header has a server variable under its key |
| FixtureRunner.ServerOfDistinct | tests/Functional/AbstractApiTest.php:43-45 | without collisions the server array is one entry per header, in header order |
| FixtureRunner.FirstFailingHeader | tests/Functional/AbstractApiTest.php:56-58 | the first expected header whose assertion fails, every earlier one holding; None exactly when all hold |
| FixtureRunner.CheckHeaders | tests/Functional/AbstractApiTest.php:56-58 | the assertion loop stops at exactly the header FirstFailingHeader names |
| FixtureRunner.HeadersHoldAsSubset | tests/Functional/AbstractApiTest.php:56-58 | the header check holds exactly when every expected name is present with the expected value |
| FixtureRunner.ExtraHeadersIgnored | tests/Functional/AbstractApiTest.php:56-58 | response headers a fixture does not mention never make the check fail |
| FixtureRunner.RequestFor | tests/Functional/AbstractApiTest.php:49 | the client receives the parsed method, URI and body, and the headers only as server variables of server-key shape taken from the request headers |
| FixtureRunner.Verdict | tests/Functional/AbstractApiTest.php:54-60 | Passed exactly when the version, the status, every header and the body all match; a failure names the first failing assertion, a header failure the first failing expected header, with every earlier assertion holding |
| FixtureRunner.Run | tests/Functional/AbstractApiTest.php:31-61 | None exactly when the document does not split or a block does not match; otherwise the test passes exactly when the response to the first block's request has the second block's version, status, headers and body |
| FixtureRunner.RunFixture | tests/Functional/AbstractApiTest.php:31-61 | the method with both loops returns what Run specifies |
| FixtureRunner.RunRendered | tests/Functional/AbstractApiTest.php:31-61 | a rendered fixture sends the request it was rendered from and checks the response it was rendered from |
| ExampleController.GetAction | src/Controller/ExampleController.php:14-30 | no token gives 403, a wrong token gives 401, the right token gives 404 for every id other than 1 and 200 {id: 1, title: "Test"} for id 1 |
| ExampleController.AuthBeforeId | src/Controller/ExampleController.php:16-21 | without the right token the answer does not depend on the id and is neither 200 nor 404 |
| ExampleController.GetSucceedsExactly | src/Controller/ExampleController.php:14-30 | a request succeeds exactly when it has the right token and id 1 |
| ExampleController.PostAction | src/Controller/ExampleController.php:33-44 | always 201 with the posted title and an id between 2 and 100, with no authentication |

## Left out

- Fixture discovery (`yieldFilesFromDirectory`, Symfony Finder) and reading
  the file (`file_get_contents`): file-system I/O. The run starts from the
  document's text.
- The Symfony test client and kernel: the application is the parameter
  `app`, from the request sent to the response read back. Routing, the kernel's
  404 page body and JSON encoding are not modelled. The controller's
  responses are values (`Body`), not bytes.
- Response headers: they are a plain map from name to value. Symfony's
  `HeaderBag` folds header names to lower case and can hold several values per
  name; that library code is not part of this model.
- `assertMatchesPattern`, the PHPMatcher body matcher: a predicate parameter
  `matches`.
- `mt_rand(2, 100)` and `json_decode` in `postAction`: the drawn id and the
  decoded title are parameters.
- PHP's warnings on a malformed fixture: a missing separator, a pattern that
  does not match, or a header line without a colon, each of which yields
  `null` and an "undefined index" warning. Those fixtures give `None` from the
  parsing functions, except the colon case, where the value `""` is modelled.
- PHP converts a header name that is a canonical decimal integer, such as
  `123` or `-5` (but not `0123`), to an integer array key. That key behaves
  like the string here.
- Line endings other than `\n` (CRLF): the patterns require `\n`.
- Strings are sequences of characters. PHP's byte strings and multi-byte
  text are not distinguished, and the character classes are ASCII, as PCRE
  uses them without the `u` flag.
- FixtureParser.FixtureRoundTrip: demands that the rendered request block
  holds no separator, even one completed by the separator's first four
  characters. It also demands that the response block holds none. The source
  promises nothing here; this is the condition under which the split returns
  the two blocks.
- FixtureParser.ResponseRoundTrip: covers status codes written in decimal
  without leading zeros, which is every non-negative code once cast.
