/** The two regular expressions of the fixture parser, hand-coded.

    Request:  ```http request\n(\w+) (.+)\n([^`]*)```([^`]*```\w+\n([^`]*)```)?
    Response: ```http request\n\w+/(\d+.\d+) (\d+) \w+\n([^`]*)```([^`]*```\w+\n([^`]*)```)?

    (`[^```]` in the PHP pattern is the class "any character but a backtick".)
    Every repetition in both patterns is followed by a character its own class
    cannot match, so greedy matching with backtracking has one outcome, which
    the functions below compute directly: the start line runs to the first
    newline after the marker, the header section to the first backtick after
    it, and the optional body block is taken whenever it is there. The one
    place that can backtrack, the version group `\d+.\d+`, captures the same
    text whichever way it matches (see StatusLineComplete). preg_match
    returns the leftmost match, so FirstMatch tries each start position in turn. */
module FixtureGrammar {
  import opened Wrappers
  import opened PhpStrings

  /** The opening fence line both patterns start with. */
  const Marker: string := "```http request\n"

  /** A closing or opening fence. */
  const Fence: string := "```"

  /** The character classes the patterns use: \w, \d, `.` and [^`]. */
  datatype CharClass = Word | Digit | NotNewline | NotBacktick

  predicate IsWordChar(c: char) {
    'a' <= c <= 'z' || 'A' <= c <= 'Z' || IsDigit(c) || c == '_'
  }

  predicate InClass(c: char, cls: CharClass) {
    match cls
    case Word => IsWordChar(c)
    case Digit => IsDigit(c)
    case NotNewline => c != '\n'
    case NotBacktick => c != '`'
  }

  /** Every character of `s` is in `cls`. */
  predicate AllIn(s: string, cls: CharClass) {
    forall j :: 0 <= j < |s| ==> InClass(s[j], cls)
  }

  /** `pat` occurs in `s` at index `i`. */
  predicate StartsAt(s: string, i: nat, pat: string) {
    i + |pat| <= |s| && s[i..i + |pat|] == pat
  }

  /** The end of the longest run of `cls` characters starting at `from`:
      where a greedy `cls*` starting at `from` stops. */
  function RunEnd(s: string, from: nat, cls: CharClass): (r: nat)
    requires from <= |s|
    decreases |s| - from
    ensures from <= r <= |s|
    ensures forall j :: from <= j < r ==> InClass(s[j], cls)
    ensures r < |s| ==> !InClass(s[r], cls)
  {
    if from < |s| && InClass(s[from], cls) then RunEnd(s, from + 1, cls) else from
  }

  /** The text of a run is all in its class. */
  lemma RunIn(s: string, from: nat, to: nat, cls: CharClass)
    requires from <= to <= |s|
    requires forall j :: from <= j < to ==> InClass(s[j], cls)
    ensures AllIn(s[from..to], cls)
  {
    forall j | 0 <= j < to - from ensures InClass(s[from..to][j], cls) {
      assert s[from..to][j] == s[from + j];
    }
  }

  /** The run end is determined by its defining facts. */
  lemma RunEndIs(s: string, from: nat, cls: CharClass, r: nat)
    requires from <= r <= |s|
    requires forall j :: from <= j < r ==> InClass(s[j], cls)
    requires r < |s| ==> !InClass(s[r], cls)
    ensures RunEnd(s, from, cls) == r
  {
  }

  /** The last index of `c` in `s`. */
  function LastIndexOf(s: string, c: char): (r: Option<nat>)
    ensures r.Some? ==> r.value < |s| && s[r.value] == c
    ensures r.Some? ==> forall j :: r.value < j < |s| ==> s[j] != c
    ensures r.None? ==> forall j :: 0 <= j < |s| ==> s[j] != c
  {
    if |s| == 0 then None
    else if s[|s| - 1] == c then Some(|s| - 1)
    else LastIndexOf(s[..|s| - 1], c)
  }

  /** The last occurrence is determined by its defining facts. */
  lemma LastIndexOfIs(s: string, c: char, k: nat)
    requires k < |s| && s[k] == c
    requires forall j :: k < j < |s| ==> s[j] != c
    ensures LastIndexOf(s, c) == Some(k)
  {
  }

  // ------------------------------------------------------------ start lines

  /** What the start line yields: `(\w+) (.+)` for a request, the groups
      `(\d+.\d+)` and `(\d+)` of `\w+/(\d+.\d+) (\d+) \w+` for a response. */
  datatype StartLine =
    | RequestLine(httpMethod: string, uri: string)
    | StatusLine(version: string, code: string)

  datatype Grammar = RequestGrammar | ResponseGrammar

  /** `\d+.\d+`: digits, one character other than a newline, digits. */
  predicate VersionLike(v: string) {
    exists k :: 1 <= k < |v| - 1 && AllIn(v[..k], Digit) && v[k] != '\n' && AllIn(v[k + 1..], Digit)
  }

  /** `(\w+) (.+)` against a whole line: the method is the word run up to the
      first space, the URI everything after that space. */
  function ParseRequestLine(line: string): (r: Option<StartLine>)
    ensures r.Some? ==> Yields(RequestGrammar, r.value)
  {
    var m := RunEnd(line, 0, Word);
    if m == 0 || m == |line| || line[m] != ' ' || m + 1 == |line| || !AllIn(line[m + 1..], NotNewline)
    then None
    else
      RunIn(line, 0, m, Word);
      Some(RequestLine(line[..m], line[m + 1..]))
  }

  /** `s` cut around the character at `a`. */
  lemma CutOnce(s: string, a: nat)
    requires a < |s|
    ensures s == s[..a] + [s[a]] + s[a + 1..]
  {
  }

  /** `s` cut around the characters at `a` and `b`. */
  lemma CutTwice(s: string, a: nat, b: nat)
    requires a < b < |s|
    ensures s == s[..a] + [s[a]] + s[a + 1..b] + [s[b]] + s[b + 1..]
  {
    assert s[..b] == s[..a] + [s[a]] + s[a + 1..b];
  }

  /** Takes a status line apart as `\w+/<version> <code> <reason>` where
      the protocol token is the word run before the `/` and neither the code
      nor the reason phrase holds a space: the code sits between the last two
      spaces, the version between the `/` and the second-to-last space. */
  function SplitStatusLine(line: string): (r: Option<(string, string, string, string)>)
    ensures r.Some? ==> line == r.value.0 + "/" + r.value.1 + " " + r.value.2 + " " + r.value.3
    ensures r.Some? ==> |r.value.0| > 0 && AllIn(r.value.0, Word)
  {
    var q := RunEnd(line, 0, Word);
    if q == 0 || q == |line| || line[q] != '/' then None
    else
      var rest := line[q + 1..];
      match LastIndexOf(rest, ' ')
      case None => None
      case Some(p2) =>
        match LastIndexOf(rest[..p2], ' ')
        case None => None
        case Some(p1) =>
          var proto, version, code, reason := line[..q], rest[..p1], rest[p1 + 1..p2], rest[p2 + 1..];
          assert rest[p1] == rest[..p2][p1];
          CutTwice(rest, p1, p2);
          CutOnce(line, q);
          Glue(line, proto, rest, version, code, reason);
          RunIn(line, 0, q, Word);
          Some((proto, version, code, reason))
  }

  /** Substituting the cut-up remainder into the cut-up line. */
  lemma Glue(line: string, proto: string, rest: string, version: string, code: string, reason: string)
    requires line == proto + "/" + rest
    requires rest == version + " " + code + " " + reason
    ensures line == proto + "/" + version + " " + code + " " + reason
  {
  }

  /** `\w+/(\d+.\d+) (\d+) \w+` against a whole line: groups 1 and 2. */
  function ParseStatusLine(line: string): (r: Option<StartLine>)
    ensures r.Some? ==> Yields(ResponseGrammar, r.value)
  {
    match SplitStatusLine(line)
    case None => None
    case Some((_, version, code, reason)) =>
      if VersionLike(version) && |code| > 0 && AllIn(code, Digit) && |reason| > 0 && AllIn(reason, Word)
      then Some(StatusLine(version, code))
      else None
  }

  /** The kind of start line grammar `g` yields; a status code is a non-empty digit run. */
  predicate Yields(g: Grammar, sl: StartLine) {
    match g
    case RequestGrammar =>
      sl.RequestLine? && |sl.httpMethod| > 0 && AllIn(sl.httpMethod, Word) && |sl.uri| > 0 && AllIn(sl.uri, NotNewline)
    case ResponseGrammar =>
      sl.StatusLine? && VersionLike(sl.version) && |sl.code| > 0 && AllIn(sl.code, Digit)
  }

  function ParseStartLine(g: Grammar, line: string): (r: Option<StartLine>)
    ensures r.Some? ==> Yields(g, r.value)
  {
    match g
    case RequestGrammar => ParseRequestLine(line)
    case ResponseGrammar => ParseStatusLine(line)
  }

  /** The request start line parses exactly into a method and URI it is made of. */
  lemma RequestLineSound(line: string)
    requires ParseRequestLine(line).Some?
    ensures var sl := ParseRequestLine(line).value;
      && sl.RequestLine?
      && line == sl.httpMethod + " " + sl.uri
      && |sl.httpMethod| > 0 && AllIn(sl.httpMethod, Word)
      && |sl.uri| > 0 && AllIn(sl.uri, NotNewline)
  {
    var m := RunEnd(line, 0, Word);
    assert line == line[..m] + " " + line[m + 1..];
  }

  /** Any line of the shape `METHOD URI` parses into that method and URI:
      the split is unique, so backtracking has nothing else to find. */
  lemma RequestLineComplete(httpMethod: string, uri: string)
    requires |httpMethod| > 0 && AllIn(httpMethod, Word)
    requires |uri| > 0 && AllIn(uri, NotNewline)
    ensures ParseRequestLine(httpMethod + " " + uri) == Some(RequestLine(httpMethod, uri))
  {
    var line := httpMethod + " " + uri;
    RunEndIs(line, 0, Word, |httpMethod|);
    assert line[..|httpMethod|] == httpMethod;
    assert line[|httpMethod| + 1..] == uri;
  }

  /** The response start line, taken apart the way the pattern reads it. */
  predicate StatusLineAs(line: string, proto: string, version: string, code: string, reason: string) {
    && line == proto + "/" + version + " " + code + " " + reason
    && |proto| > 0 && AllIn(proto, Word)
    && VersionLike(version)
    && |code| > 0 && AllIn(code, Digit)
    && |reason| > 0 && AllIn(reason, Word)
  }

  /** A parsed status line is made of a protocol token, the version, the code
      and a reason phrase as the pattern demands. */
  lemma StatusLineSound(line: string)
    requires ParseStatusLine(line).Some?
    ensures var sl := ParseStatusLine(line).value;
      sl.StatusLine? && exists proto, reason :: StatusLineAs(line, proto, sl.version, sl.code, reason)
  {
    var parts := SplitStatusLine(line).value;
    assert StatusLineAs(line, parts.0, parts.1, parts.2, parts.3);
  }

  /** Every way the pattern can match a status line captures the same version
      and code, and ParseStatusLine returns them. */
  lemma StatusLineComplete(line: string, proto: string, version: string, code: string, reason: string)
    requires StatusLineAs(line, proto, version, code, reason)
    ensures ParseStatusLine(line) == Some(StatusLine(version, code))
  {
    SplitStatusLineOf(line, proto, version, code, reason);
  }

  /** SplitStatusLine finds the four parts of a line of the pattern's shape. */
  lemma SplitStatusLineOf(line: string, proto: string, version: string, code: string, reason: string)
    requires line == proto + "/" + version + " " + code + " " + reason
    requires |proto| > 0 && AllIn(proto, Word) && AllIn(code, Digit) && AllIn(reason, Word)
    ensures SplitStatusLine(line) == Some((proto, version, code, reason))
  {
    SlashCut(line, proto, version, code, reason);
    RunEndAt(line, 0, proto, Word, '/');
    RestCuts(line[|proto| + 1..], version, code, reason);
    SplitStatusLineAt(line, |proto|, |version|, |version| + 1 + |code|);
  }

  /** The part after the `/` splits at its last two spaces into version, code and reason. */
  lemma RestCuts(rest: string, version: string, code: string, reason: string)
    requires rest == version + " " + code + " " + reason
    requires AllIn(code, Digit) && AllIn(reason, Word)
    ensures var p2 := |version| + 1 + |code|;
      && p2 < |rest| && LastIndexOf(rest, ' ') == Some(p2)
      && LastIndexOf(rest[..p2], ' ') == Some(|version|)
      && rest[..|version|] == version && rest[|version| + 1..p2] == code && rest[p2 + 1..] == reason
  {
    var upto := version + " " + code;
    SpaceCut(rest, upto, reason);
    var p2 := |upto|;
    forall j | p2 < j < |rest| ensures rest[j] != ' ' {
      assert rest[j] == reason[j - p2 - 1];
    }
    LastIndexOfIs(rest, ' ', p2);
    SpaceCut(upto, version, code);
    forall j | |version| < j < |upto| ensures upto[j] != ' ' {
      assert upto[j] == code[j - |version| - 1];
    }
    LastIndexOfIs(upto, ' ', |version|);
    SliceOfPrefix(rest, p2, 0, |version|);
    SliceOfPrefix(rest, p2, |version| + 1, p2);
  }

  /** SplitStatusLine read off the positions of the `/` and the last two spaces. */
  lemma SplitStatusLineAt(line: string, q: nat, p1: nat, p2: nat)
    requires 0 < q < |line| && RunEnd(line, 0, Word) == q && line[q] == '/'
    requires LastIndexOf(line[q + 1..], ' ') == Some(p2)
    requires LastIndexOf(line[q + 1..][..p2], ' ') == Some(p1)
    ensures var rest := line[q + 1..];
      SplitStatusLine(line) == Some((line[..q], rest[..p1], rest[p1 + 1..p2], rest[p2 + 1..]))
  {
  }

  /** A slice of a prefix is a slice. */
  lemma SliceOfPrefix(s: string, n: nat, a: nat, b: nat)
    requires a <= b <= n <= |s|
    ensures s[..n][a..b] == s[a..b]
  {
  }

  /** A status line cut after its protocol token. */
  lemma SlashCut(line: string, proto: string, version: string, code: string, reason: string)
    requires line == proto + "/" + version + " " + code + " " + reason
    ensures |line| > |proto| && line[..|proto|] == proto && line[|proto|] == '/'
    ensures line[|proto| + 1..] == version + " " + code + " " + reason
  {
    assert line == proto + "/" + (version + " " + code + " " + reason);
  }

  /** Text cut at a space between two parts. */
  lemma SpaceCut(s: string, x: string, y: string)
    requires s == x + " " + y
    ensures |s| == |x| + 1 + |y| && s[..|x|] == x && s[|x|] == ' ' && s[|x| + 1..] == y
  {
  }

  // ----------------------------------------------------------- whole pattern

  /** What one successful match captures: the start line, group 3 (the header
      section) and group 5 (the body), which is "" when the optional group did
      not take part. */
  datatype FenceMatch = FenceMatch(start: StartLine, headerSection: string, body: string)

  /** The optional group `([^`]*```\w+\n([^`]*)```)?` tried at the start of
      `tail`: its inner text (group 5) when it matches, otherwise "". */
  function OptionalBody(tail: string): (r: string)
    ensures AllIn(r, NotBacktick)
  {
    var t := RunEnd(tail, 0, NotBacktick);
    if !StartsAt(tail, t, Fence) then ""
    else
      var w := RunEnd(tail, t + 3, Word);
      if w == t + 3 || w == |tail| || tail[w] != '\n' then ""
      else
        var b := RunEnd(tail, w + 1, NotBacktick);
        RunIn(tail, w + 1, b, NotBacktick);
        if StartsAt(tail, b, Fence) then tail[w + 1..b] else ""
  }

  /** The optional group read off the positions where its runs end. */
  lemma OptionalBodyAt(tail: string, t: nat, w: nat, b: nat)
    requires RunEnd(tail, 0, NotBacktick) == t && StartsAt(tail, t, Fence)
    requires RunEnd(tail, t + 3, Word) == w && t + 3 < w < |tail| && tail[w] == '\n'
    requires RunEnd(tail, w + 1, NotBacktick) == b && StartsAt(tail, b, Fence)
    ensures OptionalBody(tail) == tail[w + 1..b]
  {
  }

  /** The optional group takes the first fenced block after the header
      section: any text without a backtick, a fence, a word label and a
      newline, then group 5 up to the closing fence; whatever follows is
      left to the rest of the document. */
  lemma OptionalBodyOf(pre: string, lang: string, body: string, rest: string)
    requires AllIn(pre, NotBacktick) && |lang| > 0 && AllIn(lang, Word) && AllIn(body, NotBacktick)
    ensures OptionalBody(pre + Fence + lang + "\n" + body + Fence + rest) == body
  {
    var tail := pre + Fence + lang + "\n" + body + Fence + rest;
    PartsOfSeven(tail, pre, Fence, lang, "\n", body, Fence, rest);
    assert tail[..|pre|] == pre;
    OptionalBodySlices(tail, pre, lang, body);
  }

  /** The optional group found from the slices its block is made of. */
  lemma OptionalBodySlices(tail: string, pre: string, lang: string, body: string)
    requires AllIn(pre, NotBacktick) && |lang| > 0 && AllIn(lang, Word) && AllIn(body, NotBacktick)
    requires var t := |pre|; var w := t + 3 + |lang|; var b := w + 1 + |body|;
      && b + 3 <= |tail| && tail[..t] == pre && tail[t..t + 3] == Fence && tail[t + 3..w] == lang
      && tail[w..w + 1] == "\n" && tail[w + 1..b] == body && tail[b..b + 3] == Fence
    ensures OptionalBody(tail) == body
  {
    var t := |pre|;
    var w := t + 3 + |lang|;
    var b := w + 1 + |body|;
    assert tail[t] == tail[t..t + 3][0];
    RunEndAt(tail, 0, pre, NotBacktick, '`');
    assert tail[w] == tail[w..w + 1][0];
    RunEndAt(tail, t + 3, lang, Word, '\n');
    assert tail[b] == tail[b..b + 3][0];
    RunEndAt(tail, w + 1, body, NotBacktick, '`');
    OptionalBodyAt(tail, t, w, b);
  }

  /** Conversely, a non-empty group 5 comes from such a block. */
  lemma OptionalBodySound(tail: string) returns (pre: string, lang: string, rest: string)
    requires OptionalBody(tail) != ""
    ensures AllIn(pre, NotBacktick) && |lang| > 0 && AllIn(lang, Word)
    ensures tail == pre + Fence + lang + "\n" + OptionalBody(tail) + Fence + rest
  {
    var t := RunEnd(tail, 0, NotBacktick);
    var w := RunEnd(tail, t + 3, Word);
    var b := RunEnd(tail, w + 1, NotBacktick);
    pre, lang, rest := tail[..t], tail[t + 3..w], tail[b + 3..];
    RunIn(tail, 0, t, NotBacktick);
    assert tail[0..t] == pre;
    RunIn(tail, t + 3, w, Word);
    assert tail[w..w + 1] == "\n";
    CutInSeven(tail, t, t + 3, w, b, Fence, lang, "\n", tail[w + 1..b], Fence);
  }

  /** What the two patterns have in common, anchored at `i`: the marker, the
      start line up to the first newline, the header section up to the next
      backtick and its closing fence; `tail` is the text after that fence,
      where the optional body group is tried. */
  datatype Frame = Frame(line: string, headerSection: string, tail: string)

  function FrameAt(s: string, i: nat): (r: Option<Frame>)
    ensures r.Some? ==> AllIn(r.value.line, NotNewline) && AllIn(r.value.headerSection, NotBacktick)
  {
    if !StartsAt(s, i, Marker) then None
    else
      var p := i + |Marker|;
      var e := RunEnd(s, p, NotNewline);
      if e == |s| then None
      else
        var h := RunEnd(s, e + 1, NotBacktick);
        if !StartsAt(s, h, Fence) then None
        else
          RunIn(s, p, e, NotNewline);
          RunIn(s, e + 1, h, NotBacktick);
          Some(Frame(s[p..e], s[e + 1..h], s[h + 3..]))
  }

  /** The pattern of grammar `g` anchored at position `i` of `s`. */
  function MatchAt(g: Grammar, s: string, i: nat): (r: Option<FenceMatch>)
    ensures r.Some? ==> Yields(g, r.value.start)
    ensures r.Some? ==> AllIn(r.value.headerSection, NotBacktick) && AllIn(r.value.body, NotBacktick)
  {
    match FrameAt(s, i)
    case None => None
    case Some(f) =>
      match ParseStartLine(g, f.line)
      case None => None
      case Some(sl) => Some(FenceMatch(sl, f.headerSection, OptionalBody(f.tail)))
  }

  /** `s` cut at the positions a match passes through, and glued back. */
  lemma CutInSeven(s: string, i: nat, p: nat, e: nat, h: nat, b: string, c: string, d: string, x: string, y: string)
    requires i <= p <= e < h && h + 3 <= |s|
    requires s[i..p] == b && s[p..e] == c && s[e..e + 1] == d && s[e + 1..h] == x && s[h..h + 3] == y
    ensures s == s[..i] + b + c + d + x + y + s[h + 3..]
  {
    PrefixGrows(s, i, p);
    PrefixGrows(s, p, e);
    PrefixGrows(s, e, e + 1);
    PrefixGrows(s, e + 1, h);
    PrefixGrows(s, h, h + 3);
    assert s == s[..h + 3] + s[h + 3..];
  }

  /** A prefix followed by the next slice is the longer prefix. */
  lemma PrefixGrows(s: string, a: nat, b: nat)
    requires a <= b <= |s|
    ensures s[..a] + s[a..b] == s[..b]
  {
  }

  /** The pieces of a seven-part concatenation are its slices. */
  lemma PartsOfSeven(s: string, a: string, b: string, c: string, d: string, e: string, f: string, g: string)
    requires s == a + b + c + d + e + f + g
    ensures var i1 := |a|; var i2 := i1 + |b|; var i3 := i2 + |c|; var i4 := i3 + |d|;
      var i5 := i4 + |e|; var i6 := i5 + |f|;
      && s[i1..i2] == b && s[i2..i3] == c && s[i3..i4] == d && s[i4..i5] == e
      && s[i5..i6] == f && s[i6..] == g
  {
    var i1 := |a|; var i2 := i1 + |b|; var i3 := i2 + |c|; var i4 := i3 + |d|;
    var i5 := i4 + |e|; var i6 := i5 + |f|;
    assert s[i1..i2] == b;
    assert s[i2..i3] == c;
    assert s[i3..i4] == d;
    assert s[i4..i5] == e;
    assert s[i5..i6] == f;
    assert s[i6..] == g;
  }

  /** A run of `cls` characters followed by one outside `cls` ends where it appears to. */
  lemma RunEndAt(s: string, from: nat, run: string, cls: CharClass, stop: char)
    requires AllIn(run, cls) && !InClass(stop, cls)
    requires StartsAt(s, from, run) && from + |run| < |s| && s[from + |run|] == stop
    ensures RunEnd(s, from, cls) == from + |run|
  {
    forall j | from <= j < from + |run| ensures InClass(s[j], cls) {
      assert s[j] == s[from..from + |run|][j - from];
    }
    RunEndIs(s, from, cls, from + |run|);
  }

  /** A frame at `i` is the marker, a line without newlines, a newline, a
      header section without backticks, a fence and the tail. */
  lemma FrameAtSound(s: string, i: nat)
    requires FrameAt(s, i).Some?
    ensures i <= |s|
    ensures var f := FrameAt(s, i).value;
      && AllIn(f.line, NotNewline)
      && AllIn(f.headerSection, NotBacktick)
      && s == s[..i] + Marker + f.line + "\n" + f.headerSection + Fence + f.tail
  {
    var p := i + |Marker|;
    var e := RunEnd(s, p, NotNewline);
    var h := RunEnd(s, e + 1, NotBacktick);
    assert s[i..p] == Marker;
    assert s[e..e + 1] == "\n";
    assert s[h..h + 3] == Fence;
    CutInSeven(s, i, p, e, h, Marker, s[p..e], "\n", s[e + 1..h], Fence);
  }

  /** Conversely, text of that shape is a frame at the end of `head`. */
  lemma FrameAtComplete(s: string, head: string, line: string, headerSection: string, tail: string)
    requires s == head + Marker + line + "\n" + headerSection + Fence + tail
    requires AllIn(line, NotNewline) && AllIn(headerSection, NotBacktick)
    ensures FrameAt(s, |head|) == Some(Frame(line, headerSection, tail))
  {
    PartsOfSeven(s, head, Marker, line, "\n", headerSection, Fence, tail);
    FrameAtSlices(s, |head|, line, headerSection);
  }

  /** A frame found from the slices it is made of. */
  lemma FrameAtSlices(s: string, i: nat, line: string, headerSection: string)
    requires AllIn(line, NotNewline) && AllIn(headerSection, NotBacktick)
    requires var p := i + |Marker|; var e := p + |line|; var h := e + 1 + |headerSection|;
      && h + 3 <= |s| && s[i..p] == Marker && s[p..e] == line && s[e..e + 1] == "\n"
      && s[e + 1..h] == headerSection && s[h..h + 3] == Fence
    ensures var h := i + |Marker| + |line| + 1 + |headerSection|;
      FrameAt(s, i) == Some(Frame(line, headerSection, s[h + 3..]))
  {
    var p := i + |Marker|;
    var e := p + |line|;
    var h := e + 1 + |headerSection|;
    assert s[e] == s[e..e + 1][0];
    RunEndAt(s, p, line, NotNewline, '\n');
    assert s[h] == s[h..h + 3][0];
    RunEndAt(s, e + 1, headerSection, NotBacktick, '`');
    FrameAtPositions(s, i, e, h);
  }

  /** A frame read off the positions where its runs end. */
  lemma FrameAtPositions(s: string, i: nat, e: nat, h: nat)
    requires StartsAt(s, i, Marker)
    requires RunEnd(s, i + |Marker|, NotNewline) == e < |s|
    requires RunEnd(s, e + 1, NotBacktick) == h && StartsAt(s, h, Fence)
    ensures FrameAt(s, i) == Some(Frame(s[i + |Marker|..e], s[e + 1..h], s[h + 3..]))
  {
  }

  /** A match at `i` is a frame whose start line the grammar accepts. */
  lemma MatchAtSound(g: Grammar, s: string, i: nat) returns (tail: string)
    requires MatchAt(g, s, i).Some?
    ensures i <= |s|
    ensures var m := MatchAt(g, s, i).value;
      exists line ::
        && AllIn(line, NotNewline)
        && ParseStartLine(g, line) == Some(m.start)
        && AllIn(m.headerSection, NotBacktick)
        && s == s[..i] + Marker + line + "\n" + m.headerSection + Fence + tail
        && m.body == OptionalBody(tail)
  {
    FrameAtSound(s, i);
    tail := FrameAt(s, i).value.tail;
    var line := FrameAt(s, i).value.line;
    assert ParseStartLine(g, line) == Some(MatchAt(g, s, i).value.start);
  }

  /** Conversely, text of that shape is matched at the end of `head`, with those captures. */
  lemma MatchAtComplete(g: Grammar, s: string, head: string, line: string, headerSection: string, tail: string, sl: StartLine)
    requires s == head + Marker + line + "\n" + headerSection + Fence + tail
    requires AllIn(line, NotNewline) && ParseStartLine(g, line) == Some(sl)
    requires AllIn(headerSection, NotBacktick)
    ensures MatchAt(g, s, |head|) == Some(FenceMatch(sl, headerSection, OptionalBody(tail)))
  {
    FrameAtComplete(s, head, line, headerSection, tail);
  }

  /** The leftmost position at or after `from` where the anchored pattern matches. */
  function FirstMatch(g: Grammar, s: string, from: nat): (r: Option<nat>)
    requires from <= |s|
    decreases |s| - from
    ensures r.Some? ==> from <= r.value <= |s| && MatchAt(g, s, r.value).Some?
    ensures r.Some? ==> forall k :: from <= k < r.value ==> MatchAt(g, s, k).None?
    ensures r.None? ==> forall k :: from <= k <= |s| ==> MatchAt(g, s, k).None?
  {
    if MatchAt(g, s, from).Some? then Some(from)
    else if from == |s| then None
    else FirstMatch(g, s, from + 1)
  }

  /** preg_match with the pattern of `g`: the captures of the leftmost match. */
  function Match(g: Grammar, s: string): (r: Option<FenceMatch>)
    ensures r.Some? ==> Yields(g, r.value.start)
    ensures r.Some? ==> AllIn(r.value.headerSection, NotBacktick) && AllIn(r.value.body, NotBacktick)
  {
    match FirstMatch(g, s, 0)
    case None => None
    case Some(i) => MatchAt(g, s, i)
  }

  /** Text that starts with a match is matched right there. */
  lemma MatchAtStart(g: Grammar, s: string)
    requires MatchAt(g, s, 0).Some?
    ensures Match(g, s) == MatchAt(g, s, 0)
  {
  }

  /** A block at the very start of the text is the leftmost match. */
  lemma BlockMatch(g: Grammar, line: string, sl: StartLine, headerSection: string, tail: string)
    requires AllIn(line, NotNewline) && ParseStartLine(g, line) == Some(sl)
    requires AllIn(headerSection, NotBacktick)
    ensures Match(g, Marker + line + "\n" + headerSection + Fence + tail)
      == Some(FenceMatch(sl, headerSection, OptionalBody(tail)))
  {
    var s := Marker + line + "\n" + headerSection + Fence + tail;
    assert "" + Marker == Marker;
    MatchAtComplete(g, s, "", line, headerSection, tail, sl);
    MatchAtStart(g, s);
  }
}
