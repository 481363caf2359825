/** The PHP string functions the fixture harness relies on, written out for
    the inputs it gives them: strpos-style search, explode (unlimited and with
    limit 2), trim with its default character list, strtoupper, a single-character
    str_replace and the (int) cast of a digit string. */
module PhpStrings {
  import opened Wrappers

  /** True when `pat` occurs in `s` starting at index `j`. */
  predicate OccursAt(s: string, pat: string, j: int) {
    0 <= j && j + |pat| <= |s| && s[j..j + |pat|] == pat
  }

  /** `s` has no occurrence of `pat` at all. */
  predicate NoOccurrence(s: string, pat: string) {
    forall j :: 0 <= j <= |s| ==> !OccursAt(s, pat, j)
  }

  /** The first index at or after `from` where `pat` occurs in `s` (PHP's strpos with an offset). */
  function Find(s: string, pat: string, from: nat): (r: Option<nat>)
    decreases |s| - from
    ensures r.Some? ==> from <= r.value && OccursAt(s, pat, r.value)
    ensures r.Some? ==> forall j :: from <= j < r.value ==> !OccursAt(s, pat, j)
    ensures r.None? ==> forall j :: from <= j ==> !OccursAt(s, pat, j)
  {
    if from + |pat| > |s| then None
    else if s[from..from + |pat|] == pat then Some(from)
    else Find(s, pat, from + 1)
  }

  /** The first occurrence is determined by its two defining facts. */
  lemma FindIs(s: string, pat: string, from: nat, k: nat)
    requires from <= k && OccursAt(s, pat, k)
    requires forall j :: from <= j < k ==> !OccursAt(s, pat, j)
    ensures Find(s, pat, from) == Some(k)
  {
  }

  /** An occurrence inside a prefix of `s` is an occurrence in `s`. */
  lemma OccursInPrefix(s: string, pat: string, i: nat, j: int)
    requires i <= |s| && OccursAt(s[..i], pat, j)
    ensures OccursAt(s, pat, j)
  {
    assert s[..i][j..j + |pat|] == s[j..j + |pat|];
  }

  /** `s` does not contain the character `c`. */
  predicate Lacks(s: string, c: char) {
    forall j :: 0 <= j < |s| ==> s[j] != c
  }

  /** For a single character, having no occurrence is the same as lacking it. */
  lemma NoOccurrenceLacks(s: string, c: char)
    ensures NoOccurrence(s, [c]) <==> Lacks(s, c)
  {
    if NoOccurrence(s, [c]) {
      forall j | 0 <= j < |s| ensures s[j] != c {
        assert !OccursAt(s, [c], j);
        assert s[j..j + 1] == [s[j]];
      }
    }
    if Lacks(s, c) {
      forall j | 0 <= j < |s| ensures !OccursAt(s, [c], j) {
        assert s[j..j + 1] == [s[j]];
      }
    }
  }

  /** A concatenation lacks a character exactly when both its parts do. */
  lemma LacksConcat(x: string, y: string, c: char)
    ensures Lacks(x + y, c) <==> Lacks(x, c) && Lacks(y, c)
  {
    if Lacks(x + y, c) {
      forall j | 0 <= j < |x| ensures x[j] != c { assert x[j] == (x + y)[j]; }
      forall j | 0 <= j < |y| ensures y[j] != c { assert y[j] == (x + y)[|x| + j]; }
    }
  }

  /** The pieces joined back with `sep` between them (PHP's implode). */
  function Join(pieces: seq<string>, sep: string): string
    requires |pieces| > 0
  {
    if |pieces| == 1 then pieces[0] else pieces[0] + sep + Join(pieces[1..], sep)
  }

  /** PHP's explode($sep, $s) without a limit: the text between successive,
      non-overlapping occurrences of `sep`, searched left to right. */
  function Explode(sep: string, s: string): (r: seq<string>)
    requires |sep| > 0
    decreases |s|
    ensures |r| > 0
  {
    match Find(s, sep, 0)
    case None => [s]
    case Some(i) => [s[..i]] + Explode(sep, s[i + |sep|..])
  }

  /** The pieces join back to the text, and none holds the separator. */
  lemma {:induction false} ExplodeJoin(sep: string, s: string)
    requires |sep| > 0
    ensures Join(Explode(sep, s), sep) == s
    ensures forall k :: 0 <= k < |Explode(sep, s)| ==> NoOccurrence(Explode(sep, s)[k], sep)
    decreases |s|
  {
    match Find(s, sep, 0)
    case None =>
    case Some(i) =>
      var rest := s[i + |sep|..];
      ExplodeJoin(sep, rest);
      assert NoOccurrence(s[..i], sep) by {
        forall j ensures !OccursAt(s[..i], sep, j) {
          if OccursAt(s[..i], sep, j) { OccursInPrefix(s, sep, i, j); }
        }
      }
      assert s == s[..i] + sep + rest;
      var r := Explode(sep, s);
      assert r == [s[..i]] + Explode(sep, rest);
      assert r[1..] == Explode(sep, rest);
      forall k | 1 <= k < |r| ensures NoOccurrence(r[k], sep) {
        assert r[k] == Explode(sep, rest)[k - 1];
      }
  }

  /** Cutting a single-character separator off the front: a first line
      without it becomes the first piece, and the rest is exploded on its own. */
  lemma ExplodeCons(sep: string, line: string, rest: string)
    requires |sep| == 1 && Lacks(line, sep[0])
    ensures Explode(sep, line + sep + rest) == [line] + Explode(sep, rest)
  {
    var s := line + sep + rest;
    forall j | 0 <= j < |line| ensures !OccursAt(s, sep, j) {
      assert s[j] == line[j];
      assert s[j..j + 1][0] == s[j];
    }
    assert OccursAt(s, sep, |line|) by { assert s[|line|..|line| + 1] == sep; }
    FindIs(s, sep, 0, |line|);
    assert s[..|line|] == line;
    assert s[|line| + 1..] == rest;
  }

  /** Explode on a single character distributes over a separator in the input. */
  lemma {:induction false} ExplodeAppend(sep: string, a: string, b: string)
    requires |sep| == 1
    ensures Explode(sep, a + sep + b) == Explode(sep, a) + Explode(sep, b)
    decreases |a|
  {
    match Find(a, sep, 0)
    case None =>
      FindNoneLacks(a, sep);
      ExplodeCons(sep, a, b);
    case Some(i) =>
      ExplodeAppend(sep, a[i + 1..], b);
      ExplodeAppendStep(sep, a, b, i);
  }

  /** The inductive step of ExplodeAppend: the first piece of `a` comes first. */
  lemma ExplodeAppendStep(sep: string, a: string, b: string, i: nat)
    requires |sep| == 1 && Find(a, sep, 0) == Some(i)
    requires Explode(sep, a[i + 1..] + sep + b) == Explode(sep, a[i + 1..]) + Explode(sep, b)
    ensures Explode(sep, a + sep + b) == Explode(sep, a) + Explode(sep, b)
  {
    ExplodeAtFirst(sep, a, b, i);
    ConsAssoc(a[..i], Explode(sep, a[i + 1..]), Explode(sep, b));
  }

  lemma ConsAssoc<T>(h: T, x: seq<T>, y: seq<T>)
    ensures [h] + (x + y) == [h] + x + y
  {
  }

  /** Both `a` and `a + sep + b` explode into the text before the first
      separator of `a` followed by the pieces of what comes after it. */
  lemma ExplodeAtFirst(sep: string, a: string, b: string, i: nat)
    requires |sep| == 1 && Find(a, sep, 0) == Some(i)
    ensures Explode(sep, a) == [a[..i]] + Explode(sep, a[i + 1..])
    ensures Explode(sep, a + sep + b) == [a[..i]] + Explode(sep, a[i + 1..] + sep + b)
  {
    var pre, post := a[..i], a[i + 1..];
    CutAtFirst(a, sep, i);
    ExplodeCons(sep, pre, post + sep + b);
    assert a + sep + b == pre + sep + (post + sep + b) by {
      Regroup(pre, sep, post, b);
    }
  }

  /** Regrouping a five-part concatenation whose middle repeats. */
  lemma Regroup(p: string, sep: string, q: string, b: string)
    ensures p + sep + q + sep + b == p + sep + (q + sep + b)
  {
  }

  /** No occurrence of a one-character pattern: the character is absent. */
  lemma FindNoneLacks(s: string, pat: string)
    requires |pat| == 1 && Find(s, pat, 0).None?
    ensures Lacks(s, pat[0])
  {
    forall j | 0 <= j < |s| ensures s[j] != pat[0] {
      assert !OccursAt(s, pat, j);
      assert s[j] == s[j..j + 1][0];
    }
  }

  /** The text around the first occurrence of a one-character separator. */
  lemma CutAtFirst(s: string, sep: string, i: nat)
    requires |sep| == 1 && Find(s, sep, 0) == Some(i)
    ensures s == s[..i] + sep + s[i + 1..] && Lacks(s[..i], sep[0])
  {
    FindChar(s, sep, i);
    assert s[i..i + 1] == sep;
  }

  /** The first occurrence of a character: none before it, and the character itself. */
  lemma FindChar(s: string, pat: string, i: nat)
    requires |pat| == 1 && Find(s, pat, 0) == Some(i)
    ensures i < |s| && s[i] == pat[0]
    ensures forall j :: 0 <= j < i ==> s[j] != pat[0]
  {
    assert s[i] == s[i..i + 1][0];
    forall j | 0 <= j < i ensures s[j] != pat[0] {
      assert !OccursAt(s, pat, j);
      assert s[j] == s[j..j + 1][0];
    }
  }

  /** PHP's explode($sep, $s, 2): the text before the first `sep`, and the whole
      remainder after it when there is one. */
  function SplitFirst(sep: string, s: string): (r: (string, Option<string>))
    requires |sep| > 0
    ensures r.1.None? <==> NoOccurrence(s, sep)
    ensures r.1.None? ==> r.0 == s
    ensures r.1.Some? ==> s == r.0 + sep + r.1.value && NoOccurrence(r.0 + sep[..|sep| - 1], sep)
  {
    match Find(s, sep, 0)
    case None => (s, None)
    case Some(i) =>
      var upto := s[..i + |sep| - 1];
      assert NoOccurrence(upto, sep) by {
        forall j ensures !OccursAt(upto, sep, j) {
          if OccursAt(upto, sep, j) { OccursInPrefix(s, sep, i + |sep| - 1, j); }
        }
      }
      assert upto == s[..i] + sep[..|sep| - 1];
      assert s == s[..i] + sep + s[i + |sep|..];
      (s[..i], Some(s[i + |sep|..]))
  }

  /** Exploding a string without `d` gives pieces without `d`. */
  lemma {:induction false} ExplodeLacks(sep: string, s: string, d: char)
    requires |sep| > 0 && Lacks(s, d)
    ensures forall k :: 0 <= k < |Explode(sep, s)| ==> Lacks(Explode(sep, s)[k], d)
    decreases |s|
  {
    match Find(s, sep, 0)
    case None =>
    case Some(i) =>
      ExplodeLacks(sep, s[i + |sep|..], d);
      assert Explode(sep, s) == [s[..i]] + Explode(sep, s[i + |sep|..]);
  }

  /** Splitting at the first `c` when the text before it has none. */
  lemma SplitFirstAt(c: char, name: string, rest: string)
    requires forall j :: 0 <= j < |name| ==> name[j] != c
    ensures SplitFirst([c], name + [c] + rest) == (name, Some(rest))
  {
    var s := name + [c] + rest;
    forall j | 0 <= j < |name| ensures !OccursAt(s, [c], j) {
      assert s[j] == name[j];
    }
    assert OccursAt(s, [c], |name|) by { assert s[|name|..|name| + 1] == [c]; }
    FindIs(s, [c], 0, |name|);
    assert s[..|name|] == name;
    assert s[|name| + 1..] == rest;
  }

  // ---------------------------------------------------------------- trim

  /** The characters PHP's trim removes by default: " \t\n\r\0\x0B". */
  predicate IsTrimChar(c: char) {
    c == ' ' || c == '\t' || c == '\n' || c == '\r' || c == '\0' || c == '\U{000B}'
  }

  /** Neither end of `s` is a character trim would remove. */
  predicate IsTrimmed(s: string) {
    |s| == 0 || (!IsTrimChar(s[0]) && !IsTrimChar(s[|s| - 1]))
  }

  /** PHP's ltrim: the suffix left after removing every leading trim character. */
  function TrimLeft(s: string): (r: string)
    ensures |r| <= |s| && r == s[|s| - |r|..]
    ensures forall j :: 0 <= j < |s| - |r| ==> IsTrimChar(s[j])
    ensures |r| > 0 ==> !IsTrimChar(r[0])
  {
    if |s| > 0 && IsTrimChar(s[0]) then TrimLeft(s[1..]) else s
  }

  /** PHP's rtrim: the prefix left after removing every trailing trim character. */
  function TrimRight(s: string): (r: string)
    ensures |r| <= |s| && r == s[..|r|]
    ensures forall j :: |r| <= j < |s| ==> IsTrimChar(s[j])
    ensures |r| > 0 ==> !IsTrimChar(r[|r| - 1])
  {
    if |s| > 0 && IsTrimChar(s[|s| - 1]) then TrimRight(s[..|s| - 1]) else s
  }

  /** PHP's trim: `s` without its leading and trailing trim characters. */
  function Trim(s: string): (r: string)
    ensures IsTrimmed(r)
  {
    var l := TrimLeft(s);
    var r := TrimRight(l);
    assert |r| > 0 ==> r[0] == l[0];
    r
  }

  /** Trim leaves a trimmed string alone. */
  lemma TrimOfTrimmed(s: string)
    requires IsTrimmed(s)
    ensures Trim(s) == s
  {
  }

  /** Trim is idempotent. */
  lemma TrimIdempotent(s: string)
    ensures Trim(Trim(s)) == Trim(s)
  {
    TrimOfTrimmed(Trim(s));
  }

  /** Trimming never introduces a character: the result is a slice of `s`. */
  lemma TrimLacks(s: string, c: char)
    requires Lacks(s, c)
    ensures Lacks(Trim(s), c)
  {
    var l := TrimLeft(s);
    assert Lacks(l, c) by {
      forall j | 0 <= j < |l| ensures l[j] != c { assert l[j] == s[|s| - |l| + j]; }
    }
    var r := TrimRight(l);
    assert Lacks(r, c) by {
      forall j | 0 <= j < |r| ensures r[j] != c { assert r[j] == l[j]; }
    }
  }

  /** Leading whitespace before a trimmed value disappears. */
  lemma {:induction false} TrimLeadingBlanks(pad: string, v: string)
    requires forall j :: 0 <= j < |pad| ==> IsTrimChar(pad[j])
    requires IsTrimmed(v)
    ensures Trim(pad + v) == v
    decreases |pad|
  {
    if |pad| == 0 {
      assert pad + v == v;
      TrimOfTrimmed(v);
    } else {
      assert (pad + v)[1..] == pad[1..] + v;
      assert TrimLeft(pad + v) == TrimLeft(pad[1..] + v);
      TrimLeadingBlanks(pad[1..], v);
      assert TrimLeft(pad[1..] + v) == TrimLeft(v) by {
        // both sides are the suffix without leading trim characters
        LeftTrimPrefix(pad[1..], v);
      }
    }
  }

  /** Trim removes exactly the padding: trim characters on both sides of a
      trimmed value leave the value. Every string has this shape, with the
      value Trim of it, so this pins trim down. */
  lemma TrimAround(pad1: string, v: string, pad2: string)
    requires forall j :: 0 <= j < |pad1| ==> IsTrimChar(pad1[j])
    requires forall j :: 0 <= j < |pad2| ==> IsTrimChar(pad2[j])
    requires IsTrimmed(v)
    ensures Trim(pad1 + v + pad2) == v
  {
    var s := pad1 + v + pad2;
    LeftTrimPrefixOf(pad1, v, pad2);
    if |v| == 0 {
      LeftTrimAllPad(v, pad2);
      TrimVia(s, v);
    } else {
      LeftTrimStops(v, pad2);
      TrimVia(s, v + pad2);
      RightTrimSuffix(v, pad2);
    }
  }

  /** ltrim of padding, a value and padding discards the first padding. */
  lemma LeftTrimPrefixOf(pad1: string, v: string, pad2: string)
    requires forall j :: 0 <= j < |pad1| ==> IsTrimChar(pad1[j])
    ensures TrimLeft(pad1 + v + pad2) == TrimLeft(v + pad2)
  {
    assert pad1 + v + pad2 == pad1 + (v + pad2);
    LeftTrimPrefix(pad1, v + pad2);
  }

  /** ltrim of nothing but padding is empty. */
  lemma LeftTrimAllPad(v: string, pad: string)
    requires |v| == 0 && forall j :: 0 <= j < |pad| ==> IsTrimChar(pad[j])
    ensures TrimLeft(v + pad) == v
  {
    assert v + pad == pad + v;
    LeftTrimPrefix(pad, v);
  }

  /** ltrim stops at a first character it does not remove. */
  lemma LeftTrimStops(v: string, pad: string)
    requires |v| > 0 && !IsTrimChar(v[0])
    ensures TrimLeft(v + pad) == v + pad
  {
    assert (v + pad)[0] == v[0];
  }

  /** Trim is rtrim after ltrim. */
  lemma TrimVia(s: string, l: string)
    requires TrimLeft(s) == l
    ensures Trim(s) == TrimRight(l)
  {
  }

  /** rtrim discards a suffix made of trim characters. */
  lemma {:induction false} RightTrimSuffix(v: string, pad: string)
    requires forall j :: 0 <= j < |pad| ==> IsTrimChar(pad[j])
    ensures TrimRight(v + pad) == TrimRight(v)
    decreases |pad|
  {
    if |pad| > 0 {
      var n := |pad| - 1;
      assert (v + pad)[..|v| + n] == v + pad[..n];
      assert (v + pad)[|v| + n] == pad[n];
      RightTrimSuffix(v, pad[..n]);
    } else {
      assert v + pad == v;
    }
  }

  /** A space before a trimmed value disappears. */
  lemma TrimSpaceBefore(v: string)
    requires IsTrimmed(v)
    ensures Trim(" " + v) == v
  {
    assert IsTrimChar(" "[0]);
    TrimLeadingBlanks(" ", v);
  }

  /** ltrim discards a prefix made of trim characters. */
  lemma {:induction false} LeftTrimPrefix(pad: string, v: string)
    requires forall j :: 0 <= j < |pad| ==> IsTrimChar(pad[j])
    ensures TrimLeft(pad + v) == TrimLeft(v)
    decreases |pad|
  {
    if |pad| > 0 {
      assert (pad + v)[1..] == pad[1..] + v;
      LeftTrimPrefix(pad[1..], v);
    } else {
      assert pad + v == v;
    }
  }

  // ---------------------------------------------------------- case, replace

  /** ASCII upper-casing of one character, as strtoupper does since PHP 8.2. */
  function UpperChar(c: char): (u: char)
    ensures !('a' <= u <= 'z')
    ensures 'a' <= c <= 'z' ==> u as int == c as int - 32
    ensures !('a' <= c <= 'z') ==> u == c
  {
    if 'a' <= c <= 'z' then (c as int - 32) as char else c
  }

  /** PHP's strtoupper: every ASCII lower-case letter replaced by its capital. */
  function StrToUpper(s: string): (r: string)
    ensures |r| == |s|
    ensures forall j :: 0 <= j < |s| ==> r[j] == UpperChar(s[j])
  {
    if |s| == 0 then [] else [UpperChar(s[0])] + StrToUpper(s[1..])
  }

  /** PHP's str_replace($from, $to, $s) for one-character search and replacement. */
  function StrReplaceChar(from: char, to: char, s: string): (r: string)
    ensures |r| == |s|
    ensures forall j :: 0 <= j < |s| ==> r[j] == (if s[j] == from then to else s[j])
  {
    if |s| == 0 then [] else [if s[0] == from then to else s[0]] + StrReplaceChar(from, to, s[1..])
  }

  // ------------------------------------------------------------- integers

  predicate IsDigit(c: char) { '0' <= c <= '9' }

  /** PHP_INT_MAX on a 64-bit build. */
  const PhpIntMax: int := 0x7fff_ffff_ffff_ffff

  /** The value of a run of decimal digits. */
  function DigitsValue(d: string): (n: nat)
    requires forall j :: 0 <= j < |d| ==> IsDigit(d[j])
  {
    if |d| == 0 then 0 else assert IsDigit(d[|d| - 1]); 10 * DigitsValue(d[..|d| - 1]) + (d[|d| - 1] as int - '0' as int)
  }

  /** The smallest integer that a correctly rounded decimal-to-double
      conversion turns into infinity: the midpoint 2^1024 - 2^970 between the
      largest double and 2^1024, which rounds to the even side, the infinite one. */
  const DoubleOverflow: int := 179769313486231580793728971405303415079934132710037826936173778980444968292764750946649017977587207096330286416692887910946555547851940402630657488671505820681908902000708383676273854845817711531764475730270069855571366959622842914819860834936475292719074168444365510704342711559699508093042880177904174497792

  /** PHP's (int) cast of a digit string. A value that fits a 64-bit integer
      is kept; a longer run is read as a double, which saturates at
      PHP_INT_MAX while it is finite and casts to 0 once it is infinite. */
  function IntCast(d: string): (n: int)
    requires forall j :: 0 <= j < |d| ==> IsDigit(d[j])
    ensures 0 <= n <= PhpIntMax
    ensures DigitsValue(d) <= PhpIntMax ==> n == DigitsValue(d)
    ensures PhpIntMax < DigitsValue(d) < DoubleOverflow ==> n == PhpIntMax
    ensures DoubleOverflow <= DigitsValue(d) ==> n == 0
  {
    if DigitsValue(d) <= PhpIntMax then DigitsValue(d)
    else if DigitsValue(d) < DoubleOverflow then PhpIntMax
    else 0
  }

  /** The decimal digits of `n` without leading zeros. */
  function Decimal(n: nat): (d: string)
    ensures |d| > 0 && forall j :: 0 <= j < |d| ==> IsDigit(d[j])
  {
    if n < 10 then [('0' as int + n) as char] else Decimal(n / 10) + [('0' as int + n % 10) as char]
  }

  /** Reading back the decimal digits of `n` gives `n`. */
  lemma {:induction false} DecimalValue(n: nat)
    ensures DigitsValue(Decimal(n)) == n
  {
    var d := Decimal(n);
    if n >= 10 {
      assert d[..|d| - 1] == Decimal(n / 10);
      DecimalValue(n / 10);
    }
  }
}
