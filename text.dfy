/** Models of the Python `str` operations the report scripts rely on:
    `strip`, `lstrip`, `startswith`, `in` (substring), `split`, `join`,
    `splitlines`, `lower`, `isdigit`, `replace`, decimal formatting of
    integers and the code-point ordering `sorted` uses on strings. */
module Text {

  /** The characters for which Python's `str.isspace()` holds; `strip()` and
      the regular-expression class `\s` use the same set. */
  predicate IsSpace(c: char) {
    c == ' ' || ('\t' <= c <= '\r') || ('\U{1c}' <= c <= '\U{1f}')
    || c == '\U{85}' || c == '\U{a0}' || c == '\U{1680}'
    || ('\U{2000}' <= c <= '\U{200a}') || c == '\U{2028}' || c == '\U{2029}'
    || c == '\U{202f}' || c == '\U{205f}' || c == '\U{3000}'
  }

  /** The line boundaries `str.splitlines()` splits on (`\r\n` counts as one). */
  predicate IsLineBreak(c: char) {
    c == '\n' || c == '\r' || c == '\U{b}' || c == '\U{c}'
    || ('\U{1c}' <= c <= '\U{1e}') || c == '\U{85}' || c == '\U{2028}' || c == '\U{2029}'
  }

  predicate IsDigit(c: char) { '0' <= c <= '9' }

  /** `s.isdigit()`: non-empty and made of decimal digits. */
  predicate IsDigits(s: string) {
    |s| > 0 && forall i :: 0 <= i < |s| ==> IsDigit(s[i])
  }

  predicate NoDup<T(==)>(s: seq<T>) {
    forall i, j :: 0 <= i < j < |s| ==> s[i] != s[j]
  }

  // ---------------------------------------------------------------- prefixes

  /** `s.startswith(p)` */
  predicate StartsWith(s: string, p: string) {
    |p| <= |s| && s[..|p|] == p
  }

  /** `p in s`: `p` occurs in `s` at some position. */
  predicate Contains(s: string, p: string)
    decreases |s|
  {
    StartsWith(s, p) || (|s| > 0 && Contains(s[1..], p))
  }

  /** A pattern cannot start inside a prefix that lacks its first character. */
  lemma {:induction false} ContainsAfterPrefix(q: string, v: string, p: string)
    requires |p| > 0 && p[0] !in q && !Contains(v, p)
    ensures !Contains(q + v, p)
  {
    if q != [] {
      assert (q + v)[1..] == q[1..] + v;
      ContainsAfterPrefix(q[1..], v, p);
      assert (q + v)[0] == q[0];
    } else {
      assert q + v == v;
    }
  }

  /** Whatever contains `p + q` contains `p`. */
  lemma {:induction false} ContainsPrefixOf(s: string, p: string, q: string)
    requires Contains(s, p + q)
    ensures Contains(s, p)
    decreases |s|
  {
    if StartsWith(s, p + q) {
      assert s[..|p|] == (p + q)[..|p|] == p;
    } else {
      ContainsPrefixOf(s[1..], p, q);
    }
  }

  /** Lower-casing distributes over the positions of an occurrence. */
  lemma {:induction false} ContainsLower(s: string, p: string)
    requires Contains(s, p)
    ensures Contains(Lower(s), Lower(p))
    decreases |s|
  {
    if StartsWith(s, p) {
      assert Lower(s)[..|p|] == Lower(p);
    } else {
      assert Lower(s)[1..] == Lower(s[1..]);
      ContainsLower(s[1..], p);
    }
  }

  // ---------------------------------------------------------------- stripping

  /** The text has no white space at either end. */
  predicate IsTrimmed(s: string) {
    s == [] || (!IsSpace(s[0]) && !IsSpace(s[|s| - 1]))
  }

  /** `s.strip()`: drops the white space at both ends. */
  function Strip(s: string): (r: string)
    ensures IsTrimmed(r) && |r| <= |s|
    ensures IsTrimmed(s) ==> r == s
    decreases |s|
  {
    if |s| > 0 && IsSpace(s[0]) then Strip(s[1..])
    else if |s| > 0 && IsSpace(s[|s| - 1]) then Strip(s[..|s| - 1])
    else s
  }

  /** `s.strip()` is empty exactly when every character is white space. */
  lemma {:induction false} StripEmpty(s: string)
    ensures Strip(s) == "" <==> forall i :: 0 <= i < |s| ==> IsSpace(s[i])
    decreases |s|
  {
    if |s| > 0 && IsSpace(s[0]) {
      StripEmpty(s[1..]);
      assert forall i :: 0 < i < |s| ==> s[i] == s[1..][i - 1];
    } else if |s| > 0 && IsSpace(s[|s| - 1]) {
      StripEmpty(s[..|s| - 1]);
      assert forall i :: 0 <= i < |s| - 1 ==> s[i] == s[..|s| - 1][i];
    }
  }

  /** `s.strip()` is a slice of `s` with only white space before and after it. */
  lemma {:induction false} StripSlice(s: string) returns (a: nat, b: nat)
    ensures a <= b <= |s| && Strip(s) == s[a..b]
    ensures forall i :: 0 <= i < a ==> IsSpace(s[i])
    ensures forall i :: b <= i < |s| ==> IsSpace(s[i])
    decreases |s|
  {
    if |s| > 0 && IsSpace(s[0]) {
      var t := s[1..];
      var a', b' := StripSlice(t);
      assert Strip(s) == Strip(t);
      a, b := a' + 1, b' + 1;
      assert t[a'..b'] == s[a..b];
      forall i | 0 <= i < a ensures IsSpace(s[i]) {
        if i > 0 { assert s[i] == t[i - 1]; }
      }
      forall i | b <= i < |s| ensures IsSpace(s[i]) {
        assert s[i] == t[i - 1];
      }
    } else if |s| > 0 && IsSpace(s[|s| - 1]) {
      var t := s[..|s| - 1];
      a, b := StripSlice(t);
      assert Strip(s) == Strip(t);
      assert t[a..b] == s[a..b];
      assert forall i :: 0 <= i < |t| ==> s[i] == t[i];
    } else {
      a, b := 0, |s|;
    }
  }

  /** Stripping twice is stripping once. */
  lemma StripIdempotent(s: string)
    ensures Strip(Strip(s)) == Strip(s)
  {
  }

  /** `s.lstrip(c)`: drops every leading copy of `c`. */
  function LStripChar(s: string, c: char): (r: string)
    ensures |r| <= |s| && r == s[|s| - |r|..]
    ensures r == [] || r[0] != c
    ensures forall i :: 0 <= i < |s| - |r| ==> s[i] == c
    decreases |s|
  {
    if |s| > 0 && s[0] == c then LStripChar(s[1..], c) else s
  }

  /** `h.strip().lstrip('@')`, the handle normalisation both author counters use. */
  function NormalizeHandle(h: string): string {
    LStripChar(Strip(h), '@')
  }

  /** A handle that is trimmed and has no leading `@` is left as it is. */
  lemma NormalizeFixpoint(h: string)
    requires IsTrimmed(h) && (h == [] || h[0] != '@')
    ensures NormalizeHandle(h) == h
  {
  }

  /** White space behind a leading `@` survives one normalisation, so
      normalising is not idempotent in general. */
  lemma NormalizeNotIdempotent()
    ensures NormalizeHandle("@ bob") == " bob"
    ensures NormalizeHandle(NormalizeHandle("@ bob")) == "bob"
  {
    assert IsTrimmed("@ bob") && Strip("@ bob") == "@ bob";
    assert LStripChar("@ bob", '@') == LStripChar(" bob", '@') == " bob";
    assert Strip(" bob") == Strip("bob") == "bob";
    assert LStripChar("bob", '@') == "bob";
  }

  /** An empty strip result leaves nothing to normalise. */
  lemma NormalizeBlank(h: string)
    requires Strip(h) == ""
    ensures NormalizeHandle(h) == ""
  {
  }

  // ---------------------------------------------------------------- case

  function LowerChar(c: char): char {
    if 'A' <= c <= 'Z' then (c as int + 32) as char else c
  }

  function UpperChar(c: char): char {
    if 'a' <= c <= 'z' then (c as int - 32) as char else c
  }

  /** `s.lower()` on the ASCII letters. */
  function Lower(s: string): (r: string)
    ensures |r| == |s| && forall i :: 0 <= i < |s| ==> r[i] == LowerChar(s[i])
  {
    seq(|s|, i requires 0 <= i < |s| => LowerChar(s[i]))
  }

  /** `s.upper()` on the ASCII letters. */
  function Upper(s: string): (r: string)
    ensures |r| == |s| && forall i :: 0 <= i < |s| ==> r[i] == UpperChar(s[i])
  {
    seq(|s|, i requires 0 <= i < |s| => UpperChar(s[i]))
  }

  /** Lower-casing forgets any earlier change of case. */
  lemma LowerOfUpper(s: string)
    ensures Lower(Upper(s)) == Lower(s)
  {
    forall i | 0 <= i < |s| ensures Lower(Upper(s))[i] == Lower(s)[i] {
      assert LowerChar(UpperChar(s[i])) == LowerChar(s[i]);
    }
  }

  lemma LowerIdempotent(s: string)
    ensures Lower(Lower(s)) == Lower(s)
  {
    forall i | 0 <= i < |s| ensures Lower(Lower(s))[i] == Lower(s)[i] {
      assert LowerChar(LowerChar(s[i])) == LowerChar(s[i]);
    }
  }

  // ---------------------------------------------------------------- split / join

  /** The first position of `c` in `s`. */
  function IndexOf(s: string, c: char): (k: nat)
    requires c in s
    ensures k < |s| && s[k] == c && c !in s[..k]
  {
    if s[0] == c then 0 else 1 + IndexOf(s[1..], c)
  }

  /** `s.split(sep)` for a one-character separator: the pieces between the
      separators, in order, always at least one. */
  function Split(s: string, sep: char): (r: seq<string>)
    ensures |r| >= 1
    ensures forall i :: 0 <= i < |r| ==> sep !in r[i]
    decreases |s|
  {
    if sep !in s then [s]
    else
      var k := IndexOf(s, sep);
      [s[..k]] + Split(s[k + 1..], sep)
  }

  /** `sep.join(xs)` */
  function Join(xs: seq<string>, sep: string): string {
    if |xs| == 0 then ""
    else if |xs| == 1 then xs[0]
    else xs[0] + sep + Join(xs[1..], sep)
  }

  /** Joining yields the empty text exactly for no pieces or one empty piece. */
  lemma JoinEmpty(xs: seq<string>, sep: string)
    requires |sep| > 0
    ensures Join(xs, sep) == "" <==> (|xs| == 0 || xs == [""])
  {
  }

  /** Splitting a joined list recovers the list when no piece holds the separator. */
  lemma {:induction false} SplitJoin(xs: seq<string>, sep: char)
    requires |xs| >= 1
    requires forall i :: 0 <= i < |xs| ==> sep !in xs[i]
    ensures Split(Join(xs, [sep]), sep) == xs
  {
    if |xs| > 1 {
      var s := Join(xs, [sep]);
      var rest := Join(xs[1..], [sep]);
      assert s == xs[0] + [sep] + rest;
      assert s[|xs[0]|] == sep && s[..|xs[0]|] == xs[0];
      IndexOfAfter(xs[0], sep, rest);
      assert s[|xs[0]| + 1..] == rest;
      SplitJoin(xs[1..], sep);
    }
  }

  /** A prefix without the separator is the first piece of a split. */
  lemma SplitHead(x: string, sep: char, rest: string)
    requires sep !in x
    ensures Split(x + [sep] + rest, sep) == [x] + Split(rest, sep)
  {
    var s := x + [sep] + rest;
    IndexOfAfter(x, sep, rest);
    assert s[..|x|] == x && s[|x| + 1..] == rest;
  }

  lemma IndexOfAfter(x: string, sep: char, rest: string)
    requires sep !in x
    ensures sep in x + [sep] + rest && IndexOf(x + [sep] + rest, sep) == |x|
  {
    var s := x + [sep] + rest;
    assert s[|x|] == sep;
    assert s[..|x|] == x;
  }

  /** Joining the pieces of a split with the same separator restores the text. */
  lemma {:induction false} JoinSplit(s: string, sep: char)
    ensures Join(Split(s, sep), [sep]) == s
    decreases |s|
  {
    if sep in s {
      var k := IndexOf(s, sep);
      var rest := Split(s[k + 1..], sep);
      JoinSplit(s[k + 1..], sep);
      assert Split(s, sep) == [s[..k]] + rest;
      JoinCons(s[..k], rest, [sep]);
      assert s == s[..k] + [sep] + s[k + 1..];
    }
  }

  lemma JoinCons(x: string, xs: seq<string>, sep: string)
    requires |xs| >= 1
    ensures Join([x] + xs, sep) == x + sep + Join(xs, sep)
  {
    assert ([x] + xs)[1..] == xs;
  }

  /** `s.splitlines()`: the lines of `s` without their terminators; a final
      terminator does not open an empty last line. */
  function SplitLines(s: string): (r: seq<string>)
    ensures forall i, j :: 0 <= i < |r| && 0 <= j < |r[i]| ==> !IsLineBreak(r[i][j])
    decreases |s|
  {
    if s == [] then []
    else
      var k := BreakAt(s, 0);
      if k == |s| then [s]
      else
        var next := if s[k] == '\r' && k + 1 < |s| && s[k + 1] == '\n' then k + 2 else k + 1;
        [s[..k]] + SplitLines(s[next..])
  }

  /** A terminator `splitlines` removes: one line-break character, or `\r\n`. */
  predicate IsTerminator(t: string) {
    t == "\r\n" || (|t| == 1 && IsLineBreak(t[0]))
  }

  /** The lines, each followed by its terminator. */
  function Rejoin(lines: seq<string>, ends: seq<string>): string
    requires |lines| == |ends|
  {
    if lines == [] then "" else lines[0] + ends[0] + Rejoin(lines[1..], ends[1..])
  }

  /** The terminator `splitlines` removes after each line, `""` after a
      last line that has none. */
  function LineEnds(s: string): (ends: seq<string>)
    ensures |ends| == |SplitLines(s)|
    ensures |ends| > 1 ==> s != [] && BreakAt(s, 0) < |s|
    decreases |s|
  {
    if s == [] then []
    else
      var k := BreakAt(s, 0);
      if k == |s| then [""]
      else
        var next := if s[k] == '\r' && k + 1 < |s| && s[k + 1] == '\n' then k + 2 else k + 1;
        [s[k..next]] + LineEnds(s[next..])
  }

  /** `splitlines` drops nothing but terminators: the lines, each followed
      by its terminator, spell the text again. */
  lemma {:induction false} SplitLinesRebuild(s: string)
    ensures Rejoin(SplitLines(s), LineEnds(s)) == s
    decreases |s|
  {
    if s != [] {
      if BreakAt(s, 0) == |s| {
        assert Rejoin([s], [""]) == s + "" + Rejoin([], []);
      } else {
        var k, next := LineStep(s);
        SplitLinesRebuild(s[next..]);
        RejoinCons(s[..k], s[k..next], SplitLines(s[next..]), LineEnds(s[next..]));
        ThreeParts(s, k, next);
      }
    }
  }

  /** One step of `splitlines` on a text with a line boundary: the first
      line, its terminator, and the rest. */
  lemma LineStep(s: string) returns (k: nat, next: nat)
    requires s != [] && BreakAt(s, 0) < |s|
    ensures k < next <= |s| && k == BreakAt(s, 0)
    ensures SplitLines(s) == [s[..k]] + SplitLines(s[next..])
    ensures LineEnds(s) == [s[k..next]] + LineEnds(s[next..])
    ensures IsTerminator(s[k..next])
    ensures s[k..next] == "\r" ==> !StartsWith(s[next..], "\n")
  {
    k := BreakAt(s, 0);
    var crlf := s[k] == '\r' && k + 1 < |s| && s[k + 1] == '\n';
    next := if crlf then k + 2 else k + 1;
    if crlf {
      assert s[k..next] == [s[k], s[k + 1]] == "\r\n";
    } else {
      assert s[k..next] == [s[k]];
      assert IsLineBreak(s[k]);
      if s[k] == '\r' && |s[next..]| > 0 {
        assert s[next..][..1] == [s[next]];
      }
    }
  }

  lemma ThreeParts(s: string, a: nat, b: nat)
    requires a <= b <= |s|
    ensures s == s[..a] + s[a..b] + s[b..]
  {
  }

  /** Every line but possibly the last is followed by a terminator, and a
      last line without one is not empty. */
  lemma {:induction false} LineEndsShape(s: string)
    ensures forall i :: 0 <= i < |LineEnds(s)| ==>
      IsTerminator(LineEnds(s)[i]) || (i == |LineEnds(s)| - 1 && LineEnds(s)[i] == "" && SplitLines(s)[i] != "")
    decreases |s|
  {
    if s != [] && BreakAt(s, 0) < |s| {
      var k, next := LineStep(s);
      var rest, more := LineEnds(s[next..]), SplitLines(s[next..]);
      LineEndsShape(s[next..]);
      forall i | 1 <= i < |LineEnds(s)|
        ensures LineEnds(s)[i] == rest[i - 1] && SplitLines(s)[i] == more[i - 1]
      {
        ConsTail(s[k..next], rest, i);
        ConsTail(s[..k], more, i);
      }
    }
  }

  /** A `\r` is taken alone only when no `\n` follows it. */
  lemma {:induction false} LineEndsCR(s: string, i: nat)
    requires i < |LineEnds(s)| - 1 && LineEnds(s)[i] == "\r"
    ensures !StartsWith(Rejoin(SplitLines(s)[i + 1..], LineEnds(s)[i + 1..]), "\n")
    decreases |s|
  {
    if i == 0 {
      CRHead(s);
    } else {
      var k, next := LineStep(s);
      var lines, rest := SplitLines(s[next..]), LineEnds(s[next..]);
      ConsTail(s[..k], lines, i);
      ConsTail(s[k..next], rest, i);
      LineEndsCR(s[next..], i - 1);
    }
  }

  lemma CRHead(s: string)
    requires 1 < |LineEnds(s)| && LineEnds(s)[0] == "\r"
    ensures !StartsWith(Rejoin(SplitLines(s)[1..], LineEnds(s)[1..]), "\n")
  {
    var k, next := LineStep(s);
    ConsTail(s[..k], SplitLines(s[next..]), 0);
    ConsTail(s[k..next], LineEnds(s[next..]), 0);
    SplitLinesRebuild(s[next..]);
  }

  lemma ConsTail<T>(x: T, xs: seq<T>, i: nat)
    requires i <= |xs|
    ensures ([x] + xs)[i + 1..] == xs[i..]
    ensures 0 < i ==> ([x] + xs)[i] == xs[i - 1]
  {
  }

  lemma RejoinCons(x: string, e: string, lines: seq<string>, ends: seq<string>)
    requires |lines| == |ends|
    ensures Rejoin([x] + lines, [e] + ends) == x + e + Rejoin(lines, ends)
  {
    assert ([x] + lines)[1..] == lines && ([e] + ends)[1..] == ends;
  }

  /** The first line boundary at or after `i`, or `|s|`. */
  function BreakAt(s: string, i: nat): (k: nat)
    requires i <= |s|
    ensures i <= k <= |s| && (k < |s| ==> IsLineBreak(s[k]))
    ensures forall j :: i <= j < k ==> !IsLineBreak(s[j])
    decreases |s| - i
  {
    if i == |s| || IsLineBreak(s[i]) then i else BreakAt(s, i + 1)
  }

  // ---------------------------------------------------------------- replace

  /** `s.replace(pat, rep)`: every non-overlapping occurrence, left to right. */
  function Replace(s: string, pat: string, rep: string): string
    requires |pat| > 0
    decreases |s|
  {
    if |s| < |pat| then s
    else if s[..|pat|] == pat then rep + Replace(s[|pat|..], pat, rep)
    else [s[0]] + Replace(s[1..], pat, rep)
  }

  /** Replacing a pattern that does not occur changes nothing. */
  lemma {:induction false} ReplaceAbsent(s: string, pat: string, rep: string)
    requires |pat| > 0 && !Contains(s, pat)
    ensures Replace(s, pat, rep) == s
    decreases |s|
  {
    if |s| >= |pat| {
      assert !StartsWith(s, pat);
      ReplaceAbsent(s[1..], pat, rep);
      assert s == [s[0]] + s[1..];
    }
  }

  /** Replacing a leading pattern that does not occur in the rest replaces
      just that one occurrence. */
  lemma ReplaceLeading(pat: string, v: string, rep: string)
    requires |pat| > 0 && !Contains(v, pat)
    ensures Replace(pat + v, pat, rep) == rep + v
  {
    assert (pat + v)[..|pat|] == pat;
    assert (pat + v)[|pat|..] == v;
    ReplaceAbsent(v, pat, rep);
  }

  // ---------------------------------------------------------------- numbers

  function DigitChar(d: nat): char
    requires d < 10
  {
    ('0' as int + d) as char
  }

  /** `str(n)` for a natural number. */
  function NatToDec(n: nat): (r: string)
    ensures IsDigits(r)
    ensures r[0] == '0' ==> n == 0
  {
    if n < 10 then [DigitChar(n)] else NatToDec(n / 10) + [DigitChar(n % 10)]
  }

  /** The value of a string of decimal digits. */
  function DecToNat(s: string): nat
    requires forall i :: 0 <= i < |s| ==> IsDigit(s[i])
  {
    if s == [] then 0
    else
      assert IsDigit(s[|s| - 1]);
      10 * DecToNat(s[..|s| - 1]) + (s[|s| - 1] as int - '0' as int)
  }

  /** Decimal formatting loses nothing. */
  lemma {:induction false} DecRoundTrip(n: nat)
    ensures DecToNat(NatToDec(n)) == n
  {
    if n >= 10 {
      var s := NatToDec(n);
      assert s[..|s| - 1] == NatToDec(n / 10);
      DecRoundTrip(n / 10);
    }
  }

  /** `str(n)` for any integer: a minus sign in front of negative values. */
  function IntToDec(n: int): string {
    if n < 0 then "-" + NatToDec(-n) else NatToDec(n)
  }

  // ---------------------------------------------------------------- ordering

  /** Python's `<` on `str`: lexicographic by code point, a proper prefix first. */
  predicate LexLess(a: string, b: string)
    decreases |a|
  {
    if |a| == 0 then |b| > 0
    else if |b| == 0 then false
    else a[0] < b[0] || (a[0] == b[0] && LexLess(a[1..], b[1..]))
  }

  lemma {:induction false} LexIrreflexive(a: string)
    ensures !LexLess(a, a)
    decreases |a|
  {
    if |a| > 0 { LexIrreflexive(a[1..]); }
  }

  lemma {:induction false} LexTransitive(a: string, b: string, c: string)
    requires LexLess(a, b) && LexLess(b, c)
    ensures LexLess(a, c)
    decreases |a|
  {
    if |a| > 0 && |b| > 0 && |c| > 0 && a[0] == b[0] == c[0] {
      LexTransitive(a[1..], b[1..], c[1..]);
    }
  }

  lemma {:induction false} LexTotal(a: string, b: string)
    ensures a == b || LexLess(a, b) || LexLess(b, a)
    decreases |a|
  {
    if |a| > 0 && |b| > 0 && a[0] == b[0] {
      LexTotal(a[1..], b[1..]);
      if a[1..] == b[1..] {
        assert a == [a[0]] + a[1..] && b == [b[0]] + b[1..];
      }
    }
  }

  lemma {:induction false} LexAsymmetric(a: string, b: string)
    requires LexLess(a, b)
    ensures !LexLess(b, a)
  {
    if LexLess(b, a) {
      LexTransitive(a, b, a);
      LexIrreflexive(a);
    }
  }
}
