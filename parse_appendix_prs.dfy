/** The appendix scanner of parse_appendix_prs.py: it finds the
    "Appendix / Findings" region of a Markdown report, reads the list items
    under each `- PRs (author):` item, and tallies one pull request per
    recognised item and one association per author handle it names, keeping
    a diagnostic for every item it cannot read. */
module AppendixParser {
  import opened Wrappers
  import opened Text
  import opened Counters

  const FindingsHeader: string := "### Findings"

  /** A parsing issue: a listed line the pattern does not recognise, or a
      recognised line whose capture group yields no author; each with the
      stripped text of the line and its number as shown to the user. */
  datatype Diagnostic =
    | UnmatchedLine(text: string, lineNo: nat)
    | EmptyAuthorList(group: string, text: string, lineNo: nat)

  /** What the scan has gathered so far: the author tallies, the number of
      pull-request lines seen, and the parsing issues in discovery order. */
  datatype Tally = Tally(counts: Counter, total: nat, issues: seq<Diagnostic>)

  const NoTally: Tally := Tally(Empty, 0, [])

  /** Scanning for the start header, inside the findings region, or stopped
      at a closing section. */
  datatype Phase = Scanning | Inside | Done

  datatype State = State(phase: Phase, tally: Tally)

  // ------------------------------------------------------------ line tests

  /** A line naming the appendix (both spellings the report uses). */
  predicate IsStartHeader(line: string) {
    Contains(line, "## Appendix") || Contains(line, "## Apendix")
  }

  /** A top-level heading that closes the region. */
  predicate IsEndHeader(line: string) {
    (Contains(line, "## Conclusions") || Contains(line, "## Impact")) && StartsWith(line, "## ")
  }

  /** A list item: its stripped text starts with a dash and a blank. */
  predicate IsListItem(line: string) {
    StartsWith(Strip(line), "- ")
  }

  /** The first position at or after `i` that is not white space. */
  function SkipSpaces(s: string, i: nat): (k: nat)
    requires i <= |s|
    ensures i <= k <= |s| && (k < |s| ==> !IsSpace(s[k]))
    ensures forall j :: i <= j < k ==> IsSpace(s[j])
    decreases |s| - i
  {
    if i < |s| && IsSpace(s[i]) then SkipSpaces(s, i + 1) else i
  }

  /** The first position at or after `i` that is not a decimal digit. */
  function SkipDigits(s: string, i: nat): (k: nat)
    requires i <= |s|
    ensures i <= k <= |s| && (k < |s| ==> !IsDigit(s[k]))
    ensures forall j :: i <= j < k ==> IsDigit(s[j])
    decreases |s| - i
  {
    if i < |s| && IsDigit(s[i]) then SkipDigits(s, i + 1) else i
  }

  /** The first `)` at or after `i`, or `|s|`. */
  function CloseParen(s: string, i: nat): (k: nat)
    requires i <= |s|
    ensures i <= k <= |s| && (k < |s| ==> s[k] == ')')
    ensures forall j :: i <= j < k ==> s[j] != ')'
    decreases |s| - i
  {
    if i < |s| && s[i] != ')' then CloseParen(s, i + 1) else i
  }

  predicate HasAt(s: string, i: nat, lit: string) {
    i + |lit| <= |s| && s[i..i + |lit|] == lit
  }

  predicate HasAtIgnoreCase(s: string, i: nat, lit: string) {
    i + |lit| <= |s| && Lower(s[i..i + |lit|]) == Lower(lit)
  }

  /** The header pattern `^\s*-\s*PRs\s*\(author\):`, ignoring case. */
  predicate IsPrsHeader(line: string) {
    var a := SkipSpaces(line, 0);
    if a < |line| && line[a] == '-' then
      var b := SkipSpaces(line, a + 1);
      if HasAtIgnoreCase(line, b, "PRs") then
        var c := SkipSpaces(line, b + 3);
        HasAtIgnoreCase(line, c, "(author):")
      else false
    else false
  }

  /** The author group `(@[^)]+)` followed by `)` at position `p`: the text
      from the `@` up to the first closing parenthesis. */
  function AuthorGroup(t: string, p: nat): (g: Option<string>)
    ensures g.Some? ==> |g.value| >= 2 && g.value[0] == '@' && ')' !in g.value
  {
    if HasAt(t, p, "(@") then
      var q := CloseParen(t, p + 2);
      if p + 2 < q < |t| then
        assert t[p..p + 2][1] == t[p + 1];
        SliceAvoids(t, p + 1, q, ')');
        Some(t[p + 1..q])
      else None
    else None
  }

  lemma SliceAvoids(t: string, a: nat, b: nat, c: char)
    requires a <= b <= |t| && forall j :: a <= j < b ==> t[j] != c
    ensures c !in t[a..b]
  {
    forall i | 0 <= i < b - a ensures t[a..b][i] != c {
      assert t[a..b][i] == t[a + i];
    }
  }

  /** The optional link `\[\d+\]\(https?://[^\)]+\)` at position `b`:
      the position just after it. */
  function LinkEnd(t: string, b: nat): (e: Option<nat>)
    requires b < |t|
    ensures e.Some? ==> b < e.value <= |t|
  {
    if t[b] != '[' then None
    else
      var d := SkipDigits(t, b + 1);
      if d == b + 1 || !HasAt(t, d, "](") then None
      else
        var h := d + 2;
        if HasAt(t, h, "https://") || HasAt(t, h, "http://") then
          var u := if HasAt(t, h, "https://") then h + 8 else h + 7;
          var q := CloseParen(t, u);
          if u < q < |t| then Some(q + 1) else None
        else None
  }

  /** The pull-request line pattern
      `^\s*-\s*(?:\[\d+\]\(https?://[^\)]+\))?\s*\((@[^)]+)\)`: its first
      capture group when it matches. Every part of the pattern is matched
      greedily and none can give characters back to a later part, so the
      match is found without backtracking. */
  function MatchPrLine(t: string): (g: Option<string>)
    ensures g.Some? ==> |g.value| >= 2 && g.value[0] == '@' && ')' !in g.value
  {
    var a := SkipSpaces(t, 0);
    if a < |t| && t[a] == '-' then
      var b := SkipSpaces(t, a + 1);
      if b < |t| && t[b] == '[' then
        match LinkEnd(t, b)
        case None => None
        case Some(e) => AuthorGroup(t, SkipSpaces(t, e))
      else AuthorGroup(t, b)
    else None
  }

  // ------------------------------------------------------------ one PR line

  /** The author list of a capture group: each comma-separated piece that is
      not blank, stripped and with its leading `@`s removed. */
  function SplitAuthors(group: string): seq<string> {
    KeepAuthors(Split(group, ','))
  }

  function KeepAuthors(pieces: seq<string>): seq<string> {
    if pieces == [] then []
    else
      (if Strip(pieces[0]) != "" then [NormalizeHandle(pieces[0])] else [])
      + KeepAuthors(pieces[1..])
  }

  /** One association per non-empty author, in list order. */
  function AddAuthors(c: Counter, authors: seq<string>): Counter {
    if authors == [] then c
    else
      var c' := AddAuthors(c, authors[..|authors| - 1]);
      if authors[|authors| - 1] != "" then Bump(c', authors[|authors| - 1]) else c'
  }

  /** The text the source appends to `parsing_issues` for a diagnostic. */
  function Message(d: Diagnostic): string {
    match d
    case UnmatchedLine(text, lineNo) =>
      "WARNING: Line under 'PRs (author):' did not match expected PR-author pattern (and not 'None yet'): '"
      + text + "' (Line ~" + NatToDec(lineNo) + ")"
    case EmptyAuthorList(group, text, lineNo) =>
      "WARNING: Parsed empty author list from group '(" + group + ")' in PR line: '"
      + text + "' (Line ~" + NatToDec(lineNo) + ")"
  }

  /** The texts of several diagnostics, in order. */
  function Messages(ds: seq<Diagnostic>): (ms: seq<string>)
    ensures |ms| == |ds| && forall i :: 0 <= i < |ds| ==> ms[i] == Message(ds[i])
  {
    seq(|ds|, i requires 0 <= i < |ds| => Message(ds[i]))
  }

  /** The skip test for placeholders such as "None yet". */
  predicate IsPlaceholder(text: string) {
    Contains(text, "None yet") || Contains(Strip(text), "None")
  }

  /** The effect of a recognised line with capture group `group`: one more
      pull request, and its authors or, when it names none, a diagnostic. */
  function ConsumeGroup(t: Tally, group: string, text: string, lineNo: nat): Tally {
    var authors := SplitAuthors(group);
    if |authors| == 0 then
      Tally(t.counts, t.total + 1, t.issues + [EmptyAuthorList(group, text, lineNo)])
    else
      Tally(AddAuthors(t.counts, authors), t.total + 1, t.issues)
  }

  /** How the inner loop reads one stripped list line: a placeholder, a
      line the pattern recognises (with its capture group), or neither. */
  datatype LineKind = Placeholder | Recognised(group: string, text: string) | Unrecognised(text: string)

  function Classify(text: string): (k: LineKind)
    ensures k.Recognised? ==> k.text == text && MatchPrLine(text) == Some(k.group)
    ensures k.Unrecognised? ==> k.text == text
  {
    if IsPlaceholder(text) then Placeholder
    else
      match MatchPrLine(text)
      case Some(group) => Recognised(group, text)
      case None => Unrecognised(text)
  }

  /** The effect of a classified line shown to the user as line `lineNo`. */
  function Apply(t: Tally, k: LineKind, lineNo: nat): Tally {
    match k
    case Placeholder => t
    case Recognised(group, text) => ConsumeGroup(t, group, text, lineNo)
    case Unrecognised(text) => Tally(t.counts, t.total, t.issues + [UnmatchedLine(text, lineNo)])
  }

  /** The effect of one stripped list line `text`, shown to the user as line `lineNo`. */
  function ConsumeLine(t: Tally, text: string, lineNo: nat): Tally {
    Apply(t, Classify(text), lineNo)
  }

  // ------------------------------------------------------------ line views

  /** What the scan needs to know about one line: the tests of the outer
      loop, whether the line continues a list, and how the inner loop reads
      its stripped text. Each of them looks at that line alone. */
  datatype LineView = LineView(
    startHeader: bool,
    findingsHeader: bool,
    endHeader: bool,
    prsHeader: bool,
    listItem: bool,
    kind: LineKind)

  function ViewOf(line: string): LineView {
    LineView(IsStartHeader(line), Contains(line, FindingsHeader), IsEndHeader(line),
             IsPrsHeader(line), IsListItem(line), Classify(Strip(line)))
  }

  function Views(lines: seq<string>): (vs: seq<LineView>)
    ensures |vs| == |lines| && forall i :: 0 <= i < |lines| ==> vs[i] == ViewOf(lines[i])
  {
    seq(|lines|, i requires 0 <= i < |lines| => ViewOf(lines[i]))
  }

  /** Line `i` opens the region: it names the appendix and one of the next
      two lines holds the findings sub-header. */
  predicate EntersAppendix(vs: seq<LineView>, i: nat)
    requires i < |vs|
  {
    vs[i].startHeader
    && ((i + 1 < |vs| && vs[i + 1].findingsHeader) || (i + 2 < |vs| && vs[i + 2].findingsHeader))
  }

  // ------------------------------------------------------------ a PR block

  /** Where the list after a header ends: the first line at or after `j`
      that is not a list item, or the end of the input. */
  function BlockEnd(vs: seq<LineView>, j: nat): (e: nat)
    requires j <= |vs|
    ensures j <= e <= |vs|
    ensures forall k :: j <= k < e ==> vs[k].listItem
    ensures e == |vs| || !vs[e].listItem
    decreases |vs| - j
  {
    if j == |vs| || !vs[j].listItem then j else BlockEnd(vs, j + 1)
  }

  /** The effect of the lines `lo .. hi - 1` one after the other; line `k`
      is shown to the user as line `k + 1`. */
  function FoldLines(t: Tally, vs: seq<LineView>, lo: nat, hi: nat): Tally
    requires lo <= hi <= |vs|
    decreases hi - lo
  {
    if hi == lo then t else Apply(FoldLines(t, vs, lo, hi - 1), vs[hi - 1].kind, hi)
  }

  /** The effect of the list that follows a header on line `j - 1`. */
  function ConsumeBlock(vs: seq<LineView>, j: nat, t: Tally): Tally
    requires j <= |vs|
  {
    FoldLines(t, vs, j, BlockEnd(vs, j))
  }

  // ------------------------------------------------------------ the scan

  /** What the scan does with line `i`. */
  function Step(vs: seq<LineView>, i: nat, s: State): State
    requires i < |vs|
  {
    match s.phase
    case Done => s
    case Scanning => if EntersAppendix(vs, i) then State(Inside, s.tally) else s
    case Inside =>
      if vs[i].endHeader then State(Done, s.tally)
      else if vs[i].prsHeader then State(Inside, ConsumeBlock(vs, i + 1, s.tally))
      else s
  }

  /** The state of the scan before line `i`. The outer loop visits every
      line, also those a PR block has already consumed. */
  function StateAt(vs: seq<LineView>, i: nat): State
    requires i <= |vs|
  {
    if i == 0 then State(Scanning, NoTally) else Step(vs, i - 1, StateAt(vs, i - 1))
  }

  /** `parse_appendix_for_pr_data` on the lines of the report. */
  function Parse(lines: seq<string>): Tally {
    StateAt(Views(lines), |lines|).tally
  }

  function ParseReport(reportContent: string): Tally {
    Parse(SplitLines(reportContent))
  }

  /** The loop over `authors_in_pr`: one increment per non-empty name. */
  method CountAuthors(counts0: Counter, authorsInPr: seq<string>) returns (counts: Counter)
    ensures counts == AddAuthors(counts0, authorsInPr)
  {
    counts := counts0;
    for k := 0 to |authorsInPr|
      invariant counts == AddAuthors(counts0, authorsInPr[..k])
    {
      assert authorsInPr[..k + 1][..k] == authorsInPr[..k];
      var authorName := authorsInPr[k];
      if authorName != "" {
        counts := Bump(counts, authorName);
      }
    }
    assert authorsInPr[..|authorsInPr|] == authorsInPr;
  }

  /** The body of the inner loop for one stripped list line. */
  method ConsumePrLine(prLineText: string, lineNo: nat, t: Tally) returns (u: Tally)
    ensures u == ConsumeLine(t, prLineText, lineNo)
  {
    if Contains(prLineText, "None yet") || Contains(Strip(prLineText), "None") {
      u := t;
    } else {
      var matchPr := MatchPrLine(prLineText);
      if matchPr.Some? {
        u := ConsumeMatched(prLineText, matchPr.value, lineNo, t);
      } else {
        u := Tally(t.counts, t.total, t.issues + [UnmatchedLine(prLineText, lineNo)]);
      }
    }
  }

  /** A list line the pattern recognised, with capture group `group`. */
  method ConsumeMatched(prLineText: string, group: string, lineNo: nat, t: Tally) returns (u: Tally)
    ensures u == ConsumeGroup(t, group, prLineText, lineNo)
  {
    var authorsInPr := SplitAuthors(group);
    if |authorsInPr| == 0 {
      u := Tally(t.counts, t.total + 1, t.issues + [EmptyAuthorList(group, prLineText, lineNo)]);
    } else {
      var counts := CountAuthors(t.counts, authorsInPr);
      u := Tally(counts, t.total + 1, t.issues);
      assert u == ConsumeGroup(t, group, prLineText, lineNo);
    }
  }

  /** The inner `while` loop: the list items after a PR header on line `first - 1`. */
  method ConsumePrBlock(lines: seq<string>, first: nat, t: Tally) returns (u: Tally, next: nat)
    requires first <= |lines|
    ensures next == BlockEnd(Views(lines), first)
    ensures u == ConsumeBlock(Views(lines), first, t)
  {
    ghost var vs := Views(lines);
    u := t;
    var lineIndex := first;
    while lineIndex < |lines| && StartsWith(Strip(lines[lineIndex]), "- ")
      invariant first <= lineIndex <= |lines|
      invariant BlockEnd(vs, lineIndex) == BlockEnd(vs, first)
      invariant u == FoldLines(t, vs, first, lineIndex)
    {
      var prLineText := Strip(lines[lineIndex]);
      u := ConsumePrLine(prLineText, lineIndex + 1, u);
      lineIndex := lineIndex + 1;
    }
    next := lineIndex;
  }

  /** The body of the outer loop for line `i`: the new value of
      `in_appendix_findings`, whether the loop breaks, and the new tallies. */
  method VisitLine(lines: seq<string>, i: nat, inAppendixFindings: bool, t: Tally)
    returns (inside: bool, stop: bool, u: Tally)
    requires i < |lines|
    ensures Step(Views(lines), i, State(if inAppendixFindings then Inside else Scanning, t))
            == State(if stop then Done else if inside then Inside else Scanning, u)
  {
    inside, stop, u := inAppendixFindings, false, t;
    var line := lines[i];
    if !inAppendixFindings {
      if Contains(line, "## Appendix") || Contains(line, "## Apendix") {
        if (i + 1 < |lines| && Contains(lines[i + 1], FindingsHeader))
           || (i + 2 < |lines| && Contains(lines[i + 2], FindingsHeader)) {
          inside := true;
        }
      }
      return;
    }
    if (Contains(line, "## Conclusions") || Contains(line, "## Impact")) && StartsWith(line, "## ") {
      stop := true;
      return;
    }
    if IsPrsHeader(line) {
      var lineIndex;
      u, lineIndex := ConsumePrBlock(lines, i + 1, t);
      // The source's `i = line_index - 1` cannot move a `for` loop: the
      // next iteration is line i + 1 whatever the block consumed.
    }
  }

  /** The imperative scan of the source: a `for` loop over the lines. */
  method ParseAppendix(reportContent: string) returns (counts: Counter, total: nat, issues: seq<string>)
    ensures counts == ParseReport(reportContent).counts
    ensures total == ParseReport(reportContent).total
    ensures issues == Messages(ParseReport(reportContent).issues)
  {
    var t := NoTally;
    var inAppendixFindings := false;
    var lines := SplitLines(reportContent);
    ghost var vs := Views(lines);
    assert ParseReport(reportContent) == StateAt(vs, |vs|).tally;
    for i := 0 to |lines|
      invariant StateAt(vs, i) == State(if inAppendixFindings then Inside else Scanning, t)
    {
      var stop;
      inAppendixFindings, stop, t := VisitLine(lines, i, inAppendixFindings, t);
      if stop {
        assert StateAt(vs, i + 1) == State(Done, t);
        DoneIsFinal(vs, i + 1);
        break;
      }
    }
    assert t == StateAt(vs, |vs|).tally;
    counts, total, issues := t.counts, t.total, Messages(t.issues);
  }

  // ------------------------------------------------------------ properties

  /** Once stopped, the scan stays stopped and gathers nothing more. */
  lemma {:induction false} DoneIsFinal(vs: seq<LineView>, i: nat)
    requires i <= |vs| && StateAt(vs, i).phase == Done
    ensures StateAt(vs, |vs|) == StateAt(vs, i)
    decreases |vs| - i
  {
    if i < |vs| {
      assert StateAt(vs, i + 1) == StateAt(vs, i);
      DoneIsFinal(vs, i + 1);
    }
  }

  /** A closing heading met inside the region fixes the result: no later
      line changes the tallies, the total or the diagnostics. */
  lemma EndHeaderStops(vs: seq<LineView>, i: nat)
    requires i < |vs| && StateAt(vs, i).phase == Inside && vs[i].endHeader
    ensures StateAt(vs, |vs|).tally == StateAt(vs, i).tally
  {
    DoneIsFinal(vs, i + 1);
  }

  /** Without a start header followed by the findings sub-header, the result
      is empty: no tallies, a total of 0 and no diagnostics. */
  lemma NoAppendixNoResult(lines: seq<string>)
    requires forall i :: 0 <= i < |lines| ==> !EntersAppendix(Views(lines), i)
    ensures Parse(lines) == NoTally
  {
    StillScanning(Views(lines), |lines|);
  }

  lemma {:induction false} StillScanning(vs: seq<LineView>, i: nat)
    requires i <= |vs|
    requires forall k :: 0 <= k < i ==> !EntersAppendix(vs, k)
    ensures StateAt(vs, i) == State(Scanning, NoTally)
  {
    if i > 0 { StillScanning(vs, i - 1); }
  }

  /** The skip test is a plain substring test for "None" on stripped text. */
  lemma PlaceholderIsSubstringTest(line: string)
    ensures IsPlaceholder(Strip(line)) <==> Contains(Strip(line), "None")
  {
    var text := Strip(line);
    StripIdempotent(line);
    assert Strip(text) == text;
    if Contains(text, "None yet") {
      assert "None" + " yet" == "None yet";
      ContainsPrefixOf(text, "None", " yet");
    }
  }

  /** A placeholder line changes neither the tallies, the total nor the diagnostics. */
  lemma PlaceholderChangesNothing(t: Tally, line: string, lineNo: nat)
    requires Contains(Strip(line), "None")
    ensures ConsumeLine(t, Strip(line), lineNo) == t
  {
    PlaceholderIsSubstringTest(line);
  }

  /** The first piece of a capture group begins with the group's `@`, so it
      is never blank and the author list is never empty: the empty-list
      diagnostic cannot be produced. */
  lemma {:induction false} GroupHasAuthor(text: string)
    requires MatchPrLine(text).Some?
    ensures |SplitAuthors(MatchPrLine(text).value)| > 0
  {
    var g := MatchPrLine(text).value;
    var pieces := Split(g, ',');
    var first := if ',' in g then g[..IndexOf(g, ',')] else g;
    assert pieces[0] == first;
    assert first[0] == '@';
    assert !IsSpace(first[0]);
    StripEmpty(first);
  }

  const LinkedLine: string := "- [7](http://x) (@a)"

  /** The pattern reads a linked line and returns its author group. */
  lemma MatchLinkedLine()
    ensures MatchPrLine(LinkedLine) == Some("@a")
  {
    var t := LinkedLine;
    LinkedLineLink();
    assert t[15] == ' ' && t[16] == '(';
    assert SkipSpaces(t, 16) == 16;
    assert SkipSpaces(t, 15) == 16;
    assert t[16..18] == "(@";
    assert t[18] == 'a' && t[19] == ')';
    assert CloseParen(t, 19) == 19;
    assert CloseParen(t, 18) == 19;
    assert t[17..19] == "@a";
  }

  lemma LinkedLineLink()
    ensures SkipSpaces(LinkedLine, 0) == 0 && SkipSpaces(LinkedLine, 1) == 2
    ensures LinkEnd(LinkedLine, 2) == Some(15)
  {
    LinkedLineNumber();
    LinkedLineUrl();
  }

  lemma LinkedLineNumber()
    ensures SkipSpaces(LinkedLine, 0) == 0 && SkipSpaces(LinkedLine, 1) == 2
    ensures LinkedLine[2] == '[' && SkipDigits(LinkedLine, 3) == 4 && HasAt(LinkedLine, 4, "](")
  {
    var t := LinkedLine;
    assert t[0] == '-' && t[1] == ' ' && t[2] == '[' && t[3] == '7' && t[4] == ']' && t[5] == '(';
    assert SkipSpaces(t, 2) == 2;
    assert SkipDigits(t, 4) == 4;
    assert t[4..6] == "](";
  }

  lemma LinkedLineUrl()
    ensures HasAt(LinkedLine, 6, "http://") && !HasAt(LinkedLine, 6, "https://")
    ensures CloseParen(LinkedLine, 13) == 14
  {
    var t := LinkedLine;
    assert t[6..13] == "http://";
    assert t[10] == ':' && t[6..14][4] == t[10];
    assert t[13] == 'x' && t[14] == ')';
    assert CloseParen(t, 14) == 14;
  }

  /** A line whose handle is not in parentheses is not recognised. */
  lemma RejectBareHandle()
    ensures MatchPrLine("- @a") == None
  {
    var t := "- @a";
    assert t[0] == '-' && t[1] == ' ' && t[2] == '@';
    assert SkipSpaces(t, 0) == 0;
    assert SkipSpaces(t, 2) == 2;
    assert SkipSpaces(t, 1) == 2;
    assert t[2..4] != "(@";
  }

  /** A group splits on commas into handles without their `@`. */
  lemma SplitAuthorsExample()
    ensures SplitAuthors("@b,@c") == ["b", "c"]
  {
    SplitExample();
    KeepShortHandles('b', 'c');
  }

  lemma KeepShortHandles(b: char, c: char)
    requires b != '@' && !IsSpace(b) && c != '@' && !IsSpace(c)
    ensures KeepAuthors([['@', b], ['@', c]]) == [[b], [c]]
  {
    KeepShortHandle(c);
    NormalizeShortHandle(b);
    assert [['@', b], ['@', c]][1..] == [['@', c]];
  }

  lemma KeepShortHandle(c: char)
    requires c != '@' && !IsSpace(c)
    ensures KeepAuthors([['@', c]]) == [[c]]
  {
    NormalizeShortHandle(c);
    assert [['@', c]][1..] == [];
  }

  lemma SplitExample()
    ensures Split("@b,@c", ',') == ["@b", "@c"]
  {
    var g := "@b,@c";
    assert g[0] == '@' && g[1] == 'b' && g[2] == ',';
    assert IndexOf(g, ',') == 2;
    assert g[..2] == "@b";
    assert g[3..] == "@c";
    assert ',' !in "@c";
  }

  lemma NormalizeShortHandle(c: char)
    requires c != '@' && !IsSpace(c)
    ensures Strip(['@', c]) != "" && NormalizeHandle(['@', c]) == [c]
  {
    assert IsTrimmed(['@', c]);
    assert ['@', c][1..] == [c];
  }

  /** Each author in a list adds one to its own tally; the empty name adds nothing. */
  lemma {:induction false} AddAuthorsCounts(c: Counter, authors: seq<string>, k: string)
    ensures Count(AddAuthors(c, authors), k) == Count(c, k) + (if k == "" then 0 else multiset(authors)[k])
  {
    if authors != [] {
      var p := authors[..|authors| - 1];
      AddAuthorsCounts(c, p, k);
      assert authors == p + [authors[|authors| - 1]];
    }
  }

  lemma {:induction false} AddAuthorsValid(c: Counter, authors: seq<string>)
    requires Valid(c) && "" !in c.keys
    ensures Valid(AddAuthors(c, authors)) && "" !in AddAuthors(c, authors).keys
  {
    if authors != [] {
      AddAuthorsValid(c, authors[..|authors| - 1]);
    }
  }

  /** A recognised line counts one pull request however many authors it
      names, adds one association per named author, and adds no diagnostic. */
  lemma PrLineCountsOnce(t: Tally, text: string, lineNo: nat, k: string)
    requires !IsPlaceholder(text) && MatchPrLine(text).Some?
    ensures ConsumeLine(t, text, lineNo).total == t.total + 1
    ensures ConsumeLine(t, text, lineNo).issues == t.issues
    ensures Count(ConsumeLine(t, text, lineNo).counts, k)
            == Count(t.counts, k) + (if k == "" then 0 else multiset(SplitAuthors(MatchPrLine(text).value))[k])
  {
    GroupHasAuthor(text);
    AddAuthorsCounts(t.counts, SplitAuthors(MatchPrLine(text).value), k);
  }

  /** An unrecognised line adds exactly its diagnostic and changes no tally. */
  lemma UnmatchedLineReported(t: Tally, text: string, lineNo: nat)
    requires !IsPlaceholder(text) && MatchPrLine(text).None?
    ensures ConsumeLine(t, text, lineNo) == Tally(t.counts, t.total, t.issues + [UnmatchedLine(text, lineNo)])
  {
  }

  // ------------------------------------------------------------ monotonicity

  /** `u` is `t` with more added: a total at least as large, the same
      diagnostics followed by new ones, and no tally lowered. */
  ghost predicate Extends(t: Tally, u: Tally) {
    && t.total <= u.total
    && t.issues <= u.issues
    && forall k :: Count(t.counts, k) <= Count(u.counts, k)
  }

  /** One classified line never lowers the tally of name `a` ... */
  lemma ApplyCount(t: Tally, k: LineKind, lineNo: nat, a: string)
    ensures Count(t.counts, a) <= Count(Apply(t, k, lineNo).counts, a)
  {
    if k.Recognised? && |SplitAuthors(k.group)| > 0 {
      AddAuthorsCounts(t.counts, SplitAuthors(k.group), a);
    }
  }

  /** ... so it never lowers a tally or the total and only appends diagnostics. */
  lemma ApplyExtends(t: Tally, k: LineKind, lineNo: nat)
    ensures Extends(t, Apply(t, k, lineNo))
  {
    forall a ensures Count(t.counts, a) <= Count(Apply(t, k, lineNo).counts, a) {
      ApplyCount(t, k, lineNo, a);
    }
  }

  /** A block of lines never lowers the tally of name `a` ... */
  lemma {:induction false} FoldLinesCount(t: Tally, vs: seq<LineView>, lo: nat, hi: nat, a: string)
    requires lo <= hi <= |vs|
    ensures Count(t.counts, a) <= Count(FoldLines(t, vs, lo, hi).counts, a)
    decreases hi - lo
  {
    if hi > lo {
      FoldLinesCount(t, vs, lo, hi - 1, a);
      ApplyCount(FoldLines(t, vs, lo, hi - 1), vs[hi - 1].kind, hi, a);
    }
  }

  /** ... nor the total, and it only appends diagnostics. */
  lemma {:induction false} FoldLinesGrows(t: Tally, vs: seq<LineView>, lo: nat, hi: nat)
    requires lo <= hi <= |vs|
    ensures t.total <= FoldLines(t, vs, lo, hi).total
    ensures t.issues <= FoldLines(t, vs, lo, hi).issues
    decreases hi - lo
  {
    if hi > lo {
      FoldLinesGrows(t, vs, lo, hi - 1);
    }
  }

  lemma FoldLinesExtends(t: Tally, vs: seq<LineView>, lo: nat, hi: nat)
    requires lo <= hi <= |vs|
    ensures Extends(t, FoldLines(t, vs, lo, hi))
  {
    FoldLinesGrows(t, vs, lo, hi);
    forall a ensures Count(t.counts, a) <= Count(FoldLines(t, vs, lo, hi).counts, a) {
      FoldLinesCount(t, vs, lo, hi, a);
    }
  }

  /** One line of the scan never lowers the tally of name `a` ... */
  lemma StepCount(vs: seq<LineView>, i: nat, s: State, a: string)
    requires i < |vs|
    ensures Count(s.tally.counts, a) <= Count(Step(vs, i, s).tally.counts, a)
  {
    if s.phase == Inside && !vs[i].endHeader && vs[i].prsHeader {
      FoldLinesCount(s.tally, vs, i + 1, BlockEnd(vs, i + 1), a);
    }
  }

  /** ... nor the total, and it only appends diagnostics. */
  lemma StepGrows(vs: seq<LineView>, i: nat, s: State)
    requires i < |vs|
    ensures s.tally.total <= Step(vs, i, s).tally.total
    ensures s.tally.issues <= Step(vs, i, s).tally.issues
  {
    if s.phase == Inside && !vs[i].endHeader && vs[i].prsHeader {
      FoldLinesGrows(s.tally, vs, i + 1, BlockEnd(vs, i + 1));
    }
  }

  lemma {:induction false} ScanCount(vs: seq<LineView>, i: nat, j: nat, a: string)
    requires i <= j <= |vs|
    ensures Count(StateAt(vs, i).tally.counts, a) <= Count(StateAt(vs, j).tally.counts, a)
    decreases j - i
  {
    if i < j {
      ScanCount(vs, i, j - 1, a);
      StepCount(vs, j - 1, StateAt(vs, j - 1), a);
    }
  }

  lemma {:induction false} ScanGrows(vs: seq<LineView>, i: nat, j: nat)
    requires i <= j <= |vs|
    ensures StateAt(vs, i).tally.total <= StateAt(vs, j).tally.total
    ensures StateAt(vs, i).tally.issues <= StateAt(vs, j).tally.issues
    decreases j - i
  {
    if i < j {
      ScanGrows(vs, i, j - 1);
      StepGrows(vs, j - 1, StateAt(vs, j - 1));
    }
  }

  /** The total never decreases, diagnostics are only appended and no
      author's tally is lowered, from any line of the scan to any later one. */
  lemma ScanOnlyAdds(vs: seq<LineView>, i: nat, j: nat)
    requires i <= j <= |vs|
    ensures Extends(StateAt(vs, i).tally, StateAt(vs, j).tally)
  {
    ScanGrows(vs, i, j);
    forall a ensures Count(StateAt(vs, i).tally.counts, a) <= Count(StateAt(vs, j).tally.counts, a) {
      ScanCount(vs, i, j, a);
    }
  }

  /** One classified line keeps the counter well formed and free of the empty name. */
  lemma ApplyValid(t: Tally, k: LineKind, lineNo: nat)
    requires Valid(t.counts) && "" !in t.counts.keys
    ensures Valid(Apply(t, k, lineNo).counts) && "" !in Apply(t, k, lineNo).counts.keys
  {
    if k.Recognised? {
      AddAuthorsValid(t.counts, SplitAuthors(k.group));
    }
  }

  lemma {:induction false} FoldLinesValid(t: Tally, vs: seq<LineView>, lo: nat, hi: nat)
    requires lo <= hi <= |vs|
    requires Valid(t.counts) && "" !in t.counts.keys
    ensures Valid(FoldLines(t, vs, lo, hi).counts) && "" !in FoldLines(t, vs, lo, hi).counts.keys
    decreases hi - lo
  {
    if hi > lo {
      FoldLinesValid(t, vs, lo, hi - 1);
      ApplyValid(FoldLines(t, vs, lo, hi - 1), vs[hi - 1].kind, hi);
    }
  }

  /** The tallies of the scan form a well-formed counter that never holds the empty name. */
  lemma {:induction false} ScanCountsValid(vs: seq<LineView>, i: nat)
    requires i <= |vs|
    ensures Valid(StateAt(vs, i).tally.counts) && "" !in StateAt(vs, i).tally.counts.keys
  {
    if i > 0 {
      ScanCountsValid(vs, i - 1);
      var s := StateAt(vs, i - 1);
      if s.phase == Inside && !vs[i - 1].endHeader && vs[i - 1].prsHeader {
        FoldLinesValid(s.tally, vs, i, BlockEnd(vs, i));
      }
    }
  }

  /** So does the result of a parse. */
  lemma ParseCountsValid(lines: seq<string>)
    ensures Valid(Parse(lines).counts) && "" !in Parse(lines).counts.keys
  {
    ScanCountsValid(Views(lines), |lines|);
  }

  // ------------------------------------------------------------ ranking

  /** The order of `sorted(..., key=lambda item: (-item[1], item[0]))`:
      more associations first, then the smaller name. */
  predicate RankedBefore(a: (string, nat), b: (string, nat)) {
    a.1 > b.1 || (a.1 == b.1 && LexLess(a.0, b.0))
  }

  function InsertRanked(x: (string, nat), s: seq<(string, nat)>): seq<(string, nat)> {
    if s == [] || !RankedBefore(s[0], x) then [x] + s
    else [s[0]] + InsertRanked(x, s[1..])
  }

  /** The ranking the report prints from the appendix tallies. */
  function SortRanked(s: seq<(string, nat)>): seq<(string, nat)> {
    if s == [] then [] else InsertRanked(s[0], SortRanked(s[1..]))
  }

  predicate RankSorted(s: seq<(string, nat)>) {
    forall i, j :: 0 <= i < j < |s| ==> !RankedBefore(s[j], s[i])
  }

  /** Not ranked before is a transitive relation. */
  lemma NotBeforeTransitive(a: (string, nat), b: (string, nat), c: (string, nat))
    requires !RankedBefore(b, a) && !RankedBefore(c, b)
    ensures !RankedBefore(c, a)
  {
    if RankedBefore(c, a) {
      LexTotal(a.0, b.0);
      LexTotal(b.0, c.0);
      if LexLess(c.0, a.0) && a.1 == b.1 == c.1 {
        if LexLess(b.0, c.0) { LexTransitive(b.0, c.0, a.0); }
        if LexLess(a.0, b.0) { LexTransitive(c.0, a.0, b.0); }
        LexIrreflexive(a.0);
        LexIrreflexive(b.0);
      }
    }
  }

  lemma {:induction false} InsertRankedCorrect(x: (string, nat), s: seq<(string, nat)>)
    requires RankSorted(s)
    ensures RankSorted(InsertRanked(x, s))
    ensures multiset(InsertRanked(x, s)) == multiset(s) + multiset{x}
  {
    if s == [] || !RankedBefore(s[0], x) {
      forall j | 0 <= j < |s| ensures !RankedBefore(s[j], x) {
        if j > 0 { NotBeforeTransitive(x, s[0], s[j]); }
      }
    } else {
      InsertRankedCorrect(x, s[1..]);
      assert s == [s[0]] + s[1..];
      if RankedBefore(x, s[0]) {
        LexAsymmetric(x.0, s[0].0);
      }
      NoneBefore(s[0], InsertRanked(x, s[1..]), s[1..], x);
    }
  }

  /** A permutation of `s` and `x` holds nothing ranked before `y` when
      neither `s` nor `x` does. */
  lemma NoneBefore(y: (string, nat), r: seq<(string, nat)>, s: seq<(string, nat)>, x: (string, nat))
    requires multiset(r) == multiset(s) + multiset{x}
    requires !RankedBefore(x, y) && forall j :: 0 <= j < |s| ==> !RankedBefore(s[j], y)
    ensures forall j :: 0 <= j < |r| ==> !RankedBefore(r[j], y)
  {
    forall j | 0 <= j < |r| ensures !RankedBefore(r[j], y) {
      assert r[j] in multiset(s) + multiset{x};
      if r[j] != x {
        var k :| 0 <= k < |s| && s[k] == r[j];
      }
    }
  }

  /** The appendix ranking is sorted by descending count, then ascending
      name, and lists exactly the tallied pairs. */
  lemma {:induction false} SortRankedCorrect(s: seq<(string, nat)>)
    ensures RankSorted(SortRanked(s))
    ensures multiset(SortRanked(s)) == multiset(s)
  {
    if s != [] {
      SortRankedCorrect(s[1..]);
      InsertRankedCorrect(s[0], SortRanked(s[1..]));
      assert s == [s[0]] + s[1..];
    }
  }

  /** The ranking of an appendix result. */
  function RankAuthors(c: Counter): seq<(string, nat)> {
    SortRanked(Items(c))
  }

  /** The first author of a non-empty ranking has the largest tally. */
  lemma TopAuthorIsMax(c: Counter, k: string)
    requires Valid(c) && k in c.keys
    ensures |RankAuthors(c)| > 0 && RankAuthors(c)[0].1 >= Count(c, k)
  {
    var items := Items(c);
    var r := RankAuthors(c);
    SortRankedCorrect(items);
    var i :| 0 <= i < |c.keys| && c.keys[i] == k;
    assert items[i] == (k, Count(c, k));
    assert items[i] in multiset(r);
    var j :| 0 <= j < |r| && r[j] == items[i];
    if j > 0 { assert !RankedBefore(r[j], r[0]); }
  }
}
