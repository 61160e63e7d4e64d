# cpython_fusil_report: a Dafny model of the report scripts

The repository holds small Python scripts behind a report on CPython issues found by the fusil fuzzer. This project models the parts of those scripts that make decisions:

- **`AppendixParser`** (`parse_appendix_prs.py`). The scan of the report's Markdown appendix:
  - finding the "Appendix / Findings" region and stopping at a closing section;
  - reading the list items under each `- PRs (author):` item;
  - the hand-written recognizer standing in for the PR-line regular expression;
  - the per-author tallies, the PR total and the diagnostics;
  - the name-tie-broken ranking the script prints.
- **`IssueData`** (`gather_issue_data.py`). The per-issue decisions of the GitHub export:
  - classifying the kind from labels and title;
  - extracting versions and configurations from labels;
  - collecting linked PRs without duplicates;
  - building the body snippet and the CSV row.
- **`PrAuthorStats`** (`generate_pr_per_issue_statistics.py`). Flattening the "PR authors" column into normalised handles, counting them, and ranking them with `Counter.most_common`.
- **`Placeholders`** (`calculate_placeholders.py`). Over the issue table:
  - the open and closed counts and the breakdown check;
  - counts by kind;
  - the total of the "Number of PRs" column;
  - the days-to-close selection.
- **`WeeklyIssues`** (`generate_issues_opened_and_closed_by_week.py`). For the weekly chart:
  - the column guard;
  - the numeric row filter;
  - the year-label loop for the x-axis ticks;
  - the y-axis upper limit.
- **`Text`**, **`Counters`** and **`Wrappers`** model what the scripts take from Python:
  - `Text` covers the `str` methods (`strip`, `lstrip`, `split`, `join`, `splitlines`, `lower`, `replace`, `isdigit`), `str(n)` and string ordering;
  - `Counters` covers a `collections.Counter` that remembers the order in which keys first arrived, together with `items()` and `most_common()`;
  - `Wrappers` holds `Option`, which stands for pandas' missing values and failed matches.

Loops in the source are Dafny methods with loop invariants. Each one is proved equal to a specification function, and the properties are proved about those functions:

- `AppendixParser.ParseAppendix`, with its helpers `VisitLine` (the body of the outer loop), `ConsumePrBlock`, `ConsumePrLine`, `ConsumeMatched` and `CountAuthors`;
- `IssueData.GuessVersions`, `IssueData.GuessConfigurations` and `IssueData.CollectLinkedPrs`;
- `PrAuthorStats.CollectAuthors`;
- `WeeklyIssues.TickLabels` and `WeeklyIssues.YUpperLimit`.

pandas boolean masks, `value_counts` and `dropna` are whole-column selections, so they are functions.

The specification of the appendix scan is a state machine over per-line views (`AppendixParser.LineView`). Every test the two loops make on a line looks at that line alone, so `ViewOf` records the results once: the entry, findings and closing headers, the PR header, the list-item test, and how the stripped text is classified. `Step` and `StateAt` then run over those views. The diagnostics are values of `AppendixParser.Diagnostic`. `Message` renders each one with the wording of the source's f-strings, and `ParseAppendix` returns the rendered strings.

Where the design notes and the code disagree, the model follows the code:

- The handles are not lower-cased anywhere. The design speaks of case-normalised authors, but the code only strips white space and a leading `@`.
- A label of exactly `version-` or `python-` qualifies as a version label but yields the empty version, so the versions field can be empty although a version label is present (`IssueData.EmptyVersionLabel`, `IssueData.VersionsFieldEmpty`). The design describes the field as listing the versions found; the model keeps the empty entry as the code does.
- The empty-author diagnostic of the appendix scan is modelled. It is proved unreachable (`AppendixParser.GroupHasAuthor`): the recognizer only accepts a group that starts with `@` and holds a further character that is not `)`, so at least one piece survives the split.
- `i = line_index - 1` at `parse_appendix_prs.py:81` assigns the loop variable of a Python `for` loop, and that has no effect. The outer scan therefore visits the lines of a PR block again. Only a line that is itself a `- PRs (author):` header behaves differently on that second visit: it opens a second block, so the items under it are counted twice. The model does the same. With explicit loops, `ParseAppendix` visits every line and calls `ConsumePrBlock` for each header.

## Model

| member | source | states |
|---|---|---|
| Text.Strip | parse_appendix_prs.py:49-50 | `str.strip()`: the result is trimmed and no longer than the input, and a trimmed string is unchanged |
| Text.StripEmpty | parse_appendix_prs.py:66 | the stripped text is empty exactly when every character is white space |
| Text.StripSlice | parse_appendix_prs.py:49-50 | the stripped text is a slice of the input, and only white space lies before and after it |
| Text.StripIdempotent | generate_pr_per_issue_statistics.py:18 | stripping twice is stripping once |
| Text.LStripChar | generate_pr_per_issue_statistics.py:18 | `lstrip('@')`: removes exactly the leading run of `@`, keeping the rest as a suffix |
| Text.NormalizeFixpoint | generate_pr_per_issue_statistics.py:18 | a trimmed handle without a leading `@` is left unchanged by strip-then-lstrip |
| Text.NormalizeNotIdempotent | parse_appendix_prs.py:64 | normalising `"@ bob"` gives `" bob"` and normalising again gives `"bob"`, so the normalisation is not idempotent |
| Text.NormalizeBlank | parse_appendix_prs.py:66 | a blank piece normalises to the empty string |
| Text.Lower | gather_issue_data.py:17-18 | `str.lower()` maps each character and keeps the length |
| Text.LowerOfUpper | gather_issue_data.py:17 | lowering an upper-cased string equals lowering the string |
| Text.LowerIdempotent | gather_issue_data.py:37 | lowering twice is lowering once |
| Text.ContainsLower | gather_issue_data.py:19 | a substring found in a string is found, lowered, in the lowered string |
| Text.ContainsPrefixOf | gather_issue_data.py:22 | a string containing `p + q` contains `p` |
| Text.ContainsAfterPrefix | gather_issue_data.py:39 | a pattern whose first character is absent from `q` does not occur in `q + v` when it does not occur in `v` |
| Text.Split | generate_pr_per_issue_statistics.py:16 | `split(',')` yields at least one piece and no piece contains the separator |
| Text.IndexOf | gather_issue_data.py:42 | finds the first occurrence of the separator |
| Text.IndexOfAfter | gather_issue_data.py:42 | in `x + sep + rest`, with `sep` not in `x`, the first separator is at `|x|` |
| Text.JoinSplit | gather_issue_data.py:126 | splitting and re-joining on one separator gives back the string |
| Text.SplitJoin | gather_issue_data.py:126 | joining separator-free pieces and splitting again gives back the pieces |
| Text.JoinEmpty | gather_issue_data.py:45 | a join is empty exactly when there are no pieces or one empty piece |
| Text.SplitLines | gather_issue_data.py:94 | `splitlines()`: no piece holds a line break |
| Text.LineEnds | gather_issue_data.py:94 | the terminator removed after each piece of `splitlines()`, one per piece |
| Text.SplitLinesRebuild | gather_issue_data.py:94 | joining the pieces back, each followed by its terminator, gives the input again |
| Text.LineEndsShape | gather_issue_data.py:94 | every terminator is `\r\n` or a single line break; only the last piece may lack one, and then it is not empty |
| Text.LineEndsCR | gather_issue_data.py:94 | a lone `\r` terminator is never followed by `\n`, so `\r\n` is always taken as one break |
| Text.BreakAt | gather_issue_data.py:94 | finds the next line break, with no break before it |
| Text.ReplaceAbsent | gather_issue_data.py:39 | `replace` of an absent pattern changes nothing |
| Text.NatToDec | parse_appendix_prs.py:70 | `str(n)` is a string of digits with no leading zero |
| Text.DecRoundTrip | parse_appendix_prs.py:77 | reading back `str(n)` gives `n` |
| Text.LexIrreflexive | gather_issue_data.py:45 | string `<` is irreflexive |
| Text.LexTransitive | gather_issue_data.py:45 | string `<` is transitive |
| Text.LexTotal | gather_issue_data.py:60 | any two strings are equal or ordered one way |
| Text.LexAsymmetric | parse_appendix_prs.py:101 | string `<` is asymmetric |
| Counters.Bump | parse_appendix_prs.py:75 | `c[k] += 1` raises `k` by one, leaves every other key alone, and appends a new key to the key order |
| Counters.CounterKeys | generate_pr_per_issue_statistics.py:25 | `Counter(xs)` is well formed and its keys are the distinct elements in first-appearance order |
| Counters.CounterCounts | generate_pr_per_issue_statistics.py:25 | each key of `Counter(xs)` counts its occurrences in `xs` |
| Counters.CounterTotal | generate_pr_per_issue_statistics.py:25 | the tallies of `Counter(xs)` add up to `len(xs)` |
| Counters.SumOverBump | parse_appendix_prs.py:75 | one increment raises the sum over the keys by one when the key is listed |
| Counters.CounterSize | generate_pr_per_issue_statistics.py:33 | the number of items is the number of distinct elements |
| Counters.NoDupCard | generate_pr_per_issue_statistics.py:33 | a duplicate-free list is as long as its set |
| Counters.Items | parse_appendix_prs.py:101 | `items()` pairs each key, in key order, with its count |
| Counters.DedupElements | gather_issue_data.py:111-113 | order-preserving deduplication keeps every element once and adds nothing |
| Counters.DedupMember | gather_issue_data.py:112 | whatever deduplication keeps occurs in the input |
| Counters.DedupFirstSeen | generate_pr_per_issue_statistics.py:28 | deduplication lists elements by first appearance |
| Counters.InsertByCountCorrect | generate_pr_per_issue_statistics.py:28 | inserting into a list in descending count order keeps it descending and adds exactly the new item |
| Counters.InsertByCountStable | generate_pr_per_issue_statistics.py:28 | the inserted item goes ahead of the existing items of its own count, and their relative order is kept |
| Counters.SortByCountCorrect | generate_pr_per_issue_statistics.py:28 | `most_common()` is in descending count order and is a permutation of the items |
| Counters.SortByCountStable | generate_pr_per_issue_statistics.py:28 | items of equal count keep their original order |
| AppendixParser.SkipSpaces | parse_appendix_prs.py:29 | `\s*`: stops at the first non-space |
| AppendixParser.SkipDigits | parse_appendix_prs.py:29 | `\d+`: stops at the first non-digit |
| AppendixParser.CloseParen | parse_appendix_prs.py:29 | `[^)]*`: stops at the first `)` |
| AppendixParser.LinkEnd | parse_appendix_prs.py:29 | the optional `[digits](http...)` segment, when present, ends after its start and within the line |
| AppendixParser.AuthorGroup | parse_appendix_prs.py:29 | the captured group starts with `@`, holds at least one more character, and contains no `)` |
| AppendixParser.MatchPrLine | parse_appendix_prs.py:28-30 | a successful match yields a group with the same three properties |
| AppendixParser.SliceAvoids | parse_appendix_prs.py:29 | a character absent from every position of a range is absent from that slice |
| AppendixParser.Messages | parse_appendix_prs.py:69-78 | one message per diagnostic, in order, each rendered with the source's wording |
| AppendixParser.Classify | parse_appendix_prs.py:52-58 | a recognised line carries its own text and the group the pattern captures, and an unrecognised one carries its text |
| AppendixParser.Views | parse_appendix_prs.py:32-49 | one view per line, each computed from that line alone |
| AppendixParser.BlockEnd | parse_appendix_prs.py:49 | the block under a PR header is the longest run of following list items |
| AppendixParser.CountAuthors | parse_appendix_prs.py:73-75 | the increment loop computes `AddAuthors` |
| AppendixParser.ConsumePrLine | parse_appendix_prs.py:50-78 | one block line updates the tally exactly as `ConsumeLine` says |
| AppendixParser.ConsumeMatched | parse_appendix_prs.py:58-75 | a matched line updates the tally exactly as `ConsumeGroup` says |
| AppendixParser.ConsumePrBlock | parse_appendix_prs.py:48-80 | the inner `while` stops at `BlockEnd` and leaves the tally of `ConsumeBlock` |
| AppendixParser.VisitLine | parse_appendix_prs.py:35-81 | one pass of the outer loop body, with its `continue` and `break`, performs one `Step` of the state machine |
| AppendixParser.ParseAppendix | parse_appendix_prs.py:4-83 | the function's three results are those of the line-by-line state machine `ParseReport` |
| AppendixParser.DoneIsFinal | parse_appendix_prs.py:43-45 | after the `break` no later line changes the state |
| AppendixParser.EndHeaderStops | parse_appendix_prs.py:43-45 | a closing `## Conclusions` or `## Impact` header inside the region fixes the result |
| AppendixParser.NoAppendixNoResult | parse_appendix_prs.py:35-41 | without an entry header followed, within two lines, by `### Findings`, the result is an empty counter, total 0 and no diagnostics |
| AppendixParser.StillScanning | parse_appendix_prs.py:35-41 | before the entry line, the state is still scanning with nothing tallied |
| AppendixParser.PlaceholderIsSubstringTest | parse_appendix_prs.py:52 | the two placeholder tests amount to one substring test for `None` |
| AppendixParser.PlaceholderChangesNothing | parse_appendix_prs.py:52-54 | a placeholder line leaves the tally unchanged |
| AppendixParser.GroupHasAuthor | parse_appendix_prs.py:69-71 | a matched group always yields at least one author, so the empty-author warning never fires |
| AppendixParser.AddAuthorsCounts | parse_appendix_prs.py:73-75 | each non-empty author's tally rises by its number of occurrences on the line |
| AppendixParser.AddAuthorsValid | parse_appendix_prs.py:73-75 | the counter stays well formed and never gains the empty key |
| AppendixParser.PrLineCountsOnce | parse_appendix_prs.py:58-75 | a matched line raises the PR total by exactly one, adds no diagnostic, and raises each author by its occurrences |
| AppendixParser.UnmatchedLineReported | parse_appendix_prs.py:76-78 | an unmatched, non-placeholder line adds exactly its diagnostic and changes nothing else |
| AppendixParser.ApplyCount | parse_appendix_prs.py:52-78 | one classified line never lowers an author's tally |
| AppendixParser.ApplyExtends | parse_appendix_prs.py:52-78 | one line never lowers a tally, never lowers the total, and only appends diagnostics |
| AppendixParser.FoldLinesCount | parse_appendix_prs.py:49-80 | a run of block lines never lowers an author's tally |
| AppendixParser.FoldLinesGrows | parse_appendix_prs.py:49-80 | a run of block lines never lowers the total and only appends diagnostics |
| AppendixParser.FoldLinesExtends | parse_appendix_prs.py:49-80 | together: a whole block only adds to the tally |
| AppendixParser.StepCount | parse_appendix_prs.py:34-81 | one visit of the outer loop never lowers an author's tally |
| AppendixParser.StepGrows | parse_appendix_prs.py:34-81 | one visit never lowers the total and only appends diagnostics |
| AppendixParser.ScanCount | parse_appendix_prs.py:34-81 | no author's tally falls between two points of the scan |
| AppendixParser.ScanGrows | parse_appendix_prs.py:34-81 | the total never falls and diagnostics are only appended between two points of the scan |
| AppendixParser.ScanOnlyAdds | parse_appendix_prs.py:34-81 | the same holds between any two points of the scan |
| AppendixParser.ScanCountsValid | parse_appendix_prs.py:18-75 | at every point of the scan the counter is well formed and has no empty author |
| AppendixParser.ParseCountsValid | parse_appendix_prs.py:4-83 | the returned counter is well formed and has no empty author |
| AppendixParser.ApplyValid | parse_appendix_prs.py:52-78 | one line keeps the counter well formed and free of the empty author |
| AppendixParser.FoldLinesValid | parse_appendix_prs.py:49-80 | the same holds for a run of block lines |
| AppendixParser.NotBeforeTransitive | parse_appendix_prs.py:101 | "not ranked before" under the key `(-count, name)` is transitive |
| AppendixParser.InsertRankedCorrect | parse_appendix_prs.py:101 | inserting into a ranked list keeps it ranked and adds exactly the new item |
| AppendixParser.SortRankedCorrect | parse_appendix_prs.py:101 | the printed ranking is ordered by descending count and then by ascending name, and it is a permutation of the items |
| AppendixParser.TopAuthorIsMax | parse_appendix_prs.py:109-111 | the first ranked author has the largest tally |
| IssueData.InsertStringCorrect | gather_issue_data.py:45 | inserting a new string into a strictly sorted list keeps it sorted and adds exactly that string |
| IssueData.SortStringsCorrect | gather_issue_data.py:45 | `sorted(list(set))` is strictly increasing and a permutation of the set |
| IssueData.SortedUnique | gather_issue_data.py:45 | two strictly sorted lists with the same elements are equal |
| IssueData.SortDedup | gather_issue_data.py:45 | sorting the deduplicated values gives a strictly sorted list of exactly the values |
| IssueData.GuessKind | gather_issue_data.py:16-31 | the kind is one of the four categories or the empty string |
| IssueData.UpperAll | gather_issue_data.py:18 | upper-cases each label and keeps the count |
| IssueData.GuessKindPrecedence | gather_issue_data.py:19-31 | a crash signal wins over everything; an abort signal wins over the later two; the result is empty exactly when no signal is present |
| IssueData.GuessKindIgnoresCase | gather_issue_data.py:17-18 | the kind does not depend on the letter case of the title or the labels |
| IssueData.GuessKindLabelSet | gather_issue_data.py:18 | the kind depends only on the set of lowered labels |
| IssueData.AssertionErrorKeywordRedundant | gather_issue_data.py:22 | a title containing `assertionerror` already contains `assert` |
| IssueData.VersionOf | gather_issue_data.py:37-44 | a version found by the fallback rule is `3.` followed by digits |
| IssueData.VersionFallback | gather_issue_data.py:41-44 | for an unprefixed label, a version is found exactly when the label is `3.` and digits, alone or followed by a further `.` part, and it is that `3.` and digits |
| IssueData.VersionLabel | gather_issue_data.py:38-40 | `version-v` and `python-v` both yield `v` |
| IssueData.VersionOfPrefixed | gather_issue_data.py:38-40 | a lower-case label with the `version-` or `python-` prefix yields the label with both prefixes removed |
| IssueData.VersionPrefixedLabel | gather_issue_data.py:38-40 | `version-v` yields `v` |
| IssueData.PythonPrefixedLabel | gather_issue_data.py:38-40 | `python-v` yields `v` |
| IssueData.PrefixedLower | gather_issue_data.py:37 | a lower-case prefix before a lower-case value is already lower case |
| IssueData.VersionOfIgnoresCase | gather_issue_data.py:37 | a label's version does not depend on its letter case |
| IssueData.CollectFound | gather_issue_data.py:35-44 | a value is collected exactly when the extraction finds it in some element |
| IssueData.VersionsNamed | gather_issue_data.py:35-44 | a version is collected exactly when some label yields it |
| IssueData.GuessVersions | gather_issue_data.py:34-45 | the loop computes the sorted, `;`-joined field of the distinct versions |
| IssueData.VersionsFieldPieces | gather_issue_data.py:45 | the field splits into a strictly sorted list of exactly the versions |
| IssueData.VersionsFieldEmpty | gather_issue_data.py:45 | the field is empty exactly when every version found is the empty string |
| IssueData.EmptyVersionLabel | gather_issue_data.py:38-45 | the label `version-` qualifies, yields the empty version, and leaves the field empty |
| IssueData.VersionsFieldOrderFree | gather_issue_data.py:45 | label lists yielding the same versions give the same field |
| IssueData.AllConfigsSorted | gather_issue_data.py:60 | the four configuration names are in sorted order |
| IssueData.SortedConcat | gather_issue_data.py:60 | two sorted lists with every element of the first below every element of the second concatenate to a sorted list |
| IssueData.SortedConfigsSorted | gather_issue_data.py:60 | any selection of the configuration names, in that order, is strictly sorted |
| IssueData.SortedConfigsMembers | gather_issue_data.py:51-58 | it holds only configuration names, none of them containing `;` |
| IssueData.ConfigsOfSorted | gather_issue_data.py:48-60 | the configurations read from labels are strictly sorted known names |
| IssueData.GuessConfigurations | gather_issue_data.py:48-60 | the method computes the sorted, `;`-joined field of the configurations whose labels are present |
| IssueData.SortingAddedConfigs | gather_issue_data.py:51-60 | sorting the names in the order they are added gives the sorted selection, and either both are empty or neither is |
| IssueData.AddedConfigsNoDup | gather_issue_data.py:51-58 | no configuration is added twice |
| IssueData.SameConfigs | gather_issue_data.py:51-60 | the added and the sorted selections hold the same names |
| IssueData.AppendNew | gather_issue_data.py:51-58 | appending a name not yet present keeps the list duplicate-free |
| IssueData.ConfigsFieldPieces | gather_issue_data.py:60 | the field splits back into the sorted configurations |
| IssueData.PrInfoFields | gather_issue_data.py:109-111 | `url;author;state` splits back into its three parts |
| IssueData.CollectLinkedPrs | gather_issue_data.py:103-113 | the timeline loop yields the distinct PR descriptions in first-seen order |
| IssueData.PrInfosNamed | gather_issue_data.py:104-111 | a description is produced exactly when some cross-reference event to a pull request yields it |
| IssueData.LinkedPrsFacts | gather_issue_data.py:111-113 | the linked PRs are duplicate-free and are exactly the descriptions of cross-referenced pull requests |
| IssueData.BodySnippet | gather_issue_data.py:94-97 | corrected snippet: a body of at most 15 lines is joined whole, with no `...` |
| IssueData.BodySnippetMarksTruncation | gather_issue_data.py:94-97 | corrected snippet: a body of more than 15 lines gets the first 15 lines and `...` |
| IssueData.BodySnippetKeepsShortBody | gather_issue_data.py:94-97 | corrected snippet: a short body is kept whole |
| IssueData.BodySnippetAsWrittenMisleads | gather_issue_data.py:94-97 | the rule as written drops a line without `...` and adds `...` when nothing was dropped |
| IssueData.BodySnippetDropsLine | gather_issue_data.py:94-97 | a body of 15 line breaks followed by `x` has 16 lines, but the rule as written adds no `...` |
| IssueData.BodySnippetMarksNothing | gather_issue_data.py:94-97 | the body `"\n"` has one line, and the rule as written gives `...` |
| IssueData.SplitBlankLines | gather_issue_data.py:94 | `n` leading line breaks split off as `n` empty lines |
| IssueData.JoinBlanks | gather_issue_data.py:95 | `n` empty lines joined with the two-character `\n` take `2(n-1)` characters |
| IssueData.NewlinesLength | gather_issue_data.py:94 | `n` line breaks are `n` characters |
| IssueData.BlanksJoinNoDot | gather_issue_data.py:95-97 | joined empty lines contain no `.` |
| IssueData.BuildRow | gather_issue_data.py:86-134 | the per-issue loop body builds exactly the row `RowOf`, whose snippet column follows the rule as written |
| IssueData.TrailingNewlineMarked | gather_issue_data.py:94-97 | the body `"a\n"` is one line, yet the rule as written gives `a...`; the corrected rule gives `a` |
| IssueData.RowLabelsRoundTrip | gather_issue_data.py:126 | the `Labels` column splits back into the labels |
| PrAuthorStats.NormalizedPieces | generate_pr_per_issue_statistics.py:17-20 | every kept handle is non-empty and has no leading `@` |
| PrAuthorStats.NormalizePieces | generate_pr_per_issue_statistics.py:16-20 | the inner loop keeps the non-empty normalised pieces, in order |
| PrAuthorStats.CollectAuthors | generate_pr_per_issue_statistics.py:10-20 | the nested loops build the flattened handle list `FlattenAuthors` |
| PrAuthorStats.FlattenAppend | generate_pr_per_issue_statistics.py:14-20 | the list for a concatenation of cells is the concatenation of the lists |
| PrAuthorStats.BlankCellsContributeNothing | generate_pr_per_issue_statistics.py:14-15 | missing, non-text and blank cells contribute no handle |
| PrAuthorStats.CellAuthors | generate_pr_per_issue_statistics.py:14-20 | every handle a cell contributes is non-empty and has no leading `@` |
| PrAuthorStats.FlattenAuthors | generate_pr_per_issue_statistics.py:10-20 | every collected handle is non-empty and has no leading `@` |
| PrAuthorStats.CleanHandleKept | generate_pr_per_issue_statistics.py:15-20 | a trimmed handle without `@` or `,` is collected unchanged |
| PrAuthorStats.MostCommonOrder | generate_pr_per_issue_statistics.py:25-28 | the ranking has descending counts and is a permutation of the items; items with the same count keep their key order, which is first appearance |
| PrAuthorStats.TopAuthorIsMax | generate_pr_per_issue_statistics.py:36-38 | the first ranked handle has the largest count of any handle |
| PrAuthorStats.UniqueAndTotal | generate_pr_per_issue_statistics.py:25-33 | the unique-author count is the number of distinct handles, and the counts add up to the number of handles |
| PrAuthorStats.TieBreaksDiffer | generate_pr_per_issue_statistics.py:28 | on equal counts `most_common` keeps `b` before `a`, while the appendix ranking puts `a` first |
| PrAuthorStats.ReportRanked | generate_pr_per_issue_statistics.py:22-43 | a non-empty handle list gives a ranking, and a second author is reported exactly when there are two or more, because the name test never fails |
| Placeholders.CountStatus | calculate_placeholders.py:16-17 | a status count never exceeds the number of rows |
| Placeholders.StatusCountsDisjoint | calculate_placeholders.py:13-24 | no row counts as both open and closed, open + closed ≤ total, and equality holds exactly when every status is open or closed |
| Placeholders.StatusesElements | calculate_placeholders.py:28 | the status column lists each row's status in order |
| Placeholders.StatusReportCases | calculate_placeholders.py:24-28 | the breakdown is printed exactly when every row is open or closed; otherwise the values listed include one that is neither |
| Placeholders.FillUnknown | calculate_placeholders.py:33 | `fillna('Unknown')` replaces exactly the missing entries |
| Placeholders.GuessedKinds | calculate_placeholders.py:33 | the kind column lists each row's kind in order |
| Placeholders.ValueCountsCorrect | calculate_placeholders.py:33 | the counts by kind add up to the number of rows and are in descending order; `Unknown` counts the missing entries plus any literal `Unknown` |
| Placeholders.FilledOccurrences | calculate_placeholders.py:33 | after filling, a value occurs as often as it did, plus the missing entries for `Unknown` |
| Placeholders.ToNumeric | calculate_placeholders.py:80 | a digit string coerces to its value and a missing cell stays missing |
| Placeholders.NonNumericIgnored | calculate_placeholders.py:80-82 | an entry that does not coerce changes neither the sum nor whether numeric data exists |
| Placeholders.NumericSumAppend | calculate_placeholders.py:82 | the sum splits over the rows |
| Placeholders.PrTotalsAgree | calculate_placeholders.py:78-102 | for a loaded summary table the two tables are reported alike, except for a present but entirely missing column: "not found" for the issue table, "no numeric data" for the summary table; the silent outcome of an unloaded summary never arises for the issue table |
| Placeholders.ClosedIssuesForDaysCalc | calculate_placeholders.py:109-113 | every selected row is closed and has both dates |
| Placeholders.ClosedIssuesSelected | calculate_placeholders.py:109-113 | a row is selected exactly when it is closed and has both dates |
| Placeholders.DaysOpenCalc | calculate_placeholders.py:116 | one entry per selected row: its issue number, and the closed day minus the filed day |
| Placeholders.DaysReportCases | calculate_placeholders.py:115-128 | the CSV is saved exactly when some row is closed with both dates, with one entry per selected row; no day count is missing, so the two "all invalid" branches never run |
| WeeklyIssues.SelectColumns | generate_issues_opened_and_closed_by_week.py:18-22 | columns 2, 3 and 4 are selected exactly when the file has more than four columns; otherwise the error path is taken |
| WeeklyIssues.CleanRowsAppend | generate_issues_opened_and_closed_by_week.py:25-30 | the numeric row filter works row by row, preserving order |
| WeeklyIssues.CleanRowsOne | generate_issues_opened_and_closed_by_week.py:25-30 | a single row is kept exactly when its three values are numbers |
| WeeklyIssues.CleanRowsExact | generate_issues_opened_and_closed_by_week.py:25-30 | every kept row comes from a numeric raw row, and every numeric raw row is kept |
| WeeklyIssues.TickLabels | generate_issues_opened_and_closed_by_week.py:66-73 | one label per row, in row order, each `W` + padded week + line break + the year label at that row |
| WeeklyIssues.FlippedWhen | generate_issues_opened_and_closed_by_week.py:67-71 | the label is `'25` exactly when some row up to this one has a week lower than the previous row's, which was above 40 |
| WeeklyIssues.FlippedStays | generate_issues_opened_and_closed_by_week.py:70-71 | once `'25`, the label never switches back |
| WeeklyIssues.Pad2Digits | generate_issues_opened_and_closed_by_week.py:72 | a non-negative week is written with at least two digits that read back as the week |
| WeeklyIssues.TickLabelShape | generate_issues_opened_and_closed_by_week.py:72 | a label starts with `W`, and after the padded week come a line break and the year label |
| WeeklyIssues.MaxCreated | generate_issues_opened_and_closed_by_week.py:80 | the maximum of the created counts bounds every created count and is one of them |
| WeeklyIssues.MaxClosed | generate_issues_opened_and_closed_by_week.py:82 | the maximum of the closed counts bounds every closed count and is one of them |
| WeeklyIssues.YUpperLimit | generate_issues_opened_and_closed_by_week.py:78-84 | the limit is at least 10 and at least every plotted count, and it is either 10 or one of the counts |
| WeeklyIssues.Weeks | generate_issues_opened_and_closed_by_week.py:69 | the week column lists each row's week in order |
| WeeklyIssues.WeeklyChart | generate_issues_opened_and_closed_by_week.py:18-84 | too few columns gives the error, no numeric row gives no chart, and otherwise the chart gets the cleaned rows, their tick labels and a limit that bounds every count |

## Left out

- Network and file I/O is left out: the GitHub client (authentication, rate limit, search, timeline fetching) at `gather_issue_data.py:63-148`, every `read_csv`/`to_csv`/`open`, and the CSV writer. The model's inputs are what these calls return, as values.
- Console output (`print`), the exception handlers that turn failures into messages, and the matplotlib plotting (bar offsets, styles, `savefig`) are left out because they are reporting only. The diagnostic strings that `parse_appendix_for_pr_data` returns are modelled.
- The mean and median of the days to close (`calculate_placeholders.py:124-125`) are floating point, and are left out.
- The configuration counts from the summary table (`calculate_placeholders.py:36-70`) are file loading with fallbacks. The count itself is the same `value_counts` as `Placeholders.ValueCounts`.
- The regular expressions are replaced by hand-written recognizers:
  - they follow the two patterns for ASCII input; the gaps for other characters are listed below;
  - the test for `https?://` is written out as `http`, an optional `s`, then `://`.
- AppendixParser.SkipDigits: `\d` is read as the ASCII digits `0` to `9`. Python's `re` also matches other Unicode decimal digits, such as `٣`.
- AppendixParser.MatchPrLine: inherits the `\d` gap of `SkipDigits`, so a PR number written in non-ASCII decimal digits is rejected by the model but matched by the pattern.
- AppendixParser.IsPrsHeader: case is folded for ASCII letters only. Python's `re.IGNORECASE` also folds `ſ` to `s` and the Kelvin sign to `k`, so `- PRſ (author):` is a header for the pattern but not for the model.
- IssueData.VersionOf: `isdigit()` is read as the ASCII digits. Python also accepts other digit characters, so `3.²` and `3.٣` give a version there but not in the model.
- Text.Lower: only ASCII letters change case. Python's `str.lower` also maps other letters; the labels and titles involved are ASCII.
- Placeholders.ToNumeric: only integer literals (with an optional sign) count as numbers. The decimal and exponent forms that `pd.to_numeric` also accepts are treated as non-numeric, so floats and `astype(int)` truncation are not modelled.
- Dates are day numbers: `pd.to_datetime` parsing is left out, and the model's inputs are `None` where parsing failed.
- The in-place column additions of `calculate_placeholders.py` (lines 9-10, 80, 116) and the in-place `dropna` of the weekly script are modelled as functions that return the new column or table. No data frame is updated.
- WeeklyIssues.YUpperLimit: the `pd.notna` fallback at line 84 is not modelled. Once the table is not empty the maximum always exists.

## Findings

| source | as written | input that shows it | evidently intended | confidence | as-written member | corrected member |
|---|---|---|---|---|---|---|
| gather_issue_data.py:94-97 | `...` is appended when `len(issue.body) > len(body_snippet)`. The snippet is the first 15 lines joined with the two-character text `\n`, so the test compares lengths of texts written in different forms. | A body of 15 line breaks followed by `x` has 16 lines. The snippet keeps 15 empty lines (28 characters) and the body has 16 characters, so the dropped line gets no `...`. Conversely, the body `"\n"` has one line and nothing is dropped, yet the empty snippet is shorter than the body, so `...` is appended. | `...` marks exactly that lines were cut, i.e. the body has more than 15 lines | not executed | IssueData.BodySnippetAsWrittenMisleads | IssueData.BodySnippetMarksTruncation |
