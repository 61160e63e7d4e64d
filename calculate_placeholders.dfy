/** The report figures of calculate_placeholders.py over the rows of the issue
    table: open and closed counts, counts by kind, the total of the
    "Number of PRs" column, and the days each closed issue stayed open. */
module Placeholders {
  import opened Wrappers
  import opened Text
  import opened Counters

  /** One row of the issue table. A missing or non-text cell is `None`;
      the dates are day numbers, `None` where `to_datetime` could not parse
      them. */
  datatype IssueRecord = IssueRecord(
    issueNumber: string,
    status: Option<string>,
    guessedKind: Option<string>,
    numberOfPrs: Option<string>,
    dateFiled: Option<int>,
    closedDate: Option<int>)

  // ------------------------------------------------------------ status counts

  /** `df['Status'].str.lower() == status` for one row. */
  predicate HasStatus(r: IssueRecord, status: string) {
    r.status.Some? && Lower(r.status.value) == status
  }

  function CountStatus(rows: seq<IssueRecord>, status: string): (n: nat)
    ensures n <= |rows|
  {
    if rows == [] then 0
    else CountStatus(rows[..|rows| - 1], status) + (if HasStatus(rows[|rows| - 1], status) then 1 else 0)
  }

  /** The number of rows whose status is open or closed (after lowering). */
  function CountOpenOrClosed(rows: seq<IssueRecord>): (n: nat) {
    if rows == [] then 0
    else
      var last := rows[|rows| - 1];
      CountOpenOrClosed(rows[..|rows| - 1]) + (if HasStatus(last, "open") || HasStatus(last, "closed") then 1 else 0)
  }

  /** No row is both open and closed, so the two counts add up to the rows
      with either status, which are at most all rows; they make up all rows
      exactly when every status is open or closed. */
  lemma {:induction false} StatusCountsDisjoint(rows: seq<IssueRecord>)
    ensures CountStatus(rows, "open") + CountStatus(rows, "closed") == CountOpenOrClosed(rows)
    ensures CountOpenOrClosed(rows) <= |rows|
    ensures CountOpenOrClosed(rows) == |rows| <==>
              forall i :: 0 <= i < |rows| ==> HasStatus(rows[i], "open") || HasStatus(rows[i], "closed")
  {
    if rows != [] {
      var p := rows[..|rows| - 1];
      var last := rows[|rows| - 1];
      StatusCountsDisjoint(p);
      assert "open" != "closed" by { assert "open"[0] != "closed"[0]; }
      assert !(HasStatus(last, "open") && HasStatus(last, "closed"));
      if CountOpenOrClosed(rows) == |rows| {
        forall i | 0 <= i < |rows| ensures HasStatus(rows[i], "open") || HasStatus(rows[i], "closed") {
          if i < |p| { assert rows[i] == p[i]; }
        }
      }
      if forall i :: 0 <= i < |rows| ==> HasStatus(rows[i], "open") || HasStatus(rows[i], "closed") {
        forall i | 0 <= i < |p| ensures HasStatus(p[i], "open") || HasStatus(p[i], "closed") {
          assert p[i] == rows[i];
        }
        assert HasStatus(rows[|rows| - 1], "open") || HasStatus(rows[|rows| - 1], "closed");
      }
    }
  }

  /** The status values as `unique()` lists them: distinct, first seen first. */
  function Statuses(rows: seq<IssueRecord>): seq<Option<string>> {
    if rows == [] then [] else Statuses(rows[..|rows| - 1]) + [rows[|rows| - 1].status]
  }

  /** The issue-count paragraph: the breakdown when the open and closed
      counts cover all rows, otherwise the discrepancy with the values seen. */
  datatype StatusReport =
    | Breakdown(total: nat, open: nat, closed: nat)
    | Discrepancy(total: nat, open: nat, closed: nat, foundValues: seq<Option<string>>)

  function StatusReportOf(rows: seq<IssueRecord>): StatusReport {
    var open := CountStatus(rows, "open");
    var closed := CountStatus(rows, "closed");
    if |rows| == open + closed then Breakdown(|rows|, open, closed)
    else Discrepancy(|rows|, open, closed, Dedup(Statuses(rows)))
  }

  lemma {:induction false} StatusesElements(rows: seq<IssueRecord>)
    ensures |Statuses(rows)| == |rows|
    ensures forall i :: 0 <= i < |rows| ==> Statuses(rows)[i] == rows[i].status
  {
    if rows != [] {
      StatusesElements(rows[..|rows| - 1]);
    }
  }

  /** The breakdown is printed exactly when every row is open or closed;
      otherwise the values listed include one that is neither. */
  lemma StatusReportCases(rows: seq<IssueRecord>)
    ensures StatusReportOf(rows).Breakdown? <==>
              forall i :: 0 <= i < |rows| ==> HasStatus(rows[i], "open") || HasStatus(rows[i], "closed")
    ensures StatusReportOf(rows).Discrepancy? ==>
              exists v :: v in StatusReportOf(rows).foundValues &&
                          !(v.Some? && (Lower(v.value) == "open" || Lower(v.value) == "closed"))
  {
    StatusCountsDisjoint(rows);
    if StatusReportOf(rows).Discrepancy? {
      var i :| 0 <= i < |rows| && !(HasStatus(rows[i], "open") || HasStatus(rows[i], "closed"));
      StatusesElements(rows);
      DedupElements(Statuses(rows));
      assert Statuses(rows)[i] in Statuses(rows);
      assert rows[i].status in Dedup(Statuses(rows));
    }
  }

  // ------------------------------------------------------------ counts by kind

  /** `fillna('Unknown')` */
  function FillUnknown(values: seq<Option<string>>): (r: seq<string>)
    ensures |r| == |values|
    ensures forall i :: 0 <= i < |r| ==> r[i] == (if values[i].Some? then values[i].value else "Unknown")
  {
    seq(|values|, i requires 0 <= i < |values| => if values[i].Some? then values[i].value else "Unknown")
  }

  function GuessedKinds(rows: seq<IssueRecord>): (r: seq<Option<string>>)
    ensures |r| == |rows| && forall i :: 0 <= i < |rows| ==> r[i] == rows[i].guessedKind
  {
    seq(|rows|, i requires 0 <= i < |rows| => rows[i].guessedKind)
  }

  /** `value_counts()`: the values with their counts, most frequent first. */
  function ValueCounts(values: seq<Option<string>>): seq<(string, nat)> {
    MostCommon(CounterOf(FillUnknown(values)))
  }

  /** The number of missing entries. */
  function Missing(values: seq<Option<string>>): nat {
    if values == [] then 0 else Missing(values[..|values| - 1]) + (if values[|values| - 1].None? then 1 else 0)
  }

  /** The occurrences of the literal value `v`. */
  function Occurrences(values: seq<Option<string>>, v: string): nat {
    if values == [] then 0 else Occurrences(values[..|values| - 1], v) + (if values[|values| - 1] == Some(v) then 1 else 0)
  }

  /** The counts by value add up to the number of rows, are sorted by
      descending count, and the "Unknown" bucket holds the missing entries
      together with any literal "Unknown"; any other value counts its own
      occurrences. */
  lemma {:induction false} ValueCountsCorrect(values: seq<Option<string>>, v: string)
    ensures Total(CounterOf(FillUnknown(values))) == |values|
    ensures CountDescending(ValueCounts(values))
    ensures multiset(ValueCounts(values)) == multiset(Items(CounterOf(FillUnknown(values))))
    ensures Count(CounterOf(FillUnknown(values)), v) ==
              Occurrences(values, v) + (if v == "Unknown" then Missing(values) else 0)
  {
    var f := FillUnknown(values);
    CounterTotal(f);
    SortByCountCorrect(Items(CounterOf(f)));
    CounterCounts(f, v);
    FilledOccurrences(values, v);
  }

  lemma {:induction false} FilledOccurrences(values: seq<Option<string>>, v: string)
    ensures multiset(FillUnknown(values))[v] == Occurrences(values, v) + (if v == "Unknown" then Missing(values) else 0)
  {
    if values != [] {
      var p := values[..|values| - 1];
      FilledOccurrences(p, v);
      var f := FillUnknown(values);
      assert f == FillUnknown(p) + [f[|f| - 1]];
    }
  }

  // ------------------------------------------------------------ PR totals

  /** `pd.to_numeric(cell, errors='coerce')` on an integer literal with an
      optional sign; anything else becomes missing. */
  function ToNumeric(cell: Option<string>): (n: Option<int>)
    ensures cell.Some? && IsDigits(cell.value) ==> n == Some(DecToNat(cell.value))
    ensures cell.None? ==> n.None?
  {
    match cell
    case None => None
    case Some(s) =>
      if IsDigits(s) then Some(DecToNat(s))
      else if |s| >= 2 && s[0] == '-' && IsDigits(s[1..]) then Some(0 - DecToNat(s[1..]) as int)
      else if |s| >= 2 && s[0] == '+' && IsDigits(s[1..]) then Some(DecToNat(s[1..]))
      else None
  }

  /** `.sum()` of the coerced column: missing values count 0. */
  function NumericSum(cells: seq<Option<string>>): int {
    if cells == [] then 0
    else
      var n := ToNumeric(cells[|cells| - 1]);
      NumericSum(cells[..|cells| - 1]) + (if n.Some? then n.value else 0)
  }

  predicate AnyPresent(cells: seq<Option<string>>) {
    exists i :: 0 <= i < |cells| && cells[i].Some?
  }

  predicate AnyNumeric(cells: seq<Option<string>>) {
    exists i :: 0 <= i < |cells| && ToNumeric(cells[i]).Some?
  }

  /** The outcome of the PR-count paragraph for one table; `NoSummary` is
      the silent branch taken when the summary table was not loaded. */
  datatype PrTotal = NoSummary | ColumnAbsent | NoNumericData | PrSum(total: int)

  /** The issue table: a column that is absent or entirely missing is
      reported as not found. */
  function IssuesPrTotal(column: Option<seq<Option<string>>>): PrTotal {
    match column
    case None => ColumnAbsent
    case Some(cells) =>
      if !AnyPresent(cells) then ColumnAbsent
      else if AnyNumeric(cells) then PrSum(NumericSum(cells))
      else NoNumericData
  }

  /** The summary table, `None` when it was not loaded, and otherwise its
      column, `None` when absent: only an absent column is reported as not
      found, and a table that was not loaded is passed over in silence. */
  function SummaryPrTotal(summary: Option<Option<seq<Option<string>>>>): PrTotal {
    match summary
    case None => NoSummary
    case Some(None) => ColumnAbsent
    case Some(Some(cells)) => if AnyNumeric(cells) then PrSum(NumericSum(cells)) else NoNumericData
  }

  /** Entries that do not coerce to numbers contribute nothing. */
  lemma {:induction false} NonNumericIgnored(cells: seq<Option<string>>, bad: Option<string>)
    requires ToNumeric(bad).None?
    ensures NumericSum(cells + [bad]) == NumericSum(cells)
    ensures AnyNumeric(cells + [bad]) <==> AnyNumeric(cells)
  {
    var c := cells + [bad];
    assert c[..|c| - 1] == cells;
    if AnyNumeric(c) {
      var i :| 0 <= i < |c| && ToNumeric(c[i]).Some?;
      assert i < |cells| && cells[i] == c[i];
    }
    if AnyNumeric(cells) {
      var i :| 0 <= i < |cells| && ToNumeric(cells[i]).Some?;
      assert c[i] == cells[i];
    }
  }

  /** The sum splits over the rows. */
  lemma {:induction false} NumericSumAppend(a: seq<Option<string>>, b: seq<Option<string>>)
    ensures NumericSum(a + b) == NumericSum(a) + NumericSum(b)
    decreases |b|
  {
    if b == [] {
      assert a + b == a;
    } else {
      var b' := b[..|b| - 1];
      assert (a + b)[..|a + b| - 1] == a + b';
      NumericSumAppend(a, b');
    }
  }

  /** The two tables are reported alike except for a column that is present
      but entirely missing: not found in the issue table, without numeric
      data in the summary table. */
  lemma PrTotalsAgree(column: Option<seq<Option<string>>>)
    ensures column.Some? && !AnyPresent(column.value) ==>
              IssuesPrTotal(column) == ColumnAbsent && SummaryPrTotal(Some(column)) == NoNumericData
    ensures !(column.Some? && !AnyPresent(column.value)) ==>
              IssuesPrTotal(column) == SummaryPrTotal(Some(column))
    ensures IssuesPrTotal(column) != NoSummary
  {
    if column.Some? && !AnyPresent(column.value) {
      assert forall i :: 0 <= i < |column.value| ==> ToNumeric(column.value[i]).None?;
    }
  }

  // ------------------------------------------------------------ days to close

  /** The mask of lines 109-113. */
  predicate ClosedWithDates(r: IssueRecord) {
    HasStatus(r, "closed") && r.dateFiled.Some? && r.closedDate.Some?
  }

  function ClosedIssuesForDaysCalc(rows: seq<IssueRecord>): (r: seq<IssueRecord>)
    ensures forall i :: 0 <= i < |r| ==> ClosedWithDates(r[i])
  {
    if rows == [] then []
    else
      var p := ClosedIssuesForDaysCalc(rows[..|rows| - 1]);
      if ClosedWithDates(rows[|rows| - 1]) then p + [rows[|rows| - 1]] else p
  }

  /** A row of the saved CSV. */
  datatype DaysOpen = DaysOpen(issueNumber: string, daysOpenCalc: int)

  function DaysOpenCalc(selected: seq<IssueRecord>): (r: seq<DaysOpen>)
    requires forall i :: 0 <= i < |selected| ==> ClosedWithDates(selected[i])
    ensures |r| == |selected|
    ensures forall i :: 0 <= i < |r| ==>
      ClosedWithDates(selected[i]) &&
      r[i].issueNumber == selected[i].issueNumber &&
      r[i].daysOpenCalc == selected[i].closedDate.value - selected[i].dateFiled.value
  {
    seq(|selected|, i requires 0 <= i < |selected| && ClosedWithDates(selected[i]) =>
      DaysOpen(selected[i].issueNumber, selected[i].closedDate.value - selected[i].dateFiled.value))
  }

  /** The mask selects exactly the rows closed with both dates. */
  lemma {:induction false} ClosedIssuesSelected(rows: seq<IssueRecord>)
    ensures forall r :: r in ClosedIssuesForDaysCalc(rows) <==> r in rows && ClosedWithDates(r)
  {
    if rows != [] {
      var p := rows[..|rows| - 1];
      ClosedIssuesSelected(p);
      assert rows == p + [rows[|rows| - 1]];
    }
  }

  /** The days-open section: nothing is saved when no row is selected;
      otherwise the table of issue numbers and days is saved. */
  datatype DaysReport = NothingToCalculate | Saved(table: seq<DaysOpen>)

  function DaysReportOf(rows: seq<IssueRecord>): DaysReport {
    var selected := ClosedIssuesForDaysCalc(rows);
    if selected == [] then NothingToCalculate else Saved(DaysOpenCalc(selected))
  }

  /** The CSV is saved exactly when some row is closed with both dates, and
      then holds one entry per such row, closed day minus filed day. Since
      the selected rows carry both dates, no computed day count is missing
      and the two "all values invalid" branches of the source never run. */
  lemma DaysReportCases(rows: seq<IssueRecord>)
    ensures DaysReportOf(rows).Saved? <==> exists i :: 0 <= i < |rows| && ClosedWithDates(rows[i])
    ensures DaysReportOf(rows).Saved? ==>
      var s := ClosedIssuesForDaysCalc(rows);
      var t := DaysReportOf(rows).table;
      |t| == |s| > 0 &&
      forall i :: 0 <= i < |t| ==> t[i].daysOpenCalc == s[i].closedDate.value - s[i].dateFiled.value
  {
    ClosedIssuesSelected(rows);
    var s := ClosedIssuesForDaysCalc(rows);
    if exists i :: 0 <= i < |rows| && ClosedWithDates(rows[i]) {
      var i :| 0 <= i < |rows| && ClosedWithDates(rows[i]);
      assert rows[i] in rows;
      assert rows[i] in s;
    }
    if s != [] {
      assert s[0] in s;
      var i :| 0 <= i < |rows| && rows[i] == s[0];
    }
  }
}
