/** The data side of generate_issues_opened_and_closed_by_week.py: selecting
    the week, created and closed columns, dropping rows that are not numbers,
    and computing the x-axis labels and the y-axis upper limit of the chart. */
module WeeklyIssues {
  import opened Wrappers
  import opened Text
  import Placeholders

  /** The raw CSV: its number of columns and its rows of cells, a trailing
      missing field reading as `None` as `read_csv` fills it. */
  datatype RawTable = RawTable(width: nat, rows: seq<seq<Option<string>>>)

  function CellAt(row: seq<Option<string>>, k: nat): Option<string> {
    if k < |row| then row[k] else None
  }

  /** The three selected columns of one row, before coercion. */
  datatype RawWeek = RawWeek(week: Option<string>, created: Option<string>, closed: Option<string>)

  /** A cleaned row: week number and the issues created and closed that week. */
  datatype WeekRow = WeekRow(week: int, issuesCreated: int, issuesClosed: int)

  /** `iloc[:, [2, 3, 4]]`, guarded by the column count: `None` when the
      file has at most four columns (the `IndexError` path). */
  function SelectColumns(t: RawTable): (r: Option<seq<RawWeek>>)
    ensures r.Some? <==> t.width > 4
    ensures r.Some? ==>
      && |r.value| == |t.rows|
      && forall i :: 0 <= i < |t.rows| ==>
           r.value[i] == RawWeek(CellAt(t.rows[i], 2), CellAt(t.rows[i], 3), CellAt(t.rows[i], 4))
  {
    if t.width > 4 then
      Some(seq(|t.rows|, i requires 0 <= i < |t.rows| =>
        RawWeek(CellAt(t.rows[i], 2), CellAt(t.rows[i], 3), CellAt(t.rows[i], 4))))
    else None
  }

  predicate AllNumeric(w: RawWeek) {
    Placeholders.ToNumeric(w.week).Some? && Placeholders.ToNumeric(w.created).Some? &&
    Placeholders.ToNumeric(w.closed).Some?
  }

  function Coerce(w: RawWeek): WeekRow
    requires AllNumeric(w)
  {
    WeekRow(Placeholders.ToNumeric(w.week).value, Placeholders.ToNumeric(w.created).value,
            Placeholders.ToNumeric(w.closed).value)
  }

  /** `to_numeric(errors='coerce')` on the three columns followed by
      `dropna(subset=[...])`: the rows whose three values are all numbers,
      in their order. */
  function CleanRows(raw: seq<RawWeek>): seq<WeekRow> {
    if raw == [] then []
    else
      var p := CleanRows(raw[..|raw| - 1]);
      var w := raw[|raw| - 1];
      if AllNumeric(w) then p + [Coerce(w)] else p
  }

  /** A row is kept exactly when its three values are numbers; the kept rows
      keep their order, and a concatenation is cleaned piecewise. */
  lemma {:induction false} CleanRowsAppend(a: seq<RawWeek>, b: seq<RawWeek>)
    ensures CleanRows(a + b) == CleanRows(a) + CleanRows(b)
    decreases |b|
  {
    if b == [] {
      assert a + b == a;
    } else {
      var b' := b[..|b| - 1];
      assert (a + b)[..|a + b| - 1] == a + b';
      CleanRowsAppend(a, b');
    }
  }

  lemma CleanRowsOne(w: RawWeek)
    ensures CleanRows([w]) == if AllNumeric(w) then [Coerce(w)] else []
  {
    assert [w][..0] == [];
  }

  /** Every kept row comes from a numeric raw row, and every numeric raw
      row is kept. */
  lemma {:induction false} CleanRowsExact(raw: seq<RawWeek>)
    ensures forall r :: r in CleanRows(raw) ==> exists i :: 0 <= i < |raw| && AllNumeric(raw[i]) && Coerce(raw[i]) == r
    ensures forall i :: 0 <= i < |raw| && AllNumeric(raw[i]) ==> Coerce(raw[i]) in CleanRows(raw)
  {
    if raw != [] {
      var p := raw[..|raw| - 1];
      CleanRowsExact(p);
      forall r | r in CleanRows(raw) ensures exists i :: 0 <= i < |raw| && AllNumeric(raw[i]) && Coerce(raw[i]) == r {
        if r in CleanRows(p) {
          var i :| 0 <= i < |p| && AllNumeric(p[i]) && Coerce(p[i]) == r;
          assert raw[i] == p[i];
        } else {
          assert AllNumeric(raw[|raw| - 1]) && r == Coerce(raw[|raw| - 1]);
        }
      }
      forall i | 0 <= i < |raw| && AllNumeric(raw[i]) ensures Coerce(raw[i]) in CleanRows(raw) {
        if i < |p| {
          assert raw[i] == p[i];
        }
      }
    }
  }

  // ------------------------------------------------------------ tick labels

  /** Whether the year label has switched by row `i`: some row `k <= i`
      held a week number lower than the previous row's, which was above 40. */
  function Flipped(weeks: seq<int>, i: nat): bool
    requires i < |weeks|
  {
    i > 0 && (Flipped(weeks, i - 1) || (weeks[i] < weeks[i - 1] && weeks[i - 1] > 40))
  }

  function YearLabel(weeks: seq<int>, i: nat): string
    requires i < |weeks|
  {
    if Flipped(weeks, i) then "'25" else "'24"
  }

  /** `f"{week_num:02d}"`: at least two characters, zero-filled after the sign. */
  function Pad2(n: int): string {
    if 0 <= n < 10 then "0" + NatToDec(n) else IntToDec(n)
  }

  function TickLabel(week: int, yearLabel: string): string {
    "W" + Pad2(week) + "\n" + yearLabel
  }

  /** The label loop: one label per row, in row order. */
  method TickLabels(weeks: seq<int>) returns (tickLabels: seq<string>)
    ensures |tickLabels| == |weeks|
    ensures forall i :: 0 <= i < |weeks| ==> tickLabels[i] == TickLabel(weeks[i], YearLabel(weeks, i))
  {
    tickLabels := [];
    var currentYearLabel := "'24";
    var lastWeekNum := 0;
    for i := 0 to |weeks|
      invariant |tickLabels| == i
      invariant forall k :: 0 <= k < i ==> tickLabels[k] == TickLabel(weeks[k], YearLabel(weeks, k))
      invariant i == 0 ==> currentYearLabel == "'24" && lastWeekNum == 0
      invariant i > 0 ==> currentYearLabel == YearLabel(weeks, i - 1) && lastWeekNum == weeks[i - 1]
    {
      var weekNum := weeks[i];
      if weekNum < lastWeekNum && lastWeekNum > 40 {
        currentYearLabel := "'25";
      }
      assert currentYearLabel == YearLabel(weeks, i);
      tickLabels := tickLabels + [TickLabel(weekNum, currentYearLabel)];
      lastWeekNum := weekNum;
    }
  }

  /** The label is `'25` exactly when an earlier-or-equal row is the first
      of a new year. */
  lemma {:induction false} FlippedWhen(weeks: seq<int>, i: nat)
    requires i < |weeks|
    ensures Flipped(weeks, i) <==> exists k :: 1 <= k <= i && weeks[k] < weeks[k - 1] && weeks[k - 1] > 40
  {
    if i > 0 {
      FlippedWhen(weeks, i - 1);
    }
  }

  /** Once `'25`, the label never switches back. */
  lemma {:induction false} FlippedStays(weeks: seq<int>, i: nat, j: nat)
    requires i <= j < |weeks| && Flipped(weeks, i)
    ensures Flipped(weeks, j)
    decreases j
  {
    if i < j {
      FlippedStays(weeks, i, j - 1);
    }
  }

  /** A week below ten gets a leading zero; a non-negative week's digits
      read back as the week. */
  lemma Pad2Digits(n: int)
    requires n >= 0
    ensures |Pad2(n)| >= 2 && IsDigits(Pad2(n)) && DecToNat(Pad2(n)) == n
  {
    DecRoundTrip(n);
    if n < 10 {
      var d := NatToDec(n);
      assert Pad2(n) == "0" + d;
      assert ("0" + d)[..1] == "0";
    } else {
      assert NatToDec(n) == NatToDec(n / 10) + [DigitChar(n % 10)];
    }
  }

  /** Every label is "W", the padded week, a line break and the year. */
  lemma TickLabelShape(week: int, yearLabel: string)
    ensures TickLabel(week, yearLabel)[0] == 'W'
    ensures StartsWith(TickLabel(week, yearLabel)[1 + |Pad2(week)|..], "\n")
    ensures TickLabel(week, yearLabel)[2 + |Pad2(week)|..] == yearLabel
  {
    LabelParts(Pad2(week), yearLabel);
  }

  lemma LabelParts(p: string, y: string)
    ensures ("W" + p + "\n" + y)[0] == 'W'
    ensures ("W" + p + "\n" + y)[1 + |p|..] == "\n" + y
    ensures ("W" + p + "\n" + y)[2 + |p|..] == y
  {
    var t := "W" + p + "\n" + y;
    assert t[1 + |p|..] == "\n" + y;
    assert ("\n" + y)[1..] == y;
  }

  // ------------------------------------------------------------ y limit

  predicate AtLeastAll(m: int, rows: seq<WeekRow>) {
    forall i :: 0 <= i < |rows| ==> m >= rows[i].issuesCreated && m >= rows[i].issuesClosed
  }

  function MaxCreated(rows: seq<WeekRow>): (m: int)
    requires |rows| > 0
    ensures forall i :: 0 <= i < |rows| ==> m >= rows[i].issuesCreated
    ensures exists i :: 0 <= i < |rows| && m == rows[i].issuesCreated
  {
    if |rows| == 1 then rows[0].issuesCreated
    else
      var m := MaxCreated(rows[..|rows| - 1]);
      assert forall i :: 0 <= i < |rows| - 1 ==> rows[..|rows| - 1][i] == rows[i];
      if rows[|rows| - 1].issuesCreated > m then rows[|rows| - 1].issuesCreated else m
  }

  function MaxClosed(rows: seq<WeekRow>): (m: int)
    requires |rows| > 0
    ensures forall i :: 0 <= i < |rows| ==> m >= rows[i].issuesClosed
    ensures exists i :: 0 <= i < |rows| && m == rows[i].issuesClosed
  {
    if |rows| == 1 then rows[0].issuesClosed
    else
      var m := MaxClosed(rows[..|rows| - 1]);
      assert forall i :: 0 <= i < |rows| - 1 ==> rows[..|rows| - 1][i] == rows[i];
      if rows[|rows| - 1].issuesClosed > m then rows[|rows| - 1].issuesClosed else m
  }

  /** `max_issues_on_plot` and `y_upper_limit`: at least 10, at least every
      plotted count, and no larger than it has to be. */
  method YUpperLimit(rows: seq<WeekRow>) returns (yUpperLimit: int)
    ensures yUpperLimit >= 10 && AtLeastAll(yUpperLimit, rows)
    ensures yUpperLimit == 10 ||
            exists i :: 0 <= i < |rows| && (yUpperLimit == rows[i].issuesCreated || yUpperLimit == rows[i].issuesClosed)
  {
    var maxIssuesOnPlot := 0;
    if |rows| > 0 {
      var m := MaxCreated(rows);
      if m > maxIssuesOnPlot { maxIssuesOnPlot := m; }
    }
    if |rows| > 0 {
      var m := MaxClosed(rows);
      if m > maxIssuesOnPlot { maxIssuesOnPlot := m; }
    }
    yUpperLimit := if maxIssuesOnPlot > 10 then maxIssuesOnPlot else 10;
  }

  // ------------------------------------------------------------ the chart

  /** What the script produces: the column error, an empty cleaned table
      (no chart), or the chart data. */
  datatype Outcome =
    | TooFewColumns
    | EmptyTable
    | Chart(cleaned: seq<WeekRow>, tickLabels: seq<string>, yUpperLimit: int)

  function Weeks(rows: seq<WeekRow>): (r: seq<int>)
    ensures |r| == |rows| && forall i :: 0 <= i < |rows| ==> r[i] == rows[i].week
  {
    seq(|rows|, i requires 0 <= i < |rows| => rows[i].week)
  }

  method WeeklyChart(t: RawTable) returns (outcome: Outcome)
    ensures outcome == TooFewColumns <==> t.width <= 4
    ensures t.width > 4 ==> (outcome == EmptyTable <==> CleanRows(SelectColumns(t).value) == [])
    ensures outcome.Chart? ==>
      var rows := CleanRows(SelectColumns(t).value);
      && outcome.cleaned == rows
      && |outcome.tickLabels| == |rows|
      && (forall i :: 0 <= i < |rows| ==>
            outcome.tickLabels[i] == TickLabel(rows[i].week, YearLabel(Weeks(rows), i)))
      && outcome.yUpperLimit >= 10 && AtLeastAll(outcome.yUpperLimit, rows)
  {
    var selected := SelectColumns(t);
    if selected.None? {
      return TooFewColumns;
    }
    var cleaned := CleanRows(selected.value);
    if cleaned == [] {
      return EmptyTable;
    }
    var tickLabels := TickLabels(Weeks(cleaned));
    var yUpperLimit := YUpperLimit(cleaned);
    outcome := Chart(cleaned, tickLabels, yUpperLimit);
  }
}
