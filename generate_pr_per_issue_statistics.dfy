/** The summary-table statistics of generate_pr_per_issue_statistics.py: the
    handles listed in the "PR authors" column are split on commas,
    normalised, counted, and ranked by `Counter.most_common`. */
module PrAuthorStats {
  import opened Wrappers
  import opened Text
  import opened Counters
  import AppendixParser

  /** A cell of the column: missing (dropped by `dropna`), text, or a value
      of another type (skipped by the `isinstance` test). */
  datatype Cell = Missing | Text(text: string) | NonText

  /** The normalised, non-empty handles of comma-separated pieces, in order. */
  function NormalizedPieces(pieces: seq<string>): (r: seq<string>)
    ensures forall i :: 0 <= i < |r| ==> r[i] != "" && r[i][0] != '@'
  {
    if pieces == [] then []
    else
      var r := NormalizedPieces(pieces[..|pieces| - 1]);
      var n := NormalizeHandle(pieces[|pieces| - 1]);
      if n != "" then r + [n] else r
  }

  /** The handles one cell contributes. */
  function CellAuthors(c: Cell): (r: seq<string>)
    ensures forall i :: 0 <= i < |r| ==> r[i] != "" && r[i][0] != '@'
  {
    match c
    case Text(s) => if Strip(s) != "" then NormalizedPieces(Split(s, ',')) else []
    case _ => []
  }

  /** `all_pr_authors_per_issue` for a column: every collected handle is
      non-empty and carries no leading `@`. */
  function FlattenAuthors(column: seq<Cell>): (r: seq<string>)
    ensures forall i :: 0 <= i < |r| ==> r[i] != "" && r[i][0] != '@'
  {
    if column == [] then []
    else FlattenAuthors(column[..|column| - 1]) + CellAuthors(column[|column| - 1])
  }

  /** The inner loop: each piece is normalised and kept when non-empty. */
  method NormalizePieces(authors: seq<string>) returns (kept: seq<string>)
    ensures kept == NormalizedPieces(authors)
  {
    kept := [];
    for j := 0 to |authors|
      invariant kept == NormalizedPieces(authors[..j])
    {
      assert authors[..j + 1][..j] == authors[..j];
      var normalizedAuthor := LStripChar(Strip(authors[j]), '@');
      if normalizedAuthor != "" {
        kept := kept + [normalizedAuthor];
      }
    }
    assert authors[..|authors|] == authors;
  }

  /** The outer loop over the cells of the column. */
  method CollectAuthors(column: seq<Cell>) returns (allPrAuthorsPerIssue: seq<string>)
    ensures allPrAuthorsPerIssue == FlattenAuthors(column)
  {
    allPrAuthorsPerIssue := [];
    for i := 0 to |column|
      invariant allPrAuthorsPerIssue == FlattenAuthors(column[..i])
    {
      assert column[..i + 1][..i] == column[..i];
      assert FlattenAuthors(column[..i + 1]) == FlattenAuthors(column[..i]) + CellAuthors(column[i]);
      var cell := column[i];
      if cell.Text? && Strip(cell.text) != "" {
        var kept := NormalizePieces(Split(cell.text, ','));
        allPrAuthorsPerIssue := allPrAuthorsPerIssue + kept;
      } else {
        assert CellAuthors(cell) == [];
      }
    }
    assert column[..|column|] == column;
  }

  /** The flattened list of a concatenation is the concatenation of the lists. */
  lemma {:induction false} FlattenAppend(a: seq<Cell>, b: seq<Cell>)
    ensures FlattenAuthors(a + b) == FlattenAuthors(a) + FlattenAuthors(b)
    decreases |b|
  {
    if b != [] {
      var b' := b[..|b| - 1];
      assert (a + b)[..|a + b| - 1] == a + b';
      FlattenAppend(a, b');
    } else {
      assert a + b == a;
    }
  }

  /** Missing, blank and non-text cells contribute no handle. */
  lemma {:induction false} BlankCellsContributeNothing(column: seq<Cell>)
    requires forall i :: 0 <= i < |column| ==> !column[i].Text? || Strip(column[i].text) == ""
    ensures FlattenAuthors(column) == []
  {
    if column != [] {
      BlankCellsContributeNothing(column[..|column| - 1]);
    }
  }

  /** A trimmed handle without a leading `@` is kept as it is. */
  lemma CleanHandleKept(h: string)
    requires IsTrimmed(h) && h != "" && h[0] != '@' && ',' !in h
    ensures CellAuthors(Text(h)) == [h]
  {
    NormalizeFixpoint(h);
    assert Strip(h) == h;
    assert Split(h, ',') == [h];
    assert [h][..0] == [];
    assert NormalizedPieces([h]) == NormalizedPieces([]) + [h];
  }

  /** `most_common` on the counted handles: descending counts, the counted
      items, and ties in order of first appearance in the flattened list. */
  lemma MostCommonOrder(all: seq<string>, v: nat)
    ensures CountDescending(MostCommon(CounterOf(all)))
    ensures multiset(MostCommon(CounterOf(all))) == multiset(Items(CounterOf(all)))
    ensures WithCount(MostCommon(CounterOf(all)), v) == WithCount(Items(CounterOf(all)), v)
    ensures CounterOf(all).keys == Dedup(all)
  {
    SortByCountCorrect(Items(CounterOf(all)));
    SortByCountStable(Items(CounterOf(all)), v);
    CounterKeys(all);
  }

  /** The first ranked handle has the largest count. */
  lemma TopAuthorIsMax(all: seq<string>, k: string)
    requires k in all
    ensures |MostCommon(CounterOf(all))| > 0
    ensures MostCommon(CounterOf(all))[0].1 >= Count(CounterOf(all), k)
    ensures MostCommon(CounterOf(all))[0].1 >= multiset(all)[k]
  {
    var c := CounterOf(all);
    CounterKeys(all);
    DedupElements(all);
    CounterCounts(all, k);
    var items := Items(c);
    var r := MostCommon(c);
    SortByCountCorrect(items);
    var i :| 0 <= i < |c.keys| && c.keys[i] == k;
    assert items[i] == (k, Count(c, k));
    assert items[i] in multiset(r);
    var j :| 0 <= j < |r| && r[j] == items[i];
  }

  /** The number of unique authors is the number of distinct handles, and
      the counts add up to the number of handles. */
  lemma UniqueAndTotal(all: seq<string>)
    ensures |MostCommon(CounterOf(all))| == |set x | x in all|
    ensures Total(CounterOf(all)) == |all|
  {
    var items := Items(CounterOf(all));
    SortByCountCorrect(items);
    assert |MostCommon(CounterOf(all))| == |multiset(MostCommon(CounterOf(all)))| == |multiset(items)| == |items|;
    CounterSize(all);
    CounterTotal(all);
  }

  /** The items of a counter fed "b" and then "a". */
  lemma TwoHandleItems()
    ensures Items(CounterOf(["b", "a"])) == [("b", 1), ("a", 1)]
  {
    TwoHandleCounts();
    var items := Items(CounterOf(["b", "a"]));
    assert items[0] == ("b", 1) && items[1] == ("a", 1);
  }

  lemma TwoHandleCounts()
    ensures CounterOf(["b", "a"]).keys == ["b", "a"]
    ensures Count(CounterOf(["b", "a"]), "b") == 1 && Count(CounterOf(["b", "a"]), "a") == 1
  {
    assert ["b", "a"][..1] == ["b"];
    assert ["b"][..0] == [];
    assert "a" != "b";
  }

  /** With equal counts, `most_common` keeps first appearance while the
      appendix report orders by name: the two rankings differ on the same
      tallies. */
  lemma TieBreaksDiffer()
    ensures MostCommon(CounterOf(["b", "a"])) == [("b", 1), ("a", 1)]
    ensures AppendixParser.RankAuthors(CounterOf(["b", "a"])) == [("a", 1), ("b", 1)]
  {
    TwoHandleItems();
    assert LexLess("a", "b");
    assert [("b", 1)][1..] == [];
    assert SortByCount([("a", 1)]) == [("a", 1)];
    assert AppendixParser.SortRanked([("a", 1)]) == [("a", 1)];
  }

  // ------------------------------------------------------------ the report

  /** What the script reports: the column is absent, it yields no handle, or
      the ranking with its unique-author count, top author and, when there
      is one, the second author. */
  datatype Report =
    | ColumnMissing
    | NoAuthors
    | Ranked(ranking: seq<(string, nat)>, uniqueAuthors: nat, top: (string, nat), second: Option<(string, nat)>)

  function ReportOf(column: Option<seq<Cell>>): Report {
    match column
    case None => ColumnMissing
    case Some(col) =>
      var all := FlattenAuthors(col);
      if all == [] then NoAuthors
      else
        var ranking := MostCommon(CounterOf(all));
        if |ranking| == 0 then NoAuthors
        else
          Ranked(ranking, |ranking|, ranking[0],
                 if |ranking| > 1 && ranking[1].0 != "" then Some(ranking[1]) else None)
  }

  /** A non-empty handle list always yields a ranking, and the source's test
      on the second author's name never fails: every ranked name is a
      collected, non-empty handle. */
  lemma ReportRanked(col: seq<Cell>)
    requires FlattenAuthors(col) != []
    ensures ReportOf(Some(col)).Ranked?
    ensures |ReportOf(Some(col)).ranking| > 1 <==> ReportOf(Some(col)).second.Some?
  {
    var all := FlattenAuthors(col);
    TopAuthorIsMax(all, all[0]);
    var ranking := MostCommon(CounterOf(all));
    if |ranking| > 1 {
      SortByCountCorrect(Items(CounterOf(all)));
      CounterKeys(all);
      DedupElements(all);
      assert ranking[1] in multiset(Items(CounterOf(all)));
      var i :| 0 <= i < |Items(CounterOf(all))| && Items(CounterOf(all))[i] == ranking[1];
      var k := CounterOf(all).keys[i];
      assert k in all;
      var p :| 0 <= p < |all| && all[p] == k;
    }
  }
}
