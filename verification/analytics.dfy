/** What the support tabs compute from `SELECT * FROM client_queries`: the
    dashboard's two dropdown filters, the three status counts, the daily
    creation and open-load trends, and the per-heading bar chart. */
module Analytics {
  import opened Common
  import opened Text
  import opened Tickets
  import opened Tally

  /** The two columns the dropdowns filter on. */
  datatype Column = StatusColumn | HeadingColumn

  function Field(t: Ticket, c: Column): Option<string> {
    match c
    case StatusColumn => t.status
    case HeadingColumn => t.heading
  }

  /** `col.str.lower() == choice.lower()`: a NULL cell never matches. */
  predicate Matches(v: Option<string>, choice: string) {
    v.Some? && Lower(v.value) == Lower(choice)
  }

  /** The rows whose column matches `choice` ignoring case, in table order. */
  function Select(rows: Table, c: Column, choice: string): (r: Table)
    ensures forall x :: x in r <==> x in rows && Matches(Field(x, c), choice)
    ensures multiset(r) <= multiset(rows)
    decreases |rows|
  {
    if rows == [] then []
    else
      var front := rows[..|rows| - 1];
      var last := rows[|rows| - 1];
      var r := Select(front, c, choice);
      assert rows == front + [last];
      if Matches(Field(last, c), choice) then r + [last] else r
  }

  lemma SelectSnoc(rows: Table, x: Ticket, c: Column, choice: string)
    ensures Select(rows + [x], c, choice)
            == Select(rows, c, choice) + (if Matches(Field(x, c), choice) then [x] else [])
  {
    assert (rows + [x])[..|rows|] == rows;
  }

  /** Applying the two filters in either order keeps the same rows in the
      same order. */
  lemma {:induction false} SelectCommutes(rows: Table, c1: Column, f1: string, c2: Column, f2: string)
    ensures Select(Select(rows, c1, f1), c2, f2) == Select(Select(rows, c2, f2), c1, f1)
    decreases |rows|
  {
    if rows != [] {
      var front := rows[..|rows| - 1];
      var last := rows[|rows| - 1];
      assert rows == front + [last];
      SelectCommutes(front, c1, f1, c2, f2);
      SelectSnoc(front, last, c1, f1);
      SelectSnoc(front, last, c2, f2);
      SelectSnoc(Select(front, c1, f1), last, c2, f2);
      SelectSnoc(Select(front, c2, f2), last, c1, f1);
    }
  }

  /** Filtering twice by the same choice changes nothing more. */
  lemma {:induction false} SelectIdempotent(rows: Table, c: Column, choice: string)
    ensures Select(Select(rows, c, choice), c, choice) == Select(rows, c, choice)
    decreases |rows|
  {
    if rows != [] {
      var front := rows[..|rows| - 1];
      var last := rows[|rows| - 1];
      assert rows == front + [last];
      SelectIdempotent(front, c, choice);
      SelectSnoc(Select(front, c, choice), last, c, choice);
    }
  }

  /** The choice is compared ignoring case: `"open"` and `"Open"` select
      the same rows. */
  lemma {:induction false} SelectIgnoresCase(rows: Table, c: Column, f1: string, f2: string)
    requires Lower(f1) == Lower(f2)
    ensures Select(rows, c, f1) == Select(rows, c, f2)
    decreases |rows|
  {
    if rows != [] {
      SelectIgnoresCase(rows[..|rows| - 1], c, f1, f2);
    }
  }

  /** When every row matches, the filter keeps the table as it is: same
      rows, same order, same multiplicities. */
  lemma {:induction false} SelectKeepsAllWhenAllMatch(rows: Table, c: Column, choice: string)
    requires forall i :: 0 <= i < |rows| ==> Matches(Field(rows[i], c), choice)
    ensures Select(rows, c, choice) == rows
    decreases |rows|
  {
    if rows != [] {
      var front := rows[..|rows| - 1];
      MatchesInFront(rows, front, c, choice);
      SelectKeepsAllWhenAllMatch(front, c, choice);
      SelectKeepsMatchingLast(rows, c, choice);
    }
  }

  lemma MatchesInFront(rows: Table, front: Table, c: Column, choice: string)
    requires rows != [] && front == rows[..|rows| - 1]
    requires forall i :: 0 <= i < |rows| ==> Matches(Field(rows[i], c), choice)
    ensures forall i :: 0 <= i < |front| ==> Matches(Field(front[i], c), choice)
    ensures Matches(Field(rows[|rows| - 1], c), choice)
  {
    assert forall i :: 0 <= i < |front| ==> front[i] == rows[i];
  }

  lemma SelectKeepsMatchingLast(rows: Table, c: Column, choice: string)
    requires rows != [] && Select(rows[..|rows| - 1], c, choice) == rows[..|rows| - 1]
    requires Matches(Field(rows[|rows| - 1], c), choice)
    ensures Select(rows, c, choice) == rows
  {
    assert rows == rows[..|rows| - 1] + [rows[|rows| - 1]];
  }

  /** One dropdown: a row is kept exactly when the choice is `"All"` or
      the row's column matches it; rows are only dropped, never added. */
  function FilterBy(rows: Table, c: Column, choice: string): (r: Table)
    ensures forall x :: x in r <==> x in rows && (choice == "All" || Matches(Field(x, c), choice))
    ensures multiset(r) <= multiset(rows)
    ensures choice == "All" ==> r == rows
  {
    if choice == "All" then rows else Select(rows, c, choice)
  }

  /** The dashboard's "Filtered Results": status filter first, then the
      heading filter; a row is shown exactly when it passes both. */
  function Dashboard(rows: Table, statusChoice: string, headingChoice: string): (r: Table)
    ensures forall x :: x in r <==>
              && x in rows
              && (statusChoice == "All" || Matches(x.status, statusChoice))
              && (headingChoice == "All" || Matches(x.heading, headingChoice))
    ensures multiset(r) <= multiset(rows)
  {
    FilterBy(FilterBy(rows, StatusColumn, statusChoice), HeadingColumn, headingChoice)
  }

  /** The status column, NULL cells included. */
  function StatusCells(rows: Table): seq<Option<string>> {
    seq(|rows|, i requires 0 <= i < |rows| => rows[i].status)
  }

  /** `len(df[df["status"] == s])`: an exact, case-sensitive comparison.
      It is the number of rows whose status is `s`. */
  function CountExact(rows: Table, s: string): (n: nat)
    ensures n == Occurrences(StatusCells(rows), Some(s))
    ensures n <= |rows|
    ensures n == 0 <==> forall i :: 0 <= i < |rows| ==> rows[i].status != Some(s)
    ensures n == |rows| <==> forall i :: 0 <= i < |rows| ==> rows[i].status == Some(s)
    decreases |rows|
  {
    if rows == [] then 0
    else
      var front := rows[..|rows| - 1];
      assert StatusCells(rows)[..|rows| - 1] == StatusCells(front);
      CountExact(front, s) + (if rows[|rows| - 1].status == Some(s) then 1 else 0)
  }

  /** The exact count never exceeds what the case-insensitive filter keeps,
      and matches it on rows the status enum admits. */
  lemma {:induction false} ExactCountWithinFilter(rows: Table, s: string)
    ensures CountExact(rows, s) <= |Select(rows, StatusColumn, s)|
    ensures (forall i :: 0 <= i < |rows| ==> ValidStatus(rows[i].status))
            && (s == StatusOpen || s == StatusClosed)
            ==> CountExact(rows, s) == |Select(rows, StatusColumn, s)|
    decreases |rows|
  {
    if rows != [] {
      var front := rows[..|rows| - 1];
      var last := rows[|rows| - 1];
      ValidInFront(rows, front);
      ExactCountWithinFilter(front, s);
      CountExactLast(rows, s);
      SelectLengthLast(rows, s);
      if ValidStatus(last.status) && (s == StatusOpen || s == StatusClosed) {
        EnumMatchIsExact(last.status, s);
      }
    }
  }

  lemma ValidInFront(rows: Table, front: Table)
    requires rows != [] && front == rows[..|rows| - 1]
    ensures (forall i :: 0 <= i < |rows| ==> ValidStatus(rows[i].status))
            ==> (forall i :: 0 <= i < |front| ==> ValidStatus(front[i].status))
                && ValidStatus(rows[|rows| - 1].status)
  {
    assert forall i :: 0 <= i < |front| ==> front[i] == rows[i];
  }

  lemma CountExactLast(rows: Table, s: string)
    requires rows != []
    ensures CountExact(rows, s)
            == CountExact(rows[..|rows| - 1], s) + (if rows[|rows| - 1].status == Some(s) then 1 else 0)
  {
  }

  lemma SelectLengthLast(rows: Table, s: string)
    requires rows != []
    ensures |Select(rows, StatusColumn, s)|
            == |Select(rows[..|rows| - 1], StatusColumn, s)|
               + (if Matches(rows[|rows| - 1].status, s) then 1 else 0)
  {
  }

  /** On the two spellings the enum admits, the case-insensitive match is
      exact: `Open` and `Closed` differ even after lowering. */
  lemma EnumMatchIsExact(v: Option<string>, s: string)
    requires ValidStatus(v) && (s == StatusOpen || s == StatusClosed)
    ensures Matches(v, s) <==> v == Some(s)
  {
    assert Lower(StatusOpen) != Lower(StatusClosed) by {
      assert Lower(StatusOpen)[0] == 'o';
    }
  }

  datatype StatusCounts = StatusCounts(total: nat, open: nat, closed: nat)

  lemma {:induction false} OpenClosedCover(rows: Table)
    ensures CountExact(rows, StatusOpen) + CountExact(rows, StatusClosed) <= |rows|
    ensures CountExact(rows, StatusOpen) + CountExact(rows, StatusClosed) == |rows|
            <==> forall i :: 0 <= i < |rows| ==>
                   rows[i].status == Some(StatusOpen) || rows[i].status == Some(StatusClosed)
    decreases |rows|
  {
    if rows != [] {
      var front := rows[..|rows| - 1];
      assert forall i :: 0 <= i < |front| ==> front[i] == rows[i];
      OpenClosedCover(front);
    }
  }

  /** The three metrics.  Open and closed never add up to more than the
      total, and add up to it exactly when no row has a NULL status (on
      rows the enum admits). */
  function Counts(rows: Table): (r: StatusCounts)
    ensures r.total == |rows|
    ensures r.open + r.closed <= r.total
    ensures r.open + r.closed == r.total <==>
              forall i :: 0 <= i < |rows| ==>
                rows[i].status == Some(StatusOpen) || rows[i].status == Some(StatusClosed)
  {
    OpenClosedCover(rows);
    StatusCounts(|rows|, CountExact(rows, StatusOpen), CountExact(rows, StatusClosed))
  }

  /** The non-NULL headings, in table order: the keys `groupby` counts. */
  function Headings(rows: Table): (hs: seq<string>)
    ensures |hs| <= |rows|
    ensures forall h :: h in hs <==> exists i :: 0 <= i < |rows| && rows[i].heading == Some(h)
    decreases |rows|
  {
    if rows == [] then []
    else
      var front := rows[..|rows| - 1];
      assert forall i :: 0 <= i < |front| ==> front[i] == rows[i];
      var last := rows[|rows| - 1];
      match last.heading
      case None => Headings(front)
      case Some(h) => Headings(front) + [h]
  }

  /** The heading column, NULL cells included. */
  function HeadingCells(rows: Table): seq<Option<string>> {
    seq(|rows|, i requires 0 <= i < |rows| => rows[i].heading)
  }

  /** A heading occurs among the keys once for every row carrying it. */
  lemma {:induction false} HeadingsCount(rows: Table, h: string)
    ensures Occurrences(Headings(rows), h) == Occurrences(HeadingCells(rows), Some(h))
    decreases |rows|
  {
    if rows != [] {
      var front := rows[..|rows| - 1];
      var last := rows[|rows| - 1];
      HeadingsCount(front, h);
      HeadingsOccurLast(rows, h);
      HeadingCellsOccurLast(rows, h);
      assert Occurrences(HeadingOf(last), h) == Occurrences([last.heading], Some(h));
    }
  }

  lemma HeadingsOccurLast(rows: Table, h: string)
    requires rows != []
    ensures Occurrences(Headings(rows), h)
            == Occurrences(Headings(rows[..|rows| - 1]), h) + Occurrences(HeadingOf(rows[|rows| - 1]), h)
  {
    HeadingsLast(rows);
    OccurrencesSnoc(Headings(rows[..|rows| - 1]), HeadingOf(rows[|rows| - 1]), h);
  }

  lemma HeadingCellsOccurLast(rows: Table, h: string)
    requires rows != []
    ensures Occurrences(HeadingCells(rows), Some(h))
            == Occurrences(HeadingCells(rows[..|rows| - 1]), Some(h)) + Occurrences([rows[|rows| - 1].heading], Some(h))
  {
    var front := rows[..|rows| - 1];
    assert HeadingCells(rows) == HeadingCells(front) + [rows[|rows| - 1].heading];
    OccurrencesSnoc(HeadingCells(front), [rows[|rows| - 1].heading], Some(h));
  }

  function HeadingOf(x: Ticket): seq<string> {
    match x.heading
    case None => []
    case Some(h) => [h]
  }

  lemma HeadingsLast(rows: Table)
    requires rows != []
    ensures Headings(rows) == Headings(rows[..|rows| - 1]) + HeadingOf(rows[|rows| - 1])
  {
  }

  /** "Query Count by Heading": the rows passing the status dropdown,
      grouped by heading (NULL headings dropped) and sorted by count,
      largest first.  The chart is empty exactly when no such row has a
      heading. */
  function HeadingCounts(rows: Table, statusChoice: string): (r: seq<(string, nat)>)
    ensures NonIncreasing(r)
    ensures IsTally(r, Headings(FilterBy(rows, StatusColumn, statusChoice)))
    ensures Total(r) == |Headings(FilterBy(rows, StatusColumn, statusChoice))|
    ensures r == [] <==> Headings(FilterBy(rows, StatusColumn, statusChoice)) == []
  {
    var hs := Headings(FilterBy(rows, StatusColumn, statusChoice));
    var g := Group(hs);
    var r := SortByCount(g);
    SortByCountKeeps(g);
    TallyReordered(g, r, hs);
    assert hs != [] ==> hs[0] in Keys(r);
    r
  }

  /** On rows the status enum admits, choosing `Open` keeps only rows whose
      status is exactly `Open`: no `Closed` ticket is counted. */
  lemma OpenFilterExcludesClosed(rows: Table)
    requires forall i :: 0 <= i < |rows| ==> ValidStatus(rows[i].status)
    ensures forall x :: x in FilterBy(rows, StatusColumn, StatusOpen) ==> x.status == Some(StatusOpen)
  {
    assert Lower(StatusOpen) != Lower(StatusClosed) by {
      assert Lower(StatusOpen)[0] == 'o';
    }
  }

  /** Three open tickets headed `Login Issue`, `Login Issue` and `Billing`
      chart as `Login Issue` 2, then `Billing` 1. */
  lemma HeadingCountsExample(a: Ticket, b: Ticket, c: Ticket)
    requires a.heading == Some("Login Issue") && b.heading == Some("Login Issue")
    requires c.heading == Some("Billing")
    ensures HeadingCounts([a, b, c], "All") == [("Login Issue", 2), ("Billing", 1)]
  {
    assert [a][..0] == [];
    assert Headings([a]) == ["Login Issue"];
    assert [a, b][..1] == [a];
    assert Headings([a, b]) == ["Login Issue", "Login Issue"];
    assert [a, b, c][..2] == [a, b];
    var hs := Headings([a, b, c]);
    assert hs == ["Login Issue", "Login Issue", "Billing"];
    TallyOfExample(HeadingCounts([a, b, c], "All"), hs);
  }

  lemma TallyOfExample(r: seq<(string, nat)>, hs: seq<string>)
    requires hs == ["Login Issue", "Login Issue", "Billing"]
    requires IsTally(r, hs) && NonIncreasing(r)
    ensures r == [("Login Issue", 2), ("Billing", 1)]
  {
    var li, bi := "Login Issue", "Billing";
    assert li != bi by { assert |li| != |bi|; }
    assert hs[..2] == [li, li] && hs[..2][..1] == [li] && hs[..2][..1][..0] == [];
    assert Occurrences([li], li) == 1 && Occurrences([li], bi) == 0;
    assert Occurrences(hs[..2], li) == 2 && Occurrences(hs[..2], bi) == 0;
    assert Occurrences(hs, li) == 2 && Occurrences(hs, bi) == 1;
    assert li in hs && bi in hs;
    var i :| 0 <= i < |r| && Keys(r)[i] == li;
    var j :| 0 <= j < |r| && Keys(r)[j] == bi;
    forall k | 0 <= k < |r|
      ensures (r[k].0 == li && k == i) || (r[k].0 == bi && k == j)
    {
      assert Keys(r)[k] == r[k].0;
      assert r[k].0 in hs;
    }
    assert r[i] == (li, 2) && r[j] == (bi, 1);
    assert i < j;
    assert r[0] == r[i];
    assert r[1] == r[j];
    assert r[|r| - 1] == r[j];
  }

  const SecondsPerDay := 86400

  /** The calendar day of a timestamp (`.dt.date`), counted in days. */
  function Day(ts: int): int {
    ts / SecondsPerDay
  }

  /** The creation days of the rows with a creation time; a NULL or
      unparsable time (NaT) is dropped. */
  function CreatedDays(rows: Table): (ds: seq<int>)
    ensures |ds| <= |rows|
    ensures forall d :: d in ds <==>
              exists i :: 0 <= i < |rows| && rows[i].created.Some? && Day(rows[i].created.value) == d
    decreases |rows|
  {
    if rows == [] then []
    else
      var front := rows[..|rows| - 1];
      assert forall i :: 0 <= i < |front| ==> front[i] == rows[i];
      match rows[|rows| - 1].created
      case None => CreatedDays(front)
      case Some(ts) => CreatedDays(front) + [Day(ts)]
  }

  /** The creation day of each row, `None` where the time is NULL. */
  function DayCells(rows: Table): seq<Option<int>> {
    seq(|rows|, i requires 0 <= i < |rows| =>
      match rows[i].created case None => None case Some(ts) => Some(Day(ts)))
  }

  /** A day occurs among the keys once for every row created on it. */
  lemma {:induction false} CreatedDaysCount(rows: Table, d: int)
    ensures Occurrences(CreatedDays(rows), d) == Occurrences(DayCells(rows), Some(d))
    decreases |rows|
  {
    if rows != [] {
      var front := rows[..|rows| - 1];
      CreatedDaysCount(front, d);
      assert DayCells(rows)[..|rows| - 1] == DayCells(front);
      var ds := CreatedDays(rows);
      if rows[|rows| - 1].created.Some? {
        assert ds[..|ds| - 1] == CreatedDays(front);
      }
    }
  }

  /** "Daily Query Creation Trend": queries created per day, days in
      increasing order, each day once. */
  function DailyTrend(rows: Table): (r: seq<(int, nat)>)
    ensures StrictlyAscending(r)
    ensures IsTally(r, CreatedDays(rows))
    ensures Total(r) == |CreatedDays(rows)|
  {
    var g := Group(CreatedDays(rows));
    var r := SortByKey(g);
    StrictlyAscendingIsDistinct(r);
    TallyReordered(g, r, CreatedDays(rows));
    r
  }

  /** "Support Load Trend": the daily trend of the rows whose status is
      `open` ignoring case. */
  function OpenLoadTrend(rows: Table): (r: seq<(int, nat)>)
    ensures StrictlyAscending(r)
    ensures IsTally(r, CreatedDays(Select(rows, StatusColumn, "open")))
  {
    DailyTrend(Select(rows, StatusColumn, "open"))
  }

  function DayOf(x: Ticket): seq<int> {
    match x.created
    case None => []
    case Some(ts) => [Day(ts)]
  }

  lemma CreatedDaysSnoc(rows: Table, x: Ticket)
    ensures CreatedDays(rows + [x]) == CreatedDays(rows) + DayOf(x)
  {
    assert (rows + [x])[..|rows|] == rows;
  }

  lemma OccurrencesSnoc<K>(ks: seq<K>, extra: seq<K>, k: K)
    requires |extra| <= 1
    ensures Occurrences(ks + extra, k) == Occurrences(ks, k) + Occurrences(extra, k)
  {
    if |extra| == 1 {
      assert (ks + extra)[..|ks|] == ks;
      assert extra[..0] == [];
    } else {
      assert ks + extra == ks;
    }
  }

  lemma {:induction false} SelectedDaysOccurLess(rows: Table, c: Column, choice: string, d: int)
    ensures Occurrences(CreatedDays(Select(rows, c, choice)), d) <= Occurrences(CreatedDays(rows), d)
    decreases |rows|
  {
    if rows != [] {
      var front := rows[..|rows| - 1];
      var last := rows[|rows| - 1];
      assert rows == front + [last];
      SelectedDaysOccurLess(front, c, choice, d);
      SelectSnoc(front, last, c, choice);
      CreatedDaysSnoc(front, last);
      OccurrencesSnoc(CreatedDays(front), DayOf(last), d);
      var sel := Select(front, c, choice);
      if Matches(Field(last, c), choice) {
        CreatedDaysSnoc(sel, last);
        OccurrencesSnoc(CreatedDays(sel), DayOf(last), d);
      }
    }
  }

  /** Every day on the open-load trend is on the creation trend, with at
      least as many queries there. */
  lemma OpenLoadWithinDailyTrend(rows: Table)
    ensures forall i :: 0 <= i < |OpenLoadTrend(rows)| ==>
              OpenLoadTrend(rows)[i].0 in Keys(DailyTrend(rows))
              && OpenLoadTrend(rows)[i].1 <= CountFor(DailyTrend(rows), OpenLoadTrend(rows)[i].0)
  {
    var load := OpenLoadTrend(rows);
    var daily := DailyTrend(rows);
    var open := Select(rows, StatusColumn, "open");
    forall i | 0 <= i < |load|
      ensures load[i].0 in Keys(daily) && load[i].1 <= CountFor(daily, load[i].0)
    {
      var d := load[i].0;
      assert d in Keys(load) by { assert Keys(load)[i] == d; }
      assert d in CreatedDays(open);
      SelectedDaysOccurLess(rows, StatusColumn, "open", d);
      OccurrencesPositive(CreatedDays(open), d);
      OccurrencesPositive(CreatedDays(rows), d);
      CountForTally(daily, CreatedDays(rows), d);
    }
  }

  lemma {:induction false} OccurrencesPositive<K>(ks: seq<K>, k: K)
    ensures k in ks <==> Occurrences(ks, k) > 0
    decreases |ks|
  {
    if ks != [] {
      var front := ks[..|ks| - 1];
      assert ks == front + [ks[|ks| - 1]];
      OccurrencesPositive(front, k);
    }
  }
}
