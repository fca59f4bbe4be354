/** The last step of the history pipeline: keep the most recent rows and give
    every kept row a price for every region (src/lib/dataUtils.js, lines
    141-155). */
module Window {
  import opened Regions
  import opened History
  import opened Ordering

  /** The number of months kept: `history.slice(-24)`. */
  const Size: nat := 24

  /** `rows.slice(-n)`: the last `n` rows, or all of them when there are fewer. */
  function TakeLast(rows: seq<Row>, n: nat): (w: seq<Row>)
    ensures |w| == if |rows| <= n then |rows| else n
    ensures w == rows[|rows| - |w|..]
  {
    if |rows| <= n then rows else rows[|rows| - n..]
  }

  /** A window of sorted rows with distinct dates is still sorted with
      distinct dates. */
  lemma WindowOfSorted(rows: seq<Row>, n: nat)
    requires Sorted(rows) && UniqueDates(rows)
    ensures Sorted(TakeLast(rows, n)) && UniqueDates(TakeLast(rows, n))
  {
    SuffixSorted(rows, |rows| - |TakeLast(rows, n)|);
  }

  lemma SuffixSorted(rows: seq<Row>, start: nat)
    requires Sorted(rows) && UniqueDates(rows) && start <= |rows|
    ensures Sorted(rows[start..]) && UniqueDates(rows[start..])
  {
    var w := rows[start..];
    forall i, j | 0 <= i < j < |w|
      ensures Precedes(MonthIndex(w[i].date), MonthIndex(w[j].date))
    {
      assert w[i] == rows[start + i] && w[j] == rows[start + j];
    }
    forall i, j | 0 <= i < j < |w|
      ensures w[i].date != w[j].date
    {
      assert w[i] == rows[start + i] && w[j] == rows[start + j];
    }
  }

  /** Every row the window leaves out precedes every row it keeps. */
  lemma WindowDropsOlder(rows: seq<Row>, n: nat, i: int, j: int)
    requires Sorted(rows)
    requires 0 <= i < |rows| - |TakeLast(rows, n)| && 0 <= j < |TakeLast(rows, n)|
    ensures Precedes(MonthIndex(rows[i].date), MonthIndex(TakeLast(rows, n)[j].date))
  {
    var w := TakeLast(rows, n);
    assert w[j] == rows[|rows| - |w| + j];
  }

  /** A row with a price for every region: the prices it had are kept and each
      missing region gets 0. */
  function FillRow(row: Row): (full: Row)
    ensures full.date == row.date
    ensures forall r: Region :: r in full.prices
    ensures forall r: Region :: r in row.prices ==> full.prices[r] == row.prices[r]
    ensures forall r: Region :: r !in row.prices ==> full.prices[r] == 0
  {
    TableIsEnumeration();
    Row(row.date, map r | r in All :: if r in row.prices then row.prices[r] else 0)
  }

  /** Fill every row; the rows keep their number, order and dates. */
  function Fill(rows: seq<Row>): (full: seq<Row>)
    ensures |full| == |rows|
    ensures forall i :: 0 <= i < |rows| ==> full[i] == FillRow(rows[i])
    ensures forall i :: 0 <= i < |rows| ==> full[i].date == rows[i].date
  {
    seq(|rows|, i requires 0 <= i < |rows| => FillRow(rows[i]))
  }

  /** Filling changes no date, so it keeps sortedness and distinct dates. */
  lemma FillKeepsOrder(rows: seq<Row>)
    ensures Sorted(rows) ==> Sorted(Fill(rows))
    ensures UniqueDates(rows) ==> UniqueDates(Fill(rows))
    ensures forall d :: HasDate(Fill(rows), d) <==> HasDate(rows, d)
  {
    var full := Fill(rows);
    forall d ensures HasDate(full, d) <==> HasDate(rows, d) {
      if HasDate(full, d) {
        var i :| 0 <= i < |full| && full[i].date == d;
        assert rows[i].date == d;
      }
      if HasDate(rows, d) {
        var i :| 0 <= i < |rows| && rows[i].date == d;
        assert full[i].date == d;
      }
    }
  }
}
