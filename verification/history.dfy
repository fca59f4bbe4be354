/** Merging the five regional history arrays into one table of rows keyed by
    a month string (src/lib/dataUtils.js, lines 108-134). */
module History {
  import opened Js
  import opened Feed
  import opened Regions

  /** A row of the merged table: its month key (`date`) and one price per
      region that supplied an entry for that month. */
  datatype Row = Row(date: string, prices: map<Region, int>)

  /** An entry contributes only when its year, period and value are all truthy. */
  predicate Kept(e: Entry) {
    Truthy(e.year) && Truthy(e.period) && Truthy(e.value)
  }

  /** A kept entry whose period is not a string: `period.substring(1)` raises
      a TypeError, which escapes to the outer handler of the aggregation. */
  predicate Throws(e: Entry) {
    Kept(e) && !e.period.Str?
  }

  predicate AnyThrows(es: seq<Entry>) {
    exists i :: 0 <= i < |es| && Throws(es[i])
  }

  /** `s.substring(1)` */
  function DropFirst(s: string): string {
    if |s| >= 1 then s[1..] else ""
  }

  /** The month key `${year}-${period.substring(1)}` of an entry. */
  function MonthKey(e: Entry): string
    requires e.period.Str?
  {
    Text(e.year) + "-" + DropFirst(e.period.s)
  }

  /** The value an entry contributes: `parseFloat(value) || 0`. */
  function Price(parse: string -> Number, e: Entry): (p: int)
    ensures ParseFloat(parse, e.value).Finite? ==> p == ParseFloat(parse, e.value).n
    ensures ParseFloat(parse, e.value).NaN? ==> p == 0
  {
    OrZero(ParseFloat(parse, e.value))
  }

  /** Entry `e` is kept, does not throw, and is keyed by month `d`. */
  predicate Supplies(e: Entry, d: string) {
    Kept(e) && e.period.Str? && MonthKey(e) == d
  }

  predicate Supplied(es: seq<Entry>, d: string) {
    exists i :: 0 <= i < |es| && Supplies(es[i], d)
  }

  /** Entry `i` supplies month `d` and no later entry does. */
  predicate IsLast(es: seq<Entry>, d: string, i: int) {
    0 <= i < |es| && Supplies(es[i], d) && forall j :: i < j < |es| ==> !Supplies(es[j], d)
  }

  /** The reference meaning of a region's history for one month: the price of
      the LAST entry that supplies that month, if any entry does. */
  function LastPrice(parse: string -> Number, es: seq<Entry>, d: string): (r: Option<int>)
    ensures r.Some? <==> Supplied(es, d)
    ensures r.Some? ==> exists i :: IsLast(es, d, i) && Price(parse, es[i]) == r.value
    decreases |es|
  {
    if es == [] then None
    else
      var n := |es| - 1;
      if Supplies(es[n], d) then
        assert IsLast(es, d, n);
        Some(Price(parse, es[n]))
      else
        DropLastNonSupplier(es, d);
        LastPrice(parse, es[..n], d)
  }

  /** When the last entry does not supply `d`, the prefix decides. */
  lemma DropLastNonSupplier(es: seq<Entry>, d: string)
    requires |es| > 0 && !Supplies(es[|es| - 1], d)
    ensures Supplied(es, d) <==> Supplied(es[..|es| - 1], d)
    ensures forall i :: IsLast(es[..|es| - 1], d, i) ==> IsLast(es, d, i) && es[..|es| - 1][i] == es[i]
  {
    var p := es[..|es| - 1];
    if Supplied(es, d) {
      var i :| 0 <= i < |es| && Supplies(es[i], d);
      assert p[i] == es[i];
    }
    if Supplied(p, d) {
      var i :| 0 <= i < |p| && Supplies(p[i], d);
      assert p[i] == es[i];
    }
    forall i | IsLast(p, d, i) ensures IsLast(es, d, i) && p[i] == es[i] {
      LastOfPrefix(es, d, i);
    }
  }

  lemma LastOfPrefix(es: seq<Entry>, d: string, i: int)
    requires |es| > 0 && !Supplies(es[|es| - 1], d)
    requires IsLast(es[..|es| - 1], d, i)
    ensures IsLast(es, d, i) && es[..|es| - 1][i] == es[i]
  {
    var p := es[..|es| - 1];
    forall j | i < j < |es| ensures !Supplies(es[j], d) {
      if j < |p| {
        assert p[j] == es[j];
      }
    }
  }

  predicate UniqueDates(rows: seq<Row>) {
    forall i, j :: 0 <= i < j < |rows| ==> rows[i].date != rows[j].date
  }

  predicate HasDate(rows: seq<Row>, d: string) {
    exists i :: 0 <= i < |rows| && rows[i].date == d
  }

  /** `rows.findIndex(e => e.date === d)`, with `None` for -1. */
  function FindDate(rows: seq<Row>, d: string): (k: Option<nat>)
    ensures k.Some? ==> k.value < |rows| && rows[k.value].date == d
                        && forall i :: 0 <= i < k.value ==> rows[i].date != d
    ensures k.None? <==> !HasDate(rows, d)
    decreases |rows|
  {
    if rows == [] then None
    else if rows[0].date == d then Some(0)
    else
      match FindDate(rows[1..], d)
      case Some(k) => Some(k + 1)
      case None => assert forall i :: 1 <= i < |rows| ==> rows[i] == rows[1..][i - 1]; None
  }

  /** In a table with unique dates, the row with date `d` is the one found. */
  lemma FindUnique(rows: seq<Row>, i: nat)
    requires UniqueDates(rows) && i < |rows|
    ensures FindDate(rows, rows[i].date) == Some(i)
  {
  }

  /** The price region `r` has in the row for month `d`, if there is such a
      row and it has a field for `r`. */
  function Cell(rows: seq<Row>, d: string, r: Region): Option<int> {
    match FindDate(rows, d)
    case Some(k) => if r in rows[k].prices then Some(rows[k].prices[r]) else None
    case None => None
  }

  /** Add region `r`'s price `v` for month `d`: update the existing row for the
      month (overwriting any earlier price of `r`), or append a new row. */
  function Upsert(rows: seq<Row>, d: string, r: Region, v: int): (rows': seq<Row>)
    ensures UniqueDates(rows) ==> UniqueDates(rows')
    ensures Cell(rows', d, r) == Some(v)
    ensures forall d', r' :: (d' != d || r' != r) ==> Cell(rows', d', r') == Cell(rows, d', r')
    ensures forall d' :: HasDate(rows', d') <==> HasDate(rows, d') || d' == d
  {
    match FindDate(rows, d)
    case Some(k) =>
      var rows' := rows[k := Row(d, rows[k].prices[r := v])];
      UpdateRowDates(rows, d, k, rows');
      UpdateRowCells(rows, d, r, v, k, rows');
      rows'
    case None =>
      var rows' := rows + [Row(d, map[r := v])];
      AppendRowDates(rows, Row(d, map[r := v]));
      AppendRowCells(rows, d, r, v, rows');
      rows'
  }

  /** Replacing the row found for `d` by another row for `d` keeps every date. */
  lemma UpdateRowDates(rows: seq<Row>, d: string, k: nat, rows': seq<Row>)
    requires FindDate(rows, d) == Some(k)
    requires |rows'| == |rows| && rows'[k].date == d
    requires forall i :: 0 <= i < |rows| && i != k ==> rows'[i] == rows[i]
    ensures forall i :: 0 <= i < |rows| ==> rows'[i].date == rows[i].date
    ensures UniqueDates(rows) ==> UniqueDates(rows')
    ensures forall d' :: HasDate(rows', d') <==> HasDate(rows, d') || d' == d
  {
    forall d' ensures HasDate(rows', d') <==> HasDate(rows, d') || d' == d {
      if HasDate(rows', d') {
        var i :| 0 <= i < |rows'| && rows'[i].date == d';
        assert rows[i].date == d';
      }
      if HasDate(rows, d') {
        var i :| 0 <= i < |rows| && rows[i].date == d';
        assert rows'[i].date == d';
      }
    }
  }

  /** Updating the row found for `d` changes exactly the cell of `r`. */
  lemma UpdateRowCells(rows: seq<Row>, d: string, r: Region, v: int, k: nat, rows': seq<Row>)
    requires FindDate(rows, d) == Some(k)
    requires rows' == rows[k := Row(d, rows[k].prices[r := v])]
    ensures Cell(rows', d, r) == Some(v)
    ensures forall d', r' :: (d' != d || r' != r) ==> Cell(rows', d', r') == Cell(rows, d', r')
  {
    assert forall i :: 0 <= i < |rows| ==> rows'[i].date == rows[i].date;
    forall d' | true ensures FindDate(rows', d') == FindDate(rows, d') {
      FindSameDates(rows, rows', d');
    }
  }

  /** Appending a row whose month is new adds exactly that month. */
  lemma AppendRowDates(rows: seq<Row>, row: Row)
    requires FindDate(rows, row.date).None?
    ensures UniqueDates(rows) ==> UniqueDates(rows + [row])
    ensures forall d' :: HasDate(rows + [row], d') <==> HasDate(rows, d') || d' == row.date
  {
    var rows' := rows + [row];
    assert forall i :: 0 <= i < |rows| ==> rows'[i] == rows[i];
    assert rows'[|rows|] == row;
  }

  /** Appending a row for a new month `d` holding only `r`'s price changes
      exactly the cell of `r` for `d`. */
  lemma AppendRowCells(rows: seq<Row>, d: string, r: Region, v: int, rows': seq<Row>)
    requires FindDate(rows, d).None?
    requires rows' == rows + [Row(d, map[r := v])]
    ensures Cell(rows', d, r) == Some(v)
    ensures forall d', r' :: (d' != d || r' != r) ==> Cell(rows', d', r') == Cell(rows, d', r')
  {
    assert forall i :: 0 <= i < |rows| ==> rows'[i] == rows[i];
    forall d' | d' != d ensures FindDate(rows', d') == FindDate(rows, d') {
      AppendOther(rows, Row(d, map[r := v]), d');
    }
    assert rows'[|rows|].date == d;
    assert FindDate(rows', d) == Some(|rows|);
  }

  /** Appending a row with another date does not change the search for `d`. */
  lemma AppendOther(rows: seq<Row>, row: Row, d: string)
    requires row.date != d
    ensures FindDate(rows + [row], d) == FindDate(rows, d)
  {
    var rows' := rows + [row];
    assert forall i :: 0 <= i < |rows| ==> rows'[i] == rows[i];
    if FindDate(rows', d).Some? {
      assert FindDate(rows', d).value < |rows|;
    }
  }

  /** Tables with the same dates in the same order find the same rows. */
  lemma FindSameDates(a: seq<Row>, b: seq<Row>, d: string)
    requires |a| == |b|
    requires forall i :: 0 <= i < |a| ==> a[i].date == b[i].date
    ensures FindDate(a, d) == FindDate(b, d)
  {
    var x, y := FindDate(a, d), FindDate(b, d);
    if x.Some? {
      assert b[x.value].date == d;
      assert HasDate(b, d);
      var i, j := x.value, y.value;
      assert a[j].date == d;
      assert !(j < i) && !(i < j);
    }
  }

  /** Add one region's history, entry by entry, to the table (lines 112-133).
      `None` stands for the TypeError of an entry that throws. */
  function MergeEntries(parse: string -> Number, rows: seq<Row>, r: Region, es: seq<Entry>): (res: Option<seq<Row>>)
    ensures res.None? <==> AnyThrows(es)
    ensures res.Some? && UniqueDates(rows) ==> UniqueDates(res.value)
    ensures res.Some? ==> forall d :: (Cell(res.value, d, r) ==
              if Supplied(es, d) then LastPrice(parse, es, d) else Cell(rows, d, r))
    ensures res.Some? ==> forall d, r' :: r' != r ==> Cell(res.value, d, r') == Cell(rows, d, r')
    ensures res.Some? ==> forall d :: HasDate(res.value, d) <==> HasDate(rows, d) || Supplied(es, d)
    decreases |es|
  {
    if es == [] then Some(rows)
    else
      var n := |es| - 1;
      var e := es[n];
      var before := MergeEntries(parse, rows, r, es[..n]);
      ThrowsStep(es);
      if before.None? then None
      else if !Kept(e) then
        SkipStep(parse, es);
        before
      else if !e.period.Str? then None
      else
        var after := Upsert(before.value, MonthKey(e), r, Price(parse, e));
        KeptCells(parse, rows, r, es, before.value, after);
        KeptDates(rows, es, before.value, after);
        Some(after)
  }

  /** The history throws exactly when its prefix does or its last entry does. */
  lemma ThrowsStep(es: seq<Entry>)
    requires |es| > 0
    ensures AnyThrows(es) <==> AnyThrows(es[..|es| - 1]) || Throws(es[|es| - 1])
  {
    var p := es[..|es| - 1];
    assert forall i :: 0 <= i < |p| ==> p[i] == es[i];
    if AnyThrows(es) {
      var i :| 0 <= i < |es| && Throws(es[i]);
      if i < |p| {
        assert Throws(p[i]);
      }
    }
  }

  /** An entry that is not kept changes no month's supplier or last price. */
  lemma SkipStep(parse: string -> Number, es: seq<Entry>)
    requires |es| > 0 && !Kept(es[|es| - 1])
    ensures forall d :: (Supplied(es, d) <==> Supplied(es[..|es| - 1], d))
                        && LastPrice(parse, es, d) == LastPrice(parse, es[..|es| - 1], d)
  {
    forall d ensures (Supplied(es, d) <==> Supplied(es[..|es| - 1], d))
                     && LastPrice(parse, es, d) == LastPrice(parse, es[..|es| - 1], d) {
      DropLastNonSupplier(es, d);
    }
  }

  /** Adding a kept entry makes its price the last price of its month and
      leaves every other month as the prefix had it. */
  lemma KeptCells(parse: string -> Number, rows: seq<Row>, r: Region, es: seq<Entry>, before: seq<Row>, after: seq<Row>)
    requires |es| > 0 && Kept(es[|es| - 1]) && es[|es| - 1].period.Str?
    requires forall d :: Cell(before, d, r) ==
               if Supplied(es[..|es| - 1], d) then LastPrice(parse, es[..|es| - 1], d) else Cell(rows, d, r)
    requires after == Upsert(before, MonthKey(es[|es| - 1]), r, Price(parse, es[|es| - 1]))
    ensures forall d :: Cell(after, d, r) ==
              if Supplied(es, d) then LastPrice(parse, es, d) else Cell(rows, d, r)
  {
    var n := |es| - 1;
    var m := MonthKey(es[n]);
    assert Supplies(es[n], m);
    forall d ensures Cell(after, d, r) == if Supplied(es, d) then LastPrice(parse, es, d) else Cell(rows, d, r) {
      if d == m {
        assert Supplied(es, d);
      } else {
        DropLastNonSupplier(es, d);
      }
    }
  }

  /** Adding a kept entry adds exactly its month to the table's months. */
  lemma KeptDates(rows: seq<Row>, es: seq<Entry>, before: seq<Row>, after: seq<Row>)
    requires |es| > 0 && Kept(es[|es| - 1]) && es[|es| - 1].period.Str?
    requires forall d :: HasDate(before, d) <==> HasDate(rows, d) || Supplied(es[..|es| - 1], d)
    requires forall d :: HasDate(after, d) <==> HasDate(before, d) || d == MonthKey(es[|es| - 1])
    ensures forall d :: HasDate(after, d) <==> HasDate(rows, d) || Supplied(es, d)
  {
    var n := |es| - 1;
    assert Supplies(es[n], MonthKey(es[n]));
    forall d ensures Supplied(es, d) <==> Supplied(es[..n], d) || d == MonthKey(es[n]) {
      if d != MonthKey(es[n]) {
        DropLastNonSupplier(es, d);
      } else {
        assert Supplied(es, d);
      }
    }
  }

  /** Add the histories of regions `rs`, in order, to an empty table
      (lines 109-134). `None` when some entry throws. */
  function MergeRegions(parse: string -> Number, hist: PerRegion<seq<Entry>>, rs: seq<Region>): (res: Option<seq<Row>>)
    ensures res.None? <==> exists k :: 0 <= k < |rs| && AnyThrows(hist.Get(rs[k]))
    ensures res.Some? ==> UniqueDates(res.value)
    ensures res.Some? ==> forall d, r :: (Cell(res.value, d, r) ==
              if r in rs then LastPrice(parse, hist.Get(r), d) else None)
    ensures res.Some? ==> forall d :: HasDate(res.value, d) <==>
              exists k :: 0 <= k < |rs| && Supplied(hist.Get(rs[k]), d)
    decreases |rs|
  {
    if rs == [] then Some([])
    else
      var n := |rs| - 1;
      var prefix := rs[..n];
      assert forall k :: 0 <= k < n ==> prefix[k] == rs[k];
      assert rs == prefix + [rs[n]];
      var before := MergeRegions(parse, hist, prefix);
      if before.None? then None
      else MergeEntries(parse, before.value, rs[n], hist.Get(rs[n]))
  }
}
