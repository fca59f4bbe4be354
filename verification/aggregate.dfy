/** `processItemData`: the current-price snapshots and the 24-month regional
    history table of one item, built from the per-region fetch results
    (src/lib/dataUtils.js, lines 24-175). The fetches themselves are inputs;
    running them concurrently or one after another gives the same result,
    because the per-region results share no state. */
module Aggregate {
  import opened Js
  import opened Regions
  import opened Feed
  import opened Snapshot
  import opened History
  import opened Ordering
  import opened Window

  /** `{currentPrices, history}` */
  datatype ItemData = ItemData(currentPrices: map<Region, Snapshot>, history: seq<Row>)

  /** A history fetch that returned null, a non-array or threw contributes no
      entries (lines 74-85). */
  function EntriesOf(f: Fetch<seq<Entry>>): seq<Entry> {
    if f.Delivered? then f.value else []
  }

  /** Some region's history holds a kept entry whose period is not a string,
      so building the table raises a TypeError. */
  predicate HistoryThrows(hist: PerRegion<seq<Entry>>) {
    exists r: Region :: AnyThrows(hist.Get(r))
  }

  /** The snapshot map: one entry per region, in the regions table (lines 94-102). */
  function CurrentPrices(parse: string -> Number, latest: PerRegion<Fetch<LatestRecord>>): (m: map<Region, Snapshot>)
    ensures forall r: Region :: r in m && m[r] == RegionSnapshot(parse, latest.Get(r))
  {
    TableIsEnumeration();
    map r | r in All :: RegionSnapshot(parse, latest.Get(r))
  }

  /** The value returned from the outer `catch` (lines 162-174). */
  function Fallback(): (d: ItemData)
    ensures forall r: Region :: r in d.currentPrices && d.currentPrices[r] == Default
    ensures d.history == []
  {
    TableIsEnumeration();
    ItemData(map r | r in All :: Default, [])
  }

  /** The price a region has in an output row: its last entry for the month,
      or the 0 filled in when it has none. */
  function PriceOrZero(p: Option<int>): int {
    if p.Some? then p.value else 0
  }

  /** `processItemData` (lines 24-175): on the normal path the snapshot map
      and the history table; when building the table throws, the fallback. */
  function ProcessItemData(
    parse: string -> Number,
    latest: PerRegion<Fetch<LatestRecord>>,
    history: PerRegion<Fetch<seq<Entry>>>): (d: ItemData)
    ensures forall r: Region :: r in d.currentPrices
    ensures |d.history| <= Size
    ensures forall i, r: Region :: 0 <= i < |d.history| ==> r in d.history[i].prices
    ensures HistoryThrows(history.Map(EntriesOf)) ==> d == Fallback()
    ensures !HistoryThrows(history.Map(EntriesOf)) ==>
              forall r: Region :: d.currentPrices[r] == RegionSnapshot(parse, latest.Get(r))
    ensures !HistoryThrows(history.Map(EntriesOf)) ==> IsHistoryTable(parse, history.Map(EntriesOf), d.history)
  {
    match HistoryTable(parse, history.Map(EntriesOf))
    case None => Fallback()
    case Some(table) => ItemData(CurrentPrices(parse, latest), table)
  }

  /** What the history table of region histories `hist` is: the supplied
      months, each once, in calendar order, at most 24 of them; each row gives
      every region's last price for its month, or 0; and a supplied month is
      left out only when the window is full of later months. */
  ghost predicate IsHistoryTable(parse: string -> Number, hist: PerRegion<seq<Entry>>, rows: seq<Row>) {
    OrderedWindow(rows) && RowsAreLastPrices(parse, hist, rows) && KeepsLatest(hist, rows)
  }

  ghost predicate OrderedWindow(rows: seq<Row>) {
    |rows| <= Size && Sorted(rows) && UniqueDates(rows)
  }

  ghost predicate RowsAreLastPrices(parse: string -> Number, hist: PerRegion<seq<Entry>>, rows: seq<Row>) {
    && (forall i :: 0 <= i < |rows| ==> SuppliedBySome(hist, rows[i].date))
    && (forall i, r: Region :: 0 <= i < |rows| ==>
          r in rows[i].prices && rows[i].prices[r] == PriceOrZero(LastPrice(parse, hist.Get(r), rows[i].date)))
  }

  /** Some region supplied month `d`. */
  ghost predicate SuppliedBySome(hist: PerRegion<seq<Entry>>, d: string) {
    exists r: Region :: Supplied(hist.Get(r), d)
  }

  ghost predicate KeepsLatest(hist: PerRegion<seq<Entry>>, rows: seq<Row>) {
    forall m, r: Region :: Supplied(hist.Get(r), m) && !HasDate(rows, m) ==>
      |rows| == Size && forall j :: 0 <= j < |rows| ==> Precedes(MonthIndex(m), MonthIndex(rows[j].date))
  }

  /** The history table (lines 108-160), or `None` when building it throws. */
  function HistoryTable(parse: string -> Number, hist: PerRegion<seq<Entry>>): (h: Option<seq<Row>>)
    ensures h.None? <==> HistoryThrows(hist)
    ensures h.Some? ==> IsHistoryTable(parse, hist, h.value)
  {
    var merged := MergeRegions(parse, hist, All);
    ThrowsIffSomeRegion(hist);
    if merged.None? then None
    else
      RecentOrder(merged.value);
      WindowRows(parse, hist, merged.value);
      WindowComplete(parse, hist, merged.value);
      Some(Recent(merged.value))
  }

  /** Sort, keep the last 24 rows, fill (lines 140-155). */
  function Recent(merged: seq<Row>): (rows: seq<Row>)
    ensures |rows| == if |merged| <= Size then |merged| else Size
  {
    Fill(TakeLast(SortRows(merged), Size))
  }

  lemma RecentOrder(merged: seq<Row>)
    requires UniqueDates(merged)
    ensures OrderedWindow(Recent(merged))
  {
    var sorted := SortRows(merged);
    WindowOfSorted(sorted, Size);
    FillKeepsOrder(TakeLast(sorted, Size));
  }

  /** Merging throws exactly when some region's history holds a throwing entry. */
  lemma ThrowsIffSomeRegion(hist: PerRegion<seq<Entry>>)
    ensures (exists k :: 0 <= k < |All| && AnyThrows(hist.Get(All[k]))) <==> HistoryThrows(hist)
  {
    if HistoryThrows(hist) {
      var r :| AnyThrows(hist.Get(r));
      var k := IndexOf(r);
    }
  }

  /** Each row of the window is a merged row: its month was supplied by some
      region, and each region's price is that region's last entry for the
      month, or 0 once filled. */
  lemma WindowRows(parse: string -> Number, hist: PerRegion<seq<Entry>>, merged: seq<Row>)
    requires MergeRegions(parse, hist, All) == Some(merged)
    ensures RowsAreLastPrices(parse, hist, Recent(merged))
  {
    var window := TakeLast(SortRows(merged), Size);
    WindowInMerged(merged, window);
    MergedRowsSupplied(parse, hist, merged, window);
    MergedRowsPriced(parse, hist, merged, window);
    FilledRows(parse, hist, window);
  }

  /** Filling rows that were supplied and whose filled prices are the last
      prices gives rows that are the last prices. */
  lemma FilledRows(parse: string -> Number, hist: PerRegion<seq<Entry>>, rows: seq<Row>)
    requires forall i :: 0 <= i < |rows| ==> SuppliedBySome(hist, rows[i].date)
    requires forall i, r: Region :: 0 <= i < |rows| ==>
               r in FillRow(rows[i]).prices
               && FillRow(rows[i]).prices[r] == PriceOrZero(LastPrice(parse, hist.Get(r), rows[i].date))
    ensures RowsAreLastPrices(parse, hist, Fill(rows))
  {
    var full := Fill(rows);
    forall i | 0 <= i < |full| ensures SuppliedBySome(hist, full[i].date) {
      var r: Region :| Supplied(hist.Get(r), rows[i].date);
      assert Supplied(hist.Get(r), full[i].date);
    }
    forall i, r: Region | 0 <= i < |full|
      ensures r in full[i].prices && full[i].prices[r] == PriceOrZero(LastPrice(parse, hist.Get(r), full[i].date))
    {
      assert full[i] == FillRow(rows[i]);
    }
  }

  /** Each row of the window is a row of the merged table. */
  lemma WindowInMerged(merged: seq<Row>, window: seq<Row>)
    requires window == TakeLast(SortRows(merged), Size)
    ensures forall i :: 0 <= i < |window| ==> window[i] in merged
  {
    var sorted := SortRows(merged);
    forall i | 0 <= i < |window| ensures window[i] in merged {
      assert window[i] == sorted[|sorted| - |window| + i];
    }
  }

  /** Rows taken from the merged table were supplied by some region. */
  lemma MergedRowsSupplied(parse: string -> Number, hist: PerRegion<seq<Entry>>, merged: seq<Row>, rows: seq<Row>)
    requires MergeRegions(parse, hist, All) == Some(merged)
    requires forall i :: 0 <= i < |rows| ==> rows[i] in merged
    ensures forall i :: 0 <= i < |rows| ==> SuppliedBySome(hist, rows[i].date)
  {
    forall i | 0 <= i < |rows| ensures SuppliedBySome(hist, rows[i].date) {
      var k :| 0 <= k < |merged| && merged[k] == rows[i];
      MergedRowSupplied(parse, hist, merged, k);
    }
  }

  /** Rows taken from the merged table, once filled, hold each region's last
      price for their month, or 0. */
  lemma MergedRowsPriced(parse: string -> Number, hist: PerRegion<seq<Entry>>, merged: seq<Row>, rows: seq<Row>)
    requires MergeRegions(parse, hist, All) == Some(merged)
    requires forall i :: 0 <= i < |rows| ==> rows[i] in merged
    ensures forall i, r: Region :: 0 <= i < |rows| ==>
              r in FillRow(rows[i]).prices
              && FillRow(rows[i]).prices[r] == PriceOrZero(LastPrice(parse, hist.Get(r), rows[i].date))
  {
    forall i, r: Region | 0 <= i < |rows|
      ensures r in FillRow(rows[i]).prices
      ensures FillRow(rows[i]).prices[r] == PriceOrZero(LastPrice(parse, hist.Get(r), rows[i].date))
    {
      var k :| 0 <= k < |merged| && merged[k] == rows[i];
      MergedRowPrice(parse, hist, merged, k, r);
    }
  }

  /** A merged row's month was supplied by some region. */
  lemma MergedRowSupplied(parse: string -> Number, hist: PerRegion<seq<Entry>>, merged: seq<Row>, k: nat)
    requires MergeRegions(parse, hist, All) == Some(merged) && k < |merged|
    ensures SuppliedBySome(hist, merged[k].date)
  {
    assert HasDate(merged, merged[k].date);
    var q :| 0 <= q < |All| && Supplied(hist.Get(All[q]), merged[k].date);
  }

  /** A merged row holds each region's last price for its month, and nothing
      for a region that supplied none; filling turns nothing into 0. */
  lemma MergedRowPrice(parse: string -> Number, hist: PerRegion<seq<Entry>>, merged: seq<Row>, k: nat, r: Region)
    requires MergeRegions(parse, hist, All) == Some(merged) && k < |merged|
    ensures FillRow(merged[k]).prices[r] == PriceOrZero(LastPrice(parse, hist.Get(r), merged[k].date))
  {
    FindUnique(merged, k);
    TableIsEnumeration();
    assert Cell(merged, merged[k].date, r) == LastPrice(parse, hist.Get(r), merged[k].date);
  }

  /** A supplied month missing from the window was dropped by the slice: the
      window is full and the month precedes every row in it. */
  lemma WindowComplete(parse: string -> Number, hist: PerRegion<seq<Entry>>, merged: seq<Row>)
    requires MergeRegions(parse, hist, All) == Some(merged)
    ensures KeepsLatest(hist, Recent(merged))
  {
    MergedCoversSupplied(parse, hist, merged);
    WindowKeepsLatest(hist, merged);
    KeepsLatestFill(hist, TakeLast(SortRows(merged), Size));
  }

  /** Every supplied month has a merged row. */
  lemma MergedCoversSupplied(parse: string -> Number, hist: PerRegion<seq<Entry>>, merged: seq<Row>)
    requires MergeRegions(parse, hist, All) == Some(merged)
    ensures forall m, r: Region :: Supplied(hist.Get(r), m) ==> HasDate(merged, m)
  {
    forall m, r: Region | Supplied(hist.Get(r), m) ensures HasDate(merged, m) {
      var q := IndexOf(r);
    }
  }

  lemma WindowKeepsLatest(hist: PerRegion<seq<Entry>>, merged: seq<Row>)
    requires forall m, r: Region :: Supplied(hist.Get(r), m) ==> HasDate(merged, m)
    ensures KeepsLatest(hist, TakeLast(SortRows(merged), Size))
  {
    var sorted := SortRows(merged);
    var window := TakeLast(sorted, Size);
    forall m, r: Region | Supplied(hist.Get(r), m) && !HasDate(window, m)
      ensures |window| == Size && forall j :: 0 <= j < |window| ==> Precedes(MonthIndex(m), MonthIndex(window[j].date))
    {
      assert HasDate(sorted, m);
      var p := DroppedPosition(sorted, window, m);
      forall j | 0 <= j < |window| ensures Precedes(MonthIndex(m), MonthIndex(window[j].date)) {
        WindowDropsOlder(sorted, Size, p, j);
      }
    }
  }

  /** Where a month left out of the window sits in the sorted rows. */
  lemma DroppedPosition(sorted: seq<Row>, window: seq<Row>, m: string) returns (p: nat)
    requires window == TakeLast(sorted, Size)
    requires HasDate(sorted, m) && !HasDate(window, m)
    ensures p < |sorted| - |window| && sorted[p].date == m && |window| == Size
  {
    p :| 0 <= p < |sorted| && sorted[p].date == m;
  }

  /** Filling keeps every date, so it keeps the window property. */
  lemma KeepsLatestFill(hist: PerRegion<seq<Entry>>, rows: seq<Row>)
    requires KeepsLatest(hist, rows)
    ensures KeepsLatest(hist, Fill(rows))
  {
    FillKeepsOrder(rows);
  }
}
