/** The per-region "current price" snapshot built from a region's latest
    record (src/lib/dataUtils.js, lines 31-64). */
module Snapshot {
  import opened Js
  import opened Feed

  /** `{current, priceChange, percentChange, latestDate}`; `None` is null. */
  datatype Snapshot = Snapshot(
    current: Number,
    priceChange: Option<Number>,
    percentChange: Option<Number>,
    latestDate: Option<string>)

  /** `{...DEFAULT_PRICE_DATA, latestDate: null}` */
  const Default: Snapshot := Snapshot(Finite(0), None, None, None)

  /** A change field: parsed when truthy, null otherwise. The test is the
      field's truthiness, so the number 0 becomes null while the string "0"
      is parsed. */
  function ChangeField(parse: string -> Number, v: Scalar): (r: Option<Number>)
    ensures r.None? <==> !Truthy(v)
    ensures r.Some? ==> r.value == ParseFloat(parse, v)
  {
    if Truthy(v) then Some(ParseFloat(parse, v)) else None
  }

  /** The snapshot of a delivered latest record. `current` has no NaN guard:
      a truthy value that does not parse gives NaN. */
  function FromRecord(parse: string -> Number, rec: LatestRecord): (s: Snapshot)
    ensures !Truthy(rec.value) ==> s.current == Finite(0)
    ensures Truthy(rec.value) ==> s.current == ParseFloat(parse, rec.value)
    ensures s.priceChange.None? <==> !Truthy(NetChange(rec))
    ensures s.priceChange.Some? ==> s.priceChange.value == ParseFloat(parse, NetChange(rec))
    ensures s.percentChange.None? <==> !Truthy(PctChange(rec))
    ensures s.percentChange.Some? ==> s.percentChange.value == ParseFloat(parse, PctChange(rec))
    ensures s.latestDate.Some? <==> Truthy(rec.periodName) && Truthy(rec.year)
    ensures s.latestDate.Some? ==> s.latestDate.value == Text(rec.periodName) + " " + Text(rec.year)
  {
    Snapshot(
      if Truthy(rec.value) then ParseFloat(parse, rec.value) else Finite(0),
      ChangeField(parse, NetChange(rec)),
      ChangeField(parse, PctChange(rec)),
      if Truthy(rec.periodName) && Truthy(rec.year)
      then Some(Text(rec.periodName) + " " + Text(rec.year))
      else None)
  }

  /** The snapshot of one region: a null record or a fetch that threw gives
      the default snapshot. */
  function RegionSnapshot(parse: string -> Number, f: Fetch<LatestRecord>): (s: Snapshot)
    ensures !f.Delivered? ==> s.current == Finite(0) && s.priceChange.None?
                              && s.percentChange.None? && s.latestDate.None?
    ensures f.Delivered? ==> s == FromRecord(parse, f.value)
  {
    match f
    case Delivered(rec) => FromRecord(parse, rec)
    case Empty => Default
    case Threw => Default
  }

  /** The snapshot reads nothing of a record but its value, the two "1"
      changes, the period name and the year. */
  lemma SnapshotReadsOnlyItsFields(parse: string -> Number, a: LatestRecord, b: LatestRecord)
    requires a.value == b.value && NetChange(a) == NetChange(b) && PctChange(a) == PctChange(b)
    requires a.periodName == b.periodName && a.year == b.year
    ensures FromRecord(parse, a) == FromRecord(parse, b)
  {
  }

  /** A numeric 0 change is reported as null ("unknown"), not as 0. */
  lemma NumericZeroChangeIsNull(parse: string -> Number, rec: LatestRecord)
    requires NetChange(rec) == Num(Finite(0))
    ensures FromRecord(parse, rec).priceChange == None
  {
  }

  /** The string "0" is truthy, so a "0" change is parsed rather than nulled. */
  lemma StringZeroChangeIsParsed(parse: string -> Number, rec: LatestRecord)
    requires PctChange(rec) == Str("0")
    requires parse("0") == Finite(0)
    ensures FromRecord(parse, rec).percentChange == Some(Finite(0))
  {
  }

  /** A delivered record with a falsy value, no calculations and no period
      name is indistinguishable from a missing one. */
  lemma EmptyRecordLooksMissing(parse: string -> Number, rec: LatestRecord)
    requires !Truthy(rec.value) && rec.calculations.None? && !Truthy(rec.periodName)
    ensures RegionSnapshot(parse, Delivered(rec)) == RegionSnapshot(parse, Empty)
  {
  }
}
