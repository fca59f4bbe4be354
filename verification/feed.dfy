/** The records the price feed delivers, as the aggregation code reads them,
    and the outcome of fetching them. The network itself is not modelled:
    each fetch result is an input. */
module Feed {
  import opened Js

  /** What one fetch for one region produced. `Empty` is a null result (no
      latest record) or, for a history, a value that is null or not an array;
      `Threw` is a fetch that raised an exception. */
  datatype Fetch<T> = Delivered(value: T) | Empty | Threw

  /** The `calculations` object of a latest record; each table is absent
      (`None`) when the record has no such property. */
  datatype Calculations = Calculations(
    netChanges: Option<map<string, Scalar>>,
    pctChanges: Option<map<string, Scalar>>)

  /** The fields of a latest-value record that the aggregation reads. */
  datatype LatestRecord = LatestRecord(
    value: Scalar,
    calculations: Option<Calculations>,
    periodName: Scalar,
    year: Scalar)

  /** One element of a region's history array (`{year, period, value}`). */
  datatype Entry = Entry(year: Scalar, period: Scalar, value: Scalar)

  /** `table?.["1"]`: the one-period change, undefined when the table or its
      "1" entry is missing. */
  function FirstPeriod(table: Option<map<string, Scalar>>): Scalar {
    if table.Some? && "1" in table.value then table.value["1"] else Undefined
  }

  /** `data.calculations?.net_changes?.["1"]` */
  function NetChange(rec: LatestRecord): Scalar {
    if rec.calculations.Some? then FirstPeriod(rec.calculations.value.netChanges) else Undefined
  }

  /** `data.calculations?.pct_changes?.["1"]` */
  function PctChange(rec: LatestRecord): Scalar {
    if rec.calculations.Some? then FirstPeriod(rec.calculations.value.pctChanges) else Undefined
  }
}
