# Grocery price tracker: verified model of the data core

The site shows regional prices for everyday goods: eggs, milk, gas and seven
more items. Prices come from a government price feed, once per region. This
project models the four pieces of pure logic behind the pages:

- **Regional aggregation** (`processItemData`). Each region's latest record
  becomes a *snapshot*: the current price, the one-period change, the
  percent change and the date of the latest figure. The five regional
  histories are merged into one *history table* with one row per month. Each
  row holds each region's price, or 0 when the region reported none. The
  table is sorted by month and cut to the last 24 months.
- **`slugify`**: turns an item or page title into a URL slug.
- **The analysis cache**: one JSON file per item key, read back only while
  it is at most 24 hours old.
- **The item catalogue**: the table of tracked items, the groups of items
  shown together on a page, and the lookup that pairs each item of a group
  with its current price.

The model is written in the program's own terms:
- A JavaScript value that the code tests for truthiness is a `Js.Scalar`.
- A number is `Js.Number`, either `NaN` or a finite integer.
- `parseFloat` of a string is a parameter `parse`. No property depends on
  how it reads digits.
- A region is `Regions.Region`.
- A fetch result is `Feed.Fetch`: delivered, null or threw.
- The cache directory is a map from item key to file content, `LlmCache.Store`.
- The clock is a parameter `now`, and so is the outcome of the cache write.

The code is organised as follows:
- `js.dfy`: JavaScript values, truthiness, and integer-to-decimal text.
- `regions.dfy`: the region table.
- `feed.dfy`: the feed's records.
- `snapshot.dfy`: the snapshots.
- `history.dfy`: the merge.
- `ordering.dfy`: the month order and the sort.
- `window.dfy`: the 24-row window and the zero fill.
- `aggregate.dfy`: `processItemData` as a whole.
- `slug.dfy`, `llmcache.dfy` and `items.dfy`: the other three pieces.

Three details of the code shape the model:
- The cache entry holds exactly `{timestamp, data, prompt, provider}`
  (src/lib/llmcache.js:41-46).
- A change field is null when it is falsy, so a numeric 0 gives null while
  the string `"0"` is truthy and gives 0 (src/lib/dataUtils.js:46-51).
- A failed cache write is caught, but when it fails after opening the file
  it leaves that file empty or partial, and the key's entry is lost
  (src/lib/llmcache.js:48-54).

## Model

| member | source | states |
|---|---|---|
| `Regions.TableIsEnumeration` | src/lib/dataUtils.js:8-14 | the regions table lists each of the five regions exactly once, and distinct regions have distinct property names |
| `Regions.IndexOf` | src/lib/dataUtils.js:8-14 | every region has a position in the table's key order |
| `Js.OrZero` | src/lib/dataUtils.js:125 | the fallback to 0 for a parsed number: NaN becomes 0, any finite value is kept |
| `Js.DecimalRoundTrip` | src/lib/dataUtils.js:118 | the decimal text of a natural number reads back as that number |
| `Js.DecimalValueInjective` | src/lib/dataUtils.js:118 | two digit strings of the same length with the same value are equal |
| `Js.FourDigitYear` | src/lib/dataUtils.js:118 | a year from 1000 to 9999 prints as exactly four digits |
| `Snapshot.ChangeField` | src/lib/dataUtils.js:46-51 | a change field is null exactly when its value is falsy; otherwise it is the parsed value |
| `Feed.NetChange` | src/lib/dataUtils.js:46 | `calculations?.net_changes?.["1"]`, undefined when any link is missing |
| `Feed.PctChange` | src/lib/dataUtils.js:49 | `calculations?.pct_changes?.["1"]`, undefined when any link is missing |
| `Snapshot.SnapshotReadsOnlyItsFields` | src/lib/dataUtils.js:43-56 | two records that agree on the value, both "1" changes, the period name and the year give the same snapshot |
| `Snapshot.FromRecord` | src/lib/dataUtils.js:43-56 | current is 0 for a falsy value, else the parsed value with no NaN guard; each change is null exactly when its own "1" entry is missing or falsy; latestDate is "<periodName> <year>" exactly when both are truthy |
| `Snapshot.RegionSnapshot` | src/lib/dataUtils.js:31-64 | a null record or a fetch that threw gives current 0 and null changes and date; a delivered record gives its own snapshot |
| `Snapshot.NumericZeroChangeIsNull` | src/lib/dataUtils.js:46-48 | a numeric 0 change is reported as null |
| `Snapshot.StringZeroChangeIsParsed` | src/lib/dataUtils.js:49-51 | a string "0" change is parsed to 0, not nulled |
| `Snapshot.EmptyRecordLooksMissing` | src/lib/dataUtils.js:36-56 | a delivered record with a falsy value and no calculations or period looks the same as a missing record |
| `History.LastPrice` | src/lib/dataUtils.js:112-133 | the reference meaning of one region's history for a month: defined exactly when some kept entry has that month key, and then it is the price of the last such entry |
| `History.DropLastNonSupplier` | src/lib/dataUtils.js:112-133 | a final entry that does not supply a month changes neither whether the month is supplied nor which entry supplies it last |
| `History.LastOfPrefix` | src/lib/dataUtils.js:112-133 | the last supplier of a month in a prefix stays the last one when a non-supplier is appended |
| `History.Kept` | src/lib/dataUtils.js:114 | an entry contributes only when its year, period and value are all truthy |
| `History.Throws` | src/lib/dataUtils.js:118 | a kept entry whose period is not a string raises the TypeError of `substring` |
| `History.MonthKey` | src/lib/dataUtils.js:118 | the month key is the year's text, '-', and the period without its first character |
| `History.Price` | src/lib/dataUtils.js:125 | an entry's price is its parsed value, or 0 when the value does not parse |
| `History.FindDate` | src/lib/dataUtils.js:121 | `findIndex` on the date: the first row with that date, and -1 exactly when no row has it |
| `History.FindUnique` | src/lib/dataUtils.js:121 | when dates are unique, the search for a row's date finds that row |
| `History.FindSameDates` | src/lib/dataUtils.js:121 | two tables with the same dates in the same order give the same search results |
| `History.UpdateRowCells` | src/lib/dataUtils.js:123-125 | updating the existing row of a month changes only the region's cell for that month |
| `History.AppendRowCells` | src/lib/dataUtils.js:126-131 | appending a row for a new month holds only the region's price and changes no other search |
| `History.ThrowsStep` | src/lib/dataUtils.js:112-118 | a history throws exactly when an earlier entry throws or the last one does |
| `History.KeptCells` | src/lib/dataUtils.js:114-131 | a kept entry's price becomes the last price of its month; other months keep the prefix's last price |
| `History.Upsert` | src/lib/dataUtils.js:121-131 | adding a price keeps dates unique; the month's cell for the region becomes the value; every other cell is unchanged; the set of months gains exactly this month |
| `History.MergeEntries` | src/lib/dataUtils.js:112-133 | adding one region's history throws exactly when a kept entry has a non-string period; otherwise the region's cell for each month is its last price if it supplied the month, else the old cell; other regions' cells are untouched; the months gained are exactly those the region supplied |
| `History.MergeRegions` | src/lib/dataUtils.js:108-134 | merging all regions gives unique dates; a cell holds the region's last price for that month, and is empty when the region supplied none; the rows are exactly the supplied months |
| `Ordering.KeyReadsBack` | src/lib/dataUtils.js:118 | a month key built from a four-digit year and a period "M01" to "M12" is read back by the date comparison as that year and month |
| `Ordering.EntryMonthReadsBack` | src/lib/dataUtils.js:118 | the month key of an entry with a four-digit year and a period "M01" to "M12" denotes that year and month |
| `Ordering.CalendarOf` | src/lib/dataUtils.js:140 | `new Date(key)` read as an ISO year-month: four digits, '-', a month 01 to 12; any other key is unreadable |
| `Ordering.MonthIndex` | src/lib/dataUtils.js:140 | a readable key's month count since year 0, from which the year and month read back |
| `Ordering.MonthIndexInjective` | src/lib/dataUtils.js:140 | distinct readable keys denote distinct months |
| `Ordering.Insert` | src/lib/dataUtils.js:140 | inserting into sorted rows keeps them sorted, adds exactly the one row, and keeps dates unique when the date is new |
| `Ordering.InsertBehindHead` | src/lib/dataUtils.js:140 | the step of insertion past the head keeps order, contents and unique dates |
| `Ordering.SortRows` | src/lib/dataUtils.js:140 | the sorted history is ascending by (year, month) and is a permutation of the merged rows, with the same months, and it keeps dates unique |
| `Ordering.SortStep` | src/lib/dataUtils.js:140 | inserting the head into the sorted tail gives a permutation of the whole with the same months |
| `Ordering.StrictlyAscending` | src/lib/dataUtils.js:140 | sorted rows with unique readable dates ascend strictly by month |
| `Window.TakeLast` | src/lib/dataUtils.js:141 | `slice(-24)` keeps min(24, n) rows, and they are the last rows of the sorted table |
| `Window.WindowOfSorted` | src/lib/dataUtils.js:140-141 | the window of a sorted table with unique dates is sorted with unique dates |
| `Window.SuffixSorted` | src/lib/dataUtils.js:141 | any suffix of a sorted table with unique dates is sorted with unique dates |
| `Window.WindowDropsOlder` | src/lib/dataUtils.js:140-141 | every row the slice leaves out precedes every row it keeps |
| `Window.FillRow` | src/lib/dataUtils.js:147-155 | a filled row keeps its date and every price it had, and gives each missing region 0 |
| `Window.Fill` | src/lib/dataUtils.js:147-155 | the fill keeps the number, order and dates of the rows and fills each row |
| `Window.FillKeepsOrder` | src/lib/dataUtils.js:147-155 | the fill keeps sortedness, unique dates and the set of months |
| `Aggregate.CurrentPrices` | src/lib/dataUtils.js:94-102 | the snapshot map has every region as a key, each with that region's snapshot |
| `Aggregate.Fallback` | src/lib/dataUtils.js:162-174 | the catch path gives every region the default snapshot and an empty history |
| `Aggregate.EntriesOf` | src/lib/dataUtils.js:74-85 | a history fetch that returned null, a non-array or threw contributes no entries |
| `Aggregate.Recent` | src/lib/dataUtils.js:140-155 | sort, slice and fill keep min(24, n) of the n merged rows |
| `Aggregate.HistoryTable` | src/lib/dataUtils.js:108-160 | building the table throws exactly when some region has a kept entry with a non-string period; otherwise the table has the supplied months, each once, ascending, at most 24 of them; each row gives every region's last price for that month, or 0; a supplied month is missing only when the window is full of later months |
| `Aggregate.ProcessItemData` | src/lib/dataUtils.js:24-175 | the snapshot map always has all five regions; the history has at most 24 rows, each with a price for every region; when merging throws, the result is the catch-path default; otherwise it is each region's snapshot plus the history table above |
| `Aggregate.RecentOrder` | src/lib/dataUtils.js:140-155 | sort, slice and fill give at most 24 rows, ascending, with unique dates |
| `Aggregate.ThrowsIffSomeRegion` | src/lib/dataUtils.js:109-134 | the merge over the region table throws exactly when some region's history has a throwing entry |
| `Aggregate.WindowRows` | src/lib/dataUtils.js:108-155 | each row of the result was supplied by some region, and holds each region's last price for its month, or 0 |
| `Aggregate.WindowInMerged` | src/lib/dataUtils.js:140-141 | each row of the window is a row of the merged table |
| `Aggregate.MergedRowsSupplied` | src/lib/dataUtils.js:108-134 | rows taken from the merged table were supplied by some region |
| `Aggregate.MergedRowsPriced` | src/lib/dataUtils.js:108-155 | rows taken from the merged table, once filled, hold each region's last price for their month, or 0 |
| `Aggregate.FilledRows` | src/lib/dataUtils.js:147-155 | the fill keeps each row's month and gives the filled prices, so supplied, last-price rows stay so |
| `Aggregate.MergedRowSupplied` | src/lib/dataUtils.js:108-134 | every merged row's month was supplied by some region |
| `Aggregate.MergedRowPrice` | src/lib/dataUtils.js:108-155 | a merged row, once filled, holds each region's last price for its month, or 0 |
| `Aggregate.WindowComplete` | src/lib/dataUtils.js:108-155 | a supplied month is missing from the result only when 24 later months fill the window |
| `Aggregate.MergedCoversSupplied` | src/lib/dataUtils.js:108-134 | every month any region supplied has a merged row |
| `Aggregate.WindowKeepsLatest` | src/lib/dataUtils.js:140-141 | a month the slice drops precedes every kept month, and the window is full |
| `Aggregate.DroppedPosition` | src/lib/dataUtils.js:141 | a month absent from the window sits before the window in the sorted table |
| `Aggregate.KeepsLatestFill` | src/lib/dataUtils.js:147-155 | filling keeps the latest-months property |
| `Slug.Slugify` | src/lib/stringUtilities.js:6-13 | the result has only a-z, 0-9 and '-'; it never starts or ends with '-' and never has "--"; removing its '-' gives exactly the input's letters and digits, lower-cased and in order |
| `Slug.SlugifyIdempotent` | src/lib/stringUtilities.js:7-12 | slugifying a slug changes nothing |
| `Slug.SlugIsFixedPoint` | src/lib/stringUtilities.js:7-12 | every string of slug form is its own slug |
| `Slug.NoAlnumsEmptySlug` | src/lib/stringUtilities.js:10-12 | an input with no letters or digits gives "" |
| `Slug.SeparatorRunCollapses` | src/lib/stringUtilities.js:11 | two words joined by any run of whitespace, '_' and '-' become the lower-cased words joined by one '-' ("a _ b" gives "a-b") |
| `Slug.PunctuationDeleted` | src/lib/stringUtilities.js:10 | two words joined by punctuation become the lower-cased words joined by nothing ("a!b" gives "ab") |
| `Slug.Clean` | src/lib/stringUtilities.js:8-10 | after lower-casing, trimming and deleting special characters, no upper-case letter and no special character is left, and the letters and digits are those of the input, lower-cased |
| `Slug.Collapse` | src/lib/stringUtilities.js:11 | the collapsed string has no "--", is empty only for empty input, and starts with '-' exactly when the input starts with a separator |
| `Slug.CollapseAlphabet` | src/lib/stringUtilities.js:11 | collapsing a cleaned string leaves only a-z, 0-9 and '-' |
| `Slug.CollapseAlnums` | src/lib/stringUtilities.js:11 | collapsing keeps every letter and digit, in order |
| `Slug.CollapseKeepsSlug` | src/lib/stringUtilities.js:11 | collapsing a string of slug characters with no "--" changes nothing |
| `Slug.StripSpecial` | src/lib/stringUtilities.js:10 | after the deletion only word characters, whitespace and '-' remain, and a string of those alone is unchanged |
| `Slug.StripSpecialKeeps` | src/lib/stringUtilities.js:10 | the deletion keeps every letter and digit and adds no upper-case letter |
| `Slug.Trim` | src/lib/stringUtilities.js:9 | the trimmed string neither starts nor ends with whitespace |
| `Slug.TrimKeeps` | src/lib/stringUtilities.js:9 | trimming keeps every letter and digit |
| `Slug.StripHyphens` | src/lib/stringUtilities.js:12 | the result neither starts nor ends with '-' |
| `Slug.StripHyphensKeeps` | src/lib/stringUtilities.js:12 | stripping edge hyphens from a collapsed string gives a slug with the same letters and digits |
| `Slug.Strip` | src/lib/stringUtilities.js:12 | stripping a character class leaves neither end in that class |
| `Slug.StripRemovesEnds` | src/lib/stringUtilities.js:12 | only characters of the class are removed, and only at the ends |
| `Slug.StripIdentity` | src/lib/stringUtilities.js:12 | stripping changes nothing when neither end is in the class |
| `Slug.LowerAll` | src/lib/stringUtilities.js:8 | lower-casing maps each character by itself and keeps the length |
| `Slug.Lower` | src/lib/stringUtilities.js:8 | an ASCII upper-case letter becomes its lower-case letter and every other character is kept |
| `Slug.AlnumsOfLower` | src/lib/stringUtilities.js:8 | lower-casing commutes with picking out letters and digits |
| `LlmCache.Get` | src/lib/llmcache.js:11-26 | the lookup is null exactly when the file is missing, unreadable or more than 24 hours old; otherwise it is the stored entry unchanged; it never throws |
| `LlmCache.NewEntry` | src/lib/llmcache.js:41-46 | the entry written holds the current time, the data, the prompt, and the provider, which defaults to "perplexity" |
| `LlmCache.Put` | src/lib/llmcache.js:35-55 | a successful write replaces the key's whole file with the new entry; a write that fails before opening the file changes nothing; one that fails after opening leaves the key's file unreadable; other keys are untouched in every case |
| `LlmCache.PutThenGet` | src/lib/llmcache.js:18-22 | a write read back at most 24 hours later returns exactly what was written |
| `LlmCache.PutThenGetExpired` | src/lib/llmcache.js:18-20 | a write read back more than 24 hours later gives null |
| `LlmCache.PutKeepsOtherKeys` | src/lib/llmcache.js:48-51 | writing one key, however the write ends, changes no lookup of another key |
| `LlmCache.TruncatedWriteLosesEntry` | src/lib/llmcache.js:48-54 | a write that fails after opening the file makes every later lookup of the key null, however fresh the old entry was |
| `LlmCache.PutLookupOutcomes` | src/lib/llmcache.js:11-55 | after a write, however it ends, a lookup of the key gives null, the entry just written, or what it gave before |
| `LlmCache.Expired` | src/lib/llmcache.js:18 | an entry is expired when its timestamp is a number and the clock is more than 24 hours past it; a NaN difference never compares greater |
| `LlmCache.PutOverwrites` | src/lib/llmcache.js:48-51 | the later of two writes to a key wins outright |
| `LlmCache.ExpiryIsStrict` | src/lib/llmcache.js:18 | an entry exactly 24 hours old, or stamped in the future, is still returned |
| `LlmCache.ExpiryIsMonotone` | src/lib/llmcache.js:18-20 | once a lookup is null it stays null as the clock moves on |
| `LlmCache.NaNTimestampNeverExpires` | src/lib/llmcache.js:18 | an entry without a numeric timestamp is returned however late it is read, because a comparison with NaN is false |
| `Items.CatalogueIsConsistent` | src/lib/items.js:15-111 | each item's dataKey is its own key; every key a group lists is an item; no group is named like an inherited property |
| `Items.PriceOf` | src/lib/items.js:118 | the price is present exactly when price data and its current map exist and hold the key, and then it is that entry |
| `Items.GetItemsWithPrices` | src/lib/items.js:114-120 | an unknown group gives []; an inherited property name raises the TypeError; otherwise the list has the group's length and order, and each element is the catalogue item with its price |
| `Items.NoPriceDataNoPrices` | src/lib/items.js:118 | without price data every item's price is undefined |
| `Items.PricedByOwnKey` | src/lib/items.js:118 | each item's price is looked up under its own item key |

## Left out

- The fetch functions live in `src/lib/fetchUtils.js`, which is not part of this model. A fetch result is an input:
  - a latest record, null, or a throw;
  - a history array, null or a non-array, or a throw.
- Running the per-region fetches concurrently with `Promise.all` is not modelled. The per-region results share no state, so `Aggregate.ProcessItemData` takes all five results at once.
- Console logging (`console.warn`, `console.error`) is left out. It has no effect on any result.
- `parseFloat` of a string is the parameter `parse`, and numbers are integers or NaN. Floating point is not modelled.
- A parsed value converted back to text is not modelled: a number's text, as used in the month key and the date label, covers integers only.
- Ordering.SortRows: `new Date(key)` is modelled for ISO "YYYY-MM" keys with month 01-12. Other keys either give NaN or an engine-specific date (some engines read an unpadded "2024-1" as a local-time date). Once any key is unreadable the comparator is inconsistent, and the order is engine-defined for the whole array. The model places unreadable rows first and sorts the rest by month.
- Slug.Lower: lower-casing is modelled for ASCII letters only. `toLowerCase` on other characters is not modelled; for example, the Kelvin sign lowers to an ASCII 'k'.
- LlmCache.Get: the key-to-file mapping through `path.join` is taken to be one file per key. Keys containing path separators or ".." that name the same file are not modelled.
- LlmCache.Put: JSON serialisation is taken to round-trip the entry. Data that `JSON.stringify` changes (undefined fields, dates, functions) is not modelled.
- LlmCache.Get: a cache file holding JSON that is not an entry object, such as a number or an array, is not modelled. The source reads its `timestamp` as undefined and returns the value as it is; the model's file is either unreadable or an entry.
- `src/lib/priceanalysis.js` (prompt templates and the external model call) is not part of this model.
- The React components, `src/lib/pulldata.js` and the site configuration are not part of this model.
- A null element inside a history array behaves like an entry whose fields are all undefined: it is skipped. The model has no separate null element.
- The icon components and colours of the catalogue are display data. They are kept as constants, with nothing proved about them.
