# Inventory dashboard core, modelled in Dafny

This project models the data core of `app.js`, a browser dashboard for
inventory held across several warehouses. The user loads a master table with
one row per SKU (`Codigo`, `desc_prod`) and, for each warehouse `W`, five
columns: `Inv-W`, `Clasificacion-W`, `Promedio Vta Mes-W`, `Cobertura (Mes)-W`
and `Cobertura Dias (30) -W`. The dashboard:

- parses the table (`splitCSVLine`, `parseCSV`);
- trims the column names (`normalizeColumns`);
- finds the warehouses and checks the required columns (`detectWarehouses`,
  `validateMaster`, `colMap`);
- coerces the cells (`coerceTypes`, `safeNum`);
- computes per-warehouse and global statistics (`computeSummaryByWarehouse`,
  `computeGlobalSummary`, `median`);
- shows a filtered and sorted detail view (`getViewColumns`, `applyFilters`,
  `sortRows`) with its indicators (`updateDetailKPIs`), a coverage histogram,
  two top-15 lists and a CSV export.

A SKU is "at risk" when its coverage is strictly between 0 and 15 days
(`TH_RISK`). It is "overstocked" above 60 days (`TH_OVER`).

Modules, one file each:

| module | file | models |
|---|---|---|
| `Wrappers` | `wrappers.dfy` | `Option`, `Result` |
| `JsValues` | `js_values.dfy` | cell values, `Number(x)`, `safeNum`, `String(x ?? "")` |
| `JsText` | `js_text.dfy` | `trim`, `startsWith`, `join`, `split` on one character |
| `Seqs` | `seqs.dfy` | `filter`, `filter(...).length`, `reduce` sums, subsequences |
| `Sorting` | `sorting.dfy` | `Array.prototype.sort` as a stable insertion sort |
| `Rows` | `rows.dfy` | a row as a JavaScript object: ordered keys plus a map |
| `Median` | `median.dfy` | `median` |
| `Schema` | `schema.dfy` | `colMap`, `normalizeColumns`, `detectWarehouses`, `validateMaster` |
| `Csv` | `csv.dfy` | `splitCSVLine`, `parseCSV`, the export's field encoding |
| `Coerce` | `coerce.dfy` | `coerceTypes` |
| `Summary` | `summary.dfy` | `computeSummaryByWarehouse`, `computeGlobalSummary`, `updateDetailKPIs` |
| `DetailView` | `detail_view.dfy` | `getViewColumns`, `applyFilters`, `sortRows` |
| `Charts` | `charts.dfy` | the histogram counts and the two top-15 lists of `renderHist` / `renderTopLists` |
| `Export` | `export.dfy` | the lines of `exportViewToCSV` |

Where the code changes state step by step, the model is a `method` with a
loop, proved against a function that specifies it:

- the character loop of `splitCSVLine`;
- the line loop and the `forEach` of `parseCSV`;
- the row and warehouse loops of `coerceTypes`;
- the warehouse loops of both summaries;
- the histogram's counting loop, over an `array`;
- the export's line loop.

Expression-style code (`filter`, `map`, `reduce`, `sort`) is modelled as
functions.

The browser's global state becomes parameters: `MASTER`, `WAREHOUSES`,
`MONTHS_USED`, the widget values and `sortKey`/`sortDir`.

The host functions whose exact behaviour is not modelled are fields of a
`Runtime` value passed in. They are number parsing (`Number(s)` on text),
number printing, `toLowerCase` and `localeCompare`.

### Behaviour of the code worth noting

- A blank classification stays `""`; no default class is filled in
  (app.js:251).
- Rows with an empty `Codigo` are kept (app.js:242).
- The median coverage is taken over coverages `>= 0`, so an all-zero column
  has median 0, not `null` (app.js:284, app.js:735).
- The global risk and overstock percentages are pooled over all
  SKU × warehouse pairs: risk pairs divided by `MASTER.length * WAREHOUSES.length`
  (app.js:338, app.js:348-349).
- The global coverage is the pooled ratio `invAll / (promAll / 30)`
  (app.js:340).
- `computeGlobalSummary` ignores its argument and recomputes everything from
  the rows (app.js:321-336).

### Consequences of the code that the proofs make explicit

- `Export.HeaderWithCommaMisread`: the export header is joined without
  encoding. A warehouse name containing a comma makes the header read back as
  different fields.
- `Csv.QuoteWithoutCommaIsLost`: a field holding a quote but no comma or
  newline is exported unwrapped, as `a""b`. The splitter reads that back as
  `ab`.
- `Csv.WrappedNewlineBreaksLine`: a cell holding a newline is wrapped in
  quotes on export, but `parseCSV` cuts the text at every newline before it
  looks at quotes, so such a record is read back as two lines.
- `Charts.BucketOfNone`: coverages in the gaps between the histogram's bars
  (for example 15.000001) are counted in no bar. So are negative coverages.

## Model

| member | source | states |
|---|---|---|
| JsValues.SafeNum | app.js:125-128 | the number `Number(v)` gives when it is finite, 0 for NaN and ±Infinity |
| JsValues.SafeNumIdempotent | app.js:125-128 | applying `safeNum` to its own result changes nothing |
| JsValues.NullishToStr | app.js:242 | `String(v ?? "")` is "" for null and undefined and the text itself for text |
| JsText.TrimIdempotent | app.js:158 | trimming twice is trimming once |
| JsText.TrimEmptyIff | app.js:185 | `l.trim().length` is 0 exactly when every character of `l` is whitespace |
| JsText.SplitOnJoin | app.js:847 | joining comma-free parts with "," and splitting again gives the parts back |
| Median.FiniteValues | app.js:131 | keeps exactly the finite numbers of the input |
| Median.Median | app.js:130-135 | `null` exactly when the input has no finite number |
| Median.AscendingSorted | app.js:131 | the finite values are sorted ascending |
| Median.FiniteValuesPermutation | app.js:131 | reordering the input reorders the finite values |
| Median.MedianPermutation | app.js:130-135 | the median does not depend on the order of the input |
| Median.MedianBetween | app.js:130-135 | the median lies between some finite input value below it and some above it |
| Median.MiddleBetween | app.js:132-134 | the middle of a sorted list lies between its first and last elements |
| Median.MedianOfAscending | app.js:132-134 | for ascending input: the middle element for an odd count, the mean of the two middle ones for an even count |
| Median.AscendingOfFinites | app.js:131 | sorting numbers that are already ascending changes nothing |
| Sorting.SortBy | app.js:131 | the sorted array is a permutation of the input |
| Sorting.SortBySorted | app.js:131 | with a consistent comparator the result is sorted |
| Sorting.SortedRealsUnique | app.js:131 | two ascending arrays with the same elements are equal, so any correct numeric sort gives this result |
| Rows.Row.Set | app.js:192 | `obj[k] = v` stores `v`, keeps the position of an existing key and appends a new key last |
| Rows.FromPairsLastWins | app.js:192 | when a header name repeats, the last assignment wins |
| Rows.FromPairsDistinctKeys | app.js:191-192 | with distinct names the object lists its keys in assignment order |
| Schema.ColMap | app.js:145-153 | `Object.values(colMap(wh))` lists the inventory, classification, sales, month-coverage and day-coverage columns of `wh`, in that order |
| Schema.PrefixesDisjoint | app.js:147-151 | no column prefix starts another warehouse column |
| Schema.ParseColumnName | app.js:145-153 | a warehouse column name reads back as its field and warehouse |
| Schema.ColumnNameOfParse | app.js:145-153 | a name that reads back as a field and warehouse is that field's column |
| Schema.ColumnNameInjective | app.js:145-153 | distinct (field, warehouse) pairs name distinct columns |
| Schema.NormalizeColumns | app.js:155-161 | one output row per input row |
| Schema.NormalizeRowKeys | app.js:155-161 | the output keys are exactly the trimmed input keys, each listed once and trimmed |
| Schema.NormalizeRowCell | app.js:158 | the value under a trimmed key is the input's value under the last key that trims to it |
| Schema.NormalizeRowOfTrimmed | app.js:155-161 | a row whose keys are already trimmed is left unchanged |
| Schema.NormalizeRowIdempotent | app.js:155-161 | normalising twice is normalising once |
| Schema.InventorySuffixesMembership | app.js:208-209 | a suffix is collected exactly when some `Inv-` column carries it |
| Schema.WarehousesOfMembership | app.js:205-210 | a warehouse is detected exactly when some `Inv-` column's suffix trims to it |
| Schema.WarehousesAreTrimmed | app.js:209 | every detected warehouse name is trimmed |
| Schema.InventorySuffixesOfLayout | app.js:208-209 | a header laid out for some names carries those names, in order, as its `Inv-` suffixes |
| Schema.WarehousesOfLayout | app.js:205-210 | a header laid out for trimmed names detects exactly those names, in order |
| Schema.FirstMissing | app.js:225-227 | nothing is missing exactly when every column of the list is present; otherwise the result is the first listed column, in order, that is absent |
| Schema.FirstMissingColumn | app.js:223-228 | nothing is missing exactly when every column of every warehouse is present; otherwise the result is the first warehouse, in order, that lacks a column, with the first of its `colMap` columns that is absent, every earlier warehouse having all its columns |
| Schema.ValidateMaster | app.js:212-231 | accepted exactly when the table is acceptable, returning the detected warehouses; each error exactly when its check is the first to fail, in the source's order; a missing warehouse column names the first warehouse and its first absent column |
| Schema.ValidateLayout | app.js:212-231 | a header with `Codigo`, `desc_prod` and the five columns of each trimmed warehouse is accepted with those warehouses |
| Schema.LayoutAcceptable | app.js:212-231 | such a header meets every requirement and detects exactly its warehouses |
| Csv.SplitCSVLine | app.js:164-182 | the character loop computes `SplitLine` |
| Csv.SplitLineFieldCount | app.js:164-182 | a line has one more field than it has commas outside quotes |
| Csv.ScanLength | app.js:168-180 | the scan adds one field per comma outside quotes, plus the last field |
| Csv.SplitLineWithoutQuotes | app.js:164-182 | on a line without quotes the splitter is `line.split(",")` |
| Csv.SplitDoubledQuote | app.js:170-172 | `a""b` reads as the single field `ab` |
| Csv.SplitLines | app.js:185 | `text.split(/\r?\n/)`: one line more than the text has newlines, and no line holds a newline |
| Csv.SplitLinesJoin | app.js:185 | for text without carriage returns, joining the lines with "\n" gives the text back |
| Csv.SplitLinesCRLF | app.js:185 | a text whose lines end in "\r\n" reads back as exactly its lines, the `\r` going with each newline |
| Csv.WrappedNewlineBreaksLine | app.js:185 | the cell `a`, newline, `b` is exported wrapped in quotes, and the parser reads that text as the two lines `"a` and `b"` |
| Csv.HeaderPairs | app.js:192 | the assignment for header `i` stores `vals[i]`, or "" past the end of `vals` |
| Csv.FillRow | app.js:191-192 | the `forEach` builds `BuildRow(headers, vals)` |
| Csv.ParseDataLines | app.js:189-194 | the line loop gives one row per data line, in order |
| Csv.ParseLines | app.js:187-195 | trimmed header names, then one row per later line |
| Csv.ParseCSV | app.js:184-196 | the method computes `ParsedRows(text)` |
| Csv.BuildRowKeys | app.js:191-192 | a parsed row has exactly the header names as keys, each once |
| Csv.BuildRowCell | app.js:192 | under the last occurrence of a header name is that column's text, or "" for a short line |
| Csv.BuildRowKeyOrder | app.js:191-192 | with distinct header names the row lists its keys in header order |
| Csv.ParsedRowsShape | app.js:184-196 | no non-blank line gives `[]`; otherwise one row per line after the header, each keyed by exactly the header names |
| Csv.ParseEmpty | app.js:185-186 | empty text parses to no rows |
| Csv.DoubleQuotes | app.js:853 | `replace(/"/g, '""')` adds one character per quote and no new characters |
| Csv.DoubleQuotesRoundTrip | app.js:853 | collapsing each `""` undoes the doubling, and the number of quotes doubles |
| Csv.EncodeFieldWrapping | app.js:853-854 | a field is wrapped in quotes exactly when it holds a comma or a newline |
| Csv.ScanEncodedField | app.js:853-854 | an encoded field followed by a comma or the end of the line reads back as the field |
| Csv.ScanJoinEncoded | app.js:856 | scanning an encoded line appends its fields to those already read |
| Csv.SplitLineOfEncodedFields | app.js:850-856 | an exported row line splits back into its fields when each is wrapped or quote-free |
| Csv.EncodeQuotedLetter | app.js:853-854 | `a"b` is exported as `a""b`, unwrapped |
| Csv.QuoteWithoutCommaIsLost | app.js:853-854 | the exported `a"b` reads back as `ab` |
| Coerce.TextCell | app.js:242-243 | `String(v ?? "").trim()` is trimmed text |
| Coerce.NumberCell | app.js:247-250 | `safeNum` stores a number whose conversion is finite |
| Coerce.CoerceCellIdempotent | app.js:242-251 | coercing a coerced cell again changes nothing |
| Coerce.MonthsUsed | app.js:236-239 | `null` exactly when `MesesUsados` is missing or coerces to 0; otherwise its `safeNum` |
| Coerce.CoerceRowFields | app.js:241-253 | the body of the row loop computes `CoerceRow` |
| Coerce.CoerceTypes | app.js:233-255 | every row coerced and `MONTHS_USED` read from the first row; the input is not changed |
| Coerce.CoerceFieldsGet | app.js:246-251 | assigning distinct fields changes exactly their columns |
| Coerce.CoerceWarehouseGet | app.js:246-251 | one warehouse's assignments change exactly its five columns |
| Coerce.CoerceWarehousesGet | app.js:245-252 | the warehouse loop coerces a column exactly when its warehouse is listed |
| Coerce.CoerceRowGet | app.js:241-253 | each cell of a coerced row in terms of the original cell |
| Coerce.CoercedRowShape | app.js:233-255 | `Codigo`, `desc_prod` and each classification are trimmed text; the other four warehouse columns are `safeNum` numbers; every other key keeps its value |
| Coerce.FixedColumnNames | app.js:242-251 | no warehouse column is called `Codigo` or `desc_prod` |
| Coerce.CoerceRowIdempotent | app.js:241-253 | coercing a coerced row again changes no cell |
| Summary.CoverageDaysMembership | app.js:284 | the kept coverages are exactly the non-negative `safeNum` coverages of the rows |
| Summary.CoverageMedianRange | app.js:284-285 | the median coverage is missing exactly when no coverage is `>= 0`, and is never negative |
| Summary.ComputeSummaryByWarehouse | app.js:269-319 | one summary per listed warehouse, keyed by its name and equal to `Summarize` |
| Summary.SummaryBounds | app.js:272-290 | class counts, risk + overstock counts and idle stock fit in the SKU count |
| Summary.SummaryStockBands | app.js:293-302 | with no negative stock, stock at risk plus stock in overstock is at most the total stock |
| Summary.SummaryContributes | app.js:329-335 | a warehouse summary holds what that warehouse adds to the global totals |
| Summary.TotalsOfSummaries | app.js:321-336 | the global totals equal the per-warehouse summaries added up, so the ignored argument would give the same numbers |
| Summary.ComputeGlobalSummary | app.js:321-352 | the warehouse loop computes `GlobalOf` |
| Summary.GlobalOf | app.js:338-349 | coverage is `null` exactly when `promAll <= 0`; with no rows or no warehouses both percentages are 0 |
| Summary.PooledDays | app.js:340 | `null` exactly when there are no positive sales |
| Summary.PooledDaysScale | app.js:340 | days of coverage × monthly sales = 30 × stock |
| Summary.TotalsPairsBound | app.js:329-338 | risk pairs + overstock pairs, and idle pairs, fit in SKUs × warehouses |
| Summary.ShareBounds | app.js:348-349 | two shares of counts fitting in a total are fractions adding up to at most 1 |
| Summary.GlobalShares | app.js:338-349 | the global risk and overstock percentages are in [0, 1] and add up to at most 1 |
| Summary.DetailKpisOfView | app.js:728-766 | the indicators of a subsequence of the rows never exceed the warehouse summary; risk and overstock shares add up to at most 1 |
| DetailView.ViewColumnKeys | app.js:604-615 | the view shows `Codigo`, `desc_prod`, then the five `colMap` columns of the warehouse |
| DetailView.ViewColumnLabels | app.js:606-614 | every header label is the column's key |
| DetailView.ViewKeysParse | app.js:605-614 | the fixed keys name no warehouse field; the others name their field of the warehouse |
| DetailView.ViewColumnKeysDistinct | app.js:606-614 | no column appears twice |
| DetailView.ViewColumnKinds | app.js:606-614 | the two fixed columns and the classification are text; the other four are numbers |
| DetailView.Bound | app.js:624-625 | an empty input is no bound |
| DetailView.ApplyFilters | app.js:617-658 | the view keeps rows in order; a row is in it exactly when it passes every check, as often as it occurs in the input, so its length is the number of passing rows |
| DetailView.NoWarehouseNoRows | app.js:631 | without a selected warehouse the view is empty |
| DetailView.NoFiltersKeepsAll | app.js:630-657 | with a warehouse and every other control at rest, the view is all rows |
| DetailView.KeptRowsPassChecks | app.js:630-657 | every kept row passes the class, search, stock, coverage-range and toggle checks, and no bound is +Infinity for the minimum or -Infinity for the maximum |
| DetailView.PassingRowsAreKept | app.js:630-657 | a row that passes every check is kept |
| DetailView.UnreadableBoundIgnored | app.js:624 | a minimum that parses to NaN filters nothing |
| DetailView.ExclusiveToggles | app.js:647-654 | both stock toggles on show no row |
| DetailView.TighterFiltersNarrow | app.js:630-657 | choosing a class or switching a toggle on only removes rows |
| DetailView.FilteredKpisBounded | app.js:617-658 | the indicators of any filtered view stay within the warehouse summary |
| DetailView.FindColumn | app.js:662 | `find` returns the first column with the key, or nothing when none has it |
| DetailView.Direction | app.js:665 | the direction is 1 or -1 |
| DetailView.SortRows | app.js:660-676 | a permutation of the rows; the rows unchanged when there is no sort key or no column has it |
| DetailView.NumericPrecedesPreorder | app.js:671 | the numeric comparator is consistent in both directions |
| DetailView.SortRowsNumeric | app.js:660-676 | on a numeric column the rows are in ascending `safeNum` order for "asc", descending otherwise |
| DetailView.SortRowsText | app.js:660-676 | on a text column, with a consistent collation, the rows follow `localeCompare` ascending or descending |
| Charts.FirstBucket | app.js:783-789 | the first bar from the given one whose range holds the value, or none |
| Charts.BucketsDisjoint | app.js:772-778 | no value lies in two bars |
| Charts.BucketOfIff | app.js:772-789 | a value is counted in bar `k` exactly when bar `k`'s range holds it |
| Charts.BucketOfNone | app.js:772-789 | a value is counted nowhere exactly when it is negative or lies in one of the four gaps between bars |
| Charts.TallyCounts | app.js:779-790 | each bar counts exactly the rows whose coverage lies in its range |
| Charts.TallyTotal | app.js:779-790 | the five counts plus the rows in no bar add up to the number of rows |
| Charts.RiskInFirstBar | app.js:773 | every SKU at risk is counted in the first bar |
| Charts.UpperBarsOverstocked | app.js:776-777 | the two upper bars count only overstocked SKUs |
| Charts.BucketCounts | app.js:779-790 | the loop over the rows fills a fresh array with `Tally` |
| Charts.AddToBar | app.js:783-789 | the inner loop adds one to the first matching bar and changes nothing else |
| Charts.TakeTop | app.js:818 | `slice(0, 15)`: the first min(15, n) elements |
| Charts.CoverageOrdersArePreorders | app.js:817 | both coverage comparators are consistent |
| Charts.TopOfSorted | app.js:814-824 | the first 15 of a sorted array are sorted, come from the input, and precede everything left out |
| Charts.TopOverstockRows | app.js:814-818 | the overstock list has min(15, rows with stock) rows of the view, all with stock |
| Charts.TopOverstockOrder | app.js:814-818 | the overstock list is in descending coverage, and no stocked row left out has a higher coverage than a listed one |
| Charts.TopRiskRows | app.js:821-824 | the risk list has min(15, rows) rows of the view |
| Charts.TopRiskOrder | app.js:821-824 | the risk list is in ascending coverage, and no row left out has a lower coverage than a listed one |
| Export.CellTexts | app.js:850-852 | one text per column, `String(val)` with null and undefined as "" |
| Export.ExportLines | app.js:846-857 | one header line plus one line per row |
| Export.PushLines | app.js:846-857 | the loop pushes the header line and then each row's line |
| Export.ExportViewLines | app.js:842-857 | the export of the warehouse's view is `ExportLines` over its seven columns |
| Export.LabelSpecials | app.js:846 | the fixed labels hold no comma or quote; a warehouse label holds one exactly when the warehouse name does |
| Export.HeaderQuotes | app.js:846-847 | the header holds no quote when the warehouse name holds none |
| Export.HeaderRoundTrip | app.js:846-847 | for a name without commas or quotes, the header splits back into the labels, which are the keys |
| Export.HeaderWithCommaMisread | app.js:846-847 | a name with a comma (and no quote) makes the header split into other fields than the labels |
| Export.RowRoundTrip | app.js:849-857 | each row line splits back into the row's cell texts when each is wrapped or quote-free |

## Left out

- Rendering is not modelled: the DOM, Chart.js, `renderSummary`, `renderTable`, the insights bullets, `pct`, `fmtNum`, `heatAlpha`, `debounce` and the event handlers. They only display results.
- `parseXLSX` is not modelled. The spreadsheet library is not part of this model. XLSX cells that are booleans or dates are therefore not modelled either.
- File reading, the `Blob` download and the asynchronous load flow are not modelled. `ParseCSV` takes the text and `ExportText` gives the text.
- `Number(s)` on text, `String(n)` on a number, `toLowerCase` and `localeCompare` are fields of `Runtime` without a model of their behaviour. Their semantics are host and locale specific.
- JavaScript numbers are modelled as exact reals plus NaN and ±Infinity. Sums, the median's mean and the percentages are exact, with no floating-point rounding.
- Strings are sequences of `char`. UTF-16 surrogate pairs and Unicode case folding are not modelled.
- JavaScript's ordering of integer-like object keys ahead of the others is not modelled. A row's keys keep plain insertion order.
- `Sorting.SortBy`: `Array.prototype.sort` is modelled as a stable insertion sort. For a consistent comparator any correct stable sort gives the same result (for numbers, `Sorting.SortedRealsUnique`). The order produced by an inconsistent comparator is implementation-defined and not modelled.
- `DetailView.SortRowsText` requires a consistent collation (`ConsistentCollation`). Nothing is stated about a `localeCompare` that is not one.
- Rows are values. The copies `coerceTypes` and `sortRows` make are just the value itself. Aliasing between the master table and a view is not modelled.
- `Charts.AddToBar` stops its loop with `return` where the source uses `break`. Nothing follows the loop, so the effect is the same.
- `DetailView.ViewColumns`: its own contract gives only the number of columns. The layout is stated by `ViewColumnKeys`, `ViewColumnLabels`, `ViewColumnKinds` and `ViewColumnKeysDistinct`.
- `Coerce.CoerceTypes` requires a non-empty table. For an empty table the source throws a `TypeError` at `"MesesUsados" in out[0]` (app.js:237), and `validateMaster` rejects an empty table before `coerceTypes` is called (app.js:213, app.js:914-917).
- `Export.RowRoundTrip` is stated line by line, with `SplitLine`. A cell holding a newline passes its `Recoverable` condition, but the export text as a whole does not read back through `parseCSV`, which splits at newlines first (`Csv.WrappedNewlineBreaksLine`).
