# Accident dashboard: filter and metrics pipeline

A Dafny model of the logic inside a Streamlit dashboard of traffic-accident records
(`app.py`). The dashboard loads the records once, offers three selectors (states, months,
one cause), narrows the records to the selection, and shows three figures: the number of
accidents, the number of deaths, and the death rate in percent. The model covers:

- the **option lists** the selectors offer: the distinct states (`uf`) in ascending string
  order; the distinct months (`mes`) in calendar order, where a month missing from the
  twelve-name calendar `ordem_meses` makes the list construction fail; and the entry `TODAS`
  ("every cause") followed by the distinct causes in ascending string order;
- the **filter step**: start from the full record set and apply, in this order, the state
  mask (only when states are selected), the month mask (only when months are selected) and
  the cause mask (only when the cause is not `TODAS`). An empty selection means "no
  restriction", not "match nothing";
- the **metrics**: record count, sum of `mortos`, and `100 * mortos / count`, exactly 0 when
  there are no records;
- the **page pass** that ties them together: a failed load shows only an error, a month
  outside the calendar stops the pass, otherwise the filtered records and their metrics are
  what the page shows.

Modules, in dependency order:

- `Wrappers` (wrappers.dfy): `Option` and `Result`.
- `Masking` (masking.dfy): `Where`, row selection by a boolean mask (`frame[mask]`). It keeps
  order and multiplicity. It comes with lemmas for subsequence, counts, idempotence and
  commutation.
- `Ordering` (ordering.dfy): `Unique` (a column's `unique()`, in first-appearance order),
  `IndexOf` (a list's `index`), `FirstNotIn`, `LexLess` (Python's code-point string order) and
  an insertion sort `SortBy` (Python's `sorted`), with its sortedness and permutation proofs.
- `Accidents` (accidents.dfy): the `Record` datatype, the `TODAS` sentinel and column
  extraction.
- `FilterOptions` (filter_options.dfy): the three option lists.
- `Filters` (filters.dfy): the `Selection`, the three masks, the reference `Filtered`, and the
  step-by-step `ApplyFilters` method proved equal to it.
- `Metrics` (metrics.dfy): the `Summary` of a record set.
- `Dashboard` (dashboard.dfy): one pass of the script, and three worked examples on a
  two-record data set.

The filter step is a method because the source reassigns a local frame step by step. The
option lists and metrics are functions because the source computes them as single
expressions.

- The selectors return lists (app.py:30, 47), so the model uses sequences and list
  membership.
- A month outside `ordem_meses` makes `ordem_meses.index` raise `ValueError` inside `sorted`
  (app.py:45), and the script stops. `MonthOptions` returns `Failure(month)` and `Render`
  stops with `MonthNotInCalendar`.

## Model

| member | source | states |
|---|---|---|
| `Masking.Where` | app.py:66-74 | masking returns at most as many rows, and a row is in the result exactly when it is in the input and passes the mask |
| `Masking.WhereIsSubsequence` | app.py:66-74 | masking keeps the original row order: the result is a subsequence of the input |
| `Masking.WhereCount` | app.py:66-74 | masking keeps every passing row as often as it occurs and no failing row |
| `Masking.WhereKeepsAll` | app.py:66-74 | a mask changes nothing exactly when every row passes it |
| `Masking.WhereWhere` | app.py:66-74 | masking twice equals masking once with the conjunction of the two masks |
| `Masking.WhereIdempotent` | app.py:66-74 | applying the same mask twice equals applying it once |
| `Masking.WhereCommutes` | app.py:66-74 | two masks give the same rows in either order |
| `Ordering.Unique` | app.py:29 | `unique()` returns each value of the column exactly once, and only values of the column |
| `Ordering.UniqueInFirstAppearanceOrder` | app.py:42 | `unique()` lists values in the order in which they first appear in the column |
| `Ordering.IndexOf` | app.py:45 | `index` gives the first position holding the value, and reports a value that is absent |
| `Ordering.FirstNotIn` | app.py:45 | the first value of the list that is absent from the reference list, or none exactly when every value is present |
| `Ordering.FirstNotInRowOrder` | app.py:42-45 | the first distinct value whose lookup fails is the value of the first row that is missing from the reference list |
| `Ordering.LexLess` | app.py:29 | Python's code-point string order: `a` is below `b` exactly when, at the first position where they differ, `a` has ended (a proper prefix comes first) or holds the smaller character |
| `Ordering.LexLessTransitive` | app.py:29 | string order is transitive |
| `Ordering.LexLessTotal` | app.py:29 | any two different strings are ordered one way or the other |
| `Ordering.LexLessAsymmetric` | app.py:29 | string order never holds in both directions |
| `Ordering.StringOrder` | app.py:29 | string order is a strict total order, which is what sorting needs |
| `Ordering.SortBy` | app.py:29 | sorting is a permutation of its input |
| `Ordering.SortBySorted` | app.py:29 | sorting distinct, totally ordered values gives a strictly increasing list of the same values |
| `Ordering.SortedUnique` | app.py:45 | two strictly increasing lists with the same elements are equal |
| `Ordering.WhereSorted` | app.py:38-45 | striking elements out of a sorted list leaves it sorted |
| `Accidents.Column` | app.py:29 | a column holds each record's field in row order, and a value is in it exactly when some record has that value |
| `FilterOptions.SortedValues` | app.py:29 | `sorted(column.unique())` is strictly increasing, has no repeats, and holds exactly the column's values |
| `FilterOptions.RegionOptions` | app.py:29 | the state list is strictly increasing, and a state is on it exactly when some record has it |
| `FilterOptions.MonthIndex` | app.py:38-45 | a month's key is its calendar position (0 to 11), and a name outside the calendar is reported |
| `FilterOptions.MonthOrder` | app.py:45 | calendar order is a strict order that orders any two different calendar months |
| `FilterOptions.MonthOptions` | app.py:38-45 | the month list fails exactly when some record's month is outside the calendar, naming such a month; otherwise it is strictly in calendar order and holds exactly the data's months |
| `FilterOptions.CalendarOrderSorts` | app.py:45 | sorting distinct calendar months by position gives each once, in calendar order |
| `FilterOptions.CalendarSorted` | app.py:38-39 | the calendar names twelve different months, each at its own position |
| `FilterOptions.MonthOptionsFollowCalendar` | app.py:38-45 | the month list equals the calendar with the months absent from the data struck out |
| `FilterOptions.MonthFailureNamesFirstUnknownRecord` | app.py:42-45 | a failing month list names the month of the first record whose month is outside the calendar |
| `FilterOptions.CauseOptions` | app.py:54 | the cause list starts with `TODAS`; the rest is strictly increasing and holds exactly the data's causes |
| `Filters.ActiveMasks` | app.py:65-74 | the state mask is switched on exactly when states are selected, the month mask exactly when months are selected, and the cause mask exactly when the cause is not `TODAS`; no other mask, at most three |
| `Filters.Matches` | app.py:65-74 | an empty selection with `TODAS` matches every record, and a record whose state, month and cause are all selected matches |
| `Filters.Apply` | app.py:66-74 | applying one mask keeps exactly the records that pass it |
| `Filters.Filtered` | app.py:62-74 | at most as many records as the input; every result record is an input record that meets each active condition; every input record meeting them all is in the result |
| `Filters.ApplyAllThenApply` | app.py:65-74 | applying one more mask filters the previous result once more |
| `Filters.ApplyAllIsConjunction` | app.py:65-74 | applying masks one after another keeps exactly the records that pass all of them |
| `Filters.MatchesIffActiveMasksHold` | app.py:65-74 | a record meets the selection exactly when it passes every mask the selection switches on |
| `Filters.FilteredByActiveMasks` | app.py:65-74 | the active masks, applied in source order, give the reference result |
| `Filters.MaskOrderIrrelevant` | app.py:65-74 | two mask lists with the same members give the same records, whatever their order or repetitions |
| `Filters.FilterOrderIrrelevant` | app.py:65-74 | the state, month and cause masks in any order give the reference result |
| `Filters.ApplyFilters` | app.py:62-74 | the step-by-step filter equals the reference `Filtered` |
| `Filters.NoSelectionKeepsAll` | app.py:64-74 | no states, no months and `TODAS` return the record set unchanged |
| `Filters.CoveringSelectionIsNoRestriction` | app.py:65-71 | selecting every state and month that occurs filters like selecting none |
| `Filters.FilteredExactly` | app.py:62-74 | the result is the input with the non-matching records deleted: same order, each matching record as often as in the input |
| `Filters.FilteredIdempotent` | app.py:65-74 | filtering the result again with the same selection changes nothing |
| `Filters.EmptySelectionWidens` | app.py:64-71 | clearing the state or the month selection never loses a record, and clearing both keeps every record that clearing either one keeps |
| `Metrics.SumMortos` | app.py:85 | the `mortos` sum is at least the deaths of any single record |
| `Metrics.SumMortosZero` | app.py:85 | the `mortos` sum is 0 exactly when no record has a death |
| `Metrics.FatalityRate` | app.py:86 | the rate is never negative, is exactly 0 for no accidents, and otherwise rate times accidents equals 100 times deaths |
| `Metrics.Summarize` | app.py:84-86 | the count is the number of records, the deaths are the `mortos` sum, an empty set gives (0, 0, 0), otherwise rate times count equals 100 times deaths |
| `Metrics.SumMortosSplits` | app.py:85 | the deaths of the kept rows plus those of the dropped rows are all the deaths |
| `Metrics.SumMortosAtMost` | app.py:85 | with at most `k` deaths per record, the death sum is at most `k` times the record count |
| `Metrics.RateBounded` | app.py:86 | with at most `k` deaths per record, the rate is at most `100 * k` percent |
| `Metrics.FatalityRateAtMost` | app.py:86 | a death count of at most `k` per accident gives a rate of at most `100 * k` percent |
| `Metrics.FilteringNeverIncreasesTotals` | app.py:62-85 | the filtered count and death sum never exceed those of the full set |
| `Dashboard.Render` | app.py:19-112 | a missing data set shows only the error; an unknown month stops the pass; otherwise the page holds the three option lists, the filtered records and their metrics |
| `Dashboard.SelectingAllOptionsIsNoRestriction` | app.py:29-71 | selecting every state and month on offer filters like an empty selection |
| `Dashboard.DefaultSelectionShowsAll` | app.py:29-86 | the default selection (all states, all months, first cause entry `TODAS`) keeps every record and shows the metrics of the full set |
| `Dashboard.SampleOnlySP` | app.py:62-86 | selecting SP in the two-record example keeps the SP record: count 1, deaths 1, rate 100 |
| `Dashboard.SampleNoSelection` | app.py:62-86 | selecting nothing in the two-record example keeps both: count 2, deaths 1, rate 50 |
| `Dashboard.SampleNoMatch` | app.py:62-86 | selecting a month absent from the two-record example keeps nothing: count 0, deaths 0, rate 0 |

## Left out

- The Streamlit page calls (page configuration, sidebar header, widgets, title, markdown,
  columns, `metric`, `error`). They are UI plumbing. The widgets' values come in as the
  `Selection` parameter of `Render`.
- That the widgets only let the user pick listed options is not modelled. `Render` accepts
  any selection, and the filter lemmas hold for every selection.
- Loading the data (`carregar_dados`, in `data_processing`) is not part of this model. Its
  outcome comes in as an `Option` of records, and `None` is the load failure.
- The charts and the detail table (`plotar_mapa`, `plotar_acidentes_por_hora`,
  `plotar_top_causas`, `exibir_dados_detalhados`, in `visualizations`) are not part of this
  model. The `View` holds the records they would be given.
- Logging is left out because it is observability only.
- Display formatting is left out: thousands separators, `,` replaced by `.`, and two-decimal
  rounding of the rate.
- Metrics.SumMortos: `df['mortos'].sum()` returns a fixed-width NumPy integer, while the model
  sums into an unbounded `nat`. No realistic death count comes near the 64-bit limit, so the
  model does not capture overflow.
- Metrics.FatalityRate: the rate is an exact real, not a binary float, so the model does not
  capture float rounding.
- Dataframe copies and views are modelled as immutable sequences.
- Record columns other than `uf`, `mes`, `causa_acidente` and `mortos` are left out because the
  core does not read them.
- Missing values (NaN) in a column are left out, as are non-string state or cause values and
  non-integer `mortos`. A record's fields are strings and a natural number.
- Python's `sorted` is modelled by an insertion sort. For the distinct values sorted here, the
  result is determined by the order alone.
- A data cause spelled exactly `TODAS` would appear twice in the cause list. Choosing it would
  mean "every cause", so such records cannot be isolated by cause. The model reproduces this
  and asserts nothing beyond it.
