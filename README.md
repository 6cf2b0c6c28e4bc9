# Used-car sales dashboard: the row-selection pipeline

The dashboard is a single Streamlit script, `app.py`. It loads a table of used-vehicle listings and
lets the analyst pick one vehicle type (or the sentinel `"All"`) and any set of vehicle conditions,
then draws four charts. This project models the part of the script that decides which rows reach
the charts, and proves properties about it:

- the option lists of the two sidebar selectors, and the default condition selection;
- the type filter and the condition filter, which together narrow the table to the *working subset*;
- the four *bounded views*: the working subset cut down by each chart's fixed ceilings.

A row is a `Listings.Listing` with the six columns the script reads. A missing cell (pandas NaN) is
`None`, and numeric cells are whole numbers. The pandas operations the script uses are modelled with
pandas' own treatment of NaN (`Series`): a comparison with NaN is false, and `isin` never matches NaN.
`df[mask]` is `Frames.Select`, an order-preserving filter. `Frames.ExactlyWhere(r, s, p)` says that
`r` is a subsequence of `s` containing each row satisfying `p` exactly as often as `s` does, and no
other row. `Frames.ExactlyWhereIsSelect` shows that this pins `r` down completely. Every view is
specified that way, against a predicate that states the chart's bounds directly: a kept row meets
them and no row that meets them is dropped. Python's string order and `sorted` are in `StringOrder`.

`Dashboard.Run` is one pass of the script. It narrows `df` by rebinding, as the script does, and
returns the option lists, the selection in force, the working subset and the four views. Every step
is a function of the table and the two selector values, so the same inputs always give the same
views. No step changes a row: each view is a subsequence of the loaded table. For the model-year
chart, the cast changes only the year, and only from "present" to `int`.

Points where the script's behaviour is easy to misread:

- The `type` column may be NaN: the `dropna` at app.py:37 leaves such rows out of the options. So
  "All" equals the union of the per-type subsets only over rows that have a type. Rows without a
  type show under "All" but under no single type. `Dashboard.AllIsUnionOfTypes` states this.
- No chart drops nulls before its ceilings. The ceilings are applied as masks, and only the
  model-year chart calls `dropna`, afterwards. Because a NaN fails every comparison, dropping
  nulls first would give the same rows. `Dashboard.YearDropNaRemovesNothing` and
  `Dashboard.ConditionNotNaIsRedundant` show that the `dropna` and the two `notna` tests remove
  nothing.
- The condition selection is not checked against the offered conditions: the filter at app.py:50
  accepts any list. Only the default selection is proved to be drawn from the type-filtered rows.
- If some listing has the literal type `"All"`, the type options contain `"All"` twice, and both
  entries turn the type filter off. `Dashboard.TypeOptionsRepeatNothing` shows that the options
  are free of repeats exactly when no listing has that type.

## Model

| member | source | states |
|---|---|---|
| `StringOrder.Sort` | app.py:37 | `sorted` on strings: the result is in ascending Python string order and is a permutation of its input |
| `Series.DropNa` | app.py:37 | `dropna` on a column: a value is kept exactly when it occurs as a present cell, and nothing is added |
| `Series.Unique` | app.py:37 | `unique`: each value of the input occurs exactly once and no other value occurs |
| `Series.SortedUnique` | app.py:46 | `sorted(col.dropna().unique())`: strictly ascending (so no repeats), and it holds exactly the present values of the column |
| `Frames.Select` | app.py:41 | boolean masking keeps every row whose mask is true and no other, each as often as before, in table order |
| `Frames.ExactlyWhereIsSelect` | app.py:50 | a subsequence holding exactly the rows that meet a mask, with their counts, can only be the masked frame |
| `Dashboard.TypeOptions` | app.py:37 | the type options are `"All"` followed by every type that occurs in the table, ascending, each once, and no other value |
| `Dashboard.TypeOptionsRepeatNothing` | app.py:37 | the type options have no repeated entry if and only if no listing has the literal type `"All"` |
| `Dashboard.TypeStep` | app.py:40-41 | choosing `"All"` returns the table unchanged; any other choice returns exactly the rows of that type, in their original order, a missing type never matching |
| `Dashboard.AllIsUnionOfTypes` | app.py:37-41 | when no listing has the type `"All"`, the per-type subsets of all offered types together hold exactly the rows with a present type; if every row has a type, that equals the `"All"` result |
| `Dashboard.ConditionOptions` | app.py:46-47 | the condition options, which are also the default selection, are strictly ascending and are exactly the conditions that occur in the type-filtered rows |
| `Dashboard.ConditionStep` | app.py:50 | keeps exactly the rows whose condition is present and selected, in order; an empty selection gives an empty table |
| `Dashboard.DefaultSelectionDropsOnlyMissing` | app.py:46-50 | with the default selection, the condition filter removes exactly the rows whose condition is missing; if none is missing the table is unchanged |
| `Dashboard.WorkingSubsetRows` | app.py:40-50 | the working subset is exactly the rows of the chosen type (every row, for `"All"`) whose condition is present and selected, in table order |
| `Dashboard.DefaultWorkingSubsetRows` | app.py:40-50 | with the default selection, the working subset is exactly the rows of the chosen type that have a condition |
| `Dashboard.PriceByConditionView` | app.py:55-58 | every row has a present price of at most 100,000 and a present condition; every such row of the working subset is kept, in order |
| `Dashboard.HeatmapView` | app.py:75-78 | every row has a present odometer of at most 200,000 and a present price of at most 50,000; no such row is omitted |
| `Dashboard.ModelYearView` | app.py:103-109 | the cast to int cannot fail; every row has a year in 1990..2022 and a present price of at most 100,000; before the cast the rows are exactly those of the working subset meeting these bounds |
| `Dashboard.DaysListedView` | app.py:123-126 | every row has a present days_listed of at most 120 and a present condition; no such row is omitted |
| `Dashboard.YearDropNaRemovesNothing` | app.py:103-107 | the `dropna` after the model-year mask removes no row, because a missing year or price already fails the comparisons; so the cast meets no missing year |
| `Dashboard.ConditionNotNaIsRedundant` | app.py:55-58 | after the condition filter, the `notna` tests of the price-by-condition and listing-duration masks (also app.py:123-126) remove nothing |
| `Series.AtMost` | app.py:56 | pandas `<=` against a ceiling on one cell: true only for a present value at most the bound, a NaN comparing false (also app.py:76-77, 105-106, 124) |
| `Series.AtLeast` | app.py:104 | pandas `>=` against a floor on one cell: true only for a present value at least the bound, a NaN comparing false |
| `Series.Equals` | app.py:41 | pandas `==` against the chosen type on one cell: a NaN equals nothing |
| `Series.IsIn` | app.py:50 | pandas `isin` on one cell: a present value in the list; a NaN is never a member |
| `Series.NotNa` | app.py:57 | pandas `notna()` on one cell: true exactly for a present value (also app.py:125) |
| `Series.MissingFailsEveryTest` | app.py:50 | a NaN cell fails `<=`, `>=`, `==`, `isin` and `notna` alike, the rule every mask of the script relies on (also app.py:41, 55-58, 75-78, 103-107, 123-126) |
| `StringOrder.Less` | app.py:37 | Python's `<` on `str`, which `sorted` uses: lexicographic by code point, a proper prefix being smaller |
| `StringOrder.LessIrreflexive` | app.py:37 | no string is smaller than itself |
| `StringOrder.LessTransitive` | app.py:37 | the string order is transitive |
| `StringOrder.LessTotal` | app.py:37 | of two different strings one is smaller, so `sorted` on strings has one result |
| `Listings.CastAfterWiden` | app.py:109 | the other direction of the cast's round trip: widening a cast row and casting it again gives the same cast row |
| `Listings.AsIntModelYear` | app.py:109 | `astype(int)` fails exactly when some year is missing; otherwise it returns one row per input row, and widening each back gives the input row, so only the year's type changes |
| `Listings.CastRow` | app.py:109 | casting one row's present year and widening it back returns the original row |
| `Dashboard.Run` | app.py:35-126 | one pass of the script: the option lists, the selection in force (the options by default), a working subset of exactly the chosen-type rows with a selected condition, the four views of it, all drawn from the table; an empty selection empties everything |
| `Dashboard.SedanExample` | app.py:40-109 | for a sedan within every bound and a truck above the price ceilings, choosing "sedan" keeps only the sedan; the default condition filter and the price view keep it; the model-year view casts its year to 2015 |

## Left out

- Page setup, titles and the static summary text (app.py:8-13, 143-153): fixed text, no logic.
- The sidebar widgets and Streamlit's widget state and reruns (app.py:31-38, 44-48): the chosen type
  and the condition selection are parameters of `Dashboard.Run`. The widget would only return
  offered values; the model does not assume that.
- Loading the CSV file with `pd.read_csv` (app.py:26): I/O. The table is a parameter. The file's
  other columns are never read by the script and are not modelled.
- Building and showing the Plotly figures (app.py:60-70, 80-98, 111-118, 128-138): bin counts,
  overlay, opacity, titles, axis labels and layout belong to a foreign charting library.
- Floating point: pandas keeps numeric columns with NaN as floats. Here cells are whole numbers.
- Listings.AsIntModelYear: does not model how `astype(int)` truncates a fractional year, because
  the model's years are whole numbers.
- Row index labels of the pandas frames: the script never reads them, so rows are modelled as a
  sequence.
