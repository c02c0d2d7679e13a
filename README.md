# Sustainability dashboard: selection and KPI engine

This project models the core of a Dash dashboard over a static world sustainability table, written in Dafny. The dashboard is implemented in `src/app.py`. Everything here is a value-level function of the loaded table and the dropdown values, except two parts that keep the source's in-place shape: the load-time column rename and the in-place sort of the entity options.

- **Cells** (`cells.dfy`). A table cell is missing (NaN/None), a number, a year timestamp or a text. The order on cells is the one Python's sort uses: numbers by value, timestamps by year, and strings by code point with a proper prefix first. The model proves that this order is total and transitive. Python truthiness (`not entity`) is the predicate `Falsy`.
- **Tables** (`tables.dfy`).
  - The raw table is a class. Its columns are renamed in place with the fixed column mapping.
  - The canonical table keeps the rows that have a `Continent` and a `Year`. The year becomes an integer field.
  - The selection filter `df[df[group] == entity]` keeps matching rows in table order.
- **Aggregation** (`aggregation.dfy`).
  - The sorted distinct years.
  - pandas' mean, which skips missing values.
  - The per-year series behind each line chart: one point per distinct year, in ascending order.
- **Kpi** (`kpi.dfy`).
  - The two comparison years: the latest year, and the latest year before it.
  - The per-metric guards and percent change shared by `calc_kpi` and `calc_kpi_large`.
  - The plain and the B/M/K formatters.
  - The sign prefix and the style class.
  - The regime-type mode.
- **Options** (`options.dfy`). The entity dropdown builder. It collects a column's distinct present values, sorts them in place with an insertion sort over an array, and picks the first value as the default.
- **Dashboard** (`dashboard.dfy`). The whole `update_dashboard` callback as one function. The lemmas cover the empty view, the charts over the selection, insufficient history, the comparison of the latest two years, and an end-to-end two-year case.

Digits are not modelled. A rendered number is `Decimal(value, suffix)`: the value printed with one decimal place, then the suffix. A dash is `Dash`.

The percent change is `(curr - prev) / prev * 100`. When the previous mean is negative, a rise reads as a negative change. `Kpi.PercentChangeSign` states exactly when the change is non-negative.

Behaviour of the code worth noting:
- A year whose values are all missing keeps its point in a chart series, with a missing mean. It is not dropped.
- There is no year-range selection.
- Among equally frequent regime types, the least value is shown, because pandas' `mode()` returns its results sorted.
- A current-year slice whose regime values are all missing makes `mode()[0]` raise. This case is modelled as `ModeFails`.

## Model

| member | source | states |
|---|---|---|
| `Tables.RawTable.Rename` | src/app.py:27 | Renaming in place maps each column to its new name and moves every row's value under the new name; the table stays well formed |
| `Tables.RenameRowSpec` | src/app.py:27 | A renamed row holds each old value under its column's new name and nothing else |
| `Tables.CanonicalRows` | src/app.py:30-31 | The canonical table keeps the raw columns, and its j-th record is the j-th raw row having both a Continent and a Year, with its year parsed: order and repeats are kept |
| `Tables.CanonicalSound` | src/app.py:30-31 | Every record has a Continent and is some complete raw row with its year parsed; nothing else reaches the table |
| `Tables.CanonicalComplete` | src/app.py:30-31 | Every raw row with both a Continent and a Year appears with its year and its other cells unchanged |
| `Tables.Load` | src/app.py:27-31 | Loading renames the raw table in place (columns and every row) and returns the canonical table of the renamed columns and rows |
| `Tables.FilterSpec` | src/app.py:269 | Every kept row's group value equals the entity, every matching row is kept as many times as it occurs in the table, non-matching rows never, and the kept rows are a subsequence of the table (original order) |
| `Tables.YearSlice` | src/app.py:286-287 | The slice of one year holds only rows of that year, and every row of that year |
| `Tables.YearSliceCounts` | src/app.py:286-287 | The slice holds each row of that year as many times as the rows do, and no other row, in the original order |
| `Options.Unique` | src/app.py:232 | The distinct present values of a column: no duplicates, and a value is listed iff it is non-missing and occurs in the column |
| `Options.SortInPlace` | src/app.py:233 | After the in-place sort the array is in ascending order and is a permutation of its old contents |
| `Options.EntityOptions` | src/app.py:228-244 | A missing or unknown group gives ("Selection", [], None); otherwise the label for the group, the column's distinct present values in strictly ascending order, and the first (least) of them as the default, None when there are none |
| `Aggregation.SortedYears` | src/app.py:279 | The distinct years of the rows, strictly ascending, and a year is listed iff some row has it |
| `Aggregation.NumbersCounts` | src/app.py:204 | The values averaged are exactly the column's numbers, each as many times as rows hold it |
| `Aggregation.ColumnMeanMissing` | src/app.py:291-293 | A column's mean is missing exactly when no row holds a number in that column |
| `Aggregation.MeanBounds` | src/app.py:204 | A mean lies between any lower and upper bound of the values averaged |
| `Aggregation.LineChart` | src/app.py:200-204 | The chart is "" exactly for an empty subset or an unknown column |
| `Aggregation.YearlyMeansYears` | src/app.py:204 | The series has strictly ascending years, one point for every year present and none for any other year |
| `Aggregation.YearlyMeansMissing` | src/app.py:204 | A point's mean is missing exactly when none of that year's rows holds a number in the column |
| `Aggregation.YearlyMeansBounds` | src/app.py:204 | Each point's mean lies within the range of that year's values |
| `Aggregation.AllMissingYearKept` | src/app.py:204 | In any table, a year present in the rows whose values in the column are all missing still gets a point in the series, with a missing mean |
| `Kpi.PeriodsSpec` | src/app.py:279-284 | There is no comparison iff the rows do not span two distinct years; otherwise the current year is the latest year present and the previous year the latest year present before it (gaps allowed) |
| `Kpi.Compare` | src/app.py:289-294 | The comparison is unavailable iff the column is unknown, either year's mean is missing, or the previous mean is exactly zero; otherwise it carries both means and a percent change p with p * prev == (curr - prev) * 100 |
| `Kpi.PercentChangeSign` | src/app.py:294-296 | The change is non-negative iff curr >= prev on a positive base or curr <= prev on a negative base |
| `Kpi.FormatLarge` | src/app.py:300-305 | A missing value renders as "-"; otherwise exactly one band applies: B iff >= 1e9, M iff in [1e6, 1e9), K iff in [1e3, 1e6), no suffix iff below 1e3 (negatives included) |
| `Kpi.FormatLargeScaling` | src/app.py:300-305 | The mantissa times its suffix's factor is the value; a suffixed mantissa is at least 1, and a K or M mantissa is below 1000 |
| `Kpi.FormatLargeBoundaries` | src/app.py:300-305 | 999 stays unscaled, 1000 is 1.0K, 999999 is K, 1000000 is 1.0M, 2.5e9 is 2.5B, a negative value is unscaled, a missing one is "-" |
| `Kpi.CalcKpiSpec` | src/app.py:289-316 | A card is ("-", "-") iff the column is unknown, a mean is missing or the previous mean is zero, whatever the current mean; otherwise it shows both means in its style and the percent change, and the "+" prefix and the positive class go together, exactly when the change is >= 0 |
| `Kpi.Present` | src/app.py:325 | The non-missing values of a column: each comes from some row, and every row's non-missing value is among them |
| `Kpi.PresentCounts` | src/app.py:325 | Each present value is listed as many times as rows hold it, and a missing value never |
| `Kpi.FirstMode` | src/app.py:325 | The chosen value is a candidate that no candidate outnumbers, and the least of those tied with it |
| `Kpi.RegimeModeSpec` | src/app.py:325 | "-" iff the column is unknown or the slice is empty; a failure iff every value is missing; otherwise a present value held by at least as many rows of the slice as any other value, the least among those tied with it |
| `Kpi.ModeTieBreak` | src/app.py:325 | With "A" and "B" twice each, "A" is shown |
| `Dashboard.InvalidSelectionIsEmpty` | src/app.py:266-267 | A missing or unknown group or a falsy entity gives "" for each chart and "-", "" for each card |
| `Dashboard.ChartsUseSelection` | src/app.py:269-273 | For a usable selection each chart aggregates exactly the matching rows, in table order |
| `Dashboard.InsufficientHistory` | src/app.py:276-281 | When the selected rows do not span two distinct years, every card is "-", "" and the regime card is "-" |
| `Dashboard.ComparesLatestYears` | src/app.py:283-327 | With two or more distinct years, the six cards compare the latest year with the latest earlier year (CO2 and GDP scaled, the rest plain), and the regime card summarises the latest year |
| `Dashboard.TwoYearScenario` | src/app.py:265-327 | Rows (X, 2019, 80) and (X, 2020, 100): the series is [(2019, 80), (2020, 100)]; the CO2 card reads 100.0 with "vs prev 80.0 (+25.0%)" and the positive class; the GDP card, whose column is absent, reads ("-", "-") |

## Left out

- The page layout and its styling are not modelled because they are UI: the Dash layout, the HTML/CSS template, `create_kpi` and the callback decorators. The initial entity options at line 106 are also layout.
- The Altair chart construction and `chart.to_html()` are not modelled. A chart is either "" or the aggregated series the renderer would receive.
- File and process I/O is not modelled: `pd.read_csv`, the data path and `app.run`. The table is a parameter.
- `pd.to_datetime` parsing of the Year column is reduced to taking the floor of a numeric Year cell. `Tables.Canonical` requires every Year cell to be numeric or missing; a Year cell that is not a year would make the conversion raise, and year strings such as "2019" are not modelled.
- Floating-point arithmetic is modelled with exact reals. The decimal text of `'{:.1f}'` and of the percent string is abstracted to `Decimal(value, suffix)`.
- The `html.Span` wrapper of the subtitle is reduced to its parts: the formatted previous value, the sign prefix, the percent change and the style class.
- The dropdown option dictionaries carry `str(opt)` labels, which are not modelled. Options are the values themselves.
- Mixed-type columns are not modelled faithfully. Python raises when it sorts numbers together with strings, but the cell order ranks numbers before timestamps before text. pandas raises when it takes the mean of text, but the mean skips non-numeric cells.
- Tables.Canonical: requires the Continent and Year columns to exist; without them `dropna(subset=...)` raises a `KeyError`, which is not modelled.
- Duplicate column names from renaming are not modelled. `Tables.RawTable.Rename` requires the mapping to keep the table's columns distinct.
- After `mode()[0]` raises, Dash keeps the previous outputs. That is not modelled: the regime result is only `ModeFails`.
- Options.Unique: its contract does not state the first-appearance order of pandas' `unique()`, because the list is sorted right after and that order is not observable.
- Repeated evaluation with the same inputs gives the same outputs by construction, since every pipeline stage is a function. No lemma states this.
