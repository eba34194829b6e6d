# CO2 emissions dashboard: the data pipeline

`app.py` is a Dash dashboard. It shows a world choropleth of annual CO2
emissions for a year picked on a slider, and a line chart of per-capita
emissions for a country picked in a dropdown. Almost all of it is widget and
figure wiring. The data logic it owns is small:

- the module-level script that prepares the table;
- the row selections that the two figure callbacks hand to plotly.

This project models that logic in Dafny and proves what it guarantees.

- **Table** (`table.dfy`). The merged frame is a sequence of `RawRow`s under
  the raw column names. The prepared frame is a sequence of `Row`s under the
  canonical names. The emission values are never computed with, so their type
  is a parameter `V`. `Filter` models `df[mask]` and `Column` models selecting
  one column.
- **Preparation** (`preparation.dfy`). The script from the merge on:
  - keep the years 1900 to 2017;
  - rename the columns;
  - drop the aggregate "World";
  - derive `country_list`, `date_list` and the slider marks `date_mark`.

  Each step is a function with its own lemmas. `PrepareDataset` is the script
  itself: a method that rebinds `df` step by step and returns the four
  module-level values.
- **String order** (`string_order.dfy`). Python orders `str` values by code
  point, lexicographically. `SortedUnique` is the index of
  `value_counts().sort_index()`. `AscendingIsUnique` shows that any sorted,
  duplicate-free list of the same names is this same list, so the result does
  not depend on how pandas sorts.
- **Decimal** (`decimal.dfy`). `str(n)` and `int(s)` on years. `int` returns
  `None` where Python raises `ValueError`.
- **Figures** (`figures.dfy`). The data arguments of the two traces:
  - `WorldMap` is `getFig`;
  - `LineSeries` is `getFigq` as written;
  - `CountrySeries` is the series `getFigq` evidently means to draw (see
    Findings).

The figure functions only read the table. Being pure functions, they leave it
unchanged and return the same series for the same argument.

## Model

| member | source | states |
|---|---|---|
| `Table.Filter` | app.py:24 | `df[mask]` keeps at most the rows it is given. Every kept row is a row of the table that satisfies the mask, and every row that satisfies it is kept. |
| `Table.FilterAppend` | app.py:24 | Filtering distributes over concatenation, so the relative order of the kept rows is the table order. |
| `Table.FilterKeepsAll` | app.py:35 | A mask keeps the whole table exactly when every row satisfies it. |
| `Table.FilterEmpty` | app.py:53-55 | A mask selects nothing exactly when no row satisfies it. |
| `Table.Column` | app.py:53-55 | Selecting a column gives one value per row, the row's field, in row order. |
| `Preparation.KeepYears` | app.py:24 | `between(1900, 2017)` is inclusive. Every kept row has a year in 1900..2017 and comes from the merged table. Every merged row in that range is kept. |
| `Preparation.RenamesRawHeader` | app.py:26-34 | The rename maps the four raw labels to `Country`, `Country Code`, `Annual_CO2_Emissions` and `Per_Capita_CO2_Emissions`, and keeps `Year`. |
| `Preparation.RenameColumns` | app.py:26-34 | `rename(columns=...)` keeps one label per column. |
| `Preparation.RenameRows` | app.py:26-34 | The rename neither adds nor drops a row. |
| `Preparation.RenameRowsLossless` | app.py:26-34 | Undoing the relabelling gives back the table, so every value is unchanged. Each row keeps its year. |
| `Preparation.DropWorld` | app.py:35 | No kept row is "World", and every kept row comes from the table. Every row that is not "World" is kept. |
| `Preparation.Prepare` | app.py:22-35 | Every row of the prepared table has a year in 1900..2017 and a country other than "World". |
| `Preparation.PrepareAppend` | app.py:22-35 | Preparation works row by row: preparing a concatenation concatenates the prepared parts, so the table order is kept. |
| `Preparation.PrepareSingle` | app.py:22-35 | A merged row survives, renamed, exactly when its year is in range and it is not "World". Otherwise it is dropped. |
| `Preparation.PrepareMembership` | app.py:22-35 | A row is in the prepared table exactly when it is the renamed form of an in-range, non-"World" merged row. |
| `Preparation.ChadRowScenario` | app.py:22-35 | A Chad row for 1950 comes out as the single row (Chad, TCD, 1950, annual, per capita) under the canonical names. |
| `Preparation.CountryList` | app.py:36 | `country_list` is strictly ascending, and a name is in it exactly when some row of the table has that country. |
| `Preparation.CountryListSpec` | app.py:36 | `country_list` has no duplicates, besides being ascending with exactly the table's countries. |
| `Preparation.CountryListIsCanonical` | app.py:36 | Any strictly ascending list of exactly the table's countries equals `country_list`. |
| `Preparation.CountryListHasNoWorld` | app.py:35-36 | "World" is never offered in the dropdown. |
| `Preparation.CountryListOfOne` | app.py:36 | A one-row table lists exactly that row's country. |
| `Preparation.WorldAndChadScenario` | app.py:35-36 | A merged table of a "World" row and an in-range Chad row lists exactly `["Chad"]`. |
| `Preparation.ParseAll` | app.py:38 | Parsing a list of labels succeeds exactly when every label parses. It then gives one number per label, the value of that label. |
| `Preparation.ParseYearLabels` | app.py:37-38 | `int` reads every year label back as its year. |
| `Preparation.DateList` | app.py:37 | `date_list` has 118 entries, and entry `i` is `str(1900 + i)`. |
| `Preparation.DateListSpec` | app.py:37 | `date_list` has 118 entries. Entry `i` is the decimal string of `1900 + i` and parses back to `1900 + i`. |
| `Preparation.SliderBounds` | app.py:96-97 | `int(date_list[0])` is 1900 and `int(date_list[-1])` is 2017. |
| `Preparation.MarkIndices` | app.py:38 | `range(0, len(date_list), 10)` indexes only entries of `date_list`. |
| `Preparation.DictOf` | app.py:38 | A dict comprehension has exactly the keys it iterates over. |
| `Preparation.DictOfDistinct` | app.py:38 | When no key repeats, each key maps to its own value. |
| `Preparation.MarkYearsKeys` | app.py:38 | The mark years are distinct and within 1900..2017. They are exactly 1900, 1910, ..., 2010. |
| `Preparation.DateListMarkLabels` | app.py:37-38 | The labels at every tenth index of `date_list` are the labels of 1900, 1910, ..., 2010. |
| `Preparation.DictOfYearLabelsValues` | app.py:38 | Over distinct years, it maps each year to its own decimal string. |
| `Preparation.DictOfFrom` | app.py:38 | Every entry of a dict comprehension is a pair it iterated over. |
| `Preparation.DateMarks` | app.py:38 | Building `date_mark` from a list of labels succeeds exactly when every tenth label parses. Then each key's label reads back as that key. |
| `Preparation.DateMarksAreDict` | app.py:38 | Building `date_mark` raises nothing. It is the comprehension over the mark years with their labels. |
| `Preparation.MarksOfYearsKeys` | app.py:38 | That comprehension has exactly the twelve keys 1900, 1910, ..., 2010. |
| `Preparation.MarksOfYearsInRange` | app.py:96-97 | Every key of that comprehension lies within the slider's `min` and `max`. |
| `Preparation.MarksOfYearsLabels` | app.py:38 | Every key of that comprehension is labelled with its own decimal string. |
| `Preparation.DateMarksSpec` | app.py:38 | `date_mark` is defined and has exactly the keys 1900, 1910, ..., 2010. Each key is labelled with its own decimal string and lies in 1900..2017. |
| `Preparation.PrepareDataset` | app.py:22-38 | The script's `df` is the prepared table, with years in range and no "World". `country_list` is `CountryList(df)`: ascending, and naming exactly the table's countries. `date_list` is `DateList()`: 118 entries, entry `i` being `str(1900 + i)` and reading back as `1900 + i`. `date_mark` is what `DateMarks` builds from it: the keys 1900, 1910, ..., 2010, each labelled with its own string. |
| `StringOrder.BelowIff` | app.py:36 | Python's `a < b` on strings holds exactly when `a` is a proper prefix of `b` or, at the first position where they differ, `a` has the smaller code point. |
| `StringOrder.BelowIrreflexive` | app.py:36 | No string sorts before itself. |
| `StringOrder.BelowTransitive` | app.py:36 | The string order is transitive. |
| `StringOrder.BelowTotal` | app.py:36 | Any two different strings are ordered one way or the other. |
| `StringOrder.BelowAsymmetric` | app.py:36 | Two strings are never each before the other. |
| `StringOrder.AscendingHasNoDuplicates` | app.py:36 | A strictly ascending list has no repeated name. |
| `StringOrder.Insert` | app.py:36 | Adding a name to an ascending list keeps it ascending and adds exactly that name. |
| `StringOrder.SortedUnique` | app.py:36 | The sorted index of the value counts is strictly ascending and holds exactly the names of the column. |
| `StringOrder.AscendingIsUnique` | app.py:36 | Two strictly ascending lists with the same names are equal. |
| `Decimal.DecimalString` | app.py:37 | `str(n)` is a non-empty string of decimal digits without a leading zero. |
| `Decimal.ParseDecimal` | app.py:38 | `int` succeeds exactly on non-empty strings of ASCII decimal digits, and on those it gives their decimal value. Every other string the program can produce makes it raise. |
| `Decimal.ParseDecimalString` | app.py:38 | `int(str(n)) == n`. |
| `Decimal.DecimalStringInjective` | app.py:37 | Distinct years have distinct labels. |
| `Figures.WorldMap` | app.py:53-55 | `locations`, `z` and `text` have equal length, at most the table's. Entry `k` of the three comes from one row of the table for the selected year: its code, annual emissions and name. |
| `Figures.WorldMapComplete` | app.py:53-55 | Every row of the selected year is shown, with its code, emissions and name at one common index. |
| `Figures.WorldMapAppend` | app.py:53-55 | The map is built row by row in table order. The map of a concatenation is the maps of its parts, appended. |
| `Figures.WorldMapSingle` | app.py:53-55 | A single row contributes its code, emissions and name when its year is selected, and nothing otherwise. |
| `Figures.WorldMapEmptyIff` | app.py:53-55 | The map has no data exactly when no row has the selected year. |
| `Figures.WorldMapOutsideRange` | app.py:53-55 | A year outside 1900..2017 gives an empty map over the prepared table, not an error. |
| `Figures.WorldMapHasNoWorld` | app.py:53-55 | "World" never appears on the map of the prepared table. |
| `Figures.LineSeries` | app.py:152-153 | As written, `x` is the year of every row of the whole table, in table order: `x[k]` is the year of row `k`. Every `y` value is the per-capita emissions of a row of the selected country. |
| `Figures.LineSeriesAppend` | app.py:152-153 | Both series are built row by row in table order. |
| `Figures.LineSeriesAlignedIff` | app.py:152-153 | As written, `x` and `y` have the same length exactly when every row of the table is of the selected country. |
| `Figures.LineSeriesNonEmptyIff` | app.py:153 | `y` is non-empty exactly when the value is in `country_list`. Any other value gives an empty series, not an error. |
| `Figures.CountrySeries` | app.py:152-153 | `x` and `y` have equal length. Each point is the year and per-capita emissions of one row of the selected country. |
| `Figures.CountrySeriesComplete` | app.py:152-153 | Every row of the selected country is a point of the corrected series. |
| `Figures.SelectedYearsDistinct` | app.py:153 | On a table with one row per country and year, the rows selected for a country have pairwise different years. |
| `Figures.CountrySeriesYearsDistinct` | app.py:152-153 | On such a table, each year appears at most once on the corrected `x` axis. |
| `Figures.CountrySeriesKeepsValues` | app.py:152-153 | The corrected series has the same `y` as the series as written, and an `x` of the same length. |
| `Figures.LineSeriesMisplacesYears` | app.py:152-153 | Take the table Chad 1950, Togo 1960 and select Togo. As written, the series is `x = [1950, 1960]`, `y = [q]`, so Togo's value is drawn at Chad's year. The corrected series is `x = [1960]`, `y = [q]`. |

## Left out

- Loading the two CSV files over HTTP (app.py:15-20) is network I/O and is not modelled.
- The merged table is assumed to have exactly the four columns that the rename at app.py:26-34 maps, plus "Year". A missing "Year" column would already raise `KeyError` at app.py:24. `RawRow` and `Renamed` encode that header. `DataFrame.rename(columns=...)` silently skips a key that is not a column. With another header that still has "Year", the script goes on and fails later: at `df.Country` (app.py:35) with `AttributeError` if "Entity" is missing, or with `KeyError` in `getFig` (app.py:53-55) or `getFigq` (app.py:153) if a column they read ("Code" or an emissions column) is missing. That failure is not modelled.
- `pd.merge(capita, region)` (app.py:22) is not modelled, because its join keys are whichever columns the two files share, and those headers do not appear in app.py, which loads the files at run time. The merged table is the input of `Prepare` and `PrepareDataset`.
- The Dash app, its layout, widgets and callback wiring, and `run_server` are framework wiring with no data logic.
- The plotly styling is not modelled: colour scale, projection, titles, annotations, range selector and `update_layout`. Only the data arguments of each trace are modelled.
- Plotly draws an `x`/`y` pair of unequal length by dropping the extra `x` values. That rendering rule is plotly's own and is not modelled.
- The emission values are opaque. Float arithmetic and NaN handling, including NaN countries in `value_counts`, are not modelled, and every row is assumed to have a country.
- The dataset is assumed to hold one row per country and year. The code does not enforce this. It appears as the precondition `OneRowPerYear` of `CountrySeriesYearsDistinct`, of `SelectedYearsDistinct` and of their helpers `OneRowPerYearTail` and `HeadYearNotRepeated`, and nowhere else.
- `Decimal.ParseDecimal`: Python's `int` also accepts a sign, surrounding blanks, underscores between digits and non-ASCII decimal digits such as Arabic-Indic or full-width ones. The model accepts only ASCII digit strings, because the program only ever parses `str` of a non-negative year.
- `country_list[0]`, the dropdown's default value (app.py:107), raises `IndexError` when the prepared table is empty. That is widget wiring and is not modelled. `date_list` always has 118 entries, so `date_list[0]` and `date_list[-1]` (app.py:96-97) never raise; `SliderBounds` states their values.
- The line chart is meant to show one country over time. The dropdown above it is headed "Choose a Country" (app.py:103), the chart is titled "Per Capita CO2 Emissions by Country" (app.py:156), and the commented-out line 149 selects the country's rows. The code nevertheless plots `list(df.Year)`, the year of every row. The model follows the code (`LineSeries`) and records the difference under Findings.

## Findings

| source | as written | input that shows it | evidently intended | confidence | as-written member | corrected member |
|---|---|---|---|---|---|---|
| app.py:152-153 | `x=list(df.Year)` takes the year of every row of the table, while `y` takes only the selected country's rows, so the pairs are misaligned | table rows (Chad, 1950) and (Togo, 1960), country "Togo": `x = [1950, 1960]`, `y = [Togo's value]`, so Togo's 1960 value is drawn at 1950 | `x` is the years of the selected country's rows: `x = [1960]` | not executed | `Figures.LineSeries`, `Figures.LineSeriesMisplacesYears` | `Figures.CountrySeries`, `Figures.CountrySeriesComplete` |
