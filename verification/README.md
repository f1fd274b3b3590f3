# Disaster Data Hub: the aggregation pipeline in Dafny

The dashboard in `streamlit_app.py` shows natural-disaster counts on several pages. There is one page for all disasters, six per-disaster pages and a prediction page. It reads a table with one row per (country, disaster type) pair. Each row has:

- a count for each year column 2001..2021;
- a stored `Total` column;
- a reserved `"TOTAL"` indicator on the one row per country that aggregates its other rows.

Every chart on those pages is fed by a short pandas pipeline: filter rows, melt the year columns into long form, group by a key and sum, or take each year's share of the total. This project models that pipeline as pure functions over an immutable table and proves what each view contains.

The modules:

- `Outcomes` (`outcomes.dfy`): `Option` and `Result`.
- `Distinct` (`distinct.dfy`): `Series.unique()`, the distinct values in first-appearance order.
- `Table` (`table.dfy`):
  - records, the year columns and the column lookup;
  - the six disaster datasets;
  - row masks, modelled as a `Selector` datatype (`df[df['Country'] == c]`, `df['Indicator'] != 'TOTAL'`, `isin`, `&`);
  - column sums.
- `Unpivot` (`unpivot.dfy`):
  - `pd.melt`, in pandas' column-major order: all rows for 2001, then all rows for 2002, and so on;
  - the filtered long-form views behind the bar and line charts.
- `Aggregate` (`aggregate.dfy`):
  - `groupby(...).sum()`;
  - the year distribution pie and the displayed total;
  - the per-type country totals and the world map;
  - one country's breakdown;
  - the country and disaster-type menus.
- `Percentage` (`percentage.dfy`): the yearly percentage pie, in exact `real` arithmetic.
- `Forecast` (`forecast.dfy`): `fit_and_forecast_arima`. The ARIMA fit is a function parameter that either returns five forecast values, raises `ValueError` or raises something else. Both a successful forecast and the zero fallback are dated on the five years after the series' yearly date index.

The six per-disaster pages run the same code; only the CSV file and the indicator name differ. They are modelled once, parameterised by `Disaster` or by the indicator name. Every claim about lines 174-267 applies equally to the copies at 273-366, 372-465, 471-564, 570-664 and 670-764.

## Model

| member | source | states |
|---|---|---|
| Distinct.Unique | streamlit_app.py:15 | The distinct countries hold no duplicates. They are exactly the values that occur in the column, and there are never more of them than rows. |
| Distinct.UniqueFirstAppearance | streamlit_app.py:149-150 | The distinct values are listed in the order of their first appearance in the column. |
| Table.ColumnOf | streamlit_app.py:82 | A year names a column exactly when it lies in 2001..2021, and the column found belongs to that year. |
| Table.SelectMembers | streamlit_app.py:20 | A boolean-mask filter keeps exactly the rows of the table that the mask accepts. |
| Table.SelectSelect | streamlit_app.py:56-58 | Filtering by one mask and then by another is filtering once by their conjunction. |
| Table.SelectNone | streamlit_app.py:20 | A mask that matches no row gives an empty table, not an error. |
| Table.SumSplit | streamlit_app.py:100 | A column's sum splits into the sum over the rows a mask keeps plus the sum over the rows it drops. |
| Unpivot.Melt | streamlit_app.py:21 | The melted table has 21 observations per input row. |
| Unpivot.MeltIndex | streamlit_app.py:21 | Row `i`'s count for year column `y` sits at position `y * n + i`, carrying the row's country, indicator, calendar year and count. |
| Unpivot.MeltMembers | streamlit_app.py:21 | The melted table holds exactly the (row, year) cells of the input and nothing else. |
| Unpivot.FilterObsMembers | streamlit_app.py:39 | Filtering melted rows keeps exactly the observations whose country and indicator the mask accepts. |
| Unpivot.FilterMelt | streamlit_app.py:20-22 | Filtering the melted table by a mask equals melting the filtered table. |
| Unpivot.CountryView | streamlit_app.py:20-22 | One country's view is the melt of its non-"TOTAL" rows, with 21 observations per such row. Every observation has that country and an indicator other than "TOTAL". A country without rows gives an empty view. |
| Unpivot.TypeView | streamlit_app.py:184-188 | The per-disaster view is the melt of the rows whose country is selected and whose indicator is the page's type. It has 21 observations per kept row, and every observation has a selected country and the page's type. |
| Unpivot.TypeViewsDisjoint | streamlit_app.py:176-188 | Two different disaster pages never show the same observation, even though each page reads its own CSV file and has its own country multiselect. |
| Unpivot.CountByYear | streamlit_app.py:217-219 | The count-by-year view has 21 (year, count) pairs for every row of the country, whatever its indicator, and every pair names that country. |
| Unpivot.CountByYearIndex | streamlit_app.py:217-219 | The pair at position `y * n + i` is row `i`'s calendar year and its count for that year. |
| Aggregate.AddRowKeeps | streamlit_app.py:88 | Adding one row's measure to its key's running sum turns the group sums of the rows before it into the group sums of the rows up to it. |
| Aggregate.AccumulateSums | streamlit_app.py:88 | After the rows are accumulated one by one, there is a running sum for exactly the keys present, each equal to the measure summed over that key's rows. |
| Aggregate.GroupSum | streamlit_app.py:88 | A group exists for exactly the keys present in the table, and holds the measure summed over exactly the rows with that key. |
| Aggregate.GroupSumPartition | streamlit_app.py:88 | The group sums, over all groups, add up to the column sum of the whole table. |
| Aggregate.IndicatorMenu | streamlit_app.py:150 | The disaster-type menu has no duplicates. It holds exactly the indicators that occur in the table other than "TOTAL". |
| Aggregate.CountryMenu | streamlit_app.py:149 | The country menu has no duplicates and holds exactly the countries that occur in the table. |
| Aggregate.MenusInFirstAppearanceOrder | streamlit_app.py:149-150 | Both menus list their entries in the order of first appearance in the relevant column. |
| Aggregate.YearDistribution | streamlit_app.py:86-89 | The result is an error exactly for a year outside 2001..2021, and the error names that year. Otherwise the keys are exactly the indicators other than "TOTAL" that occur in the table. |
| Aggregate.YearDistributionValue | streamlit_app.py:86-89 | Each slice is the year's count summed over all rows of that indicator, across every country. |
| Aggregate.YearDistributionPartition | streamlit_app.py:86-89 | The slices, one per entry of the disaster-type menu, add up to the year's count over all non-"TOTAL" rows. |
| Aggregate.YearDistributionSingleRow | streamlit_app.py:86-89 | When one row is the only row of its type, as in a single-country table, its slice is that row's own count for the year. |
| Aggregate.TotalOccurrences | streamlit_app.py:100 | The displayed total is an error exactly for a year outside 2001..2021, and the error names that year. |
| Aggregate.TotalOccurrencesSplit | streamlit_app.py:87-100 | The displayed total equals the sum of the pie's slices plus the year's count over the "TOTAL" rows. |
| Aggregate.TotalOccurrencesDoubleCounts | streamlit_app.py:87-100 | When the "TOTAL" rows add up the per-type rows, as the cleaned data promises, the displayed total is twice the sum of the slices. |
| Aggregate.TotalOccurrencesDoubleCountsExample | streamlit_app.py:87-100 | A concrete table: one flood and its "TOTAL" row show 2 in the caption and 1 in the pie. |
| Aggregate.IntendedTotalOccurrences | streamlit_app.py:100 | The corrected total fails exactly for a year outside 2001..2021, with the year named. |
| Aggregate.IntendedTotalMatchesPie | streamlit_app.py:87-100 | The corrected total is exactly the sum of the pie's slices. |
| Aggregate.CountryTotals | streamlit_app.py:235 | After filtering to one type and grouping by country, the keys are exactly the countries with a row of that type. Each value is `Total` summed over that country's rows of that type. |
| Aggregate.CountryTotalsPartition | streamlit_app.py:235 | The per-country totals of one type add up to the `Total` column of all rows of that type. |
| Aggregate.CountryTotalsIgnoreOtherTypes | streamlit_app.py:235 | A row of another type, inserted anywhere, changes no country's total. |
| Aggregate.WorldTotals | streamlit_app.py:103-105 | Each country on the world map has `Total` summed over its "TOTAL" rows. |
| Aggregate.WorldTotalsKeys | streamlit_app.py:103-105 | A country is on the world map exactly when it has a "TOTAL" row. Other countries are absent, not zero. |
| Aggregate.WorldTotalsSingleRow | streamlit_app.py:103-105 | A country with a single "TOTAL" row appears on the map with that row's `Total`. |
| Aggregate.IndicatorBreakdown | streamlit_app.py:56-58 | One country's breakdown is exactly its rows whose indicator is not "TOTAL". |
| Aggregate.IndicatorBreakdownSplit | streamlit_app.py:56-58 | The breakdown's `Total` plus the country's "TOTAL" rows' `Total` is the country's whole `Total` column. |
| Percentage.YearlyPercentages | streamlit_app.py:256-259 | One entry per year column, 21 in all; entry `y` belongs to year 2001 + `y`. |
| Percentage.ShareOfYear | streamlit_app.py:256-259 | Each entry is non-negative. Times the stored total, it is 100 times that year's column sum. |
| Percentage.PercentsSum | streamlit_app.py:259 | Percentages of one denominator add up to the percentage of the counts' sum. |
| Percentage.PercentagesSum | streamlit_app.py:256-259 | For any table, the 21 entries add up to the percentage that all year counts make of the stored `Total` sum. The denominator is never recomputed. |
| Percentage.PercentagesSumTo100 | streamlit_app.py:256-259 | When every row's `Total` is the sum of its year counts and the grand total is positive, the entries add up to exactly 100. |
| Forecast.Series | streamlit_app.py:130-131 | The selected series has one entry per year column, 21 in all, and each entry holds one count per row matching both the country and the disaster type. |
| Forecast.SeriesColumns | streamlit_app.py:130-131 | Transposing keeps every matching row: column `j` of the series, read year by year, is exactly the `j`-th matching row's counts. |
| Forecast.SeriesAbsent | streamlit_app.py:130-131 | A country with no row of the type gives a series whose entries are all empty. |
| Forecast.Dated | streamlit_app.py:132-139 | Values placed on a yearly index from `start` keep their number and order: the `k`-th value lands at year `start + k`. |
| Forecast.FitAndForecast | streamlit_app.py:129-141 | The result is an error exactly when the fit raises something other than `ValueError`, and that exception is passed on. Otherwise it has 5 points at the years 2022 to 2026, the 5 years after the last index year: the fit's 5 values in order when it succeeds, zeros on `ValueError`. |
| Forecast.FallbackIndependentOfData | streamlit_app.py:138-139 | Whenever the fit raises `ValueError`, every country and type gets the same forecast, running from 2022 to 2026. |

## Left out

- CSV loading (`pd.read_csv`, lines 14, 54, 81, 143, 176, 254 and their copies) and the raw and cleaned data display (lines 111-121): these are file I/O. The model takes the loaded table as a value.
- All Streamlit widgets and the page dispatch in `main` (lines 767-786). Selections become parameters. This includes the `countries.index('United States')` and `disasters.index('Storm')` defaults at lines 151-152, which raise when the data lacks those entries.
- All Altair and Plotly chart construction: encodings, sort orders, colours and titles. The choropleth at lines 203-207 draws the table as it is, so there is no transformation to model.
- The ARIMA(1,1,1) fit and forecast (lines 135-137): the fitted model is an opaque function parameter that yields the five values of `forecast(steps=5)` or an exception; which values it computes is not modelled. The date index of line 132 is modelled only through its years: the last index year is always 2021, and both the fitted forecast and the fallback are dated 2022 to 2026 from it. Month, day and the `'AS'` frequency are not represented.
- The `ObjectId` column. Melted year labels are calendar years as integers rather than the column-name strings.
- `groupby(...).sum()` also sums or concatenates the columns it is not asked about. At line 88 the `Country` strings are concatenated. At line 235 the `Indicator` strings are concatenated, while `ObjectId` and the year columns are summed per country. None of these extra columns feeds a chart: the pie at lines 90-93 reads only `Indicator` and the selected year, and the bubble chart at lines 237-242 only `Country` and `Total`. String concatenation also depends on the pandas version. So only the measured column is modelled.
- `groupby` returns its groups sorted by key (pandas' default `sort=True`, lines 88, 105 and 235). The model returns an unordered `map`: the charts place the groups by their own encodings, so only the key-to-sum mapping is modelled.
- Column sums are 64-bit integers in pandas and unbounded `nat` in the model. Counts of a few thousand rows are far below the 64-bit range, so overflow is not modelled.
- Percentage.YearlyPercentages: requires a positive sum of the `Total` column. The code divides without a guard, so a zero total gives NaN or infinity in floating point. The model therefore does not define a 0% result for that case.
- Floating-point rounding of the percentages: the model computes them exactly as rationals.

## Findings

| source | as written | input that shows it | evidently intended | confidence | as-written member | corrected member |
|---|---|---|---|---|---|---|
| streamlit_app.py:100 | The caption "Total occurrences of all types of disasters in all countries" sums the year column over every row, the "TOTAL" rows included. | One Chilean flood in 2001 plus Chile's "TOTAL" row recording it: the caption shows 2, while the pie next to it (line 89 drops "TOTAL") shows 1. | The per-type rows only, as the pie counts them, so that each occurrence is counted once. | medium, not executed | Aggregate.TotalOccurrences, with Aggregate.TotalOccurrencesDoubleCounts and Aggregate.TotalOccurrencesDoubleCountsExample | Aggregate.IntendedTotalOccurrences, with Aggregate.IntendedTotalMatchesPie |
