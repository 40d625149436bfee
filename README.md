# Life expectancy vs fertility scatter plot: the data logic

The page loads a CSV of one row per country and year. It draws a scatter plot of
life expectancy against fertility rate, with one circle per country sized by
population. A drop-down selects the year. Most of `js/start.js` is drawing code
that goes through D3. This project models the data logic underneath it:

- **Year filter** (`filterByYear`). The page keeps a master list `allYearsData` and
  the plotted view `data`. Selecting a year replaces `data` with the master rows
  of that year, in their original order. `makeScatterPlot` filters and then draws
  the title `"Life Expectancy vs Fertility - " + year`. This is modelled as the
  class `ScatterPlot.Page`, with the two fields and methods that reassign `data`.
  The pure function `YearFilter.RowsOfYear` specifies the new view, and the
  lemmas in `YearFilter` prove its properties.
- **Plot limits** (`findMinMax`). These are the axis domains: the minimum and
  maximum of the fertility rates and of the life expectancies. The minima are
  padded by 0.5 and 5. The maxima are kept.
- **Thousands separators** (`numberWithCommas`). This formats the tooltip's
  population. It replaces `/\B(?=(\d{3})+(?!\d))/g` with `","`. The model takes a
  given string. `NumberFormat.CommaAt` says where a comma goes. It is proved
  equal to a literal reading of the regular expression: `\B` plus a lookahead
  that tries every number of three-digit groups.
- **Drop-down years** (`d3.map(allYearsData, d => d.time).keys()`). These are the
  distinct `time` values, in the order each first appears.

Modules: `Wrappers` (Option), `Rows` (the row record and its columns),
`YearFilter`, `PlotLimits`, `NumberFormat`, `YearList` and `ScatterPlot` (the
page state and the start-up sequence).

## Model

| member | source | states |
|---|---|---|
| `Rows.Times` | js/start.js:56 | the key column `d => d.time`: as long as the rows, with each row's year at that row's index |
| `Rows.FertilityRates` | js/start.js:38 | the x column: as long as the rows, with each row's fertility rate at that row's index |
| `Rows.LifeExpectancies` | js/start.js:39 | the y column: as long as the rows, with each row's life expectancy at that row's index |
| `ScatterPlot.Page.Load` | js/start.js:24-27 | after loading, both the view and the master list are the CSV rows, and the view is a subsequence of the master list |
| `ScatterPlot.Page.MakeAxesAndLabels` | js/start.js:36-63 | the limits are `findMinMax` of the fertility and life-expectancy columns of the current rows; they exist exactly when there are rows; every row's values lie inside them; the drop-down lists the master list's years |
| `ScatterPlot.Page.FilterByYear` | js/start.js:83-85 | the view becomes the master rows of the year; the master list is unchanged; the view stays a subsequence of the master list |
| `ScatterPlot.Page.MakeScatterPlot` | js/start.js:67-81 | filters by the year as above and returns the title that names the year |
| `ScatterPlot.Session` | js/start.js:24-34 | start-up (load, axes, plot 1960) followed by one selection: limits over all rows; the drop-down is `YearOptions` of all rows (exactly the data's years, no duplicates, in first-appearance order); titles for 1960 and the selected year, the view is the selected year's rows, it is empty when no row has that year, and every row plotted for it lies inside the limits computed once at start-up |
| `YearFilter.RowsOfYear` | js/start.js:84 | the view is no longer than the master list, and every row in it has the selected year and comes from the master list |
| `YearFilter.RowsOfYearKeepsOrder` | js/start.js:84 | the view is a subsequence of the master list, so it keeps the master order |
| `YearFilter.RowsOfYearCounts` | js/start.js:84 | each row occurs in the view as often as in the master list if it has the year, and never otherwise |
| `YearFilter.RowsOfYearMembership` | js/start.js:84 | a master row is in the view if and only if its year is the selected one |
| `YearFilter.RowsOfYearIsUnique` | js/start.js:84 | any subsequence of the master list with exactly the year's rows at full multiplicity equals the view, so the view is determined |
| `YearFilter.RowsOfYearEmpty` | js/start.js:84 | the view is empty if and only if no master row has the year |
| `YearFilter.RowsOfYearIdempotent` | js/start.js:84 | filtering the view again by the same year changes nothing |
| `YearFilter.Title` | js/start.js:80 | the title is the fixed prefix followed by exactly the year's text |
| `YearFilter.TitleNamesTheYear` | js/start.js:80 | equal titles mean equal years |
| `YearFilter.ThreeRowExample` | js/start.js:83-85 | rows A and B of 1960 and C of 1970: year 1960 keeps A, B; 1970 keeps C; 1980 keeps nothing |
| `PlotLimits.SeqMin` | js/start.js:221 | the minimum is an element of the sequence and no larger than any element |
| `PlotLimits.SeqMax` | js/start.js:222 | the maximum is an element of the sequence and no smaller than any element |
| `PlotLimits.FindMinMax` | js/start.js:218-235 | limits exist exactly when both inputs are non-empty; then xMax and yMax are the largest values, xMin + 0.5 and yMin + 5 are the smallest values, and every value lies in [xMin + 0.5, xMax] and [yMin + 5, yMax] |
| `PlotLimits.LimitsLeaveRoom` | js/start.js:229-234 | xMax >= xMin + 0.5 and yMax >= yMin + 5 |
| `PlotLimits.LimitsDependOnValuesOnly` | js/start.js:218-235 | inputs with the same values, in any order and with any repetition, give the same limits |
| `PlotLimits.ThreeRowExample` | js/start.js:218-235 | fertility 6, 3, 5 and life expectancy 40, 60, 50 give the x-domain [2.5, 6] and the y-domain [35, 60] |
| `NumberFormat.DigitRunIsMaximal` | js/start.js:239 | `DigitRun` is the length of the maximal digit run at an index: all digits, then the end or a non-digit |
| `NumberFormat.CommaAt` | js/start.js:239 | a match position of the pattern lies strictly inside the text, after a word character and before at least three characters, the first of them a digit |
| `NumberFormat.RegexMatchesAt` | js/start.js:239 | the same bounds for the literal reading of the pattern: `\B` followed by one or more groups of three digits and no further digit |
| `NumberFormat.LookaheadIsRunLength` | js/start.js:239 | `(?=(\d{3})+(?!\d))` succeeds at an index exactly when the digit run there has a positive length divisible by 3 |
| `NumberFormat.CommaAtIsRegexMatch` | js/start.js:239 | a comma is inserted at an index exactly when the whole pattern, `\B` included, matches there |
| `NumberFormat.NumberWithCommas` | js/start.js:238-240 | the formatter only inserts commas: the output is at least as long as the input, and deleting the commas of the output gives the input with its own commas deleted |
| `NumberFormat.InsertFrom` | js/start.js:239 | the global replacement from index i on: the output is at least as long as the input's suffix and at most twice as long |
| `NumberFormat.RemoveCommasInsertFrom` | js/start.js:239 | the replacement from index i on only adds commas: deleting the output's commas gives the suffix with its own commas deleted |
| `NumberFormat.RemoveCommasRoundTrip` | js/start.js:238-240 | for comma-free input, deleting the commas of the output gives back the input |
| `NumberFormat.CommaCountOfDigits` | js/start.js:238-240 | a string of n > 0 digits gets exactly (n - 1) / 3 commas |
| `NumberFormat.CommasSeparateGroupsOfThree` | js/start.js:239 | in the output of comma-free input, no comma comes first; each comma follows a word character of the input; each comma is followed by exactly three digits and then the end or a non-digit |
| `NumberFormat.NumericCommasInsideDigitRuns` | js/start.js:239 | for text made of digits, `.` and `-`, each comma has a digit before it and exactly three digits after it, so none starts or ends a digit run |
| `NumberFormat.FormatsMillion` | js/start.js:238-240 | "1000000" becomes "1,000,000" |
| `NumberFormat.FormatsThreeDigits` | js/start.js:238-240 | "999" stays "999" |
| `NumberFormat.FormatsFraction` | js/start.js:238-240 | "1234567.5" becomes "1,234,567.5" |
| `NumberFormat.FormatsFractionalDigits` | js/start.js:238-240 | "0.12345" becomes "0.12,345": the pattern also groups the digits after the decimal point |
| `YearList.FirstIndex` | js/start.js:56 | the index of the first occurrence: it holds the value, and no earlier index does |
| `YearList.Distinct` | js/start.js:56 | the keys are duplicate-free, no more than the inputs, and they are exactly the input values |
| `YearList.DistinctInFirstAppearanceOrder` | js/start.js:56 | the keys come in the order of their first appearance in the input |
| `YearList.DistinctIsUnique` | js/start.js:56 | any duplicate-free list of exactly the input's values in first-appearance order equals `Distinct` |
| `YearList.YearOptions` | js/start.js:55-60 | the drop-down entries are duplicate-free, and a year is listed if and only if some row has it |
| `YearList.YearOptionsInFirstAppearanceOrder` | js/start.js:56 | every drop-down entry is a value of the `time` column, and the entries come in the order in which the rows first mention them |

## Left out

- Drawing: the SVG, the axes (`d3.axisBottom`, `d3.axisLeft`), the circles, the labels of `makeLabels` and the title element (js/start.js:18-21, 74-80, 88-100, 125-134, 171-215). These are presentation through D3, which is not part of this model. The title text itself is modelled.
- `d3.csv` loading and its promise chain (js/start.js:24-34). This is asynchronous I/O. `ScatterPlot.Page.Load` takes the parsed rows as a parameter, and a failed load is not modelled.
- The linear scales `xScale`, `yScale` and the population-to-radius scale (js/start.js:109-111, 131, 176-199). They are floating-point interpolation inside D3.
- Tooltips, transitions and mouse positions (js/start.js:118-152). This is UI timing. `numberWithCommas` itself is modelled.
- The drop-down's own change handler (js/start.js:155-167). It tests `this.checked`, which a select element does not have, and it hides or shows circles of the previous plot. Old circles are never removed: `selectAll('.dot')` matches nothing, because the circles get no `dot` class. These are display effects on D3 marks and are not modelled. The model keeps the filtered view that each plot draws from.
- `parseFloat` and unary `+` coercion, NaN, and `Number.prototype.toString` (exponent notation included). Rows carry already-parsed `real` values. The formatter works on a given string, not on a number.
- Row years are modelled as the text of the CSV cell. The source compares them with loose `==`, once against the number 1960 and otherwise against the drop-down's string value. The model uses string equality throughout, with the initial year written "1960". A cell such as "1960.0" matches the number 1960 in the source but not "1960" in the model.
- PlotLimits.FindMinMax: returns `None` when either column is empty. On empty input the source produces NaN minima and undefined maxima for that axis only, and NaN entries are skipped by `d3.min`/`d3.max`. Neither has a counterpart over `real`. The padding is subtracted exactly over `real`; the source subtracts in double precision, and the rounding of that subtraction is not modelled (for a minimum such as 1e-20, `1e-20 - 0.5` rounds to `-0.5` in doubles, so `xMin + 0.5` would not be a value of the column there).
- `NumberFormat.IsWordChar` follows `\w` without the regular expression's `u` flag (ASCII letters, digits and `_`). Unicode case folding does not apply.
