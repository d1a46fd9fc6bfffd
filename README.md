# Salary analysis: the analytical core in Dafny

This project models the arithmetic behind a dashboard. The dashboard compares nominal and real salaries of economic sectors with annual inflation. The modelled code is in `app.py` (sidebar, request echo, slicing) and `utils.py` (growth, deflation, correlation ranking); the loaders of `preprocess` are left out. All values are `real`; years are integers.

- **Tables** (`tables.dfy`): the salary table has one row per sector label, with the aggregate row `"средняя"` first, over a contiguous year axis. The inflation series has one rate per year. This module also holds the label and range slicing of `write_analysis`. A label or year the table lacks is reported as an error, where pandas raises `KeyError`.
- **SalaryGrowth** (`growth.dfy`): `pct_change().iloc[1:] * 100`, computed as pandas does (`b / a - 1`), and the mean growth.
- **Deflation** (`deflation.dfy`): `cumprod(1 + infl[::-1] / 100)[::-1]`, taken literally, is proved equal to a reference factor. That factor is anchored at the year after the window and steps forward through each year's inflation. Also the real salary table.
- **Correlation** (`correlation.dfy`): `find_corr` is a method with a loop that appends one row per sector, followed by a descending sort. The Pearson coefficient is a function parameter `corr`. The model fixes which two series `corr` is given, not the value it returns.
- **App** (`app.dfy`): the selection record, `write_user_data`'s echo, and `write_analysis`, which composes the slicing with the computations above.

## Model

| member | source | states |
|---|---|---|
| Tables.MissingSector | app.py:48 | no label is missing exactly when every requested label is a row; a reported label is requested and absent |
| Tables.SliceSalaries | app.py:48 | succeeds iff every label is a row and both end years are columns. Errors name a missing label or year, and a missing label is reported before any missing year. The window has exactly the requested rows in the requested order and end − start + 1 columns. Entry (k, j) is the salary of label k in year start + j |
| Tables.SliceInflation | app.py:49 | succeeds iff both end years exist; a failure names a missing year of the range; end − start + 1 rates, rate j being that of year start + j |
| SalaryGrowth.PctChange | utils.py:44 | the percent change of one pair of consecutive years, computed as pandas does (`(b / a - 1) * 100`) for a non-zero predecessor a: the change times a is the difference b − a, in percent |
| SalaryGrowth.PctChangeIsRelativeDifference | utils.py:44 | pandas' `b / a - 1`, times 100, equals `(b - a) / a * 100` |
| SalaryGrowth.Growth | utils.py:44 | the growth row is one point shorter than the salary row (empty for an empty row) |
| SalaryGrowth.GrowthAt | utils.py:44 | growth point i is `(s[i+1] - s[i]) / s[i] * 100` for non-zero predecessors |
| SalaryGrowth.CompoundGrowth | utils.py:44 | compounding the first salary by the growth row rebuilds the whole salary row, so the transform loses nothing but the unit |
| SalaryGrowth.GrowthTable | utils.py:44 | one growth row per sector row, in the same order |
| SalaryGrowth.Mean | utils.py:56 | `np.mean` of a non-empty row: the value whose multiple by the number of points is the sum of the points |
| SalaryGrowth.MeanBounds | utils.py:56 | the mean growth lies between any lower and upper bound of the growth points |
| SalaryGrowth.MeanOfSteadyGrowth | utils.py:54-56 | a salary growing by a constant rate every year has that rate as its mean growth |
| Deflation.Steps | utils.py:19 | `1 + arr / 100`: one step per rate, step i being `1 + rates[i] / 100` |
| Deflation.Reverse | utils.py:19 | `[::-1]`: same length, and entry i is the input's entry i places from the end |
| Deflation.CumProdStep | utils.py:19 | `np.cumprod` of a row of two or more elements: the first running product is the first element, and each following one is the previous product times the next element |
| Deflation.Factors | utils.py:19 | one factor per year of the inflation window |
| Deflation.FactorsRecurrence | utils.py:19 | the last factor is `1 + infl[last] / 100` and `factor[i] = factor[i+1] * (1 + infl[i] / 100)` |
| Deflation.AnchoredStep | utils.py:19 | the reference factor of year i is year i's step times the reference factor of year i + 1 |
| Deflation.FactorsAnchored | utils.py:19 | the reversed cumulative product equals the product of the steps of years i .. last, anchored at 1 for the year after the window |
| Deflation.AnchoredPositive | utils.py:19 | with every rate above −100 % every factor is positive |
| Deflation.RealSalary | utils.py:32 | one sector row times the factor row, year by year; the deflated row has the length of the nominal row |
| Deflation.RealSalaryAt | utils.py:32 | real salary of year i is the nominal salary of year i times the product of the steps `1 + infl[j] / 100` of years j = i .. last, that is, restated in the money of the year after the window |
| Deflation.RealTable | utils.py:32 | the real salary table has the shape of the nominal window |
| Deflation.RealGrowthDeflatesNominal | utils.py:19-44 | real growth from year i to i + 1, compounded with year i's inflation, gives the nominal growth (Fisher's relation) |
| Correlation.PreviousYearInflation | utils.py:55 | `infl[:-1]` is one shorter and keeps the first rates unchanged |
| Correlation.SectorRow | utils.py:54-56 | the row appended for one sector: its label; the coefficient of its growth row against `infl[:-1]`, both of length window − 1; its mean growth, whose multiple by window − 1 is the sum of the growth row |
| Correlation.SectorRows | utils.py:54-56 | the rows before sorting: one per sector of the window, row k carrying label k |
| Correlation.PairingAligned | utils.py:54-55 | the growth row and `infl[:-1]` have the same length, window − 1; growth index i is paired with inflation index i |
| Correlation.Insert | utils.py:61 | inserting into a row list sorted by descending mean keeps it sorted and adds exactly that row |
| Correlation.SortDesc | utils.py:61 | the sorted table is a permutation of its input, in non-increasing mean growth |
| Correlation.Names | utils.py:58 | the index column taken from the label column: one label per row, label i being the sector of row i |
| Correlation.NamesPermutation | utils.py:58-61 | two tables whose rows are a permutation of each other have index columns that are a permutation of each other, so reordering the rows never adds, drops or duplicates a label |
| Correlation.FindCorr | utils.py:50-61 | one row per selected sector; the rows are a permutation of the per-sector rows (label, `corr(growth, infl[:-1])`, mean growth); the labels are the selected labels; sorted by mean growth, descending |
| App.OfferedSectors | app.py:105 | the options are the index labels without the first, in index order |
| App.AggregateNeverOffered | app.py:105 | with the aggregate first and labels distinct, the aggregate is not an option and every other label is |
| App.SidebarInputFeatures | app.py:104-116 | the sector list starts with `"средняя"`, has 1 + picked entries, and its tail is the picked list. Start lies in [2000, 2022], end in [start + 1, 2023], so end > start |
| App.SelectionRowsExist | app.py:105-111 | the selected labels are distinct rows of the table |
| App.WriteUserData | app.py:36-44 | only averages are announced iff the list has one entry; otherwise `tps[1:]` is listed, which is empty for an empty list; the range is echoed |
| App.UserDataEchoesPick | app.py:39-42 | for a sidebar selection the echo is exactly the picked list, and "averages only" iff nothing was picked |
| App.SidebarSelectionSlices | app.py:47-49 | for tables covering 2000 .. 2023, a sidebar selection never fails a lookup. The salary window has 1 + picked rows and the inflation window has as many years as the salary window, at least two |
| App.WriteAnalysis | app.py:47-83 | salary lookup errors first, then inflation lookup errors; otherwise the report holds both windows, the growth table, the real salary table and the ranked correlation table, related to the selection as stated above |
| App.GrowthPairedWithPreviousYear | app.py:48-70 | growth point i of a sector is the change from year start + i to start + i + 1 and is paired with the inflation of year start + i |
| App.RealSalaryOfYear | app.py:48-83 | the real salary of a sector in year start + j is its nominal salary in that year times the steps of years start + j .. end |
| App.TenPercentWindow | utils.py:19-44 | salaries 100, 110, 121 give growth 10, 10. Inflation 10, 10, 10 gives factors 1.331, 1.21, 1.1, so every real salary is 133.1 |

## Left out

- Plotting and page rendering: every matplotlib/seaborn call, every Streamlit write, the page configuration, the image and the chart title are presentation only.
- `preprocess.load_salaries` and `load_inflation` are not part of this model. The tables are parameters, assumed to be loaded and clean.
- The value of `np.corrcoef` (a square root; NaN under zero variance) is not computed. It is the parameter `corr`. Correlation.FindCorr fixes only which series are passed to it.
- Floating point is not modelled. The model uses exact `real`s. Pandas turns a zero predecessor salary into `inf`/NaN; the model requires instead that no picked sector has a zero salary in the years start .. end − 1 of the window, the predecessors of its growth points (App.NonZeroPredecessorSalaries).
- Correlation.FindCorr requires windows of at least two years, which every sidebar selection gives. A one-year window, which would give empty rows and NaN means in pandas, is not modelled.
- Correlation.SortDesc: `sort_values` defaults to quicksort, which is not stable, so equal means come out in no promised order. The model promises sortedness and a permutation, and nothing about ties.
- Sector lists are sequences, as `["средняя"] + tp` is a Python list: the aggregate first, then the sectors in the order they were picked.
- Salary columns are the strings `str(year)` in the source. They are modelled as integer years on one contiguous axis.
- The widgets themselves are not modelled. Their guarantees—options drawn from the offered list without repeats, and the slider ranges—are the preconditions of App.SidebarInputFeatures.
- The factor anchored at end + 1 uses only the rates of the window. No data for the year end + 1 is needed, so an end year at the last year of the data is fine.
