# GraphScripts plotting logic, modelled in Dafny

GraphScripts is a set of copy-and-edit Python plotting scripts. Each script loads a CSV file
with pandas, filters the rows and draws a seaborn figure. This project models the few pieces
of logic among those library calls:

- **`my_output_file`.** This derives the figure's file name. Three scripts carry slightly
  different copies of it.
- **The row filters.** These are the column-equality filter, the interquartile-range ("stat")
  filters and the `IGNORE_VALUES` removal loop.
- **The significance pairs** handed to the annotator by the bar-plot script.
- **Small derived values.** These are the white palette, the heatmap colour range, the
  well-label split and the cells of the grouped pivot.

| file | module | models |
|---|---|---|
| `wrappers.dfy` | `Wrappers` | `Option`, standing for pandas' NaN and Python's `None` and, for `AddWellColumns`, the exception a failed cast raises |
| `seqs.dfy` | `Seqs` | the associativity of concatenation, shared by the path and pair proofs |
| `output_file.dfy` | `OutputFile` | `my_output_file`, once, with the three copies as `Variant` values, plus `str.split`, `[::-1][0]` and `re.sub(".csv$", …, 1)` |
| `frames.dfy` | `Frames` | a data frame as a sequence of rows, boolean-mask selection, the range mask, the IGNORE_VALUES loop, `set(df[col])`, `.max()` and the white palette |
| `heatmap.dfy` | `HeatMap` | standalone/HeatMap_standalone.py: output path, Tukey filter, colour range, well labels and grouped cells |
| `barplot.dfy` | `BarPlot` | standalone/qPCR_BarPlot_standalone.py: extra filter, zero-based stat filter and the triple loop that builds `pairs` |
| `violin.dfy` | `ViolinPlot` | standalone/MakeViolinPlot_standalone.py: its copy of `my_output_file` and its call |
| `lineplot.dfy` | `LinePlot` | standalone/LinePlot_standalone.py: its copy of `my_output_file` and the two calls choosing the name |

How the model represents the source:

- **Rows.** A row is a value of a type parameter `R`. A column is a function from a row to
  its cell, so `df[col]` on a row `r` is `col(r)`.
- **Selection.** `df[mask]` is `Frames.Filter`, which keeps the rows for which the mask holds,
  in order.
- **Loops.** The two loops of the source are methods with loops:
  - the IGNORE_VALUES loop is `Frames.DropIgnored`;
  - the nested loops that build `pairs` are `BarPlot.SignificancePairs`.

  Each is proved equal to a specification function. Lemmas then state what that function
  keeps, drops and orders.
- **Outcomes of `my_output_file`.**
  - `Path(p)` for a name.
  - `NoPath` for the `None` returned on an extension outside svg/png/pdf/jpeg/jpg. The
    extension is checked before the filename is touched.
  - `Exit(1)` for the `AttributeError` branch, which prints a diagnostic and exits with
    status 1. A filename argument is `Text(s)` or `NoSplit`, where `NoSplit` is a value
    without `split`.
- **The working directory** is a parameter, `cwd`.
- **The `.csv$` pattern** is modelled as written: one character of any kind except a newline,
  then `csv`, then the end of the string or a final newline. So `results_csv` is rewritten
  just as `results.csv` is. The docstring speaks of renaming based on the `.csv` file; the model follows the regex
  as written. `SubCsvOnceNoNewline` states the simple form that holds
  for names without a newline.
- **Copies of `my_output_file`.**
  - The heatmap and line-plot copies put `"_Image"` before the plot type in title mode; the
    violin copy puts `"_"`.
  - The line-plot copy writes under `"/generated_images/"`; the other two write directly
    under `cwd + "/"`.
  - All three use `"_Image"` in csv mode.

## Model

| member | source | states |
|---|---|---|
| OutputFile.MyOutputFile | standalone/HeatMap_standalone.py:55-83 | `None` exactly for an extension outside the allow-list; exit with status 1 exactly for an allowed extension and a filename without `split`; every name returned starts with `cwd` followed by the copy's directory (csv mode is stated for a plot type without a backslash) |
| OutputFile.Split | standalone/HeatMap_standalone.py:65 | `split("/")` yields at least one part and no part contains the separator |
| OutputFile.JoinSplit | standalone/HeatMap_standalone.py:65 | joining the parts of `split(sep)` with `sep` gives back the original string |
| OutputFile.LastComponent | standalone/HeatMap_standalone.py:65-70 | `filename.split("/")[::-1][0]` holds no `/`; `LastComponentIsLast` says which part of the input it is |
| OutputFile.LastComponentIsLast | standalone/HeatMap_standalone.py:70 | `just_name[::-1][0]` is the text after the last `/`, or the whole string when there is none |
| OutputFile.CsvMatch | standalone/HeatMap_standalone.py:67-72 | the match found is the leftmost position where any non-newline character and `csv` end the string or precede a final newline; `None` means there is no such position |
| OutputFile.SubCsvOnce | standalone/HeatMap_standalone.py:67-72 | `re.sub(".csv$", repl, s, 1)`: a string without a match comes back unchanged; otherwise the leftmost match, and only it, is replaced by `repl`, taken literally (for a replacement without backslash escapes) |
| OutputFile.SubCsvOnceNoNewline | standalone/HeatMap_standalone.py:67-72 | for a name without a newline: a name ending in any character plus `csv` loses those four characters to the replacement; any other name is unchanged |
| OutputFile.CsvModeUsesLastComponent | standalone/HeatMap_standalone.py:65-72 | csv mode, for an allowed extension and a plot type without a backslash: the result depends on the last path component alone, rewritten and placed under `cwd` and the directory |
| OutputFile.CsvSuffixRewritten | standalone/HeatMap_standalone.py:66-75 | csv mode, for an allowed extension, a plot type without a backslash and a last component without a newline: a component ending in any non-newline character plus `csv` gives `cwd + dir + stem + "_Image" + plot_type + "." + extension` |
| OutputFile.NonCsvNameKept | standalone/HeatMap_standalone.py:67-75 | csv mode, for an allowed extension, a plot type without a backslash and a last component without a newline: a component without that ending comes back unchanged, with only `cwd` and the directory in front |
| OutputFile.CsvModeDropsDirectories | standalone/HeatMap_standalone.py:65-75 | csv mode, for an allowed extension and a plot type without `/` or a backslash: a string filename always gives a name, and nothing after `cwd + dir` contains a `/` |
| OutputFile.TitleModeAppends | standalone/HeatMap_standalone.py:73-75 | title mode, for an allowed extension: keeps the whole string, with no split, and appends the copy's infix, the plot type, `"."` and the extension |
| HeatMap.SvgOut | standalone/HeatMap_standalone.py:87-94 | the file name is used in csv mode and ALT_TITLE in title mode; the run exits with status 1 exactly when the argument chosen has no `split`; otherwise the path starts with `cwd + "/"` |
| HeatMap.AltTitleOutput | standalone/HeatMap_standalone.py:91-94 | with the script's settings the figure is `cwd + "/MHVY_combined_reps_ImageHeatmap.svg"` |
| HeatMap.CsvNameOutput | standalone/HeatMap_standalone.py:87-90 | `"x/data.csv"` gives `cwd + "/data_ImageHeatmap.svg"` |
| HeatMap.UnescapedDotRewrites | standalone/HeatMap_standalone.py:67-72 | because the dot is unescaped, `"x/results_csv"` gives `cwd + "/results_ImageHeatmap.svg"` |
| HeatMap.TukeyBounds | standalone/HeatMap_standalone.py:103-108 | the bounds are 4·IQR apart and centred on (Q1+Q3)/2; with Q1 ≤ Q3 they enclose [Q1, Q3] |
| HeatMap.StatFilter | standalone/HeatMap_standalone.py:109-110 | each kept row is a loaded row with Q1−1.5·IQR ≤ v ≤ Q3+1.5·IQR, and every loaded row within those bounds is kept |
| HeatMap.StatFilterExact | standalone/HeatMap_standalone.py:102-110 | a row is kept iff Q1−1.5·IQR ≤ v ≤ Q3+1.5·IQR (both bounds inclusive); kept rows keep all their copies; the result is an order-preserving subsequence |
| HeatMap.StatFilterKeepsInner | standalone/HeatMap_standalone.py:102-110 | with Q1 ≤ Q3, every row between the quartiles or exactly on a bound survives |
| HeatMap.StatFilterIdempotent | standalone/HeatMap_standalone.py:109-110 | filtering the filtered rows again with the same bounds changes nothing |
| HeatMap.HeatMapRows | standalone/HeatMap_standalone.py:102-116 | each row left is a loaded row whose Y_VAL is not ignored and, with STAT_FILTER, whose HEAT_VAL is within bounds; every loaded row meeting those conditions is left |
| HeatMap.FilterRows | standalone/HeatMap_standalone.py:102-116 | the STAT_FILTER branch followed by the IGNORE_VALUES loop computes `HeatMapRows` |
| HeatMap.HeatMapRowsExact | standalone/HeatMap_standalone.py:102-116 | a row survives iff it is in bounds (when STAT_FILTER is on) and its Y_VAL is not ignored; copies are counted exactly; the result is a subsequence of the loaded rows |
| Frames.DropIgnored | standalone/HeatMap_standalone.py:114-116 | the guarded loop removing one value per pass leaves exactly `WithoutIgnored` |
| Frames.WithoutIgnored | standalone/HeatMap_standalone.py:114-116 | each row left has a key outside IGNORE_VALUES, and every loaded row with such a key is left |
| Frames.DropValue | standalone/HeatMap_standalone.py:116 | one `df[df[col] != rem]` pass keeps exactly the rows whose key differs from `rem` |
| Frames.DropValueExtends | standalone/HeatMap_standalone.py:116 | one more pass `df[df[col] != rem]` extends the removed list by `rem` |
| Frames.WithoutIgnoredExact | standalone/qPCR_BarPlot_standalone.py:84-86 | a row survives iff its key is not listed; an ignored key loses every copy and any other row keeps all its copies, in order |
| Frames.WithoutNothing | standalone/HeatMap_standalone.py:114 | an empty IGNORE_VALUES leaves the frame unchanged |
| Frames.IgnoreOrderIrrelevant | standalone/HeatMap_standalone.py:115-116 | two ignore lists with the same members give the same rows, whatever their order or repetition |
| Frames.Filter | standalone/qPCR_BarPlot_standalone.py:67 | a mask selection keeps only rows that satisfy the mask and every row that does |
| Frames.FilterCount | standalone/qPCR_BarPlot_standalone.py:67 | a selection keeps every copy of a selected row and no copy of a rejected one |
| Frames.FilterIsSubsequence | standalone/qPCR_BarPlot_standalone.py:67 | a selection keeps the order of the rows it keeps |
| Frames.FilterTwice | standalone/HeatMap_standalone.py:115-116 | two successive selections are one selection by both masks |
| Frames.InRangeExact | standalone/HeatMap_standalone.py:109-110 | the two-sided inclusive mask keeps exactly the rows within the bounds, with their copies, in order |
| Frames.InRange | standalone/HeatMap_standalone.py:109-110 | `df[(df[col] >= low) & (df[col] <= high)]` keeps only rows with low ≤ v ≤ high, and every such row |
| Frames.MaxOf | standalone/HeatMap_standalone.py:129 | `.max()` is `None` (NaN) exactly for no rows; otherwise some row attains it and it bounds every row |
| HeatMap.HeatColorRange | standalone/HeatMap_standalone.py:126-139 | `vmin` is 0 unless THRESHOLDING, then THRESHOLD; `vmax` is the maximum HEAT_VAL of the filtered rows, `None` for none |
| HeatMap.VMaxWithinBounds | standalone/HeatMap_standalone.py:102-129 | with STAT_FILTER on and some row left, `vmax` lies within the interquartile-range bounds |
| HeatMap.Extract | standalone/HeatMap_standalone.py:124-125 | `str.extract` gives `None` iff no character of the class occurs; otherwise it gives the leftmost maximal run |
| HeatMap.DecimalRoundTrip | standalone/HeatMap_standalone.py:125 | `int` of the decimal digits of `n` is `n` |
| HeatMap.ParseWell | standalone/HeatMap_standalone.py:124-125 | the row letters are missing (NaN) iff the label has no letter and are otherwise its first maximal letter run; the column is missing iff the label has no digit and is otherwise the value of its first maximal digit run |
| HeatMap.ParseWellRoundTrip | standalone/HeatMap_standalone.py:124-125 | a label made of letters followed by a number's digits splits back into those letters and that number |
| HeatMap.WellB7 | standalone/HeatMap_standalone.py:124-125 | `"B7"` gives row `"B"` and column 7 |
| HeatMap.AddWellColumns | standalone/HeatMap_standalone.py:123-125 | `astype(int)` fails (`None`) exactly when some label has no digits or digits whose value exceeds the int64 maximum 2^63−1; otherwise every row gets its row letters and its column number, in order |
| HeatMap.WellColumnsB7 | standalone/HeatMap_standalone.py:123-125 | a row labelled `"B7"` gains row `"B"` and column 7 |
| HeatMap.WellColumnOverflows | standalone/HeatMap_standalone.py:125 | a label whose digits spell 2^63 makes the cast fail |
| HeatMap.Groups | standalone/HeatMap_standalone.py:130-131 | every filtered row's (X_VAL, Y_VAL) pair has a cell |
| HeatMap.GroupCells | standalone/HeatMap_standalone.py:130-131 | there is a cell exactly for each (X, Y) pair occurring in the rows; a cell holds exactly the rows with its pair; there are no more cells than rows; all cells lie on the grid of distinct X by distinct Y |
| Frames.Distinct | standalone/qPCR_BarPlot_standalone.py:93 | `set(df[col])` holds every row's cell and nothing that is not some row's cell |
| Frames.DistinctBound | standalone/qPCR_BarPlot_standalone.py:93 | a column has no more distinct values than rows, and none exactly when the frame is empty |
| Frames.WhiteWheel | standalone/qPCR_BarPlot_standalone.py:93 | the palette has one entry per distinct WHITE_OVERLAY value, and every entry is `"#FFFFFF"` |
| Frames.WhiteWheelSize | standalone/MakeViolinPlot_standalone.py:56 | the palette is no longer than the frame, has at least one entry for a non-empty frame, and the values it counts are exactly the column's cells |
| BarPlot.ExtraFilter | standalone/qPCR_BarPlot_standalone.py:65-69 | with EXTRA_FILTER, only and all rows with FILTER_COL = FILTER_VAL; without it, the loaded rows unchanged |
| BarPlot.ExtraFilterExact | standalone/qPCR_BarPlot_standalone.py:65-69 | membership iff the equality holds (when enabled); exact copy counts; order preserved |
| BarPlot.ZeroBasedBounds | standalone/qPCR_BarPlot_standalone.py:73-79 | the lower bound is 0 whatever Q1 is; the upper is 1.5·IQR above Q3, so at least Q3 when Q1 ≤ Q3 |
| BarPlot.StatFilter | standalone/qPCR_BarPlot_standalone.py:80 | each kept row is a loaded row with 0 ≤ v ≤ Q3+1.5·IQR, and every such row is kept |
| BarPlot.StatFilterExact | standalone/qPCR_BarPlot_standalone.py:73-80 | a row is kept iff 0 ≤ v ≤ Q3+1.5·IQR, with all its copies, in order |
| BarPlot.StatFilterKeepsLowerHalf | standalone/qPCR_BarPlot_standalone.py:78-80 | with Q1 ≤ Q3, a row with 0 ≤ v ≤ Q3 always survives |
| BarPlot.BarPlotRows | standalone/qPCR_BarPlot_standalone.py:65-86 | each row left is a loaded row passing every enabled filter with its BAR_SPLIT not ignored; every loaded row meeting those conditions is left |
| BarPlot.FilterRows | standalone/qPCR_BarPlot_standalone.py:65-86 | the three steps in order compute `BarPlotRows` |
| BarPlot.BarPlotRowsExact | standalone/qPCR_BarPlot_standalone.py:65-86 | a row survives iff it passes every enabled filter and its BAR_SPLIT is not ignored; copy counts are exact; the final rows are an order-preserving subsequence of the loaded rows |
| BarPlot.SignificancePairs | standalone/qPCR_BarPlot_standalone.py:131-140 | the triple loop produces exactly `AllPairs(TISSUE_ORDER, TREATMENT_ORDER)` |
| BarPlot.TissuePairs | standalone/qPCR_BarPlot_standalone.py:134-140 | every pair built for one tissue has that tissue on both sides |
| BarPlot.AllPairs | standalone/qPCR_BarPlot_standalone.py:131-140 | every pair in `pairs` compares two groups of the same tissue, and that tissue is in TISSUE_ORDER |
| BarPlot.PairsFromStep | standalone/qPCR_BarPlot_standalone.py:135-140 | one pass of the innermost loop appends the pair for `idx` exactly when `treat < idx` |
| BarPlot.AllPairsCount | standalone/qPCR_BarPlot_standalone.py:131-140 | there are \|TISSUE_ORDER\| × (pairs per tissue) pairs, and none when there are at most one treatment |
| BarPlot.PerTissueClosed | standalone/qPCR_BarPlot_standalone.py:134-136 | each tissue contributes n(n−1)/2 pairs, n = \|TREATMENT_ORDER\| |
| BarPlot.TissuePairsAt | standalone/qPCR_BarPlot_standalone.py:134-140 | within one tissue's pairs for first indices below `upTo`, the pair (T[i], T[j]) with i < upTo and i < j is at position PairsBefore(n, i) + (j − i − 1) |
| BarPlot.AllPairsAt | standalone/qPCR_BarPlot_standalone.py:133-140 | ((t_a, T[i]), (t_a, T[j])) for each tissue a and each i < j sits at position a·n(n−1)/2 + PairsBefore(n, i) + (j − i − 1): ordered by tissue, then i, then j |
| BarPlot.AllPairsForm | standalone/qPCR_BarPlot_standalone.py:133-139 | every pair has the same tissue on both sides and treatments T[i], T[j] with i < j |
| BarPlot.TwoTreatments | standalone/qPCR_BarPlot_standalone.py:44 | with TREATMENT_ORDER = ["WT","KO"] the list is exactly ((t,"WT"),(t,"KO")) for each tissue, in TISSUE_ORDER |
| ViolinPlot.SvgOut | standalone/MakeViolinPlot_standalone.py:33-51 | the call at line 51 exits with status 1 iff the filename has no `split`; otherwise it names a file under `cwd + "/"` |
| ViolinPlot.SvgOutFlat | standalone/MakeViolinPlot_standalone.py:38-43 | for every string filename, the name after `cwd + "/"` contains no `/`: the input's directories are dropped |
| ViolinPlot.MyFileOutput | standalone/MakeViolinPlot_standalone.py:16-51 | `"../datasets/my_file.csv"` gives `cwd + "/my_file_ImageViolin.svg"` |
| ViolinPlot.TitleModeUnderscore | standalone/MakeViolinPlot_standalone.py:41-43 | title mode of this copy, for an allowed extension, gives `cwd + "/" + filename + "_" + plot_type + "." + extension`, with no `Image` |
| LinePlot.SvgOut | standalone/LinePlot_standalone.py:55-76 | the file name in csv mode or `alternate_title` in title mode; a value without `split` exits with status 1; every name otherwise starts with `cwd + "/generated_images/"` |
| LinePlot.CsvModeLinePlot | standalone/LinePlot_standalone.py:60-62 | csv mode, for a last component without a newline, replaces its trailing non-newline-character-plus-`csv` with `"_ImageLinePlot.svg"` under `cwd + "/generated_images/"` |
| LinePlot.AlternateTitleOutput | standalone/LinePlot_standalone.py:73-76 | with the script's settings the figure is `cwd + "/generated_images/MHVY_fixed_heatmap_ImageLinePlot.svg"` |
| LinePlot.FilenameOutput | standalone/LinePlot_standalone.py:23-74 | with `format_based_on_filename` set, `"datasets/KN_fixed_results.csv"` gives `cwd + "/generated_images/KN_fixed_results_ImageLinePlot.svg"` |

## Left out

- Plotting and file output are left out: the seaborn and matplotlib calls, `set_under`, axis
  styling, `savefig` and `show`. They only render.
- `pd.read_csv` and CSV parsing are left out. A frame is an abstract sequence of rows.
- The column lookup `df[col]` is always defined in the model; the `KeyError` raised on a
  missing column is not modelled.
- The quartiles `.quantile(0.25)` and `.quantile(0.75)` are inputs, not computed. Pandas'
  interpolation is floating point.
- Cell values are `real`. Float rounding and NaN cells are not modelled: a NaN fails both
  `>=` and `<=` in pandas.
- The `groupby(...).mean()` arithmetic is not modelled. `HeatMap.Groups` gives each cell's
  rows, not their mean.
- Pivot axis ordering is not modelled.
- The duplicate-index error of the well-mode `pivot` is not modelled.
- The Mann-Whitney test and star annotation (`statannotations.Annotator`) are left out. They
  come from a library this model does not see.
- The annotator, catplot and stripplot consume `pairs`, TISSUE_ORDER and the palette; that
  consumption is not modelled.
- `os.getcwd()` is the parameter `cwd`. `sys.exit(1)` is the outcome `Exit(1)`. The text the
  diagnostic `print` writes is not modelled, and neither are the `print(...shape[0])` and
  `print(...head())` calls.
- In well mode the model adds the `row` and `column` columns by returning new rows
  (`HeatMap.AddWellColumns`). It does not update `filtered_df` in place, so a later read
  through an alias of the old frame is not modelled.
- scripts/LinePlot.py is not part of this model. The calls through
  `functions.parameters.all_file_funcs` (standalone/LinePlot_standalone.py:12-17) are not
  part of it either: that module is not available. The figure saved at line 105 goes to that
  module's `OutputFile`, not to the `mySVGOut` modelled by `LinePlot.SvgOut`.
- OutputFile.MyOutputFile: in csv mode the model requires that `plot_type` contains no
  backslash. `re.sub` interprets backslash escapes in its replacement string, and those
  escapes are not modelled.
- HeatMap.Extract: `\d` is read as the ASCII digits 0-9. Python's regex also accepts other
  Unicode decimal digits, which are not modelled.
- HeatMap.AddWellColumns: a missing label (NaN in the `Well Positions` column) is not a
  case; every row has a string label.
- HeatMap.AddWellColumns: `astype(int)` is taken to cast to int64. That is numpy's default
  integer on Linux and macOS. The 32-bit default of Windows builds before numpy 2 is not
  modelled.
