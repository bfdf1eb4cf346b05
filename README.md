# Employee performance pipeline: transform and analysis core

This project models, in Dafny, the deterministic core of a small batch ETL
pipeline over employee performance records: the transform stage
(`DataTransformer`) and the row-selecting and grouping parts of the analysis
stage (`PerformanceAnalyzer`). The pipeline's extract, load and report steps
are I/O around pandas, SQLAlchemy and matplotlib and are not modelled.

The table is a `Frames.Frame`: a row index plus named columns of equal
length, one `Cell` per row (a number, a text or a timestamp). Numbers are
exact reals. The integer columns, such as `projects_completed` and
`employee_id`, are reals too.

- `results.dfy`: `Option` (where pandas yields NaN) and `Result` (where it
  raises).
- `series.dfy`: `Round2` (`.round(2)`), min, max, sum, mean, a sort, the
  median, and the "at least half on each side" property of the median.
- `frames.dfy`: the table, numeric column access with its KeyError and
  TypeError cases, and boolean-mask row selection (`df[mask]`).
- `transformer.dfy`: the dispatch table, the three column functions, the
  fold that is the loop of `transform_data`, and the imperative
  `TransformData` proved against it.
- `analyzer.dfy`: `identify_top_performers`, `calculate_department_metrics`,
  and `perform_statistical_analysis`, which is a loop proved against a fold.
  It also holds `unique()` and the department partition handed to the ANOVA.

Error conditions are explicit `Err` values: `MissingColumn` (pandas
KeyError), `NonNumericColumn` (TypeError) and `ConstantColumn`. The last
one is returned when a non-empty `performance_score` column has
min == max. There the source divides by zero and pandas produces NaN. No
fallback value is invented.

`datetime.now()` is the parameter `now` of `TransformData`. The input table
is a value, so `df.copy()` and "the input is not mutated" hold by
construction.

`Round2` computes `Floor(x * 100 + 1/2) / 100`. On exact ties it rounds
upward, while floating-point `.round(2)` rounds to the even neighbour. It
agrees everywhere else.

## Model

| member | source | states |
|---|---|---|
| Series.Round2 | src/transformer.py:30 | `.round(2)` as Floor(x*100 + 1/2)/100, rounding exact ties upward; the result lies on the two-decimal grid |
| Series.Round2Error | src/transformer.py:30 | two-decimal rounding moves a value by more than -0.005 and at most +0.005 |
| Series.Round2Monotone | src/transformer.py:26 | rounding to two decimals preserves order |
| Series.Round2OnGrid | src/transformer.py:30 | a value that already has two decimals is left unchanged by rounding |
| Series.Round2Idempotent | src/transformer.py:26 | rounding twice equals rounding once |
| Series.Min | src/transformer.py:26 | `series.min()` is an element of the column and at most every element |
| Series.Max | src/transformer.py:26 | `series.max()` is an element of the column and at least every element |
| Series.Mean | src/analyzer.py:29 | `mean()` of a non-empty column (sum over count) lies between the column's min and max |
| Series.Sort | src/analyzer.py:30 | the sort behind the median yields a sorted permutation of the values |
| Series.Median | src/analyzer.py:30 | `median()`, defined as the middle value of the sorted column (the average of the two middle values for even length); ensures it lies between min and max |
| Series.MedianSplitsInHalf | src/analyzer.py:30 | at least ceil(n/2) values are <= the median and at least ceil(n/2) are >= it |
| Series.CountPermutation | src/analyzer.py:30 | how many values lie on one side of a pivot does not depend on their order |
| Frames.NumericColumn | src/analyzer.py:29 | `df[name]` as numbers: succeeds exactly for a present, all-numeric column and returns its values; else KeyError (missing) or TypeError (non-numeric) |
| Frames.TrueIndices | src/analyzer.py:19 | the positions a boolean mask selects: strictly ascending, in range, each position true, and every true position present |
| Frames.SelectRows | src/analyzer.py:19 | `df[mask]` keeps every column and the selected rows in order, each with its label and all its cells unchanged |
| Transformer.DispatchOrderIsTable | src/transformer.py:7-11 | the dispatch table has three distinct keys visited in dictionary order, and `processed_date` is not one of them |
| Transformer.NormalizePerformanceScore | src/transformer.py:24-26 | min–max normalization preserves the column length; it needs min < max on a non-empty column |
| Transformer.NormalizedInRange | src/transformer.py:24-26 | every normalized score lies in [0, 100] |
| Transformer.NormalizedEndpoints | src/transformer.py:26 | a row holding the column minimum maps to exactly 0 and one holding the maximum to exactly 100 |
| Transformer.NormalizedMonotone | src/transformer.py:26 | x <= y implies norm(x) <= norm(y) |
| Transformer.NormalizedSpan | src/transformer.py:26 | a normalized non-empty column has minimum exactly 0 and maximum exactly 100 |
| Transformer.NormalizeIdempotent | src/transformer.py:26 | normalizing an already normalized column changes nothing |
| Transformer.CalculateAttendanceRate | src/transformer.py:28-30 | each attendance output lies on the two-decimal grid and within (-0.005, +0.005] of 100 times its input, which fixes it uniquely; length preserved |
| Transformer.AttendanceRateExact | src/transformer.py:30 | a rate with at most four decimals becomes exactly 100 times itself (0.95 to 95.0) |
| Transformer.ValidateProjects | src/transformer.py:32-34 | clipping keeps the length, yields only non-negative values, keeps non-negative entries and sets negative ones to 0 |
| Transformer.ValidateProjectsIdempotent | src/transformer.py:34 | clipping twice equals clipping once |
| Transformer.ApplyTransformation | src/transformer.py:19 | one table entry on its column: succeeds exactly for a numeric column (and, for the score, one that is empty or has two distinct values), and then yields a numeric column equal to the entry's column function (normalize, percentage, clip) applied to the input; otherwise TypeError or the constant-column error |
| Transformer.ApplyAllSucceeds | src/transformer.py:17-19 | the loop over the table succeeds exactly when every present table column transforms |
| Transformer.ApplyAllResult | src/transformer.py:17-19 | on success the column set is unchanged, each present table column is replaced by its transformation and every other column passes through |
| Transformer.ApplyAllFailure | src/transformer.py:17-19 | on failure the error is that of the first present table column, in table order, that fails |
| Transformer.ApplyAll | src/transformer.py:17-19 | the loop over the dispatch table: on success the column names and every column's length are unchanged |
| Transformer.StampColumn | src/transformer.py:21 | the `processed_date` column has one cell per row, each the processing time |
| Transformer.TransformData | src/transformer.py:13-22 | the imperative copy-and-assign loop returns exactly the table that the fold over the dispatch table describes |
| Transformer.TransformedFrame | src/transformer.py:15-22 | the table `transform_data` returns: on success it keeps the row index, has the input columns plus `processed_date`, and has equal-length columns when the input does |
| Transformer.TransformDataSpec | src/transformer.py:15-21 | the result keeps the row index, has the input columns plus `processed_date`, transforms only table columns that are present, passes other columns through, creates no absent table column, and stamps every row; it fails exactly when a present table column fails, with the first such error |
| Transformer.ThreeRowExample | tests/test_extractor.py:15-21 | scores 85, 92, 78 normalize to 50, 100, 0; rates 0.95, 0.98, 0.92 become 95, 98, 92 |
| Analyzer.Unique | src/analyzer.py:37 | `unique()` has no duplicates and holds exactly the values occurring in the column |
| Analyzer.UniqueFirstAppearance | src/analyzer.py:37 | `unique()` lists values in the order of their first appearance |
| Analyzer.FirstIndex | src/analyzer.py:37 | the first-appearance position: holds the value, and no earlier row does |
| Analyzer.Group | src/analyzer.py:38 | a department's group is non-empty exactly when the department occurs, and has one value per row of it |
| Analyzer.GroupIsDepartmentRows | src/analyzer.py:38 | a group holds exactly the metric values of that department's rows, in row order, and misses none of them |
| Analyzer.DepartmentGroups | src/analyzer.py:37-38 | one group per department in `unique()` order, each non-empty and equal to that department's group |
| Analyzer.GroupsPartition | src/analyzer.py:37-38 | the groups together hold every metric value exactly once, as a multiset, so their sizes sum to the row count |
| Analyzer.GroupsCover | src/analyzer.py:38 | grouping by any duplicate-free list covering all departments loses and invents no value |
| Analyzer.MetricError | src/analyzer.py:29-37 | a metric can be analysed exactly when its column is present and numeric and the department column is present; the metric's own KeyError or TypeError comes before the KeyError for the department column |
| Analyzer.SummarizeMetric | src/analyzer.py:28-38 | one metric's record: mean and median present exactly when there are rows; distinct departments; one non-empty group per department |
| Analyzer.SummaryValuesSpec | src/analyzer.py:29-30 | mean and median are present exactly when there are rows, and are then the column's `Mean` (sum over count) and `Median`; both lie between min and max; the median has at least half of the values on each side |
| Analyzer.SummaryPartition | src/analyzer.py:37-38 | a metric's statistics carry `unique()` of the department column and the department groups of the metric column |
| Analyzer.FirstMissing | src/analyzer.py:12 | the position of the first configured metric whose column is absent; all before it are present |
| Analyzer.FirstNonNumeric | src/analyzer.py:12-14 | the position of the first configured metric whose column is not numeric; all before it are numeric |
| Analyzer.AtLeastMask | src/analyzer.py:19 | `series >= threshold`: one flag per row, true exactly when the row's value is at least the threshold |
| Analyzer.EqualMask | src/analyzer.py:38 | `column == dept`: one flag per row, true exactly when the row holds that department |
| Analyzer.DeptSummary | src/analyzer.py:12-14 | a department's rounded mean and median both lie between the rounded minimum and maximum of its values |
| Analyzer.PerformanceAnalyzer.IdentifyTopPerformers | src/analyzer.py:17-20 | the filter fails exactly when the score column is missing or non-numeric, with that error; the threshold defaults to 90 |
| Analyzer.PerformanceAnalyzer.TopPerformersSpec | src/analyzer.py:17-20 | every returned row scores >= threshold; every such input row is returned; rows keep their original order, labels and cells |
| Analyzer.PerformanceAnalyzer.CalculateDepartmentMetrics | src/analyzer.py:10-15 | KeyError for a missing department column, then for the first missing metric; TypeError for the first non-numeric metric; otherwise one entry per department value, each with one entry per metric |
| Analyzer.PerformanceAnalyzer.DepartmentMetricsSpec | src/analyzer.py:12-14 | the entry count equals the number of distinct departments; each entry is the rounded `Mean` and rounded `Median` of that department's values, and both lie between the rounded min and max of those values |
| Analyzer.PerformanceAnalyzer.PerformStatisticalAnalysis | src/analyzer.py:22-46 | the imperative loop over the metrics returns exactly what the fold over the metrics describes |
| Analyzer.PerformanceAnalyzer.StatisticalAnalysisSpec | src/analyzer.py:24-46 | apart from the ANOVA's own TypeError: succeeds exactly when every metric can be analysed; then one entry per configured metric and nothing else, each that metric's statistics; otherwise the first failing metric's error |
| Analyzer.AnalyzeMetrics | src/analyzer.py:26-46 | the metric loop from a partly filled results dictionary: on success no earlier entry is lost; on failure the error is that of a listed metric that cannot be analysed |
| Analyzer.AnalyzeMetricsSucceeds | src/analyzer.py:26-38 | the metric loop succeeds exactly when no metric fails |
| Analyzer.AnalyzeMetricsKeys | src/analyzer.py:26-28 | the results dictionary holds the metrics visited, plus those it started with |
| Analyzer.AnalyzeMetricsEntries | src/analyzer.py:28-44 | each metric's entry is that metric's statistics, also when a metric is listed twice |
| Analyzer.AnalyzeMetricsUntouched | src/analyzer.py:26-28 | an entry for a metric the loop does not visit is kept unchanged |
| Analyzer.AnalyzeMetricsFailure | src/analyzer.py:26-39 | a failed metric loop reports the first metric that cannot be analysed |

## Left out

- Standard deviation, skewness and kurtosis (src/analyzer.py:31-33) and the `std` aggregate of the grouped metrics (src/analyzer.py:13): these use square roots and floating-point numerics.
- The one-way ANOVA `stats.f_oneway` (src/analyzer.py:39-44): this is library code. The model keeps the department partition handed to it (`MetricStats.groups`). On a table with fewer than two departments (one department, or no rows) the source raises TypeError at src/analyzer.py:39, while `PerformStatisticalAnalysis` returns Ok. For groups of one row `f_oneway` returns NaN, which is not modelled either.
- `datetime.now()` (src/transformer.py:21): clock reading; it is the parameter `now`.
- Floating point: values are exact reals. NaN and infinity are not modelled. The constant score column gives an error rather than NaN. An empty column's mean and median are `None` rather than NaN.
- Series.Round2Error: rounds exact ties upward, while float `.round(2)` rounds them to even; the strict lower bound `x - 0.005 < Round2(x)` is particular to this rule (half-to-even takes 0.025 to 0.02, which is exactly x - 0.005); only |Round2(x) - x| <= 0.005 holds under both rules.
- The pandas row order of the grouped result (sorted by department) is not modelled. `CalculateDepartmentMetrics` returns a map keyed by department.
- Column order in the table is not modelled: columns are a map, so "appears last" for `processed_date` is not stated.
- Analyzer.PerformanceAnalyzer.CalculateDepartmentMetrics: pandas reports every missing metric in one KeyError; the model reports the first.
- The in-place filling of `stats_results[metric]` and of its `anova` entry (src/analyzer.py:28-44) becomes one record per metric. The record is built in one step in the loop.
- `PerformanceAnalyzer.grouping` (src/analyzer.py:8) is stored and never read, in the model as in the source.
- `src/extractor.py`, `src/loader.py`, `src/report_generator.py` and `main.py` (YAML, CSV, SQL, plots, orchestration) are I/O and are not part of this model.
