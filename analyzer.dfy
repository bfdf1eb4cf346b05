/** The analysis stage: the top-performer filter, the per-department
    grouped metrics, and the per-metric statistics together with the
    department partition that is handed to the one-way ANOVA. */
module Analyzer {
  import opened Results
  import opened Series
  import opened Frames

  /** The threshold used when the caller gives none. */
  const DefaultThreshold: real := 90.0

  /** `series >= t`, element by element. */
  function AtLeastMask(xs: seq<real>, t: real): (mask: seq<bool>)
    ensures |mask| == |xs| && forall i :: 0 <= i < |xs| ==> mask[i] == (xs[i] >= t)
  {
    seq(|xs|, i requires 0 <= i < |xs| => xs[i] >= t)
  }

  /** `series == d`, element by element. */
  function EqualMask(cs: seq<Cell>, d: Cell): (mask: seq<bool>)
    ensures |mask| == |cs| && forall i :: 0 <= i < |cs| ==> mask[i] == (cs[i] == d)
  {
    seq(|cs|, i requires 0 <= i < |cs| => cs[i] == d)
  }

  /** `unique()`: the distinct values of a column, each listed once. */
  function Unique(cs: seq<Cell>): (u: seq<Cell>)
    ensures NoDup(u)
    ensures forall x :: x in u <==> x in cs
  {
    if |cs| == 0 then []
    else
      var init := cs[..|cs| - 1];
      var last := cs[|cs| - 1];
      assert cs == init + [last];
      var u := Unique(init);
      if last in u then u else u + [last]
  }

  /** The position of the first occurrence of x. */
  function FirstIndex(cs: seq<Cell>, x: Cell): (k: nat)
    requires x in cs
    ensures k < |cs| && cs[k] == x
    ensures forall j :: 0 <= j < k ==> cs[j] != x
  {
    if cs[0] == x then 0 else 1 + FirstIndex(cs[1..], x)
  }

  lemma FirstIndexOfPrefix(p: seq<Cell>, x: Cell, y: Cell)
    requires y in p
    ensures FirstIndex(p + [x], y) == FirstIndex(p, y)
  {
    var k, k' := FirstIndex(p + [x], y), FirstIndex(p, y);
    assert (p + [x])[k'] == y;
  }

  /** `unique()` lists the values in the order of their first appearance. */
  lemma {:induction false} UniqueFirstAppearance(cs: seq<Cell>)
    ensures forall i, j :: 0 <= i < j < |Unique(cs)| ==>
      FirstIndex(cs, Unique(cs)[i]) < FirstIndex(cs, Unique(cs)[j])
  {
    if |cs| > 0 {
      var init, last := cs[..|cs| - 1], cs[|cs| - 1];
      assert cs == init + [last];
      UniqueFirstAppearance(init);
      var u := Unique(init);
      forall y | y in init
        ensures FirstIndex(cs, y) == FirstIndex(init, y)
      {
        FirstIndexOfPrefix(init, last, y);
      }
      if last !in u {
        assert FirstIndex(cs, last) == |init|;
      }
    }
  }

  /** The rows of department d, in row order. */
  function RowsOf(depts: seq<Cell>, d: Cell): seq<nat>
  {
    TrueIndices(EqualMask(depts, d))
  }

  /** `df[df['department'] == d][metric]`: the metric values of d's rows. */
  function Group(depts: seq<Cell>, vals: seq<real>, d: Cell): (g: seq<real>)
    requires |depts| == |vals|
    ensures |g| == |RowsOf(depts, d)|
    ensures |g| > 0 <==> d in depts
  {
    RowsOfNonEmpty(depts, d);
    Take(vals, RowsOf(depts, d))
  }

  lemma RowsOfNonEmpty(depts: seq<Cell>, d: Cell)
    ensures |RowsOf(depts, d)| > 0 <==> d in depts
  {
    var mask := EqualMask(depts, d);
    if d in depts {
      var i :| 0 <= i < |depts| && depts[i] == d;
      assert mask[i];
    }
    if |RowsOf(depts, d)| > 0 {
      assert mask[RowsOf(depts, d)[0]];
    }
  }

  /** A group holds exactly the metric values of its department's rows, in
      row order. */
  lemma GroupIsDepartmentRows(depts: seq<Cell>, vals: seq<real>, d: Cell)
    requires |depts| == |vals|
    ensures var g, idx := Group(depts, vals, d), RowsOf(depts, d);
      && (forall k :: 0 <= k < |g| ==> idx[k] < |vals| && depts[idx[k]] == d && g[k] == vals[idx[k]])
      && (forall k, l :: 0 <= k < l < |g| ==> idx[k] < idx[l])
      && (forall i :: 0 <= i < |depts| && depts[i] == d ==> i in idx)
  {
  }

  /** The groups of the listed departments, in the listed order. */
  function GroupsOf(depts: seq<Cell>, vals: seq<real>, u: seq<Cell>): (gs: seq<seq<real>>)
    requires |depts| == |vals|
    ensures |gs| == |u|
    ensures forall k :: 0 <= k < |u| ==> gs[k] == Group(depts, vals, u[k])
  {
    if |u| == 0 then [] else [Group(depts, vals, u[0])] + GroupsOf(depts, vals, u[1..])
  }

  /** The groups handed to the ANOVA: one per department, in the order of
      `unique()`; none is empty. */
  function DepartmentGroups(depts: seq<Cell>, vals: seq<real>): (gs: seq<seq<real>>)
    requires |depts| == |vals|
    ensures |gs| == |Unique(depts)|
    ensures forall k :: 0 <= k < |gs| ==> gs[k] == Group(depts, vals, Unique(depts)[k]) && |gs[k]| > 0
  {
    GroupsOf(depts, vals, Unique(depts))
  }

  function Flatten(gs: seq<seq<real>>): seq<real>
  {
    if |gs| == 0 then [] else gs[0] + Flatten(gs[1..])
  }

  function SizeSum(gs: seq<seq<real>>): nat
  {
    if |gs| == 0 then 0 else |gs[0]| + SizeSum(gs[1..])
  }

  lemma {:induction false} FlattenSize(gs: seq<seq<real>>)
    ensures |Flatten(gs)| == SizeSum(gs)
  {
    if |gs| > 0 {
      FlattenSize(gs[1..]);
    }
  }

  /** Appending a row extends only the group of that row's department. */
  lemma GroupSnoc(depts: seq<Cell>, vals: seq<real>, x: Cell, v: real, d: Cell)
    requires |depts| == |vals|
    ensures Group(depts + [x], vals + [v], d) == Group(depts, vals, d) + (if x == d then [v] else [])
  {
    var m := EqualMask(depts + [x], d);
    assert m[..|depts|] == EqualMask(depts, d);
    var idx := RowsOf(depts, d);
    var idx' := RowsOf(depts + [x], d);
    assert idx' == idx + (if x == d then [|depts|] else []);
  }

  lemma {:induction false} GroupsSnoc(depts: seq<Cell>, vals: seq<real>, x: Cell, v: real, u: seq<Cell>)
    requires |depts| == |vals| && NoDup(u)
    ensures multiset(Flatten(GroupsOf(depts + [x], vals + [v], u))) ==
      multiset(Flatten(GroupsOf(depts, vals, u))) + (if x in u then multiset{v} else multiset{})
  {
    if |u| > 0 {
      assert NoDup(u[1..]);
      assert x in u <==> x == u[0] || x in u[1..];
      assert u[0] !in u[1..];
      GroupsSnoc(depts, vals, x, v, u[1..]);
      GroupSnoc(depts, vals, x, v, u[0]);
    }
  }

  lemma {:induction false} GroupsOfNoRows(u: seq<Cell>)
    ensures Flatten(GroupsOf([], [], u)) == []
  {
    if |u| > 0 {
      GroupsOfNoRows(u[1..]);
    }
  }

  /** Grouping by a duplicate-free list that covers every department loses
      no value and invents none. */
  lemma {:induction false} GroupsCover(depts: seq<Cell>, vals: seq<real>, u: seq<Cell>)
    requires |depts| == |vals| && NoDup(u)
    requires forall i :: 0 <= i < |depts| ==> depts[i] in u
    ensures multiset(Flatten(GroupsOf(depts, vals, u))) == multiset(vals)
    decreases |depts|
  {
    if |depts| == 0 {
      GroupsOfNoRows(u);
    } else {
      var n := |depts| - 1;
      assert depts == depts[..n] + [depts[n]];
      assert vals == vals[..n] + [vals[n]];
      GroupsCover(depts[..n], vals[..n], u);
      GroupsSnoc(depts[..n], vals[..n], depts[n], vals[n], u);
    }
  }

  /** The department groups partition the metric column: together they hold
      each value exactly once, so their sizes sum to the row count. */
  lemma GroupsPartition(depts: seq<Cell>, vals: seq<real>)
    requires |depts| == |vals|
    ensures multiset(Flatten(DepartmentGroups(depts, vals))) == multiset(vals)
    ensures SizeSum(DepartmentGroups(depts, vals)) == |vals|
  {
    var gs := DepartmentGroups(depts, vals);
    GroupsCover(depts, vals, Unique(depts));
    FlattenSize(gs);
    assert |Flatten(gs)| == |multiset(Flatten(gs))| == |multiset(vals)| == |vals|;
  }

  lemma {:induction false} NoDupCardinality(u: seq<Cell>)
    requires NoDup(u)
    ensures |set x | x in u| == |u|
  {
    if |u| > 0 {
      var init := u[..|u| - 1];
      assert u == init + [u[|u| - 1]];
      assert NoDup(init);
      NoDupCardinality(init);
      assert (set x | x in u) == (set x | x in init) + {u[|u| - 1]};
    }
  }

  /** The statistics kept for one metric: mean and median (None where pandas
      gives NaN, on an empty column), the departments in `unique()` order and
      their value groups, which are the ANOVA's input. */
  datatype MetricStats = MetricStats(
    mean: Option<real>,
    median: Option<real>,
    departments: seq<Cell>,
    groups: seq<seq<real>>)

  /** Mean and median of one department's values, rounded to two decimals. */
  datatype DeptStats = DeptStats(mean: real, median: real)

  /** What stops the statistics of metric m: the metric column is missing or
      not numeric, or the department column is missing. */
  function MetricError(df: Frame, m: string): (e: Option<Error>)
    ensures e.None? <==> NumericColumn(df, m).Ok? && Department in df.cols
    ensures NumericColumn(df, m).Err? ==> e == Some(NumericColumn(df, m).error)
    ensures NumericColumn(df, m).Ok? && Department !in df.cols ==> e == Some(MissingColumn(Department))
  {
    match NumericColumn(df, m)
    case Err(e) => Some(e)
    case Ok(_) => if Department !in df.cols then Some(MissingColumn(Department)) else None
  }

  function SummarizeMetric(df: Frame, m: string): (s: MetricStats)
    requires Valid(df) && MetricError(df, m).None?
    ensures s.mean.Some? <==> |df.index| > 0
    ensures s.median.Some? <==> |df.index| > 0
    ensures NoDup(s.departments) && |s.groups| == |s.departments|
    ensures forall k :: 0 <= k < |s.groups| ==> |s.groups[k]| > 0
  {
    var xs := NumericColumn(df, m).value;
    var depts := df.cols[Department];
    assert |xs| == |Cells(xs)| == |depts|;
    MetricStats(
      if |xs| == 0 then None else Some(Mean(xs)),
      if |xs| == 0 then None else Some(Median(xs)),
      Unique(depts),
      DepartmentGroups(depts, xs))
  }

  /** The mean and median of one metric: present exactly when there are
      rows, both between the extremes, and the median with at least half of
      the values (rounded up) on each side of it. */
  lemma SummaryValuesSpec(df: Frame, m: string)
    requires Valid(df) && MetricError(df, m).None?
    ensures var s, xs := SummarizeMetric(df, m), NumericColumn(df, m).value;
      && (s.mean.Some? <==> |df.index| > 0)
      && (s.median.Some? <==> |df.index| > 0)
      && (s.mean.Some? ==> Min(xs) <= s.mean.value <= Max(xs))
      && (s.median.Some? ==> Min(xs) <= s.median.value <= Max(xs))
      && (s.mean.Some? ==> s.mean.value == Mean(xs))
      && (s.median.Some? ==> s.median.value == Median(xs))
      && (s.median.Some? ==>
            Count(xs, s.median.value, AtMost) >= (|xs| + 1) / 2 &&
            Count(xs, s.median.value, AtLeast) >= (|xs| + 1) / 2)
  {
    var xs := NumericColumn(df, m).value;
    assert |xs| == |Cells(xs)| == |df.index|;
    if |xs| > 0 {
      MedianSplitsInHalf(xs);
    }
  }

  /** The statistics of one metric carry the partition of its column by
      the department column. */
  lemma SummaryPartition(df: Frame, m: string)
    requires Valid(df) && MetricError(df, m).None?
    ensures var xs := NumericColumn(df, m).value;
      |xs| == |df.index| &&
      SummarizeMetric(df, m).departments == Unique(df.cols[Department]) &&
      SummarizeMetric(df, m).groups == DepartmentGroups(df.cols[Department], xs)
  {
    var xs := NumericColumn(df, m).value;
    assert |xs| == |Cells(xs)| == |df.index|;
  }

  /** The position of the first metric whose column is missing, or the
      number of metrics when all are present. */
  function FirstMissing(df: Frame, ms: seq<string>): (k: nat)
    ensures k <= |ms|
    ensures forall j :: 0 <= j < k ==> ms[j] in df.cols
    ensures k < |ms| ==> ms[k] !in df.cols
  {
    if |ms| == 0 then 0
    else if ms[0] !in df.cols then 0
    else 1 + FirstMissing(df, ms[1..])
  }

  /** The position of the first metric, all present, whose column is not
      numeric, or the number of metrics when all are numeric. */
  function FirstNonNumeric(df: Frame, ms: seq<string>): (k: nat)
    requires forall j :: 0 <= j < |ms| ==> ms[j] in df.cols
    ensures k <= |ms|
    ensures forall j :: 0 <= j < k ==> AllNum(df.cols[ms[j]])
    ensures k < |ms| ==> !AllNum(df.cols[ms[k]])
  {
    if |ms| == 0 then 0
    else if !AllNum(df.cols[ms[0]]) then 0
    else 1 + FirstNonNumeric(df, ms[1..])
  }

  /** Metric k is the first that cannot be analysed, failing with e. */
  predicate FirstUnusable(df: Frame, ms: seq<string>, k: int, e: Error)
  {
    && 0 <= k < |ms|
    && MetricError(df, ms[k]) == Some(e)
    && forall j :: 0 <= j < k ==> MetricError(df, ms[j]).None?
  }

  /** The rounded mean and median of one department's values. */
  function DeptSummary(g: seq<real>): (s: DeptStats)
    requires |g| > 0
    ensures Round2(Min(g)) <= s.mean <= Round2(Max(g))
    ensures Round2(Min(g)) <= s.median <= Round2(Max(g))
  {
    Round2Monotone(Min(g), Mean(g));
    Round2Monotone(Mean(g), Max(g));
    Round2Monotone(Min(g), Median(g));
    Round2Monotone(Median(g), Max(g));
    DeptStats(Round2(Mean(g)), Round2(Median(g)))
  }

  /** The analyzer, configured with the metric columns to analyse. */
  datatype PerformanceAnalyzer = PerformanceAnalyzer(metrics: seq<string>, grouping: seq<string>) {

    /** `identify_top_performers`: the rows whose performance score is at
        least the threshold (90 unless given). */
    function IdentifyTopPerformers(df: Frame, threshold: real := DefaultThreshold): (r: Result<Frame, Error>)
      requires Valid(df)
      ensures r.Ok? <==> NumericColumn(df, PerformanceScore).Ok?
      ensures r.Err? ==> r.error == NumericColumn(df, PerformanceScore).error
    {
      match NumericColumn(df, PerformanceScore)
      case Err(e) => Err(e)
      case Ok(scores) =>
        assert |scores| == |Cells(scores)| == |df.index|;
        Ok(SelectRows(df, AtLeastMask(scores, threshold)))
    }

    /** The top performers are exactly the rows scoring at least the
        threshold, kept in their original order with all their cells and
        labels. */
    lemma TopPerformersSpec(df: Frame, threshold: real)
      requires Valid(df) && NumericColumn(df, PerformanceScore).Ok?
      ensures var scores := NumericColumn(df, PerformanceScore).value;
        var kept := TrueIndices(AtLeastMask(scores, threshold));
        var top := IdentifyTopPerformers(df, threshold).value;
        && Valid(top) && top.cols.Keys == df.cols.Keys
        && |top.index| == |kept|
        && (forall k :: 0 <= k < |kept| ==>
              (kept[k] < |df.index| && top.index[k] == df.index[kept[k]] && Row(top, k) == Row(df, kept[k])))
        && (forall k :: 0 <= k < |kept| ==>
              top.cols[PerformanceScore][k].Num? && top.cols[PerformanceScore][k].n >= threshold)
        && (forall k, l :: 0 <= k < l < |kept| ==> kept[k] < kept[l])
        && (forall i :: 0 <= i < |df.index| && scores[i] >= threshold ==> i in kept)
    {
      var scores := NumericColumn(df, PerformanceScore).value;
      var kept := TrueIndices(AtLeastMask(scores, threshold));
      var top := IdentifyTopPerformers(df, threshold).value;
      assert |scores| == |Cells(scores)| == |df.index|;
      forall k | 0 <= k < |kept|
        ensures top.cols[PerformanceScore][k].Num? && top.cols[PerformanceScore][k].n >= threshold
      {
        assert Row(top, k)[PerformanceScore] == Row(df, kept[k])[PerformanceScore];
        assert Cells(scores)[kept[k]] == Num(scores[kept[k]]);
      }
    }

    /** `calculate_department_metrics`: for every department, the rounded
        mean and median of every metric.  KeyError for a missing department
        column, then for the first missing metric; TypeError for the first
        non-numeric metric. */
    function CalculateDepartmentMetrics(df: Frame): (r: Result<map<Cell, map<string, DeptStats>>, Error>)
      requires Valid(df)
      ensures Department !in df.cols ==> r == Err(MissingColumn(Department))
      ensures Department in df.cols && FirstMissing(df, metrics) < |metrics| ==>
        r == Err(MissingColumn(metrics[FirstMissing(df, metrics)]))
      ensures (Department in df.cols && FirstMissing(df, metrics) == |metrics| &&
               FirstNonNumeric(df, metrics) < |metrics|) ==>
        r == Err(NonNumericColumn(metrics[FirstNonNumeric(df, metrics)]))
      ensures r.Ok? <==> Department in df.cols && forall k :: 0 <= k < |metrics| ==> NumericColumn(df, metrics[k]).Ok?
      ensures r.Ok? ==> forall d :: d in r.value <==> d in df.cols[Department]
      ensures r.Ok? ==> forall d :: d in r.value ==> forall m :: m in r.value[d] <==> m in metrics
    {
      if Department !in df.cols then Err(MissingColumn(Department))
      else
        var missing := FirstMissing(df, metrics);
        if missing < |metrics| then Err(MissingColumn(metrics[missing]))
        else
          var nonNumeric := FirstNonNumeric(df, metrics);
          if nonNumeric < |metrics| then Err(NonNumericColumn(metrics[nonNumeric]))
          else
            var depts := df.cols[Department];
            Ok(map d | d in depts :: map m | m in metrics :: DeptSummary(Group(depts, Nums(df.cols[m]), d)))
    }

    /** One entry per distinct department; each entry holds the rounded mean
        and median of that department's values, which lie within the
        rounded extremes of those values. */
    lemma DepartmentMetricsSpec(df: Frame)
      requires Valid(df) && CalculateDepartmentMetrics(df).Ok?
      ensures |CalculateDepartmentMetrics(df).value| == |Unique(df.cols[Department])|
      ensures forall d, m :: d in CalculateDepartmentMetrics(df).value && m in metrics ==>
        var g := Group(df.cols[Department], Nums(df.cols[m]), d);
        var s := CalculateDepartmentMetrics(df).value[d][m];
        |g| > 0 &&
        s.mean == Round2(Mean(g)) && s.median == Round2(Median(g)) &&
        Round2(Min(g)) <= s.mean <= Round2(Max(g)) &&
        Round2(Min(g)) <= s.median <= Round2(Max(g))
    {
      var depts := df.cols[Department];
      var r := CalculateDepartmentMetrics(df).value;
      NoDupCardinality(Unique(depts));
      assert r.Keys == set x | x in Unique(depts);
    }

    /** `perform_statistical_analysis`: for each metric in turn, its
        statistics; the first metric that cannot be analysed aborts. */
    method PerformStatisticalAnalysis(df: Frame) returns (r: Result<map<string, MetricStats>, Error>)
      requires Valid(df)
      ensures r == AnalyzeMetrics(df, metrics, map[])
    {
      var results: map<string, MetricStats> := map[];
      for i := 0 to |metrics|
        invariant AnalyzeMetrics(df, metrics[i..], results) == AnalyzeMetrics(df, metrics, map[])
      {
        var metric := metrics[i];
        assert metrics[i..][1..] == metrics[i + 1..];
        var e := MetricError(df, metric);
        if e.Some? {
          return Err(e.value);
        }
        results := results[metric := SummarizeMetric(df, metric)];
      }
      r := Ok(results);
    }

    /** What `perform_statistical_analysis` promises, apart from the
        ANOVA's own TypeError: it succeeds exactly when every metric can be
        analysed, and then holds one entry per metric and nothing else, each
        the statistics of that metric; on failure it reports the first
        metric that cannot be analysed. */
    lemma StatisticalAnalysisSpec(df: Frame)
      requires Valid(df)
      ensures AnalyzeMetrics(df, metrics, map[]).Ok? <==>
        forall k :: 0 <= k < |metrics| ==> MetricError(df, metrics[k]).None?
      ensures AnalyzeMetrics(df, metrics, map[]).Ok? ==>
        forall m :: m in AnalyzeMetrics(df, metrics, map[]).value <==> m in metrics
      ensures AnalyzeMetrics(df, metrics, map[]).Ok? ==> forall m :: m in metrics ==>
        MetricError(df, m).None? && AnalyzeMetrics(df, metrics, map[]).value[m] == SummarizeMetric(df, m)
      ensures AnalyzeMetrics(df, metrics, map[]).Err? ==>
        exists k :: FirstUnusable(df, metrics, k, AnalyzeMetrics(df, metrics, map[]).error)
    {
      AnalyzeMetricsSucceeds(df, metrics, map[]);
      if AnalyzeMetrics(df, metrics, map[]).Ok? {
        AnalyzeMetricsKeys(df, metrics, map[]);
        AnalyzeMetricsEntries(df, metrics, map[]);
      } else {
        AnalyzeMetricsFailure(df, metrics, map[]);
      }
    }
  }

  /** The loop of `perform_statistical_analysis` from a partly filled
      results dictionary on. */
  function AnalyzeMetrics(df: Frame, ms: seq<string>, acc: map<string, MetricStats>): (r: Result<map<string, MetricStats>, Error>)
    requires Valid(df)
    ensures r.Ok? ==> forall m :: m in acc ==> m in r.value
    ensures r.Err? ==> exists k :: 0 <= k < |ms| && MetricError(df, ms[k]) == Some(r.error)
    decreases |ms|
  {
    if |ms| == 0 then Ok(acc)
    else match MetricError(df, ms[0])
      case Some(e) => Err(e)
      case None => AnalyzeMetrics(df, ms[1..], acc[ms[0] := SummarizeMetric(df, ms[0])])
  }

  /** The analysis succeeds exactly when every metric can be analysed. */
  lemma {:induction false} AnalyzeMetricsSucceeds(df: Frame, ms: seq<string>, acc: map<string, MetricStats>)
    requires Valid(df)
    ensures AnalyzeMetrics(df, ms, acc).Ok? <==> forall k :: 0 <= k < |ms| ==> MetricError(df, ms[k]).None?
    decreases |ms|
  {
    if |ms| > 0 && MetricError(df, ms[0]).None? {
      AnalyzeMetricsSucceeds(df, ms[1..], acc[ms[0] := SummarizeMetric(df, ms[0])]);
      assert forall k :: 1 <= k < |ms| ==> ms[k] == ms[1..][k - 1];
    }
  }

  /** A successful analysis holds one entry per metric, besides those it
      started with, and nothing else. */
  lemma {:induction false} AnalyzeMetricsKeys(df: Frame, ms: seq<string>, acc: map<string, MetricStats>)
    requires Valid(df) && AnalyzeMetrics(df, ms, acc).Ok?
    ensures forall m :: m in AnalyzeMetrics(df, ms, acc).value <==> m in acc || m in ms
    decreases |ms|
  {
    if |ms| > 0 {
      AnalyzeMetricsKeys(df, ms[1..], acc[ms[0] := SummarizeMetric(df, ms[0])]);
      assert forall m :: m in ms <==> m == ms[0] || m in ms[1..];
    }
  }

  /** In a successful analysis, the entry of each metric is the statistics
      of that metric. */
  lemma {:induction false} AnalyzeMetricsEntries(df: Frame, ms: seq<string>, acc: map<string, MetricStats>)
    requires Valid(df) && AnalyzeMetrics(df, ms, acc).Ok?
    ensures forall m :: m in ms ==>
      MetricError(df, m).None? && m in AnalyzeMetrics(df, ms, acc).value &&
      AnalyzeMetrics(df, ms, acc).value[m] == SummarizeMetric(df, m)
    decreases |ms|
  {
    if |ms| > 0 {
      var acc' := acc[ms[0] := SummarizeMetric(df, ms[0])];
      AnalyzeMetricsEntries(df, ms[1..], acc');
      if ms[0] !in ms[1..] {
        AnalyzeMetricsUntouched(df, ms[1..], acc', ms[0]);
      }
    }
  }

  /** An entry for a metric not in the list is carried through unchanged. */
  lemma {:induction false} AnalyzeMetricsUntouched(df: Frame, ms: seq<string>, acc: map<string, MetricStats>, m: string)
    requires Valid(df) && AnalyzeMetrics(df, ms, acc).Ok? && m in acc && m !in ms
    ensures m in AnalyzeMetrics(df, ms, acc).value && AnalyzeMetrics(df, ms, acc).value[m] == acc[m]
    decreases |ms|
  {
    if |ms| > 0 {
      assert m != ms[0];
      AnalyzeMetricsUntouched(df, ms[1..], acc[ms[0] := SummarizeMetric(df, ms[0])], m);
    }
  }

  /** On failure the analysis reports the first metric that cannot be
      analysed. */
  lemma {:induction false} AnalyzeMetricsFailure(df: Frame, ms: seq<string>, acc: map<string, MetricStats>)
    requires Valid(df) && AnalyzeMetrics(df, ms, acc).Err?
    ensures exists k :: FirstUnusable(df, ms, k, AnalyzeMetrics(df, ms, acc).error)
    decreases |ms|
  {
    var e := AnalyzeMetrics(df, ms, acc).error;
    if MetricError(df, ms[0]).Some? {
      assert FirstUnusable(df, ms, 0, e);
    } else {
      AnalyzeMetricsFailure(df, ms[1..], acc[ms[0] := SummarizeMetric(df, ms[0])]);
      var k :| FirstUnusable(df, ms[1..], k, e);
      assert FirstUnusable(df, ms, k + 1, e);
    }
  }
}
