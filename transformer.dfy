/** The transform stage: a fixed table of per-column functions, applied to
    a copy of the input table, followed by a processing-timestamp column. */
module Transformer {
  import opened Results
  import opened Series
  import opened Frames

  /** The per-column transformations, one variant per dispatch-table entry. */
  datatype Transformation = Normalize | ToPercent | ClipAtZero

  /** The dispatch table: which transformation each column name selects, and
      the order in which the table's keys are visited (dictionary order). */
  const Transformations: map<string, Transformation> :=
    map[PerformanceScore := Normalize, AttendanceRate := ToPercent, ProjectsCompleted := ClipAtZero]
  const TransformationOrder: seq<string> := [PerformanceScore, AttendanceRate, ProjectsCompleted]

  /** The visiting order lists every key of the table exactly once. */
  lemma DispatchOrderIsTable()
    ensures NoDup(TransformationOrder)
    ensures forall c :: c in Transformations <==> c in TransformationOrder
    ensures ProcessedDate !in Transformations
  {
  }

  /** Linear rescaling of x from [lo, hi] onto [0, 100]. */
  function Rescale(x: real, lo: real, hi: real): real
    requires lo < hi
  {
    (x - lo) / (hi - lo) * 100.0
  }

  lemma FractionBounds(a: real, d: real)
    requires 0.0 <= a <= d && d > 0.0
    ensures 0.0 <= a / d <= 1.0
  {
    assert a / d + (d - a) / d == (a + (d - a)) / d;
  }

  lemma RescaleBounds(x: real, lo: real, hi: real)
    requires lo < hi && lo <= x <= hi
    ensures 0.0 <= Rescale(x, lo, hi) <= 100.0
    ensures x == lo ==> Rescale(x, lo, hi) == 0.0
    ensures x == hi ==> Rescale(x, lo, hi) == 100.0
  {
    FractionBounds(x - lo, hi - lo);
  }

  lemma RescaleMonotone(x: real, y: real, lo: real, hi: real)
    requires lo < hi && x <= y
    ensures Rescale(x, lo, hi) <= Rescale(y, lo, hi)
  {
    var d := hi - lo;
    assert (y - lo) / d - (x - lo) / d == (y - x) / d;
  }

  /** Min-max rescaling of the performance scores to 0..100, rounded to two
      decimals.  A non-empty column needs two distinct values. */
  function NormalizePerformanceScore(xs: seq<real>): (r: seq<real>)
    requires |xs| == 0 || Min(xs) < Max(xs)
    ensures |r| == |xs|
  {
    if |xs| == 0 then []
    else seq(|xs|, i requires 0 <= i < |xs| => Round2(Rescale(xs[i], Min(xs), Max(xs))))
  }

  /** Every normalized score lies in [0, 100]. */
  lemma NormalizedInRange(xs: seq<real>)
    requires |xs| == 0 || Min(xs) < Max(xs)
    ensures forall i :: 0 <= i < |xs| ==> 0.0 <= NormalizePerformanceScore(xs)[i] <= 100.0
  {
    forall i | 0 <= i < |xs|
      ensures 0.0 <= NormalizePerformanceScore(xs)[i] <= 100.0
    {
      var v := Rescale(xs[i], Min(xs), Max(xs));
      RescaleBounds(xs[i], Min(xs), Max(xs));
      Round2Monotone(0.0, v);
      Round2Monotone(v, 100.0);
      Round2OnGrid(0);
      Round2OnGrid(10000);
    }
  }

  /** The lowest score maps to exactly 0 and the highest to exactly 100. */
  lemma NormalizedEndpoints(xs: seq<real>)
    requires |xs| == 0 || Min(xs) < Max(xs)
    ensures forall i :: 0 <= i < |xs| && xs[i] == Min(xs) ==> NormalizePerformanceScore(xs)[i] == 0.0
    ensures forall i :: 0 <= i < |xs| && xs[i] == Max(xs) ==> NormalizePerformanceScore(xs)[i] == 100.0
  {
    forall i | 0 <= i < |xs| && (xs[i] == Min(xs) || xs[i] == Max(xs))
      ensures xs[i] == Min(xs) ==> NormalizePerformanceScore(xs)[i] == 0.0
      ensures xs[i] == Max(xs) ==> NormalizePerformanceScore(xs)[i] == 100.0
    {
      RescaleBounds(xs[i], Min(xs), Max(xs));
      Round2OnGrid(0);
      Round2OnGrid(10000);
    }
  }

  /** Normalization keeps the order of the scores. */
  lemma NormalizedMonotone(xs: seq<real>)
    requires |xs| == 0 || Min(xs) < Max(xs)
    ensures forall i, j :: 0 <= i < |xs| && 0 <= j < |xs| && xs[i] <= xs[j] ==>
      NormalizePerformanceScore(xs)[i] <= NormalizePerformanceScore(xs)[j]
  {
    forall i, j | 0 <= i < |xs| && 0 <= j < |xs| && xs[i] <= xs[j]
      ensures NormalizePerformanceScore(xs)[i] <= NormalizePerformanceScore(xs)[j]
    {
      RescaleMonotone(xs[i], xs[j], Min(xs), Max(xs));
      Round2Monotone(Rescale(xs[i], Min(xs), Max(xs)), Rescale(xs[j], Min(xs), Max(xs)));
    }
  }

  /** A normalized column spans exactly [0, 100]. */
  lemma NormalizedSpan(xs: seq<real>)
    requires |xs| > 0 && Min(xs) < Max(xs)
    ensures Min(NormalizePerformanceScore(xs)) == 0.0
    ensures Max(NormalizePerformanceScore(xs)) == 100.0
  {
    NormalizedInRange(xs);
    NormalizedEndpoints(xs);
    SpanOf(NormalizePerformanceScore(xs), ArgMin(xs), ArgMax(xs));
  }

  lemma SpanOf(r: seq<real>, lo: nat, hi: nat)
    requires lo < |r| && hi < |r| && r[lo] == 0.0 && r[hi] == 100.0
    requires forall i :: 0 <= i < |r| ==> 0.0 <= r[i] <= 100.0
    ensures Min(r) == 0.0 && Max(r) == 100.0
  {
    MinIsUnique(r, 0.0);
    MaxIsUnique(r, 100.0);
  }

  /** Normalizing a normalized column changes nothing. */
  lemma NormalizeIdempotent(xs: seq<real>)
    requires |xs| == 0 || Min(xs) < Max(xs)
    ensures var r := NormalizePerformanceScore(xs);
      (|r| == 0 || Min(r) < Max(r)) && NormalizePerformanceScore(r) == r
  {
    var r := NormalizePerformanceScore(xs);
    if |xs| > 0 {
      NormalizedSpan(xs);
      var r2 := NormalizePerformanceScore(r);
      forall i | 0 <= i < |r|
        ensures r2[i] == r[i]
      {
        RescaleIdentity(r[i]);
        Round2Idempotent(Rescale(xs[i], Min(xs), Max(xs)));
      }
    }
  }

  lemma RescaleIdentity(x: real)
    ensures Rescale(x, 0.0, 100.0) == x
  {
  }

  /** Attendance as a percentage, rounded to two decimals. */
  function CalculateAttendanceRate(xs: seq<real>): (r: seq<real>)
    ensures |r| == |xs|
    ensures forall i :: 0 <= i < |xs| ==> xs[i] * 100.0 - 0.005 < r[i] <= xs[i] * 100.0 + 0.005
    ensures forall i :: 0 <= i < |r| ==> (r[i] * 100.0).Floor as real == r[i] * 100.0
  {
    seq(|xs|, i requires 0 <= i < |xs| => Round2(xs[i] * 100.0))
  }

  /** A rate given to four decimals (0.95, 0.875) becomes its exact
      percentage (95.0, 87.5). */
  lemma AttendanceRateExact(xs: seq<real>)
    requires forall i :: 0 <= i < |xs| ==> (xs[i] * 10000.0).Floor as real == xs[i] * 10000.0
    ensures forall i :: 0 <= i < |xs| ==> CalculateAttendanceRate(xs)[i] == xs[i] * 100.0
  {
    forall i | 0 <= i < |xs|
      ensures CalculateAttendanceRate(xs)[i] == xs[i] * 100.0
    {
      var k := (xs[i] * 10000.0).Floor;
      assert k as real / 100.0 == xs[i] * 100.0;
      Round2OnGrid(k);
    }
  }

  /** Project counts clipped below at 0. */
  function ValidateProjects(xs: seq<real>): (r: seq<real>)
    ensures |r| == |xs|
    ensures forall i :: 0 <= i < |r| ==> r[i] >= 0.0
    ensures forall i :: 0 <= i < |xs| && xs[i] >= 0.0 ==> r[i] == xs[i]
    ensures forall i :: 0 <= i < |xs| && xs[i] < 0.0 ==> r[i] == 0.0
  {
    seq(|xs|, i requires 0 <= i < |xs| => if xs[i] < 0.0 then 0.0 else xs[i])
  }

  lemma ValidateProjectsIdempotent(xs: seq<real>)
    ensures ValidateProjects(ValidateProjects(xs)) == ValidateProjects(xs)
  {
  }

  /** One dispatch-table entry applied to the column it is named after. */
  function ApplyTransformation(t: Transformation, column: string, col: seq<Cell>): (r: Result<seq<Cell>, Error>)
    ensures r.Ok? <==> AllNum(col) && (t == Normalize ==> |col| == 0 || Min(Nums(col)) < Max(Nums(col)))
    ensures r.Ok? ==> |r.value| == |col|
    ensures r.Ok? ==> (
      && AllNum(r.value)
      && Nums(r.value) == match t
         case Normalize => NormalizePerformanceScore(Nums(col))
         case ToPercent => CalculateAttendanceRate(Nums(col))
         case ClipAtZero => ValidateProjects(Nums(col)))
    ensures r.Err? && !AllNum(col) ==> r.error == NonNumericColumn(column)
    ensures r.Err? && AllNum(col) ==> r.error == ConstantColumn(column)
  {
    if !AllNum(col) then Err(NonNumericColumn(column))
    else
      var xs := Nums(col);
      match t
      case Normalize =>
        if |xs| > 0 && Min(xs) == Max(xs) then Err(ConstantColumn(column))
        else
          assert |xs| > 0 ==> Min(xs) <= xs[0] <= Max(xs);
          Ok(Cells(NormalizePerformanceScore(xs)))
      case ToPercent => Ok(Cells(CalculateAttendanceRate(xs)))
      case ClipAtZero => Ok(Cells(ValidateProjects(xs)))
  }

  /** The result of the table entry for column c on the table's column c. */
  function Applied(cols: map<string, seq<Cell>>, c: string): Result<seq<Cell>, Error>
    requires c in cols && c in Transformations
  {
    ApplyTransformation(Transformations[c], c, cols[c])
  }

  /** The loop over the dispatch table: each listed column that is present
      is replaced by its transformation; the first failure aborts. */
  function ApplyAll(cols: map<string, seq<Cell>>, names: seq<string>): (r: Result<map<string, seq<Cell>>, Error>)
    requires forall k :: 0 <= k < |names| ==> names[k] in Transformations
    ensures r.Ok? ==> r.value.Keys == cols.Keys
    ensures r.Ok? ==> forall c :: c in cols ==> |r.value[c]| == |cols[c]|
    decreases |names|
  {
    if |names| == 0 then Ok(cols)
    else if names[0] !in cols then ApplyAll(cols, names[1..])
    else match Applied(cols, names[0])
      case Err(e) => Err(e)
      case Ok(v) => ApplyAll(cols[names[0] := v], names[1..])
  }

  /** ApplyAll succeeds exactly when every listed, present column
      transforms. */
  lemma {:induction false} ApplyAllSucceeds(cols: map<string, seq<Cell>>, names: seq<string>)
    requires forall k :: 0 <= k < |names| ==> names[k] in Transformations
    requires NoDup(names)
    ensures ApplyAll(cols, names).Ok? <==>
      forall k :: 0 <= k < |names| && names[k] in cols ==> Applied(cols, names[k]).Ok?
    decreases |names|
  {
    if |names| > 0 {
      var c, rest := names[0], names[1..];
      assert forall k :: 1 <= k < |names| ==> names[k] == rest[k - 1];
      if c !in cols {
        ApplyAllSucceeds(cols, rest);
      } else if Applied(cols, c).Ok? {
        var cols' := cols[c := Applied(cols, c).value];
        ApplyAllSucceeds(cols', rest);
        forall k | 0 <= k < |rest|
          ensures rest[k] in cols' <==> rest[k] in cols
          ensures rest[k] in cols ==> Applied(cols', rest[k]) == Applied(cols, rest[k])
        {
          assert rest[k] == names[k + 1] != c;
        }
      }
    }
  }

  /** On success ApplyAll keeps the column set, replaces each listed column
      by its transformation and passes every other column through. */
  lemma {:induction false} ApplyAllResult(cols: map<string, seq<Cell>>, names: seq<string>)
    requires forall k :: 0 <= k < |names| ==> names[k] in Transformations
    requires NoDup(names)
    requires ApplyAll(cols, names).Ok?
    ensures ApplyAll(cols, names).value.Keys == cols.Keys
    ensures forall c :: c in cols && c in names ==> Applied(cols, c).Ok? && ApplyAll(cols, names).value[c] == Applied(cols, c).value
    ensures forall c :: c in cols && c !in names ==> ApplyAll(cols, names).value[c] == cols[c]
    decreases |names|
  {
    if |names| > 0 {
      var c, rest := names[0], names[1..];
      assert forall k :: 1 <= k < |names| ==> names[k] == rest[k - 1];
      assert forall n :: n in names <==> n == c || n in rest;
      assert c !in rest;
      if c !in cols {
        ApplyAllResult(cols, rest);
      } else {
        var cols' := cols[c := Applied(cols, c).value];
        ApplyAllResult(cols', rest);
        forall n | n in rest && n in cols
          ensures Applied(cols', n) == Applied(cols, n)
        {
          assert n != c;
        }
      }
    }
  }

  /** On failure ApplyAll reports the error of the first listed, present
      column that does not transform. */
  lemma {:induction false} ApplyAllFailure(cols: map<string, seq<Cell>>, names: seq<string>)
    requires forall k :: 0 <= k < |names| ==> names[k] in Transformations
    requires NoDup(names)
    requires ApplyAll(cols, names).Err?
    ensures exists k :: FirstFailure(cols, names, k, ApplyAll(cols, names).error)
    decreases |names|
  {
    var c, rest := names[0], names[1..];
    var e := ApplyAll(cols, names).error;
    assert forall k :: 1 <= k < |names| ==> names[k] == rest[k - 1];
    if c in cols && Applied(cols, c).Err? {
      assert FirstFailure(cols, names, 0, e);
    } else {
      var cols' := if c in cols then cols[c := Applied(cols, c).value] else cols;
      ApplyAllFailure(cols', rest);
      var k :| FirstFailure(cols', rest, k, e);
      forall j | 0 <= j < |rest|
        ensures rest[j] in cols' <==> rest[j] in cols
        ensures rest[j] in cols ==> Applied(cols', rest[j]) == Applied(cols, rest[j])
      {
        assert rest[j] == names[j + 1] != c;
      }
      assert FirstFailure(cols, names, k + 1, e);
    }
  }

  /** Entry k of names is the first present column that fails, with e. */
  predicate FirstFailure(cols: map<string, seq<Cell>>, names: seq<string>, k: int, e: Error)
    requires forall k :: 0 <= k < |names| ==> names[k] in Transformations
  {
    && 0 <= k < |names| && names[k] in cols
    && Applied(cols, names[k]) == Err(e)
    && forall j :: 0 <= j < k && names[j] in cols ==> Applied(cols, names[j]).Ok?
  }

  /** The column `processed_date`: the processing time on every row. */
  function StampColumn(rows: nat, now: int): (col: seq<Cell>)
    ensures |col| == rows && forall i :: 0 <= i < rows ==> col[i] == Stamp(now)
  {
    seq(rows, _ => Stamp(now))
  }

  /** The table `transform_data` returns for input df at time now. */
  function TransformedFrame(df: Frame, now: int): (r: Result<Frame, Error>)
    ensures r.Ok? ==> r.value.index == df.index && r.value.cols.Keys == df.cols.Keys + {ProcessedDate}
    ensures r.Ok? && Valid(df) ==> Valid(r.value)
  {
    DispatchOrderIsTable();
    match ApplyAll(df.cols, TransformationOrder)
    case Err(e) => Err(e)
    case Ok(cols) => Ok(Frame(df.index, cols[ProcessedDate := StampColumn(|df.index|, now)]))
  }

  /** `transform_data`: works on a copy of the columns (the input is a value
      and is never changed), replaces each column of the dispatch table that
      is present, in table order, and then sets `processed_date`.  The clock
      reading is the parameter now. */
  method TransformData(df: Frame, now: int) returns (r: Result<Frame, Error>)
    ensures r == TransformedFrame(df, now)
  {
    DispatchOrderIsTable();
    var cols := df.cols;
    var i := 0;
    while i < |TransformationOrder|
      invariant 0 <= i <= |TransformationOrder|
      invariant ApplyAll(cols, TransformationOrder[i..]) == ApplyAll(df.cols, TransformationOrder)
    {
      var column := TransformationOrder[i];
      assert TransformationOrder[i..][1..] == TransformationOrder[i + 1..];
      if column in cols {
        var transformed := ApplyTransformation(Transformations[column], column, cols[column]);
        if transformed.Err? {
          return Err(transformed.error);
        }
        cols := cols[column := transformed.value];
      }
      i := i + 1;
    }
    cols := cols[ProcessedDate := StampColumn(|df.index|, now)];
    r := Ok(Frame(df.index, cols));
  }

  /** What `transform_data` promises: it succeeds exactly when every present
      column of the dispatch table transforms; the result keeps the row
      index, has the input's columns plus `processed_date` and nothing else,
      holds each present table column transformed and every other input
      column unchanged, and stamps every row with now.  On failure it
      reports the first present table column, in table order, that fails. */
  lemma TransformDataSpec(df: Frame, now: int)
    requires Valid(df)
    ensures TransformedFrame(df, now).Ok? <==>
      forall c :: c in Transformations && c in df.cols ==> Applied(df.cols, c).Ok?
    ensures TransformedFrame(df, now).Ok? ==>
      var out := TransformedFrame(df, now).value;
      && Valid(out)
      && out.index == df.index
      && out.cols.Keys == df.cols.Keys + {ProcessedDate}
      && (forall c :: c in df.cols && c in Transformations ==> out.cols[c] == Applied(df.cols, c).value)
      && (forall c :: c in df.cols && c !in Transformations && c != ProcessedDate ==> out.cols[c] == df.cols[c])
      && (forall i :: 0 <= i < |df.index| ==> out.cols[ProcessedDate][i] == Stamp(now))
    ensures TransformedFrame(df, now).Err? ==>
      exists k :: FirstFailure(df.cols, TransformationOrder, k, TransformedFrame(df, now).error)
  {
    DispatchOrderIsTable();
    ApplyAllSucceeds(df.cols, TransformationOrder);
    var r := ApplyAll(df.cols, TransformationOrder);
    if r.Err? {
      ApplyAllFailure(df.cols, TransformationOrder);
    } else {
      ApplyAllResult(df.cols, TransformationOrder);
      forall c | c in df.cols && c in Transformations
        ensures |Applied(df.cols, c).value| == |df.index|
      {
      }
    }
  }

  /** The sample rows of the extractor tests (tests/test_extractor.py,
      lines 15-21): scores 85, 92, 78 normalize to 50, 100, 0 and rates
      0.95, 0.98, 0.92 become 95, 98, 92. */
  lemma ThreeRowExample()
    ensures Min([85.0, 92.0, 78.0]) < Max([85.0, 92.0, 78.0])
    ensures NormalizePerformanceScore([85.0, 92.0, 78.0]) == [50.0, 100.0, 0.0]
    ensures CalculateAttendanceRate([0.95, 0.98, 0.92]) == [95.0, 98.0, 92.0]
  {
    var xs := [85.0, 92.0, 78.0];
    MinIsUnique(xs, 78.0);
    MaxIsUnique(xs, 92.0);
    Round2OnGrid(5000);
    Round2OnGrid(10000);
    Round2OnGrid(0);
    Round2OnGrid(9500);
    Round2OnGrid(9800);
    Round2OnGrid(9200);
    assert Rescale(85.0, 78.0, 92.0) == 50.0;
  }
}
