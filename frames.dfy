/** The in-memory table the pipeline passes from stage to stage: a row
    index and a set of named, equally long columns, as in a pandas
    DataFrame.  Boolean-mask row selection (`df[mask]`, `series[mask]`)
    lives here because both analyzer operations use it. */
module Frames {
  import opened Results

  /** Column names of the employee table. */
  const Department: string := "department"
  const PerformanceScore: string := "performance_score"
  const AttendanceRate: string := "attendance_rate"
  const ProjectsCompleted: string := "projects_completed"
  const ProcessedDate: string := "processed_date"

  /** One cell: a number (integers included), a text, or a timestamp. */
  datatype Cell = Num(n: real) | Text(s: string) | Stamp(t: int)

  /** A table: its row labels and its columns by name. */
  datatype Frame = Frame(index: seq<int>, cols: map<string, seq<Cell>>)

  /** The failures the core can raise: a missing column (KeyError), a column
      that is not numeric (TypeError) and a constant score column, whose
      min-max rescaling divides by zero. */
  datatype Error =
    | MissingColumn(column: string)
    | NonNumericColumn(column: string)
    | ConstantColumn(column: string)

  /** Every column has one cell per row. */
  predicate Valid(df: Frame)
  {
    forall c :: c in df.cols ==> |df.cols[c]| == |df.index|
  }

  /** Row i, as a map from column name to cell. */
  function Row(df: Frame, i: nat): (r: map<string, Cell>)
    requires Valid(df) && i < |df.index|
    ensures r.Keys == df.cols.Keys
  {
    map c | c in df.cols :: df.cols[c][i]
  }

  predicate AllNum(col: seq<Cell>)
  {
    forall i :: 0 <= i < |col| ==> col[i].Num?
  }

  /** The numbers of a numeric column. */
  function Nums(col: seq<Cell>): (xs: seq<real>)
    requires AllNum(col)
    ensures |xs| == |col|
    ensures forall i :: 0 <= i < |col| ==> col[i] == Num(xs[i])
  {
    seq(|col|, i requires 0 <= i < |col| => col[i].n)
  }

  /** A column holding the given numbers; Nums undoes it. */
  function Cells(xs: seq<real>): (col: seq<Cell>)
    ensures AllNum(col) && Nums(col) == xs
  {
    seq(|xs|, i requires 0 <= i < |xs| => Num(xs[i]))
  }

  /** `df[name]` used as numbers: KeyError when the column is absent,
      TypeError when it holds anything but numbers. */
  function NumericColumn(df: Frame, name: string): (r: Result<seq<real>, Error>)
    ensures r.Ok? <==> name in df.cols && AllNum(df.cols[name])
    ensures r.Ok? ==> Cells(r.value) == df.cols[name]
    ensures r.Err? && name !in df.cols ==> r.error == MissingColumn(name)
    ensures r.Err? && name in df.cols ==> r.error == NonNumericColumn(name)
  {
    if name !in df.cols then Err(MissingColumn(name))
    else if !AllNum(df.cols[name]) then Err(NonNumericColumn(name))
    else
      var xs := Nums(df.cols[name]);
      assert Cells(xs) == df.cols[name];
      Ok(xs)
  }

  /** The positions of a boolean mask that hold true, in ascending order. */
  function TrueIndices(mask: seq<bool>): (r: seq<nat>)
    ensures |r| <= |mask|
    ensures forall k :: 0 <= k < |r| ==> r[k] < |mask| && mask[r[k]]
    ensures forall k, l :: 0 <= k < l < |r| ==> r[k] < r[l]
    ensures forall i :: 0 <= i < |mask| && mask[i] ==> i in r
  {
    if |mask| == 0 then []
    else
      var init := TrueIndices(mask[..|mask| - 1]);
      if mask[|mask| - 1] then init + [|mask| - 1] else init
  }

  /** The elements of s at the given positions, in that order. */
  function Take<T>(s: seq<T>, idx: seq<nat>): (r: seq<T>)
    requires forall k :: 0 <= k < |idx| ==> idx[k] < |s|
    ensures |r| == |idx|
    ensures forall k :: 0 <= k < |idx| ==> r[k] == s[idx[k]]
  {
    seq(|idx|, k requires 0 <= k < |idx| => s[idx[k]])
  }

  /** `df[mask]`: the rows whose mask entry is true, in their original
      order, with their labels and all their cells. */
  function SelectRows(df: Frame, mask: seq<bool>): (r: Frame)
    requires Valid(df) && |mask| == |df.index|
    ensures Valid(r) && r.cols.Keys == df.cols.Keys
    ensures |r.index| == |TrueIndices(mask)|
    ensures forall k :: 0 <= k < |r.index| ==>
      r.index[k] == df.index[TrueIndices(mask)[k]] && Row(r, k) == Row(df, TrueIndices(mask)[k])
  {
    var idx := TrueIndices(mask);
    Frame(Take(df.index, idx), map c | c in df.cols :: Take(df.cols[c], idx))
  }
}
