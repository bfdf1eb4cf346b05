/** Numeric series: the reductions and the element-wise rounding the
    pipeline applies to one column of numbers.  Values are exact reals. */
module Series {

  /** No element of s occurs twice. */
  predicate NoDup<T(==)>(s: seq<T>)
  {
    forall i, j :: 0 <= i < j < |s| ==> s[i] != s[j]
  }

  /** `.round(2)`: round to two decimal places.  Ties go upward, where
      floating-point rounding goes to the even neighbour. */
  function Round2(x: real): (r: real)
    ensures (r * 100.0).Floor as real == r * 100.0
  {
    ((x * 100.0 + 0.5).Floor as real) / 100.0
  }

  lemma Round2Error(x: real)
    ensures x - 0.005 < Round2(x) <= x + 0.005
  {
    var k := (x * 100.0 + 0.5).Floor;
    assert k as real <= x * 100.0 + 0.5 < k as real + 1.0;
  }

  lemma Round2Monotone(x: real, y: real)
    requires x <= y
    ensures Round2(x) <= Round2(y)
  {
    var a, b := (x * 100.0 + 0.5).Floor, (y * 100.0 + 0.5).Floor;
    assert a as real <= x * 100.0 + 0.5 <= y * 100.0 + 0.5 < b as real + 1.0;
    assert a <= b;
  }

  /** A value that already has two decimals is left alone. */
  lemma Round2OnGrid(k: int)
    ensures Round2(k as real / 100.0) == k as real / 100.0
  {
    assert (k as real / 100.0) * 100.0 + 0.5 == k as real + 0.5;
    assert (k as real + 0.5).Floor == k;
  }

  lemma Round2Idempotent(x: real)
    ensures Round2(Round2(x)) == Round2(x)
  {
    Round2OnGrid((x * 100.0 + 0.5).Floor);
  }

  function Min(xs: seq<real>): (m: real)
    requires |xs| > 0
    ensures m in xs
    ensures forall i :: 0 <= i < |xs| ==> m <= xs[i]
  {
    if |xs| == 1 then xs[0]
    else
      var rest := Min(xs[1..]);
      if xs[0] <= rest then xs[0] else rest
  }

  function Max(xs: seq<real>): (m: real)
    requires |xs| > 0
    ensures m in xs
    ensures forall i :: 0 <= i < |xs| ==> xs[i] <= m
  {
    if |xs| == 1 then xs[0]
    else
      var rest := Max(xs[1..]);
      if xs[0] >= rest then xs[0] else rest
  }

  /** A position of the smallest element. */
  ghost function ArgMin(xs: seq<real>): (k: nat)
    requires |xs| > 0
    ensures k < |xs| && xs[k] == Min(xs)
  {
    if |xs| == 1 || xs[0] <= Min(xs[1..]) then 0 else 1 + ArgMin(xs[1..])
  }

  /** A position of the largest element. */
  ghost function ArgMax(xs: seq<real>): (k: nat)
    requires |xs| > 0
    ensures k < |xs| && xs[k] == Max(xs)
  {
    if |xs| == 1 || xs[0] >= Max(xs[1..]) then 0 else 1 + ArgMax(xs[1..])
  }

  /** The smallest element is the one that every element is at least. */
  lemma MinIsUnique(xs: seq<real>, v: real)
    requires v in xs
    requires forall i :: 0 <= i < |xs| ==> v <= xs[i]
    ensures Min(xs) == v
  {
  }

  lemma MaxIsUnique(xs: seq<real>, v: real)
    requires v in xs
    requires forall i :: 0 <= i < |xs| ==> xs[i] <= v
    ensures Max(xs) == v
  {
  }

  function Sum(xs: seq<real>): real
  {
    if |xs| == 0 then 0.0 else xs[0] + Sum(xs[1..])
  }

  lemma {:induction false} SumBounds(xs: seq<real>, lo: real, hi: real)
    requires forall i :: 0 <= i < |xs| ==> lo <= xs[i] <= hi
    ensures |xs| as real * lo <= Sum(xs) <= |xs| as real * hi
  {
    if |xs| > 0 {
      SumBounds(xs[1..], lo, hi);
    }
  }

  lemma QuotientBounds(total: real, n: real, lo: real, hi: real)
    requires n > 0.0
    requires n * lo <= total <= n * hi
    ensures lo <= total / n <= hi
  {
    assert total / n - lo == (total - n * lo) / n;
    assert hi - total / n == (n * hi - total) / n;
  }

  /** `mean`: the sum over the count; it lies between the extremes. */
  function Mean(xs: seq<real>): (m: real)
    requires |xs| > 0
    ensures Min(xs) <= m <= Max(xs)
  {
    SumBounds(xs, Min(xs), Max(xs));
    QuotientBounds(Sum(xs), |xs| as real, Min(xs), Max(xs));
    Sum(xs) / |xs| as real
  }

  ghost predicate Sorted(s: seq<real>)
  {
    forall i, j :: 0 <= i < j < |s| ==> s[i] <= s[j]
  }

  function Insert(s: seq<real>, x: real): (r: seq<real>)
    requires Sorted(s)
    ensures Sorted(r)
    ensures multiset(r) == multiset(s) + multiset{x}
    ensures |r| == |s| + 1 && (r[0] == x || (|s| > 0 && r[0] == s[0]))
  {
    if |s| == 0 then [x]
    else if x <= s[0] then [x] + s
    else
      var tail := Insert(s[1..], x);
      assert s == [s[0]] + s[1..];
      assert s[0] <= tail[0];
      [s[0]] + tail
  }

  /** The values in ascending order: a sorted permutation of the input. */
  function Sort(xs: seq<real>): (s: seq<real>)
    ensures Sorted(s)
    ensures multiset(s) == multiset(xs)
  {
    if |xs| == 0 then []
    else
      assert xs == [xs[0]] + xs[1..];
      Insert(Sort(xs[1..]), xs[0])
  }

  /** The middle of a sorted sequence, or the average of its two middle
      elements when the length is even. */
  function Middle(s: seq<real>): real
    requires |s| > 0
  {
    var n := |s|;
    if n % 2 == 1 then s[n / 2] else (s[n / 2 - 1] + s[n / 2]) / 2.0
  }

  /** `median`: the middle of the sorted values. */
  function Median(xs: seq<real>): (m: real)
    requires |xs| > 0
    ensures Min(xs) <= m <= Max(xs)
  {
    var s := Sort(xs);
    assert |multiset(s)| == |xs|;
    assert s[0] in multiset(xs) && s[|s| - 1] in multiset(xs);
    Middle(s)
  }

  /** Which side of a pivot an element is counted on. */
  datatype Side = AtMost | AtLeast

  predicate OnSide(x: real, v: real, side: Side)
  {
    match side
    case AtMost => x <= v
    case AtLeast => x >= v
  }

  /** The number of elements of xs on the given side of v. */
  function Count(xs: seq<real>, v: real, side: Side): nat
  {
    if |xs| == 0 then 0
    else (if OnSide(xs[0], v, side) then 1 else 0) + Count(xs[1..], v, side)
  }

  lemma {:induction false} CountAppend(a: seq<real>, b: seq<real>, v: real, side: Side)
    ensures Count(a + b, v, side) == Count(a, v, side) + Count(b, v, side)
  {
    if |a| == 0 {
      assert a + b == b;
    } else {
      assert (a + b)[1..] == a[1..] + b;
      CountAppend(a[1..], b, v, side);
    }
  }

  lemma {:induction false} CountAll(s: seq<real>, v: real, side: Side)
    requires forall i :: 0 <= i < |s| ==> OnSide(s[i], v, side)
    ensures Count(s, v, side) == |s|
  {
    if |s| > 0 {
      CountAll(s[1..], v, side);
    }
  }

  /** A run of elements on one side of v contributes its length. */
  lemma CountRun(s: seq<real>, lo: nat, hi: nat, v: real, side: Side)
    requires lo <= hi <= |s|
    requires forall i :: lo <= i < hi ==> OnSide(s[i], v, side)
    ensures Count(s, v, side) >= hi - lo
  {
    assert s == s[..lo] + s[lo..hi] + s[hi..];
    CountAppend(s[..lo] + s[lo..hi], s[hi..], v, side);
    CountAppend(s[..lo], s[lo..hi], v, side);
    CountAll(s[lo..hi], v, side);
  }

  /** Counting does not depend on the order of the elements. */
  lemma {:induction false} CountPermutation(a: seq<real>, b: seq<real>, v: real, side: Side)
    requires multiset(a) == multiset(b)
    ensures Count(a, v, side) == Count(b, v, side)
    decreases |a|
  {
    if |a| == 0 {
      assert |b| == |multiset(b)| == 0;
    } else {
      var x := a[0];
      assert x in multiset(b);
      var j :| 0 <= j < |b| && b[j] == x;
      var rest := b[..j] + b[j + 1..];
      assert b == b[..j] + [x] + b[j + 1..];
      assert a == [x] + a[1..];
      assert multiset(rest) == multiset(b) - multiset{x};
      assert multiset(a[1..]) == multiset(a) - multiset{x};
      CountPermutation(a[1..], rest, v, side);
      CountAppend(b[..j] + [x], b[j + 1..], v, side);
      CountAppend(b[..j], [x], v, side);
      CountAppend(b[..j], b[j + 1..], v, side);
      CountAppend([x], a[1..], v, side);
    }
  }

  lemma SortedMiddleSplits(s: seq<real>)
    requires |s| > 0 && Sorted(s)
    ensures Count(s, Middle(s), AtMost) >= (|s| + 1) / 2
    ensures Count(s, Middle(s), AtLeast) >= (|s| + 1) / 2
  {
    var n, m := |s|, Middle(s);
    var low := if n % 2 == 1 then s[n / 2] else s[n / 2 - 1];
    assert low <= m <= s[n / 2];
    forall i | 0 <= i < (n + 1) / 2
      ensures OnSide(s[i], m, AtMost)
    {
      assert s[i] <= low;
    }
    forall i | n / 2 <= i < n
      ensures OnSide(s[i], m, AtLeast)
    {
      assert s[n / 2] <= s[i];
    }
    CountRun(s, 0, (n + 1) / 2, m, AtMost);
    CountRun(s, n / 2, n, m, AtLeast);
  }

  /** The median splits the values in half: at least half of them (rounded
      up) are at most the median and at least half are at least it. */
  lemma MedianSplitsInHalf(xs: seq<real>)
    requires |xs| > 0
    ensures Count(xs, Median(xs), AtMost) >= (|xs| + 1) / 2
    ensures Count(xs, Median(xs), AtLeast) >= (|xs| + 1) / 2
  {
    var s := Sort(xs);
    assert |s| == |multiset(s)| == |xs|;
    CountPermutation(xs, s, Median(xs), AtMost);
    CountPermutation(xs, s, Median(xs), AtLeast);
    SortedMiddleSplits(s);
  }
}
