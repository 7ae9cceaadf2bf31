/*
 * Shared data model of the star-data pipeline: optional values and results,
 * instrument segments, measurements and labelled table rows, the sort used for
 * `sort_values`/`np.sort`, and the column statistics (`mean`, `std`) that the
 * outlier rejection reads.
 */
module Tables {

  datatype Option<+T> = None | Some(value: T)

  datatype Result<+T, +E> = Success(value: T) | Failure(error: E)

  /** The closed set of instrument/epoch segments, the `tel` column. */
  datatype Segment = HarpsPre | HarpsPost | HiresPre | HiresPost

  /** The string stamped into the `tel` column for each segment. */
  function Label(s: Segment): string
  {
    match s
    case HarpsPre => "harps_pre"
    case HarpsPost => "harps_post"
    case HiresPre => "hires_pre"
    case HiresPost => "hires_post"
  }

  /** One measurement in canonical columns: `jd`, the value (`mnvel` or `sind`),
      the uncertainty (`errvel` or `errs`) and the segment `tel`. */
  datatype Meas = Meas(jd: real, val: real, err: real, tel: Segment)

  /** A table row: a measurement under the pandas index label it carries. */
  datatype Row = Row(index: int, meas: Meas)

  function TimeOf(m: Meas): real { m.jd }

  function Identity(x: real): real { x }

  /** The measurements of a table, index labels dropped. */
  function Strip(rows: seq<Row>): seq<Meas>
  {
    seq(|rows|, i requires 0 <= i < |rows| => rows[i].meas)
  }

  /** The value column of a table. */
  function Values(rows: seq<Row>): seq<real>
  {
    seq(|rows|, i requires 0 <= i < |rows| => rows[i].meas.val)
  }

  /** The time column of a table. */
  function Times(rows: seq<Row>): seq<real>
  {
    seq(|rows|, i requires 0 <= i < |rows| => rows[i].meas.jd)
  }

  /** The uncertainty column of a table. */
  function Errs(rows: seq<Row>): seq<real>
  {
    seq(|rows|, i requires 0 <= i < |rows| => rows[i].meas.err)
  }

  // ---------------------------------------------------------------------------
  // Sorting by a real-valued key

  predicate SortedBy<T>(s: seq<T>, key: T -> real)
  {
    forall i, j :: 0 <= i < j < |s| ==> key(s[i]) <= key(s[j])
  }

  /** Inserts `x` into a sorted sequence, keeping it sorted. */
  function Insert<T>(x: T, s: seq<T>, key: T -> real): (r: seq<T>)
    requires SortedBy(s, key)
    ensures SortedBy(r, key)
    ensures multiset(r) == multiset(s) + multiset{x}
    ensures |r| == |s| + 1 && (r[0] == x || (s != [] && r[0] == s[0]))
    decreases |s|
  {
    if s == [] || key(x) <= key(s[0]) then
      [x] + s
    else
      assert s == [s[0]] + s[1..];
      [s[0]] + Insert(x, s[1..], key)
  }

  /** A sort by `key`: the result is ordered by `key` and is a permutation of
      the input. Nothing is promised about the order of equal keys. */
  function SortBy<T>(s: seq<T>, key: T -> real): (r: seq<T>)
    ensures SortedBy(r, key)
    ensures multiset(r) == multiset(s)
    decreases |s|
  {
    if s == [] then []
    else
      assert s == [s[0]] + s[1..];
      Insert(s[0], SortBy(s[1..], key), key)
  }

  // ---------------------------------------------------------------------------
  // Column statistics

  function Sum(xs: seq<real>): real
  {
    if xs == [] then 0.0 else xs[0] + Sum(xs[1..])
  }

  /** The largest element, `max()`. */
  function MaxOf(xs: seq<real>): (m: real)
    requires |xs| > 0
    ensures m in xs
    ensures forall x :: x in xs ==> x <= m
  {
    if |xs| == 1 then xs[0]
    else
      var rest := MaxOf(xs[1..]);
      assert xs == [xs[0]] + xs[1..];
      if xs[0] >= rest then xs[0] else rest
  }

  /** The smallest element, `min()`. */
  function MinOf(xs: seq<real>): (m: real)
    requires |xs| > 0
    ensures m in xs
    ensures forall x :: x in xs ==> m <= x
  {
    if |xs| == 1 then xs[0]
    else
      var rest := MinOf(xs[1..]);
      assert xs == [xs[0]] + xs[1..];
      if xs[0] <= rest then xs[0] else rest
  }

  /** The last element of a sorted permutation of `xs` is the maximum of `xs`. */
  lemma SortedLastIsMax(xs: seq<real>, s: seq<real>)
    requires |xs| > 0 && multiset(s) == multiset(xs) && SortedBy(s, Identity)
    ensures |s| == |xs| && s[|s| - 1] == MaxOf(xs)
  {
    assert |s| == |multiset(s)| == |multiset(xs)| == |xs|;
    var m := MaxOf(xs);
    assert m in multiset(s);
    var k :| 0 <= k < |s| && s[k] == m;
    var last := s[|s| - 1];
    assert m <= last by {
      if k < |s| - 1 {
        assert Identity(s[k]) <= Identity(s[|s| - 1]);
      }
    }
    assert last in multiset(xs);
    assert last in xs;
    assert last <= m;
  }

  /** Sum of squared deviations of `xs` from `c`. */
  function SumSqDev(xs: seq<real>, c: real): real
  {
    if xs == [] then 0.0 else (xs[0] - c) * (xs[0] - c) + SumSqDev(xs[1..], c)
  }

  /** `Series.mean()`. */
  function Mean(xs: seq<real>): real
    requires |xs| > 0
  {
    Sum(xs) / (|xs| as real)
  }

  /** The square of `Series.std()`: the sample variance, denominator n - 1. */
  function SampleVariance(xs: seq<real>): real
    requires |xs| >= 2
  {
    SumSqDev(xs, Mean(xs)) / ((|xs| - 1) as real)
  }

  lemma {:induction false} SumSqDevNonNegative(xs: seq<real>, c: real)
    ensures SumSqDev(xs, c) >= 0.0
  {
    if xs != [] {
      SumSqDevNonNegative(xs[1..], c);
      assert (xs[0] - c) * (xs[0] - c) >= 0.0;
    }
  }

  /** The squared deviation of `x` from `c` exceeds `bound`. */
  predicate Beyond(x: real, c: real, bound: real)
  {
    (x - c) * (x - c) > bound
  }

  /** When every squared deviation exceeds `bound`, their sum exceeds
      `|xs| * bound`. */
  lemma {:induction false} SumSqDevAbove(xs: seq<real>, c: real, bound: real)
    requires |xs| > 0
    requires forall i :: 0 <= i < |xs| ==> Beyond(xs[i], c, bound)
    ensures SumSqDev(xs, c) > (|xs| as real) * bound
  {
    assert Beyond(xs[0], c, bound);
    if |xs| > 1 {
      SumSqDevAbove(xs[1..], c, bound);
    }
  }

  lemma SampleVarianceNonNegative(xs: seq<real>)
    requires |xs| >= 2
    ensures SampleVariance(xs) >= 0.0
  {
    SumSqDevNonNegative(xs, Mean(xs));
  }
}
