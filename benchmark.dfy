/** The benchmark driver: for each size n of a fixed schedule, fill an array
    with 1..n, sum it iteratively, sum it recursively when n is within the
    recursion threshold, and produce one report row. Timing, console and CSV
    output are not modelled: the mean times that the timing harness measures
    and whether the allocation fails are inputs. */
module Benchmark {
  import opened Int32
  import opened Summation

  /** Sizes above this are not summed recursively. */
  const MAX_SAFE_RECURSIVE: nat := 10000

  const MISMATCH_NOTE: string := "WARNING: total beda"
  const SKIP_NOTE: string := "SKIPPED (stack overflow)"

  /** One report row. A result row keeps the source's sentinels: -1.0 for a
      recursive time that was not measured and -1 for a recursive total that
      was not computed. */
  datatype Row =
    | AllocationFailedRow(n: int)
    | ResultRow(n: int, tIterMs: real, tRecMs: real, note: string, totalIt: int, totalRec: int)

  /** The CSV leaves the recursive time empty for a negative time. */
  predicate RecursiveTimeEmpty(row: Row) {
    row.AllocationFailedRow? || row.tRecMs < 0.0
  }

  /** The CSV leaves the recursive total empty for the sentinel -1. */
  predicate RecursiveTotalEmpty(row: Row) {
    row.AllocationFailedRow? || row.totalRec == -1
  }

  /** The row the driver produces for size n, in closed form. */
  function RowFor(n: nat, allocFailed: bool, tIterMs: real, tRecMs: real): (row: Row)
    requires 0.0 <= tIterMs && 0.0 <= tRecMs
    ensures row.n == n
    ensures row.AllocationFailedRow? <==> allocFailed
    ensures row.ResultRow? ==> row.totalIt == Triangle(n) && row.tIterMs == tIterMs
    ensures row.ResultRow? ==> (!RecursiveTotalEmpty(row) <==> n <= MAX_SAFE_RECURSIVE)
    ensures row.ResultRow? && n <= MAX_SAFE_RECURSIVE ==>
              row.totalRec == row.totalIt && row.tRecMs == tRecMs && row.note == ""
    ensures row.ResultRow? && MAX_SAFE_RECURSIVE < n ==>
              row.totalRec == -1 && row.tRecMs == -1.0 && row.note == SKIP_NOTE
    ensures RecursiveTotalEmpty(row) <==> RecursiveTimeEmpty(row)
    ensures row.ResultRow? ==> row.note != MISMATCH_NOTE
  {
    if allocFailed then AllocationFailedRow(n)
    else if n <= MAX_SAFE_RECURSIVE then ResultRow(n, tIterMs, tRecMs, "", Triangle(n), Triangle(n))
    else ResultRow(n, tIterMs, -1.0, SKIP_NOTE, Triangle(n), -1)
  }

  /** The array after the fill loop: element k holds k + 1. */
  ghost predicate FilledAscending(s: seq<int32>) {
    forall k :: 0 <= k < |s| ==> s[k] as int == k + 1
  }

  /** The first k elements of the filled array sum to 1 + ... + k. */
  lemma {:induction false} FillPrefixSum(s: seq<int32>, k: nat)
    requires FilledAscending(s) && k <= |s|
    ensures Sum(s[..k]) == Triangle(k)
  {
    if k > 0 {
      assert s[..k] == s[..k - 1] + [s[k - 1]];
      SumSnoc(s[..k - 1], s[k - 1]);
      FillPrefixSum(s, k - 1);
      TriangleStep(k);
    }
  }

  /** Every prefix sum and every suffix sum of the filled array lies between
      0 and the whole sum 1 + ... + n. */
  lemma FillPartialSums(s: seq<int32>)
    requires FilledAscending(s)
    ensures forall k :: 0 <= k <= |s| ==> 0 <= Sum(s[..k]) <= Triangle(|s|)
    ensures forall j :: 0 <= j <= |s| ==> 0 <= Sum(s[j..|s|]) <= Triangle(|s|)
  {
    forall k | 0 <= k <= |s|
      ensures 0 <= Sum(s[..k]) <= Triangle(|s|)
    {
      FillPrefixSum(s, k);
      TriangleMonotone(k, |s|);
    }
    forall j | 0 <= j <= |s|
      ensures 0 <= Sum(s[j..|s|]) <= Triangle(|s|)
    {
      FillPrefixSum(s, j);
      FillPrefixSum(s, |s|);
      SumSplit(s, j, |s|);
      TriangleMonotone(j, |s|);
    }
  }

  /** For every size up to the largest scheduled one, no partial sum of
      either kernel exceeds 50005000, far below the `int` limit. */
  lemma ScheduledPartialSumsBounded(s: seq<int32>)
    requires FilledAscending(s) && |s| <= 10000
    ensures forall k :: 0 <= k <= |s| ==> 0 <= Sum(s[..k]) <= 50005000
    ensures forall j :: 0 <= j <= |s| ==> 0 <= Sum(s[j..|s|]) <= 50005000
  {
    FillPartialSums(s);
    TriangleMonotone(|s|, 10000);
  }

  /** `test_n`: fill a fresh array with 1..n, sum it iteratively, and sum it
      recursively only when n <= MAX_SAFE_RECURSIVE; the note records a skip,
      or a mismatch of the two totals. n is bounded so that the `int`
      accumulator cannot overflow. */
  method TestN(n: int, allocFailed: bool, tIterMs: real, tRecMs: real) returns (row: Row)
    requires 0 <= n <= MAX_TRIANGLE_ARG
    requires 0.0 <= tIterMs && 0.0 <= tRecMs
    ensures row == RowFor(n, allocFailed, tIterMs, tRecMs)
  {
    if allocFailed {
      row := AllocationFailedRow(n);
      return;
    }
    var scores := new int32[n];
    var i := 0;
    while i < n
      invariant 0 <= i <= n
      invariant forall k :: 0 <= k < i ==> scores[k] as int == k + 1
    {
      scores[i] := (i + 1) as int32;
      i := i + 1;
    }
    assert FilledAscending(scores[..]);
    FillPartialSums(scores[..]);
    TriangleFitsIff(n);
    assert forall k :: 0 <= k <= n ==> scores[..k] == scores[..][..k];
    assert forall j :: 0 <= j <= n ==> scores[j..n] == scores[..][j..n];

    var totalIt := TotalSumIterative(scores, n);
    FillPrefixSum(scores[..], n);

    var tRec := -1.0;
    var totalRec: int32 := -1;
    var note := "";
    if n <= MAX_SAFE_RECURSIVE {
      totalRec := TotalSumRecursive(scores, n, 0);
      tRec := tRecMs;
      if totalRec != totalIt {
        note := MISMATCH_NOTE;
      }
    } else {
      note := SKIP_NOTE;
    }
    row := ResultRow(n, tIterMs, tRec, note, totalIt as int, totalRec as int);
  }

  /** The sizes of `for (n = lo; n <= hi; n += step)`. */
  function Range(lo: nat, hi: nat, step: nat): (sizes: seq<nat>)
    requires 0 < step
    decreases hi + 1 - lo
  {
    if lo > hi then [] else [lo] + Range(lo + step, hi, step)
  }

  /** The k-th size of a range is lo + k * step, and every size is in [lo, hi]. */
  lemma {:induction false} RangeElements(lo: nat, hi: nat, step: nat)
    requires 0 < step
    ensures forall k :: 0 <= k < |Range(lo, hi, step)| ==>
              Range(lo, hi, step)[k] == lo + k * step && lo <= Range(lo, hi, step)[k] <= hi
    decreases hi + 1 - lo
  {
    if lo <= hi {
      RangeElements(lo + step, hi, step);
      var r := Range(lo, hi, step);
      forall k | 0 < k < |r|
        ensures r[k] == lo + k * step
      {
        assert r[k] == Range(lo + step, hi, step)[k - 1];
        assert lo + step + (k - 1) * step == lo + k * step;
      }
    }
  }

  /** A range stops at the first lo + k * step above hi: it has k sizes,
      with lo + (k - 1) * step <= hi < lo + k * step when lo <= hi. */
  lemma {:induction false} RangeLength(lo: nat, hi: nat, step: nat)
    requires 0 < step
    ensures lo > hi ==> |Range(lo, hi, step)| == 0
    ensures lo <= hi ==>
              && 1 <= |Range(lo, hi, step)|
              && lo + (|Range(lo, hi, step)| - 1) * step <= hi < lo + |Range(lo, hi, step)| * step
    decreases hi + 1 - lo
  {
    if lo <= hi {
      RangeLength(lo + step, hi, step);
      var m := |Range(lo + step, hi, step)|;
      assert lo + step + (m - 1) * step == lo + m * step;
      assert lo + step + m * step == lo + (m + 1) * step;
    }
  }

  ghost predicate StrictlyIncreasing(s: seq<int>) {
    forall a, b :: 0 <= a < b < |s| ==> s[a] < s[b]
  }

  /** The sizes of one counting loop strictly increase. */
  lemma {:induction false} RangeIncreasing(lo: nat, hi: nat, step: nat)
    requires 0 < step
    ensures StrictlyIncreasing(Range(lo, hi, step))
    decreases hi + 1 - lo
  {
    if lo <= hi {
      var tail := Range(lo + step, hi, step);
      RangeIncreasing(lo + step, hi, step);
      RangeElements(lo + step, hi, step);
      IncreasingConcat([lo], tail);
    }
  }

  /** Two increasing runs, the first entirely below the second, make one. */
  lemma IncreasingConcat(s: seq<int>, t: seq<int>)
    requires StrictlyIncreasing(s) && StrictlyIncreasing(t)
    requires forall a, b :: 0 <= a < |s| && 0 <= b < |t| ==> s[a] < t[b]
    ensures StrictlyIncreasing(s + t)
  {
    var u := s + t;
    forall a, b | 0 <= a < b < |u|
      ensures u[a] < u[b]
    {
      if b < |s| {
        assert u[a] == s[a] && u[b] == s[b];
      } else if a < |s| {
        assert u[a] == s[a] && u[b] == t[b - |s|];
      } else {
        assert u[a] == t[a - |s|] && u[b] == t[b - |s|];
      }
    }
  }

  /** The sizes `main` passes to `test_n`, in call order. */
  function Schedule(): (sizes: seq<nat>) {
    [1] + Range(10, 100, 10) + Range(150, 1000, 50) + Range(2000, 10000, 1000)
  }

  /** The schedule has 1 + 10 + 18 + 9 = 38 sizes, from 1 to 10000. */
  lemma ScheduleLength()
    ensures |Range(10, 100, 10)| == 10
    ensures |Range(150, 1000, 50)| == 18
    ensures |Range(2000, 10000, 1000)| == 9
    ensures |Schedule()| == 38
  {
    RangeLength(10, 100, 10);
    RangeLength(150, 1000, 50);
    RangeLength(2000, 10000, 1000);
  }

  /** Every scheduled size is between 1 and the recursion threshold, so the
      skip branch of `test_n` is never taken by `main`. */
  lemma ScheduleWithinThreshold()
    ensures forall k :: 0 <= k < |Schedule()| ==> 1 <= Schedule()[k] <= MAX_SAFE_RECURSIVE
  {
    var r1, r2, r3 := Range(10, 100, 10), Range(150, 1000, 50), Range(2000, 10000, 1000);
    RangeElements(10, 100, 10);
    RangeElements(150, 1000, 50);
    RangeElements(2000, 10000, 1000);
    var s := Schedule();
    forall k | 0 <= k < |s|
      ensures 1 <= s[k] <= MAX_SAFE_RECURSIVE
    {
      if k == 0 {
      } else if k < 1 + |r1| {
        assert s[k] == r1[k - 1];
      } else if k < 1 + |r1| + |r2| {
        assert s[k] == r2[k - 1 - |r1|];
      } else {
        assert s[k] == r3[k - 1 - |r1| - |r2|];
      }
    }
  }

  /** The scheduled sizes strictly increase: no size is tested twice. */
  lemma ScheduleIncreasing()
    ensures StrictlyIncreasing(Schedule())
  {
    var r1, r2, r3 := Range(10, 100, 10), Range(150, 1000, 50), Range(2000, 10000, 1000);
    RangeElements(10, 100, 10);
    RangeElements(150, 1000, 50);
    RangeElements(2000, 10000, 1000);
    RangeIncreasing(10, 100, 10);
    RangeIncreasing(150, 1000, 50);
    RangeIncreasing(2000, 10000, 1000);
    IncreasingConcat([1], r1);
    var p := [1] + r1;
    assert forall a :: 0 <= a < |p| ==> p[a] <= 100;
    IncreasingConcat(p, r2);
    var q := p + r2;
    assert forall a :: 0 <= a < |q| ==> q[a] <= 1000;
    IncreasingConcat(q, r3);
  }

  /** The first and last scheduled sizes. */
  lemma ScheduleEnds()
    ensures |Schedule()| == 38 && Schedule()[0] == 1 && Schedule()[37] == 10000
  {
    ScheduleLength();
    RangeElements(2000, 10000, 1000);
    var r3 := Range(2000, 10000, 1000);
    assert Schedule()[37] == r3[8];
  }

  /** The rows are those RowFor gives for the sizes, one per size, in order. */
  ghost predicate RowsMatch(sizes: seq<nat>, rows: seq<Row>,
                            allocFailed: int -> bool, tIterMs: int -> real, tRecMs: int -> real)
    requires forall n :: 0.0 <= tIterMs(n) && 0.0 <= tRecMs(n)
  {
    && |rows| == |sizes|
    && forall k :: 0 <= k < |rows| ==>
         rows[k] == RowFor(sizes[k], allocFailed(sizes[k]), tIterMs(sizes[k]), tRecMs(sizes[k]))
  }

  lemma RowsMatchSnoc(sizes: seq<nat>, rows: seq<Row>, n: nat, row: Row,
                      allocFailed: int -> bool, tIterMs: int -> real, tRecMs: int -> real)
    requires forall n :: 0.0 <= tIterMs(n) && 0.0 <= tRecMs(n)
    requires RowsMatch(sizes, rows, allocFailed, tIterMs, tRecMs)
    requires row == RowFor(n, allocFailed(n), tIterMs(n), tRecMs(n))
    ensures RowsMatch(sizes + [n], rows + [row], allocFailed, tIterMs, tRecMs)
  {
  }

  /** One counting loop of `main`: `for (n = lo; n <= hi; n += step) test_n(n);`,
      appending each size and its row to those of the earlier loops. */
  method TestRange(lo: nat, hi: nat, step: nat, sizes0: seq<nat>, rows0: seq<Row>,
                   allocFailed: int -> bool, tIterMs: int -> real, tRecMs: int -> real)
    returns (sizes: seq<nat>, rows: seq<Row>)
    requires 0 < step && hi <= MAX_TRIANGLE_ARG
    requires forall n :: 0.0 <= tIterMs(n) && 0.0 <= tRecMs(n)
    requires RowsMatch(sizes0, rows0, allocFailed, tIterMs, tRecMs)
    ensures sizes == sizes0 + Range(lo, hi, step)
    ensures RowsMatch(sizes, rows, allocFailed, tIterMs, tRecMs)
  {
    sizes, rows := sizes0, rows0;
    var n := lo;
    while n <= hi
      invariant lo <= n
      invariant sizes + Range(n, hi, step) == sizes0 + Range(lo, hi, step)
      invariant RowsMatch(sizes, rows, allocFailed, tIterMs, tRecMs)
      decreases hi + 1 - n
    {
      var row := TestN(n, allocFailed(n), tIterMs(n), tRecMs(n));
      RowsMatchSnoc(sizes, rows, n, row, allocFailed, tIterMs, tRecMs);
      assert Range(n, hi, step) == [n] + Range(n + step, hi, step);
      sizes, rows := sizes + [n], rows + [row];
      n := n + step;
    }
  }

  /** The driver in `main`: test n = 1, then the three counting loops.
      Whether the allocation for size n fails and the mean times measured
      for it are given as functions of n. */
  method RunSchedule(allocFailed: int -> bool, tIterMs: int -> real, tRecMs: int -> real)
    returns (sizes: seq<nat>, rows: seq<Row>)
    requires forall n :: 0.0 <= tIterMs(n) && 0.0 <= tRecMs(n)
    ensures sizes == Schedule()
    ensures RowsMatch(sizes, rows, allocFailed, tIterMs, tRecMs)
  {
    var row := TestN(1, allocFailed(1), tIterMs(1), tRecMs(1));
    sizes, rows := [1], [row];
    sizes, rows := TestRange(10, 100, 10, sizes, rows, allocFailed, tIterMs, tRecMs);
    sizes, rows := TestRange(150, 1000, 50, sizes, rows, allocFailed, tIterMs, tRecMs);
    sizes, rows := TestRange(2000, 10000, 1000, sizes, rows, allocFailed, tIterMs, tRecMs);
  }

  /** In every row of the schedule whose allocation succeeded, the recursion
      ran, the two totals agree on 1 + ... + n, and no note is attached. */
  lemma ScheduledRowsAgree(sizes: seq<nat>, rows: seq<Row>,
                           allocFailed: int -> bool, tIterMs: int -> real, tRecMs: int -> real)
    requires forall n :: 0.0 <= tIterMs(n) && 0.0 <= tRecMs(n)
    requires sizes == Schedule() && RowsMatch(sizes, rows, allocFailed, tIterMs, tRecMs)
    ensures forall k :: 0 <= k < |rows| && rows[k].ResultRow? ==>
              rows[k].note == "" && rows[k].totalRec == rows[k].totalIt == Triangle(sizes[k])
  {
    ScheduleWithinThreshold();
  }

  /** n = 1: both kernels run and both totals are 1. */
  lemma SmallestSizeRow(tIterMs: real, tRecMs: real)
    requires 0.0 <= tIterMs && 0.0 <= tRecMs
    ensures RowFor(1, false, tIterMs, tRecMs) == ResultRow(1, tIterMs, tRecMs, "", 1, 1)
  {
  }

  /** n = 10000 is at the threshold, not above it: the recursion runs and
      both totals are 50005000. */
  lemma LargestSizeRow(tIterMs: real, tRecMs: real)
    requires 0.0 <= tIterMs && 0.0 <= tRecMs
    ensures RowFor(10000, false, tIterMs, tRecMs) == ResultRow(10000, tIterMs, tRecMs, "", 50005000, 50005000)
  {
  }
}
