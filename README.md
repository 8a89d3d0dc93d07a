# Recursive vs. iterative summation benchmark, in Dafny

This project models the computational core of a small C++ benchmark
(`main.cpp`) that compares the run time of two ways of summing an array of
`int`s:

- `total_sum_recursive` sums `scores[i..n)` by recursion on `i`;
- `total_sum_iterative` sums `scores[0..n)` with an `int` accumulator.

For each size `n` of a fixed schedule (1; 10..100 step 10; 150..1000 step 50;
2000..10000 step 1000) the driver `test_n` allocates an array, fills it with
`1..n`, sums it iteratively, and sums it recursively only when
`n <= max_safe_recursive` (10000). Otherwise the note says
`SKIPPED (stack overflow)` and the recursive time and total keep their
sentinels `-1.0` and `-1`. If the two totals differed, the note would say
`WARNING: total beda`.

Files:

- `int32.dfy` (module `Int32`): the C++ `int` as the newtype `int32`, so that
  Dafny checks every addition for signed overflow (undefined behaviour in
  C++). Also the triangular numbers n(n+1)/2 and when they fit in an `int`.
- `summation.dfy` (module `Summation`): `Sum`, the mathematical sum of a
  sequence. `TotalSumRecursive` is a recursive function over an
  `array<int32>`. `TotalSumIterative` is a method whose loop invariant keeps
  the accumulator equal to the prefix sum. Both are proved to compute `Sum`
  and hence to agree.
- `benchmark.dfy` (module `Benchmark`): the report row, the closed-form row
  `RowFor` for a size, `TestN` (the fill loop, both kernels and the
  threshold/note decision, proved to produce `RowFor`), the schedule as
  `Range`s, and the driver loops (`TestRange`, `RunSchedule`).

Overflow: the caller of each kernel must make every value its accumulator
takes fit in an `int`. For the recursive kernel these are the suffix sums;
for the iterative one, the prefix sums. For the filled array every partial
sum lies in `[0, n(n+1)/2]`. n(n+1)/2 fits in an `int` exactly when
`n <= 65535`, so `TestN` requires `n <= 65535`; the schedule only reaches
10000, where every partial sum is at most 50005000.

`test_n` tests `n <= max_safe_recursive` (main.cpp:90), an inclusive bound,
so n = 10000 is summed recursively (both totals 50005000) and no scheduled
size is ever skipped (`LargestSizeRow`, `ScheduleWithinThreshold`).

## Model

| member | source | states |
|---|---|---|
| `Summation.TotalSumRecursive` | main.cpp:11-14 | returns the sum of `scores[i..n)`, 0 when `i == n`; needs `0 <= i <= n <= length` and every suffix sum `scores[j..n)` to fit in an `int` |
| `Summation.TotalSumIterative` | main.cpp:16-20 | returns the sum of `scores[0..n)` (0 for `n <= 0`); the loop invariant keeps `total` equal to the sum of `scores[0..i)`; the array is only read; returns the same total as `total_sum_recursive(scores, n, 0)` whenever that may run |
| `Int32.TriangleFitsIff` | main.cpp:18 | the `int` accumulator can hold 1 + ... + n if and only if n <= 65535 |
| `Benchmark.FillPrefixSum` | main.cpp:78-80 | after the fill `scores[k] = k + 1`, the first k elements sum to k(k+1)/2, so `total_it == n*(n+1)/2` |
| `Benchmark.FillPartialSums` | main.cpp:78 | every prefix and suffix sum of the filled array lies between 0 and n(n+1)/2 |
| `Benchmark.ScheduledPartialSumsBounded` | main.cpp:146 | for n <= 10000 every partial sum of either kernel is between 0 and 50005000, so neither overflows an `int` |
| `Benchmark.RowFor` | main.cpp:86-101 | the row for size n: iterative total n(n+1)/2; recursion attempted iff `n <= max_safe_recursive`; if so both totals agree and there is no note; if not, note `SKIPPED (stack overflow)`, total -1 and time -1.0; the CSV's empty recursive-total field (main.cpp:124-125) coincides with its empty recursive-time field; the mismatch note never appears |
| `Benchmark.TestN` | main.cpp:67-101 | allocating, filling, summing both ways and choosing the note yields exactly `RowFor(n, ...)`; an allocation failure yields the error row |
| `Benchmark.RangeElements` | main.cpp:136-138 | the k-th size of `for (n = lo; n <= hi; n += step)` is lo + k*step and lies in [lo, hi] |
| `Benchmark.RangeLength` | main.cpp:136-138 | that loop runs k times, with lo + (k-1)*step <= hi < lo + k*step, or not at all when lo > hi |
| `Benchmark.RangeIncreasing` | main.cpp:136-138 | the sizes of one counting loop strictly increase |
| `Benchmark.TestRange` | main.cpp:136-148 | one counting loop appends exactly the sizes of its range, each with its `RowFor` row |
| `Benchmark.RunSchedule` | main.cpp:132-148 | the driver calls `test_n` on exactly the sizes of `Schedule()`, in order, and produces one matching row per size |
| `Benchmark.ScheduleLength` | main.cpp:133-148 | the schedule has 1 + 10 + 18 + 9 = 38 sizes |
| `Benchmark.ScheduleEnds` | main.cpp:133-148 | the first size is 1 and the last is 10000 |
| `Benchmark.ScheduleIncreasing` | main.cpp:133-148 | the scheduled sizes strictly increase |
| `Benchmark.ScheduleWithinThreshold` | main.cpp:133-148 | every scheduled size is between 1 and `max_safe_recursive`, so the skip branch is never taken by `main` |
| `Benchmark.ScheduledRowsAgree` | main.cpp:90-98 | in every scheduled row whose allocation succeeded, both totals equal n(n+1)/2 and the note is empty |
| `Benchmark.SmallestSizeRow` | main.cpp:133 | for n = 1 both totals are 1 and there is no note |
| `Benchmark.LargestSizeRow` | main.cpp:146-148 | for n = 10000 the recursion runs, both totals are 50005000 and there is no note |

## Left out

- `benchmark_ms` (main.cpp:23-41): wall-clock timing, `double` averaging and
  the `volatile` sink are not modelled. The mean times are inputs, required to
  be non-negative as the mean of monotonic-clock durations is; the repeat
  count 20 plays no part.
- Console and CSV output (main.cpp:50-65, 103-127, 150-155): formatting,
  file-open failure and the exit code are not modelled. Only the rule that
  decides which recursive fields are left empty is kept, as the predicates
  `RecursiveTimeEmpty` and `RecursiveTotalEmpty`. The allocation-failure row
  carries no note text in the model.
- `new (nothrow)` allocation failure (main.cpp:68-76) depends on the
  allocator: it is a boolean input that yields `AllocationFailedRow`.
- Stack depth: Dafny's recursion has no stack limit, so only the threshold
  comparison is modelled.
- `TestN` requires `0 <= n <= 65535`: above 65535 the iterative sum overflows
  an `int` (undefined behaviour in C++), and `main` never passes a negative
  size.
- The three counting loops of `main` share one method, `TestRange`, called
  once per loop with that loop's bounds and step.
