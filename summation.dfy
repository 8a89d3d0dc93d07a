/** The two summation kernels of the benchmark: a recursive one that sums
    scores[i..n) and an iterative one that sums scores[0..n) with an `int`
    accumulator. Both are proved to compute `Sum`, the mathematical sum of a
    sequence, and hence to agree. */
module Summation {
  import opened Int32

  /** The sum of a sequence of `int`s, as an unbounded integer. */
  function Sum(s: seq<int32>): (total: int) {
    if |s| == 0 then 0 else s[0] as int + Sum(s[1..])
  }

  /** Summing from the back: appending an element adds it to the sum. */
  lemma {:induction false} SumSnoc(s: seq<int32>, x: int32)
    ensures Sum(s + [x]) == Sum(s) + x as int
  {
    if |s| > 0 {
      assert (s + [x])[1..] == s[1..] + [x];
      SumSnoc(s[1..], x);
    }
  }

  /** The sum of a concatenation is the sum of the sums. */
  lemma {:induction false} SumAppend(s: seq<int32>, t: seq<int32>)
    ensures Sum(s + t) == Sum(s) + Sum(t)
  {
    if |s| > 0 {
      assert (s + t)[1..] == s[1..] + t;
      SumAppend(s[1..], t);
    } else {
      assert s + t == t;
    }
  }

  /** Splitting the first n elements at j splits their sum. */
  lemma SumSplit(s: seq<int32>, j: nat, n: nat)
    requires j <= n <= |s|
    ensures Sum(s[..n]) == Sum(s[..j]) + Sum(s[j..n])
  {
    assert s[..n] == s[..j] + s[j..n];
    SumAppend(s[..j], s[j..n]);
  }

  /** `total_sum_recursive`: 0 when i == n, otherwise scores[i] plus the sum
      from i + 1. Every intermediate result is a suffix sum scores[j..n),
      so the caller must make each of those fit in an `int`. */
  function TotalSumRecursive(scores: array<int32>, n: int, i: int): (r: int32)
    reads scores
    requires 0 <= i <= n <= scores.Length
    requires forall j :: i <= j <= n ==> InRange(Sum(scores[j..n]))
    ensures r as int == Sum(scores[i..n])
    decreases n - i
  {
    if i == n then 0
    else
      assert scores[i..n][1..] == scores[i + 1..n];
      assert InRange(Sum(scores[i..n]));
      scores[i] + TotalSumRecursive(scores, n, i + 1)
  }

  /** `total_sum_iterative`: a single pass with an `int` accumulator. Every
      value the accumulator takes is a prefix sum scores[0..k), so the caller
      must make each of those fit in an `int`. A non-positive n sums nothing.
      The array is only read. When the recursive kernel may also be run on
      the same input, the two return the same total. */
  method TotalSumIterative(scores: array<int32>, n: int) returns (total: int32)
    requires n <= scores.Length
    requires forall k :: 0 <= k <= n ==> InRange(Sum(scores[..k]))
    ensures n <= 0 ==> total == 0
    ensures 0 <= n ==> total as int == Sum(scores[..n])
    ensures 0 <= n && (forall j :: 0 <= j <= n ==> InRange(Sum(scores[j..n]))) ==>
              total == TotalSumRecursive(scores, n, 0)
  {
    total := 0;
    var i := 0;
    while i < n
      invariant 0 <= i && (i <= n || i == 0)
      invariant total as int == Sum(scores[..i])
    {
      assert scores[..i + 1] == scores[..i] + [scores[i]];
      SumSnoc(scores[..i], scores[i]);
      total := total + scores[i];
      i := i + 1;
    }
    if 0 <= n {
      assert scores[0..n] == scores[..n];
    }
  }
}
