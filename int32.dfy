/** The 32-bit signed `int` of the C++ program, and the triangular numbers
    n(n+1)/2 that the summation benchmark computes. Signed overflow is
    undefined behaviour in C++, so every `int` value of the model lives in
    the `int32` newtype and Dafny checks each addition against its range. */
module Int32 {

  const MIN: int := -0x8000_0000
  const MAX: int := 0x7fff_ffff

  newtype int32 = x: int | MIN <= x <= MAX

  predicate InRange(x: int) {
    MIN <= x <= MAX
  }

  /** The largest n whose triangular number still fits in an `int`. */
  const MAX_TRIANGLE_ARG: nat := 65535

  /** 1 + 2 + ... + n, the value the benchmark's array sums to. */
  function Triangle(n: nat): (t: nat) {
    n * (n + 1) / 2
  }

  lemma TriangleStep(n: nat)
    requires n > 0
    ensures Triangle(n) == Triangle(n - 1) + n
  {
    assert n * (n + 1) == (n - 1) * n + 2 * n;
  }

  /** Triangular numbers grow with their argument. */
  lemma {:induction false} TriangleMonotone(k: nat, n: nat)
    requires k <= n
    ensures Triangle(k) <= Triangle(n)
  {
    if k < n {
      TriangleStep(n);
      TriangleMonotone(k, n - 1);
    }
  }

  /** An `int` accumulator can hold 1 + ... + n exactly when n <= 65535. */
  lemma TriangleFitsIff(n: nat)
    ensures InRange(Triangle(n)) <==> n <= MAX_TRIANGLE_ARG
  {
    assert Triangle(MAX_TRIANGLE_ARG) == 2147450880;
    assert Triangle(MAX_TRIANGLE_ARG + 1) == 2147516416;
    if n <= MAX_TRIANGLE_ARG {
      TriangleMonotone(n, MAX_TRIANGLE_ARG);
    } else {
      TriangleMonotone(MAX_TRIANGLE_ARG + 1, n);
    }
  }
}
