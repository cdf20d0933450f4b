/**
 Test 5 of the smoke test: a naive recursive Fibonacci, run on a fixed input
 as CPU work that a running profiler would sample.
 */
module Workload {

  /**
   `fibonacci(n)`: `n` itself when `n <= 1` (negative `n` included), else the
   sum of the two before. It is non-negative exactly for non-negative `n`.
   */
  function Fib(n: int): (r: int)
    ensures r >= 0 <==> n >= 0
    decreases if n <= 1 then 0 else n
  {
    if n <= 1 then n else Fib(n - 1) + Fib(n - 2)
  }

  /** The input the workload is run on. */
  const WorkloadInput: int := 20

  /**
   A linear-time reference: the pair of consecutive Fibonacci numbers
   (F(n), F(n + 1)), built up from (0, 1).
   */
  function FibPair(n: nat): (int, int) {
    if n == 0 then (0, 1)
    else
      var (a, b) := FibPair(n - 1);
      (b, a + b)
  }

  /** The recursive definition agrees with the linear reference on every natural number. */
  lemma {:induction false} FibMatchesPair(n: nat)
    ensures FibPair(n) == (Fib(n), Fib(n + 1))
  {
    if n > 0 {
      FibMatchesPair(n - 1);
    }
  }

  /** From 1 on, Fib never decreases. */
  lemma {:induction false} FibMonotone(m: int, n: int)
    requires 1 <= m <= n
    ensures Fib(m) <= Fib(n)
    decreases n - m
  {
    if m < n {
      FibMonotone(m, n - 1);
    }
  }

  /** `result = fibonacci(20)`: the value the workload computes and reports. */
  function WorkloadResult(): (result: int)
    ensures result == 6765
  {
    Fib(WorkloadInput)
  }
}
