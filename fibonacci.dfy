/** The n-th Fibonacci number, computed three ways: by the recursive
    definition, by a linear loop, and by raising the recurrence matrix `F` to
    the n-th power and applying it to the seed vector `X`. */
module Fibonacci {
  import opened Algebra
  import opened Exponent

  /** The recursive definition: `Fib(0) = 0`, `Fib(1) = 1`,
      `Fib(k) = Fib(k - 1) + Fib(k - 2)`. Only `Fib(0)` is zero. */
  function FibNaive(n: nat): (r: nat)
    ensures r == 0 <==> n == 0
  {
    if n <= 1 then n else FibNaive(n - 1) + FibNaive(n - 2)
  }

  /** The linear computation: after `k` rounds of `(a, b) := (b, a + b)`
      starting from `(0, 1)`, `a` is `Fib(k)` and `b` is `Fib(k + 1)`. */
  method FibLinear(n: U8) returns (a: nat)
    ensures a == FibNaive(n)
  {
    a := 0;
    var b := 1;
    for k := 0 to n
      invariant a == FibNaive(k) && b == FibNaive(k + 1)
    {
      a, b := b, a + b;
    }
  }

  /** `F^n` maps the seed `[Fib(1), Fib(0)]` to `[Fib(n + 1), Fib(n)]`. */
  lemma {:induction false} FPowApplyX(n: nat)
    ensures Apply(MatPow(F, n), X) == Vector(FibNaive(n + 1), FibNaive(n))
  {
    if n > 0 {
      FPowApplyX(n - 1);
      MatMulComposes(F, MatPow(F, n - 1), X);
    }
  }

  /** For `n >= 1`, `F^n = [[Fib(n + 1), Fib(n)], [Fib(n), Fib(n - 1)]]`. */
  lemma {:induction false} FPowClosedForm(n: nat)
    requires n >= 1
    ensures MatPow(F, n) == Matrix(Vector(FibNaive(n + 1), FibNaive(n)),
                                   Vector(FibNaive(n), FibNaive(n - 1)))
  {
    if n == 1 {
      MatMulIdentity(F);
    } else {
      FPowClosedForm(n - 1);
    }
  }

  /** The entry point: the second component of `F^n X`. */
  method Fib(n: U8) returns (ans: nat)
    ensures ans == FibNaive(n)
  {
    var fPowN := MatrixPower(F, n);
    var Vector(_, second) := Apply(fPowN, X);
    FPowApplyX(n);
    ans := second;
  }

  /** The first ten Fibonacci numbers and `Fib(50)`. */
  lemma FibExamples()
    ensures FibNaive(0) == 0 && FibNaive(1) == 1 && FibNaive(2) == 1 && FibNaive(3) == 2
    ensures FibNaive(4) == 3 && FibNaive(5) == 5 && FibNaive(6) == 8 && FibNaive(7) == 13
    ensures FibNaive(8) == 21 && FibNaive(9) == 34
    ensures FibNaive(50) == 12_586_269_025
  {
    assert FibNaive(10) == 55 && FibNaive(11) == 89;
    assert FibNaive(20) == 6765 && FibNaive(21) == 10946;
    assert FibNaive(30) == 832040 && FibNaive(31) == 1346269;
    assert FibNaive(40) == 102334155 && FibNaive(41) == 165580141;
  }
}
