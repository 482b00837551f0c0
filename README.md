# fast-fib in Dafny

A verified model of `fast-fib`, a small Rust library that computes the n-th
Fibonacci number for an 8-bit index by fast exponentiation of 2x2 matrices.
The model follows `src/lib.rs` part by part:

- `algebra.dfy`, module `Algebra`: the value types `Vector` (`[u128; 2]`) and
  `Matrix` (two rows), the constants `F = [[1, 1], [1, 0]]`,
  `X = [1, 0]` and `ID = [[1, 0], [0, 1]]`, and the pure functions `MatMul`
  (`matrix_mul`), `Apply` (`apply`) and `Square` (`square`). Their closed-form
  entry formulas are the functions' bodies. What they mean is proved as lemmas:
  - each column of a product is the left factor applied to a column of the right factor;
  - applying a product is applying both factors in turn;
  - the product is associative;
  - `ID` is a two-sided identity.
- `exponent.dfy`, module `Exponent`: `MatrixPower` (`matrix_power`) as a method.
  It fills a local 8-slot array `powers` with `m^(2^i)` by repeated squaring.
  It then folds the powers picked by the set bits of `n` into an accumulator
  `product`, starting from `ID`. It is proved against the specification `MatPow`
  (`m` multiplied by itself `k` times, `MatPow(m, 0) == ID`). Its two loop
  invariants are the ones the algorithm rests on: `powers[j] == m^(2^j)`, and
  `product == m^(n mod 2^i)` after bits `0..i` have been processed.
- `fibonacci.dfy`, module `Fibonacci`: `FibNaive` (`_fib_naive`), the recursive
  definition, which serves as the specification. `FibLinear` (`_fib_linear`)
  is a loop over `(a, b)`. `Fib` (`fib`) is the entry point: it takes the second
  component of `F^n X`. Both methods are proved to return `FibNaive(n)`, so the
  fast and the linear algorithm agree on every 8-bit index.

Modelling choices:

- Scalars are unbounded `nat`s, and the 8-bit index is the subset type `U8`.
- The bit test `n & 1 << i != 0` (Rust precedence: `n & (1 << i)`) is
  `BitSet(n, i)`, defined as "`n >> i` is odd". `BitsAsArithmetic` proves that
  this agrees with `(n / 2^i) % 2 == 1`, and that the low-bits value `LowBits`
  used in the invariant is `n % 2^i`.
- `Fib` calls `MatrixPower`, which is a method, so `Fib` is a method too.
- `Default::default()` for the unused slots of `powers` is the zero matrix `ZERO`.
- The fold keeps the accumulator as the left factor,
  `product = matrix_mul(product, powers[i])` (src/lib.rs:45), and so does the
  model. `PowersCommute` shows that the other order gives the same matrix.

## Model

| member | source | states |
|---|---|---|
| Algebra.MatMul | src/lib.rs:55-62 | no `ensures`: the body is the closed-form entry formula of the product; its meaning is carried by `MatMulColumns`, `MatMulComposes`, `MatMulAssoc` and `MatMulIdentity` |
| Algebra.Apply | src/lib.rs:64-68 | no `ensures`: the body is the closed-form matrix-vector product `[a*x+b*y, c*x+d*y]`; its meaning is carried by `MatMulComposes` and `MatMulColumns` |
| Algebra.Square | src/lib.rs:51-53 | no `ensures`: the body is `MatMul(m, m)`; `SquarePow` states that squaring `m^k` gives `m^(2k)` |
| Exponent.Pow2 | src/lib.rs:44 | `1 << i` as `2^i`, which is at least 1; its relation to the bits of `n` is carried by `BitsAsArithmetic` |
| Exponent.BitSet | src/lib.rs:44 | no `ensures`: the test `n & (1 << i) != 0`, written as "`n >> i` is odd"; `BitsAsArithmetic` proves it is `(n / 2^i) % 2 == 1` |
| Algebra.MatMulColumns | src/lib.rs:55-62 | column j of `matrix_mul(m1, m2)` is `m1` applied to column j of `m2`: the textbook definition of the product |
| Algebra.MatMulComposes | src/lib.rs:55-68 | applying `matrix_mul(m1, m2)` to any vector equals applying `m2` and then `m1` with `apply` |
| Algebra.MatMulAssoc | src/lib.rs:55-62 | `matrix_mul` is associative, for all matrices |
| Algebra.MatMulIdentity | src/lib.rs:101-103 | `ID` is a left and a right identity of `matrix_mul` for every matrix (the tests check `ID*ID`, `F*ID`, `ID*F`) |
| Algebra.FSquared | src/lib.rs:104 | `matrix_mul(F, F) == [[2, 1], [1, 1]]` |
| Exponent.MatPowAdd | src/lib.rs:42-47 | `m^(i+j) == m^i * m^j` for all `i`, `j`; this is what lets the selected powers be folded one by one |
| Exponent.PowersCommute | src/lib.rs:45 | any two powers of the same matrix commute, so the fold order does not matter |
| Exponent.SquarePow | src/lib.rs:38-40 | `square(m^k) == m^(2k)`, so each squaring doubles the exponent |
| Exponent.BitsAsArithmetic | src/lib.rs:44 | bit `i` is set exactly when `(n / 2^i) % 2 == 1`; `n >> i` is `n / 2^i`; the low `i` bits are `n mod 2^i` |
| Exponent.LowBitsStep | src/lib.rs:43-47 | `n mod 2^(i+1)` is `n mod 2^i`, plus `2^i` when bit `i` is set |
| Exponent.LowBitsOfSmall | src/lib.rs:43 | for `n < 2^i` the low `i` bits of `n` are `n`; with eight rounds this covers every `u8` |
| Exponent.FoldStep | src/lib.rs:44-46 | one round of the fold turns `product == m^(n mod 2^i)` into `product == m^(n mod 2^(i+1))` |
| Exponent.MatrixPower | src/lib.rs:34-49 | `matrix_power(m, n)` returns `m^n`: `m` multiplied by itself `n` times, and `ID` for `n == 0` |
| Exponent.IdentityPow | src/lib.rs:92-94 | `ID^k == ID` for every `k` (the tests check `k = 0, 1, 2`) |
| Exponent.FPowTwo | src/lib.rs:95 | `F^2 == [[2, 1], [1, 1]]` |
| Fibonacci.FibNaive | src/lib.rs:1-7 | the recursive definition; its result is zero exactly when `n == 0` |
| Fibonacci.FibLinear | src/lib.rs:9-18 | the `(a, b) = (b, a + b)` loop returns `Fib(n)` as the recursive definition gives it |
| Fibonacci.FPowApplyX | src/lib.rs:23-30 | `apply(F^n, X) == [Fib(n+1), Fib(n)]` for every `n`, including `n == 0` |
| Fibonacci.FPowClosedForm | src/lib.rs:23 | for `n >= 1`, `F^n == [[Fib(n+1), Fib(n)], [Fib(n), Fib(n-1)]]` |
| Fibonacci.Fib | src/lib.rs:26-30 | `fib(n)` returns `Fib(n)` as the recursive definition gives it, for every `u8` index |
| Fibonacci.FibExamples | src/lib.rs:76-86 | `Fib(0..9) == 0, 1, 1, 2, 3, 5, 8, 13, 21, 34` and `Fib(50) == 12_586_269_025` |

## Left out

- Fixed-width `u128` arithmetic: scalars are unbounded `nat`s, so the model does not capture overflow. In a debug build the Rust code panics on overflow, and in a release build it wraps. `fib` and `_fib_linear` overflow from `n = 186`, because both compute `Fib(187)`: `fib` as the top-left entry of `F^186` (src/lib.rs:45, src/lib.rs:59), `_fib_linear` as the last `b` (src/lib.rs:14). Their own result `Fib(186)` would still fit. `matrix_power(m, n)` overflows whenever `m^128` has an entry of `2^128` or more, whatever `n` is, because the squaring loop always computes `m^128` (src/lib.rs:38-40). The model gives the mathematical result in all these cases.
- The `test_case` harness and the `#[cfg(test)]` module (src/lib.rs:70-74): the values the tests assert are stated as the lemmas `FibExamples`, `IdentityPow`, `FPowTwo`, `MatMulIdentity` and `FSquared`.
- Performance: the logarithmic number of multiplications in `matrix_power` and the exponential running time of `_fib_naive` are not functional properties.
