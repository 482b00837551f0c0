/** Raising a 2x2 matrix to an 8-bit power by repeated squaring. */
module Exponent {
  import opened Algebra

  /** An unsigned 8-bit integer. */
  type U8 = n: nat | n < 256

  /** The number of squaring rounds: enough for every bit of a `U8` exponent. */
  const ROUNDS: nat := 8

  /** `m` multiplied by itself `k` times, with `m^0 = ID`. */
  ghost function MatPow(m: Matrix, k: nat): Matrix {
    if k == 0 then ID else MatMul(m, MatPow(m, k - 1))
  }

  /** `2^i`, the value of `1 << i`. */
  function Pow2(i: nat): (r: nat)
    ensures r >= 1
  {
    if i == 0 then 1 else 2 * Pow2(i - 1)
  }

  /** `n >> i`: `n` with its low `i` bits dropped. */
  function Shift(n: nat, i: nat): nat {
    if i == 0 then n else Shift(n / 2, i - 1)
  }

  /** Bit `i` of `n` is set: the test `n & (1 << i) != 0`. */
  predicate BitSet(n: nat, i: nat) {
    Shift(n, i) % 2 == 1
  }

  /** The number formed by the low `i` bits of `n`, that is `n mod 2^i`. */
  function LowBits(n: nat, i: nat): (r: nat)
    ensures r < Pow2(i)
  {
    if i == 0 then 0 else n % 2 + 2 * LowBits(n / 2, i - 1)
  }

  /** Adding exponents multiplies powers. */
  lemma {:induction false} MatPowAdd(m: Matrix, i: nat, j: nat)
    ensures MatPow(m, i + j) == MatMul(MatPow(m, i), MatPow(m, j))
  {
    if i == 0 {
      MatMulIdentity(MatPow(m, j));
    } else {
      calc {
        MatPow(m, i + j);
        MatMul(m, MatPow(m, i - 1 + j));
        { MatPowAdd(m, i - 1, j); }
        MatMul(m, MatMul(MatPow(m, i - 1), MatPow(m, j)));
        { MatMulAssoc(m, MatPow(m, i - 1), MatPow(m, j)); }
        MatMul(MatMul(m, MatPow(m, i - 1)), MatPow(m, j));
        MatMul(MatPow(m, i), MatPow(m, j));
      }
    }
  }

  /** Any two powers of the same matrix commute. */
  lemma PowersCommute(m: Matrix, i: nat, j: nat)
    ensures MatMul(MatPow(m, i), MatPow(m, j)) == MatMul(MatPow(m, j), MatPow(m, i))
  {
    MatPowAdd(m, i, j);
    MatPowAdd(m, j, i);
  }

  /** Squaring `m^k` gives `m^(2k)`. */
  lemma SquarePow(m: Matrix, k: nat)
    ensures Square(MatPow(m, k)) == MatPow(m, 2 * k)
  {
    MatPowAdd(m, k, k);
  }

  /** Every `n` splits into its high part `n >> i` and its low `i` bits. */
  lemma {:induction false} SplitBits(n: nat, i: nat)
    ensures n == Shift(n, i) * Pow2(i) + LowBits(n, i)
  {
    if i > 0 {
      var s, p, l := Shift(n / 2, i - 1), Pow2(i - 1), LowBits(n / 2, i - 1);
      SplitBits(n / 2, i - 1);
      assert n / 2 == s * p + l;
      assert Shift(n, i) == s && Pow2(i) == 2 * p && LowBits(n, i) == n % 2 + 2 * l;
      calc {
        n;
        2 * (n / 2) + n % 2;
        2 * (s * p) + 2 * l + n % 2;
        { assert 2 * (s * p) == s * (2 * p); }
        s * (2 * p) + (n % 2 + 2 * l);
      }
    }
  }

  /** The bit operations agree with division and remainder by `2^i`: `n >> i` is
      `n / 2^i`, the low `i` bits are `n mod 2^i`, and bit `i` is set exactly when
      `n / 2^i` is odd. */
  lemma BitsAsArithmetic(n: nat, i: nat)
    ensures Shift(n, i) == n / Pow2(i)
    ensures LowBits(n, i) == n % Pow2(i)
    ensures BitSet(n, i) <==> (n / Pow2(i)) % 2 == 1
  {
    SplitBits(n, i);
    DivModUnique(n, Pow2(i), Shift(n, i), LowBits(n, i));
  }

  /** The low `i + 1` bits of `n` are its low `i` bits plus bit `i`, weighted `2^i`. */
  lemma {:induction false} LowBitsStep(n: nat, i: nat)
    ensures LowBits(n, i + 1) == LowBits(n, i) + (if BitSet(n, i) then Pow2(i) else 0)
  {
    if i > 0 {
      LowBitsStep(n / 2, i - 1);
    }
  }

  /** A number below `2^i` is its own low `i` bits. */
  lemma {:induction false} LowBitsOfSmall(n: nat, i: nat)
    requires n < Pow2(i)
    ensures LowBits(n, i) == n
  {
    if i > 0 {
      LowBitsOfSmall(n / 2, i - 1);
    }
  }

  /** Division with remainder is unique. */
  lemma DivModUnique(n: nat, d: nat, q: nat, r: nat)
    requires 0 < d && r < d && n == q * d + r
    ensures n / d == q && n % d == r
  {
    var q0, r0 := n / d, n % d;
    assert n == q0 * d + r0;
    if q < q0 {
      assert q0 * d >= (q + 1) * d by { MulMono(q + 1, q0, d); }
      assert false;
    } else if q > q0 {
      assert q * d >= (q0 + 1) * d by { MulMono(q0 + 1, q, d); }
      assert false;
    }
  }

  lemma MulMono(a: nat, b: nat, d: nat)
    requires a <= b
    ensures a * d <= b * d
  {
  }

  /** One round of the folding loop: multiplying `m^(n mod 2^i)` by `m^(2^i)`
      when bit `i` of `n` is set gives `m^(n mod 2^(i+1))`. */
  lemma FoldStep(m: Matrix, n: nat, i: nat, product: Matrix, power: Matrix)
    requires product == MatPow(m, LowBits(n, i)) && power == MatPow(m, Pow2(i))
    ensures (if BitSet(n, i) then MatMul(product, power) else product) == MatPow(m, LowBits(n, i + 1))
  {
    LowBitsStep(n, i);
    MatPowAdd(m, LowBits(n, i), Pow2(i));
  }

  /** `m` raised to the power `n`. The array `powers` holds `m^(2^i)` for the
      eight bit positions `i`; `product` folds in the powers selected by the
      bits of `n`, lowest bit first. */
  method MatrixPower(m: Matrix, n: U8) returns (product: Matrix)
    ensures product == MatPow(m, n)
  {
    var powers := new Matrix[ROUNDS](_ => ZERO);
    powers[0] := m;
    assert MatPow(m, 1) == m by { MatMulIdentity(m); }
    for i := 1 to ROUNDS
      invariant forall j :: 0 <= j < i ==> powers[j] == MatPow(m, Pow2(j))
    {
      SquarePow(m, Pow2(i - 1));
      powers[i] := Square(powers[i - 1]);
    }

    product := ID;
    for i := 0 to ROUNDS
      invariant forall j :: 0 <= j < ROUNDS ==> powers[j] == MatPow(m, Pow2(j))
      invariant product == MatPow(m, LowBits(n, i))
    {
      FoldStep(m, n, i, product, powers[i]);
      if BitSet(n, i) {
        product := MatMul(product, powers[i]);
      }
    }
    LowBitsOfSmall(n, ROUNDS);
  }

  /** A power of the identity is the identity. */
  lemma {:induction false} IdentityPow(k: nat)
    ensures MatPow(ID, k) == ID
  {
    if k > 0 {
      IdentityPow(k - 1);
      MatMulIdentity(ID);
    }
  }

  /** The recurrence matrix squared, as a power. */
  lemma FPowTwo()
    ensures MatPow(F, 2) == Matrix(Vector(2, 1), Vector(1, 1))
  {
    MatMulIdentity(F);
    FSquared();
  }
}
