/** Fixed-size 2x2 matrix algebra over unsigned scalars: the two value types
    `Vector` and `Matrix`, the constants `F`, `X` and `ID`, the matrix product,
    squaring and the application of a matrix to a vector.
    Scalars are unbounded `nat`s; Rust's `u128` scalar width is not modelled. */
module Algebra {

  /** A 2-element vector `[fst, snd]`. */
  datatype Vector = Vector(fst: nat, snd: nat)

  /** A 2x2 matrix stored as its two rows: `[[top.fst, top.snd], [bottom.fst, bottom.snd]]`. */
  datatype Matrix = Matrix(top: Vector, bottom: Vector)

  /** The Fibonacci recurrence matrix `[[1, 1], [1, 0]]`. */
  const F: Matrix := Matrix(Vector(1, 1), Vector(1, 0))

  /** The seed vector `[Fib(1), Fib(0)] = [1, 0]`. */
  const X: Vector := Vector(1, 0)

  /** The multiplicative identity `[[1, 0], [0, 1]]`. */
  const ID: Matrix := Matrix(Vector(1, 0), Vector(0, 1))

  /** The all-zero matrix, the default value of a matrix slot. */
  const ZERO: Matrix := Matrix(Vector(0, 0), Vector(0, 0))

  /** Column `j` (0 or 1) of `m`. */
  function Column(m: Matrix, j: nat): Vector
    requires j < 2
  {
    if j == 0 then Vector(m.top.fst, m.bottom.fst) else Vector(m.top.snd, m.bottom.snd)
  }

  /** The matrix-vector product `m v`. */
  function Apply(m: Matrix, v: Vector): Vector {
    var Matrix(Vector(a, b), Vector(c, d)) := m;
    var Vector(x, y) := v;
    Vector(a * x + b * y, c * x + d * y)
  }

  /** The matrix product `m1 m2`. */
  function MatMul(m1: Matrix, m2: Matrix): Matrix {
    var Matrix(Vector(a, b), Vector(c, d)) := m1;
    var Matrix(Vector(e, f), Vector(g, h)) := m2;
    Matrix(Vector(a * e + b * g, a * f + b * h),
           Vector(c * e + d * g, c * f + d * h))
  }

  /** Applying a product is applying `m2` and then `m1`. */
  lemma MatMulComposes(m1: Matrix, m2: Matrix, v: Vector)
    ensures Apply(MatMul(m1, m2), v) == Apply(m1, Apply(m2, v))
  {
  }

  /** The square `m m`. */
  function Square(m: Matrix): Matrix {
    MatMul(m, m)
  }

  /** Column `j` of a product is `m1` applied to column `j` of `m2`. */
  lemma MatMulColumns(m1: Matrix, m2: Matrix)
    ensures Column(MatMul(m1, m2), 0) == Apply(m1, Column(m2, 0))
    ensures Column(MatMul(m1, m2), 1) == Apply(m1, Column(m2, 1))
  {
  }

  /** The product is associative. */
  lemma MatMulAssoc(a: Matrix, b: Matrix, c: Matrix)
    ensures MatMul(MatMul(a, b), c) == MatMul(a, MatMul(b, c))
  {
    var left, right := MatMul(MatMul(a, b), c), MatMul(a, MatMul(b, c));
    MatMulColumns(MatMul(a, b), c);
    MatMulColumns(b, c);
    MatMulColumns(a, MatMul(b, c));
    MatMulComposes(a, b, Column(c, 0));
    MatMulComposes(a, b, Column(c, 1));
    assert Column(left, 0) == Column(right, 0) && Column(left, 1) == Column(right, 1);
  }

  /** `ID` is a two-sided identity of the product. */
  lemma MatMulIdentity(m: Matrix)
    ensures MatMul(ID, m) == m
    ensures MatMul(m, ID) == m
  {
  }

  /** The recurrence matrix squared is `[[2, 1], [1, 1]]`. */
  lemma FSquared()
    ensures MatMul(F, F) == Matrix(Vector(2, 1), Vector(1, 1))
  {
  }
}
