/**
 * The parts of Go's `math` package that the map uses.
 *
 * `float64` is modelled by `real`. `math.Abs`, `math.Min` and `math.Max` are
 * exact over the reals and are defined here. `math.Sqrt`, `math.Exp`,
 * `math.Log` and `math.Pow` have no closed form over the reals; they are the
 * fields of a `MathLib` value that every kernel needing them takes as a
 * parameter. `MathLib.Valid` names the few facts about them that the model
 * relies on.
 */
module GoMath {

  /** math.Abs */
  function Abs(x: real): (r: real)
    ensures 0.0 <= r
    ensures r == x || r == -x
  {
    if x < 0.0 then -x else x
  }

  /** math.Min on two numbers (the model has no NaN) */
  function Min(a: real, b: real): (r: real)
    ensures r <= a && r <= b
    ensures r == a || r == b
  {
    if a < b then a else b
  }

  /** math.Max on two numbers (the model has no NaN) */
  function Max(a: real, b: real): (r: real)
    ensures a <= r && b <= r
    ensures r == a || r == b
  {
    if a > b then a else b
  }

  /** The transcendental functions of Go's math package, supplied by the caller. */
  datatype MathLib = MathLib(
    Sqrt: real -> real,
    Exp: real -> real,
    Log: real -> real,
    Pow: (real, real) -> real)
  {
    /** What the model assumes of them: identities that the real functions
        satisfy and that the kernels' properties rest on. */
    ghost predicate Valid() {
      && (forall x :: 0.0 <= x ==> 0.0 <= Sqrt(x) && Sqrt(x) * Sqrt(x) == x)
      && (forall x :: 0.0 < Exp(x))
      && Exp(0.0) == 1.0
      && (forall x :: 0.0 < x ==> Exp(Log(x)) == x)
      && (forall x :: Pow(x, 0.0) == 1.0)
      && (forall x :: Pow(x, 1.0) == x)
      && (forall x :: Pow(x, 2.0) == x * x)
    }
  }

  /** Squaring is strictly increasing on the non-negative reals. */
  lemma {:induction false} SquareStrictlyIncreasing(a: real, b: real)
    requires 0.0 <= a && 0.0 <= b
    ensures a < b ==> a * a < b * b
  {
    if a < b {
      calc {
        a * a;
      <= a * b;
      <  b * b;
      }
    }
  }

  /** A valid square root is strictly increasing, so it keeps the order of its arguments. */
  lemma {:induction false} SqrtOrder(m: MathLib, x: real, y: real)
    requires m.Valid() && 0.0 <= x && 0.0 <= y
    ensures m.Sqrt(x) < m.Sqrt(y) <==> x < y
    ensures m.Sqrt(x) == m.Sqrt(y) <==> x == y
  {
    SquareStrictlyIncreasing(m.Sqrt(x), m.Sqrt(y));
    SquareStrictlyIncreasing(m.Sqrt(y), m.Sqrt(x));
  }

  /** A valid square root of 1 is 1, and of 0 is 0. */
  lemma {:induction false} SqrtOfOneAndZero(m: MathLib)
    requires m.Valid()
    ensures m.Sqrt(1.0) == 1.0 && m.Sqrt(0.0) == 0.0
  {
    var s := m.Sqrt(1.0);
    SquareStrictlyIncreasing(s, 1.0);
    SquareStrictlyIncreasing(1.0, s);
    SquareStrictlyIncreasing(0.0, m.Sqrt(0.0));
  }
}
