/** Double-precision values as numpy produces them, and small helpers on real sequences. */
module Numeric {

  /** The outcome of an operation that can fail where the source raises. */
  datatype Result<T, E> = Success(value: T) | Failure(error: E)

  /** An IEEE-754 double seen as a value: a finite real, +inf, -inf or NaN.
      Signed zero and rounding are not modelled. */
  datatype Float = Finite(v: real) | PosInf | NegInf | NaN

  /** The quotient `a / b` of two finite doubles under numpy semantics:
      a non-zero divisor gives the exact quotient, a zero divisor gives
      +inf, -inf or NaN according to the sign of the dividend. */
  function Div(a: real, b: real): (q: Float)
    ensures b != 0.0 ==> q.Finite? && q.v * b == a
    ensures b == 0.0 ==> (q.PosInf? <==> a > 0.0) && (q.NegInf? <==> a < 0.0) && (q.NaN? <==> a == 0.0)
  {
    if b != 0.0 then Finite(a / b)
    else if a > 0.0 then PosInf
    else if a < 0.0 then NegInf
    else NaN
  }

  /** `x * c` for a positive finite factor `c`: infinities and NaN are kept. */
  function Scale(x: Float, c: real): (r: Float)
    requires c > 0.0
    ensures r.Finite? <==> x.Finite?
    ensures x.Finite? ==> r.v == x.v * c
    ensures !x.Finite? ==> r == x
  {
    match x
    case Finite(v) => Finite(v * c)
    case _ => x
  }

  /** `n / x` for a finite numerator and a double `x`: dividing by an
      infinity gives zero, NaN stays NaN. */
  function DivByFloat(n: real, x: Float): (r: Float)
  {
    match x
    case Finite(v) => Div(n, v)
    case PosInf => Finite(0.0)
    case NegInf => Finite(0.0)
    case NaN => NaN
  }

  /** The total order of non-NaN doubles: -inf < every finite value < +inf. */
  predicate Le(a: Float, b: Float)
    requires !a.NaN? && !b.NaN?
  {
    a.NegInf? || b.PosInf? || (a.Finite? && b.Finite? && a.v <= b.v)
  }

  predicate Lt(a: Float, b: Float)
    requires !a.NaN? && !b.NaN?
  {
    !Le(b, a)
  }

  /** `s` is the non-negative square root of `x`. */
  ghost predicate IsSqrt(x: real, s: real)
  {
    s >= 0.0 && s * s == x
  }

  predicate StrictlyIncreasing(s: seq<real>)
  {
    forall i, j :: 0 <= i < j < |s| ==> s[i] < s[j]
  }

  /** Cell `(a, b, c)` of a three-dimensional grid comes before cell `(i, j, k)`
      in row-major (last index fastest) order. */
  predicate LexBefore(a: int, b: int, c: int, i: int, j: int, k: int)
  {
    a < i || (a == i && (b < j || (b == j && c < k)))
  }

  /** For non-negative reals, comparing the values is comparing their squares. */
  lemma SquareMonotone(a: real, b: real)
    requires a >= 0.0 && b >= 0.0
    ensures a < b <==> a * a < b * b
  {
    assert b * b - a * a == (b - a) * (b + a);
    if a < b {
      ProductPositive(b - a, b + a);
    } else if a > b {
      ProductPositive(a - b, a + b);
    }
  }

  /** A positive number has a positive square root, zero has root zero. */
  lemma PositiveRoot(x: real, s: real)
    requires x > 0.0 && IsSqrt(x, s)
    ensures s > 0.0
  {
    SquareMonotone(0.0, s);
  }

  lemma ZeroRoot(s: real)
    requires IsSqrt(0.0, s)
    ensures s == 0.0
  {
    SquareMonotone(0.0, s);
  }

  lemma NonNegativeProduct(x: real, y: real)
    requires x >= 0.0 && y >= 0.0
    ensures x * y >= 0.0
  {
  }

  lemma ProductPositive(x: real, y: real)
    requires x > 0.0 && y > 0.0
    ensures x * y > 0.0
  {
  }
}
