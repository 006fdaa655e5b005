/** Numeric building blocks of the design engine: Python's `max`/`min` on two
    numbers, `clamp`, `math.ceil`, and the contract of `math.sqrt`. */
module Numeric {

  /** Python's `max(a, b)`: the first argument unless the second is larger. */
  function Max(a: real, b: real): (r: real)
    ensures r >= a && r >= b
    ensures r == a || r == b
  {
    if b > a then b else a
  }

  /** Python's `min(a, b)`: the first argument unless the second is smaller. */
  function Min(a: real, b: real): (r: real)
    ensures r <= a && r <= b
    ensures r == a || r == b
  {
    if b < a then b else a
  }

  /** `clamp(v, lo, hi) = max(lo, min(hi, v))`. */
  function Clamp(v: real, lo: real, hi: real): (r: real)
    ensures lo <= hi ==> lo <= r <= hi
    ensures lo <= v <= hi ==> r == v
    ensures lo <= hi && v < lo ==> r == lo
    ensures lo <= hi && hi < v ==> r == hi
    // with an empty range the lower bound wins
    ensures hi < lo ==> r == lo
  {
    Max(lo, Min(hi, v))
  }

  /** `math.ceil`: the least integer that is not below `x`. */
  function Ceil(x: real): (n: int)
    ensures x <= n as real < x + 1.0
  {
    -((-x).Floor)
  }

  /** What the model assumes of `math.sqrt`: on non-negative arguments it
      returns the non-negative root. The engine takes the square root as a
      parameter that satisfies this predicate. */
  ghost predicate IsSqrt(sqrt: real -> real)
  {
    forall x: real :: 0.0 <= x ==> 0.0 <= sqrt(x) && sqrt(x) * sqrt(x) == x
  }

  /** The root of a positive number is positive. */
  lemma SqrtPositive(sqrt: real -> real, x: real)
    requires IsSqrt(sqrt) && 0.0 < x
    ensures 0.0 < sqrt(x)
  {
    assert sqrt(x) * sqrt(x) == x;
  }

  /** Squaring is strictly monotone on the non-negative reals. */
  lemma SquareStrictlyMonotone(x: real, y: real)
    requires 0.0 <= x < y
    ensures x * x < y * y
  {
    var xx, xy, yy := x * x, x * y, y * y;
    assert xx <= xy;
    assert xy < yy;
  }

  /** Comparing squares of non-negative reals compares the reals. */
  lemma SquareMonotone(x: real, y: real)
    requires 0.0 <= x && 0.0 <= y && x * x <= y * y
    ensures x <= y
  {
    if y < x {
      SquareStrictlyMonotone(y, x);
    }
  }

  /** Multiplying by a positive factor preserves order. */
  lemma ScaleOrder(x: real, y: real, k: real)
    requires 0.0 < k
    ensures x <= y <==> x * k <= y * k
    ensures x < y <==> x * k < y * k
  {
    var xk, yk := x * k, y * k;
    assert yk - xk == (y - x) * k;
  }

  /** When x·u == y·v with all four positive, x <= y exactly when v <= u. */
  lemma BalancedProducts(x: real, u: real, y: real, v: real)
    requires 0.0 < x && 0.0 < u && 0.0 < y && 0.0 < v && x * u == y * v
    ensures x <= y <==> v <= u
  {
    ScaleOrder(x, y, u);
    ScaleOrder(v, u, y);
    assert y * u == u * y && y * v == v * y;
  }
}
