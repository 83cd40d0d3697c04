/** Conversions from floating point to `long` as C++ performs them: toward zero. */
module Truncation {

  function Min(a: int, b: int): (m: int)
    ensures m <= a && m <= b && (m == a || m == b)
  {
    if a <= b then a else b
  }

  /** `static_cast<long>(x)`. */
  function ToLong(x: real): (n: int)
    ensures x >= 0.0 ==> n as real <= x < n as real + 1.0
    ensures x <= 0.0 ==> x <= n as real < x + 1.0
  {
    if x >= 0.0 then x.Floor else -((-x).Floor)
  }

  /** `a / b` on signed integers: the quotient is rounded toward zero. */
  function TruncDiv(a: int, b: int): (q: int)
    requires b != 0
  {
    if a >= 0 then a / b else -((-a) / b)
  }

  /** The quotient is the one whose remainder has the sign of the dividend and is less than the divisor. */
  lemma TruncDivIs(a: int, b: int)
    requires b != 0
    ensures var rest := a - TruncDiv(a, b) * b;
            (if a >= 0 then 0 <= rest else rest <= 0) && -(if b > 0 then b else -b) < rest < (if b > 0 then b else -b)
  {
    if a >= 0 {
      assert a == a / b * b + a % b;
    } else {
      assert -a == (-a) / b * b + (-a) % b;
      assert -((-a) / b) * b == -((-a) / b * b);
    }
  }

  lemma ToLongUnique(x: real, n: int)
    requires x >= 0.0 && n as real <= x < n as real + 1.0
    ensures ToLong(x) == n
  {
  }

  /**
   * `total += x` on a `long` and a non-negative double truncates the sum, not `x`.
   * The two agree exactly when the sum does not stay below zero or `x` is whole.
   */
  lemma AccumulateExact(total: int, x: real)
    requires x >= 0.0
    ensures ToLong(total as real + x) == total + ToLong(x)
       <==> (total + ToLong(x) >= 0 || x == ToLong(x) as real)
  {
    var f := ToLong(x);
    var sum := total as real + x;
    var direct := total + f;
    if direct >= 0 {
      assert sum >= direct as real;
      ToLongUnique(sum, direct);
    } else if x == f as real {
      assert sum == direct as real;
    } else {
      assert direct as real < sum < (direct + 1) as real <= 0.0;
      assert ToLong(sum) as real >= sum;
    }
  }
}
