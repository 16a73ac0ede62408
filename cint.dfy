/** C integer arithmetic that differs from Dafny's built-in operators. */
module CInt {

  /** C's `/` on `int`: the quotient is truncated toward zero
      (Dafny's `/` is Euclidean), so the remainder `a - q * b` takes the
      sign of the dividend and is smaller than the divisor in magnitude. */
  function CDiv(a: int, b: int): (q: int)
    requires b != 0
    ensures a >= 0 && b > 0 ==> q == a / b
    ensures (a >= 0) == (b > 0) || a == 0 ==> q >= 0
    ensures -1 < a < 1 ==> q == 0
    ensures a >= 0 ==> 0 <= a - q * b < Abs(b)
    ensures a < 0 ==> -Abs(b) < a - q * b <= 0
  {
    var m := Abs(a) / Abs(b);
    var q := if (a < 0) == (b < 0) then m else -m;
    Truncated(a, b, m, q);
    q
  }

  /** The magnitude of x. */
  function Abs(x: int): (y: int)
    ensures y >= 0 && (y == x || y == -x)
  {
    if x < 0 then -x else x
  }

  /** The quotient m of the magnitudes, with the sign of the operands,
      leaves the remainder of the magnitudes with the dividend's sign. */
  lemma Truncated(a: int, b: int, m: int, q: int)
    requires b != 0 && m == Abs(a) / Abs(b)
    requires q == (if (a < 0) == (b < 0) then m else -m)
    ensures a >= 0 && b > 0 ==> q == a / b
    ensures (a >= 0) == (b > 0) || a == 0 ==> q >= 0
    ensures -1 < a < 1 ==> q == 0
    ensures a >= 0 ==> 0 <= a - q * b < Abs(b)
    ensures a < 0 ==> -Abs(b) < a - q * b <= 0
  {
    EuclidOnMagnitudes(Abs(a), Abs(b), m);
    SignedProduct(a, b, m, q);
  }

  /** Division of a non-negative number by a positive one leaves a
      remainder below the divisor, and zero divides to zero. */
  lemma EuclidOnMagnitudes(x: int, d: int, m: int)
    requires x >= 0 && d > 0 && m == x / d
    ensures 0 <= x - m * d < d && m >= 0
    ensures x == 0 ==> m == 0
  {
    assert x == m * d + x % d;
  }

  /** The signed quotient times the divisor is the magnitudes' product,
      with the dividend's sign. */
  lemma SignedProduct(a: int, b: int, m: int, q: int)
    requires b != 0 && q == (if (a < 0) == (b < 0) then m else -m)
    ensures q * b == (if a < 0 then -(m * Abs(b)) else m * Abs(b))
  {
    if b < 0 {
      assert m * b == -(m * Abs(b));
    }
    assert (-m) * b == -(m * b);
  }
}
