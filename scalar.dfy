/**
 * Scalar arithmetic of the element type, instantiated at integers. The only
 * operation that differs from Dafny's own is division: C++ truncates the
 * quotient toward zero, where Dafny's `/` is Euclidean.
 */
module Scalar {

  function Abs(x: int): nat
  {
    if x < 0 then -x else x
  }

  /**
   * The remainder rule of C++ integer division: what is left after taking
   * q * y from x is smaller than y in magnitude and never has the opposite
   * sign of x.
   */
  predicate TruncRemainder(x: int, y: int, q: int)
  {
    var r := x - q * y;
    Abs(r) < Abs(y) && (x >= 0 ==> r >= 0) && (x <= 0 ==> r <= 0)
  }

  /**
   * C++ `x / y` on integers: the quotient rounded toward zero. It obeys the
   * remainder rule, and on a non-negative dividend and positive divisor it
   * agrees with Euclidean division.
   */
  function TruncDiv(x: int, y: int): (q: int)
    requires y != 0
    ensures TruncRemainder(x, y, q)
    ensures x >= 0 && y > 0 ==> q == x / y
  {
    var m := Abs(x) / Abs(y);
    var q := if (x < 0) == (y < 0) then m else -m;
    DivMod(Abs(x), Abs(y));
    QuotientOfMagnitudes(x, y, m, Abs(x) % Abs(y));
    q
  }

  /**
   * Dividing the magnitudes and giving the quotient the sign the operands
   * call for meets the remainder rule.
   */
  lemma QuotientOfMagnitudes(x: int, y: int, m: int, s: int)
    requires y != 0 && m >= 0 && Abs(x) == m * Abs(y) + s && 0 <= s < Abs(y)
    ensures TruncRemainder(x, y, if (x < 0) == (y < 0) then m else -m)
  {
    var q := if (x < 0) == (y < 0) then m else -m;
    var r := x - q * y;
    if y > 0 {
      assert Abs(y) == y;
      if x >= 0 { assert r == s; } else { assert q * y == -(m * y); assert r == -s; }
    } else {
      assert Abs(y) == -y;
      assert m * Abs(y) == -(m * y);
      if x >= 0 { assert q * y == -(m * y); assert r == s; } else { assert r == -s; }
    }
  }

  /** Euclidean division of naturals leaves a remainder below the divisor. */
  lemma DivMod(a: nat, b: nat)
    requires b > 0
    ensures a == (a / b) * b + a % b && 0 <= a % b < b
  {
  }

  /** The magnitude of a product is the product of the magnitudes. */
  lemma AbsMul(d: int, y: int)
    ensures Abs(d * y) == Abs(d) * Abs(y)
  {
    if d < 0 && y < 0 { assert d * y == (-d) * (-y); }
    else if d < 0 { assert d * y == -((-d) * y); }
    else if y < 0 { assert d * y == -(d * (-y)); }
  }

  /** A natural taken at least once is no more than the product. */
  lemma AtLeastOnce(a: int, b: int)
    requires a >= 1 && b >= 0
    ensures a * b >= b
  {
    assert a * b == (a - 1) * b + b;
  }

  /** A multiple of y smaller than y in magnitude is zero. */
  lemma SmallMultiple(d: int, y: int)
    requires y != 0 && Abs(d * y) < Abs(y)
    ensures d == 0
  {
    if d != 0 {
      AbsMul(d, y);
      AtLeastOnce(Abs(d), Abs(y));
    }
  }

  /** The remainder rule determines the quotient: TruncDiv is its only solution. */
  lemma TruncDivUnique(x: int, y: int, q: int)
    requires y != 0 && TruncRemainder(x, y, q)
    ensures q == TruncDiv(x, y)
  {
    var q0 := TruncDiv(x, y);
    var r, r0 := x - q * y, x - q0 * y;
    assert (q0 - q) * y == r - r0;
    SmallMultiple(q0 - q, y);
  }

  /** Dividing a product by one of its non-zero factors gives back the other. */
  lemma TruncDivOfMultiple(x: int, y: int)
    requires y != 0
    ensures TruncDiv(x * y, y) == x
  {
    TruncDivUnique(x * y, y, x);
  }

  /** Truncating division is symmetric under negating the dividend. */
  lemma TruncDivNegate(x: int, y: int)
    requires y != 0
    ensures TruncDiv(-x, y) == -TruncDiv(x, y)
  {
    var q := TruncDiv(x, y);
    assert -x - (-q) * y == -(x - q * y);
    TruncDivUnique(-x, y, -q);
  }

  /** On a negative dividend the two divisions part ways: -7 / 2 is -3 in C++, -4 in Dafny. */
  lemma TruncDivIsNotEuclidean()
    ensures TruncDiv(-7, 2) == -3 && -7 / 2 == -4
  {
  }
}
