/**
 * Kotlin `Int` division. Kotlin (like Java) truncates the quotient toward
 * zero, so `-7 / 2 == -3`, whereas Dafny's `/` is Euclidean (`-7 / 2 == -4`).
 * The CEN engine divides negative timestamps, so the difference matters.
 */
module KotlinInt {

  /** `a / b` on Kotlin integers, for the positive divisors the engine
      uses: the remainder `a - b * q` is smaller than `b` and has the sign
      of the dividend `a`. */
  function Div(a: int, b: int): (q: int)
    requires b > 0
    ensures a >= 0 ==> 0 <= a - b * q < b
    ensures a < 0 ==> -b < a - b * q <= 0
  {
    if a >= 0 then
      a / b
    else
      assert b * -((-a) / b) == -(b * ((-a) / b));
      -((-a) / b)
  }

  /** A product of a positive factor and a factor of at least one is at
      least the positive factor. */
  lemma {:induction false} MulAtLeast(b: int, d: int)
    requires b > 0 && d >= 1
    ensures b * d >= b
  {
    if d > 1 {
      MulAtLeast(b, d - 1);
      assert b * d == b * (d - 1) + b;
    }
  }

  /** The only multiple of a positive `b` strictly between `-b` and `b` is 0. */
  lemma ZeroMultiple(b: int, d: int)
    requires b > 0 && -b < b * d < b
    ensures d == 0
  {
    if d >= 1 {
      MulAtLeast(b, d);
    } else if d <= -1 {
      assert b * -d == -(b * d);
      MulAtLeast(b, -d);
    }
  }

  /** Division by a positive divisor is determined by the remainder bounds:
      any `q` whose remainder lies on the dividend's side of zero, within
      `b`, is the Kotlin quotient. */
  lemma DivUnique(a: int, b: int, q: int)
    requires b > 0
    requires a >= 0 ==> 0 <= a - b * q < b
    requires a < 0 ==> -b < a - b * q <= 0
    ensures Div(a, b) == q
  {
    var p := Div(a, b);
    assert b * (q - p) == (a - b * p) - (a - b * q);
    ZeroMultiple(b, q - p);
  }

  /** Dividing an exact multiple gives back the factor, on either side of 0. */
  lemma DivOfMultiple(q: int, b: int)
    requires b > 0
    ensures Div(q * b, b) == q
  {
    assert q * b - b * q == 0;
    DivUnique(q * b, b, q);
  }

  lemma DivOfNonNegative(a: int, b: int)
    requires b > 0 && a >= 0
    ensures Div(a, b) >= 0
  {
    var q := Div(a, b);
    if q < 0 {
      assert b * -q == -(b * q);
      MulAtLeast(b, -q);
    }
  }

  lemma DivMonotoneNonNegative(a1: int, a2: int, b: int)
    requires b > 0 && 0 <= a1 <= a2
    ensures Div(a1, b) <= Div(a2, b)
  {
    var q1, q2 := Div(a1, b), Div(a2, b);
    if q1 > q2 {
      assert b * (q1 - q2) == b * q1 - b * q2;
      MulAtLeast(b, q1 - q2);
    }
  }

  /** Kotlin division by a positive divisor is monotone in the dividend. */
  lemma DivMonotone(a1: int, a2: int, b: int)
    requires b > 0 && a1 <= a2
    ensures Div(a1, b) <= Div(a2, b)
  {
    if a1 >= 0 {
      DivMonotoneNonNegative(a1, a2, b);
    } else if a2 < 0 {
      DivMonotoneNonNegative(-a2, -a1, b);
      assert Div(a1, b) == -Div(-a1, b);
      assert Div(a2, b) == -Div(-a2, b);
    } else {
      DivOfNonNegative(-a1, b);
      DivOfNonNegative(a2, b);
      assert Div(a1, b) == -Div(-a1, b);
    }
  }

  /** Multiplying by a positive factor is monotone. */
  lemma MulMonotone(q1: int, q2: int, b: int)
    requires b > 0 && q1 <= q2
    ensures q1 * b <= q2 * b
  {
    if q1 < q2 {
      MulAtLeast(b, q2 - q1);
      assert b * (q2 - q1) == q2 * b - q1 * b;
    }
  }
}
