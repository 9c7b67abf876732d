/*
 * Integer facts shared by the models: uniqueness of Euclidean division and
 * the C conventions for `/` and `%` (truncation toward zero).
 */
module Arith {

  lemma MulAtLeast(k: int, d: int)
    requires k >= 1 && d > 0
    ensures k * d >= d
    decreases k
  {
    if k > 1 {
      MulAtLeast(k - 1, d);
      assert k * d == (k - 1) * d + d;
    }
  }

  /** Any quotient/remainder pair with the remainder in range is the one `/` and `%` give. */
  lemma DivModUnique(x: int, d: int, q: int, r: int)
    requires d > 0 && 0 <= r < d && x == q * d + r
    ensures x / d == q && x % d == r
  {
    var q0 := x / d;
    var r0 := x % d;
    assert x == q0 * d + r0 && 0 <= r0 < d;
    assert (q - q0) * d == r0 - r;
    if q > q0 {
      MulAtLeast(q - q0, d);
    } else if q < q0 {
      MulAtLeast(q0 - q, d);
    }
  }

  /** C's integer `/`: truncates toward zero. */
  function TruncDiv(a: int, d: int): int
    requires d > 0
  {
    if a >= 0 then a / d else -((-a) / d)
  }

  /** C's integer `%` (and `fmod` on integral values): the sign follows the dividend. */
  function CRem(a: int, d: int): int
    requires d > 0
  {
    a - TruncDiv(a, d) * d
  }

  lemma CRemZero(a: int, d: int)
    requires d > 0
    ensures CRem(a, d) == 0 <==> a % d == 0
  {
    if a < 0 {
      var q := (-a) / d;
      var s := (-a) % d;
      assert -a == q * d + s;
      assert CRem(a, d) == -s;
      if s == 0 {
        DivModUnique(a, d, -q, 0);
      } else {
        DivModUnique(a, d, -q - 1, d - s);
      }
    }
  }

  /** On a non-negative dividend, C's operators agree with Euclidean ones. */
  lemma CDivModNonNegative(a: int, d: int)
    requires d > 0 && a >= 0
    ensures TruncDiv(a, d) == a / d && CRem(a, d) == a % d
  {
  }

  lemma DivDiv(x: int, a: int, b: int)
    requires x >= 0 && a > 0 && b > 0
    ensures x / a / b == x / (a * b)
  {
    var q1 := x / a;
    var r1 := x % a;
    var q2 := q1 / b;
    var r2 := q1 % b;
    assert x == (q2 * b + r2) * a + r1;
    assert x == q2 * (a * b) + (r2 * a + r1);
    assert r2 * a + r1 < a * b by {
      MulAtLeast(b - r2, a);
      assert (b - r2) * a == a * b - r2 * a;
    }
    assert 0 <= r2 * a;
    DivModUnique(x, a * b, q2, r2 * a + r1);
  }

  lemma StepOfFloor(a: int, d: int)
    requires d > 0
    ensures (a + 1) / d - a / d == (if (a + 1) % d == 0 then 1 else 0)
  {
    var q := a / d;
    var r := a % d;
    assert a == q * d + r && 0 <= r < d;
    if r == d - 1 {
      DivModUnique(a + 1, d, q + 1, 0);
    } else {
      DivModUnique(a + 1, d, q, r + 1);
    }
  }

  lemma ModuloOfMultiple(x: int, t: int, d: int)
    requires d > 0
    ensures (x + t * d) % d == x % d
  {
    var q := x / d;
    var r := x % d;
    assert x + t * d == (q + t) * d + r;
    DivModUnique(x + t * d, d, q + t, r);
  }

  /** Shifting and adding in a word of `d` values gives the word of the
      exact result. */
  lemma ShiftAddModulo(a: int, m: int, c: int, d: int)
    requires d > 0
    ensures ((a % d) * m + c) % d == (a * m + c) % d
  {
    var q := a / d;
    assert a * m + c == ((a % d) * m + c) + (q * m) * d by {
      assert a == q * d + a % d;
    }
    ModuloOfMultiple((a % d) * m + c, q * m, d);
  }
}
