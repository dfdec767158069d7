/** Machine-integer facts the model needs: the `i32` range of the exponents the
    display code reads, and division that rounds toward zero, as Rust's `/` on
    integer types and typenum's `Quot` on integers do. */
module Ints {

  const I32_MIN: int := -0x8000_0000
  const I32_MAX: int := 0x7fff_ffff

  predicate InI32(x: int) {
    I32_MIN <= x <= I32_MAX
  }

  function Abs(x: int): nat {
    if x < 0 then -x else x
  }

  /** Division rounding toward zero: the magnitude is the floor of |a| / |b|,
      the sign is positive exactly when a and b have the same sign. */
  function TruncDiv(a: int, b: int): (q: int)
    requires b != 0
    ensures Abs(q) * Abs(b) <= Abs(a) < (Abs(q) + 1) * Abs(b)
    ensures q > 0 ==> (a > 0) == (b > 0)
    ensures q < 0 ==> (a > 0) != (b > 0)
  {
    FloorDivBounds(Abs(a), Abs(b));
    var m: nat := Abs(a) / Abs(b);
    if (a < 0) == (b < 0) then m as int else -(m as int)
  }

  /** The Euclidean quotient of naturals is their floor quotient. */
  lemma FloorDivBounds(x: nat, y: nat)
    requires y > 0
    ensures x / y >= 0
    ensures (x / y) * y <= x < (x / y + 1) * y
    ensures x / y > 0 ==> x > 0
  {
    var q := x / y;
    assert x == y * q + x % y;
    if q < 0 {
      MulByAtLeastOne(y, -q);
      assert false;
    }
    if q > 0 {
      MulByAtLeastOne(y, q);
    }
    assert (q + 1) * y == q * y + y;
  }

  lemma MulByAtLeastOne(y: int, t: int)
    requires y > 0 && t >= 1
    ensures y * t >= y
  {
    assert y * t == y * (t - 1) + y;
    assert y * (t - 1) >= 0;
  }

  lemma MulByAtMostMinusOne(y: int, t: int)
    requires y > 0 && t <= -1
    ensures y * t <= -y
  {
    MulByAtLeastOne(y, -t);
    assert y * t == -(y * -t);
  }

  /** Exact division of a multiple: (x * y) / y == x. */
  lemma DivOfMultiple(x: nat, y: nat)
    requires y > 0
    ensures (x * y) / y == x
    ensures (x * y) % y == 0
  {
    var q, r := (x * y) / y, (x * y) % y;
    assert x * y == y * q + r && 0 <= r < y;
    assert r == y * (x - q);
    if x - q >= 1 {
      MulByAtLeastOne(y, x - q);
    } else if x - q <= -1 {
      MulByAtMostMinusOne(y, x - q);
    }
  }

  lemma AbsMul(a: int, b: int)
    ensures Abs(a * b) == Abs(a) * Abs(b)
  {
    if a < 0 && b < 0 {
      assert a * b == (-a) * (-b);
    } else if a < 0 {
      assert a * b == -((-a) * b);
    } else if b < 0 {
      assert a * b == -(a * (-b));
    }
  }

  /** Truncating division of an exact multiple gives back the factor. */
  lemma {:induction false} TruncDivExact(a: int, b: int, k: int)
    requires b != 0 && a == k * b
    ensures TruncDiv(a, b) == k
  {
    AbsMul(k, b);
    DivOfMultiple(Abs(k), Abs(b));
    if k > 0 && b < 0 {
      assert a == -(k * -b);
    } else if k < 0 && b > 0 {
      assert a == -((-k) * b);
    } else if k < 0 && b < 0 {
      assert a == (-k) * (-b);
    }
  }

  lemma ProductSign(x: int, y: int)
    ensures x * y > 0 <==> (x > 0 && y > 0) || (x < 0 && y < 0)
    ensures x * y < 0 <==> (x > 0 && y < 0) || (x < 0 && y > 0)
  {
    if x > 0 && y > 0 {
      MulByAtLeastOne(x, y);
    } else if x < 0 && y < 0 {
      MulByAtLeastOne(-x, -y);
      assert x * y == (-x) * (-y);
    } else if x > 0 && y < 0 {
      MulByAtLeastOne(x, -y);
      assert x * y == -(x * -y);
    } else if x < 0 && y > 0 {
      MulByAtLeastOne(-x, y);
      assert x * y == -((-x) * y);
    }
  }

  lemma MulLtMonotone(x: int, y: int, k: int)
    requires k > 0 && x < y
    ensures x * k + k <= y * k
  {
    MulByAtLeastOne(k, y - x);
    assert y * k - x * k == k * (y - x);
  }

  lemma MulLeMonotone(x: int, y: int, k: int)
    requires k > 0 && x <= y
    ensures x * k <= y * k
  {
    if x < y {
      MulLtMonotone(x, y, k);
    }
  }

  lemma MulCancelLe(x: int, y: int, k: int)
    requires k > 0 && x * k <= y * k
    ensures x <= y
  {
    if x > y {
      MulLtMonotone(y, x, k);
      assert false;
    }
  }

  lemma MulCancelLt(x: int, y: int, k: int)
    requires k > 0 && x * k < y * k
    ensures x < y
  {
    if x >= y {
      MulLeMonotone(y, x, k);
      assert false;
    }
  }

  /** The floor quotient is the only m with m * y <= x < (m + 1) * y. */
  lemma FloorDivUnique(x: nat, y: nat, m: int)
    requires y > 0 && m * y <= x < (m + 1) * y
    ensures x / y == m
  {
    FloorDivBounds(x, y);
    var q := x / y;
    if q < m {
      MulLeMonotone(q + 1, m, y);
      assert false;
    } else if q > m {
      MulLeMonotone(m + 1, q, y);
      assert false;
    }
  }

  lemma MulSwap(x: int, y: int, z: int)
    ensures (x * y) * z == (x * z) * y
  {
  }

  /** From a * d == c * b: a lower bound m on a / b is one on c / d. */
  lemma CrossLower(a: nat, b: nat, c: nat, d: nat, m: int)
    requires b > 0 && d > 0 && a * d == c * b && m * b <= a
    ensures m * d <= c
  {
    MulLeMonotone(m * b, a, d);
    MulSwap(m, b, d);
    MulCancelLe(m * d, c, b);
  }

  /** From a * d == c * b: a strict upper bound n on a / b is one on c / d. */
  lemma CrossUpper(a: nat, b: nat, c: nat, d: nat, n: int)
    requires b > 0 && d > 0 && a * d == c * b && a < n * b
    ensures c < n * d
  {
    MulLtMonotone(a, n * b, d);
    MulSwap(n, b, d);
    MulCancelLt(c, n * d, b);
  }

  /** Floor quotients of equal fractions of naturals are equal. */
  lemma FloorDivCross(a: nat, b: nat, c: nat, d: nat)
    requires b > 0 && d > 0 && a * d == c * b
    ensures a / b == c / d
  {
    var m := a / b;
    FloorDivBounds(a, b);
    CrossLower(a, b, c, d, m);
    CrossUpper(a, b, c, d, m + 1);
    FloorDivUnique(c, d, m);
  }

  /** Truncated quotients of equal fractions are equal: a / b == c / d as
      rationals (a * d == c * b) gives TruncDiv(a, b) == TruncDiv(c, d). */
  lemma {:induction false} TruncDivCrossEqual(a: int, b: int, c: int, d: int)
    requires b != 0 && d != 0 && a * d == c * b
    ensures TruncDiv(a, b) == TruncDiv(c, d)
  {
    AbsMul(a, d);
    AbsMul(c, b);
    FloorDivCross(Abs(a), Abs(b), Abs(c), Abs(d));
    ProductSign(a, d);
    ProductSign(c, b);
    if a == 0 {
      ProductSign(c, b);
    }
  }
}
