/** The integer helpers of `src/typenum/mod.rs`: the `Positive` bound and the
    least common multiple `LcmOp`, built from the greatest common divisor.
    typenum computes these on type-level integers; here they are functions on
    mathematical integers. `src/frac.rs` declares the same `LcmOp` again with the
    same formula; both are this `Lcm`. */
module Typenum {
  import opened Ints

  /** `Positive` = `Unsigned + NonZero`. */
  predicate Positive(n: int): (p: bool)
    ensures p <==> n > 0
  {
    n >= 0 && n != 0
  }

  /** d divides n (0 divides only 0). */
  predicate Divides(d: nat, n: int) {
    if d == 0 then n == 0 else n % d == 0
  }

  /** Euclid's algorithm on magnitudes; it computes the same value as typenum's
      `Gcd`. */
  function GcdNat(a: nat, b: nat): (g: nat)
    decreases b
    ensures Divides(g, a) && Divides(g, b)
    ensures g == 0 <==> a == 0 && b == 0
  {
    if b == 0 then a
    else
      var g := GcdNat(b, a % b);
      GcdStep(a, b, g);
      g
  }

  /** A common divisor of b and a % b divides a; it is 0 only if b is. */
  lemma GcdStep(a: nat, b: nat, g: nat)
    requires b > 0 && Divides(g, b) && Divides(g, a % b)
    ensures Divides(g, a) && g != 0
  {
    DividesCombination(g, b, a % b, a / b);
    assert (a / b) * b + a % b == a;
  }

  /** `Gcf<L, R>`: the greatest common divisor of the magnitudes. */
  function Gcd(l: int, r: int): (g: nat)
    ensures Divides(g, l) && Divides(g, r)
    ensures g == 0 <==> l == 0 && r == 0
  {
    DividesAbs(GcdNat(Abs(l), Abs(r)), l);
    DividesAbs(GcdNat(Abs(l), Abs(r)), r);
    GcdNat(Abs(l), Abs(r))
  }

  /** `Lcm<L, R> = abs(L * R) / gcd(L, R)`. When both are zero the gcd is zero and
      typenum has no division by zero, so there is no output. The division is
      exact, so lcm times gcd is abs(L * R); the lcm is 0 exactly when one operand
      is. */
  function Lcm(l: int, r: int): (m: nat)
    requires l != 0 || r != 0
    ensures m * Gcd(l, r) == Abs(l * r)
    ensures m == 0 <==> l == 0 || r == 0
  {
    LcmExact(l, r);
    Abs(l * r) / Gcd(l, r)
  }

  /** The gcd is positive and divides abs(L * R), so the lcm's division is exact. */
  lemma LcmExact(l: int, r: int)
    requires l != 0 || r != 0
    ensures Gcd(l, r) > 0
    ensures (Abs(l * r) / Gcd(l, r)) * Gcd(l, r) == Abs(l * r)
    ensures Abs(l * r) / Gcd(l, r) == 0 <==> l == 0 || r == 0
  {
    var g := Gcd(l, r);
    DividesCombination(g, l, 0, r);
    assert r * l + 0 == l * r;
    if l * r < 0 {
      DividesCombination(g, l * r, 0, -1);
    }
    var m := Abs(l * r) / g;
    assert Abs(l * r) == g * m + Abs(l * r) % g;
    ProductSign(l, r);
    if m != 0 {
      MulByAtLeastOne(g, m);
    }
  }

  lemma MulModZero(g: int, t: int)
    requires g > 0
    ensures (g * t) % g == 0
  {
    var q, m := (g * t) / g, (g * t) % g;
    assert g * t == g * q + m && 0 <= m < g;
    assert m == g * (t - q);
    if t - q >= 1 {
      MulByAtLeastOne(g, t - q);
      assert false;
    } else if t - q <= -1 {
      MulByAtMostMinusOne(g, t - q);
      assert false;
    }
  }

  lemma ModOfSmaller(a: nat, b: nat)
    requires a < b
    ensures a % b == a
  {
    FloorDivBounds(a, b);
    assert a / b == 0;
    assert a == b * (a / b) + a % b;
  }

  /** A common divisor of x and y divides k * x + y. */
  lemma DividesCombination(g: nat, x: int, y: int, k: int)
    requires Divides(g, x) && Divides(g, y)
    ensures Divides(g, k * x + y)
  {
    if g > 0 {
      var x', y' := x / g, y / g;
      assert x == g * x' && y == g * y';
      assert k * x + y == g * (k * x' + y');
      MulModZero(g, k * x' + y');
    }
  }

  lemma DividesAbs(g: nat, n: int)
    requires Divides(g, Abs(n))
    ensures Divides(g, n)
  {
    if n < 0 {
      DividesCombination(g, Abs(n), 0, -1);
    }
  }

  /** Every common divisor divides the gcd: it is the greatest. */
  lemma {:induction false} GcdNatGreatest(a: nat, b: nat, d: nat)
    requires Divides(d, a) && Divides(d, b)
    ensures Divides(d, GcdNat(a, b))
    decreases b
  {
    if b != 0 {
      DividesCombination(d, b, a, -(a / b));
      assert -(a / b) * b + a == a % b;
      GcdNatGreatest(b, a % b, d);
    }
  }

  lemma {:induction false} GcdNatSymmetric(a: nat, b: nat)
    ensures GcdNat(a, b) == GcdNat(b, a)
  {
    if a < b {
      ModOfSmaller(a, b);
    } else if b < a {
      ModOfSmaller(b, a);
    }
  }

  /** The lcm is symmetric, as its formula is. */
  lemma LcmSymmetric(l: int, r: int)
    requires l != 0 || r != 0
    ensures Lcm(l, r) == Lcm(r, l)
  {
    GcdNatSymmetric(Abs(l), Abs(r));
    assert l * r == r * l;
  }

  /** For nonzero operands the lcm is a positive common multiple of both. */
  lemma {:induction false} LcmCommonMultiple(l: int, r: int)
    requires l != 0 && r != 0
    ensures Lcm(l, r) > 0
    ensures Divides(Abs(l), Lcm(l, r)) && Divides(Abs(r), Lcm(l, r))
  {
    var g := Gcd(l, r);
    var p, s := Abs(l) / g, Abs(r) / g;
    assert Abs(l) == g * p && Abs(r) == g * s;
    AbsMul(l, r);
    assert Abs(l * r) == (p * Abs(r)) * g;
    DivOfMultiple(p * Abs(r), g);
    assert Lcm(l, r) == p * Abs(r);
    assert Abs(l * r) == (Abs(l) * s) * g;
    DivOfMultiple(Abs(l) * s, g);
    assert Lcm(l, r) == Abs(l) * s;
    MulModZero(Abs(r), p);
    MulModZero(Abs(l), s);
    if p == 0 {
      assert false;
    }
    MulByAtLeastOne(Abs(r), p);
  }

  /** Euclid's step scales: (k * a) mod (k * b) is k * (a mod b). */
  lemma ModScale(k: nat, a: nat, b: nat)
    requires k > 0 && b > 0
    ensures (k * a) % (k * b) == k * (a % b)
  {
    var q, r := a / b, a % b;
    assert a == b * q + r && 0 <= r < b;
    assert k * a == q * (k * b) + k * r by {
      assert k * a == k * (b * q) + k * r;
      MulSwap(k, b, q);
    }
    MulLtMonotone(r, b, k);
    assert k * r < k * b;
    assert (q + 1) * (k * b) == q * (k * b) + k * b;
    FloorDivUnique(k * a, k * b, q);
    assert k * a == (k * b) * ((k * a) / (k * b)) + (k * a) % (k * b);
  }

  /** The gcd scales: gcd(k * a, k * b) == k * gcd(a, b). */
  lemma {:induction false} GcdScale(k: nat, a: nat, b: nat)
    ensures GcdNat(k * a, k * b) == k * GcdNat(a, b)
    decreases b
  {
    if b == 0 {
      assert k * b == 0;
    } else if k == 0 {
      assert k * a == 0 && k * b == 0;
    } else {
      assert k * b > 0 by { MulByAtLeastOne(k, b); }
      ModScale(k, a, b);
      GcdScale(k, b, a % b);
    }
  }

  /** If b divides m then a * b divides m * a. */
  lemma ProductDividesScaled(a: nat, b: nat, m: nat)
    requires a > 0 && b > 0 && Divides(b, m)
    ensures Divides(a * b, m * a)
  {
    var y := m / b;
    assert m == b * y;
    assert m * a == (a * b) * y by {
      MulSwap(b, y, a);
      assert (b * a) * y == (a * b) * y;
    }
    assert a * b > 0 by { MulByAtLeastOne(a, b); }
    MulModZero(a * b, y);
  }

  /** For positive a and b and a common multiple m, a * b divides
      m * gcd(a, b) == gcd(m * a, m * b). */
  lemma ProductDividesScaledGcd(a: nat, b: nat, m: nat)
    requires a > 0 && b > 0 && Divides(a, m) && Divides(b, m)
    ensures Divides(a * b, m * GcdNat(a, b))
  {
    ProductDividesScaled(a, b, m);
    ProductDividesScaled(b, a, m);
    assert b * a == a * b;
    GcdNatGreatest(m * a, m * b, a * b);
    GcdScale(m, a, b);
  }

  lemma CancelFactor(m: int, n: int, g: int, t: int)
    requires g > 0 && m * g == (n * g) * t
    ensures m == n * t
  {
    MulSwap(n, g, t);
    MulCancelLe(m, n * t, g);
    MulCancelLe(n * t, m, g);
  }

  /** The lcm of nonzero L and R is the least common multiple: it divides every
      positive common multiple m of abs(L) and abs(R), and so is at most m. */
  lemma {:induction false} LcmLeast(l: int, r: int, m: int)
    requires l != 0 && r != 0 && m > 0
    requires Divides(Abs(l), m) && Divides(Abs(r), m)
    ensures Divides(Lcm(l, r), m) && Lcm(l, r) <= m
  {
    var a, b, g, lcm := Abs(l), Abs(r), Gcd(l, r), Lcm(l, r);
    AbsMul(l, r);
    ProductDividesScaledGcd(a, b, m);
    var t := (m * g) / (a * b);
    assert m * g == (a * b) * t;
    assert lcm * g == a * b;
    CancelFactor(m, lcm, g, t);
    MulModZero(lcm, t);
    if t <= 0 {
      MulLeMonotone(t, 0, lcm);
      assert false;
    }
    MulByAtLeastOne(lcm, t);
  }
}
