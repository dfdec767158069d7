/** Fraction "addition" of `src/typenum/frac.rs`: a fraction is a pair
    (numerator, denominator) of integers, and the sum is formed over the least
    common denominator. The code's final step is typenum's integer quotient
    `NOut / Lcd`, so the output is one integer: the sum of the two fractions
    rounded toward zero, not a reduced fraction. */
module TypenumFrac {
  import opened Ints
  import opened Typenum

  /** The three associated types of the hidden `FracAddImpl`. */
  datatype FracSum = FracSum(lcd: int, nOut: int, output: int)

  /** `FracAddImpl<(Nr, Dr)> for (Nl, Dl)`. The denominators must be nonzero:
      the lcd is divided by each of them, and `Lcm` itself needs one nonzero. */
  function FracAddImpl(nl: int, dl: int, nr: int, dr: int): (s: FracSum)
    requires dl != 0 && dr != 0
    ensures s.lcd > 0 && Divides(Abs(dl), s.lcd) && Divides(Abs(dr), s.lcd)
  {
    LcmCommonMultiple(dl, dr);
    var lcd := Lcm(dl, dr);
    var nOut := nl * TruncDiv(lcd, dl) + nr * TruncDiv(lcd, dr);
    FracSum(lcd, nOut, TruncDiv(nOut, lcd))
  }

  /** The public `ops::Add` output, defined as the hidden implementation's: the
      sum Nl/Dl + Nr/Dr rounded toward zero. */
  function FracAdd(nl: int, dl: int, nr: int, dr: int): (r: int)
    requires dl != 0 && dr != 0
    ensures r == TruncDiv(nl * dr + nr * dl, dl * dr)
  {
    FracAddIsTruncatedSum(nl, dl, nr, dr);
    FracAddImpl(nl, dl, nr, dr).output
  }

  /** The lcd is an exact multiple of each denominator, so `Lcd / D` loses nothing. */
  lemma LcdQuotientExact(lcd: int, d: int)
    requires d != 0 && lcd > 0 && Divides(Abs(d), lcd)
    ensures TruncDiv(lcd, d) * d == lcd
  {
    var k := lcd / Abs(d);
    assert lcd == Abs(d) * k;
    if d > 0 {
      TruncDivExact(lcd, d, k);
    } else {
      assert lcd == (-k) * d;
      TruncDivExact(lcd, d, -k);
    }
  }

  lemma ScaleTerm(n: int, q: int, d: int, e: int, lcd: int)
    requires q * d == lcd
    ensures (n * q) * (d * e) == lcd * (n * e)
  {
    assert (n * q) * (d * e) == n * ((q * d) * e);
    assert n * (lcd * e) == lcd * (n * e);
  }

  lemma Distribute(x: int, y: int, p: int)
    ensures (x + y) * p == x * p + y * p
  {
  }

  /** NOut is the sum's numerator over the lcd:
      NOut / Lcd == (Nl * Dr + Nr * Dl) / (Dl * Dr) as rationals. */
  lemma {:induction false} NumeratorOverLcd(nl: int, dl: int, nr: int, dr: int)
    requires dl != 0 && dr != 0
    ensures var s := FracAddImpl(nl, dl, nr, dr);
      s.nOut * (dl * dr) == s.lcd * (nl * dr + nr * dl)
  {
    var s := FracAddImpl(nl, dl, nr, dr);
    var lcd, ql, qr := s.lcd, TruncDiv(s.lcd, dl), TruncDiv(s.lcd, dr);
    LcdQuotientExact(lcd, dl);
    LcdQuotientExact(lcd, dr);
    assert s.nOut == nl * ql + nr * qr;
    Distribute(nl * ql, nr * qr, dl * dr);
    ScaleTerm(nl, ql, dl, dr, lcd);
    assert dl * dr == dr * dl;
    ScaleTerm(nr, qr, dr, dl, lcd);
    assert lcd * (nl * dr) + lcd * (nr * dl) == lcd * (nl * dr + nr * dl);
  }

  lemma NonzeroProduct(x: int, y: int)
    requires x != 0 && y != 0
    ensures x * y != 0
  {
    ProductSign(x, y);
  }

  lemma CrossStep(nOut: int, lcd: int, n: int, p: int)
    requires lcd > 0 && p != 0 && nOut * p == lcd * n
    ensures TruncDiv(nOut, lcd) == TruncDiv(n, p)
  {
    TruncDivCrossEqual(nOut, lcd, n, p);
  }

  /** The hidden implementation's `Output` is the sum Nl/Dl + Nr/Dr rounded
      toward zero. */
  lemma {:induction false} FracAddIsTruncatedSum(nl: int, dl: int, nr: int, dr: int)
    requires dl != 0 && dr != 0
    ensures FracAddImpl(nl, dl, nr, dr).output == TruncDiv(nl * dr + nr * dl, dl * dr)
  {
    var s := FracAddImpl(nl, dl, nr, dr);
    NumeratorOverLcd(nl, dl, nr, dr);
    NonzeroProduct(dl, dr);
    CrossStep(s.nOut, s.lcd, nl * dr + nr * dl, dl * dr);
  }

  /** With both denominators 1 the fractions are integers and the output is their sum. */
  lemma {:induction false} FracAddOfIntegers(nl: int, nr: int)
    ensures FracAdd(nl, 1, nr, 1) == nl + nr
  {
    TruncDivExact(nl + nr, 1, nl + nr);
  }

  /** 1/2 + 1/3: the lcd is 6 and NOut is 5, and the output is the integer
      quotient 5 / 6 = 0, not the fraction 5/6. 1/2 + (-1)/2 is 0; 3/2 + 1/2 is 2. */
  lemma FracAddExamples()
    ensures FracAddImpl(1, 2, 1, 3) == FracSum(6, 5, 0)
    ensures FracAdd(1, 2, -1, 2) == 0
    ensures FracAdd(3, 2, 1, 2) == 2
  {
    assert GcdNat(2, 3) == 1 by {
      assert GcdNat(3, 2) == GcdNat(2, 1) == GcdNat(1, 0) == 1;
    }
    assert GcdNat(2, 2) == 2;
  }
}
