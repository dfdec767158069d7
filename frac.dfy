/** `src/frac.rs`: a second copy of the fraction sum, written with the
    `MulOut`/`DivOut`/`AddOut` output aliases (the names it imports stand for
    typenum's `Prod`/`Quot`/`Sum`). Its `LcmOp` has the same formula as
    `Typenum.Lcm`; its `FracAddOp` exposes the same three associated types. */
module Frac {
  import opened Ints
  import opened Typenum
  import TypenumFrac

  /** `FracAddOp<(Nr, Dr)> for (Nl, Dl)`: `Lcm`, `NOut` and `Output`. */
  function FracAddOp(nl: int, dl: int, nr: int, dr: int): (s: TypenumFrac.FracSum)
    requires dl != 0 && dr != 0
    ensures s.lcd > 0
  {
    LcmCommonMultiple(dl, dr);
    var lcm := Lcm(dl, dr);
    var nOut := nl * TruncDiv(lcm, dl) + nr * TruncDiv(lcm, dr);
    TypenumFrac.FracSum(lcm, nOut, TruncDiv(nOut, lcm))
  }

  /** The duplicate computes exactly what `src/typenum/frac.rs` computes. */
  lemma FracAddOpAgrees(nl: int, dl: int, nr: int, dr: int)
    requires dl != 0 && dr != 0
    ensures FracAddOp(nl, dl, nr, dr) == TypenumFrac.FracAddImpl(nl, dl, nr, dr)
  {
  }

  /** Its output is therefore the rounded-toward-zero sum too, and the plain sum
      for integer operands. */
  lemma {:induction false} FracAddOpIsTruncatedSum(nl: int, dl: int, nr: int, dr: int)
    requires dl != 0 && dr != 0
    ensures FracAddOp(nl, dl, nr, dr).output == TruncDiv(nl * dr + nr * dl, dl * dr)
    ensures dl == 1 && dr == 1 ==> FracAddOp(nl, dl, nr, dr).output == nl + nr
  {
    FracAddOpAgrees(nl, dl, nr, dr);
    TypenumFrac.FracAddIsTruncatedSum(nl, dl, nr, dr);
    TypenumFrac.FracAddOfIntegers(nl, nr);
  }
}
