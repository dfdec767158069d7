/** The unit tests of `src/quantity.rs`, with `m / s` built by unit division and
    quantities built by `value * unit`. Values are integers. */
module QuantityExamples {
  import opened Wrappers
  import opened Ints
  import opened Quantities
  import Isq

  /** `m / s` is a unit, and it is `MeterPerSecond`. */
  lemma MeterPerSecondIsDefined()
    ensures Isq.Div(Isq.Meter, Isq.Second) == Some(Isq.MeterPerSecond)
  {
    Isq.AliasesAreProducts();
  }

  /** 10 m/s + 3 m/s = 13 m/s. */
  lemma AddQuantityToQuantity()
    ensures Add(Isq.ScalarMul(10, Isq.MeterPerSecond), Isq.ScalarMul(3, Isq.MeterPerSecond))
            == Some(Isq.ScalarMul(13, Isq.MeterPerSecond))
  {
  }

  /** 10 m/s - 3 m/s = 7 m/s. */
  lemma SubQuantityFromQuantity()
    ensures Sub(Isq.ScalarMul(10, Isq.MeterPerSecond), Isq.ScalarMul(3, Isq.MeterPerSecond))
            == Some(Isq.ScalarMul(7, Isq.MeterPerSecond))
  {
  }

  /** (10 m/s) * (3 s) = 30 m. */
  lemma MulQuantityByQuantity()
    ensures Mul(Isq.ScalarMul(10, Isq.MeterPerSecond), Isq.ScalarMul(3, Isq.Second), Isq.Mul)
            == Some(Isq.ScalarMul(30, Isq.Meter))
  {
    Isq.AliasesAreProducts();
  }

  /** (21 m) / (3 s) = 7 m/s. */
  lemma DivQuantityByQuantity()
    ensures Div(Isq.ScalarMul(21, Isq.Meter), Isq.ScalarMul(3, Isq.Second), Isq.Div)
            == Some(Isq.ScalarMul(7, Isq.MeterPerSecond))
  {
    Isq.AliasesAreProducts();
    TruncDivExact(21, 3, 7);
  }

  /** Meters and seconds do not add: the source does not compile it. */
  lemma AddDifferentUnitsRejected()
    ensures Add(Isq.ScalarMul(10, Isq.Meter), Isq.ScalarMul(3, Isq.Second)).None?
  {
    assert Isq.Meter[0] != Isq.Second[0];
  }
}
