/** `src/unit.rs`: a second version of the slot rules of `src/base_unit.rs`,
    with its own `UnitMul`/`UnitDiv`/`UnitInv` traits. The zero-exponent rules
    and multiplication agree with `BaseUnit`. Division differs in one rule: a
    positive exponent divided by a positive one is allowed only when the result
    stays positive (`SubOut<El, Er>: Positive`), where `src/base_unit.rs` also
    allows a zero result. Both files bound that rule by typenum's unsigned
    subtraction `El - Er`, which has no implementation when El < Er, so as
    written the two divisions differ only at El == Er. `UnitInv` is the same
    mapping as `BaseUnit.Inv`. */
module UnitVariant {
  import opened Wrappers
  import opened Typenum
  import BaseUnit

  type Slot = BaseUnit.Slot

  /** `UnitMul` of `src/unit.rs`, sign case by sign case. The `Positive` bounds
      on the sums of magnitudes always hold. */
  function Mul(l: Slot, r: Slot): (p: Option<Slot>)
    ensures p.Some? <==> l.exp == 0 || r.exp == 0 || l.unit == r.unit
    ensures p.Some? ==> p.value.exp == l.exp + r.exp
  {
    if l.exp == 0 && r.exp == 0 then Some(BaseUnit.Slot(l.unit, 0))
    else if r.exp == 0 then Some(l)
    else if l.exp == 0 then Some(BaseUnit.Slot(r.unit, 0 + r.exp))
    else if l.unit != r.unit then None
    else if l.exp > 0 && r.exp > 0 then
      (if Positive(l.exp + r.exp) then Some(BaseUnit.Slot(l.unit, l.exp + r.exp)) else None)
    else if l.exp < 0 && r.exp > 0 then Some(BaseUnit.Slot(l.unit, l.exp + r.exp))
    else if l.exp > 0 && r.exp < 0 then Some(BaseUnit.Slot(l.unit, l.exp + r.exp))
    else if Positive(-l.exp + -r.exp) then Some(BaseUnit.Slot(l.unit, -(-l.exp + -r.exp)))
    else None
  }

  /** `UnitDiv` of `src/unit.rs` as written: as in `BaseUnit.DivAsWritten`, a
      negative exponent divided by a negative one gives `NInt<El + Er>`. */
  function DivAsWritten(l: Slot, r: Slot): (q: Option<Slot>)
    ensures q.Some? <==> l.exp == 0 || r.exp == 0 || (l.unit == r.unit && !(0 < l.exp <= r.exp))
    ensures q.Some? && !(l.exp < 0 && r.exp < 0) ==> q.value.exp == l.exp - r.exp
    ensures q.Some? && l.exp < 0 && r.exp < 0 ==> q.value.exp == l.exp + r.exp
  {
    if l.exp == 0 && r.exp == 0 then Some(BaseUnit.Slot(l.unit, 0))
    else if r.exp == 0 then Some(l)
    else if l.exp == 0 then Some(BaseUnit.Slot(r.unit, 0 - r.exp))
    else if l.unit != r.unit then None
    else if l.exp > 0 && r.exp > 0 then
      (if Positive(l.exp - r.exp) then Some(BaseUnit.Slot(l.unit, l.exp - r.exp)) else None)
    else if l.exp < 0 && r.exp > 0 then Some(BaseUnit.Slot(l.unit, -(-l.exp + r.exp)))
    else if l.exp > 0 && r.exp < 0 then Some(BaseUnit.Slot(l.unit, l.exp + -r.exp))
    else Some(BaseUnit.Slot(l.unit, -(-l.exp + -r.exp)))
  }

  /** `UnitDiv` with the negative-by-negative case corrected to `Er - El`; the
      positive-by-positive restriction of this file is kept. */
  function Div(l: Slot, r: Slot): (q: Option<Slot>)
    ensures q.Some? <==> l.exp == 0 || r.exp == 0 || (l.unit == r.unit && !(0 < l.exp <= r.exp))
    ensures q.Some? ==> q.value.exp == l.exp - r.exp
  {
    if l.exp == 0 && r.exp == 0 then Some(BaseUnit.Slot(l.unit, 0))
    else if r.exp == 0 then Some(l)
    else if l.exp == 0 then Some(BaseUnit.Slot(r.unit, 0 - r.exp))
    else if l.unit != r.unit then None
    else if l.exp > 0 && r.exp > 0 then
      (if Positive(l.exp - r.exp) then Some(BaseUnit.Slot(l.unit, l.exp - r.exp)) else None)
    else if l.exp < 0 && r.exp > 0 then Some(BaseUnit.Slot(l.unit, -(-l.exp + r.exp)))
    else if l.exp > 0 && r.exp < 0 then Some(BaseUnit.Slot(l.unit, l.exp + -r.exp))
    else Some(BaseUnit.Slot(l.unit, -r.exp - -l.exp))
  }

  /** Multiplication here is exactly `BaseUnit.Mul`. */
  lemma MulAgreesWithBaseUnit(l: Slot, r: Slot)
    ensures Mul(l, r) == BaseUnit.Mul(l, r)
  {
  }

  /** Division here is `BaseUnit.Div` restricted: it rejects in addition exactly
      the positive-by-positive quotients whose exponent would not stay positive. */
  lemma DivRestrictsBaseUnit(l: Slot, r: Slot)
    ensures Div(l, r).Some? ==> Div(l, r) == BaseUnit.Div(l, r)
    ensures Div(l, r).None? <==>
      BaseUnit.Div(l, r).None? || (l.unit == r.unit && 0 < l.exp <= r.exp)
  {
  }

  /** So (U, p) / (U, p) has no rule here, while `BaseUnit` gives (U, 0). */
  lemma PositiveDivBySelfRejected(s: Slot)
    requires s.exp > 0
    ensures Div(s, s) == None
    ensures BaseUnit.Div(s, s) == Some(BaseUnit.Slot(s.unit, 0))
  {
  }

  /** The variant's written rule for negative by negative: (U, -1) / (U, -2)
      gives (U, -3), where (U, 1) is meant. */
  lemma DivAsWrittenNegativeByNegative(u: BaseUnit.BaseUnitId)
    ensures DivAsWritten(BaseUnit.Slot(u, -1), BaseUnit.Slot(u, -2)) == Some(BaseUnit.Slot(u, -3))
    ensures Div(BaseUnit.Slot(u, -1), BaseUnit.Slot(u, -2)) == Some(BaseUnit.Slot(u, 1))
  {
  }

  /** As written, this file's division and that of `src/base_unit.rs` differ only
      on (U, p) / (U, p) with p > 0: here it has no rule, there it gives (U, 0). */
  lemma DivAsWrittenDiffersOnlyAtEqual(l: Slot, r: Slot)
    ensures !(l.unit == r.unit && 0 < l.exp == r.exp) ==> DivAsWritten(l, r) == BaseUnit.DivAsWritten(l, r)
    ensures l.unit == r.unit && 0 < l.exp == r.exp ==>
      DivAsWritten(l, r) == None && BaseUnit.DivAsWritten(l, r) == Some(BaseUnit.Slot(l.unit, 0))
  {
  }

  /** Outside that case the written rules are the corrected ones. */
  lemma DivAsWrittenAgreesElsewhere(l: Slot, r: Slot)
    ensures !(l.exp < 0 && r.exp < 0) ==> DivAsWritten(l, r) == Div(l, r)
  {
  }
}
