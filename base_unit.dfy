/** `src/base_unit.rs`: one slot of a unit is a pair (base unit, exponent). This
    module gives the names of prefixed base units and the rules by which two
    slots multiply and divide and one slot inverts. In the source each rule is a
    trait implementation on type-level pairs and a pair with no implementation
    does not compile; here that is `None`. Exponents are mathematical integers
    (typenum's `Z0`, `PInt<E>` = +E and `NInt<E>` = -E). */
module BaseUnit {
  import opened Wrappers
  import opened Names

  /** A base unit: a root such as meter, or a (prefix, root) pair such as kilo+gram. */
  datatype BaseUnitId = Root(root: Name) | Prefixed(prefix: Name, root: Name)

  /** The name of a base unit. A prefixed root's short and full names are the
      prefix's followed by the root's ("k" + "g", "kilo" + "gram"). */
  function UnitName(u: BaseUnitId): (n: Name)
    ensures u.Root? ==> n == u.root
    ensures u.Prefixed? ==>
      && |n.short| == |u.prefix.short| + |u.root.short|
      && n.short[..|u.prefix.short|] == u.prefix.short
      && n.short[|u.prefix.short|..] == u.root.short
      && |n.full| == |u.prefix.full| + |u.root.full|
      && n.full[..|u.prefix.full|] == u.prefix.full
      && n.full[|u.prefix.full|..] == u.root.full
  {
    match u
    case Root(r) => r
    case Prefixed(p, r) => Name(p.short + r.short, p.full + r.full)
  }

  /** One slot `(U, E)`. */
  datatype Slot = Slot(unit: BaseUnitId, exp: int)

  /** `UnitMul`: a zero exponent is a wildcard that takes the other slot's unit;
      two nonzero slots must name the same unit and their exponents add. */
  function Mul(l: Slot, r: Slot): (p: Option<Slot>)
    ensures p.Some? <==> l.exp == 0 || r.exp == 0 || l.unit == r.unit
    ensures p.Some? ==> p.value.exp == l.exp + r.exp
    ensures p.Some? && p.value.exp != 0 ==> p.value.unit == (if l.exp != 0 then l.unit else r.unit)
    ensures p.Some? && l.exp == 0 && r.exp == 0 ==> p.value.unit == l.unit
  {
    if l.exp == 0 && r.exp == 0 then Some(Slot(l.unit, 0))
    else if r.exp == 0 then Some(l)
    else if l.exp == 0 then Some(Slot(r.unit, 0 + r.exp))
    else if l.unit != r.unit then None
    // (U, PInt<El>) * (U, PInt<Er>), (U, NInt<El>) * (U, PInt<Er>),
    // (U, PInt<El>) * (U, NInt<Er>), (U, NInt<El>) * (U, NInt<Er>): the signed sum
    else Some(Slot(l.unit, l.exp + r.exp))
  }

  /** `Inv`: the same unit, with an exponent that cancels the slot's own. */
  function Inv(s: Slot): (v: Slot)
    ensures v.unit == s.unit && s.exp + v.exp == 0
  {
    Slot(s.unit, -s.exp)
  }

  /** `UnitDiv` as the source writes it, case by case on the signs. Two rules
      differ from subtraction of exponents:
      - positive by positive carries the bound `El: Sub<Er>` on unsigned typenum
        integers, which has no implementation when El < Er, so (U, 1) / (U, 2)
        has no rule;
      - negative by negative gives `NInt<El + Er>`, the negated sum of the
        magnitudes, where the quotient's exponent is Er - El. */
  function DivAsWritten(l: Slot, r: Slot): (q: Option<Slot>)
    ensures q.Some? <==> l.exp == 0 || r.exp == 0 || (l.unit == r.unit && !(0 < l.exp < r.exp))
    ensures q.Some? && !(l.exp < 0 && r.exp < 0) ==> q.value.exp == l.exp - r.exp
    ensures q.Some? && l.exp < 0 && r.exp < 0 ==> q.value.exp == l.exp + r.exp
  {
    if l.exp == 0 && r.exp == 0 then Some(Slot(l.unit, 0))
    else if r.exp == 0 then Some(l)
    else if l.exp == 0 then Some(Slot(r.unit, 0 - r.exp))
    else if l.unit != r.unit then None
    else if l.exp > 0 && r.exp > 0 then
      (if l.exp >= r.exp then Some(Slot(l.unit, l.exp - r.exp)) else None)
    else if l.exp < 0 && r.exp > 0 then Some(Slot(l.unit, -(-l.exp + r.exp)))
    else if l.exp > 0 && r.exp < 0 then Some(Slot(l.unit, l.exp + -r.exp))
    else Some(Slot(l.unit, -(-l.exp + -r.exp)))
  }

  /** `UnitDiv` corrected: a smaller positive exponent may be divided by a larger
      one, and negative by negative gives `Er - El`. The exponents subtract. */
  function Div(l: Slot, r: Slot): (q: Option<Slot>)
    ensures q.Some? <==> l.exp == 0 || r.exp == 0 || l.unit == r.unit
    ensures q.Some? ==> q.value.exp == l.exp - r.exp
  {
    if l.exp == 0 && r.exp == 0 then Some(Slot(l.unit, 0))
    else if r.exp == 0 then Some(l)
    else if l.exp == 0 then Some(Slot(r.unit, 0 - r.exp))
    else if l.unit != r.unit then None
    else if l.exp > 0 && r.exp > 0 then Some(Slot(l.unit, l.exp - r.exp))
    else if l.exp < 0 && r.exp > 0 then Some(Slot(l.unit, -(-l.exp + r.exp)))
    else if l.exp > 0 && r.exp < 0 then Some(Slot(l.unit, l.exp + -r.exp))
    else Some(Slot(l.unit, -r.exp - -l.exp))
  }

  /** The source's negative-by-negative rule: (U, -1) / (U, -1) comes out as
      (U, -2), where (U, 0) is meant. */
  lemma DivAsWrittenNegativeByNegative(u: BaseUnitId)
    ensures DivAsWritten(Slot(u, -1), Slot(u, -1)) == Some(Slot(u, -2))
    ensures Div(Slot(u, -1), Slot(u, -1)) == Some(Slot(u, 0))
  {
  }

  /** The source's positive-by-positive rule: (U, 1) / (U, 2) has no rule, where
      (U, -1) is meant and (U, 1) * Inv((U, 2)) gives it. */
  lemma DivAsWrittenSmallerByLarger(u: BaseUnitId)
    ensures DivAsWritten(Slot(u, 1), Slot(u, 2)) == None
    ensures Div(Slot(u, 1), Slot(u, 2)) == Some(Slot(u, -1))
    ensures Mul(Slot(u, 1), Inv(Slot(u, 2))) == Some(Slot(u, -1))
  {
  }

  /** Outside those two cases the source's rules are the corrected ones. In the
      first the written division has no rule; in the second it gives El + Er. */
  lemma DivAsWrittenAgreesElsewhere(l: Slot, r: Slot)
    ensures !(l.exp < 0 && r.exp < 0) && !(l.unit == r.unit && 0 < l.exp < r.exp) ==>
      DivAsWritten(l, r) == Div(l, r)
    ensures l.unit == r.unit && 0 < l.exp < r.exp ==>
      DivAsWritten(l, r) == None && Div(l, r) == Some(Slot(l.unit, l.exp - r.exp))
    ensures l.exp < 0 && r.exp < 0 && l.unit == r.unit ==>
      DivAsWritten(l, r) == Some(Slot(l.unit, l.exp + r.exp))
  {
  }

  /** Division is multiplication by the inverse (spec of the corrected rule). */
  lemma DivIsMulInv(l: Slot, r: Slot)
    ensures Div(l, r) == Mul(l, Inv(r))
  {
  }

  /** Inverting twice gives the slot back. */
  lemma InvInvolutive(s: Slot)
    ensures Inv(Inv(s)) == s
  {
  }

  /** Multiplication commutes on exponents and on the unit of a nonzero result;
      only the unit of a zero result differs, as it is taken from the left. */
  lemma MulCommutes(l: Slot, r: Slot)
    ensures Mul(l, r).Some? <==> Mul(r, l).Some?
    ensures Mul(l, r).Some? ==> Mul(l, r).value.exp == Mul(r, l).value.exp
    ensures Mul(l, r).Some? && Mul(l, r).value.exp != 0 ==> Mul(l, r) == Mul(r, l)
  {
  }

  /** Two zero slots of different units: (m, 0) * (ft, 0) keeps m, and
      (ft, 0) * (m, 0) keeps ft. */
  lemma MulZeroSlotsKeepLeftUnit(a: BaseUnitId, b: BaseUnitId)
    requires a != b
    ensures Mul(Slot(a, 0), Slot(b, 0)) != Mul(Slot(b, 0), Slot(a, 0))
  {
  }

  /** Where both groupings are defined they agree on the exponent, and on the
      unit when that exponent is nonzero. */
  lemma MulAssociativeWhereDefined(a: Slot, b: Slot, c: Slot)
    requires Mul(a, b).Some? && Mul(b, c).Some?
    requires Mul(Mul(a, b).value, c).Some? && Mul(a, Mul(b, c).value).Some?
    ensures Mul(Mul(a, b).value, c).value.exp == Mul(a, Mul(b, c).value).value.exp
    ensures Mul(Mul(a, b).value, c).value.exp != 0 ==>
      Mul(Mul(a, b).value, c) == Mul(a, Mul(b, c).value)
  {
  }

  /** Definedness is not associative: (m, 1) * (m, -1) cancels to a zero slot,
      which then accepts (ft, 1); grouped the other way, (m, -1) * (ft, 1) has no rule. */
  lemma MulDefinednessNotAssociative(m: BaseUnitId, ft: BaseUnitId)
    requires m != ft
    ensures Mul(Mul(Slot(m, 1), Slot(m, -1)).value, Slot(ft, 1)) == Some(Slot(ft, 1))
    ensures Mul(Slot(m, -1), Slot(ft, 1)) == None
  {
  }

  /** Multiplying by a slot and dividing by it again gives the exponent back, and
      the unit too when the exponent is nonzero. */
  lemma MulThenDiv(l: Slot, r: Slot)
    requires Mul(l, r).Some?
    ensures Div(Mul(l, r).value, r).Some?
    ensures Div(Mul(l, r).value, r).value.exp == l.exp
    ensures l.exp != 0 ==> Div(Mul(l, r).value, r) == Some(l)
  {
  }

  /** A slot times its inverse is the zero slot of its own unit. */
  lemma MulInverse(s: Slot)
    ensures Mul(s, Inv(s)) == Some(Slot(s.unit, 0))
    ensures Div(s, s) == Some(Slot(s.unit, 0))
  {
  }
}
