/** `src/quantity.rs`: a value tagged with a unit. In the source the unit is a
    type parameter with no run-time data; here it is an ordinary value of a type
    U, and every operation that would not type-check returns `None`. The unit
    algebra is passed in, as the source's `Ul: Mul<Ur>` and `Ul: Div<Ur>` bounds
    do. Values are mathematical integers; `/` rounds toward zero as on Rust's
    integer types, which panic on a zero divisor. */
module Quantities {
  import opened Wrappers
  import opened Ints

  datatype Quantity<U> = Quantity(value: int, unit: U)

  /** `Quantity::new`. */
  function New<U>(value: int, unit: U): (q: Quantity<U>)
    ensures q.value == value && q.unit == unit
  {
    Quantity(value, unit)
  }

  /** `Mul`: the values multiply and the units compose by `unitMul`. */
  function Mul<U>(a: Quantity<U>, b: Quantity<U>, unitMul: (U, U) -> Option<U>): (r: Option<Quantity<U>>)
    ensures r.Some? <==> unitMul(a.unit, b.unit).Some?
    ensures r.Some? ==> r.value.value == a.value * b.value && r.value.unit == unitMul(a.unit, b.unit).value
  {
    match unitMul(a.unit, b.unit)
    case None => None
    case Some(u) => Some(New(a.value * b.value, u))
  }

  /** `Div`: the values divide and the units compose by `unitDiv`. */
  function Div<U>(a: Quantity<U>, b: Quantity<U>, unitDiv: (U, U) -> Option<U>): (r: Option<Quantity<U>>)
    requires b.value != 0
    ensures r.Some? <==> unitDiv(a.unit, b.unit).Some?
    ensures r.Some? ==> r.value.value == TruncDiv(a.value, b.value) && r.value.unit == unitDiv(a.unit, b.unit).value
  {
    match unitDiv(a.unit, b.unit)
    case None => None
    case Some(u) => Some(New(TruncDiv(a.value, b.value), u))
  }

  /** `Add`: only for two quantities of the same unit, which the result keeps. */
  function Add<U(==)>(a: Quantity<U>, b: Quantity<U>): (r: Option<Quantity<U>>)
    ensures r.Some? <==> a.unit == b.unit
    ensures r.Some? ==> r.value.unit == a.unit && r.value.value == a.value + b.value
  {
    if a.unit != b.unit then None else Some(New(a.value + b.value, a.unit))
  }

  /** `Sub`: only for two quantities of the same unit, which the result keeps. */
  function Sub<U(==)>(a: Quantity<U>, b: Quantity<U>): (r: Option<Quantity<U>>)
    ensures r.Some? <==> a.unit == b.unit
    ensures r.Some? ==> r.value.unit == a.unit && r.value.value == a.value - b.value
  {
    if a.unit != b.unit then None else Some(New(a.value - b.value, a.unit))
  }

  datatype Ordering = Less | Equal | Greater

  /** The derived `PartialEq`: only quantities of one unit type can be compared,
      and the unit is ignored, so only the values are. */
  function Eq<U(==)>(a: Quantity<U>, b: Quantity<U>): (r: Option<bool>)
    ensures r.Some? <==> a.unit == b.unit
    ensures r.Some? ==> (r.value <==> a.value == b.value)
  {
    if a.unit != b.unit then None else Some(a.value == b.value)
  }

  /** The derived `PartialOrd`/`Ord`: the order of the values. */
  function Compare<U(==)>(a: Quantity<U>, b: Quantity<U>): (r: Option<Ordering>)
    ensures r.Some? <==> a.unit == b.unit
    ensures r == Some(Less) <==> a.unit == b.unit && a.value < b.value
    ensures r == Some(Greater) <==> a.unit == b.unit && a.value > b.value
  {
    if a.unit != b.unit then None
    else if a.value < b.value then Some(Less)
    else if a.value == b.value then Some(Equal)
    else Some(Greater)
  }

  /** Ordering is consistent with equality and antisymmetric. */
  lemma CompareConsistent<U>(a: Quantity<U>, b: Quantity<U>)
    requires a.unit == b.unit
    ensures Compare(a, b) == Some(Equal) <==> Eq(a, b) == Some(true)
    ensures Compare(a, b) == Some(Less) <==> Compare(b, a) == Some(Greater)
  {
  }

  /** Adding and then subtracting the same quantity gives the first one back. */
  lemma AddThenSub<U>(a: Quantity<U>, b: Quantity<U>)
    requires a.unit == b.unit
    ensures Add(a, b).Some? && Sub(Add(a, b).value, b) == Some(a)
  {
  }

  /** Multiplying and then dividing by the same nonzero value gives the value back. */
  lemma {:induction false} MulThenDivValue<U>(a: Quantity<U>, b: Quantity<U>,
                                             unitMul: (U, U) -> Option<U>, unitDiv: (U, U) -> Option<U>)
    requires b.value != 0 && Mul(a, b, unitMul).Some?
    ensures Div(Mul(a, b, unitMul).value, b, unitDiv).Some? ==>
      Div(Mul(a, b, unitMul).value, b, unitDiv).value.value == a.value
  {
    TruncDivExact(a.value * b.value, b.value, a.value);
  }
}
