# typed_units: the unit algebra in Dafny

`typed_units` is a Rust library for dimensional analysis at compile time. A
unit is a list of seven slots, one for each base quantity of the International
System of Quantities: length, mass, time, electric current, temperature, amount
of substance and luminous intensity. Each slot pairs a base unit (a root such as
meter, or a prefix and a root such as kilo + gram) with an integer exponent.
Multiplying or dividing two units combines them slot by slot. A combination
without a rule is a compile error. A `Quantity` is a value tagged with a unit.

The library does all of this with traits on types. This project restates it over
ordinary values:

- A slot is `BaseUnit.Slot(unit, exp)`.
- A unit is a seven-element sequence of slots.
- A combination the library would refuse to compile is `None`.
- Exponents are mathematical integers. Values are integers.

The modules follow the source files:

| module | source file | what it holds |
|---|---|---|
| `BaseUnit` | `src/base_unit.rs` | the slot rules |
| `UnitVariant` | `src/unit.rs` | the second version of the slot rules |
| `TypeArray` | `src/util.rs` | the slot-by-slot lift |
| `Isq` | `src/isq.rs` | the seven-slot unit, the aliases, value·unit construction and rendering |
| `Names` | `src/name.rs` | names and superscripts |
| `Quantities` | `src/quantity.rs` | quantities |
| `Typenum` | `src/typenum/mod.rs` | gcd and lcm |
| `TypenumFrac` | `src/typenum/frac.rs` | fraction sum |
| `Frac` | `src/frac.rs` | the duplicate fraction sum |
| `QuantityExamples` | `src/quantity.rs` | the tests of `src/quantity.rs` |

Two helper modules support them. `Ints` holds integer division rounded toward
zero, as on Rust and typenum integers. `Wrappers` holds `Option`.

**Slot rules.** A zero exponent is a wildcard:

- Two zero slots give the left unit with exponent 0.
- A nonzero slot combined with a zero slot is returned unchanged.
- A zero slot combined with a nonzero one takes the other slot's unit.

Two nonzero slots combine only if they name the same base unit. Then
multiplication adds the exponents and division subtracts them.

Two division rules of `src/base_unit.rs` depart from subtraction (see
Findings):

- Positive by positive is bounded by typenum's unsigned subtraction `El - Er`.
  That subtraction does not exist for El < Er, so (m, 1) / (m, 2) has no rule,
  although (m, 1) · Inv((m, 2)) does.
- Negative by negative gives −(El + Er) instead of Er − El.

The model keeps each written rule as `DivAsWritten`. The seven-slot `Isq`
operations use the corrected `BaseUnit.Div`, which subtracts in every case.

`src/unit.rs` repeats both rules and adds one more bound: a positive exponent
divided by a positive one must stay positive. As written, the two files
therefore differ only at El == Er: (U, p) / (U, p) has no rule in
`src/unit.rs`. Its `UnitInv` (`src/unit.rs:141-143`) negates the exponent and
keeps the unit. That is the same mapping as `BaseUnit.Inv`, so the model
defines it only once.

These laws hold only in part:

- Multiplication is commutative and associative on the exponents.
- The unit of a zero slot depends on the order of the operands.
- Associativity can fail on definedness. (m, 1)·(m, −1) is defined and gives a
  zero slot, which then combines with any unit, while (m, −1)·(ft, 1) alone is
  rejected.

Lemmas state each of these facts, and counterexample lemmas exhibit the
failures.

**Rendering.** `Isq.Fmt` follows the source's `fmt` as an imperative loop. It
pushes numerator and denominator terms and counts them, then picks one of seven
layouts. It is proved equal to the specification function `Isq.Render`. The
source's quirks are kept:

- Numerator powers of 2 or more print as `#` + name + superscript.
- The denominator of the two-or-more over two-or-more layout is joined with
  `.` instead of `⋅`.

`Display` reads short names and `Debug` reads full names.

**Fraction sum.** The fraction "sum" of `src/typenum/frac.rs` ends with
typenum's integer quotient `NOut / Lcd`. Its output is therefore one integer,
the true sum rounded toward zero, and not a reduced fraction. The model computes
exactly that and proves the rounding statement.

## Model

| member | source | states |
|---|---|---|
| `Ints.TruncDiv` | src/quantity.rs:46 | integer `/` rounds toward zero: abs(q)·abs(b) ≤ abs(a) < (abs(q)+1)·abs(b), and q is positive only when a and b have the same sign, negative only when they differ |
| `Typenum.Positive` | src/typenum/mod.rs:9 | `Unsigned + NonZero` holds exactly for n > 0 |
| `Typenum.GcdNat` | src/typenum/mod.rs:25 | Euclid's gcd divides both arguments, and is 0 exactly when both are 0 |
| `Typenum.Gcd` | src/typenum/mod.rs:25 | `gcd(L, R)` of the magnitudes divides L and R, and is 0 exactly when both are 0 |
| `Typenum.GcdNatGreatest` | src/typenum/mod.rs:25 | every common divisor divides the gcd |
| `Typenum.GcdNatSymmetric` | src/typenum/mod.rs:25 | gcd(a, b) = gcd(b, a) |
| `Typenum.Lcm` | src/typenum/mod.rs:20-26 | lcm times gcd is abs(L·R), and the lcm is 0 exactly when L or R is 0 |
| `Typenum.LcmLeast` | src/typenum/mod.rs:11-26 | for nonzero L and R, the lcm divides every positive common multiple of abs(L) and abs(R), so it is the least one |
| `Typenum.LcmSymmetric` | src/typenum/mod.rs:20-26 | `Lcm(L, R) == Lcm(R, L)` |
| `Typenum.LcmCommonMultiple` | src/typenum/mod.rs:20-26 | for nonzero L and R, abs(L·R) / gcd is positive and divisible by both abs(L) and abs(R) |
| `TypenumFrac.FracAddImpl` | src/typenum/frac.rs:39-50 | the least common denominator `Lcm(Dl, Dr)` is positive and a multiple of both denominators |
| `TypenumFrac.NumeratorOverLcd` | src/typenum/frac.rs:47-48 | `NOut/Lcd` and `(Nl·Dr + Nr·Dl)/(Dl·Dr)` are the same fraction |
| `TypenumFrac.FracAddIsTruncatedSum` | src/typenum/frac.rs:39-50 | the hidden impl's `Output` is `Nl/Dl + Nr/Dr` rounded toward zero |
| `TypenumFrac.FracAdd` | src/typenum/frac.rs:13-23 | the public `Add` output is `Nl/Dl + Nr/Dr` rounded toward zero |
| `TypenumFrac.FracAddOfIntegers` | src/typenum/frac.rs:47-49 | with `Dl = Dr = 1` the output is `Nl + Nr` |
| `TypenumFrac.FracAddExamples` | src/typenum/frac.rs:47-49 | 1/2 + 1/3 has Lcd 6, NOut 5 and output 0; 1/2 + (−1)/2 gives 0; 3/2 + 1/2 gives 2 |
| `Frac.FracAddOp` | src/frac.rs:25-37 | the duplicate's `Lcm` is positive |
| `Frac.FracAddOpAgrees` | src/frac.rs:34-36 | `Lcm`, `NOut` and `Output` equal those of `src/typenum/frac.rs` for the same inputs |
| `Frac.FracAddOpIsTruncatedSum` | src/frac.rs:34-36 | the duplicate's output is the sum rounded toward zero, and `Nl + Nr` when both denominators are 1 |
| `Names.Select` | src/name.rs:15-29 | `Display` gives the short name and `Debug` the full one |
| `Names.DecimalStringRoundTrip` | src/name.rs:32 | the decimal string that `to_string` gives reads back to the same integer |
| `Names.SuperChar` | src/name.rs:34-46 | the table has an entry exactly for '0'..'9' and '-'; every other character is the `unreachable!()` arm |
| `Names.SuperCharRoundTrip` | src/name.rs:34-45 | each digit and '-' has a superscript character, and the character maps back to it |
| `Names.SuperscriptNeverUnreachable` | src/name.rs:32-46 | every character of an integer's decimal string is a digit or '-', so the `unreachable!()` arm is never taken |
| `Names.Superscript` | src/name.rs:31-49 | the output has as many characters as the decimal string, character i is the superscript of decimal character i, and it starts with '⁻' exactly for negative input |
| `Names.SuperscriptRoundTrip` | src/name.rs:31-49 | the integer can be read back from its superscript |
| `Names.SuperscriptInjective` | src/name.rs:34-45 | distinct integers have distinct superscripts |
| `BaseUnit.UnitName` | src/base_unit.rs:18-26 | a prefixed unit's short (full) name is the prefix's short (full) name followed by the root's |
| `BaseUnit.Mul` | src/base_unit.rs:30-108 | defined exactly when one exponent is 0 or both slots name the same unit; the exponent is the sum; a nonzero result keeps the nonzero operand's unit; two zero slots keep the left unit |
| `BaseUnit.Inv` | src/base_unit.rs:117-119 | the inverse keeps the unit and its exponent cancels the slot's |
| `BaseUnit.DivAsWritten` | src/base_unit.rs:30-115 | as written: defined exactly when one exponent is 0 or both slots name the same unit, except a smaller positive exponent by a larger one; the exponent is the difference except negative by negative, where it is El + Er |
| `BaseUnit.Div` | src/base_unit.rs:30-115 | corrected: defined exactly as Mul; the exponent is always the difference |
| `BaseUnit.DivAsWrittenSmallerByLarger` | src/base_unit.rs:66-71 | as written, (U,1)/(U,2) has no rule, while the corrected division and (U,1)·Inv((U,2)) give (U,−1) |
| `BaseUnit.DivAsWrittenNegativeByNegative` | src/base_unit.rs:110-115 | as written, (U,−1)/(U,−1) gives (U,−2) where the difference gives (U,0) |
| `BaseUnit.DivAsWrittenAgreesElsewhere` | src/base_unit.rs:66-115 | outside the two departing cases the written division is the corrected one; for 0 < El < Er on one unit it has no rule where the corrected one gives El − Er; for two negative exponents of one unit it gives `El + Er` |
| `BaseUnit.DivIsMulInv` | src/base_unit.rs:117-119 | dividing by a slot is multiplying by its inverse |
| `BaseUnit.InvInvolutive` | src/base_unit.rs:117-119 | inverting a slot twice gives it back |
| `BaseUnit.MulCommutes` | src/base_unit.rs:30-108 | definedness and exponent are symmetric; the whole slot is when the exponent is nonzero |
| `BaseUnit.MulZeroSlotsKeepLeftUnit` | src/base_unit.rs:32-34 | two zero slots with different units give different results in the two orders |
| `BaseUnit.MulAssociativeWhereDefined` | src/base_unit.rs:30-108 | when both groupings are defined they agree on the exponent, and on the unit when it is nonzero |
| `BaseUnit.MulDefinednessNotAssociative` | src/base_unit.rs:59-108 | (m,1)·(m,−1)·(ft,1) is defined grouped left and not grouped right |
| `BaseUnit.MulThenDiv` | src/base_unit.rs:30-115 | dividing a product by its right factor is defined and returns the left exponent, and the left slot itself when that exponent is nonzero |
| `BaseUnit.MulInverse` | src/base_unit.rs:117-119 | s·Inv(s) and s/s are (unit of s, 0); s/s uses the corrected division |
| `UnitVariant.Mul` | src/unit.rs:51-127 | defined exactly when one exponent is 0 or both slots name the same unit; the exponent is the sum |
| `UnitVariant.DivAsWritten` | src/unit.rs:51-134 | as written: defined exactly when one exponent is 0 or both slots name the same unit, except positive by a positive at least as large; the exponent is the difference except negative by negative, where it is El + Er |
| `UnitVariant.Div` | src/unit.rs:51-134 | corrected negative-by-negative case, positive-by-positive bound kept: same definedness, the exponent is always the difference |
| `UnitVariant.DivAsWrittenDiffersOnlyAtEqual` | src/unit.rs:84-90 | as written, this division equals `BaseUnit.DivAsWritten` except on (U,p)/(U,p) with p > 0, which has no rule here and gives (U,0) there |
| `UnitVariant.MulAgreesWithBaseUnit` | src/unit.rs:51-127 | this file's `UnitMul` gives exactly `BaseUnit.Mul` |
| `UnitVariant.DivRestrictsBaseUnit` | src/unit.rs:84-90 | this file's division is `BaseUnit.Div` except that it rejects the same-unit positive-by-positive cases with El ≤ Er |
| `UnitVariant.PositiveDivBySelfRejected` | src/unit.rs:84-90 | (U,p)/(U,p) with p > 0 has no rule here, while `BaseUnit` gives (U,0) |
| `UnitVariant.DivAsWrittenNegativeByNegative` | src/unit.rs:129-134 | as written, (U,−1)/(U,−2) gives (U,−3) where the difference gives (U,1) |
| `UnitVariant.DivAsWrittenAgreesElsewhere` | src/unit.rs:51-120 | outside negative-by-negative the written division is the corrected one |
| `TypeArray.LiftBinary` | src/util.rs:55-67 | the lifted op is defined exactly when every slot's op is; then it has the operands' length and slot i is op(l[i], r[i]) |
| `TypeArray.LiftUnary` | src/util.rs:45-51 | same length, slot i is op(s[i]) |
| `TypeArray.CountIdents` | src/util.rs:10-12 | the count is the number of identifiers |
| `TypeArray.CountIdentsOfFour` | src/util.rs:115 | A, B, C, D count as 4 |
| `TypeArray.Defaults` | src/util.rs:18 | the defaults have one slot per default unit, and slot i is (unit i, 0) |
| `TypeArray.MulByDefaultsIsIdentity` | src/util.rs:18 | multiplying by the all-default array (every slot exponent 0) changes nothing |
| `Isq.Mul` | src/isq.rs:101 | `Unit * Unit` is defined exactly when all seven slot products are; slot i is the slot product, so its exponent is the sum |
| `Isq.Div` | src/isq.rs:102 | `Unit / Unit` is defined exactly when all seven corrected slot quotients are; slot i is the slot quotient, so its exponent is the difference |
| `Isq.DivByLargerPower` | src/isq.rs:102 | m / m² is the inverse meter under the corrected division, while the written slot rule of `src/base_unit.rs:66-71` has no case for the meter slot |
| `Isq.Inv` | src/isq.rs:103 | slot i of the inverse is `Inv` of slot i |
| `Isq.Alias` | src/isq.rs:165-169 | an alias has the units m, k·g, s, A, K, mol, cd with the given exponents |
| `Isq.AliasesAreProducts` | src/isq.rs:172-183 | m / s is `MeterPerSecond`, m · m is `MeterSquared`, and (m/s) · s is `Meter` |
| `Isq.MulByDimensionless` | src/isq.rs:173 | multiplying any unit by `Dimensionless` gives it back |
| `Isq.InvInvolutive` | src/isq.rs:103 | inverting a unit twice gives it back |
| `Isq.DivIsMulInv` | src/isq.rs:101-103 | `l / r` equals `l * Inverse<r>` |
| `Isq.MulCommutes` | src/isq.rs:101 | unit products are defined in both orders or in neither, with the same exponents |
| `Isq.MulThenDiv` | src/isq.rs:101-102 | `(l * r) / r` is defined and has l's exponents, and is l when no exponent of l is 0 |
| `Isq.DivBySelf` | src/isq.rs:101-103 | `u / u` and `u * Inverse<u>` are defined, equal, and all exponents are 0 (corrected division) |
| `Isq.DivBySelfAsWritten` | src/isq.rs:101-103 | with the slot division as written, (m/s) / (m/s) is defined but its seconds slot is (s, −2), where `Isq.Div` gives (s, 0) |
| `Isq.ScalarMul` | src/isq.rs:209-215 | `v * unit` is a quantity with value v and that unit |
| `Isq.ScalarDiv` | src/isq.rs:219-235 | `v / unit` is a quantity with value v and the inverted unit |
| `Isq.ScalarDivIsQuotient` | src/isq.rs:217-235 | for SI units, `v / unit` is the quantity v (dimensionless) divided by 1 of that unit |
| `Isq.NumeratorTerm` | src/isq.rs:118-125 | exponent 1 gives the bare name; a higher power gives '#' followed by the name and more |
| `Isq.NumeratorTermDecodes` | src/isq.rs:122-125 | what follows '#' and the name reads back as the exponent |
| `Isq.DenominatorTerm` | src/isq.rs:126-133 | exponent −1 gives the bare name; a lower power gives the name followed by more |
| `Isq.DenominatorTermDecodes` | src/isq.rs:130-133 | what follows the name reads back as the magnitude of the exponent |
| `Isq.DenominatorTermAsWritten` | src/isq.rs:130-133 | negating the `i32` exponent fails exactly at `i32::MIN`; otherwise the term is `DenominatorTerm` |
| `Isq.MinExponentOverflows` | src/isq.rs:130-131 | for `i32::MIN` there is no term as written, while the mathematical term ends in the superscript of 2147483648 |
| `Isq.TermsEmptyIff` | src/isq.rs:117-135 | there is no numerator term exactly when no exponent is positive, and no denominator term exactly when none is negative |
| `Isq.Fmt` | src/isq.rs:112-148 | the formatting fails only when some exponent is `i32::MIN`; otherwise it writes `Render(u, mode)` |
| `Isq.Layout` | src/isq.rs:137-145 | no terms print as ""; numerator terms alone start with the first term; with a denominator the output starts with "1/", with the single numerator term and '/', or with '(' |
| `Isq.Render` | src/isq.rs:112-148 | a unit whose exponents are all 0 prints as "" |
| `Isq.RenderNoNumerator` | src/isq.rs:140 | a unit with negative exponents and no positive one prints as "1/" followed by its denominator |
| `Isq.RenderEmptyIff` | src/isq.rs:134-138 | with nonempty names, a unit prints as "" exactly when every exponent is 0 |
| `Isq.DebugIsDisplayOfSwapped` | src/isq.rs:153-154 | the `Debug` term lists are the `Display` term lists of the unit with short and full names exchanged |
| `Isq.RenderDebugIsDisplayOfSwapped` | src/isq.rs:153-154 | so the `Debug` output is the `Display` output with the names exchanged: same layout |
| `Isq.RenderDimensionless` | src/isq.rs:173 | `Dimensionless` prints as "" |
| `Isq.RenderMeter` | src/isq.rs:174 | `Meter` prints as "m" (`Display`) and "meter" (`Debug`) |
| `Isq.RenderKilogram` | src/isq.rs:175 | `Kilogram` prints as "kg" and "kilogram" |
| `Isq.RenderMeterPerSecond` | src/isq.rs:181 | `MeterPerSecond` prints as "m/s" and "meter/second" |
| `Isq.RenderMeterSquared` | src/isq.rs:182 | `MeterSquared` prints as "#m²" |
| `Isq.RenderPerSecond` | src/isq.rs:140 | the inverse of the second prints as "1/s" |
| `Isq.RenderTwoOverTwo` | src/isq.rs:144 | m·kg/(s²·A) prints as "(m⋅kg)/(s².A)" |
| `Isq.RenderTwoOverOne` | src/isq.rs:143 | m·kg/s prints as "(m⋅kg)/s" |
| `Isq.RenderOneOverTwo` | src/isq.rs:142 | m/(s·A) prints as "m/(s⋅A)" |
| `Quantities.New` | src/quantity.rs:26-31 | `new` stores the value unchanged, under the given unit |
| `Quantities.Mul` | src/quantity.rs:34-40 | defined exactly when the units multiply; the value is the product and the unit is `Ul * Ur` |
| `Quantities.Div` | src/quantity.rs:42-48 | defined exactly when the units divide; the value is the rounded-toward-zero quotient and the unit is `Ul / Ur` |
| `Quantities.Add` | src/quantity.rs:50-56 | defined exactly for equal units; the sum keeps the unit |
| `Quantities.Sub` | src/quantity.rs:58-64 | defined exactly for equal units; the difference keeps the unit |
| `Quantities.Eq` | src/quantity.rs:8-22 | quantities of one unit compare equal exactly when their values are equal |
| `Quantities.Compare` | src/quantity.rs:8-19 | quantities of one unit are ordered by their values |
| `Quantities.CompareConsistent` | src/quantity.rs:8-19 | the ordering says Equal exactly when equality holds, and is antisymmetric |
| `Quantities.AddThenSub` | src/quantity.rs:50-64 | (a + b) − b = a |
| `Quantities.MulThenDivValue` | src/quantity.rs:34-48 | (a · b) / b has a's value for a nonzero b |
| `QuantityExamples.MeterPerSecondIsDefined` | src/quantity.rs:72 | `m / s` is defined and is `MeterPerSecond` |
| `QuantityExamples.AddQuantityToQuantity` | src/quantity.rs:71-75 | 10 m/s + 3 m/s = 13 m/s |
| `QuantityExamples.SubQuantityFromQuantity` | src/quantity.rs:78-82 | 10 m/s − 3 m/s = 7 m/s |
| `QuantityExamples.MulQuantityByQuantity` | src/quantity.rs:85-89 | (10 m/s) · (3 s) = 30 m |
| `QuantityExamples.DivQuantityByQuantity` | src/quantity.rs:92-96 | (21 m) / (3 s) = 7 m/s |
| `QuantityExamples.AddDifferentUnitsRejected` | src/quantity.rs:50-56 | meters and seconds cannot be added |

## Left out

- Prefix and root catalogs: `src/prefix.rs`, `src/root.rs`, `src/iec_80000.rs` and `src/isq.rs:15-75` are name tables. Only the seven base units that the aliases use are modelled. `src/root.rs` and `src/prefix.rs` are not part of this model.
- Name buffers: the `ConstStr<16>`/`ConstStr<64>` capacities of concatenated names are not modelled. Names are unbounded strings.
- Celsius-to-Kelvin conversion (`src/isq.rs:77-81`): it is floating point.
- Kinds: the marker traits of `src/kind.rs` and their impls in `src/isq.rs:83-97` carry no behaviour.
- Plumbing: `src/ops.rs`, `src/lib.rs`, the `trait_alias`, `repeat` and output-alias macros, `ConstDefault`, `PhantomData`, the `consts` module, and the `new`/`new_ref`/`len` constructors of a type array. `len` is `CountIdents` of the parameters.
- Values: quantities carry integers, not `f32`/`f64`, and arithmetic does not overflow. The per-primitive instantiations of value·unit (`src/isq.rs:239-250`) are one generic rule here.
- typenum's binary integer encodings and its `Cmp`/`PrivateIntegerAdd` bounds: exponents are mathematical integers, and those bounds only make signed addition available.
- Output: `Formatter` and `write!` are replaced by returning the string. `Fmt` returns `None` where the source panics.
- `Quantity`'s derived `Debug`, which prints only the value.
- Release builds: `Isq.Fmt` models a debug build, where `-EXP` at `i32::MIN` panics. A release build would wrap instead.
- Macro mismatches: `src/isq.rs:100` does not match the `name<param = default>` pattern of `type_array!` (`src/util.rs:16-18`), and `src/frac.rs:1` imports output aliases that `src/ops.rs` does not define. The model follows what each line states. The defaults are the SI units at exponent 0 (`Isq.Dimensionless`), and the aliases stand for typenum's `Prod`, `Quot` and `Sum`.
- `Exp` and `Pre`: `src/isq.rs` uses a `base_unit::Exp` trait and a `base_unit::Pre` type that `src/base_unit.rs` does not define. A slot's `EXP` is taken to be its exponent as an `i32`, and `Pre<k, g>` is `BaseUnit.Prefixed`.
- Isq.Div: divides slots by the corrected `BaseUnit.Div`, so it also defines quotients such as m / m² that `src/base_unit.rs:66-71` rejects (`Isq.DivByLargerPower`). The same holds for `Isq.DivIsMulInv`, `Isq.MulThenDiv`, `Isq.DivBySelf`, `BaseUnit.DivIsMulInv`, `BaseUnit.MulThenDiv` and the s / s clause of `BaseUnit.MulInverse`, which are proved of the corrected division only. As written, a unit with a negative exponent divided by itself is not dimensionless (`Isq.DivBySelfAsWritten`).
- `Quantities.Div`: requires a nonzero divisor value. Integer division by zero panics in Rust, and a floating-point one is not modelled.
- `Quantities.Eq`, `Quantities.Compare`: quantities of different units return `None`, because the source's `PartialEq` and `Ord` compare only values of one type.

## Findings

| source | as written | input that shows it | evidently intended | confidence | as-written member | corrected member |
|---|---|---|---|---|---|---|
| src/base_unit.rs:66-71 | positive by positive is bounded by `El: Sub<Er>`, typenum's unsigned subtraction, which has no implementation when El < Er | (m, 1) / (m, 2) has no rule, while (m, 1) · Inv((m, 2)) gives (m, −1) | the exponent difference El − Er, here (m, −1), as the mixed-sign rules and `Inv` give | medium, not executed | `BaseUnit.DivAsWrittenSmallerByLarger` | `BaseUnit.Div` |
| src/base_unit.rs:110-115 | `(U, NInt<El>) / (U, NInt<Er>)` gives `(U, NInt<El + Er>)`, the exponent −(El + Er) | (m, −1) / (m, −1) gives (m, −2) | the exponent difference −El − (−Er) = Er − El, here (m, 0), as in every other case and as `DivIsMulInv` requires | high, not executed | `BaseUnit.DivAsWrittenNegativeByNegative` | `BaseUnit.Div` |
| src/unit.rs:129-134 | the same rule, `(U, NInt<AddOut<El, Er>>)` | (m, −1) / (m, −2) gives (m, −3) | Er − El, here (m, 1) | high, not executed | `UnitVariant.DivAsWrittenNegativeByNegative` | `UnitVariant.Div` |
| src/isq.rs:130-131 | the arm `i32::MIN..=-2` formats `superscript(-EXP)`, negating in `i32` | a slot with exponent `i32::MIN`: the negation overflows (a panic in a debug build, or a compile-time overflow error if the compiler evaluates the constant) | the superscript of the magnitude 2147483648 | low (such exponents are unlikely in practice), not executed | `Isq.MinExponentOverflows` | `Isq.DenominatorTerm` |
