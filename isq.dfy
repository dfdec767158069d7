/** `src/isq.rs`: the seven-slot `Unit` of the International System of Quantities
    (length, mass, time, electric current, temperature, amount of substance,
    luminous intensity), its multiplication, division and inversion slot by slot,
    the named aliases, the construction of a quantity from a value and a unit, and
    the `Display`/`Debug` rendering of a unit. */
module Isq {
  import opened Wrappers
  import opened Ints
  import opened Names
  import BaseUnit
  import TypeArray
  import Quantities

  type Slot = BaseUnit.Slot

  /** `Unit<L, M, Ti, I, Te, N, J>`: exactly seven slots, in that order. */
  type Unit = u: seq<Slot> | |u| == 7
    witness seq(7, _ => BaseUnit.Slot(BaseUnit.Root(Name("m", "meter")), 0))

  // ----- composition (`impl_binary_op_for_type_array!`, `impl_unary_op_for_type_array!`) -----

  /** `Unit * Unit`: `UnitMul` slot by slot; one slot without a rule rejects it. */
  function Mul(l: Unit, r: Unit): (p: Option<Unit>)
    ensures p.Some? <==> forall i :: 0 <= i < 7 ==> BaseUnit.Mul(l[i], r[i]).Some?
    ensures p.Some? ==> forall i :: 0 <= i < 7 ==> p.value[i] == BaseUnit.Mul(l[i], r[i]).value
    ensures p.Some? ==> forall i :: 0 <= i < 7 ==> p.value[i].exp == l[i].exp + r[i].exp
  {
    match TypeArray.LiftBinary(BaseUnit.Mul, l, r)
    case None => None
    case Some(s) => Some(s)
  }

  /** `Unit / Unit`: `UnitDiv` slot by slot; one slot without a rule rejects it. */
  function Div(l: Unit, r: Unit): (q: Option<Unit>)
    ensures q.Some? <==> forall i :: 0 <= i < 7 ==> BaseUnit.Div(l[i], r[i]).Some?
    ensures q.Some? ==> forall i :: 0 <= i < 7 ==> q.value[i] == BaseUnit.Div(l[i], r[i]).value
    ensures q.Some? ==> forall i :: 0 <= i < 7 ==> q.value[i].exp == l[i].exp - r[i].exp
  {
    match TypeArray.LiftBinary(BaseUnit.Div, l, r)
    case None => None
    case Some(s) => Some(s)
  }

  /** `Inverse<Unit>`: `Inv` on every slot. */
  function Inv(u: Unit): (v: Unit)
    ensures forall i :: 0 <= i < 7 ==> v[i] == BaseUnit.Inv(u[i])
  {
    TypeArray.LiftUnary(BaseUnit.Inv, u)
  }

  /** The exponents of a unit, slot by slot. */
  function Exps(u: seq<Slot>): (e: seq<int>)
    ensures |e| == |u| && forall i :: 0 <= i < |u| ==> e[i] == u[i].exp
  {
    seq(|u|, i requires 0 <= i < |u| => u[i].exp)
  }

  // ----- the units of the aliases (`src/isq.rs:56-65`, kilo at `src/isq.rs:32`) -----

  const MeterUnit := BaseUnit.Root(Name("m", "meter"))
  const KilogramUnit := BaseUnit.Prefixed(Name("k", "kilo"), Name("g", "gram"))
  const SecondUnit := BaseUnit.Root(Name("s", "second"))
  const AmpereUnit := BaseUnit.Root(Name("A", "Ampere"))
  const KelvinUnit := BaseUnit.Root(Name("K", "Kelvin"))
  const MoleUnit := BaseUnit.Root(Name("mol", "mole"))
  const CandelaUnit := BaseUnit.Root(Name("cd", "candela"))

  const SiUnits: seq<BaseUnit.BaseUnitId> :=
    [MeterUnit, KilogramUnit, SecondUnit, AmpereUnit, KelvinUnit, MoleUnit, CandelaUnit]

  /** `unit_aliases!`: the SI base units with the given exponents. */
  function Alias(exps: seq<int>): (u: Unit)
    requires |exps| == 7
    ensures forall i :: 0 <= i < 7 ==> u[i] == BaseUnit.Slot(SiUnits[i], exps[i])
  {
    seq(7, i requires 0 <= i < 7 => BaseUnit.Slot(SiUnits[i], exps[i]))
  }

  const Dimensionless := Alias([0, 0, 0, 0, 0, 0, 0])
  const Meter := Alias([1, 0, 0, 0, 0, 0, 0])
  const Kilogram := Alias([0, 1, 0, 0, 0, 0, 0])
  const Second := Alias([0, 0, 1, 0, 0, 0, 0])
  const Ampere := Alias([0, 0, 0, 1, 0, 0, 0])
  const Kelvin := Alias([0, 0, 0, 0, 1, 0, 0])
  const Mole := Alias([0, 0, 0, 0, 0, 1, 0])
  const Candela := Alias([0, 0, 0, 0, 0, 0, 1])
  const MeterPerSecond := Alias([1, 0, -1, 0, 0, 0, 0])
  const MeterSquared := Alias([2, 0, 0, 0, 0, 0, 0])

  /** The aliases agree with the algebra: m/s is meter divided by second and m² is
      meter times meter. */
  lemma AliasesAreProducts()
    ensures Div(Meter, Second) == Some(MeterPerSecond)
    ensures Mul(Meter, Meter) == Some(MeterSquared)
    ensures Mul(MeterPerSecond, Second) == Some(Meter)
  {
    assert forall i :: 0 <= i < 7 ==> BaseUnit.Div(Meter[i], Second[i]) == Some(MeterPerSecond[i]);
    assert Div(Meter, Second).value == MeterPerSecond;
    assert forall i :: 0 <= i < 7 ==> BaseUnit.Mul(Meter[i], Meter[i]) == Some(MeterSquared[i]);
    assert Mul(Meter, Meter).value == MeterSquared;
    assert forall i :: 0 <= i < 7 ==> BaseUnit.Mul(MeterPerSecond[i], Second[i]) == Some(Meter[i]);
    assert Mul(MeterPerSecond, Second).value == Meter;
  }

  /** With the corrected slot division, meter divided by square meter is the
      inverse meter. The positive-by-positive rule of `src/base_unit.rs`
      (`BaseUnit.DivAsWritten`) has no case for it. */
  lemma DivByLargerPower()
    ensures Div(Meter, MeterSquared) == Some(Alias([-1, 0, 0, 0, 0, 0, 0]))
    ensures BaseUnit.DivAsWritten(Meter[0], MeterSquared[0]) == None
  {
    var perMeter := Alias([-1, 0, 0, 0, 0, 0, 0]);
    assert forall i :: 0 <= i < 7 ==> BaseUnit.Div(Meter[i], MeterSquared[i]) == Some(perMeter[i]);
    assert Div(Meter, MeterSquared).value == perMeter;
  }

  // ----- laws of the lifted operations -----

  /** Multiplying by `Dimensionless` (every slot's default, exponent 0) leaves any
      unit as it is. */
  lemma {:induction false} MulByDimensionless(u: Unit)
    ensures Mul(u, Dimensionless) == Some(u)
  {
    assert Dimensionless == TypeArray.Defaults(SiUnits);
    TypeArray.MulByDefaultsIsIdentity(u, SiUnits);
  }

  lemma {:induction false} InvInvolutive(u: Unit)
    ensures Inv(Inv(u)) == u
  {
    forall i | 0 <= i < 7
      ensures Inv(Inv(u))[i] == u[i]
    {
      BaseUnit.InvInvolutive(u[i]);
    }
  }

  lemma {:induction false} DivIsMulInv(l: Unit, r: Unit)
    ensures Div(l, r) == Mul(l, Inv(r))
  {
    forall i | 0 <= i < 7
      ensures BaseUnit.Div(l[i], r[i]) == BaseUnit.Mul(l[i], Inv(r)[i])
    {
      BaseUnit.DivIsMulInv(l[i], r[i]);
    }
    if Div(l, r).Some? {
      assert Div(l, r).value == Mul(l, Inv(r)).value;
    }
  }

  /** Multiplication commutes on the exponents; the units can differ only in
      slots whose exponent is 0. */
  lemma {:induction false} MulCommutes(l: Unit, r: Unit)
    ensures Mul(l, r).Some? <==> Mul(r, l).Some?
    ensures Mul(l, r).Some? ==> Exps(Mul(l, r).value) == Exps(Mul(r, l).value)
  {
    forall i | 0 <= i < 7
      ensures BaseUnit.Mul(l[i], r[i]).Some? <==> BaseUnit.Mul(r[i], l[i]).Some?
    {
      BaseUnit.MulCommutes(l[i], r[i]);
    }
  }

  /** Dividing a product by its right factor gives back the left factor's
      exponents, and the left factor itself when none of its exponents is 0. */
  lemma {:induction false} MulThenDiv(l: Unit, r: Unit)
    requires Mul(l, r).Some?
    ensures Div(Mul(l, r).value, r).Some?
    ensures Exps(Div(Mul(l, r).value, r).value) == Exps(l)
    ensures (forall i :: 0 <= i < 7 ==> l[i].exp != 0) ==> Div(Mul(l, r).value, r) == Some(l)
  {
    var p := Mul(l, r).value;
    forall i | 0 <= i < 7
      ensures BaseUnit.Div(p[i], r[i]).Some?
      ensures BaseUnit.Div(p[i], r[i]).value.exp == l[i].exp
      ensures l[i].exp != 0 ==> BaseUnit.Div(p[i], r[i]) == Some(l[i])
    {
      BaseUnit.MulThenDiv(l[i], r[i]);
    }
    if forall i :: 0 <= i < 7 ==> l[i].exp != 0 {
      assert Div(p, r).value == l;
    }
  }

  /** A unit divided by itself, or multiplied by its inverse, is dimensionless:
      every exponent is 0 and every slot keeps its unit. */
  lemma {:induction false} DivBySelf(u: Unit)
    ensures Div(u, u).Some? && Mul(u, Inv(u)) == Div(u, u)
    ensures forall i :: 0 <= i < 7 ==> Div(u, u).value[i] == BaseUnit.Slot(u[i].unit, 0)
  {
    forall i | 0 <= i < 7
      ensures BaseUnit.Div(u[i], u[i]) == Some(BaseUnit.Slot(u[i].unit, 0))
    {
      BaseUnit.MulInverse(u[i]);
    }
    DivIsMulInv(u, u);
  }

  /** With the slot division as written, u / u is not dimensionless once u has a
      negative exponent: for m/s the seconds slot of (m/s) / (m/s) is s⁻², where
      `Div` gives s⁰. */
  lemma DivBySelfAsWritten(u: Unit)
    requires u == MeterPerSecond
    ensures TypeArray.LiftBinary(BaseUnit.DivAsWritten, u, u).Some?
    ensures TypeArray.LiftBinary(BaseUnit.DivAsWritten, u, u).value[2] == BaseUnit.Slot(SecondUnit, -2)
    ensures Div(u, u).value[2] == BaseUnit.Slot(SecondUnit, 0)
  {
    forall i | 0 <= i < 7
      ensures BaseUnit.DivAsWritten(u[i], u[i]).Some? && BaseUnit.Div(u[i], u[i]).Some?
    {
    }
    assert u[2] == BaseUnit.Slot(SecondUnit, -1);
  }

  // ----- value * unit and value / unit (`impl_mul_div_for_value_by_unit!`) -----

  /** `v * unit`: a quantity with that unit and the value unchanged. */
  function ScalarMul(v: int, u: Unit): (q: Quantities.Quantity<Unit>)
    ensures q.value == v && q.unit == u
  {
    Quantities.New(v, u)
  }

  /** `v / unit`: a quantity with the inverted unit and the value unchanged. */
  function ScalarDiv(v: int, u: Unit): (q: Quantities.Quantity<Unit>)
    ensures q.value == v && q.unit == Inv(u)
  {
    Quantities.New(v, Inv(u))
  }

  /** Dividing an all-zero unit by u inverts u, when the two agree on the unit of
      every slot where u's exponent is 0. */
  lemma {:induction false} DivIntoZeros(z: Unit, u: Unit)
    requires forall i :: 0 <= i < 7 ==> z[i].exp == 0 && (u[i].exp == 0 ==> z[i].unit == u[i].unit)
    ensures Div(z, u) == Some(Inv(u))
  {
    forall i | 0 <= i < 7
      ensures BaseUnit.Div(z[i], u[i]) == Some(Inv(u)[i])
    {
    }
    assert Div(z, u).value == Inv(u);
  }

  /** For a unit built from the SI base units, `v / unit` is the dimensionless
      quantity v divided by the quantity 1 of that unit. */
  lemma {:induction false} ScalarDivIsQuotient(v: int, exps: seq<int>)
    requires |exps| == 7
    ensures Quantities.Div(ScalarMul(v, Dimensionless), ScalarMul(1, Alias(exps)), Div)
            == Some(ScalarDiv(v, Alias(exps)))
  {
    var u := Alias(exps);
    forall i | 0 <= i < 7
      ensures Dimensionless[i].exp == 0 && Dimensionless[i].unit == u[i].unit
    {
    }
    DivIntoZeros(Dimensionless, u);
    TruncDivExact(v, 1, v);
  }

  // ----- rendering (`impl_trait_for_unit!`) -----

  /** What a slot prints as its name: `Display` takes the base unit's short name
      and `Debug` its full name. */
  function SlotName(s: Slot, mode: NameMode): string {
    Select(BaseUnit.UnitName(s.unit), mode)
  }

  /** A numerator term: the bare name for exponent 1; for a higher power a '#',
      the name and the exponent in superscript. */
  function NumeratorTerm(name: string, e: int): (t: string)
    requires e >= 1
    ensures e == 1 ==> t == name
    ensures e >= 2 ==> |t| > |name| + 1 && t[0] == '#' && t[1..|name| + 1] == name
  {
    if e == 1 then name
    else
      var t := "#" + name + Superscript(e);
      assert t[1..|name| + 1] == name;
      t
  }

  /** The exponent of a higher power can be read back from its term. */
  lemma NumeratorTermDecodes(name: string, e: int)
    requires e >= 2
    ensures FromSuperscript(NumeratorTerm(name, e)[|name| + 1..]) == Some(e)
  {
    assert NumeratorTerm(name, e)[|name| + 1..] == Superscript(e);
    SuperscriptRoundTrip(e);
  }

  /** A denominator term: the bare name for exponent -1; for a lower power the
      name and the magnitude of the exponent in superscript. */
  function DenominatorTerm(name: string, e: int): (t: string)
    requires e <= -1
    ensures e == -1 ==> t == name
    ensures e <= -2 ==> |t| > |name| && t[..|name|] == name
  {
    if e == -1 then name
    else
      var t := name + Superscript(-e);
      assert t[..|name|] == name;
      t
  }

  /** The magnitude of a lower power can be read back from its term. */
  lemma DenominatorTermDecodes(name: string, e: int)
    requires e <= -2
    ensures FromSuperscript(DenominatorTerm(name, e)[|name|..]) == Some(-e)
  {
    assert DenominatorTerm(name, e)[|name|..] == Superscript(-e);
    SuperscriptRoundTrip(-e);
  }

  /** The denominator term as the source computes it, negating the exponent in
      `i32`: for `i32::MIN` the negation overflows and the formatting panics. */
  function DenominatorTermAsWritten(name: string, e: int): (t: Option<string>)
    requires e <= -1 && InI32(e)
    ensures t.None? <==> e == I32_MIN
    ensures t.Some? ==> t.value == DenominatorTerm(name, e)
  {
    if e == -1 then Some(name)
    else if !InI32(-e) then None
    else Some(name + Superscript(-e))
  }

  /** The overflow: the slot (u, i32::MIN) has a denominator term in the
      mathematical reading, and none as written. */
  lemma MinExponentOverflows(name: string)
    ensures DenominatorTermAsWritten(name, I32_MIN).None?
    ensures DenominatorTerm(name, I32_MIN) == name + Superscript(0x8000_0000)
  {
  }

  /** What one slot adds to the numerator list: a term when its exponent is
      positive, nothing otherwise. */
  function NumeratorPart(s: Slot, mode: NameMode): seq<string> {
    if s.exp >= 1 then [NumeratorTerm(SlotName(s, mode), s.exp)] else []
  }

  /** What one slot adds to the denominator list: a term when its exponent is
      negative, nothing otherwise. */
  function DenominatorPart(s: Slot, mode: NameMode): seq<string> {
    if s.exp <= -1 then [DenominatorTerm(SlotName(s, mode), s.exp)] else []
  }

  /** The parts of the slots, concatenated in slot order. */
  function Collect(u: seq<Slot>, part: Slot -> seq<string>): seq<string> {
    if |u| == 0 then [] else Collect(u[..|u| - 1], part) + part(u[|u| - 1])
  }

  lemma {:induction false} CollectConcat(a: seq<Slot>, b: seq<Slot>, part: Slot -> seq<string>)
    ensures Collect(a + b, part) == Collect(a, part) + Collect(b, part)
    decreases |b|
  {
    if |b| == 0 {
      assert a + b == a;
    } else {
      assert (a + b)[..|a + b| - 1] == a + b[..|b| - 1];
      CollectConcat(a, b[..|b| - 1], part);
    }
  }

  /** The numerator list: one term per slot with a positive exponent, in slot order. */
  function NumeratorTerms(u: seq<Slot>, mode: NameMode): seq<string> {
    Collect(u, s => NumeratorPart(s, mode))
  }

  /** The denominator list: one term per slot with a negative exponent, in slot order. */
  function DenominatorTerms(u: seq<Slot>, mode: NameMode): seq<string> {
    Collect(u, s => DenominatorPart(s, mode))
  }

  /** One more slot adds its part to each list. */
  lemma TermsOfPrefixStep(u: seq<Slot>, i: nat, mode: NameMode)
    requires i < |u|
    ensures NumeratorTerms(u[..i + 1], mode) == NumeratorTerms(u[..i], mode) + NumeratorPart(u[i], mode)
    ensures DenominatorTerms(u[..i + 1], mode) == DenominatorTerms(u[..i], mode) + DenominatorPart(u[i], mode)
  {
    assert u[..i + 1][..i] == u[..i];
  }

  /** A slot list has no numerator term exactly when no exponent is positive, and
      no denominator term exactly when no exponent is negative. */
  lemma {:induction false} TermsEmptyIff(u: seq<Slot>, mode: NameMode)
    ensures NumeratorTerms(u, mode) == [] <==> forall i :: 0 <= i < |u| ==> u[i].exp <= 0
    ensures DenominatorTerms(u, mode) == [] <==> forall i :: 0 <= i < |u| ==> u[i].exp >= 0
  {
    if |u| > 0 {
      TermsEmptyIff(u[..|u| - 1], mode);
      assert forall i :: 0 <= i < |u| - 1 ==> u[..|u| - 1][i] == u[i];
    }
  }

  /** When every slot's name is nonempty, so is every term. */
  lemma {:induction false} TermsNonempty(u: seq<Slot>, mode: NameMode)
    requires forall i :: 0 <= i < |u| ==> SlotName(u[i], mode) != ""
    ensures forall k :: 0 <= k < |NumeratorTerms(u, mode)| ==> NumeratorTerms(u, mode)[k] != ""
    ensures forall k :: 0 <= k < |DenominatorTerms(u, mode)| ==> DenominatorTerms(u, mode)[k] != ""
  {
    if |u| > 0 {
      TermsNonempty(u[..|u| - 1], mode);
      assert NumeratorTerms(u, mode) == NumeratorTerms(u[..|u| - 1], mode) + NumeratorPart(u[|u| - 1], mode);
      assert DenominatorTerms(u, mode) == DenominatorTerms(u[..|u| - 1], mode) + DenominatorPart(u[|u| - 1], mode);
    }
  }

  /** `join`: the terms with the separator between each two of them. */
  function Join(ts: seq<string>, sep: string): (r: string)
    ensures |ts| == 0 ==> r == ""
    ensures |ts| == 1 ==> r == ts[0]
    ensures |ts| >= 1 ==> |r| >= |ts[0]| && r[..|ts[0]|] == ts[0]
  {
    if |ts| == 0 then ""
    else if |ts| == 1 then ts[0]
    else
      var front := Join(ts[..|ts| - 1], sep);
      assert ts[..|ts| - 1][0] == ts[0];
      front + sep + ts[|ts| - 1]
  }

  /** The layout chosen by the numbers of numerator and denominator terms: no
      terms print as "", numerator terms alone as their product, and a
      denominator is written after "1/", after the single numerator term and
      '/', or after a parenthesised numerator and '/'. */
  function Layout(num: seq<string>, den: seq<string>): (s: string)
    ensures |num| == 0 && |den| == 0 ==> s == ""
    ensures |num| >= 1 && |den| == 0 ==> |s| >= |num[0]| && s[..|num[0]|] == num[0]
    ensures |num| == 0 && |den| >= 1 ==> |s| >= 2 && s[..2] == "1/"
    ensures |num| == 1 && |den| >= 1 ==> |s| > |num[0]| && s[..|num[0]| + 1] == num[0] + "/"
    ensures |num| >= 2 && |den| >= 1 ==> |s| > 0 && s[0] == '('
  {
    if |num| == 0 && |den| == 0 then ""
    else if |den| == 0 then Join(num, "⋅")
    else if |num| == 0 then "1/" + Join(den, "⋅")
    else if |num| == 1 && |den| == 1 then num[0] + "/" + den[0]
    else if |num| == 1 then num[0] + "/(" + Join(den, "⋅") + ")"
    else if |den| == 1 then "(" + Join(num, "⋅") + ")/" + den[0]
    else "(" + Join(num, "⋅") + ")/(" + Join(den, ".") + ")"
  }

  /** Every exponent is 0. */
  predicate AllZero(u: Unit) {
    forall i :: 0 <= i < 7 ==> u[i].exp == 0
  }

  /** What `Display` (mode `Display`) or `Debug` (mode `Debug`) prints for a
      unit, with exponents read as mathematical integers. */
  function Render(u: Unit, mode: NameMode): (r: string)
    ensures AllZero(u) ==> r == ""
  {
    TermsEmptyIff(u, mode);
    Layout(NumeratorTerms(u, mode), DenominatorTerms(u, mode))
  }

  /** A unit with negative exponents and no positive one prints as "1/" and its
      denominator. */
  lemma RenderNoNumerator(u: Unit, mode: NameMode)
    requires forall i :: 0 <= i < 7 ==> u[i].exp <= 0
    requires exists i :: 0 <= i < 7 && u[i].exp < 0
    ensures |Render(u, mode)| >= 2 && Render(u, mode)[..2] == "1/"
  {
    TermsEmptyIff(u, mode);
  }

  /** `fmt`: walks the seven slots, pushing terms onto the numerator and the
      denominator lists and counting them, then writes the layout. It fails
      (the source panics) only on an exponent of `i32::MIN`. */
  method Fmt(u: Unit, mode: NameMode) returns (out: Option<string>)
    requires forall i :: 0 <= i < 7 ==> InI32(u[i].exp)
    ensures out.None? <==> exists i :: 0 <= i < 7 && u[i].exp == I32_MIN
    ensures out.Some? ==> out.value == Render(u, mode)
  {
    var numerator: seq<string> := [];
    var denominator: seq<string> := [];
    var numeratorCount := 0;
    var denominatorCount := 0;
    for i := 0 to 7
      invariant numerator == NumeratorTerms(u[..i], mode) && numeratorCount == |numerator|
      invariant denominator == DenominatorTerms(u[..i], mode) && denominatorCount == |denominator|
      invariant forall j :: 0 <= j < i ==> u[j].exp != I32_MIN
    {
      TermsOfPrefixStep(u, i, mode);
      var e := u[i].exp;
      var name := SlotName(u[i], mode);
      if e == 1 {
        numerator := numerator + [name];
        numeratorCount := numeratorCount + 1;
      } else if e >= 2 {
        numerator := numerator + ["#" + name + Superscript(e)];
        numeratorCount := numeratorCount + 1;
      } else if e == -1 {
        denominator := denominator + [name];
        denominatorCount := denominatorCount + 1;
      } else if e <= -2 {
        var term := DenominatorTermAsWritten(name, e);
        if term.None? {
          return None;
        }
        denominator := denominator + [term.value];
        denominatorCount := denominatorCount + 1;
      }
    }
    assert u[..7] == u;
    if numeratorCount == 0 && denominatorCount == 0 {
      out := Some("");
    } else if denominatorCount == 0 {
      out := Some(Join(numerator, "⋅"));
    } else if numeratorCount == 0 {
      out := Some("1/" + Join(denominator, "⋅"));
    } else if numeratorCount == 1 && denominatorCount == 1 {
      out := Some(numerator[0] + "/" + denominator[0]);
    } else if numeratorCount == 1 {
      out := Some(numerator[0] + "/(" + Join(denominator, "⋅") + ")");
    } else if denominatorCount == 1 {
      out := Some("(" + Join(numerator, "⋅") + ")/" + denominator[0]);
    } else {
      out := Some("(" + Join(numerator, "⋅") + ")/(" + Join(denominator, ".") + ")");
    }
  }

  /** A unit prints as the empty string exactly when every exponent is 0, provided
      its base units have nonempty names. */
  lemma {:induction false} RenderEmptyIff(u: Unit, mode: NameMode)
    requires forall i :: 0 <= i < 7 ==> SlotName(u[i], mode) != ""
    ensures Render(u, mode) == "" <==> forall i :: 0 <= i < 7 ==> u[i].exp == 0
  {
    var num := NumeratorTerms(u, mode);
    var den := DenominatorTerms(u, mode);
    TermsEmptyIff(u, mode);
    TermsNonempty(u, mode);
    if |num| > 0 && |den| == 0 {
      assert Join(num, "⋅")[..|num[0]|] == num[0];
    }
  }

  /** Exchanging every short name with its full name. */
  function SwapName(n: Name): Name {
    Name(n.full, n.short)
  }

  function SwapUnitNames(id: BaseUnit.BaseUnitId): BaseUnit.BaseUnitId {
    match id
    case Root(r) => BaseUnit.Root(SwapName(r))
    case Prefixed(p, r) => BaseUnit.Prefixed(SwapName(p), SwapName(r))
  }

  function SwapNames(u: seq<Slot>): (v: seq<Slot>)
    ensures |v| == |u| && forall i :: 0 <= i < |u| ==> v[i] == BaseUnit.Slot(SwapUnitNames(u[i].unit), u[i].exp)
  {
    seq(|u|, i requires 0 <= i < |u| => BaseUnit.Slot(SwapUnitNames(u[i].unit), u[i].exp))
  }

  /** `Debug` differs from `Display` only in the names it reads: it prints what
      `Display` prints once every short name is exchanged with its full name. */
  lemma {:induction false} DebugIsDisplayOfSwapped(u: seq<Slot>)
    ensures NumeratorTerms(u, Debug) == NumeratorTerms(SwapNames(u), Display)
    ensures DenominatorTerms(u, Debug) == DenominatorTerms(SwapNames(u), Display)
  {
    if |u| > 0 {
      var v := SwapNames(u);
      assert SwapNames(u[..|u| - 1]) == v[..|v| - 1];
      DebugIsDisplayOfSwapped(u[..|u| - 1]);
      assert SlotName(u[|u| - 1], Debug) == SlotName(v[|v| - 1], Display);
      assert NumeratorPart(u[|u| - 1], Debug) == NumeratorPart(v[|v| - 1], Display);
      assert DenominatorPart(u[|u| - 1], Debug) == DenominatorPart(v[|v| - 1], Display);
    }
  }

  lemma RenderDebugIsDisplayOfSwapped(u: Unit)
    ensures Render(u, Debug) == Render(SwapNames(u), Display)
  {
    DebugIsDisplayOfSwapped(u);
  }

  /** The term lists of a concatenation are the concatenations of the term lists. */
  lemma TermsOfConcat(a: seq<Slot>, b: seq<Slot>, mode: NameMode)
    ensures NumeratorTerms(a + b, mode) == NumeratorTerms(a, mode) + NumeratorTerms(b, mode)
    ensures DenominatorTerms(a + b, mode) == DenominatorTerms(a, mode) + DenominatorTerms(b, mode)
  {
    CollectConcat(a, b, s => NumeratorPart(s, mode));
    CollectConcat(a, b, s => DenominatorPart(s, mode));
  }

  lemma TermsOfSingleton(x: Slot, mode: NameMode)
    ensures NumeratorTerms([x], mode) == NumeratorPart(x, mode)
    ensures DenominatorTerms([x], mode) == DenominatorPart(x, mode)
  {
    assert [x][..0] == [];
    var f: Slot -> seq<string> := s => NumeratorPart(s, mode);
    assert Collect([x], f) == Collect([], f) + f(x);
    assert NumeratorTerms([x], mode) == Collect([x], f);
    var g: Slot -> seq<string> := s => DenominatorPart(s, mode);
    assert Collect([x], g) == Collect([], g) + g(x);
    assert DenominatorTerms([x], mode) == Collect([x], g);
  }

  lemma SuperscriptTwo()
    ensures Superscript(2) == "²"
  {
    assert DecimalString(2) == "2";
  }

  /** Squares print with a superscript two. */
  lemma SquareTerms(name: string)
    ensures NumeratorTerm(name, 2) == "#" + name + "²"
    ensures DenominatorTerm(name, -2) == name + "²"
  {
    SuperscriptTwo();
  }

  /** The term lists of a unit, slot by slot. */
  lemma TermsOfSeven(u: Unit, mode: NameMode)
    ensures NumeratorTerms(u, mode)
      == NumeratorPart(u[0], mode) + NumeratorPart(u[1], mode) + NumeratorPart(u[2], mode)
         + NumeratorPart(u[3], mode) + NumeratorPart(u[4], mode) + NumeratorPart(u[5], mode)
         + NumeratorPart(u[6], mode)
    ensures DenominatorTerms(u, mode)
      == DenominatorPart(u[0], mode) + DenominatorPart(u[1], mode) + DenominatorPart(u[2], mode)
         + DenominatorPart(u[3], mode) + DenominatorPart(u[4], mode) + DenominatorPart(u[5], mode)
         + DenominatorPart(u[6], mode)
  {
    var p1 := [u[0]];
    var p2 := p1 + [u[1]];
    var p3 := p2 + [u[2]];
    var p4 := p3 + [u[3]];
    var p5 := p4 + [u[4]];
    var p6 := p5 + [u[5]];
    assert u == p6 + [u[6]];
    TermsOfSingleton(u[0], mode);
    TermsOfSingleton(u[1], mode);
    TermsOfSingleton(u[2], mode);
    TermsOfSingleton(u[3], mode);
    TermsOfSingleton(u[4], mode);
    TermsOfSingleton(u[5], mode);
    TermsOfSingleton(u[6], mode);
    TermsOfConcat(p1, [u[1]], mode);
    TermsOfConcat(p2, [u[2]], mode);
    TermsOfConcat(p3, [u[3]], mode);
    TermsOfConcat(p4, [u[4]], mode);
    TermsOfConcat(p5, [u[5]], mode);
    TermsOfConcat(p6, [u[6]], mode);
  }

  // The examples below take the unit as a parameter fixed by `requires u == X`
  // rather than writing the constant into the ensures: a literal argument is
  // unrolled eagerly by the solver, which costs far more than these proofs need.

  lemma RenderDimensionless(u: Unit, mode: NameMode)
    requires u == Dimensionless
    ensures Render(u, mode) == ""
  {
    TermsOfSeven(u, mode);
  }

  lemma RenderMeter(u: Unit)
    requires u == Meter
    ensures Render(u, Display) == "m"
    ensures Render(u, Debug) == "meter"
  {
    TermsOfSeven(u, Display);
    TermsOfSeven(u, Debug);
  }

  lemma RenderMeterPerSecond(u: Unit)
    requires u == MeterPerSecond
    ensures Render(u, Display) == "m/s"
    ensures Render(u, Debug) == "meter/second"
  {
    TermsOfSeven(u, Display);
    TermsOfSeven(u, Debug);
  }

  lemma RenderMeterSquared(u: Unit)
    requires u == MeterSquared
    ensures Render(u, Display) == "#m²"
  {
    TermsOfSeven(u, Display);
    SquareTerms("m");
  }

  lemma RenderKilogram(u: Unit)
    requires u == Kilogram
    ensures Render(u, Display) == "kg"
    ensures Render(u, Debug) == "kilogram"
  {
    TermsOfSeven(u, Display);
    TermsOfSeven(u, Debug);
  }

  /** The inverse of the second prints as 1/s: no numerator term. */
  lemma RenderPerSecond(u: Unit)
    requires u == Second
    ensures Render(Inv(u), Display) == "1/s"
  {
    var v := Inv(u);
    assert v[2] == BaseUnit.Slot(SecondUnit, -1);
    TermsOfSeven(v, Display);
    assert NumeratorTerms(v, Display) == [];
    assert DenominatorTerms(v, Display) == ["s"];
  }

  /** Two terms over two terms: the denominator is joined with '.'. */
  lemma RenderTwoOverTwo(u: Unit)
    requires u == Alias([1, 1, -2, -1, 0, 0, 0])
    ensures Render(u, Display) == "(m⋅kg)/(s².A)"
  {
    TermsOfSeven(u, Display);
    SquareTerms("s");
  }

  /** Two terms over one: the numerator is parenthesised. */
  lemma RenderTwoOverOne(u: Unit)
    requires u == Alias([1, 1, -1, 0, 0, 0, 0])
    ensures Render(u, Display) == "(m⋅kg)/s"
  {
    TermsOfSeven(u, Display);
  }

  /** One term over two: the denominator is parenthesised and joined with '⋅'. */
  lemma RenderOneOverTwo(u: Unit)
    requires u == Alias([1, 0, -1, -1, 0, 0, 0])
    ensures Render(u, Display) == "m/(s⋅A)"
  {
    TermsOfSeven(u, Display);
  }
}
