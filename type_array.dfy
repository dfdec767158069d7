/** `src/util.rs`: the macros that turn a per-slot operation into an operation on
    a whole "type array" (a fixed-length list of slots). A binary operation
    combines the slots at the same position; it is defined only when every
    slot's operation is. A unary operation maps every slot. */
module TypeArray {
  import opened Wrappers
  import BaseUnit

  /** `impl_binary_op_for_type_array`: slot i of the result is op(l[i], r[i]). */
  function LiftBinary<T>(op: (T, T) -> Option<T>, l: seq<T>, r: seq<T>): (res: Option<seq<T>>)
    requires |l| == |r|
    ensures res.Some? <==> forall i :: 0 <= i < |l| ==> op(l[i], r[i]).Some?
    ensures res.Some? ==> |res.value| == |l| && forall i :: 0 <= i < |l| ==> res.value[i] == op(l[i], r[i]).value
  {
    if |l| == 0 then Some([])
    else
      var front := LiftBinary(op, l[..|l| - 1], r[..|r| - 1]);
      var last := op(l[|l| - 1], r[|r| - 1]);
      if front.None? || last.None? then None else Some(front.value + [last.value])
  }

  /** `impl_unary_op_for_type_array`: slot i of the result is op(s[i]). */
  function LiftUnary<T>(op: T -> T, s: seq<T>): (res: seq<T>)
    ensures |res| == |s| && forall i :: 0 <= i < |s| ==> res[i] == op(s[i])
  {
    if |s| == 0 then [] else LiftUnary(op, s[..|s| - 1]) + [op(s[|s| - 1])]
  }

  /** `count_idents!`: the length of a list with one `()` per identifier. */
  function CountIdents<T>(idents: seq<T>): (n: nat)
    ensures n == |idents|
  {
    |seq(|idents|, _ => ())|
  }

  /** The test: four identifiers count as 4. */
  lemma CountIdentsOfFour()
    ensures CountIdents(["A", "B", "C", "D"]) == 4
  {
  }

  /** `type_array!`'s defaults: each slot parameter defaults to (its default
      unit, exponent 0). */
  function Defaults(units: seq<BaseUnit.BaseUnitId>): (d: seq<BaseUnit.Slot>)
    ensures |d| == |units|
    ensures forall i :: 0 <= i < |units| ==> d[i] == BaseUnit.Slot(units[i], 0)
  {
    seq(|units|, i requires 0 <= i < |units| => BaseUnit.Slot(units[i], 0))
  }

  /** Multiplying by an all-default array changes nothing: a zero slot on the
      right leaves the left slot as it is. */
  lemma {:induction false} MulByDefaultsIsIdentity(s: seq<BaseUnit.Slot>, units: seq<BaseUnit.BaseUnitId>)
    requires |s| == |units|
    ensures LiftBinary(BaseUnit.Mul, s, Defaults(units)) == Some(s)
  {
    var d := Defaults(units);
    var res := LiftBinary(BaseUnit.Mul, s, d);
    assert forall i :: 0 <= i < |s| ==> BaseUnit.Mul(s[i], d[i]) == Some(s[i]);
    assert res.value == s;
  }
}
