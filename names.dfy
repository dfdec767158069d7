/** `src/name.rs`: the short and full names of units and prefixes, the two ways of
    printing them, and the Unicode superscript used for exponents. */
module Names {
  import opened Wrappers

  /** A `Name`: its `SHORT` symbol ("m") and its `FULL` spelling ("meter"). */
  datatype Name = Name(short: string, full: string)

  /** `Display` prints the short name, `Debug` the full one. */
  datatype NameMode = Display | Debug

  function Select(n: Name, mode: NameMode): (s: string)
    ensures mode == Display ==> s == n.short
    ensures mode == Debug ==> s == n.full
  {
    match mode
    case Display => n.short
    case Debug => n.full
  }

  // ----- decimal representation (`i32::to_string`) -----

  predicate IsDigit(c: char) {
    '0' <= c <= '9'
  }

  function DigitChar(d: nat): (c: char)
    requires d < 10
    ensures IsDigit(c)
  {
    ('0' as int + d) as char
  }

  function DigitValue(c: char): (d: nat)
    requires IsDigit(c)
    ensures d < 10 && DigitChar(d) == c
  {
    c as int - '0' as int
  }

  /** The decimal digits of n, most significant first, without leading zeros. */
  function Digits(n: nat): (s: string)
    decreases n
    ensures |s| >= 1 && IsDigit(s[0])
    ensures forall i :: 0 <= i < |s| ==> IsDigit(s[i])
  {
    if n < 10 then [DigitChar(n)] else Digits(n / 10) + [DigitChar(n % 10)]
  }

  /** What `to_string` gives for an integer: a '-' before the digits of a negative one. */
  function DecimalString(n: int): string {
    if n < 0 then "-" + Digits(-n) else Digits(n)
  }

  /** The value of a string of decimal digits. */
  function ParseDigits(s: string): nat
    requires forall i :: 0 <= i < |s| ==> IsDigit(s[i])
  {
    if s == [] then 0 else ParseDigits(s[..|s| - 1]) * 10 + DigitValue(s[|s| - 1])
  }

  lemma {:induction false} ParseDigitsOfDigits(n: nat)
    ensures ParseDigits(Digits(n)) == n
    decreases n
  {
    if n >= 10 {
      var s := Digits(n);
      assert s[..|s| - 1] == Digits(n / 10);
      ParseDigitsOfDigits(n / 10);
    }
  }

  /** Reads back what `DecimalString` writes; None for anything else. */
  function ParseDecimal(s: string): Option<int> {
    if |s| >= 2 && s[0] == '-' && forall i :: 1 <= i < |s| ==> IsDigit(s[i]) then
      var magnitude: int := ParseDigits(s[1..]);
      Some(-magnitude)
    else if |s| >= 1 && forall i :: 0 <= i < |s| ==> IsDigit(s[i]) then
      Some(ParseDigits(s))
    else
      None
  }

  /** The decimal string of n holds only digits and a leading '-', and starts
      with '-' exactly when n is negative. */
  lemma DecimalStringAlphabet(n: int)
    ensures var s := DecimalString(n);
      |s| >= 1 && (s[0] == '-' <==> n < 0) &&
      forall i :: 0 <= i < |s| ==> IsDigit(s[i]) || (i == 0 && s[i] == '-')
  {
  }

  lemma {:induction false} DecimalStringRoundTrip(n: int)
    ensures ParseDecimal(DecimalString(n)) == Some(n)
  {
    var s := DecimalString(n);
    if n < 0 {
      var d := Digits(-n);
      assert s == "-" + d && s[1..] == d;
      assert forall i :: 1 <= i < |s| ==> s[i] == d[i - 1];
      ParseDigitsOfDigits(-n);
    } else {
      assert s[0] != '-';
      ParseDigitsOfDigits(n);
    }
  }

  // ----- superscript -----

  /** The byte-to-superscript table of `superscript`; None is the `unreachable!()` arm. */
  function SuperChar(c: char): (r: Option<char>)
    ensures r.Some? <==> IsDigit(c) || c == '-'
  {
    match c
    case '0' => Some('⁰')
    case '1' => Some('¹')
    case '2' => Some('²')
    case '3' => Some('³')
    case '4' => Some('⁴')
    case '5' => Some('⁵')
    case '6' => Some('⁶')
    case '7' => Some('⁷')
    case '8' => Some('⁸')
    case '9' => Some('⁹')
    case '-' => Some('⁻')
    case _ => None
  }

  /** The inverse table, from a superscript back to the plain character. */
  function PlainChar(c: char): Option<char> {
    match c
    case '⁰' => Some('0')
    case '¹' => Some('1')
    case '²' => Some('2')
    case '³' => Some('3')
    case '⁴' => Some('4')
    case '⁵' => Some('5')
    case '⁶' => Some('6')
    case '⁷' => Some('7')
    case '⁸' => Some('8')
    case '⁹' => Some('9')
    case '⁻' => Some('-')
    case _ => None
  }

  /** Every digit and '-' has a superscript, and the table can be read backwards,
      so it is injective on them. */
  lemma SuperCharRoundTrip(c: char)
    requires IsDigit(c) || c == '-'
    ensures SuperChar(c).Some? && PlainChar(SuperChar(c).value) == Some(c)
  {
    assert c == '0' || c == '1' || c == '2' || c == '3' || c == '4' || c == '5'
      || c == '6' || c == '7' || c == '8' || c == '9' || c == '-';
  }

  /** The `unreachable!()` arm is never taken: every character of a decimal
      string has a superscript. */
  lemma {:induction false} SuperscriptNeverUnreachable(n: int)
    ensures forall i :: 0 <= i < |DecimalString(n)| ==> SuperChar(DecimalString(n)[i]).Some?
  {
    DecimalStringAlphabet(n);
    var s := DecimalString(n);
    forall i | 0 <= i < |s|
      ensures SuperChar(s[i]).Some?
    {
      SuperCharRoundTrip(s[i]);
    }
  }

  /** `superscript(n)`: each character of n's decimal string, superscripted. */
  function Superscript(n: int): (r: string)
    ensures |r| == |DecimalString(n)|
    ensures forall i :: 0 <= i < |r| ==> SuperChar(DecimalString(n)[i]) == Some(r[i])
    ensures r[0] == '⁻' <==> n < 0
  {
    SuperscriptNeverUnreachable(n);
    DecimalStringAlphabet(n);
    var s := DecimalString(n);
    seq(|s|, i requires 0 <= i < |s| => SuperChar(s[i]).value)
  }

  /** Reads a superscript back to the integer; None if it is not one. */
  function FromSuperscript(r: string): Option<int> {
    if forall i :: 0 <= i < |r| ==> PlainChar(r[i]).Some? then
      ParseDecimal(seq(|r|, i requires 0 <= i < |r| => PlainChar(r[i]).value))
    else
      None
  }

  /** The integer can be recovered from its superscript. */
  lemma {:induction false} SuperscriptRoundTrip(n: int)
    ensures FromSuperscript(Superscript(n)) == Some(n)
  {
    var s, r := DecimalString(n), Superscript(n);
    DecimalStringAlphabet(n);
    forall i | 0 <= i < |r|
      ensures PlainChar(r[i]) == Some(s[i])
    {
      SuperCharRoundTrip(s[i]);
    }
    assert seq(|r|, i requires 0 <= i < |r| => PlainChar(r[i]).value) == s;
    DecimalStringRoundTrip(n);
  }

  /** Different integers have different superscripts. */
  lemma SuperscriptInjective(a: int, b: int)
    ensures Superscript(a) == Superscript(b) ==> a == b
  {
    SuperscriptRoundTrip(a);
    SuperscriptRoundTrip(b);
  }
}
