/** JavaScript numbers as the seed script meets them: `parseFloat`,
    `Math.round` and `String(n)` of an integer. A number is NaN, one of the
    two infinities, or an exact real; IEEE-754 rounding is not modelled. */
module JsNumbers {

  import opened Text

  datatype JsNumber = NaN | PosInf | NegInf | Finite(value: real)

  /** `m * 10^e`, for any integer exponent. */
  function Scaled(m: nat, e: int): (r: real)
    ensures r >= 0.0
    decreases if e >= 0 then e else -e
  {
    if e == 0 then m as real
    else if e > 0 then 10.0 * Scaled(m, e - 1)
    else Scaled(m, e + 1) / 10.0
  }

  /** Scaling down by `k` decimal places undoes multiplying by `10^k`. */
  lemma {:induction false} ScaledNegative(m: nat, k: nat)
    ensures Scaled(m, -(k as int)) * (Pow10(k) as real) == m as real
    decreases k
  {
    if k > 0 {
      ScaledNegative(m, k - 1);
      assert Scaled(m, -(k as int)) == Scaled(m, -((k - 1) as int)) / 10.0;
    }
  }

  /** The longest run of digits at the start of `s`. */
  function LeadingDigits(s: string): (r: string)
    ensures r <= s && AllDigits(r)
    ensures |r| < |s| ==> !IsDigit(s[|r|])
    decreases |s|
  {
    if |s| > 0 && IsDigit(s[0]) then [s[0]] + LeadingDigits(s[1..]) else ""
  }

  /** A run of digits followed by something that does not continue it. */
  lemma {:induction false} LeadingDigitsOf(ds: string, tail: string)
    requires AllDigits(ds)
    requires |tail| > 0 ==> !IsDigit(tail[0])
    ensures LeadingDigits(ds + tail) == ds
    decreases |ds|
  {
    if |ds| > 0 {
      assert (ds + tail)[1..] == ds[1..] + tail;
      LeadingDigitsOf(ds[1..], tail);
    } else {
      assert ds + tail == tail;
    }
  }

  predicate IsSign(c: char)
  {
    c == '+' || c == '-'
  }

  /** The text after an optional sign. */
  function Unsigned(t: string): string
  {
    if |t| > 0 && IsSign(t[0]) then t[1..] else t
  }

  predicate NegativeSign(t: string)
  {
    |t| > 0 && t[0] == '-'
  }

  /** After white space and a sign, `s` starts like a StrDecimalLiteral of
      ECMA-262 (section 19.2.4, `parseFloat`): `Infinity`, a digit, or a
      point followed by a digit. */
  predicate HasNumericPrefix(s: string)
  {
    var u := Unsigned(TrimStart(s));
    || StartsWith(u, "Infinity")
    || (|u| > 0 && IsDigit(u[0]))
    || (|u| > 1 && u[0] == '.' && IsDigit(u[1]))
  }

  /** The exponent an ExponentPart at the start of `s` denotes; 0 when there
      is none (an `e` without digits is not part of the number). */
  function ExponentOf(s: string): int
  {
    if |s| > 0 && (s[0] == 'e' || s[0] == 'E') then
      var t := s[1..];
      var digits := LeadingDigits(Unsigned(t));
      var magnitude: int := if |digits| == 0 then 0 else DecimalValue(digits);
      if NegativeSign(t) then -magnitude else magnitude
    else 0
  }

  /** The fraction digits after a leading point, if any. */
  function FractionDigits(rest: string): (r: string)
    ensures AllDigits(r)
  {
    if |rest| > 0 && rest[0] == '.' then LeadingDigits(rest[1..]) else ""
  }

  /** What follows the fraction digits of `rest`, the text after the
      integer digits. */
  function AfterFraction(rest: string): string
  {
    if |rest| > 0 && rest[0] == '.' then rest[1 + |FractionDigits(rest)|..] else rest
  }

  /** The pieces of a StrUnsignedDecimalLiteral: integer digits, fraction
      digits and the exponent. */
  datatype Literal = Literal(intPart: string, fracPart: string, exponent: int)
  {
    predicate Empty()
    {
      |intPart| + |fracPart| == 0
    }
  }

  /** The longest literal at the start of `u`. */
  function ReadLiteral(u: string): (l: Literal)
    ensures AllDigits(l.intPart) && AllDigits(l.fracPart)
    ensures l.intPart <= u
  {
    var intPart := LeadingDigits(u);
    var rest := u[|intPart|..];
    Literal(intPart, FractionDigits(rest), ExponentOf(AfterFraction(rest)))
  }

  /** The value of a literal: its digits read as one integer, scaled by the
      exponent less the number of fraction digits. */
  function LiteralValue(l: Literal): (r: real)
    requires AllDigits(l.intPart) && AllDigits(l.fracPart)
    ensures r >= 0.0
  {
    AllDigitsAppend(l.intPart, l.fracPart);
    Scaled(DecimalValue(l.intPart + l.fracPart), l.exponent - |l.fracPart|)
  }

  /** `parseFloat` of the text after white space and sign. */
  function ParseUnsigned(u: string): (r: JsNumber)
    ensures r.NegInf? == false
    ensures r.PosInf? <==> StartsWith(u, "Infinity")
    ensures r.Finite? ==> r.value >= 0.0
  {
    if StartsWith(u, "Infinity") then PosInf
    else
      var l := ReadLiteral(u);
      if l.Empty() then NaN else Finite(LiteralValue(l))
  }

  /** Unary minus. */
  function Negate(x: JsNumber): JsNumber
  {
    match x
    case NaN => NaN
    case PosInf => NegInf
    case NegInf => PosInf
    case Finite(v) => Finite(-v)
  }

  /** `parseFloat(s)`: the longest prefix of `s`, after leading white space,
      that is a decimal literal; NaN when there is none. */
  function ParseFloat(s: string): (r: JsNumber)
    ensures r.NaN? <==> !HasNumericPrefix(s)
    ensures r.PosInf? || r.NegInf? <==> StartsWith(Unsigned(TrimStart(s)), "Infinity")
    ensures r.NegInf? ==> NegativeSign(TrimStart(s))
    ensures r.Finite? && r.value < 0.0 ==> NegativeSign(TrimStart(s))
  {
    var t := TrimStart(s);
    var magnitude := ParseUnsigned(Unsigned(t));
    if NegativeSign(t) then Negate(magnitude) else magnitude
  }

  /** The value of `ds` and `f` written one after the other. */
  lemma {:induction false} DecimalConcat(ds: string, f: string)
    requires AllDigits(ds) && AllDigits(f)
    ensures AllDigits(ds + f)
    ensures DecimalValue(ds + f) == DecimalValue(ds) * Pow10(|f|) + DecimalValue(f)
    decreases |f|
  {
    if |f| > 0 {
      var g := f[..|f| - 1];
      assert (ds + f)[..|ds + f| - 1] == ds + g;
      DecimalConcat(ds, g);
      var x, p, y, d := DecimalValue(ds), Pow10(|g|), DecimalValue(g), DigitValue(f[|f| - 1]);
      assert DecimalValue(ds + f) == DecimalValue(ds + g) * 10 + d;
      assert DecimalValue(f) == y * 10 + d;
      assert Pow10(|f|) == p * 10;
      ShiftDigit(x, p, y, d);
    } else {
      assert ds + f == ds;
    }
  }

  /** Appending a digit to `x * p + y` shifts both parts. */
  lemma ShiftDigit(x: int, p: int, y: int, d: int)
    ensures (x * p + y) * 10 + d == x * (p * 10) + (y * 10 + d)
  {
  }

  /** `parseFloat` reads back a written natural number. */
  lemma ParseFloatDecimal(n: nat)
    ensures ParseFloat(ToDecimal(n)) == Finite(n as real)
  {
    var s := ToDecimal(n);
    TrimStartNoOp(s);
    LeadingDigitsOf(s, "");
    assert s + "" == s;
    assert !StartsWith(s, "Infinity");
  }

  /** A string starting with a digit loses nothing to `trimStart`. */
  lemma TrimStartNoOp(s: string)
    requires |s| > 0 && IsDigit(s[0])
    ensures TrimStart(s) == s
  {
    assert !IsJsWhitespace(s[0]);
  }

  /** `parseFloat` of `a.f` followed by text that cannot continue the
      number reads exactly the literal `a.f`: the rest of the text is
      ignored. */
  lemma ParseFloatPointPrefix(a: string, f: string, tail: string)
    requires |a| > 0 && AllDigits(a) && AllDigits(f)
    requires |tail| > 0 ==> !IsDigit(tail[0]) && tail[0] != 'e' && tail[0] != 'E'
    ensures ParseFloat(a + "." + f + tail) == Finite(LiteralValue(Literal(a, f, 0)))
  {
    var s := a + "." + f + tail;
    assert s[0] == a[0];
    ParseFloatOfDigit(s);
    NotInfinity(s);
    PointLiteral(a, f, tail);
  }

  /** `a.f` is the number that `10^|f|` times is the integer `af`. */
  lemma PointValue(a: string, f: string)
    requires AllDigits(a) && AllDigits(f)
    ensures AllDigits(a + f)
    ensures LiteralValue(Literal(a, f, 0)) * (Pow10(|f|) as real) == DecimalValue(a + f) as real
  {
    AllDigitsAppend(a, f);
    var m := DecimalValue(a + f);
    ScaledNegative(m, |f|);
    assert 0 - |f| == -(|f| as int);
  }

  /** The literal at the start of `a.f` followed by `tail` is `a.f`. */
  lemma PointLiteral(a: string, f: string, tail: string)
    requires |a| > 0 && AllDigits(a) && AllDigits(f)
    requires |tail| > 0 ==> !IsDigit(tail[0]) && tail[0] != 'e' && tail[0] != 'E'
    ensures ReadLiteral(a + "." + f + tail) == Literal(a, f, 0)
  {
    var s := a + "." + f + tail;
    PointSplit(a, f, tail);
    var rest := s[|a|..];
    assert rest == "." + f + tail;
    assert AfterFraction(rest) == tail by {
      assert rest[1 + |f|..] == tail;
    }
    assert ExponentOf(tail) == 0;
  }

  /** Text that starts with a digit does not start with `Infinity`. */
  lemma NotInfinity(s: string)
    requires |s| > 0 && IsDigit(s[0])
    ensures !StartsWith(s, "Infinity")
  {
    assert "Infinity"[0] == 'I';
  }

  /** Text that starts with a digit has no white space or sign to skip. */
  lemma ParseFloatOfDigit(s: string)
    requires |s| > 0 && IsDigit(s[0])
    ensures ParseFloat(s) == ParseUnsigned(s)
  {
    TrimStartNoOp(s);
  }

  /** The integer digits of `a.f…` are `a` and its fraction digits are `f`. */
  lemma PointSplit(a: string, f: string, tail: string)
    requires |a| > 0 && AllDigits(a) && AllDigits(f)
    requires |tail| > 0 ==> !IsDigit(tail[0])
    ensures var s := a + "." + f + tail;
      LeadingDigits(s) == a && s[|a|..] == "." + f + tail && FractionDigits(s[|a|..]) == f
  {
    var s := a + "." + f + tail;
    assert s == a + ("." + f + tail);
    LeadingDigitsOf(a, "." + f + tail);
    var rest := s[|a|..];
    assert rest == "." + f + tail;
    assert rest[1..] == f + tail;
    LeadingDigitsOf(f, tail);
  }

  /** `Math.round`: the nearest integer, halves rounded up. */
  function Round(x: JsNumber): (r: JsNumber)
    ensures r.Finite? <==> x.Finite?
    ensures x.Finite? ==> r.value.Floor as real == r.value
                          && x.value - 0.5 < r.value <= x.value + 0.5
    ensures !x.Finite? ==> r == x
  {
    match x
    case Finite(v) => Finite((v + 0.5).Floor as real)
    case _ => x
  }

  /** `String(n)` for an integer that JavaScript writes without exponent. */
  function IntegerText(n: int): (r: string)
    ensures |r| > 0
    ensures n >= 0 ==> AllDigits(r) && DecimalValue(r) == n
    ensures n < 0 ==> r[0] == '-' && AllDigits(r[1..]) && DecimalValue(r[1..]) == -n
    ensures n >= 0 && |r| > 1 ==> r[0] != '0'
    ensures n < 0 ==> |r| > 1 && r[1] != '0'
  {
    if n >= 0 then ToDecimal(n) else "-" + ToDecimal(-n)
  }

  /** `String(x)` for an integral or non-finite number. */
  function IntegralText(x: JsNumber): (r: string)
    requires x.Finite? ==> x.value.Floor as real == x.value
  {
    match x
    case NaN => "NaN"
    case PosInf => "Infinity"
    case NegInf => "-Infinity"
    case Finite(v) => IntegerText(v.Floor)
  }
}
