/**
 Exact decimals as text (go/decimal.go:72-77, 105-132; go/lang.go:1199-1225): what digits
 renders, exactDecimal reads back.
 */
module DecimalText {
  import opened Scaled
  import opened Decimals
  import opened Numerals

  function Zeros(k: nat): (z: string)
    ensures |z| == k && IsDigits(z)
  {
    if k == 0 then "" else Zeros(k - 1) + "0"
  }

  lemma {:induction false} ReadNought(k: nat)
    ensures ReadDigits(Zeros(k)) == 0
  {
    if 0 < k {
      ReadNought(k - 1);
      ReadPush(Zeros(k - 1), 0);
    }
  }

  /** Leading zeros read as nothing. */
  lemma {:induction false} ReadZeros(k: nat, s: string)
    requires IsDigits(s)
    ensures IsDigits(Zeros(k) + s) && ReadDigits(Zeros(k) + s) == ReadDigits(s)
    decreases |s|
  {
    var z := Zeros(k) + s;
    if s == "" {
      assert z == Zeros(k);
      ReadNought(k);
    } else {
      ReadZeros(k, s[..|s| - 1]);
      assert z[..|z| - 1] == Zeros(k) + s[..|s| - 1];
    }
  }

  function Abs(n: int): nat {
    if n < 0 then -n else n
  }

  // ----- rendering

  /** The digits of a coefficient, padded so one is left before the point. */
  function Padded(d: Decimal): (ds: string)
    requires 1 <= d.scale
    ensures d.scale < |ds| && IsDigits(ds)
  {
    var ds := DigitsOf(Abs(d.coeff));
    if |ds| <= d.scale then Zeros(d.scale - |ds| + 1) + ds else ds
  }

  function IntPart(d: Decimal): (s: string)
    requires 1 <= d.scale
    ensures IsDigits(s) && s != ""
  {
    Padded(d)[..|Padded(d)| - d.scale]
  }

  function Frac(d: Decimal): (s: string)
    requires 1 <= d.scale
    ensures IsDigits(s) && |s| == d.scale
  {
    Padded(d)[|Padded(d)| - d.scale..]
  }

  function Sign(d: Decimal): string {
    if d.coeff < 0 then "-" else ""
  }

  /** digits. */
  function Digits(d: Decimal): string
    requires 1 <= d.scale
  {
    Sign(d) + IntPart(d) + "." + Frac(d)
  }

  // ----- reading

  datatype ReadDecimal = Is(d: Decimal) | OverBudget | BadSyntax

  datatype Exponent = NoExponent | Exponent(e: int)

  /** exactDecimal: digits before and behind the point, and an exponent if one is written. */
  function ExactDecimal(neg: bool, intPart: string, frac: string, exp: Exponent): ReadDecimal
    requires IsDigits(intPart) && IsDigits(frac)
  {
    var scale := |frac| - if exp.Exponent? then exp.e else 0;
    if DECIMAL_MAX_COEFF_DIGITS < |intPart| + |frac| then OverBudget
    else if DECIMAL_MAX_SCALE < Abs(scale) then OverBudget
    else if intPart + frac == "" then BadSyntax
    else
      var coeff: int := ReadDigits(intPart + frac);
      Is(Reduced(if neg then -coeff else coeff, scale))
  }

  /** What a spelling is read as is its value, in normal form; it is refused for more than 4096
      digits or a scale farther than 4096 from zero, and, within those, for having no digit. */
  lemma ExactDecimalIs(neg: bool, intPart: string, frac: string, exp: Exponent)
    requires IsDigits(intPart) && IsDigits(frac)
    ensures var r, scale := ExactDecimal(neg, intPart, frac, exp), |frac| - if exp.Exponent? then exp.e else 0;
            var n: int := ReadDigits(intPart + frac);
            && (r.OverBudget? <==> 4096 < |intPart| + |frac| || scale < -4096 || 4096 < scale)
            && (r.BadSyntax? <==> !r.OverBudget? && intPart == "" && frac == "")
            && (r.Is? ==> Normal(r.d) && ValueOf(r.d) == Rational(if neg then -n else n, scale))
  {
    hide Reduced, Rational, ReadDigits;
    var coeff: int := ReadDigits(intPart + frac);
    var scale := |frac| - if exp.Exponent? then exp.e else 0;
    ReducedIs(if neg then -coeff else coeff, scale);
  }

  /** Where the point is. */
  function Point(s: string): (at: nat)
    ensures at <= |s|
  {
    if s == "" || s[0] == '.' then 0 else 1 + Point(s[1..])
  }

  lemma {:induction false} PointBehind(s: string, rest: string)
    requires IsDigits(s)
    ensures Point(s + "." + rest) == |s|
  {
    var t := s + "." + rest;
    if s == "" {
      assert t[0] == '.';
    } else {
      assert t[0] == s[0] && s[0] in s && t[1..] == s[1..] + "." + rest;
      PointBehind(s[1..], rest);
    }
  }

  /** A rendered decimal cut at its sign and its point, and read. */
  function ReadBack(text: string): ReadDecimal {
    var neg := text != "" && text[0] == '-';
    var body := if neg then text[1..] else text;
    var at := Point(body);
    if at == |body| || !IsDigits(body[..at]) || !IsDigits(body[at + 1..]) then BadSyntax
    else ExactDecimal(neg, body[..at], body[at + 1..], NoExponent)
  }

  /** A rendered decimal's text gives its sign, its whole part and its places. */
  lemma Parts(d: Decimal)
    requires 1 <= d.scale
    ensures Digits(d) != "" && (Digits(d)[0] == '-' <==> d.coeff < 0)
    ensures (if d.coeff < 0 then Digits(d)[1..] else Digits(d)) == IntPart(d) + "." + Frac(d)
    ensures Point(IntPart(d) + "." + Frac(d)) == |IntPart(d)|
  {
    hide IntPart, Frac;
    var i, f := IntPart(d), Frac(d);
    assert i[0] != '-';
    PointBehind(i, f);
    assert d.coeff < 0 ==> Digits(d)[1..] == i + "." + f;
    assert d.coeff >= 0 ==> Digits(d) == i + "." + f;
  }

  lemma CutAt(i: string, f: string)
    ensures var body := i + "." + f; body[..|i|] == i && body[|i| + 1..] == f
  {
  }

  /** The pieces a rendered decimal is cut into are the ones it was put together from. */
  lemma CutIsWhole(d: Decimal)
    requires 1 <= d.scale
    ensures ReadBack(Digits(d)) == ExactDecimal(d.coeff < 0, IntPart(d), Frac(d), NoExponent)
  {
    hide IntPart, Frac, ExactDecimal, Digits;
    Parts(d);
    CutAt(IntPart(d), Frac(d));
  }

  lemma PaddedReads(d: Decimal)
    requires 1 <= d.scale
    ensures ReadDigits(IntPart(d) + Frac(d)) == Abs(d.coeff) && |IntPart(d)| + |Frac(d)| == |Padded(d)| && |Frac(d)| == d.scale
  {
    var ds := DigitsOf(Abs(d.coeff));
    assert IntPart(d) + Frac(d) == Padded(d);
    ReadOf(Abs(d.coeff));
    if |ds| <= d.scale { ReadZeros(d.scale - |ds| + 1, ds); }
  }

  /** A normal form is its own. */
  lemma NormalReduced(d: Decimal)
    requires Normal(d)
    ensures Reduced(d.coeff, d.scale) == d
  {
    hide Reduced, ValueOf;
    ReducedIs(d.coeff, d.scale);
    NormalUnique(Reduced(d.coeff, d.scale), d) by { assert ValueOf(Reduced(d.coeff, d.scale)) == Rational(d.coeff, d.scale); }
    ValueIs(d);
  }

  lemma ValueIs(d: Decimal)
    ensures ValueOf(d) == Rational(d.coeff, d.scale)
  {
  }

  /** What digits renders is read back as the same decimal, and refused only over the budget. */
  lemma DigitsReadBack(d: Decimal)
    requires Normal(d)
    ensures ReadBack(Digits(d)) == if |IntPart(d)| + |Frac(d)| <= DECIMAL_MAX_COEFF_DIGITS then Is(d) else OverBudget
  {
    hide ReadBack, Digits, IntPart, Frac, Padded, Reduced, ReadDigits, IsDigits;
    CutIsWhole(d);
    PaddedReads(d);
    NormalReduced(d);
  }

  /** overBudget. */
  predicate OverDecimalBudget(d: Decimal) {
    DECIMAL_MAX_SCALE < d.scale || d.scale < -(DECIMAL_MAX_SCALE as int) || DECIMAL_MAX_COEFF_DIGITS < |DigitsOf(Abs(d.coeff))|
  }

  /** Over the budget by a scale farther than 4096 from zero or by more than 4096 digits. */
  lemma OverBudgetIff(d: Decimal)
    ensures OverDecimalBudget(d) <==> d.scale < -4096 || 4096 < d.scale || 4096 < |DigitsOf(if d.coeff < 0 then -d.coeff else d.coeff)|
  {
    hide DigitsOf;
  }

  /** A decimal within the budget renders as one that is read back, save at the last scale: the
      zero padded in front of its point is a digit too many. */
  lemma BudgetReadBack(d: Decimal)
    requires Normal(d) && !OverDecimalBudget(d)
    ensures ReadBack(Digits(d)) == Is(d) <==> d.scale < DECIMAL_MAX_SCALE
  {
    hide ReadBack, Digits, IntPart, Frac, ReadDigits;
    DigitsReadBack(d);
    PaddedReads(d);
  }

  /** ... and there is such a decimal: 10^-4096. */
  lemma LastScaleRefused()
    ensures var d := Decimal(1, DECIMAL_MAX_SCALE); Normal(d) && !OverDecimalBudget(d) && ReadBack(Digits(d)) == OverBudget
  {
    hide ReadBack, Digits, IntPart, Frac, ReadDigits;
    var d := Decimal(1, DECIMAL_MAX_SCALE);
    DigitsReadBack(d);
    PaddedReads(d);
  }

  /** Two decimals render alike only when they are one. */
  lemma DigitsTell(a: Decimal, b: Decimal)
    requires Normal(a) && Normal(b) && Digits(a) == Digits(b)
    ensures a == b
  {
    hide IntPart, Frac, ReadDigits, Digits;
    Parts(a);
    Parts(b);
    CutAt(IntPart(a), Frac(a));
    CutAt(IntPart(b), Frac(b));
    PaddedReads(a);
    PaddedReads(b);
  }
}
