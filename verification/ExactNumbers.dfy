/**
 JSON numbers read by their value (go/exactnum.go:31-103): two spellings of one value get one
 leaf and one text.
 */
module ExactNumbers {
  import opened Scaled
  import opened Decimals
  import opened Numerals
  import opened DecimalText

  /** A JSON number in its parts: a sign, digits, digits behind a point and an exponent. */
  datatype Spelling = Spelling(neg: bool, whole: string, frac: string, exp: Exponent)

  predicate GoodSpelling(s: Spelling) {
    s.whole != "" && IsDigits(s.whole) && IsDigits(s.frac) && IsDigits(s.whole + s.frac)
  }

  function Unscaled(s: Spelling): nat
    requires GoodSpelling(s)
  {
    ReadDigits(s.whole + s.frac)
  }

  function ScaleOf(s: Spelling): int {
    |s.frac| - if s.exp.Exponent? then s.exp.e else 0
  }

  function Signed(neg: bool, n: int): int {
    if neg then -n else n
  }

  /** The number a spelling writes. */
  function Spelled(s: Spelling): real
    requires GoodSpelling(s)
  {
    Rational(Signed(s.neg, Unscaled(s)), ScaleOf(s))
  }

  datatype Exact = IntegerLeaf(i: int) | BigInteger(n: int) | BigDecimal(d: Decimal) | Refused

  const EXACT_BUDGET: nat := 4096

  // ----- the integer leaf

  function Pow2(n: nat): (p: int)
    ensures 1 <= p
  {
    if n == 0 then 1 else 2 * Pow2(n - 1)
  }

  /** n without its factors of two. */
  function Odd(n: nat): nat {
    if n == 0 then 0 else if n % 2 == 0 then Odd(n / 2) else n
  }

  /** isExactInBinary64, for the magnitudes a double reaches. */
  predicate ExactInBinary64(n: int) {
    Odd(Abs(n)) < 0x20_0000_0000_0000
  }

  /** n as a significand of 53 bits and a power of two. */
  ghost predicate Significand(n: nat, m: nat, k: nat) {
    n == m * Pow2(k) && m < 0x20_0000_0000_0000
  }

  lemma {:induction false} OddIs(n: nat)
    ensures exists k: nat :: n == Odd(n) * Pow2(k)
  {
    if n != 0 && n % 2 == 0 {
      OddIs(n / 2);
      var k: nat :| n / 2 == Odd(n / 2) * Pow2(k);
      var o := Odd(n / 2);
      assert o == Odd(n) && Pow2(k + 1) == 2 * Pow2(k);
      Twice(o, Pow2(k));
      assert n == Odd(n) * Pow2(k + 1);
    } else {
      assert n == Odd(n) * Pow2(0);
    }
  }

  lemma Twice(o: int, p: int)
    ensures o * (2 * p) == 2 * (o * p)
  {
  }

  lemma {:induction false} OddLeast(m: nat, k: nat)
    ensures Odd(m * Pow2(k)) <= m
    decreases k, m
  {
    if k == 0 {
      if m != 0 && m % 2 == 0 {
        OddHalf(m);
        assert Odd(m * 1) <= m;
      }
    } else {
      var n := m * Pow2(k - 1);
      assert m * Pow2(k) == 2 * n by { assert Pow2(k) == 2 * Pow2(k - 1); }
      OddLeast(m, k - 1);
      assert Odd(2 * n) == Odd(n);
    }
  }

  lemma {:induction false} OddHalf(n: nat)
    ensures Odd(n) <= n
  {
    if n != 0 && n % 2 == 0 { OddHalf(n / 2); }
  }

  /** A magnitude is exact where 53 significant bits hold it. */
  lemma ExactIs(n: nat)
    ensures ExactInBinary64(n) <==> exists m: nat, k: nat :: Significand(n, m, k)
  {
    if ExactInBinary64(n) {
      OddIs(n);
      var k: nat :| n == Odd(n) * Pow2(k);
      assert Significand(n, Odd(n), k);
    }
    if exists m: nat, k: nat :: Significand(n, m, k) {
      var m: nat, k: nat :| Significand(n, m, k);
      OddLeast(m, k);
    }
  }

  /** inIntegerLeaf: by magnitude. */
  predicate InIntegerLeaf(n: int) {
    Abs(n) < 0x8000_0000_0000_0000 && ExactInBinary64(Abs(n))
  }

  /** isIntegerStorable: in 64 bits, and exact. */
  predicate IsIntegerStorable(n: int) {
    -0x8000_0000_0000_0000 <= n < 0x8000_0000_0000_0000 && ExactInBinary64(n)
  }

  /** The two differ at one number, -2^63. */
  lemma LeafIsStorable(n: int)
    ensures InIntegerLeaf(n) <==> IsIntegerStorable(n) && n != -0x8000_0000_0000_0000
    ensures IsIntegerStorable(-0x8000_0000_0000_0000)
  {
    OddOfPower(63);
    assert Pow2(63) == 0x8000_0000_0000_0000 by { Pow63(); }
  }

  lemma {:induction false} OddOfPower(k: nat)
    ensures Odd(Pow2(k)) == 1
  {
    if 0 < k { OddOfPower(k - 1); }
  }

  lemma Pow63()
    ensures Pow2(63) == 0x8000_0000_0000_0000
  {
    hide Pow2;
    Pow16();
    PowTwice(16, 16);
    PowTwice(32, 16);
    PowTwice(48, 15);
  }

  lemma Pow16()
    ensures Pow2(15) == 32768 && Pow2(16) == 65536
  {
    hide Pow2;
    Pow4();
    PowTwice(4, 4);
    PowTwice(8, 4);
    PowTwice(12, 3);
    PowTwice(12, 4);
  }

  lemma Pow4()
    ensures Pow2(3) == 8 && Pow2(4) == 16
  {
    assert Pow2(1) == 2;
  }

  lemma {:induction false} PowTwice(a: nat, b: nat)
    ensures Pow2(a + b) == Pow2(a) * Pow2(b)
  {
    if a != 0 {
      PowTwice(a - 1, b);
      assert Pow2(a + b) == 2 * (Pow2(a - 1) * Pow2(b)) == (2 * Pow2(a - 1)) * Pow2(b);
    }
  }

  // ----- reading

  function LeafOf(n: int): Exact {
    if InIntegerLeaf(n) then IntegerLeaf(n) else BigInteger(n)
  }

  /** The leaf of a stripped number. */
  function Placed(neg: bool, d: Decimal): Exact {
    if d.scale <= 0 then
      if EXACT_BUDGET < -d.scale then Refused else LeafOf(Signed(neg, d.coeff * Pow10(-d.scale)))
    else if EXACT_BUDGET < d.scale || EXACT_BUDGET < |DigitsOf(Abs(d.coeff))| then Refused
    else BigDecimal(Reduced(Signed(neg, d.coeff), d.scale))
  }

  function ExactOf(s: Spelling): Exact
    requires GoodSpelling(s)
  {
    if Unscaled(s) == 0 then IntegerLeaf(0) else Placed(s.neg, Strip(Unscaled(s), ScaleOf(s), 0))
  }

  /** readExactNumber. */
  method ReadExactNumber(s: Spelling) returns (e: Exact)
    requires GoodSpelling(s)
    ensures e == ExactOf(s) && (e.Refused? || (WellPlaced(e) && ExactValue(e) == Spelled(s)))
  {
    hide Strip, Pow10, Reduced, DigitsOf, InIntegerLeaf, TruncQuo, TruncRem, WellPlaced, ExactValue, Rational, ReadDigits;
    ExactKeeps(s);
    var unscaled: int, scale := ReadDigits(s.whole + s.frac), ScaleOf(s);
    if unscaled == 0 { return IntegerLeaf(0); }
    while 0 < scale
      invariant Strip(unscaled, scale, 0) == Strip(Unscaled(s), ScaleOf(s), 0)
      decreases scale
    {
      StripStep(unscaled, scale);
      var q, r := TruncQuo(unscaled, 10), TruncRem(unscaled, 10);
      if r != 0 { break; }
      unscaled, scale := q, scale - 1;
    }
    StripStep(unscaled, scale);
    if scale <= 0 {
      var up := -scale;
      if EXACT_BUDGET < up { return Refused; }
      var whole := unscaled * Pow10(up);
      if s.neg { whole := -whole; }
      return if InIntegerLeaf(whole) then IntegerLeaf(whole) else BigInteger(whole);
    }
    if EXACT_BUDGET < scale || EXACT_BUDGET < |DigitsOf(Abs(unscaled))| { return Refused; }
    if s.neg { unscaled := -unscaled; }
    var d := NewDecimal(unscaled, scale);
    return BigDecimal(d);
  }

  lemma StripStep(c: int, scale: int)
    ensures Strip(c, scale, 0) == if 0 < scale && TruncRem(c, 10) == 0 then Strip(TruncQuo(c, 10), scale - 1, 0) else Decimal(c, scale)
  {
  }

  // ----- one leaf per value

  /** In the integer leaf what it holds exactly, in biginteger the other whole numbers, in
      bigdecimal the rest, in normal form. */
  predicate WellPlaced(e: Exact) {
    match e
    case IntegerLeaf(i) => InIntegerLeaf(i)
    case BigInteger(n) => !InIntegerLeaf(n)
    case BigDecimal(d) => Normal(d) && !Whole(ValueOf(d))
    case Refused => false
  }

  function ExactValue(e: Exact): real {
    match e
    case IntegerLeaf(i) => i as real
    case BigInteger(n) => n as real
    case BigDecimal(d) => ValueOf(d)
    case Refused => 0.0
  }

  lemma NotWhole(c: int, scale: int)
    requires 0 < scale && c % 10 != 0
    ensures !Whole(Rational(c, scale))
  {
    hide Value;
    FloorIs(Scaled(c, scale));
    var p := Pow10(scale);
    if c % p == 0 {
      PowTen(scale);
      assert c == (c / p) * p;
      TimesTen(c / p, p);
    }
  }

  lemma SignedRational(neg: bool, c: int, scale: int)
    ensures Rational(Signed(neg, c), scale) == if neg then -Rational(c, scale) else Rational(c, scale)
  {
    if 0 <= scale {
      var p := Pow10(scale) as real;
      DivTimes(c as real, p);
      DivIs((-c) as real, p, -Rational(c, scale));
    } else {
      var p := Pow10(-scale);
      assert (-c) * p == -(c * p);
    }
  }

  lemma SignedRem(neg: bool, c: int)
    ensures Signed(neg, c) % 10 == 0 <==> c % 10 == 0
  {
  }

  lemma WholePlaced(c: int, scale: int)
    requires scale <= 0
    ensures Rational(c, scale) == (c * Pow10(-scale)) as real
  {
    if scale == 0 {
      WholeRational(c);
      PowNone();
    }
  }

  /** What is not refused is placed by its value, and keeps it. */
  lemma PlacedKeeps(neg: bool, d: Decimal)
    requires d.coeff != 0 && (0 < d.scale ==> d.coeff % 10 != 0) && !Placed(neg, d).Refused?
    ensures WellPlaced(Placed(neg, d)) && ExactValue(Placed(neg, d)) == Rational(Signed(neg, d.coeff), d.scale)
  {
    hide Pow10, Reduced, DigitsOf, InIntegerLeaf, Rational, Whole;
    var c := Signed(neg, d.coeff);
    if d.scale <= 0 {
      WholePlaced(c, d.scale);
      assert Signed(neg, d.coeff * Pow10(-d.scale)) == c * Pow10(-d.scale) by { SignedTimes(neg, d.coeff, Pow10(-d.scale)); }
    } else {
      SignedRem(neg, d.coeff);
      NotWhole(c, d.scale);
      ReducedIs(c, d.scale);
    }
  }

  lemma SignedTimes(neg: bool, c: int, p: int)
    ensures Signed(neg, c * p) == Signed(neg, c) * p
  {
  }

  lemma NoughtPlaced(scale: int)
    ensures Rational(0, scale) == 0.0 && WellPlaced(IntegerLeaf(0))
  {
    if 0 <= scale { ZeroValue(scale); }
  }

  lemma ExactKeeps(s: Spelling)
    requires GoodSpelling(s)
    ensures ExactOf(s).Refused? || (WellPlaced(ExactOf(s)) && ExactValue(ExactOf(s)) == Spelled(s))
  {
    hide Strip, Placed, Rational, Pow10, WellPlaced, ReadDigits;
    var u, scale := Unscaled(s), ScaleOf(s);
    if u == 0 {
      NoughtPlaced(scale);
    } else {
      var d := Strip(u, scale, 0);
      StripKeeps(u, scale, 0);
      if !Placed(s.neg, d).Refused? {
        PlacedKeeps(s.neg, d);
        SignedRational(s.neg, d.coeff, d.scale);
        SignedRational(s.neg, u, scale);
      }
    }
  }

  /** A value has one place. */
  lemma PlaceUnique(a: Exact, b: Exact)
    requires WellPlaced(a) && WellPlaced(b) && ExactValue(a) == ExactValue(b)
    ensures a == b
  {
    hide InIntegerLeaf, ValueOf, Normal;
    if a.BigDecimal? && b.BigDecimal? { NormalUnique(a.d, b.d); }
  }

  /** Two spellings of one value, neither refused, are one number in one leaf, with one text. */
  lemma OneLeafPerValue(s: Spelling, t: Spelling)
    requires GoodSpelling(s) && GoodSpelling(t) && !ExactOf(s).Refused? && !ExactOf(t).Refused?
    ensures ExactOf(s) == ExactOf(t) <==> Spelled(s) == Spelled(t)
    ensures ExactText(ExactOf(s)) == ExactText(ExactOf(t)) <==> Spelled(s) == Spelled(t)
  {
    hide ExactOf, Spelled, WellPlaced, ExactValue, ExactText;
    ExactKeeps(s);
    ExactKeeps(t);
    if Spelled(s) == Spelled(t) { PlaceUnique(ExactOf(s), ExactOf(t)); }
    if ExactText(ExactOf(s)) == ExactText(ExactOf(t)) { TextTells(ExactOf(s), ExactOf(t)); }
  }

  // ----- text

  function SignOf(n: int): string {
    if n < 0 then "-" else ""
  }

  function WholeText(n: int): string {
    SignOf(n) + DigitsOf(Abs(n))
  }

  /** markExact: a minus, if any, and then the marker. */
  function MarkExact(digits: string): string {
    if digits != "" && digits[0] == '-' then "-0d" + digits[1..] else "0d" + digits
  }

  /** exactNumberText; a refused number has none. */
  function ExactText(e: Exact): string {
    match e
    case IntegerLeaf(i) => WholeText(i)
    case BigInteger(n) => MarkExact(WholeText(n))
    case BigDecimal(d) => if 1 <= d.scale then MarkExact(Digits(d)) else ""
    case Refused => ""
  }

  function Unmark(text: string): string {
    if text != "" && text[0] == '-' then (if 3 <= |text| then "-" + text[3..] else "") else if 2 <= |text| then text[2..] else ""
  }

  lemma MarkBack(digits: string)
    requires digits != ""
    ensures Unmark(MarkExact(digits)) == digits
  {
  }

  lemma WholeTells(a: int, b: int)
    requires WholeText(a) == WholeText(b)
    ensures a == b
  {
    hide DigitsOf, ReadDigits;
    ReadOf(Abs(a));
    ReadOf(Abs(b));
    FirstDigit(a);
    FirstDigit(b);
    assert a < 0 ==> WholeText(a)[1..] == DigitsOf(Abs(a));
    assert b < 0 ==> WholeText(b)[1..] == DigitsOf(Abs(b));
    assert a >= 0 ==> WholeText(a) == DigitsOf(Abs(a));
    assert b >= 0 ==> WholeText(b) == DigitsOf(Abs(b));
  }

  lemma FirstDigit(n: int)
    ensures WholeText(n) != "" && (WholeText(n)[0] == '-' <==> n < 0)
  {
    assert DigitsOf(Abs(n))[0] != '-';
  }

  /** Text with a point is no whole number's. */
  lemma NoPoint(n: int)
    ensures '.' !in WholeText(n)
  {
    assert forall c :: c in DigitsOf(Abs(n)) ==> '0' <= c;
  }

  lemma HasPoint(d: Decimal)
    requires 1 <= d.scale
    ensures '.' in Digits(d) && Digits(d) != ""
  {
    hide IntPart, Frac;
    assert Digits(d)[|DecimalText.Sign(d) + IntPart(d)|] == '.';
  }

  lemma NoMarker(n: int)
    ensures 'd' !in WholeText(n)
  {
    assert forall c :: c in DigitsOf(Abs(n)) ==> c <= '9';
  }

  lemma HasMarker(digits: string)
    ensures 'd' in MarkExact(digits)
  {
    var t := MarkExact(digits);
    assert t[1] == 'd' || t[2] == 'd';
  }

  /** The text tells the number. */
  lemma TextTells(a: Exact, b: Exact)
    requires WellPlaced(a) && WellPlaced(b) && ExactText(a) == ExactText(b)
    ensures a == b
  {
    hide InIntegerLeaf, ValueOf, WholeText, MarkExact, Digits;
    if a.IntegerLeaf? {
      TextWhole(a, b);
    } else if b.IntegerLeaf? {
      TextWhole(b, a);
    } else {
      MarkedBack(a);
      MarkedBack(b);
      if a.BigInteger? && b.BigInteger? {
        WholeTells(a.n, b.n);
      } else if a.BigDecimal? && b.BigDecimal? {
        DigitsTell(a.d, b.d);
      }
    }
  }

  /** The digits behind a marker, and whether they have a point. */
  lemma MarkedBack(a: Exact)
    requires WellPlaced(a) && !a.IntegerLeaf?
    ensures Unmark(ExactText(a)) == if a.BigInteger? then WholeText(a.n) else Digits(a.d)
    ensures '.' in Unmark(ExactText(a)) <==> a.BigDecimal?
  {
    hide InIntegerLeaf, ValueOf, WholeText, MarkExact, Digits, Unmark;
    if a.BigInteger? {
      FirstDigit(a.n);
      MarkBack(WholeText(a.n));
      NoPoint(a.n);
    } else {
      HasPoint(a.d);
      MarkBack(Digits(a.d));
    }
  }

  /** A spelling without an exponent as it stands, a marker behind its sign. */
  function Literal(s: Spelling, marker: string): string {
    (if s.neg then "-" else "") + marker + s.whole + if s.frac == "" then "" else "." + s.frac
  }

  function WholeSpelling(n: int): Spelling {
    Spelling(n < 0, DigitsOf(Abs(n)), "", NoExponent)
  }

  lemma WholeSpells(n: int)
    ensures var s := WholeSpelling(n); GoodSpelling(s) && Spelled(s) == n as real && WholeText(n) == Literal(s, "")
    ensures MarkExact(WholeText(n)) == Literal(WholeSpelling(n), "0d")
  {
    hide DigitsOf, ReadDigits;
    var ds := DigitsOf(Abs(n));
    ReadOf(Abs(n));
    FirstDigit(n);
    assert ds + "" == ds;
    assert n < 0 ==> WholeText(n)[1..] == ds;
    assert Pow10(0) == 1;
    DivIs(n as real, 1.0, n as real);
  }

  function PointSpelling(d: Decimal): Spelling
    requires 1 <= d.scale
  {
    Spelling(d.coeff < 0, IntPart(d), Frac(d), NoExponent)
  }

  lemma PointText(d: Decimal)
    requires 1 <= d.scale
    ensures MarkExact(Digits(d)) == Literal(PointSpelling(d), "0d")
  {
    hide IntPart, Frac, Digits;
    Parts(d);
  }

  lemma PointGood(d: Decimal)
    requires 1 <= d.scale
    ensures GoodSpelling(PointSpelling(d))
  {
    hide IntPart, Frac;
  }

  lemma PointSpells(d: Decimal)
    requires 1 <= d.scale
    ensures GoodSpelling(PointSpelling(d)) && Spelled(PointSpelling(d)) == ValueOf(d)
  {
    hide IntPart, Frac, ReadDigits, Rational, GoodSpelling, ValueOf, IsDigits;
    PointGood(d);
    PaddedReads(d);
    ValueIs(d);
  }

  /** The text of a number is a spelling of its value, marked behind the sign past the integer leaf,
      with a point exactly where the number has places. */
  lemma TextSpells(e: Exact)
    requires WellPlaced(e)
    ensures exists s :: GoodSpelling(s) && s.exp.NoExponent? && Spelled(s) == ExactValue(e)
              && (s.frac != "" <==> e.BigDecimal?) && ExactText(e) == Literal(s, if e.IntegerLeaf? then "" else "0d")
  {
    hide InIntegerLeaf, WholeText, MarkExact, Digits, Literal, Spelled, GoodSpelling, ValueOf, IntPart, Frac;
    match e
    case IntegerLeaf(i) => WholeSpells(i);
    case BigInteger(n) => WholeSpells(n);
    case BigDecimal(d) =>
      PointSpells(d);
      PointText(d);
  }

  lemma TextWhole(a: Exact, b: Exact)
    requires WellPlaced(a) && WellPlaced(b) && ExactText(a) == ExactText(b) && a.IntegerLeaf?
    ensures a == b
  {
    hide InIntegerLeaf, ValueOf, WholeText, MarkExact, Digits;
    NoMarker(a.i);
    if b.IntegerLeaf? {
      WholeTells(a.i, b.i);
    } else {
      HasMarker(if b.BigInteger? then WholeText(b.n) else Digits(b.d));
    }
  }
}
