/**
 What the exactness budget refuses (go/exactnum.go:55-82): told from a spelling's digits and
 exponent, and which values are refused in one spelling and read in another.
 */
module ExactRefusals {
  import opened Scaled
  import opened Decimals
  import opened Numerals
  import opened DecimalText
  import opened ExactNumbers

  // ----- told from the spelling

  /** The zeros a number ends in. */
  function TailZeros(n: nat): nat
    requires n != 0
  {
    if n % 10 == 0 then 1 + TailZeros(n / 10) else 0
  }

  /** What is refused, from the digits behind each other as one number and the places behind the point:
      a whole number by its exponent, and what is not whole by its places or its digits, spare zeros aside. */
  predicate Refuses(n: nat, scale: int) {
    && n != 0
    && if scale <= 0 then 4096 < -scale
       else
         var z := TailZeros(n);
         z < scale && (4096 < scale - z || 4096 < |DigitsOf(n)| - z)
  }

  lemma DigitDropped(n: nat)
    requires n != 0 && n % 10 == 0
    ensures n / 10 != 0 && |DigitsOf(n)| == 1 + |DigitsOf(n / 10)| && TailZeros(n) == 1 + TailZeros(n / 10)
  {
  }

  lemma {:induction false} StripRefuses(neg: bool, n: nat, scale: int)
    requires n != 0
    ensures Placed(neg, Strip(n, scale, 0)).Refused? <==> Refuses(n, scale)
    decreases if 0 < scale then scale else 0
  {
    hide Strip, DigitsOf, Pow10, Reduced, InIntegerLeaf, TruncQuo, TruncRem, TailZeros;
    StripStep(n, scale);
    TenOff(n);
    if 0 < scale && TruncRem(n, 10) == 0 {
      assert TruncQuo(n, 10) == n / 10;
      DigitDropped(n);
      StripRefuses(neg, n / 10, scale - 1);
      PlacedLow(neg, n / 10);
    } else {
      NoTail(n);
      assert Abs(n) == n;
    }
  }

  lemma NoTail(n: nat)
    requires n != 0
    ensures TailZeros(n) == 0 <==> n % 10 != 0
  {
  }

  /** At no places a number is never refused. */
  lemma PlacedLow(neg: bool, n: nat)
    requires n != 0
    ensures !Refuses(n, 0)
  {
  }

  /** A spelling is refused exactly where its digits and its exponent say so. */
  lemma RefusedIs(s: Spelling)
    requires GoodSpelling(s)
    ensures ExactOf(s).Refused? <==> Refuses(Unscaled(s), ScaleOf(s))
  {
    hide Placed, Strip, ReadDigits;
    if Unscaled(s) != 0 { StripRefuses(s.neg, Unscaled(s), ScaleOf(s)); }
  }

  // ----- told from the value

  /** A whole number but zero, with more zeros at its end than the budget. */
  ghost predicate Round(v: real) {
    exists n: int, k: nat :: RoundBy(v, n, k)
  }

  ghost predicate RoundBy(v: real, n: int, k: nat) {
    n != 0 && 4096 < k && v == (n * Pow10(k)) as real
  }

  /** The spellings of a value are refused together. */
  ghost predicate Agrees(v: real) {
    forall s, t :: Spells(s, v) && Spells(t, v) ==> (ExactOf(s).Refused? <==> ExactOf(t).Refused?)
  }

  ghost predicate Spells(s: Spelling, v: real) {
    GoodSpelling(s) && Spelled(s) == v
  }

  /** What a spelling comes to before it is placed, and its value. */
  function Stripped(s: Spelling): Decimal
    requires GoodSpelling(s)
  {
    Strip(Unscaled(s), ScaleOf(s), 0)
  }

  lemma StrippedIs(s: Spelling)
    requires GoodSpelling(s) && Unscaled(s) != 0
    ensures var d := Stripped(s);
            && d.coeff > 0 && (0 < d.scale ==> d.coeff % 10 != 0) && ExactOf(s) == Placed(s.neg, d)
            && Rational(Signed(s.neg, d.coeff), d.scale) == Spelled(s)
  {
    hide Strip, Placed, Rational, ReadDigits;
    var d := Stripped(s);
    StripKeeps(Unscaled(s), ScaleOf(s), 0);
    SignedRational(s.neg, d.coeff, d.scale);
    SignedRational(s.neg, Unscaled(s), ScaleOf(s));
  }

  /** A whole number that is not round is read however it is spelled. */
  lemma WholeRead(s: Spelling)
    requires GoodSpelling(s) && Whole(Spelled(s)) && !Round(Spelled(s))
    ensures !ExactOf(s).Refused?
  {
    hide Strip, Placed, Rational, ReadDigits, Whole, Pow10;
    if Unscaled(s) != 0 {
      StrippedIs(s);
      var d := Stripped(s);
      var c := Signed(s.neg, d.coeff);
      if 0 < d.scale {
        SignedRem(s.neg, d.coeff);
        NotWhole(c, d.scale);
      } else {
        WholePlaced(c, d.scale);
        assert RoundBy(Spelled(s), c, -d.scale) || -d.scale <= EXACT_BUDGET;
        LowPlaced(s.neg, d);
      }
    }
  }

  lemma LowPlaced(neg: bool, d: Decimal)
    requires d.scale <= 0
    ensures Placed(neg, d).Refused? <==> EXACT_BUDGET < -d.scale
  {
    hide Pow10, InIntegerLeaf;
  }

  lemma HighPlaced(neg: bool, d: Decimal)
    requires 0 < d.scale
    ensures Placed(neg, d).Refused? <==> EXACT_BUDGET < d.scale || EXACT_BUDGET < |DigitsOf(Abs(d.coeff))|
  {
    hide Reduced, DigitsOf;
  }

  lemma ZeroSpelled(s: Spelling)
    requires GoodSpelling(s) && Unscaled(s) == 0
    ensures Spelled(s) == 0.0
  {
    hide ReadDigits, Rational;
    NoughtPlaced(ScaleOf(s));
  }

  lemma ZeroWhole()
    ensures Whole(0.0)
  {
  }

  lemma WholeOf(n: int)
    ensures Whole(n as real)
  {
  }

  /** What is not whole comes to one form, so it is refused however it is spelled or never. */
  lemma PartsAgree(s: Spelling, t: Spelling)
    requires GoodSpelling(s) && GoodSpelling(t) && Spelled(s) == Spelled(t) && !Whole(Spelled(s))
    ensures ExactOf(s).Refused? <==> ExactOf(t).Refused?
  {
    hide Strip, Placed, Rational, ReadDigits, Whole, Pow10;
    ZeroWhole();
    if Unscaled(s) == 0 { ZeroSpelled(s); }
    if Unscaled(t) == 0 { ZeroSpelled(t); }
    StrippedIs(s);
    StrippedIs(t);
    PartsNormal(s);
    PartsNormal(t);
    var d, e := Stripped(s), Stripped(t);
    NormalUnique(Decimal(Signed(s.neg, d.coeff), d.scale), Decimal(Signed(t.neg, e.coeff), e.scale));
    HighPlaced(s.neg, d);
    HighPlaced(t.neg, e);
  }

  lemma PartsNormal(s: Spelling)
    requires GoodSpelling(s) && Unscaled(s) != 0 && !Whole(Spelled(s))
    ensures var d := Stripped(s);
            && 0 < d.scale && Normal(Decimal(Signed(s.neg, d.coeff), d.scale))
            && ValueOf(Decimal(Signed(s.neg, d.coeff), d.scale)) == Spelled(s)
  {
    hide Strip, Placed, Rational, ReadDigits, Whole, Pow10;
    StrippedIs(s);
    var d := Stripped(s);
    SignedRem(s.neg, d.coeff);
    if d.scale <= 0 {
      WholePlaced(Signed(s.neg, d.coeff), d.scale);
      WholeOf(Signed(s.neg, d.coeff) * Pow10(-d.scale));
    }
  }

  // ----- a round number in two spellings

  /** A whole number with an exponent. */
  function WithExponent(n: int, k: nat): Spelling {
    Spelling(n < 0, DigitsOf(Abs(n)), "", Exponent(k))
  }

  function WrittenOut(n: int): Spelling {
    Spelling(n < 0, DigitsOf(Abs(n)), "", NoExponent)
  }

  lemma DigitsGood(n: int, e: Exponent)
    ensures var s := Spelling(n < 0, DigitsOf(Abs(n)), "", e); GoodSpelling(s) && Unscaled(s) == Abs(n)
  {
    hide DigitsOf, ReadDigits;
    assert DigitsOf(Abs(n)) + "" == DigitsOf(Abs(n));
    ReadOf(Abs(n));
  }

  lemma SignedAbs(n: int)
    ensures Signed(n < 0, Abs(n)) == n
  {
  }

  /** A round number is refused with its exponent, and read when written out. */
  lemma SpellingMatters(n: int, k: nat)
    requires n != 0 && 4096 < k
    ensures var v, s, t := (n * Pow10(k)) as real, WithExponent(n, k), WrittenOut(n * Pow10(k));
            Spells(s, v) && Spells(t, v) && ExactOf(s).Refused? && !ExactOf(t).Refused?
  {
    hide ReadDigits, DigitsOf, Pow10, Rational, ExactOf, Unscaled;
    var m := n * Pow10(k);
    NotZero(n, Pow10(k));
    DigitsGood(n, Exponent(k));
    DigitsGood(m, NoExponent);
    RefusedIs(WithExponent(n, k));
    RefusedIs(WrittenOut(m));
    SignedAbs(n);
    SignedAbs(m);
    WholePlaced(n, -(k as int));
    WholeRational(m);
  }

  /** Refusal is a matter of the value exactly for the values that are not round. */
  lemma AgreesIff(v: real)
    ensures Agrees(v) <==> !Round(v)
  {
    hide ExactOf, Spelled, GoodSpelling, Pow10, Whole;
    if Round(v) {
      var n: int, k: nat :| RoundBy(v, n, k);
      SpellingMatters(n, k);
      assert Spells(WithExponent(n, k), v) && Spells(WrittenOut(n * Pow10(k)), v);
    } else {
      forall s, t | Spells(s, v) && Spells(t, v) ensures ExactOf(s).Refused? <==> ExactOf(t).Refused? {
        if Whole(v) {
          WholeRead(s);
          WholeRead(t);
        } else {
          PartsAgree(s, t);
        }
      }
    }
  }
}
