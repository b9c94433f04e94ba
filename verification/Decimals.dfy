/**
 Exact decimals in one form per value (go/decimal.go:21-132): the normal form newDecimal
 makes, and arithmetic on it against exact rationals.
 */
module Decimals {
  import opened Scaled

  /** coeff / 10^scale.  The budget keeps every stored scale far inside 32 bits, so scales are
      not bounded here. */
  datatype Decimal = Decimal(coeff: int, scale: int)

  const DECIMAL_MAX_COEFF_DIGITS: nat := 4096
  const DECIMAL_MAX_SCALE: nat := 4096

  /** The rational c / 10^scale, for a scale of either sign. */
  function Rational(c: int, scale: int): real {
    if 0 <= scale then Value(Scaled(c, scale)) else (c * Pow10(-scale)) as real
  }

  function ValueOf(d: Decimal): real {
    Rational(d.coeff, d.scale)
  }

  /** At least one place, no trailing zero behind the first, and zero with one place. */
  predicate Normal(d: Decimal) {
    1 <= d.scale && (d.coeff == 0 ==> d.scale == 1) && (1 < d.scale ==> d.coeff % 10 != 0)
  }

  // ----- stripping trailing zeros

  /** c and scale with trailing zeros stripped while the scale is above low. */
  function Strip(c: int, scale: int, low: nat): (d: Decimal)
    decreases if low < scale then scale - low else 0
  {
    if low < scale && TruncRem(c, 10) == 0 then Strip(TruncQuo(c, 10), scale - 1, low) else Decimal(c, scale)
  }

  lemma TenOff(c: int)
    ensures TruncRem(c, 10) == 0 <==> c % 10 == 0
    ensures TruncRem(c, 10) == 0 ==> c == TruncQuo(c, 10) * 10 && (c < 0 <==> TruncQuo(c, 10) < 0)
  {
  }

  lemma ZeroOff(q: int, scale: nat)
    requires 0 < scale
    ensures Value(Scaled(q * 10, scale)) == Value(Scaled(q, scale - 1))
  {
    var p := Pow10(scale - 1);
    assert Pow10(scale) == 10 * p;
    DivTimes(q as real, p as real);
    Casts(10, p);
    Casts(q, 10);
    assert Value(Scaled(q, scale - 1)) * (10.0 * p as real) == q as real * 10.0;
    DivIs((q * 10) as real, (10 * p) as real, Value(Scaled(q, scale - 1)));
  }

  lemma {:induction false} StripKeeps(c: int, scale: int, low: nat)
    ensures var d := Strip(c, scale, low);
            && ValueOf(d) == Rational(c, scale) && (scale <= low ==> d == Decimal(c, scale))
            && (low < scale ==> low <= d.scale) && (low < d.scale ==> d.coeff % 10 != 0)
            && (c < 0 <==> d.coeff < 0) && (c == 0 <==> d.coeff == 0)
    decreases if low < scale then scale - low else 0
  {
    hide Value, TruncRem, TruncQuo;
    TenOff(c);
    if low < scale && TruncRem(c, 10) == 0 {
      var q := TruncQuo(c, 10);
      ZeroOff(q, scale);
      StripKeeps(q, scale - 1, low);
    }
  }

  /** newDecimal's value, as an expression. */
  function Reduced(coeff: int, scale: int): Decimal {
    if coeff == 0 then Decimal(0, 1)
    else
      var d := Strip(coeff, scale, 1);
      if d.scale < 1 then Decimal(d.coeff * Pow10(1 - d.scale), 1) else d
  }

  /** newDecimal. */
  method NewDecimal(coeff: int, scale: int) returns (d: Decimal)
    ensures d == Reduced(coeff, scale) && Normal(d) && ValueOf(d) == Rational(coeff, scale)
  {
    ReducedIs(coeff, scale);
    if coeff == 0 { return Decimal(0, 1); }
    var c, s := coeff, scale;
    while 1 < s
      invariant Strip(c, s, 1) == Strip(coeff, scale, 1)
      decreases s
    {
      var q, m := TruncQuo(c, 10), TruncRem(c, 10);
      if m != 0 { break; }
      c, s := q, s - 1;
    }
    if s < 1 {
      c := c * Pow10(1 - s);
      s := 1;
    }
    d := Decimal(c, s);
  }

  lemma ZeroValue(scale: nat)
    ensures Value(Scaled(0, scale)) == 0.0
  {
    DivIs(0.0, Pow10(scale) as real, 0.0);
  }

  /** Scaling up to one place. */
  lemma OnePlace(c: int, scale: int)
    requires scale < 1
    ensures Rational(c * Pow10(1 - scale), 1) == Rational(c, scale)
  {
    var p := Pow10(-scale);
    assert Pow10(1 - scale) == 10 * p;
    assert c * (10 * p) == (c * p) * 10;
    ZeroOff(c * p, 1);
    assert Pow10(0) == 1;
    assert Value(Scaled(c * p, 0)) == (c * p) as real by { DivIs((c * p) as real, 1.0, (c * p) as real); }
    if scale == 0 { assert c * p == c; }
  }

  /** newDecimal keeps the value and gives the normal form. */
  lemma ReducedIs(coeff: int, scale: int)
    ensures Normal(Reduced(coeff, scale)) && ValueOf(Reduced(coeff, scale)) == Rational(coeff, scale)
  {
    hide Value, Strip;
    if coeff == 0 {
      ZeroValue(1);
      if 0 <= scale { ZeroValue(scale); }
    } else {
      StripKeeps(coeff, scale, 1);
      var d := Strip(coeff, scale, 1);
      if d.scale < 1 {
        OnePlace(d.coeff, d.scale);
        NotZero(d.coeff, Pow10(1 - d.scale));
      }
    }
  }

  // ----- one form per value

  lemma PowTen(n: nat)
    requires 0 < n
    ensures Pow10(n) % 10 == 0
  {
    TenTimes(Pow10(n - 1));
  }

  lemma TenTimes(p: int)
    ensures (10 * p) % 10 == 0
  {
  }

  lemma TimesTen(c: int, p: int)
    requires p % 10 == 0
    ensures (c * p) % 10 == 0
  {
    assert p == 10 * (p / 10);
    assert c * p == 10 * (c * (p / 10));
  }

  lemma LowerScale(a: Decimal, b: Decimal)
    requires Normal(a) && Normal(b) && ValueOf(a) == ValueOf(b) && a.scale <= b.scale
    ensures a == b
  {
    hide Value, Pow10;
    Rescale(Scaled(a.coeff, a.scale), b.scale);
    Rescale(Scaled(b.coeff, b.scale), b.scale);
    assert Pow10(0) == 1 by { PowNone(); }
    assert b.coeff == a.coeff * Pow10(b.scale - a.scale);
    if a.scale < b.scale {
      PowTen(b.scale - a.scale);
      TimesTen(a.coeff, Pow10(b.scale - a.scale));
    }
  }

  lemma PowNone()
    ensures Pow10(0) == 1
  {
  }

  /** Normal forms are equal exactly when the values are. */
  lemma NormalUnique(a: Decimal, b: Decimal)
    requires Normal(a) && Normal(b)
    ensures a == b <==> ValueOf(a) == ValueOf(b)
  {
    if ValueOf(a) == ValueOf(b) {
      if a.scale <= b.scale { LowerScale(a, b); } else { LowerScale(b, a); }
    }
  }

  // ----- arithmetic

  function Neg(d: Decimal): Decimal {
    if d.coeff == 0 then d else Decimal(-d.coeff, d.scale)
  }

  function Add(d: Decimal, o: Decimal): Decimal {
    if d.scale < o.scale then Reduced(d.coeff * Pow10(o.scale - d.scale) + o.coeff, o.scale)
    else if o.scale < d.scale then Reduced(d.coeff + o.coeff * Pow10(d.scale - o.scale), d.scale)
    else Reduced(d.coeff + o.coeff, d.scale)
  }

  function Mul(d: Decimal, o: Decimal): Decimal {
    Reduced(d.coeff * o.coeff, d.scale + o.scale)
  }

  function CeilFloor(d: Decimal, up: bool): Decimal
    requires Normal(d)
  {
    var q, r := TruncQuo(d.coeff, Pow10(d.scale)), TruncRem(d.coeff, Pow10(d.scale));
    Reduced(if up && 0 < r then q + 1 else if !up && r < 0 then q - 1 else q, 0)
  }

  function Cmp(d: Decimal, o: Decimal): int {
    if d.scale == o.scale then Sign(d.coeff - o.coeff)
    else if d.scale < o.scale then Sign(d.coeff * Pow10(o.scale - d.scale) - o.coeff)
    else Sign(d.coeff - o.coeff * Pow10(d.scale - o.scale))
  }

  lemma NegIs(d: Decimal)
    requires Normal(d)
    ensures Normal(Neg(d)) && ValueOf(Neg(d)) == -ValueOf(d)
  {
    var p := Pow10(d.scale) as real;
    DivTimes(d.coeff as real, p);
    if d.coeff == 0 { ZeroValue(d.scale); } else { DivIs((-d.coeff) as real, p, -ValueOf(d)); }
  }

  lemma SumOver(a: Scaled, b: Scaled, n: nat)
    requires a.scale <= n && b.scale <= n
    ensures Value(Scaled(a.unscaled * Pow10(n - a.scale) + b.unscaled * Pow10(n - b.scale), n)) == Value(a) + Value(b)
  {
    var au, bu := a.unscaled * Pow10(n - a.scale), b.unscaled * Pow10(n - b.scale);
    SumOverIs(a, b, n, au, bu);
  }

  lemma SumOverIs(a: Scaled, b: Scaled, n: nat, au: int, bu: int)
    requires a.scale <= n && b.scale <= n && au == a.unscaled * Pow10(n - a.scale) && bu == b.unscaled * Pow10(n - b.scale)
    ensures Value(Scaled(au + bu, n)) == Value(a) + Value(b)
  {
    hide Pow10;
    var p := Pow10(n) as real;
    Rescale(a, n);
    Rescale(b, n);
    assert (Value(a) + Value(b)) * p == Value(a) * p + Value(b) * p;
    DivIs((au + bu) as real, p, Value(a) + Value(b));
  }

  lemma AddIs(d: Decimal, o: Decimal)
    requires Normal(d) && Normal(o)
    ensures Normal(Add(d, o)) && ValueOf(Add(d, o)) == ValueOf(d) + ValueOf(o)
  {
    hide Value, Pow10, Reduced;
    var n := if d.scale < o.scale then o.scale else d.scale;
    SumOver(Scaled(d.coeff, d.scale), Scaled(o.coeff, o.scale), n);
    PowNone();
    var sum := d.coeff * Pow10(n - d.scale) + o.coeff * Pow10(n - o.scale);
    ReducedIs(sum, n);
  }

  lemma ProductOver(a: Scaled, b: Scaled)
    ensures Value(Scaled(a.unscaled * b.unscaled, a.scale + b.scale)) == Value(a) * Value(b)
  {
    hide Pow10;
    var p, q := Pow10(a.scale), Pow10(b.scale);
    PowPlus(a.scale, b.scale);
    Casts(p, q);
    Casts(a.unscaled, b.unscaled);
    Products(Value(a), Value(b), p as real, q as real, a.unscaled as real, b.unscaled as real);
    DivIs((a.unscaled * b.unscaled) as real, (p * q) as real, Value(a) * Value(b));
  }

  lemma Products(x: real, y: real, p: real, q: real, a: real, b: real)
    requires p > 0.0 && q > 0.0 && x == a / p && y == b / q
    ensures (x * y) * (p * q) == a * b
  {
    DivTimes(a, p);
    DivTimes(b, q);
    assert (x * y) * (p * q) == (x * p) * (y * q);
  }

  lemma MulIs(d: Decimal, o: Decimal)
    requires Normal(d) && Normal(o)
    ensures Normal(Mul(d, o)) && ValueOf(Mul(d, o)) == ValueOf(d) * ValueOf(o)
  {
    hide Value, Reduced;
    ProductOver(Scaled(d.coeff, d.scale), Scaled(o.coeff, o.scale));
    ReducedIs(d.coeff * o.coeff, d.scale + o.scale);
  }

  /** The order is that of the values. */
  lemma CmpOrders(d: Decimal, o: Decimal)
    requires Normal(d) && Normal(o)
    ensures Cmp(d, o) == if ValueOf(d) < ValueOf(o) then -1 else if ValueOf(o) < ValueOf(d) then 1 else 0
    ensures Cmp(d, o) == 0 <==> d == o
  {
    hide Value, Pow10;
    CmpIsOrder(Scaled(d.coeff, d.scale), Scaled(o.coeff, o.scale));
    NormalUnique(d, o);
  }

  /** The least whole number not below x. */
  function Ceil(x: real): int {
    if Whole(x) then x.Floor else x.Floor + 1
  }

  lemma WholeRational(n: int)
    ensures Rational(n, 0) == n as real
  {
    PowNone();
    DivIs(n as real, 1.0, n as real);
  }

  lemma CeilFloorIs(d: Decimal, up: bool)
    requires Normal(d)
    ensures Normal(CeilFloor(d, up))
    ensures ValueOf(CeilFloor(d, up)) == (if up then Ceil(ValueOf(d)) else ValueOf(d).Floor) as real
  {
    hide Value, Pow10, Reduced;
    var s := Scaled(d.coeff, d.scale);
    FloorIs(s);
    var n := if up then Ceil(ValueOf(d)) else ValueOf(d).Floor;
    RoundsTo(d.coeff, Pow10(d.scale));
    ReducedIs(n, 0);
    WholeRational(n);
  }

  /** Towards zero, then one away from it where the direction and the remainder ask. */
  lemma RoundsTo(c: int, p: int)
    requires 1 <= p
    ensures var q, r := TruncQuo(c, p), TruncRem(c, p);
            && (if r < 0 then q - 1 else q) == c / p
            && (if 0 < r then q + 1 else q) == if c % p == 0 then c / p else c / p + 1
  {
    if c < 0 { NegativeFloor(-c, p); NegativeRem(-c, p); }
  }

  lemma NegativeRem(a: int, p: int)
    requires 0 < a && 0 < p
    ensures (-a) % p == 0 <==> a % p == 0
  {
    RemZero(-a, p);
    RemZero(a, p);
    if a % p == 0 { ExactRemBack(a, p); }
    if (-a) % p == 0 { ExactRemBack(-a, p); }
  }

  lemma ExactRemBack(a: int, p: int)
    requires 0 < p && a % p == 0
    ensures (-a) % p == 0
  {
    var k := a / p;
    assert a == k * p;
    assert -a == (-k) * p;
    var g, f := (-a) % p, (-a) / p;
    assert -a == f * p + g;
    assert (-k - f) * p == g;
    MulBound(-k - f, p);
  }
}
