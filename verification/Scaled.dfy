/**
 Exact comparison of numbers with a power-of-ten denominator (go/numcmp.go:14-175): the
 integer arithmetic it is done in, against the rational values it stands for.
 */
module Scaled {

  function Pow10(n: nat): (p: int)
    ensures 1 <= p
  {
    if n == 0 then 1 else 10 * Pow10(n - 1)
  }

  lemma {:induction false} PowPlus(a: nat, b: nat)
    ensures Pow10(a + b) == Pow10(a) * Pow10(b)
  {
    if a != 0 {
      PowPlus(a - 1, b);
      assert Pow10(a + b) == 10 * (Pow10(a - 1) * Pow10(b)) == (10 * Pow10(a - 1)) * Pow10(b);
    }
  }

  /** unscaled / 10^scale; the infinities no literal or operation makes are not part of this model. */
  datatype Scaled = Scaled(unscaled: int, scale: nat)

  function Value(s: Scaled): real {
    s.unscaled as real / Pow10(s.scale) as real
  }

  // ----- fractions

  lemma DivIs(x: real, p: real, y: real)
    requires p > 0.0 && y * p == x
    ensures x / p == y
  {
  }

  lemma DivTimes(x: real, p: real)
    requires p > 0.0
    ensures (x / p) * p == x
  {
  }

  lemma TimesOrder(x: real, y: real, p: real)
    requires p > 0.0
    ensures x * p < y * p <==> x < y
  {
    if x < y { assert (y - x) * p > 0.0; }
    if x > y { assert (x - y) * p > 0.0; }
  }

  lemma FractionTimes(u: real, p: real, q: real)
    requires p > 0.0
    ensures (u / p) * (p * q) == u * q
  {
    DivTimes(u, p);
    assert (u / p) * (p * q) == ((u / p) * p) * q;
  }

  /** A value over a larger power is the same value. */
  lemma Rescale(s: Scaled, n: nat)
    requires s.scale <= n
    ensures Value(s) * Pow10(n) as real == (s.unscaled * Pow10(n - s.scale)) as real
  {
    hide Pow10;
    var u, p, q := s.unscaled, Pow10(s.scale), Pow10(n - s.scale);
    PowPlus(s.scale, n - s.scale);
    Casts(p, q);
    Casts(u, q);
    FractionTimes(u as real, p as real, q as real);
  }

  lemma Casts(a: int, b: int)
    ensures (a * b) as real == a as real * b as real
  {
  }

  /** Two values brought over one power compare as their numerators. */
  lemma Cross(x: real, y: real, n: real, xi: int, yi: int)
    requires n > 0.0 && x * n == xi as real && y * n == yi as real
    ensures (x < y <==> xi < yi) && (y < x <==> yi < xi)
  {
    TimesOrder(x, y, n);
    TimesOrder(y, x, n);
  }

  // ----- comparison

  function Sign(x: int): int {
    if x < 0 then -1 else if 0 < x then 1 else 0
  }

  /** cmpScaled: both brought to the larger scale and compared as integers. */
  function CmpScaled(a: Scaled, b: Scaled): int {
    if a.scale < b.scale then Sign(a.unscaled * Pow10(b.scale - a.scale) - b.unscaled)
    else if b.scale < a.scale then Sign(a.unscaled - b.unscaled * Pow10(a.scale - b.scale))
    else Sign(a.unscaled - b.unscaled)
  }

  lemma CmpIsOrder(a: Scaled, b: Scaled)
    ensures CmpScaled(a, b) == if Value(a) < Value(b) then -1 else if Value(b) < Value(a) then 1 else 0
  {
    hide Value, Pow10;
    var n := if a.scale < b.scale then b.scale else a.scale;
    var au, bu := a.unscaled * Pow10(n - a.scale), b.unscaled * Pow10(n - b.scale);
    Rescale(a, n);
    Rescale(b, n);
    CmpIsSign(a, b, n);
    Cross(Value(a), Value(b), Pow10(n) as real, au, bu);
  }

  lemma CmpIsSign(a: Scaled, b: Scaled, n: nat)
    requires n == if a.scale < b.scale then b.scale else a.scale
    ensures CmpScaled(a, b) == Sign(a.unscaled * Pow10(n - a.scale) - b.unscaled * Pow10(n - b.scale))
  {
    assert Pow10(0) == 1;
  }

  // ----- multiples

  /** x is d taken a whole number of times. */
  ghost predicate Multiple(x: real, d: real) {
    exists k: int :: Times(k, d) == x
  }

  ghost function Times(k: int, d: real): real {
    k as real * d
  }

  /** The remainder of a truncated division is zero exactly where the division is exact. */
  function TruncRem(p: int, d: int): int
    requires d != 0
  {
    var ap, ad := if p < 0 then -p else p, if d < 0 then -d else d;
    if p < 0 then -(ap % ad) else ap % ad
  }

  lemma RemZero(p: int, d: int)
    requires d != 0
    ensures TruncRem(p, d) == 0 <==> exists k: int :: k * d == p
  {
    var ap, ad := if p < 0 then -p else p, if d < 0 then -d else d;
    if TruncRem(p, d) == 0 {
      var q := ap / ad;
      assert ap == q * ad + ap % ad;
      var k := if (p < 0) == (d < 0) then q else -q;
      assert k * d == p;
    }
    if exists k: int :: k * d == p {
      var k: int :| k * d == p;
      var j := if k < 0 then -k else k;
      assert j * ad == ap;
      ExactRem(j, ad, ap);
    }
  }

  lemma MulBound(x: int, d: int)
    requires 0 < d
    ensures 1 <= x ==> d <= x * d
    ensures x <= -1 ==> x * d <= -d
    ensures x <= -2 ==> x * d <= -2 * d
  {
  }

  lemma ExactRem(j: int, d: int, p: int)
    requires 0 < d && j * d == p && 0 <= p
    ensures p % d == 0
  {
    var q, r := p / d, p % d;
    assert p == q * d + r && 0 <= r < d;
    assert (j - q) * d == r;
    MulBound(j - q, d);
  }

  /** scaledIsMultiple. */
  predicate IsMultipleScaled(p: Scaled, d: Scaled)
    requires d.unscaled != 0
  {
    var s := if p.scale < d.scale then d.scale else p.scale;
    NotZero(d.unscaled, Pow10(s - d.scale));
    TruncRem(p.unscaled * Pow10(s - p.scale), d.unscaled * Pow10(s - d.scale)) == 0
  }

  lemma MultipleIs(p: Scaled, d: Scaled)
    requires d.unscaled != 0
    ensures IsMultipleScaled(p, d) <==> Multiple(Value(p), Value(d))
  {
    hide Value, Pow10, Times, TruncRem;
    var s := if p.scale < d.scale then d.scale else p.scale;
    var pu, du, n := p.unscaled * Pow10(s - p.scale), d.unscaled * Pow10(s - d.scale), Pow10(s) as real;
    Rescale(p, s);
    Rescale(d, s);
    NotZero(d.unscaled, Pow10(s - d.scale));
    RemZero(pu, du);
    if IsMultipleScaled(p, d) {
      var k: int :| k * du == pu;
      TimesCross(k, du, pu, Value(d), Value(p), n);
    }
    if Multiple(Value(p), Value(d)) {
      var k: int :| Times(k, Value(d)) == Value(p);
      TimesCross(k, du, pu, Value(d), Value(p), n);
    }
  }

  lemma NotZero(u: int, p: int)
    requires u != 0 && p != 0
    ensures u * p != 0
  {
  }

  lemma TimesCross(k: int, du: int, pu: int, d: real, p: real, n: real)
    requires n > 0.0 && d * n == du as real && p * n == pu as real
    ensures k * du == pu <==> Times(k, d) == p
  {
    assert (k as real * d) * n == k as real * (d * n);
    Casts(k, du);
    Cross(Times(k, d), p, n, k * du, pu);
  }

  // ----- whole numbers

  predicate Whole(x: real) {
    x == x.Floor as real
  }

  /** scaledIsIntegral. */
  predicate IsIntegral(s: Scaled) {
    s.scale == 0 || s.unscaled % Pow10(s.scale) == 0
  }

  lemma FloorBetween(x: real, k: int)
    requires k as real <= x < (k + 1) as real
    ensures x.Floor == k
  {
  }

  lemma Quotient(u: int, p: int)
    requires 0 < p
    ensures (u / p) * p <= u < (u / p + 1) * p && (u % p == 0 <==> u == (u / p) * p)
  {
    var k, r := u / p, u % p;
    assert u == k * p + r && 0 <= r < p;
    assert (k + 1) * p == k * p + p;
  }

  /** A fraction between two multiples of its denominator. */
  lemma Between(u: int, p: int, k: int, x: real)
    requires 0 < p && x * p as real == u as real && k * p <= u < (k + 1) * p
    ensures k as real <= x < (k + 1) as real && (x == k as real <==> u == k * p)
  {
    Casts(k, p);
    Casts(k + 1, p);
    TimesOrder(x, k as real, p as real);
    TimesOrder(k as real, x, p as real);
    TimesOrder(x, (k + 1) as real, p as real);
  }

  lemma FloorIs(s: Scaled)
    ensures Value(s).Floor == s.unscaled / Pow10(s.scale)
    ensures s.unscaled % Pow10(s.scale) == 0 <==> Whole(Value(s))
  {
    hide Pow10;
    var u, p := s.unscaled, Pow10(s.scale);
    var k, x := u / p, Value(s);
    Quotient(u, p);
    DivTimes(u as real, p as real);
    Between(u, p, k, x);
    FloorBetween(x, k);
  }

  lemma IntegralIs(s: Scaled)
    ensures IsIntegral(s) <==> Whole(Value(s))
  {
    FloorIs(s);
    if s.scale == 0 { assert s.unscaled % 1 == 0; }
  }

  /** Go's QuoRem: the quotient cut off towards zero. */
  function TruncQuo(p: int, d: int): int
    requires d != 0
  {
    var ap, ad := if p < 0 then -p else p, if d < 0 then -d else d;
    if (p < 0) == (d < 0) then ap / ad else -(ap / ad)
  }

  /** scaledFloorBig. */
  function FloorBig(s: Scaled): int {
    if s.scale == 0 then s.unscaled
    else
      var q, m := TruncQuo(s.unscaled, Pow10(s.scale)), TruncRem(s.unscaled, Pow10(s.scale));
      if s.unscaled < 0 && m != 0 then q - 1 else q
  }

  lemma FloorBigIs(s: Scaled)
    ensures FloorBig(s) == Value(s).Floor
  {
    FloorIs(s);
    var u, p := s.unscaled, Pow10(s.scale);
    if u < 0 {
      NegativeFloor(-u, p);
    }
  }

  lemma NegativeFloor(a: int, p: int)
    requires 0 < a && 0 < p
    ensures (-a) / p == if a % p == 0 then -(a / p) else -(a / p) - 1
  {
    var q, r := a / p, a % p;
    assert a == q * p + r && 0 <= r < p;
    var f, g := (-a) / p, (-a) % p;
    assert -a == f * p + g && 0 <= g < p;
    assert (f + q) * p == -(r + g);
    MulBound(f + q, p);
  }
}
