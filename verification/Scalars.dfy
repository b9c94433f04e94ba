/**
 The scalars the constraint algebra orders (go/constraint.go:565-611, go/numcmp.go:66-150):
 numbers by exact value, text by code points, and identity by leaf and value.
 */
module Scalars {
  import opened Scaled

  /** The numeric leaves, in tower order. */
  datatype Leaf = IntegerLeaf | FloatLeaf | BigIntegerLeaf | BigDecimalLeaf

  /** A scalar: a number in its leaf with its exact value, a string or a path, or one with no order. */
  datatype Scalar = Num(leaf: Leaf, val: real) | Text(path: bool, s: string) | Bool(b: bool) | Null

  /** What lies outside the algebra: the number a binary float shows, and the verdicts of
      patterns and formats. */
  datatype World = World(shows: real -> real, matches: (string, string) -> bool, formats: (string, string) -> bool)

  /** What is shown is whole where the value is, and different values are shown differently. */
  ghost predicate Faithful(w: World) {
    && (forall x :: Whole(w.shows(x)) <==> Whole(x))
    && (forall x, y :: w.shows(x) == w.shows(y) ==> x == y)
  }

  function Shown(w: World, v: Scalar): real
    requires v.Num?
  {
    if v.leaf.FloatLeaf? then w.shows(v.val) else v.val
  }

  /** The integer leaves hold whole numbers. */
  ghost predicate GoodScalar(v: Scalar) {
    v.Num? && (v.leaf.IntegerLeaf? || v.leaf.BigIntegerLeaf?) ==> Whole(v.val)
  }

  lemma ShownWhole(w: World, v: Scalar)
    requires Faithful(w) && v.Num?
    ensures Whole(Shown(w, v)) <==> Whole(v.val)
  {
  }

  function TowerRank(leaf: Leaf): nat {
    match leaf
    case IntegerLeaf => 0
    case FloatLeaf => 1
    case BigIntegerLeaf => 2
    case BigDecimalLeaf => 3
  }

  lemma RankTells(a: Leaf, b: Leaf)
    ensures TowerRank(a) == TowerRank(b) <==> a == b
  {
  }

  // ----- order

  function CmpReal(a: real, b: real): int {
    if a < b then -1 else if b < a then 1 else 0
  }

  /** strings.Compare: code point by code point. */
  function CmpText(a: string, b: string): int {
    if a == "" && b == "" then 0
    else if a == "" then -1
    else if b == "" then 1
    else if a[0] < b[0] then -1
    else if b[0] < a[0] then 1
    else CmpText(a[1..], b[1..])
  }

  lemma {:induction false} CmpTextSelf(a: string)
    ensures CmpText(a, a) == 0
  {
    if a != "" { CmpTextSelf(a[1..]); }
  }

  lemma {:induction false} CmpTextFlip(a: string, b: string)
    ensures CmpText(a, b) == -CmpText(b, a)
  {
    if a != "" && b != "" && a[0] == b[0] { CmpTextFlip(a[1..], b[1..]); }
  }

  lemma {:induction false} CmpTextEqual(a: string, b: string)
    ensures CmpText(a, b) == 0 <==> a == b
  {
    CmpTextSelf(a);
    if a != "" && b != "" && a[0] == b[0] {
      CmpTextEqual(a[1..], b[1..]);
      assert a == [a[0]] + a[1..] && b == [b[0]] + b[1..];
    }
  }

  lemma {:induction false} CmpTextTrans(a: string, b: string, c: string)
    requires CmpText(a, b) <= 0 && CmpText(b, c) <= 0
    ensures CmpText(a, c) <= 0
    ensures CmpText(a, c) == 0 ==> CmpText(a, b) == 0 && CmpText(b, c) == 0
  {
    if a != "" && b != "" && c != "" && a[0] == b[0] == c[0] { CmpTextTrans(a[1..], b[1..], c[1..]); }
  }

  function Class(a: Scalar): int {
    if a.Num? then 0 else if a.Text? then 1 else 2
  }

  /** cmpConstraintVal: by number in one domain, by text in the other.  Scalars of two
      domains are never compared; here they stand one domain behind the other. */
  function Cmp(a: Scalar, b: Scalar): int {
    if a.Num? && b.Num? then CmpReal(a.val, b.val)
    else if a.Text? && b.Text? then CmpText(a.s, b.s)
    else if Class(a) < Class(b) then -1
    else if Class(b) < Class(a) then 1
    else 0
  }

  lemma CmpSelf(a: Scalar)
    ensures Cmp(a, a) == 0
  {
    if a.Text? { CmpTextSelf(a.s); }
  }

  lemma CmpFlip(a: Scalar, b: Scalar)
    ensures Cmp(a, b) == -Cmp(b, a)
  {
    if a.Text? && b.Text? { CmpTextFlip(a.s, b.s); }
  }

  lemma CmpTrans(a: Scalar, b: Scalar, c: Scalar)
    requires Cmp(a, b) <= 0 && Cmp(b, c) <= 0
    ensures Cmp(a, c) <= 0
    ensures Cmp(a, c) == 0 ==> Cmp(a, b) == 0 && Cmp(b, c) == 0
  {
    if a.Text? && b.Text? && c.Text? { CmpTextTrans(a.s, b.s, c.s); }
  }

  /** sameConstraintScalar: leaf and value. */
  predicate Same(a: Scalar, b: Scalar) {
    if a.Text? && b.Text? then a.path == b.path && a.s == b.s
    else if a.Num? && b.Num? then a.leaf == b.leaf && CmpReal(a.val, b.val) == 0
    else a == b
  }

  lemma SameIs(a: Scalar, b: Scalar)
    ensures Same(a, b) <==> a == b
  {
  }

  // ----- multiples

  /** scaledIsMultiple, on the values. */
  predicate MultipleOf(x: real, d: real)
    requires d != 0.0
  {
    x / d == (x / d).Floor as real
  }

  lemma MultipleOfIs(x: real, d: real)
    requires d > 0.0
    ensures MultipleOf(x, d) <==> Multiple(x, d)
  {
    DivTimes(x, d);
    if MultipleOf(x, d) {
      assert Times((x / d).Floor, d) == x;
    }
    if Multiple(x, d) {
      var k: int :| Times(k, d) == x;
      DivIs(x, d, k as real);
    }
  }

  lemma TimesTimes(j: int, k: int, d: real)
    ensures Times(j, Times(k, d)) == Times(j * k, d)
  {
    Casts(j, k);
    assert j as real * (k as real * d) == (j as real * k as real) * d;
  }

  lemma MultipleTrans(x: real, y: real, z: real)
    requires Multiple(x, y) && Multiple(y, z)
    ensures Multiple(x, z)
  {
    var j: int :| Times(j, y) == x;
    var k: int :| Times(k, z) == y;
    TimesTimes(j, k, z);
    assert Times(j * k, z) == x;
  }

  lemma MultipleSelf(x: real)
    ensures Multiple(x, x)
  {
    assert Times(1, x) == x;
  }

  lemma MultipleOne(x: real)
    ensures Multiple(x, 1.0) <==> Whole(x)
  {
    if Whole(x) { assert Times(x.Floor, 1.0) == x; }
  }

  /** A multiple of a whole number is whole. */
  lemma MultipleWhole(x: real, d: real)
    requires Multiple(x, d) && Whole(d)
    ensures Whole(x)
  {
    MultipleOne(d);
    MultipleTrans(x, d, 1.0);
    MultipleOne(x);
  }
}
