/**
 How far the verdict of subsumption reaches (go/constraint.go:2148-2221): a bound, an
 exclusion or a divisor of the general side is taken for covered wherever what the specific
 side says of the same leaves it nothing to refuse.
 */
module Coverage {
  import opened Options
  import opened Scaled
  import opened Scalars
  import opened Residuals
  import opened Intersection
  import opened Subsumption
  import opened Emptiness

  /** A lower end is covered exactly where every number above the specific end is above it. */
  lemma LowerCoversIff(g: Option<Bound>, s: Option<Bound>)
    requires NumberBound(g) && NumberBound(s)
    ensures LowerCovers(g, s) <==> forall x: real :: Allows(s, None, x) ==> Allows(g, None, x)
  {
    if LowerCovers(g, s) {
      forall x: real | Allows(s, None, x) ensures Allows(g, None, x) { LowerSound(g, s, Num(BigDecimalLeaf, x)); }
    } else {
      var x := g.value.v.val;
      var y := if s.Some? then s.value.v.val else x - 1.0;
      assert Allows(s, None, if y < x then (x + y) / 2.0 else x) || s.None?;
      assert s.None? ==> Allows(s, None, y);
    }
  }

  lemma UpperCoversIff(g: Option<Bound>, s: Option<Bound>)
    requires NumberBound(g) && NumberBound(s)
    ensures UpperCovers(g, s) <==> forall x: real :: Allows(None, s, x) ==> Allows(None, g, x)
  {
    if UpperCovers(g, s) {
      forall x: real | Allows(None, s, x) ensures Allows(None, g, x) { UpperSound(g, s, Num(BigDecimalLeaf, x)); }
    } else {
      var x := g.value.v.val;
      var y := if s.Some? then s.value.v.val else x + 1.0;
      assert Allows(None, s, if x < y then (x + y) / 2.0 else x) || s.None?;
      assert s.None? ==> Allows(None, s, y);
    }
  }

  // ----- divisors

  /** All divisors of the general side that 1 is a multiple of are covered by a specific side that
      takes whole numbers alone. */
  lemma WholeCovers(w: World, g: Residual, s: Residual)
    requires WholeOnly(w, s) && forall a :: a in g.mults ==> IsMultiple(w, One, a)
    ensures Divisors(w, g, s)
  {
  }

  /** Where whole numbers are all the specific side asks for, a divisor is covered exactly where
      every whole number is a multiple of it. */
  lemma WholeCoversIff(w: World, a: Scalar, s: Residual)
    requires Faithful(w) && GoodMult(w, a) && WholeOnly(w, s) && s.mults == []
    ensures DivisorCovered(w, a, s) <==> forall v: Scalar :: v.Num? && Whole(v.val) ==> IsMultiple(w, v, a)
  {
    hide IsMultiple, GoodMult, Faithful;
    if IsMultiple(w, One, a) {
      forall v: Scalar | v.Num? && Whole(v.val) ensures IsMultiple(w, v, a) { WholeMultiple(w, v, a); }
    }
    assert One.Num? && Whole(One.val);
  }

  /** Where one divisor is all it asks for, exactly where every multiple of that one is a multiple
      of the general one. */
  lemma DivisorCoversIff(w: World, a: Scalar, b: Scalar, s: Residual)
    requires Faithful(w) && GoodMult(w, a) && GoodMult(w, b) && s.mults == [b]
    requires s.kind != Some(IntegerLeaf) && s.kind != Some(BigIntegerLeaf)
    ensures DivisorCovered(w, a, s) <==> forall v: Scalar :: IsMultiple(w, v, b) ==> IsMultiple(w, v, a)
  {
    hide IsMultiple, GoodMult, Faithful, Whole;
    MultipleItself(w, b);
    assert b in s.mults;
    if DivisorCovered(w, a, s) {
      forall v: Scalar | IsMultiple(w, v, b) ensures IsMultiple(w, v, a) {
        MultipleNum(w, v, b);
        if IsMultiple(w, b, a) {
          MultipleChain(w, v, b, a);
        } else {
          MultipleShown(w, v, b);
          MultipleWhole(Shown(w, v), Shown(w, b));
          ShownWhole(w, v);
          WholeMultiple(w, v, a);
        }
      }
    }
  }

  // ----- exclusions

  /** Exclusions of the general side are covered exactly where each scalar it excludes the specific
      side excludes too; patterns and formats where the specific side names each. */
  lemma SetsIff(g: Residual, s: Residual)
    ensures Sets(g, s) <==> && (forall v: Scalar :: v in g.neqs ==> v in s.neqs)
                            && (forall r :: r in g.res ==> r in s.res) && (forall f :: f in g.fmts ==> f in s.fmts)
                            && (forall k :: k in g.uniqBy ==> k in s.uniqBy)
  {
    hide Same;
    forall n: Scalar, m: Scalar ensures Same(n, m) <==> n == m { SameIs(n, m); }
  }
}
