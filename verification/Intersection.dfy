/**
 The meet of two residuals admits exactly what both do, and a reported conflict leaves
 nothing both admit.
 */
module Intersection {
  import opened Options
  import opened Scaled
  import opened Scalars
  import opened Sorting
  import opened Residuals

  // ----- the parts

  lemma LowerBoth(d: Domain, a: Option<Bound>, b: Option<Bound>, v: Scalar)
    ensures AboveLo(TighterBound(d, a, b, true), v) <==> AboveLo(a, v) && AboveLo(b, v)
  {
    if a.Some? && b.Some? {
      var x, y := a.value.v, b.value.v;
      CmpFlip(x, y);
      CmpFlip(v, x);
      CmpFlip(v, y);
      if Cmp(x, y) <= 0 && Cmp(y, v) <= 0 { CmpTrans(x, y, v); }
      if Cmp(y, x) <= 0 && Cmp(x, v) <= 0 { CmpTrans(y, x, v); }
    }
  }

  lemma UpperBoth(d: Domain, a: Option<Bound>, b: Option<Bound>, v: Scalar)
    ensures BelowHi(TighterBound(d, a, b, false), v) <==> BelowHi(a, v) && BelowHi(b, v)
  {
    if a.Some? && b.Some? {
      var x, y := a.value.v, b.value.v;
      CmpFlip(x, y);
      CmpFlip(v, x);
      CmpFlip(v, y);
      if Cmp(v, x) <= 0 && Cmp(x, y) <= 0 { CmpTrans(v, x, y); }
      if Cmp(v, y) <= 0 && Cmp(y, x) <= 0 { CmpTrans(v, y, x); }
    }
  }

  lemma LikeSame()
    ensures Like(SameAs())
  {
  }

  lemma LikeShown(w: World)
    ensures Like(ShownSame(w))
  {
  }

  lemma LikeText()
    ensures Like(TextSame())
  {
  }

  lemma NeqsSame(d: Domain, ns: seq<Scalar>)
    ensures forall n :: n in DedupNeqs(d, ns) <==> n in ns
  {
    LikeSame();
    var sorted := Sort(ns, NeqLess(d));
    forall n | n in ns ensures n in DedupNeqs(d, ns) {
      SqueezeKeeps(sorted, SameAs(), n);
      var y :| y in Squeeze(sorted, SameAs()) && SameAs()(y, n);
      SameIs(y, n);
    }
  }

  lemma TextsSame(ts: seq<string>)
    ensures forall t :: t in DedupTexts(ts) <==> t in ts
  {
    LikeText();
    var sorted := Sort(ts, TextLess());
    forall t | t in ts ensures t in DedupTexts(ts) {
      SqueezeKeeps(sorted, TextSame(), t);
    }
  }

  /** Every divisor is kept in one that shows the same. */
  lemma MultsKept(w: World, ms: seq<Scalar>, m: Scalar)
    requires m in ms
    ensures exists k :: k in DedupMults(w, ms) && ShownOr(w, k) == ShownOr(w, m)
  {
    LikeShown(w);
    var sorted := Sort(ms, MultLess(w));
    SqueezeKeeps(sorted, ShownSame(w), m);
    var y :| y in Squeeze(sorted, ShownSame(w)) && ShownSame(w)(y, m);
    assert ShownOr(w, y) == ShownOr(w, m);
  }

  lemma MultsFrom(w: World, ms: seq<Scalar>)
    ensures forall m :: m in DedupMults(w, ms) ==> m in ms
  {
  }

  lemma MultsBoth(w: World, a: seq<Scalar>, b: seq<Scalar>, v: Scalar)
    requires forall m :: m in a + b ==> GoodMult(w, m)
    ensures (forall m :: m in DedupMults(w, a + b) ==> IsMultiple(w, v, m))
       <==> (forall m :: m in a ==> IsMultiple(w, v, m)) && (forall m :: m in b ==> IsMultiple(w, v, m))
  {
    hide DedupMults, IsMultiple, Shown;
    var d := DedupMults(w, a + b);
    MultsFrom(w, a + b);
    if forall m :: m in d ==> IsMultiple(w, v, m) {
      forall m | m in a + b ensures IsMultiple(w, v, m) {
        MultsKept(w, a + b, m);
        var k :| k in d && ShownOr(w, k) == ShownOr(w, m);
        SameMultiple(w, v, k, m);
      }
      assert forall m :: m in a || m in b ==> m in a + b;
    }
  }

  lemma SameMultiple(w: World, v: Scalar, k: Scalar, m: Scalar)
    requires k.Num? && m.Num? && ShownOr(w, k) == ShownOr(w, m)
    ensures IsMultiple(w, v, k) <==> IsMultiple(w, v, m)
  {
  }

  // ----- a state's own part of admission

  lemma MergeAdmits(w: World, a: Residual, b: Residual, v: Scalar)
    requires Good(w, a) && Good(w, b) && !Disagree(a, b)
    ensures StateAdmits(w, Merge(w, a, b), v) <==> StateAdmits(w, a, v) && StateAdmits(w, b, v)
  {
    hide TighterBound, DedupNeqs, DedupMults, DedupTexts, AboveLo, BelowHi, MeetCount;
    var m := Merge(w, a, b);
    UniqByBoth(a.uniqBy, b.uniqBy);
    if v.Num? || v.Text? {
      LowerBoth(m.domain, a.lo, b.lo, v);
      UpperBoth(m.domain, a.hi, b.hi, v);
      NeqsSame(m.domain, a.neqs + b.neqs);
      MultsGood(w, a, b);
      MultsBoth(w, a.mults, b.mults, v);
      TextsSame(a.res + b.res);
      if a.domain.Any? { Unbounded(w, a, v); }
      if b.domain.Any? { Unbounded(w, b, v); }

    }
  }

  lemma UniqByBoth(a: seq<string>, b: seq<string>)
    ensures DedupTexts(a + b) == [] <==> a == [] && b == []
  {
    TextsSame(a + b);
    HasHead(a + b);
    HasHead(DedupTexts(a + b));
  }

  lemma MultsGood(w: World, a: Residual, b: Residual)
    requires GoodState(w, a) && GoodState(w, b)
    ensures forall m :: m in a.mults + b.mults ==> GoodMult(w, m)
  {
  }

  /** The checks of a residual with no domain hold of everything. */
  lemma Unbounded(w: World, a: Residual, v: Scalar)
    requires GoodState(w, a) && a.domain.Any?
    ensures AboveLo(a.lo, v) && BelowHi(a.hi, v)
    ensures a.neqs == [] && a.mults == [] && a.res == [] && a.kind.None?
  {
    HasHead(a.neqs);
    HasHead(a.mults);
  }

  // ----- emptiness

  lemma CrossedNone(s: Residual, v: Scalar)
    requires Crossed(s)
    ensures !(AboveLo(s.lo, v) && BelowHi(s.hi, v))
  {
    var lo, hi := s.lo.value.v, s.hi.value.v;
    CmpFlip(v, lo);
    if AboveLo(s.lo, v) && BelowHi(s.hi, v) { CmpTrans(lo, v, hi); CmpFlip(lo, hi); }
  }

  lemma CeilingLeast(lo: Bound, v: Scalar)
    requires lo.v.Num? && v.Num? && Whole(v.val) && AboveLo(Some(lo), v)
    ensures Ceiling(lo) <= v.val.Floor
  {
  }

  lemma FloorGreatest(hi: Bound, v: Scalar)
    requires hi.v.Num? && v.Num? && Whole(v.val) && BelowHi(Some(hi), v)
    ensures v.val.Floor <= FloorOf(hi)
  {
  }

  /** Whatever an integral state admits is whole. */
  lemma IntegralWhole(w: World, s: Residual, v: Scalar)
    requires Faithful(w) && GoodState(w, s) && GoodScalar(v) && Integral(w, s) && v.Num?
    requires s.kind.Some? ==> v.leaf == s.kind.value
    requires forall m :: m in s.mults ==> IsMultiple(w, v, m)
    ensures Whole(v.val)
  {
    if !(s.kind == Some(IntegerLeaf) || s.kind == Some(BigIntegerLeaf)) {
      var m :| m in s.mults && m.Num? && Whole(Shown(w, m));
      assert GoodMult(w, m) && IsMultiple(w, v, m);
      MultipleOfIs(Shown(w, v), Shown(w, m));
      MultipleWhole(Shown(w, v), Shown(w, m));
      ShownWhole(w, v);
    }
  }

  lemma NoWholeNone(w: World, s: Residual, v: Scalar)
    requires Faithful(w) && GoodState(w, s) && GoodScalar(v) && NoWhole(w, s)
    ensures !StateAdmits(w, s, v)
  {
    hide IsMultiple, Integral, GoodMult, Same;
    if StateAdmits(w, s, v) {
      OnlyNumbers(w, s, v);
      IntegralWhole(w, s, v);
      CeilingLeast(s.lo.value, v);
      FloorGreatest(s.hi.value, v);
    }
  }

  /** A bounded state admits only scalars of its domain. */
  lemma OnlyNumbers(w: World, s: Residual, v: Scalar)
    requires GoodState(w, s) && s.lo.Some? && StateAdmits(w, s, v)
    ensures InDomain(s.domain, v) && (s.kind.Some? ==> v.leaf == s.kind.value)
    ensures s.lo.value.v.Num? ==> v.Num?
    ensures AboveLo(s.lo, v) && BelowHi(s.hi, v)
    ensures forall n :: n in s.neqs ==> !Same(v, n)
    ensures forall m :: m in s.mults ==> IsMultiple(w, v, m)
  {
  }

  lemma PointSame(s: Residual, v: Scalar, n: Scalar)
    requires s.lo.Some? && s.hi.Some? && Cmp(s.lo.value.v, s.hi.value.v) == 0
    requires v.Num? && n.Num? && s.lo.value.v.Num? && s.hi.value.v.Num?
    requires n.leaf == v.leaf && Cmp(n, s.lo.value.v) == 0
    requires AboveLo(s.lo, v) && BelowHi(s.hi, v)
    ensures Same(v, n)
  {
  }

  lemma PointExcludedNone(w: World, s: Residual, v: Scalar)
    requires GoodState(w, s) && PointExcluded(s)
    ensures !StateAdmits(w, s, v)
  {
    hide IsMultiple, GoodMult, AboveLo, BelowHi, Same;
    var n :| n in s.neqs && n.Num? && n.leaf == s.kind.value && Cmp(n, s.lo.value.v) == 0;
    if StateAdmits(w, s, v) {
      OnlyNumbers(w, s, v);
      PointSame(s, v, n);
    }
  }

  lemma EmptyBounds(w: World, s: Residual, v: Scalar)
    requires Faithful(w) && GoodState(w, s) && GoodScalar(v) && (Crossed(s) || NoWhole(w, s) || PointExcluded(s))
    ensures !StateAdmits(w, s, v)
  {
    hide StateAdmits, GoodState, Crossed, NoWhole, PointExcluded;
    if NoWhole(w, s) {
      NoWholeNone(w, s, v);
    } else if PointExcluded(s) {
      PointExcludedNone(w, s, v);
    } else {
      CrossedRefuses(w, s, v);
    }
  }

  lemma CrossedRefuses(w: World, s: Residual, v: Scalar)
    requires GoodState(w, s) && Crossed(s)
    ensures !StateAdmits(w, s, v)
  {
    hide IsMultiple, GoodMult;
    if StateAdmits(w, s, v) {
      OnlyNumbers(w, s, v);
      CrossedNone(s, v);
    }
  }

  /** A count taken for empty is met by no length. */
  lemma EmptyCount(w: World, c: Residual, n: nat)
    requires Faithful(w) && GoodCount(w, c) && StateEmpty(w, c)
    ensures !StateAdmits(w, c, CountVal(n))
  {
    hide StateAdmits, Crossed, NoWhole, PointExcluded;
    EmptyBounds(w, c, CountVal(n));
  }

  /** A state taken for empty admits nothing. */
  lemma EmptyAdmitsNone(w: World, s: Residual, v: Scalar)
    requires Faithful(w) && Good(w, s) && StateEmpty(w, s) && GoodScalar(v)
    ensures !Admits(w, s, v)
  {
    hide StateAdmits, Crossed, NoWhole, PointExcluded, GoodState, GoodCount;
    if Crossed(s) || NoWhole(w, s) || PointExcluded(s) {
      EmptyBounds(w, s, v);
    } else if s.count.Some? && StateEmpty(w, s.count.value) {
      if v.Text? { EmptyCount(w, s.count.value, |v.s|); }
    } else if s.domain.Number? && v.Text? {
      TextRefused(w, s, v);
    }
  }

  /** A number's state refuses text. */
  lemma TextRefused(w: World, s: Residual, v: Scalar)
    requires s.domain.Number? && v.Text?
    ensures !StateAdmits(w, s, v)
  {
  }

  // ----- the merged state is good

  lemma TighterFrom(d: Domain, a: Option<Bound>, b: Option<Bound>, lower: bool)
    ensures TighterBound(d, a, b, lower) == a || TighterBound(d, a, b, lower) == b
    ensures TighterBound(d, a, b, lower).None? <==> a.None? && b.None?
  {
  }

  lemma CountGood(w: World, a: Residual, b: Residual)
    requires GoodCount(w, a) && GoodCount(w, b)
    ensures GoodCount(w, MeetCount(w, a, b))
  {
    hide TighterBound, DedupNeqs, DedupMults, GoodMult;
    TighterFrom(Number, a.lo, b.lo, true);
    TighterFrom(Number, a.hi, b.hi, false);
    NeqsSame(Number, a.neqs + b.neqs);
    MultsFrom(w, a.mults + b.mults);
  }

  lemma MergeGood(w: World, a: Residual, b: Residual)
    requires Good(w, a) && Good(w, b) && !Disagree(a, b)
    ensures Good(w, Merge(w, a, b))
  {
    hide GoodCount, MeetCount;
    MergeGoodState(w, a, b);
    if a.count.Some? && b.count.Some? { CountGood(w, a.count.value, b.count.value); }
  }

  lemma MergeGoodState(w: World, a: Residual, b: Residual)
    requires GoodState(w, a) && GoodState(w, b) && !Disagree(a, b)
    ensures GoodState(w, Merge(w, a, b))
  {
    hide TighterBound, DedupNeqs, DedupMults, DedupTexts, MeetCount, GoodMult;
    var d := if a.domain.Any? then b.domain else a.domain;
    TighterFrom(d, a.lo, b.lo, true);
    TighterFrom(d, a.hi, b.hi, false);
    NeqsSame(d, a.neqs + b.neqs);
    MultsFrom(w, a.mults + b.mults);
    UniqByBoth(a.res, b.res);
    UniqByBoth(a.fmts, b.fmts);
  }

  // ----- the meet

  /** A count's part of admission: the scalar is text of an admitted length. */
  predicate CountAdmits(w: World, c: Option<Residual>, v: Scalar) {
    c.Some? ==> v.Text? && StateAdmits(w, c.value, CountVal(|v.s|))
  }

  lemma CountsBoth(w: World, a: Residual, b: Residual, v: Scalar)
    requires GoodCount(w, a) && GoodCount(w, b)
    ensures StateAdmits(w, MeetCount(w, a, b), v) <==> StateAdmits(w, a, v) && StateAdmits(w, b, v)
  {
    hide TighterBound, DedupNeqs, DedupMults, AboveLo, BelowHi, GoodMult, IsMultiple;
    if v.Num? || v.Text? {
      LowerBoth(Number, a.lo, b.lo, v);
      UpperBoth(Number, a.hi, b.hi, v);
      NeqsSame(Number, a.neqs + b.neqs);
      MultsGood(w, a, b);
      MultsBoth(w, a.mults, b.mults, v);
    }
  }

  lemma MergedCounts(w: World, a: Residual, b: Residual, v: Scalar)
    requires Good(w, a) && Good(w, b)
    ensures CountAdmits(w, Merge(w, a, b).count, v) <==> CountAdmits(w, a.count, v) && CountAdmits(w, b.count, v)
  {
    hide MeetCount, StateAdmits, GoodState, GoodCount, DedupNeqs, DedupMults, DedupTexts, TighterBound;
    if a.count.Some? && b.count.Some? && v.Text? { CountsBoth(w, a.count.value, b.count.value, CountVal(|v.s|)); }
  }

  /** The string flags let the scalar through. */
  predicate FlagsAdmit(g: Residual, v: Scalar) {
    && (g.pathKind ==> v.Text? && v.path) && (g.nonEmpty ==> !(v.Text? && v.path))
    && (g.nonEmpty && !g.emptyOk ==> !(v.Text? && !v.path && v.s == ""))
  }

  predicate FormatsAdmit(w: World, g: Residual, v: Scalar) {
    forall f :: f in g.fmts ==> w.formats(f, if v.Text? then v.s else "")
  }

  lemma AdmitsIs(w: World, g: Residual, v: Scalar)
    ensures Admits(w, g, v) <==> !g.uniq && g.uniqBy == [] && CountAdmits(w, g.count, v) && FlagsAdmit(g, v)
                                 && StateAdmits(w, g, v) && FormatsAdmit(w, g, v)
  {
    hide StateAdmits;
  }

  lemma FormatsBoth(w: World, a: Residual, b: Residual, v: Scalar)
    ensures FormatsAdmit(w, Merge(w, a, b), v) <==> FormatsAdmit(w, a, v) && FormatsAdmit(w, b, v)
  {
    hide DedupNeqs, DedupMults, DedupTexts, TighterBound, MeetCount;
    TextsSame(a.fmts + b.fmts);
    var m := Merge(w, a, b);
    assert forall f :: f in m.fmts <==> f in a.fmts || f in b.fmts;
  }

  /** The merged state admits what both do. */
  lemma MergeBoth(w: World, a: Residual, b: Residual, v: Scalar)
    requires Good(w, a) && Good(w, b) && !Disagree(a, b) && !a.emptyOk && !b.emptyOk
    ensures Admits(w, Merge(w, a, b), v) <==> Admits(w, a, v) && Admits(w, b, v)
  {
    hide Admits, StateAdmits, FormatsAdmit, CountAdmits, Good, Disagree, DedupNeqs, DedupMults, DedupTexts, TighterBound, MeetCount;
    var m := Merge(w, a, b);
    AdmitsIs(w, a, v);
    AdmitsIs(w, b, v);
    AdmitsIs(w, m, v);
    MergeAdmits(w, a, b, v);
    MergedCounts(w, a, b, v);
    UniqByBoth(a.uniqBy, b.uniqBy);
    FormatsBoth(w, a, b, v);
  }

  lemma DomainsDisjoint(w: World, a: Residual, b: Residual, v: Scalar)
    requires !a.domain.Any? && !b.domain.Any? && a.domain != b.domain
    ensures !(StateAdmits(w, a, v) && StateAdmits(w, b, v))
  {
  }

  lemma KindsDisjoint(w: World, a: Residual, b: Residual, v: Scalar)
    requires a.domain.Number? && b.domain.Number? && a.kind.Some? && b.kind.Some? && a.kind != b.kind
    ensures !(StateAdmits(w, a, v) && StateAdmits(w, b, v))
  {
  }

  /** What residuals that disagree admit is disjoint. */
  lemma DisagreeDisjoint(w: World, a: Residual, b: Residual, v: Scalar)
    requires Good(w, a) && Good(w, b) && Disagree(a, b) && !a.emptyOk && !b.emptyOk
    ensures !(Admits(w, a, v) && Admits(w, b, v))
  {
    hide Admits, StateAdmits, GoodBound, GoodMult, GoodCount, FormatsAdmit, CountAdmits;
    AdmitsIs(w, a, v);
    AdmitsIs(w, b, v);
    if !a.domain.Any? && !b.domain.Any? && a.domain != b.domain {
      DomainsDisjoint(w, a, b, v);
    } else if a.kind.Some? && b.kind.Some? && a.kind != b.kind {
      KindsDisjoint(w, a, b, v);
    }
  }

  /** The meet is intersection: what it gives admits exactly what both sides do, and where it
      reports a conflict no scalar is admitted by both. */
  lemma MeetIntersects(w: World, a: Residual, b: Residual)
    requires Faithful(w) && Good(w, a) && Good(w, b) && !a.emptyOk && !b.emptyOk
    ensures Meet(w, a, b).Meets? ==> Good(w, Meet(w, a, b).r)
    ensures Meet(w, a, b).Meets? ==> forall v :: Admits(w, Meet(w, a, b).r, v) <==> Admits(w, a, v) && Admits(w, b, v)
    ensures Meet(w, a, b).Conflict? ==> forall v :: GoodScalar(v) ==> !(Admits(w, a, v) && Admits(w, b, v))
  {
    hide Admits, Good, Disagree, Merge, StateEmpty, GoodScalar, Faithful;
    if Disagree(a, b) {
      forall v ensures !(Admits(w, a, v) && Admits(w, b, v)) { DisagreeDisjoint(w, a, b, v); }
    } else {
      var m := Merge(w, a, b);
      MergeGood(w, a, b);
      forall v ensures Admits(w, m, v) <==> Admits(w, a, v) && Admits(w, b, v) { MergeBoth(w, a, b, v); }
      if StateEmpty(w, m) {
        forall v | GoodScalar(v) ensures !Admits(w, m, v) { EmptyAdmitsNone(w, m, v); }
      }
    }
  }
}
