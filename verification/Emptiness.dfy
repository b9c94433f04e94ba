/**
 When a state is taken for empty, and two residuals for a conflict (stateEmpty,
 go/constraint.go:2354-2407): exactly where no number, or no whole number where only whole
 ones are admitted, lies within the bounds.
 */
module Emptiness {
  import opened Options
  import opened Scaled
  import opened Scalars
  import opened Sorting
  import opened Residuals
  import opened Intersection

  /** The bounds let the number through. */
  predicate Allows(lo: Option<Bound>, hi: Option<Bound>, x: real) {
    AboveLo(lo, Num(BigDecimalLeaf, x)) && BelowHi(hi, Num(BigDecimalLeaf, x))
  }

  /** The leaf of a number has no say in it. */
  lemma AllowsIs(lo: Option<Bound>, hi: Option<Bound>, v: Scalar)
    requires v.Num?
    ensures Allows(lo, hi, v.val) <==> AboveLo(lo, v) && BelowHi(hi, v)
  {
  }

  predicate NumberBound(b: Option<Bound>) {
    b.Some? ==> b.value.v.Num?
  }

  ghost predicate NoReal(lo: Option<Bound>, hi: Option<Bound>) {
    forall x: real :: !Allows(lo, hi, x)
  }

  ghost predicate NoWholeIn(lo: Option<Bound>, hi: Option<Bound>) {
    forall x: real :: Whole(x) ==> !Allows(lo, hi, x)
  }

  /** A number the bounds let through, where there is one. */
  function Inside(lo: Option<Bound>, hi: Option<Bound>): real
    requires NumberBound(lo) && NumberBound(hi)
  {
    if lo.None? && hi.None? then 0.0
    else if lo.None? then hi.value.v.val - 1.0
    else if hi.None? then lo.value.v.val + 1.0
    else (lo.value.v.val + hi.value.v.val) / 2.0
  }

  /** The bounds cross exactly where no number lies between them. */
  lemma CrossedIff(s: Residual)
    requires NumberBound(s.lo) && NumberBound(s.hi)
    ensures Crossed(s) <==> NoReal(s.lo, s.hi)
  {
    if !Crossed(s) { assert Allows(s.lo, s.hi, Inside(s.lo, s.hi)); }
  }

  /** A whole number a lower or an upper bound allows, next to it. */
  function Near(lo: Option<Bound>, hi: Option<Bound>): int
    requires NumberBound(lo) && NumberBound(hi)
  {
    if lo.Some? then Ceiling(lo.value) else if hi.Some? then FloorOf(hi.value) else 0
  }

  lemma NearAllowed(lo: Option<Bound>, hi: Option<Bound>)
    requires NumberBound(lo) && NumberBound(hi)
    ensures lo.Some? && hi.Some? ==> Ceiling(lo.value) <= FloorOf(hi.value) ==> Allows(lo, hi, Near(lo, hi) as real)
    ensures lo.None? || hi.None? ==> Allows(lo, hi, Near(lo, hi) as real)
  {
    if lo.Some? { CeilingAbove(lo.value); }
    if hi.Some? {
      FloorBelow(hi.value, FloorOf(hi.value));
      if lo.Some? && Ceiling(lo.value) <= FloorOf(hi.value) { FloorBelow(hi.value, Ceiling(lo.value)); }
    }
  }

  lemma CeilingAbove(lo: Bound)
    requires lo.v.Num?
    ensures Allows(Some(lo), None, Ceiling(lo) as real)
  {
  }

  lemma FloorBelow(hi: Bound, n: int)
    requires hi.v.Num? && n <= FloorOf(hi)
    ensures Allows(None, Some(hi), n as real)
  {
  }

  lemma WholeOutside(lo: Bound, hi: Bound, x: real)
    requires lo.v.Num? && hi.v.Num? && Whole(x) && Allows(Some(lo), Some(hi), x)
    ensures Ceiling(lo) <= FloorOf(hi)
  {
    var v := Num(BigDecimalLeaf, x);
    CeilingLeast(lo, v);
    FloorGreatest(hi, v);
  }

  /** The gap rule fires exactly where no whole number lies between the bounds. */
  lemma NoWholeIff(lo: Option<Bound>, hi: Option<Bound>)
    requires NumberBound(lo) && NumberBound(hi)
    ensures NoWholeIn(lo, hi) <==> lo.Some? && hi.Some? && FloorOf(hi.value) < Ceiling(lo.value)
  {
    hide Ceiling, FloorOf, Allows;
    NearAllowed(lo, hi);
    if lo.Some? && hi.Some? {
      forall x: real | Whole(x) && Allows(lo, hi, x) ensures Ceiling(lo.value) <= FloorOf(hi.value) {
        WholeOutside(lo.value, hi.value, x);
      }
    }
  }

  /** Told from its parts: the state admits whole numbers alone. */
  predicate WholeOnly(w: World, s: Residual) {
    || s.kind == Some(IntegerLeaf) || s.kind == Some(BigIntegerLeaf)
    || exists m :: m in s.mults && m.Num? && Whole(Shown(w, m))
  }

  /** One number alone is left by the bounds, and it is excluded in the one kind admitted. */
  ghost predicate OneExcluded(s: Residual) {
    && s.kind.Some? && s.lo.Some? && s.hi.Some?
    && exists n :: n in s.neqs && n.Num? && n.leaf == s.kind.value && OneNumber(s.lo, s.hi, n.val)
  }

  ghost predicate OneNumber(lo: Option<Bound>, hi: Option<Bound>, x: real) {
    forall y: real :: Allows(lo, hi, y) <==> y == x
  }

  lemma OneNumberIff(lo: Bound, hi: Bound, x: real)
    requires lo.v.Num? && hi.v.Num?
    ensures OneNumber(Some(lo), Some(hi), x) <==> !lo.open && !hi.open && lo.v.val == x == hi.v.val
  {
    var l, h := lo.v.val, hi.v.val;
    if OneNumber(Some(lo), Some(hi), x) {
      assert Allows(Some(lo), Some(hi), x);
      if l < h {
        assert Allows(Some(lo), Some(hi), (l + h) / 2.0);
        assert Allows(Some(lo), Some(hi), (l + (l + h) / 2.0) / 2.0);
      }
    }
  }

  lemma PointIff(s: Residual)
    requires NumberBound(s.lo) && NumberBound(s.hi)
    ensures PointExcluded(s) <==> OneExcluded(s)
  {
    hide OneNumber;
    if s.lo.Some? && s.hi.Some? {
      forall x: real ensures OneNumber(s.lo, s.hi, x) <==>
        !s.lo.value.open && !s.hi.value.open && s.lo.value.v.val == x == s.hi.value.v.val
      {
        OneNumberIff(s.lo.value, s.hi.value, x);
      }
    }
  }

  /** Nothing is left: no number within the bounds, no whole one where only whole ones count, or
      one that is excluded. */
  ghost predicate NothingLeft(w: World, s: Residual) {
    NoReal(s.lo, s.hi) || (WholeOnly(w, s) && NoWholeIn(s.lo, s.hi)) || OneExcluded(s)
  }

  lemma BoundsNumeric(w: World, s: Residual)
    requires GoodState(w, s) && !s.domain.Str?
    ensures NumberBound(s.lo) && NumberBound(s.hi)
  {
  }

  /** The rules about bounds fire exactly where nothing is left. */
  lemma BoundsEmptyIff(w: World, s: Residual)
    requires GoodState(w, s) && !s.domain.Str?
    ensures Crossed(s) || NoWhole(w, s) || PointExcluded(s) <==> NothingLeft(w, s)
  {
    hide Crossed, PointExcluded, NoReal, NoWholeIn, OneExcluded, Ceiling, FloorOf, GoodState;
    BoundsNumeric(w, s);
    CrossedIff(s);
    NoWholeIff(s.lo, s.hi);
    PointIff(s);
    IntegralIff(w, s);
  }

  lemma IntegralIff(w: World, s: Residual)
    ensures Integral(w, s) <==> WholeOnly(w, s)
  {
  }

  /** A number's state is taken for empty exactly where nothing is left of it, or what it asks is
      of text or containers. */
  lemma EmptyIff(w: World, s: Residual)
    requires Good(w, s) && s.domain.Number?
    ensures StateEmpty(w, s) <==> NothingLeft(w, s) || s.count.Some? || s.uniq || s.uniqBy != []
  {
    hide Crossed, NoWhole, PointExcluded, NothingLeft, GoodState, GoodCount;
    BoundsEmptyIff(w, s);
  }

  /** A residual of any other domain is empty exactly for its count, or as text for what is asked of
      containers or for bounds that cross. */
  lemma EmptyOtherIff(w: World, s: Residual)
    requires Good(w, s) && !s.domain.Number?
    ensures StateEmpty(w, s) <==> || (s.count.Some? && NothingLeft(w, s.count.value))
                                  || (s.domain.Str? && (s.uniq || s.uniqBy != [] || Crossed(s)))
  {
    hide Crossed, NoWhole, PointExcluded, NothingLeft;
    NoBounds(w, s);
    if s.count.Some? { EmptyIff(w, s.count.value); }
  }

  lemma NoBounds(w: World, s: Residual)
    requires GoodState(w, s) && !s.domain.Number?
    ensures !NoWhole(w, s) && !PointExcluded(s) && (s.domain.Any? ==> !Crossed(s))
  {
    hide GoodMult;
  }

  /** Bounds on text, unless both are open, cross exactly where neither end lies between them. */
  lemma TextCrossedIff(s: Residual)
    requires s.lo.Some? && s.hi.Some? && !(s.lo.value.open && s.hi.value.open)
    ensures Crossed(s) <==> forall v: Scalar :: !(AboveLo(s.lo, v) && BelowHi(s.hi, v))
  {
    hide Cmp;
    var lo, hi := s.lo.value.v, s.hi.value.v;
    CmpSelf(lo);
    CmpSelf(hi);
    CmpFlip(lo, hi);
    if Crossed(s) {
      forall v: Scalar ensures !(AboveLo(s.lo, v) && BelowHi(s.hi, v)) { CrossedNone(s, v); }
    } else if s.lo.value.open {
      assert AboveLo(s.lo, hi) && BelowHi(s.hi, hi);
    } else {
      assert AboveLo(s.lo, lo) && BelowHi(s.hi, lo);
    }
  }

  // ----- conflicts

  /** The numeric parts of a merge or of the meet of two counts, in a domain. */
  predicate Combines(w: World, d: Domain, m: Residual, a: Residual, b: Residual) {
    && m.kind == (if a.kind.None? then b.kind else a.kind)
    && m.lo == TighterBound(d, a.lo, b.lo, true) && m.hi == TighterBound(d, a.hi, b.hi, false)
    && m.neqs == DedupNeqs(d, a.neqs + b.neqs) && m.mults == DedupMults(w, a.mults + b.mults)
  }

  predicate KindsAgree(a: Residual, b: Residual) {
    a.kind.Some? && b.kind.Some? ==> a.kind == b.kind
  }

  /** Both bounds of both sides let the number through. */
  predicate AllowBoth(a: Residual, b: Residual, x: real) {
    Allows(a.lo, a.hi, x) && Allows(b.lo, b.hi, x)
  }

  lemma CombinedAllows(w: World, d: Domain, m: Residual, a: Residual, b: Residual, x: real)
    requires Combines(w, d, m, a, b)
    ensures Allows(m.lo, m.hi, x) <==> AllowBoth(a, b, x)
  {
    hide TighterBound, AboveLo, BelowHi, DedupNeqs, DedupMults;
    LowerBoth(d, a.lo, b.lo, Num(BigDecimalLeaf, x));
    UpperBoth(d, a.hi, b.hi, Num(BigDecimalLeaf, x));
  }

  /** What is combined takes whole numbers alone where one of the sides does. */
  lemma CombinedWhole(w: World, d: Domain, m: Residual, a: Residual, b: Residual)
    requires GoodState(w, a) && GoodState(w, b) && KindsAgree(a, b) && Combines(w, d, m, a, b)
    ensures WholeOnly(w, m) <==> WholeOnly(w, a) || WholeOnly(w, b)
  {
    hide TighterBound, DedupNeqs, DedupMults, GoodBound, Whole;
    MultsFrom(w, a.mults + b.mults);
    assert forall d :: d in a.mults + b.mults <==> d in a.mults || d in b.mults;
    forall d | d in a.mults + b.mults && d.Num? && Whole(Shown(w, d))
      ensures exists k :: k in m.mults && k.Num? && Whole(Shown(w, k))
    {
      MultsKept(w, a.mults + b.mults, d);
      var k :| k in m.mults && ShownOr(w, k) == ShownOr(w, d);
      assert k in a.mults + b.mults && GoodMult(w, k);
    }
  }

  /** The bounds of both leave no number for both sides, or no whole one where a side takes whole
      ones alone. */
  ghost predicate BothNone(w: World, a: Residual, b: Residual) {
    || (forall x: real :: !AllowBoth(a, b, x))
    || ((WholeOnly(w, a) || WholeOnly(w, b)) && forall x: real :: Whole(x) ==> !AllowBoth(a, b, x))
  }

  /** The one number both sides' bounds leave is excluded by a side, in the one kind admitted. */
  ghost predicate BothExcluded(a: Residual, b: Residual) {
    && (a.lo.Some? || b.lo.Some?) && (a.hi.Some? || b.hi.Some?)
    && exists n :: (n in a.neqs || n in b.neqs) && n.Num? && (Some(n.leaf) == a.kind || Some(n.leaf) == b.kind) && OneForBoth(a, b, n.val)
  }

  ghost predicate OneForBoth(a: Residual, b: Residual, x: real) {
    forall y: real :: AllowBoth(a, b, y) <==> y == x
  }

  lemma CombinedNothing(w: World, d: Domain, m: Residual, a: Residual, b: Residual)
    requires GoodState(w, a) && GoodState(w, b) && KindsAgree(a, b) && Combines(w, d, m, a, b)
    ensures NothingLeft(w, m) <==> BothNone(w, a, b) || BothExcluded(a, b)
  {
    hide Allows, AllowBoth, WholeOnly, Combines, GoodState;
    forall x: real ensures Allows(m.lo, m.hi, x) <==> AllowBoth(a, b, x) { CombinedAllows(w, d, m, a, b, x); }
    CombinedWhole(w, d, m, a, b);
    CombinedExcludes(w, d, m, a, b);
  }

  lemma CombinedExcludes(w: World, d: Domain, m: Residual, a: Residual, b: Residual)
    requires KindsAgree(a, b) && Combines(w, d, m, a, b)
    ensures OneExcluded(m) <==> BothExcluded(a, b)
  {
    hide Allows, AllowBoth, TighterBound, DedupNeqs, DedupMults;
    forall x: real ensures Allows(m.lo, m.hi, x) <==> AllowBoth(a, b, x) { CombinedAllows(w, d, m, a, b, x); }
    TighterFrom(d, a.lo, b.lo, true);
    TighterFrom(d, a.hi, b.hi, false);
    NeqsSame(d, a.neqs + b.neqs);
    assert forall n :: n in m.neqs <==> n in a.neqs || n in b.neqs;
    assert forall x: real :: OneNumber(m.lo, m.hi, x) <==> OneForBoth(a, b, x);
  }

  /** Something is asked that no number answers. */
  predicate AsksOther(s: Residual) {
    s.count.Some? || s.uniq || s.uniqBy != []
  }

  lemma MergedAsks(w: World, a: Residual, b: Residual)
    ensures AsksOther(Merge(w, a, b)) <==> AsksOther(a) || AsksOther(b)
  {
    hide TighterBound, DedupNeqs, DedupMults, DedupTexts, MeetCount;
    UniqByBoth(a.uniqBy, b.uniqBy);
  }

  lemma MergeCombines(w: World, a: Residual, b: Residual)
    requires !Disagree(a, b)
    ensures KindsAgree(a, b) && Combines(w, Merge(w, a, b).domain, Merge(w, a, b), a, b)
    ensures Meet(w, a, b).Conflict? <==> StateEmpty(w, Merge(w, a, b))
    ensures Merge(w, a, b).domain == if a.domain.Any? then b.domain else a.domain
  {
    hide TighterBound, DedupNeqs, DedupMults, DedupTexts, MeetCount;
  }

  /** Two residuals that agree, one of them numeric, are a conflict exactly where their bounds leave
      no number, no whole one where a side takes whole ones alone, or only one that is excluded,
      or where something is asked that no number answers. */
  lemma ConflictIff(w: World, a: Residual, b: Residual)
    requires Good(w, a) && Good(w, b) && !Disagree(a, b) && (a.domain.Number? || b.domain.Number?)
    ensures Meet(w, a, b).Conflict? <==> BothNone(w, a, b) || BothExcluded(a, b) || AsksOther(a) || AsksOther(b)
  {
    hide Merge, Meet, StateEmpty, NothingLeft, BothNone, BothExcluded, GoodState, GoodCount, Combines;
    var m := Merge(w, a, b);
    MergeGood(w, a, b);
    MergeCombines(w, a, b);
    EmptyIff(w, m);
    MergedAsks(w, a, b);
    CombinedNothing(w, m.domain, m, a, b);
  }

  /** The counts of both leave no length. */
  ghost predicate CountsNone(w: World, a: Option<Residual>, b: Option<Residual>) {
    if a.Some? && b.Some? then BothNone(w, a.value, b.value) || BothExcluded(a.value, b.value)
    else (a.Some? && NothingLeft(w, a.value)) || (b.Some? && NothingLeft(w, b.value))
  }

  lemma CountsNoneIff(w: World, a: Residual, b: Residual)
    requires GoodCount(w, a) && GoodCount(w, b)
    ensures NothingLeft(w, MeetCount(w, a, b)) <==> BothNone(w, a, b) || BothExcluded(a, b)
  {
    hide NothingLeft, BothNone, BothExcluded, TighterBound, DedupNeqs, DedupMults, GoodState;
    CombinedNothing(w, Number, MeetCount(w, a, b), a, b);
  }

  lemma MergedCount(w: World, a: Residual, b: Residual)
    requires Good(w, a) && Good(w, b)
    ensures var c := Merge(w, a, b).count; c.Some? && NothingLeft(w, c.value) <==> CountsNone(w, a.count, b.count)
  {
    hide NothingLeft, BothNone, BothExcluded, TighterBound, DedupNeqs, DedupMults, DedupTexts, GoodState, GoodCount, MeetCount;
    if a.count.Some? && b.count.Some? { CountsNoneIff(w, a.count.value, b.count.value); }
  }

  /** Two that agree and neither of them numeric are a conflict exactly where their counts leave no
      length, or, for text, where something is asked of containers or the bounds cross. */
  lemma ConflictOtherIff(w: World, a: Residual, b: Residual)
    requires Good(w, a) && Good(w, b) && !Disagree(a, b) && !a.domain.Number? && !b.domain.Number?
    ensures Meet(w, a, b).Conflict? <==> || CountsNone(w, a.count, b.count)
                                         || ((a.domain.Str? || b.domain.Str?)
                                             && (a.uniq || b.uniq || a.uniqBy != [] || b.uniqBy != [] || Crossed(Merge(w, a, b))))
  {
    hide Meet, StateEmpty, NothingLeft, CountsNone, GoodState, GoodCount, Combines, Crossed, MeetCount, TighterBound, DedupNeqs, DedupMults, DedupTexts;
    MergeGood(w, a, b);
    MergeCombines(w, a, b);
    EmptyOtherIff(w, Merge(w, a, b));
    MergedCount(w, a, b);
    UniqByBoth(a.uniqBy, b.uniqBy);
  }
}
