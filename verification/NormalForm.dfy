/**
 The stored form of a numeric residual does not depend on the order of meets: the meet is
 commutative, associative and idempotent on the stored parts themselves, with a conflict as
 its absorbing zero (go/constraint.go:1419-1479, 2354-2397, 2609-2691).
 */
module NormalForm {
  import opened Options
  import opened Scaled
  import opened Scalars
  import opened Sorting
  import opened Residuals
  import opened Intersection

  /** A residual of bounds, exclusions, divisors and kinds over numbers. */
  ghost predicate Numeric(w: World, r: Residual) {
    && r.domain.Number? && GoodState(w, r) && !r.clash
    && r.res == [] && r.fmts == [] && r.count.None? && !r.uniq && r.uniqBy == []
    && !r.nonEmpty && !r.emptyOk && !r.pathKind
  }

  /** As a meet stores it: exclusions in order, each once, and divisors by what they show. */
  ghost predicate Stored(w: World, r: Residual) {
    && Numeric(w, r) && !StateEmpty(w, r)
    && StrictlySorted(r.neqs, NeqLess(Number)) && StrictlySorted(r.mults, ShownLess(w))
  }

  // ----- bounds

  predicate NumBound(b: Option<Bound>) {
    b.Some? ==> b.value.v.Num?
  }

  lemma BoundsCommute(a: Option<Bound>, b: Option<Bound>, lower: bool)
    requires NumBound(a) && NumBound(b)
    ensures TighterBound(Number, a, b, lower) == TighterBound(Number, b, a, lower)
  {
    if a.Some? && b.Some? { RankTells(a.value.v.leaf, b.value.v.leaf); }
  }

  lemma BoundsAssociate(a: Option<Bound>, b: Option<Bound>, c: Option<Bound>, lower: bool)
    requires NumBound(a) && NumBound(b) && NumBound(c)
    ensures TighterBound(Number, TighterBound(Number, a, b, lower), c, lower)
         == TighterBound(Number, a, TighterBound(Number, b, c, lower), lower)
  {
    hide TowerRank;
  }

  // ----- exclusions

  lemma NeqWeak()
    ensures Weak(NeqLess(Number))
  {
    hide CmpText, Rank;
    forall x ensures Cmp(x, x) == 0 { CmpSelf(x); }
    forall x, y, z ensures Carries(x, y, z) { CmpCarries(x, y, z); }
    var less := NeqLess(Number);
    forall x, y, z | less(x, y) && less(y, z) ensures less(x, z) { assert Carries(x, y, z); }
    forall x, y, z | !less(x, y) && !less(y, z) ensures !less(x, z) {
      assert Carries(z, y, x);
      CmpFlip(x, y);
      CmpFlip(y, z);
      CmpFlip(x, z);
    }
  }

  ghost predicate Carries(x: Scalar, y: Scalar, z: Scalar) {
    Cmp(x, y) <= 0 && Cmp(y, z) <= 0 ==> Cmp(x, z) <= 0 && (Cmp(x, z) == 0 <==> Cmp(x, y) == 0 && Cmp(y, z) == 0)
  }

  lemma CmpCarries(x: Scalar, y: Scalar, z: Scalar)
    ensures Carries(x, y, z)
  {
    if Cmp(x, y) <= 0 && Cmp(y, z) <= 0 {
      CmpTrans(x, y, z);
      if Cmp(x, y) == 0 && Cmp(y, z) == 0 {
        CmpFlip(x, y);
        CmpFlip(y, z);
        CmpFlip(x, z);
        CmpTrans(z, y, x);
      }
    }
  }

  predicate AllNum(xs: seq<Scalar>) {
    forall x :: x in xs ==> x.Num?
  }

  /** Exclusions are stored strictly sorted, so their set fixes them. */
  lemma NeqsStrict(xs: seq<Scalar>)
    requires AllNum(xs)
    ensures StrictlySorted(DedupNeqs(Number, xs), NeqLess(Number))
  {
    hide Sort, Squeeze, Weak, SortedBy;
    var less := NeqLess(Number);
    NeqWeak();
    SortSorted(xs, less);
    var sorted := Sort(xs, less);
    forall x, y | x in sorted && y in sorted ensures SameAs()(x, y) <==> !less(x, y) && !less(y, x) {
      RankTells(x.leaf, y.leaf);
    }
    SqueezeStrict(sorted, less, SameAs());
  }

  lemma NeqsUnique(xs: seq<Scalar>, ys: seq<Scalar>)
    requires AllNum(xs) && AllNum(ys) && forall x :: x in xs <==> x in ys
    ensures DedupNeqs(Number, xs) == DedupNeqs(Number, ys)
  {
    hide DedupNeqs, NeqLess, Weak, StrictlySorted;
    NeqWeak();
    NeqsStrict(xs);
    NeqsStrict(ys);
    NeqsSame(Number, xs);
    NeqsSame(Number, ys);
    StrictUnique(DedupNeqs(Number, xs), DedupNeqs(Number, ys), NeqLess(Number));
  }

  // ----- divisors

  function ShownLess(w: World): (Scalar, Scalar) -> bool {
    (x, y) => ShownOr(w, x) < ShownOr(w, y)
  }

  lemma MultWeak(w: World)
    ensures Weak(MultLess(w)) && Weak(ShownLess(w))
  {
    hide ShownOr, Rank;
  }

  /** A divisor of the list, and of those that show the same the lowest in the tower. */
  ghost predicate Least(w: World, xs: seq<Scalar>, y: Scalar) {
    y in xs && forall x :: x in xs && ShownOr(w, x) == ShownOr(w, y) ==> Rank(y) <= Rank(x)
  }

  lemma MultsStrict(w: World, xs: seq<Scalar>)
    ensures SortedBy(Sort(xs, MultLess(w)), MultLess(w))
    ensures StrictlySorted(DedupMults(w, xs), ShownLess(w))
  {
    hide Sort, Squeeze, Weak, ShownOr, Rank;
    MultWeak(w);
    SortSorted(xs, MultLess(w));
    SqueezeStrict(Sort(xs, MultLess(w)), ShownLess(w), ShownSame(w));
  }

  /** What is stored of the divisors is exactly the least of each shown value. */
  lemma MultsLeast(w: World, xs: seq<Scalar>, y: Scalar)
    requires Faithful(w) && AllNum(xs)
    ensures y in DedupMults(w, xs) <==> Least(w, xs, y)
  {
    hide Sort, Squeeze, SortedBy, StrictlySorted, ShownOr, Rank, Shown, Faithful;
    MultsStrict(w, xs);
    LikeShown(w);
    var sorted := Sort(xs, MultLess(w));
    if y in DedupMults(w, xs) {
      forall x | x in xs && ShownOr(w, x) == ShownOr(w, y) ensures Rank(y) <= Rank(x) {
        SqueezeFirst(sorted, MultLess(w), ShownLess(w), ShownSame(w), y, x);
      }
    }
    if Least(w, xs, y) {
      MultsKept(w, xs, y);
      var k :| k in DedupMults(w, xs) && ShownOr(w, k) == ShownOr(w, y);
      SqueezeFirst(sorted, MultLess(w), ShownLess(w), ShownSame(w), k, y);
      assert Rank(k) <= Rank(y) <= Rank(k);
      SameShown(w, k, y);
    }
  }

  lemma SameShown(w: World, k: Scalar, y: Scalar)
    requires Faithful(w) && k.Num? && y.Num? && ShownOr(w, k) == ShownOr(w, y) && Rank(k) == Rank(y)
    ensures k == y
  {
    RankTells(k.leaf, y.leaf);
  }

  lemma MultsUnique(w: World, xs: seq<Scalar>, ys: seq<Scalar>)
    requires Faithful(w) && AllNum(xs) && AllNum(ys)
    requires forall y :: Least(w, xs, y) <==> Least(w, ys, y)
    ensures DedupMults(w, xs) == DedupMults(w, ys)
  {
    hide DedupMults, Least, Weak, StrictlySorted, Faithful;
    MultWeak(w);
    MultsStrict(w, xs);
    MultsStrict(w, ys);
    forall y ensures y in DedupMults(w, xs) <==> y in DedupMults(w, ys) {
      MultsLeast(w, xs, y);
      MultsLeast(w, ys, y);
    }
    StrictUnique(DedupMults(w, xs), DedupMults(w, ys), ShownLess(w));
  }

  /** Deduplicating one side first changes nothing. */
  lemma LeastJoin(w: World, xs: seq<Scalar>, ys: seq<Scalar>, y: Scalar)
    requires Faithful(w) && AllNum(xs) && AllNum(ys)
    ensures Least(w, DedupMults(w, xs) + ys, y) <==> Least(w, xs + ys, y)
  {
    hide DedupMults, ShownOr, Rank, Faithful;
    MultsFrom(w, xs);
    if Least(w, xs + ys, y) {
      MultsLeast(w, xs, y);
    }
    if Least(w, DedupMults(w, xs) + ys, y) {
      forall x | x in xs + ys && ShownOr(w, x) == ShownOr(w, y) ensures Rank(y) <= Rank(x) {
        if x in xs {
          MultsKept(w, xs, x);
          var k :| k in DedupMults(w, xs) && ShownOr(w, k) == ShownOr(w, x);
          MultsLeast(w, xs, k);
        }
      }
    }
  }

  lemma MultsJoin(w: World, xs: seq<Scalar>, ys: seq<Scalar>)
    requires Faithful(w) && AllNum(xs) && AllNum(ys)
    ensures DedupMults(w, DedupMults(w, xs) + ys) == DedupMults(w, xs + ys)
  {
    hide DedupMults, Least, Faithful;
    MultsFrom(w, xs);
    forall y ensures Least(w, DedupMults(w, xs) + ys, y) <==> Least(w, xs + ys, y) { LeastJoin(w, xs, ys, y); }
    MultsUnique(w, DedupMults(w, xs) + ys, xs + ys);
  }

  lemma MultsCommute(w: World, xs: seq<Scalar>, ys: seq<Scalar>)
    requires Faithful(w) && AllNum(xs) && AllNum(ys)
    requires forall x :: x in xs <==> x in ys
    ensures DedupMults(w, xs) == DedupMults(w, ys)
  {
    hide DedupMults, ShownOr, Rank, Faithful;
    MultsUnique(w, xs, ys);
  }

  // ----- the merge

  lemma NumericParts(w: World, a: Residual)
    requires Numeric(w, a)
    ensures NumBound(a.lo) && NumBound(a.hi) && AllNum(a.neqs) && AllNum(a.mults)
  {
  }

  lemma MergeNumeric(w: World, a: Residual, b: Residual)
    requires Numeric(w, a) && Numeric(w, b) && !Disagree(a, b)
    ensures Numeric(w, Merge(w, a, b))
  {
    hide TighterBound, DedupNeqs, DedupMults, DedupTexts, GoodState;
    MergeGoodState(w, a, b);
    var none: seq<string> := [];
    UniqByBoth(none, none);
  }

  /** Numeric residuals are their kind, bounds, exclusions and divisors. */
  lemma NumericSame(w: World, a: Residual, b: Residual)
    requires Numeric(w, a) && Numeric(w, b)
    requires a.kind == b.kind && a.lo == b.lo && a.hi == b.hi && a.neqs == b.neqs && a.mults == b.mults
    ensures a == b
  {
  }

  lemma MergeCommutes(w: World, a: Residual, b: Residual)
    requires Faithful(w) && Numeric(w, a) && Numeric(w, b) && !Disagree(a, b)
    ensures Merge(w, a, b) == Merge(w, b, a)
  {
    hide Numeric, Faithful, TighterBound, DedupNeqs, DedupMults, DedupTexts;
    MergeNumeric(w, a, b);
    MergeNumeric(w, b, a);
    NumericParts(w, a);
    NumericParts(w, b);
    BoundsCommute(a.lo, b.lo, true);
    BoundsCommute(a.hi, b.hi, false);
    NeqsUnique(a.neqs + b.neqs, b.neqs + a.neqs);
    MultsCommute(w, a.mults + b.mults, b.mults + a.mults);
    assert a.domain == b.domain == Number by { Domains(w, a); Domains(w, b); }
    NumericSame(w, Merge(w, a, b), Merge(w, b, a));
  }

  lemma Domains(w: World, a: Residual)
    requires Numeric(w, a)
    ensures a.domain == Number
  {
  }

  /** Which two numeric residuals disagree: both name a kind, and not the same. */
  lemma DisagreeKinds(w: World, a: Residual, b: Residual)
    requires Numeric(w, a) && Numeric(w, b)
    ensures Disagree(a, b) <==> a.kind.Some? && b.kind.Some? && a.kind != b.kind
  {
  }

  lemma NeqsJoin(xs: seq<Scalar>, ys: seq<Scalar>, zs: seq<Scalar>)
    requires AllNum(xs) && AllNum(ys) && AllNum(zs)
    ensures DedupNeqs(Number, DedupNeqs(Number, xs + ys) + zs) == DedupNeqs(Number, xs + DedupNeqs(Number, ys + zs))
  {
    hide DedupNeqs;
    NeqsSame(Number, xs + ys);
    NeqsSame(Number, ys + zs);
    NeqsUnique(DedupNeqs(Number, xs + ys) + zs, xs + DedupNeqs(Number, ys + zs));
  }

  lemma MultsAssociate(w: World, xs: seq<Scalar>, ys: seq<Scalar>, zs: seq<Scalar>)
    requires Faithful(w) && AllNum(xs) && AllNum(ys) && AllNum(zs)
    ensures DedupMults(w, DedupMults(w, xs + ys) + zs) == DedupMults(w, xs + DedupMults(w, ys + zs))
  {
    hide DedupMults, Faithful;
    MultsJoin(w, xs + ys, zs);
    MultsJoin(w, ys + zs, xs);
    MultsFrom(w, ys + zs);
    MultsCommute(w, xs + DedupMults(w, ys + zs), DedupMults(w, ys + zs) + xs);
    MultsCommute(w, (xs + ys) + zs, (ys + zs) + xs);
  }

  lemma AgreeAssociates(w: World, a: Residual, b: Residual, c: Residual)
    requires Numeric(w, a) && Numeric(w, b) && Numeric(w, c)
    requires !Disagree(a, b) && !Disagree(b, c) && !Disagree(a, c)
    ensures Numeric(w, Merge(w, a, b)) && Numeric(w, Merge(w, b, c))
    ensures !Disagree(Merge(w, a, b), c) && !Disagree(a, Merge(w, b, c))
  {
    hide Numeric, TighterBound, DedupNeqs, DedupMults, DedupTexts, Disagree;
    var ab, bc := Merge(w, a, b), Merge(w, b, c);
    MergeNumeric(w, a, b);
    MergeNumeric(w, b, c);
    DisagreeKinds(w, a, b);
    DisagreeKinds(w, b, c);
    DisagreeKinds(w, a, c);
    DisagreeKinds(w, ab, c);
    DisagreeKinds(w, a, bc);
  }

  lemma MergeAssociates(w: World, a: Residual, b: Residual, c: Residual)
    requires Faithful(w) && Numeric(w, a) && Numeric(w, b) && Numeric(w, c)
    requires !Disagree(a, b) && !Disagree(b, c) && !Disagree(a, c)
    ensures Numeric(w, Merge(w, a, b)) && Numeric(w, Merge(w, b, c))
    ensures !Disagree(Merge(w, a, b), c) && !Disagree(a, Merge(w, b, c))
    ensures Merge(w, Merge(w, a, b), c) == Merge(w, a, Merge(w, b, c))
  {
    hide Numeric, Faithful, TighterBound, DedupNeqs, DedupMults, DedupTexts, Disagree;
    var ab, bc := Merge(w, a, b), Merge(w, b, c);
    AgreeAssociates(w, a, b, c);
    MergeNumeric(w, ab, c);
    MergeNumeric(w, a, bc);
    Domains(w, a);
    Domains(w, b);
    Domains(w, c);
    NumericParts(w, a);
    NumericParts(w, b);
    NumericParts(w, c);
    BoundsAssociate(a.lo, b.lo, c.lo, true);
    BoundsAssociate(a.hi, b.hi, c.hi, false);
    NeqsJoin(a.neqs, b.neqs, c.neqs);
    MultsAssociate(w, a.mults, b.mults, c.mults);
    NumericSame(w, Merge(w, ab, c), Merge(w, a, bc));
  }

  // ----- emptiness is kept by every further merge

  /** t's bounds are numbers, and nowhere looser than s's. */
  ghost predicate Within(s: Residual, t: Residual) {
    && NumBound(s.lo) && NumBound(s.hi) && NumBound(t.lo) && NumBound(t.hi)
    && (s.lo.Some? ==> t.lo.Some? && var x, y := s.lo.value, t.lo.value;
                                     x.v.val < y.v.val || (x.v.val == y.v.val && (x.open ==> y.open)))
    && (s.hi.Some? ==> t.hi.Some? && var x, y := s.hi.value, t.hi.value;
                                     y.v.val < x.v.val || (x.v.val == y.v.val && (x.open ==> y.open)))
  }

  lemma CrossedKept(s: Residual, t: Residual)
    requires Within(s, t) && Crossed(s)
    ensures Crossed(t)
  {
  }

  lemma FloorsOrder(x: real, y: real)
    requires x <= y
    ensures x.Floor <= y.Floor && (Whole(y) && x < y ==> x.Floor < y.Floor)
  {
  }

  lemma CeilingRises(x: Bound, y: Bound)
    requires x.v.Num? && y.v.Num?
    requires x.v.val < y.v.val || (x.v.val == y.v.val && (x.open ==> y.open))
    ensures Ceiling(x) <= Ceiling(y)
  {
    FloorsOrder(x.v.val, y.v.val);
  }

  lemma FloorFalls(x: Bound, y: Bound)
    requires x.v.Num? && y.v.Num?
    requires y.v.val < x.v.val || (x.v.val == y.v.val && (x.open ==> y.open))
    ensures FloorOf(y) <= FloorOf(x)
  {
    FloorsOrder(y.v.val, x.v.val);
  }

  lemma WholeKept(w: World, s: Residual, t: Residual)
    requires Within(s, t) && NoWhole(w, s) && Integral(w, t)
    ensures NoWhole(w, t)
  {
    hide Integral;
    CeilingRises(s.lo.value, t.lo.value);
    FloorFalls(s.hi.value, t.hi.value);
  }

  lemma PointKept(s: Residual, t: Residual)
    requires Within(s, t) && PointExcluded(s) && t.kind == s.kind && forall n :: n in s.neqs ==> n in t.neqs
    ensures PointExcluded(t) || Crossed(t)
  {
    var n :| n in s.neqs && n.Num? && n.leaf == s.kind.value && Cmp(n, s.lo.value.v) == 0;
    assert n in t.neqs;
  }

  lemma MergeWithin(w: World, s: Residual, c: Residual)
    requires Numeric(w, s) && Numeric(w, c)
    ensures Within(s, Merge(w, s, c))
  {
    hide DedupNeqs, DedupMults, DedupTexts;
    NumericParts(w, s);
    NumericParts(w, c);
  }

  lemma IntegralKept(w: World, s: Residual, c: Residual)
    requires Numeric(w, s) && Numeric(w, c) && Integral(w, s)
    ensures Integral(w, Merge(w, s, c))
  {
    hide TighterBound, DedupNeqs, DedupMults, DedupTexts, GoodState;
    if !(s.kind == Some(IntegerLeaf) || s.kind == Some(BigIntegerLeaf)) {
      var m :| m in s.mults && m.Num? && Whole(Shown(w, m));
      assert m in s.mults + c.mults;
      MultsKept(w, s.mults + c.mults, m);
      var k :| k in DedupMults(w, s.mults + c.mults) && ShownOr(w, k) == ShownOr(w, m);
      MultsFrom(w, s.mults + c.mults);
      NumericParts(w, s);
      NumericParts(w, c);
      assert k in Merge(w, s, c).mults && k.Num?;
    }
  }

  /** A numeric state is empty by its bounds alone. */
  lemma NumericEmpty(w: World, s: Residual)
    requires Numeric(w, s)
    ensures StateEmpty(w, s) <==> Crossed(s) || NoWhole(w, s) || PointExcluded(s)
  {
    hide Crossed, NoWhole, PointExcluded;
  }

  /** Once empty, empty under every further merge. */
  lemma EmptyKept(w: World, s: Residual, c: Residual)
    requires Numeric(w, s) && Numeric(w, c) && !Disagree(s, c) && StateEmpty(w, s)
    ensures StateEmpty(w, Merge(w, s, c))
  {
    hide Numeric, StateEmpty, Crossed, NoWhole, PointExcluded, Within, TighterBound, DedupNeqs, DedupMults, DedupTexts;
    var t := Merge(w, s, c);
    MergeNumeric(w, s, c);
    NumericEmpty(w, s);
    NumericEmpty(w, t);
    MergeWithin(w, s, c);
    if Crossed(s) {
      CrossedKept(s, t);
    } else if NoWhole(w, s) {
      NoWholeIntegral(w, s);
      IntegralKept(w, s, c);
      WholeKept(w, s, t);
    } else {
      NumericParts(w, s);
      NumericParts(w, c);
      Domains(w, s);
      NeqsSame(Number, s.neqs + c.neqs);
      PointKind(s);
      PointKept(s, t);
    }
  }

  lemma NoWholeIntegral(w: World, s: Residual)
    requires NoWhole(w, s)
    ensures Integral(w, s)
  {
  }

  lemma PointKind(s: Residual)
    requires PointExcluded(s)
    ensures s.kind.Some?
  {
  }

  // ----- the meet

  /** The meet of a settled meet with one more; a conflict stays one. */
  function Then(w: World, m: Met, c: Residual): Met {
    if m.Conflict? then Conflict else Meet(w, m.r, c)
  }

  lemma MeetCommutes(w: World, a: Residual, b: Residual)
    requires Faithful(w) && Numeric(w, a) && Numeric(w, b)
    ensures Meet(w, a, b) == Meet(w, b, a)
  {
    hide Numeric, Faithful, Merge, StateEmpty, Disagree;
    DisagreeKinds(w, a, b);
    DisagreeKinds(w, b, a);
    if !Disagree(a, b) { MergeCommutes(w, a, b); }
  }

  /** What a meet gives is stored in normal form. */
  lemma MeetStored(w: World, a: Residual, b: Residual)
    requires Faithful(w) && Numeric(w, a) && Numeric(w, b) && Meet(w, a, b).Meets?
    ensures Stored(w, Meet(w, a, b).r)
  {
    hide Numeric, Faithful, StateEmpty, Disagree, DedupNeqs, DedupMults, DedupTexts, TighterBound;
    var m := Merge(w, a, b);
    MergeNumeric(w, a, b);
    Domains(w, a);
    NumericParts(w, a);
    NumericParts(w, b);
    NeqsStrict(a.neqs + b.neqs);
    MultsStrict(w, a.mults + b.mults);
  }

  lemma NeqsAgain(ns: seq<Scalar>)
    requires AllNum(ns) && StrictlySorted(ns, NeqLess(Number))
    ensures DedupNeqs(Number, ns + ns) == ns
  {
    hide DedupNeqs, NeqLess, Weak, StrictlySorted;
    NeqWeak();
    NeqsStrict(ns + ns);
    NeqsSame(Number, ns + ns);
    StrictUnique(DedupNeqs(Number, ns + ns), ns, NeqLess(Number));
  }

  /** No two divisors show the same, so each is the least of its own. */
  lemma LeastAgain(w: World, ms: seq<Scalar>, y: Scalar)
    requires StrictlySorted(ms, ShownLess(w))
    ensures Least(w, ms + ms, y) <==> y in ms
  {
    hide Rank, ShownOr;
    assert forall a, b :: 0 <= a < b < |ms| ==> ShownOr(w, ms[a]) < ShownOr(w, ms[b]) by {
      assert forall a, b :: 0 <= a < b < |ms| ==> ShownLess(w)(ms[a], ms[b]);
    }
    if y in ms {
      var i :| 0 <= i < |ms| && ms[i] == y;
      forall x | x in ms && ShownOr(w, x) == ShownOr(w, y) ensures x == y {
        var j :| 0 <= j < |ms| && ms[j] == x;
      }
    }
  }

  lemma MultsAgain(w: World, ms: seq<Scalar>)
    requires Faithful(w) && AllNum(ms) && StrictlySorted(ms, ShownLess(w))
    ensures DedupMults(w, ms + ms) == ms
  {
    hide DedupMults, Least, Weak, StrictlySorted, Faithful, ShownLess;
    MultWeak(w);
    MultsStrict(w, ms + ms);
    forall y ensures y in DedupMults(w, ms + ms) <==> y in ms {
      MultsLeast(w, ms + ms, y);
      LeastAgain(w, ms, y);
    }
    StrictUnique(DedupMults(w, ms + ms), ms, ShownLess(w));
  }

  /** A stored residual met with itself is itself. */
  lemma MeetIdempotent(w: World, a: Residual)
    requires Faithful(w) && Stored(w, a)
    ensures Meet(w, a, a) == Meets(a)
  {
    hide Numeric, Faithful, StateEmpty, Disagree, DedupNeqs, DedupMults, DedupTexts, TighterBound;
    DisagreeKinds(w, a, a);
    MergeNumeric(w, a, a);
    Domains(w, a);
    NumericParts(w, a);
    NeqsAgain(a.neqs);
    MultsAgain(w, a.mults);
    SelfBound(a.lo, true);
    SelfBound(a.hi, false);
    NumericSame(w, Merge(w, a, a), a);
  }

  lemma SelfBound(b: Option<Bound>, lower: bool)
    ensures TighterBound(Number, b, b, lower) == b
  {
  }

  /** Three residuals no two of which disagree, merged either way and found empty or not. */
  lemma MeetOfThree(w: World, a: Residual, b: Residual, c: Residual)
    requires Faithful(w) && Numeric(w, a) && Numeric(w, b) && Numeric(w, c)
    requires !Disagree(a, b) && !Disagree(b, c) && !Disagree(a, c)
    ensures var m := Merge(w, Merge(w, a, b), c); Then(w, Meet(w, a, b), c) == if StateEmpty(w, m) then Conflict else Meets(m)
  {
    hide Numeric, Faithful, StateEmpty, Disagree, Merge;
    MergeAssociates(w, a, b, c);
    if StateEmpty(w, Merge(w, a, b)) { EmptyKept(w, Merge(w, a, b), c); }
  }

  /** Two of three disagree: a conflict. */
  lemma MeetDisagrees(w: World, a: Residual, b: Residual, c: Residual)
    requires Numeric(w, a) && Numeric(w, b) && Numeric(w, c)
    requires Disagree(a, b) || Disagree(b, c) || Disagree(a, c)
    ensures Then(w, Meet(w, a, b), c) == Conflict
  {
    hide Numeric, StateEmpty, Disagree, TighterBound, DedupNeqs, DedupMults, DedupTexts;
    DisagreeKinds(w, a, b);
    DisagreeKinds(w, b, c);
    DisagreeKinds(w, a, c);
    if !Disagree(a, b) {
      MergeNumeric(w, a, b);
      DisagreeKinds(w, Merge(w, a, b), c);
    }
  }

  lemma DisagreeSymmetric(w: World, a: Residual, b: Residual)
    requires Numeric(w, a) && Numeric(w, b)
    ensures Disagree(a, b) <==> Disagree(b, a)
  {
    DisagreeKinds(w, a, b);
    DisagreeKinds(w, b, a);
  }

  /** (a & b) & c and a & (b & c) store the same parts, or conflict together. */
  lemma MeetAssociates(w: World, a: Residual, b: Residual, c: Residual)
    requires Faithful(w) && Numeric(w, a) && Numeric(w, b) && Numeric(w, c)
    ensures Then(w, Meet(w, a, b), c) == Then(w, Meet(w, b, c), a)
  {
    hide Numeric, Faithful, StateEmpty, Disagree, Merge, Meet, Then;
    DisagreeSymmetric(w, a, b);
    DisagreeSymmetric(w, a, c);
    if Disagree(a, b) || Disagree(b, c) || Disagree(a, c) {
      MeetDisagrees(w, a, b, c);
      MeetDisagrees(w, b, c, a);
    } else {
      MeetOfThree(w, a, b, c);
      MeetOfThree(w, b, c, a);
      MergeAssociates(w, a, b, c);
      DisagreeSymmetric(w, a, Merge(w, b, c));
      MergeCommutes(w, Merge(w, b, c), a);
    }
  }

  // ----- any number of them, in any order

  /** A chain of meets from the left, as a run of constraints is unified. */
  function MeetAll(w: World, m: Met, rs: seq<Residual>): Met
    decreases |rs|
  {
    if rs == [] then m else MeetAll(w, Then(w, m, rs[0]), rs[1..])
  }

  ghost predicate NumericMet(w: World, m: Met) {
    m.Meets? ==> Numeric(w, m.r)
  }

  lemma ThenNumeric(w: World, m: Met, c: Residual)
    requires NumericMet(w, m) && Numeric(w, c)
    ensures NumericMet(w, Then(w, m, c))
  {
    hide Numeric, StateEmpty, Disagree, Merge;
    if m.Meets? && !Disagree(m.r, c) { MergeNumeric(w, m.r, c); }
  }

  /** Two neighbours of the chain change places. */
  lemma ThenSwaps(w: World, m: Met, a: Residual, b: Residual)
    requires Faithful(w) && NumericMet(w, m) && Numeric(w, a) && Numeric(w, b)
    ensures Then(w, Then(w, m, a), b) == Then(w, Then(w, m, b), a)
  {
    hide Numeric, Faithful, Meet;
    if m.Meets? {
      MeetAssociates(w, m.r, a, b);
      MeetAssociates(w, m.r, b, a);
      MeetCommutes(w, a, b);
      MeetAssociates(w, a, b, m.r);
    }
  }

  ghost predicate AllNumeric(w: World, rs: seq<Residual>) {
    forall r :: r in rs ==> Numeric(w, r)
  }

  /** Any element of the chain may come first. */
  lemma {:induction false} AnyFirst(w: World, m: Met, rs: seq<Residual>, i: nat)
    requires Faithful(w) && NumericMet(w, m) && AllNumeric(w, rs) && i < |rs|
    ensures MeetAll(w, m, rs) == MeetAll(w, Then(w, m, rs[i]), rs[..i] + rs[i + 1..])
    decreases i
  {
    hide Numeric, Faithful, Then;
    if i == 0 {
      assert rs[..0] + rs[1..] == rs[1..];
    } else {
      var tail := rs[1..];
      assert forall r :: r in tail ==> r in rs;
      ThenNumeric(w, m, rs[0]);
      AnyFirst(w, Then(w, m, rs[0]), tail, i - 1);
      ThenSwaps(w, m, rs[0], rs[i]);
      var without := rs[..i] + rs[i + 1..];
      assert without[0] == rs[0] && without[1..] == tail[..i - 1] + tail[i..];
    }
  }

  lemma SameElements<T>(xs: seq<T>, ys: seq<T>)
    requires multiset(xs) == multiset(ys)
    ensures forall x :: x in xs <==> x in ys
  {
    forall x ensures x in xs <==> x in ys {
      assert x in xs <==> x in multiset(xs);
      assert x in ys <==> x in multiset(ys);
    }
  }

  lemma WithoutSame<T>(xs: seq<T>, ys: seq<T>, i: nat)
    requires xs != [] && i < |ys| && ys[i] == xs[0] && multiset(xs) == multiset(ys)
    ensures multiset(xs[1..]) == multiset(ys[..i] + ys[i + 1..])
  {
    assert xs == [xs[0]] + xs[1..];
    assert ys == (ys[..i] + [ys[i]]) + ys[i + 1..];
    assert multiset(xs[1..]) == multiset(xs) - multiset{xs[0]};
    assert multiset(ys[..i] + ys[i + 1..]) == multiset(ys) - multiset{ys[i]};
  }

  /** The stored parts do not depend on the order of the meets. */
  lemma {:induction false} OrderFree(w: World, m: Met, rs: seq<Residual>, ts: seq<Residual>)
    requires Faithful(w) && NumericMet(w, m) && AllNumeric(w, rs) && multiset(rs) == multiset(ts)
    ensures MeetAll(w, m, rs) == MeetAll(w, m, ts)
    decreases |rs|
  {
    hide NumericMet, Numeric, Faithful, Then;
    SameElements(rs, ts);
    if rs == [] {
      HasHead(ts);
    } else {
      HasHead(rs);
      var i :| 0 <= i < |ts| && ts[i] == rs[0];
      AnyFirst(w, m, ts, i);
      WithoutSame(rs, ts, i);
      ThenNumeric(w, m, rs[0]);
      assert forall r :: r in rs[1..] ==> r in rs;
      OrderFree(w, Then(w, m, rs[0]), rs[1..], ts[..i] + ts[i + 1..]);
    }
  }
}
