/**
 Subsumption of residuals (go/constraint.go:2148-2256): what its verdict says of the scalars
 the two admit, and the order it makes, in which the meet is the greatest lower bound.
 */
module Subsumption {
  import opened Options
  import opened Scaled
  import opened Scalars
  import opened Sorting
  import opened Residuals
  import opened Intersection

  /** g's lower end is no tighter than s's. */
  predicate LowerCovers(g: Option<Bound>, s: Option<Bound>) {
    g.Some? ==> s.Some? && var c := Cmp(g.value.v, s.value.v); !(0 < c || (c == 0 && g.value.open && !s.value.open))
  }

  predicate UpperCovers(g: Option<Bound>, s: Option<Bound>) {
    g.Some? ==> s.Some? && var c := Cmp(g.value.v, s.value.v); !(c < 0 || (c == 0 && g.value.open && !s.value.open))
  }

  const One: Scalar := Num(IntegerLeaf, 1.0)

  /** The specific side has only multiples of a general divisor: by one of its own divisors, or
      by being whole. */
  predicate DivisorCovered(w: World, a: Scalar, s: Residual) {
    (Integral(w, s) && IsMultiple(w, One, a)) || exists b :: b in s.mults && IsMultiple(w, b, a)
  }

  predicate Kinds(g: Residual, s: Residual) {
    && (!g.domain.Any? ==> g.domain == s.domain) && (g.kind.Some? ==> g.kind == s.kind)
    && (g.pathKind ==> s.pathKind) && (g.nonEmpty && !g.emptyOk ==> s.nonEmpty && !s.emptyOk)
    && (g.uniq ==> s.uniq)
  }

  predicate Bounds(g: Residual, s: Residual) {
    LowerCovers(g.lo, s.lo) && UpperCovers(g.hi, s.hi) && (g.lo.Some? || g.hi.Some? ==> !g.domain.Any? || !s.domain.Any?)
  }

  predicate Sets(g: Residual, s: Residual) {
    && (forall n :: n in g.neqs ==> exists m :: m in s.neqs && Same(n, m))
    && (forall r :: r in g.res ==> r in s.res) && (forall f :: f in g.fmts ==> f in s.fmts)
    && (forall k :: k in g.uniqBy ==> k in s.uniqBy)
  }

  predicate Divisors(w: World, g: Residual, s: Residual) {
    forall a :: a in g.mults ==> DivisorCovered(w, a, s)
  }

  /** constraintStateSubsumes, for residuals without Band B or contains. */
  predicate Subsumes(w: World, g: Residual, s: Residual) {
    && Kinds(g, s) && Bounds(g, s) && Sets(g, s) && Divisors(w, g, s)
    && (g.count.Some? ==> s.count.Some? && Subsumes(w, g.count.value, s.count.value))
  }

  // ----- divisors as values

  /** IsMultiple on the values shown. */
  lemma MultipleShown(w: World, v: Scalar, m: Scalar)
    requires v.Num? && GoodMult(w, m)
    ensures IsMultiple(w, v, m) <==> Multiple(Shown(w, v), Shown(w, m))
  {
    MultipleOfIs(Shown(w, v), Shown(w, m));
  }

  /** A double divides, and is divided, as the decimal it shows; every other number as its value. */
  lemma MultipleTold(w: World, a: Leaf, x: real, b: Leaf, d: real)
    requires 0.0 < d && 0.0 < w.shows(d)
    ensures !a.FloatLeaf? && !b.FloatLeaf? ==> (IsMultiple(w, Num(a, x), Num(b, d)) <==> Multiple(x, d))
    ensures !a.FloatLeaf? && b.FloatLeaf? ==> (IsMultiple(w, Num(a, x), Num(b, d)) <==> Multiple(x, w.shows(d)))
    ensures a.FloatLeaf? && !b.FloatLeaf? ==> (IsMultiple(w, Num(a, x), Num(b, d)) <==> Multiple(w.shows(x), d))
    ensures a.FloatLeaf? && b.FloatLeaf? ==> (IsMultiple(w, Num(a, x), Num(b, d)) <==> Multiple(w.shows(x), w.shows(d)))
  {
    hide Multiple, MultipleOf;
    forall y, e | 0.0 < e ensures MultipleOf(y, e) <==> Multiple(y, e) { MultipleOfIs(y, e); }
  }

  lemma MultipleNum(w: World, v: Scalar, m: Scalar)
    requires IsMultiple(w, v, m)
    ensures v.Num?
  {
  }

  lemma MultipleChain(w: World, v: Scalar, b: Scalar, a: Scalar)
    requires GoodMult(w, b) && GoodMult(w, a) && IsMultiple(w, v, b) && IsMultiple(w, b, a)
    ensures IsMultiple(w, v, a)
  {
    hide IsMultiple;
    MultipleNum(w, v, b);
    MultipleShown(w, v, b);
    MultipleShown(w, b, a);
    MultipleShown(w, v, a);
    MultipleTrans(Shown(w, v), Shown(w, b), Shown(w, a));
  }

  /** Whatever 1 is a multiple of, every whole number is. */
  lemma WholeMultiple(w: World, v: Scalar, a: Scalar)
    requires Faithful(w) && v.Num? && Whole(v.val) && GoodMult(w, a) && IsMultiple(w, One, a)
    ensures IsMultiple(w, v, a)
  {
    hide IsMultiple;
    MultipleShown(w, One, a);
    MultipleShown(w, v, a);
    ShownWhole(w, v);
    MultipleOne(Shown(w, v));
    MultipleTrans(Shown(w, v), 1.0, Shown(w, a));
  }

  lemma MultipleItself(w: World, a: Scalar)
    requires GoodMult(w, a)
    ensures IsMultiple(w, a, a)
  {
    hide IsMultiple;
    MultipleShown(w, a, a);
    MultipleSelf(Shown(w, a));
  }

  // ----- what a subsumed state admits

  lemma LowerSound(g: Option<Bound>, s: Option<Bound>, v: Scalar)
    requires LowerCovers(g, s) && AboveLo(s, v)
    ensures AboveLo(g, v)
  {
    if g.Some? {
      CmpFlip(v, s.value.v);
      CmpFlip(v, g.value.v);
      CmpTrans(g.value.v, s.value.v, v);
    }
  }

  lemma UpperSound(g: Option<Bound>, s: Option<Bound>, v: Scalar)
    requires UpperCovers(g, s) && BelowHi(s, v)
    ensures BelowHi(g, v)
  {
    if g.Some? {
      CmpFlip(s.value.v, g.value.v);
      CmpTrans(v, s.value.v, g.value.v);
    }
  }

  ghost predicate AllMultiples(w: World, ms: seq<Scalar>, v: Scalar) {
    forall m :: m in ms ==> IsMultiple(w, v, m)
  }

  lemma DivisorsSound(w: World, g: Residual, s: Residual, v: Scalar)
    requires Faithful(w) && GoodState(w, g) && GoodState(w, s) && GoodScalar(v) && v.Num?
    requires Divisors(w, g, s) && AllMultiples(w, s.mults, v) && (s.kind.Some? ==> v.leaf == s.kind.value)
    ensures AllMultiples(w, g.mults, v)
  {
    hide IsMultiple, GoodMult, Integral, GoodBound, Faithful;
    forall a | a in g.mults ensures IsMultiple(w, v, a) {
      assert DivisorCovered(w, a, s);
      if b :| b in s.mults && IsMultiple(w, b, a) {
        MultipleChain(w, v, b, a);
      } else {
        IntegralWhole(w, s, v);
        WholeMultiple(w, v, a);
      }
    }
  }

  lemma NeqsSound(g: Residual, s: Residual, v: Scalar)
    requires Sets(g, s) && forall n :: n in s.neqs ==> !Same(v, n)
    ensures forall n :: n in g.neqs ==> !Same(v, n)
  {
    hide Same;
    forall n | n in g.neqs ensures !Same(v, n) {
      var m :| m in s.neqs && Same(n, m);
      SameIs(n, m);
    }
  }

  lemma StateSound(w: World, g: Residual, s: Residual, v: Scalar)
    requires Faithful(w) && GoodState(w, g) && GoodState(w, s) && GoodScalar(v)
    requires Subsumes(w, g, s) && StateAdmits(w, s, v)
    ensures StateAdmits(w, g, v)
  {
    hide IsMultiple, Integral, GoodMult, GoodBound, AboveLo, BelowHi, LowerCovers, UpperCovers, Divisors, Same, Faithful;
    if !v.Num? && !v.Text? {
      HasHead(g.uniqBy);
    } else if !g.domain.Any? {
      LowerSound(g.lo, s.lo, v);
      UpperSound(g.hi, s.hi, v);
      NeqsSound(g, s, v);
      if v.Num? { DivisorsSound(w, g, s, v); }
      HasHead(g.mults);
    }
  }

  lemma CountSound(w: World, g: Residual, s: Residual, v: Scalar)
    requires Faithful(w) && Good(w, g) && Good(w, s) && Subsumes(w, g, s) && CountAdmits(w, s.count, v)
    ensures CountAdmits(w, g.count, v)
  {
    hide StateAdmits, GoodState, Kinds, Bounds, Sets, Divisors, Faithful;
    if g.count.Some? { CountState(w, g.count.value, s.count.value, |v.s|); }
  }

  lemma CountState(w: World, g: Residual, s: Residual, n: nat)
    requires Faithful(w) && GoodCount(w, g) && GoodCount(w, s) && Subsumes(w, g, s) && StateAdmits(w, s, CountVal(n))
    ensures StateAdmits(w, g, CountVal(n))
  {
    hide StateAdmits, GoodState, Subsumes, Faithful;
    StateSound(w, g, s, CountVal(n));
  }

  /** A path: what `string` refuses. */
  predicate IsPath(v: Scalar) {
    v.Text? && v.path
  }

  /** A residual another subsumes admits nothing more, but for paths: a general side that met
      both `string` and `empty()` refuses them, and the verdict does not ask whether the
      specific side does. */
  lemma SubsumedAdmits(w: World, g: Residual, s: Residual, v: Scalar)
    requires Faithful(w) && Good(w, g) && Good(w, s) && GoodScalar(v)
    requires Subsumes(w, g, s) && Admits(w, s, v)
    ensures Admits(w, g, v) <==> !(g.nonEmpty && IsPath(v))
  {
    hide StateAdmits, CountAdmits, Admits, Bounds, Divisors, GoodState, GoodCount, Faithful;
    AdmitsIs(w, g, v);
    AdmitsIs(w, s, v);
    StateSound(w, g, s, v);
    CountSound(w, g, s, v);
    HasHead(g.uniqBy);
  }

  /** The verdict is sound where a general side that met `string` and `empty()` has a specific
      side that met `string`. */
  lemma SubsumesSound(w: World, g: Residual, s: Residual)
    requires Faithful(w) && Good(w, g) && Good(w, s) && Subsumes(w, g, s)
    requires g.nonEmpty && g.emptyOk ==> s.nonEmpty
    ensures forall v :: GoodScalar(v) && Admits(w, s, v) ==> Admits(w, g, v)
  {
    hide Subsumes, Good, GoodScalar, Faithful, StateAdmits, Admits;
    forall v | GoodScalar(v) && Admits(w, s, v) ensures Admits(w, g, v) {
      SubsumedAdmits(w, g, s, v);
      AdmitsIs(w, s, v);
      StrictString(w, g, s);
      PathRefused(s, v);
    }
  }

  lemma StrictString(w: World, g: Residual, s: Residual)
    requires Subsumes(w, g, s)
    ensures g.nonEmpty && !g.emptyOk ==> s.nonEmpty
  {
  }

  lemma PathRefused(s: Residual, v: Scalar)
    requires FlagsAdmit(s, v)
    ensures s.nonEmpty ==> !IsPath(v)
  {
  }

  /** Without the guard it is not: `string & empty()` is said to subsume `path`, and admits no path. */
  lemma PathsEscape(w: World, s: string)
    requires Faithful(w)
    ensures var g := Residual(Str, None, None, None, [], [], [], [], None, false, [], false, true, true, false);
            var p := g.(nonEmpty := false, emptyOk := false, pathKind := true);
            Good(w, g) && Good(w, p) && Subsumes(w, g, p) && Admits(w, p, Text(true, s)) && !Admits(w, g, Text(true, s))
  {
  }

  // ----- an order

  lemma LowerTrans(a: Option<Bound>, b: Option<Bound>, c: Option<Bound>)
    requires LowerCovers(a, b) && LowerCovers(b, c)
    ensures LowerCovers(a, c)
  {
    if a.Some? { CmpTrans(a.value.v, b.value.v, c.value.v); }
  }

  lemma UpperTrans(a: Option<Bound>, b: Option<Bound>, c: Option<Bound>)
    requires UpperCovers(a, b) && UpperCovers(b, c)
    ensures UpperCovers(a, c)
  {
    if a.Some? {
      CmpFlip(a.value.v, b.value.v);
      CmpFlip(b.value.v, c.value.v);
      CmpFlip(a.value.v, c.value.v);
      CmpTrans(c.value.v, b.value.v, a.value.v);
    }
  }

  /** What an integral side subsumes is integral. */
  lemma IntegralDown(w: World, b: Residual, c: Residual)
    requires Faithful(w) && GoodState(w, b) && GoodState(w, c) && Kinds(b, c) && Divisors(w, b, c) && Integral(w, b)
    ensures Integral(w, c)
  {
    hide IsMultiple, GoodMult, GoodBound, Faithful;
    if !(b.kind == Some(IntegerLeaf) || b.kind == Some(BigIntegerLeaf)) {
      var m :| m in b.mults && m.Num? && Whole(Shown(w, m));
      assert DivisorCovered(w, m, c);
      if r :| r in c.mults && IsMultiple(w, r, m) {
        WholeDivisor(w, r, m);
      }
    }
  }

  lemma WholeDivisor(w: World, r: Scalar, m: Scalar)
    requires GoodMult(w, r) && GoodMult(w, m) && IsMultiple(w, r, m) && Whole(Shown(w, m))
    ensures r.Num? && Whole(Shown(w, r))
  {
    hide IsMultiple;
    MultipleShown(w, r, m);
    MultipleWhole(Shown(w, r), Shown(w, m));
  }

  lemma DivisorsTrans(w: World, a: Residual, b: Residual, c: Residual)
    requires Faithful(w) && GoodState(w, a) && GoodState(w, b) && GoodState(w, c)
    requires Divisors(w, a, b) && Divisors(w, b, c) && Kinds(b, c)
    ensures Divisors(w, a, c)
  {
    hide IsMultiple, GoodMult, GoodBound, Integral, Faithful, Kinds;
    forall p | p in a.mults ensures DivisorCovered(w, p, c) {
      assert DivisorCovered(w, p, b);
      if q :| q in b.mults && IsMultiple(w, q, p) {
        assert DivisorCovered(w, q, c);
        if r :| r in c.mults && IsMultiple(w, r, q) {
          MultipleChain(w, r, q, p);
        } else {
          MultipleChain(w, One, q, p);
        }
      } else {
        IntegralDown(w, b, c);
      }
    }
  }

  lemma SetsTrans(a: Residual, b: Residual, c: Residual)
    requires Sets(a, b) && Sets(b, c)
    ensures Sets(a, c)
  {
    forall n | n in a.neqs ensures exists m :: m in c.neqs && Same(n, m) {
      var m :| m in b.neqs && Same(n, m);
      var k :| k in c.neqs && Same(m, k);
      SameIs(n, m);
      SameIs(m, k);
    }
  }

  lemma KindsTrans(a: Residual, b: Residual, c: Residual)
    requires Kinds(a, b) && Kinds(b, c)
    ensures Kinds(a, c)
  {
  }

  /** A residual's state part, its count's too. */
  ghost predicate GoodStates(w: World, r: Residual) {
    GoodState(w, r) && (r.count.Some? ==> GoodCount(w, r.count.value))
  }

  lemma CountStates(w: World, r: Residual)
    requires GoodCount(w, r)
    ensures GoodStates(w, r)
  {
  }

  lemma BoundsTrans(w: World, a: Residual, b: Residual, c: Residual)
    requires GoodState(w, a) && Bounds(a, b) && Bounds(b, c)
    ensures Bounds(a, c)
  {
    hide LowerCovers, UpperCovers;
    LowerTrans(a.lo, b.lo, c.lo);
    UpperTrans(a.hi, b.hi, c.hi);
  }

  lemma {:induction false} SubsumesTransitive(w: World, a: Residual, b: Residual, c: Residual)
    requires Faithful(w) && GoodStates(w, a) && GoodStates(w, b) && GoodStates(w, c)
    requires Subsumes(w, a, b) && Subsumes(w, b, c)
    ensures Subsumes(w, a, c)
    decreases a
  {
    hide Kinds, Bounds, Sets, Divisors, GoodState, GoodCount, Faithful;
    KindsTrans(a, b, c);
    BoundsTrans(w, a, b, c);
    SetsTrans(a, b, c);
    DivisorsTrans(w, a, b, c);
    if a.count.Some? {
      CountStates(w, a.count.value);
      CountStates(w, b.count.value);
      CountStates(w, c.count.value);
      SubsumesTransitive(w, a.count.value, b.count.value, c.count.value);
    }
  }

  lemma DivisorsSelf(w: World, a: Residual, b: Residual)
    requires GoodState(w, a) && forall m :: m in a.mults ==> m in b.mults
    ensures Divisors(w, a, b)
  {
    hide IsMultiple, GoodMult, Integral;
    forall m | m in a.mults ensures DivisorCovered(w, m, b) { MultipleItself(w, m); }
  }

  lemma SetsSelf(a: Residual)
    ensures Sets(a, a)
  {
    forall n | n in a.neqs ensures Same(n, n) { SameIs(n, n); }
  }

  lemma BoundsSelf(w: World, a: Residual)
    requires GoodState(w, a)
    ensures Bounds(a, a)
  {
    if a.lo.Some? { CmpSelf(a.lo.value.v); }
    if a.hi.Some? { CmpSelf(a.hi.value.v); }
  }

  lemma {:induction false} SubsumesReflexive(w: World, a: Residual)
    requires GoodStates(w, a)
    ensures Subsumes(w, a, a)
    decreases a
  {
    hide Bounds, Sets, Divisors, GoodState, GoodCount;
    BoundsSelf(w, a);
    SetsSelf(a);
    DivisorsSelf(w, a, a);
    if a.count.Some? {
      CountStates(w, a.count.value);
      SubsumesReflexive(w, a.count.value);
    }
  }

  // ----- the meet is the greatest lower bound

  lemma TighterCovered(d: Domain, a: Option<Bound>, b: Option<Bound>)
    ensures LowerCovers(a, TighterBound(d, a, b, true)) && LowerCovers(b, TighterBound(d, a, b, true))
    ensures UpperCovers(a, TighterBound(d, a, b, false)) && UpperCovers(b, TighterBound(d, a, b, false))
  {
    if a.Some? { CmpSelf(a.value.v); }
    if b.Some? { CmpSelf(b.value.v); }
    if a.Some? && b.Some? { CmpFlip(a.value.v, b.value.v); }
  }

  /** Every divisor of the list is covered by what is stored of it. */
  lemma StoredCover(w: World, ms: seq<Scalar>, s: Residual, a: Scalar)
    requires a in ms && GoodMult(w, a) && (forall m :: m in ms ==> GoodMult(w, m)) && s.mults == DedupMults(w, ms)
    ensures DivisorCovered(w, a, s)
  {
    hide IsMultiple, Integral, DedupMults, Shown;
    MultsKept(w, ms, a);
    MultsFrom(w, ms);
    var k :| k in DedupMults(w, ms) && ShownOr(w, k) == ShownOr(w, a);
    MultipleItself(w, a);
    ShownMultiple(w, k, a, a);
  }

  lemma ShownMultiple(w: World, k: Scalar, v: Scalar, m: Scalar)
    requires k.Num? && v.Num? && ShownOr(w, k) == ShownOr(w, v) && IsMultiple(w, v, m)
    ensures IsMultiple(w, k, m)
  {
  }

  lemma NeqsIn(ns: seq<Scalar>, s: seq<Scalar>)
    requires forall n :: n in ns ==> n in s
    ensures forall n :: n in ns ==> exists m :: m in s && Same(n, m)
  {
    forall n | n in ns ensures exists m :: m in s && Same(n, m) {
      SameIs(n, n);
      assert n in s;
    }
  }

  /** Each side of a count's meet subsumes it. */
  lemma CountBelow(w: World, a: Residual, b: Residual)
    requires GoodCount(w, a) && GoodCount(w, b)
    ensures Subsumes(w, a, MeetCount(w, a, b)) && Subsumes(w, b, MeetCount(w, a, b))
  {
    hide TighterBound, DedupNeqs, DedupMults, LowerCovers, UpperCovers, GoodMult, GoodBound, DivisorCovered;
    TighterCovered(Number, a.lo, b.lo);
    TighterCovered(Number, a.hi, b.hi);
    NeqsSame(Number, a.neqs + b.neqs);
    NeqsIn(a.neqs, DedupNeqs(Number, a.neqs + b.neqs));
    NeqsIn(b.neqs, DedupNeqs(Number, a.neqs + b.neqs));
    forall m | m in a.mults || m in b.mults ensures DivisorCovered(w, m, MeetCount(w, a, b)) {
      StoredCover(w, a.mults + b.mults, MeetCount(w, a, b), m);
    }
  }

  lemma MergeDivisors(w: World, a: Residual, b: Residual)
    requires GoodState(w, a) && GoodState(w, b)
    ensures Divisors(w, a, Merge(w, a, b)) && Divisors(w, b, Merge(w, a, b))
  {
    hide TighterBound, DedupNeqs, DedupMults, DedupTexts, MeetCount, GoodMult, GoodBound, DivisorCovered;
    forall m | m in a.mults || m in b.mults ensures DivisorCovered(w, m, Merge(w, a, b)) {
      StoredCover(w, a.mults + b.mults, Merge(w, a, b), m);
    }
  }

  lemma MergeSets(w: World, a: Residual, b: Residual)
    ensures Sets(a, Merge(w, a, b)) && Sets(b, Merge(w, a, b))
  {
    hide TighterBound, DedupNeqs, DedupMults, DedupTexts, MeetCount, Same;
    var m := Merge(w, a, b);
    NeqsSame(m.domain, a.neqs + b.neqs);
    TextsSame(a.res + b.res);
    TextsSame(a.fmts + b.fmts);
    TextsSame(a.uniqBy + b.uniqBy);
    NeqsIn(a.neqs, m.neqs);
    NeqsIn(b.neqs, m.neqs);
  }

  lemma MergeKinds(w: World, a: Residual, b: Residual)
    requires GoodState(w, a) && GoodState(w, b) && !Disagree(a, b) && !a.emptyOk && !b.emptyOk
    ensures Kinds(a, Merge(w, a, b)) && Kinds(b, Merge(w, a, b))
    ensures Bounds(a, Merge(w, a, b)) && Bounds(b, Merge(w, a, b))
  {
    hide TighterBound, DedupNeqs, DedupMults, DedupTexts, MeetCount, LowerCovers, UpperCovers, GoodMult;
    var m := Merge(w, a, b);
    TighterCovered(m.domain, a.lo, b.lo);
    TighterCovered(m.domain, a.hi, b.hi);
  }

  /** Both sides subsume their meet. */
  lemma MeetBelow(w: World, a: Residual, b: Residual)
    requires Good(w, a) && Good(w, b) && !a.emptyOk && !b.emptyOk && Meet(w, a, b).Meets?
    ensures Subsumes(w, a, Meet(w, a, b).r) && Subsumes(w, b, Meet(w, a, b).r)
  {
    hide Kinds, Bounds, Sets, Divisors, GoodState, GoodCount, Disagree, StateEmpty, MeetCount, TighterBound, DedupNeqs, DedupMults, DedupTexts;
    MergeKinds(w, a, b);
    MergeSets(w, a, b);
    MergeDivisors(w, a, b);
    if a.count.Some? && b.count.Some? {
      CountBelow(w, a.count.value, b.count.value);
    } else if a.count.Some? {
      CountReflexive(w, a.count.value);
    } else if b.count.Some? {
      CountReflexive(w, b.count.value);
    }
  }

  lemma CountReflexive(w: World, c: Residual)
    requires GoodCount(w, c)
    ensures Subsumes(w, c, c)
  {
    CountStates(w, c);
    SubsumesReflexive(w, c);
  }

  lemma BothDivisors(w: World, a: Residual, b: Residual, m: Residual, c: Residual)
    requires Divisors(w, a, c) && Divisors(w, b, c) && m.mults == DedupMults(w, a.mults + b.mults)
    ensures Divisors(w, m, c)
  {
    hide DedupMults, DivisorCovered;
    MultsFrom(w, a.mults + b.mults);
  }

  lemma CountGreatest(w: World, a: Residual, b: Residual, c: Residual)
    requires GoodCount(w, a) && GoodCount(w, b) && Subsumes(w, a, c) && Subsumes(w, b, c)
    ensures Subsumes(w, MeetCount(w, a, b), c)
  {
    hide TighterBound, DedupNeqs, DedupMults, LowerCovers, UpperCovers, GoodMult, GoodBound, Divisors;
    TighterFrom(Number, a.lo, b.lo, true);
    TighterFrom(Number, a.hi, b.hi, false);
    NeqsSame(Number, a.neqs + b.neqs);
    BothDivisors(w, a, b, MeetCount(w, a, b), c);
  }

  lemma MergeGreatest(w: World, a: Residual, b: Residual, c: Residual)
    requires Good(w, a) && Good(w, b) && !a.emptyOk && !b.emptyOk && Subsumes(w, a, c) && Subsumes(w, b, c)
    ensures var m := Merge(w, a, b); Kinds(m, c) && Bounds(m, c) && Sets(m, c) && Divisors(w, m, c)
  {
    hide TighterBound, DedupNeqs, DedupMults, DedupTexts, MeetCount, LowerCovers, UpperCovers, GoodMult, GoodCount, GoodBound, Divisors, Same;
    var m := Merge(w, a, b);
    TighterFrom(m.domain, a.lo, b.lo, true);
    TighterFrom(m.domain, a.hi, b.hi, false);
    NeqsSame(m.domain, a.neqs + b.neqs);
    TextsSame(a.res + b.res);
    TextsSame(a.fmts + b.fmts);
    TextsSame(a.uniqBy + b.uniqBy);
    BothDivisors(w, a, b, m, c);
  }

  /** ... and it subsumes whatever both do. */
  lemma MeetGreatest(w: World, a: Residual, b: Residual, c: Residual)
    requires Good(w, a) && Good(w, b) && !a.emptyOk && !b.emptyOk && Meet(w, a, b).Meets?
    requires Subsumes(w, a, c) && Subsumes(w, b, c)
    ensures Subsumes(w, Meet(w, a, b).r, c)
  {
    hide Kinds, Bounds, Sets, Divisors, GoodState, GoodCount, Disagree, StateEmpty, MeetCount, TighterBound, DedupNeqs, DedupMults, DedupTexts;
    MergeGreatest(w, a, b, c);
    if a.count.Some? && b.count.Some? { CountGreatest(w, a.count.value, b.count.value, c.count.value); }
  }
}
