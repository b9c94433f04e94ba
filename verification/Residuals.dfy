/**
 Residuals of the constraint algebra (go/constraint.go): what one admits, when its state is
 taken for empty, and the meet of two.
 */
module Residuals {
  import opened Options
  import opened Scaled
  import opened Scalars
  import opened Sorting

  datatype Domain = Any | Number | Str

  datatype Bound = Bound(v: Scalar, open: bool)

  /** The state of a residual without Band B checks or member counts (go/constraint.go:470-515). */
  datatype Residual = Residual(
    domain: Domain,
    kind: Option<Leaf>,
    lo: Option<Bound>,
    hi: Option<Bound>,
    neqs: seq<Scalar>,
    mults: seq<Scalar>,
    res: seq<string>,
    fmts: seq<string>,
    count: Option<Residual>,
    uniq: bool,
    uniqBy: seq<string>,
    clash: bool,
    nonEmpty: bool,
    emptyOk: bool,
    pathKind: bool)

  // ----- what is always so

  predicate InDomain(d: Domain, v: Scalar) {
    match d
    case Any => false
    case Number => v.Num?
    case Str => v.Text?
  }

  ghost predicate GoodBound(d: Domain, b: Option<Bound>) {
    b.Some? ==> InDomain(d, b.value.v) && GoodScalar(b.value.v)
  }

  /** A divisor is a number, and shows a positive one. */
  ghost predicate GoodMult(w: World, m: Scalar) {
    m.Num? && GoodScalar(m) && 0.0 < Shown(w, m)
  }

  /** Bounds, exclusions, divisors, patterns and formats have a domain; kinds and divisors are
      numeric, patterns, formats and the string flags textual. */
  ghost predicate GoodState(w: World, r: Residual) {
    && GoodBound(r.domain, r.lo) && GoodBound(r.domain, r.hi)
    && (forall n :: n in r.neqs ==> InDomain(r.domain, n) && GoodScalar(n))
    && (forall m :: m in r.mults ==> r.domain.Number? && GoodMult(w, m))
    && (r.res != [] || r.fmts != [] ==> r.domain.Str?)
    && (r.kind.Some? ==> r.domain.Number?)
    && (r.nonEmpty || r.emptyOk || r.pathKind ==> r.domain.Str?)
  }

  /** A length's residual: a whole number of no other kind, of bounds, exclusions and divisors. */
  ghost predicate GoodCount(w: World, c: Residual) {
    && GoodState(w, c) && c.domain.Number? && c.kind == Some(IntegerLeaf)
    && c.count.None? && !c.uniq && c.uniqBy == [] && !c.clash
  }

  ghost predicate Good(w: World, r: Residual) {
    GoodState(w, r) && !r.clash && (r.count.Some? ==> GoodCount(w, r.count.value))
  }

  // ----- admission

  predicate AboveLo(lo: Option<Bound>, v: Scalar) {
    lo.Some? ==> var c := Cmp(v, lo.value.v); !(c < 0 || (c == 0 && lo.value.open))
  }

  predicate BelowHi(hi: Option<Bound>, v: Scalar) {
    hi.Some? ==> var c := Cmp(v, hi.value.v); !(c > 0 || (c == 0 && hi.value.open))
  }

  predicate IsMultiple(w: World, v: Scalar, m: Scalar) {
    v.Num? && m.Num? && Shown(w, m) != 0.0 && MultipleOf(Shown(w, v), Shown(w, m))
  }

  function DomainOf(v: Scalar): Domain {
    if v.Num? then Number else if v.Text? then Str else Any
  }

  /** stateAdmits: no bound, excluded value, divisor or pattern refuses the scalar (stateRefuser). */
  predicate StateAdmits(w: World, s: Residual, v: Scalar) {
    if !v.Num? && !v.Text? then s.domain.Any? && s.count.None? && !s.uniq && s.uniqBy == []
    else if s.domain.Any? then true
    else
      && DomainOf(v) == s.domain && (s.kind.Some? ==> v.Num? && v.leaf == s.kind.value)
      && AboveLo(s.lo, v) && BelowHi(s.hi, v)
      && (forall n :: n in s.neqs ==> !Same(v, n))
      && (forall m :: m in s.mults ==> IsMultiple(w, v, m))
      && (forall r :: r in s.res ==> v.Text? && w.matches(r, v.s))
  }

  function CountVal(n: nat): Scalar {
    Num(IntegerLeaf, n as real)
  }

  /** constraintAdmitsScalarQ, for a residual without Band B. */
  predicate Admits(w: World, g: Residual, v: Scalar) {
    if g.uniq || g.uniqBy != [] then false
    else if g.count.Some? && !(v.Text? && StateAdmits(w, g.count.value, CountVal(|v.s|))) then false
    else if (g.pathKind && !(v.Text? && v.path)) || (g.nonEmpty && v.Text? && v.path)
            || (g.nonEmpty && !g.emptyOk && v.Text? && !v.path && v.s == "") || !StateAdmits(w, g, v) then false
    else forall f :: f in g.fmts ==> w.formats(f, if v.Text? then v.s else "")
  }

  // ----- emptiness

  /** integralState: only whole numbers can be admitted. */
  predicate Integral(w: World, s: Residual) {
    s.kind == Some(IntegerLeaf) || s.kind == Some(BigIntegerLeaf) || exists m :: m in s.mults && m.Num? && Whole(Shown(w, m))
  }

  /** The least whole number a lower bound allows. */
  function Ceiling(lo: Bound): int
    requires lo.v.Num?
  {
    lo.v.val.Floor + if !Whole(lo.v.val) || lo.open then 1 else 0
  }

  /** The greatest an upper bound allows. */
  function FloorOf(hi: Bound): int
    requires hi.v.Num?
  {
    hi.v.val.Floor - if hi.open && Whole(hi.v.val) then 1 else 0
  }

  predicate Crossed(s: Residual) {
    && s.lo.Some? && s.hi.Some?
    && var c := Cmp(s.hi.value.v, s.lo.value.v); c < 0 || (c == 0 && (s.lo.value.open || s.hi.value.open))
  }

  predicate NoWhole(w: World, s: Residual) {
    && Integral(w, s) && s.lo.Some? && s.hi.Some? && s.lo.value.v.Num? && s.hi.value.v.Num?
    && FloorOf(s.hi.value) < Ceiling(s.lo.value)
  }

  /** A closed point of one kind, excluded in that kind. */
  predicate PointExcluded(s: Residual) {
    && s.kind.Some? && s.lo.Some? && s.hi.Some? && !s.lo.value.open && !s.hi.value.open
    && Cmp(s.lo.value.v, s.hi.value.v) == 0
    && exists n :: n in s.neqs && n.Num? && n.leaf == s.kind.value && Cmp(n, s.lo.value.v) == 0
  }

  /** stateEmpty. */
  predicate StateEmpty(w: World, s: Residual) {
    || s.clash || Crossed(s) || NoWhole(w, s) || PointExcluded(s)
    || (s.domain.Number? && (s.count.Some? || s.uniq || s.uniqBy != []))
    || (s.domain.Str? && (s.uniq || s.uniqBy != []))
    || (s.count.Some? && StateEmpty(w, s.count.value))
  }

  // ----- the meet

  function Rank(v: Scalar): nat {
    if v.Num? then TowerRank(v.leaf) else 1
  }

  /** tighterBound. */
  function TighterBound(domain: Domain, a: Option<Bound>, b: Option<Bound>, lower: bool): Option<Bound> {
    if a.None? then b
    else if b.None? then a
    else
      var c := Cmp(a.value.v, b.value.v);
      if c != 0 then if (lower && 0 < c) || (!lower && c < 0) then a else b
      else if a.value.open != b.value.open then if a.value.open then a else b
      else if domain.Number? && Rank(b.value.v) < Rank(a.value.v) then b
      else a
  }

  function NeqLess(domain: Domain): (Scalar, Scalar) -> bool {
    (x, y) => var c := Cmp(x, y); if c != 0 then c < 0 else domain.Number? && Rank(x) < Rank(y)
  }

  function SameAs(): (Scalar, Scalar) -> bool {
    (x, y) => Same(x, y)
  }

  /** dedupSortedNeqs: by value and tower rank, each once. */
  function DedupNeqs(domain: Domain, neqs: seq<Scalar>): seq<Scalar> {
    Squeeze(Sort(neqs, NeqLess(domain)), SameAs())
  }

  function ShownOr(w: World, v: Scalar): real {
    if v.Num? then Shown(w, v) else 0.0
  }

  function MultLess(w: World): (Scalar, Scalar) -> bool {
    (x, y) => var c := CmpReal(ShownOr(w, x), ShownOr(w, y)); if c != 0 then c < 0 else Rank(x) < Rank(y)
  }

  function ShownSame(w: World): (Scalar, Scalar) -> bool {
    (x, y) => CmpReal(ShownOr(w, x), ShownOr(w, y)) == 0
  }

  /** dedupMults: by shown value and tower rank, each value once. */
  function DedupMults(w: World, ms: seq<Scalar>): seq<Scalar> {
    Squeeze(Sort(ms, MultLess(w)), ShownSame(w))
  }

  function TextLess(): (string, string) -> bool {
    (x, y) => CmpText(x, y) < 0
  }

  function TextSame(): (string, string) -> bool {
    (x, y) => x == y
  }

  /** Sources sorted, each once (dedupSortedRes, dedupSortedFormats, mergeUniqBy). */
  function DedupTexts(ts: seq<string>): seq<string> {
    Squeeze(Sort(ts, TextLess()), TextSame())
  }

  /** meetCount: out of the numeric parts of both, a kind disagreement kept as a clash. */
  function MeetCount(w: World, a: Residual, b: Residual): Residual {
    Residual(Number, a.kind,
             TighterBound(Number, a.lo, b.lo, true), TighterBound(Number, a.hi, b.hi, false),
             DedupNeqs(Number, a.neqs + b.neqs), DedupMults(w, a.mults + b.mults),
             [], [], None, false, [],
             a.clash || b.clash || (a.kind.Some? && b.kind.Some? && a.kind != b.kind),
             false, false, false)
  }

  /** The merged state of meetConstraint, before the emptiness rules. */
  function Merge(w: World, a: Residual, b: Residual): Residual {
    var domain := if a.domain.Any? then b.domain else a.domain;
    Residual(
      domain,
      if a.kind.None? then b.kind else a.kind,
      TighterBound(domain, a.lo, b.lo, true),
      TighterBound(domain, a.hi, b.hi, false),
      DedupNeqs(domain, a.neqs + b.neqs),
      DedupMults(w, a.mults + b.mults),
      DedupTexts(a.res + b.res),
      DedupTexts(a.fmts + b.fmts),
      if a.count.None? then b.count else if b.count.None? then a.count else Some(MeetCount(w, a.count.value, b.count.value)),
      a.uniq || b.uniq,
      DedupTexts(a.uniqBy + b.uniqBy),
      a.clash,
      a.nonEmpty || b.nonEmpty,
      a.emptyOk || b.emptyOk,
      a.pathKind || b.pathKind)
  }

  datatype Met = Meets(r: Residual) | Conflict

  /** The disagreements meetConstraint refuses before it merges. */
  predicate Disagree(a: Residual, b: Residual) {
    || (!a.domain.Any? && !b.domain.Any? && a.domain != b.domain)
    || (a.kind.Some? && b.kind.Some? && a.kind != b.kind)
    || (a.pathKind && b.nonEmpty) || (a.nonEmpty && b.pathKind)
    || (a.pathKind && b.emptyOk) || (a.emptyOk && b.pathKind)
  }

  /** meetConstraint. */
  function Meet(w: World, a: Residual, b: Residual): Met {
    if Disagree(a, b) then Conflict
    else
      var m := Merge(w, a, b);
      if StateEmpty(w, m) then Conflict else Meets(m)
  }
}
