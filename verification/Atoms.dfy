/**
 The atoms a residual is met from (go/constraint.go:565-611, 616-850, 2415-2490): what each is read
 as, and that a residual admits what all of its atoms hold of.
 */
module Atoms {
  import opened Options
  import opened Scaled
  import opened Scalars
  import opened Residuals
  import opened Intersection
  import opened NormalForm

  /** The argument of a length: a number, a residual of numbers or a numeric kind. */
  datatype CountArg = Size(v: Scalar) | Limits(r: Residual) | OfKind(kind: Option<Leaf>)

  /** An atom with settled arguments; the patterns and formats are taken as ones that can be read. */
  datatype Atom =
    | Min(v: Scalar)
    | Above(v: Scalar)
    | Max(v: Scalar)
    | Below(v: Scalar)
    | Neq(vs: seq<Scalar>)
    | Mulof(v: Scalar)
    | Re(v: Scalar)
    | Format(v: Scalar)
    | Len(arg: CountArg)
    | Unique(keys: seq<string>)

  // ----- what an atom is read as

  const NOTHING: Residual :=
    Residual(Any, None, None, None, [], [], [], [], None, false, [], false, false, false, false)

  const COUNT_BASE: Residual :=
    NOTHING.(domain := Number, kind := Some(IntegerLeaf), lo := Some(Bound(CountVal(0), false)))

  /** orderableScalar. */
  predicate Orderable(v: Scalar) {
    v.Num? || v.Text?
  }

  /** countArgState. */
  function CountState(arg: CountArg): Option<Residual> {
    match arg
    case Size(v) =>
      if v.Num? then Some(NOTHING.(domain := Number, lo := Some(Bound(v, false)), hi := Some(Bound(v, false)))) else None
    case Limits(r) =>
      if r.res != [] || r.uniq || r.uniqBy != [] || r.count.Some? || !r.domain.Number? then None
      else Some(NOTHING.(domain := Number, kind := r.kind, lo := r.lo, hi := r.hi, neqs := r.neqs, mults := r.mults))
    case OfKind(kind) => Some(NOTHING.(domain := Number, kind := kind))
  }

  /** makeConstraint; None for an invalid call. */
  function AtomOf(w: World, a: Atom): Option<Residual> {
    match a
    case Min(v) => if Orderable(v) then Some(NOTHING.(domain := DomainOf(v), lo := Some(Bound(v, false)))) else None
    case Above(v) => if Orderable(v) then Some(NOTHING.(domain := DomainOf(v), lo := Some(Bound(v, true)))) else None
    case Max(v) => if Orderable(v) then Some(NOTHING.(domain := DomainOf(v), hi := Some(Bound(v, false)))) else None
    case Below(v) => if Orderable(v) then Some(NOTHING.(domain := DomainOf(v), hi := Some(Bound(v, true)))) else None
    case Neq(vs) =>
      if vs != [] && forall v :: v in vs ==> Orderable(v) && DomainOf(v) == DomainOf(vs[0])
      then Some(NOTHING.(domain := DomainOf(vs[0]), neqs := DedupNeqs(DomainOf(vs[0]), vs))) else None
    case Mulof(v) => if v.Num? && 0.0 < Shown(w, v) then Some(NOTHING.(domain := Number, mults := [v])) else None
    case Re(v) => if v.Text? && !v.path then Some(NOTHING.(domain := Str, res := [v.s])) else None
    case Format(v) => if v.Text? && !v.path then Some(NOTHING.(domain := Str, fmts := [v.s])) else None
    case Len(arg) =>
      var s := CountState(arg);
      if s.None? then None
      else
        var inner := MeetCount(w, COUNT_BASE, s.value);
        if StateEmpty(w, inner) then None else Some(NOTHING.(count := Some(inner)))
    case Unique(keys) => Some(if keys == [] then NOTHING.(uniq := true) else NOTHING.(uniqBy := keys))
  }

  // ----- what an atom says

  /** One text stands before another: at the first place they differ, by its character, or as its
      beginning. */
  ghost predicate Before(a: string, b: string) {
    exists k: nat :: k <= |a| && k < |b| && a[..k] == b[..k] && (k < |a| ==> a[k] < b[k])
  }

  ghost predicate Less(a: Scalar, b: Scalar) {
    (a.Num? && b.Num? && a.val < b.val) || (a.Text? && b.Text? && Before(a.s, b.s))
  }

  predicate Alike(a: Scalar, b: Scalar) {
    (a.Num? && b.Num?) || (a.Text? && b.Text?)
  }

  ghost predicate SizeHolds(w: World, arg: CountArg, n: nat) {
    match arg
    case Size(v) => v.Num? && v.val == n as real
    case Limits(r) => Admits(w, r, CountVal(n))
    case OfKind(kind) => kind.None? || kind == Some(IntegerLeaf)
  }

  /** What an atom says of a scalar. */
  ghost predicate Holds(w: World, a: Atom, v: Scalar) {
    match a
    case Min(b) => Alike(v, b) && !Less(v, b)
    case Above(b) => Less(b, v)
    case Max(b) => Alike(v, b) && !Less(b, v)
    case Below(b) => Less(v, b)
    case Neq(vs) => v !in vs && exists n :: n in vs && Alike(v, n)
    case Mulof(d) => v.Num? && d.Num? && Multiple(Shown(w, v), Shown(w, d))
    case Re(p) => v.Text? && p.Text? && w.matches(p.s, v.s)
    case Format(f) => v.Text? && f.Text? && w.formats(f.s, v.s)
    case Len(arg) => v.Text? && SizeHolds(w, arg, |v.s|)
    case Unique(_) => false
  }

  /** Integer leaves hold whole numbers, and a length's residual is a good one. */
  ghost predicate GoodAtom(w: World, a: Atom) {
    match a
    case Neq(vs) => forall v :: v in vs ==> GoodScalar(v)
    case Len(Size(v)) => GoodScalar(v)
    case Len(Limits(r)) => Good(w, r)
    case Len(OfKind(_)) => true
    case Unique(_) => true
    case _ => GoodScalar(a.v)
  }

  // ----- text

  lemma {:induction false} CmpTextBefore(a: string, b: string)
    ensures CmpText(a, b) < 0 <==> Before(a, b)
  {
    if a == "" || b == "" {
      assert a == "" && b != "" ==> a[..0] == b[..0];
    } else if a[0] != b[0] {
      assert a[..0] == b[..0];
      FirstDiffers(a, b);
    } else {
      CmpTextBefore(a[1..], b[1..]);
      BeforeTail(a, b);
    }
  }

  lemma FirstDiffers(a: string, b: string)
    requires a != "" && b != "" && a[0] != b[0]
    ensures Before(a, b) <==> a[0] < b[0]
  {
    assert a[..0] == b[..0];
    forall k: nat | 0 < k <= |a| && k < |b| ensures a[..k] != b[..k] { assert a[..k][0] == a[0] && b[..k][0] == b[0]; }
  }

  lemma BeforeTail(a: string, b: string)
    requires a != "" && b != "" && a[0] == b[0]
    ensures Before(a, b) <==> Before(a[1..], b[1..])
  {
    if Before(a, b) {
      var k: nat :| k <= |a| && k < |b| && a[..k] == b[..k] && (k < |a| ==> a[k] < b[k]);
      assert k != 0;
      assert a[1..][..k - 1] == a[..k][1..] && b[1..][..k - 1] == b[..k][1..];
    }
    if Before(a[1..], b[1..]) {
      var k: nat :| k <= |a[1..]| && k < |b[1..]| && a[1..][..k] == b[1..][..k] && (k < |a[1..]| ==> a[1..][k] < b[1..][k]);
      assert a[..k + 1] == [a[0]] + a[1..][..k] && b[..k + 1] == [b[0]] + b[1..][..k];
    }
  }

  lemma CmpLess(a: Scalar, b: Scalar)
    requires Alike(a, b)
    ensures Cmp(a, b) < 0 <==> Less(a, b)
    ensures Cmp(a, b) > 0 <==> Less(b, a)
  {
    CmpFlip(a, b);
    if a.Text? && b.Text? {
      CmpTextBefore(a.s, b.s);
      CmpTextBefore(b.s, a.s);
    }
  }

  // ----- the atoms one by one

  /** What a residual without counts admits of an orderable scalar. */
  lemma PlainAdmits(w: World, r: Residual, v: Scalar)
    requires r == NOTHING.(domain := r.domain, lo := r.lo, hi := r.hi, neqs := r.neqs, mults := r.mults, res := r.res, fmts := r.fmts)
    requires !r.domain.Any?
    ensures Admits(w, r, v) <==>
            && Orderable(v) && DomainOf(v) == r.domain && AboveLo(r.lo, v) && BelowHi(r.hi, v)
            && (forall n :: n in r.neqs ==> !Same(v, n)) && (forall m :: m in r.mults ==> IsMultiple(w, v, m))
            && (forall p :: p in r.res ==> v.Text? && w.matches(p, v.s)) && (forall f :: f in r.fmts ==> w.formats(f, if v.Text? then v.s else ""))
  {
    hide AboveLo, BelowHi, IsMultiple, Same;
  }

  ghost predicate ReadRight(w: World, a: Atom, r: Residual) {
    Good(w, r) && !r.emptyOk && forall v :: Admits(w, r, v) <==> Holds(w, a, v)
  }

  lemma BoundRight(w: World, a: Atom)
    requires (a.Min? || a.Above? || a.Max? || a.Below?) && GoodAtom(w, a) && AtomOf(w, a).Some?
    ensures ReadRight(w, a, AtomOf(w, a).value)
  {
    hide Admits, Cmp, Less, Whole;
    var r := AtomOf(w, a).value;
    forall v ensures Admits(w, r, v) <==> Holds(w, a, v) {
      PlainAdmits(w, r, v);
      if Alike(v, a.v) { CmpLess(v, a.v); }
      assert Less(a.v, v) || Less(v, a.v) ==> Alike(v, a.v) by { LessAlike(v, a.v); }
    }
  }

  lemma LessAlike(a: Scalar, b: Scalar)
    ensures Less(a, b) || Less(b, a) ==> Alike(a, b)
  {
  }

  lemma NeqRight(w: World, a: Atom)
    requires a.Neq? && GoodAtom(w, a) && AtomOf(w, a).Some?
    ensures ReadRight(w, a, AtomOf(w, a).value)
  {
    hide Admits, DedupNeqs, Same, Whole;
    var r, d := AtomOf(w, a).value, DomainOf(a.vs[0]);
    NeqsSame(d, a.vs);
    forall v ensures Admits(w, r, v) <==> Holds(w, a, v) {
      PlainAdmits(w, r, v);
      forall n ensures Same(v, n) <==> v == n { SameIs(v, n); }
      assert a.vs[0] in a.vs;
    }
  }

  lemma MulofRight(w: World, a: Atom)
    requires a.Mulof? && GoodAtom(w, a) && AtomOf(w, a).Some?
    ensures ReadRight(w, a, AtomOf(w, a).value)
  {
    hide Admits, Shown, Whole, Multiple, MultipleOf;
    var r := AtomOf(w, a).value;
    forall v ensures Admits(w, r, v) <==> Holds(w, a, v) {
      PlainAdmits(w, r, v);
      if v.Num? { MultipleOfIs(Shown(w, v), Shown(w, a.v)); }
      assert a.v in r.mults;
    }
  }

  lemma TextRight(w: World, a: Atom)
    requires (a.Re? || a.Format?) && AtomOf(w, a).Some?
    ensures ReadRight(w, a, AtomOf(w, a).value)
  {
    hide Admits;
    var r := AtomOf(w, a).value;
    forall v ensures Admits(w, r, v) <==> Holds(w, a, v) {
      PlainAdmits(w, r, v);
      assert a.v.s in r.res || a.v.s in r.fmts;
    }
  }

  lemma UniqueRight(w: World, a: Atom)
    requires a.Unique?
    ensures ReadRight(w, a, AtomOf(w, a).value)
  {
  }

  // ----- lengths

  lemma BaseGood(w: World)
    ensures GoodCount(w, COUNT_BASE)
    ensures forall n :: StateAdmits(w, COUNT_BASE, CountVal(n))
  {
    assert Whole(0.0);
  }

  /** The state a length's argument is read as, a kind other than the integers apart. */
  lemma CountStateIs(w: World, arg: CountArg, n: nat)
    requires GoodAtom(w, Len(arg)) && CountState(arg).Some?
    ensures var s := CountState(arg).value;
            && GoodState(w, s) && s.domain.Number? && s.count.None? && !s.uniq && s.uniqBy == [] && !s.clash
            && (StateAdmits(w, s, CountVal(n)) <==> SizeHolds(w, arg, n))
  {
    hide GoodMult, Whole, Same, IsMultiple;
    match arg
    case Size(v) =>
    case Limits(r) => AdmitsIs(w, r, CountVal(n));
    case OfKind(_) =>
  }

  /** Met with the integers from 0 on it admits the lengths it admitted, unless it is of another kind. */
  lemma CountMet(w: World, s: Residual, n: nat)
    requires GoodState(w, s) && s.domain.Number? && s.count.None? && !s.uniq && s.uniqBy == [] && !s.clash
    ensures var m := MeetCount(w, COUNT_BASE, s);
            if s.kind.Some? && s.kind != Some(IntegerLeaf) then StateEmpty(w, m) && !StateAdmits(w, s, CountVal(n))
            else GoodCount(w, m) && (StateAdmits(w, m, CountVal(n)) <==> StateAdmits(w, s, CountVal(n)))
  {
    hide GoodMult, Whole, Same, IsMultiple, TighterBound, DedupMults, DedupNeqs, AboveLo, BelowHi;
    if s.kind.None? || s.kind == Some(IntegerLeaf) {
      var i := s.(kind := Some(IntegerLeaf));
      assert MeetCount(w, COUNT_BASE, s) == MeetCount(w, COUNT_BASE, i);
      BaseGood(w);
      CountGood(w, COUNT_BASE, i);
      CountsBoth(w, COUNT_BASE, i, CountVal(n));
    }
  }

  lemma LenHolds(w: World, arg: CountArg, n: nat)
    requires GoodAtom(w, Len(arg)) && CountState(arg).Some?
    ensures var m := MeetCount(w, COUNT_BASE, CountState(arg).value);
            && (!StateEmpty(w, m) ==> GoodCount(w, m) && (StateAdmits(w, m, CountVal(n)) <==> SizeHolds(w, arg, n)))
            && (StateEmpty(w, m) && Faithful(w) ==> !SizeHolds(w, arg, n))
  {
    hide StateAdmits, GoodState, StateEmpty, MeetCount, SizeHolds, Faithful;
    var s := CountState(arg).value;
    CountStateIs(w, arg, n);
    CountMet(w, s, n);
    var m := MeetCount(w, COUNT_BASE, s);
    if GoodCount(w, m) && StateEmpty(w, m) && Faithful(w) { EmptyCount(w, m, n); }
  }

  lemma LenRight(w: World, a: Atom)
    requires a.Len? && GoodAtom(w, a) && AtomOf(w, a).Some?
    ensures ReadRight(w, a, AtomOf(w, a).value)
  {
    hide StateAdmits, GoodState, StateEmpty, MeetCount, SizeHolds, GoodAtom;
    var r := AtomOf(w, a).value;
    LenHolds(w, a.arg, 0);
    assert Good(w, r) by { NothingGood(w, r); }
    forall v ensures Admits(w, r, v) <==> Holds(w, a, v) {
      AdmitsIs(w, r, v);
      CountAlone(w, r, v);
      if v.Text? { LenHolds(w, a.arg, |v.s|); }
    }
  }

  lemma NothingGood(w: World, r: Residual)
    requires r == NOTHING.(count := r.count) && (r.count.Some? ==> GoodCount(w, r.count.value))
    ensures Good(w, r)
  {
    hide GoodCount;
  }

  lemma CountAlone(w: World, r: Residual, v: Scalar)
    requires r == NOTHING.(count := r.count) && r.count.Some?
    ensures FlagsAdmit(r, v) && FormatsAdmit(w, r, v) && (v.Text? ==> StateAdmits(w, r, v))
  {
  }

  // ----- every atom

  /** A call is invalid for a bound or an exclusion without an order, exclusions of two domains or
      none, a divisor that shows no positive number, a pattern or a format that is no string, and
      a length's argument that is of no number. */
  predicate Invalid(w: World, a: Atom) {
    match a
    case Neq(vs) => vs == [] || exists v :: v in vs && !Alike(v, vs[0])
    case Mulof(d) => !d.Num? || Shown(w, d) <= 0.0
    case Re(p) => !p.Text? || p.path
    case Format(f) => !f.Text? || f.path
    case Len(Size(v)) => !v.Num?
    case Len(Limits(r)) => r.res != [] || r.uniq || r.uniqBy != [] || r.count.Some? || !r.domain.Number?
    case Len(OfKind(_)) => false
    case Unique(_) => false
    case _ => !a.v.Num? && !a.v.Text?
  }

  lemma InvalidIs(w: World, a: Atom)
    ensures Invalid(w, a) ==> AtomOf(w, a).None?
    ensures AtomOf(w, a).None? && !a.Len? ==> Invalid(w, a)
    ensures a.Len? ==> (Invalid(w, a) <==> CountState(a.arg).None?)
  {
    hide StateEmpty, MeetCount, Shown;
    assert a.Neq? && a.vs != [] ==> a.vs[0] in a.vs;
  }

  /** An atom read admits exactly what it says; one refused is invalid or holds of no scalar. */
  lemma AtomRead(w: World, a: Atom)
    requires Faithful(w) && GoodAtom(w, a)
    ensures match AtomOf(w, a)
            case Some(r) => Good(w, r) && !r.emptyOk && forall v :: Admits(w, r, v) <==> Holds(w, a, v)
            case None => Invalid(w, a) || forall v :: !Holds(w, a, v)
    ensures Invalid(w, a) ==> AtomOf(w, a).None?
  {
    hide AtomOf, Good, Admits, Faithful, GoodAtom, Holds;
    InvalidIs(w, a);
    if AtomOf(w, a).Some? {
      match a
      case Neq(_) => NeqRight(w, a);
      case Mulof(_) => MulofRight(w, a);
      case Re(_) => TextRight(w, a);
      case Format(_) => TextRight(w, a);
      case Len(_) => LenRight(w, a);
      case Unique(_) => UniqueRight(w, a);
      case _ => BoundRight(w, a);
    } else if !Invalid(w, a) {
      forall v ensures !Holds(w, a, v) { LenNone(w, a, v); }
    }
  }

  lemma LenNone(w: World, a: Atom, v: Scalar)
    requires Faithful(w) && GoodAtom(w, a) && a.Len? && CountState(a.arg).Some? && AtomOf(w, a).None?
    ensures !Holds(w, a, v)
  {
    hide StateAdmits, GoodState, StateEmpty, MeetCount, SizeHolds, GoodAtom, Faithful;
    if v.Text? { LenHolds(w, a.arg, |v.s|); }
  }

  // ----- residuals of atoms

  /** The atoms met one after the other. */
  function Of(w: World, m: Met, atoms: seq<Atom>): Met
    requires forall a :: a in atoms ==> AtomOf(w, a).Some?
    decreases |atoms|
  {
    if atoms == [] then m else Of(w, Then(w, m, AtomOf(w, atoms[0]).value), atoms[1..])
  }

  ghost predicate AllHold(w: World, atoms: seq<Atom>, v: Scalar) {
    forall a :: a in atoms ==> Holds(w, a, v)
  }

  /** What a residual met so far says, with the atoms still to come. */
  lemma {:induction false} AtomsAdmit(w: World, m: Met, atoms: seq<Atom>)
    requires Faithful(w) && forall a :: a in atoms ==> GoodAtom(w, a) && AtomOf(w, a).Some?
    requires m.Meets? ==> Good(w, m.r) && !m.r.emptyOk
    ensures var n := Of(w, m, atoms);
            && (n.Meets? ==> m.Meets? && Good(w, n.r) && forall v :: Admits(w, n.r, v) <==> Admits(w, m.r, v) && AllHold(w, atoms, v))
            && (n.Conflict? && m.Meets? ==> forall v :: GoodScalar(v) && Admits(w, m.r, v) ==> !AllHold(w, atoms, v))
    decreases |atoms|
  {
    hide AtomOf, Good, Admits, Faithful, GoodAtom, Holds, Meet, GoodScalar, Invalid;
    if atoms != [] {
      AtomRead(w, atoms[0]);
      var r := AtomOf(w, atoms[0]).value;
      if m.Meets? {
        MeetIntersects(w, m.r, r);
        MeetNoEmpty(w, m.r, r);
      }
      AtomsAdmit(w, Then(w, m, r), atoms[1..]);
      forall v ensures AllHold(w, atoms, v) <==> Holds(w, atoms[0], v) && AllHold(w, atoms[1..], v) { HeadHolds(w, atoms, v); }
    }
  }

  /** A residual met from atoms admits the scalars all of them hold of, and a conflict leaves none. */
  lemma AtomsMet(w: World, atoms: seq<Atom>)
    requires Faithful(w) && atoms != [] && forall a :: a in atoms ==> GoodAtom(w, a) && AtomOf(w, a).Some?
    ensures match Of(w, Meets(AtomOf(w, atoms[0]).value), atoms[1..])
            case Meets(r) => forall v :: Admits(w, r, v) <==> forall a :: a in atoms ==> Holds(w, a, v)
            case Conflict => forall v :: GoodScalar(v) ==> exists a :: a in atoms && !Holds(w, a, v)
  {
    hide AtomOf, Good, Admits, Faithful, GoodAtom, Holds, Meet, GoodScalar, Invalid;
    AtomRead(w, atoms[0]);
    AtomsAdmit(w, Meets(AtomOf(w, atoms[0]).value), atoms[1..]);
    forall v ensures AllHold(w, atoms, v) <==> Holds(w, atoms[0], v) && AllHold(w, atoms[1..], v) { HeadHolds(w, atoms, v); }
  }

  lemma HeadHolds(w: World, atoms: seq<Atom>, v: Scalar)
    requires atoms != []
    ensures AllHold(w, atoms, v) <==> Holds(w, atoms[0], v) && AllHold(w, atoms[1..], v)
  {
    hide Holds;
    assert atoms == [atoms[0]] + atoms[1..];
  }

  lemma MeetNoEmpty(w: World, a: Residual, b: Residual)
    requires !a.emptyOk && !b.emptyOk
    ensures Meet(w, a, b).Meets? ==> !Meet(w, a, b).r.emptyOk
  {
    hide StateEmpty, Disagree, TighterBound, DedupNeqs, DedupMults, DedupTexts, MeetCount;
  }
}
