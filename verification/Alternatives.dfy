/**
 Where a disjunction is written as `|` and where as a count (go/jsonschema_import.go:
 1862-1931, 2023-2080): told from the kinds of the instances the branches can survive.
 */
module Alternatives {
  import opened Options
  import opened Sorting
  import opened Branches
  import opened AnyOf

  /** Somewhere an instance of the kind survives the meet with the expression. */
  ghost predicate Survives(e: Expr, k: Kind) {
    exists w: World, v: Json :: KindOf(v) == k && Meets(w, e, v) != {}
  }

  /** The expression may be of the kind: a conjunction where each of its parts may, a disjunction
      where one may, a rider where what it rides on may, and any other expression where an
      instance of the kind survives; what begins as a number may be a number. */
  ghost predicate MayBe(e: Expr, k: Kind)
    decreases e
  {
    match e
    case Raw(text) => Survives(e, k) || (k == NumberKind && NumberStart(text))
    case And(items) => forall i :: 0 <= i < |items| ==> MayBe(items[i], k)
    case Or(items) => exists i :: 0 <= i < |items| && MayBe(items[i], k)
    case Call(_, items) => if Rider(e) && items != [] then MayBe(items[0], k) else Survives(e, k)
    case _ => Survives(e, k)
  }

  /** A world in which everything left open survives. */
  ghost function Lenient(text: string): World {
    World((s: string) => text, (t: string, v: Json) => {Same}, (e: Expr, v: Json) => {Same}, (e: Expr, v: Json) => {Same}, (e: Expr, n: nat) => true)
  }

  ghost function OfKind(k: Kind, b: bool): (v: Json)
    ensures KindOf(v) == k
  {
    match k
    case NullKind => JNull
    case BooleanKind => JBool(b)
    case NumberKind => JNum(0.0)
    case StringKind => JStr("")
    case ObjectKind => JObj([])
    case ArrayKind => JArr([])
  }

  lemma RawSurvives(text: string, k: Kind)
    requires k in RawKinds(text) && !NumberStart(text)
    ensures Survives(Raw(text), k)
  {
    var w, v := Lenient(text), OfKind(k, text == "true");
    assert Meets(w, Raw(text), v) == RawMeets(w, text, v);
    assert RawMeets(w, text, v) == {Same};
  }

  lemma Covered(e: Expr, k: Kind)
    requires Survives(e, k)
    ensures k in KindsOf(e)
  {
    hide Meets, KindsOf;
    var w: World, v: Json :| KindOf(v) == k && Meets(w, e, v) != {};
    KindsCover(w, e, v);
  }

  lemma RawMayBe(text: string, k: Kind)
    ensures MayBe(Raw(text), k) <==> k in RawKinds(text)
  {
    hide Meets, RawMeets;
    if Survives(Raw(text), k) {
      Covered(Raw(text), k);
    } else if k in RawKinds(text) && !NumberStart(text) {
      RawSurvives(text, k);
    }
  }

  /** A call that is no rider and no count, a list or a map. */
  lemma ShapeSurvives(e: Expr, k: Kind)
    requires k in KindsOf(e) && !Blocker(e) && !e.Raw? && !e.And? && !e.Or? && !(Rider(e) && e.items != [])
    ensures Survives(e, k)
  {
    var w, v := Lenient(""), OfKind(k, true);
    assert Meets(w, e, v) == {Same};
  }

  lemma ShapeMayBe(e: Expr, k: Kind)
    requires !Blocker(e) && !e.Raw? && !e.And? && !e.Or? && !(Rider(e) && e.items != [])
    ensures Survives(e, k) <==> k in KindsOf(e)
  {
    hide Survives, KindsOf;
    if Survives(e, k) { Covered(e, k); }
    if k in KindsOf(e) { ShapeSurvives(e, k); }
  }

  lemma {:induction false} EachMayBe(items: seq<Expr>, k: Kind)
    requires forall i :: 0 <= i < |items| ==> !Blocker(items[i])
    ensures k in Common(items) <==> forall i :: 0 <= i < |items| ==> MayBe(items[i], k)
    ensures k in AnyKinds(items) <==> exists i :: 0 <= i < |items| && MayBe(items[i], k)
    decreases items, 0
  {
    hide MayBe, KindsOf, Blocker;
    if items != [] {
      MayBeIs(items[0], k);
      assert forall i :: 0 <= i < |items[1..]| ==> items[1..][i] == items[i + 1];
      EachMayBe(items[1..], k);
      if i :| 0 <= i < |items| && !MayBe(items[i], k) && 0 < i { assert !MayBe(items[1..][i - 1], k); }
      if i :| 0 <= i < |items| && MayBe(items[i], k) && 0 < i { assert MayBe(items[1..][i - 1], k); }
    }
  }

  /** The kinds read from the shape of an expression that is no blocker are those it may be of. */
  lemma {:induction false} MayBeIs(e: Expr, k: Kind)
    requires !Blocker(e)
    ensures MayBe(e, k) <==> k in KindsOf(e)
    decreases e, 1
  {
    hide Survives, Meets;
    match e
    case Raw(text) => RawMayBe(text, k);
    case And(items) => EachMayBe(items, k);
    case Or(items) => EachMayBe(items, k);
    case Call(_, items) => if Rider(e) && items != [] { MayBeIs(items[0], k); } else { ShapeMayBe(e, k); }
    case _ => ShapeMayBe(e, k);
  }

  /** Two branches may both take an instance: a literal stands in both, or, unless both are literal,
      there is a kind both may be of. */
  ghost predicate Overlap(b: Expr, c: Expr) {
    if LiteralTexts(b).Some? && LiteralTexts(c).Some? then exists t :: t in LiteralTexts(b).value && t in LiteralTexts(c).value
    else exists k: Kind :: MayBe(b, k) && MayBe(c, k)
  }

  lemma OverlapIs(b: Expr, c: Expr)
    requires !Blocker(b) && !Blocker(c)
    ensures Overlap(b, c) <==> !Apart(b, c)
  {
    hide MayBe, KindsOf, LiteralTexts, Blocker;
    forall k: Kind ensures (MayBe(b, k) <==> k in KindsOf(b)) && (MayBe(c, k) <==> k in KindsOf(c)) {
      MayBeIs(b, k);
      MayBeIs(c, k);
    }
  }

  predicate IsCount(e: Expr) {
    e.Call? && e.name == "nof"
  }

  /** A count is written exactly where, of branches that are not all literal, one is a blocker or two
      overlap; everywhere else `|` is. */
  lemma CountedIff(branches: seq<Expr>)
    ensures var live := Live(branches);
            IsCount(AnyOf.AnyOf(branches)) <==>
              && !AllLiteral(live)
              && ((exists b :: b in live && Blocker(b)) || exists i, j :: 0 <= i < j < |live| && Overlap(live[i], live[j]))
  {
    hide Overlap, Apart, Blocker, AllLiteral, Disjoint, Live, Sort, Flat, Either, Counted;
    var live := Live(branches);
    NoneLiteral();
    DisjointIff(live);
    CountedIs(branches);
    if AllLiteral(live) {
      LiteralFree(live);
      if live != [] { EitherFree(live); }
    } else if Disjoint(live) {
      forall e | e in Sort(Flat(live), ByKind()) ensures !IsCount(e) { FlatFree(live, e); }
      EitherFree(Sort(Flat(live), ByKind()));
    }
  }

  lemma NoneLiteral()
    ensures AllLiteral([]) && !IsCount(Raw("nil"))
  {
  }

  lemma CountedIs(branches: seq<Expr>)
    ensures IsCount(Counted(Call("min", [Raw("1")]), branches))
  {
  }

  lemma DisjointIff(live: seq<Expr>)
    ensures Disjoint(live) <==>
      !((exists b :: b in live && Blocker(b)) || exists i, j :: 0 <= i < j < |live| && Overlap(live[i], live[j]))
  {
    hide Overlap, Apart, Blocker;
    if forall b :: b in live ==> !Blocker(b) {
      forall i, j | 0 <= i < j < |live| ensures Overlap(live[i], live[j]) <==> !Apart(live[i], live[j]) {
        assert live[i] in live && live[j] in live;
        OverlapIs(live[i], live[j]);
      }
    }
  }

  lemma LiteralFree(live: seq<Expr>)
    requires AllLiteral(live)
    ensures forall b :: b in live ==> !IsCount(b)
  {
    forall b | b in live ensures !IsCount(b) { assert LiteralTexts(b).Some?; }
  }

  lemma NoBlockerNoCount(e: Expr)
    requires !Blocker(e)
    ensures !IsCount(e)
  {
  }

  lemma FlatFree(live: seq<Expr>, e: Expr)
    requires Disjoint(live) && e in Flat(live)
    ensures !IsCount(e)
  {
    hide Blocker, Apart, IsCount;
    FlatHas(live, e);
    var b :| b in live && (if b.Or? then e in b.items else e == b);
    if b.Or? { PartUnblocked(b, e); }
    NoBlockerNoCount(e);
  }

  lemma EitherFree(items: seq<Expr>)
    requires forall e :: e in items ==> !IsCount(e)
    ensures !IsCount(Either(items))
  {
    var uniq := DistinctOf(items);
    if |uniq| == 1 { assert uniq[0] in uniq; }
  }

  // ----- oneOf

  /** All branches are literal and no literal stands twice, in one or in two. */
  ghost predicate EachOnce(branches: seq<Expr>) {
    && (forall i :: 0 <= i < |branches| ==> LiteralTexts(branches[i]).Some? && Unrepeated(LiteralTexts(branches[i]).value))
    && (forall i, j :: 0 <= i < j < |branches| ==> !Overlap(branches[i], branches[j]))
  }

  lemma UnrepeatedBoth(a: seq<string>, b: seq<string>)
    ensures Unrepeated(a + b) <==> Unrepeated(a) && Unrepeated(b) && forall t :: t in a ==> t !in b
  {
    if Unrepeated(a + b) {
      UnrepeatedParts(a, b);
    } else {
      var i, j :| 0 <= i < j < |a + b| && (a + b)[i] == (a + b)[j];
      if j < |a| { assert a[i] == a[j]; } else if i < |a| { assert a[i] in a && b[j - |a|] in b; } else { assert b[i - |a|] == b[j - |a|]; }
    }
  }

  predicate Says(b: Expr, t: string) {
    LiteralTexts(b).Some? && t in LiteralTexts(b).value
  }

  predicate AnySays(branches: seq<Expr>, t: string) {
    exists i :: 0 <= i < |branches| && Says(branches[i], t)
  }

  lemma SaysStep(branches: seq<Expr>, t: string)
    requires branches != []
    ensures AnySays(branches, t) <==> Says(branches[0], t) || AnySays(branches[1..], t)
  {
    hide Says;
    assert forall i :: 0 <= i < |branches[1..]| ==> branches[1..][i] == branches[i + 1];
    if i :| 0 <= i < |branches| && Says(branches[i], t) && 0 < i { assert Says(branches[1..][i - 1], t); }
  }

  lemma {:induction false} TextFrom(branches: seq<Expr>, t: string)
    requires TextsOfAll(branches).Some?
    ensures t in TextsOfAll(branches).value <==> AnySays(branches, t)
  {
    hide LiteralTexts;
    if branches != [] {
      TextFrom(branches[1..], t);
      SaysStep(branches, t);
    }
  }

  lemma {:induction false} OnceIs(branches: seq<Expr>)
    ensures TextsOfAll(branches).Some? && Unrepeated(TextsOfAll(branches).value) <==> EachOnce(branches)
  {
    hide LiteralTexts, Unrepeated;
    if branches == [] {
      NoText();
    } else {
      var rest := branches[1..];
      OnceIs(rest);
      assert forall i :: 0 <= i < |rest| ==> rest[i] == branches[i + 1];
      OnceSplit(branches);
      if LiteralTexts(branches[0]).Some? && TextsOfAll(rest).Some? {
        UnrepeatedBoth(LiteralTexts(branches[0]).value, TextsOfAll(rest).value);
        forall t: string ensures t in TextsOfAll(rest).value <==> AnySays(rest, t) { TextFrom(rest, t); }
        forall i | 0 <= i < |branches| ensures LiteralTexts(branches[i]).Some? {
          TextsSome(rest);
          if 0 < i { assert LiteralTexts(rest[i - 1]).Some?; }
        }
        HeadOverlaps(branches);
      }
    }
  }

  lemma {:induction false} TextsSome(branches: seq<Expr>)
    requires TextsOfAll(branches).Some?
    ensures forall i :: 0 <= i < |branches| ==> LiteralTexts(branches[i]).Some?
  {
    TextsAllLiteral(branches);
  }

  lemma NoText()
    ensures TextsOfAll([]) == Some([]) && Unrepeated([]) && EachOnce([])
  {
  }

  lemma OnceSplit(branches: seq<Expr>)
    requires branches != []
    ensures EachOnce(branches) <==>
      && LiteralTexts(branches[0]).Some? && Unrepeated(LiteralTexts(branches[0]).value) && EachOnce(branches[1..])
      && forall j :: 0 < j < |branches| ==> !Overlap(branches[0], branches[j])
  {
    hide LiteralTexts, Unrepeated, Overlap;
    var rest := branches[1..];
    assert forall i :: 0 <= i < |rest| ==> rest[i] == branches[i + 1];
    if EachOnce(rest) {
      forall i, j | 0 < i < j < |branches| ensures !Overlap(branches[i], branches[j]) { assert !Overlap(rest[i - 1], rest[j - 1]); }
      forall i | 0 < i < |branches| ensures LiteralTexts(branches[i]).Some? && Unrepeated(LiteralTexts(branches[i]).value) {
        assert LiteralTexts(rest[i - 1]).Some?;
      }
    }
  }

  lemma HeadOverlaps(branches: seq<Expr>)
    requires branches != [] && forall i :: 0 <= i < |branches| ==> LiteralTexts(branches[i]).Some?
    ensures (forall j :: 0 < j < |branches| ==> !Overlap(branches[0], branches[j])) <==>
              forall t: string :: t in LiteralTexts(branches[0]).value ==> !AnySays(branches[1..], t)
  {
    hide LiteralTexts;
    var rest := branches[1..];
    assert forall i :: 0 <= i < |rest| ==> rest[i] == branches[i + 1];
    forall j | 0 < j < |branches| && Overlap(branches[0], branches[j])
      ensures exists t: string :: t in LiteralTexts(branches[0]).value && AnySays(rest, t)
    {
      var t :| t in LiteralTexts(branches[0]).value && t in LiteralTexts(branches[j]).value;
      assert Says(rest[j - 1], t);
    }
    forall t: string | t in LiteralTexts(branches[0]).value && AnySays(rest, t)
      ensures exists j :: 0 < j < |branches| && Overlap(branches[0], branches[j])
    {
      var i :| 0 <= i < |rest| && Says(rest[i], t);
      assert Overlap(branches[0], branches[i + 1]);
    }
  }

  /** Of two or more branches a count is written unless all are literal and no literal stands twice. */
  lemma OneOfCountedIff(branches: seq<Expr>)
    requires |branches| != 1
    ensures IsCount(OneOf(branches)) <==> !EachOnce(branches)
  {
    hide EachOnce, TextsOfAll, Unrepeated, AllLiteral, Either, Counted;
    OnceIs(branches);
    OneCountIs(branches);
    if TextsOfAll(branches).Some? {
      TextsAllLiteral(branches);
      LiteralFree(branches);
      EitherFree(branches);
    }
  }

  lemma OneCountIs(branches: seq<Expr>)
    ensures IsCount(Counted(Raw("1"), branches))
  {
  }
}
