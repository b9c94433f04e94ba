/**
 What an expression's parts, however deep, make of it (go/jsonschema_import.go:1931-2021): a
 blocker, a holder of nil, an expression of literals alone; and the order branches are written in.
 */
module BranchParts {
  import opened Options
  import opened Sorting
  import opened Branches
  import opened AnyOf
  import opened Alternatives

  /** A part is the expression or a part of one directly in it; a rider's record holds none. */
  ghost predicate Inside(e: Expr, p: Expr)
    decreases e
  {
    e == p ||
    match e
    case Raw(_) => false
    case And(items) => exists i :: 0 <= i < |items| && Inside(items[i], p)
    case Or(items) => exists i :: 0 <= i < |items| && Inside(items[i], p)
    case Call(_, items) => if Rider(e) then items != [] && Inside(items[0], p) else exists i :: 0 <= i < |items| && Inside(items[i], p)
    case ListOf(items) => exists i :: 0 <= i < |items| && Inside(items[i], p)
    case Each(spread) => Inside(spread, p)
    case MapOf(entries, spreads) =>
      (exists i :: 0 <= i < |entries| && Inside(entries[i].val, p)) || exists i :: 0 <= i < |spreads| && Inside(spreads[i], p)
  }

  // ----- nil

  lemma {:induction false} NilInside(e: Expr)
    ensures HoldsNil(e) <==> Inside(e, Raw("nil"))
    decreases e
  {
    match e
    case Raw(_) =>
    case And(items) => forall i | 0 <= i < |items| ensures HoldsNil(items[i]) <==> Inside(items[i], Raw("nil")) { NilInside(items[i]); }
    case Or(items) => forall i | 0 <= i < |items| ensures HoldsNil(items[i]) <==> Inside(items[i], Raw("nil")) { NilInside(items[i]); }
    case Call(_, items) => forall i | 0 <= i < |items| ensures HoldsNil(items[i]) <==> Inside(items[i], Raw("nil")) { NilInside(items[i]); }
    case ListOf(items) => forall i | 0 <= i < |items| ensures HoldsNil(items[i]) <==> Inside(items[i], Raw("nil")) { NilInside(items[i]); }
    case Each(spread) => NilInside(spread);
    case MapOf(entries, spreads) =>
      forall i | 0 <= i < |entries| ensures HoldsNil(entries[i].val) <==> Inside(entries[i].val, Raw("nil")) { NilInside(entries[i].val); }
      forall i | 0 <= i < |spreads| ensures HoldsNil(spreads[i]) <==> Inside(spreads[i], Raw("nil")) { NilInside(spreads[i]); }
  }

  // ----- blockers

  const BLOCKING: set<string> := {"nof", "must", "when", "close", "contains", "unique"}

  /** What blocks by itself: an alias, a container's count, a Band B atom or closure, a list of members
      or of what may be nil, a map with a required key or a spread that may be nil. */
  ghost predicate Blocks(p: Expr) {
    match p
    case Raw(text) => text != "" && text[0] == '%'
    case And(items) => StringKind !in KindsOf(p) && exists c :: c in items && c.Call? && c.name == "len"
    case Or(_) => false
    case Call(name, _) => name in BLOCKING
    case ListOf(_) => true
    case Each(spread) => Inside(spread, Raw("nil"))
    case MapOf(entries, spreads) => (exists k :: k in entries && !k.optional) || exists s :: s in spreads && Inside(s, Raw("nil"))
  }

  ghost predicate BlockedInside(e: Expr) {
    exists p :: Inside(e, p) && Blocks(p)
  }

  lemma InsideSelf(e: Expr)
    ensures Inside(e, e)
  {
  }

  lemma {:induction false} ItemsBlocked(items: seq<Expr>, all: Expr)
    requires forall i :: 0 <= i < |items| ==> (Blocker(items[i]) <==> BlockedInside(items[i]))
    requires forall p :: p != all ==> (Inside(all, p) <==> exists i :: 0 <= i < |items| && Inside(items[i], p))
    requires Inside(all, all)
    ensures BlockedInside(all) <==> Blocks(all) || exists i :: 0 <= i < |items| && Blocker(items[i])
  {
    hide Inside, Blocks, Blocker;
    if p :| Inside(all, p) && Blocks(p) && p != all {
      var i :| 0 <= i < |items| && Inside(items[i], p);
      assert BlockedInside(items[i]);
    }
    if i :| 0 <= i < |items| && Blocker(items[i]) {
      var p :| Inside(items[i], p) && Blocks(p);
      assert p == all || Inside(all, p);
    }
  }

  function ValuesOf(entries: seq<Entry>): (vs: seq<Expr>)
    ensures |vs| == |entries| && forall i :: 0 <= i < |vs| ==> vs[i] == entries[i].val
  {
    seq(|entries|, i requires 0 <= i < |entries| => entries[i].val)
  }

  /** The expressions directly in one. */
  function Direct(e: Expr): seq<Expr> {
    match e
    case Raw(_) => []
    case And(items) => items
    case Or(items) => items
    case Call(_, items) => if Rider(e) then items[..if items == [] then 0 else 1] else items
    case ListOf(items) => items
    case Each(spread) => [spread]
    case MapOf(entries, spreads) => ValuesOf(entries) + spreads
  }

  lemma DirectSmaller(e: Expr)
    ensures forall i :: 0 <= i < |Direct(e)| ==> Direct(e)[i] < e
  {
  }

  /** In a list that is one behind another. */
  lemma InBoth(a: seq<Expr>, b: seq<Expr>, holds: Expr -> bool)
    ensures (exists i :: 0 <= i < |a + b| && holds((a + b)[i])) <==> (exists i :: 0 <= i < |a| && holds(a[i])) || exists i :: 0 <= i < |b| && holds(b[i])
  {
    var s := a + b;
    assert forall i :: 0 <= i < |a| ==> s[i] == a[i];
    assert forall i :: 0 <= i < |b| ==> s[|a| + i] == b[i];
    if i :| 0 <= i < |s| && holds(s[i]) && |a| <= i { assert s[i] == b[i - |a|]; }
  }

  lemma InsideDirect(e: Expr, p: Expr)
    ensures Inside(e, p) <==> e == p || exists i :: 0 <= i < |Direct(e)| && Inside(Direct(e)[i], p)
  {
    var ds := Direct(e);
    match e
    case Call(_, items) =>
      if Rider(e) && items != [] { assert ds == [items[0]] && ds[0] == items[0]; }
    case Each(spread) => assert ds[0] == spread;
    case MapOf(entries, spreads) => InsideMap(entries, spreads, p);
    case _ =>
  }

  lemma InsideMap(entries: seq<Entry>, spreads: seq<Expr>, p: Expr)
    ensures Inside(MapOf(entries, spreads), p) <==>
      MapOf(entries, spreads) == p || exists i :: 0 <= i < |Direct(MapOf(entries, spreads))| && Inside(Direct(MapOf(entries, spreads))[i], p)
  {
    var vs := ValuesOf(entries);
    InBoth(vs, spreads, x => Inside(x, p));
    assert Direct(MapOf(entries, spreads)) == vs + spreads;
    MapInside(entries, spreads, p);
  }

  lemma MapInside(entries: seq<Entry>, spreads: seq<Expr>, p: Expr)
    ensures Inside(MapOf(entries, spreads), p) <==>
      || MapOf(entries, spreads) == p
      || (exists i :: 0 <= i < |ValuesOf(entries)| && Inside(ValuesOf(entries)[i], p)) || exists i :: 0 <= i < |spreads| && Inside(spreads[i], p)
  {
    ValueHas(entries, x => Inside(x, p));
  }

  lemma ValueHas(entries: seq<Entry>, holds: Expr -> bool)
    ensures (exists i :: 0 <= i < |entries| && holds(entries[i].val)) <==> exists i :: 0 <= i < |ValuesOf(entries)| && holds(ValuesOf(entries)[i])
  {
    var vs := ValuesOf(entries);
    if i :| 0 <= i < |entries| && holds(entries[i].val) { assert holds(vs[i]); }
    if i :| 0 <= i < |vs| && holds(vs[i]) { assert holds(entries[i].val); }
  }

  lemma BlockerMap(entries: seq<Entry>, spreads: seq<Expr>)
    ensures var e := MapOf(entries, spreads); Blocker(e) <==> Blocks(e) || exists i :: 0 <= i < |Direct(e)| && Blocker(Direct(e)[i])
  {
    hide Inside, HoldsNil;
    var vs := ValuesOf(entries);
    MapBlocks(entries, spreads);
    InBoth(vs, spreads, x => Blocker(x));
    assert Direct(MapOf(entries, spreads)) == vs + spreads;
    MapBlocker(entries, spreads);
  }

  lemma MapBlocker(entries: seq<Entry>, spreads: seq<Expr>)
    ensures Blocker(MapOf(entries, spreads)) <==>
      || (exists i :: 0 <= i < |entries| && !entries[i].optional) || (exists i :: 0 <= i < |spreads| && HoldsNil(spreads[i]))
      || (exists i :: 0 <= i < |ValuesOf(entries)| && Blocker(ValuesOf(entries)[i])) || exists i :: 0 <= i < |spreads| && Blocker(spreads[i])
  {
    hide HoldsNil;
    ValueHas(entries, x => Blocker(x));
  }

  lemma BlockerDirect(e: Expr)
    ensures Blocker(e) <==> Blocks(e) || exists i :: 0 <= i < |Direct(e)| && Blocker(Direct(e)[i])
  {
    hide Inside, KindsOf, HoldsNil;
    var ds := Direct(e);
    match e
    case Raw(_) =>
    case And(items) => LenIn(items);
    case Or(_) =>
    case Call(_, items) =>
      if Rider(e) && items != [] { assert ds == [items[0]] && ds[0] == items[0]; }
    case ListOf(_) =>
    case Each(spread) =>
      NilInside(spread);
      assert ds[0] == spread;
    case MapOf(entries, spreads) => BlockerMap(entries, spreads);
  }

  lemma LenIn(items: seq<Expr>)
    ensures (exists i :: 0 <= i < |items| && items[i].Call? && items[i].name == "len") <==> exists c :: c in items && c.Call? && c.name == "len"
  {
  }

  lemma MapBlocks(entries: seq<Entry>, spreads: seq<Expr>)
    ensures (exists i :: 0 <= i < |entries| && !entries[i].optional) <==> exists k :: k in entries && !k.optional
    ensures (exists i :: 0 <= i < |spreads| && HoldsNil(spreads[i])) <==> exists s :: s in spreads && Inside(s, Raw("nil"))
  {
    hide Inside, HoldsNil;
    forall s | s in spreads ensures HoldsNil(s) <==> Inside(s, Raw("nil")) { NilInside(s); }
  }

  /** A blocker is an expression with a part, however deep, that blocks. */
  lemma {:induction false} BlockerIff(e: Expr)
    ensures Blocker(e) <==> BlockedInside(e)
    decreases e
  {
    hide Inside, Blocks, Blocker, Direct;
    DirectSmaller(e);
    forall i | 0 <= i < |Direct(e)| ensures Blocker(Direct(e)[i]) <==> BlockedInside(Direct(e)[i]) { BlockerIff(Direct(e)[i]); }
    forall p | p != e ensures Inside(e, p) <==> exists i :: 0 <= i < |Direct(e)| && Inside(Direct(e)[i], p) { InsideDirect(e, p); }
    InsideSelf(e);
    ItemsBlocked(Direct(e), e);
    BlockerDirect(e);
  }

  // ----- literals

  /** The text of a scalar's literal. */
  predicate Scalar(text: string) {
    || text == "null" || text == "true" || text == "false"
    || (text != "" && (text[0] == '"' || text[0] in "0123456789"))
    || (1 < |text| && text[0] == '-' && text[1] in "0123456789")
  }

  lemma ScalarIs(text: string)
    ensures LiteralText(text) <==> Scalar(text)
  {
    assert forall c: char :: c in "0123456789" <==> '0' <= c <= '9';
  }

  /** A disjunction, a rider on something, or a literal. */
  predicate Literally(p: Expr) {
    p.Or? || (Rider(p) && p.items != []) || (p.Raw? && Scalar(p.text))
  }

  ghost predicate AllLiterally(e: Expr) {
    forall p :: Inside(e, p) ==> Literally(p)
  }

  lemma {:induction false} TextsIff(items: seq<Expr>)
    requires forall i :: 0 <= i < |items| ==> (LiteralTexts(items[i]).Some? <==> AllLiterally(items[i]))
    ensures TextsOfAll(items).Some? <==> forall i :: 0 <= i < |items| ==> AllLiterally(items[i])
  {
    hide LiteralTexts, AllLiterally;
    if items != [] {
      assert forall i :: 0 <= i < |items[1..]| ==> items[1..][i] == items[i + 1];
      TextsIff(items[1..]);
      if forall i :: 0 <= i < |items[1..]| ==> AllLiterally(items[1..][i]) {
        forall i | 0 < i < |items| ensures AllLiterally(items[i]) { assert AllLiterally(items[1..][i - 1]); }
      }
    }
  }

  lemma AllDirect(e: Expr)
    ensures AllLiterally(e) <==> Literally(e) && forall i :: 0 <= i < |Direct(e)| ==> AllLiterally(Direct(e)[i])
  {
    hide Inside, Literally, Direct;
    forall p ensures Inside(e, p) <==> e == p || exists i :: 0 <= i < |Direct(e)| && Inside(Direct(e)[i], p) { InsideDirect(e, p); }
    InsideSelf(e);
  }

  /** An expression is one of literals alone exactly where every part is a literal or holds some. */
  lemma {:induction false} LiteralIff(e: Expr)
    ensures LiteralTexts(e).Some? <==> AllLiterally(e)
    decreases e
  {
    hide Inside, AllLiterally;
    AllDirect(e);
    if Rider(e) && e.items != [] {
      LiteralIff(e.items[0]);
      assert Direct(e) == [e.items[0]] && Direct(e)[0] == e.items[0];
    } else if e.Or? {
      assert Direct(e) == e.items && Literally(e);
      forall i | 0 <= i < |e.items| ensures LiteralTexts(e.items[i]).Some? <==> AllLiterally(e.items[i]) { LiteralIff(e.items[i]); }
      TextsIff(e.items);
    } else if e.Raw? {
      ScalarIs(e.text);
    }
  }

  // ----- the order

  const WRITTEN_KINDS: seq<Kind> := [NullKind, BooleanKind, NumberKind, StringKind, ObjectKind, ArrayKind]

  /** The first kind a may be of, in the order types are written, is not behind the first b may be of. */
  ghost predicate NoLater(a: Expr, b: Expr) {
    forall n :: 0 <= n < 6 && MayBe(b, WRITTEN_KINDS[n]) ==> exists m :: 0 <= m <= n && MayBe(a, WRITTEN_KINDS[m])
  }

  lemma RankIs(e: Expr, n: nat)
    requires !Blocker(e) && n < 6
    ensures (exists m :: 0 <= m <= n && MayBe(e, WRITTEN_KINDS[m])) <==> KindRank(KindsOf(e)) <= n
  {
    hide MayBe, Blocker, KindsOf;
    forall k: Kind ensures MayBe(e, k) <==> k in KindsOf(e) { MayBeIs(e, k); }
    var w := WRITTEN_KINDS;
    assert w[0] == NullKind && w[1] == BooleanKind && w[2] == NumberKind && w[3] == StringKind && w[4] == ObjectKind && w[5] == ArrayKind;
  }

  lemma RankLater(a: Expr, b: Expr)
    requires !Blocker(a) && !Blocker(b) && !ByKind()(b, a)
    ensures NoLater(a, b)
  {
    hide MayBe, Blocker, KindsOf, KindRank;
    forall n | 0 <= n < 6 && MayBe(b, WRITTEN_KINDS[n]) ensures exists m :: 0 <= m <= n && MayBe(a, WRITTEN_KINDS[m]) {
      RankIs(b, n);
      RankIs(a, n);
    }
  }

  lemma ByKindWeak()
    ensures Weak(ByKind())
  {
    hide KindRank, KindsOf;
  }

  ghost predicate Ranked(items: seq<Expr>) {
    forall i, j :: 0 <= i < j < |items| ==> !ByKind()(items[j], items[i])
  }

  ghost predicate InOrder(items: seq<Expr>) {
    forall i, j :: 0 <= i < j < |items| ==> NoLater(items[i], items[j])
  }

  /** The branches, a disjunction's members in its place. */
  ghost predicate Spread(live: seq<Expr>, e: Expr) {
    exists b :: b in live && (if b.Or? then e in b.items else e == b)
  }

  ghost predicate WrittenAs(live: seq<Expr>, out: Expr, items: seq<Expr>) {
    out == Either(items) && InOrder(items) && forall e :: e in items <==> Spread(live, e)
  }

  /** Branches that are not all literal are written in the order of their kinds. */
  lemma WrittenInOrder(branches: seq<Expr>)
    requires !AllLiteral(Live(branches)) && !IsCount(AnyOf.AnyOf(branches))
    ensures exists items :: WrittenAs(Live(branches), AnyOf.AnyOf(branches), items)
  {
    hide Live, Flat, Sort, Either, Blocker, Apart, KindsOf, KindRank, NoLater, AllLiteral;
    var live := Live(branches);
    NoneLiteral();
    CountedIs(branches);
    var sorted := Sort(Flat(live), ByKind());
    SortedFree(live, sorted);
    forall i, j | 0 <= i < j < |sorted| ensures NoLater(sorted[i], sorted[j]) {
      assert sorted[i] in sorted && sorted[j] in sorted;
      RankLater(sorted[i], sorted[j]);
    }
    forall e ensures e in sorted <==> Spread(live, e) { FlatHas(live, e); }
    assert WrittenAs(live, AnyOf.AnyOf(branches), sorted);
  }

  lemma SortedFree(live: seq<Expr>, sorted: seq<Expr>)
    requires Disjoint(live) && sorted == Sort(Flat(live), ByKind())
    ensures Ranked(sorted) && forall e :: e in sorted ==> !Blocker(e)
  {
    hide Blocker, Apart, KindRank, KindsOf;
    ByKindWeak();
    SortSorted(Flat(live), ByKind());
    forall e | e in sorted ensures !Blocker(e) {
      FlatHas(live, e);
      var b :| b in live && (if b.Or? then e in b.items else e == b);
      if b.Or? { PartUnblocked(b, e); }
    }
  }
}
