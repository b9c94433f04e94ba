/**
 The importer's meets and disjunctions as built (iand and ior, go/jsonschema_import.go:414-451):
 what they say, what reading them back keeps of it, and which of them are written as chains no
 longer than a group.
 */
module Junctions {
  import opened Branches
  import opened Writer
  import opened WrittenBack
  import AnyOf

  // ----- what keeps chains narrow

  /** No meet directly in a meet, and no disjunction in a disjunction. */
  ghost predicate Tight(e: Expr) {
    match e
    case And(items) => NoneSame(true, items) && forall i :: 0 <= i < |items| ==> Tight(items[i])
    case Or(items) => NoneSame(false, items) && forall i :: 0 <= i < |items| ==> Tight(items[i])
    case _ => true
  }

  ghost predicate AllTight(items: seq<Expr>) {
    forall i :: 0 <= i < |items| ==> Tight(items[i])
  }

  lemma SpanTimes(m: nat, span: nat, n: nat)
    requires span < n <= m * span
    ensures 0 < m && n - span <= (m - 1) * span
  {
    assert (m - 1) * span == m * span - span;
  }

  /** A chain of no more than so many groups is read as no more members. */
  lemma {:induction false} PartsBound(items: seq<Expr>, level: nat, and: bool, m: nat)
    requires NoneSame(and, items) && |items| <= m * Span(level)
    ensures Parts(items, level, and) <= m
    decreases |items|
  {
    hide Span, ChainOf;
    if items != [] {
      var k := Span(level);
      if |items| <= k {
        assert 0 < m;
        GroupOne(items, level, and);
      } else {
        SpanTimes(m, k, |items|);
        GroupOne(items[..k], level, and);
        PartsBound(items[k..], level, and, m - 1);
      }
    }
  }

  lemma GroupOne(items: seq<Expr>, level: nat, and: bool)
    requires 0 < |items| <= Span(level) && NoneSame(and, items)
    ensures GroupParts(items, level, and) == 1
  {
    hide Parts, Span;
    assert !ChainOf(and, items[0]);
  }

  lemma LevelHolds(n: nat)
    ensures n <= IMPORT_GROUP * Span(Level(n))
  {
    LevelFromIs(n, 0);
  }

  /** A tight expression is written narrow. */
  lemma {:induction false} TightNarrow(e: Expr)
    requires Tight(e)
    ensures Narrow(e)
    decreases e, 0
  {
    hide Parts, NarrowAll, Level, Span;
    match e
    case And(items) =>
      LevelHolds(|items|);
      PartsBound(items, Level(|items|), true, IMPORT_GROUP);
      TightAll(items, Level(|items|), true);
    case Or(items) =>
      LevelHolds(|items|);
      PartsBound(items, Level(|items|), false, IMPORT_GROUP);
      TightAll(items, Level(|items|), false);
    case _ =>
  }

  lemma {:induction false} TightAll(items: seq<Expr>, level: nat, and: bool)
    requires NoneSame(and, items) && AllTight(items)
    ensures NarrowAll(items, level, and)
    decreases items, level, 1
  {
    hide Tight, ChainOf, Span, GroupNarrow;
    if items != [] {
      var k := Span(level);
      if |items| <= k {
        TightGroup(items, level, and);
      } else {
        TightGroup(items[..k], level, and);
        TightAll(items[k..], level, and);
      }
    }
  }

  lemma {:induction false} TightGroup(items: seq<Expr>, level: nat, and: bool)
    requires 0 < |items| <= Span(level) && NoneSame(and, items) && AllTight(items)
    ensures GroupNarrow(items, level, and)
    decreases items, level, 0
  {
    hide Tight, Parts, NarrowAll, Narrow;
    if 0 < level {
      PartsBound(items, level - 1, and, IMPORT_GROUP);
      TightAll(items, level - 1, and);
    } else {
      assert !ChainOf(and, items[0]) && Tight(items[0]);
      TightNarrow(items[0]);
    }
  }

  /** A disjunction of a full group and one more part: the inner one stands unbracketed, and the chain
      written is longer than a group. */
  lemma NestedWide(xs: seq<Expr>, y: Expr)
    requires |xs| == 32 && NoneSame(false, xs) && !y.Or?
    ensures !Narrow(Or([Or(xs), y]))
  {
    hide Parts;
    var items := [Or(xs), y];
    LevelNone(|xs|);
    LevelNone(2);
    PartsFlat(xs, false);
    PartsTwo(Or(xs), y);
  }

  lemma LevelNone(n: nat)
    requires n <= IMPORT_GROUP
    ensures Level(n) == 0
  {
  }

  lemma PartsTwo(a: Expr, b: Expr)
    ensures Parts([a, b], 0, false) == MemberParts(a, false) + MemberParts(b, false)
  {
    hide MemberParts;
    var items := [a, b];
    assert Span(0) == 1 && items[..1] == [a] && items[1..] == [b];
    assert Parts([b], 0, false) == GroupParts([b], 0, false) == MemberParts(b, false);
  }

  lemma {:induction false} PartsFlat(items: seq<Expr>, and: bool)
    requires NoneSame(and, items)
    ensures Parts(items, 0, and) == |items|
  {
    hide ChainOf;
    if items != [] {
      GroupOne(items[..1], 0, and);
      if |items| == 1 { assert items[..1] == items; } else { PartsFlat(items[1..], and); }
    }
  }

  // ----- what builds them

  /** The parts of a meet, those of a meet among them taken out of it, and `any` left out (iand). */
  function MeetParts(items: seq<Expr>): seq<Expr> {
    if items == [] then []
    else
      var last := items[|items| - 1];
      MeetParts(items[..|items| - 1]) + if last.And? then last.items else if last == Raw("any") then [] else [last]
  }

  /** iand. */
  function Both(items: seq<Expr>): Expr {
    var flat := MeetParts(items);
    if Raw("nil") in flat then Raw("nil")
    else
      var uniq := AnyOf.DistinctOf(flat);
      if |uniq| == 0 then Raw("any") else if |uniq| == 1 then uniq[0] else And(uniq)
  }

  method MeetLoop(items: seq<Expr>) returns (out: Expr)
    ensures out == Both(items)
  {
    var flat: seq<Expr> := [];
    for i := 0 to |items|
      invariant flat == MeetParts(items[..i])
    {
      assert items[..i + 1][..i] == items[..i] && items[..i + 1][i] == items[i];
      if items[i].And? {
        flat := flat + items[i].items;
      } else if items[i] != Raw("any") {
        flat := flat + [items[i]];
      }
    }
    assert items[..|items|] == items;
    for i := 0 to |flat|
      invariant forall k :: 0 <= k < i ==> flat[k] != Raw("nil")
    {
      if flat[i] == Raw("nil") { return flat[i]; }
    }
    var uniq: seq<Expr> := [];
    for i := 0 to |flat|
      invariant uniq == AnyOf.DistinctOf(flat[..i])
    {
      assert flat[..i + 1][..i] == flat[..i] && flat[..i + 1][i] == flat[i];
      if flat[i] !in uniq { uniq := uniq + [flat[i]]; }
    }
    assert flat[..|flat|] == flat;
    out := if |uniq| == 0 then Raw("any") else if |uniq| == 1 then uniq[0] else And(uniq);
  }

  /** What an expression says where its parts say this: `any` always holds, `nil` never. */
  ghost predicate Holds(says: Expr -> bool, e: Expr) {
    match e
    case And(items) => forall i :: 0 <= i < |items| ==> Holds(says, items[i])
    case Or(items) => exists i :: 0 <= i < |items| && Holds(says, items[i])
    case Raw(text) => text == "any" || (text != "nil" && says(e))
    case _ => says(e)
  }

  ghost predicate AllHold(says: Expr -> bool, items: seq<Expr>) {
    forall e :: e in items ==> Holds(says, e)
  }

  lemma {:induction false} PartsHold(says: Expr -> bool, items: seq<Expr>)
    ensures AllHold(says, MeetParts(items)) <==> AllHold(says, items)
  {
    if items != [] {
      var last := items[|items| - 1];
      PartsHold(says, items[..|items| - 1]);
      assert items == items[..|items| - 1] + [last];
      assert last.And? ==> (Holds(says, last) <==> AllHold(says, last.items));
    }
  }

  /** iand is the meet: it holds where every part does. */
  lemma MeetHolds(says: Expr -> bool, items: seq<Expr>)
    ensures Holds(says, Both(items)) <==> AllHold(says, items)
  {
    hide MeetParts;
    PartsHold(says, items);
    var flat := MeetParts(items);
    var uniq := AnyOf.DistinctOf(flat);
    if Raw("nil") !in flat {
      assert AllHold(says, uniq) <==> AllHold(says, flat);
      if |uniq| == 1 { assert uniq == [uniq[0]] && uniq[0] in uniq; }
    } else {
      assert !Holds(says, Raw("nil"));
    }
  }

  /** ior is the disjunction: it holds where some part does. */
  lemma EitherHolds(says: Expr -> bool, items: seq<Expr>)
    ensures Holds(says, AnyOf.Either(items)) <==> exists e :: e in items && Holds(says, e)
  {
    var uniq := AnyOf.DistinctOf(items);
    SomeHold(says, uniq);
    assert (exists e :: e in uniq && Holds(says, e)) <==> exists e :: e in items && Holds(says, e);
    if |uniq| == 1 {
      assert AnyOf.Either(items) == uniq[0];
      assert forall e :: e in uniq ==> e == uniq[0];
      assert uniq[0] in uniq;
      assert Holds(says, uniq[0]) <==> exists e :: e in uniq && Holds(says, e);
    } else {
      assert AnyOf.Either(items) == Or(uniq);
    }
  }

  lemma SomeHold(says: Expr -> bool, items: seq<Expr>)
    ensures Holds(says, Or(items)) <==> exists e :: e in items && Holds(says, e)
  {
    if Holds(says, Or(items)) {
      var i :| 0 <= i < |items| && Holds(says, items[i]);
      assert items[i] in items;
    }
  }

  lemma {:induction false} PartsTight(items: seq<Expr>)
    requires AllTight(items)
    ensures AllTight(MeetParts(items)) && NoneSame(true, MeetParts(items))
  {
    if items != [] { PartsTight(items[..|items| - 1]); }
  }

  /** What iand builds of tight parts is tight. */
  lemma MeetTight(items: seq<Expr>)
    requires AllTight(items)
    ensures Tight(Both(items))
  {
    hide MeetParts;
    PartsTight(items);
    var flat := MeetParts(items);
    var uniq := AnyOf.DistinctOf(flat);
    forall i | 0 <= i < |uniq| ensures Tight(uniq[i]) && !uniq[i].And? { assert uniq[i] in flat; }
  }

  /** What ior builds of tight parts is tight exactly where it is one part, or none is a disjunction. */
  lemma EitherTight(items: seq<Expr>)
    requires AllTight(items)
    ensures Tight(AnyOf.Either(items)) <==> |AnyOf.DistinctOf(items)| == 1 || NoneSame(false, items)
  {
    var uniq := AnyOf.DistinctOf(items);
    forall i | 0 <= i < |uniq| ensures Tight(uniq[i]) { assert uniq[i] in items; }
    if NoneSame(false, items) {
      forall i | 0 <= i < |uniq| ensures !uniq[i].Or? { assert uniq[i] in items; }
    } else {
      var i :| 0 <= i < |items| && ChainOf(false, items[i]);
      assert items[i] in uniq;
    }
  }

  // ----- the round trip keeps what is said

  lemma PackHolds(says: Expr -> bool, and: bool, items: seq<Expr>)
    ensures Holds(says, Pack(and, items)) <==> if and then AllHold(says, items) else Holds(says, Or(items))
  {
    if |items| == 1 { assert items == [items[0]]; }
  }

  lemma FlatHolds(says: Expr -> bool, and: bool, m: Expr)
    ensures Holds(says, m) <==> if and then AllHold(says, Flat(and, m)) else Holds(says, Or(Flat(and, m)))
  {
    if !ChainOf(and, m) { assert Flat(and, m)[0] == m; }
  }

  lemma AppendHolds(says: Expr -> bool, a: seq<Expr>, b: seq<Expr>)
    ensures AllHold(says, a + b) <==> AllHold(says, a) && AllHold(says, b)
    ensures Holds(says, Or(a + b)) <==> Holds(says, Or(a)) || Holds(says, Or(b))
  {
    SomeHold(says, a);
    SomeHold(says, b);
    SomeHold(says, a + b);
    forall e ensures e in a + b <==> e in a || e in b {}
  }

  lemma {:induction false} FlatsHold(says: Expr -> bool, and: bool, items: seq<Expr>)
    ensures if and then AllHold(says, Flats(and, items)) <==> AllHold(says, items)
            else Holds(says, Or(Flats(and, items))) <==> Holds(says, Or(items))
    decreases items, 1
  {
    hide Flat, Norm, Holds;
    if items != [] {
      assert items == [items[0]] + items[1..];
      NormHolds(says, items[0]);
      FlatHolds(says, and, Norm(items[0]));
      FlatsHold(says, and, items[1..]);
      AppendHolds(says, Flat(and, Norm(items[0])), Flats(and, items[1..]));
      AppendHolds(says, [items[0]], items[1..]);
      OneHolds(says, items[0]);
    }
  }

  lemma OneHolds(says: Expr -> bool, e: Expr)
    ensures AllHold(says, [e]) <==> Holds(says, e)
    ensures Holds(says, Or([e])) <==> Holds(says, e)
  {
    SomeHold(says, [e]);
  }

  /** Ungrouped, a meet or disjunction says what it said. */
  lemma {:induction false} NormHolds(says: Expr -> bool, e: Expr)
    ensures Holds(says, Norm(e)) <==> Holds(says, e)
    decreases e, 0
  {
    hide Flats, Pack, Flat;
    match e
    case And(items) => FlatsHold(says, true, items); PackHolds(says, true, Flats(true, items));
    case Or(items) => FlatsHold(says, false, items); PackHolds(says, false, Flats(false, items));
    case _ =>
  }

  /** What is written is read as an expression that says the same, whatever its parts say. */
  lemma WrittenSays(e: Expr)
    requires Solid(e)
    ensures exists x :: ReadOr(Written(e)) == Read(x, []) && forall says :: Holds(says, x) <==> Holds(says, e)
  {
    hide Written, ReadOr, Norm, Holds, Slim, Narrow;
    WrittenReads(e);
    var x :| ReadOr(Written(e)) == Read(x, []) && Norm(x) == Norm(e) && (Slim(x) <==> Narrow(e));
    forall says ensures Holds(says, x) <==> Holds(says, e) {
      NormHolds(says, x);
      NormHolds(says, e);
    }
  }
}
