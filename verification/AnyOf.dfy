/**
 anyOf and oneOf as `|` or as a count (go/jsonschema_import.go:445-451, 2023-2112): either
 way an instance is admitted exactly where sections 10.2.1.2 and 10.2.1.3 of JSON Schema Core
 2020-12 say it is valid.
 */
module AnyOf {
  import opened Options
  import opened ExactNumbers
  import opened Sorting
  import opened Branches

  function DistinctOf(items: seq<Expr>): (out: seq<Expr>)
    ensures forall e :: e in out <==> e in items
  {
    if items == [] then []
    else
      var front := DistinctOf(items[..|items| - 1]);
      assert items == items[..|items| - 1] + [items[|items| - 1]];
      if items[|items| - 1] in front then front else front + [items[|items| - 1]]
  }

  /** ior. */
  function Either(items: seq<Expr>): Expr {
    var uniq := DistinctOf(items);
    if |uniq| == 1 then uniq[0] else Or(uniq)
  }

  /** A branch is ranked by the first kind it may be, null before the rest. */
  function KindRank(kinds: set<Kind>): nat {
    if NullKind in kinds then 0 else if BooleanKind in kinds then 1 else if NumberKind in kinds then 2
    else if StringKind in kinds then 3 else if ObjectKind in kinds then 4 else if ArrayKind in kinds then 5 else 6
  }

  function ByKind(): (Expr, Expr) -> bool {
    (a, b) => KindRank(KindsOf(a)) < KindRank(KindsOf(b))
  }

  function Live(branches: seq<Expr>): (live: seq<Expr>)
    ensures forall e :: e in live <==> e in branches && e != Raw("nil")
  {
    if branches == [] then []
    else
      assert branches == branches[..|branches| - 1] + [branches[|branches| - 1]];
      Live(branches[..|branches| - 1]) + if branches[|branches| - 1] == Raw("nil") then [] else [branches[|branches| - 1]]
  }

  predicate AllLiteral(live: seq<Expr>) {
    forall b :: b in live ==> LiteralTexts(b).Some?
  }

  predicate Disjoint(live: seq<Expr>) {
    (forall b :: b in live ==> !Blocker(b)) && forall i, j :: 0 <= i < j < |live| ==> Apart(live[i], live[j])
  }

  /** The branches with those that are disjunctions spread out. */
  function Flat(live: seq<Expr>): seq<Expr> {
    if live == [] then []
    else Flat(live[..|live| - 1]) + if live[|live| - 1].Or? then live[|live| - 1].items else [live[|live| - 1]]
  }

  function Counted(count: Expr, branches: seq<Expr>): Expr {
    Call("nof", [count] + branches)
  }

  /** importAnyOf. */
  function AnyOf(branches: seq<Expr>): Expr {
    var live := Live(branches);
    if live == [] then Raw("nil")
    else if AllLiteral(live) then Either(live)
    else if Disjoint(live) then Either(Sort(Flat(live), ByKind()))
    else Counted(Call("min", [Raw("1")]), branches)
  }

  method ImportAnyOf(branches: seq<Expr>) returns (out: Expr)
    ensures out == AnyOf(branches)
  {
    hide *;
    var live: seq<Expr> := [];
    AnyOfIs(branches);
    for i := 0 to |branches|
      invariant live == Live(branches[..i])
    {
      assert branches[..i + 1][..i] == branches[..i] && branches[..i + 1][i] == branches[i];
      LiveStep(branches[..i + 1]);
      if branches[i] != Raw("nil") { live := live + [branches[i]]; }
    }
    assert branches[..|branches|] == branches;
    var literal, disjoint := true, true;
    for i := 0 to |live|
      invariant literal <==> forall k :: 0 <= k < i ==> LiteralTexts(live[k]).Some?
      invariant disjoint <==> forall k :: 0 <= k < i ==> Loose(live, k, |live|)
    {
      literal := literal && LiteralTexts(live[i]).Some?;
      ghost var was := disjoint;
      disjoint := disjoint && !Blocker(live[i]);
      LooseStart(live, i);
      for j := i + 1 to |live|
        invariant disjoint <==> was && Loose(live, i, j)
      {
        LooseStep(live, i, j);
        disjoint := disjoint && Apart(live[i], live[j]);
      }
    }
    LiteralIs(live);
    DisjointIs(live);
    if |live| == 0 { return Raw("nil"); }
    if literal { return Either(live); }
    if disjoint {
      var flat: seq<Expr> := [];
      FlatNone();
      for i := 0 to |live|
        invariant flat == Flat(live[..i])
      {
        assert live[..i + 1][..i] == live[..i] && live[..i + 1][i] == live[i];
        FlatStep(live[..i + 1]);
        if live[i].Or? { flat := flat + live[i].items; } else { flat := flat + [live[i]]; }
      }
      assert live[..|live|] == live;
      return Either(Sort(flat, ByKind()));
    }
    return Counted(Call("min", [Raw("1")]), branches);
  }

  /** live[k] is no blocker, and apart from those behind it up to but not n. */
  predicate Loose(live: seq<Expr>, k: nat, n: nat)
    requires k < |live| && n <= |live|
  {
    !Blocker(live[k]) && forall j :: k < j < n ==> Apart(live[k], live[j])
  }

  lemma LooseStart(live: seq<Expr>, k: nat)
    requires k < |live|
    ensures Loose(live, k, k + 1) <==> !Blocker(live[k])
  {
    hide Blocker, Apart;
  }

  lemma LooseStep(live: seq<Expr>, k: nat, j: nat)
    requires k < j < |live|
    ensures Loose(live, k, j + 1) <==> Loose(live, k, j) && Apart(live[k], live[j])
  {
    hide Blocker, Apart;
  }

  lemma AnyOfIs(branches: seq<Expr>)
    ensures AnyOf(branches) ==
      if Live(branches) == [] then Raw("nil") else if AllLiteral(Live(branches)) then Either(Live(branches))
      else if Disjoint(Live(branches)) then Either(Sort(Flat(Live(branches)), ByKind()))
      else Counted(Call("min", [Raw("1")]), branches)
    ensures Live(branches[..0]) == []
  {
  }

  lemma LiveStep(branches: seq<Expr>)
    requires branches != []
    ensures Live(branches) == Live(branches[..|branches| - 1])
              + if branches[|branches| - 1] == Raw("nil") then [] else [branches[|branches| - 1]]
  {
  }

  lemma FlatNone()
    ensures forall live: seq<Expr> :: Flat(live[..0]) == []
  {
  }

  lemma FlatStep(live: seq<Expr>)
    requires live != []
    ensures Flat(live) == Flat(live[..|live| - 1]) + if live[|live| - 1].Or? then live[|live| - 1].items else [live[|live| - 1]]
  {
  }

  lemma LiteralIs(live: seq<Expr>)
    ensures AllLiteral(live) <==> forall k :: 0 <= k < |live| ==> LiteralTexts(live[k]).Some?
  {
    hide LiteralTexts;
  }

  lemma DisjointIs(live: seq<Expr>)
    ensures Disjoint(live) <==> forall k :: 0 <= k < |live| ==> Loose(live, k, |live|)
  {
    hide Blocker, Apart;
    if forall k :: 0 <= k < |live| ==> Loose(live, k, |live|) {
      forall i, j | 0 <= i < j < |live| ensures Apart(live[i], live[j]) { assert Loose(live, i, |live|); }
      forall b | b in live ensures !Blocker(b) {
        var i :| 0 <= i < |live| && live[i] == b;
        assert Loose(live, i, |live|);
      }
    }
  }

  // ----- disjunctions

  lemma {:induction false} UnionsHas(w: World, items: seq<Expr>, v: Json, o: Outcome)
    ensures o in Unions(w, items, v) <==> exists e :: e in items && o in InOr(w, e, v)
  {
    hide InOr;
    if items != [] {
      UnionsHas(w, items[1..], v, o);
      HeadOrTail(items);
      if o in Unions(w, items, v) && o !in InOr(w, items[0], v) {
        var e :| e in items[1..] && o in InOr(w, e, v);
        assert e in items;
      }
      if e :| e in items && o in InOr(w, e, v) {
        assert e == items[0] || e in items[1..];
      }
    }
  }

  lemma HeadOrTail<T>(items: seq<T>)
    requires items != []
    ensures forall e :: e in items <==> e == items[0] || e in items[1..]
  {
    assert items == [items[0]] + items[1..];
  }

  /** Same members, same disjunction. */
  lemma UnionsSame(w: World, a: seq<Expr>, b: seq<Expr>, v: Json)
    requires forall e :: e in a <==> e in b
    ensures Unions(w, a, v) == Unions(w, b, v)
  {
    hide Unions, InOr;
    forall o ensures o in Unions(w, a, v) <==> o in Unions(w, b, v) {
      UnionsHas(w, a, v, o);
      UnionsHas(w, b, v, o);
    }
  }

  lemma Unblocked(w: World, e: Expr, v: Json)
    requires !Blocker(e)
    ensures InOr(w, e, v) == Meets(w, e, v)
  {
  }

  lemma UnionsOne(w: World, e: Expr, v: Json)
    ensures Unions(w, [e], v) == InOr(w, e, v)
  {
    hide InOr;
    assert [e][1..] == [];
  }

  lemma OrMeets(w: World, items: seq<Expr>, v: Json)
    ensures Meets(w, Or(items), v) == Unions(w, items, v)
  {
  }

  /** ior of members no disjunction settles differently. */
  lemma EitherMeets(w: World, items: seq<Expr>, v: Json)
    requires forall e :: e in items ==> !Blocker(e)
    ensures Meets(w, Either(items), v) == Unions(w, items, v)
  {
    hide Unions, InOr, Meets, Blocker;
    var uniq := DistinctOf(items);
    UnionsSame(w, uniq, items, v);
    OrMeets(w, uniq, v);
    if |uniq| == 1 {
      assert uniq == [uniq[0]] && uniq[0] in uniq;
      UnionsOne(w, uniq[0], v);
      Unblocked(w, uniq[0], v);
    }
  }

  lemma NilMeets(w: World, v: Json)
    ensures Meets(w, Raw("nil"), v) == {}
  {
  }

  // ----- anyOf: valid against at least one

  /** Some branch admits the instance. */
  ghost predicate SomeAdmits(w: World, branches: seq<Expr>, v: Json) {
    exists b :: b in branches && Admits(w, b, v)
  }

  lemma LiveSome(w: World, branches: seq<Expr>, v: Json)
    ensures SomeAdmits(w, branches, v) <==> SomeAdmits(w, Live(branches), v)
  {
    hide Meets, Live;
    NilMeets(w, v);
  }

  lemma LiteralAdmits(w: World, live: seq<Expr>, v: Json)
    requires AllLiteral(live)
    ensures Admits(w, Either(live), v) <==> SomeAdmits(w, live, v)
  {
    hide Meets, Unions, InOr, Blocker, LiteralTexts, OneOfTexts, Either;
    forall b | b in live ensures !Blocker(b) && Meets(w, b, v) <= {Same} && InOr(w, b, v) == Meets(w, b, v) {
      LiteralsMeet(w, b, v);
      Unblocked(w, b, v);
    }
    EitherMeets(w, live, v);
    forall o ensures o in Unions(w, live, v) <==> exists b :: b in live && o in InOr(w, b, v) { UnionsHas(w, live, v, o); }
    if SomeAdmits(w, live, v) {
      var b :| b in live && Admits(w, b, v);
      assert Same in InOr(w, b, v);
    }
    if Same in Unions(w, live, v) {
      var b :| b in live && Same in InOr(w, b, v);
      assert Meets(w, b, v) == {Same};
    }
  }

  lemma {:induction false} FlatHas(live: seq<Expr>, e: Expr)
    ensures e in Flat(live) <==> exists b :: b in live && (if b.Or? then e in b.items else e == b)
  {
    if live != [] {
      FlatHas(live[..|live| - 1], e);
      assert live == live[..|live| - 1] + [live[|live| - 1]];
      assert forall b :: b in live <==> b in live[..|live| - 1] || b == live[|live| - 1];
    }
  }

  lemma PartUnblocked(b: Expr, e: Expr)
    requires b.Or? && e in b.items && !Blocker(b)
    ensures !Blocker(e)
  {
  }

  /** Spreading a branch that is a disjunction changes nothing. */
  lemma FlatOutcome(w: World, live: seq<Expr>, v: Json, o: Outcome)
    requires forall b :: b in live ==> !Blocker(b)
    ensures (exists e :: e in Flat(live) && o in InOr(w, e, v)) <==> exists b :: b in live && o in Meets(w, b, v)
    ensures forall e :: e in Flat(live) ==> !Blocker(e)
  {
    hide Unions, InOr, Meets, Blocker, Flat;
    forall e | e in Flat(live) ensures !Blocker(e) && (o in InOr(w, e, v) ==> exists b :: b in live && o in Meets(w, b, v)) {
      FlatHas(live, e);
      var b :| b in live && (if b.Or? then e in b.items else e == b);
      if b.Or? {
        PartUnblocked(b, e);
        OrMeets(w, b.items, v);
        UnionsHas(w, b.items, v, o);
        assert b == Or(b.items);
      }
      Unblocked(w, e, v);
    }
    if b :| b in live && o in Meets(w, b, v) {
      if b.Or? {
        OrMeets(w, b.items, v);
        UnionsHas(w, b.items, v, o);
        assert b == Or(b.items);
        var e :| e in b.items && o in InOr(w, e, v);
        FlatHas(live, e);
      } else {
        FlatHas(live, b);
        Unblocked(w, b, v);
      }
    }
  }

  lemma DisjointAdmits(w: World, live: seq<Expr>, v: Json)
    requires Disjoint(live)
    ensures Admits(w, Either(Sort(Flat(live), ByKind())), v) <==> SomeAdmits(w, live, v)
  {
    hide Unions, InOr, Meets, Blocker, Flat, Sort, Either, Apart;
    var flat, sorted := Flat(live), Sort(Flat(live), ByKind());
    FlatOutcome(w, live, v, Same);
    EitherMeets(w, sorted, v);
    UnionsSame(w, sorted, flat, v);
    forall o ensures o in Unions(w, flat, v) <==> exists b :: b in live && o in Meets(w, b, v) {
      UnionsHas(w, flat, v, o);
      FlatOutcome(w, live, v, o);
    }
    AtMostOne(w, live, v);
    if SomeAdmits(w, live, v) {
      var b :| b in live && Admits(w, b, v);
      forall o | o in Unions(w, flat, v) ensures o == Same {
        var c :| c in live && o in Meets(w, c, v);
        assert Meets(w, b, v) != {} && Meets(w, c, v) != {};
      }
      assert Same in Meets(w, b, v);
      assert Unions(w, flat, v) == {Same};
    }
    if Unions(w, flat, v) == {Same} {
      var b :| b in live && Same in Meets(w, b, v);
      forall o | o in Meets(w, b, v) ensures o == Same { assert o in Unions(w, flat, v); }
      assert Meets(w, b, v) == {Same};
    }
  }

  /** Of disjoint branches at most one survives the meet with an instance. */
  lemma AtMostOne(w: World, live: seq<Expr>, v: Json)
    requires Disjoint(live)
    ensures forall b, c :: b in live && c in live && Meets(w, b, v) != {} && Meets(w, c, v) != {} ==> b == c
  {
    hide Meets, Apart, Blocker;
    forall b, c | b in live && c in live && Meets(w, b, v) != {} && Meets(w, c, v) != {} ensures b == c {
      var i :| 0 <= i < |live| && live[i] == b;
      var j :| 0 <= j < |live| && live[j] == c;
      if i < j { ApartMeet(w, b, c, v); }
      if j < i { ApartMeet(w, c, b, v); }
    }
  }

  lemma {:induction false} AdmittingSome(w: World, branches: seq<Expr>, v: Json)
    ensures 1 <= Admitting(w, branches, v) <==> SomeAdmits(w, branches, v)
  {
    hide Meets;
    if branches != [] {
      AdmittingSome(w, branches[1..], v);
      HeadOrTail(branches);
      if SomeAdmits(w, branches, v) && !Admits(w, branches[0], v) {
        var b :| b in branches && Admits(w, b, v);
        assert b in branches[1..];
      }
      if SomeAdmits(w, branches[1..], v) {
        var b :| b in branches[1..] && Admits(w, b, v);
        assert b in branches;
      } else if Admits(w, branches[0], v) {
        assert branches[0] in branches;
      }
    }
  }

  lemma CountedMeets(w: World, count: Expr, branches: seq<Expr>, v: Json)
    ensures Admits(w, Counted(count, branches), v) <==> CountTakes(w, count, Admitting(w, branches, v))
  {
    hide Admitting;
    assert ([count] + branches)[1..] == branches;
  }

  /** anyOf admits exactly the instances some branch admits. */
  lemma AnyOfAdmits(w: World, branches: seq<Expr>, v: Json)
    ensures Admits(w, AnyOf(branches), v) <==> SomeAdmits(w, branches, v)
  {
    hide Admits, Admitting, AllLiteral, Disjoint, Sort, Flat, Either, Counted, Live;
    var live := Live(branches);
    LiveSome(w, branches, v);
    if live == [] {
      NilAdmits(w, v);
    } else if AllLiteral(live) {
      LiteralAdmits(w, live, v);
    } else if Disjoint(live) {
      DisjointAdmits(w, live, v);
    } else {
      CountedMeets(w, Call("min", [Raw("1")]), branches, v);
      AdmittingSome(w, branches, v);
    }
  }

  lemma NilAdmits(w: World, v: Json)
    ensures !Admits(w, Raw("nil"), v)
  {
  }

  /** It writes `|` over branches that are not all literals only where no instance survives the
      meet with two of them. */
  lemma AnyOfWrites(w: World, branches: seq<Expr>, v: Json)
    requires !AllLiteral(Live(branches)) && AnyOf(branches) != Counted(Call("min", [Raw("1")]), branches)
    ensures var live := Live(branches); forall i, j :: 0 <= i < j < |live| ==> Meets(w, live[i], v) == {} || Meets(w, live[j], v) == {}
  {
    hide Meets, Apart, Blocker, LiteralTexts, Live, Sort, Flat, Either, Counted;
    var live := Live(branches);
    forall i, j | 0 <= i < j < |live| ensures Meets(w, live[i], v) == {} || Meets(w, live[j], v) == {} {
      ApartMeet(w, live[i], live[j], v);
    }
  }

  // ----- oneOf: valid against exactly one

  predicate Unrepeated(texts: seq<string>) {
    forall i, j :: 0 <= i < j < |texts| ==> texts[i] != texts[j]
  }

  /** importOneOf. */
  function OneOf(branches: seq<Expr>): Expr {
    if |branches| == 1 then AnyOf(branches)
    else if TextsOfAll(branches).Some? && Unrepeated(TextsOfAll(branches).value) then Either(branches)
    else Counted(Raw("1"), branches)
  }

  /** The texts of the literal branches, those of the others none: what the loop has seen. */
  function SeenTexts(branches: seq<Expr>): seq<string> {
    if branches == [] then []
    else
      var texts := LiteralTexts(branches[|branches| - 1]);
      SeenTexts(branches[..|branches| - 1]) + if texts.Some? then texts.value else []
  }

  method ImportOneOf(branches: seq<Expr>) returns (out: Expr)
    ensures out == OneOf(branches)
  {
    hide *;
    OneOfIs(branches);
    if |branches| == 1 {
      out := ImportAnyOf(branches);
      return;
    }
    var seen: set<string> := {};
    var distinct := true;
    SeenNone();
    for i := 0 to |branches|
      invariant forall t :: t in seen <==> t in SeenTexts(branches[..i])
      invariant distinct <==> TextsOfAll(branches[..i]).Some? && Unrepeated(SeenTexts(branches[..i]))
    {
      assert branches[..i + 1][..i] == branches[..i] && branches[..i + 1][i] == branches[i];
      SeenStep(branches[..i + 1]);
      var said := LiteralTexts(branches[i]);
      var texts := if said.Some? then said.value else [];
      distinct := distinct && said.Some?;
      ghost var before, was := SeenTexts(branches[..i]), distinct;
      var n := 0;
      assert texts[..0] == [] && before + [] == before;
      while n < |texts|
        invariant n <= |texts|
        invariant forall t :: t in seen <==> t in before + texts[..n]
        invariant distinct <==> was && Unrepeated(before + texts[..n])
      {
        UnrepeatedPush(before, texts, n);
        distinct := distinct && texts[n] !in seen;
        seen := seen + {texts[n]};
        n := n + 1;
      }
      assert texts[..|texts|] == texts;
      if Unrepeated(before + texts) { UnrepeatedParts(before, texts); }
    }
    assert branches[..|branches|] == branches;
    SeenAll(branches);
    if distinct { return Either(branches); }
    return Counted(Raw("1"), branches);
  }

  lemma OneOfIs(branches: seq<Expr>)
    ensures OneOf(branches) ==
      if |branches| == 1 then AnyOf(branches)
      else if TextsOfAll(branches).Some? && Unrepeated(TextsOfAll(branches).value) then Either(branches)
      else Counted(Raw("1"), branches)
  {
  }

  lemma SeenNone()
    ensures forall b: seq<Expr> :: SeenTexts(b[..0]) == [] && TextsOfAll(b[..0]) == Some([]) && Unrepeated([])
  {
    forall b: seq<Expr> ensures SeenTexts(b[..0]) == [] && TextsOfAll(b[..0]) == Some([]) { assert b[..0] == []; }
  }

  lemma SeenStep(branches: seq<Expr>)
    requires branches != []
    ensures var front, texts := branches[..|branches| - 1], LiteralTexts(branches[|branches| - 1]);
            && SeenTexts(branches) == SeenTexts(front) + (if texts.Some? then texts.value else [])
            && (TextsOfAll(branches).Some? <==> TextsOfAll(front).Some? && texts.Some?)
            && (TextsOfAll(branches).Some? && texts.Some? && TextsOfAll(front).Some? ==>
                  TextsOfAll(branches).value == TextsOfAll(front).value + texts.value)
    decreases |branches|
  {
    hide LiteralTexts;
    var n := |branches| - 1;
    if n == 0 {
      assert branches[1..] == [] && branches[..n] == [];
    } else {
      var tail := branches[1..];
      SeenStep(tail);
      assert tail[..|tail| - 1] == branches[..n][1..] && branches[..n][0] == branches[0];
    }
  }

  lemma {:induction false} SeenAll(branches: seq<Expr>)
    ensures TextsOfAll(branches).Some? ==> SeenTexts(branches) == TextsOfAll(branches).value
  {
    hide LiteralTexts;
    if branches != [] {
      SeenStep(branches);
      SeenAll(branches[..|branches| - 1]);
    }
  }

  lemma UnrepeatedPush(before: seq<string>, texts: seq<string>, n: nat)
    requires n < |texts|
    ensures before + texts[..n + 1] == before + texts[..n] + [texts[n]]
    ensures Unrepeated(before + texts[..n + 1]) <==> Unrepeated(before + texts[..n]) && texts[n] !in before + texts[..n]
  {
    var now, next := before + texts[..n], before + texts[..n + 1];
    assert next == now + [texts[n]];
    assert forall i :: 0 <= i < |now| ==> next[i] == now[i];
    assert next[|now|] == texts[n];
    assert texts[n] in now ==> exists i :: 0 <= i < |now| && now[i] == texts[n] && next[i] == next[|now|];
  }

  lemma UnrepeatedParts(a: seq<string>, b: seq<string>)
    requires Unrepeated(a + b)
    ensures Unrepeated(a) && Unrepeated(b) && forall t :: t in a ==> t !in b
  {
    assert forall i :: 0 <= i < |a| ==> (a + b)[i] == a[i];
    assert forall i :: 0 <= i < |b| ==> (a + b)[|a| + i] == b[i];
  }

  /** Of branches whose literals are all different, an instance is at most one's. */
  lemma {:induction false} UnrepeatedAtMostOne(w: World, branches: seq<Expr>, v: Json)
    requires TextsOfAll(branches).Some? && Unrepeated(TextsOfAll(branches).value)
    ensures Admitting(w, branches, v) <= 1
    ensures Admitting(w, branches, v) == 1 ==> OneOfTexts(w, TextsOfAll(branches).value, v)
  {
    hide Meets, LiteralTexts, Writes;
    if branches != [] {
      var first, rest := LiteralTexts(branches[0]).value, TextsOfAll(branches[1..]).value;
      UnrepeatedParts(first, rest);
      UnrepeatedAtMostOne(w, branches[1..], v);
      LiteralsMeet(w, branches[0], v);
      OneOfAppend(w, first, rest, v);
      if OneOfTexts(w, first, v) && OneOfTexts(w, rest, v) {
        var t :| t in first && Writes(w, t, v);
        var u :| u in rest && Writes(w, u, v);
        OneText(w, t, u, v);
      }
    }
  }

  lemma {:induction false} TextsAllLiteral(branches: seq<Expr>)
    requires TextsOfAll(branches).Some?
    ensures AllLiteral(branches)
  {
    hide LiteralTexts;
    if branches != [] {
      TextsAllLiteral(branches[1..]);
      assert branches == [branches[0]] + branches[1..];
    }
  }

  /** oneOf admits exactly the instances one branch, and no more, admits. */
  lemma OneOfAdmits(w: World, branches: seq<Expr>, v: Json)
    ensures Admits(w, OneOf(branches), v) <==> Admitting(w, branches, v) == 1
  {
    hide Admits, Admitting, AllLiteral, Either, Counted, AnyOf, Unrepeated, TextsOfAll;
    AdmittingSome(w, branches, v);
    if |branches| == 1 {
      AnyOfAdmits(w, branches, v);
      OneAdmitting(w, branches, v);
    } else if TextsOfAll(branches).Some? && Unrepeated(TextsOfAll(branches).value) {
      TextsAllLiteral(branches);
      LiteralAdmits(w, branches, v);
      UnrepeatedAtMostOne(w, branches, v);
    } else {
      CountedMeets(w, Raw("1"), branches, v);
    }
  }

  lemma OneAdmitting(w: World, branches: seq<Expr>, v: Json)
    requires |branches| == 1
    ensures Admitting(w, branches, v) <= 1
  {
    hide Meets;
    assert branches[1..] == [];
  }
}
