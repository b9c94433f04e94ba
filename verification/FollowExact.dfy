/**
 FOLLOW holds nothing that cannot follow (flow, go/formatgrammar.go:681-728): in a grammar whose
 rules all derive something, whatever a rule derives some rule derives with the character behind it,
 a repeat of none being taken for an option, as the analysis takes it.
 */
module FollowExact {
  import opened Ranges
  import opened Grammar
  import opened Attributes
  import opened Flow
  import opened AbnfCounts

  // ----- a repeat of none as an option

  function Relax(n: Node): Node {
    match n
    case Alt(kids) => Alt(seq(|kids|, i requires 0 <= i < |kids| => Relax(kids[i])))
    case Cat(kids) => Cat(seq(|kids|, i requires 0 <= i < |kids| => Relax(kids[i])))
    case Rep(kid, min, max) => Rep(Relax(kid), min, if max == 0 then 1 else max)
    case _ => n
  }

  function Relaxed(rules: Rules): (rs: Rules)
    ensures rs.Keys == rules.Keys && forall name :: name in rules ==> rs[name] == Relax(rules[name])
  {
    map name | name in rules :: Relax(rules[name])
  }

  function RelaxAll(kids: seq<Node>): (ks: seq<Node>)
    ensures |ks| == |kids| && forall i :: 0 <= i < |kids| ==> ks[i] == Relax(kids[i])
  {
    seq(|kids|, i requires 0 <= i < |kids| => Relax(kids[i]))
  }

  /** What was derived is still. */
  lemma {:induction false} RelaxParses(rules: Rules, n: Node, t: Tree)
    requires Parses(rules, n, t)
    ensures Parses(Relaxed(rules), Relax(n), t)
    decreases t
  {
    match n
    case Alt(kids) => RelaxParses(rules, kids[t.pick], t.t);
    case Cat(kids) => forall i | 0 <= i < |kids| ensures Parses(Relaxed(rules), Relax(kids[i]), t.ts[i]) { RelaxParses(rules, kids[i], t.ts[i]); }
    case Rep(kid, _, _) => forall i | 0 <= i < |t.ts| ensures Parses(Relaxed(rules), Relax(kid), t.ts[i]) { RelaxParses(rules, kid, t.ts[i]); }
    case Ref(name) => RelaxParses(rules, rules[name], t.t);
    case _ =>
  }

  lemma RelaxDerives(rules: Rules, n: Node, w: Text)
    requires Derives(rules, n, w)
    ensures Derives(Relaxed(rules), Relax(n), w)
  {
    var t :| Parses(rules, n, t) && Yield(t) == w;
    RelaxParses(rules, n, t);
  }

  // ----- derived texts put together

  lemma CatNone(rules: Rules)
    ensures Derives(rules, Cat([]), [])
  {
    DerivesOf(rules, Cat([]), CatTree([]));
  }

  lemma CatCons(rules: Rules, kids: seq<Node>, a: Text, b: Text)
    requires kids != [] && Derives(rules, kids[0], a) && Derives(rules, Cat(kids[1..]), b)
    ensures Derives(rules, Cat(kids), a + b)
  {
    var x :| Parses(rules, kids[0], x) && Yield(x) == a;
    var y :| Parses(rules, Cat(kids[1..]), y) && Yield(y) == b;
    var t := CatTree([x] + y.ts);
    forall i | 0 <= i < |kids| ensures Parses(rules, kids[i], t.ts[i]) {
      if 0 < i { assert kids[i] == kids[1..][i - 1] && t.ts[i] == y.ts[i - 1]; }
    }
    assert t.ts[1..] == y.ts && t.ts[0] == x;
    YieldIs(t.ts);
    YieldIs(y.ts);
    assert Yield(y) == YieldAll(y.ts);
    DerivesOf(rules, Cat(kids), t);
  }

  lemma AltOf(rules: Rules, kids: seq<Node>, i: nat, w: Text)
    requires i < |kids| && Derives(rules, kids[i], w)
    ensures Derives(rules, Alt(kids), w)
  {
    var t :| Parses(rules, kids[i], t) && Yield(t) == w;
    DerivesOf(rules, Alt(kids), AltTree(i, t));
  }

  lemma {:induction false} StrungPlus(a: seq<Text>, b: seq<Text>)
    ensures Strung(a + b) == Strung(a) + Strung(b)
  {
    if a == [] {
      assert a + b == b;
    } else {
      assert (a + b)[0] == a[0] && (a + b)[1..] == a[1..] + b;
      StrungPlus(a[1..], b);
    }
  }

  lemma RepPad(rules: Rules, n: Node, min: nat, max: int, pad: Text, parts: seq<Text>) returns (front: Text)
    requires Derives(rules, n, pad) && AllDerived(rules, n, parts) && (max < 0 || (min <= max && |parts| <= max))
    ensures Derives(rules, Rep(n, min, max), front + Strung(parts))
  {
    var k: nat := if |parts| < min then min - |parts| else 0;
    var pads := seq(k, _ => pad);
    var all := pads + parts;
    forall i | 0 <= i < |all| ensures Derives(rules, n, all[i]) { if i < k { assert all[i] == pads[i]; } else { assert all[i] == parts[i - k]; } }
    front := Strung(pads);
    StrungPlus(pads, parts);
    RepDerives(rules, n, min, max, front + Strung(parts));
  }

  // ----- around a place

  /** The node derives the text with the character behind it. */
  ghost predicate Around(rules: Rules, n: Node, v: Text, c: int) {
    exists u, z :: Derives(rules, n, u + v + [c] + z)
  }

  /** The node derives the text at its end. */
  ghost predicate Last(rules: Rules, n: Node, v: Text) {
    exists u :: Derives(rules, n, u + v)
  }

  lemma AroundIs(rules: Rules, n: Node, v: Text, c: int, u: Text, z: Text)
    requires Derives(rules, n, u + v + [c] + z)
    ensures Around(rules, n, v, c)
  {
  }

  lemma LastIs(rules: Rules, n: Node, v: Text, u: Text)
    requires Derives(rules, n, u + v)
    ensures Last(rules, n, v)
  {
  }

  /** The rules as read, and attributes that claim nothing false of them. */
  ghost predicate Sane(rules: Rules, at: Attrs) {
    ReadRules(rules) && AllProductive(rules) && Sound(rules, at)
  }

  lemma SomeText(rules: Rules, n: Node) returns (w: Text)
    requires ReadNode(rules, n) && AllProductive(rules)
    ensures Derives(Relaxed(rules), Relax(n), w)
  {
    var t := NodeProductive(rules, n);
    w := Yield(t);
    RelaxDerives(rules, n, w);
  }

  lemma FirstText(rules: Rules, at: Attrs, n: Node, c: int) returns (z: Text)
    requires Sane(rules, at) && In(F(at, n), c)
    ensures Derives(Relaxed(rules), Relax(n), [c] + z)
  {
    assert SoundAt(rules, at, n);
    assert Starts(rules, n, c);
    z :| Derives(rules, n, [c] + z);
    RelaxDerives(rules, n, [c] + z);
  }

  lemma EmptyText(rules: Rules, at: Attrs, n: Node)
    requires Sane(rules, at) && n in at.nul
    ensures Derives(Relaxed(rules), Relax(n), [])
  {
    assert SoundAt(rules, at, n);
    RelaxDerives(rules, n, []);
  }

  ghost predicate AllRead(rules: Rules, kids: seq<Node>) {
    forall i :: 0 <= i < |kids| ==> ReadNode(rules, kids[i])
  }

  lemma RelaxTail(kids: seq<Node>)
    requires kids != []
    ensures RelaxAll(kids)[1..] == RelaxAll(kids[1..])
  {
  }

  lemma {:induction false} TailText(rules: Rules, kids: seq<Node>) returns (w: Text)
    requires AllRead(rules, kids) && AllProductive(rules)
    ensures Derives(Relaxed(rules), Cat(RelaxAll(kids)), w)
  {
    hide Derives, ReadNode;
    if kids == [] {
      w := [];
      assert RelaxAll(kids) == [];
      CatNone(Relaxed(rules));
    } else {
      var a := SomeText(rules, kids[0]);
      var b := TailText(rules, kids[1..]);
      RelaxTail(kids);
      CatCons(Relaxed(rules), RelaxAll(kids), a, b);
      w := a + b;
    }
  }

  /** What can follow the place in front of items begins them, or they can be nothing and it follows them. */
  lemma {:induction false} TailExact(rules: Rules, at: Attrs, kids: seq<Node>, base: seq<seq<Range>>, open: bool, c: int)
    requires Sane(rules, at) && AllRead(rules, kids)
    ensures var (b, o) := TailOf(at, kids, base, open);
            var n := Cat(RelaxAll(kids));
            && (InAny(b, c) ==> (exists z :: Derives(Relaxed(rules), n, [c] + z)) || (InAny(base, c) && Derives(Relaxed(rules), n, [])))
            && (o ==> open && Derives(Relaxed(rules), n, []))
  {
    hide Derives, ReadNode, Sane;
    var rs := Relaxed(rules);
    if kids == [] {
      assert RelaxAll(kids) == [];
      CatNone(rs);
    } else {
      RelaxTail(kids);
      var (b, o) := TailOf(at, kids[1..], base, open);
      if In(F(at, kids[0]), c) {
        HeadBegins(rules, at, kids, c);
      }
      if kids[0] in at.nul {
        TailExact(rules, at, kids[1..], base, open, c);
        HeadNone(rules, at, kids, b, base, c);
        InHead(F(at, kids[0]), b, c);
      } else {
        InHead(F(at, kids[0]), [], c);
        assert [F(at, kids[0])] + [] == [F(at, kids[0])];
      }
    }
  }

  lemma TailsExact(rules: Rules, at: Attrs, kids: seq<Node>, base: seq<seq<Range>>, open: bool)
    requires Sane(rules, at) && AllRead(rules, kids)
    ensures var (b, o) := TailOf(at, kids, base, open);
            var n := Cat(RelaxAll(kids));
            && (forall c :: InAny(b, c) ==> (exists z :: Derives(Relaxed(rules), n, [c] + z)) || (InAny(base, c) && Derives(Relaxed(rules), n, [])))
            && (o ==> open && Derives(Relaxed(rules), n, []))
  {
    hide Derives, Sane, TailOf;
    TailExact(rules, at, kids, base, open, 0);
    forall c ensures InAny(TailOf(at, kids, base, open).0, c) ==>
      (exists z :: Derives(Relaxed(rules), Cat(RelaxAll(kids)), [c] + z)) || (InAny(base, c) && Derives(Relaxed(rules), Cat(RelaxAll(kids)), []))
    {
      TailExact(rules, at, kids, base, open, c);
    }
  }

  lemma InHead(head: seq<Range>, rest: seq<seq<Range>>, c: int)
    ensures InAny([head] + rest, c) <==> In(head, c) || InAny(rest, c)
    ensures !InAny([], c)
  {
    var all := [head] + rest;
    assert all[0] == head && forall i :: 0 <= i < |rest| ==> all[i + 1] == rest[i];
    if i :| 0 <= i < |all| && In(all[i], c) && 0 < i { assert In(rest[i - 1], c); }
  }

  lemma HeadBegins(rules: Rules, at: Attrs, kids: seq<Node>, c: int)
    requires Sane(rules, at) && AllRead(rules, kids) && kids != [] && In(F(at, kids[0]), c)
    ensures exists z :: Derives(Relaxed(rules), Cat(RelaxAll(kids)), [c] + z)
  {
    hide Derives, ReadNode;
    var z := FirstText(rules, at, kids[0], c);
    var b := TailText(rules, kids[1..]);
    RelaxTail(kids);
    CatCons(Relaxed(rules), RelaxAll(kids), [c] + z, b);
    assert [c] + z + b == [c] + (z + b);
  }

  lemma HeadNone(rules: Rules, at: Attrs, kids: seq<Node>, b: seq<seq<Range>>, base: seq<seq<Range>>, c: int)
    requires Sane(rules, at) && AllRead(rules, kids) && kids != [] && kids[0] in at.nul
    ensures var m, n := Cat(RelaxAll(kids[1..])), Cat(RelaxAll(kids));
            && ((exists z :: Derives(Relaxed(rules), m, [c] + z)) ==> exists z :: Derives(Relaxed(rules), n, [c] + z))
            && (Derives(Relaxed(rules), m, []) ==> Derives(Relaxed(rules), n, []))
  {
    hide Derives, ReadNode;
    EmptyText(rules, at, kids[0]);
    RelaxTail(kids);
    var m, none: Text := Cat(RelaxAll(kids[1..])), [];
    if z :| Derives(Relaxed(rules), m, [c] + z) {
      CatCons(Relaxed(rules), RelaxAll(kids), none, [c] + z);
      assert none + ([c] + z) == [c] + z;
    }
    if Derives(Relaxed(rules), m, none) {
      CatCons(Relaxed(rules), RelaxAll(kids), none, none);
      assert none + none == none;
    }
  }

  // ----- visits

  /** What a visit claims of its place in a node. */
  ghost predicate Exact(rules: Rules, n: Node, base: seq<seq<Range>>, open: bool, v: Visit, w: Text) {
    && (forall c :: InAny(v.base, c) ==> Around(rules, n, w, c) || (InAny(base, c) && Last(rules, n, w)))
    && (v.open ==> open && Last(rules, n, w))
  }

  lemma ExactUp(rules: Rules, n: Node, m: Node, base: seq<seq<Range>>, open: bool, v: Visit, w: Text)
    requires Exact(rules, n, base, open, v, w)
    requires forall c :: Around(rules, n, w, c) ==> Around(rules, m, w, c)
    requires Last(rules, n, w) ==> Last(rules, m, w)
    ensures Exact(rules, m, base, open, v, w)
  {
    hide Around, Last;
  }

  lemma AltUp(rules: Rules, kids: seq<Node>, i: nat, w: Text)
    requires i < |kids|
    ensures forall c :: Around(rules, kids[i], w, c) ==> Around(rules, Alt(kids), w, c)
    ensures Last(rules, kids[i], w) ==> Last(rules, Alt(kids), w)
  {
    hide Derives;
    forall c | Around(rules, kids[i], w, c) ensures Around(rules, Alt(kids), w, c) {
      var u, z :| Derives(rules, kids[i], u + w + [c] + z);
      AltOf(rules, kids, i, u + w + [c] + z);
    }
    if u :| Derives(rules, kids[i], u + w) { AltOf(rules, kids, i, u + w); }
  }

  /** Text in front of a sequence. */
  lemma CatFront(rules: Rules, kids: seq<Node>, a: Text, w: Text)
    requires kids != [] && Derives(rules, kids[0], a)
    ensures forall c :: Around(rules, Cat(kids[1..]), w, c) ==> Around(rules, Cat(kids), w, c)
    ensures Last(rules, Cat(kids[1..]), w) ==> Last(rules, Cat(kids), w)
  {
    hide Derives;
    forall c | Around(rules, Cat(kids[1..]), w, c) ensures Around(rules, Cat(kids), w, c) {
      var u, z :| Derives(rules, Cat(kids[1..]), u + w + [c] + z);
      CatCons(rules, kids, a, u + w + [c] + z);
      assert a + (u + w + [c] + z) == (a + u) + w + [c] + z;
      AroundIs(rules, Cat(kids), w, c, a + u, z);
    }
    if u :| Derives(rules, Cat(kids[1..]), u + w) {
      CatCons(rules, kids, a, u + w);
      assert a + (u + w) == (a + u) + w;
      LastIs(rules, Cat(kids), w, a + u);
    }
  }

  /** A sequence behind its first item. */
  lemma CatBehind(rules: Rules, kids: seq<Node>, base: seq<seq<Range>>, open: bool, b: seq<seq<Range>>, o: bool, v: Visit, w: Text, post: Text)
    requires kids != [] && Exact(rules, kids[0], b, o, v, w) && Derives(rules, Cat(kids[1..]), post)
    requires forall c :: InAny(b, c) ==>
               (exists z :: Derives(rules, Cat(kids[1..]), [c] + z)) || (InAny(base, c) && Derives(rules, Cat(kids[1..]), []))
    requires o ==> open && Derives(rules, Cat(kids[1..]), [])
    ensures Exact(rules, Cat(kids), base, open, v, w)
  {
    hide Derives;
    forall c | InAny(v.base, c) ensures Around(rules, Cat(kids), w, c) || (InAny(base, c) && Last(rules, Cat(kids), w)) {
      if u, z :| Derives(rules, kids[0], u + w + [c] + z) {
        CatCons(rules, kids, u + w + [c] + z, post);
        assert u + w + [c] + z + post == u + w + [c] + (z + post);
        AroundIs(rules, Cat(kids), w, c, u, z + post);
      } else {
        assert InAny(b, c) && Last(rules, kids[0], w);
        var u :| Derives(rules, kids[0], u + w);
        if z :| Derives(rules, Cat(kids[1..]), [c] + z) {
          CatCons(rules, kids, u + w, [c] + z);
          assert u + w + ([c] + z) == u + w + [c] + z;
          AroundIs(rules, Cat(kids), w, c, u, z);
        } else {
          LastCons(rules, kids, u, w);
        }
      }
    }
    if v.open {
      var u :| Derives(rules, kids[0], u + w);
      LastCons(rules, kids, u, w);
    }
  }

  lemma LastCons(rules: Rules, kids: seq<Node>, u: Text, w: Text)
    requires kids != [] && Derives(rules, kids[0], u + w) && Derives(rules, Cat(kids[1..]), [])
    ensures Last(rules, Cat(kids), w)
  {
    hide Derives;
    CatCons(rules, kids, u + w, []);
    assert u + w + [] == u + w;
    LastIs(rules, Cat(kids), w, u);
  }

  /** One more text of a repeat, and what may come behind it. */
  lemma RepUp(rules: Rules, at: Attrs, n: Node, base: seq<seq<Range>>, open: bool, v: Visit, w: Text)
    requires Sane(rules, at) && n.Rep? && ReadNode(rules, n)
    requires Exact(Relaxed(rules), Relax(n.kid), if Many(n) then [F(at, n.kid)] + base else base, open, v, w)
    ensures Exact(Relaxed(rules), Relax(n), base, open, v, w)
  {
    hide Derives, ReadNode, Strung;
    var rs, kid, rep := Relaxed(rules), Relax(n.kid), Relax(n);
    var pad := SomeKid(rules, n);
    RepRead(rules, n);
    forall c | InAny(v.base, c) ensures Around(rs, rep, w, c) || (InAny(base, c) && Last(rs, rep, w)) {
      if u, z :| Derives(rs, kid, u + w + [c] + z) {
        RepOne(rs, rep, pad, u + w + [c] + z, u, w, c, z);
      } else {
        var u :| Derives(rs, kid, u + w);
        if Many(n) && In(F(at, n.kid), c) {
          var z := FirstText(rules, at, n.kid, c);
          RepTwo(rs, rep, pad, u, w, c, z);
        } else {
          InHead(F(at, n.kid), base, c);
          RepLast(rs, rep, pad, u, w);
        }
      }
    }
    if v.open {
      var u :| Derives(rs, kid, u + w);
      RepLast(rs, rep, pad, u, w);
    }
  }

  lemma SomeKid(rules: Rules, n: Node) returns (w: Text)
    requires n.Rep? && ReadNode(rules, n) && AllProductive(rules)
    ensures Derives(Relaxed(rules), Relax(n.kid), w)
  {
    w := SomeText(rules, n.kid);
  }

  lemma RepRead(rules: Rules, n: Node)
    requires n.Rep? && ReadNode(rules, n)
    ensures n.max < 0 || n.min <= n.max
  {
  }

  lemma OnePart(x: Text)
    ensures Strung([x]) == x
  {
    assert [x][1..] == [];
  }

  lemma RepOne(rules: Rules, rep: Node, pad: Text, x: Text, u: Text, w: Text, c: int, z: Text)
    requires rep.Rep? && (rep.max < 0 || (rep.min <= rep.max && 1 <= rep.max)) && Derives(rules, rep.kid, pad)
    requires Derives(rules, rep.kid, x) && x == u + w + [c] + z
    ensures Around(rules, rep, w, c)
  {
    hide Derives;
    var front := RepPad(rules, rep.kid, rep.min, rep.max, pad, [x]);
    OnePart(x);
    assert front + x == (front + u) + w + [c] + z;
    assert rep == Rep(rep.kid, rep.min, rep.max);
    AroundIs(rules, rep, w, c, front + u, z);
  }

  lemma RepLast(rules: Rules, rep: Node, pad: Text, u: Text, w: Text)
    requires rep.Rep? && (rep.max < 0 || (rep.min <= rep.max && 1 <= rep.max)) && Derives(rules, rep.kid, pad) && Derives(rules, rep.kid, u + w)
    ensures Last(rules, rep, w)
  {
    hide Derives;
    var front := RepPad(rules, rep.kid, rep.min, rep.max, pad, [u + w]);
    OnePart(u + w);
    assert front + (u + w) == (front + u) + w;
    assert rep == Rep(rep.kid, rep.min, rep.max);
    LastIs(rules, rep, w, front + u);
  }

  lemma RepTwo(rules: Rules, rep: Node, pad: Text, u: Text, w: Text, c: int, z: Text)
    requires rep.Rep? && (rep.max < 0 || (rep.min <= rep.max && 2 <= rep.max)) && Derives(rules, rep.kid, pad)
    requires Derives(rules, rep.kid, u + w) && Derives(rules, rep.kid, [c] + z)
    ensures Around(rules, rep, w, c)
  {
    hide Derives;
    var x, y := u + w, [c] + z;
    var front := RepPad(rules, rep.kid, rep.min, rep.max, pad, [x, y]);
    assert [x, y][1..] == [y];
    OnePart(y);
    assert front + (x + y) == (front + u) + w + [c] + z;
    assert rep == Rep(rep.kid, rep.min, rep.max);
    AroundIs(rules, rep, w, c, front + u, z);
  }

  lemma SelfExact(rules: Rules, n: Node, base: seq<seq<Range>>, open: bool, w: Text)
    requires Derives(rules, n, w)
    ensures Exact(rules, n, base, open, Visit(n, base, open), w)
    ensures Last(rules, n, w)
  {
    hide Derives;
    var none: Text := [];
    assert none + w == w;
    LastIs(rules, n, w, none);
  }

  /** Every visit's claim holds. */
  lemma {:induction false} VisitExact(rules: Rules, at: Attrs, n: Node, base: seq<seq<Range>>, open: bool, i: nat, w: Text)
    requires Sane(rules, at) && ReadNode(rules, n) && i < |Visits(at, n, base, open)|
    requires Derives(Relaxed(rules), Relax(Visits(at, n, base, open)[i].x), w)
    ensures Exact(Relaxed(rules), Relax(n), base, open, Visits(at, n, base, open)[i].(x := Relax(n)), w)
    decreases n, 1
  {
    hide Derives, Exact, Sane, Sound;
    var rs, v := Relaxed(rules), Visits(at, n, base, open)[i];
    if i == 0 {
      SelfExact(rs, Relax(n), base, open, w);
    } else {
      match n
      case Alt(kids) =>
        assert VisitsAlt(at, kids, base, open)[i - 1] == v;
        AltExact(rules, at, n, kids, 0, base, open, i - 1, w);
      case Cat(kids) =>
        assert VisitsCat(at, kids, base, open)[i - 1] == v;
        CatExact(rules, at, kids, base, open, i - 1, w);
        assert Relax(n) == Cat(RelaxAll(kids));
        ExactAny(rs, Relax(n), base, open, v, v.(x := Relax(n)), w);
      case Rep(kid, _, _) =>
        var inner := if Many(n) then [F(at, kid)] + base else base;
        assert Visits(at, kid, inner, open)[i - 1] == v;
        VisitExact(rules, at, kid, inner, open, i - 1, w);
        RepUp(rules, at, n, base, open, v.(x := Relax(kid)), w);
        ExactAny(rs, Relax(n), base, open, v.(x := Relax(kid)), v.(x := Relax(n)), w);
      case _ =>
    }
  }

  /** The node a visit names has no say in its claim. */
  lemma ExactAny(rules: Rules, n: Node, base: seq<seq<Range>>, open: bool, v: Visit, q: Visit, w: Text)
    requires Exact(rules, n, base, open, v, w) && q.base == v.base && q.open == v.open
    ensures Exact(rules, n, base, open, q, w)
  {
    hide Around, Last;
  }

  lemma {:induction false} AltExact(rules: Rules, at: Attrs, n: Node, kids: seq<Node>, k: nat, base: seq<seq<Range>>, open: bool, i: nat, w: Text)
    requires Sane(rules, at) && n.Alt? && ReadNode(rules, n) && k <= |n.kids| && kids == n.kids[k..]
    requires i < |VisitsAlt(at, kids, base, open)| && Derives(Relaxed(rules), Relax(VisitsAlt(at, kids, base, open)[i].x), w)
    ensures Exact(Relaxed(rules), Relax(n), base, open, VisitsAlt(at, kids, base, open)[i].(x := Relax(n)), w)
    decreases kids, 0
  {
    hide Derives, Exact, Sane;
    var rs, v := Relaxed(rules), VisitsAlt(at, kids, base, open)[i];
    var here := Visits(at, kids[0], base, open);
    assert kids[0] == n.kids[k];
    if i < |here| {
      assert here[i] == v;
      VisitExact(rules, at, kids[0], base, open, i, w);
      var up := Relax(n);
      assert up == Alt(RelaxAll(n.kids)) && RelaxAll(n.kids)[k] == Relax(kids[0]);
      AltUp(rs, RelaxAll(n.kids), k, w);
      ExactUp(rs, Relax(kids[0]), up, base, open, v.(x := Relax(kids[0])), w);
      ExactAny(rs, up, base, open, v.(x := Relax(kids[0])), v.(x := up), w);
    } else {
      assert VisitsAlt(at, kids[1..], base, open)[i - |here|] == v;
      AltExact(rules, at, n, kids[1..], k + 1, base, open, i - |here|, w);
    }
  }

  lemma {:induction false} CatExact(rules: Rules, at: Attrs, kids: seq<Node>, base: seq<seq<Range>>, open: bool, i: nat, w: Text)
    requires Sane(rules, at) && AllRead(rules, kids)
    requires i < |VisitsCat(at, kids, base, open)| && Derives(Relaxed(rules), Relax(VisitsCat(at, kids, base, open)[i].x), w)
    ensures Exact(Relaxed(rules), Cat(RelaxAll(kids)), base, open, VisitsCat(at, kids, base, open)[i], w)
    decreases kids, 0
  {
    hide Derives, Exact, Sound, Around, Last;
    var rs, v := Relaxed(rules), VisitsCat(at, kids, base, open)[i];
    var (b, o) := TailOf(at, kids[1..], base, open);
    var here := Visits(at, kids[0], b, o);
    RelaxTail(kids);
    if i < |here| {
      assert here[i] == v;
      VisitExact(rules, at, kids[0], b, o, i, w);
      ExactAny(rs, Relax(kids[0]), b, o, v.(x := Relax(kids[0])), v, w);
      var post := TailText(rules, kids[1..]);
      TailsExact(rules, at, kids[1..], base, open);
      CatBehind(rs, RelaxAll(kids), base, open, b, o, v, w, post);
    } else {
      assert VisitsCat(at, kids[1..], base, open)[i - |here|] == v;
      CatExact(rules, at, kids[1..], base, open, i - |here|, w);
      var a := SomeText(rules, kids[0]);
      CatFront(rs, RelaxAll(kids), a, w);
      ExactUp(rs, Cat(RelaxAll(kids[1..])), Cat(RelaxAll(kids)), base, open, v, w);
    }
  }

  // ----- FOLLOW

  lemma RefDerives(rules: Rules, name: string, w: Text)
    requires name in rules && Derives(rules, rules[name], w)
    ensures Derives(rules, Ref(name), w)
  {
    var t :| Parses(rules, rules[name], t) && Yield(t) == w;
    DerivesOf(rules, Ref(name), RefTree(t));
  }

  /** Some rule derives the text with the character behind it. */
  ghost predicate Followed(rules: Rules, w: Text, c: int) {
    exists r :: r in rules && Around(rules, rules[r], w, c)
  }

  lemma {:induction false} ShownFollows(rules: Rules, at: Attrs, why: Why, name: string, c: int, w: Text)
    requires Sane(rules, at) && name in rules && Shows(rules, at, why, name, c) && Derives(Relaxed(rules), Relaxed(rules)[name], w)
    ensures Followed(Relaxed(rules), w, c)
    decreases why
  {
    hide Derives, Around, Last, Sound;
    var rs, rule := Relaxed(rules), why.rule;
    var v := RuleVisits(at, rules[rule])[why.v];
    RefDerives(rs, name, w);
    VisitExact(rules, at, rules[rule], [], true, why.v, w);
    match why
    case Behind(_, _) =>
      NothingIn(c);
      assert Around(rs, rs[rule], w, c);
    case AtEnd(_, _, more) =>
      var u := LastText(rs, rs[rule], w);
      ShownFollows(rules, at, more, rule, c, u + w);
      FollowedLess(rs, u, w, c);
  }

  lemma NothingIn(c: int)
    ensures !InAny([], c)
  {
  }

  lemma LastText(rules: Rules, n: Node, w: Text) returns (u: Text)
    requires Last(rules, n, w)
    ensures Derives(rules, n, u + w)
  {
    u :| Derives(rules, n, u + w);
  }

  lemma FollowedLess(rules: Rules, u: Text, w: Text, c: int)
    requires Followed(rules, u + w, c)
    ensures Followed(rules, w, c)
  {
    hide Derives;
    var r :| r in rules && Around(rules, rules[r], u + w, c);
    var x, z :| Derives(rules, rules[r], x + (u + w) + [c] + z);
    assert x + (u + w) + [c] + z == (x + u) + w + [c] + z;
    AroundIs(rules, rules[r], w, c, x + u, z);
  }

  /** Whatever a rule derives, some rule derives with a character of its FOLLOW behind it. */
  lemma FollowIsExact(rules: Rules, at: Attrs, name: string, c: int, w: Text)
    requires Sane(rules, at) && name in rules && c in Follow(rules, at, name) && Derives(Relaxed(rules), Relaxed(rules)[name], w)
    ensures Followed(Relaxed(rules), w, c)
  {
    hide Shows, Derives, Sane;
    var why :| Shows(rules, at, why, name, c);
    ShownFollows(rules, at, why, name, c, w);
  }

  /** Where no repeat is of none, relaxing changes nothing. */
  ghost predicate NoneOfNone(n: Node) {
    match n
    case Alt(kids) => forall i :: 0 <= i < |kids| ==> NoneOfNone(kids[i])
    case Cat(kids) => forall i :: 0 <= i < |kids| ==> NoneOfNone(kids[i])
    case Rep(kid, _, max) => max != 0 && NoneOfNone(kid)
    case _ => true
  }

  lemma {:induction false} RelaxSame(n: Node)
    requires NoneOfNone(n)
    ensures Relax(n) == n
  {
    match n
    case Alt(kids) =>
      forall i | 0 <= i < |kids| ensures Relax(kids[i]) == kids[i] { RelaxSame(kids[i]); }
      assert RelaxAll(kids) == kids;
    case Cat(kids) =>
      forall i | 0 <= i < |kids| ensures Relax(kids[i]) == kids[i] { RelaxSame(kids[i]); }
      assert RelaxAll(kids) == kids;
    case Rep(kid, _, _) => RelaxSame(kid);
    case _ =>
  }

  /** So it is of a grammar without such a repeat, as it stands. */
  lemma FollowPlain(rules: Rules, at: Attrs, name: string, c: int, w: Text)
    requires Sane(rules, at) && name in rules && c in Follow(rules, at, name) && Derives(rules, rules[name], w)
    requires forall r :: r in rules ==> NoneOfNone(rules[r])
    ensures Followed(rules, w, c)
  {
    hide Sane, Derives, Followed;
    forall r | r in rules ensures Relax(rules[r]) == rules[r] { RelaxSame(rules[r]); }
    assert Relaxed(rules) == rules;
    FollowIsExact(rules, at, name, c, w);
  }
}
