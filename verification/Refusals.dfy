/**
 A refused grammar (go/formatgrammar.go:676-813) is never one the recogniser could run: whatever
 attributes solve its equations truly, they leave the same choice undecided.
 */
module Refusals {
  import opened Ranges
  import opened Grammar
  import opened Attributes
  import opened AttributeLoop
  import opened Leading
  import opened Flow
  import opened Machine
  import opened Analyse

  /** Over these nodes, b has the empty texts a has, and at least its first characters. */
  ghost predicate Wider(nodes: set<Node>, a: Attrs, b: Attrs) {
    && (forall x, i {:trigger Kids(x)[i]} :: x in nodes && 0 <= i < |Kids(x)| ==> Kids(x)[i] in nodes)
    && (forall x :: x in nodes ==> (x in a.nul <==> x in b.nul))
    && forall x, c :: In(F(a, x), c) ==> In(F(b, x), c)
  }

  ghost predicate AllIn(nodes: set<Node>, items: seq<Node>) {
    forall i :: 0 <= i < |items| ==> items[i] in nodes
  }

  ghost predicate More(a: seq<seq<Range>>, b: seq<seq<Range>>) {
    forall c :: InAny(a, c) ==> InAny(b, c)
  }

  lemma KidsAll(nodes: set<Node>, a: Attrs, b: Attrs, x: Node)
    requires Wider(nodes, a, b) && x in nodes
    ensures x.Alt? || x.Cat? ==> AllIn(nodes, x.kids)
    ensures x.Rep? ==> x.kid in nodes
  {
    if x.Alt? || x.Cat? {
      forall i | 0 <= i < |x.kids| ensures x.kids[i] in nodes { assert x.kids[i] == Kids(x)[i]; }
    }
    if x.Rep? { assert x.kid == Kids(x)[0]; }
  }

  lemma MoreCons(s: seq<Range>, t: seq<Range>, a: seq<seq<Range>>, b: seq<seq<Range>>)
    requires More(a, b) && forall c :: In(s, c) ==> In(t, c)
    ensures More([s] + a, [t] + b)
  {
    forall c | InAny([s] + a, c) ensures InAny([t] + b, c) {
      InAnyCons(s, a, c);
      InAnyCons(t, b, c);
    }
  }

  lemma {:induction false} TailMore(nodes: set<Node>, a: Attrs, b: Attrs, items: seq<Node>, p: seq<seq<Range>>, q: seq<seq<Range>>, open: bool)
    requires Wider(nodes, a, b) && AllIn(nodes, items) && More(p, q)
    ensures TailOf(a, items, p, open).1 == TailOf(b, items, q, open).1
    ensures More(TailOf(a, items, p, open).0, TailOf(b, items, q, open).0)
  {
    hide InAny, In;
    var none: seq<seq<Range>> := [];
    if items != [] {
      assert items[0] in nodes;
      TailMore(nodes, a, b, items[1..], p, q, open);
      MoreCons(F(a, items[0]), F(b, items[0]), TailOf(a, items[1..], p, open).0, TailOf(b, items[1..], q, open).0);
      NoneMore();
      MoreCons(F(a, items[0]), F(b, items[0]), none, none);
      assert [F(a, items[0])] + none == [F(a, items[0])] && [F(b, items[0])] + none == [F(b, items[0])];
    }
  }

  lemma NoneMore()
    ensures More([], [])
  {
  }

  /** The same visits, with more behind them. */
  ghost predicate VisitsMore(v: seq<Visit>, w: seq<Visit>) {
    |v| == |w| && forall i :: 0 <= i < |v| ==> v[i].x == w[i].x && v[i].open == w[i].open && More(v[i].base, w[i].base)
  }

  lemma VisitsAppend(v: seq<Visit>, w: seq<Visit>, v': seq<Visit>, w': seq<Visit>)
    requires VisitsMore(v, w) && VisitsMore(v', w')
    ensures VisitsMore(v + v', w + w')
  {
    hide More;
  }

  lemma {:induction false} Visited(nodes: set<Node>, a: Attrs, b: Attrs, x: Node, p: seq<seq<Range>>, q: seq<seq<Range>>, open: bool)
    requires Wider(nodes, a, b) && x in nodes && More(p, q)
    ensures VisitsMore(Visits(a, x, p, open), Visits(b, x, q, open))
    decreases x, 1
  {
    hide More, Wider;
    KidsAll(nodes, a, b, x);
    var v, w := [Visit(x, p, open)], [Visit(x, q, open)];
    match x
    case Alt(kids) =>
      VisitedAlt(nodes, a, b, kids, p, q, open);
      VisitsAppend(v, w, VisitsAlt(a, kids, p, open), VisitsAlt(b, kids, q, open));
    case Cat(kids) =>
      VisitedCat(nodes, a, b, kids, p, q, open);
      VisitsAppend(v, w, VisitsCat(a, kids, p, open), VisitsCat(b, kids, q, open));
    case Rep(kid, _, _) =>
      FMore(nodes, a, b, kid);
      MoreCons(F(a, kid), F(b, kid), p, q);
      var p', q' := if Many(x) then [F(a, kid)] + p else p, if Many(x) then [F(b, kid)] + q else q;
      Visited(nodes, a, b, kid, p', q', open);
      VisitsAppend(v, w, Visits(a, kid, p', open), Visits(b, kid, q', open));
    case _ => assert v + [] == v && w + [] == w;
  }

  lemma FMore(nodes: set<Node>, a: Attrs, b: Attrs, x: Node)
    requires Wider(nodes, a, b)
    ensures forall c :: In(F(a, x), c) ==> In(F(b, x), c)
  {
  }

  lemma {:induction false} VisitedAlt(nodes: set<Node>, a: Attrs, b: Attrs, kids: seq<Node>, p: seq<seq<Range>>, q: seq<seq<Range>>, open: bool)
    requires Wider(nodes, a, b) && AllIn(nodes, kids) && More(p, q)
    ensures VisitsMore(VisitsAlt(a, kids, p, open), VisitsAlt(b, kids, q, open))
    decreases kids, 0
  {
    hide More, Wider;
    if kids != [] {
      Visited(nodes, a, b, kids[0], p, q, open);
      VisitedAlt(nodes, a, b, kids[1..], p, q, open);
      VisitsAppend(Visits(a, kids[0], p, open), Visits(b, kids[0], q, open), VisitsAlt(a, kids[1..], p, open), VisitsAlt(b, kids[1..], q, open));
    }
  }

  lemma {:induction false} VisitedCat(nodes: set<Node>, a: Attrs, b: Attrs, kids: seq<Node>, p: seq<seq<Range>>, q: seq<seq<Range>>, open: bool)
    requires Wider(nodes, a, b) && AllIn(nodes, kids) && More(p, q)
    ensures VisitsMore(VisitsCat(a, kids, p, open), VisitsCat(b, kids, q, open))
    decreases kids, 0
  {
    hide More, Wider;
    if kids != [] {
      TailMore(nodes, a, b, kids[1..], p, q, open);
      var (s, o) := TailOf(a, kids[1..], p, open);
      var (t, o') := TailOf(b, kids[1..], q, open);
      Visited(nodes, a, b, kids[0], s, t, o);
      VisitedCat(nodes, a, b, kids[1..], p, q, open);
      VisitsAppend(Visits(a, kids[0], s, o), Visits(b, kids[0], t, o), VisitsCat(a, kids[1..], p, open), VisitsCat(b, kids[1..], q, open));
    }
  }

  // ----- more behind every rule

  ghost predicate RulesIn(nodes: set<Node>, rules: Rules) {
    forall n :: n in rules ==> rules[n] in nodes
  }

  lemma RuleMore(rules: Rules, nodes: set<Node>, a: Attrs, b: Attrs, rule: string)
    requires Wider(nodes, a, b) && RulesIn(nodes, rules) && rule in rules
    ensures VisitsMore(RuleVisits(a, rules[rule]), RuleVisits(b, rules[rule]))
  {
    hide Wider, VisitsMore, More;
    NoneMore();
    Visited(nodes, a, b, rules[rule], [], [], true);
  }

  lemma {:induction false} ShownMore(rules: Rules, nodes: set<Node>, a: Attrs, b: Attrs, w: Why, name: string, c: int)
    requires Wider(nodes, a, b) && RulesIn(nodes, rules) && Shows(rules, a, w, name, c)
    ensures Shows(rules, b, w, name, c)
    decreases w
  {
    hide Wider, RuleVisits, InAny;
    RuleMore(rules, nodes, a, b, w.rule);
    if w.AtEnd? { ShownMore(rules, nodes, a, b, w.why, w.rule, c); }
  }

  lemma FollowMore(rules: Rules, nodes: set<Node>, a: Attrs, b: Attrs, name: string)
    requires Wider(nodes, a, b) && RulesIn(nodes, rules)
    ensures Follow(rules, a, name) <= Follow(rules, b, name)
  {
    hide Wider, Shows;
    forall c | c in Follow(rules, a, name) ensures c in Follow(rules, b, name) {
      assert CanFollow(rules, a, name, c);
      var w :| Shows(rules, a, w, name, c);
      ShownMore(rules, nodes, a, b, w, name, c);
      assert CanFollow(rules, b, name, c);
    }
  }

  lemma HeldMore(a: Attrs, b: Attrs, kids: seq<Node>, c: int)
    requires forall x, d :: In(F(a, x), d) ==> In(F(b, x), d)
    ensures HeldTwice(Firsts(a, kids), c) ==> HeldTwice(Firsts(b, kids), c)
    ensures InAny(Firsts(a, kids), c) ==> InAny(Firsts(b, kids), c)
  {
    hide In;
    assert forall i :: 0 <= i < |kids| && In(Firsts(a, kids)[i], c) ==> In(Firsts(b, kids)[i], c);
  }

  lemma EmptySame(nodes: set<Node>, a: Attrs, b: Attrs, kids: seq<Node>)
    requires Wider(nodes, a, b) && AllIn(nodes, kids)
    ensures (TwoEmpty(a, kids) ==> TwoEmpty(b, kids)) && (SomeEmpty(a, kids) ==> SomeEmpty(b, kids))
  {
    hide In;
  }

  lemma DecidedMore(nodes: set<Node>, a: Attrs, b: Attrs, x: Node, s: iset<int>, t: iset<int>)
    requires Wider(nodes, a, b) && x in nodes && s <= t && Decided(b, x, t)
    ensures Decided(a, x, s)
  {
    hide In, InAny, HeldTwice, TwoEmpty, SomeEmpty, Firsts;
    KidsAll(nodes, a, b, x);
    if x.Alt? {
      EmptySame(nodes, a, b, x.kids);
      forall c ensures !HeldTwice(Firsts(a, x.kids), c) { HeldMore(a, b, x.kids, c); }
      forall c | SomeEmpty(a, x.kids) && InAny(Firsts(a, x.kids), c) ensures c !in s { HeldMore(a, b, x.kids, c); }
    }
  }

  /** The visits of a node in these nodes are of these nodes. */
  lemma {:induction false} VisitsIn(nodes: set<Node>, a: Attrs, b: Attrs, x: Node, p: seq<seq<Range>>, open: bool)
    requires Wider(nodes, a, b) && x in nodes
    ensures forall v :: v in Visits(a, x, p, open) ==> v.x in nodes
    decreases x, 1
  {
    hide Wider;
    KidsAll(nodes, a, b, x);
    match x
    case Alt(kids) => VisitsInAlt(nodes, a, b, kids, p, open);
    case Cat(kids) => VisitsInCat(nodes, a, b, kids, p, open);
    case Rep(kid, _, _) => VisitsIn(nodes, a, b, kid, if Many(x) then [F(a, kid)] + p else p, open);
    case _ =>
  }

  lemma {:induction false} VisitsInAlt(nodes: set<Node>, a: Attrs, b: Attrs, kids: seq<Node>, p: seq<seq<Range>>, open: bool)
    requires Wider(nodes, a, b) && AllIn(nodes, kids)
    ensures forall v :: v in VisitsAlt(a, kids, p, open) ==> v.x in nodes
    decreases kids, 0
  {
    hide Wider;
    if kids != [] {
      VisitsIn(nodes, a, b, kids[0], p, open);
      VisitsInAlt(nodes, a, b, kids[1..], p, open);
    }
  }

  lemma {:induction false} VisitsInCat(nodes: set<Node>, a: Attrs, b: Attrs, kids: seq<Node>, p: seq<seq<Range>>, open: bool)
    requires Wider(nodes, a, b) && AllIn(nodes, kids)
    ensures forall v :: v in VisitsCat(a, kids, p, open) ==> v.x in nodes
    decreases kids, 0
  {
    hide Wider;
    if kids != [] {
      var (s, o) := TailOf(a, kids[1..], p, open);
      VisitsIn(nodes, a, b, kids[0], s, o);
      VisitsInCat(nodes, a, b, kids[1..], p, open);
    }
  }

  /** Deterministic with more first characters is deterministic with fewer. */
  lemma DeterministicLess(rules: Rules, nodes: set<Node>, a: Attrs, b: Attrs)
    requires Wider(nodes, a, b) && RulesIn(nodes, rules) && Deterministic(rules, b)
    ensures Deterministic(rules, a)
  {
    hide Wider, Decided, Follow, RuleVisits, InAny, AfterSet;
    forall rule, i | rule in rules && 0 <= i < |RuleVisits(a, rules[rule])|
      ensures var v := RuleVisits(a, rules[rule])[i]; Decided(a, v.x, AfterSet(v.base, v.open, Follow(rules, a, rule))) {
      RuleMore(rules, nodes, a, b, rule);
      RuleVisitsIn(nodes, a, b, rules[rule]);
      FollowMore(rules, nodes, a, b, rule);
      var v, w := RuleVisits(a, rules[rule])[i], RuleVisits(b, rules[rule])[i];
      assert v in RuleVisits(a, rules[rule]);
      AfterMore(v, w, Follow(rules, a, rule), Follow(rules, b, rule));
      DecidedMore(nodes, a, b, v.x, AfterSet(v.base, v.open, Follow(rules, a, rule)), AfterSet(w.base, w.open, Follow(rules, b, rule)));
    }
  }

  lemma RuleVisitsIn(nodes: set<Node>, a: Attrs, b: Attrs, x: Node)
    requires Wider(nodes, a, b) && x in nodes
    ensures forall v :: v in RuleVisits(a, x) ==> v.x in nodes
  {
    VisitsIn(nodes, a, b, x, [], true);
  }

  lemma AfterMore(v: Visit, w: Visit, s: iset<int>, t: iset<int>)
    requires v.open == w.open && More(v.base, w.base) && s <= t
    ensures AfterSet(v.base, v.open, s) <= AfterSet(w.base, w.open, t)
  {
    hide InAny;
  }

  // ----- the same leading references

  lemma {:induction false} RefsSame(nodes: set<Node>, a: Attrs, b: Attrs, x: Node)
    requires Wider(nodes, a, b) && x in nodes
    ensures Refs(x, a.nul, true) == Refs(x, b.nul, true)
    decreases x, 1
  {
    hide Wider;
    KidsAll(nodes, a, b, x);
    match x
    case Alt(kids) => RefsSameAlt(nodes, a, b, kids);
    case Cat(kids) => RefsSameCat(nodes, a, b, kids);
    case Rep(kid, _, _) => RefsSame(nodes, a, b, kid);
    case _ =>
  }

  lemma {:induction false} RefsSameAlt(nodes: set<Node>, a: Attrs, b: Attrs, kids: seq<Node>)
    requires Wider(nodes, a, b) && AllIn(nodes, kids)
    ensures RefsAlt(kids, a.nul, true) == RefsAlt(kids, b.nul, true)
    decreases kids, 0
  {
    hide Wider;
    if kids != [] {
      RefsSame(nodes, a, b, kids[0]);
      RefsSameAlt(nodes, a, b, kids[1..]);
    }
  }

  lemma {:induction false} RefsSameCat(nodes: set<Node>, a: Attrs, b: Attrs, kids: seq<Node>)
    requires Wider(nodes, a, b) && AllIn(nodes, kids)
    ensures RefsCat(kids, a.nul, true) == RefsCat(kids, b.nul, true)
    decreases kids, 0
  {
    if kids != [] {
      assert kids[0] in nodes;
      RefsSame(nodes, a, b, kids[0]);
      RefsSameCat(nodes, a, b, kids[1..]);
    }
  }

  lemma RankedSame(rules: Rules, nodes: set<Node>, a: Attrs, b: Attrs, done: seq<string>)
    requires Wider(nodes, a, b) && RulesIn(nodes, rules) && Ranked(rules, b, done)
    ensures Ranked(rules, a, done)
  {
    hide Wider, Refs;
    forall name | name in rules ensures LeadRefs(rules[name], a) == LeadRefs(rules[name], b) { RefsSame(nodes, a, b, rules[name]); }
  }

  // ----- a refusal stands

  /** Any true solution is wider than the least. */
  lemma LeastNarrow(g: Format, at: Attrs)
    requires Least(g.rules, at) && Ready(g)
    ensures Wider(at.fst.Keys, at, g.at) && RulesIn(at.fst.Keys, g.rules)
  {
    hide Deterministic;
    assert Closes(g.rules, g.at);
    assert Below(at, g.at);
    forall x | x in at.fst.Keys ensures x in at.nul <==> x in g.at.nul {
      if x in g.at.nul {
        assert SoundAt(g.rules, g.at, x);
        AttributesExact(g.rules, at, at.fst.Keys, x);
      }
    }
  }

  /** No format of a refused grammar is ready to run, whatever attributes it is given. */
  lemma RefusalFinal(g: Format, at: Attrs, why: Reason)
    requires Least(g.rules, at) && ReasonHolds(g.rules, at, why)
    ensures !Ready(g)
  {
    hide Ready, Least, ReasonHolds, Deterministic, Wider, Ranked, RulesIn;
    if Ready(g) {
      LeastNarrow(g, at);
      ReadyDecides(g);
      var done :| Ranked(g.rules, g.at, done);
      DeterministicLess(g.rules, at.fst.Keys, at, g.at);
      RankedSame(g.rules, at.fst.Keys, at, g.at, done);
      RefusedRanked(g.rules, at, why, done);
    }
  }

  lemma ReadyDecides(g: Format)
    requires Ready(g)
    ensures Deterministic(g.rules, g.at) && exists done :: Ranked(g.rules, g.at, done)
  {
  }

  lemma RefusedRanked(rules: Rules, at: Attrs, why: Reason, done: seq<string>)
    requires ReasonHolds(rules, at, why)
    ensures !(Deterministic(rules, at) && Ranked(rules, at, done))
  {
    hide Deterministic, Ranked;
    RefusedNot(rules, at, why);
    if Ranked(rules, at, done) {
      forall t ensures !LeftRecursive(rules, at, t) { RankedNotLeft(rules, at, done, t); }
    }
  }
}
