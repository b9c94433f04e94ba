/**
 What can follow each place of a grammar (flow, go/formatgrammar.go:681-719), FOLLOW as
 the sets it stands for, and the determinism checks read over them.
 */
module Flow {
  import opened Ranges
  import opened Grammar
  import opened Attributes

  /** A node met on the way through a rule: the sets that can follow it, and whether the
      end of the rule can. */
  datatype Visit = Visit(x: Node, base: seq<seq<Range>>, open: bool)

  /** What can follow the place in front of items. */
  function TailOf(at: Attrs, items: seq<Node>, base: seq<seq<Range>>, open: bool): (seq<seq<Range>>, bool) {
    if items == [] then (base, open)
    else if items[0] in at.nul then
      var (b, o) := TailOf(at, items[1..], base, open);
      ([F(at, items[0])] + b, o)
    else ([F(at, items[0])], false)
  }

  predicate Many(x: Node)
    requires x.Rep?
  {
    x.max < 0 || 1 < x.max
  }

  function Visits(at: Attrs, x: Node, base: seq<seq<Range>>, open: bool): seq<Visit>
    decreases x, 1
  {
    [Visit(x, base, open)] +
    match x
    case Alt(kids) => VisitsAlt(at, kids, base, open)
    case Cat(kids) => VisitsCat(at, kids, base, open)
    case Rep(kid, _, _) => Visits(at, kid, if Many(x) then [F(at, kid)] + base else base, open)
    case _ => []
  }

  function VisitsAlt(at: Attrs, kids: seq<Node>, base: seq<seq<Range>>, open: bool): seq<Visit>
    decreases kids, 0
  {
    if kids == [] then [] else Visits(at, kids[0], base, open) + VisitsAlt(at, kids[1..], base, open)
  }

  function VisitsCat(at: Attrs, kids: seq<Node>, base: seq<seq<Range>>, open: bool): seq<Visit>
    decreases kids, 0
  {
    if kids == [] then []
    else
      var (b, o) := TailOf(at, kids[1..], base, open);
      Visits(at, kids[0], b, o) + VisitsCat(at, kids[1..], base, open)
  }

  /** Every visit of a rule, its end open. */
  function RuleVisits(at: Attrs, x: Node): seq<Visit> {
    Visits(at, x, [], true)
  }

  // ----- FOLLOW

  /** What can follow a visit, given what can follow the rule it is in. */
  ghost function AfterSet(base: seq<seq<Range>>, open: bool, after: iset<int>): (s: iset<int>)
    ensures forall c :: c in s <==> InAny(base, c) || (open && c in after)
  {
    iset c | InAny(base, c) || (open && c in after)
  }

  /** Why a character can follow a rule: it begins what stands behind a reference to it,
      or the reference can end a rule the character can follow. */
  datatype Why = Behind(rule: string, v: nat) | AtEnd(rule: string, v: nat, why: Why)

  ghost predicate Shows(rules: Rules, at: Attrs, w: Why, name: string, c: int) {
    && w.rule in rules
    && w.v < |RuleVisits(at, rules[w.rule])|
    && var v := RuleVisits(at, rules[w.rule])[w.v];
       && v.x == Ref(name)
       && match w
          case Behind(_, _) => InAny(v.base, c)
          case AtEnd(rule, _, why) => v.open && Shows(rules, at, why, rule, c)
  }

  ghost predicate CanFollow(rules: Rules, at: Attrs, name: string, c: int) {
    exists w :: Shows(rules, at, w, name, c)
  }

  /** FOLLOW of a rule, by every reference to it anywhere in the grammar. */
  ghost function Follow(rules: Rules, at: Attrs, name: string): (s: iset<int>)
    ensures forall c :: c in s <==> CanFollow(rules, at, name, c)
  {
    iset c | CanFollow(rules, at, name, c)
  }

  lemma FollowClosed(rules: Rules, at: Attrs, rule: string, i: nat)
    requires rule in rules && i < |RuleVisits(at, rules[rule])| && RuleVisits(at, rules[rule])[i].x.Ref?
    ensures var v := RuleVisits(at, rules[rule])[i];
            AfterSet(v.base, v.open, Follow(rules, at, rule)) <= Follow(rules, at, v.x.name)
  {
    var v := RuleVisits(at, rules[rule])[i];
    forall c | c in AfterSet(v.base, v.open, Follow(rules, at, rule)) ensures c in Follow(rules, at, v.x.name) {
      if InAny(v.base, c) {
        assert Shows(rules, at, Behind(rule, i), v.x.name, c);
        assert CanFollow(rules, at, v.x.name, c);
      } else {
        assert CanFollow(rules, at, rule, c);
        var w :| Shows(rules, at, w, rule, c);
        assert Shows(rules, at, AtEnd(rule, i, w), v.x.name, c);
      }
    }
  }

  // ----- the checks

  ghost predicate TwoEmpty(at: Attrs, kids: seq<Node>) {
    exists i, j :: 0 <= i < j < |kids| && kids[i] in at.nul && kids[j] in at.nul
  }

  ghost predicate SomeEmpty(at: Attrs, kids: seq<Node>) {
    exists i :: 0 <= i < |kids| && kids[i] in at.nul
  }

  /** One character decides the choice x makes, with after what can follow it. */
  ghost predicate Decided(at: Attrs, x: Node, after: iset<int>) {
    match x
    case Alt(kids) =>
      && (forall c :: !HeldTwice(Firsts(at, kids), c))
      && !TwoEmpty(at, kids)
      && (SomeEmpty(at, kids) ==> forall c :: InAny(Firsts(at, kids), c) ==> c !in after)
    case Rep(kid, min, max) => min != max ==> forall c :: In(F(at, kid), c) ==> c !in after
    case _ => true
  }

  /** Every choice of every rule is decided, by FOLLOW of every rule. */
  ghost predicate Deterministic(rules: Rules, at: Attrs) {
    forall rule, i :: rule in rules && 0 <= i < |RuleVisits(at, rules[rule])| ==>
      var v := RuleVisits(at, rules[rule])[i];
      Decided(at, v.x, AfterSet(v.base, v.open, Follow(rules, at, rule)))
  }

  // ----- the same, along the tree of a node

  ghost function TailSet(at: Attrs, items: seq<Node>, after: iset<int>): iset<int> {
    if items == [] then after
    else Chars(F(at, items[0])) + if items[0] in at.nul then TailSet(at, items[1..], after) else iset{}
  }

  ghost function InRep(at: Attrs, x: Node, after: iset<int>): iset<int>
    requires x.Rep?
  {
    if Many(x) then Chars(F(at, x.kid)) + after else after
  }

  /** x and every node in it decided, x being followed by after. */
  ghost predicate Checked(rules: Rules, at: Attrs, x: Node, after: iset<int>)
    decreases x, 1
  {
    && Decided(at, x, after)
    && match x
       case Alt(kids) => forall i :: 0 <= i < |kids| ==> Checked(rules, at, kids[i], after)
       case Cat(kids) => CheckedAll(rules, at, kids, after)
       case Rep(kid, _, _) => Checked(rules, at, kid, InRep(at, x, after))
       case Ref(name) => after <= Follow(rules, at, name)
       case _ => true
  }

  ghost predicate CheckedAll(rules: Rules, at: Attrs, items: seq<Node>, after: iset<int>)
    decreases items, 0
  {
    items != [] ==>
      && Checked(rules, at, items[0], TailSet(at, items[1..], after))
      && CheckedAll(rules, at, items[1..], after)
  }

  lemma {:induction false} TailOfSet(at: Attrs, items: seq<Node>, base: seq<seq<Range>>, open: bool, t: iset<int>)
    ensures var (b, o) := TailOf(at, items, base, open);
            AfterSet(b, o, t) == TailSet(at, items, AfterSet(base, open, t))
  {
    if items != [] {
      var (b, o) := TailOf(at, items[1..], base, open);
      TailOfSet(at, items[1..], base, open, t);
      forall c ensures InAny([F(at, items[0])] + b, c) <==> In(F(at, items[0]), c) || InAny(b, c) { InAnyCons(F(at, items[0]), b, c); }
      forall c ensures InAny([F(at, items[0])], c) <==> In(F(at, items[0]), c) {
        assert InAny([F(at, items[0])], c) ==> In(F(at, items[0]), c);
        assert In(F(at, items[0]), c) ==> In([F(at, items[0])][0], c);
      }
    }
  }

  lemma InAnyCons(s: seq<Range>, b: seq<seq<Range>>, c: int)
    ensures InAny([s] + b, c) <==> In(s, c) || InAny(b, c)
  {
    if In(s, c) { assert In(([s] + b)[0], c); }
    if InAny(b, c) {
      var i :| 0 <= i < |b| && In(b[i], c);
      assert In(([s] + b)[i + 1], c);
    }
  }

  ghost predicate VisitGood(rules: Rules, at: Attrs, v: Visit, t: iset<int>) {
    && Decided(at, v.x, AfterSet(v.base, v.open, t))
    && (v.x.Ref? ==> AfterSet(v.base, v.open, t) <= Follow(rules, at, v.x.name))
  }

  lemma {:induction false} VisitsChecked(rules: Rules, at: Attrs, x: Node, base: seq<seq<Range>>, open: bool, t: iset<int>)
    requires forall v :: v in Visits(at, x, base, open) ==> VisitGood(rules, at, v, t)
    ensures Checked(rules, at, x, AfterSet(base, open, t))
    decreases x, 1
  {
    assert Visit(x, base, open) in Visits(at, x, base, open);
    assert VisitGood(rules, at, Visit(x, base, open), t);
    match x
    case Alt(kids) => VisitsCheckedAlt(rules, at, kids, base, open, t);
    case Cat(kids) => VisitsCheckedCat(rules, at, kids, base, open, t);
    case Rep(kid, _, _) =>
      var b := if Many(x) then [F(at, kid)] + base else base;
      VisitsChecked(rules, at, kid, b, open, t);
      forall c ensures InAny([F(at, kid)] + base, c) <==> In(F(at, kid), c) || InAny(base, c) { InAnyCons(F(at, kid), base, c); }
      assert AfterSet(b, open, t) == InRep(at, x, AfterSet(base, open, t));
    case _ =>
  }

  lemma {:induction false} VisitsCheckedAlt(rules: Rules, at: Attrs, kids: seq<Node>, base: seq<seq<Range>>, open: bool, t: iset<int>)
    requires forall v :: v in VisitsAlt(at, kids, base, open) ==> VisitGood(rules, at, v, t)
    ensures forall i :: 0 <= i < |kids| ==> Checked(rules, at, kids[i], AfterSet(base, open, t))
    decreases kids, 0
  {
    if kids != [] {
      VisitsChecked(rules, at, kids[0], base, open, t);
      VisitsCheckedAlt(rules, at, kids[1..], base, open, t);
      assert forall i :: 1 <= i < |kids| ==> kids[i] == kids[1..][i - 1];
    }
  }

  lemma {:induction false} VisitsCheckedCat(rules: Rules, at: Attrs, kids: seq<Node>, base: seq<seq<Range>>, open: bool, t: iset<int>)
    requires forall v :: v in VisitsCat(at, kids, base, open) ==> VisitGood(rules, at, v, t)
    ensures CheckedAll(rules, at, kids, AfterSet(base, open, t))
    decreases kids, 0
  {
    if kids != [] {
      var (b, o) := TailOf(at, kids[1..], base, open);
      VisitsChecked(rules, at, kids[0], b, o, t);
      TailOfSet(at, kids[1..], base, open, t);
      VisitsCheckedCat(rules, at, kids[1..], base, open, t);
    }
  }

  /** A deterministic grammar's rules are checked against their own FOLLOW. */
  lemma RuleChecked(rules: Rules, at: Attrs, rule: string)
    requires Deterministic(rules, at) && rule in rules
    ensures Checked(rules, at, rules[rule], Follow(rules, at, rule))
  {
    var t := Follow(rules, at, rule);
    forall v | v in RuleVisits(at, rules[rule]) ensures VisitGood(rules, at, v, t) {
      var i :| 0 <= i < |RuleVisits(at, rules[rule])| && RuleVisits(at, rules[rule])[i] == v;
      if v.x.Ref? { FollowClosed(rules, at, rule, i); }
    }
    VisitsChecked(rules, at, rules[rule], [], true, t);
    assert AfterSet([], true, t) == t;
  }

  // ----- less can follow: still checked

  lemma DecidedLess(at: Attrs, x: Node, a: iset<int>, b: iset<int>)
    requires Decided(at, x, a) && b <= a
    ensures Decided(at, x, b)
  {
  }

  lemma {:induction false} CheckedLess(rules: Rules, at: Attrs, x: Node, a: iset<int>, b: iset<int>)
    requires Checked(rules, at, x, a) && b <= a
    ensures Checked(rules, at, x, b)
    decreases x, 1
  {
    DecidedLess(at, x, a, b);
    match x
    case Alt(kids) =>
      forall i | 0 <= i < |kids| ensures Checked(rules, at, kids[i], b) { CheckedLess(rules, at, kids[i], a, b); }
    case Cat(kids) => CheckedAllLess(rules, at, kids, a, b);
    case Rep(kid, _, _) => CheckedLess(rules, at, kid, InRep(at, x, a), InRep(at, x, b));
    case _ =>
  }

  lemma {:induction false} CheckedAllLess(rules: Rules, at: Attrs, items: seq<Node>, a: iset<int>, b: iset<int>)
    requires CheckedAll(rules, at, items, a) && b <= a
    ensures CheckedAll(rules, at, items, b)
    decreases items, 0
  {
    if items != [] {
      TailSetLess(at, items[1..], a, b);
      CheckedLess(rules, at, items[0], TailSet(at, items[1..], a), TailSet(at, items[1..], b));
      CheckedAllLess(rules, at, items[1..], a, b);
    }
  }

  lemma {:induction false} TailSetLess(at: Attrs, items: seq<Node>, a: iset<int>, b: iset<int>)
    requires b <= a
    ensures TailSet(at, items, b) <= TailSet(at, items, a)
  {
    if items != [] { TailSetLess(at, items[1..], a, b); }
  }
}
