/**
 The rules a node can reach before a character is read (reach, go/formatgrammar.go:589-613),
 and what having no cycle among them gives: a rank that falls along every such reference.
 */
module Leading {
  import opened Ranges
  import opened Grammar
  import opened Attributes
  import opened Walk

  ghost function Refs(x: Node, nul: set<Node>, leading: bool): set<string>
    decreases x, 1
  {
    match x
    case Ref(name) => {name}
    case Alt(kids) => RefsAlt(kids, nul, leading)
    case Cat(kids) => RefsCat(kids, nul, leading)
    case Rep(kid, _, _) => Refs(kid, nul, leading)
    case _ => {}
  }

  ghost function RefsAlt(kids: seq<Node>, nul: set<Node>, leading: bool): set<string>
    decreases kids, 0
  {
    if kids == [] then {} else Refs(kids[0], nul, leading) + RefsAlt(kids[1..], nul, leading)
  }

  /** Of a sequence, the leading references stop at the first item that must match something. */
  ghost function RefsCat(kids: seq<Node>, nul: set<Node>, leading: bool): set<string>
    decreases kids, 0
  {
    if kids == [] then {}
    else Refs(kids[0], nul, leading) + if leading && kids[0] !in nul then {} else RefsCat(kids[1..], nul, leading)
  }

  ghost function LeadRefs(x: Node, at: Attrs): set<string> {
    Refs(x, at.nul, true)
  }

  lemma {:induction false} RefsAltHas(kids: seq<Node>, nul: set<Node>, leading: bool, i: nat)
    requires i < |kids|
    ensures Refs(kids[i], nul, leading) <= RefsAlt(kids, nul, leading)
  {
    if 0 < i { RefsAltHas(kids[1..], nul, leading, i - 1); }
  }

  lemma {:induction false} RefsCatHas(kids: seq<Node>, nul: set<Node>, leading: bool, i: nat)
    requires i < |kids| && forall k :: 0 <= k < i ==> kids[k] in nul
    ensures Refs(kids[i], nul, leading) <= RefsCat(kids, nul, leading)
  {
    if 0 < i {
      assert forall k :: 0 <= k < i - 1 ==> kids[1..][k] == kids[k + 1];
      RefsCatHas(kids[1..], nul, leading, i - 1);
    }
  }

  /** Every leading reference of a rule stands earlier in the list than the rule. */
  ghost predicate Ranked(rules: Rules, at: Attrs, done: seq<string>) {
    && (forall name :: name in rules ==> name in done)
    && (forall name, m :: name in rules && m in LeadRefs(rules[name], at) ==> m in rules && Rank(done, m) < Rank(done, name))
  }

  /** The leading references of x rank below r. */
  ghost predicate Under(at: Attrs, done: seq<string>, x: Node, r: nat) {
    forall m :: m in LeadRefs(x, at) ==> Rank(done, m) < r
  }

  ghost predicate UnderCat(at: Attrs, done: seq<string>, kids: seq<Node>, r: nat) {
    forall m :: m in RefsCat(kids, at.nul, true) ==> Rank(done, m) < r
  }

  lemma {:induction false} RefsKnown(rules: Rules, x: Node, nul: set<Node>, leading: bool)
    requires ReadNode(rules, x)
    ensures forall m :: m in Refs(x, nul, leading) ==> m in rules
    decreases x, 1
  {
    match x
    case Alt(kids) => RefsKnownAlt(rules, kids, nul, leading);
    case Cat(kids) => RefsKnownCat(rules, kids, nul, leading);
    case Rep(kid, _, _) => RefsKnown(rules, kid, nul, leading);
    case _ =>
  }

  lemma {:induction false} RefsKnownAlt(rules: Rules, kids: seq<Node>, nul: set<Node>, leading: bool)
    requires forall i :: 0 <= i < |kids| ==> ReadNode(rules, kids[i])
    ensures forall m :: m in RefsAlt(kids, nul, leading) ==> m in rules
    decreases kids, 0
  {
    if kids != [] {
      RefsKnown(rules, kids[0], nul, leading);
      RefsKnownAlt(rules, kids[1..], nul, leading);
    }
  }

  lemma {:induction false} RefsKnownCat(rules: Rules, kids: seq<Node>, nul: set<Node>, leading: bool)
    requires forall i :: 0 <= i < |kids| ==> ReadNode(rules, kids[i])
    ensures forall m :: m in RefsCat(kids, nul, leading) ==> m in rules
    decreases kids, 0
  {
    if kids != [] {
      RefsKnown(rules, kids[0], nul, leading);
      RefsKnownCat(rules, kids[1..], nul, leading);
    }
  }

  /** Every node's leading references rank below the number of rules listed. */
  lemma UnderAll(rules: Rules, at: Attrs, done: seq<string>, x: Node)
    requires Ranked(rules, at, done) && ReadNode(rules, x)
    ensures Under(at, done, x, |done|)
  {
    RefsKnown(rules, x, at.nul, true);
    forall m | m in LeadRefs(x, at) ensures Rank(done, m) < |done| { assert m in rules; }
  }
}
