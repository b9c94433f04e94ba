/**
 A format's grammar as a value, and the language it has under RFC 5234 (sections 2.3
 and 3.1 to 3.8) and section 2.1 of RFC 7405: a node derives the texts its parse trees
 yield.  Nothing here speaks of FIRST sets or of a stack; go/formatgrammar.go is
 judged against it.
 */
module Grammar {
  import opened Ranges

  const TOP := 0x10ffff

  /** The nodes of go/formatgrammar.go:20-27; a rep's max below 0 is unbounded. */
  datatype Node =
    | Alt(kids: seq<Node>)
    | Cat(kids: seq<Node>)
    | Rep(kid: Node, min: nat, max: int)
    | Ref(name: string)
    | Str(cps: seq<int>, ci: bool)
    | Cls(chars: seq<Range>)

  type Rules = map<string, Node>

  type Text = seq<int>

  /** What the reader of a grammar hands on: no empty alternation, string or class, every
      name defined, and a rep's bounds the right way round. */
  predicate ReadNode(rules: Rules, n: Node) {
    match n
    case Alt(kids) => kids != [] && forall i :: 0 <= i < |kids| ==> ReadNode(rules, kids[i])
    case Cat(kids) => forall i :: 0 <= i < |kids| ==> ReadNode(rules, kids[i])
    case Rep(kid, min, max) => (max < 0 || min <= max) && ReadNode(rules, kid)
    case Ref(name) => name in rules
    case Str(cps, _) => cps != [] && forall i :: 0 <= i < |cps| ==> 0 <= cps[i] <= TOP
    case Cls(chars) =>
      && chars != []
      && (forall i :: 0 <= i < |chars| ==> 0 <= chars[i].lo <= chars[i].hi <= TOP)
      && (forall i, j :: 0 <= i < j < |chars| ==> chars[i].hi + 1 < chars[j].lo)
  }

  predicate ReadRules(rules: Rules) {
    forall name :: name in rules ==> ReadNode(rules, rules[name])
  }

  // ----- the language

  function Lower(c: int): int {
    if 0x41 <= c <= 0x5a then c + 0x20 else c
  }

  /** Section 2.3 of RFC 5234: a plain string ignores the case of ASCII letters. */
  predicate SameChar(want: int, got: int, ci: bool) {
    want == got || (ci && Lower(want) == Lower(got))
  }

  datatype Tree =
    | AltTree(pick: nat, t: Tree)
    | CatTree(ts: seq<Tree>)
    | RepTree(ts: seq<Tree>)
    | RefTree(t: Tree)
    | TextTree(w: Text)

  ghost predicate Parses(rules: Rules, n: Node, t: Tree)
    decreases t
  {
    match n
    case Alt(kids) => t.AltTree? && t.pick < |kids| && Parses(rules, kids[t.pick], t.t)
    case Cat(kids) => t.CatTree? && |t.ts| == |kids| && forall i :: 0 <= i < |kids| ==> Parses(rules, kids[i], t.ts[i])
    case Rep(kid, min, max) =>
      t.RepTree? && min <= |t.ts| && (max < 0 || |t.ts| <= max) && forall i :: 0 <= i < |t.ts| ==> Parses(rules, kid, t.ts[i])
    case Ref(name) => t.RefTree? && name in rules && Parses(rules, rules[name], t.t)
    case Str(cps, ci) => t.TextTree? && |t.w| == |cps| && forall i :: 0 <= i < |cps| ==> SameChar(cps[i], t.w[i], ci)
    case Cls(chars) => t.TextTree? && |t.w| == 1 && In(chars, t.w[0])
  }

  ghost function Yield(t: Tree): Text
    decreases t
  {
    match t
    case AltTree(_, k) => Yield(k)
    case CatTree(ts) => YieldAll(ts)
    case RepTree(ts) => YieldAll(ts)
    case RefTree(k) => Yield(k)
    case TextTree(w) => w
  }

  ghost function YieldAll(ts: seq<Tree>): Text
    decreases ts
  {
    if ts == [] then [] else Yield(ts[0]) + YieldAll(ts[1..])
  }

  ghost predicate Derives(rules: Rules, n: Node, w: Text) {
    exists t :: Parses(rules, n, t) && Yield(t) == w
  }

  ghost predicate Productive(rules: Rules, n: Node) {
    exists t :: Parses(rules, n, t)
  }

  /** Every rule derives some text. */
  ghost predicate AllProductive(rules: Rules) {
    forall name :: name in rules ==> Productive(rules, rules[name])
  }

  // ----- trees

  lemma DerivesOf(rules: Rules, n: Node, t: Tree)
    requires Parses(rules, n, t)
    ensures Derives(rules, n, Yield(t))
  {
  }

  lemma {:induction false} YieldAllPlus(a: seq<Tree>, b: seq<Tree>)
    ensures YieldAll(a + b) == YieldAll(a) + YieldAll(b)
    decreases |a|
  {
    if a == [] {
      assert a + b == b;
    } else {
      assert (a + b)[1..] == a[1..] + b;
      YieldAllPlus(a[1..], b);
    }
  }

  lemma YieldIs(ts: seq<Tree>)
    ensures Yield(CatTree(ts)) == YieldAll(ts) && Yield(RepTree(ts)) == YieldAll(ts)
  {
  }

  lemma KidsRead(rules: Rules, x: Node)
    requires ReadNode(rules, x)
    ensures forall i :: 0 <= i < |Kids(x)| ==> ReadNode(rules, Kids(x)[i])
  {
  }

  /** Under grammars every rule of which derives something, so does every node. */
  lemma {:induction false} NodeProductive(rules: Rules, n: Node) returns (t: Tree)
    requires ReadNode(rules, n) && AllProductive(rules)
    ensures Parses(rules, n, t)
    decreases n, 0
  {
    match n
    case Alt(kids) =>
      var k := NodeProductive(rules, kids[0]);
      t := AltTree(0, k);
    case Cat(kids) =>
      var ts := NodesProductive(rules, kids);
      t := CatTree(ts);
    case Rep(kid, min, max) =>
      var k := NodeProductive(rules, kid);
      t := RepTree(seq(min, _ => k));
    case Ref(name) =>
      var k :| Parses(rules, rules[name], k);
      t := RefTree(k);
    case Str(cps, ci) => t := TextTree(cps);
    case Cls(chars) =>
      t := TextTree([chars[0].lo]);
      assert In(chars, chars[0].lo);
  }

  lemma {:induction false} NodesProductive(rules: Rules, ns: seq<Node>) returns (ts: seq<Tree>)
    requires forall i :: 0 <= i < |ns| ==> ReadNode(rules, ns[i])
    requires AllProductive(rules)
    ensures |ts| == |ns| && forall i :: 0 <= i < |ns| ==> Parses(rules, ns[i], ts[i])
    decreases ns, 0
  {
    if ns == [] {
      ts := [];
    } else {
      var t := NodeProductive(rules, ns[0]);
      var rest := NodesProductive(rules, ns[1..]);
      ts := [t] + rest;
    }
  }

  // ----- the nodes of a grammar

  /** The nodes directly inside n. */
  function Kids(n: Node): seq<Node> {
    match n
    case Alt(kids) => kids
    case Cat(kids) => kids
    case Rep(kid, _, _) => [kid]
    case _ => []
  }

  /** A set of nodes as read that holds, with a node, those inside it and, with a name, its rule. */
  ghost predicate ClosedUnder(rules: Rules, nodes: set<Node>) {
    && (forall x :: x in nodes ==> ReadNode(rules, x))
    && (forall x, i {:trigger Kids(x)[i]} :: x in nodes && 0 <= i < |Kids(x)| ==> Kids(x)[i] in nodes)
    && (forall x {:trigger x.name} :: x in nodes && x.Ref? ==> x.name in rules && rules[x.name] in nodes)
  }
}
