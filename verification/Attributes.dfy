/**
 The attributes of a grammar's nodes (go/formatgrammar.go:589-675): whether a node can
 match nothing, the characters it can begin with, and whether it is one character from
 a set.  The loop runs to a fixpoint; what the fixpoint means is proved against the
 parse trees of Grammar.
 */
module Attributes {
  import opened Ranges
  import opened Grammar

  /** nul, fst and one: a node absent from fst has the empty set. */
  datatype Attrs = Attrs(nul: set<Node>, fst: map<Node, seq<Range>>, one: set<Node>)

  function F(at: Attrs, x: Node): seq<Range> {
    if x in at.fst then at.fst[x] else []
  }

  function Firsts(at: Attrs, xs: seq<Node>): (out: seq<seq<Range>>)
    ensures |out| == |xs| && forall i :: 0 <= i < |xs| ==> out[i] == F(at, xs[i])
  {
    seq(|xs|, i requires 0 <= i < |xs| => F(at, xs[i]))
  }

  // ----- the equations

  ghost predicate NulOf(rules: Rules, at: Attrs, x: Node) {
    match x
    case Alt(kids) => exists i :: 0 <= i < |kids| && kids[i] in at.nul
    case Cat(kids) => forall i :: 0 <= i < |kids| ==> kids[i] in at.nul
    case Rep(kid, min, max) => max == 0 || min == 0 || kid in at.nul
    case Ref(name) => name in rules && rules[name] in at.nul
    case _ => false
  }

  ghost predicate OneOf(rules: Rules, at: Attrs, x: Node) {
    match x
    case Alt(kids) => forall i :: 0 <= i < |kids| ==> kids[i] in at.one
    case Cat(kids) => false
    case Rep(kid, min, max) => false
    case Ref(name) => name in rules && rules[name] in at.one
    case Str(cps, _) => |cps| == 1
    case Cls(_) => true
  }

  /** A sequence begins with the characters of its items up to the first that must match something. */
  ghost predicate LeadHas(at: Attrs, items: seq<Node>, c: int) {
    exists j :: 0 <= j < |items| && In(F(at, items[j]), c) && forall i :: 0 <= i < j ==> items[i] in at.nul
  }

  ghost predicate FirstHas(rules: Rules, at: Attrs, x: Node, c: int) {
    match x
    case Alt(kids) => InAny(Firsts(at, kids), c)
    case Cat(kids) => LeadHas(at, kids, c)
    case Rep(kid, min, max) => max != 0 && In(F(at, kid), c)
    case Ref(name) => name in rules && In(F(at, rules[name]), c)
    case Str(cps, ci) => cps != [] && SameChar(cps[0], c, ci)
    case Cls(chars) => In(chars, c)
  }

  ghost predicate GoodSet(rs: seq<Range>) {
    Canonical(rs) && Within(rs, TOP)
  }

  ghost predicate GoodSets(at: Attrs) {
    forall x :: x in at.fst ==> GoodSet(at.fst[x])
  }

  ghost predicate Solved(rules: Rules, at: Attrs, x: Node) {
    && (x in at.nul <==> NulOf(rules, at, x))
    && (x in at.one <==> OneOf(rules, at, x))
    && (forall c :: In(F(at, x), c) <==> FirstHas(rules, at, x, c))
  }

  /** The equations hold at every node. */
  ghost predicate Fixpoint(rules: Rules, at: Attrs, nodes: set<Node>) {
    && GoodSets(at)
    && forall x :: x in nodes ==> Solved(rules, at, x)
  }

  // ----- what the attributes mean

  ghost predicate Starts(rules: Rules, x: Node, c: int) {
    exists w :: Derives(rules, x, [c] + w)
  }

  ghost predicate IsOne(rules: Rules, x: Node, chars: seq<Range>) {
    forall w :: Derives(rules, x, w) <==> |w| == 1 && In(chars, w[0])
  }

  /** Nothing the attributes claim of x is false. */
  ghost predicate SoundAt(rules: Rules, at: Attrs, x: Node) {
    && (x in at.nul ==> Derives(rules, x, []))
    && (x in at.one ==> IsOne(rules, x, F(at, x)))
    && (AllProductive(rules) ==> forall c :: In(F(at, x), c) ==> Starts(rules, x, c))
  }

  ghost predicate Sound(rules: Rules, at: Attrs) {
    forall x :: SoundAt(rules, at, x)
  }

  // ----- completeness of a fixpoint, by induction on parse trees

  lemma {:induction false} NulComplete(rules: Rules, at: Attrs, nodes: set<Node>, x: Node, t: Tree)
    requires Fixpoint(rules, at, nodes) && ClosedUnder(rules, nodes) && x in nodes
    requires Parses(rules, x, t) && Yield(t) == []
    ensures x in at.nul
    decreases t
  {
    assert Solved(rules, at, x);
    match x
    case Alt(kids) =>
      assert kids[t.pick] == Kids(x)[t.pick];
      NulComplete(rules, at, nodes, kids[t.pick], t.t);
    case Cat(kids) =>
      forall i | 0 <= i < |kids| ensures kids[i] in at.nul {
        assert kids[i] == Kids(x)[i];
        EmptyPieces(t.ts, i);
        NulComplete(rules, at, nodes, kids[i], t.ts[i]);
      }
    case Rep(kid, min, max) =>
      if t.ts != [] {
        assert kid == Kids(x)[0];
        EmptyPieces(t.ts, 0);
        NulComplete(rules, at, nodes, kid, t.ts[0]);
      }
    case Ref(name) => NulComplete(rules, at, nodes, rules[name], t.t);
    case Str(_, _) => assert false;
    case Cls(_) => assert false;
  }

  lemma {:induction false} EmptyPieces(ts: seq<Tree>, i: nat)
    requires i < |ts| && YieldAll(ts) == []
    ensures Yield(ts[i]) == []
  {
    if 0 < i { EmptyPieces(ts[1..], i - 1); }
  }

  /** The first piece that yields something. */
  lemma {:induction false} FirstPiece(ts: seq<Tree>) returns (j: nat)
    requires YieldAll(ts) != []
    ensures j < |ts| && Yield(ts[j]) != [] && YieldAll(ts)[0] == Yield(ts[j])[0]
    ensures forall i :: 0 <= i < j ==> Yield(ts[i]) == []
  {
    if Yield(ts[0]) != [] {
      j := 0;
    } else {
      var k := FirstPiece(ts[1..]);
      j := k + 1;
      forall i | 0 <= i < j ensures Yield(ts[i]) == [] {
        if 0 < i { assert ts[i] == ts[1..][i - 1]; }
      }
    }
  }

  lemma {:induction false} FirstComplete(rules: Rules, at: Attrs, nodes: set<Node>, x: Node, t: Tree)
    requires Fixpoint(rules, at, nodes) && ClosedUnder(rules, nodes) && x in nodes
    requires Parses(rules, x, t) && Yield(t) != []
    ensures In(F(at, x), Yield(t)[0])
    decreases t
  {
    assert Solved(rules, at, x);
    match x
    case Alt(kids) =>
      assert kids[t.pick] == Kids(x)[t.pick];
      FirstComplete(rules, at, nodes, kids[t.pick], t.t);
      assert In(Firsts(at, kids)[t.pick], Yield(t)[0]);
    case Cat(kids) =>
      var j := FirstPiece(t.ts);
      assert kids[j] == Kids(x)[j];
      FirstComplete(rules, at, nodes, kids[j], t.ts[j]);
      forall i | 0 <= i < j ensures kids[i] in at.nul {
        assert kids[i] == Kids(x)[i];
        NulComplete(rules, at, nodes, kids[i], t.ts[i]);
      }
    case Rep(kid, min, max) =>
      var j := FirstPiece(t.ts);
      assert kid == Kids(x)[0];
      FirstComplete(rules, at, nodes, kid, t.ts[j]);
    case Ref(name) => FirstComplete(rules, at, nodes, rules[name], t.t);
    case Str(_, _) =>
    case Cls(_) =>
  }

  /** At a sound fixpoint: nullable exactly where the empty text is derived, FIRST every
      first character, exactly those where every rule derives something, and a one-character
      node exactly the characters of its FIRST. */
  lemma AttributesExact(rules: Rules, at: Attrs, nodes: set<Node>, x: Node)
    requires Fixpoint(rules, at, nodes) && ClosedUnder(rules, nodes) && x in nodes && Sound(rules, at)
    ensures x in at.nul <==> Derives(rules, x, [])
    ensures forall c :: Starts(rules, x, c) ==> In(F(at, x), c)
    ensures AllProductive(rules) ==> forall c :: In(F(at, x), c) <==> Starts(rules, x, c)
    ensures x in at.one ==> forall w :: Derives(rules, x, w) <==> |w| == 1 && In(F(at, x), w[0])
  {
    assert SoundAt(rules, at, x);
    if Derives(rules, x, []) {
      var t :| Parses(rules, x, t) && Yield(t) == [];
      NulComplete(rules, at, nodes, x, t);
    }
    forall c | Starts(rules, x, c) ensures In(F(at, x), c) {
      var w :| Derives(rules, x, [c] + w);
      var t :| Parses(rules, x, t) && Yield(t) == [c] + w;
      FirstComplete(rules, at, nodes, x, t);
    }
  }

  // ----- soundness of one application of the equations

  lemma NulStep(rules: Rules, at: Attrs, x: Node)
    requires Sound(rules, at) && NulOf(rules, at, x) && ReadNode(rules, x)
    ensures Derives(rules, x, [])
  {
    match x
    case Alt(kids) =>
      var i :| 0 <= i < |kids| && kids[i] in at.nul;
      var t := EmptyTree(rules, at, kids[i]);
      DerivesOf(rules, x, AltTree(i, t));
    case Cat(kids) =>
      var ts := EmptyTrees(rules, at, kids);
      DerivesOf(rules, x, CatTree(ts));
    case Rep(kid, min, max) =>
      if max == 0 || min == 0 {
        assert YieldAll([]) == [];
        DerivesOf(rules, x, RepTree([]));
      } else {
        var t := EmptyTree(rules, at, kid);
        var ts := seq(min, _ => t);
        AllEmpty(ts);
        DerivesOf(rules, x, RepTree(ts));
      }
    case Ref(name) =>
      var t := EmptyTree(rules, at, rules[name]);
      DerivesOf(rules, x, RefTree(t));
  }

  lemma EmptyTree(rules: Rules, at: Attrs, x: Node) returns (t: Tree)
    requires Sound(rules, at) && x in at.nul
    ensures Parses(rules, x, t) && Yield(t) == []
  {
    assert SoundAt(rules, at, x);
    t :| Parses(rules, x, t) && Yield(t) == [];
  }

  lemma {:induction false} EmptyTrees(rules: Rules, at: Attrs, xs: seq<Node>) returns (ts: seq<Tree>)
    requires Sound(rules, at) && forall i :: 0 <= i < |xs| ==> xs[i] in at.nul
    ensures |ts| == |xs| && YieldAll(ts) == []
    ensures forall i :: 0 <= i < |xs| ==> Parses(rules, xs[i], ts[i])
  {
    if xs == [] {
      ts := [];
    } else {
      var t := EmptyTree(rules, at, xs[0]);
      var rest := EmptyTrees(rules, at, xs[1..]);
      ts := [t] + rest;
      assert ts[1..] == rest;
    }
  }

  lemma {:induction false} AllEmpty(ts: seq<Tree>)
    requires forall i :: 0 <= i < |ts| ==> Yield(ts[i]) == []
    ensures YieldAll(ts) == []
  {
    if ts != [] { AllEmpty(ts[1..]); }
  }

  lemma OneStep(rules: Rules, at: Attrs, x: Node, s: seq<Range>)
    requires Sound(rules, at) && OneOf(rules, at, x) && ReadNode(rules, x)
    requires forall c :: In(s, c) <==> FirstHas(rules, at, x, c)
    ensures IsOne(rules, x, s)
  {
    forall w ensures Derives(rules, x, w) <==> |w| == 1 && In(s, w[0]) {
      if Derives(rules, x, w) {
        var t :| Parses(rules, x, t) && Yield(t) == w;
        OneThere(rules, at, x, t);
      }
      if |w| == 1 && In(s, w[0]) {
        OneBack(rules, at, x, w);
      }
    }
  }

  lemma OneThere(rules: Rules, at: Attrs, x: Node, t: Tree)
    requires Sound(rules, at) && OneOf(rules, at, x) && Parses(rules, x, t)
    ensures |Yield(t)| == 1 && FirstHas(rules, at, x, Yield(t)[0])
  {
    match x
    case Alt(kids) =>
      var k := kids[t.pick];
      assert SoundAt(rules, at, k) && Derives(rules, k, Yield(t.t));
      assert In(Firsts(at, kids)[t.pick], Yield(t)[0]);
    case Ref(name) => assert SoundAt(rules, at, rules[name]) && Derives(rules, rules[name], Yield(t.t));
    case Str(cps, ci) =>
    case Cls(chars) =>
  }

  lemma OneBack(rules: Rules, at: Attrs, x: Node, w: Text)
    requires Sound(rules, at) && OneOf(rules, at, x)
    requires |w| == 1 && FirstHas(rules, at, x, w[0])
    ensures Derives(rules, x, w)
  {
    match x
    case Alt(kids) =>
      var i :| 0 <= i < |kids| && In(Firsts(at, kids)[i], w[0]);
      assert SoundAt(rules, at, kids[i]) && Derives(rules, kids[i], w);
      var t :| Parses(rules, kids[i], t) && Yield(t) == w;
      DerivesOf(rules, x, AltTree(i, t));
    case Ref(name) =>
      assert SoundAt(rules, at, rules[name]) && Derives(rules, rules[name], w);
      var t :| Parses(rules, rules[name], t) && Yield(t) == w;
      DerivesOf(rules, x, RefTree(t));
    case Str(cps, ci) => DerivesOf(rules, x, TextTree(w));
    case Cls(chars) => DerivesOf(rules, x, TextTree(w));
  }

  lemma FirstStep(rules: Rules, at: Attrs, x: Node, c: int)
    requires Sound(rules, at) && AllProductive(rules) && ReadNode(rules, x) && FirstHas(rules, at, x, c)
    ensures Starts(rules, x, c)
  {
    match x
    case Alt(kids) =>
      var i :| 0 <= i < |kids| && In(Firsts(at, kids)[i], c);
      var w, t := StartTree(rules, at, kids[i], c);
      DerivesOf(rules, x, AltTree(i, t));
    case Cat(kids) => FirstStepCat(rules, at, x, c);
    case Rep(kid, min, max) => FirstStepRep(rules, at, x, c);
    case Ref(name) =>
      var w, t := StartTree(rules, at, rules[name], c);
      DerivesOf(rules, x, RefTree(t));
    case Str(cps, ci) =>
      var w := [c] + cps[1..];
      DerivesOf(rules, x, TextTree(w));
    case Cls(chars) =>
      assert [c] + [] == [c];
      DerivesOf(rules, x, TextTree([c]));
  }

  lemma FirstStepCat(rules: Rules, at: Attrs, x: Node, c: int)
    requires Sound(rules, at) && AllProductive(rules) && ReadNode(rules, x) && x.Cat? && LeadHas(at, x.kids, c)
    ensures Starts(rules, x, c)
  {
    hide In, Sound, Parses, Yield, YieldAll, ReadNode;
    KidsRead(rules, x);
    var kids := x.kids;
    assert kids == Kids(x);
    var j :| 0 <= j < |kids| && In(F(at, kids[j]), c) && forall i :: 0 <= i < j ==> kids[i] in at.nul;
    var w, t := StartTree(rules, at, kids[j], c);
    var before := EmptyTrees(rules, at, kids[..j]);
    var beyond := NodesProductive(rules, kids[j + 1..]);
    var ts := before + [t] + beyond;
    CatParses(rules, kids, j, before, t, beyond);
    Around(before, t, beyond, [c] + w);
    YieldIs(ts);
    assert [c] + w + YieldAll(beyond) == [c] + (w + YieldAll(beyond));
    DerivesOf(rules, x, CatTree(ts));
  }

  lemma CatParses(rules: Rules, kids: seq<Node>, j: nat, before: seq<Tree>, t: Tree, beyond: seq<Tree>)
    requires j < |kids| && |before| == j && |beyond| == |kids| - j - 1
    requires forall i :: 0 <= i < j ==> Parses(rules, kids[..j][i], before[i])
    requires Parses(rules, kids[j], t)
    requires forall i :: 0 <= i < |beyond| ==> Parses(rules, kids[j + 1..][i], beyond[i])
    ensures Parses(rules, Cat(kids), CatTree(before + [t] + beyond))
  {
    var ts := before + [t] + beyond;
    forall i | 0 <= i < |kids| ensures Parses(rules, kids[i], ts[i]) {
      if i < j { assert kids[i] == kids[..j][i] && ts[i] == before[i]; }
      else if j < i { assert kids[i] == kids[j + 1..][i - j - 1] && ts[i] == beyond[i - j - 1]; }
    }
  }

  lemma Around(before: seq<Tree>, t: Tree, beyond: seq<Tree>, w: Text)
    requires YieldAll(before) == [] && Yield(t) == w
    ensures YieldAll(before + [t] + beyond) == w + YieldAll(beyond)
  {
    YieldAllPlus(before + [t], beyond);
    YieldAllPlus(before, [t]);
    assert YieldAll([t]) == Yield(t) + YieldAll([]);
  }

  lemma FirstStepRep(rules: Rules, at: Attrs, x: Node, c: int)
    requires Sound(rules, at) && AllProductive(rules) && ReadNode(rules, x) && x.Rep?
    requires x.max != 0 && In(F(at, x.kid), c)
    ensures Starts(rules, x, c)
  {
    var w, t := StartTree(rules, at, x.kid, c);
    var k := NodeProductive(rules, x.kid);
    var more := seq(if x.min == 0 then 0 else x.min - 1, _ => k);
    var ts := [t] + more;
    assert ts[1..] == more;
    assert Yield(RepTree(ts)) == [c] + (w + YieldAll(more));
    DerivesOf(rules, x, RepTree(ts));
  }

  lemma StartTree(rules: Rules, at: Attrs, x: Node, c: int) returns (w: Text, t: Tree)
    requires Sound(rules, at) && AllProductive(rules) && In(F(at, x), c)
    ensures Parses(rules, x, t) && Yield(t) == [c] + w
  {
    assert SoundAt(rules, at, x);
    w :| Derives(rules, x, [c] + w);
    t :| Parses(rules, x, t) && Yield(t) == [c] + w;
  }
}
