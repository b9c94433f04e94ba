/**
 The attribute loop of fAnalyse (go/formatgrammar.go:529-675): the leaves once, the
 other nodes round after round until nothing moves.
 */
module AttributeLoop {
  import opened Ranges
  import opened Grammar
  import opened Attributes

  // ----- the pieces the loop calls

  /** A character and, where case is ignored, its other case (fCaseOf). */
  method CaseOf(cp: int, ci: bool) returns (out: seq<Range>)
    requires 0 <= cp <= TOP
    ensures GoodSet(out)
    ensures forall c :: In(out, c) <==> SameChar(cp, c, ci)
  {
    var other := cp;
    if ci && 0x41 <= cp <= 0x5a {
      other := cp + 0x20;
    } else if ci && 0x61 <= cp <= 0x7a {
      other := cp - 0x20;
    }
    var sets := [[Range(cp, cp)], [Range(other, other)]];
    out := UnionAll(sets);
    forall c ensures In(out, c) <==> c == cp || c == other {
      if c == cp { assert sets[0][0].lo <= c <= sets[0][0].hi; assert In(sets[0], c); }
      if c == other { assert sets[1][0].lo <= c <= sets[1][0].hi; assert In(sets[1], c); }
    }
    WithinByPoints(out);
  }

  lemma WithinByPoints(rs: seq<Range>)
    requires AllProper(rs) && forall c :: In(rs, c) ==> 0 <= c <= TOP
    ensures Within(rs, TOP)
  {
    forall i | 0 <= i < |rs| ensures 0 <= rs[i].lo && rs[i].hi <= TOP {
      assert In(rs, rs[i].lo) && In(rs, rs[i].hi);
    }
  }

  lemma PointsWithin(rs: seq<Range>, c: int)
    requires Within(rs, TOP) && In(rs, c)
    ensures 0 <= c <= TOP
  {
  }

  lemma GoodF(at: Attrs, x: Node)
    requires GoodSets(at)
    ensures GoodSet(F(at, x))
  {
  }

  /** One set for several (join): the empty one, the one itself, or their union. */
  method Join(sets: seq<seq<Range>>) returns (out: seq<Range>)
    requires forall i :: 0 <= i < |sets| ==> GoodSet(sets[i])
    ensures GoodSet(out)
    ensures forall c :: In(out, c) <==> InAny(sets, c)
  {
    if |sets| == 0 { return []; }
    if |sets| == 1 {
      assert forall c :: In(sets[0], c) <==> InAny(sets, c);
      return sets[0];
    }
    out := UnionAll(sets);
    forall c | In(out, c) ensures 0 <= c <= TOP {
      var i :| 0 <= i < |sets| && In(sets[i], c);
      PointsWithin(sets[i], c);
    }
    WithinByPoints(out);
  }

  /** The front of a sequence: its items in nul, and one more. */
  function LeadOf(items: seq<Node>, nul: set<Node>): seq<Node> {
    if items == [] then []
    else if items[0] in nul then [items[0]] + LeadOf(items[1..], nul)
    else [items[0]]
  }

  lemma {:induction false} LeadIs(items: seq<Node>, nul: set<Node>)
    ensures LeadOf(items, nul) <= items
    ensures forall i :: 0 <= i < |LeadOf(items, nul)| - 1 ==> items[i] in nul
    ensures |LeadOf(items, nul)| < |items| ==> 0 < |LeadOf(items, nul)| && items[|LeadOf(items, nul)| - 1] !in nul
  {
    if items != [] && items[0] in nul {
      LeadIs(items[1..], nul);
      var rest := LeadOf(items[1..], nul);
      assert LeadOf(items, nul) == [items[0]] + rest;
      forall i | 0 <= i < |rest| ensures items[i] in nul {
        if 0 < i { assert items[i] == items[1..][i - 1]; }
      }
    }
  }

  /** fLead, as the loop it is. */
  method Lead(items: seq<Node>, nul: set<Node>) returns (out: seq<Node>)
    ensures out == LeadOf(items, nul)
  {
    hide LeadOf;
    out := [];
    assert items[0..] == items;
    for i := 0 to |items|
      invariant LeadOf(items, nul) == out + LeadOf(items[i..], nul)
    {
      LeadStep(items, nul, i, out);
      out := out + [items[i]];
      if items[i] !in nul { return; }
    }
    LeadNone(items, nul);
  }

  lemma LeadStep(items: seq<Node>, nul: set<Node>, i: nat, out: seq<Node>)
    requires i < |items|
    ensures out + LeadOf(items[i..], nul) == if items[i] in nul then (out + [items[i]]) + LeadOf(items[i + 1..], nul) else out + [items[i]]
  {
    assert items[i..][1..] == items[i + 1..];
  }

  lemma LeadNone(items: seq<Node>, nul: set<Node>)
    ensures LeadOf(items[|items|..], nul) == []
  {
  }

  lemma LeadHasIs(at: Attrs, items: seq<Node>, c: int)
    ensures LeadHas(at, items, c) <==> InAny(Firsts(at, LeadOf(items, at.nul)), c)
  {
    LeadIs(items, at.nul);
    var lead := LeadOf(items, at.nul);
    if LeadHas(at, items, c) {
      var j :| 0 <= j < |items| && In(F(at, items[j]), c) && forall i :: 0 <= i < j ==> items[i] in at.nul;
      assert j < |lead|;
      assert In(Firsts(at, lead)[j], c);
    }
    if InAny(Firsts(at, lead), c) {
      var j :| 0 <= j < |lead| && In(Firsts(at, lead)[j], c);
      assert items[j] == lead[j];
    }
  }

  /** The attributes of x as the others stand (attrs). */
  method AttrsOf(rules: Rules, at: Attrs, x: Node) returns (n: bool, s: seq<Range>, o: bool)
    requires GoodSets(at) && ReadNode(rules, x) && !x.Str? && !x.Cls?
    ensures n <==> NulOf(rules, at, x)
    ensures GoodSet(s) && forall c :: In(s, c) <==> FirstHas(rules, at, x, c)
    ensures o <==> OneOf(rules, at, x)
  {
    match x
    case Alt(kids) =>
      n, o := false, true;
      for i := 0 to |kids|
        invariant n <==> exists k :: 0 <= k < i && kids[k] in at.nul
        invariant o <==> forall k :: 0 <= k < i ==> kids[k] in at.one
      {
        n, o := n || kids[i] in at.nul, o && kids[i] in at.one;
      }
      s := Join(Firsts(at, kids));
    case Cat(kids) =>
      n, o := true, false;
      for i := 0 to |kids|
        invariant n <==> forall k :: 0 <= k < i ==> kids[k] in at.nul
      {
        n := n && kids[i] in at.nul;
      }
      var lead := Lead(kids, at.nul);
      s := Join(Firsts(at, lead));
      forall c ensures In(s, c) <==> LeadHas(at, kids, c) { LeadHasIs(at, kids, c); }
    case Rep(kid, min, max) =>
      if max == 0 { return true, [], false; }
      n, s, o := min == 0 || kid in at.nul, F(at, kid), false;
    case Ref(name) =>
      n, s, o := rules[name] in at.nul, F(at, rules[name]), rules[name] in at.one;
  }

  // ----- growth

  /** at2 claims at least what at1 does. */
  ghost predicate Below(at1: Attrs, at2: Attrs) {
    && at1.nul <= at2.nul && at1.one <= at2.one && at1.fst.Keys <= at2.fst.Keys
    && forall x, c :: In(F(at1, x), c) ==> In(F(at2, x), c)
  }

  /** Every claim about x is one the equations still make. */
  ghost predicate Justified(rules: Rules, at: Attrs, x: Node) {
    && (x in at.nul ==> NulOf(rules, at, x))
    && (x in at.one ==> OneOf(rules, at, x))
    && (forall c :: In(F(at, x), c) ==> FirstHas(rules, at, x, c))
  }

  lemma Monotone(rules: Rules, at1: Attrs, at2: Attrs, x: Node)
    requires Below(at1, at2)
    ensures NulOf(rules, at1, x) ==> NulOf(rules, at2, x)
    ensures OneOf(rules, at1, x) ==> OneOf(rules, at2, x)
    ensures forall c :: FirstHas(rules, at1, x, c) ==> FirstHas(rules, at2, x, c)
  {
    forall c | FirstHas(rules, at1, x, c) ensures FirstHas(rules, at2, x, c) {
      if x.Alt? {
        var i :| 0 <= i < |x.kids| && In(Firsts(at1, x.kids)[i], c);
        assert In(Firsts(at2, x.kids)[i], c);
      } else if x.Cat? {
        var j :| 0 <= j < |x.kids| && In(F(at1, x.kids[j]), c) && forall i :: 0 <= i < j ==> x.kids[i] in at1.nul;
        assert In(F(at2, x.kids[j]), c);
      }
    }
  }

  // What is still unclaimed bounds the loop.
  datatype Fact = NulFact(x: Node) | OneFact(x: Node) | HasFact(x: Node) | CharFact(x: Node, c: int)

  ghost function SetOf(nodes: seq<Node>): set<Node> {
    set x | x in nodes
  }

  ghost function Unclaimed(nodes: set<Node>, at: Attrs): set<Fact> {
    (set x | x in nodes && x !in at.nul :: NulFact(x)) +
    (set x | x in nodes && x !in at.one :: OneFact(x)) +
    (set x | x in nodes && x !in at.fst :: HasFact(x)) +
    (set x, c | x in nodes && 0 <= c <= TOP && !In(F(at, x), c) :: CharFact(x, c))
  }

  lemma UnclaimedFalls(nodes: set<Node>, at1: Attrs, at2: Attrs, x: Node)
    requires Below(at1, at2) && x in nodes
    requires || (x !in at1.nul && x in at2.nul)
             || (x !in at1.one && x in at2.one)
             || (x !in at1.fst && x in at2.fst)
             || (exists c :: 0 <= c <= TOP && !In(F(at1, x), c) && In(F(at2, x), c))
    ensures Unclaimed(nodes, at2) < Unclaimed(nodes, at1)
  {
    var u1, u2 := Unclaimed(nodes, at1), Unclaimed(nodes, at2);
    assert u2 <= u1;
    if x !in at1.nul && x in at2.nul {
      assert NulFact(x) in u1 && NulFact(x) !in u2;
    } else if x !in at1.one && x in at2.one {
      assert OneFact(x) in u1 && OneFact(x) !in u2;
    } else if x !in at1.fst && x in at2.fst {
      assert HasFact(x) in u1 && HasFact(x) !in u2;
    } else {
      var c :| 0 <= c <= TOP && !In(F(at1, x), c) && In(F(at2, x), c);
      assert CharFact(x, c) in u1 && CharFact(x, c) !in u2;
    }
  }

  /** The state between two updates: leaves exact, claims justified and true. */
  ghost predicate Growing(rules: Rules, nodes: seq<Node>, at: Attrs) {
    && GoodSets(at) && Sound(rules, at) && at.fst.Keys <= SetOf(nodes)
    && forall i :: 0 <= i < |nodes| ==> Justified(rules, at, nodes[i])
  }

  ghost function Updated(at: Attrs, x: Node, n: bool, s: seq<Range>, o: bool): Attrs {
    Attrs(if n then at.nul + {x} else at.nul - {x}, at.fst[x := s], if o then at.one + {x} else at.one - {x})
  }

  lemma UpdateGrows(rules: Rules, nodes: seq<Node>, at: Attrs, x: Node, n: bool, s: seq<Range>, o: bool)
    requires Growing(rules, nodes, at) && x in nodes && ReadNode(rules, x) && GoodSet(s)
    requires n <==> NulOf(rules, at, x)
    requires o <==> OneOf(rules, at, x)
    requires forall c :: In(s, c) <==> FirstHas(rules, at, x, c)
    ensures Below(at, Updated(at, x, n, s, o))
    ensures Growing(rules, nodes, Updated(at, x, n, s, o))
  {
    var at' := Updated(at, x, n, s, o);
    assert Justified(rules, at, x);
    assert forall y :: y != x ==> F(at', y) == F(at, y);
    assert F(at', x) == s;
    assert Below(at, at');
    UpdateSound(rules, at, x, n, s, o);
    forall i | 0 <= i < |nodes| ensures Justified(rules, at', nodes[i]) {
      assert Justified(rules, at, nodes[i]);
      Monotone(rules, at, at', nodes[i]);
    }
  }

  /** at claims no more than any solution of the equations over these nodes. */
  ghost predicate Lowest(rules: Rules, nodes: set<Node>, at: Attrs) {
    forall other :: Solves(rules, nodes, other) ==> Below(at, other)
  }

  ghost predicate Solves(rules: Rules, nodes: set<Node>, other: Attrs) {
    Fixpoint(rules, other, nodes) && nodes <= other.fst.Keys
  }

  lemma UpdateLowest(rules: Rules, nodes: set<Node>, at: Attrs, x: Node, n: bool, s: seq<Range>, o: bool)
    requires Lowest(rules, nodes, at) && x in nodes
    requires n <==> NulOf(rules, at, x)
    requires o <==> OneOf(rules, at, x)
    requires forall c :: In(s, c) <==> FirstHas(rules, at, x, c)
    ensures Lowest(rules, nodes, Updated(at, x, n, s, o))
  {
    hide NulOf, OneOf, FirstHas, In;
    var at' := Updated(at, x, n, s, o);
    forall other | Solves(rules, nodes, other) ensures Below(at', other) {
      assert Below(at, other) && Solved(rules, other, x);
      Monotone(rules, at, other, x);
      forall y, c | In(F(at', y), c) ensures In(F(other, y), c) {
        if y != x { assert F(at', y) == F(at, y); } else { assert F(at', y) == s; }
      }
    }
  }

  lemma UpdateSound(rules: Rules, at: Attrs, x: Node, n: bool, s: seq<Range>, o: bool)
    requires Sound(rules, at) && ReadNode(rules, x)
    requires n <==> NulOf(rules, at, x)
    requires o <==> OneOf(rules, at, x)
    requires forall c :: In(s, c) <==> FirstHas(rules, at, x, c)
    ensures Sound(rules, Updated(at, x, n, s, o))
  {
    var at' := Updated(at, x, n, s, o);
    forall y ensures SoundAt(rules, at', y) {
      assert SoundAt(rules, at, y);
      if y == x {
        if n { NulStep(rules, at, x); }
        if o { OneStep(rules, at, x, s); }
        if AllProductive(rules) {
          forall c | In(s, c) ensures Starts(rules, x, c) { FirstStep(rules, at, x, c); }
        }
      } else {
        assert F(at', y) == F(at, y);
      }
    }
  }

  // ----- the loop

  /** The leaves' attributes, fixed from the start. */
  method Leaves(rules: Rules, nodes: seq<Node>) returns (at: Attrs, inner: seq<Node>)
    requires forall x :: x in nodes ==> ReadNode(rules, x)
    ensures Growing(rules, nodes, at) && Lowest(rules, SetOf(nodes), at)
    ensures forall x :: x in inner ==> x in nodes && !x.Str? && !x.Cls?
    ensures forall x :: x in nodes ==> x in inner || ((x.Str? || x.Cls?) && x in at.fst && Solved(rules, at, x))
  {
    hide Lowest;
    at, inner := Attrs({}, map[], {}), [];
    NothingLowest(rules, SetOf(nodes));
    for i := 0 to |nodes|
      invariant Growing(rules, nodes, at) && Lowest(rules, SetOf(nodes), at)
      invariant forall x :: x in inner ==> x in nodes && !x.Str? && !x.Cls?
      invariant forall x :: x in nodes[..i] ==> x in inner || ((x.Str? || x.Cls?) && x in at.fst && Solved(rules, at, x))
    {
      var x := nodes[i];
      assert x in nodes;
      assert nodes[..i + 1] == nodes[..i] + [x];
      ghost var was := at;
      match x
      case Str(cps, ci) =>
        var s := CaseOf(cps[0], ci);
        UpdateGrows(rules, nodes, at, x, false, s, |cps| == 1);
        UpdateLowest(rules, SetOf(nodes), at, x, false, s, |cps| == 1);
        at := LeafAt(at, x, s, |cps| == 1);
        LeafKept(rules, was, at, nodes[..i], inner, x);
      case Cls(chars) =>
        UpdateGrows(rules, nodes, at, x, false, chars, true);
        UpdateLowest(rules, SetOf(nodes), at, x, false, chars, true);
        at := LeafAt(at, x, chars, true);
        LeafKept(rules, was, at, nodes[..i], inner, x);
      case _ => inner := inner + [x];
    }
    assert nodes[..|nodes|] == nodes;
  }

  lemma NothingLowest(rules: Rules, nodes: set<Node>)
    ensures Lowest(rules, nodes, Attrs({}, map[], {}))
  {
    hide Fixpoint;
  }

  function LeafAt(at: Attrs, x: Node, s: seq<Range>, o: bool): (r: Attrs)
    ensures r == Updated(at, x, false, s, o)
  {
    Attrs(at.nul - {x}, at.fst[x := s], if o then at.one + {x} else at.one - {x})
  }

  lemma LeafKept(rules: Rules, was: Attrs, at: Attrs, before: seq<Node>, inner: seq<Node>, x: Node)
    requires x.Str? || x.Cls?
    requires exists s, o :: at == Updated(was, x, false, s, o)
    requires forall y :: y in before ==> y in inner || ((y.Str? || y.Cls?) && y in was.fst && Solved(rules, was, y))
    requires (x in at.one <==> OneOf(rules, at, x)) && forall c :: In(F(at, x), c) <==> FirstHas(rules, at, x, c)
    ensures forall y :: y in before ==> y in inner || ((y.Str? || y.Cls?) && y in at.fst && Solved(rules, at, y))
    ensures Solved(rules, at, x)
  {
    forall y | y in before && y !in inner ensures y in at.fst && Solved(rules, at, y) {
      if y != x {
        assert F(at, y) == F(was, y);
        assert forall c :: FirstHas(rules, at, y, c) <==> FirstHas(rules, was, y, c);
      }
    }
  }

  lemma LeafSolved(rules: Rules, at1: Attrs, at2: Attrs, x: Node)
    requires (x.Str? || x.Cls?) && Solved(rules, at1, x)
    requires (x in at2.nul <==> x in at1.nul) && (x in at2.one <==> x in at1.one) && F(at1, x) == F(at2, x)
    ensures Solved(rules, at2, x)
  {
    assert forall c :: FirstHas(rules, at1, x, c) <==> FirstHas(rules, at2, x, c);
  }

  ghost predicate LeavesSolved(rules: Rules, nodes: seq<Node>, at: Attrs) {
    forall x :: x in nodes && (x.Str? || x.Cls?) ==> x in at.fst && Solved(rules, at, x)
  }

  /** The equations solved, and by no more than they must: rounds over the inner nodes until none moves. */
  method Solve(rules: Rules, nodes: seq<Node>) returns (at: Attrs)
    requires forall x :: x in nodes ==> ReadNode(rules, x)
    ensures at.fst.Keys == SetOf(nodes)
    ensures Fixpoint(rules, at, SetOf(nodes))
    ensures forall other :: Solves(rules, SetOf(nodes), other) ==> Below(at, other)
    ensures Sound(rules, at)
  {
    ghost var all := SetOf(nodes);
    var inner;
    at, inner := Leaves(rules, nodes);
    var moved := true;
    while moved
      invariant Growing(rules, nodes, at) && LeavesSolved(rules, nodes, at) && Lowest(rules, all, at)
      invariant !moved ==> forall x :: x in inner ==> x in at.fst && Solved(rules, at, x)
      decreases Unclaimed(all, at), moved
    {
      at, moved := Round(rules, nodes, inner, at);
    }
    forall x | x in all ensures x in at.fst && Solved(rules, at, x) {}
  }

  /** One round: each inner node brought up to date in turn. */
  method Round(rules: Rules, nodes: seq<Node>, inner: seq<Node>, at0: Attrs) returns (at: Attrs, moved: bool)
    requires forall x :: x in nodes ==> ReadNode(rules, x)
    requires forall x :: x in inner ==> x in nodes && !x.Str? && !x.Cls?
    requires Growing(rules, nodes, at0) && LeavesSolved(rules, nodes, at0) && Lowest(rules, SetOf(nodes), at0)
    ensures Growing(rules, nodes, at) && LeavesSolved(rules, nodes, at) && Lowest(rules, SetOf(nodes), at)
    ensures !moved ==> at == at0 && forall x :: x in inner ==> x in at.fst && Solved(rules, at, x)
    ensures moved ==> Unclaimed(SetOf(nodes), at) < Unclaimed(SetOf(nodes), at0)
  {
    hide Lowest;
    ghost var all := SetOf(nodes);
    at, moved := at0, false;
    for i := 0 to |inner|
      invariant Growing(rules, nodes, at) && LeavesSolved(rules, nodes, at) && Lowest(rules, all, at)
      invariant !moved ==> at == at0 && forall k :: 0 <= k < i ==> inner[k] in at.fst && Solved(rules, at, inner[k])
      invariant moved ==> Unclaimed(all, at) < Unclaimed(all, at0)
    {
      var x := inner[i];
      assert x in inner;
      var n, s, o := AttrsOf(rules, at, x);
      var had := x in at.fst;
      var same := SameRanges(s, F(at, x));
      GoodF(at, x);
      if n != (x in at.nul) || o != (x in at.one) || !had || !same {
        UpdateStep(rules, nodes, at, x, n, s, o);
        UpdateLowest(rules, all, at, x, n, s, o);
        at := Attrs(if n then at.nul + {x} else at.nul - {x}, at.fst[x := s], if o then at.one + {x} else at.one - {x});
        moved := true;
      }
    }
  }

  lemma UpdateStep(rules: Rules, nodes: seq<Node>, at: Attrs, x: Node, n: bool, s: seq<Range>, o: bool)
    requires Growing(rules, nodes, at) && LeavesSolved(rules, nodes, at)
    requires x in nodes && ReadNode(rules, x) && GoodSet(s) && !x.Str? && !x.Cls?
    requires n <==> NulOf(rules, at, x)
    requires o <==> OneOf(rules, at, x)
    requires forall c :: In(s, c) <==> FirstHas(rules, at, x, c)
    requires n != (x in at.nul) || o != (x in at.one) || x !in at.fst || s != F(at, x)
    ensures Growing(rules, nodes, Updated(at, x, n, s, o)) && LeavesSolved(rules, nodes, Updated(at, x, n, s, o))
    ensures Unclaimed(SetOf(nodes), Updated(at, x, n, s, o)) < Unclaimed(SetOf(nodes), at)
  {
    UpdateGrows(rules, nodes, at, x, n, s, o);
    UpdateFalls(rules, nodes, at, x, n, s, o);
    var at' := Updated(at, x, n, s, o);
    forall y | y in nodes && (y.Str? || y.Cls?) ensures y in at'.fst && Solved(rules, at', y) { LeafSolved(rules, at, at', y); }
  }

  lemma UpdateFalls(rules: Rules, nodes: seq<Node>, at: Attrs, x: Node, n: bool, s: seq<Range>, o: bool)
    requires Growing(rules, nodes, at) && x in nodes && GoodSet(s)
    requires n <==> NulOf(rules, at, x)
    requires o <==> OneOf(rules, at, x)
    requires forall c :: In(s, c) <==> FirstHas(rules, at, x, c)
    requires Below(at, Updated(at, x, n, s, o))
    requires n != (x in at.nul) || o != (x in at.one) || x !in at.fst || s != F(at, x)
    ensures Unclaimed(SetOf(nodes), Updated(at, x, n, s, o)) < Unclaimed(SetOf(nodes), at)
  {
    assert Justified(rules, at, x);
    if n == (x in at.nul) && o == (x in at.one) && x in at.fst {
      GoodF(at, x);
      if forall c :: In(s, c) ==> In(F(at, x), c) {
        CanonicalUnique(s, F(at, x));
      } else {
        var c :| In(s, c) && !In(F(at, x), c);
        PointsWithin(s, c);
      }
    }
    UnclaimedFalls(SetOf(nodes), at, Updated(at, x, n, s, o), x);
  }
}
