/**
 Completeness of the stack machine on a deterministic grammar: from the top of any stack a
 node's parse tree is followed to its end, whatever stands below, as long as what comes
 next in the text is something that can follow.
 */
module MachineComplete {
  import opened Ranges
  import opened Grammar
  import opened Attributes
  import opened Walk
  import opened Leading
  import opened Flow
  import opened Machine
  import opened MachineSound

  // ----- a node that can match nothing begins with nothing that can follow it

  lemma {:induction false} CheckedAt(rules: Rules, at: Attrs, items: seq<Node>, after: iset<int>, i: nat)
    requires CheckedAll(rules, at, items, after) && i < |items|
    ensures Checked(rules, at, items[i], TailSet(at, items[i + 1..], after))
  {
    if 0 < i {
      CheckedAt(rules, at, items[1..], after, i - 1);
      assert items[1..][i - 1] == items[i] && items[1..][i..] == items[i + 1..];
    }
  }

  lemma {:induction false} AfterInTail(at: Attrs, items: seq<Node>, after: iset<int>)
    requires forall i :: 0 <= i < |items| ==> items[i] in at.nul
    ensures after <= TailSet(at, items, after)
  {
    if items != [] { AfterInTail(at, items[1..], after); }
  }

  lemma {:induction false} NulApart(g: Format, done: seq<string>, x: Node, after: iset<int>, r: nat)
    requires Ready(g) && Ranked(g.rules, g.at, done)
    requires x in g.at.fst && x in g.at.nul && Checked(g.rules, g.at, x, after) && Under(g.at, done, x, r)
    ensures forall c :: In(F(g.at, x), c) ==> c !in after
    decreases r, x
  {
    hide Deterministic, Sound, Ranked, ReadRules;
    assert Solved(g.rules, g.at, x);
    if x.Ref? {
      var body := g.rules[x.name];
      RefApart(g, done, x, after);
      NulApart(g, done, body, after, Rank(done, x.name));
    } else if x.Rep? {
      if x.min == x.max && x.max != 0 {
        assert x.kid == Kids(x)[0];
        NulApart(g, done, x.kid, InRep(g.at, x, after), r);
      }
    } else if x.Cat? {
      forall c | In(F(g.at, x), c) ensures c !in after {
        var j :| 0 <= j < |x.kids| && In(F(g.at, x.kids[j]), c);
        CatApart(g, done, x, after, r, j);
        NulApart(g, done, x.kids[j], TailSet(g.at, x.kids[j + 1..], after), r);
      }
    }
  }

  lemma RefApart(g: Format, done: seq<string>, x: Node, after: iset<int>)
    requires Ready(g) && Ranked(g.rules, g.at, done)
    requires x in g.at.fst && x in g.at.nul && x.Ref? && Checked(g.rules, g.at, x, after)
    ensures x.name in g.rules && x.name in LeadRefs(x, g.at)
    ensures var body := g.rules[x.name];
            && body in g.at.fst && body in g.at.nul && Checked(g.rules, g.at, body, after)
            && Under(g.at, done, body, Rank(done, x.name))
            && forall c :: In(F(g.at, x), c) <==> In(F(g.at, body), c)
  {
    assert Solved(g.rules, g.at, x);
    RuleChecked(g.rules, g.at, x.name);
    CheckedLess(g.rules, g.at, g.rules[x.name], Follow(g.rules, g.at, x.name), after);
  }

  lemma CatApart(g: Format, done: seq<string>, x: Node, after: iset<int>, r: nat, j: nat)
    requires Ready(g) && x in g.at.fst && x in g.at.nul && x.Cat? && j < |x.kids|
    requires Checked(g.rules, g.at, x, after) && Under(g.at, done, x, r)
    ensures var tail := TailSet(g.at, x.kids[j + 1..], after);
            && x.kids[j] in g.at.fst && x.kids[j] in g.at.nul && after <= tail
            && Checked(g.rules, g.at, x.kids[j], tail) && Under(g.at, done, x.kids[j], r)
  {
    assert Solved(g.rules, g.at, x);
    assert x.kids[j] == Kids(x)[j];
    CheckedAt(g.rules, g.at, x.kids, after, j);
    AfterInTail(g.at, x.kids[j + 1..], after);
    RefsCatHas(x.kids, g.at.nul, true, j);
  }

  lemma NulApartAny(g: Format, x: Node, after: iset<int>)
    requires Ready(g) && x in g.at.fst && x in g.at.nul && Checked(g.rules, g.at, x, after)
    ensures forall c :: In(F(g.at, x), c) ==> c !in after
  {
    var done :| Ranked(g.rules, g.at, done);
    UnderAll(g.rules, g.at, done, x);
    NulApart(g, done, x, after, |done|);
  }

  // ----- what the text holds

  /** The text holds u at a place. */
  ghost predicate Reads(cps: Text, at: nat, u: Text) {
    at + |u| <= |cps| && cps[at..at + |u|] == u
  }

  /** Behind a place the text is at its end, or goes on with a character of after. */
  ghost predicate Then(cps: Text, at: nat, after: iset<int>) {
    at < |cps| ==> cps[at] in after
  }

  lemma ReadsPlus(cps: Text, at: nat, u: Text, v: Text)
    requires Reads(cps, at, u + v)
    ensures Reads(cps, at, u) && Reads(cps, at + |u|, v)
  {
    assert cps[at..at + |u + v|][..|u|] == (u + v)[..|u|] == u;
    assert cps[at..at + |u + v|][|u|..] == (u + v)[|u|..] == v;
    assert cps[at..at + |u + v|][..|u|] == cps[at..at + |u|];
    assert cps[at..at + |u + v|][|u|..] == cps[at + |u|..at + |u| + |v|];
  }

  lemma ReadsIn(cps: Text, at: nat, u: Text)
    requires Reads(cps, at, u)
    ensures at <= |cps|
  {
  }

  lemma ReadsHead(cps: Text, at: nat, u: Text)
    requires Reads(cps, at, u) && u != []
    ensures at < |cps| && cps[at] == u[0]
  {
    assert cps[at..at + |u|][0] == cps[at];
  }

  /** Behind one item of a sequence comes what the rest can begin with. */
  lemma {:induction false} ThenTail(g: Format, cps: Text, at: nat, items: seq<Node>, ts: seq<Tree>, after: iset<int>)
    requires Ready(g) && |ts| == |items|
    requires forall i :: 0 <= i < |items| ==> items[i] in g.at.fst && Parses(g.rules, items[i], ts[i])
    requires Reads(cps, at, YieldAll(ts)) && Then(cps, at + |YieldAll(ts)|, after)
    ensures Then(cps, at, TailSet(g.at, items, after))
    decreases |items|
  {
    hide Deterministic, Sound, Ranked, ReadRules;
    if items != [] {
      var u, v := Yield(ts[0]), YieldAll(ts[1..]);
      ReadsPlus(cps, at, u, v);
      if u != [] {
        ReadsHead(cps, at, u);
        FirstComplete(g.rules, g.at, g.at.fst.Keys, items[0], ts[0]);
      } else {
        NulComplete(g.rules, g.at, g.at.fst.Keys, items[0], ts[0]);
        assert u + v == v;
        ThenTail(g, cps, at, items[1..], ts[1..], after);
      }
    }
  }

  // ----- the choices

  lemma NoneByChar(g: Format, cps: Text, kids: seq<Node>, at: nat, after: iset<int>)
    requires Then(cps, at, after) && forall c :: InAny(Firsts(g.at, kids), c) ==> c !in after
    ensures ByChar(g, cps, kids, at) == |kids|
  {
    ByCharIn(g, cps, kids, at);
  }

  lemma ByCharIn(g: Format, cps: Text, kids: seq<Node>, at: nat)
    ensures ByChar(g, cps, kids, at) < |kids| ==> at < |cps| && InAny(Firsts(g.at, kids), cps[at])
  {
    var p := ByChar(g, cps, kids, at);
    if p < |kids| { assert In(Firsts(g.at, kids)[p], cps[at]); }
  }

  lemma OneByEmpty(at: Attrs, kids: seq<Node>, i: nat)
    requires i < |kids| && kids[i] in at.nul && !TwoEmpty(at, kids)
    ensures ByEmpty(at, kids) == i
  {
  }

  lemma PickRight(g: Format, cps: Text, x: Node, at: nat, i: nat, t: Tree, after: iset<int>)
    requires Ready(g) && x in g.at.fst && x.Alt? && Decided(g.at, x, after)
    requires i < |x.kids| && Parses(g.rules, x.kids[i], t)
    requires Reads(cps, at, Yield(t)) && Then(cps, at + |Yield(t)|, after)
    ensures Pick(g, cps, x.kids, at) == i
  {
    var kids, u := x.kids, Yield(t);
    assert kids[i] == Kids(x)[i];
    var p := ByChar(g, cps, kids, at);
    if u != [] {
      ReadsHead(cps, at, u);
      FirstComplete(g.rules, g.at, g.at.fst.Keys, kids[i], t);
      assert p <= i;
      if p < i {
        assert In(Firsts(g.at, kids)[p], cps[at]) && In(Firsts(g.at, kids)[i], cps[at]);
        assert HeldTwice(Firsts(g.at, kids), cps[at]);
      }
    } else {
      NulComplete(g.rules, g.at, g.at.fst.Keys, kids[i], t);
      NoneByChar(g, cps, kids, at, after);
      OneByEmpty(g.at, kids, i);
    }
  }

  /** With rounds that yield nothing left to make, the repetition goes round no more. */
  lemma NoMore(g: Format, cps: Text, f: Frame, at: nat, ts: seq<Tree>, after: iset<int>)
    requires Ready(g) && FrameIn(g, f) && f.Loop? && Checked(g.rules, g.at, f.rep, after)
    requires Rounds(g.rules, f.rep, f.count, ts) && YieldAll(ts) == [] && Then(cps, at, after)
    ensures !More(g, cps, f, at)
    ensures f.count < f.rep.min ==> f.rep.kid in g.at.nul
  {
    var rep, kid := f.rep, f.rep.kid;
    assert kid == Kids(rep)[0];
    if ts != [] {
      EmptyPieces(ts, 0);
      NulComplete(g.rules, g.at, g.at.fst.Keys, kid, ts[0]);
      NulApartAny(g, kid, InRep(g.at, rep, after));
    }
  }

  /** A round that yields nothing comes before none that yields something. */
  lemma EmptyRoundLast(g: Format, rep: Node, count: nat, ts: seq<Tree>, after: iset<int>)
    requires Ready(g) && rep in g.at.fst && rep.Rep? && Checked(g.rules, g.at, rep, after)
    requires Rounds(g.rules, rep, count, ts) && ts != [] && YieldAll(ts) != []
    ensures Yield(ts[0]) != []
  {
    if Yield(ts[0]) == [] {
      var kid := rep.kid;
      assert kid == Kids(rep)[0];
      NulComplete(g.rules, g.at, g.at.fst.Keys, kid, ts[0]);
      var j := FirstPiece(ts);
      FirstComplete(g.rules, g.at, g.at.fst.Keys, kid, ts[j]);
      NulApartAny(g, kid, InRep(g.at, rep, after));
      assert Many(rep);
    }
  }

  // ----- following a parse tree

  /** At a place the text holds what a tree of x yields, and goes on as after allows. */
  ghost predicate Fits(g: Format, cps: Text, at: nat, x: Node, t: Tree, after: iset<int>) {
    && x in g.at.fst && Checked(g.rules, g.at, x, after) && Parses(g.rules, x, t)
    && Reads(cps, at, Yield(t)) && Then(cps, at + |Yield(t)|, after)
  }

  ghost predicate FitsAll(g: Format, cps: Text, at: nat, items: seq<Node>, ts: seq<Tree>, after: iset<int>) {
    && |ts| == |items| && CheckedAll(g.rules, g.at, items, after)
    && (forall i :: 0 <= i < |items| ==> items[i] in g.at.fst && Parses(g.rules, items[i], ts[i]))
    && Reads(cps, at, YieldAll(ts)) && Then(cps, at + |YieldAll(ts)|, after)
  }

  ghost predicate FitsLoop(g: Format, cps: Text, at: nat, f: Frame, ts: seq<Tree>, after: iset<int>) {
    && f.Loop? && FrameIn(g, f) && Checked(g.rules, g.at, f.rep, after)
    && Rounds(g.rules, f.rep, f.count, ts) && (f.count == 0 || f.at < at)
    && Reads(cps, at, YieldAll(ts)) && Then(cps, at + |YieldAll(ts)|, after)
  }

  lemma TopStep(g: Format, cps: Text, at: nat, rest: seq<Frame>, f: Frame)
    requires at <= |cps|
    ensures var c := Config(rest + [f], at);
            c.stack != [] && Step(g, cps, c) == match f
                                                case Loop(rep, _, _) => if rep.Rep? then StepLoop(g, cps, rest, f, at) else On(c)
                                                case Todo(n) => StepNode(g, cps, rest, n, at)
  {
    var c := Config(rest + [f], at);
    assert c.stack[..|c.stack| - 1] == rest;
  }

  lemma FitsLeaf(g: Format, cps: Text, at: nat, rest: seq<Frame>, x: Node, t: Tree, after: iset<int>)
    requires Ready(g) && Fits(g, cps, at, x, t, after) && (x in g.at.one || x.Str? || x.Cls?)
    ensures Step(g, cps, Config(rest + [Todo(x)], at)) == On(Config(rest, at + |Yield(t)|))
  {
    hide Step, StepNode, Ready, Parses, Fixpoint, Sound;
    TopStep(g, cps, at, rest, Todo(x));
    if x in g.at.one {
      LeafOne(g, cps, at, rest, x, t);
    } else {
      LeafStr(g, cps, at, rest, x, t);
    }
  }

  lemma LeafOne(g: Format, cps: Text, at: nat, rest: seq<Frame>, x: Node, t: Tree)
    requires Ready(g) && x in g.at.one && Parses(g.rules, x, t) && Reads(cps, at, Yield(t))
    ensures StepNode(g, cps, rest, x, at) == On(Config(rest, at + |Yield(t)|))
  {
    hide Wired, Deterministic, Fixpoint, Ranked, Parses, Yield, ReadRules;
    assert SoundAt(g.rules, g.at, x);
    assert Derives(g.rules, x, Yield(t));
    ReadsHead(cps, at, Yield(t));
  }

  lemma LeafStr(g: Format, cps: Text, at: nat, rest: seq<Frame>, x: Node, t: Tree)
    requires Ready(g) && x in g.at.fst && x !in g.at.one && (x.Str? || x.Cls?)
    requires Parses(g.rules, x, t) && Reads(cps, at, Yield(t))
    ensures StepNode(g, cps, rest, x, at) == On(Config(rest, at + |Yield(t)|))
  {
    hide Wired, Deterministic, Sound, Ranked, ReadRules, Reads;
    assert Solved(g.rules, g.at, x);
    AllMatched(x.cps, x.ci, cps, at, t.w);
  }

  lemma {:induction false} AllMatched(want: seq<int>, ci: bool, cps: Text, at: nat, w: Text)
    requires |w| == |want| && Reads(cps, at, w)
    requires forall i :: 0 <= i < |want| ==> SameChar(want[i], w[i], ci)
    ensures at <= |cps| && Matched(want, ci, cps, at) == |want|
    decreases |want|
  {
    if want != [] {
      ReadsHead(cps, at, w);
      assert w == [w[0]] + w[1..];
      ReadsPlus(cps, at, [w[0]], w[1..]);
      AllMatched(want[1..], ci, cps, at + 1, w[1..]);
    }
  }

  lemma FitsRef(g: Format, cps: Text, at: nat, rest: seq<Frame>, x: Node, t: Tree, after: iset<int>)
    requires Ready(g) && Fits(g, cps, at, x, t, after) && x !in g.at.one && x.Ref?
    ensures t.RefTree? && Yield(t.t) == Yield(t) && x.name in g.rules
    ensures Fits(g, cps, at, g.rules[x.name], t.t, after)
    ensures Step(g, cps, Config(rest + [Todo(x)], at)) == On(Config(rest + [Todo(g.rules[x.name])], at))
  {
    TopStep(g, cps, at, rest, Todo(x));
    RuleChecked(g.rules, g.at, x.name);
    CheckedLess(g.rules, g.at, g.rules[x.name], Follow(g.rules, g.at, x.name), after);
  }

  lemma FitsCat(g: Format, cps: Text, at: nat, rest: seq<Frame>, x: Node, t: Tree, after: iset<int>)
    requires Ready(g) && Fits(g, cps, at, x, t, after) && x !in g.at.one && x.Cat?
    ensures t.CatTree? && YieldAll(t.ts) == Yield(t)
    ensures FitsAll(g, cps, at, x.kids, t.ts, after)
    ensures Step(g, cps, Config(rest + [Todo(x)], at)) == On(Config(rest + Todos(x.kids), at))
  {
    hide Step, Reads, Then, Deterministic, Sound, Ranked, ReadRules;
    ReadsIn(cps, at, Yield(t));
    TopStep(g, cps, at, rest, Todo(x));
    assert forall i :: 0 <= i < |x.kids| ==> x.kids[i] == Kids(x)[i];
  }

  lemma AltStep(g: Format, cps: Text, at: nat, rest: seq<Frame>, x: Node, i: nat)
    requires at <= |cps| && x.Alt? && x !in g.at.one && i < |x.kids| && Pick(g, cps, x.kids, at) == i
    ensures Step(g, cps, Config(rest + [Todo(x)], at)) == On(Config(rest + [Todo(x.kids[i])], at))
  {
    hide Pick;
    TopStep(g, cps, at, rest, Todo(x));
  }

  lemma FitsAlt(g: Format, cps: Text, at: nat, rest: seq<Frame>, x: Node, t: Tree, after: iset<int>)
    requires Ready(g) && Fits(g, cps, at, x, t, after) && x !in g.at.one && x.Alt?
    ensures t.AltTree? && Yield(t.t) == Yield(t) && t.pick < |x.kids|
    ensures Fits(g, cps, at, x.kids[t.pick], t.t, after)
    ensures Step(g, cps, Config(rest + [Todo(x)], at)) == On(Config(rest + [Todo(x.kids[t.pick])], at))
  {
    hide Step, Reads, Then, Deterministic, Sound, Ranked, ReadRules, Pick;
    ReadsIn(cps, at, Yield(t));
    PickRight(g, cps, x, at, t.pick, t.t, after);
    AltStep(g, cps, at, rest, x, t.pick);
    assert x.kids[t.pick] == Kids(x)[t.pick];
  }

  lemma FitsRep(g: Format, cps: Text, at: nat, rest: seq<Frame>, x: Node, t: Tree, after: iset<int>)
    requires Ready(g) && Fits(g, cps, at, x, t, after) && x !in g.at.one && x.Rep?
    ensures t.RepTree? && YieldAll(t.ts) == Yield(t)
    ensures FitsLoop(g, cps, at, Loop(x, 0, at), t.ts, after)
    ensures Step(g, cps, Config(rest + [Todo(x)], at)) == On(Config(rest + [Loop(x, 0, at)], at))
  {
    hide Step, Reads, Then, Deterministic, Sound, Ranked, ReadRules;
    ReadsIn(cps, at, Yield(t));
    TopStep(g, cps, at, rest, Todo(x));
  }

  lemma SplitAll(g: Format, cps: Text, at: nat, items: seq<Node>, ts: seq<Tree>, after: iset<int>)
    requires Ready(g) && FitsAll(g, cps, at, items, ts, after) && items != []
    ensures ts != [] && YieldAll(ts) == Yield(ts[0]) + YieldAll(ts[1..])
    ensures Fits(g, cps, at, items[0], ts[0], TailSet(g.at, items[1..], after))
    ensures FitsAll(g, cps, at + |Yield(ts[0])|, items[1..], ts[1..], after)
  {
    hide Reads, Then, TailSet, Ready, Parses, Checked, Yield;
    var u, v := Yield(ts[0]), YieldAll(ts[1..]);
    ReadsPlus(cps, at, u, v);
    ThenTail(g, cps, at + |u|, items[1..], ts[1..], after);
  }

  lemma LoopEnds(g: Format, cps: Text, at: nat, rest: seq<Frame>, f: Frame, ts: seq<Tree>, after: iset<int>)
    requires Ready(g) && FitsLoop(g, cps, at, f, ts, after) && YieldAll(ts) == []
    ensures Step(g, cps, Config(rest + [f], at)) == On(Config(rest, at))
  {
    TopStep(g, cps, at, rest, f);
    NoMore(g, cps, f, at, ts, after);
  }

  lemma SplitLoop(g: Format, cps: Text, at: nat, f: Frame, ts: seq<Tree>, after: iset<int>)
    requires Ready(g) && FitsLoop(g, cps, at, f, ts, after) && YieldAll(ts) != []
    ensures ts != [] && YieldAll(ts) == Yield(ts[0]) + YieldAll(ts[1..]) && Yield(ts[0]) != []
    ensures f.Loop? && f.rep.Rep? && More(g, cps, f, at)
    ensures Fits(g, cps, at, f.rep.kid, ts[0], InRep(g.at, f.rep, after))
    ensures FitsLoop(g, cps, at + |Yield(ts[0])|, Loop(f.rep, f.count + 1, at), ts[1..], after)
  {
    hide Reads, Then, Ready, Parses, Yield, InRep, Fixpoint, Sound, Wired;
    var rep, u, v := f.rep, Yield(ts[0]), YieldAll(ts[1..]);
    EmptyRoundLast(g, rep, f.count, ts, after);
    ReadsPlus(cps, at, u, v);
    RoundBegins(g, cps, at, rep, ts[0]);
    assert Rounds(g.rules, rep, f.count + 1, ts[1..]);
    ThenRound(g, cps, at + |u|, rep, f.count + 1, ts[1..], after);
  }

  lemma RoundBegins(g: Format, cps: Text, at: nat, rep: Node, t: Tree)
    requires Ready(g) && rep in g.at.fst && rep.Rep? && Parses(g.rules, rep.kid, t)
    requires Reads(cps, at, Yield(t)) && Yield(t) != []
    ensures rep.kid in g.at.fst && Next(cps, at, F(g.at, rep.kid))
  {
    hide Deterministic, Ranked, Sound;
    assert rep.kid == Kids(rep)[0];
    ReadsHead(cps, at, Yield(t));
    FirstComplete(g.rules, g.at, g.at.fst.Keys, rep.kid, t);
  }

  lemma RoundStep(g: Format, cps: Text, at: nat, rest: seq<Frame>, f: Frame)
    requires f.Loop? && f.rep.Rep? && More(g, cps, f, at)
    ensures Step(g, cps, Config(rest + [f], at)) == On(Config((rest + [Loop(f.rep, f.count + 1, at)]) + [Todo(f.rep.kid)], at))
  {
    TopStep(g, cps, at, rest, f);
    assert rest + [Loop(f.rep, f.count + 1, at), Todo(f.rep.kid)] == (rest + [Loop(f.rep, f.count + 1, at)]) + [Todo(f.rep.kid)];
  }

  lemma ThenRound(g: Format, cps: Text, at: nat, rep: Node, count: nat, ts: seq<Tree>, after: iset<int>)
    requires Ready(g) && rep in g.at.fst && rep.Rep? && 0 < count && Rounds(g.rules, rep, count, ts)
    requires Reads(cps, at, YieldAll(ts)) && Then(cps, at + |YieldAll(ts)|, after)
    ensures Then(cps, at, InRep(g.at, rep, after))
  {
    if YieldAll(ts) != [] {
      ReadsHead(cps, at, YieldAll(ts));
      assert rep.kid == Kids(rep)[0];
      var j := FirstPiece(ts);
      FirstComplete(g.rules, g.at, g.at.fst.Keys, rep.kid, ts[j]);
    }
  }

  lemma {:induction false} Follow1(g: Format, cps: Text, at: nat, rest: seq<Frame>, x: Node, t: Tree, after: iset<int>)
    returns (k: nat)
    requires Ready(g) && Fits(g, cps, at, x, t, after)
    ensures Run(g, cps, Config(rest + [Todo(x)], at), k) == On(Config(rest, at + |Yield(t)|))
    decreases t, 1
  {
    hide *;
    var c := Config(rest + [Todo(x)], at);
    assert c.stack != [];
    if x in g.at.one || x.Str? || x.Cls? {
      FitsLeaf(g, cps, at, rest, x, t, after);
      RunOne(g, cps, c);
      k := 1;
    } else if x.Ref? {
      FitsRef(g, cps, at, rest, x, t, after);
      var j := Follow1(g, cps, at, rest, g.rules[x.name], t.t, after);
      StepThen(g, cps, c, Config(rest + [Todo(g.rules[x.name])], at), j);
      k := 1 + j;
    } else if x.Cat? {
      FitsCat(g, cps, at, rest, x, t, after);
      var j := FollowAll(g, cps, at, rest, x.kids, t.ts, after);
      StepThen(g, cps, c, Config(rest + Todos(x.kids), at), j);
      k := 1 + j;
    } else if x.Alt? {
      FitsAlt(g, cps, at, rest, x, t, after);
      var j := Follow1(g, cps, at, rest, x.kids[t.pick], t.t, after);
      StepThen(g, cps, c, Config(rest + [Todo(x.kids[t.pick])], at), j);
      k := 1 + j;
    } else {
      FitsRep(g, cps, at, rest, x, t, after);
      var j := FollowLoop(g, cps, at, rest, Loop(x, 0, at), t.ts, after);
      StepThen(g, cps, c, Config(rest + [Loop(x, 0, at)], at), j);
      k := 1 + j;
    }
  }

  lemma TodosParts(items: seq<Node>, rest: seq<Frame>)
    ensures items == [] ==> rest + Todos(items) == rest
    ensures items != [] ==> rest + Todos(items) == (rest + Todos(items[1..])) + [Todo(items[0])]
  {
  }

  lemma FitsNothing(g: Format, cps: Text, at: nat, ts: seq<Tree>, after: iset<int>, c: Config)
    requires FitsAll(g, cps, at, [], ts, after)
    ensures YieldAll(ts) == [] && Run(g, cps, c, 0) == On(c)
  {
  }

  lemma {:induction false} FollowAll(g: Format, cps: Text, at: nat, rest: seq<Frame>, items: seq<Node>, ts: seq<Tree>,
                                     after: iset<int>)
    returns (k: nat)
    requires Ready(g) && FitsAll(g, cps, at, items, ts, after)
    ensures Run(g, cps, Config(rest + Todos(items), at), k) == On(Config(rest, at + |YieldAll(ts)|))
    decreases ts, 0
  {
    hide *;
    TodosParts(items, rest);
    if items == [] {
      FitsNothing(g, cps, at, ts, after, Config(rest, at));
      k := 0;
    } else {
      SplitAll(g, cps, at, items, ts, after);
      var to, below := at + |Yield(ts[0])|, rest + Todos(items[1..]);
      var j := Follow1(g, cps, at, below, items[0], ts[0], TailSet(g.at, items[1..], after));
      var m := FollowAll(g, cps, to, rest, items[1..], ts[1..], after);
      RunThen(g, cps, Config(rest + Todos(items), at), j, Config(below, to), m);
      k := j + m;
    }
  }

  lemma {:induction false} FollowLoop(g: Format, cps: Text, at: nat, rest: seq<Frame>, f: Frame, ts: seq<Tree>,
                                      after: iset<int>)
    returns (k: nat)
    requires Ready(g) && FitsLoop(g, cps, at, f, ts, after)
    ensures Run(g, cps, Config(rest + [f], at), k) == On(Config(rest, at + |YieldAll(ts)|))
    decreases ts, 0
  {
    hide *;
    var c := Config(rest + [f], at);
    assert c.stack != [];
    if YieldAll(ts) == [] {
      LoopEnds(g, cps, at, rest, f, ts, after);
      RunOne(g, cps, c);
      k := 1;
    } else {
      SplitLoop(g, cps, at, f, ts, after);
      RoundStep(g, cps, at, rest, f);
      var again, to := Loop(f.rep, f.count + 1, at), at + |Yield(ts[0])|;
      var j := Follow1(g, cps, at, rest + [again], f.rep.kid, ts[0], InRep(g.at, f.rep, after));
      var m := FollowLoop(g, cps, to, rest, again, ts[1..], after);
      var d := Config((rest + [again]) + [Todo(f.rep.kid)], at);
      RunThen(g, cps, d, j, Config(rest + [again], to), m);
      StepThen(g, cps, c, d, j + m);
      k := 1 + (j + m);
    }
  }

  /** A derived text is read to its end. */
  lemma DerivedAccepted(g: Format, cps: Text) returns (k: nat)
    requires Ready(g) && Derives(g.rules, g.rules[g.start], cps)
    ensures Run(g, cps, Begin(g), k) == On(Config([], |cps|))
  {
    var x := g.rules[g.start];
    var t :| Parses(g.rules, x, t) && Yield(t) == cps;
    RuleChecked(g.rules, g.at, g.start);
    assert cps[0..|cps|] == cps;
    k := Follow1(g, cps, 0, [], x, t, Follow(g.rules, g.at, g.start));
    assert [] + [Todo(x)] == Begin(g).stack;
  }
}
