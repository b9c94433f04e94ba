/**
 Soundness of the stack machine: read backwards, every step keeps what the stack derives,
 so a run that ends with nothing left has derived the text it read.
 */
module MachineSound {
  import opened Ranges
  import opened Grammar
  import opened Attributes
  import opened Machine

  ghost predicate Pieces(rules: Rules, n: Node, ts: seq<Tree>) {
    forall i :: 0 <= i < |ts| ==> Parses(rules, n, ts[i])
  }

  /** A repetition that has made count rounds can make these more. */
  ghost predicate Rounds(rules: Rules, rep: Node, count: nat, ts: seq<Tree>)
    requires rep.Rep?
  {
    && rep.min <= count + |ts| && (rep.max < 0 || count + |ts| <= rep.max)
    && Pieces(rules, rep.kid, ts)
  }

  ghost predicate FrameYields(rules: Rules, f: Frame, u: Text) {
    match f
    case Todo(n) => Derives(rules, n, u)
    case Loop(rep, count, _) => rep.Rep? && exists ts :: Rounds(rules, rep, count, ts) && YieldAll(ts) == u
  }

  /** The stack derives z: each frame its piece, the top the first. */
  ghost predicate StackYields(rules: Rules, stack: seq<Frame>, z: Text)
    decreases |stack|, 1
  {
    if stack == [] then z == []
    else exists cut :: 0 <= cut <= |z| && TopYields(rules, stack, z, cut)
  }

  ghost predicate TopYields(rules: Rules, stack: seq<Frame>, z: Text, cut: nat)
    requires stack != [] && cut <= |z|
    decreases |stack|, 0
  {
    && FrameYields(rules, stack[|stack| - 1], z[..cut])
    && StackYields(rules, stack[..|stack| - 1], z[cut..])
  }

  lemma Push(rules: Rules, rest: seq<Frame>, f: Frame, u: Text, v: Text)
    requires FrameYields(rules, f, u) && StackYields(rules, rest, v)
    ensures StackYields(rules, rest + [f], u + v)
  {
    var s, z := rest + [f], u + v;
    assert s[..|s| - 1] == rest && z[..|u|] == u && z[|u|..] == v;
    assert TopYields(rules, s, z, |u|);
  }

  lemma Pop(rules: Rules, rest: seq<Frame>, f: Frame, z: Text) returns (u: Text, v: Text)
    requires StackYields(rules, rest + [f], z)
    ensures z == u + v && FrameYields(rules, f, u) && StackYields(rules, rest, v)
  {
    var s := rest + [f];
    assert s[..|s| - 1] == rest;
    var cut :| 0 <= cut <= |z| && TopYields(rules, s, z, cut);
    u, v := z[..cut], z[cut..];
  }

  lemma {:induction false} PopTodos(rules: Rules, rest: seq<Frame>, items: seq<Node>, z: Text)
    returns (ts: seq<Tree>, v: Text)
    requires StackYields(rules, rest + Todos(items), z)
    ensures z == YieldAll(ts) + v && StackYields(rules, rest, v)
    ensures |ts| == |items| && forall i :: 0 <= i < |items| ==> Parses(rules, items[i], ts[i])
  {
    if items == [] {
      assert rest + Todos(items) == rest;
      ts, v := [], z;
    } else {
      assert rest + Todos(items) == (rest + Todos(items[1..])) + [Todo(items[0])];
      var u, w := Pop(rules, rest + Todos(items[1..]), Todo(items[0]), z);
      var t :| Parses(rules, items[0], t) && Yield(t) == u;
      var more, v0 := PopTodos(rules, rest, items[1..], w);
      ts, v := [t] + more, v0;
      YieldCons(t, more, v);
    }
  }

  lemma YieldCons(t: Tree, more: seq<Tree>, v: Text)
    ensures YieldAll([t] + more) == Yield(t) + YieldAll(more)
    ensures Yield(t) + (YieldAll(more) + v) == YieldAll([t] + more) + v
  {
    assert ([t] + more)[1..] == more;
  }

  lemma NodeBack(g: Format, cps: Text, rest: seq<Frame>, x: Node, at: nat, z: Text)
    requires Wired(g) && Fixpoint(g.rules, g.at, g.at.fst.Keys) && Sound(g.rules, g.at)
    requires x in g.at.fst && at <= |cps| && StepNode(g, cps, rest, x, at).On?
    requires StackYields(g.rules, StepNode(g, cps, rest, x, at).c.stack, z)
    ensures var o := StepNode(g, cps, rest, x, at);
            at <= o.c.at <= |cps| && StackYields(g.rules, rest + [Todo(x)], cps[at..o.c.at] + z)
  {
    if x in g.at.one || x.Str? || x.Cls? {
      LeafBack(g, cps, rest, x, at, z);
    } else {
      Inner(g, cps, rest, x, at, z);
      assert cps[at..at] + z == z;
    }
  }

  lemma LeafBack(g: Format, cps: Text, rest: seq<Frame>, x: Node, at: nat, z: Text)
    requires Fixpoint(g.rules, g.at, g.at.fst.Keys) && Sound(g.rules, g.at)
    requires x in g.at.fst && at <= |cps| && StepNode(g, cps, rest, x, at).On? && StackYields(g.rules, rest, z)
    requires x in g.at.one || x.Str? || x.Cls?
    ensures var o := StepNode(g, cps, rest, x, at);
            at <= o.c.at <= |cps| && StackYields(g.rules, rest + [Todo(x)], cps[at..o.c.at] + z)
  {
    hide StackYields, TopYields, YieldAll, Sound, Fixpoint, Derives;
    if x in g.at.one {
      LeafOneBack(g, cps, rest, x, at);
    } else {
      LeafStrBack(g, cps, rest, x, at);
    }
    Push(g.rules, rest, Todo(x), cps[at..StepNode(g, cps, rest, x, at).c.at], z);
  }

  lemma LeafOneBack(g: Format, cps: Text, rest: seq<Frame>, x: Node, at: nat)
    requires Sound(g.rules, g.at) && x in g.at.one && at <= |cps| && StepNode(g, cps, rest, x, at).On?
    ensures var o := StepNode(g, cps, rest, x, at);
            at <= o.c.at <= |cps| && Derives(g.rules, x, cps[at..o.c.at])
  {
    hide Derives;
    assert SoundAt(g.rules, g.at, x);
    assert cps[at..at + 1] == [cps[at]];
  }

  lemma LeafStrBack(g: Format, cps: Text, rest: seq<Frame>, x: Node, at: nat)
    requires Fixpoint(g.rules, g.at, g.at.fst.Keys) && x in g.at.fst && x !in g.at.one && (x.Str? || x.Cls?)
    requires at <= |cps| && StepNode(g, cps, rest, x, at).On?
    ensures var o := StepNode(g, cps, rest, x, at);
            at <= o.c.at <= |cps| && Derives(g.rules, x, cps[at..o.c.at])
  {
    hide Derives;
    assert Solved(g.rules, g.at, x);
    var w := cps[at..at + |x.cps|];
    assert Parses(g.rules, x, TextTree(w));
    DerivesOf(g.rules, x, TextTree(w));
  }

  lemma Inner(g: Format, cps: Text, rest: seq<Frame>, x: Node, at: nat, z: Text)
    requires Wired(g) && x in g.at.fst && x !in g.at.one && !x.Str? && !x.Cls?
    requires at <= |cps| && StepNode(g, cps, rest, x, at).On?
    requires StackYields(g.rules, StepNode(g, cps, rest, x, at).c.stack, z)
    ensures StackYields(g.rules, rest + [Todo(x)], z)
  {
    hide StackYields, TopYields, YieldAll, Wired, Next, ByChar, ByEmpty, Todos;
    match x
    case Ref(name) =>
      var u, v := Pop(g.rules, rest, Todo(g.rules[name]), z);
      var t :| Parses(g.rules, g.rules[name], t) && Yield(t) == u;
      DerivesOf(g.rules, x, RefTree(t));
      Push(g.rules, rest, Todo(x), u, v);
    case Cat(kids) =>
      var ts, v := PopTodos(g.rules, rest, kids, z);
      DerivesOf(g.rules, x, CatTree(ts));
      Push(g.rules, rest, Todo(x), YieldAll(ts), v);
    case Alt(kids) =>
      var i := Pick(g, cps, kids, at);
      var u, v := Pop(g.rules, rest, Todo(kids[i]), z);
      var t :| Parses(g.rules, kids[i], t) && Yield(t) == u;
      DerivesOf(g.rules, x, AltTree(i, t));
      Push(g.rules, rest, Todo(x), u, v);
    case Rep(_, _, _) =>
      var u, v := Pop(g.rules, rest, Loop(x, 0, at), z);
      var ts :| Rounds(g.rules, x, 0, ts) && YieldAll(ts) == u;
      DerivesOf(g.rules, x, RepTree(ts));
      Push(g.rules, rest, Todo(x), u, v);
  }

  lemma LoopBack(g: Format, cps: Text, rest: seq<Frame>, f: Frame, at: nat, z: Text)
    requires Sound(g.rules, g.at) && FrameIn(g, f) && f.Loop?
    requires (f.rep.max < 0 || f.rep.min <= f.rep.max)
    requires StepLoop(g, cps, rest, f, at).On? && StackYields(g.rules, StepLoop(g, cps, rest, f, at).c.stack, z)
    ensures StackYields(g.rules, rest + [f], z)
  {
    hide StackYields, TopYields, Sound;
    var rep, count := f.rep, f.count;
    if More(g, cps, f, at) {
      var loop := Loop(rep, count + 1, at);
      assert rest + [loop, Todo(rep.kid)] == (rest + [loop]) + [Todo(rep.kid)];
      var u, w := Pop(g.rules, rest + [loop], Todo(rep.kid), z);
      var u2, v := Pop(g.rules, rest, loop, w);
      var t :| Parses(g.rules, rep.kid, t) && Yield(t) == u;
      var ts :| Rounds(g.rules, rep, count + 1, ts) && YieldAll(ts) == u2;
      var all := [t] + ts;
      assert all[1..] == ts;
      assert Rounds(g.rules, rep, count, all) && YieldAll(all) == u + u2;
      Push(g.rules, rest, f, u + u2, v);
      assert z == (u + u2) + v;
    } else {
      if count < rep.min {
        var t := EmptyTree(g.rules, g.at, rep.kid);
        var ts := seq(rep.min - count, _ => t);
        AllEmpty(ts);
        assert Rounds(g.rules, rep, count, ts) && YieldAll(ts) == [];
      } else {
        assert Rounds(g.rules, rep, count, []) && YieldAll([]) == [];
      }
      Push(g.rules, rest, f, [], z);
      assert [] + z == z;
    }
  }

  lemma StepBack(g: Format, cps: Text, c: Config, z: Text)
    requires Wired(g) && Fixpoint(g.rules, g.at, g.at.fst.Keys) && Sound(g.rules, g.at)
    requires Valid(g, cps, c) && c.stack != []
    requires Step(g, cps, c).On? && StackYields(g.rules, Step(g, cps, c).c.stack, z)
    ensures var d := Step(g, cps, c).c;
            c.at <= d.at <= |cps| && StackYields(g.rules, c.stack, cps[c.at..d.at] + z)
  {
    var rest, top := c.stack[..|c.stack| - 1], c.stack[|c.stack| - 1];
    assert c.stack == rest + [top] && FrameIn(g, top);
    match top
    case Loop(rep, _, _) =>
      assert ReadNode(g.rules, rep);
      LoopBack(g, cps, rest, top, c.at, z);
      assert cps[c.at..c.at] + z == z;
    case Todo(n) => NodeBack(g, cps, rest, n, c.at, z);
  }

  /** Whatever the stack derives after a run, before it it derives with what the run read in front. */
  lemma {:induction false} RunBack(g: Format, cps: Text, c: Config, k: nat, z: Text)
    requires Wired(g) && Fixpoint(g.rules, g.at, g.at.fst.Keys) && Sound(g.rules, g.at)
    requires Valid(g, cps, c) && Run(g, cps, c, k).On? && StackYields(g.rules, Run(g, cps, c, k).c.stack, z)
    ensures var d := Run(g, cps, c, k).c;
            c.at <= d.at <= |cps| && Valid(g, cps, d) && StackYields(g.rules, c.stack, cps[c.at..d.at] + z)
    decreases k
  {
    if k == 0 || c.stack == [] {
      assert cps[c.at..c.at] + z == z;
    } else {
      var m := Step(g, cps, c).c;
      StepValid(g, cps, c);
      RunBack(g, cps, m, k - 1, z);
      var d := Run(g, cps, c, k).c;
      StepBack(g, cps, c, cps[m.at..d.at] + z);
      Glue(cps, c.at, m.at, d.at, z);
    }
  }

  lemma Glue(cps: Text, a: nat, b: nat, c: nat, z: Text)
    requires a <= b <= c <= |cps|
    ensures cps[a..b] + (cps[b..c] + z) == cps[a..c] + z
  {
    assert cps[a..b] + cps[b..c] == cps[a..c];
    assert cps[a..b] + (cps[b..c] + z) == (cps[a..b] + cps[b..c]) + z;
  }

  /** A run that ends with nothing left has read a text the start rule derives. */
  lemma AcceptedDerives(g: Format, cps: Text, k: nat)
    requires Ready(g) && Run(g, cps, Begin(g), k).On? && Run(g, cps, Begin(g), k).c.stack == []
    ensures Run(g, cps, Begin(g), k).c.at <= |cps|
    ensures Derives(g.rules, g.rules[g.start], cps[..Run(g, cps, Begin(g), k).c.at])
  {
    var d := Run(g, cps, Begin(g), k).c;
    RunBack(g, cps, Begin(g), k, []);
    DerivesFromBegin(g, cps[0..d.at] + []);
    assert cps[0..d.at] + [] == cps[..d.at];
  }

  lemma DerivesFromBegin(g: Format, z: Text)
    requires g.start in g.rules && StackYields(g.rules, Begin(g).stack, z)
    ensures Derives(g.rules, g.rules[g.start], z)
  {
    assert Begin(g).stack == [] + [Todo(g.rules[g.start])];
    var u, v := Pop(g.rules, [], Todo(g.rules[g.start]), z);
    assert z == u;
  }
}
