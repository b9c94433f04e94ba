/**
 Where the recogniser stops is exact: what it has read begins some text of the language
 (where every rule derives something), and no text of the language begins with what it
 has read and the character it refuses.
 */
module MachineRefusal {
  import opened Ranges
  import opened Grammar
  import opened Attributes
  import opened Machine
  import opened MachineSound
  import opened MachineComplete

  // ----- what was read extends to a member

  lemma {:induction false} StackProductive(g: Format, stack: seq<Frame>) returns (z: Text)
    requires Ready(g) && AllProductive(g.rules) && StackIn(g, stack)
    ensures StackYields(g.rules, stack, z)
    decreases |stack|
  {
    if stack == [] {
      z := [];
    } else {
      var rest, top := stack[..|stack| - 1], stack[|stack| - 1];
      var v := StackProductive(g, rest);
      assert FrameIn(g, top);
      var u := FrameProductive(g, top);
      Push(g.rules, rest, top, u, v);
      assert stack == rest + [top];
      z := u + v;
    }
  }

  lemma FrameProductive(g: Format, f: Frame) returns (u: Text)
    requires Ready(g) && AllProductive(g.rules) && FrameIn(g, f)
    ensures FrameYields(g.rules, f, u)
  {
    match f
    case Todo(n) =>
      var t := NodeProductive(g.rules, n);
      DerivesOf(g.rules, n, t);
      u := Yield(t);
    case Loop(rep, count, _) =>
      KidsRead(g.rules, rep);
      assert rep.kid == Kids(rep)[0];
      var t := NodeProductive(g.rules, rep.kid);
      var ts := seq(if count < rep.min then rep.min - count else 0, _ => t);
      assert Rounds(g.rules, rep, count, ts);
      u := YieldAll(ts);
  }

  predicate InString(g: Format, c: Config)
    requires c.stack != []
  {
    var top := c.stack[|c.stack| - 1];
    top.Todo? && top.n.Str? && top.n !in g.at.one
  }

  /** From where a step refuses, the stack before it derives what the step read and more. */
  lemma RefusalProductive(g: Format, cps: Text, c: Config) returns (z: Text)
    requires Ready(g) && AllProductive(g.rules) && Valid(g, cps, c) && c.stack != [] && Step(g, cps, c).Refused?
    ensures c.at <= Step(g, cps, c).stop <= |cps|
    ensures StackYields(g.rules, c.stack, cps[c.at..Step(g, cps, c).stop] + z)
  {
    hide *;
    WholeStack(g, cps, c);
    if InString(g, c) {
      z := StringProductive(g, cps, c);
    } else {
      StopsHere(g, cps, c);
      z := StackProductive(g, c.stack);
      assert cps[c.at..c.at] + z == z;
    }
  }

  lemma WholeStack(g: Format, cps: Text, c: Config)
    requires Ready(g) && Valid(g, cps, c) && c.stack != []
    ensures c.at <= |cps| && StackIn(g, c.stack)
    ensures Step(g, cps, c).Refused? ==> c.at <= Step(g, cps, c).stop <= |cps|
  {
    hide Step;
    StepValid(g, cps, c);
  }

  lemma StringProductive(g: Format, cps: Text, c: Config) returns (z: Text)
    requires Ready(g) && AllProductive(g.rules) && Valid(g, cps, c) && c.stack != [] && InString(g, c)
    requires Step(g, cps, c).Refused?
    ensures c.at <= Step(g, cps, c).stop <= |cps|
    ensures StackYields(g.rules, c.stack, cps[c.at..Step(g, cps, c).stop] + z)
  {
    hide StackYields, Ready, AllProductive, StackIn, Step;
    var rest, x := c.stack[..|c.stack| - 1], c.stack[|c.stack| - 1].n;
    assert c.stack == rest + [Todo(x)];
    BelowIn(g, c);
    StringStops(g, cps, c);
    var v := StackProductive(g, rest);
    var k := Matched(x.cps, x.ci, cps, c.at);
    var more := StringRest(g, cps, c.at, x);
    Push(g.rules, rest, Todo(x), cps[c.at..c.at + k] + more, v);
    z := more + v;
    assert (cps[c.at..c.at + k] + more) + v == cps[c.at..c.at + k] + z;
  }

  lemma BelowIn(g: Format, c: Config)
    requires StackIn(g, c.stack) && c.stack != []
    ensures StackIn(g, c.stack[..|c.stack| - 1])
  {
  }

  lemma StringStops(g: Format, cps: Text, c: Config)
    requires c.stack != [] && InString(g, c) && c.at <= |cps| && Step(g, cps, c).Refused?
    ensures var x := c.stack[|c.stack| - 1].n; Step(g, cps, c).stop == c.at + Matched(x.cps, x.ci, cps, c.at)
  {
  }

  /** What of a string is left when the text stops matching it, as it derives. */
  lemma StringRest(g: Format, cps: Text, at: nat, x: Node) returns (more: Text)
    requires x.Str? && at <= |cps|
    ensures Derives(g.rules, x, cps[at..at + Matched(x.cps, x.ci, cps, at)] + more)
  {
    var k := Matched(x.cps, x.ci, cps, at);
    more := x.cps[k..];
    var w := cps[at..at + k] + more;
    assert Parses(g.rules, x, TextTree(w));
    DerivesOf(g.rules, x, TextTree(w));
  }

  lemma StopsHere(g: Format, cps: Text, c: Config)
    requires c.at <= |cps| && c.stack != [] && !InString(g, c) && Step(g, cps, c).Refused?
    ensures Step(g, cps, c).stop == c.at
  {
  }

  /** The configuration a run refuses from. */
  lemma {:induction false} LastStep(g: Format, cps: Text, c: Config, k: nat) returns (j: nat, d: Config)
    requires Wired(g) && Valid(g, cps, c) && Run(g, cps, c, k).Refused?
    ensures j < k && Run(g, cps, c, j) == On(d) && d.stack != [] && Valid(g, cps, d)
    ensures Step(g, cps, d) == Run(g, cps, c, k)
    decreases k
  {
    StepValid(g, cps, c);
    var o := Step(g, cps, c);
    if o.Refused? {
      j, d := 0, c;
    } else {
      var i;
      i, d := LastStep(g, cps, o.c, k - 1);
      StepThen(g, cps, c, o.c, i);
      j := 1 + i;
    }
  }

  /** Where a run of the recogniser stops: the index it refuses at, or where nothing is left. */
  ghost function StopOf(o: Outcome): nat {
    match o
    case Refused(stop) => stop
    case On(c) => c.at
  }

  lemma ReadExtends(g: Format, cps: Text, k: nat) returns (z: Text)
    requires Ready(g) && g.start in g.rules && AllProductive(g.rules) && Over(Run(g, cps, Begin(g), k))
    ensures StopOf(Run(g, cps, Begin(g), k)) <= |cps|
    ensures Derives(g.rules, g.rules[g.start], cps[..StopOf(Run(g, cps, Begin(g), k))] + z)
  {
    hide Ready;
    var b := Begin(g);
    BeginValid(g, cps);
    var o := Run(g, cps, b, k);
    if o.On? {
      AcceptedDerives(g, cps, k);
      z := [];
      assert cps[..o.c.at] + z == cps[..o.c.at];
    } else {
      var j, d := LastStep(g, cps, b, k);
      z := RefusalProductive(g, cps, d);
      RunBack(g, cps, b, j, cps[d.at..o.stop] + z);
      Glue(cps, 0, d.at, o.stop, z);
      assert cps[0..o.stop] == cps[..o.stop];
      DerivesFromBegin(g, cps[..o.stop] + z);
    }
  }

  lemma BeginValid(g: Format, cps: Text)
    requires Ready(g)
    ensures g.start in g.rules && Valid(g, cps, Begin(g))
    ensures Wired(g) && Fixpoint(g.rules, g.at, g.at.fst.Keys) && Sound(g.rules, g.at)
  {
  }

  // ----- the refused character begins nothing

  /** Two texts alike up to and including position m. */
  ghost predicate Alike(a: Text, b: Text, m: nat) {
    m < |a| && m < |b| && a[..m + 1] == b[..m + 1]
  }

  lemma {:induction false} MatchedAlike(want: seq<int>, ci: bool, a: Text, b: Text, at: nat, m: nat)
    requires Alike(a, b, m) && at <= m
    requires at + Matched(want, ci, a, at) <= m
    ensures Matched(want, ci, b, at) == Matched(want, ci, a, at)
    decreases |want|
  {
    assert a[at] == a[..m + 1][at] == b[at];
    if want != [] && SameChar(want[0], a[at], ci) {
      MatchedAlike(want[1..], ci, a, b, at + 1, m);
    }
  }

  lemma {:induction false} ByCharAlike(g: Format, a: Text, b: Text, kids: seq<Node>, at: nat)
    requires at < |a| && at < |b| && a[at] == b[at]
    ensures ByChar(g, a, kids, at) == ByChar(g, b, kids, at)
  {
    if kids != [] { ByCharAlike(g, a, b, kids[1..], at); }
  }

  lemma NodeAlike(g: Format, a: Text, b: Text, rest: seq<Frame>, x: Node, at: nat, m: nat)
    requires Alike(a, b, m) && at <= m && StopOf(StepNode(g, a, rest, x, at)) <= m
    ensures StepNode(g, b, rest, x, at) == StepNode(g, a, rest, x, at)
  {
    hide In, Todos, ByEmpty, F;
    assert a[at] == a[..m + 1][at] == b[at];
    if x !in g.at.one {
      if x.Str? {
        MatchedAlike(x.cps, x.ci, a, b, at, m);
      } else if x.Alt? {
        ByCharAlike(g, a, b, x.kids, at);
      }
    }
  }

  lemma LoopAlike(g: Format, a: Text, b: Text, rest: seq<Frame>, f: Frame, at: nat, m: nat)
    requires Alike(a, b, m) && at <= m && f.Loop? && f.rep.Rep?
    ensures StepLoop(g, b, rest, f, at) == StepLoop(g, a, rest, f, at)
  {
    hide In, F;
    assert a[at] == a[..m + 1][at] == b[at];
  }

  /** A step that stays at or before m reads no further than m. */
  lemma StepAlike(g: Format, a: Text, b: Text, c: Config, m: nat)
    requires Alike(a, b, m) && c.at <= m && c.stack != [] && StopOf(Step(g, a, c)) <= m
    ensures Step(g, b, c) == Step(g, a, c)
  {
    hide StepLoop, StepNode;
    var rest, top := c.stack[..|c.stack| - 1], c.stack[|c.stack| - 1];
    if top.Todo? {
      NodeAlike(g, a, b, rest, top.n, c.at, m);
    } else if top.rep.Rep? {
      LoopAlike(g, a, b, rest, top, c.at, m);
    }
  }

  lemma {:induction false} RunAlike(g: Format, a: Text, b: Text, c: Config, k: nat, m: nat)
    requires Wired(g) && Valid(g, a, c) && Alike(a, b, m) && StopOf(Run(g, a, c, k)) <= m
    ensures Run(g, b, c, k) == Run(g, a, c, k)
    decreases k
  {
    if k != 0 && c.stack != [] {
      StepValid(g, a, c);
      var o := Step(g, a, c);
      if o.On? {
        RunForward(g, a, o.c, k - 1);
        StepAlike(g, a, b, c, m);
        RunAlike(g, a, b, o.c, k - 1, m);
      } else {
        StepAlike(g, a, b, c, m);
      }
    }
  }

  lemma {:induction false} RunForward(g: Format, a: Text, c: Config, k: nat)
    requires Wired(g) && Valid(g, a, c)
    ensures c.at <= StopOf(Run(g, a, c, k)) <= |a|
    decreases k
  {
    if k != 0 && c.stack != [] {
      StepValid(g, a, c);
      var o := Step(g, a, c);
      if o.On? { RunForward(g, a, o.c, k - 1); }
    }
  }

  /** No member begins with the text up to and including the character a run stops at. */
  lemma NothingBeyond(g: Format, cps: Text, k: nat, z: Text)
    requires Ready(g) && g.start in g.rules && Over(Run(g, cps, Begin(g), k))
    requires StopOf(Run(g, cps, Begin(g), k)) < |cps|
    ensures !Derives(g.rules, g.rules[g.start], cps[..StopOf(Run(g, cps, Begin(g), k)) + 1] + z)
  {
    hide Ready, Alike, Run;
    var m := StopOf(Run(g, cps, Begin(g), k));
    var b := cps[..m + 1] + z;
    BeginValid(g, cps);
    if Derives(g.rules, g.rules[g.start], b) {
      var j := DerivedAccepted(g, b);
      AlikePrefix(cps, m, z);
      RunAlike(g, cps, b, Begin(g), k, m);
      RunOver(g, b, Begin(g), k, if j < k then k else j);
      RunOver(g, b, Begin(g), j, if j < k then k else j);
      assert false;
    }
  }

  lemma AlikePrefix(a: Text, m: nat, z: Text)
    requires m < |a|
    ensures Alike(a, a[..m + 1] + z, m)
  {
    assert (a[..m + 1] + z)[..m + 1] == a[..m + 1];
  }
}
