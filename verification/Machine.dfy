/**
 The recogniser's stack machine (recogniseFormat, go/formatgrammar.go:888-981), one step
 at a time, and its runs.
 */
module Machine {
  import opened Ranges
  import opened Grammar
  import opened Attributes
  import opened Flow
  import opened Leading

  /** A grammar ready to run: go/formatgrammar.go:36-43. */
  datatype Format = Format(start: string, empty: bool, rules: Rules, at: Attrs)

  /** The nodes with attributes are closed under kids and references. */
  ghost predicate Wired(g: Format) {
    ClosedUnder(g.rules, g.at.fst.Keys)
  }

  /** What the analysis guarantees: the attributes solve their equations and are true, every
      choice is decided by one character, and leading references fall in rank. */
  ghost predicate Ready(g: Format) {
    && ReadRules(g.rules) && g.start in g.rules
    && Wired(g)
    && (forall name :: name in g.rules ==> g.rules[name] in g.at.fst)
    && Fixpoint(g.rules, g.at, g.at.fst.Keys)
    && Sound(g.rules, g.at)
    && Deterministic(g.rules, g.at)
    && exists done :: Ranked(g.rules, g.at, done)
  }

  /** What is still to match, the top last: a node, or a repetition with the rounds it has
      made and where the last one began. */
  datatype Frame = Todo(n: Node) | Loop(rep: Node, count: nat, at: nat)

  datatype Config = Config(stack: seq<Frame>, at: nat)

  /** A step leads to a configuration or refuses at an index. */
  datatype Outcome = On(c: Config) | Refused(stop: nat)

  ghost predicate FrameIn(g: Format, f: Frame) {
    match f
    case Todo(n) => n in g.at.fst
    case Loop(rep, count, _) => rep.Rep? && rep in g.at.fst && (rep.max < 0 || count <= rep.max)
  }

  ghost predicate StackIn(g: Format, stack: seq<Frame>) {
    forall i :: 0 <= i < |stack| ==> FrameIn(g, stack[i])
  }

  ghost predicate Valid(g: Format, cps: Text, c: Config) {
    StackIn(g, c.stack) && c.at <= |cps|
  }

  /** The kids of a sequence as frames, the first on top. */
  function Todos(items: seq<Node>): seq<Frame> {
    if items == [] then [] else Todos(items[1..]) + [Todo(items[0])]
  }

  /** How many of a string's characters the text has at a place. */
  function Matched(want: seq<int>, ci: bool, cps: Text, at: nat): (k: nat)
    requires at <= |cps|
    ensures k <= |want| && at + k <= |cps|
    ensures forall i :: 0 <= i < k ==> SameChar(want[i], cps[at + i], ci)
    ensures k < |want| ==> at + k == |cps| || !SameChar(want[k], cps[at + k], ci)
  {
    if want == [] || at == |cps| || !SameChar(want[0], cps[at], ci) then 0
    else
      var k := Matched(want[1..], ci, cps, at + 1);
      assert forall i :: 0 < i < k + 1 ==> want[i] == want[1..][i - 1];
      k + 1
  }

  ghost predicate Next(cps: Text, at: nat, s: seq<Range>) {
    at < |cps| && In(s, cps[at])
  }

  /** The first kid the next character begins. */
  ghost function ByChar(g: Format, cps: Text, kids: seq<Node>, at: nat): (i: nat)
    ensures i <= |kids|
    ensures i < |kids| ==> Next(cps, at, F(g.at, kids[i]))
    ensures forall k :: 0 <= k < i ==> !Next(cps, at, F(g.at, kids[k]))
  {
    if kids == [] || Next(cps, at, F(g.at, kids[0])) then 0
    else
      var i := ByChar(g, cps, kids[1..], at);
      assert forall k :: 0 < k < i + 1 ==> kids[k] == kids[1..][k - 1];
      i + 1
  }

  /** The first kid that can match nothing. */
  function ByEmpty(at: Attrs, kids: seq<Node>): (i: nat)
    ensures i <= |kids|
    ensures i < |kids| ==> kids[i] in at.nul
    ensures forall k :: 0 <= k < i ==> kids[k] !in at.nul
  {
    if kids == [] || kids[0] in at.nul then 0
    else
      var i := ByEmpty(at, kids[1..]);
      assert forall k :: 0 < k < i + 1 ==> kids[k] == kids[1..][k - 1];
      i + 1
  }

  ghost function Pick(g: Format, cps: Text, kids: seq<Node>, at: nat): (i: nat)
    ensures i <= |kids|
  {
    var i := ByChar(g, cps, kids, at);
    if i < |kids| then i else ByEmpty(g.at, kids)
  }

  /** Whether a repetition goes round again. */
  ghost predicate More(g: Format, cps: Text, f: Frame, at: nat)
    requires f.Loop? && f.rep.Rep?
  {
    (f.rep.max < 0 || f.count < f.rep.max) && Next(cps, at, F(g.at, f.rep.kid)) && (f.count == 0 || f.at < at)
  }

  ghost function StepLoop(g: Format, cps: Text, rest: seq<Frame>, f: Frame, at: nat): Outcome
    requires f.Loop? && f.rep.Rep?
  {
    if More(g, cps, f, at) then On(Config(rest + [Loop(f.rep, f.count + 1, at), Todo(f.rep.kid)], at))
    else if f.count < f.rep.min && f.rep.kid !in g.at.nul then Refused(at)
    else On(Config(rest, at))
  }

  ghost function StepNode(g: Format, cps: Text, rest: seq<Frame>, x: Node, at: nat): Outcome
    requires at <= |cps|
  {
    if x in g.at.one then
      if Next(cps, at, F(g.at, x)) then On(Config(rest, at + 1)) else Refused(at)
    else
      match x
      case Str(want, ci) =>
        var k := Matched(want, ci, cps, at);
        if k < |want| then Refused(at + k) else On(Config(rest, at + k))
      case Ref(name) => if name in g.rules then On(Config(rest + [Todo(g.rules[name])], at)) else Refused(at)
      case Cat(kids) => On(Config(rest + Todos(kids), at))
      case Alt(kids) =>
        var i := Pick(g, cps, kids, at);
        if i < |kids| then On(Config(rest + [Todo(kids[i])], at)) else Refused(at)
      case Rep(_, _, _) => On(Config(rest + [Loop(x, 0, at)], at))
      case Cls(_) => On(Config(rest, at))
  }

  /** One step of a valid configuration with something left to match; any other stands still. */
  ghost function Step(g: Format, cps: Text, c: Config): Outcome {
    if c.stack == [] || |cps| < c.at then On(c)
    else
      var rest, top := c.stack[..|c.stack| - 1], c.stack[|c.stack| - 1];
      match top
      case Loop(rep, _, _) => if rep.Rep? then StepLoop(g, cps, rest, top, c.at) else On(c)
      case Todo(n) => StepNode(g, cps, rest, n, c.at)
  }

  lemma {:induction false} TodosIn(g: Format, items: seq<Node>)
    requires forall i :: 0 <= i < |items| ==> items[i] in g.at.fst
    ensures StackIn(g, Todos(items))
  {
    if items != [] { TodosIn(g, items[1..]); }
  }

  lemma StepValid(g: Format, cps: Text, c: Config)
    requires Wired(g) && Valid(g, cps, c)
    ensures var o := Step(g, cps, c);
            if o.On? then Valid(g, cps, o.c) && c.at <= o.c.at else c.at <= o.stop <= |cps|
  {
    if c.stack != [] {
      var rest, top := c.stack[..|c.stack| - 1], c.stack[|c.stack| - 1];
      assert FrameIn(g, top) && StackIn(g, rest);
      match top
      case Loop(rep, count, _) => assert rep.kid == Kids(rep)[0];
      case Todo(x) =>
        match x
        case Cat(kids) =>
          assert forall i :: 0 <= i < |kids| ==> kids[i] == Kids(x)[i];
          TodosIn(g, kids);
        case Alt(kids) => assert forall i :: 0 <= i < |kids| ==> kids[i] == Kids(x)[i];
        case _ =>
    }
  }

  // ----- runs

  /** At most k steps: a run stays where it stops. */
  ghost function Iterate(step: Config -> Outcome, c: Config, k: nat): Outcome
    decreases k
  {
    if k == 0 || c.stack == [] then On(c)
    else
      match step(c)
      case Refused(stop) => Refused(stop)
      case On(d) => Iterate(step, d, k - 1)
  }

  ghost function Stepper(g: Format, cps: Text): Config -> Outcome {
    c => Step(g, cps, c)
  }

  ghost function Run(g: Format, cps: Text, c: Config, k: nat): Outcome {
    Iterate(Stepper(g, cps), c, k)
  }

  /** The run is over: refused, or nothing left to match. */
  predicate Over(o: Outcome) {
    o.Refused? || o.c.stack == []
  }

  lemma {:induction false} IteratePlus(step: Config -> Outcome, c: Config, j: nat, k: nat)
    ensures Iterate(step, c, j + k) == match Iterate(step, c, j)
                                       case Refused(stop) => Refused(stop)
                                       case On(d) => Iterate(step, d, k)
    decreases j
  {
    if j != 0 && c.stack != [] {
      var o := step(c);
      if o.On? { IteratePlus(step, o.c, j - 1, k); }
    }
  }

  lemma RunOver(g: Format, cps: Text, c: Config, j: nat, k: nat)
    requires Over(Run(g, cps, c, j)) && j <= k
    ensures Run(g, cps, c, k) == Run(g, cps, c, j)
  {
    IteratePlus(Stepper(g, cps), c, j, k - j);
  }

  lemma RunThen(g: Format, cps: Text, c: Config, j: nat, d: Config, k: nat)
    requires Run(g, cps, c, j) == On(d)
    ensures Run(g, cps, c, j + k) == Run(g, cps, d, k)
  {
    IteratePlus(Stepper(g, cps), c, j, k);
  }

  lemma RunOne(g: Format, cps: Text, c: Config)
    requires c.stack != []
    ensures Run(g, cps, c, 1) == Step(g, cps, c)
  {
    var o := Stepper(g, cps)(c);
    if o.On? { assert Iterate(Stepper(g, cps), o.c, 0) == On(o.c); }
  }

  /** A step and then a run. */
  lemma StepThen(g: Format, cps: Text, c: Config, d: Config, k: nat)
    requires c.stack != [] && Step(g, cps, c) == On(d)
    ensures Run(g, cps, c, 1 + k) == Run(g, cps, d, k)
  {
    RunOne(g, cps, c);
    RunThen(g, cps, c, 1, d, k);
  }

  ghost function Begin(g: Format): Config
    requires g.start in g.rules
  {
    Config([Todo(g.rules[g.start])], 0)
  }
}
