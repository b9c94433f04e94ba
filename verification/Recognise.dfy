/**
 The recogniser (recogniseFormat, go/formatgrammar.go:888-981): a loop over an explicit
 stack, one choice per character, with a bound on its steps.
 */
module Recognise {
  import opened Ranges
  import opened Grammar
  import opened Attributes
  import opened AttributeLoop
  import opened Machine
  import opened MachineSound
  import opened MachineComplete
  import opened MachineEnds
  import opened MachineRefusal

  const FORMAT_STEP_MAX: nat := 1000000

  /** The text is read to its end within the step bound, or refused within it. */
  ghost predicate InBound(g: Format, cps: Text)
    requires g.start in g.rules
  {
    Over(Run(g, cps, Begin(g), 1000000))
  }

  ghost function Verdict(cps: Text, o: Outcome): int {
    match o
    case Refused(stop) => stop
    case On(c) => if c.at == |cps| then -1 else c.at
  }

  /** Some text of the language begins with w. */
  ghost predicate Begins(g: Format, w: Text)
    requires g.start in g.rules
  {
    exists z :: DerivesWith(g, w, z)
  }

  ghost predicate DerivesWith(g: Format, w: Text, z: Text)
    requires g.start in g.rules
  {
    Derives(g.rules, g.rules[g.start], w + z)
  }

  lemma BeginsBy(g: Format, w: Text, z: Text)
    requires g.start in g.rules && Derives(g.rules, g.rules[g.start], w + z)
    ensures Begins(g, w)
  {
    assert DerivesWith(g, w, z);
  }

  lemma NoneBegins(g: Format, cps: Text, k: nat)
    requires Ready(g) && g.start in g.rules && Over(Run(g, cps, Begin(g), k))
    requires StopOf(Run(g, cps, Begin(g), k)) < |cps|
    ensures !Begins(g, cps[..StopOf(Run(g, cps, Begin(g), k)) + 1])
  {
    hide Ready, Run, Derives;
    var w := cps[..StopOf(Run(g, cps, Begin(g), k)) + 1];
    forall z ensures !DerivesWith(g, w, z) { NothingBeyond(g, cps, k, z); }
  }

  // ----- the verdict means membership

  /** Wherever a run ends, it ends with -1 exactly on the texts the start rule derives. */
  lemma VerdictDecides(g: Format, cps: Text, k: nat)
    requires Ready(g) && g.start in g.rules && Over(Run(g, cps, Begin(g), k))
    ensures Verdict(cps, Run(g, cps, Begin(g), k)) == -1 <==> Derives(g.rules, g.rules[g.start], cps)
  {
    hide Ready, Run, Derives;
    var o := Run(g, cps, Begin(g), k);
    if Derives(g.rules, g.rules[g.start], cps) {
      var j := DerivedAccepted(g, cps);
      var n := if j < k then k else j;
      RunOver(g, cps, Begin(g), j, n);
      RunOver(g, cps, Begin(g), k, n);
    }
    if o.On? {
      AcceptedDerives(g, cps, k);
      assert cps[..|cps|] == cps;
    } else {
      BeginValid(g, cps);
      RunForward(g, cps, Begin(g), k);
    }
  }

  // ----- the loop

  /** Whether the next character is in a set, and the recogniser's test of it. */
  method HasNext(cps: Text, at: nat, s: seq<Range>) returns (r: bool)
    requires GoodSet(s) && at <= |cps|
    ensures r <==> Next(cps, at, s)
  {
    if at < |cps| {
      OrderedOf(s);
      r := Holds(s, cps[at]);
    } else {
      r := false;
    }
  }

  lemma OrderedOf(s: seq<Range>)
    requires GoodSet(s)
    ensures Ordered(s)
  {
  }

  /** The alternative to take: the first the next character begins, else the first that can match nothing. */
  method PickAlt(g: Format, cps: Text, kids: seq<Node>, at: nat) returns (i: nat)
    requires GoodSets(g.at) && at <= |cps|
    ensures i == Pick(g, cps, kids, at)
  {
    i := 0;
    while i < |kids|
      invariant i <= |kids| && forall k :: 0 <= k < i ==> !Next(cps, at, F(g.at, kids[k]))
    {
      GoodF(g.at, kids[i]);
      var has := HasNext(cps, at, F(g.at, kids[i]));
      if has { break; }
      i := i + 1;
    }
    assert ByChar(g, cps, kids, at) == i;
    if i == |kids| {
      i := 0;
      while i < |kids| && kids[i] !in g.at.nul
        invariant i <= |kids| && forall k :: 0 <= k < i ==> kids[k] !in g.at.nul
      {
        i := i + 1;
      }
      assert ByEmpty(g.at, kids) == i;
    }
  }

  /** Two characters alike, as the recogniser compares them (fSame). */
  predicate Same(a: int, b: int, ci: bool) {
    a == b || (ci && 0x61 <= Lower(a) <= 0x7a && Lower(a) == Lower(b))
  }

  lemma SameIs(a: int, b: int, ci: bool)
    ensures Same(a, b, ci) <==> SameChar(a, b, ci)
  {
  }

  /** A string's characters read one by one: how many there are before the first that differs. */
  method ReadString(want: seq<int>, ci: bool, cps: Text, at0: nat) returns (at: nat)
    requires at0 <= |cps|
    ensures at == at0 + Matched(want, ci, cps, at0)
  {
    hide Matched, Same, SameChar;
    at := at0;
    var j := 0;
    assert want[0..] == want;
    while j < |want|
      invariant 0 <= j <= |want| && at == at0 + j <= |cps|
      invariant Matched(want, ci, cps, at0) == j + Matched(want[j..], ci, cps, at)
    {
      MatchedStep(want, ci, cps, at, j);
      if at == |cps| || !Same(want[j], cps[at], ci) { return; }
      at := at + 1;
      j := j + 1;
    }
    assert want[|want|..] == [];
  }

  lemma MatchedStep(want: seq<int>, ci: bool, cps: Text, at: nat, j: nat)
    requires j < |want| && at <= |cps|
    ensures Matched(want[j..], ci, cps, at)
         == if at == |cps| || !Same(want[j], cps[at], ci) then 0 else 1 + Matched(want[j + 1..], ci, cps, at + 1)
  {
    hide Same, SameChar;
    assert want[j..][0] == want[j] && want[j..][1..] == want[j + 1..];
    if at < |cps| { SameIs(want[j], cps[at], ci); }
  }

  /** One turn of the loop: the top frame taken off and acted on. */
  method Turn(g: Format, cps: Text, stack: seq<Frame>, at: nat) returns (o: Outcome)
    requires Ready(g) && Valid(g, cps, Config(stack, at)) && stack != []
    ensures o == Step(g, cps, Config(stack, at))
  {
    hide Sound, Fixpoint;
    var fr := stack[|stack| - 1];
    var rest := stack[..|stack| - 1];
    assert stack == rest + [fr] && FrameIn(g, fr);
    TopStep(g, cps, at, rest, fr);
    GoodFormat(g);
    match fr
    case Loop(rep, count, began) =>
      var node := rep.kid;
      GoodF(g.at, node);
      var has := HasNext(cps, at, F(g.at, node));
      var more := (rep.max < 0 || count < rep.max) && has && (count == 0 || began < at);
      if more {
        o := On(Config(rest + [Loop(rep, count + 1, at), Todo(node)], at));
      } else if count < rep.min && node !in g.at.nul {
        o := Refused(at);
      } else {
        o := On(Config(rest, at));
      }
    case Todo(x) => o := TurnNode(g, cps, rest, x, at);
  }

  lemma GoodFormat(g: Format)
    requires Ready(g)
    ensures GoodSets(g.at)
  {
  }

  method TurnNode(g: Format, cps: Text, rest: seq<Frame>, x: Node, at: nat) returns (o: Outcome)
    requires GoodSets(g.at) && at <= |cps|
    requires x.Ref? ==> x.name in g.rules
    ensures o == StepNode(g, cps, rest, x, at)
  {
    if x in g.at.one {
      GoodF(g.at, x);
      var has := HasNext(cps, at, F(g.at, x));
      return if has then On(Config(rest, at + 1)) else Refused(at);
    }
    match x
    case Str(want, ci) =>
      var to := ReadString(want, ci, cps, at);
      o := if to < at + |want| then Refused(to) else On(Config(rest, to));
    case Ref(name) => o := On(Config(rest + [Todo(g.rules[name])], at));
    case Cat(kids) =>
      var pushed := rest;
      var j := |kids|;
      while 0 < j
        invariant 0 <= j <= |kids| && pushed == rest + Todos(kids[j..])
      {
        j := j - 1;
        assert kids[j..][1..] == kids[j + 1..];
        pushed := pushed + [Todo(kids[j])];
      }
      assert kids[0..] == kids;
      o := On(Config(pushed, at));
    case Alt(kids) =>
      var i := PickAlt(g, cps, kids, at);
      o := if i < |kids| then On(Config(rest + [Todo(kids[i])], at)) else Refused(at);
    case Rep(_, _, _) => o := On(Config(rest + [Loop(x, 0, at)], at));
    case Cls(_) => o := On(Config(rest, at));
  }

  /** The step bound suffices for every text short enough for the grammar's pace. */
  lemma BoundSuffices(g: Format, cps: Text)
    requires Ready(g)
    ensures g.start in g.rules && (Pace(g) * (|cps| + 1) <= 1000000 ==> InBound(g, cps))
  {
    hide Ready, Run, Pace;
    BeginValid(g, cps);
    var k := AlwaysEnds(g, cps);
    if k <= FORMAT_STEP_MAX { RunOver(g, cps, Begin(g), k, FORMAT_STEP_MAX); }
  }

  /** recogniseFormat: -1 for a member, the index of the first character it cannot read
      otherwise, ok false past the step bound. */
  method RecogniseFormat(g: Format, cps: Text) returns (stop: int, ok: bool)
    requires Ready(g) && g.start in g.rules
    ensures ok <==> InBound(g, cps)
    ensures Pace(g) * (|cps| + 1) <= 1000000 ==> ok
    ensures ok ==> (stop == -1 <==> Derives(g.rules, g.rules[g.start], cps))
    ensures ok && stop != -1 ==> 0 <= stop <= |cps|
    ensures ok && stop != -1 && stop < |cps| ==> !Begins(g, cps[..stop + 1])
    ensures ok && stop != -1 && AllProductive(g.rules) ==> Begins(g, cps[..stop])
  {
    hide Ready, Run, Wired, Derives, Step, Pace;
    BeginValid(g, cps);
    BoundSuffices(g, cps);
    var stack := [Todo(g.rules[g.start])];
    var at: nat := 0;
    var steps := 1;
    RunNone(g, cps);
    while 0 < |stack|
      invariant 1 <= steps <= FORMAT_STEP_MAX + 1
      invariant Valid(g, cps, Config(stack, at))
      invariant Run(g, cps, Begin(g), steps - 1) == On(Config(stack, at))
      decreases FORMAT_STEP_MAX + 1 - steps
    {
      if FORMAT_STEP_MAX < steps {
        return 0, false;
      }
      ghost var c := Config(stack, at);
      var o := Turn(g, cps, stack, at);
      StepValid(g, cps, c);
      RunOne(g, cps, c);
      RunThen(g, cps, Begin(g), steps - 1, c, 1);
      match o
      case Refused(i) =>
        Concluded(g, cps, steps);
        return i, true;
      case On(d) =>
        stack, at := d.stack, d.at;
        steps := steps + 1;
    }
    Concluded(g, cps, steps - 1);
    ok := true;
    stop := if at == |cps| then -1 else at;
  }

  lemma RunNone(g: Format, cps: Text)
    requires g.start in g.rules
    ensures Run(g, cps, Begin(g), 0) == On(Begin(g))
  {
  }

  /** What a run that is over has settled. */
  lemma Concluded(g: Format, cps: Text, k: nat)
    requires Ready(g) && g.start in g.rules && k <= FORMAT_STEP_MAX && Over(Run(g, cps, Begin(g), k))
    ensures InBound(g, cps)
    ensures var stop := Verdict(cps, Run(g, cps, Begin(g), k));
            && (stop == -1 <==> Derives(g.rules, g.rules[g.start], cps))
            && (stop != -1 ==> 0 <= stop <= |cps|)
            && (stop != -1 && stop < |cps| ==> !Begins(g, cps[..stop + 1]))
            && (stop != -1 && AllProductive(g.rules) ==> Begins(g, cps[..stop]))
  {
    hide Ready, Run, Wired, Derives, Begins;
    RunOver(g, cps, Begin(g), k, FORMAT_STEP_MAX);
    VerdictDecides(g, cps, k);
    BeginValid(g, cps);
    RunForward(g, cps, Begin(g), k);
    var stop := Verdict(cps, Run(g, cps, Begin(g), k));
    if stop != -1 {
      if stop < |cps| {
        NoneBegins(g, cps, k);
      }
      if AllProductive(g.rules) {
        var z := ReadExtends(g, cps, k);
        BeginsBy(g, cps[..stop], z);
      }
    }
  }

  /** Every grammar the analysis accepts and every text: the step bound aside, the recogniser
      ends, in steps the text's length bounds, and its verdict is membership. */
  lemma DecidesEveryText(g: Format, cps: Text)
    requires Ready(g) && g.start in g.rules
    ensures exists n: nat :: n <= Pace(g) * (|cps| + 1) && Over(Run(g, cps, Begin(g), n))
                          && (Verdict(cps, Run(g, cps, Begin(g), n)) == -1 <==> Derives(g.rules, g.rules[g.start], cps))
  {
    hide Ready, Run, Derives, Pace;
    var n := AlwaysEnds(g, cps);
    VerdictDecides(g, cps, n);
  }
}
