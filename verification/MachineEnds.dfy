/**
 Every run ends, on every text: between two characters a rule is entered only from one
 that ranks above it, and a repetition goes round again only after reading something.  How many
 steps a run takes is a matter of the grammar for each character: a text takes no more than so
 many times its length.
 */
module MachineEnds {
  import opened Ranges
  import opened Grammar
  import opened Attributes
  import opened Walk
  import opened Leading
  import opened Flow
  import opened Machine
  import opened MachineComplete
  import opened MachineRefusal

  /** A run from the top of a stack that ends in a refusal, or with the stack below the top
      and, where it read nothing, a top that may match nothing. */
  ghost predicate Settles(o: Outcome, rest: seq<Frame>, at: nat, end: nat, nothing: bool) {
    o.On? ==> o.c.stack == rest && at <= o.c.at <= end && (o.c.at == at ==> nothing)
  }

  /** The nodes and the ranks a run from x at a place may use. */
  ghost predicate Fine(g: Format, done: seq<string>, cps: Text, at: nat, x: Node, r: nat) {
    Ready(g) && Ranked(g.rules, g.at, done) && x in g.at.fst && at <= |cps| && r <= |done| && Under(g.at, done, x, r)
  }

  ghost predicate FineAll(g: Format, done: seq<string>, cps: Text, at: nat, items: seq<Node>, r: nat) {
    && Ready(g) && Ranked(g.rules, g.at, done) && at <= |cps| && r <= |done|
    && (forall i :: 0 <= i < |items| ==> items[i] in g.at.fst)
    && UnderCat(g.at, done, items, r)
  }

  // ----- how many steps

  /** At most so many steps from x that read nothing, among rules that rank below r. */
  ghost function Quiet(rules: Rules, done: seq<string>, x: Node, r: nat): nat
    decreases r, x, 1
  {
    1 + match x
        case Ref(name) => if name in rules && Rank(done, name) < r then Quiet(rules, done, rules[name], Rank(done, name)) else 0
        case Cat(kids) => QuietAll(rules, done, kids, r)
        case Alt(kids) => QuietAll(rules, done, kids, r)
        case Rep(kid, _, _) => 2 + Quiet(rules, done, kid, r)
        case _ => 0
  }

  ghost function QuietAll(rules: Rules, done: seq<string>, items: seq<Node>, r: nat): nat
    decreases r, items, 0
  {
    if items == [] then 0 else Quiet(rules, done, items[0], r) + QuietAll(rules, done, items[1..], r)
  }

  /** At most so many steps from x for the first character read: those in front of it, and those behind
      it that read nothing. */
  ghost function Loud(rules: Rules, done: seq<string>, x: Node, r: nat): nat
    decreases r, x, 1
  {
    1 + match x
        case Ref(name) => if name in rules && Rank(done, name) < r then Loud(rules, done, rules[name], Rank(done, name)) else 0
        case Cat(kids) => LoudAll(rules, done, kids, r)
        case Alt(kids) => LoudAll(rules, done, kids, r)
        case Rep(kid, _, _) => LoudLoop(rules, done, kid, r)
        case _ => 0
  }

  ghost function LoudAll(rules: Rules, done: seq<string>, items: seq<Node>, r: nat): nat
    decreases r, items, 0
  {
    if items == [] then 0
    else
      Quiet(rules, done, items[0], r) + Loud(rules, done, items[0], r) + QuietAll(rules, done, items[1..], |done|)
        + LoudAll(rules, done, items[1..], r)
  }

  ghost function LoudLoop(rules: Rules, done: seq<string>, kid: Node, r: nat): nat
    decreases r, kid, 2
  {
    4 + Quiet(rules, done, kid, r) + Loud(rules, done, kid, r) + Quiet(rules, done, kid, |done|)
  }

  /** A pace no node's first character exceeds. */
  ghost predicate Enough(g: Format, done: seq<string>, pace: nat) {
    forall x :: x in g.at.fst ==> Quiet(g.rules, done, x, |done|) + Loud(g.rules, done, x, |done|) <= pace
  }

  /** So many steps to an outcome: within quiet where nothing was read, within loud for the first
      character and the pace for each one more. */
  ghost predicate Paced(k: nat, o: Outcome, at: nat, quiet: nat, loud: nat, pace: nat) {
    match o
    case Refused(stop) => at <= stop && k <= loud + (stop - at) * pace
    case On(c) => at <= c.at && if c.at == at then k <= quiet else k <= loud + (c.at - at - 1) * pace
  }

  lemma PacedMore(k: nat, o: Outcome, at: nat, quiet: nat, loud: nat, quiet': nat, loud': nat, pace: nat)
    requires Paced(k, o, at, quiet, loud, pace) && quiet <= quiet' && loud <= loud'
    ensures Paced(k, o, at, quiet', loud', pace)
  {
  }

  lemma PacedStep(k: nat, o: Outcome, at: nat, quiet: nat, loud: nat, pace: nat)
    requires Paced(k, o, at, quiet, loud, pace)
    ensures Paced(1 + k, o, at, 1 + quiet, 1 + loud, pace)
  {
  }

  lemma PacedHere(k: nat, o: Outcome, at: nat, quiet: nat, loud: nat, pace: nat)
    requires k <= quiet && k <= loud && (if o.Refused? then o.stop == at else o.c.at == at)
    ensures Paced(k, o, at, quiet, loud, pace)
  {
  }

  lemma TimesPlus(a: nat, b: nat, pace: nat)
    ensures (a + b) * pace == a * pace + b * pace
  {
  }

  lemma TimesLess(a: nat, b: nat, pace: nat)
    requires a <= b
    ensures a * pace <= b * pace
  {
    TimesPlus(a, b - a, pace);
  }

  /** After nothing, more. */
  lemma PacedQuiet(j: nat, at: nat, first: nat, m: nat, o: Outcome, quiet: nat, loud: nat, pace: nat)
    requires j <= first && Paced(m, o, at, quiet, loud, pace)
    ensures Paced(j + m, o, at, first + quiet, first + loud, pace)
  {
  }

  /** After a character or more, more. */
  lemma PacedLoud(j: nat, at: nat, to: nat, loud: nat, m: nat, o: Outcome, quiet: nat, again: nat, q: nat, pace: nat)
    requires at < to && j <= loud + (to - at - 1) * pace && Paced(m, o, to, quiet, again, pace) && again <= pace
    ensures Paced(j + m, o, at, q, loud + quiet, pace)
  {
    match o
    case Refused(stop) =>
      TimesPlus(to - at - 1, 1, pace);
      TimesPlus(to - at, stop - to, pace);
    case On(c) =>
      if c.at != to {
        TimesPlus(to - at - 1, 1, pace);
        TimesPlus(to - at, c.at - to - 1, pace);
      }
  }

  // ----- what one step leads to

  lemma FineRef(g: Format, done: seq<string>, cps: Text, at: nat, rest: seq<Frame>, x: Node, r: nat)
    requires Fine(g, done, cps, at, x, r) && x !in g.at.one && x.Ref?
    ensures x.name in g.rules && Rank(done, x.name) < r
    ensures Fine(g, done, cps, at, g.rules[x.name], Rank(done, x.name))
    ensures g.rules[x.name] in g.at.nul ==> x in g.at.nul
    ensures Step(g, cps, Config(rest + [Todo(x)], at)) == On(Config(rest + [Todo(g.rules[x.name])], at))
  {
    hide Step, Deterministic, Sound;
    TopStep(g, cps, at, rest, Todo(x));
    assert Solved(g.rules, g.at, x);
    assert x.name in LeadRefs(x, g.at);
  }

  lemma FineCat(g: Format, done: seq<string>, cps: Text, at: nat, rest: seq<Frame>, x: Node, r: nat)
    requires Fine(g, done, cps, at, x, r) && x !in g.at.one && x.Cat?
    ensures FineAll(g, done, cps, at, x.kids, r)
    ensures (forall i :: 0 <= i < |x.kids| ==> x.kids[i] in g.at.nul) ==> x in g.at.nul
    ensures Step(g, cps, Config(rest + [Todo(x)], at)) == On(Config(rest + Todos(x.kids), at))
  {
    hide Step, Deterministic, Sound;
    TopStep(g, cps, at, rest, Todo(x));
    assert Solved(g.rules, g.at, x);
    assert forall i :: 0 <= i < |x.kids| ==> x.kids[i] == Kids(x)[i];
  }

  /** The alternation picks a kid, or refuses where none is left. */
  lemma FineAlt(g: Format, done: seq<string>, cps: Text, at: nat, rest: seq<Frame>, x: Node, r: nat) returns (i: nat)
    requires Fine(g, done, cps, at, x, r) && x !in g.at.one && x.Alt?
    ensures i <= |x.kids|
    ensures i == |x.kids| ==> Step(g, cps, Config(rest + [Todo(x)], at)) == Refused(at)
    ensures i < |x.kids| ==> Step(g, cps, Config(rest + [Todo(x)], at)) == On(Config(rest + [Todo(x.kids[i])], at))
    ensures i < |x.kids| ==> Fine(g, done, cps, at, x.kids[i], r)
    ensures i < |x.kids| ==> x.kids[i] in g.at.nul ==> x in g.at.nul
  {
    hide Step, Deterministic, Sound;
    TopStep(g, cps, at, rest, Todo(x));
    i := Pick(g, cps, x.kids, at);
    assert Solved(g.rules, g.at, x);
    if i < |x.kids| {
      assert x.kids[i] == Kids(x)[i];
      RefsAltHas(x.kids, g.at.nul, true, i);
    }
  }

  lemma FineRep(g: Format, done: seq<string>, cps: Text, at: nat, rest: seq<Frame>, x: Node, r: nat)
    requires Fine(g, done, cps, at, x, r) && x !in g.at.one && x.Rep?
    ensures x.kid in g.at.nul || x.min == 0 ==> x in g.at.nul
    ensures Fine(g, done, cps, at, x.kid, r)
    ensures Step(g, cps, Config(rest + [Todo(x)], at)) == On(Config(rest + [Loop(x, 0, at)], at))
  {
    hide Step, Deterministic, Sound;
    TopStep(g, cps, at, rest, Todo(x));
    assert Solved(g.rules, g.at, x);
    assert x.kid == Kids(x)[0];
  }

  lemma FineLeaf(g: Format, done: seq<string>, cps: Text, at: nat, rest: seq<Frame>, x: Node, r: nat)
    requires Fine(g, done, cps, at, x, r) && (x in g.at.one || x.Str? || x.Cls?)
    ensures Settles(Step(g, cps, Config(rest + [Todo(x)], at)), rest, at, |cps|, false)
    ensures forall q: nat, l: nat, pace: nat :: 1 <= l ==> Paced(1, Step(g, cps, Config(rest + [Todo(x)], at)), at, q, l, pace)
  {
    hide Step, Deterministic, Sound, Ranked;
    TopStep(g, cps, at, rest, Todo(x));
    assert Solved(g.rules, g.at, x);
    var o := Step(g, cps, Config(rest + [Todo(x)], at));
    forall q: nat, l: nat, pace: nat | 1 <= l ensures Paced(1, o, at, q, l, pace) { LeafPaced(o, at, q, l, pace); }
  }

  lemma LeafPaced(o: Outcome, at: nat, quiet: nat, loud: nat, pace: nat)
    requires 1 <= loud && if o.Refused? then at <= o.stop else at < o.c.at
    ensures Paced(1, o, at, quiet, loud, pace)
  {
    if o.Refused? { TimesLess(0, o.stop - at, pace); } else { TimesLess(0, o.c.at - at - 1, pace); }
  }

  lemma FirstOfAll(g: Format, done: seq<string>, cps: Text, at: nat, items: seq<Node>, r: nat)
    requires FineAll(g, done, cps, at, items, r) && items != []
    ensures Fine(g, done, cps, at, items[0], r)
    ensures items[0] in g.at.nul ==> FineAll(g, done, cps, at, items[1..], r)
    ensures forall to: nat :: at <= to <= |cps| ==> FineAll(g, done, cps, to, items[1..], |done|)
  {
    hide Ready, Deterministic, Sound;
    ReadyNodes(g, items);
    RefsKnownCat(g.rules, items[1..], g.at.nul, true);
  }

  lemma ReadyNodes(g: Format, items: seq<Node>)
    requires Ready(g) && forall i :: 0 <= i < |items| ==> items[i] in g.at.fst
    ensures forall i :: 0 <= i < |items| ==> ReadNode(g.rules, items[i])
  {
  }

  lemma FineLater(g: Format, done: seq<string>, cps: Text, at: nat, x: Node, r: nat, to: nat)
    requires Fine(g, done, cps, at, x, r) && to <= |cps|
    ensures Fine(g, done, cps, to, x, |done|)
  {
    UnderAll(g.rules, g.at, done, x);
  }

  lemma LoopStep(g: Format, cps: Text, at: nat, rest: seq<Frame>, f: Frame)
    requires f.Loop? && f.rep.Rep? && at <= |cps| && !More(g, cps, f, at)
    ensures var o := Step(g, cps, Config(rest + [f], at));
            o == Refused(at) || (o == On(Config(rest, at)) && (f.rep.kid in g.at.nul || f.rep.min <= f.count))
  {
    TopStep(g, cps, at, rest, f);
  }

  // ----- the parts of a pace

  lemma AtLeast(rules: Rules, done: seq<string>, x: Node, r: nat)
    ensures 1 <= Quiet(rules, done, x, r) && 1 <= Loud(rules, done, x, r)
  {
  }

  lemma RefPace(rules: Rules, done: seq<string>, x: Node, r: nat)
    requires x.Ref? && x.name in rules && Rank(done, x.name) < r
    ensures Quiet(rules, done, x, r) == 1 + Quiet(rules, done, rules[x.name], Rank(done, x.name))
    ensures Loud(rules, done, x, r) == 1 + Loud(rules, done, rules[x.name], Rank(done, x.name))
  {
  }

  lemma CatPace(g: Format, done: seq<string>, x: Node, r: nat, pace: nat)
    requires x.Cat? && x in g.at.fst && Enough(g, done, pace)
    ensures Quiet(g.rules, done, x, r) == 1 + QuietAll(g.rules, done, x.kids, r)
    ensures Loud(g.rules, done, x, r) == 1 + LoudAll(g.rules, done, x.kids, r)
    ensures LoudAll(g.rules, done, x.kids, |done|) <= pace
  {
    assert Loud(g.rules, done, x, |done|) == 1 + LoudAll(g.rules, done, x.kids, |done|);
  }

  lemma {:induction false} AllHas(rules: Rules, done: seq<string>, items: seq<Node>, r: nat, i: nat)
    requires i < |items|
    ensures Quiet(rules, done, items[i], r) <= QuietAll(rules, done, items, r)
    ensures Loud(rules, done, items[i], r) <= LoudAll(rules, done, items, r)
  {
    hide Quiet, Loud;
    if 0 < i { AllHas(rules, done, items[1..], r, i - 1); }
  }

  lemma AltPace(rules: Rules, done: seq<string>, x: Node, r: nat, i: nat)
    requires x.Alt? && i < |x.kids|
    ensures 1 + Quiet(rules, done, x.kids[i], r) <= Quiet(rules, done, x, r)
    ensures 1 + Loud(rules, done, x.kids[i], r) <= Loud(rules, done, x, r)
  {
    hide QuietAll, LoudAll;
    AllHas(rules, done, x.kids, r, i);
  }

  lemma RepPace(g: Format, done: seq<string>, x: Node, r: nat, pace: nat)
    requires x.Rep? && x in g.at.fst && Enough(g, done, pace)
    ensures Quiet(g.rules, done, x, r) == 3 + Quiet(g.rules, done, x.kid, r)
    ensures Loud(g.rules, done, x, r) == 1 + LoudLoop(g.rules, done, x.kid, r)
    ensures LoudLoop(g.rules, done, x.kid, |done|) <= pace
  {
    assert Loud(g.rules, done, x, |done|) == 1 + LoudLoop(g.rules, done, x.kid, |done|);
  }

  lemma AllPace(rules: Rules, done: seq<string>, items: seq<Node>, r: nat)
    requires items != []
    ensures QuietAll(rules, done, items, r) == Quiet(rules, done, items[0], r) + QuietAll(rules, done, items[1..], r)
    ensures LoudAll(rules, done, items, r)
         == Quiet(rules, done, items[0], r) + Loud(rules, done, items[0], r) + QuietAll(rules, done, items[1..], |done|)
            + LoudAll(rules, done, items[1..], r)
  {
  }

  lemma LoopPace(rules: Rules, done: seq<string>, kid: Node, r: nat)
    ensures LoudLoop(rules, done, kid, r)
         == 4 + Quiet(rules, done, kid, r) + Loud(rules, done, kid, r) + Quiet(rules, done, kid, |done|)
  {
  }

  lemma PacedKnown(k: nat, o: Outcome, at: nat, quiet: nat, loud: nat, pace: nat)
    requires Paced(k, o, at, quiet, loud, pace) && o.On?
    ensures at <= o.c.at && if o.c.at == at then k <= quiet else k <= loud + (o.c.at - at - 1) * pace
  {
  }

  // ----- the runs

  lemma {:induction false} EndsNode(g: Format, done: seq<string>, cps: Text, at: nat, rest: seq<Frame>, x: Node, r: nat, pace: nat)
    returns (k: nat, o: Outcome)
    requires Fine(g, done, cps, at, x, r) && Enough(g, done, pace)
    ensures Run(g, cps, Config(rest + [Todo(x)], at), k) == o
    ensures Settles(o, rest, at, |cps|, x in g.at.nul)
    ensures Paced(k, o, at, Quiet(g.rules, done, x, r), Loud(g.rules, done, x, r), pace)
    decreases |cps| - at, r, x, 1
  {
    hide *;
    var c := Config(rest + [Todo(x)], at);
    assert c.stack != [] && at <= |cps| by { FineAt(g, done, cps, at, x, r); }
    var quiet, loud := Quiet(g.rules, done, x, r), Loud(g.rules, done, x, r);
    AtLeast(g.rules, done, x, r);
    if x in g.at.one || x.Str? || x.Cls? {
      FineLeaf(g, done, cps, at, rest, x, r);
      RunOne(g, cps, c);
      k, o := 1, Step(g, cps, c);
      SettlesMore(o, rest, at, |cps|, false, x in g.at.nul);
    } else if x.Ref? {
      FineRef(g, done, cps, at, rest, x, r);
      var j;
      j, o := EndsNode(g, done, cps, at, rest, g.rules[x.name], Rank(done, x.name), pace);
      RefPace(g.rules, done, x, r);
      PacedStep(j, o, at, Quiet(g.rules, done, g.rules[x.name], Rank(done, x.name)), Loud(g.rules, done, g.rules[x.name], Rank(done, x.name)), pace);
      StepThen(g, cps, c, Config(rest + [Todo(g.rules[x.name])], at), j);
      SettlesMore(o, rest, at, |cps|, g.rules[x.name] in g.at.nul, x in g.at.nul);
      k := 1 + j;
    } else if x.Cat? {
      FineCat(g, done, cps, at, rest, x, r);
      FineIn(g, done, cps, at, x, r);
      CatPace(g, done, x, r, pace);
      var j;
      j, o := EndsAll(g, done, cps, at, rest, x.kids, r, pace);
      PacedStep(j, o, at, QuietAll(g.rules, done, x.kids, r), LoudAll(g.rules, done, x.kids, r), pace);
      StepThen(g, cps, c, Config(rest + Todos(x.kids), at), j);
      SettlesMore(o, rest, at, |cps|, forall i :: 0 <= i < |x.kids| ==> x.kids[i] in g.at.nul, x in g.at.nul);
      k := 1 + j;
    } else if x.Alt? {
      var i := FineAlt(g, done, cps, at, rest, x, r);
      if i == |x.kids| {
        RunOne(g, cps, c);
        k, o := 1, Refused(at);
        SettlesRefused(o, rest, at, |cps|, x in g.at.nul);
        PacedHere(k, o, at, quiet, loud, pace);
      } else {
        var j;
        j, o := EndsNode(g, done, cps, at, rest, x.kids[i], r, pace);
        AltPace(g.rules, done, x, r, i);
        PacedStep(j, o, at, Quiet(g.rules, done, x.kids[i], r), Loud(g.rules, done, x.kids[i], r), pace);
        PacedMore(1 + j, o, at, 1 + Quiet(g.rules, done, x.kids[i], r), 1 + Loud(g.rules, done, x.kids[i], r), quiet, loud, pace);
        StepThen(g, cps, c, Config(rest + [Todo(x.kids[i])], at), j);
        SettlesMore(o, rest, at, |cps|, x.kids[i] in g.at.nul, x in g.at.nul);
        k := 1 + j;
      }
    } else {
      FineRep(g, done, cps, at, rest, x, r);
      FineIn(g, done, cps, at, x, r);
      RepPace(g, done, x, r, pace);
      var j;
      j, o := EndsLoop(g, done, cps, at, rest, Loop(x, 0, at), r, pace);
      PacedStep(j, o, at, 2 + Quiet(g.rules, done, x.kid, r), LoudLoop(g.rules, done, x.kid, r), pace);
      StepThen(g, cps, c, Config(rest + [Loop(x, 0, at)], at), j);
      SettlesMore(o, rest, at, |cps|, x.kid in g.at.nul || x.min <= 0, x in g.at.nul);
      k := 1 + j;
    }
  }

  lemma FineAt(g: Format, done: seq<string>, cps: Text, at: nat, x: Node, r: nat)
    requires Fine(g, done, cps, at, x, r)
    ensures at <= |cps| && Ready(g)
  {
  }

  lemma FineIn(g: Format, done: seq<string>, cps: Text, at: nat, x: Node, r: nat)
    requires Fine(g, done, cps, at, x, r)
    ensures x in g.at.fst
  {
  }

  lemma SettlesMore(o: Outcome, rest: seq<Frame>, at: nat, end: nat, less: bool, more: bool)
    requires Settles(o, rest, at, end, less) && (less ==> more)
    ensures Settles(o, rest, at, end, more)
  {
  }

  lemma SettlesRefused(o: Outcome, rest: seq<Frame>, at: nat, end: nat, nothing: bool)
    requires o.Refused?
    ensures Settles(o, rest, at, end, nothing)
  {
  }

  lemma SettlesKnown(o: Outcome, rest: seq<Frame>, at: nat, end: nat, nothing: bool)
    requires Settles(o, rest, at, end, nothing) && o.On?
    ensures o.c.stack == rest && at <= o.c.at <= end && (o.c.at == at ==> nothing)
    ensures o == On(Config(rest, o.c.at))
  {
  }

  lemma SettlesFrom(o: Outcome, rest: seq<Frame>, at: nat, end: nat, to: nat, nothing: bool, whole: bool)
    requires Settles(o, rest, to, end, nothing) && at <= to && (to == at && nothing ==> whole)
    ensures Settles(o, rest, at, end, whole)
  {
  }

  lemma {:induction false} EndsAll(g: Format, done: seq<string>, cps: Text, at: nat, rest: seq<Frame>, items: seq<Node>, r: nat, pace: nat)
    returns (k: nat, o: Outcome)
    requires FineAll(g, done, cps, at, items, r) && Enough(g, done, pace) && LoudAll(g.rules, done, items, |done|) <= pace
    ensures Run(g, cps, Config(rest + Todos(items), at), k) == o
    ensures Paced(k, o, at, QuietAll(g.rules, done, items, r), LoudAll(g.rules, done, items, r), pace)
    ensures Settles(o, rest, at, |cps|, forall i :: 0 <= i < |items| ==> items[i] in g.at.nul)
    decreases |cps| - at, r, items, 0
  {
    hide *;
    TodosParts(items, rest);
    if items == [] {
      k, o := 0, On(Config(rest, at));
      NothingLeft(g, done, cps, at, rest, items, r);
      PacedHere(k, o, at, QuietAll(g.rules, done, items, r), LoudAll(g.rules, done, items, r), pace);
    } else {
      FirstOfAll(g, done, cps, at, items, r);
      FineAt(g, done, cps, at, items[0], r);
      var below, later := rest + Todos(items[1..]), items[1..];
      var quiet, loud := QuietAll(g.rules, done, items, r), LoudAll(g.rules, done, items, r);
      var q, l := Quiet(g.rules, done, items[0], r), Loud(g.rules, done, items[0], r);
      AllPace(g.rules, done, items, r);
      AllPace(g.rules, done, items, |done|);
      var j, p := EndsNode(g, done, cps, at, below, items[0], r, pace);
      if p.Refused? {
        k, o := j, p;
        SettlesRefused(o, rest, at, |cps|, forall i :: 0 <= i < |items| ==> items[i] in g.at.nul);
        PacedMore(k, o, at, q, l, quiet, loud, pace);
      } else {
        SettlesKnown(p, below, at, |cps|, items[0] in g.at.nul);
        PacedKnown(j, p, at, q, l, pace);
        var to := p.c.at;
        var m;
        if at < to {
          m, o := EndsAll(g, done, cps, to, rest, later, |done|, pace);
          var more, again := QuietAll(g.rules, done, later, |done|), LoudAll(g.rules, done, later, |done|);
          PacedLoud(j, at, to, l, m, o, more, again, quiet, pace);
          PacedMore(j + m, o, at, quiet, l + more, quiet, loud, pace);
        } else {
          m, o := EndsAll(g, done, cps, at, rest, later, r, pace);
          var more, again := QuietAll(g.rules, done, later, r), LoudAll(g.rules, done, later, r);
          PacedQuiet(j, at, q, m, o, more, again, pace);
          PacedMore(j + m, o, at, q + more, q + again, quiet, loud, pace);
        }
        RunThen(g, cps, Config(rest + Todos(items), at), j, Config(below, to), m);
        AllOf(items, g.at.nul);
        SettlesFrom(o, rest, at, |cps|, to, forall i :: 0 <= i < |items[1..]| ==> items[1..][i] in g.at.nul,
                    forall i :: 0 <= i < |items| ==> items[i] in g.at.nul);
        k := j + m;
      }
    }
  }

  lemma AllOf(items: seq<Node>, nul: set<Node>)
    requires items != []
    ensures items[0] in nul && (forall i :: 0 <= i < |items[1..]| ==> items[1..][i] in nul) ==>
              forall i :: 0 <= i < |items| ==> items[i] in nul
  {
    assert forall i :: 1 <= i < |items| ==> items[i] == items[1..][i - 1];
  }

  lemma NothingLeft(g: Format, done: seq<string>, cps: Text, at: nat, rest: seq<Frame>, items: seq<Node>, r: nat)
    requires FineAll(g, done, cps, at, items, r) && items == []
    ensures Run(g, cps, Config(rest, at), 0) == On(Config(rest, at))
    ensures Settles(On(Config(rest, at)), rest, at, |cps|, forall i :: 0 <= i < |items| ==> items[i] in g.at.nul)
  {
  }

  lemma {:induction false} EndsLoop(g: Format, done: seq<string>, cps: Text, at: nat, rest: seq<Frame>, f: Frame, r: nat, pace: nat)
    returns (k: nat, o: Outcome)
    requires f.Loop? && f.rep.Rep? && Fine(g, done, cps, at, f.rep.kid, r)
    requires Enough(g, done, pace) && LoudLoop(g.rules, done, f.rep.kid, |done|) <= pace
    ensures Run(g, cps, Config(rest + [f], at), k) == o
    ensures Paced(k, o, at, 2 + Quiet(g.rules, done, f.rep.kid, r), LoudLoop(g.rules, done, f.rep.kid, r), pace)
    ensures Settles(o, rest, at, |cps|, f.rep.kid in g.at.nul || f.rep.min <= f.count)
    decreases |cps| - at, r, f.rep, 0
  {
    hide *;
    FineAt(g, done, cps, at, f.rep.kid, r);
    var c, kid := Config(rest + [f], at), f.rep.kid;
    var nothing := kid in g.at.nul || f.rep.min <= f.count;
    var q, l := Quiet(g.rules, done, kid, r), Loud(g.rules, done, kid, r);
    var quiet, loud := 2 + q, LoudLoop(g.rules, done, kid, r);
    LoopPace(g.rules, done, kid, r);
    assert c.stack != [];
    if !More(g, cps, f, at) {
      RunOne(g, cps, c);
      LoopStep(g, cps, at, rest, f);
      k, o := 1, Step(g, cps, c);
      SettlesHere(o, rest, at, |cps|, nothing);
      PacedHere(k, o, at, quiet, loud, pace);
    } else {
      RoundStep(g, cps, at, rest, f);
      var again := Loop(f.rep, f.count + 1, at);
      var d := Config((rest + [again]) + [Todo(kid)], at);
      var j, p := EndsNode(g, done, cps, at, rest + [again], kid, r, pace);
      StepThen(g, cps, c, d, j);
      PacedStep(j, p, at, q, l, pace);
      if p.Refused? {
        k, o := 1 + j, p;
        SettlesRefused(o, rest, at, |cps|, nothing);
        PacedMore(k, o, at, 1 + q, 1 + l, quiet, loud, pace);
      } else {
        SettlesKnown(p, rest + [again], at, |cps|, kid in g.at.nul);
        PacedKnown(1 + j, p, at, 1 + q, 1 + l, pace);
        var to := p.c.at;
        var m;
        if at < to {
          FineLater(g, done, cps, at, kid, r, to);
          m, o := EndsLoop(g, done, cps, to, rest, again, |done|, pace);
          var more := 2 + Quiet(g.rules, done, kid, |done|);
          PacedLoud(1 + j, at, to, 1 + l, m, o, more, LoudLoop(g.rules, done, kid, |done|), quiet, pace);
          PacedMore(1 + j + m, o, at, quiet, 1 + l + more, quiet, loud, pace);
          SettlesFrom(o, rest, at, |cps|, to, kid in g.at.nul || f.rep.min <= f.count + 1, nothing);
        } else {
          NoRound(g, cps, at, again);
          LoopStep(g, cps, at, rest, again);
          RunOne(g, cps, Config(rest + [again], at));
          m, o := 1, Step(g, cps, Config(rest + [again], at));
          SettlesHere(o, rest, at, |cps|, nothing);
          PacedHere(1 + j + m, o, at, quiet, loud, pace);
        }
        RunThen(g, cps, c, 1 + j, Config(rest + [again], to), m);
        k := 1 + j + m;
      }
    }
  }

  lemma NoRound(g: Format, cps: Text, at: nat, f: Frame)
    requires f.Loop? && f.rep.Rep? && f.count != 0 && f.at == at
    ensures !More(g, cps, f, at)
  {
  }

  lemma SettlesHere(o: Outcome, rest: seq<Frame>, at: nat, end: nat, nothing: bool)
    requires at <= end && (o.Refused? || (o == On(Config(rest, at)) && nothing))
    ensures Settles(o, rest, at, end, nothing)
  {
  }

  // ----- the pace of a grammar

  /** An order the leading references fall in. */
  ghost function Ranks(g: Format): (done: seq<string>)
    requires Ready(g)
    ensures Ranked(g.rules, g.at, done)
  {
    var done :| Ranked(g.rules, g.at, done);
    done
  }

  /** The most any of the nodes takes for a character. */
  ghost function Most(rules: Rules, done: seq<string>, nodes: set<Node>): (m: nat)
    ensures forall x :: x in nodes ==> Quiet(rules, done, x, |done|) + Loud(rules, done, x, |done|) <= m
    decreases |nodes|
  {
    if nodes == {} then 0
    else
      var x :| x in nodes;
      Quiet(rules, done, x, |done|) + Loud(rules, done, x, |done|) + Most(rules, done, nodes - {x})
  }

  /** So many steps to a character. */
  ghost function Pace(g: Format): nat
    requires Ready(g)
  {
    Most(g.rules, Ranks(g), g.at.fst.Keys)
  }

  /** Whatever the text, the recogniser ends without its step bound, in steps its length bounds. */
  lemma AlwaysEnds(g: Format, cps: Text) returns (k: nat)
    requires Ready(g)
    ensures Over(Run(g, cps, Begin(g), k)) && k <= Pace(g) * (|cps| + 1)
  {
    hide Quiet, Loud, Paced, Most;
    var done := Ranks(g);
    var x := g.rules[g.start];
    UnderAll(g.rules, g.at, done, x);
    var o;
    k, o := EndsNode(g, done, cps, 0, [], x, |done|, Pace(g));
    assert [] + [Todo(x)] == Begin(g).stack;
    BeginValid(g, cps);
    RunForward(g, cps, Begin(g), k);
    PacedWhole(k, o, |cps|, Quiet(g.rules, done, x, |done|), Loud(g.rules, done, x, |done|), Pace(g));
  }

  lemma PacedWhole(k: nat, o: Outcome, end: nat, quiet: nat, loud: nat, pace: nat)
    requires Paced(k, o, 0, quiet, loud, pace) && quiet + loud <= pace && (if o.On? then o.c.at else o.stop) <= end
    ensures k <= pace * (end + 1)
  {
    TimesPlus(end, 1, pace);
    match o
    case Refused(stop) => TimesLess(stop, end, pace);
    case On(c) =>
      if c.at != 0 { TimesLess(c.at - 1, end, pace); } else { TimesLess(0, end, pace); }
  }
}
