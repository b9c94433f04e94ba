/**
 The determinism pass (fAnalyse, go/formatgrammar.go:529-830): attributes, the refusal of
 left recursion, FOLLOW where needed, and every choice held to one character.
 */
module Analyse {
  import opened Options
  import opened Ranges
  import opened Grammar
  import opened Walk
  import opened Attributes
  import opened AttributeLoop
  import opened Leading
  import opened Flow
  import opened FollowLoop
  import opened Machine

  // ----- the nodes

  ghost predicate KidsIn(nodes: seq<Node>) {
    forall x, i {:trigger Kids(x)[i]} :: x in nodes && 0 <= i < |Kids(x)| ==> Kids(x)[i] in nodes
  }

  ghost predicate AllRead(rules: Rules, nodes: seq<Node>) {
    forall x :: x in nodes ==> ReadNode(rules, x)
  }

  ghost predicate KidsWithin(s: set<Node>) {
    forall x, i {:trigger Kids(x)[i]} :: x in s && 0 <= i < |Kids(x)| ==> Kids(x)[i] in s
  }

  /** The nodes are in every set of nodes that has these and with a node its kids. */
  ghost predicate Fewest(roots: set<Node>, nodes: seq<Node>) {
    forall s: set<Node> :: KidsWithin(s) && roots <= s ==> SetOf(nodes) <= s
  }

  /** x and the nodes inside it, each once, the inner first (collect). */
  method Collect(rules: Rules, x: Node, nodes0: seq<Node>) returns (nodes: seq<Node>)
    requires ReadNode(rules, x) && AllRead(rules, nodes0) && KidsIn(nodes0)
    ensures AllRead(rules, nodes) && KidsIn(nodes)
    ensures nodes0 <= nodes && x in nodes && Fewest(SetOf(nodes0) + {x}, nodes)
    decreases x
  {
    hide Fewest;
    FewestAll(SetOf(nodes0) + {x}, nodes0);
    if x in nodes0 { return nodes0; }
    nodes := nodes0;
    var kids := Kids(x);
    KidsRead(rules, x);
    for i := 0 to |kids|
      invariant AllRead(rules, nodes) && KidsIn(nodes) && nodes0 <= nodes && Fewest(SetOf(nodes0) + {x}, nodes)
      invariant forall k :: 0 <= k < i ==> kids[k] in nodes
    {
      ghost var was := nodes;
      nodes := Collect(rules, kids[i], nodes);
      FewestKid(SetOf(nodes0) + {x}, x, i, was, nodes);
      assert forall k :: 0 <= k < i ==> kids[k] in was;
    }
    CollectOne(rules, nodes, x);
    FewestOne(SetOf(nodes0) + {x}, x, nodes);
    nodes := nodes + [x];
  }

  lemma FewestAll(roots: set<Node>, nodes: seq<Node>)
    requires SetOf(nodes) <= roots
    ensures Fewest(roots, nodes)
  {
  }

  lemma FewestKid(roots: set<Node>, x: Node, i: nat, was: seq<Node>, nodes: seq<Node>)
    requires x in roots && i < |Kids(x)| && Fewest(roots, was) && Fewest(SetOf(was) + {Kids(x)[i]}, nodes)
    ensures Fewest(roots, nodes)
  {
    forall s: set<Node> | KidsWithin(s) && roots <= s ensures SetOf(nodes) <= s {
      assert Kids(x)[i] in s;
    }
  }

  lemma FewestOne(roots: set<Node>, x: Node, nodes: seq<Node>)
    requires x in roots && Fewest(roots, nodes)
    ensures Fewest(roots, nodes + [x])
  {
  }

  lemma FewestOn(roots: set<Node>, was: seq<Node>, x: Node, nodes: seq<Node>)
    requires x in roots && Fewest(roots, was) && Fewest(SetOf(was) + {x}, nodes)
    ensures Fewest(roots, nodes)
  {
  }

  lemma CollectOne(rules: Rules, nodes: seq<Node>, x: Node)
    requires AllRead(rules, nodes) && KidsIn(nodes) && ReadNode(rules, x)
    requires forall k :: 0 <= k < |Kids(x)| ==> Kids(x)[k] in nodes
    ensures AllRead(rules, nodes + [x]) && KidsIn(nodes + [x])
  {
  }

  /** Every rule's nodes, rules in the order given. */
  method CollectAll(rules: Rules, order: seq<string>) returns (nodes: seq<Node>)
    requires ReadRules(rules) && forall n :: n in order ==> n in rules
    ensures AllRead(rules, nodes) && KidsIn(nodes)
    ensures forall n :: n in order ==> rules[n] in nodes
    ensures Fewest(rules.Values, nodes)
  {
    hide Fewest;
    nodes := [];
    FewestAll(rules.Values, nodes);
    for k := 0 to |order|
      invariant AllRead(rules, nodes) && KidsIn(nodes) && Fewest(rules.Values, nodes)
      invariant forall j :: 0 <= j < k ==> rules[order[j]] in nodes
    {
      ghost var was := nodes;
      nodes := Collect(rules, rules[order[k]], nodes);
      assert order[k] in rules && rules[order[k]] in rules.Values;
      FewestOn(rules.Values, was, rules[order[k]], nodes);
      assert forall j :: 0 <= j < k ==> rules[order[j]] in was;
    }
  }

  lemma CollectedClosed(rules: Rules, nodes: seq<Node>)
    requires ReadRules(rules) && AllRead(rules, nodes) && KidsIn(nodes)
    requires forall n :: n in rules ==> rules[n] in nodes
    ensures ClosedUnder(rules, SetOf(nodes))
  {
    var s := SetOf(nodes);
    forall x, i {:trigger Kids(x)[i]} | x in s && 0 <= i < |Kids(x)| ensures Kids(x)[i] in s { assert x in nodes; }
    forall x {:trigger x.name} | x in s && x.Ref? ensures x.name in rules && rules[x.name] in s { assert x in nodes; }
  }

  // ----- the edges between rules

  lemma {:induction false} RefsLead(kids: seq<Node>, nul: set<Node>)
    ensures RefsAlt(LeadOf(kids, nul), nul, true) == RefsCat(kids, nul, true)
  {
    if kids != [] {
      if kids[0] in nul {
        RefsLead(kids[1..], nul);
        assert LeadOf(kids, nul)[1..] == LeadOf(kids[1..], nul);
      } else {
        assert LeadOf(kids, nul)[1..] == [];
      }
    }
  }

  lemma {:induction false} RefsPlain(kids: seq<Node>, nul: set<Node>)
    ensures RefsAlt(kids, nul, false) == RefsCat(kids, nul, false)
  {
    if kids != [] { RefsPlain(kids[1..], nul); }
  }

  ghost function Elems(s: seq<string>): set<string> {
    set n | n in s
  }

  /** The references in x, all of them or only the leading ones (reach). */
  method Reach(x: Node, nul: set<Node>, leading: bool, out0: seq<string>) returns (out: seq<string>)
    ensures Elems(out) == Elems(out0) + Refs(x, nul, leading)
    decreases x
  {
    out := out0;
    if x.Ref? {
      if x.name !in out { out := out + [x.name]; }
      return;
    }
    var next := Kids(x);
    if leading && x.Cat? { next := Lead(x.kids, nul); }
    LeadIs(Kids(x), nul);
    for i := 0 to |next|
      invariant Elems(out) + RefsAlt(next[i..], nul, leading) == Elems(out0) + RefsAlt(next, nul, leading)
    {
      assert next[i] == Kids(x)[i];
      assert next[i..][1..] == next[i + 1..];
      out := Reach(next[i], nul, leading, out);
    }
    assert next[|next|..] == [];
    ReachWhole(x, nul, leading, next);
  }

  lemma ReachWhole(x: Node, nul: set<Node>, leading: bool, next: seq<Node>)
    requires !x.Ref? && next == if leading && x.Cat? then LeadOf(x.kids, nul) else Kids(x)
    ensures RefsAlt(next, nul, leading) == Refs(x, nul, leading)
  {
    if x.Cat? {
      if leading { RefsLead(x.kids, nul); } else { RefsPlain(x.kids, nul); }
    } else if x.Rep? {
      assert next[1..] == [];
    }
  }

  /** The edges of every rule (edges). */
  method EdgesOf(rules: Rules, order: seq<string>, nul: set<Node>, leading: bool) returns (e: Edges)
    requires forall n :: n in order <==> n in rules
    ensures forall n :: n in rules ==> Elems(Out(e, n)) == Refs(rules[n], nul, leading)
    ensures e.Keys == rules.Keys
  {
    e := map[];
    for k := 0 to |order|
      invariant forall j :: 0 <= j < k ==> order[j] in e
      invariant forall n :: n in e ==> n in rules && Elems(e[n]) == Refs(rules[n], nul, leading)
    {
      assert order[k] in order;
      var out := Reach(rules[order[k]], nul, leading, []);
      e := e[order[k] := out];
    }
  }

  lemma EdgesReach(rules: Rules, e: Edges, nul: set<Node>, leading: bool)
    requires ReadRules(rules) && e.Keys == rules.Keys
    requires forall n :: n in rules ==> Elems(Out(e, n)) == Refs(rules[n], nul, leading)
    ensures Reaches(e, rules.Keys)
  {
    forall n, t | n in rules && t in Out(e, n) ensures t in rules {
      RefsKnown(rules, rules[n], nul, leading);
      assert t in Elems(Out(e, n));
    }
  }

  /** A rule that reaches itself through leading references. */
  ghost predicate LeftRecursive(rules: Rules, at: Attrs, t: string) {
    exists p :: LeadPath(rules, at, p) && 1 < |p| && p[0] == t && p[|p| - 1] == t
  }

  ghost predicate LeadPath(rules: Rules, at: Attrs, p: seq<string>) {
    p != [] && forall i :: 0 <= i < |p| - 1 ==> p[i] in rules && p[i + 1] in LeadRefs(rules[p[i]], at)
  }

  lemma BackIsLeft(rules: Rules, at: Attrs, e: Edges, t: string)
    requires e.Keys == rules.Keys && forall n :: n in rules ==> Elems(Out(e, n)) == Refs(rules[n], at.nul, true)
    requires OnCycle(e, t)
    ensures LeftRecursive(rules, at, t)
  {
    var p :| Path(e, p) && 1 < |p| && p[0] == t && p[|p| - 1] == t;
    forall i | 0 <= i < |p| - 1 ensures p[i] in rules && p[i + 1] in LeadRefs(rules[p[i]], at) {
      assert p[i + 1] in Elems(Out(e, p[i]));
    }
    assert LeadPath(rules, at, p);
  }

  lemma TopologicalRanks(rules: Rules, at: Attrs, e: Edges, done: seq<string>)
    requires ReadRules(rules) && e.Keys == rules.Keys
    requires forall n :: n in rules ==> Elems(Out(e, n)) == Refs(rules[n], at.nul, true)
    requires Topological(e, done) && forall n :: n in rules ==> n in done
    ensures Ranked(rules, at, done)
  {
    forall name, m | name in rules && m in LeadRefs(rules[name], at)
      ensures m in rules && Rank(done, m) < Rank(done, name)
    {
      RefsKnown(rules, rules[name], at.nul, true);
      assert m in Elems(Out(e, name));
      RankFalls(e, done, name, m);
    }
  }

  /** Ranked rules are never left-recursive. */
  lemma RankedNotLeft(rules: Rules, at: Attrs, done: seq<string>, t: string)
    requires Ranked(rules, at, done)
    ensures !LeftRecursive(rules, at, t)
  {
    if LeftRecursive(rules, at, t) {
      var p :| LeadPath(rules, at, p) && 1 < |p| && p[0] == t && p[|p| - 1] == t;
      RankAlongLead(rules, at, done, p);
    }
  }

  lemma {:induction false} RankAlongLead(rules: Rules, at: Attrs, done: seq<string>, p: seq<string>)
    requires Ranked(rules, at, done) && LeadPath(rules, at, p)
    ensures Rank(done, p[|p| - 1]) + |p| - 1 <= Rank(done, p[0])
    decreases |p|
  {
    if 1 < |p| {
      assert p[1] in LeadRefs(rules[p[0]], at);
      forall i | 0 <= i < |p[1..]| - 1 ensures p[1..][i] in rules && p[1..][i + 1] in LeadRefs(rules[p[1..][i]], at) {
        assert p[i + 1 + 1] in LeadRefs(rules[p[i + 1]], at);
      }
      RankAlongLead(rules, at, done, p[1..]);
    }
  }

  // ----- the checks

  datatype Reason =
    | LeftRecursion(rule: string)
    | TwoBegin(rule: string, c: int)
    | TwoMatchNothing(rule: string)
    | NothingOrBegin(rule: string, c: int)
    | RepeatOrFollow(rule: string, c: int)

  /** Why one visited choice is not decided: with after what can follow it, and c the least such character. */
  ghost predicate Undecided(at: Attrs, x: Node, after: iset<int>, why: Reason) {
    match why
    case LeftRecursion(_) => false
    case TwoBegin(_, c) =>
      x.Alt? && HeldTwice(Firsts(at, x.kids), c) && forall d :: HeldTwice(Firsts(at, x.kids), d) ==> c <= d
    case TwoMatchNothing(_) => x.Alt? && TwoEmpty(at, x.kids)
    case NothingOrBegin(_, c) =>
      && x.Alt? && SomeEmpty(at, x.kids) && InAny(Firsts(at, x.kids), c) && c in after
      && forall d :: InAny(Firsts(at, x.kids), d) && d in after ==> c <= d
    case RepeatOrFollow(_, c) =>
      && x.Rep? && x.min != x.max && In(F(at, x.kid), c) && c in after
      && forall d :: In(F(at, x.kid), d) && d in after ==> c <= d
  }

  lemma UndecidedIs(at: Attrs, x: Node, after: iset<int>, why: Reason)
    requires Undecided(at, x, after, why)
    ensures !Decided(at, x, after)
  {
  }

  ghost predicate ReasonAt(rules: Rules, at: Attrs, why: Reason, i: nat) {
    && why.rule in rules && i < |RuleVisits(at, rules[why.rule])|
    && var v := RuleVisits(at, rules[why.rule])[i];
       Undecided(at, v.x, AfterSet(v.base, v.open, Follow(rules, at, why.rule)), why)
  }

  /** The refusal is right: the rule left-recursive, or a choice in it undecided. */
  ghost predicate ReasonHolds(rules: Rules, at: Attrs, why: Reason) {
    if why.LeftRecursion? then LeftRecursive(rules, at, why.rule) else exists i: nat :: ReasonAt(rules, at, why, i)
  }

  lemma LeastOfMeet(m: seq<Range>, a: iset<int>, b: iset<int>)
    requires Ordered(m) && forall c :: In(m, c) <==> c in a && c in b
    ensures m == [] ==> forall c :: c in a ==> c !in b
    ensures m != [] ==> m[0].lo in a && m[0].lo in b && forall d :: d in a && d in b ==> m[0].lo <= d
  {
    if m != [] {
      assert In(m, m[0].lo);
      forall d | d in a && d in b ensures m[0].lo <= d { FirstOf(m, d); assert In(m, d); }
    }
  }

  /** Two alternatives that match nothing, one, or none. */
  method CountEmpty(at: Attrs, kids: seq<Node>) returns (n: nat)
    ensures 1 < n <==> TwoEmpty(at, kids)
    ensures 0 < n <==> SomeEmpty(at, kids)
  {
    n := 0;
    for i := 0 to |kids|
      invariant 1 < n <==> exists j, k :: 0 <= j < k < i && kids[j] in at.nul && kids[k] in at.nul
      invariant 0 < n <==> exists j :: 0 <= j < i && kids[j] in at.nul
    {
      if kids[i] in at.nul {
        ghost var was := n;
        n := n + 1;
        if 0 < was {
          var j :| 0 <= j < i && kids[j] in at.nul;
          assert 0 <= j < i < i + 1 && kids[j] in at.nul && kids[i] in at.nul;
        }
      }
    }
  }

  /** One visit's check. */
  method CheckVisit(at: Attrs, v: Visit, rule: string, follow: Follows) returns (why: Option<Reason>)
    requires GoodSets(at) && GoodBase(v.base) && GoodFollow(follow)
    ensures var after := AfterSet(v.base, v.open, Chars(Fol(follow, rule)));
            && (why.None? <==> Decided(at, v.x, after))
            && (why.Some? ==> why.value.rule == rule && Undecided(at, v.x, after, why.value) && !why.value.LeftRecursion?)
            && (why.Some? && (why.value.NothingOrBegin? || why.value.RepeatOrFollow?) ==> Choice(at, v.x))
  {
    hide GoodFollow, GoodBase, GoodSet;
    match v.x
    case Alt(kids) => why := CheckAlt(at, v, rule, follow);
    case Rep(kid, min, max) =>
      if min != max {
        GoodF(at, kid);
        var after := After(v, follow, rule);
        OrderedGood(F(at, kid));
        OrderedGood(after);
        var m := Meet(F(at, kid), after);
        LeastOfMeet(m, Chars(F(at, kid)), AfterSet(v.base, v.open, Chars(Fol(follow, rule))));
        if 0 < |m| { return Some(RepeatOrFollow(rule, m[0].lo)); }
      }
      why := None;
    case _ => why := None;
  }

  lemma OrderedGood(s: seq<Range>)
    requires GoodSet(s)
    ensures Ordered(s) && forall i :: 0 <= i < |s| ==> 0 <= s[i].lo
  {
  }

  method CheckAlt(at: Attrs, v: Visit, rule: string, follow: Follows) returns (why: Option<Reason>)
    requires v.x.Alt? && GoodSets(at) && GoodBase(v.base) && GoodFollow(follow)
    ensures var after := AfterSet(v.base, v.open, Chars(Fol(follow, rule)));
            && (why.None? <==> Decided(at, v.x, after))
            && (why.Some? ==> why.value.rule == rule && Undecided(at, v.x, after, why.value) && !why.value.LeftRecursion?)
            && (why.Some? && (why.value.NothingOrBegin? || why.value.RepeatOrFollow?) ==> Choice(at, v.x))
  {
    hide GoodFollow, GoodBase, GoodSet, In, InAny, HeldTwice, Ordered;
    ghost var after := AfterSet(v.base, v.open, Chars(Fol(follow, rule)));
    var kids := v.x.kids;
    var fs := Firsts(at, kids);
    FirstsGood(at, kids);
    var c := Shared(fs);
    if 0 <= c { return Some(TwoBegin(rule, c)); }
    var empties := CountEmpty(at, kids);
    if 1 < empties { return Some(TwoMatchNothing(rule)); }
    if 0 < empties {
      var all := Join(fs);
      var next := After(v, follow, rule);
      OrderedGood(all);
      OrderedGood(next);
      var m := Meet(all, next);
      LeastOfMeet(m, Chars(all), after);
      if 0 < |m| { return Some(NothingOrBegin(rule, m[0].lo)); }
    }
    return None;
  }

  lemma FirstsGood(at: Attrs, kids: seq<Node>)
    requires GoodSets(at)
    ensures forall i :: 0 <= i < |Firsts(at, kids)| ==> GoodSet(Firsts(at, kids)[i]) && Ordered(Firsts(at, kids)[i])
    ensures forall i, k :: 0 <= i < |Firsts(at, kids)| && 0 <= k < |Firsts(at, kids)[i]| ==> 0 <= Firsts(at, kids)[i][k].lo
  {
    forall i | 0 <= i < |kids| ensures GoodSet(F(at, kids[i])) { GoodF(at, kids[i]); }
  }

  ghost predicate RuleDecided(rules: Rules, at: Attrs, rule: string)
    requires rule in rules
  {
    forall i :: 0 <= i < |RuleVisits(at, rules[rule])| ==>
      var v := RuleVisits(at, rules[rule])[i];
      Decided(at, v.x, AfterSet(v.base, v.open, Follow(rules, at, rule)))
  }

  /** What Needed and Grow leave behind. */
  ghost predicate Grown(rules: Rules, at: Attrs, needed: set<string>, follow: Follows) {
    && GoodFollow(follow) && NeededClosed(rules, at, needed) && FollowSound(rules, at, follow)
    && forall rule :: rule in rules ==> SettledRule(rules, at, needed, follow, rule)
  }

  /** A rule's checks, in the order of its visits. */
  method CheckRule(rules: Rules, at: Attrs, ghost needed: set<string>, follow: Follows, rule: string)
    returns (why: Option<Reason>)
    requires GoodSets(at) && rule in rules && Grown(rules, at, needed, follow)
    ensures why.None? ==> RuleDecided(rules, at, rule)
    ensures why.Some? ==> !why.value.LeftRecursion? && ReasonHolds(rules, at, why.value)
  {
    hide GoodSets, Decided, Undecided, RuleVisits, AfterSet, Follow;
    var visits := RuleVisits(at, rules[rule]);
    RuleVisitsGood(at, rules[rule]);
    for i := 0 to |visits|
      invariant forall k :: 0 <= k < i ==>
                  Decided(at, visits[k].x, AfterSet(visits[k].base, visits[k].open, Follow(rules, at, rule)))
    {
      assert visits[i] in visits;
      why := CheckVisit(at, visits[i], rule, follow);
      SameVerdict(rules, at, needed, follow, rule, i);
      if why.Some? {
        SameReason(at, visits[i].x, AfterSet(visits[i].base, visits[i].open, Chars(Fol(follow, rule))),
                   AfterSet(visits[i].base, visits[i].open, Follow(rules, at, rule)), why.value);
        assert ReasonAt(rules, at, why.value, i);
        return;
      }
    }
    why := None;
  }

  lemma SameReason(at: Attrs, x: Node, a: iset<int>, b: iset<int>, why: Reason)
    requires Undecided(at, x, a, why) && (Choice(at, x) ==> a == b)
    requires why.NothingOrBegin? || why.RepeatOrFollow? ==> Choice(at, x)
    ensures Undecided(at, x, b, why)
  {
  }

  method CheckAll(rules: Rules, order: seq<string>, at: Attrs, ghost needed: set<string>, follow: Follows)
    returns (why: Option<Reason>)
    requires GoodSets(at) && Grown(rules, at, needed, follow) && forall n :: n in order <==> n in rules
    ensures why.None? ==> Deterministic(rules, at)
    ensures why.Some? ==> !why.value.LeftRecursion? && ReasonHolds(rules, at, why.value)
  {
    hide GoodSets, Grown, RuleDecided;
    for k := 0 to |order|
      invariant forall j :: 0 <= j < k ==> order[j] in rules && RuleDecided(rules, at, order[j])
    {
      assert order[k] in order;
      why := CheckRule(rules, at, needed, follow, order[k]);
      if why.Some? { return; }
    }
    why := None;
    AllDecided(rules, at, order);
  }

  lemma AllDecided(rules: Rules, at: Attrs, order: seq<string>)
    requires forall n :: n in rules ==> n in order
    requires forall j :: 0 <= j < |order| ==> order[j] in rules && RuleDecided(rules, at, order[j])
    ensures Deterministic(rules, at)
  {
    forall rule | rule in rules ensures RuleDecided(rules, at, rule) {
      assert rule in order;
    }
  }

  // ----- the pass

  /** The equations solved over nodes that have the rules, and with a node its kids and what it refers to. */
  ghost predicate Closes(rules: Rules, at: Attrs) {
    ClosedUnder(rules, at.fst.Keys) && (forall n :: n in rules ==> rules[n] in at.fst) && Fixpoint(rules, at, at.fst.Keys)
  }

  /** The attributes as they are: the equations solved by what is true. */
  ghost predicate Solution(rules: Rules, at: Attrs) {
    Closes(rules, at) && Sound(rules, at)
  }

  /** The least solution: it claims no more than any other, true or not. */
  ghost predicate Least(rules: Rules, at: Attrs) {
    Solution(rules, at) && forall other :: Closes(rules, other) ==> Below(at, other)
  }

  /** There is but one. */
  lemma LeastUnique(rules: Rules, a: Attrs, b: Attrs)
    requires Least(rules, a) && Least(rules, b)
    ensures a == b
  {
    hide Sound;
    assert Below(a, b) && Below(b, a);
    forall x | x in a.fst ensures a.fst[x] == b.fst[x] {
      assert forall c :: In(F(a, x), c) <==> In(F(b, x), c);
      CanonicalUnique(a.fst[x], b.fst[x]);
    }
    assert a.fst == b.fst;
  }

  datatype Analysis = Accepted(g: Format) | Refused(why: Reason)

  /** The attributes, by the loop over the nodes collected along a walk of the rules. */
  method Attributed(rules: Rules, order: seq<string>) returns (at: Attrs)
    requires ReadRules(rules) && forall n :: n in order <==> n in rules
    ensures Least(rules, at)
  {
    var plain := EdgesOf(rules, order, {}, false);
    EdgesReach(rules, plain, {}, false);
    var done, backs := DepthFirst(order, plain, rules.Keys);
    var nodes := CollectAll(rules, done);
    CollectedClosed(rules, nodes);
    at := Solve(rules, nodes);
    SolvedLeast(rules, nodes, at);
  }

  lemma SolvedLeast(rules: Rules, nodes: seq<Node>, at: Attrs)
    requires Solution(rules, at) && Fewest(rules.Values, nodes) && at.fst.Keys == SetOf(nodes)
    requires forall other :: Solves(rules, SetOf(nodes), other) ==> Below(at, other)
    ensures Least(rules, at)
  {
    hide Sound, Below;
    forall other | Closes(rules, other) ensures Below(at, other) {
      assert KidsWithin(other.fst.Keys);
      assert rules.Values <= other.fst.Keys;
      assert SetOf(nodes) <= other.fst.Keys;
      SolvesFewer(rules, SetOf(nodes), other);
    }
  }

  lemma SolvesFewer(rules: Rules, nodes: set<Node>, other: Attrs)
    requires Closes(rules, other) && nodes <= other.fst.Keys
    ensures Solves(rules, nodes, other)
  {
    hide Solved;
  }

  /** Every choice decided by one character, and no rule that reaches itself before one. */
  ghost predicate OneCharacter(rules: Rules, at: Attrs) {
    Deterministic(rules, at) && forall t :: !LeftRecursive(rules, at, t)
  }

  /** fAnalyse: a grammar is accepted exactly where one character decides it at the least solution of its
      equations; a refusal has a reason that holds there. */
  method Analyse(rules: Rules, order: seq<string>, start: string) returns (r: Analysis)
    requires ReadRules(rules) && start in rules && forall n :: n in order <==> n in rules
    ensures exists at :: Least(rules, at) && (r.Accepted? <==> OneCharacter(rules, at))
                         && (r.Accepted? ==> r.g.at == at) && (r.Refused? ==> ReasonHolds(rules, at, r.why))
    ensures r.Accepted? ==> r.g.rules == rules && r.g.start == start && Ready(r.g)
    ensures r.Accepted? ==> (r.g.empty <==> Derives(rules, rules[start], []))
  {
    hide Least, Solution, Reaches, Grown, Deterministic, Ranked, Topological, LeftRecursive;
    var at := Attributed(rules, order);
    LeastSolves(rules, at);
    var lead := EdgesOf(rules, order, at.nul, true);
    EdgesReach(rules, lead, at.nul, true);
    var done, backs := DepthFirst(order, lead, rules.Keys);
    if 0 < |backs| {
      assert backs[0] in backs;
      BackIsLeft(rules, at, lead, backs[0]);
      return Analysis.Refused(LeftRecursion(backs[0]));
    }
    TopologicalRanks(rules, at, lead, done);
    var needed := Needed(rules, order, at);
    SolutionGood(rules, at);
    var follow := Grow(rules, order, at, needed);
    GrownIs(rules, at, needed, follow);
    var why := CheckAll(rules, order, at, needed, follow);
    if why.Some? {
      RefusedNot(rules, at, why.value);
      return Analysis.Refused(why.value);
    }
    r := Accepted(Format(start, rules[start] in at.nul, rules, at));
    ReadyIs(r.g, done);
  }

  lemma LeastSolves(rules: Rules, at: Attrs)
    requires Least(rules, at)
    ensures Solution(rules, at)
  {
  }

  /** Where a reason holds, one character does not decide. */
  lemma RefusedNot(rules: Rules, at: Attrs, why: Reason)
    requires ReasonHolds(rules, at, why)
    ensures !OneCharacter(rules, at)
  {
    if !why.LeftRecursion? {
      var i: nat :| ReasonAt(rules, at, why, i);
      var v := RuleVisits(at, rules[why.rule])[i];
      UndecidedIs(at, v.x, AfterSet(v.base, v.open, Follow(rules, at, why.rule)), why);
    }
  }

  lemma SolutionGood(rules: Rules, at: Attrs)
    requires Solution(rules, at)
    ensures GoodSets(at)
  {
  }

  lemma GrownIs(rules: Rules, at: Attrs, needed: set<string>, follow: Follows)
    requires GoodFollow(follow) && NeededClosed(rules, at, needed) && FollowSound(rules, at, follow)
    requires forall rule :: rule in rules ==> SettledRule(rules, at, needed, follow, rule)
    ensures Grown(rules, at, needed, follow)
  {
  }

  lemma ReadyIs(g: Format, done: seq<string>)
    requires ReadRules(g.rules) && g.start in g.rules && Solution(g.rules, g.at)
    requires Deterministic(g.rules, g.at) && Ranked(g.rules, g.at, done)
    requires g.empty <==> g.rules[g.start] in g.at.nul
    ensures Ready(g) && (g.empty <==> Derives(g.rules, g.rules[g.start], []))
    ensures forall t :: !LeftRecursive(g.rules, g.at, t)
  {
    hide Ranked, LeftRecursive, Deterministic;
    AttributesExact(g.rules, g.at, g.at.fst.Keys, g.rules[g.start]);
    forall t ensures !LeftRecursive(g.rules, g.at, t) { RankedNotLeft(g.rules, g.at, done, t); }
  }
}
