/**
 FOLLOW where a choice needs it (go/formatgrammar.go:731-775): the rules whose FOLLOW some
 choice reads, found backwards over the references that can end a rule, and their FOLLOW
 grown until nothing moves.  What it leaves out changes no verdict.
 */
module FollowLoop {
  import opened Ranges
  import opened Grammar
  import opened Attributes
  import opened AttributeLoop
  import opened Flow

  // ----- which rules need their FOLLOW

  /** Whether what follows x can matter to a check at x (choice). */
  predicate Choice(at: Attrs, x: Node) {
    match x
    case Rep(_, min, max) => min != max
    case Alt(kids) => exists i :: 0 <= i < |kids| && kids[i] in at.nul
    case _ => false
  }

  /** A rule is needed where a choice, or a reference to a needed rule, can end it. */
  ghost predicate NeededClosed(rules: Rules, at: Attrs, needed: set<string>) {
    forall rule, i :: rule in rules && 0 <= i < |RuleVisits(at, rules[rule])| ==>
      var v := RuleVisits(at, rules[rule])[i];
      v.open && (Choice(at, v.x) || (v.x.Ref? && v.x.name in needed)) ==> rule in needed
  }

  function EndersOf(enders: map<string, seq<string>>, name: string): seq<string> {
    if name in enders then enders[name] else []
  }

  /** Every open choice marked and every open reference recorded, for the rules in done. */
  ghost predicate Marked(rules: Rules, at: Attrs, done: seq<string>, needed: set<string>, enders: map<string, seq<string>>) {
    forall rule, i :: rule in done && rule in rules && 0 <= i < |RuleVisits(at, rules[rule])| ==>
      VisitMarked(at, rule, RuleVisits(at, rules[rule])[i], needed, enders)
  }

  ghost predicate VisitMarked(at: Attrs, rule: string, v: Visit, needed: set<string>, enders: map<string, seq<string>>) {
    v.open ==>
      && (Choice(at, v.x) ==> rule in needed)
      && (v.x.Ref? ==> rule in EndersOf(enders, v.x.name))
  }

  ghost predicate EndersKnown(rules: Rules, enders: map<string, seq<string>>) {
    forall name, q :: q in EndersOf(enders, name) ==> q in rules
  }

  /** What is marked and recorded lies in a set of rules. */
  ghost predicate Inside(needed: set<string>, enders: map<string, seq<string>>, s: set<string>) {
    needed <= s && forall n, q :: n in s && q in EndersOf(enders, n) ==> q in s
  }

  /** Nothing is marked or recorded that some closed set would do without. */
  ghost predicate NoMore(rules: Rules, at: Attrs, needed: set<string>, enders: map<string, seq<string>>) {
    forall s: set<string> :: NeededClosed(rules, at, s) ==> Inside(needed, enders, s)
  }

  lemma NoMoreMarked(rules: Rules, at: Attrs, needed: set<string>, enders: map<string, seq<string>>, name: string, i: nat)
    requires NoMore(rules, at, needed, enders) && name in rules && i < |RuleVisits(at, rules[name])|
    requires var v := RuleVisits(at, rules[name])[i]; v.open && Choice(at, v.x)
    ensures NoMore(rules, at, needed + {name}, enders)
  {
    hide Choice, RuleVisits, EndersOf;
    forall s: set<string> | NeededClosed(rules, at, s) ensures Inside(needed + {name}, enders, s) { assert Inside(needed, enders, s); }
  }

  lemma NoMoreRecorded(rules: Rules, at: Attrs, needed: set<string>, enders: map<string, seq<string>>, name: string, i: nat)
    requires NoMore(rules, at, needed, enders) && name in rules && i < |RuleVisits(at, rules[name])|
    requires var v := RuleVisits(at, rules[name])[i]; v.open && v.x.Ref?
    ensures var n := RuleVisits(at, rules[name])[i].x.name;
            NoMore(rules, at, needed, enders[n := EndersOf(enders, n) + [name]])
  {
    hide Choice, RuleVisits;
    var to := RuleVisits(at, rules[name])[i].x.name;
    var e := enders[to := EndersOf(enders, to) + [name]];
    forall s: set<string> | NeededClosed(rules, at, s) ensures Inside(needed, e, s) {
      assert Inside(needed, enders, s);
      forall n, q | n in s && q in EndersOf(e, n) ensures q in s {
        if n != to || q != name { assert q in EndersOf(enders, n); }
      }
    }
  }

  lemma NoMoreGrown(rules: Rules, at: Attrs, n1: set<string>, n2: set<string>, enders: map<string, seq<string>>, t: string)
    requires NoMore(rules, at, n1, enders) && t in n1 && forall n :: n in n2 ==> n in n1 || n in EndersOf(enders, t)
    ensures NoMore(rules, at, n2, enders)
  {
    hide EndersOf, NeededClosed;
    forall s: set<string> | NeededClosed(rules, at, s) ensures Inside(n2, enders, s) { assert Inside(n1, enders, s); }
  }

  method Needed(rules: Rules, order: seq<string>, at: Attrs) returns (needed: set<string>)
    requires forall n :: n in order <==> n in rules
    ensures NeededClosed(rules, at, needed) && needed <= rules.Keys
    ensures forall s: set<string> :: NeededClosed(rules, at, s) ==> needed <= s
  {
    hide Choice, RuleVisits;
    var enders;
    var todo;
    needed, enders, todo := Mark(rules, order, at);
    while 0 < |todo|
      invariant needed <= rules.Keys && EndersKnown(rules, enders)
      invariant forall t :: t in todo ==> t in needed
      invariant forall n :: n in needed ==> n in todo || forall q :: q in EndersOf(enders, n) ==> q in needed
      invariant Marked(rules, at, order, needed, enders) && NoMore(rules, at, needed, enders)
      decreases rules.Keys - needed, |todo|
    {
      var t := todo[|todo| - 1];
      ghost var was := todo;
      todo := todo[..|todo| - 1];
      var qs := EndersOf(enders, t);
      ghost var had := needed;
      needed, todo := NeedAll(rules, at, order, enders, qs, needed, todo);
      NoMoreGrown(rules, at, had, needed, enders, t);
      assert was == was[..|was| - 1] + [t];
    }
    NeededDone(rules, order, at, needed, enders);
    forall s: set<string> | NeededClosed(rules, at, s) ensures needed <= s { assert Inside(needed, enders, s); }
  }

  lemma NeededDone(rules: Rules, order: seq<string>, at: Attrs, needed: set<string>, enders: map<string, seq<string>>)
    requires forall n :: n in order <==> n in rules
    requires Marked(rules, at, order, needed, enders)
    requires forall n :: n in needed ==> forall q :: q in EndersOf(enders, n) ==> q in needed
    ensures NeededClosed(rules, at, needed)
  {
    forall rule, i | rule in rules && 0 <= i < |RuleVisits(at, rules[rule])|
      ensures var v := RuleVisits(at, rules[rule])[i];
              v.open && (Choice(at, v.x) || (v.x.Ref? && v.x.name in needed)) ==> rule in needed
    {
      assert VisitMarked(at, rule, RuleVisits(at, rules[rule])[i], needed, enders);
    }
  }

  /** The closure need, over several names. */
  method NeedAll(rules: Rules, ghost at: Attrs, ghost order: seq<string>, ghost enders: map<string, seq<string>>,
                 qs: seq<string>, needed0: set<string>, todo0: seq<string>)
    returns (needed: set<string>, todo: seq<string>)
    requires needed0 <= rules.Keys && forall q :: q in qs ==> q in rules
    requires forall t :: t in todo0 ==> t in needed0
    ensures needed0 <= needed <= rules.Keys && forall q :: q in qs ==> q in needed
    ensures todo0 <= todo
    ensures forall t :: t in todo ==> t in needed
    ensures forall n :: n in needed ==> n in needed0 || (n in todo && n in qs)
    ensures needed == needed0 ==> todo == todo0
    ensures Marked(rules, at, order, needed0, enders) ==> Marked(rules, at, order, needed, enders)
  {
    needed, todo := needed0, todo0;
    for i := 0 to |qs|
      invariant needed0 <= needed <= rules.Keys && forall k :: 0 <= k < i ==> qs[k] in needed
      invariant todo0 <= todo
      invariant forall t :: t in todo ==> t in needed
      invariant forall n :: n in needed ==> n in needed0 || (n in todo && n in qs)
      invariant needed == needed0 ==> todo == todo0
    {
      assert qs[i] in qs;
      if qs[i] !in needed {
        assert qs[i] in needed + {qs[i]} && qs[i] !in needed0;
        needed := needed + {qs[i]};
        todo := todo + [qs[i]];
      }
    }
    MarkedMore(rules, at, order, needed0, needed, enders);
  }

  lemma MarkedMore(rules: Rules, at: Attrs, order: seq<string>, n1: set<string>, n2: set<string>, enders: map<string, seq<string>>)
    requires n1 <= n2
    ensures Marked(rules, at, order, n1, enders) ==> Marked(rules, at, order, n2, enders)
  {
    if Marked(rules, at, order, n1, enders) {
      forall rule, i | rule in order && rule in rules && 0 <= i < |RuleVisits(at, rules[rule])|
        ensures VisitMarked(at, rule, RuleVisits(at, rules[rule])[i], n2, enders)
      {
        assert VisitMarked(at, rule, RuleVisits(at, rules[rule])[i], n1, enders);
      }
    }
  }

  /** The first pass: open choices mark their rule, open references record it. */
  method Mark(rules: Rules, order: seq<string>, at: Attrs)
    returns (needed: set<string>, enders: map<string, seq<string>>, todo: seq<string>)
    requires forall n :: n in order <==> n in rules
    ensures needed <= rules.Keys && EndersKnown(rules, enders)
    ensures forall t :: t in todo <==> t in needed
    ensures Marked(rules, at, order, needed, enders) && NoMore(rules, at, needed, enders)
  {
    hide Choice, RuleVisits;
    needed, enders, todo := {}, map[], [];
    for k := 0 to |order|
      invariant needed <= rules.Keys && EndersKnown(rules, enders)
      invariant forall t :: t in todo <==> t in needed
      invariant Marked(rules, at, order[..k], needed, enders) && NoMore(rules, at, needed, enders)
    {
      var name := order[k];
      assert name in rules;
      needed, enders, todo := MarkRule(rules, name, at, needed, enders, todo, order[..k]);
      assert order[..k + 1] == order[..k] + [name];
    }
    assert order[..|order|] == order;
  }

  method MarkRule(rules: Rules, name: string, at: Attrs, needed0: set<string>, enders0: map<string, seq<string>>,
                  todo0: seq<string>, ghost before: seq<string>)
    returns (needed: set<string>, enders: map<string, seq<string>>, todo: seq<string>)
    requires name in rules && needed0 <= rules.Keys && EndersKnown(rules, enders0)
    requires forall t :: t in todo0 <==> t in needed0
    requires Marked(rules, at, before, needed0, enders0) && NoMore(rules, at, needed0, enders0)
    ensures needed <= rules.Keys && EndersKnown(rules, enders)
    ensures forall t :: t in todo <==> t in needed
    ensures Marked(rules, at, before + [name], needed, enders) && NoMore(rules, at, needed, enders)
  {
    hide NoMore, RuleVisits;
    needed, enders, todo := needed0, enders0, todo0;
    var visits := RuleVisits(at, rules[name]);
    for i := 0 to |visits|
      invariant needed0 <= needed <= rules.Keys && EndersKnown(rules, enders)
      invariant EndersGrow(enders0, enders)
      invariant forall t :: t in todo <==> t in needed
      invariant (forall k :: 0 <= k < i ==> VisitMarked(at, name, visits[k], needed, enders)) && NoMore(rules, at, needed, enders)
    {
      var v := visits[i];
      var choice := Choice(at, v.x);
      if v.open && choice && name !in needed {
        NoMoreMarked(rules, at, needed, enders, name, i);
        needed := needed + {name};
        todo := todo + [name];
      }
      if v.open && v.x.Ref? {
        RecordMore(rules, enders, v.x.name, name);
        NoMoreRecorded(rules, at, needed, enders, name, i);
        enders := enders[v.x.name := EndersOf(enders, v.x.name) + [name]];
      }
    }
    MarkedOne(rules, at, before, name, needed0, enders0, needed, enders);
  }

  ghost predicate EndersGrow(e1: map<string, seq<string>>, e2: map<string, seq<string>>) {
    forall n, q :: q in EndersOf(e1, n) ==> q in EndersOf(e2, n)
  }

  lemma RecordMore(rules: Rules, enders: map<string, seq<string>>, n: string, name: string)
    requires EndersKnown(rules, enders) && name in rules
    ensures var e := enders[n := EndersOf(enders, n) + [name]];
            EndersKnown(rules, e) && EndersGrow(enders, e) && name in EndersOf(e, n)
  {
    var e := enders[n := EndersOf(enders, n) + [name]];
    forall m, q | q in EndersOf(e, m) ensures q in rules {
      if m == n && q != name { assert q in EndersOf(enders, n); }
      else if m != n { assert q in EndersOf(enders, m); }
    }
  }

  lemma MarkedOne(rules: Rules, at: Attrs, before: seq<string>, name: string, n1: set<string>, e1: map<string, seq<string>>,
                  n2: set<string>, e2: map<string, seq<string>>)
    requires name in rules && n1 <= n2 && EndersGrow(e1, e2) && Marked(rules, at, before, n1, e1)
    requires forall i :: 0 <= i < |RuleVisits(at, rules[name])| ==> VisitMarked(at, name, RuleVisits(at, rules[name])[i], n2, e2)
    ensures Marked(rules, at, before + [name], n2, e2)
  {
    forall rule, i | rule in before + [name] && rule in rules && 0 <= i < |RuleVisits(at, rules[rule])|
      ensures VisitMarked(at, rule, RuleVisits(at, rules[rule])[i], n2, e2)
    {
      if rule != name { assert VisitMarked(at, rule, RuleVisits(at, rules[rule])[i], n1, e1); }
    }
  }

  // ----- the growing sets

  type Follows = map<string, seq<Range>>

  function Fol(follow: Follows, name: string): seq<Range> {
    if name in follow then follow[name] else []
  }

  ghost predicate GoodFollow(follow: Follows) {
    forall n :: n in follow ==> GoodSet(follow[n])
  }

  ghost predicate GoodBase(base: seq<seq<Range>>) {
    forall i :: 0 <= i < |base| ==> GoodSet(base[i])
  }

  lemma {:induction false} TailGood(at: Attrs, items: seq<Node>, base: seq<seq<Range>>, open: bool)
    requires GoodSets(at) && GoodBase(base)
    ensures GoodBase(TailOf(at, items, base, open).0)
  {
    if items != [] {
      TailGood(at, items[1..], base, open);
      GoodF(at, items[0]);
    }
  }

  lemma {:induction false} VisitsGood(at: Attrs, x: Node, base: seq<seq<Range>>, open: bool)
    requires GoodSets(at) && GoodBase(base)
    ensures forall v :: v in Visits(at, x, base, open) ==> GoodBase(v.base)
    decreases x, 1
  {
    match x
    case Alt(kids) => VisitsGoodAlt(at, kids, base, open);
    case Cat(kids) => VisitsGoodCat(at, kids, base, open);
    case Rep(kid, _, _) =>
      GoodF(at, kid);
      VisitsGood(at, kid, if Many(x) then [F(at, kid)] + base else base, open);
    case _ =>
  }

  lemma {:induction false} VisitsGoodAlt(at: Attrs, kids: seq<Node>, base: seq<seq<Range>>, open: bool)
    requires GoodSets(at) && GoodBase(base)
    ensures forall v :: v in VisitsAlt(at, kids, base, open) ==> GoodBase(v.base)
    decreases kids, 0
  {
    if kids != [] {
      VisitsGood(at, kids[0], base, open);
      VisitsGoodAlt(at, kids[1..], base, open);
    }
  }

  lemma {:induction false} VisitsGoodCat(at: Attrs, kids: seq<Node>, base: seq<seq<Range>>, open: bool)
    requires GoodSets(at) && GoodBase(base)
    ensures forall v :: v in VisitsCat(at, kids, base, open) ==> GoodBase(v.base)
    decreases kids, 0
  {
    if kids != [] {
      TailGood(at, kids[1..], base, open);
      var (b, o) := TailOf(at, kids[1..], base, open);
      VisitsGood(at, kids[0], b, o);
      VisitsGoodCat(at, kids[1..], base, open);
    }
  }

  /** What can follow a visit as the sets stand: the thunk after, asked for. */
  method After(v: Visit, follow: Follows, rule: string) returns (out: seq<Range>)
    requires GoodBase(v.base) && GoodFollow(follow)
    ensures GoodSet(out)
    ensures forall c :: In(out, c) <==> c in AfterSet(v.base, v.open, Chars(Fol(follow, rule)))
  {
    if v.open {
      var sets := v.base + [Fol(follow, rule)];
      out := UnionGood(sets);
      forall c ensures In(out, c) <==> InAny(v.base, c) || In(Fol(follow, rule), c) { AnyPlus(v.base, Fol(follow, rule), c); }
    } else {
      out := UnionGood(v.base);
    }
  }

  method UnionGood(sets: seq<seq<Range>>) returns (out: seq<Range>)
    requires forall i :: 0 <= i < |sets| ==> GoodSet(sets[i])
    ensures GoodSet(out) && forall c :: In(out, c) <==> InAny(sets, c)
  {
    out := UnionAll(sets);
    forall c | In(out, c) ensures 0 <= c <= TOP {
      var i :| 0 <= i < |sets| && In(sets[i], c);
      PointsWithin(sets[i], c);
    }
    WithinByPoints(out);
  }

  /** Every character in a set so far can follow its rule. */
  ghost predicate FollowSound(rules: Rules, at: Attrs, follow: Follows) {
    forall n, c :: In(Fol(follow, n), c) ==> CanFollow(rules, at, n, c)
  }

  /** The visit's reference has all of what can follow it. */
  ghost predicate Settled(needed: set<string>, follow: Follows, rule: string, v: Visit) {
    v.x.Ref? && v.x.name in needed ==>
      forall c :: c in AfterSet(v.base, v.open, Chars(Fol(follow, rule))) ==> In(Fol(follow, v.x.name), c)
  }

  ghost predicate SettledRule(rules: Rules, at: Attrs, needed: set<string>, follow: Follows, rule: string)
    requires rule in rules
  {
    forall i :: 0 <= i < |RuleVisits(at, rules[rule])| ==> Settled(needed, follow, rule, RuleVisits(at, rules[rule])[i])
  }

  datatype FollowFact = FollowFact(name: string, c: int)

  ghost function Missing(needed: set<string>, follow: Follows): set<FollowFact> {
    set n, c | n in needed && 0 <= c <= TOP && !In(Fol(follow, n), c) :: FollowFact(n, c)
  }

  lemma GrowVisit(rules: Rules, at: Attrs, follow: Follows, rule: string, i: nat, grown: seq<Range>)
    requires rule in rules && i < |RuleVisits(at, rules[rule])| && RuleVisits(at, rules[rule])[i].x.Ref?
    requires FollowSound(rules, at, follow)
    requires var v := RuleVisits(at, rules[rule])[i];
             forall c :: In(grown, c) <==> In(Fol(follow, v.x.name), c) || c in AfterSet(v.base, v.open, Chars(Fol(follow, rule)))
    ensures FollowSound(rules, at, follow[RuleVisits(at, rules[rule])[i].x.name := grown])
  {
    hide In, RuleVisits, CanFollow;
    var v := RuleVisits(at, rules[rule])[i];
    FollowClosed(rules, at, rule, i);
    var f' := follow[v.x.name := grown];
    forall n, c | In(Fol(f', n), c) ensures CanFollow(rules, at, n, c) {
      if n == v.x.name && !In(Fol(follow, n), c) {
        assert c in AfterSet(v.base, v.open, Follow(rules, at, rule));
      }
    }
  }

  lemma GrowFalls(needed: set<string>, follow: Follows, name: string, grown: seq<Range>)
    requires GoodFollow(follow) && name in needed && GoodSet(grown) && grown != Fol(follow, name)
    requires forall c :: In(Fol(follow, name), c) ==> In(grown, c)
    ensures Missing(needed, follow[name := grown]) < Missing(needed, follow)
  {
    if forall c :: In(grown, c) ==> In(Fol(follow, name), c) {
      CanonicalUnique(grown, Fol(follow, name));
    } else {
      var c :| In(grown, c) && !In(Fol(follow, name), c);
      PointsWithin(grown, c);
      var f' := follow[name := grown];
      assert forall n :: n != name ==> Fol(f', n) == Fol(follow, n);
      assert FollowFact(name, c) in Missing(needed, follow) && FollowFact(name, c) !in Missing(needed, f');
    }
  }

  /** FOLLOW of the needed rules, grown to a fixpoint. */
  method Grow(rules: Rules, order: seq<string>, at: Attrs, needed: set<string>) returns (follow: Follows)
    requires GoodSets(at) && forall n :: n in order <==> n in rules
    ensures GoodFollow(follow) && FollowSound(rules, at, follow)
    ensures forall rule :: rule in rules ==> SettledRule(rules, at, needed, follow, rule)
  {
    follow := map[];
    var moved := true;
    while moved
      invariant GoodFollow(follow) && FollowSound(rules, at, follow)
      invariant !moved ==> forall rule :: rule in order && rule in rules ==> SettledRule(rules, at, needed, follow, rule)
      decreases Missing(needed, follow), moved
    {
      follow, moved := GrowRound(rules, order, at, needed, follow);
    }
  }

  method GrowRound(rules: Rules, order: seq<string>, at: Attrs, needed: set<string>, follow0: Follows)
    returns (follow: Follows, moved: bool)
    requires GoodSets(at) && forall n :: n in order <==> n in rules
    requires GoodFollow(follow0) && FollowSound(rules, at, follow0)
    ensures GoodFollow(follow) && FollowSound(rules, at, follow)
    ensures !moved ==> follow == follow0 && forall rule :: rule in order && rule in rules ==> SettledRule(rules, at, needed, follow, rule)
    ensures moved ==> Missing(needed, follow) < Missing(needed, follow0)
  {
    hide GoodFollow, FollowSound, Missing, SettledRule, GoodSets;
    follow, moved := follow0, false;
    for k := 0 to |order|
      invariant GoodFollow(follow) && FollowSound(rules, at, follow)
      invariant !moved ==> follow == follow0 && forall j :: 0 <= j < k ==> order[j] in rules && SettledRule(rules, at, needed, follow, order[j])
      invariant moved ==> Missing(needed, follow) < Missing(needed, follow0)
    {
      var grew;
      assert order[k] in order;
      follow, grew := GrowRule(rules, order[k], at, needed, follow);
      moved := moved || grew;
    }
  }

  method GrowRule(rules: Rules, name: string, at: Attrs, needed: set<string>, follow0: Follows)
    returns (follow: Follows, moved: bool)
    requires GoodSets(at) && name in rules && GoodFollow(follow0) && FollowSound(rules, at, follow0)
    ensures GoodFollow(follow) && FollowSound(rules, at, follow)
    ensures !moved ==> follow == follow0 && SettledRule(rules, at, needed, follow, name)
    ensures moved ==> Missing(needed, follow) < Missing(needed, follow0)
  {
    hide FollowSound, Missing, GoodSets, RuleVisits, AfterSet, In, Settled;
    follow, moved := follow0, false;
    var visits := RuleVisits(at, rules[name]);
    RuleVisitsGood(at, rules[name]);
    for i := 0 to |visits|
      invariant GoodFollow(follow) && FollowSound(rules, at, follow)
      invariant !moved ==> follow == follow0 && forall k :: 0 <= k < i ==> Settled(needed, follow, name, visits[k])
      invariant moved ==> Missing(needed, follow) < Missing(needed, follow0)
    {
      var v := visits[i];
      assert v in visits;
      if v.x.Ref? && v.x.name in needed {
        var was := Fol(follow, v.x.name);
        var after := After(v, follow, name);
        assert GoodSet(was) by { GoodNothing(); }
        var grown := UnionGood([was, after]);
        UnionOfTwo(was, after);
        var same := SameRanges(was, grown);
        if !same {
          GrowVisit(rules, at, follow, name, i, grown);
          GrowFalls(needed, follow, v.x.name, grown);
          follow := follow[v.x.name := grown];
          moved := true;
        } else {
          SettledNow(needed, follow, name, v);
        }
      } else {
        SettledOther(needed, follow, name, v);
      }
    }
  }

  lemma GoodNothing()
    ensures GoodSet([])
  {
  }

  lemma RuleVisitsGood(at: Attrs, x: Node)
    requires GoodSets(at)
    ensures forall v :: v in RuleVisits(at, x) ==> GoodBase(v.base)
  {
    VisitsGood(at, x, [], true);
  }

  lemma UnionOfTwo(a: seq<Range>, b: seq<Range>)
    ensures forall c :: InAny([a, b], c) <==> In(a, c) || In(b, c)
  {
    forall c ensures InAny([a, b], c) <==> In(a, c) || In(b, c) {
      assert In([a, b][0], c) <==> In(a, c);
      assert In([a, b][1], c) <==> In(b, c);
    }
  }

  lemma SettledNow(needed: set<string>, follow: Follows, rule: string, v: Visit)
    requires v.x.Ref? && forall c :: In(Fol(follow, v.x.name), c) <==>
                                     In(Fol(follow, v.x.name), c) || c in AfterSet(v.base, v.open, Chars(Fol(follow, rule)))
    ensures Settled(needed, follow, rule, v)
  {
  }

  lemma SettledOther(needed: set<string>, follow: Follows, rule: string, v: Visit)
    requires !(v.x.Ref? && v.x.name in needed)
    ensures Settled(needed, follow, rule, v)
  {
  }

  // ----- what is left out changes no verdict

  lemma {:induction false} ShownFound(rules: Rules, at: Attrs, needed: set<string>, follow: Follows, w: Why, name: string, c: int)
    requires NeededClosed(rules, at, needed)
    requires forall rule :: rule in rules ==> SettledRule(rules, at, needed, follow, rule)
    requires name in needed && Shows(rules, at, w, name, c)
    ensures In(Fol(follow, name), c)
    decreases w
  {
    var v := RuleVisits(at, rules[w.rule])[w.v];
    assert Settled(needed, follow, w.rule, v);
    if w.AtEnd? { ShownFound(rules, at, needed, follow, w.why, w.rule, c); }
  }

  /** The sets grown for the needed rules are their FOLLOW, exactly. */
  lemma NeededExact(rules: Rules, at: Attrs, needed: set<string>, follow: Follows, name: string)
    requires NeededClosed(rules, at, needed) && FollowSound(rules, at, follow)
    requires forall rule :: rule in rules ==> SettledRule(rules, at, needed, follow, rule)
    requires name in needed
    ensures Chars(Fol(follow, name)) == Follow(rules, at, name)
  {
    hide SettledRule, NeededClosed;
    forall c | CanFollow(rules, at, name, c) ensures In(Fol(follow, name), c) {
      var w :| Shows(rules, at, w, name, c);
      ShownFound(rules, at, needed, follow, w, name, c);
    }
  }

  /** Each check has the verdict it would have with FOLLOW computed for every rule. */
  lemma SameVerdict(rules: Rules, at: Attrs, needed: set<string>, follow: Follows, rule: string, i: nat)
    requires NeededClosed(rules, at, needed) && FollowSound(rules, at, follow)
    requires forall r :: r in rules ==> SettledRule(rules, at, needed, follow, r)
    requires rule in rules && i < |RuleVisits(at, rules[rule])|
    ensures var v := RuleVisits(at, rules[rule])[i];
            && (Choice(at, v.x) ==>
                  AfterSet(v.base, v.open, Chars(Fol(follow, rule))) == AfterSet(v.base, v.open, Follow(rules, at, rule)))
            && (Decided(at, v.x, AfterSet(v.base, v.open, Chars(Fol(follow, rule))))
                <==> Decided(at, v.x, AfterSet(v.base, v.open, Follow(rules, at, rule))))
  {
    var v := RuleVisits(at, rules[rule])[i];
    if v.open && Choice(at, v.x) {
      NeededExact(rules, at, needed, follow, rule);
    }
  }
}
