/**
 Alias expansion (go/alias.go:210-344): a reference keeps its expansion unless the target
 reaches the alias again, so rendering a settled tree through expansions ends
 (go/hcanon.go:94-99), whatever the declarations.
 */
module Aliases {
  import opened Options

  /** A value is known by its place in the document, as a pointer is. */
  type Id = nat

  /** What a rendering tells apart: a value with the values it renders (renderKids), a reference
      to an alias with its spelling and site, any other reference, and a residual of a path. */
  datatype Value = Branch(kids: seq<Id>) | Alias(key: string, site: string) | Other | Residual(target: seq<string>)

  /** The values of a document, what the root map holds under a key, its alias keys, and the
      targets a snapshot fixed per reference. */
  datatype Doc = Doc(vals: seq<Value>, peg: map<string, Id>, aliasKeys: seq<string>, snaps: map<string, Id>)

  /** Values are finite trees: numbered, what a value holds stands before it. */
  ghost predicate Good(d: Doc) {
    && (forall v, k :: 0 <= v < |d.vals| && d.vals[v].Branch? && k in d.vals[v].kids ==> k < v)
    && (forall key :: key in d.peg ==> d.peg[key] < |d.vals|)
    && (forall site :: site in d.snaps ==> d.snaps[site] < |d.vals|)
  }

  function Held(d: Doc, key: string): Option<Id> {
    if key in d.peg then Some(d.peg[key]) else None
  }

  /** targetOf. */
  function TargetOf(d: Doc, key: string, site: string): Option<Id> {
    if site in d.snaps then Some(d.snaps[site]) else Held(d, key)
  }

  /** A residual that stands for a reference to an alias. */
  predicate StandsIn(d: Doc, v: Value) {
    v.Residual? && |v.target| == 1 && v.target[0] in d.aliasKeys
  }

  // ----- what reaches what

  function Listed(o: Option<Id>): seq<Id> {
    if o.None? then [] else [o.value]
  }

  /** Where the search goes on from a value. */
  function Onward(d: Doc, v: Id): seq<Id> {
    if |d.vals| <= v then []
    else
      match d.vals[v]
      case Branch(kids) => kids
      case Alias(key, site) => Listed(TargetOf(d, key, site))
      case Other => []
      case Residual(target) => if StandsIn(d, d.vals[v]) then Listed(Held(d, target[0])) else []
  }

  /** A reference to the alias, or what stands for one. */
  predicate Names(d: Doc, v: Id, key: string) {
    v < |d.vals| && match d.vals[v]
                    case Alias(k, _) => k == key
                    case Residual(target) => StandsIn(d, d.vals[v]) && target[0] == key
                    case _ => false
  }

  ghost predicate Path(d: Doc, p: seq<Id>) {
    p != [] && forall i :: 0 <= i < |p| - 1 ==> p[i + 1] in Onward(d, p[i])
  }

  /** v reaches a reference to the alias. */
  ghost predicate Leads(d: Doc, v: Id, key: string) {
    exists p :: Path(d, p) && p[0] == v && Names(d, p[|p| - 1], key)
  }

  lemma LeadsHere(d: Doc, v: Id, key: string)
    requires Names(d, v, key)
    ensures Leads(d, v, key)
  {
    assert Path(d, [v]) && [v][|[v]| - 1] == v;
  }

  lemma LeadsOn(d: Doc, v: Id, u: Id, key: string)
    requires u in Onward(d, v) && Leads(d, u, key)
    ensures Leads(d, v, key)
  {
    var p :| Path(d, p) && p[0] == u && Names(d, p[|p| - 1], key);
    var q := [v] + p;
    forall i | 0 <= i < |q| - 1 ensures q[i + 1] in Onward(d, q[i]) {
      if 0 < i { assert q[i] == p[i - 1] && q[i + 1] == p[i]; }
    }
    assert q[|q| - 1] == p[|p| - 1];
  }

  /** Nothing in the set names the alias, and the search does not leave it, but to what was met before. */
  ghost predicate Searched(d: Doc, key: string, before: set<Id>, met: set<Id>) {
    before <= met && forall u :: u in met - before ==> !Names(d, u, key) && forall t :: t in Onward(d, u) ==> t in met
  }

  lemma {:induction false} ClosedPath(d: Doc, key: string, met: set<Id>, p: seq<Id>)
    requires Searched(d, key, {}, met) && Path(d, p) && p[0] in met
    ensures !Names(d, p[|p| - 1], key)
    decreases |p|
  {
    assert p[0] in met - {};
    if 1 < |p| {
      assert p[1] in Onward(d, p[0]);
      assert forall i :: 0 <= i < |p[1..]| ==> p[1..][i] == p[i + 1];
      ClosedPath(d, key, met, p[1..]);
    }
  }

  /** A search from nothing met that finds nothing: there is nothing. */
  lemma ClosedNever(d: Doc, key: string, met: set<Id>, v: Id)
    requires Searched(d, key, {}, met) && v in met
    ensures !Leads(d, v, key)
  {
    forall p | Path(d, p) && p[0] == v ensures !Names(d, p[|p| - 1], key) { ClosedPath(d, key, met, p); }
  }

  // ----- told of the values

  /** The target of a reference: the one its site is fixed to, or what the root holds. */
  ghost predicate Targets(d: Doc, key: string, site: string, t: Id) {
    if site in d.snaps then d.snaps[site] == t else key in d.peg && d.peg[key] == t
  }

  /** A value holds, refers to or stands for another. */
  ghost predicate Steps(d: Doc, v: Id, t: Id) {
    v < |d.vals| &&
    match d.vals[v]
    case Branch(kids) => t in kids
    case Alias(key, site) => Targets(d, key, site, t)
    case Other => false
    case Residual(target) => exists key :: key in d.aliasKeys && target == [key] && key in d.peg && d.peg[key] == t
  }

  /** A value is a reference to the alias, or a residual of it. */
  ghost predicate Refers(d: Doc, v: Id, key: string) {
    && v < |d.vals|
    && ((d.vals[v].Alias? && d.vals[v].key == key) || (key in d.aliasKeys && d.vals[v] == Residual([key])))
  }

  lemma OnwardIs(d: Doc, v: Id, t: Id)
    ensures t in Onward(d, v) <==> Steps(d, v, t)
  {
    if v < |d.vals| && StandsIn(d, d.vals[v]) { assert d.vals[v].target == [d.vals[v].target[0]]; }
  }

  lemma NamesIs(d: Doc, v: Id, key: string)
    ensures Names(d, v, key) <==> Refers(d, v, key)
  {
    if v < |d.vals| && StandsIn(d, d.vals[v]) { assert d.vals[v].target == [d.vals[v].target[0]]; }
  }

  ghost predicate StepPath(d: Doc, p: seq<Id>) {
    p != [] && forall i :: 0 <= i < |p| - 1 ==> Steps(d, p[i], p[i + 1])
  }

  /** Step by step the value comes to a reference to the alias. */
  ghost predicate ComesTo(d: Doc, v: Id, key: string) {
    exists p :: StepPath(d, p) && p[0] == v && Refers(d, p[|p| - 1], key)
  }

  /** What the search looks for is that. */
  lemma LeadsIs(d: Doc, v: Id, key: string)
    ensures Leads(d, v, key) <==> ComesTo(d, v, key)
  {
    hide Onward, Names, Steps, Refers;
    forall p ensures Path(d, p) <==> StepPath(d, p) {
      forall i | 0 <= i < |p| - 1 ensures p[i + 1] in Onward(d, p[i]) <==> Steps(d, p[i], p[i + 1]) { OnwardIs(d, p[i], p[i + 1]); }
    }
    forall u ensures Names(d, u, key) <==> Refers(d, u, key) { NamesIs(d, u, key); }
  }

  /** Which expansion is right, so told. */
  lemma RightIff(d: Doc, key: string, site: string, expansion: Option<Id>)
    ensures Right(d, key, site, expansion) <==>
      if exists t :: Targets(d, key, site, t) && !ComesTo(d, t, key) then expansion.Some? && Targets(d, key, site, expansion.value) else expansion.None?
  {
    hide Leads, ComesTo;
    forall t ensures Leads(d, t, key) <==> ComesTo(d, t, key) { LeadsIs(d, t, key); }
    var t := TargetOf(d, key, site);
    assert t.Some? ==> Targets(d, key, site, t.value);
  }

  predicate In(d: Doc, v: Id) {
    v < |d.vals|
  }

  ghost function Ids(d: Doc): (ids: set<Id>)
    ensures forall v :: v in ids <==> In(d, v)
  {
    set v: Id | v < |d.vals| && In(d, v)
  }

  lemma OnwardIn(d: Doc, v: Id)
    requires Good(d) && v < |d.vals|
    ensures forall t :: t in Onward(d, v) ==> t < |d.vals|
  {
  }

  lemma MetFirst(d: Doc, key: string, before: set<Id>, v: Id)
    requires v !in before
    ensures Met(d, key, before, before + {v}, v, 0)
  {
  }

  /** A value's own search, part done: all in the set but the value is searched, and so are its
      first n ways onward. */
  ghost predicate Met(d: Doc, key: string, before: set<Id>, met: set<Id>, v: Id, n: nat) {
    && before + {v} <= met && v !in before && n <= |Onward(d, v)|
    && (forall u :: u in met - before && u != v ==> !Names(d, u, key) && forall t :: t in Onward(d, u) ==> t in met)
    && (forall i :: 0 <= i < n ==> Onward(d, v)[i] in met)
  }

  lemma MetOn(d: Doc, key: string, before: set<Id>, met: set<Id>, v: Id, n: nat, now: set<Id>)
    requires Met(d, key, before, met, v, n) && n < |Onward(d, v)|
    requires Searched(d, key, met, now) && Onward(d, v)[n] in now
    ensures Met(d, key, before, now, v, n + 1)
  {
    forall u | u in now - before && u != v ensures !Names(d, u, key) && forall t :: t in Onward(d, u) ==> t in now {
      assert u in met - before || u in now - met;
    }
  }

  lemma MetAll(d: Doc, key: string, before: set<Id>, met: set<Id>, v: Id)
    requires Met(d, key, before, met, v, |Onward(d, v)|) && !Names(d, v, key)
    ensures Searched(d, key, before, met)
  {
  }

  /** reaches: depth first, through each reference's own target. */
  method Reaches(d: Doc, v: Id, key: string, met0: set<Id>) returns (found: bool, met: set<Id>)
    requires Good(d) && v < |d.vals| && met0 <= Ids(d)
    ensures met0 <= met <= Ids(d)
    ensures found ==> Leads(d, v, key)
    ensures !found ==> v in met && Searched(d, key, met0, met)
    decreases Ids(d) - met0
  {
    hide Searched, Met, Names, Leads, Onward;
    met := met0;
    if v in met {
      SearchedNone(d, key, met0);
      return false, met;
    }
    met := met + {v};
    if Names(d, v, key) {
      LeadsHere(d, v, key);
      return true, met;
    }
    var out := Onward(d, v);
    MetFirst(d, key, met0, v);
    OnwardIn(d, v);
    for i := 0 to |out|
      invariant met0 + {v} <= met <= Ids(d) && Met(d, key, met0, met, v, i)
    {
      ghost var was := met;
      assert out[i] in out;
      var hit;
      hit, met := Reaches(d, out[i], key, met);
      if hit {
        LeadsOn(d, v, out[i], key);
        return true, met;
      }
      MetOn(d, key, met0, was, v, i, met);
    }
    MetAll(d, key, met0, met, v);
    return false, met;
  }

  lemma SearchedNone(d: Doc, key: string, met: set<Id>)
    ensures Searched(d, key, met, met)
  {
  }

  // ----- expansion

  /** What a reference's expansion should be: its target, unless that reaches the alias again. */
  ghost predicate Right(d: Doc, key: string, site: string, expansion: Option<Id>) {
    var t := TargetOf(d, key, site);
    expansion == if t.None? || Leads(d, t.value, key) then None else t
  }

  /** Where the visit goes on from a value. */
  function Visited(d: Doc, v: Id): seq<Id> {
    if |d.vals| <= v then []
    else
      match d.vals[v]
      case Branch(kids) => kids
      case Alias(key, site) => Listed(TargetOf(d, key, site))
      case _ => []
  }

  lemma VisitedOnward(d: Doc, v: Id)
    ensures forall t :: t in Visited(d, v) ==> t in Onward(d, v)
  {
  }

  /** What expandAliases fills in. */
  class Expander {
    const d: Doc
    var seen: set<Id>
    var looped: map<(string, Id), bool>
    var expansion: map<Id, Option<Id>>

    constructor (d: Doc)
      requires Good(d)
      ensures this.d == d && Valid() && seen == {}
    {
      this.d := d;
      seen, looped, expansion := {}, map[], map[];
    }

    /** The memo says what a search would, and every reference seen is expanded as it should be. */
    ghost predicate Valid()
      reads this
    {
      && Good(d) && seen <= Ids(d)
      && (forall at :: at in looped ==> (looped[at] <==> Leads(d, at.1, at.0)))
      && (forall v :: v in seen && d.vals[v].Alias? ==>
            v in expansion && Right(d, d.vals[v].key, d.vals[v].site, expansion[v]))
    }

    /** All but these values have been seen with everything the visit goes on to. */
    ghost predicate Closed(besides: set<Id>)
      reads this
    {
      forall v :: v in seen && v !in besides ==> forall t :: t in Visited(d, v) ==> t in seen
    }

    /** Whether the target reaches the alias, searched once. */
    method Loops(key: string, target: Id) returns (loops: bool)
      requires Valid() && target < |d.vals|
      modifies this`looped
      ensures Valid() && (loops <==> Leads(d, target, key))
    {
      hide Leads, Right, Searched, Good;
      if (key, target) in looped { return looped[(key, target)]; }
      var met;
      loops, met := Reaches(d, target, key, {});
      if !loops { ClosedNever(d, key, met, target); }
      looped := looped[(key, target) := loops];
    }

    /** visit, at a value not nil. */
    method Visit(v: Id, ghost besides: set<Id>)
      requires Valid() && v < |d.vals| && Closed(besides)
      modifies this
      ensures Valid() && old(seen) <= seen && v in seen && Closed(besides)
      decreases Ids(d) - seen
    {
      hide Leads, Right, Good;
      if v in seen { return; }
      ghost var rest := Ids(d) - seen;
      VisitedIn(d, v);
      if d.vals[v].Alias? {
        var key := d.vals[v].key;
        var target := TargetOf(d, key, d.vals[v].site);
        var e := target;
        if target.Some? {
          assert target.value in Visited(d, v);
          var loops := Loops(key, target.value);
          if loops { e := None; }
        }
        assert Right(d, key, d.vals[v].site, e) by { RightIs(d, key, d.vals[v].site, e); }
        seen := seen + {v};
        expansion := expansion[v := e];
        if target.Some? { Visit(target.value, besides + {v}); }
        assert Closed(besides);
      } else {
        seen := seen + {v};
        var kids := Visited(d, v);
        for i := 0 to |kids|
          invariant Valid() && v in seen && Closed(besides + {v}) && old(seen) <= seen
          invariant Ids(d) - seen < rest
          invariant forall j :: 0 <= j < i ==> kids[j] in seen
        {
          assert kids[i] in kids;
          Visit(kids[i], besides + {v});
        }
        assert Closed(besides);
      }
    }

    /** expandAliases: from the root, the alias declarations and the operands of refusals. */
    method ExpandAliases(root: Id, operands: seq<Id>)
      requires Valid() && seen == {} && root < |d.vals| && forall i :: 0 <= i < |operands| ==> operands[i] < |d.vals|
      modifies this
      ensures Valid() && Closed({}) && Expanded(d, expansion, seen)
      ensures root in seen && forall i :: 0 <= i < |operands| ==> operands[i] in seen
      ensures forall key :: key in d.aliasKeys && key in d.peg ==> d.peg[key] in seen
    {
      hide Leads, Right;
      Visit(root, {});
      for i := 0 to |d.aliasKeys|
        invariant Valid() && Closed({}) && root in seen
        invariant forall j :: 0 <= j < i && d.aliasKeys[j] in d.peg ==> d.peg[d.aliasKeys[j]] in seen
      {
        var held := Held(d, d.aliasKeys[i]);
        if held.Some? { Visit(held.value, {}); }
      }
      for i := 0 to |operands|
        invariant Valid() && Closed({}) && root in seen
        invariant forall j :: 0 <= j < i ==> operands[j] in seen
        invariant forall key :: key in d.aliasKeys && key in d.peg ==> d.peg[key] in seen
      {
        Visit(operands[i], {});
      }
    }
  }

  lemma VisitedIn(d: Doc, v: Id)
    requires Good(d) && v < |d.vals|
    ensures forall t :: t in Visited(d, v) ==> t < |d.vals|
    ensures v in Ids(d)
  {
  }

  lemma RightIs(d: Doc, key: string, site: string, e: Option<Id>)
    requires var t := TargetOf(d, key, site); e == if t.None? || Leads(d, t.value, key) then None else t
    ensures Right(d, key, site, e)
  {
  }

  // ----- rendering

  /** What hcanonRender and Canon descend into: a reference with an expansion renders it, and
      one without its own spelling. */
  function Rendered(d: Doc, exp: map<Id, Option<Id>>, v: Id): seq<Id> {
    if |d.vals| <= v then []
    else if d.vals[v].Branch? then d.vals[v].kids
    else if d.vals[v].Alias? && v in exp then Listed(exp[v])
    else []
  }

  /** A rendering shows what a value holds, and of a reference its expansion. */
  lemma RenderedIs(d: Doc, exp: map<Id, Option<Id>>, v: Id, t: Id)
    ensures t in Rendered(d, exp, v) <==>
      v < |d.vals| && ((d.vals[v].Branch? && t in d.vals[v].kids) || (d.vals[v].Alias? && v in exp && exp[v] == Some(t)))
  {
  }

  /** The visit goes on to what a value holds and to what a reference refers to. */
  lemma VisitedIs(d: Doc, v: Id, t: Id)
    ensures t in Visited(d, v) <==>
      v < |d.vals| && ((d.vals[v].Branch? && t in d.vals[v].kids) || (d.vals[v].Alias? && Targets(d, d.vals[v].key, d.vals[v].site, t)))
  {
  }

  /** The state expandAliases leaves. */
  ghost predicate Expanded(d: Doc, exp: map<Id, Option<Id>>, seen: set<Id>) {
    && Good(d) && seen <= Ids(d)
    && (forall v :: v in seen && d.vals[v].Alias? ==> v in exp && Right(d, d.vals[v].key, d.vals[v].site, exp[v]))
    && (forall v :: v in seen ==> forall t :: t in Visited(d, v) ==> t in seen)
  }

  ghost predicate RenderPath(d: Doc, exp: map<Id, Option<Id>>, p: seq<Id>) {
    p != [] && forall i :: 0 <= i < |p| - 1 ==> p[i + 1] in Rendered(d, exp, p[i])
  }

  lemma RenderedOnward(d: Doc, exp: map<Id, Option<Id>>, seen: set<Id>, v: Id)
    requires Expanded(d, exp, seen) && v in seen
    ensures forall t :: t in Rendered(d, exp, v) ==> t in Onward(d, v) && t in seen
  {
    hide Leads;
    assert forall t :: t in Rendered(d, exp, v) ==> t in Visited(d, v);
    VisitedOnward(d, v);
  }

  lemma {:induction false} RenderStays(d: Doc, exp: map<Id, Option<Id>>, seen: set<Id>, p: seq<Id>, i: nat)
    requires Expanded(d, exp, seen) && RenderPath(d, exp, p) && p[0] in seen && i < |p|
    ensures p[i] in seen
  {
    hide Expanded, Rendered;
    if 0 < i {
      RenderStays(d, exp, seen, p, i - 1);
      RenderedOnward(d, exp, seen, p[i - 1]);
      assert p[(i - 1) + 1] in Rendered(d, exp, p[i - 1]);
    }
  }

  /** Without an expansion on the way, a rendering goes down the tree. */
  lemma {:induction false} DownTree(d: Doc, exp: map<Id, Option<Id>>, p: seq<Id>, i: nat)
    requires Good(d) && RenderPath(d, exp, p) && i < |p|
    requires forall j :: 0 <= j < i ==> p[j] < |d.vals| && d.vals[p[j]].Branch?
    ensures p[i] + i <= p[0]
  {
    if 0 < i {
      DownTree(d, exp, p, i - 1);
      assert p[(i - 1) + 1] in Rendered(d, exp, p[i - 1]);
    }
  }

  /** The way round a loop of a rendering from behind one of its steps. */
  lemma RoundPath(d: Doc, exp: map<Id, Option<Id>>, seen: set<Id>, p: seq<Id>, i: nat)
    requires Expanded(d, exp, seen) && RenderPath(d, exp, p) && p[0] in seen
    requires 1 < |p| && p[0] == p[|p| - 1] && i < |p| - 1
    ensures var q := p[i + 1..] + p[1..i + 1]; Path(d, q) && q[0] == p[i + 1] && q[|q| - 1] == p[i]
  {
    hide Expanded, Rendered, Onward;
    var q := p[i + 1..] + p[1..i + 1];
    var m := |p| - i - 1;
    forall j | 0 <= j < |q| - 1 ensures q[j + 1] in Onward(d, q[j]) {
      var k := if j < m - 1 then i + 1 + j else if j == m - 1 then 0 else j - m + 1;
      assert q[j] == p[k] && q[j + 1] == p[k + 1];
      RenderStays(d, exp, seen, p, k);
      RenderedOnward(d, exp, seen, p[k]);
      assert p[k + 1] in Rendered(d, exp, p[k]);
    }
  }

  /** No rendering comes back to where it was: following expansions never revisits a reference. */
  lemma NoLoop(d: Doc, exp: map<Id, Option<Id>>, seen: set<Id>, p: seq<Id>)
    requires Expanded(d, exp, seen) && RenderPath(d, exp, p) && p[0] in seen && 1 < |p|
    ensures p[0] != p[|p| - 1]
  {
    hide Onward, Leads, Path;
    if p[0] == p[|p| - 1] {
      forall k | 0 <= k < |p| ensures p[k] in seen { RenderStays(d, exp, seen, p, k); }
      if i :| 0 <= i < |p| - 1 && !d.vals[p[i]].Branch? {
        assert p[i + 1] in Rendered(d, exp, p[i]);
        RoundPath(d, exp, seen, p, i);
        RoundLeads(d, p[i + 1..] + p[1..i + 1], d.vals[p[i]].key);
      } else {
        DownTree(d, exp, p, |p| - 1);
      }
    }
  }

  lemma RoundLeads(d: Doc, q: seq<Id>, key: string)
    requires Path(d, q) && q[|q| - 1] < |d.vals| && d.vals[q[|q| - 1]].Alias? && d.vals[q[|q| - 1]].key == key
    ensures Leads(d, q[0], key)
  {
  }

  // ----- so a rendering is finite

  ghost predicate Distinct(p: seq<Id>) {
    forall i, j :: 0 <= i < j < |p| ==> p[i] != p[j]
  }

  lemma Pigeons(p: seq<Id>, n: nat)
    requires Distinct(p) && forall i :: 0 <= i < |p| ==> p[i] < n
    ensures |p| <= n
  {
    hide Distinct;
    DistinctMany(p);
    forall x | x in Elems(p) ensures x < n { var i :| 0 <= i < |p| && p[i] == x; }
    Below(Elems(p), n);
  }

  ghost function Elems(p: seq<Id>): set<Id> {
    set x | x in p
  }

  lemma LastApart(p: seq<Id>)
    requires p != [] && Distinct(p)
    ensures Distinct(p[..|p| - 1]) && p[|p| - 1] !in p[..|p| - 1]
  {
  }

  lemma {:induction false} DistinctMany(p: seq<Id>)
    requires Distinct(p)
    ensures |Elems(p)| == |p|
  {
    hide Distinct;
    if p != [] {
      var front, last := p[..|p| - 1], p[|p| - 1];
      LastApart(p);
      DistinctMany(front);
      assert p == front + [last];
      assert Elems(p) == Elems(front) + {last};
    }
  }

  lemma {:induction false} Below(s: set<Id>, n: nat)
    requires forall x :: x in s ==> x < n
    ensures |s| <= n
  {
    if n == 0 {
      assert s == {};
    } else {
      Below(s - {n - 1}, n - 1);
      assert s <= (s - {n - 1}) + {n - 1};
      if n - 1 in s { assert s == (s - {n - 1}) + {n - 1}; } else { assert s == s - {n - 1}; }
    }
  }

  /** A rendering goes no deeper than there are values. */
  lemma DepthBound(d: Doc, exp: map<Id, Option<Id>>, seen: set<Id>, p: seq<Id>)
    requires Expanded(d, exp, seen) && RenderPath(d, exp, p) && p[0] in seen
    ensures |p| <= |d.vals|
  {
    hide Expanded, Rendered;
    forall i, j | 0 <= i < j < |p| ensures p[i] != p[j] {
      var q := p[i..j + 1];
      forall k | 0 <= k < |q| - 1 ensures q[k + 1] in Rendered(d, exp, q[k]) {
        assert p[i + k + 1] in Rendered(d, exp, p[i + k]);
      }
      RenderStays(d, exp, seen, p, i);
      NoLoop(d, exp, seen, q);
    }
    forall i | 0 <= i < |p| ensures p[i] < |d.vals| {
      RenderStays(d, exp, seen, p, i);
      SeenIn(d, exp, seen, p[i]);
    }
    Pigeons(p, |d.vals|);
  }

  lemma SeenIn(d: Doc, exp: map<Id, Option<Id>>, seen: set<Id>, v: Id)
    requires Expanded(d, exp, seen) && v in seen
    ensures v < |d.vals|
  {
  }

  /** A rendering cut off at a depth: whether nothing was cut. */
  predicate Ends(d: Doc, exp: map<Id, Option<Id>>, v: Id, depth: nat)
    decreases depth
  {
    0 < depth && forall t :: t in Rendered(d, exp, v) ==> Ends(d, exp, t, depth - 1)
  }

  lemma {:induction false} EndsBelow(d: Doc, exp: map<Id, Option<Id>>, seen: set<Id>, p: seq<Id>, depth: nat)
    requires Expanded(d, exp, seen) && RenderPath(d, exp, p) && p[0] in seen && |d.vals| < |p| + depth
    ensures Ends(d, exp, p[|p| - 1], depth)
    decreases depth
  {
    hide Expanded, Rendered;
    DepthBound(d, exp, seen, p);
    var at := p[|p| - 1];
    forall t | t in Rendered(d, exp, at) ensures Ends(d, exp, t, depth - 1) {
      var q := p + [t];
      forall i | 0 <= i < |q| - 1 ensures q[i + 1] in Rendered(d, exp, q[i]) {
        if i < |p| - 1 { assert q[i] == p[i] && q[i + 1] == p[i + 1]; }
      }
      EndsBelow(d, exp, seen, q, depth - 1);
    }
  }

  /** After expandAliases every value it saw renders to a finite text, for every document,
      declarations that reach themselves included. */
  lemma RenderingEnds(d: Doc, exp: map<Id, Option<Id>>, seen: set<Id>, v: Id)
    requires Expanded(d, exp, seen) && v in seen
    ensures Ends(d, exp, v, |d.vals|)
  {
    hide Expanded, Ends, Rendered;
    assert RenderPath(d, exp, [v]);
    EndsBelow(d, exp, seen, [v], |d.vals|);
  }
}
