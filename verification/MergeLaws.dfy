/**
 What merging runs of statements keeps: the meaning of the body, what is written and in
 which order, at most one spread to a map; and that it merges every run there is.
 */
module MergeLaws {
  import opened Options
  import opened Statements
  import opened MergeRuns

  // ----- the meaning

  /** What a statement of a plain map says before its entries do. */
  function HeadFacts(p: Node, path: seq<Step>, sep: bool): set<Fact>
    requires p.Pair?
  {
    var at := path + [Key(p.key)];
    {Fact(at, if sep && p.alias then Declared else Field)} + (if p.opt then {} else {Fact(at, Required)}) + {Fact(at, IsMap)}
  }

  function At(p: Node, path: seq<Step>): seq<Step>
    requires p.Pair?
  {
    path + [Key(p.key)]
  }

  lemma PairFacts(p: Node, path: seq<Step>, sep: bool)
    requires p.Pair?
    ensures PlainEntries(p.value).Some? ==>
      EntryFacts(p, path, sep) == HeadFacts(p, path, sep) + BodyFacts(PlainEntries(p.value).value, At(p, path), sep)
    ensures Members(p).Some? ==>
      EntryFacts(p, path, sep) == HeadFacts(p, path, sep) + BodyFacts(Members(p).value, At(p, path), sep)
  {
    hide Members, PlainEntries, ValueFacts, BodyFacts;
    PlainFacts(p.value, At(p, path), sep);
    MembersFacts(p, At(p, path), sep);
  }

  lemma FillerFacts(n: Node, path: seq<Step>, sep: bool)
    requires Filler(n)
    ensures EntryFacts(n, path, sep) == {}
  {
  }

  predicate Fillers(carry: seq<Node>) {
    forall c :: c in carry ==> Filler(c)
  }

  lemma {:induction false} FillersFacts(carry: seq<Node>, path: seq<Step>, sep: bool)
    requires Fillers(carry)
    ensures BodyFacts(carry, path, sep) == {}
  {
    hide EntryFacts;
    if carry != [] {
      FillerFacts(carry[0], path, sep);
      assert forall c :: c in carry[1..] ==> c in carry;
      FillersFacts(carry[1..], path, sep);
    }
  }

  lemma FillersPush(carry: seq<Node>, n: Node)
    requires Fillers(carry) && Filler(n)
    ensures Fillers(carry + [n])
  {
  }

  /** The separator a statement is written with, as what it says. */
  function SepFact(p: Node, path: seq<Step>, sep: bool): Fact
    requires p.Pair?
  {
    Fact(At(p, path), if sep && p.alias then Declared else Field)
  }

  /** What a statement that joins another says in front that the other does not. */
  function OtherSep(first: Node, n: Node, path: seq<Step>, sep: bool): set<Fact>
    requires first.Pair? && n.Pair?
  {
    if sep && n.alias != first.alias then {SepFact(n, path, sep)} else {}
  }

  lemma HeadOther(a: Node, b: Node, path: seq<Step>, sep: bool)
    requires a.Pair? && b.Pair? && a.key == b.key && a.opt == b.opt
    ensures HeadFacts(a, path, sep) + HeadFacts(b, path, sep) == HeadFacts(a, path, sep) + OtherSep(a, b, path, sep)
  {
  }

  function RunFacts(first: Node, r: Run, path: seq<Step>, sep: bool): set<Fact>
    requires first.Pair?
  {
    HeadFacts(first, path, sep) + BodyFacts(r.merged, At(first, path), sep) + BodyFacts(r.rest, path, sep)
  }

  /** What the statements of a run say in front that its first does not. */
  function RunLost(first: Node, merged: seq<Node>, carry: seq<Node>, rest: seq<Node>, path: seq<Step>, sep: bool): set<Fact>
    requires first.Pair?
    decreases |rest|
  {
    if rest == [] then {}
    else if Filler(rest[0]) then RunLost(first, merged, carry + [rest[0]], rest[1..], path, sep)
    else if Joins(first, merged, rest[0]) then
      OtherSep(first, rest[0], path, sep) + RunLost(first, merged + carry + Members(rest[0]).value, [], rest[1..], path, sep)
    else {}
  }

  /** A run's statements say what its first says with all their entries, and their own separators. */
  lemma {:induction false} RunKeeps(first: Node, merged: seq<Node>, carry: seq<Node>, rest: seq<Node>, grouped: bool,
                                    path: seq<Step>, sep: bool)
    requires first.Pair? && Fillers(carry)
    ensures RunFacts(first, RunFrom(first, merged, carry, rest, grouped), path, sep) + RunLost(first, merged, carry, rest, path, sep)
         == HeadFacts(first, path, sep) + BodyFacts(merged, At(first, path), sep) + BodyFacts(rest, path, sep)
    decreases |rest|
  {
    hide EntryFacts, HeadFacts, Joins, At, Members, OtherSep;
    var at, head := At(first, path), HeadFacts(first, path, sep);
    FillersFacts(carry, path, sep);
    FillersFacts(carry, at, sep);
    FactsAppend(carry, rest, path, sep);
    if rest != [] {
      var n := rest[0];
      if Filler(n) {
        FillerFacts(n, path, sep);
        FillersPush(carry, n);
        assert BodyFacts(rest, path, sep) == BodyFacts(rest[1..], path, sep);
        RunKeeps(first, merged, carry + [n], rest[1..], grouped, path, sep);
      } else if Joins(first, merged, n) {
        JoinIs(first, merged, n);
        var more := Members(n).value;
        AtSame(first, n, path);
        PairFacts(n, path, sep);
        HeadOther(first, n, path, sep);
        FactsAppend(merged, carry, at, sep);
        FactsAppend(merged + carry, more, at, sep);
        RunKeeps(first, merged + carry + more, [], rest[1..], true, path, sep);
        var now := head + BodyFacts(merged + carry + more, at, sep) + BodyFacts(rest[1..], path, sep);
        assert now + OtherSep(first, n, path, sep) == head + BodyFacts(merged, at, sep) + BodyFacts(rest, path, sep);
      }
    }
  }

  lemma AtSame(a: Node, b: Node, path: seq<Step>)
    requires a.Pair? && b.Pair? && a.key == b.key
    ensures At(a, path) == At(b, path)
  {
  }

  lemma JoinedFacts(first: Node, body: seq<Node>, path: seq<Step>, sep: bool)
    requires first.Pair?
    ensures EntryFacts(Joined(first, body), path, sep) == HeadFacts(first, path, sep) + BodyFacts(body, At(first, path), sep)
  {
    hide BodyFacts;
  }

  lemma BodyStep(body: seq<Node>, path: seq<Step>, sep: bool)
    requires body != []
    ensures BodyFacts(body, path, sep) == EntryFacts(body[0], path, sep) + BodyFacts(body[1..], path, sep)
  {
  }

  lemma BodyCons(e: Node, rest: seq<Node>, path: seq<Step>, sep: bool)
    ensures BodyFacts([e] + rest, path, sep) == EntryFacts(e, path, sep) + BodyFacts(rest, path, sep)
  {
    BodyStep([e] + rest, path, sep);
    assert ([e] + rest)[1..] == rest;
  }

  lemma WithValueFacts(p: Node, value: Node, path: seq<Step>, sep: bool)
    requires p.Pair? && ValueFacts(value, At(p, path), sep) == ValueFacts(p.value, At(p, path), sep)
    ensures EntryFacts(WithValue(p, value), path, sep) == EntryFacts(p, path, sep)
  {
  }

  lemma MapFacts(body: seq<Node>, open: string, path: seq<Step>, sep: bool)
    ensures ValueFacts(Map(body, open), path, sep) == {Fact(path, IsMap)} + BodyFacts(body, path, sep)
  {
  }

  /** A single statement merges to a single statement. */
  lemma OneMerged(p: Node)
    requires p.Pair?
    ensures |Merged([p])| == 1 && Merged([p])[0].Pair?
  {
    hide Members;
    MergedStep([p]);
    assert [p][1..] == [];
    MergedNone();
    if Members(p).Some? {
      FirstRunIs([p]);
      RunStep(p, Members(p).value, [], [], false);
    }
    DeepPair(p);
  }

  lemma DeepPair(p: Node)
    requires p.Pair?
    ensures MergeDeep(p).Pair? && MergeDeep(p).key == p.key && MergeDeep(p).opt == p.opt && MergeDeep(p).trail == p.trail
  {
  }

  // ----- what is kept and what is lost, told from the body

  /** What a statement's value says once merged below: what is kept of its entries, where it is plain. */
  function DeepKept(p: Node, path: seq<Step>, sep: bool): set<Fact>
    requires p.Pair?
    decreases Size(p), 0
  {
    MembersSmaller(p);
    var at := At(p, path);
    {SepFact(p, path, sep)} + (if p.opt then {} else {Fact(at, Required)})
      + if PlainEntries(p.value).None? then ValueFacts(p.value, at, sep)
        else {Fact(at, IsMap)} + Kept(PlainEntries(p.value).value, at, sep)
  }

  /** What a body says but for the separators of statements that join one of the other separator. */
  function Kept(body: seq<Node>, path: seq<Step>, sep: bool): set<Fact>
    decreases Sizes(body), 1
  {
    if body == [] then {}
    else
      var first := body[0];
      SizesHead(body);
      if !first.Pair? then EntryFacts(first, path, sep) + Kept(body[1..], path, sep)
      else if Members(first).None? || !FirstRun(body).grouped then DeepKept(first, path, sep) + Kept(body[1..], path, sep)
      else
        var r := FirstRun(body);
        HeadFacts(first, path, sep) + Kept(r.merged, At(first, path), sep) + Kept(r.rest, path, sep)
  }

  function DeepLost(p: Node, path: seq<Step>, sep: bool): set<Fact>
    requires p.Pair?
    decreases Size(p), 0
  {
    MembersSmaller(p);
    if PlainEntries(p.value).None? then {} else Lost(PlainEntries(p.value).value, At(p, path), sep)
  }

  /** The separators of the statements that join one of the other separator. */
  function Lost(body: seq<Node>, path: seq<Step>, sep: bool): set<Fact>
    decreases Sizes(body), 1
  {
    if body == [] then {}
    else
      var first := body[0];
      SizesHead(body);
      if !first.Pair? then Lost(body[1..], path, sep)
      else if Members(first).None? || !FirstRun(body).grouped then DeepLost(first, path, sep) + Lost(body[1..], path, sep)
      else
        var r := FirstRun(body);
        RunLost(first, Members(first).value, [], body[1..], path, sep) + Lost(r.merged, At(first, path), sep) + Lost(r.rest, path, sep)
  }

  lemma KeptStep(body: seq<Node>, path: seq<Step>, sep: bool)
    requires body != []
    ensures var first := body[0];
            Kept(body, path, sep) ==
              if !first.Pair? then EntryFacts(first, path, sep) + Kept(body[1..], path, sep)
              else if Members(first).None? || !FirstRun(body).grouped then DeepKept(first, path, sep) + Kept(body[1..], path, sep)
              else HeadFacts(first, path, sep) + Kept(FirstRun(body).merged, At(first, path), sep) + Kept(FirstRun(body).rest, path, sep)
  {
  }

  lemma LostStep(body: seq<Node>, path: seq<Step>, sep: bool)
    requires body != []
    ensures var first := body[0];
            Lost(body, path, sep) ==
              if !first.Pair? then Lost(body[1..], path, sep)
              else if Members(first).None? || !FirstRun(body).grouped then DeepLost(first, path, sep) + Lost(body[1..], path, sep)
              else RunLost(first, Members(first).value, [], body[1..], path, sep)
                   + Lost(FirstRun(body).merged, At(first, path), sep) + Lost(FirstRun(body).rest, path, sep)
  {
  }

  lemma NoneKept(path: seq<Step>, sep: bool)
    ensures Kept([], path, sep) == {} && Lost([], path, sep) == {} && BodyFacts([], path, sep) == {}
  {
  }

  /** A plain statement with other entries in its value. */
  lemma PlainDeep(p: Node, path: seq<Step>, sep: bool)
    requires p.Pair?
    ensures EntryFacts(p, path, sep) == {SepFact(p, path, sep)} + (if p.opt then {} else {Fact(At(p, path), Required)}) + ValueFacts(p.value, At(p, path), sep)
  {
  }

  /** fmtMergeDeep says what is kept of a statement; with what is lost that is all it said. */
  lemma {:induction false} DeepKeeps(p: Node, path: seq<Step>, sep: bool)
    requires p.Pair?
    ensures EntryFacts(MergeDeep(p), path, sep) == DeepKept(p, path, sep)
    ensures EntryFacts(p, path, sep) == DeepKept(p, path, sep) + DeepLost(p, path, sep)
    decreases Size(p), 0
  {
    hide BodyFacts, Merged, EntryFacts, ValueFacts, Kept, Lost;
    var at := At(p, path);
    MembersSmaller(p);
    PlainFacts(p.value, at, sep);
    PlainDeep(p, path, sep);
    if p.value.Pair? {
      OneMerged(p.value);
      var deep := Merged([p.value])[0];
      assert Merged([p.value]) == [deep];
      FactsOne(deep, at, sep);
      MergedFacts([p.value], at, sep);
      PlainDeep(WithValue(p, deep), path, sep);
      PlainFacts(deep, at, sep);
    } else if p.value.Map? && PlainEntries(p.value).Some? {
      var body := p.value.body;
      MapFacts(Merged(body), p.value.open, at, sep);
      MergedFacts(body, at, sep);
      PlainDeep(WithValue(p, Map(Merged(body), p.value.open)), path, sep);
    }
  }

  /** The merged body says what is kept; with what is lost that is all the body said. */
  lemma {:induction false} MergedFacts(body: seq<Node>, path: seq<Step>, sep: bool)
    ensures BodyFacts(Merged(body), path, sep) == Kept(body, path, sep)
    ensures BodyFacts(body, path, sep) == Kept(body, path, sep) + Lost(body, path, sep)
    decreases Sizes(body), 1
  {
    hide BodyFacts, Merged, EntryFacts, HeadFacts, At, MergeDeep, Members, FirstRun, Joined, Kept, Lost, DeepKept, DeepLost, RunLost;
    if body == [] {
      MergedNone();
      NoneKept(path, sep);
    } else {
      var first := body[0];
      MergedStep(body);
      KeptStep(body, path, sep);
      LostStep(body, path, sep);
      BodyStep(body, path, sep);
      SizesHead(body);
      if first.Pair? && Members(first).Some? && FirstRun(body).grouped {
        GroupedFacts(body, path, sep);
      } else {
        if first.Pair? { DeepKeeps(first, path, sep); }
        MergedFacts(body[1..], path, sep);
        BodyCons(if first.Pair? then MergeDeep(first) else first, Merged(body[1..]), path, sep);
      }
    }
  }

  lemma SizesHead(body: seq<Node>)
    requires body != []
    ensures Size(body[0]) <= Sizes(body) && Sizes(body[1..]) < Sizes(body)
  {
  }

  lemma {:induction false} GroupedFacts(body: seq<Node>, path: seq<Step>, sep: bool)
    requires body != [] && body[0].Pair? && Members(body[0]).Some? && FirstRun(body).grouped
    ensures BodyFacts(Merged(body), path, sep) == Kept(body, path, sep)
    ensures BodyFacts(body, path, sep) == Kept(body, path, sep) + Lost(body, path, sep)
    decreases Sizes(body), 0
  {
    hide BodyFacts, Merged, EntryFacts, HeadFacts, At, Members, FirstRun, Joined, RunFrom, Kept, Lost, DeepKept, DeepLost, RunLost;
    var first, r := body[0], FirstRun(body);
    var at := At(first, path);
    BodyStep(body, path, sep);
    PairFacts(first, path, sep);
    FirstRunIs(body);
    RunKeeps(first, Members(first).value, [], body[1..], false, path, sep);
    FirstRunBoth(body);
    MergedFacts(r.merged, at, sep);
    MergedFacts(r.rest, path, sep);
    MergedStep(body);
    KeptStep(body, path, sep);
    LostStep(body, path, sep);
    JoinedFacts(first, Merged(r.merged), path, sep);
    BodyCons(Joined(first, Merged(r.merged)), Merged(r.rest), path, sep);
  }

  /** What the merge loses is exactly the separators of joined statements that nothing kept says. */
  lemma MergedLoses(body: seq<Node>, path: seq<Step>, sep: bool)
    ensures BodyFacts(body, path, sep) - BodyFacts(Merged(body), path, sep) == Lost(body, path, sep) - Kept(body, path, sep)
    ensures BodyFacts(Merged(body), path, sep) <= BodyFacts(body, path, sep)
  {
    hide BodyFacts, Merged, Kept, Lost;
    MergedFacts(body, path, sep);
  }

  /** The merge keeps the meaning of a body, at every depth, exactly where each joined statement of
      another separator has it said by something kept. */
  lemma MergedKeeps(body: seq<Node>, path: seq<Step>, sep: bool)
    ensures BodyFacts(Merged(body), path, sep) == BodyFacts(body, path, sep) <==> Lost(body, path, sep) <= Kept(body, path, sep)
  {
    hide BodyFacts, Merged, Kept, Lost;
    MergedFacts(body, path, sep);
  }

  lemma FirstRunBoth(body: seq<Node>)
    requires body != [] && body[0].Pair? && Members(body[0]).Some? && FirstRun(body).grouped
    ensures Sizes(FirstRun(body).merged) < Sizes(body) && Sizes(FirstRun(body).rest) < Sizes(body)
  {
  }

  // ----- where nothing is lost

  lemma {:induction false} RunLosesNone(first: Node, merged: seq<Node>, carry: seq<Node>, rest: seq<Node>, path: seq<Step>)
    requires first.Pair?
    ensures RunLost(first, merged, carry, rest, path, false) == {}
    decreases |rest|
  {
    hide Joins, Members;
    if rest != [] {
      if Filler(rest[0]) {
        RunLosesNone(first, merged, carry + [rest[0]], rest[1..], path);
      } else if Joins(first, merged, rest[0]) {
        JoinIs(first, merged, rest[0]);
        RunLosesNone(first, merged + carry + Members(rest[0]).value, [], rest[1..], path);
      }
    }
  }

  lemma {:induction false} LosesNone(body: seq<Node>, path: seq<Step>)
    ensures Lost(body, path, false) == {}
    decreases Sizes(body), 1
  {
    hide FirstRun, Members, RunLost, PlainEntries;
    if body != [] {
      var first := body[0];
      SizesHead(body);
      LosesNone(body[1..], path);
      if first.Pair? {
        MembersSmaller(first);
        if PlainEntries(first.value).Some? { LosesNone(PlainEntries(first.value).value, At(first, path)); }
        if Members(first).Some? && FirstRun(body).grouped {
          FirstRunBoth(body);
          RunLosesNone(first, Members(first).value, [], body[1..], path);
          LosesNone(FirstRun(body).merged, At(first, path));
          LosesNone(FirstRun(body).rest, path);
        }
      }
    }
  }

  /** With separators read alike the meaning is kept whatever the body. */
  lemma MergedKeepsFields(body: seq<Node>)
    ensures BodyFacts(Merged(body), [], false) == BodyFacts(body, [], false)
  {
    hide BodyFacts, Merged, Lost, Kept;
    LosesNone(body, []);
    MergedKeeps(body, [], false);
  }

  lemma {:induction false} RunLostDeclared(first: Node, merged: seq<Node>, carry: seq<Node>, rest: seq<Node>, path: seq<Step>, f: Fact)
    requires first.Pair? && f in RunLost(first, merged, carry, rest, path, true)
    ensures f == Fact(At(first, path), if first.alias then Field else Declared)
    decreases |rest|
  {
    hide Joins, Members;
    if rest != [] {
      if Filler(rest[0]) {
        RunLostDeclared(first, merged, carry + [rest[0]], rest[1..], path, f);
      } else if Joins(first, merged, rest[0]) {
        JoinIs(first, merged, rest[0]);
        if f !in OtherSep(first, rest[0], path, true) {
          RunLostDeclared(first, merged + carry + Members(rest[0]).value, [], rest[1..], path, f);
        }
      }
    }
  }

  lemma HeadSep(p: Node, path: seq<Step>)
    requires p.Pair?
    ensures SepFact(p, path, true) in HeadFacts(p, path, true)
  {
  }

  /** What is lost is a separator at a path that something kept gives the other. */
  lemma {:induction false} LostOther(body: seq<Node>, path: seq<Step>, f: Fact)
    requires f in Lost(body, path, true)
    ensures f.says.Field? || f.says.Declared?
    ensures Fact(f.path, if f.says.Field? then Declared else Field) in Kept(body, path, true)
    decreases Sizes(body), 1
  {
    hide BodyFacts, EntryFacts, HeadFacts, Members, FirstRun, Kept, Lost, RunLost, PlainEntries, ValueFacts;
    if body == [] {
      NoneKept(path, true);
    } else {
      var first := body[0];
      SizesHead(body);
      KeptStep(body, path, true);
      LostStep(body, path, true);
      if first.Pair? {
        MembersSmaller(first);
        if Members(first).Some? && FirstRun(body).grouped {
          var r := FirstRun(body);
          FirstRunBoth(body);
          if f in RunLost(first, Members(first).value, [], body[1..], path, true) {
            RunLostDeclared(first, Members(first).value, [], body[1..], path, f);
            HeadSep(first, path);
          } else if f in Lost(r.merged, At(first, path), true) {
            LostOther(r.merged, At(first, path), f);
          } else {
            LostOther(r.rest, path, f);
          }
        } else if f in DeepLost(first, path, true) {
          LostOther(PlainEntries(first.value).value, At(first, path), f);
        } else {
          LostOther(body[1..], path, f);
        }
      } else {
        LostOther(body[1..], path, f);
      }
    }
  }

  /** A body in which no path is both declared and a field loses nothing. */
  lemma SeparateKeeps(body: seq<Node>, path: seq<Step>)
    requires Separate(BodyFacts(body, path, true))
    ensures BodyFacts(Merged(body), path, true) == BodyFacts(body, path, true)
  {
    hide BodyFacts, Merged, Lost, Kept;
    MergedFacts(body, path, true);
    if f :| f in Lost(body, path, true) {
      LostOther(body, path, f);
      NotBoth(BodyFacts(body, path, true), f.path);
    }
  }

  lemma NotBoth(facts: set<Fact>, at: seq<Step>)
    requires Separate(facts)
    ensures !(Fact(at, Declared) in facts && Fact(at, Field) in facts)
  {
    assert Fact(at, Declared).says.Declared?;
  }

  /** A declaration merged with a field of its key: the field is gone.  The formatter's check
      of the two spellings is what stops it. */
  lemma MixedSeparators(key: string)
    ensures var body := [Pair(key, false, true, Map([], ""), ""), Pair(key, false, false, Map([], ""), "")];
            Fact([Key(key)], Field) in BodyFacts(body, [], true) && Fact([Key(key)], Field) !in BodyFacts(Merged(body), [], true)
  {
    hide Members, BodyFacts, ValueFacts;
    var a, b := Pair(key, false, true, Map([], ""), ""), Pair(key, false, false, Map([], ""), "");
    var body := [a, b];
    assert body[1..] == [b] && [b][1..] == [];
    BodyStep(body, [], true);
    FactsOne(b, [], true);
    NoMembers(a);
    NoMembers(b);
    FirstRunIs(body);
    RunStep(a, [], [], [b], false);
    var none: seq<Node> := [];
    assert none + none + none == none;
    RunStep(a, [], [], [], true);
    MergedStep(body);
    MergedNone();
    FactsOne(Joined(a, []), [], true);
    JoinedFacts(a, [], [], true);
    NoFacts([Key(key)]);
    var root: seq<Step> := [];
    assert root + [Key(key)] == [Key(key)];
    assert At(a, []) == [Key(key)];
    assert FirstRun(body) == Run([], true, []);
    assert Merged(body) == [Joined(a, [])];
  }

  lemma NoMembers(p: Node)
    requires p.Pair? && p.value == Map([], "") && p.trail == ""
    ensures Members(p) == Some([])
  {
  }

  lemma NoFacts(path: seq<Step>)
    ensures BodyFacts([], path, true) == {}
  {
  }

  // ----- what is written

  lemma WrittenCons(e: Node, rest: seq<Node>)
    ensures WrittenBody([e] + rest) == Written(e) + WrittenBody(rest)
  {
    assert ([e] + rest)[1..] == rest;
  }

  lemma WrittenStep(body: seq<Node>)
    requires body != []
    ensures WrittenBody(body) == Written(body[0]) + WrittenBody(body[1..])
  {
  }

  lemma {:induction false} RunWritten(first: Node, merged: seq<Node>, carry: seq<Node>, rest: seq<Node>, grouped: bool)
    requires first.Pair?
    ensures var r := RunFrom(first, merged, carry, rest, grouped);
            WrittenBody(r.merged) + WrittenBody(r.rest) == WrittenBody(merged) + (WrittenBody(carry) + WrittenBody(rest))
    decreases |rest|
  {
    hide Written, WrittenBody, Joins, Members;
    RunStep(first, merged, carry, rest, grouped);
    WrittenAppend(carry, rest);
    if rest == [] {
      assert carry + rest == carry;
    } else {
      var n := rest[0];
      WrittenStep(rest);
      if Filler(n) {
        WrittenAppend(carry, [n]);
        WrittenOne(n);
        Assoc(WrittenBody(carry), Written(n), WrittenBody(rest[1..]));
        RunWritten(first, merged, carry + [n], rest[1..], grouped);
      } else if Joins(first, merged, n) {
        JoinIs(first, merged, n);
        var more := Members(n).value;
        MembersWritten(n);
        WrittenAppend(merged, carry);
        WrittenAppend(merged + carry, more);
        RunWritten(first, merged + carry + more, [], rest[1..], true);
        FourAssoc(WrittenBody(merged), WrittenBody(carry), Written(n), WrittenBody(rest[1..]));
        WrittenNone();
      }
    }
  }

  lemma WrittenNone()
    ensures WrittenBody([]) == ""
  {
  }

  lemma FourAssoc(a: string, b: string, c: string, d: string)
    ensures ((a + b) + c) + ("" + d) == a + (b + (c + d))
  {
  }

  lemma JoinedWritten(first: Node, body: seq<Node>)
    requires first.Pair?
    ensures Written(Joined(first, body)) == WrittenBody(body)
  {
    hide WrittenBody;
  }

  lemma WithValueWritten(p: Node, value: Node)
    requires p.Pair? && Written(value) == Written(p.value)
    ensures Written(WithValue(p, value)) == Written(p)
  {
  }

  lemma MapWritten(body: seq<Node>, open: string)
    ensures Written(Map(body, open)) == Word(open) + WrittenBody(body)
  {
  }

  lemma {:induction false} DeepWritten(p: Node)
    requires p.Pair?
    ensures Written(MergeDeep(p)) == Written(p)
    decreases Size(p), 0
  {
    hide Written, WrittenBody, Merged, Word;
    MembersSmaller(p);
    if p.value.Pair? {
      OneMerged(p.value);
      var deep := Merged([p.value])[0];
      assert Merged([p.value]) == [deep];
      WrittenOne(p.value);
      WrittenOne(deep);
      MergedWritten([p.value]);
      WithValueWritten(p, deep);
    } else if p.value.Map? && PlainEntries(p.value).Some? {
      MapWritten(p.value.body, p.value.open);
      MapWritten(Merged(p.value.body), p.value.open);
      MergedWritten(p.value.body);
      WithValueWritten(p, Map(Merged(p.value.body), p.value.open));
    }
  }

  /** Every value and every comment still stands, in the order it stood in. */
  lemma {:induction false} MergedWritten(body: seq<Node>)
    ensures WrittenBody(Merged(body)) == WrittenBody(body)
    decreases Sizes(body), 1
  {
    hide Written, WrittenBody, Merged, MergeDeep, Members, FirstRun, Joined, RunFrom;
    if body == [] {
      MergedNone();
    } else {
      var first := body[0];
      MergedStep(body);
      WrittenStep(body);
      SizesHead(body);
      if first.Pair? && Members(first).Some? && FirstRun(body).grouped {
        var r := FirstRun(body);
        FirstRunBoth(body);
        FirstRunIs(body);
        MembersWritten(first);
        RunWritten(first, Members(first).value, [], body[1..], false);
        WrittenNone();
        MergedWritten(r.merged);
        MergedWritten(r.rest);
        JoinedWritten(first, Merged(r.merged));
        WrittenCons(Joined(first, Merged(r.merged)), Merged(r.rest));
      } else {
        if first.Pair? { DeepWritten(first); }
        MergedWritten(body[1..]);
        WrittenCons(if first.Pair? then MergeDeep(first) else first, Merged(body[1..]));
      }
    }
  }
}
