/**
 After the merge no run is left to merge, down the whole spine of plain maps; and where no
 map held two spreads, none does.
 */
module MergeSettled {
  import opened Options
  import opened Statements
  import opened MergeRuns
  import opened MergeLaws

  // ----- spreads

  function Spreads(body: seq<Node>): nat {
    if body == [] then 0 else (if body[0].Spread? then 1 else 0) + Spreads(body[1..])
  }

  lemma {:induction false} SpreadsAppend(a: seq<Node>, b: seq<Node>)
    ensures Spreads(a + b) == Spreads(a) + Spreads(b)
  {
    if a == [] {
      assert a + b == b;
    } else {
      assert (a + b)[0] == a[0] && (a + b)[1..] == a[1..] + b;
      SpreadsAppend(a[1..], b);
    }
  }

  lemma SpreadsOne(e: Node)
    ensures Spreads([e]) == if e.Spread? then 1 else 0
  {
    assert [e][1..] == [];
  }

  lemma {:induction false} HasSpreadIs(body: seq<Node>)
    ensures HasSpread(body) <==> 0 < Spreads(body)
  {
    if body != [] {
      assert body == [body[0]] + body[1..];
      HasSpreadIs(body[1..]);
      assert HasSpread(body) <==> body[0].Spread? || HasSpread(body[1..]);
    }
  }

  lemma MembersSpreads(p: Node)
    requires p.Pair?
    ensures Members(p).Some? ==> PlainEntries(p.value).Some? && Spreads(Members(p).value) == Spreads(PlainEntries(p.value).value)
  {
    if Members(p).Some? && p.trail != "" {
      var entries := PlainEntries(p.value).value;
      var n := |entries| - 1;
      SpreadsAppend(entries[..n], [entries[n]]);
      SpreadsAppend(entries[..n], [Sunk(entries[n], p.trail)]);
      SpreadsOne(entries[n]);
      SpreadsOne(Sunk(entries[n], p.trail));
      assert entries == entries[..n] + [entries[n]];
    }
  }

  /** What a run leaves, it leaves whole; what it takes are statements, comments and blank lines. */
  lemma {:induction false} RunSpreads(first: Node, merged: seq<Node>, carry: seq<Node>, rest: seq<Node>, grouped: bool)
    requires first.Pair? && Fillers(carry)
    ensures var r := RunFrom(first, merged, carry, rest, grouped);
            Spreads(r.rest) == Spreads(rest) && (Spreads(merged) <= 1 && MoreOnes(rest) ==> Spreads(r.merged) <= 1)
    decreases |rest|
  {
    hide Joins, Members, HasSpread;
    FillersSpreads(carry);
    SpreadsAppend(carry, rest);
    RunStep(first, merged, carry, rest, grouped);
    if rest == [] {
      assert carry + rest == carry;
    } else {
      var n := rest[0];
      assert MoreOnes(rest) ==> MoreOnes(rest[1..]);
      if Filler(n) {
        FillersPush(carry, n);
        RunSpreads(first, merged, carry + [n], rest[1..], grouped);
      } else if Joins(first, merged, n) {
        JoinSpreads(first, merged, n);
        var more := Members(n).value;
        assert n in rest;
        SpreadsAppend(merged, carry);
        SpreadsAppend(merged + carry, more);
        RunSpreads(first, merged + carry + more, [], rest[1..], true);
      }
    }
  }

  /** No statement of the list holds two spreads. */
  ghost predicate MoreOnes(rest: seq<Node>) {
    forall n :: n in rest && n.Pair? && Members(n).Some? ==> Spreads(Members(n).value) <= 1
  }

  lemma JoinSpreads(first: Node, merged: seq<Node>, n: Node)
    requires first.Pair? && Joins(first, merged, n)
    ensures n.Pair? && Members(n).Some? && (Spreads(merged) == 0 || Spreads(Members(n).value) == 0)
  {
    HasSpreadIs(merged);
    HasSpreadIs(Members(n).value);
  }

  lemma {:induction false} FillersSpreads(carry: seq<Node>)
    requires Fillers(carry)
    ensures Spreads(carry) == 0
  {
    if carry != [] {
      assert carry[0] in carry && forall c :: c in carry[1..] ==> c in carry;
      FillersSpreads(carry[1..]);
    }
  }

  lemma SpreadsCons(e: Node, rest: seq<Node>)
    ensures Spreads([e] + rest) == Spreads(rest) + if e.Spread? then 1 else 0
  {
    assert ([e] + rest)[1..] == rest;
  }

  lemma SpreadsStep(body: seq<Node>)
    requires body != []
    ensures Spreads(body) == Spreads(body[1..]) + if body[0].Spread? then 1 else 0
  {
  }

  /** A body keeps its spreads. */
  lemma {:induction false} MergedSpreads(body: seq<Node>)
    ensures Spreads(Merged(body)) == Spreads(body)
    decreases Sizes(body)
  {
    hide Spreads, Merged, MergeDeep, Members, FirstRun, Joined;
    if body == [] {
      MergedNone();
    } else {
      MergedStep(body);
      SpreadsStep(body);
      SizesHead(body);
      if body[0].Pair? && Members(body[0]).Some? && FirstRun(body).grouped {
        var r := FirstRun(body);
        FirstRunBoth(body);
        FirstRunIs(body);
        RunSpreads(body[0], Members(body[0]).value, [], body[1..], false);
        MergedSpreads(r.rest);
        JoinedPair(body[0], Merged(r.merged));
        SpreadsCons(Joined(body[0], Merged(r.merged)), Merged(r.rest));
      } else {
        if body[0].Pair? { DeepPair(body[0]); }
        MergedSpreads(body[1..]);
        SpreadsCons(if body[0].Pair? then MergeDeep(body[0]) else body[0], Merged(body[1..]));
      }
    }
  }

  lemma JoinedPair(first: Node, body: seq<Node>)
    requires first.Pair?
    ensures Joined(first, body).Pair? && Joined(first, body).value == Map(body, "") && Joined(first, body).trail == ""
    ensures Joined(first, body).key == first.key && Joined(first, body).opt == first.opt
  {
  }

  // ----- at most one spread to a map

  /** Down the plain maps, none holds two spreads. */
  predicate OneSpread(body: seq<Node>)
    decreases Sizes(body), 1
  {
    Spreads(body) <= 1 && OneBelow(body)
  }

  predicate OneBelow(body: seq<Node>)
    decreases Sizes(body), 0
  {
    if body == [] then true
    else
      MembersBelow(body);
      (body[0].Pair? && PlainEntries(body[0].value).Some? ==> OneSpread(PlainEntries(body[0].value).value)) && OneBelow(body[1..])
  }

  lemma MembersBelow(body: seq<Node>)
    requires body != []
    ensures Sizes(body[1..]) < Sizes(body)
    ensures body[0].Pair? && PlainEntries(body[0].value).Some? ==> Sizes(PlainEntries(body[0].value).value) < Sizes(body)
  {
    if body[0].Pair? { MembersSmaller(body[0]); }
  }

  predicate OneIn(e: Node) {
    e.Pair? && PlainEntries(e.value).Some? ==> OneSpread(PlainEntries(e.value).value)
  }

  lemma OneBelowStep(body: seq<Node>)
    ensures OneBelow(body) <==> (body != [] ==> OneIn(body[0]) && OneBelow(body[1..]))
  {
  }

  lemma {:induction false} OneBelowIs(body: seq<Node>)
    ensures OneBelow(body) <==> forall e :: e in body ==> OneIn(e)
  {
    hide PlainEntries, OneSpread, OneIn, OneBelow;
    OneBelowStep(body);
    if body != [] {
      OneBelowIs(body[1..]);
      assert body == [body[0]] + body[1..];
      assert forall e :: e in body <==> e == body[0] || e in body[1..];
    }
  }

  lemma OneBelowAppend(a: seq<Node>, b: seq<Node>)
    ensures OneBelow(a + b) <==> OneBelow(a) && OneBelow(b)
  {
    hide OneBelow, OneIn;
    OneBelowIs(a);
    OneBelowIs(b);
    OneBelowIs(a + b);
    assert forall e :: e in a + b <==> e in a || e in b;
  }

  lemma MembersOne(p: Node)
    requires p.Pair? && OneIn(p) && Members(p).Some?
    ensures OneSpread(Members(p).value)
  {
    hide OneBelow;
    MembersSpreads(p);
    if p.trail != "" {
      var entries := PlainEntries(p.value).value;
      var n := |entries| - 1;
      assert entries == entries[..n] + [entries[n]];
      OneBelowAppend(entries[..n], [entries[n]]);
      OneBelowAppend(entries[..n], [Sunk(entries[n], p.trail)]);
      SunkOne(entries[n], p.trail);
    }
  }

  lemma SunkOne(last: Node, trail: string)
    requires (last.Pair? || last.Spread?) && OneBelow([last])
    ensures OneBelow([Sunk(last, trail)])
  {
    OneBelowIs([last]);
    OneBelowIs([Sunk(last, trail)]);
    assert last in [last];
    assert OneIn(Sunk(last, trail)) <==> OneIn(last);
  }

  lemma {:induction false} RunOne(first: Node, merged: seq<Node>, carry: seq<Node>, rest: seq<Node>, grouped: bool)
    requires first.Pair? && Fillers(carry) && OneBelow(rest) && OneSpread(merged)
    ensures var r := RunFrom(first, merged, carry, rest, grouped); OneSpread(r.merged) && OneBelow(r.rest)
    decreases |rest|
  {
    hide Joins, Members, HasSpread, OneBelow, OneIn;
    RunStep(first, merged, carry, rest, grouped);
    FillersOne(carry);
    OneBelowAppend(carry, rest);
    OneBelowIs(rest);
    if rest != [] {
      var n := rest[0];
      OneBelowIs(rest[1..]);
      assert n in rest && forall e :: e in rest[1..] ==> e in rest;
      if Filler(n) {
        FillersPush(carry, n);
        RunOne(first, merged, carry + [n], rest[1..], grouped);
      } else if Joins(first, merged, n) {
        JoinSpreads(first, merged, n);
        var more := Members(n).value;
        MembersOne(n);
        FillersSpreads(carry);
        SpreadsAppend(merged, carry);
        SpreadsAppend(merged + carry, more);
        OneBelowAppend(merged, carry);
        OneBelowAppend(merged + carry, more);
        RunOne(first, merged + carry + more, [], rest[1..], true);
      }
    }
  }

  lemma FillersOne(carry: seq<Node>)
    requires Fillers(carry)
    ensures OneBelow(carry)
  {
    OneBelowIs(carry);
  }

  lemma OneCons(e: Node, rest: seq<Node>)
    requires OneIn(e) && OneBelow(rest)
    ensures OneBelow([e] + rest)
  {
    hide OneIn, OneBelow;
    OneBelowIs([e]);
    OneBelowAppend([e], rest);
  }

  lemma {:induction false} DeepOne(p: Node)
    requires p.Pair? && OneIn(p)
    ensures OneIn(MergeDeep(p))
    decreases Size(p), 0
  {
    hide Merged, OneSpread, Members;
    MembersSmaller(p);
    if p.value.Pair? {
      OneMerged(p.value);
      assert Merged([p.value]) == [Merged([p.value])[0]];
      MergedOne([p.value]);
    } else if p.value.Map? && PlainEntries(p.value).Some? {
      MergedOne(p.value.body);
      MapOne(Merged(p.value.body), p.value.open);
    }
  }

  lemma MapOne(body: seq<Node>, open: string)
    ensures PlainEntries(Map(body, open)).Some? ==> PlainEntries(Map(body, open)).value == body
  {
  }

  /** The merge brings no two spreads into one map. */
  lemma {:induction false} MergedOne(body: seq<Node>)
    requires OneSpread(body)
    ensures OneSpread(Merged(body))
    decreases Sizes(body), 2
  {
    MergedSpreads(body);
    MergedBelow(body);
  }

  lemma {:induction false} MergedBelow(body: seq<Node>)
    requires OneBelow(body)
    ensures OneBelow(Merged(body))
    decreases Sizes(body), 1
  {
    hide OneIn, OneBelow, Merged, MergeDeep, Members, FirstRun, Joined, RunFrom, PlainEntries;
    if body == [] {
      MergedNone();
    } else {
      var first := body[0];
      MergedStep(body);
      OneBelowIs(body);
      OneBelowIs(body[1..]);
      SizesHead(body);
      assert first in body && forall e :: e in body[1..] ==> e in body;
      if first.Pair? && Members(first).Some? && FirstRun(body).grouped {
        var r := FirstRun(body);
        FirstRunBoth(body);
        FirstRunIs(body);
        MembersOne(first);
        RunOne(first, Members(first).value, [], body[1..], false);
        MergedOne(r.merged);
        MergedBelow(r.rest);
        JoinedOne(first, Merged(r.merged));
        OneCons(Joined(first, Merged(r.merged)), Merged(r.rest));
      } else {
        if first.Pair? { DeepOne(first); }
        MergedBelow(body[1..]);
        OneCons(if first.Pair? then MergeDeep(first) else first, Merged(body[1..]));
      }
    }
  }

  lemma JoinedOne(first: Node, body: seq<Node>)
    requires first.Pair? && OneSpread(body)
    ensures OneIn(Joined(first, body))
  {
    hide OneSpread;
    MapOne(body, "");
  }

  // ----- nothing left to merge

  /** Two statements the merge would make one. */
  predicate Mergeable(a: Node, b: Node) {
    a.Pair? && Members(a).Some? && Joins(a, Members(a).value, b)
  }

  function NextOf(body: seq<Node>): Option<Node> {
    if body == [] then None else if Filler(body[0]) then NextOf(body[1..]) else Some(body[0])
  }

  /** No statement is followed, comments and blank lines between, by one of its run. */
  predicate Apart(body: seq<Node>) {
    body == [] || ((NextOf(body[1..]).Some? ==> !Mergeable(body[0], NextOf(body[1..]).value)) && Apart(body[1..]))
  }

  /** n after the merge below it, or in a run it begins. */
  ghost predicate Image(n: Node, m: Node) {
    if !n.Pair? then m == n
    else
      && m.Pair? && m.key == n.key && m.opt == n.opt && (Members(n).None? ==> Members(m).None?)
      && (Members(n).Some? && Members(m).Some? && HasSpread(Members(n).value) ==> HasSpread(Members(m).value))
  }

  predicate Settles(n: Node) {
    n.Pair? || n.Spread?
  }

  /** The last thing in a body stays a statement, or a comment. */
  lemma {:induction false} RunLast(first: Node, merged: seq<Node>, carry: seq<Node>, rest: seq<Node>, grouped: bool)
    requires first.Pair?
    ensures var r := RunFrom(first, merged, carry, rest, grouped);
            if r.rest != [] then carry + rest != [] && r.rest[|r.rest| - 1] == (carry + rest)[|carry + rest| - 1]
            else carry + rest == [] || (carry + rest)[|carry + rest| - 1].Pair?
    decreases |rest|
  {
    hide Joins, Members;
    RunStep(first, merged, carry, rest, grouped);
    if rest != [] {
      var n := rest[0];
      if Filler(n) {
        assert (carry + [n]) + rest[1..] == carry + rest;
        RunLast(first, merged, carry + [n], rest[1..], grouped);
      } else if Joins(first, merged, n) {
        JoinIs(first, merged, n);
        var none: seq<Node> := [];
        assert none + rest[1..] == rest[1..];
        RunLast(first, merged + carry + Members(n).value, [], rest[1..], true);
      }
    }
  }

  lemma {:induction false} MergedLast(body: seq<Node>)
    requires body != []
    ensures Merged(body) != [] && (Settles(Merged(body)[|Merged(body)| - 1]) <==> Settles(body[|body| - 1]))
    decreases Sizes(body)
  {
    hide Merged, MergeDeep, Members, FirstRun, Joined, RunFrom;
    MergedStep(body);
    SizesHead(body);
    MergedNone();
    var first := body[0];
    if first.Pair? && Members(first).Some? && FirstRun(body).grouped {
      var r := FirstRun(body);
      FirstRunBoth(body);
      FirstRunIs(body);
      RunLast(first, Members(first).value, [], body[1..], false);
      var none: seq<Node> := [];
      assert none + body[1..] == body[1..];
      JoinedPair(first, Merged(r.merged));
      if r.rest != [] { MergedLast(r.rest); }
    } else {
      if first.Pair? { DeepPair(first); }
      if body[1..] != [] { MergedLast(body[1..]); }
    }
  }

  lemma MembersSome(p: Node)
    requires p.Pair?
    ensures Members(p).Some? <==> PlainEntries(p.value).Some? && var es := PlainEntries(p.value).value;
                                  (p.trail == "" || (es != [] && Settles(es[|es| - 1])))
  {
  }

  lemma MembersHas(p: Node)
    requires p.Pair? && Members(p).Some?
    ensures HasSpread(Members(p).value) <==> 0 < Spreads(PlainEntries(p.value).value)
  {
    HasSpreadIs(Members(p).value);
    MembersSpreads(p);
  }

  lemma DeepNone(p: Node)
    requires p.Pair? && Members(p).None? && MergeDeep(p).Pair?
    ensures Members(MergeDeep(p)).None?
  {
    hide Merged, Members, PlainEntries, MergeDeep, Settles;
    var m := MergeDeep(p);
    DeepPair(p);
    MembersSome(p);
    MembersSome(m);
    DeepEntries(p);
    if PlainEntries(p.value).Some? && PlainEntries(m.value).Some? {
      var es := PlainEntries(p.value).value;
      if es != [] { MergedLast(es); } else { MergedNone(); }
    }
  }

  lemma DeepHas(p: Node)
    requires p.Pair? && MergeDeep(p).Pair? && Members(p).Some? && Members(MergeDeep(p)).Some? && HasSpread(Members(p).value)
    ensures HasSpread(Members(MergeDeep(p)).value)
  {
    hide Merged, Members, PlainEntries, MergeDeep, HasSpread;
    DeepPair(p);
    MembersSpreads(p);
    MembersSpreads(MergeDeep(p));
    DeepEntries(p);
    MergedSpreads(PlainEntries(p.value).value);
    MembersHas(p);
    MembersHas(MergeDeep(p));
  }

  /** The merge below a statement leaves it what it is to its neighbours. */
  lemma DeepImage(p: Node)
    requires p.Pair?
    ensures Image(p, MergeDeep(p))
  {
    hide Merged, Members, HasSpread, PlainEntries, MergeDeep;
    DeepPair(p);
    if Members(p).None? {
      DeepNone(p);
    } else if Members(MergeDeep(p)).Some? && HasSpread(Members(p).value) {
      DeepHas(p);
    }
  }

  lemma DeepEntries(p: Node)
    requires p.Pair?
    ensures PlainEntries(p.value).None? ==> MergeDeep(p) == p
    ensures PlainEntries(p.value).Some? && PlainEntries(MergeDeep(p).value).Some? ==>
      PlainEntries(MergeDeep(p).value).value == Merged(PlainEntries(p.value).value)
  {
    hide Merged;
    if p.value.Pair? {
      OneMerged(p.value);
      assert Merged([p.value]) == [Merged([p.value])[0]];
    }
  }

  lemma {:induction false} RunGrows(first: Node, merged: seq<Node>, carry: seq<Node>, rest: seq<Node>, grouped: bool)
    requires first.Pair?
    ensures Spreads(merged) <= Spreads(RunFrom(first, merged, carry, rest, grouped).merged)
    decreases |rest|
  {
    hide Joins, Members, Spreads;
    RunStep(first, merged, carry, rest, grouped);
    if rest != [] {
      if Filler(rest[0]) {
        RunGrows(first, merged, carry + [rest[0]], rest[1..], grouped);
      } else if Joins(first, merged, rest[0]) {
        JoinIs(first, merged, rest[0]);
        SpreadsAppend(merged, carry);
        SpreadsAppend(merged + carry, Members(rest[0]).value);
        RunGrows(first, merged + carry + Members(rest[0]).value, [], rest[1..], true);
      }
    }
  }

  lemma JoinedImage(body: seq<Node>)
    requires body != [] && body[0].Pair? && Members(body[0]).Some?
    ensures Image(body[0], Joined(body[0], Merged(FirstRun(body).merged)))
  {
    hide Merged, FirstRun, Members, HasSpread, Joined, RunFrom;
    var first, r := body[0], FirstRun(body);
    var m := Joined(first, Merged(r.merged));
    JoinedPair(first, Merged(r.merged));
    FirstRunIs(body);
    RunGrows(first, Members(first).value, [], body[1..], false);
    MergedSpreads(r.merged);
    MembersSpreads(first);
    MembersHas(first);
    if Members(m).Some? {
      MembersHas(m);
      MembersSpreads(m);
      MapOne(Merged(r.merged), "");
    }
  }

  lemma NextCons(e: Node, rest: seq<Node>)
    ensures NextOf([e] + rest) == if Filler(e) then NextOf(rest) else Some(e)
  {
    assert ([e] + rest)[1..] == rest;
  }

  lemma NextStep(body: seq<Node>)
    requires body != []
    ensures NextOf(body) == if Filler(body[0]) then NextOf(body[1..]) else Some(body[0])
  {
  }

  /** What stands first after comments and blank lines, stands first after the merge. */
  lemma {:induction false} NextMerged(body: seq<Node>)
    ensures NextOf(Merged(body)).Some? <==> NextOf(body).Some?
    ensures NextOf(body).Some? ==> Image(NextOf(body).value, NextOf(Merged(body)).value)
    decreases Sizes(body)
  {
    hide Merged, MergeDeep, Members, FirstRun, Joined, RunFrom, Image, NextOf;
    if body == [] {
      MergedNone();
      NextNone();
    } else {
      var first := body[0];
      MergedStep(body);
      NextStep(body);
      SizesHead(body);
      if first.Pair? && Members(first).Some? && FirstRun(body).grouped {
        JoinedImage(body);
        JoinedPair(first, Merged(FirstRun(body).merged));
        NextCons(Joined(first, Merged(FirstRun(body).merged)), Merged(FirstRun(body).rest));
      } else if first.Pair? {
        DeepImage(first);
        DeepPair(first);
        NextCons(MergeDeep(first), Merged(body[1..]));
      } else {
        NextCons(first, Merged(body[1..]));
        SelfImage(first);
        if Filler(first) { NextMerged(body[1..]); }
      }
    }
  }

  lemma SelfImage(n: Node)
    ensures Image(n, n)
  {
  }

  lemma {:induction false} NextBehind(carry: seq<Node>, rest: seq<Node>)
    requires Fillers(carry)
    ensures NextOf(carry + rest) == NextOf(rest)
  {
    if carry == [] {
      assert carry + rest == rest;
    } else {
      assert carry[0] in carry && forall c :: c in carry[1..] ==> c in carry;
      assert (carry + rest)[0] == carry[0] && (carry + rest)[1..] == carry[1..] + rest;
      NextBehind(carry[1..], rest);
    }
  }

  /** A run ends where the next statement does not join it. */
  lemma {:induction false} RunStops(first: Node, merged: seq<Node>, carry: seq<Node>, rest: seq<Node>, grouped: bool)
    requires first.Pair? && Fillers(carry)
    ensures var r := RunFrom(first, merged, carry, rest, grouped);
            (NextOf(r.rest).Some? ==> !Joins(first, r.merged, NextOf(r.rest).value))
            && (!r.grouped ==> !grouped && r.merged == merged && r.rest == carry + rest)
    decreases |rest|
  {
    hide Joins, Members, NextOf;
    RunStep(first, merged, carry, rest, grouped);
    NextBehind(carry, rest);
    if rest == [] {
      NextNone();
    } else {
      NextStep(rest);
      var n := rest[0];
      if Filler(n) {
        FillersPush(carry, n);
        assert (carry + [n]) + rest[1..] == carry + rest;
        RunStops(first, merged, carry + [n], rest[1..], grouped);
      } else if Joins(first, merged, n) {
        JoinIs(first, merged, n);
        RunStops(first, merged + carry + Members(n).value, [], rest[1..], true);
      }
    }
  }

  lemma NextNone()
    ensures NextOf([]) == None
  {
  }

  /** Two that do not join, do not after the merge. */
  lemma StillApart(a: Node, merged: seq<Node>, b: Node, m: Node, n: Node)
    requires a.Pair? && !Joins(a, merged, b) && Image(b, n)
    requires m.Pair? && m.key == a.key && m.opt == a.opt
    requires Members(m).Some? && HasSpread(merged) ==> HasSpread(Members(m).value)
    ensures !Mergeable(m, n)
  {
    hide Members, HasSpread;
  }

  lemma ApartCons(e: Node, rest: seq<Node>)
    requires Apart(rest) && (NextOf(rest).Some? ==> !Mergeable(e, NextOf(rest).value))
    ensures Apart([e] + rest)
  {
    hide Mergeable;
    assert ([e] + rest)[1..] == rest;
  }

  lemma NoMembersApart(m: Node, n: Node)
    requires m.Pair? ==> Members(m).None?
    ensures !Mergeable(m, n)
  {
  }

  lemma DeepApart(body: seq<Node>)
    requires body != [] && body[0].Pair? && (Members(body[0]).Some? ==> !FirstRun(body).grouped)
    requires NextOf(Merged(body[1..])).Some?
    ensures !Mergeable(MergeDeep(body[0]), NextOf(Merged(body[1..])).value)
  {
    hide Merged, MergeDeep, Members, FirstRun, RunFrom, NextOf, Joins, HasSpread, Mergeable;
    var first := body[0];
    DeepImage(first);
    DeepPair(first);
    NextMerged(body[1..]);
    if Members(first).None? {
      NoMembersApart(MergeDeep(first), NextOf(Merged(body[1..])).value);
    } else {
      FirstRunIs(body);
      RunStops(first, Members(first).value, [], body[1..], false);
      var none: seq<Node> := [];
      assert none + body[1..] == body[1..];
      StillApart(first, Members(first).value, NextOf(body[1..]).value, MergeDeep(first), NextOf(Merged(body[1..])).value);
    }
  }

  lemma GroupApart(body: seq<Node>)
    requires body != [] && body[0].Pair? && Members(body[0]).Some?
    requires NextOf(Merged(FirstRun(body).rest)).Some?
    ensures !Mergeable(Joined(body[0], Merged(FirstRun(body).merged)), NextOf(Merged(FirstRun(body).rest)).value)
  {
    hide Merged, Members, FirstRun, RunFrom, NextOf, Joins, HasSpread, Mergeable, Joined, Image;
    var first, r := body[0], FirstRun(body);
    var m := Joined(first, Merged(r.merged));
    NextMerged(r.rest);
    FirstRunIs(body);
    RunStops(first, Members(first).value, [], body[1..], false);
    JoinedPair(first, Merged(r.merged));
    if Members(m).Some? {
      MembersHas(m);
      MembersSpreads(m);
      MapOne(Merged(r.merged), "");
      MergedSpreads(r.merged);
      HasSpreadIs(r.merged);
    }
    StillApart(first, r.merged, NextOf(r.rest).value, m, NextOf(Merged(r.rest)).value);
  }

  /** After the merge no two neighbours are of one run. */
  lemma {:induction false} MergedApart(body: seq<Node>)
    ensures Apart(Merged(body))
    decreases Sizes(body)
  {
    hide Merged, MergeDeep, Members, FirstRun, Joined, RunFrom, NextOf, Mergeable, Apart;
    if body == [] {
      MergedNone();
      NoneApart();
    } else {
      var first := body[0];
      MergedStep(body);
      SizesHead(body);
      if first.Pair? && Members(first).Some? && FirstRun(body).grouped {
        var r := FirstRun(body);
        FirstRunBoth(body);
        MergedApart(r.rest);
        if NextOf(Merged(r.rest)).Some? { GroupApart(body); }
        ApartCons(Joined(first, Merged(r.merged)), Merged(r.rest));
      } else {
        MergedApart(body[1..]);
        if NextOf(Merged(body[1..])).Some? {
          if first.Pair? { DeepApart(body); } else { NotPairApart(first, NextOf(Merged(body[1..])).value); }
        }
        ApartCons(if first.Pair? then MergeDeep(first) else first, Merged(body[1..]));
      }
    }
  }

  lemma NoneApart()
    ensures Apart([])
  {
  }

  lemma NotPairApart(m: Node, n: Node)
    requires !m.Pair?
    ensures !Mergeable(m, n)
  {
  }

  /** No run is left, nor in any plain map below. */
  predicate Settled(body: seq<Node>)
    decreases Sizes(body), 1
  {
    Apart(body) && SettledBelow(body)
  }

  predicate SettledBelow(body: seq<Node>)
    decreases Sizes(body), 0
  {
    if body == [] then true
    else
      MembersBelow(body);
      (body[0].Pair? && PlainEntries(body[0].value).Some? ==> Settled(PlainEntries(body[0].value).value)) && SettledBelow(body[1..])
  }

  predicate SettledIn(e: Node) {
    e.Pair? && PlainEntries(e.value).Some? ==> Settled(PlainEntries(e.value).value)
  }

  lemma SettledCons(e: Node, rest: seq<Node>)
    ensures SettledBelow([e] + rest) <==> SettledIn(e) && SettledBelow(rest)
  {
    assert ([e] + rest)[1..] == rest;
  }

  lemma {:induction false} DeepSettled(p: Node)
    requires p.Pair?
    ensures SettledIn(MergeDeep(p))
    decreases Size(p), 0
  {
    hide Merged, Settled, MergeDeep, PlainEntries;
    MembersSmaller(p);
    DeepPair(p);
    DeepEntries(p);
    if PlainEntries(p.value).Some? { SpineSettled(PlainEntries(p.value).value); }
  }

  lemma {:induction false} SpineSettled(body: seq<Node>)
    ensures Settled(Merged(body))
    decreases Sizes(body), 2
  {
    MergedApart(body);
    BelowSettled(body);
  }

  lemma {:induction false} BelowSettled(body: seq<Node>)
    ensures SettledBelow(Merged(body))
    decreases Sizes(body), 1
  {
    hide Merged, MergeDeep, Members, FirstRun, Joined, RunFrom, SettledBelow, SettledIn;
    if body == [] {
      MergedNone();
      NoneSettled();
    } else {
      var first := body[0];
      MergedStep(body);
      SizesHead(body);
      if first.Pair? && Members(first).Some? && FirstRun(body).grouped {
        var r := FirstRun(body);
        FirstRunBoth(body);
        SpineSettled(r.merged);
        BelowSettled(r.rest);
        JoinedSettled(first, Merged(r.merged));
        SettledCons(Joined(first, Merged(r.merged)), Merged(r.rest));
      } else {
        if first.Pair? { DeepSettled(first); } else { OtherSettled(first); }
        BelowSettled(body[1..]);
        SettledCons(if first.Pair? then MergeDeep(first) else first, Merged(body[1..]));
      }
    }
  }

  lemma NoneSettled()
    ensures SettledBelow([])
  {
  }

  lemma OtherSettled(e: Node)
    requires !e.Pair?
    ensures SettledIn(e)
  {
  }

  lemma JoinedSettled(first: Node, body: seq<Node>)
    requires first.Pair? && Settled(body)
    ensures SettledIn(Joined(first, body))
  {
    hide Settled;
    MapOne(body, "");
  }

  // ----- told from the statements alone

  /** A value the merge looks into: a statement, or a map in bare braces that includes no file. */
  predicate Open(v: Node) {
    v.Pair? || (v.Map? && v.open == "" && forall e :: e in v.body ==> !e.Include?)
  }

  /** A statement that can be taken into another: a comment behind it has an entry to stand behind. */
  predicate Takes(p: Node) {
    && p.Pair? && Open(p.value)
    && (p.trail == "" || p.value.Pair? || (p.value.body != [] && var last := p.value.body[|p.value.body| - 1]; last.Pair? || last.Spread?))
  }

  predicate HoldsSpread(p: Node) {
    p.Pair? && p.value.Map? && exists e :: e in p.value.body && e.Spread?
  }

  /** Two statements of one run: one key, said to be optional by both or by neither, and not a
      spread in both. */
  predicate OneRun(a: Node, b: Node) {
    Takes(a) && Takes(b) && a.key == b.key && a.opt == b.opt && !(HoldsSpread(a) && HoldsSpread(b))
  }

  ghost predicate OnlyBetween(body: seq<Node>, i: nat, j: nat)
    requires j <= |body|
  {
    forall k :: i < k < j ==> body[k].Comment? || body[k].Blank?
  }

  /** No two statements with nothing but comments and blank lines between them are of one run. */
  ghost predicate NoRun(body: seq<Node>) {
    forall i: nat, j: nat :: i < j < |body| && OnlyBetween(body, i, j) ==> !OneRun(body[i], body[j])
  }

  /** Nor are any in a map the merge looks into, however deep. */
  ghost predicate NoneLeft(body: seq<Node>)
    decreases Sizes(body), 1
  {
    NoRun(body) && NoneBelow(body)
  }

  ghost predicate NoneBelow(body: seq<Node>)
    decreases Sizes(body), 0
  {
    if body == [] then true
    else
      MembersBelow(body);
      var e := body[0];
      && (e.Pair? && e.value.Pair? ==> NoneLeft([e.value]))
      && (e.Pair? && e.value.Map? && Open(e.value) ==> NoneLeft(e.value.body))
      && NoneBelow(body[1..])
  }

  lemma TakesIs(p: Node)
    requires p.Pair?
    ensures Members(p).Some? <==> Takes(p)
    ensures Members(p).Some? ==> (HasSpread(Members(p).value) <==> HoldsSpread(p))
  {
    hide Spreads;
    MembersSome(p);
    if Members(p).Some? {
      MembersHas(p);
      HasSpreadIs(PlainEntries(p.value).value);
    }
  }

  /** The test of the merge is whether the two are of one run. */
  lemma MergeableIs(a: Node, b: Node)
    ensures Mergeable(a, b) <==> OneRun(a, b)
  {
    hide Members, HasSpread, HoldsSpread;
    if a.Pair? { TakesIs(a); }
    if b.Pair? { TakesIs(b); }
  }

  lemma {:induction false} NextIs(body: seq<Node>, j: nat)
    requires j < |body| && (forall k :: 0 <= k < j ==> body[k].Comment? || body[k].Blank?)
    ensures body[j].Comment? || body[j].Blank? || NextOf(body) == Some(body[j])
  {
    if 0 < j {
      assert forall k :: 0 <= k < |body[1..]| ==> body[1..][k] == body[k + 1];
      NextIs(body[1..], j - 1);
    }
  }

  lemma {:induction false} ApartAt(body: seq<Node>, i: nat, j: nat)
    requires Apart(body) && i < j < |body| && OnlyBetween(body, i, j)
    ensures !OneRun(body[i], body[j])
  {
    hide Mergeable, OneRun, NextOf;
    assert forall k :: 0 <= k < |body[1..]| ==> body[1..][k] == body[k + 1];
    if i == 0 {
      NextIs(body[1..], j - 1);
      MergeableIs(body[0], body[j]);
      if body[j].Comment? || body[j].Blank? { FillerApart(body[0], body[j]); }
    } else {
      ApartAt(body[1..], i - 1, j - 1);
    }
  }

  lemma FillerApart(a: Node, b: Node)
    requires !b.Pair?
    ensures !OneRun(a, b)
  {
  }

  lemma {:induction false} SettledLeaves(body: seq<Node>)
    requires Settled(body)
    ensures NoneLeft(body)
    decreases Sizes(body), 1
  {
    hide OneRun, Apart;
    forall i: nat, j: nat | i < j < |body| && OnlyBetween(body, i, j) ensures !OneRun(body[i], body[j]) { ApartAt(body, i, j); }
    BelowLeaves(body);
  }

  lemma {:induction false} BelowLeaves(body: seq<Node>)
    requires SettledBelow(body)
    ensures NoneBelow(body)
    decreases Sizes(body), 0
  {
    hide Settled, NoneLeft;
    if body != [] {
      MembersBelow(body);
      var e := body[0];
      if e.Pair? && e.value.Pair? { SettledLeaves([e.value]); }
      if e.Pair? && e.value.Map? && Open(e.value) { SettledLeaves(e.value.body); }
      BelowLeaves(body[1..]);
    }
  }

  /** fmtMergeRuns merges every run, at every depth. */
  lemma MergedSettled(body: seq<Node>)
    ensures NoneLeft(Merged(body))
  {
    hide Merged, Settled, NoneLeft;
    SpineSettled(body);
    SettledLeaves(Merged(body));
  }
}
