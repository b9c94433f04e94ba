/**
 The formatter's merge of runs of statements of one key into one statement
 (go/format.go:1109-1221): it keeps what the body means and every comment in its place,
 never brings two spreads into one map, and leaves no run behind.
 */
module MergeRuns {
  import opened Options
  import opened Statements

  /** n goes into the run of first, whose merged entries so far are these. */
  predicate Joins(first: Node, merged: seq<Node>, n: Node)
    requires first.Pair?
  {
    && n.Pair? && n.key == first.key && n.opt == first.opt && Members(n).Some?
    && !(HasSpread(merged) && HasSpread(Members(n).value))
  }

  /** The entries of a run, whether it is more than its first statement, and what follows it. */
  datatype Run = Run(merged: seq<Node>, grouped: bool, rest: seq<Node>)

  /** The run from `rest` on: comments and blank lines are carried until a statement joins. */
  function RunFrom(first: Node, merged: seq<Node>, carry: seq<Node>, rest: seq<Node>, grouped: bool): (r: Run)
    requires first.Pair?
    decreases |rest|
  {
    if rest == [] then Run(merged, grouped, carry)
    else if Filler(rest[0]) then RunFrom(first, merged, carry + [rest[0]], rest[1..], grouped)
    else if Joins(first, merged, rest[0]) then
      RunFrom(first, merged + carry + Members(rest[0]).value, [], rest[1..], true)
    else Run(merged, grouped, carry + rest)
  }

  lemma MembersSmaller(p: Node)
    requires p.Pair?
    ensures Members(p).Some? ==> Sizes(Members(p).value) < Size(p)
    ensures PlainEntries(p.value).Some? ==> Sizes(PlainEntries(p.value).value) < Size(p)
  {
    PlainSize(p.value);
    if Members(p).Some? && p.trail != "" {
      var entries := PlainEntries(p.value).value;
      var n := |entries| - 1;
      SizesAppend(entries[..n], [entries[n]]);
      SizesAppend(entries[..n], [Sunk(entries[n], p.trail)]);
      assert entries == entries[..n] + [entries[n]];
      OneSize(entries[n]);
      OneSize(Sunk(entries[n], p.trail));
    }
  }

  lemma OneSize(e: Node)
    ensures Sizes([e]) == Size(e)
  {
    assert [e][1..] == [];
  }

  lemma PlainSize(v: Node)
    ensures PlainEntries(v).Some? ==> Sizes(PlainEntries(v).value) <= Size(v)
  {
    if v.Pair? { OneSize(v); }
  }

  /** A run's entries are no larger than the statements they came from, and what is left is left. */
  lemma {:induction false} RunSmaller(first: Node, merged: seq<Node>, carry: seq<Node>, rest: seq<Node>, grouped: bool)
    requires first.Pair?
    ensures var r := RunFrom(first, merged, carry, rest, grouped);
            Sizes(r.merged) + Sizes(r.rest) <= Sizes(merged) + Sizes(carry) + Sizes(rest)
    decreases |rest|
  {
    hide Joins;
    if rest != [] {
      if Filler(rest[0]) {
        SizesAppend(carry, [rest[0]]);
        OneSize(rest[0]);
        RunSmaller(first, merged, carry + [rest[0]], rest[1..], grouped);
      } else if Joins(first, merged, rest[0]) {
        JoinIs(first, merged, rest[0]);
        var more := Members(rest[0]).value;
        MembersSmaller(rest[0]);
        SizesAppend(merged, carry);
        SizesAppend(merged + carry, more);
        RunSmaller(first, merged + carry + more, [], rest[1..], true);
      } else {
        SizesAppend(carry, rest);
      }
    }
  }

  lemma JoinIs(first: Node, merged: seq<Node>, n: Node)
    requires first.Pair? && Joins(first, merged, n)
    ensures n.Pair? && n.key == first.key && n.opt == first.opt && Members(n).Some?
  {
  }

  /** The run the first statement of a body starts. */
  function FirstRun(body: seq<Node>): (r: Run)
    requires body != [] && body[0].Pair? && Members(body[0]).Some?
    ensures Sizes(r.merged) < Sizes(body) && (r.grouped ==> Sizes(r.rest) < Sizes(body))
  {
    MembersSmaller(body[0]);
    RunSmaller(body[0], Members(body[0]).value, [], body[1..], false);
    RunFrom(body[0], Members(body[0]).value, [], body[1..], false)
  }

  function WithValue(p: Node, value: Node): Node
    requires p.Pair?
  {
    Pair(p.key, p.opt, p.alias, value, p.trail)
  }

  /** fmtMergeDeep: a statement with what its value holds merged, where that is plain. */
  function MergeDeep(p: Node): Node
    requires p.Pair?
    decreases Size(p), 0
  {
    MembersSmaller(p);
    match p.value
    case Pair(_, _, _, _, _) =>
      OneSize(p.value);
      var body := Merged([p.value]);
      if |body| == 1 then WithValue(p, body[0]) else p
    case Map(body, _) =>
      if PlainEntries(p.value).None? then p else WithValue(p, Map(Merged(body), p.value.open))
    case _ => p
  }

  /** fmtMergeRuns. */
  function Merged(body: seq<Node>): seq<Node>
    decreases Sizes(body), 1
  {
    if body == [] then []
    else
      var first := body[0];
      if !first.Pair? then [first] + Merged(body[1..])
      else if Members(first).None? then [MergeDeep(first)] + Merged(body[1..])
      else
        var r := FirstRun(body);
        if !r.grouped then [MergeDeep(first)] + Merged(body[1..])
        else [Joined(first, Merged(r.merged))] + Merged(r.rest)
  }

  function Joined(first: Node, body: seq<Node>): Node
    requires first.Pair?
  {
    Pair(first.key, first.opt, first.alias, Map(body, ""), "")
  }

  // ----- the loops

  /** The loop over a run: j over the statements, carry behind it. */
  method TakeRun(body: seq<Node>, i: nat) returns (merged: seq<Node>, grouped: bool, next: nat)
    requires i < |body| && body[i].Pair? && Members(body[i]).Some?
    ensures i < next <= |body| && FirstRun(body[i..]) == Run(merged, grouped, body[next..])
  {
    hide FirstRun, Members, Joins, RunFrom;
    var first := body[i];
    var carry := [];
    merged, grouped := Members(first).value, false;
    var j := i + 1;
    assert body[i..][1..] == body[i + 1..];
    FirstRunIs(body[i..]);
    while j < |body|
      invariant i < j <= |body| && |carry| <= j - i - 1 && carry == body[j - |carry|..j]
      invariant RunFrom(first, merged, carry, body[j..], grouped) == FirstRun(body[i..])
      decreases |body| - j
    {
      var n := body[j];
      assert body[j..][0] == n && body[j..][1..] == body[j + 1..];
      RunStep(first, merged, carry, body[j..], grouped);
      if Filler(n) {
        carry := carry + [n];
      } else if Joins(first, merged, n) {
        JoinIs(first, merged, n);
        merged := merged + carry + Members(n).value;
        carry, grouped := [], true;
      } else {
        break;
      }
      j := j + 1;
    }
    RunStep(first, merged, carry, body[j..], grouped);
    assert carry + body[j..] == body[j - |carry|..];
    next := j - |carry|;
  }

  /** fmtMergeRuns's loop over the statements. */
  method MergeRunsLoop(body: seq<Node>) returns (out: seq<Node>)
    ensures out == Merged(body)
    decreases Sizes(body), 1
  {
    hide *;
    out := [];
    var i := 0;
    while i < |body|
      invariant 0 <= i <= |body| && out + Merged(body[i..]) == Merged(body)
      decreases |body| - i
    {
      var first, left := body[i], body[i..];
      SizesLeft(body, i);
      MergedStep(left);
      assert left[0] == first && left[1..] == body[i + 1..];
      var entries := if first.Pair? then Members(first) else None;
      if entries.None? {
        var deep := first;
        if first.Pair? { deep := MergeDeepLoop(first); }
        Shifted(out, deep, Merged(body[i + 1..]));
        out := out + [deep];
        i := i + 1;
      } else {
        var merged, grouped, next := TakeRun(body, i);
        if !grouped {
          var deep := MergeDeepLoop(first);
          Shifted(out, deep, Merged(body[i + 1..]));
          out := out + [deep];
          i := i + 1;
        } else {
          FirstRunSizes(left);
          var inner := MergeRunsLoop(merged);
          Shifted(out, Joined(first, inner), Merged(body[next..]));
          out := out + [Joined(first, inner)];
          i := next;
        }
      }
    }
    assert body[0..] == body && body[|body|..] == [];
    MergedNone();
  }

  method MergeDeepLoop(p: Node) returns (deep: Node)
    requires p.Pair?
    ensures deep == MergeDeep(p)
    decreases Size(p), 0
  {
    var entries := PlainEntries(p.value);
    if entries.None? { return p; }
    MembersSmaller(p);
    var body := MergeRunsLoop(entries.value);
    if p.value.Pair? {
      if |body| != 1 { return p; }
      return WithValue(p, body[0]);
    }
    return WithValue(p, Map(body, p.value.open));
  }

  lemma SizesLeft(body: seq<Node>, i: nat)
    requires i < |body|
    ensures Size(body[i]) <= Sizes(body[i..]) <= Sizes(body)
  {
    hide Size, Sizes;
    SizesAppend(body[..i], body[i..]);
    assert body[..i] + body[i..] == body;
    HeadSize(body[i..]);
  }

  lemma HeadSize(body: seq<Node>)
    requires body != []
    ensures Size(body[0]) <= Sizes(body)
  {
  }

  lemma Shifted<T>(out: seq<T>, x: T, rest: seq<T>)
    ensures out + ([x] + rest) == (out + [x]) + rest
  {
  }

  lemma MergedNone()
    ensures Merged([]) == []
  {
  }

  lemma MergedStep(body: seq<Node>)
    requires body != []
    ensures Merged(body) ==
      if !body[0].Pair? then [body[0]] + Merged(body[1..])
      else if Members(body[0]).None? then [MergeDeep(body[0])] + Merged(body[1..])
      else if !FirstRun(body).grouped then [MergeDeep(body[0])] + Merged(body[1..])
      else [Joined(body[0], Merged(FirstRun(body).merged))] + Merged(FirstRun(body).rest)
  {
  }

  lemma RunStep(first: Node, merged: seq<Node>, carry: seq<Node>, rest: seq<Node>, grouped: bool)
    requires first.Pair?
    ensures rest == [] || (!Filler(rest[0]) && !Joins(first, merged, rest[0])) ==>
              RunFrom(first, merged, carry, rest, grouped) == Run(merged, grouped, carry + rest)
    ensures rest != [] && Filler(rest[0]) ==>
              RunFrom(first, merged, carry, rest, grouped) == RunFrom(first, merged, carry + [rest[0]], rest[1..], grouped)
    ensures rest != [] && !Filler(rest[0]) && Joins(first, merged, rest[0]) ==>
              RunFrom(first, merged, carry, rest, grouped)
                == RunFrom(first, merged + carry + Members(rest[0]).value, [], rest[1..], true)
  {
  }

  lemma FirstRunIs(body: seq<Node>)
    requires body != [] && body[0].Pair? && Members(body[0]).Some?
    ensures FirstRun(body) == RunFrom(body[0], Members(body[0]).value, [], body[1..], false)
  {
  }

  lemma FirstRunSizes(body: seq<Node>)
    requires body != [] && body[0].Pair? && Members(body[0]).Some?
    ensures Sizes(FirstRun(body).merged) < Sizes(body)
  {
  }
}
