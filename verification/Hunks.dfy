/**
 The hunks of an edit script and the patch they are (UnifiedDiff, go/format.go:1926-1990).
 */
module Hunks {
  import opened Patience
  import opened UnifiedDiff

  const CONTEXT := 3

  /** The first and last change of a hunk, as places in the script. */
  datatype Span = Span(first: nat, last: nat)

  /** What a hunk covers of the script. */
  datatype Cut = Cut(from: nat, to: nat)

  /** A hunk: where it stands on each side, how many lines it has there, and its edits. */
  datatype Hunk = Hunk(aAt: nat, aLen: nat, bAt: nat, bLen: nat, body: seq<Edit>)

  // ----- spans

  /** Changes at most six places apart share a span, and none farther from its neighbours does;
      every change is in one. */
  ghost predicate Grouped(es: seq<Edit>, n: nat, spans: seq<Span>) {
    && n <= |es|
    && (forall i :: 0 <= i < |spans| ==> spans[i].first <= spans[i].last < n && !es[spans[i].first].Keep? && !es[spans[i].last].Keep?)
    && (forall i, j :: 0 <= i < j < |spans| ==> spans[i].last + 6 < spans[j].first)
    && (forall i :: 0 <= i < |spans| ==> Close(es, spans[i]))
    && (forall k :: 0 <= k < n && !es[k].Keep? ==> Covered(spans, k))
  }

  /** Each change of the span but the last has another one at most six places behind it. */
  ghost predicate Close(es: seq<Edit>, s: Span) {
    s.last < |es| && forall p :: s.first <= p < s.last && !es[p].Keep? ==> Followed(es, p, s.last)
  }

  ghost predicate Followed(es: seq<Edit>, p: nat, last: nat)
    requires last < |es|
  {
    exists q :: p < q <= p + 6 && q <= last && !es[q].Keep?
  }

  ghost predicate Covered(spans: seq<Span>, k: nat) {
    exists i :: 0 <= i < |spans| && spans[i].first <= k <= spans[i].last
  }

  method Group(es: seq<Edit>) returns (spans: seq<Span>)
    ensures Grouped(es, |es|, spans)
    ensures spans == [] <==> AllKept(es)
  {
    hide Grouped, Covered;
    spans := [];
    NoSpans(es);
    for k := 0 to |es|
      invariant Grouped(es, k, spans)
    {
      var n := |spans|;
      if es[k].Keep? {
        GroupedKept(es, k, spans);
      } else {
        SpansIn(es, k, spans);
        if 0 < n && k - spans[n - 1].last <= 6 {
          GroupedWiden(es, k, spans);
          spans := spans[n - 1 := Span(spans[n - 1].first, k)];
        } else {
          GroupedMore(es, k, spans);
          spans := spans + [Span(k, k)];
        }
      }
    }
    NoneGrouped(es, spans);
  }

  lemma NoSpans(es: seq<Edit>)
    ensures Grouped(es, 0, [])
  {
  }

  lemma SpansIn(es: seq<Edit>, n: nat, spans: seq<Span>)
    requires Grouped(es, n, spans)
    ensures forall i :: 0 <= i < |spans| ==> spans[i].last < n
  {
  }

  lemma NoneGrouped(es: seq<Edit>, spans: seq<Span>)
    requires Grouped(es, |es|, spans)
    ensures spans == [] <==> AllKept(es)
  {
    if spans == [] {
      forall k | 0 <= k < |es| ensures es[k].Keep? { assert !Covered(spans, k); }
    } else {
      assert !es[spans[0].first].Keep?;
    }
  }

  lemma GroupedKept(es: seq<Edit>, k: nat, spans: seq<Span>)
    requires Grouped(es, k, spans) && k < |es| && es[k].Keep?
    ensures Grouped(es, k + 1, spans)
  {
    hide Covered, Close;
  }

  lemma CoveredLast(was: seq<Span>, last: Span, c: nat)
    requires Covered(was, c) || last.first <= c <= last.last
    ensures Covered(was + [last], c)
    ensures was != [] && was[|was| - 1].first == last.first && was[|was| - 1].last <= last.last ==> Covered(was[|was| - 1 := last], c)
  {
    if Covered(was, c) {
      var i :| 0 <= i < |was| && was[i].first <= c <= was[i].last;
      assert (was + [last])[i] == was[i];
      if was != [] { assert was[|was| - 1 := last][i].first == was[i].first || i == |was| - 1; }
      if was != [] && was[|was| - 1].first == last.first && was[|was| - 1].last <= last.last {
        assert was[|was| - 1 := last][i].first <= c <= was[|was| - 1 := last][i].last;
      }
    }
    if last.first <= c <= last.last {
      assert (was + [last])[|was|].first <= c <= (was + [last])[|was|].last;
      if was != [] { assert was[|was| - 1 := last][|was| - 1].first <= c <= was[|was| - 1 := last][|was| - 1].last; }
    }
  }

  lemma GroupedWiden(es: seq<Edit>, k: nat, was: seq<Span>)
    requires Grouped(es, k, was) && k < |es| && !es[k].Keep? && was != [] && k - was[|was| - 1].last <= 6
    ensures Grouped(es, k + 1, was[|was| - 1 := Span(was[|was| - 1].first, k)])
  {
    hide Covered, Close;
    CloseWiden(es, was[|was| - 1], k);
    var last := Span(was[|was| - 1].first, k);
    forall c | 0 <= c < k + 1 && !es[c].Keep? ensures Covered(was[|was| - 1 := last], c) { CoveredLast(was, last, c); }
  }

  lemma CloseWiden(es: seq<Edit>, s: Span, k: nat)
    requires Close(es, s) && s.last < k < |es| && k - s.last <= 6 && !es[k].Keep?
    ensures Close(es, Span(s.first, k))
  {
    forall p | s.first <= p < k && !es[p].Keep? ensures Followed(es, p, k) {
      if p < s.last {
        assert Followed(es, p, s.last);
        var q :| p < q <= p + 6 && q <= s.last && !es[q].Keep?;
        assert q <= k;
      }
    }
  }

  lemma CloseOne(es: seq<Edit>, k: nat)
    requires k < |es|
    ensures Close(es, Span(k, k))
  {
  }

  lemma GroupedMore(es: seq<Edit>, k: nat, was: seq<Span>)
    requires Grouped(es, k, was) && k < |es| && !es[k].Keep?
    requires was != [] ==> was[|was| - 1].last + 6 < k
    ensures Grouped(es, k + 1, was + [Span(k, k)])
  {
    hide Covered, Close;
    CloseOne(es, k);
    var spans := was + [Span(k, k)];
    forall i, j | 0 <= i < j < |spans| ensures spans[i].last + 6 < spans[j].first {
      assert spans[i] == was[i];
      if j == |was| && i < |was| - 1 { assert was[i].last + 6 < was[|was| - 1].first; }
    }
    forall c | 0 <= c < k + 1 && !es[c].Keep? ensures Covered(spans, c) { CoveredLast(was, Span(k, k), c); }
  }

  // ----- hunks

  /** The hunk is its part of the script, placed and counted exactly on both sides. */
  ghost predicate Exact(es: seq<Edit>, h: Hunk, c: Cut) {
    && c.from <= c.to <= |es| && h.body == es[c.from..c.to]
    && h.aAt == |OldOf(es[..c.from])| && h.aLen == |OldOf(h.body)|
    && h.bAt == |NewOf(es[..c.from])| && h.bLen == |NewOf(h.body)|
  }

  /** Between the places the script changes nothing. */
  ghost predicate KeptIn(es: seq<Edit>, lo: nat, hi: nat) {
    lo <= hi <= |es| && AllKept(es[lo..hi])
  }

  /** Where the last of some cuts ends. */
  function EndOf(cuts: seq<Cut>): nat {
    if cuts == [] then 0 else cuts[|cuts| - 1].to
  }

  /** The hunks in order, nothing changed before, between and, up to next, behind them. */
  ghost predicate HunksTo(es: seq<Edit>, hunks: seq<Hunk>, cuts: seq<Cut>, next: nat) {
    && |cuts| == |hunks|
    && (forall i :: 0 <= i < |hunks| ==> Exact(es, hunks[i], cuts[i]))
    && (forall i :: 0 <= i < |hunks| ==> KeptIn(es, EndOf(cuts[..i]), cuts[i].from))
    && next == EndOf(cuts)
  }

  /** The cut of a span: the changes with up to three kept lines on each side. */
  function CutOf(es: seq<Edit>, s: Span): Cut {
    Cut(if s.first < CONTEXT then 0 else s.first - CONTEXT, if |es| < s.last + CONTEXT + 1 then |es| else s.last + CONTEXT + 1)
  }

  lemma KeptBetween(es: seq<Edit>, spans: seq<Span>, i: nat)
    requires Grouped(es, |es|, spans) && i < |spans|
    ensures KeptIn(es, if i == 0 then 0 else CutOf(es, spans[i - 1]).to, CutOf(es, spans[i]).from)
  {
    hide Covered, Grouped;
    var lo, hi := if i == 0 then 0 else CutOf(es, spans[i - 1]).to, CutOf(es, spans[i]).from;
    CutFits(es, spans, i);
    if 0 < i { CutFits(es, spans, i - 1); }
    forall k | lo <= k < hi ensures es[k].Keep? {
      NotCovered(es, spans, i, k);
      CoveredOf(es, spans, k);
    }
  }

  lemma CoveredOf(es: seq<Edit>, spans: seq<Span>, k: nat)
    requires Grouped(es, |es|, spans) && k < |es|
    ensures es[k].Keep? || Covered(spans, k)
  {
  }

  /** A place in front of span i and behind the one before is in none. */
  lemma NotCovered(es: seq<Edit>, spans: seq<Span>, i: nat, k: nat)
    requires Grouped(es, |es|, spans) && i <= |spans|
    requires (i < |spans| ==> k < spans[i].first) && (0 < i ==> spans[i - 1].last < k)
    ensures !Covered(spans, k)
  {
    hide Grouped;
    forall j | 0 <= j < |spans| ensures !(spans[j].first <= k <= spans[j].last) {
      if i < j { SpansApart(es, spans, i, j); }
      if j + 1 < i { SpansApart(es, spans, j, i - 1); }
    }
  }

  lemma SpansApart(es: seq<Edit>, spans: seq<Span>, i: nat, j: nat)
    requires Grouped(es, |es|, spans) && i < j < |spans|
    ensures spans[i].first <= spans[i].last && spans[i].last + 6 < spans[j].first <= spans[j].last
  {
    hide Covered, Close;
  }

  lemma KeptBehind(es: seq<Edit>, spans: seq<Span>)
    requires Grouped(es, |es|, spans)
    ensures KeptIn(es, if spans == [] then 0 else CutOf(es, spans[|spans| - 1]).to, |es|)
  {
    hide Covered, Grouped;
    var lo := if spans == [] then 0 else CutOf(es, spans[|spans| - 1]).to;
    if spans != [] { CutFits(es, spans, |spans| - 1); }
    forall k | lo <= k < |es| ensures es[k].Keep? {
      NotCovered(es, spans, |spans|, k);
      CoveredOf(es, spans, k);
    }
  }

  lemma KeptCounts(es: seq<Edit>, lo: nat, hi: nat)
    requires KeptIn(es, lo, hi)
    ensures |OldOf(es[..hi])| == |OldOf(es[..lo])| + (hi - lo)
    ensures |NewOf(es[..hi])| == |NewOf(es[..lo])| + (hi - lo)
  {
    assert es[..hi] == es[..lo] + es[lo..hi];
    ScriptPlus(es[..lo], es[lo..hi]);
    KeptSame(es[lo..hi]);
  }

  lemma CutCounts(es: seq<Edit>, lo: nat, hi: nat)
    requires lo <= hi <= |es|
    ensures |OldOf(es[..hi])| == |OldOf(es[..lo])| + |OldOf(es[lo..hi])|
    ensures |NewOf(es[..hi])| == |NewOf(es[..lo])| + |NewOf(es[lo..hi])|
  {
    assert es[..hi] == es[..lo] + es[lo..hi];
    ScriptPlus(es[..lo], es[lo..hi]);
  }

  /** How many lines a part of the script has on each side. */
  method Lengths(es: seq<Edit>, from: nat, to: nat) returns (alen: nat, blen: nat)
    requires from <= to <= |es|
    ensures alen == |OldOf(es[from..to])| && blen == |NewOf(es[from..to])|
  {
    alen, blen := 0, 0;
    for k := from to to
      invariant alen == |OldOf(es[from..k])| && blen == |NewOf(es[from..k])|
    {
      assert es[from..k + 1] == es[from..k] + [es[k]];
      ScriptPlus(es[from..k], [es[k]]);
      assert [es[k]][1..] == [];
      if !es[k].Add? { alen := alen + 1; }
      if !es[k].Remove? { blen := blen + 1; }
    }
  }

  /** The second loop of UnifiedDiff: a hunk for each span. */
  method HunksOf(es: seq<Edit>, spans: seq<Span>) returns (hunks: seq<Hunk>, cuts: seq<Cut>)
    requires Grouped(es, |es|, spans)
    ensures HunksTo(es, hunks, cuts, EndOf(cuts))
    ensures KeptIn(es, EndOf(cuts), |es|)
    ensures |hunks| == |cuts| == |spans| && forall i :: 0 <= i < |cuts| ==> cuts[i] == CutOf(es, spans[i])
  {
    hide KeptIn, Exact, Grouped, HunksTo;
    NoHunks(es);
    hunks, cuts := [], [];
    var ai, bi, next: nat := 0, 0, 0;
    assert es[..0] == [];
    for i := 0 to |spans|
      invariant |hunks| == i && |cuts| == i && forall j :: 0 <= j < i ==> cuts[j] == CutOf(es, spans[j])
      invariant HunksTo(es, hunks, cuts, next) && next <= |es|
      invariant ai == |OldOf(es[..next])| && bi == |NewOf(es[..next])|
    {
      var s := spans[i];
      CutFits(es, spans, i);
      KeptBetween(es, spans, i);
      HunksEnd(es, hunks, cuts, next);
      var from := s.first - CONTEXT;
      if from < 0 { from := 0; }
      var to := s.last + CONTEXT + 1;
      if |es| < to { to := |es|; }
      KeptTo(es, next, from);
      KeptCounts(es, next, from);
      ghost var was := next;
      while next < from
        invariant was <= next <= from && ai == |OldOf(es[..was])| + (next - was) && bi == |NewOf(es[..was])| + (next - was)
      {
        ai, bi, next := ai + 1, bi + 1, next + 1;
      }
      var alen, blen := Lengths(es, from, to);
      var h := Hunk(ai, alen, bi, blen, es[from..to]);
      CutCounts(es, from, to);
      ExactIs(es, h, Cut(from, to));
      HunksMore(es, hunks, cuts, was, h, Cut(from, to));
      hunks, cuts := hunks + [h], cuts + [Cut(from, to)];
      ai, bi, next := ai + alen, bi + blen, to;
    }
    HunksEnd(es, hunks, cuts, next);
    KeptBehind(es, spans);
  }

  lemma NoHunks(es: seq<Edit>)
    ensures HunksTo(es, [], [], 0)
  {
  }

  lemma HunksEnd(es: seq<Edit>, hunks: seq<Hunk>, cuts: seq<Cut>, next: nat)
    requires HunksTo(es, hunks, cuts, next)
    ensures next == EndOf(cuts)
  {
  }

  lemma HunksMore(es: seq<Edit>, hunks: seq<Hunk>, cuts: seq<Cut>, next: nat, h: Hunk, c: Cut)
    requires HunksTo(es, hunks, cuts, next) && Exact(es, h, c) && KeptIn(es, next, c.from)
    ensures HunksTo(es, hunks + [h], cuts + [c], c.to)
  {
    hide Exact, KeptIn;
    var hs, cs := hunks + [h], cuts + [c];
    forall i | 0 <= i < |hs| ensures Exact(es, hs[i], cs[i]) && KeptIn(es, EndOf(cs[..i]), cs[i].from) {
      assert cs[..i] == cuts[..i];
      if i < |hunks| {
        assert hs[i] == hunks[i] && cs[i] == cuts[i];
      } else {
        assert cuts[..i] == cuts;
      }
    }
  }

  lemma CutFits(es: seq<Edit>, spans: seq<Span>, i: nat)
    requires Grouped(es, |es|, spans) && i < |spans|
    ensures CutOf(es, spans[i]).from <= spans[i].first <= spans[i].last < CutOf(es, spans[i]).to <= |es|
    ensures 0 < i ==> CutOf(es, spans[i - 1]).to <= CutOf(es, spans[i]).from
  {
    hide Covered, Close;
    assert 0 < i ==> spans[i - 1].last + 6 < spans[i].first;
  }

  lemma KeptTo(es: seq<Edit>, lo: nat, hi: nat)
    requires KeptIn(es, lo, hi)
    ensures lo <= hi <= |es|
  {
  }

  lemma ExactIs(es: seq<Edit>, h: Hunk, c: Cut)
    requires c.from <= c.to <= |es| && h.body == es[c.from..c.to]
    requires h.aAt == |OldOf(es[..c.from])| && h.aLen == |OldOf(es[c.from..c.to])|
    requires h.bAt == |NewOf(es[..c.from])| && h.bLen == |NewOf(es[c.from..c.to])|
    ensures Exact(es, h, c)
  {
  }

  // ----- the patch

  datatype Patched = Fails | Gives(lines: Lines)

  /** Applying hunks to the lines from a place on: lines up to a hunk stand, the hunk's lines
      must be there and are replaced; both its places and both its counts must be right. */
  ghost function Patch(a: Lines, at: nat, bAt: nat, hunks: seq<Hunk>): Patched
    decreases |hunks|
  {
    if hunks == [] then if at <= |a| then Gives(a[at..]) else Fails
    else
      var h := hunks[0];
      if !(at <= h.aAt <= h.aAt + h.aLen <= |a|) || h.bAt != bAt + (h.aAt - at)
         || a[h.aAt..h.aAt + h.aLen] != OldOf(h.body) || h.bLen != |NewOf(h.body)| then Fails
      else
        match Patch(a, h.aAt + h.aLen, h.bAt + h.bLen, hunks[1..])
        case Fails => Fails
        case Gives(ls) => Gives(a[at..h.aAt] + NewOf(h.body) + ls)
  }

  lemma HunkAt(es: seq<Edit>, hunks: seq<Hunk>, cuts: seq<Cut>, end: nat, i: nat)
    requires HunksTo(es, hunks, cuts, end) && i <= |hunks|
    ensures |cuts| == |hunks| && (i == |hunks| ==> EndOf(cuts[..i]) == end)
    ensures i < |hunks| ==> Exact(es, hunks[i], cuts[i]) && KeptIn(es, EndOf(cuts[..i]), cuts[i].from) && EndOf(cuts[..i + 1]) == cuts[i].to
    ensures i < |hunks| ==> hunks[i..] == [hunks[i]] + hunks[i + 1..]
    ensures i == |hunks| ==> hunks[i..] == []
  {
    if i == |hunks| { assert cuts[..i] == cuts; }
  }

  /** The hunks from one on turn what the script still reads into what it still writes. */
  lemma {:induction false} PatchFrom(es: seq<Edit>, hunks: seq<Hunk>, cuts: seq<Cut>, end: nat, i: nat)
    requires HunksTo(es, hunks, cuts, end) && KeptIn(es, end, |es|) && i <= |hunks| == |cuts|
    ensures var at := EndOf(cuts[..i]);
            at <= |es| && Patch(OldOf(es), |OldOf(es[..at])|, |NewOf(es[..at])|, hunks[i..]) == Gives(NewOf(es[at..]))
    decreases |hunks| - i
  {
    hide Patch, HunksTo, KeptIn, Exact, EndOf, OldOf, NewOf;
    HunkAt(es, hunks, cuts, end, i);
    var at := EndOf(cuts[..i]);
    if i == |hunks| {
      KeptTo(es, at, |es|);
      PatchNone(es, at);
    } else {
      KeptTo(es, at, cuts[i].from);
      PatchFrom(es, hunks, cuts, end, i + 1);
      PatchOne(es, hunks[i], cuts[i], at, hunks[i + 1..]);
    }
  }

  lemma PatchNone(es: seq<Edit>, at: nat)
    requires KeptIn(es, at, |es|)
    ensures Patch(OldOf(es), |OldOf(es[..at])|, |NewOf(es[..at])|, []) == Gives(NewOf(es[at..]))
  {
    hide OldOf, NewOf;
    assert es == es[..at] + es[at..];
    ScriptPlus(es[..at], es[at..]);
    KeptSame(es[at..]);
    assert OldOf(es)[|OldOf(es[..at])|..] == OldOf(es[at..]);
  }

  lemma PatchOne(es: seq<Edit>, h: Hunk, c: Cut, at: nat, rest: seq<Hunk>)
    requires Exact(es, h, c) && KeptIn(es, at, c.from)
    requires Patch(OldOf(es), |OldOf(es[..c.to])|, |NewOf(es[..c.to])|, rest) == Gives(NewOf(es[c.to..]))
    ensures Patch(OldOf(es), |OldOf(es[..at])|, |NewOf(es[..at])|, [h] + rest) == Gives(NewOf(es[at..]))
  {
    hide OldOf, NewOf, AllKept;
    var gap := es[at..c.from];
    OldParts(es, at, c.from, c.to);
    NewParts(es, at, c.from, c.to);
    KeptSame(gap);
    assert ([h] + rest)[1..] == rest;
  }

  lemma MiddleOf(a: Lines, b: Lines, c: Lines, d: Lines)
    ensures var all := a + b + c + d;
            all[|a|..|a| + |b|] == b && all[|a| + |b|..|a| + |b| + |c|] == c
  {
  }

  lemma OldParts(es: seq<Edit>, at: nat, from: nat, to: nat)
    requires at <= from <= to <= |es|
    ensures |OldOf(es[..from])| == |OldOf(es[..at])| + |OldOf(es[at..from])|
    ensures |OldOf(es[..to])| == |OldOf(es[..from])| + |OldOf(es[from..to])| <= |OldOf(es)|
    ensures OldOf(es)[|OldOf(es[..at])|..|OldOf(es[..from])|] == OldOf(es[at..from])
    ensures OldOf(es)[|OldOf(es[..from])|..|OldOf(es[..to])|] == OldOf(es[from..to])
  {
    hide OldOf, NewOf;
    assert es[..from] == es[..at] + es[at..from];
    assert es[..to] == es[..from] + es[from..to];
    assert es == es[..to] + es[to..];
    ScriptPlus(es[..at], es[at..from]);
    ScriptPlus(es[..from], es[from..to]);
    ScriptPlus(es[..to], es[to..]);
    MiddleOf(OldOf(es[..at]), OldOf(es[at..from]), OldOf(es[from..to]), OldOf(es[to..]));
  }

  lemma NewParts(es: seq<Edit>, at: nat, from: nat, to: nat)
    requires at <= from <= to <= |es|
    ensures |NewOf(es[..from])| == |NewOf(es[..at])| + |NewOf(es[at..from])|
    ensures |NewOf(es[..to])| == |NewOf(es[..from])| + |NewOf(es[from..to])|
    ensures NewOf(es[at..]) == NewOf(es[at..from]) + NewOf(es[from..to]) + NewOf(es[to..])
  {
    assert es[..from] == es[..at] + es[at..from];
    assert es[..to] == es[..from] + es[from..to];
    assert es[at..] == (es[at..from] + es[from..to]) + es[to..];
    ScriptPlus(es[..at], es[at..from]);
    ScriptPlus(es[..from], es[from..to]);
    ScriptPlus(es[at..from] + es[from..to], es[to..]);
    ScriptPlus(es[at..from], es[from..to]);
  }

  /** Ordered, disjoint, a change in each, every change in one, three kept lines around,
      and no two neighbouring changes of one more than six places apart. */
  ghost predicate WellCut(es: seq<Edit>, cuts: seq<Cut>) {
    && (forall i :: 0 <= i < |cuts| ==> cuts[i].from < cuts[i].to <= |es|)
    && (forall i, j :: 0 <= i < j < |cuts| ==> cuts[i].to <= cuts[j].from)
    && (forall k :: 0 <= k < |es| && !es[k].Keep? ==> InCut(cuts, k))
    && (forall i :: 0 <= i < |cuts| ==> Tight(es, cuts[i]) && Dense(es, cuts[i]))
  }

  ghost predicate InCut(cuts: seq<Cut>, k: nat) {
    exists i :: 0 <= i < |cuts| && cuts[i].from <= k < cuts[i].to
  }

  /** A hunk has three kept lines in front of its first change and three behind its last, or as
      many as there are. */
  ghost predicate Tight(es: seq<Edit>, c: Cut) {
    c.from <= c.to <= |es| && (exists k :: LeadsIn(es, c, k)) && (exists k :: LeadsOut(es, c, k))
  }

  ghost predicate LeadsIn(es: seq<Edit>, c: Cut, k: nat) {
    && c.from <= k < c.to <= |es| && !es[k].Keep? && (forall j :: c.from <= j < k ==> es[j].Keep?)
    && (k == c.from + 3 || (c.from == 0 && k < 3))
  }

  ghost predicate LeadsOut(es: seq<Edit>, c: Cut, k: nat) {
    && c.from <= k < c.to <= |es| && !es[k].Keep? && (forall j :: k < j < c.to ==> es[j].Keep?)
    && (c.to == k + 4 || (c.to == |es| && c.to < k + 4))
  }

  /** Behind each change of a hunk but the last there is another within six places. */
  ghost predicate Dense(es: seq<Edit>, c: Cut) {
    c.to <= |es| && forall p, q :: c.from <= p < q < c.to && !es[p].Keep? && !es[q].Keep? ==> Followed(es, p, q)
  }

  /** The changes of a hunk are those of its span. */
  lemma ChangeInSpan(es: seq<Edit>, spans: seq<Span>, i: nat, k: nat)
    requires Grouped(es, |es|, spans) && i < |spans| && CutOf(es, spans[i]).from <= k < CutOf(es, spans[i]).to && !es[k].Keep?
    ensures spans[i].first <= k <= spans[i].last
  {
    hide Grouped, CutOf;
    CutFits(es, spans, i);
    CoveredOf(es, spans, k);
    var j :| 0 <= j < |spans| && spans[j].first <= k <= spans[j].last;
    CutFits(es, spans, j);
    if i < j { CutsApart(es, spans, i, j); }
    if j < i { CutsApart(es, spans, j, i); }
  }

  lemma CutDense(es: seq<Edit>, spans: seq<Span>, i: nat)
    requires Grouped(es, |es|, spans) && i < |spans|
    ensures Dense(es, CutOf(es, spans[i]))
  {
    hide Covered, CutOf;
    CutFits(es, spans, i);
    var c := CutOf(es, spans[i]);
    assert Close(es, spans[i]);
    forall p, q | c.from <= p < q < c.to && !es[p].Keep? && !es[q].Keep? ensures Followed(es, p, q) {
      ChangeInSpan(es, spans, i, p);
      ChangeInSpan(es, spans, i, q);
      assert Followed(es, p, spans[i].last);
      var r :| p < r <= p + 6 && r <= spans[i].last && !es[r].Keep?;
      assert r <= q || q <= p + 6;
    }
  }

  lemma CutTight(es: seq<Edit>, spans: seq<Span>, i: nat)
    requires Grouped(es, |es|, spans) && i < |spans|
    ensures Tight(es, CutOf(es, spans[i]))
  {
    hide Grouped;
    CutFits(es, spans, i);
    SpanEnds(es, spans, i);
    var s, c := spans[i], CutOf(es, spans[i]);
    forall j | c.from <= j < c.to && (j < s.first || s.last < j) ensures es[j].Keep? {
      if !es[j].Keep? { ChangeInSpan(es, spans, i, j); }
    }
    assert LeadsIn(es, c, s.first);
    assert LeadsOut(es, c, s.last);
  }

  lemma SpanEnds(es: seq<Edit>, spans: seq<Span>, i: nat)
    requires Grouped(es, |es|, spans) && i < |spans|
    ensures spans[i].first <= spans[i].last < |es| && !es[spans[i].first].Keep? && !es[spans[i].last].Keep?
  {
    hide Covered, Close;
  }

  lemma ChangeInCut(es: seq<Edit>, spans: seq<Span>, cuts: seq<Cut>, k: nat)
    requires Grouped(es, |es|, spans) && |cuts| == |spans| && k < |es| && !es[k].Keep?
    requires forall i :: 0 <= i < |cuts| ==> cuts[i] == CutOf(es, spans[i])
    ensures InCut(cuts, k)
  {
    hide Grouped;
    CoveredOf(es, spans, k);
    var i :| 0 <= i < |spans| && spans[i].first <= k <= spans[i].last;
    CutFits(es, spans, i);
    assert cuts[i].from <= k < cuts[i].to;
  }

  lemma CutsApart(es: seq<Edit>, spans: seq<Span>, i: nat, j: nat)
    requires Grouped(es, |es|, spans) && i < j < |spans|
    ensures CutOf(es, spans[i]).to <= CutOf(es, spans[j]).from
  {
    hide Covered, Close;
    assert spans[i].last + 6 < spans[j].first;
  }

  lemma CutsWell(es: seq<Edit>, spans: seq<Span>, cuts: seq<Cut>)
    requires Grouped(es, |es|, spans) && |cuts| == |spans|
    requires forall i :: 0 <= i < |cuts| ==> cuts[i] == CutOf(es, spans[i])
    ensures WellCut(es, cuts)
  {
    hide Grouped, Tight, Dense, InCut, CutOf;
    forall i | 0 <= i < |cuts| ensures cuts[i].from < cuts[i].to <= |es| && Tight(es, cuts[i]) && Dense(es, cuts[i]) {
      CutFits(es, spans, i);
      CutDense(es, spans, i);
      CutTight(es, spans, i);
    }
    forall i, j | 0 <= i < j < |cuts| ensures cuts[i].to <= cuts[j].from { CutsApart(es, spans, i, j); }
    forall k | 0 <= k < |es| && !es[k].Keep? ensures InCut(cuts, k) { ChangeInCut(es, spans, cuts, k); }
  }

  lemma ScriptWhole(a: Lines, b: Lines, es: seq<Edit>)
    requires Script([], es, a[0..|a|], b[0..|b|])
    requires a[0..|a|] == b[0..|b|] ==> Quiet([], es)
    ensures OldOf(es) == a && NewOf(es) == b
    ensures AllKept(es) <==> a == b
  {
    assert es[0..] == es && a[0..|a|] == a && b[0..|b|] == b;
    if AllKept(es) { KeptSame(es); }
  }

  lemma HunksExact(es: seq<Edit>, hunks: seq<Hunk>, cuts: seq<Cut>, end: nat)
    requires HunksTo(es, hunks, cuts, end)
    ensures |cuts| == |hunks| && forall i :: 0 <= i < |hunks| ==> Exact(es, hunks[i], cuts[i])
  {
  }

  lemma PatchWhole(es: seq<Edit>, hunks: seq<Hunk>, cuts: seq<Cut>)
    requires HunksTo(es, hunks, cuts, EndOf(cuts))
    requires KeptIn(es, EndOf(cuts), |es|)
    ensures Patch(OldOf(es), 0, 0, hunks) == Gives(NewOf(es))
  {
    hide Patch, KeptIn, HunksTo;
    HunkAt(es, hunks, cuts, EndOf(cuts), 0);
    PatchFrom(es, hunks, cuts, EndOf(cuts), 0);
    assert cuts[..0] == [];
    assert hunks[0..] == hunks && es[0..] == es && es[..0] == [];
  }
}
