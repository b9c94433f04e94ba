/**
 The patience diff of two line lists (fmtPatience, go/format.go:1866-1918): a line that
 stands once on each side pins the two, and what lies between pins is compared again.
 */
module Patience {
  import opened Chain

  type Lines = seq<string>

  /** An edit keeps a line of both sides, removes one of the left or adds one of the right. */
  datatype Edit = Keep(text: string) | Remove(text: string) | Add(text: string)

  /** The lines an edit script reads. */
  ghost function OldOf(es: seq<Edit>): Lines {
    if es == [] then [] else (if es[0].Add? then [] else [es[0].text]) + OldOf(es[1..])
  }

  /** The lines it writes. */
  ghost function NewOf(es: seq<Edit>): Lines {
    if es == [] then [] else (if es[0].Remove? then [] else [es[0].text]) + NewOf(es[1..])
  }

  ghost predicate AllKept(es: seq<Edit>) {
    forall i :: 0 <= i < |es| ==> es[i].Keep?
  }

  lemma {:induction false} OldPlus(a: seq<Edit>, b: seq<Edit>)
    ensures OldOf(a + b) == OldOf(a) + OldOf(b)
  {
    if a == [] {
      assert a + b == b;
    } else {
      assert (a + b)[0] == a[0] && (a + b)[1..] == a[1..] + b;
      OldPlus(a[1..], b);
    }
  }

  lemma {:induction false} NewPlus(a: seq<Edit>, b: seq<Edit>)
    ensures NewOf(a + b) == NewOf(a) + NewOf(b)
  {
    if a == [] {
      assert a + b == b;
    } else {
      assert (a + b)[0] == a[0] && (a + b)[1..] == a[1..] + b;
      NewPlus(a[1..], b);
    }
  }

  lemma ScriptPlus(a: seq<Edit>, b: seq<Edit>)
    ensures OldOf(a + b) == OldOf(a) + OldOf(b)
    ensures NewOf(a + b) == NewOf(a) + NewOf(b)
  {
    OldPlus(a, b);
    NewPlus(a, b);
  }

  /** A script of kept lines alone reads what it writes. */
  lemma {:induction false} KeptSame(es: seq<Edit>)
    requires AllKept(es)
    ensures OldOf(es) == NewOf(es) && |OldOf(es)| == |es|
  {
    if es != [] { KeptSame(es[1..]); }
  }

  // ----- a script grown at its end

  /** out is out0 and a script from a[x0..x] to b[y0..y]; where those are alike it changes nothing. */
  ghost predicate Script(out0: seq<Edit>, out: seq<Edit>, was: Lines, will: Lines) {
    out0 <= out && OldOf(out[|out0|..]) == was && NewOf(out[|out0|..]) == will
  }

  ghost predicate Quiet(out0: seq<Edit>, out: seq<Edit>) {
    out0 <= out && AllKept(out[|out0|..])
  }

  lemma ScriptThen(o0: seq<Edit>, o1: seq<Edit>, o2: seq<Edit>, u1: Lines, v1: Lines, u2: Lines, v2: Lines)
    requires Script(o0, o1, u1, v1) && Script(o1, o2, u2, v2)
    ensures Script(o0, o2, u1 + u2, v1 + v2)
    ensures Quiet(o0, o1) && Quiet(o1, o2) ==> Quiet(o0, o2)
  {
    assert o2[|o0|..] == o1[|o0|..] + o2[|o1|..];
    ScriptPlus(o1[|o0|..], o2[|o1|..]);
  }

  lemma ScriptNone(out: seq<Edit>)
    ensures Script(out, out, [], []) && Quiet(out, out)
  {
    assert out[|out|..] == [];
  }

  lemma ScriptOne(out: seq<Edit>, e: Edit)
    ensures Script(out, out + [e], if e.Add? then [] else [e.text], if e.Remove? then [] else [e.text])
    ensures e.Keep? ==> Quiet(out, out + [e])
  {
    assert (out + [e])[|out|..] == [e];
    assert [e][1..] == [];
  }

  lemma Slice(a: Lines, i: nat, j: nat, k: nat)
    requires i <= j <= k <= |a|
    ensures a[i..j] + a[j..k] == a[i..k]
  {
  }

  lemma Longer(a: Lines, i: nat, j: nat)
    requires i <= j < |a|
    ensures a[i..j + 1] == a[i..j] + [a[j]]
  {
  }

  // ----- how much is kept

  /** How many lines a script keeps. */
  ghost function KeepCount(es: seq<Edit>): nat {
    if es == [] then 0 else (if es[0].Keep? then 1 else 0) + KeepCount(es[1..])
  }

  lemma {:induction false} KeptPlus(a: seq<Edit>, b: seq<Edit>)
    ensures KeepCount(a + b) == KeepCount(a) + KeepCount(b)
  {
    if a == [] {
      assert a + b == b;
    } else {
      assert (a + b)[1..] == a[1..] + b;
      KeptPlus(a[1..], b);
    }
  }

  lemma {:induction false} KeptAll(es: seq<Edit>)
    requires AllKept(es)
    ensures KeepCount(es) == |es|
  {
    if es != [] { KeptAll(es[1..]); }
  }

  /** What is written behind out0 keeps at least n lines. */
  ghost predicate Pins(out0: seq<Edit>, out: seq<Edit>, n: int) {
    out0 <= out && n <= KeepCount(out[|out0|..])
  }

  lemma PinsThen(o0: seq<Edit>, o1: seq<Edit>, o2: seq<Edit>, m: int, n: int)
    requires Pins(o0, o1, m) && Pins(o1, o2, n)
    ensures Pins(o0, o2, m + n)
  {
    assert o2[|o0|..] == o1[|o0|..] + o2[|o1|..];
    KeptPlus(o1[|o0|..], o2[|o1|..]);
  }

  lemma QuietPins(o0: seq<Edit>, o1: seq<Edit>, u: Lines, v: Lines)
    requires Script(o0, o1, u, v) && Quiet(o0, o1)
    ensures Pins(o0, o1, |u|) && u == v
  {
    KeptSame(o1[|o0|..]);
    KeptAll(o1[|o0|..]);
  }

  lemma PinsNone(o0: seq<Edit>, o1: seq<Edit>, u: Lines, v: Lines)
    requires Script(o0, o1, u, v)
    ensures Pins(o0, o1, 0)
  {
  }

  // ----- blocks of changes

  /** es[i..j] is all changes, and no change stands next to it. */
  ghost predicate Block(es: seq<Edit>, i: nat, j: nat) {
    && i < j <= |es| && (forall k :: i <= k < j ==> !es[k].Keep?)
    && (i == 0 || es[i - 1].Keep?) && (j == |es| || es[j].Keep?)
  }

  ghost predicate Once(s: Lines, line: string) {
    multiset(s)[line] == 1
  }

  /** Two runs of lines the diff makes nothing more of: none stands once in both, and where both
      have lines they differ in their first and in their last. */
  ghost predicate Unlike(was: Lines, will: Lines) {
    && (forall line :: !(Once(was, line) && Once(will, line)))
    && (was != [] && will != [] ==> was[0] != will[0] && was[|was| - 1] != will[|will| - 1])
  }

  /** What is removed stands in front of what is added. */
  ghost predicate OutThenIn(es: seq<Edit>) {
    forall i, j :: 0 <= i < j < |es| && es[j].Remove? ==> es[i].Remove?
  }

  /** Every block takes out and puts in lines that are unlike. */
  ghost predicate Spent(es: seq<Edit>) {
    forall i: nat, j: nat :: Block(es, i, j) ==> OutThenIn(es[i..j]) && Unlike(OldOf(es[i..j]), NewOf(es[i..j]))
  }

  lemma BlockLeft(u: seq<Edit>, v: seq<Edit>, i: nat, j: nat)
    requires Block(u + v, i, j) && j <= |u| && (j == |u| ==> v == [] || v[0].Keep?)
    ensures Block(u, i, j) && (u + v)[i..j] == u[i..j]
  {
    assert forall k :: 0 <= k < |u| ==> (u + v)[k] == u[k];
    assert v != [] ==> (u + v)[|u|] == v[0];
  }

  lemma BlockRight(u: seq<Edit>, v: seq<Edit>, i: nat, j: nat)
    requires Block(u + v, i, j) && |u| <= i && (i == |u| ==> u == [] || u[|u| - 1].Keep?)
    ensures Block(v, i - |u|, j - |u|) && (u + v)[i..j] == v[i - |u|..j - |u|]
  {
    assert forall k :: 0 <= k < |v| ==> (u + v)[|u| + k] == v[k];
  }

  lemma SpentPlus(u: seq<Edit>, v: seq<Edit>)
    requires Spent(u) && Spent(v)
    requires u == [] || v == [] || u[|u| - 1].Keep? || v[0].Keep?
    ensures Spent(u + v)
  {
    hide OutThenIn, Unlike;
    var es := u + v;
    forall i: nat, j: nat | Block(es, i, j) ensures OutThenIn(es[i..j]) && Unlike(OldOf(es[i..j]), NewOf(es[i..j])) {
      if v == [] {
        assert es == u;
      } else if u == [] {
        assert es == v;
      } else if j <= |u| {
        assert es[|u|] == v[0] && es[|u| - 1] == u[|u| - 1];
        BlockLeft(u, v, i, j);
      } else {
        assert es[|u|] == v[0] && es[|u| - 1] == u[|u| - 1];
        BlockRight(u, v, i, j);
      }
    }
  }

  ghost predicate SpentTo(out0: seq<Edit>, out: seq<Edit>) {
    out0 <= out && Spent(out[|out0|..])
  }

  /** Nothing is written behind out0, or a kept line at the end or at the start. */
  ghost predicate EndsKept(out0: seq<Edit>, out: seq<Edit>) {
    out0 <= out && (out == out0 || out[|out| - 1].Keep?)
  }

  ghost predicate StartsKept(out0: seq<Edit>, out: seq<Edit>) {
    out0 <= out && (out == out0 || out[|out0|].Keep?)
  }

  lemma SpentThen(o0: seq<Edit>, o1: seq<Edit>, o2: seq<Edit>)
    requires SpentTo(o0, o1) && SpentTo(o1, o2) && (EndsKept(o0, o1) || StartsKept(o1, o2))
    ensures SpentTo(o0, o2)
  {
    hide Spent;
    assert o2[|o0|..] == o1[|o0|..] + o2[|o1|..];
    SpentPlus(o1[|o0|..], o2[|o1|..]);
  }

  lemma SpentQuiet(o0: seq<Edit>, o1: seq<Edit>)
    requires Quiet(o0, o1)
    ensures SpentTo(o0, o1) && EndsKept(o0, o1) && StartsKept(o0, o1)
  {
    var es := o1[|o0|..];
    forall i: nat, j: nat | i < j <= |es| ensures !Block(es, i, j) { assert es[i].Keep?; }
    if o1 != o0 { assert es[0] == o1[|o0|] && es[|es| - 1] == o1[|o1| - 1]; }
  }

  lemma SpentKeep(o0: seq<Edit>, o1: seq<Edit>, e: Edit)
    requires SpentTo(o0, o1) && e.Keep?
    ensures SpentTo(o0, o1 + [e]) && EndsKept(o0, o1 + [e])
  {
    hide Spent;
    ScriptOne(o1, e);
    SpentQuiet(o1, o1 + [e]);
    SpentThen(o0, o1, o1 + [e]);
  }

  /** One block alone is spent where what it takes out and puts in is unlike. */
  lemma SpentBlock(o0: seq<Edit>, o1: seq<Edit>, u: Lines, v: Lines)
    requires Script(o0, o1, u, v) && OutThenIn(o1[|o0|..]) && Unlike(u, v) && forall k :: |o0| <= k < |o1| ==> !o1[k].Keep?
    ensures SpentTo(o0, o1)
  {
    hide OutThenIn, Unlike;
    var es := o1[|o0|..];
    assert forall k :: 0 <= k < |es| ==> !es[k].Keep?;
    forall i: nat, j: nat | Block(es, i, j) ensures OutThenIn(es[i..j]) && Unlike(OldOf(es[i..j]), NewOf(es[i..j])) {
      assert es[i..j] == es;
    }
  }

  // ----- anchors

  ghost function CountIn(s: Lines, lo: nat, hi: nat, line: string): nat
    requires lo <= hi <= |s|
  {
    multiset(s[lo..hi])[line]
  }

  lemma CountNext(s: Lines, lo: nat, hi: nat)
    requires lo <= hi < |s|
    ensures forall line :: CountIn(s, lo, hi + 1, line) == CountIn(s, lo, hi, line) + if line == s[hi] then 1 else 0
  {
    assert s[lo..hi + 1] == s[lo..hi] + [s[hi]];
  }

  lemma CountNone(s: Lines, lo: nat)
    requires lo <= |s|
    ensures forall line :: CountIn(s, lo, lo, line) == 0
  {
    assert s[lo..lo] == [];
  }

  lemma TwiceCounted(s: Lines, lo: nat, hi: nat, p: nat, q: nat)
    requires lo <= p < q < hi <= |s| && s[p] == s[q]
    ensures 2 <= CountIn(s, lo, hi, s[p])
  {
    assert s[lo..hi] == s[lo..p] + [s[p]] + s[p + 1..q] + [s[q]] + s[q + 1..hi];
  }

  /** A line counted once stands at one place. */
  lemma OncePlace(s: Lines, lo: nat, hi: nat, i: nat, j: nat)
    requires lo <= i < hi <= |s| && lo <= j < hi && s[i] == s[j] && CountIn(s, lo, hi, s[i]) == 1
    ensures i == j
  {
    if i < j {
      TwiceCounted(s, lo, hi, i, j);
    } else if j < i {
      TwiceCounted(s, lo, hi, j, i);
    }
  }

  ghost predicate Counts(s: Lines, lo: nat, hi: nat, count: map<string, nat>)
    requires lo <= hi <= |s|
  {
    forall line :: (line in count ==> count[line] == CountIn(s, lo, hi, line)) && (line !in count ==> CountIn(s, lo, hi, line) == 0)
  }

  ghost predicate Unique(s: Lines, lo: nat, hi: nat, line: string)
    requires lo <= hi <= |s|
  {
    CountIn(s, lo, hi, line) == 1
  }

  /** A line that stands once on each side, at x and at y. */
  ghost predicate IsAnchor(a: Lines, x0: nat, x1: nat, b: Lines, y0: nat, y1: nat, p: Anchor)
    requires x0 <= x1 <= |a| && y0 <= y1 <= |b|
  {
    && x0 <= p.x < x1 && y0 <= p.y < y1 && a[p.x] == b[p.y]
    && Unique(a, x0, x1, a[p.x]) && Unique(b, y0, y1, a[p.x])
  }

  /** Anchors that ascend on both sides. */
  ghost predicate AnchorChain(a: Lines, x0: nat, x1: nat, b: Lines, y0: nat, y1: nat, c: seq<Anchor>)
    requires x0 <= x1 <= |a| && y0 <= y1 <= |b|
  {
    Ascending(c) && forall i :: 0 <= i < |c| ==> IsAnchor(a, x0, x1, b, y0, y1, c[i])
  }

  /** What is written behind out0 keeps as many lines as any chain of anchors has. */
  ghost predicate PinsChains(a: Lines, x0: nat, x1: nat, b: Lines, y0: nat, y1: nat, out0: seq<Edit>, out: seq<Edit>)
    requires x0 <= x1 <= |a| && y0 <= y1 <= |b|
  {
    forall c :: AnchorChain(a, x0, x1, b, y0, y1, c) ==> Pins(out0, out, |c|)
  }

  /** Where the sides are alike from x and y on an anchor stands as far behind the one as behind the
      other. */
  lemma OnDiagonal(a: Lines, x0: nat, x1: nat, b: Lines, y0: nat, y1: nat, x: nat, y: nat, n: nat, p: Anchor)
    requires x0 <= x <= x + n <= x1 <= |a| && y0 <= y <= y + n <= y1 <= |b| && a[x..x + n] == b[y..y + n]
    requires IsAnchor(a, x0, x1, b, y0, y1, p)
    ensures x <= p.x < x + n <==> y <= p.y < y + n
  {
    hide CountIn;
    if x <= p.x < x + n {
      assert a[x..x + n][p.x - x] == b[y..y + n][p.x - x];
      OncePlace(b, y0, y1, p.y, y + (p.x - x));
    }
    if y <= p.y < y + n {
      assert a[x..x + n][p.y - y] == b[y..y + n][p.y - y];
      OncePlace(a, x0, x1, p.x, x + (p.y - y));
    }
  }

  lemma CountWithin(s: Lines, lo: nat, hi: nat, l: nat, h: nat, p: nat)
    requires lo <= l <= p < h <= hi <= |s| && CountIn(s, lo, hi, s[p]) == 1
    ensures CountIn(s, l, h, s[p]) == 1
  {
    assert s[lo..hi] == s[lo..l] + s[l..h] + s[h..hi];
    assert s[l..h][p - l] == s[p];
    assert s[p] in multiset(s[l..h]);
  }

  /** Between common ends an anchor is still one. */
  lemma AnchorWithin(a: Lines, x0: nat, x1: nat, b: Lines, y0: nat, y1: nat, x: nat, xe: nat, y: nat, ye: nat, p: Anchor)
    requires x0 <= x <= xe <= x1 <= |a| && y0 <= y <= ye <= y1 <= |b|
    requires IsAnchor(a, x0, x1, b, y0, y1, p) && x <= p.x < xe && y <= p.y < ye
    ensures IsAnchor(a, x, xe, b, y, ye, p)
  {
    hide CountIn;
    CountWithin(a, x0, x1, x, xe, p.x);
    CountWithin(b, y0, y1, y, ye, p.y);
  }

  /** How many anchors of a chain stand in front of x. */
  ghost function Ahead(c: seq<Anchor>, x: int): (i: nat)
    requires Ascending(c)
    ensures i <= |c| && (forall k :: 0 <= k < i ==> c[k].x < x) && (forall k :: i <= k < |c| ==> x <= c[k].x)
  {
    if c == [] || c[|c| - 1].x < x then |c| else Ahead(c[..|c| - 1], x)
  }

  /** Between lo and hi no more anchors ascend than there are lines. */
  lemma {:induction false} ChainFits(c: seq<Anchor>, lo: int, hi: int)
    requires Ascending(c) && lo <= hi && forall k :: 0 <= k < |c| ==> lo <= c[k].x < hi
    ensures |c| <= hi - lo
  {
    if c != [] { ChainFits(c[..|c| - 1], lo, c[|c| - 1].x); }
  }

  lemma AheadOrder(c: seq<Anchor>, x: int, y: int)
    requires Ascending(c) && x <= y
    ensures Ahead(c, x) <= Ahead(c, y)
  {
    var i, j := Ahead(c, x), Ahead(c, y);
    assert i < |c| ==> x <= c[i].x;
    assert j < |c| ==> y <= c[j].x;
  }

  /** Of a chain, what stands between the common ends is a chain of the lines between. */
  lemma ChainBetween(a: Lines, x0: nat, x1: nat, b: Lines, y0: nat, y1: nat, x: nat, y: nat, tail: nat, c: seq<Anchor>, i: nat, j: nat)
    requires x0 <= x <= x + tail <= x1 <= |a| && y0 <= y <= y + tail <= y1 <= |b| && x - x0 == y - y0
    requires a[x0..x] == b[y0..y] && a[x1 - tail..x1] == b[y1 - tail..y1]
    requires AnchorChain(a, x0, x1, b, y0, y1, c) && i <= j <= |c|
    requires forall k :: i <= k < j ==> x <= c[k].x < x1 - tail
    ensures AnchorChain(a, x, x1 - tail, b, y, y1 - tail, c[i..j])
  {
    hide IsAnchor;
    var xe, ye := x1 - tail, y1 - tail;
    AnchorPlaces(a, x0, x1, b, y0, y1, c);
    forall k | i <= k < j ensures IsAnchor(a, x, xe, b, y, ye, c[k]) {
      OnDiagonal(a, x0, x1, b, y0, y1, x0, y0, x - x0, c[k]);
      OnDiagonal(a, x0, x1, b, y0, y1, xe, ye, tail, c[k]);
      AnchorWithin(a, x0, x1, b, y0, y1, x, xe, y, ye, c[k]);
    }
  }

  /** So a chain is no longer than what leads in, a chain between, and what leads out. */
  lemma ChainSplit(a: Lines, x0: nat, x1: nat, b: Lines, y0: nat, y1: nat, x: nat, y: nat, tail: nat, c: seq<Anchor>)
    returns (i: nat, j: nat)
    requires x0 <= x <= x + tail <= x1 <= |a| && y0 <= y <= y + tail <= y1 <= |b| && x - x0 == y - y0
    requires a[x0..x] == b[y0..y] && a[x1 - tail..x1] == b[y1 - tail..y1]
    requires AnchorChain(a, x0, x1, b, y0, y1, c)
    ensures i <= j <= |c| && i <= x - x0 && |c| - j <= tail && AnchorChain(a, x, x1 - tail, b, y, y1 - tail, c[i..j])
  {
    hide IsAnchor;
    var xe := x1 - tail;
    i, j := Ahead(c, x), Ahead(c, xe);
    AheadOrder(c, x, xe);
    AnchorPlaces(a, x0, x1, b, y0, y1, c);
    ChainFits(c[..i], x0, x);
    ChainFits(c[j..], xe, x1);
    ChainBetween(a, x0, x1, b, y0, y1, x, y, tail, c, i, j);
  }

  lemma ChainPins(a: Lines, x0: nat, x1: nat, b: Lines, y0: nat, y1: nat, x: nat, y: nat, tail: nat, c: seq<Anchor>,
                  o0: seq<Edit>, o1: seq<Edit>, o2: seq<Edit>, o3: seq<Edit>)
    requires x0 <= x <= x + tail <= x1 <= |a| && y0 <= y <= y + tail <= y1 <= |b| && x - x0 == y - y0
    requires a[x0..x] == b[y0..y] && a[x1 - tail..x1] == b[y1 - tail..y1]
    requires AnchorChain(a, x0, x1, b, y0, y1, c)
    requires Pins(o0, o1, x - x0) && PinsChains(a, x, x1 - tail, b, y, y1 - tail, o1, o2) && Pins(o2, o3, tail)
    ensures Pins(o0, o3, |c|)
  {
    hide AnchorChain, Pins;
    var i, j := ChainSplit(a, x0, x1, b, y0, y1, x, y, tail, c);
    PinsThen(o0, o1, o2, x - x0, |c[i..j]|);
    PinsThen(o0, o2, o3, x - x0 + (j - i), tail);
    PinsLess(o0, o3, x - x0 + (j - i) + tail, |c|);
  }

  lemma PinsLess(o0: seq<Edit>, o1: seq<Edit>, n: int, m: int)
    requires Pins(o0, o1, n) && m <= n
    ensures Pins(o0, o1, m)
  {
  }

  lemma AnchorPlaces(a: Lines, x0: nat, x1: nat, b: Lines, y0: nat, y1: nat, c: seq<Anchor>)
    requires x0 <= x1 <= |a| && y0 <= y1 <= |b| && AnchorChain(a, x0, x1, b, y0, y1, c)
    ensures forall k :: 0 <= k < |c| ==> x0 <= c[k].x < x1 && y0 <= c[k].y < y1
  {
    hide Unique;
  }

  function Get(count: map<string, nat>, line: string): nat {
    if line in count then count[line] else 0
  }

  method CountLines(s: Lines, lo: nat, hi: nat) returns (count: map<string, nat>, pos: map<string, nat>)
    requires lo <= hi <= |s|
    ensures Counts(s, lo, hi, count)
    ensures forall line :: line in pos <==> line in count
    ensures forall line :: line in pos ==> lo <= pos[line] < hi && s[pos[line]] == line
  {
    count, pos := map[], map[];
    CountNone(s, lo);
    for i := lo to hi
      invariant Counts(s, lo, i, count)
      invariant forall line :: line in pos <==> line in count
      invariant forall line :: line in pos ==> lo <= pos[line] < i && s[pos[line]] == line
    {
      CountNext(s, lo, i);
      count := count[s[i] := Get(count, s[i]) + 1];
      pos := pos[s[i] := i];
    }
  }

  /** The lines unique to both sides, with their places, left to right. */
  method UniquePairs(a: Lines, x0: nat, x1: nat, b: Lines, y0: nat, y1: nat) returns (pairs: seq<Anchor>)
    requires x0 <= x1 <= |a| && y0 <= y1 <= |b|
    ensures LeftAscending(pairs)
    ensures forall p :: p in pairs <==> IsAnchor(a, x0, x1, b, y0, y1, p)
  {
    hide CountIn;
    var countA, posA := CountLines(a, x0, x1);
    var countB, posB := CountLines(b, y0, y1);
    pairs := [];
    for x := x0 to x1
      invariant LeftAscending(pairs)
      invariant forall i :: 0 <= i < |pairs| ==> pairs[i].x < x && IsAnchor(a, x0, x1, b, y0, y1, pairs[i])
      invariant forall p :: IsAnchor(a, x0, x1, b, y0, y1, p) && p.x < x ==> p in pairs
    {
      ghost var was := pairs;
      if Get(countA, a[x]) == 1 && Get(countB, a[x]) == 1 {
        var p := Anchor(x, posB[a[x]]);
        assert IsAnchor(a, x0, x1, b, y0, y1, p);
        pairs := pairs + [p];
        assert pairs[|was|] == p;
        assert forall q :: q in was ==> q in pairs;
      }
      forall q | IsAnchor(a, x0, x1, b, y0, y1, q) && q.x < x + 1 ensures q in pairs {
        if q.x == x {
          OncePlace(b, y0, y1, q.y, posB[a[x]]);
        }
      }
    }
  }

  // ----- the diff

  /** fmtPatience: a script from a[x0..x1] to b[y0..y1] behind what is written; nothing changes
      where the two are alike, as many lines are kept as any chain of anchors has, and no block
      of changes is left that has an anchor of its own or lines in common at an end. */
  method PatienceDiff(a: Lines, x0: nat, x1: nat, b: Lines, y0: nat, y1: nat, out0: seq<Edit>) returns (out: seq<Edit>)
    requires x0 <= x1 <= |a| && y0 <= y1 <= |b|
    ensures Script(out0, out, a[x0..x1], b[y0..y1])
    ensures a[x0..x1] == b[y0..y1] ==> Quiet(out0, out)
    ensures PinsChains(a, x0, x1, b, y0, y1, out0, out) && SpentTo(out0, out)
    decreases (x1 - x0) + (y1 - y0), 2
  {
    hide Script, Quiet, Pins, PinsChains, SpentTo, EndsKept, StartsKept, AnchorChain;
    var x, y;
    out, x, y := Front(a, x0, x1, b, y0, y1, out0);
    var tail := Tail(a, x, x1, b, y, y1);
    var xe, ye := x1 - tail, y1 - tail;
    ghost var mid := out;
    out := Middle(a, x, xe, b, y, ye, out);
    ghost var end := out;
    out := Last(a, xe, b, ye, tail, out);
    ScriptThen(out0, mid, end, a[x0..x], b[y0..y], a[x..xe], b[y..ye]);
    Slice(a, x0, x, xe);
    Slice(b, y0, y, ye);
    ScriptThen(out0, end, out, a[x0..xe], b[y0..ye], a[xe..x1], b[ye..y1]);
    Slice(a, x0, xe, x1);
    Slice(b, y0, ye, y1);
    if a[x0..x1] == b[y0..y1] { AlikeMiddle(a, x0, x1, b, y0, y1, x, y, tail); }
    AllPinned(a, x0, x1, b, y0, y1, x, y, tail, out0, mid, end, out);
    SpentQuiet(out0, mid);
    SpentQuiet(end, out);
    SpentThen(out0, mid, end);
    SpentThen(out0, end, out);
  }

  lemma AllPinned(a: Lines, x0: nat, x1: nat, b: Lines, y0: nat, y1: nat, x: nat, y: nat, tail: nat,
                  o0: seq<Edit>, o1: seq<Edit>, o2: seq<Edit>, o3: seq<Edit>)
    requires x0 <= x <= x + tail <= x1 <= |a| && y0 <= y <= y + tail <= y1 <= |b| && x - x0 == y - y0
    requires Script(o0, o1, a[x0..x], b[y0..y]) && Quiet(o0, o1)
    requires PinsChains(a, x, x1 - tail, b, y, y1 - tail, o1, o2)
    requires Script(o2, o3, a[x1 - tail..x1], b[y1 - tail..y1]) && Quiet(o2, o3)
    ensures PinsChains(a, x0, x1, b, y0, y1, o0, o3)
  {
    hide Script, Quiet, Pins, AnchorChain;
    QuietPins(o0, o1, a[x0..x], b[y0..y]);
    QuietPins(o2, o3, a[x1 - tail..x1], b[y1 - tail..y1]);
    forall c | AnchorChain(a, x0, x1, b, y0, y1, c) ensures Pins(o0, o3, |c|) {
      ChainPins(a, x0, x1, b, y0, y1, x, y, tail, c, o0, o1, o2, o3);
    }
  }

  /** Where the sides are alike, what leads in is all of them. */
  lemma AlikeMiddle(a: Lines, x0: nat, x1: nat, b: Lines, y0: nat, y1: nat, x: nat, y: nat, tail: nat)
    requires x0 <= x <= x1 <= |a| && y0 <= y <= y1 <= |b| && x - x0 == y - y0
    requires a[x0..x1] == b[y0..y1]
    requires x < x1 && y < y1 ==> a[x] != b[y]
    requires x + tail <= x1 && y + tail <= y1
    ensures x == x1 && y == y1
  {
    AlikeAt(a, x0, x1, b, y0, y1, x - x0);
  }

  lemma AlikeAt(a: Lines, x0: nat, x1: nat, b: Lines, y0: nat, y1: nat, k: nat)
    requires x0 <= x1 <= |a| && y0 <= y1 <= |b| && a[x0..x1] == b[y0..y1]
    ensures x1 - x0 == y1 - y0 && (k < x1 - x0 ==> a[x0 + k] == b[y0 + k])
  {
    assert x1 - x0 == |a[x0..x1]| == |b[y0..y1]| == y1 - y0;
    if k < x1 - x0 { assert a[x0..x1][k] == a[x0 + k] && b[y0..y1][k] == b[y0 + k]; }
  }

  /** The lines both sides begin with. */
  method Front(a: Lines, x0: nat, x1: nat, b: Lines, y0: nat, y1: nat, out0: seq<Edit>)
    returns (out: seq<Edit>, x: nat, y: nat)
    requires x0 <= x1 <= |a| && y0 <= y1 <= |b|
    ensures x0 <= x <= x1 && y0 <= y <= y1 && x - x0 == y - y0
    ensures x < x1 && y < y1 ==> a[x] != b[y]
    ensures Script(out0, out, a[x0..x], b[y0..y]) && Quiet(out0, out)
  {
    hide Script, Quiet;
    out, x, y := out0, x0, y0;
    ScriptNone(out);
    assert a[x0..x0] == [] && b[y0..y0] == [];
    while x < x1 && y < y1 && a[x] == b[y]
      invariant x0 <= x <= x1 && y0 <= y <= y1 && x - x0 == y - y0
      invariant Script(out0, out, a[x0..x], b[y0..y]) && Quiet(out0, out)
    {
      ScriptOne(out, Keep(a[x]));
      ScriptThen(out0, out, out + [Keep(a[x])], a[x0..x], b[y0..y], [a[x]], [a[x]]);
      assert a[x0..x + 1] == a[x0..x] + [a[x]] && b[y0..y + 1] == b[y0..y] + [a[x]];
      out := out + [Keep(a[x])];
      x, y := x + 1, y + 1;
    }
  }

  /** How many lines both sides end with. */
  method Tail(a: Lines, x0: nat, x1: nat, b: Lines, y0: nat, y1: nat) returns (tail: nat)
    requires x0 <= x1 <= |a| && y0 <= y1 <= |b|
    ensures x0 + tail <= x1 && y0 + tail <= y1
    ensures a[x1 - tail..x1] == b[y1 - tail..y1]
    ensures x0 < x1 - tail && y0 < y1 - tail ==> a[x1 - 1 - tail] != b[y1 - 1 - tail]
  {
    tail := 0;
    while x0 < x1 - tail && y0 < y1 - tail && a[x1 - 1 - tail] == b[y1 - 1 - tail]
      invariant x0 + tail <= x1 && y0 + tail <= y1
      invariant a[x1 - tail..x1] == b[y1 - tail..y1]
    {
      assert a[x1 - tail - 1..x1] == [a[x1 - 1 - tail]] + a[x1 - tail..x1];
      assert b[y1 - tail - 1..y1] == [b[y1 - 1 - tail]] + b[y1 - tail..y1];
      tail := tail + 1;
    }
  }

  method Last(a: Lines, xe: nat, ghost b: Lines, ghost ye: nat, tail: nat, out0: seq<Edit>) returns (out: seq<Edit>)
    requires xe + tail <= |a| && ye + tail <= |b| && a[xe..xe + tail] == b[ye..ye + tail]
    ensures Script(out0, out, a[xe..xe + tail], b[ye..ye + tail]) && Quiet(out0, out)
  {
    hide Script, Quiet;
    out := out0;
    ScriptNone(out);
    assert a[xe..xe] == [];
    for k := 0 to tail
      invariant Script(out0, out, a[xe..xe + k], a[xe..xe + k]) && Quiet(out0, out)
    {
      ScriptOne(out, Keep(a[xe + k]));
      ScriptThen(out0, out, out + [Keep(a[xe + k])], a[xe..xe + k], a[xe..xe + k], [a[xe + k]], [a[xe + k]]);
      assert a[xe..xe + k + 1] == a[xe..xe + k] + [a[xe + k]];
      out := out + [Keep(a[xe + k])];
    }
  }

  /** Between the common ends: around the anchors, or all out and all in where there is none. */
  method Middle(a: Lines, x0: nat, x1: nat, b: Lines, y0: nat, y1: nat, out0: seq<Edit>) returns (out: seq<Edit>)
    requires x0 <= x1 <= |a| && y0 <= y1 <= |b|
    requires x0 < x1 && y0 < y1 ==> a[x0] != b[y0] && a[x1 - 1] != b[y1 - 1]
    ensures Script(out0, out, a[x0..x1], b[y0..y1])
    ensures x0 == x1 && y0 == y1 ==> Quiet(out0, out)
    ensures PinsChains(a, x0, x1, b, y0, y1, out0, out) && SpentTo(out0, out)
    decreases (x1 - x0) + (y1 - y0), 1
  {
    hide Script, Quiet, Ascending, ChainOf, IsAnchor, Unlike, Pinned, Pins, PinsChains, SpentTo, EndsKept, StartsKept;
    var pairs := UniquePairs(a, x0, x1, b, y0, y1);
    var anchors := LongestChain(pairs);
    ChainParts(a, x0, x1, b, y0, y1, pairs, anchors);
    if |anchors| == 0 {
      NoAnchors(a, x0, x1, b, y0, y1, pairs);
      out := Replace(a, x0, x1, b, y0, y1, out0);
      PinsNone(out0, out, a[x0..x1], b[y0..y1]);
    } else {
      PinnedRoom(a, x0, x1, b, y0, y1, anchors);
      out := Around(a, x0, x1, b, y0, y1, anchors, out0);
    }
    LongestPins(a, x0, x1, b, y0, y1, pairs, |anchors|, out0, out);
  }

  /** Pairs of like lines, ascending on both sides. */
  ghost predicate Pinned(a: Lines, x0: nat, x1: nat, b: Lines, y0: nat, y1: nat, c: seq<Anchor>)
    requires x0 <= x1 <= |a| && y0 <= y1 <= |b|
  {
    && (forall i :: 0 <= i < |c| ==> x0 <= c[i].x < x1 && y0 <= c[i].y < y1 && a[c[i].x] == b[c[i].y])
    && (forall i :: 0 <= i < |c| - 1 ==> c[i].x < c[i + 1].x && c[i].y < c[i + 1].y)
  }

  lemma PinnedRoom(a: Lines, x0: nat, x1: nat, b: Lines, y0: nat, y1: nat, c: seq<Anchor>)
    requires x0 <= x1 <= |a| && y0 <= y1 <= |b| && Pinned(a, x0, x1, b, y0, y1, c) && c != []
    ensures x0 < x1
  {
    assert x0 <= c[0].x < x1;
  }

  /** What lies in front of each anchor, the anchor, and what lies behind the last. */
  method Around(a: Lines, x0: nat, x1: nat, b: Lines, y0: nat, y1: nat, anchors: seq<Anchor>, out0: seq<Edit>) returns (out: seq<Edit>)
    requires x0 <= x1 <= |a| && y0 <= y1 <= |b| && anchors != [] && Pinned(a, x0, x1, b, y0, y1, anchors)
    ensures Script(out0, out, a[x0..x1], b[y0..y1])
    ensures Pins(out0, out, |anchors|) && SpentTo(out0, out)
    decreases (x1 - x0) + (y1 - y0), 0
  {
    hide Script, Quiet, Pins, PinsChains, SpentTo, EndsKept, StartsKept;
    out := out0;
    ScriptNone(out);
    SpentQuiet(out, out);
    PinsNone(out0, out, [], []);
    assert a[x0..x0] == [] && b[y0..y0] == [];
    var x, y := x0, y0;
    for i := 0 to |anchors|
      invariant x0 <= x <= x1 && y0 <= y <= y1
      invariant i < |anchors| ==> x <= anchors[i].x && y <= anchors[i].y
      invariant 0 < i ==> x0 < x
      invariant Script(out0, out, a[x0..x], b[y0..y])
      invariant Pins(out0, out, i) && SpentTo(out0, out) && EndsKept(out0, out)
    {
      var p := anchors[i];
      out := UpTo(a, x0, x, b, y0, y, p, out0, out, i);
      x, y := p.x + 1, p.y + 1;
    }
    ghost var o2 := out;
    out := PatienceDiff(a, x, x1, b, y, y1, out);
    ScriptThen(out0, o2, out, a[x0..x], b[y0..y], a[x..x1], b[y..y1]);
    Slice(a, x0, x, x1);
    Slice(b, y0, y, y1);
    SpentThen(out0, o2, out);
    PinsNone(o2, out, a[x..x1], b[y..y1]);
    PinsThen(out0, o2, out, |anchors|, 0);
  }

  lemma LongestPins(a: Lines, x0: nat, x1: nat, b: Lines, y0: nat, y1: nat, pairs: seq<Anchor>, n: nat, o0: seq<Edit>, o1: seq<Edit>)
    requires x0 <= x1 <= |a| && y0 <= y1 <= |b|
    requires forall p :: IsAnchor(a, x0, x1, b, y0, y1, p) ==> p in pairs
    requires (forall c :: ChainOf(pairs, c) ==> |c| <= n) && Pins(o0, o1, n)
    ensures PinsChains(a, x0, x1, b, y0, y1, o0, o1)
  {
    hide Ascending, IsAnchor, Pins;
    forall c | AnchorChain(a, x0, x1, b, y0, y1, c) ensures Pins(o0, o1, |c|) {
      assert ChainOf(pairs, c);
      PinsLess(o0, o1, n, |c|);
    }
  }

  /** Without a chain there is no anchor. */
  lemma NoAnchors(a: Lines, x0: nat, x1: nat, b: Lines, y0: nat, y1: nat, pairs: seq<Anchor>)
    requires x0 <= x1 <= |a| && y0 <= y1 <= |b|
    requires forall p :: p in pairs <==> IsAnchor(a, x0, x1, b, y0, y1, p)
    requires forall c :: ChainOf(pairs, c) ==> |c| <= 0
    requires x0 < x1 && y0 < y1 ==> a[x0] != b[y0] && a[x1 - 1] != b[y1 - 1]
    ensures Unlike(a[x0..x1], b[y0..y1])
  {
    var was, will := a[x0..x1], b[y0..y1];
    forall line ensures !(Once(was, line) && Once(will, line)) {
      if Once(was, line) && Once(will, line) {
        assert line in multiset(was) && line in multiset(will);
        var i :| 0 <= i < |was| && was[i] == line;
        var j :| 0 <= j < |will| && will[j] == line;
        var p := Anchor(x0 + i, y0 + j);
        assert IsAnchor(a, x0, x1, b, y0, y1, p);
        assert ChainOf(pairs, [p]);
      }
    }
  }

  /** The gap in front of an anchor, and the anchor kept. */
  method UpTo(a: Lines, ghost x0: nat, x: nat, b: Lines, ghost y0: nat, y: nat, p: Anchor, ghost out0: seq<Edit>, out1: seq<Edit>,
              ghost n: nat)
    returns (out: seq<Edit>)
    requires x0 <= x <= p.x < |a| && y0 <= y <= p.y < |b| && a[p.x] == b[p.y]
    requires Script(out0, out1, a[x0..x], b[y0..y])
    requires Pins(out0, out1, n) && SpentTo(out0, out1) && EndsKept(out0, out1)
    ensures Script(out0, out, a[x0..p.x + 1], b[y0..p.y + 1])
    ensures Pins(out0, out, n + 1) && SpentTo(out0, out) && EndsKept(out0, out)
    decreases (p.x - x) + (p.y - y), 3
  {
    hide Script, Quiet, Pins, PinsChains, SpentTo, EndsKept, StartsKept;
    out := PatienceDiff(a, x, p.x, b, y, p.y, out1);
    ScriptThen(out0, out1, out, a[x0..x], b[y0..y], a[x..p.x], b[y..p.y]);
    Slice(a, x0, x, p.x);
    Slice(b, y0, y, p.y);
    SpentThen(out0, out1, out);
    PinsNone(out1, out, a[x..p.x], b[y..p.y]);
    PinsThen(out0, out1, out, n, 0);
    ghost var gap := out;
    ScriptOne(out, Keep(a[p.x]));
    ScriptThen(out0, out, out + [Keep(a[p.x])], a[x0..p.x], b[y0..p.y], [a[p.x]], [a[p.x]]);
    assert a[x0..p.x + 1] == a[x0..p.x] + [a[p.x]] && b[y0..p.y + 1] == b[y0..p.y] + [a[p.x]];
    out := out + [Keep(a[p.x])];
    SpentKeep(out0, gap, Keep(a[p.x]));
    QuietPins(gap, out, [a[p.x]], [a[p.x]]);
    PinsThen(out0, gap, out, n, 1);
  }

  lemma ChainParts(a: Lines, x0: nat, x1: nat, b: Lines, y0: nat, y1: nat, pairs: seq<Anchor>, c: seq<Anchor>)
    requires x0 <= x1 <= |a| && y0 <= y1 <= |b|
    requires ChainOf(pairs, c) && forall p :: p in pairs ==> IsAnchor(a, x0, x1, b, y0, y1, p)
    ensures Pinned(a, x0, x1, b, y0, y1, c)
  {
    hide Unique;
    forall i | 0 <= i < |c| ensures IsAnchor(a, x0, x1, b, y0, y1, c[i]) { assert c[i] in pairs; }
  }

  method Replace(a: Lines, x0: nat, x1: nat, b: Lines, y0: nat, y1: nat, out0: seq<Edit>) returns (out: seq<Edit>)
    requires x0 <= x1 <= |a| && y0 <= y1 <= |b| && Unlike(a[x0..x1], b[y0..y1])
    ensures Script(out0, out, a[x0..x1], b[y0..y1]) && SpentTo(out0, out)
    ensures x0 == x1 && y0 == y1 ==> Quiet(out0, out)
  {
    hide Script, Quiet, Unlike, SpentTo;
    out := out0;
    ScriptNone(out);
    assert a[x0..x0] == [] && b[y0..y0] == [];
    for x := x0 to x1
      invariant Script(out0, out, a[x0..x], []) && (x == x0 ==> out == out0)
      invariant out0 <= out && forall k :: |out0| <= k < |out| ==> out[k].Remove?
    {
      ScriptOne(out, Remove(a[x]));
      ScriptThen(out0, out, out + [Remove(a[x])], a[x0..x], [], [a[x]], []);
      Longer(a, x0, x);
      out := out + [Remove(a[x])];
    }
    ghost var gone := |out|;
    for y := y0 to y1
      invariant Script(out0, out, a[x0..x1], b[y0..y]) && (x0 == x1 && y == y0 ==> out == out0)
      invariant out0 <= out && |out0| <= gone <= |out|
      invariant (forall k :: |out0| <= k < gone ==> out[k].Remove?) && forall k :: gone <= k < |out| ==> out[k].Add?
    {
      ScriptOne(out, Add(b[y]));
      ScriptThen(out0, out, out + [Add(b[y])], a[x0..x1], b[y0..y], [], [b[y]]);
      Longer(b, y0, y);
      assert a[x0..x1] + [] == a[x0..x1];
      out := out + [Add(b[y])];
    }
    SpentBlock(out0, out, a[x0..x1], b[y0..y1]);
  }
}
