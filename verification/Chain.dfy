/**
 Pairs of positions, and as many of them as rise on both sides together (fmtLongestChain,
 go/format.go:1827-1864), found by dealing the right-hand positions into piles.
 */
module Chain {

  datatype Anchor = Anchor(x: int, y: int)

  ghost predicate LeftAscending(pairs: seq<Anchor>) {
    forall i, j :: 0 <= i < j < |pairs| ==> pairs[i].x < pairs[j].x
  }

  /** In order on both sides. */
  ghost predicate Ascending(c: seq<Anchor>) {
    forall i, j :: 0 <= i < j < |c| ==> c[i].x < c[j].x && c[i].y < c[j].y
  }

  ghost predicate ChainOf(pairs: seq<Anchor>, c: seq<Anchor>) {
    Ascending(c) && forall i :: 0 <= i < |c| ==> c[i] in pairs
  }

  // ----- piles

  /** The piles so far: pile[k] is the pile the pair k was put on, tails the top of each. */
  ghost predicate Piles(pairs: seq<Anchor>, n: nat, tails: seq<nat>, prev: seq<int>, pile: seq<nat>) {
    && n <= |pairs| && |prev| == |pairs| && |pile| == n
    && (forall p :: 0 <= p < |tails| ==> tails[p] < n && pile[tails[p]] == p)
    && (forall p, q :: 0 <= p < q < |tails| ==> pairs[tails[p]].y < pairs[tails[q]].y)
    && (forall k :: 0 <= k < n ==> pile[k] < |tails| && pairs[tails[pile[k]]].y <= pairs[k].y)
    && (forall i, k :: 0 <= i < k < n && pairs[i].y < pairs[k].y ==> pile[i] < pile[k])
    && Linked(pairs, n, prev, pile)
  }

  /** Each pair points at one on the pile before its own, below it in both. */
  ghost predicate Linked(pairs: seq<Anchor>, n: nat, prev: seq<int>, pile: seq<nat>)
    requires n <= |pairs| && |prev| == |pairs| && |pile| == n
  {
    forall k :: 0 <= k < n ==>
      if pile[k] == 0 then prev[k] == -1
      else 0 <= prev[k] < k && pile[prev[k]] == pile[k] - 1 && pairs[prev[k]].y < pairs[k].y
  }

  /** Where in the tails a pair goes: the first whose right side is not below it. */
  ghost predicate Place(pairs: seq<Anchor>, tails: seq<nat>, j: int, lo: nat) {
    && lo <= |tails| && (forall p :: 0 <= p < |tails| ==> tails[p] < |pairs|)
    && (forall p :: 0 <= p < lo ==> pairs[tails[p]].y < j)
    && (forall p :: lo <= p < |tails| ==> j <= pairs[tails[p]].y)
  }

  function Put(tails: seq<nat>, lo: nat, k: nat): seq<nat>
    requires lo <= |tails|
  {
    if lo == |tails| then tails + [k] else tails[lo := k]
  }

  lemma PutKeeps(pairs: seq<Anchor>, n: nat, tails: seq<nat>, prev: seq<int>, pile: seq<nat>, lo: nat)
    requires Piles(pairs, n, tails, prev, pile) && n < |pairs| && Place(pairs, tails, pairs[n].y, lo)
    ensures Piles(pairs, n + 1, Put(tails, lo, n), prev[n := if 0 < lo then tails[lo - 1] else -1], pile + [lo])
  {
    PutTails(pairs, n, tails, prev, pile, lo);
    PutOrder(pairs, n, tails, prev, pile, lo);
    PutLinks(pairs, n, tails, prev, pile, lo);
  }

  lemma PutTails(pairs: seq<Anchor>, n: nat, tails: seq<nat>, prev: seq<int>, pile: seq<nat>, lo: nat)
    requires Piles(pairs, n, tails, prev, pile) && n < |pairs| && Place(pairs, tails, pairs[n].y, lo)
    ensures var t, q := Put(tails, lo, n), pile + [lo];
            && (forall p :: 0 <= p < |t| ==> t[p] < n + 1 && q[t[p]] == p)
            && (forall p, r :: 0 <= p < r < |t| ==> pairs[t[p]].y < pairs[t[r]].y)
            && (forall k :: 0 <= k < n + 1 ==> q[k] < |t| && pairs[t[q[k]]].y <= pairs[k].y)
  {
    hide Linked;
    var t, q := Put(tails, lo, n), pile + [lo];
    forall p, r | 0 <= p < r < |t| ensures pairs[t[p]].y < pairs[t[r]].y {
      assert p != lo ==> t[p] == tails[p];
      assert r != lo ==> t[r] == tails[r];
      if r != lo && p == lo { assert pairs[n].y <= pairs[tails[lo]].y < pairs[tails[r]].y; }
    }
    forall k | 0 <= k < n + 1 ensures q[k] < |t| && pairs[t[q[k]]].y <= pairs[k].y {
      if k < n { assert q[k] == pile[k]; }
    }
  }

  lemma PutOrder(pairs: seq<Anchor>, n: nat, tails: seq<nat>, prev: seq<int>, pile: seq<nat>, lo: nat)
    requires Piles(pairs, n, tails, prev, pile) && n < |pairs| && Place(pairs, tails, pairs[n].y, lo)
    ensures forall i, k :: 0 <= i < k < n + 1 && pairs[i].y < pairs[k].y ==> (pile + [lo])[i] < (pile + [lo])[k]
  {
    hide Linked;
    var q := pile + [lo];
    forall i, k | 0 <= i < k < n + 1 && pairs[i].y < pairs[k].y ensures q[i] < q[k] {
      if k == n {
        assert pairs[tails[pile[i]]].y <= pairs[i].y < pairs[n].y;
      }
    }
  }

  lemma PutLinks(pairs: seq<Anchor>, n: nat, tails: seq<nat>, prev: seq<int>, pile: seq<nat>, lo: nat)
    requires Piles(pairs, n, tails, prev, pile) && n < |pairs| && Place(pairs, tails, pairs[n].y, lo)
    ensures Linked(pairs, n + 1, prev[n := if 0 < lo then tails[lo - 1] else -1], pile + [lo])
  {
    var p2, q := prev[n := if 0 < lo then tails[lo - 1] else -1], pile + [lo];
    forall k | 0 <= k < n + 1
      ensures if q[k] == 0 then p2[k] == -1 else 0 <= p2[k] < k && q[p2[k]] == q[k] - 1 && pairs[p2[k]].y < pairs[k].y
    {
      if k < n { assert p2[k] == prev[k] && q[k] == pile[k]; }
    }
  }

  // ----- no chain is longer

  lemma {:induction false} ChainHeights(pairs: seq<Anchor>, tails: seq<nat>, prev: seq<int>, pile: seq<nat>, c: seq<Anchor>)
    returns (at: nat)
    requires Piles(pairs, |pairs|, tails, prev, pile) && LeftAscending(pairs) && ChainOf(pairs, c) && c != []
    ensures at < |pairs| && pairs[at] == c[|c| - 1] && |c| - 1 <= pile[at]
    decreases |c|
  {
    hide Linked;
    assert c[|c| - 1] in pairs;
    at :| 0 <= at < |pairs| && pairs[at] == c[|c| - 1];
    if 1 < |c| {
      var front := c[..|c| - 1];
      assert forall i :: 0 <= i < |front| ==> front[i] == c[i] && c[i] in pairs;
      var before := ChainHeights(pairs, tails, prev, pile, front);
      assert pairs[before].x < pairs[at].x && pairs[before].y < pairs[at].y;
      assert before < at;
    }
  }

  lemma NoLonger(pairs: seq<Anchor>, tails: seq<nat>, prev: seq<int>, pile: seq<nat>, c: seq<Anchor>)
    requires Piles(pairs, |pairs|, tails, prev, pile) && LeftAscending(pairs) && ChainOf(pairs, c)
    ensures |c| <= |tails|
  {
    if c != [] {
      var at := ChainHeights(pairs, tails, prev, pile, c);
    }
  }

  // ----- the algorithm

  /** The place of a right-hand position among the tails, by binary search. */
  method Search(pairs: seq<Anchor>, tails: seq<nat>, j: int) returns (lo: nat)
    requires forall p :: 0 <= p < |tails| ==> tails[p] < |pairs|
    requires forall p, q :: 0 <= p < q < |tails| ==> pairs[tails[p]].y < pairs[tails[q]].y
    ensures Place(pairs, tails, j, lo)
  {
    lo := 0;
    var hi := |tails|;
    while lo < hi
      invariant lo <= hi <= |tails|
      invariant forall p :: 0 <= p < lo ==> pairs[tails[p]].y < j
      invariant forall p :: hi <= p < |tails| ==> j <= pairs[tails[p]].y
    {
      var mid := (lo + hi) / 2;
      if pairs[tails[mid]].y < j {
        lo := mid + 1;
      } else {
        hi := mid;
      }
    }
  }

  /** From the top of the last pile back along the links: the chain, last first. */
  method Back(pairs: seq<Anchor>, tails: seq<nat>, prev: seq<int>, ghost pile: seq<nat>) returns (out: seq<Anchor>)
    requires Piles(pairs, |pairs|, tails, prev, pile) && LeftAscending(pairs)
    ensures |out| == |tails|
    ensures forall i :: 0 <= i < |out| ==> out[i] in pairs
    ensures forall i, j :: 0 <= i < j < |out| ==> out[j].x < out[i].x && out[j].y < out[i].y
  {
    out := [];
    var k := -1;
    if 0 < |tails| { k := tails[|tails| - 1]; }
    while 0 <= k
      invariant -1 <= k < |pairs|
      invariant |out| + (if k < 0 then 0 else pile[k] + 1) == |tails|
      invariant forall i :: 0 <= i < |out| ==> out[i] in pairs
      invariant forall i, j :: 0 <= i < j < |out| ==> out[j].x < out[i].x && out[j].y < out[i].y
      invariant 0 <= k ==> forall i :: 0 <= i < |out| ==> pairs[k].x < out[i].x && pairs[k].y < out[i].y
      decreases k
    {
      ghost var p := prev[k];
      assert 0 <= p ==> p < k && pairs[p].x < pairs[k].x && pairs[p].y < pairs[k].y;
      out := out + [pairs[k]];
      k := prev[k];
    }
  }

  ghost function Reversed(s: seq<Anchor>): (r: seq<Anchor>)
    ensures |r| == |s| && forall i :: 0 <= i < |s| ==> r[i] == s[|s| - 1 - i]
  {
    seq(|s|, i requires 0 <= i < |s| => s[|s| - 1 - i])
  }

  /** Turned round by swapping from both ends. */
  method Reverse(s: seq<Anchor>) returns (out: seq<Anchor>)
    ensures out == Reversed(s)
  {
    out := s;
    var i, j := 0, |s| - 1;
    while i < j
      invariant 0 <= i <= j + 1 && i + j == |s| - 1 && |out| == |s|
      invariant forall k :: 0 <= k < i || j < k < |s| ==> out[k] == s[|s| - 1 - k]
      invariant forall k :: i <= k <= j ==> out[k] == s[k]
      decreases j - i
    {
      var a, b := out[i], out[j];
      out := out[i := b];
      out := out[j := a];
      i, j := i + 1, j - 1;
    }
  }

  /** fmtLongestChain: a chain of the pairs no chain of them exceeds in length. */
  method LongestChain(pairs: seq<Anchor>) returns (out: seq<Anchor>)
    requires LeftAscending(pairs)
    ensures ChainOf(pairs, out)
    ensures forall c :: ChainOf(pairs, c) ==> |c| <= |out|
  {
    hide Piles, Place;
    var tails: seq<nat> := [];
    var prev := seq(|pairs|, _ => 0);
    ghost var pile: seq<nat> := [];
    NoPiles(pairs, prev);
    for k := 0 to |pairs|
      invariant Piles(pairs, k, tails, prev, pile)
    {
      TailsOf(pairs, k, tails, prev, pile);
      var lo := Search(pairs, tails, pairs[k].y);
      PlaceIn(pairs, tails, pairs[k].y, lo);
      PutKeeps(pairs, k, tails, prev, pile, lo);
      ghost var links, tops := prev, Put(tails, lo, k);
      prev := prev[k := -1];
      if 0 < lo { prev := prev[k := tails[lo - 1]]; }
      assert prev == links[k := if 0 < lo then tails[lo - 1] else -1];
      if lo == |tails| { tails := tails + [k]; } else { tails := tails[lo := k]; }
      assert tails == tops;
      pile := pile + [lo];
    }
    var back := Back(pairs, tails, prev, pile);
    out := Reverse(back);
    assert forall i :: 0 <= i < |out| ==> out[i] == back[|back| - 1 - i];
    forall c | ChainOf(pairs, c) ensures |c| <= |out| { NoLonger(pairs, tails, prev, pile, c); }
  }

  lemma NoPiles(pairs: seq<Anchor>, prev: seq<int>)
    requires |prev| == |pairs|
    ensures Piles(pairs, 0, [], prev, [])
  {
  }

  lemma TailsOf(pairs: seq<Anchor>, n: nat, tails: seq<nat>, prev: seq<int>, pile: seq<nat>)
    requires Piles(pairs, n, tails, prev, pile)
    ensures |prev| == |pairs|
    ensures forall p :: 0 <= p < |tails| ==> tails[p] < |pairs|
    ensures forall p, q :: 0 <= p < q < |tails| ==> pairs[tails[p]].y < pairs[tails[q]].y
  {
  }

  lemma PlaceIn(pairs: seq<Anchor>, tails: seq<nat>, j: int, lo: nat)
    requires Place(pairs, tails, j, lo)
    ensures lo <= |tails|
  {
  }
}
