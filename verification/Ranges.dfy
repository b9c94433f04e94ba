/**
 Sets of code points held as sorted range lists, the representation FIRST and
 FOLLOW sets have in the format-grammar engine (go/formatgrammar.go:54-118).
 */
module Ranges {

  datatype Range = Range(lo: int, hi: int)

  /** c lies in one of the ranges. */
  ghost predicate In(rs: seq<Range>, c: int) {
    exists i :: 0 <= i < |rs| && rs[i].lo <= c <= rs[i].hi
  }

  ghost predicate AllProper(rs: seq<Range>) {
    forall i :: 0 <= i < |rs| ==> rs[i].lo <= rs[i].hi
  }

  /** Sorted and disjoint: what the binary search and the merges rely on. */
  ghost predicate Ordered(rs: seq<Range>) {
    && AllProper(rs)
    && forall i, j :: 0 <= i < j < |rs| ==> rs[i].hi < rs[j].lo
  }

  /** Ordered with a gap between neighbours: the one form a set has. */
  ghost predicate Canonical(rs: seq<Range>) {
    && AllProper(rs)
    && forall i, j :: 0 <= i < j < |rs| ==> rs[i].hi + 1 < rs[j].lo
  }

  ghost predicate Within(rs: seq<Range>, top: int) {
    forall i :: 0 <= i < |rs| ==> 0 <= rs[i].lo && rs[i].hi <= top
  }

  ghost function Chars(rs: seq<Range>): (s: iset<int>)
    ensures forall c :: c in s <==> In(rs, c)
  {
    iset c | In(rs, c)
  }

  // ----- one form per set

  lemma FirstOf(a: seq<Range>, c: int)
    ensures a != [] && a[0].lo <= c <= a[0].hi ==> In(a, c)
    ensures a != [] && Ordered(a) && In(a, c) ==> a[0].lo <= c
    ensures a != [] && Canonical(a) && c == a[0].hi + 1 ==> !In(a, c)
  {
  }

  lemma CanonicalFirst(a: seq<Range>, b: seq<Range>)
    requires Canonical(a) && Canonical(b) && a != []
    requires forall c :: In(a, c) <==> In(b, c)
    ensures b != [] && a[0] == b[0]
  {
    FirstOf(a, a[0].lo);
    FirstOf(b, a[0].lo);
    FirstOf(a, b[0].lo);
    FirstOf(b, b[0].lo);
    FirstOf(a, a[0].hi + 1);
    FirstOf(b, a[0].hi + 1);
    FirstOf(a, b[0].hi + 1);
    FirstOf(b, b[0].hi + 1);
  }

  lemma {:induction false} CanonicalUnique(a: seq<Range>, b: seq<Range>)
    requires Canonical(a) && Canonical(b)
    requires forall c :: In(a, c) <==> In(b, c)
    ensures a == b
    decreases |a|
  {
    if a == [] {
      FirstOf(b, if b == [] then 0 else b[0].lo);
    } else {
      CanonicalFirst(a, b);
      forall c ensures In(a[1..], c) <==> In(b[1..], c) {
        TailIn(a, c);
        TailIn(b, c);
      }
      CanonicalUnique(a[1..], b[1..]);
      assert a == [a[0]] + a[1..] && b == [b[0]] + b[1..];
    }
  }

  lemma TailIn(a: seq<Range>, c: int)
    requires Ordered(a) && a != []
    ensures In(a[1..], c) <==> In(a, c) && a[0].hi < c
  {
    if In(a[1..], c) {
      var i :| 0 <= i < |a[1..]| && a[1..][i].lo <= c <= a[1..][i].hi;
      assert a[i + 1] == a[1..][i];
    }
    if In(a, c) && a[0].hi < c {
      var i :| 0 <= i < |a| && a[i].lo <= c <= a[i].hi;
      assert a[i] == a[1..][i - 1];
    }
  }

  // ----- sorting (the library's stable sort on the lower bound)

  ghost predicate SortedByLo(rs: seq<Range>) {
    forall i, j :: 0 <= i < j < |rs| ==> rs[i].lo <= rs[j].lo
  }

  function InsertByLo(rs: seq<Range>, r: Range): (out: seq<Range>)
    requires SortedByLo(rs)
    ensures |out| == |rs| + 1
    ensures forall x :: x in out <==> x in rs || x == r
    ensures SortedByLo(out)
  {
    if rs == [] then [r]
    else if r.lo < rs[0].lo then [r] + rs
    else
      var rest := InsertByLo(rs[1..], r);
      assert rs == [rs[0]] + rs[1..];
      assert forall x :: x in rs[1..] ==> rs[0].lo <= x.lo;
      assert forall i :: 0 <= i < |rest| ==> rest[i] in rest;
      [rs[0]] + rest
  }

  function SortByLo(rs: seq<Range>): (out: seq<Range>)
    ensures |out| == |rs|
    ensures forall x :: x in out <==> x in rs
    ensures SortedByLo(out)
  {
    if rs == [] then []
    else
      assert rs == rs[..|rs| - 1] + [rs[|rs| - 1]];
      InsertByLo(SortByLo(rs[..|rs| - 1]), rs[|rs| - 1])
  }

  lemma SamePoints(a: seq<Range>, b: seq<Range>)
    requires forall x :: x in a <==> x in b
    ensures forall c :: In(a, c) <==> In(b, c)
    ensures AllProper(a) <==> AllProper(b)
  {
    assert forall i :: 0 <= i < |a| ==> a[i] in a && a[i] in b;
    assert forall i :: 0 <= i < |b| ==> b[i] in b && b[i] in a;
  }

  function Concat(sets: seq<seq<Range>>): (all: seq<Range>)
  {
    if sets == [] then [] else Concat(sets[..|sets| - 1]) + sets[|sets| - 1]
  }

  ghost predicate InAny(sets: seq<seq<Range>>, c: int) {
    exists i :: 0 <= i < |sets| && In(sets[i], c)
  }

  lemma InPlus(a: seq<Range>, b: seq<Range>, c: int)
    ensures In(a + b, c) <==> In(a, c) || In(b, c)
  {
    if In(a, c) {
      var i :| 0 <= i < |a| && a[i].lo <= c <= a[i].hi;
      assert (a + b)[i] == a[i];
    }
    if In(b, c) {
      var i :| 0 <= i < |b| && b[i].lo <= c <= b[i].hi;
      assert (a + b)[|a| + i] == b[i];
    }
  }

  lemma {:induction false} ConcatIn(sets: seq<seq<Range>>)
    ensures forall c :: In(Concat(sets), c) <==> InAny(sets, c)
    ensures (forall i :: 0 <= i < |sets| ==> AllProper(sets[i])) ==> AllProper(Concat(sets))
  {
    if sets != [] {
      var front, last := sets[..|sets| - 1], sets[|sets| - 1];
      ConcatIn(front);
      forall c ensures In(Concat(sets), c) <==> InAny(sets, c) {
        InPlus(Concat(front), last, c);
        if InAny(front, c) {
          var i :| 0 <= i < |front| && In(front[i], c);
          assert In(sets[i], c);
        }
        if InAny(sets, c) && !In(last, c) {
          var i :| 0 <= i < |sets| && In(sets[i], c);
          assert In(front[i], c);
        }
      }
    }
  }

  /** Whether r overlaps or touches the last range of out. */
  predicate Joins(out: seq<Range>, r: Range) {
    out != [] && r.lo <= out[|out| - 1].hi + 1
  }

  function MergeIn(out: seq<Range>, r: Range): seq<Range> {
    if Joins(out, r) then
      var last := out[|out| - 1];
      out[..|out| - 1] + [Range(last.lo, if last.hi < r.hi then r.hi else last.hi)]
    else out + [r]
  }

  lemma MergeIs(was: seq<Range>, r: Range, out: seq<Range>)
    requires out == if Joins(was, r)
                    then was[|was| - 1 := Range(was[|was| - 1].lo, if was[|was| - 1].hi < r.hi then r.hi else was[|was| - 1].hi)]
                    else was + [r]
    ensures out == MergeIn(was, r)
  {
  }

  /** The last range of out begins at lo or before. */
  predicate EndsBy(out: seq<Range>, lo: int) {
    out != [] ==> out[|out| - 1].lo <= lo
  }

  lemma MergedCanonical(out: seq<Range>, r: Range)
    requires Canonical(out) && r.lo <= r.hi && EndsBy(out, r.lo)
    ensures Canonical(MergeIn(out, r)) && EndsBy(MergeIn(out, r), r.lo)
  {
  }

  lemma MergedIn(out: seq<Range>, r: Range, c: int)
    requires Canonical(out) && r.lo <= r.hi && EndsBy(out, r.lo)
    ensures In(MergeIn(out, r), c) <==> In(out, c) || r.lo <= c <= r.hi
  {
    var n := |out|;
    assert forall x: Range :: In([x], c) <==> x.lo <= c <= x.hi by {
      forall x: Range | x.lo <= c <= x.hi ensures In([x], c) { assert [x][0] == x; }
    }
    if Joins(out, r) {
      InPlus(out[..n - 1], [MergeIn(out, r)[n - 1]], c);
      InPlus(out[..n - 1], [out[n - 1]], c);
      assert out == out[..n - 1] + [out[n - 1]];
    } else {
      InPlus(out, [r], c);
    }
  }

  lemma NothingIn()
    ensures forall c :: !In([], c)
  {
  }

  lemma CanonicalNothing()
    ensures Canonical([])
  {
  }

  lemma PrefixIn(rs: seq<Range>, k: nat, c: int)
    requires k < |rs|
    ensures In(rs[..k + 1], c) <==> In(rs[..k], c) || rs[k].lo <= c <= rs[k].hi
  {
    assert rs[..k + 1] == rs[..k] + [rs[k]];
    InPlus(rs[..k], [rs[k]], c);
    if rs[k].lo <= c <= rs[k].hi { assert [rs[k]][0] == rs[k]; }
  }

  method Gather(sets: seq<seq<Range>>) returns (all: seq<Range>)
    ensures all == Concat(sets)
  {
    all := [];
    for k := 0 to |sets|
      invariant all == Concat(sets[..k])
    {
      assert sets[..k + 1][..k] == sets[..k];
      all := all + sets[k];
    }
    assert sets[..|sets|] == sets;
  }

  /** The union of several sets, in canonical form (fUnionAll). */
  method UnionAll(sets: seq<seq<Range>>) returns (out: seq<Range>)
    requires forall i :: 0 <= i < |sets| ==> AllProper(sets[i])
    ensures Canonical(out)
    ensures forall c :: In(out, c) <==> InAny(sets, c)
  {
    hide In, InAny, Canonical, MergeIn;
    var all := Gather(sets);
    var sorted := SortByLo(all);
    NothingIn();
    CanonicalNothing();
    ConcatIn(sets);
    SamePoints(all, sorted);
    out := [];
    for k := 0 to |sorted|
      invariant Canonical(out) && EndsBy(out, if k == 0 then 0 else sorted[k - 1].lo) && (k == 0 ==> out == [])
      invariant forall c :: In(out, c) <==> In(sorted[..k], c)
    {
      var r := sorted[k];
      var n := |out|;
      ghost var was := out;
      if 0 < n && r.lo <= out[n - 1].hi + 1 {
        out := out[n - 1 := Range(out[n - 1].lo, if out[n - 1].hi < r.hi then r.hi else out[n - 1].hi)];
      } else {
        out := out + [r];
      }
      MergeIs(was, r, out);
      MergedCanonical(was, r);
      forall c ensures In(out, c) <==> In(sorted[..k + 1], c) {
        MergedIn(was, r, c);
        PrefixIn(sorted, k, c);
      }
    }
    assert sorted[..|sorted|] == sorted;
  }

  /** The scan of two sets has reached a[i] and b[j]: what it has found, and what it may yet find. */
  ghost predicate Meeting(a: seq<Range>, b: seq<Range>, i: nat, j: nat, out: seq<Range>) {
    && i <= |a| && j <= |b| && Ordered(out)
    && (i < |a| && j < |b| ==> forall k :: 0 <= k < |out| ==> out[k].hi < a[i].lo || out[k].hi < b[j].lo)
    && (forall c :: In(a, c) && In(b, c) <==> In(out, c) || (In(a[i..], c) && In(b[j..], c)))
  }

  function Overlap(a: Range, b: Range): Range {
    Range(if a.lo < b.lo then b.lo else a.lo, if a.hi < b.hi then a.hi else b.hi)
  }

  lemma MeetPoints(a: seq<Range>, b: seq<Range>, i: nat, j: nat, out: seq<Range>, out': seq<Range>, c: int)
    requires Ordered(a) && Ordered(b) && i < |a| && j < |b|
    requires forall k :: 0 <= k < |out| ==> out[k].hi < a[i].lo || out[k].hi < b[j].lo
    requires var o := Overlap(a[i], b[j]); out' == if o.lo <= o.hi then out + [o] else out
    ensures var i', j' := if a[i].hi < b[j].hi then i + 1 else i, if a[i].hi < b[j].hi then j else j + 1;
            In(out, c) || (In(a[i..], c) && In(b[j..], c)) <==> In(out', c) || (In(a[i'..], c) && In(b[j'..], c))
  {
    var o := Overlap(a[i], b[j]);
    InPlus(out, [o], c);
    assert In([o], c) <==> o.lo <= c <= o.hi by { assert [o][0] == o; }
    TailIn(a[i..], c);
    TailIn(b[j..], c);
    assert a[i..][1..] == a[i + 1..] && b[j..][1..] == b[j + 1..];
    FirstOf(a[i..], c);
    FirstOf(b[j..], c);
  }

  lemma MeetStep(a: seq<Range>, b: seq<Range>, i: nat, j: nat, out: seq<Range>)
    requires Ordered(a) && Ordered(b) && i < |a| && j < |b| && Meeting(a, b, i, j, out)
    ensures var o := Overlap(a[i], b[j]);
            var out' := if o.lo <= o.hi then out + [o] else out;
            if a[i].hi < b[j].hi then Meeting(a, b, i + 1, j, out') else Meeting(a, b, i, j + 1, out')
  {
    hide In;
    var o := Overlap(a[i], b[j]);
    var out' := if o.lo <= o.hi then out + [o] else out;
    var i', j' := if a[i].hi < b[j].hi then i + 1 else i, if a[i].hi < b[j].hi then j else j + 1;
    MeetGap(a, b, i, j, out, out', i', j');
    MeetFound(a, b, i, j, out, out', i', j');
  }

  lemma MeetGap(a: seq<Range>, b: seq<Range>, i: nat, j: nat, out: seq<Range>, out': seq<Range>, i': nat, j': nat)
    requires Ordered(a) && Ordered(b) && Ordered(out) && i < |a| && j < |b|
    requires forall k :: 0 <= k < |out| ==> out[k].hi < a[i].lo || out[k].hi < b[j].lo
    requires out' == var o := Overlap(a[i], b[j]); if o.lo <= o.hi then out + [o] else out
    requires i' == (if a[i].hi < b[j].hi then i + 1 else i) && j' == (if a[i].hi < b[j].hi then j else j + 1)
    ensures Ordered(out')
    ensures i' < |a| && j' < |b| ==> forall k :: 0 <= k < |out'| ==> out'[k].hi < a[i'].lo || out'[k].hi < b[j'].lo
  {
    if i' < |a| && j' < |b| {
      forall k | 0 <= k < |out'| ensures out'[k].hi < a[i'].lo || out'[k].hi < b[j'].lo {
        if k < |out| { assert out'[k] == out[k]; }
      }
    }
  }

  lemma MeetFound(a: seq<Range>, b: seq<Range>, i: nat, j: nat, out: seq<Range>, out': seq<Range>, i': nat, j': nat)
    requires Ordered(a) && Ordered(b) && i < |a| && j < |b| && Meeting(a, b, i, j, out)
    requires out' == var o := Overlap(a[i], b[j]); if o.lo <= o.hi then out + [o] else out
    requires i' == (if a[i].hi < b[j].hi then i + 1 else i) && j' == (if a[i].hi < b[j].hi then j else j + 1)
    ensures forall c :: In(a, c) && In(b, c) <==> In(out', c) || (In(a[i'..], c) && In(b[j'..], c))
  {
    hide In, Ordered;
    forall c ensures In(a, c) && In(b, c) <==> In(out', c) || (In(a[i'..], c) && In(b[j'..], c)) {
      MeetPoints(a, b, i, j, out, out', c);
    }
  }

  lemma MeetBegun(a: seq<Range>, b: seq<Range>)
    ensures Meeting(a, b, 0, 0, [])
  {
    assert a[0..] == a && b[0..] == b;
  }

  lemma MeetEnded(a: seq<Range>, b: seq<Range>, i: nat, j: nat, out: seq<Range>)
    requires Meeting(a, b, i, j, out) && (i == |a| || j == |b|)
    ensures Ordered(out) && forall c :: In(out, c) <==> In(a, c) && In(b, c)
  {
  }

  /** The intersection of two sets (fMeet). */
  method Meet(a: seq<Range>, b: seq<Range>) returns (out: seq<Range>)
    requires Ordered(a) && Ordered(b)
    ensures Ordered(out)
    ensures forall c :: In(out, c) <==> In(a, c) && In(b, c)
  {
    hide Meeting, In, Ordered;
    out := [];
    var i, j := 0, 0;
    MeetBegun(a, b);
    while i < |a| && j < |b|
      invariant 0 <= i <= |a| && 0 <= j <= |b| && Meeting(a, b, i, j, out)
      decreases |a| - i + |b| - j
    {
      MeetStep(a, b, i, j, out);
      var lo := if a[i].lo < b[j].lo then b[j].lo else a[i].lo;
      var hi := if a[i].hi < b[j].hi then a[i].hi else b[j].hi;
      if lo <= hi { out := out + [Range(lo, hi)]; }
      if a[i].hi < b[j].hi { i := i + 1; } else { j := j + 1; }
    }
    MeetEnded(a, b, i, j, out);
  }

  /** Membership by binary search (fHolds). */
  method Holds(rs: seq<Range>, cp: int) returns (r: bool)
    requires Ordered(rs)
    ensures r <==> In(rs, cp)
  {
    var lo, hi := 0, |rs| - 1;
    while lo <= hi
      invariant 0 <= lo <= hi + 1 <= |rs|
      invariant forall i :: 0 <= i < lo ==> rs[i].hi < cp
      invariant forall i :: hi < i < |rs| ==> cp < rs[i].lo
      decreases hi - lo + 1
    {
      var mid := (lo + hi) / 2;
      if cp < rs[mid].lo {
        hi := mid - 1;
      } else if rs[mid].hi < cp {
        lo := mid + 1;
      } else {
        return true;
      }
    }
    return false;
  }

  // ----- the least point held twice

  /** How many of the ranges hold c. */
  ghost function Cover(rs: seq<Range>, c: int): nat {
    if rs == [] then 0
    else Cover(rs[..|rs| - 1], c) + if rs[|rs| - 1].lo <= c <= rs[|rs| - 1].hi then 1 else 0
  }

  /** c is held by more than one of the sets. */
  ghost predicate HeldTwice(sets: seq<seq<Range>>, c: int) {
    exists i, j :: 0 <= i < j < |sets| && In(sets[i], c) && In(sets[j], c)
  }

  lemma {:induction false} CoverPlus(a: seq<Range>, b: seq<Range>, c: int)
    ensures Cover(a + b, c) == Cover(a, c) + Cover(b, c)
    decreases |b|
  {
    if b == [] {
      assert a + b == a;
    } else {
      var front := b[..|b| - 1];
      assert (a + b)[..|a + b| - 1] == a + front;
      CoverPlus(a, front, c);
    }
  }

  lemma {:induction false} CoverOne(rs: seq<Range>, c: int)
    ensures 0 < Cover(rs, c) <==> In(rs, c)
    ensures Ordered(rs) ==> Cover(rs, c) <= 1
  {
    if rs != [] {
      var front, last := rs[..|rs| - 1], rs[|rs| - 1];
      CoverOne(front, c);
      assert rs == front + [last];
      InPlus(front, [last], c);
      assert [last][0] == last;
      assert Ordered(rs) ==> forall i :: 0 <= i < |front| ==> front[i].hi < last.lo;
    }
  }

  lemma {:induction false} CoverInsert(rs: seq<Range>, r: Range, c: int)
    requires SortedByLo(rs)
    ensures Cover(InsertByLo(rs, r), c) == Cover(rs, c) + if r.lo <= c <= r.hi then 1 else 0
  {
    CoverSingle(r, c);
    if rs == [] {
    } else if r.lo < rs[0].lo {
      CoverPlus([r], rs, c);
    } else {
      CoverInsert(rs[1..], r, c);
      CoverPlus([rs[0]], rs[1..], c);
      assert rs == [rs[0]] + rs[1..];
      CoverPlus([rs[0]], InsertByLo(rs[1..], r), c);
    }
  }

  lemma CoverSingle(r: Range, c: int)
    ensures Cover([r], c) == if r.lo <= c <= r.hi then 1 else 0
  {
    assert [r][..0] == [];
  }

  lemma {:induction false} CoverSort(rs: seq<Range>, c: int)
    ensures Cover(SortByLo(rs), c) == Cover(rs, c)
  {
    if rs != [] {
      CoverSort(rs[..|rs| - 1], c);
      CoverInsert(SortByLo(rs[..|rs| - 1]), rs[|rs| - 1], c);
    }
  }

  lemma AnyPlus(front: seq<seq<Range>>, last: seq<Range>, c: int)
    ensures InAny(front + [last], c) <==> InAny(front, c) || In(last, c)
  {
    var sets := front + [last];
    if InAny(front, c) {
      var i :| 0 <= i < |front| && In(front[i], c);
      assert In(sets[i], c);
    }
    if In(last, c) { assert In(sets[|front|], c); }
    if InAny(sets, c) {
      var i :| 0 <= i < |sets| && In(sets[i], c);
      if i < |front| { assert In(front[i], c); }
    }
  }

  lemma TwicePlus(front: seq<seq<Range>>, last: seq<Range>, c: int)
    ensures HeldTwice(front + [last], c) <==> HeldTwice(front, c) || (InAny(front, c) && In(last, c))
  {
    var sets := front + [last];
    if HeldTwice(front, c) {
      var i, j :| 0 <= i < j < |front| && In(front[i], c) && In(front[j], c);
      assert In(sets[i], c) && In(sets[j], c);
    }
    if InAny(front, c) && In(last, c) {
      var i :| 0 <= i < |front| && In(front[i], c);
      assert In(sets[i], c) && In(sets[|front|], c);
    }
    if HeldTwice(sets, c) {
      var i, j :| 0 <= i < j < |sets| && In(sets[i], c) && In(sets[j], c);
      assert In(front[i], c);
      if j < |front| { assert In(front[j], c); }
    }
  }

  lemma {:induction false} CoverConcat(sets: seq<seq<Range>>, c: int)
    requires forall i :: 0 <= i < |sets| ==> Ordered(sets[i])
    ensures 0 < Cover(Concat(sets), c) <==> InAny(sets, c)
    ensures 1 < Cover(Concat(sets), c) <==> HeldTwice(sets, c)
  {
    hide In, InAny, HeldTwice, Ordered;
    if sets == [] {
      NoneHeld(c);
    } else {
      var front, last := sets[..|sets| - 1], sets[|sets| - 1];
      assert sets == front + [last];
      CoverConcat(front, c);
      CoverPlus(Concat(front), last, c);
      CoverOne(last, c);
      AnyPlus(front, last, c);
      TwicePlus(front, last, c);
    }
  }

  lemma NoneHeld(c: int)
    ensures !InAny([], c) && !HeldTwice([], c)
  {
  }

  lemma {:induction false} CoverUnder(rs: seq<Range>, c: int)
    requires forall i :: 0 <= i < |rs| ==> c < rs[i].lo
    ensures Cover(rs, c) == 0
  {
    if rs != [] { CoverUnder(rs[..|rs| - 1], c); }
  }

  /** Where two of the sets first meet, or -1 where no two do (fShared). */
  method Shared(sets: seq<seq<Range>>) returns (least: int)
    requires forall i :: 0 <= i < |sets| ==> Ordered(sets[i])
    requires forall i, k :: 0 <= i < |sets| && 0 <= k < |sets[i]| ==> 0 <= sets[i][k].lo
    ensures least == -1 ==> forall c :: !HeldTwice(sets, c)
    ensures least != -1 ==> HeldTwice(sets, least) && forall c :: HeldTwice(sets, c) ==> least <= c
    ensures -1 <= least
  {
    hide Scanned, HeldTwice, Cover, In, SortedByLo;
    var all := Gather(sets);
    var sorted := SortByLo(all);
    SharedSetup(sets, sorted);
    var top := -1;
    ScannedNothing();
    for k := 0 to |sorted|
      invariant -1 <= top && Scanned(sorted[..k], top)
    {
      var r := sorted[k];
      if r.lo <= top {
        SharedHere(sorted, k, top);
        return r.lo;
      }
      SharedNotYet(sorted[..k], r, top);
      assert sorted[..k + 1] == sorted[..k] + [r];
      top := if top < r.hi then r.hi else top;
    }
    assert sorted[..|sorted|] == sorted;
    ScannedAll(sorted, top);
    return -1;
  }

  lemma ScannedNothing()
    ensures Scanned([], -1)
  {
  }

  lemma ScannedAll(rs: seq<Range>, top: int)
    requires Scanned(rs, top)
    ensures forall c :: Cover(rs, c) <= 1
  {
  }

  /** No point of seen is covered twice, and top is its greatest point, -1 where it has none. */
  ghost predicate Scanned(seen: seq<Range>, top: int) {
    && AllProper(seen)
    && (forall i :: 0 <= i < |seen| ==> seen[i].hi <= top)
    && (top == -1 || In(seen, top))
    && (forall c :: Cover(seen, c) <= 1)
  }

  lemma SharedSetup(sets: seq<seq<Range>>, sorted: seq<Range>)
    requires forall i :: 0 <= i < |sets| ==> Ordered(sets[i])
    requires forall i, k :: 0 <= i < |sets| && 0 <= k < |sets[i]| ==> 0 <= sets[i][k].lo
    requires sorted == SortByLo(Concat(sets))
    ensures AllProper(sorted) && forall i :: 0 <= i < |sorted| ==> 0 <= sorted[i].lo
    ensures forall c :: 1 < Cover(sorted, c) <==> HeldTwice(sets, c)
  {
    ConcatIn(sets);
    SamePoints(Concat(sets), sorted);
    forall i | 0 <= i < |sorted| ensures 0 <= sorted[i].lo {
      assert In(sorted, sorted[i].lo);
      var k :| 0 <= k < |sets| && In(sets[k], sorted[i].lo);
    }
    forall c ensures 1 < Cover(sorted, c) <==> HeldTwice(sets, c) {
      CoverSort(Concat(sets), c);
      CoverConcat(sets, c);
    }
  }

  lemma SharedNotYet(seen: seq<Range>, r: Range, top: int)
    requires Scanned(seen, top) && top < r.lo <= r.hi
    ensures Scanned(seen + [r], r.hi)
  {
    assert (seen + [r])[|seen|] == r;
    assert (seen + [r])[..|seen|] == seen;
    forall c ensures Cover(seen + [r], c) <= 1 {
      CoverOne(seen, c);
    }
  }

  lemma SharedHere(sorted: seq<Range>, k: nat, top: int)
    requires k < |sorted| && SortedByLo(sorted) && AllProper(sorted)
    requires 0 <= sorted[k].lo <= top && Scanned(sorted[..k], top)
    ensures 1 < Cover(sorted, sorted[k].lo)
    ensures forall c :: 1 < Cover(sorted, c) ==> sorted[k].lo <= c
  {
    hide Cover;
    var r, seen, later := sorted[k], sorted[..k], sorted[k + 1..];
    assert In(seen, r.lo) by {
      var i :| 0 <= i < k && seen[i].lo <= top <= seen[i].hi;
      assert seen[i] == sorted[i] && seen[i].lo <= r.lo <= seen[i].hi;
    }
    CoverOne(seen, r.lo);
    CoverSplit(sorted, k, r.lo);
    forall c | 1 < Cover(sorted, c) ensures r.lo <= c {
      CoverSplit(sorted, k, c);
      if c < r.lo {
        assert forall i :: 0 <= i < |later| ==> later[i] == sorted[k + 1 + i];
        CoverUnder(later, c);
      }
    }
  }

  lemma CoverSplit(rs: seq<Range>, k: nat, c: int)
    requires k < |rs|
    ensures Cover(rs, c) == Cover(rs[..k], c) + (if rs[k].lo <= c <= rs[k].hi then 1 else 0) + Cover(rs[k + 1..], c)
  {
    hide Cover;
    assert rs == (rs[..k] + [rs[k]]) + rs[k + 1..];
    CoverPlus(rs[..k] + [rs[k]], rs[k + 1..], c);
    CoverPlus(rs[..k], [rs[k]], c);
    CoverSingle(rs[k], c);
  }

  /** Equal range lists (fSameRanges): the lists are the same, and on canonical ones so are the sets. */
  method SameRanges(a: seq<Range>, b: seq<Range>) returns (r: bool)
    ensures r <==> a == b
    ensures Canonical(a) && Canonical(b) ==> (r <==> forall c :: In(a, c) <==> In(b, c))
  {
    if Canonical(a) && Canonical(b) && forall c :: In(a, c) <==> In(b, c) {
      CanonicalUnique(a, b);
    }
    if |a| != |b| { return false; }
    for i := 0 to |a|
      invariant a[..i] == b[..i]
    {
      if a[i] != b[i] { return false; }
      assert a[..i + 1] == a[..i] + [a[i]] && b[..i + 1] == b[..i] + [b[i]];
    }
    assert a[..|a|] == a && b[..|b|] == b;
    return true;
  }
}
