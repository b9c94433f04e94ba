/**
 The library's stable sort, by a comparison, and the squeezing of runs of like neighbours
 the dedup functions do after it.
 */
module Sorting {

  /** less orders like a key does: irreflexive, transitive, and so is being unordered. */
  ghost predicate Weak<T(!new)>(less: (T, T) -> bool) {
    && (forall x :: !less(x, x))
    && (forall x, y, z :: less(x, y) && less(y, z) ==> less(x, z))
    && (forall x, y, z :: !less(x, y) && !less(y, z) ==> !less(x, z))
  }

  ghost predicate SortedBy<T>(xs: seq<T>, less: (T, T) -> bool) {
    forall i, j :: 0 <= i < j < |xs| ==> !less(xs[j], xs[i])
  }

  /** x behind everything it is not less than. */
  function Insert<T(!new)>(xs: seq<T>, x: T, less: (T, T) -> bool): (out: seq<T>)
    ensures |out| == |xs| + 1
    ensures forall y :: y in out <==> y in xs || y == x
  {
    if xs == [] then [x]
    else if less(x, xs[0]) then [x] + xs
    else
      var rest := Insert(xs[1..], x, less);
      assert xs == [xs[0]] + xs[1..];
      [xs[0]] + rest
  }

  function Sort<T(!new)>(xs: seq<T>, less: (T, T) -> bool): (out: seq<T>)
    ensures |out| == |xs|
    ensures forall y :: y in out <==> y in xs
  {
    if xs == [] then []
    else
      assert xs == xs[..|xs| - 1] + [xs[|xs| - 1]];
      Insert(Sort(xs[..|xs| - 1], less), xs[|xs| - 1], less)
  }

  lemma {:induction false} InsertSorted<T(!new)>(xs: seq<T>, x: T, less: (T, T) -> bool)
    requires Weak(less) && SortedBy(xs, less)
    ensures SortedBy(Insert(xs, x, less), less)
  {
    if xs == [] {
    } else if less(x, xs[0]) {
      var out := [x] + xs;
      forall i, j | 0 <= i < j < |out| ensures !less(out[j], out[i]) {
        if i == 0 {
          assert out[j] == xs[j - 1];
          assert 0 < j - 1 ==> !less(xs[j - 1], xs[0]);
        } else {
          assert out[j] == xs[j - 1] && out[i] == xs[i - 1];
        }
      }
    } else {
      assert forall i :: 0 <= i < |xs[1..]| ==> xs[1..][i] == xs[i + 1];
      InsertSorted(xs[1..], x, less);
      var rest := Insert(xs[1..], x, less);
      forall j | 0 <= j < |rest| ensures !less(rest[j], xs[0]) {
        assert rest[j] in rest;
        if rest[j] in xs[1..] {
          var k :| 0 <= k < |xs[1..]| && xs[1..][k] == rest[j];
          assert xs[k + 1] == rest[j];
        }
      }
    }
  }

  lemma {:induction false} SortSorted<T(!new)>(xs: seq<T>, less: (T, T) -> bool)
    requires Weak(less)
    ensures SortedBy(Sort(xs, less), less)
  {
    if xs != [] {
      SortSorted(xs[..|xs| - 1], less);
      InsertSorted(Sort(xs[..|xs| - 1], less), xs[|xs| - 1], less);
    }
  }

  /** Runs of like neighbours reduced to their first. */
  function Squeeze<T(!new)>(xs: seq<T>, same: (T, T) -> bool): (out: seq<T>)
    ensures xs != [] ==> out != []
    ensures |out| <= |xs|
    ensures forall y :: y in out ==> y in xs
  {
    if xs == [] then []
    else
      var front := Squeeze(xs[..|xs| - 1], same);
      assert forall y :: y in xs[..|xs| - 1] ==> y in xs;
      if front != [] && same(front[|front| - 1], xs[|xs| - 1]) then front else front + [xs[|xs| - 1]]
  }

  ghost predicate Like<T(!new)>(same: (T, T) -> bool) {
    && (forall x :: same(x, x))
    && (forall x, y :: same(x, y) ==> same(y, x))
    && (forall x, y, z :: same(x, y) && same(y, z) ==> same(x, z))
  }

  /** Nothing is lost but what something kept is like, and that one stands no later. */
  lemma {:induction false} SqueezeKeeps<T(!new)>(xs: seq<T>, same: (T, T) -> bool, x: T)
    requires Like(same) && x in xs
    ensures exists y :: y in Squeeze(xs, same) && same(y, x)
  {
    var n := |xs|;
    var front, last := xs[..n - 1], xs[n - 1];
    assert xs == front + [last];
    var f := Squeeze(front, same);
    if x in front {
      SqueezeKeeps(front, same, x);
      var y :| y in f && same(y, x);
      assert y in Squeeze(xs, same);
    } else {
      assert x == last;
      if f != [] && same(f[|f| - 1], last) {
        assert f[|f| - 1] in Squeeze(xs, same);
      } else {
        assert (f + [last])[|f|] == last;
        assert last in Squeeze(xs, same);
      }
    }
  }

  /** The loop that squeezes against the last one kept. */
  method SqueezeLoop<T(!new)>(xs: seq<T>, same: (T, T) -> bool) returns (out: seq<T>)
    ensures out == Squeeze(xs, same)
  {
    out := [];
    for i := 0 to |xs|
      invariant out == Squeeze(xs[..i], same)
    {
      assert xs[..i + 1][..i] == xs[..i] && xs[..i + 1][i] == xs[i];
      if |out| == 0 || !same(out[|out| - 1], xs[i]) { out := out + [xs[i]]; }
    }
    assert xs[..|xs|] == xs;
  }

  lemma {:induction false} SqueezeLast<T(!new)>(xs: seq<T>, same: (T, T) -> bool)
    requires Like(same) && xs != []
    ensures same(Squeeze(xs, same)[|Squeeze(xs, same)| - 1], xs[|xs| - 1])
  {
    if 1 < |xs| { SqueezeLast(xs[..|xs| - 1], same); }
  }

  lemma NeighbourLike<T(!new)>(xs: seq<T>, i: nat, same: (T, T) -> bool)
    requires Like(same) && 0 < i < |xs|
    ensures var f := Squeeze(xs[..i], same); f != [] && (same(f[|f| - 1], xs[i]) <==> same(xs[i - 1], xs[i]))
  {
    hide Squeeze;
    SqueezeLast(xs[..i], same);
  }

  /** The loop that squeezes against the element in front: the same, where likeness carries. */
  method SqueezeNeighbours<T(!new)>(xs: seq<T>, same: (T, T) -> bool) returns (out: seq<T>)
    requires Like(same)
    ensures out == Squeeze(xs, same)
  {
    out := [];
    for i := 0 to |xs|
      invariant out == Squeeze(xs[..i], same)
    {
      assert xs[..i + 1][..i] == xs[..i] && xs[..i + 1][i] == xs[i];
      if 0 < i { NeighbourLike(xs, i, same); }
      if i == 0 || !same(xs[i - 1], xs[i]) { out := out + [xs[i]]; }
    }
    assert xs[..|xs|] == xs;
  }

  // ----- sorted and squeezed: one form per set

  ghost predicate StrictlySorted<T>(xs: seq<T>, less: (T, T) -> bool) {
    forall i, j :: 0 <= i < j < |xs| ==> less(xs[i], xs[j])
  }

  /** Of the elements of xs, exactly the unordered are like. */
  ghost predicate LikeUnordered<T>(xs: seq<T>, less: (T, T) -> bool, same: (T, T) -> bool) {
    forall x, y :: x in xs && y in xs ==> (same(x, y) <==> !less(x, y) && !less(y, x))
  }

  lemma FrontSorted<T>(xs: seq<T>, less: (T, T) -> bool, same: (T, T) -> bool)
    requires xs != [] && SortedBy(xs, less) && LikeUnordered(xs, less, same)
    ensures SortedBy(xs[..|xs| - 1], less) && LikeUnordered(xs[..|xs| - 1], less, same)
    ensures forall x :: x in xs[..|xs| - 1] ==> x in xs
  {
    assert forall i :: 0 <= i < |xs| - 1 ==> xs[..|xs| - 1][i] == xs[i];
  }

  /** Where only like elements are unordered, a sorted list squeezes to a strictly sorted one. */
  lemma {:induction false} SqueezeStrict<T(!new)>(xs: seq<T>, less: (T, T) -> bool, same: (T, T) -> bool)
    requires Weak(less) && SortedBy(xs, less) && LikeUnordered(xs, less, same)
    ensures StrictlySorted(Squeeze(xs, same), less)
  {
    if xs != [] {
      var n := |xs|;
      var front, last := xs[..n - 1], xs[n - 1];
      FrontSorted(xs, less, same);
      SqueezeStrict(front, less, same);
      PushKept(xs, less, same);
    }
  }

  lemma PushKept<T(!new)>(xs: seq<T>, less: (T, T) -> bool, same: (T, T) -> bool)
    requires xs != [] && Weak(less) && SortedBy(xs, less) && LikeUnordered(xs, less, same)
    requires StrictlySorted(Squeeze(xs[..|xs| - 1], same), less)
    ensures StrictlySorted(Squeeze(xs, same), less)
  {
    hide Weak, SortedBy, StrictlySorted, LikeUnordered;
    var front, last := xs[..|xs| - 1], xs[|xs| - 1];
    var f := Squeeze(front, same);
    SingleStrict(last, less);
    if f != [] {
      var k := f[|f| - 1];
      assert k in f && k in front;
      LastBehind(xs, less, k);
      assert same(k, last) || less(k, last) by {
        FrontSorted(xs, less, same);
        LikeOr(xs, less, same, k, last);
      }
      if !same(k, last) { StrictPush(f, last, less); }
    } else {
      assert f + [last] == [last];
    }
  }

  lemma SingleStrict<T>(last: T, less: (T, T) -> bool)
    ensures StrictlySorted([last], less)
  {
  }

  lemma LikeOr<T>(xs: seq<T>, less: (T, T) -> bool, same: (T, T) -> bool, x: T, y: T)
    requires LikeUnordered(xs, less, same) && x in xs && y in xs
    ensures same(x, y) || less(x, y) || less(y, x)
  {
  }

  lemma StrictPush<T(!new)>(f: seq<T>, last: T, less: (T, T) -> bool)
    requires Weak(less) && StrictlySorted(f, less) && f != [] && less(f[|f| - 1], last)
    ensures StrictlySorted(f + [last], less)
  {
    var out := f + [last];
    forall i, j | 0 <= i < j < |out| ensures less(out[i], out[j]) {
      if j < |f| { assert out[i] == f[i] && out[j] == f[j]; }
      if j == |f| && i < |f| - 1 { assert less(f[i], f[|f| - 1]) && less(f[|f| - 1], last); }
    }
  }

  lemma {:induction false} StrictUnique<T(!new)>(a: seq<T>, b: seq<T>, less: (T, T) -> bool)
    requires Weak(less) && StrictlySorted(a, less) && StrictlySorted(b, less)
    requires forall x :: x in a <==> x in b
    ensures a == b
  {
    if a == [] {
      HasHead(b);
    } else {
      assert a[0] in b && b != [];
      assert b[0] in a;
      HeadsSame(a, b, less);
      forall x ensures x in a[1..] <==> x in b[1..] {
        TailHas(a, less, x);
        TailHas(b, less, x);
      }
      assert forall i :: 0 <= i < |a[1..]| ==> a[1..][i] == a[i + 1];
      assert forall i :: 0 <= i < |b[1..]| ==> b[1..][i] == b[i + 1];
      StrictUnique(a[1..], b[1..], less);
      assert a == [a[0]] + a[1..] && b == [b[0]] + b[1..];
    }
  }

  lemma HasHead<T>(b: seq<T>)
    ensures b != [] ==> b[0] in b
  {
  }

  lemma HeadLeast<T(!new)>(a: seq<T>, less: (T, T) -> bool, x: T)
    requires StrictlySorted(a, less) && x in a
    ensures x == a[0] || less(a[0], x)
  {
  }

  lemma HeadsSame<T(!new)>(a: seq<T>, b: seq<T>, less: (T, T) -> bool)
    requires Weak(less) && StrictlySorted(a, less) && StrictlySorted(b, less)
    requires a != [] && b != [] && a[0] in b && b[0] in a
    ensures a[0] == b[0]
  {
    HeadLeast(a, less, b[0]);
    HeadLeast(b, less, a[0]);
  }

  lemma TailHas<T(!new)>(a: seq<T>, less: (T, T) -> bool, x: T)
    requires Weak(less) && StrictlySorted(a, less) && a != []
    ensures x in a[1..] <==> x in a && x != a[0]
  {
    if x in a[1..] {
      var i :| 0 <= i < |a[1..]| && a[1..][i] == x;
      assert a[i + 1] == x && less(a[0], a[i + 1]);
    }
    if x in a && x != a[0] {
      var i :| 0 <= i < |a| && a[i] == x;
      assert a[1..][i - 1] == x;
    }
  }

  /** What squeezing keeps is the first of its run: nothing like it sorts in front. */
  lemma {:induction false} SqueezeFirst<T(!new)>(xs: seq<T>, less: (T, T) -> bool, key: (T, T) -> bool, same: (T, T) -> bool,
                                                 y: T, x: T)
    requires Like(same) && SortedBy(xs, less) && StrictlySorted(Squeeze(xs, same), key)
    requires forall p, q :: same(p, q) ==> !key(p, q)
    requires forall p :: !less(p, p)
    requires y in Squeeze(xs, same) && x in xs && same(y, x)
    ensures !less(x, y)
  {
    var n := |xs|;
    var front, last := xs[..n - 1], xs[n - 1];
    assert xs == front + [last];
    var f := Squeeze(front, same);
    assert SortedBy(front, less) by { assert forall i :: 0 <= i < |front| ==> front[i] == xs[i]; }
    assert StrictlySorted(f, key) by { PrefixStrict(f, Squeeze(xs, same), key); }
    if y in f {
      if x in front {
        SqueezeFirst(front, less, key, same, y, x);
      } else {
        LastBehind(xs, less, y);
      }
    } else if x in front {
      SqueezeKeeps(front, same, x);
      var k :| k in f && same(k, x);
      assert same(k, last);
      StrictBefore(f, last, key, k);
    }
  }

  lemma PrefixStrict<T(!new)>(f: seq<T>, out: seq<T>, key: (T, T) -> bool)
    requires StrictlySorted(out, key) && f <= out
    ensures StrictlySorted(f, key)
  {
    assert forall i :: 0 <= i < |f| ==> f[i] == out[i];
  }

  lemma LastBehind<T(!new)>(xs: seq<T>, less: (T, T) -> bool, y: T)
    requires SortedBy(xs, less) && xs != [] && y in xs[..|xs| - 1]
    ensures !less(xs[|xs| - 1], y)
  {
    var i :| 0 <= i < |xs[..|xs| - 1]| && xs[..|xs| - 1][i] == y;
    assert xs[i] == y;
  }

  lemma StrictBefore<T(!new)>(f: seq<T>, last: T, key: (T, T) -> bool, k: T)
    requires StrictlySorted(f + [last], key) && k in f
    ensures key(k, last)
  {
    var i :| 0 <= i < |f| && f[i] == k;
    assert (f + [last])[i] == k && (f + [last])[|f|] == last;
  }
}
