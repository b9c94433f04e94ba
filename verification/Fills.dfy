/**
 What a meet generated against what a value carries (fillDiff, withoutOptionalFills and sameJSON,
 go/admit.go:23-132): a trial admits a value where the meet adds nothing but what it makes optional.
 */
module Fills {
  import opened Numerals
  import opened Decimals
  import Scalars

  type Exact = d: Decimal | Normal(d) witness Decimal(0, 1)

  /** Generated JSON: whole numbers of either width are one kind, exact decimals another, binary
      floats, taken as the reals they are, a third. */
  datatype Json =
    | Null
    | Bool(b: bool)
    | Whole(n: int)
    | Float(x: real)
    | Exactly(d: Exact)
    | Text(s: string)
    | Arr(items: seq<Json>)
    | Obj(members: map<string, Json>)

  /** A settled value, read for its optional keys; Bare is any that has no children, or none. */
  datatype Val = MapVal(peg: map<string, Val>, optional: set<string>) | ListVal(items: seq<Val>) | Bare

  type Path = seq<string>

  // ----- segments

  /** strconv.Atoi, for what can be an index. */
  function Index(seg: string): int {
    var digits := if seg != "" && (seg[0] == '+' || seg[0] == '-') then seg[1..] else seg;
    if digits == "" || !IsDigits(digits) then -1
    else if seg[0] == '-' then 0 - ReadDigits(digits)
    else ReadDigits(digits)
  }

  /** admitMember. */
  function Member(v: Val, seg: string): Val {
    match v
    case MapVal(peg, _) => if seg in peg then peg[seg] else Bare
    case ListVal(items) => if 0 <= Index(seg) < |items| then items[Index(seg)] else Bare
    case Bare => Bare
  }

  predicate OptionalIn(v: Val, k: string) {
    v.MapVal? && k in v.optional
  }

  lemma IndexOf(i: nat)
    ensures Index(DigitsOf(i)) == i
  {
    ReadOf(i);
    assert IsDigits(DigitsOf(i)[..1]);
    assert '0' <= DigitsOf(i)[0] <= '9';
  }

  /** A run of digits, a plus in front or none, spells the position; a minus spells only the first. */
  ghost predicate Positions(seg: string, i: nat) {
    exists d: string :: d != "" && IsDigits(d) && ReadDigits(d) == i && (seg == d || seg == "+" + d || (seg == "-" + d && i == 0))
  }

  /** What stands in a settled value under a segment: a map's member, or a list's item at the position
      spelled. */
  ghost function Under(v: Val, seg: string): Val {
    if v.MapVal? && seg in v.peg then v.peg[seg]
    else if v.ListVal? && exists i: nat :: i < |v.items| && Positions(seg, i) then
      var i: nat :| i < |v.items| && Positions(seg, i);
      v.items[i]
    else Bare
  }

  ghost predicate Excused(v: Val, k: string) {
    v.MapVal? && k in v.optional
  }

  lemma PositionIs(seg: string, i: nat)
    ensures Positions(seg, i) <==> Index(seg) == i
  {
    var digits := if seg != "" && (seg[0] == '+' || seg[0] == '-') then seg[1..] else seg;
    if Index(seg) == i {
      assert seg == digits || seg == [seg[0]] + digits;
    }
    if d: string :| d != "" && IsDigits(d) && ReadDigits(d) == i && (seg == d || seg == "+" + d || (seg == "-" + d && i == 0)) {
      assert d[0] != '+' && d[0] != '-';
      assert digits == d;
    }
  }

  lemma MemberIs(v: Val, seg: string)
    ensures Member(v, seg) == Under(v, seg)
  {
    hide Index, Positions;
    if v.ListVal? {
      forall i: nat ensures Positions(seg, i) <==> Index(seg) == i { PositionIs(seg, i); }
      assert 0 <= Index(seg) < |v.items| ==> Positions(seg, Index(seg));
    }
  }

  /** What is asked of a settled value is what stands there. */
  lemma MembersAre(v: Val)
    ensures forall seg :: Member(v, seg) == Under(v, seg)
    ensures forall k :: OptionalIn(v, k) <==> Excused(v, k)
  {
    hide Member, Under;
    forall seg ensures Member(v, seg) == Under(v, seg) { MemberIs(v, seg); }
  }

  // ----- keys in order

  /** The least key of a set. */
  ghost predicate Least(k: string, s: set<string>) {
    k in s && forall o :: o in s ==> Scalars.CmpText(k, o) <= 0
  }

  lemma {:induction false} HasLeast(s: set<string>)
    requires s != {}
    ensures exists k :: Least(k, s)
    decreases |s|
  {
    hide Scalars.CmpText;
    var k :| k in s;
    Scalars.CmpTextEqual(k, k);
    var rest := s - {k};
    if rest == {} {
      forall o | o in s ensures Scalars.CmpText(k, o) <= 0 { assert o !in rest; }
      assert Least(k, s);
    } else {
      HasLeast(rest);
      var least :| Least(least, rest);
      Scalars.CmpTextFlip(least, k);
      if Scalars.CmpText(least, k) <= 0 {
        assert Least(least, s);
      } else {
        forall o | o in s ensures Scalars.CmpText(k, o) <= 0 {
          if o != k { Scalars.CmpTextTrans(k, least, o); }
        }
        assert Least(k, s);
      }
    }
  }

  /** sortedKeys. */
  ghost function SortedKeys(s: set<string>): (ks: seq<string>)
    ensures forall k :: k in ks <==> k in s
    decreases |s|
  {
    if s == {} then []
    else
      HasLeast(s);
      var k :| Least(k, s);
      [k] + SortedKeys(s - {k})
  }

  // ----- the three

  /** fillDiff: the positions the generated JSON holds that the data lacks and no optional key excuses. */
  ghost function FillDiff(g: Json, d: Json, v: Val, path: Path): seq<Path>
    decreases g, 0
  {
    match g
    case Obj(members) => FillKeys(g, SortedKeys(members.Keys), d, v, path)
    case Arr(items) => FillItems(g, 0, d, v, path)
    case _ => []
  }

  ghost function FillKeys(g: Json, ks: seq<string>, d: Json, v: Val, path: Path): seq<Path>
    requires g.Obj? && forall k :: k in ks ==> k in g.members
    decreases g, 0, |ks|
  {
    if ks == [] then []
    else
      var k := ks[0];
      var at := path + [k];
      (if d.Obj? && k in d.members then FillDiff(g.members[k], d.members[k], Member(v, k), at)
       else if !OptionalIn(v, k) then [at] else [])
      + FillKeys(g, ks[1..], d, v, path)
  }

  ghost function FillItems(g: Json, i: nat, d: Json, v: Val, path: Path): seq<Path>
    requires g.Arr? && i <= |g.items|
    decreases g, 0, |g.items| - i
  {
    if i == |g.items| then []
    else
      var at := path + [DigitsOf(i)];
      (if d.Arr? && i < |d.items| then FillDiff(g.items[i], d.items[i], Member(v, DigitsOf(i)), at) else [at])
      + FillItems(g, i + 1, d, v, path)
  }

  /** withoutOptionalFills: of the generated JSON, what the data carries. */
  function WithoutFills(g: Json, d: Json): Json {
    match g
    case Obj(members) =>
      var data := if d.Obj? then d.members else map[];
      Obj(map k | k in members && k in data :: WithoutFills(members[k], data[k]))
    case Arr(items) =>
      var data := if d.Arr? then d.items else [];
      Arr(seq(|items|, i requires 0 <= i < |items| => if i < |data| then WithoutFills(items[i], data[i]) else items[i]))
    case _ => g
  }

  /** sameJSON. */
  predicate SameJson(a: Json, b: Json) {
    match a
    case Obj(xs) => b.Obj? && |xs| == |b.members| && forall k :: k in xs ==> k in b.members && SameJson(xs[k], b.members[k])
    case Arr(xs) => b.Arr? && |xs| == |b.items| && forall i :: 0 <= i < |xs| ==> SameJson(xs[i], b.items[i])
    case Exactly(d) => b.Exactly? && Cmp(d, b.d) == 0
    case Whole(n) => b.Whole? && n == b.n
    case _ => a == b
  }

  /** The verdict on a meet that held (trialVerdict, Admits). */
  ghost predicate AdmitsOwn(out: Json, own: Json, met: Val) {
    FillDiff(out, own, met, []) == [] && SameJson(WithoutFills(out, own), own)
  }

  // ----- what they mean

  /** The generated JSON is the data's, with members the settled value makes optional and no others. */
  ghost predicate Extends(g: Json, d: Json, v: Val)
    decreases d
  {
    match d
    case Obj(data) =>
      && g.Obj? && (forall k :: k in data ==> k in g.members && Extends(g.members[k], data[k], Under(v, k)))
      && forall k :: k in g.members && k !in data ==> Excused(v, k)
    case Arr(data) =>
      g.Arr? && |g.items| == |data| && forall i :: 0 <= i < |data| ==> Extends(g.items[i], data[i], Under(v, DigitsOf(i)))
    case _ => g == d
  }

  lemma SameKeys<T, U>(a: map<string, T>, b: map<string, U>)
    requires |a| == |b| && forall k :: k in a ==> k in b
    ensures a.Keys == b.Keys
  {
    Within(a.Keys, b.Keys);
  }

  lemma {:induction false} Within<T>(a: set<T>, b: set<T>)
    requires a <= b && |a| == |b|
    ensures a == b
  {
    assert |b - a| == 0;
  }

  /** sameJSON is equality of JSON. */
  lemma {:induction false} SameIs(a: Json, b: Json)
    ensures SameJson(a, b) <==> a == b
    decreases a
  {
    hide Cmp;
    match a
    case Obj(xs) =>
      if b.Obj? {
        forall k | k in xs && k in b.members ensures SameJson(xs[k], b.members[k]) <==> xs[k] == b.members[k] { SameIs(xs[k], b.members[k]); }
        if SameJson(a, b) { SameKeys(xs, b.members); }
      }
    case Arr(xs) =>
      if b.Arr? && |xs| == |b.items| {
        forall i | 0 <= i < |xs| ensures SameJson(xs[i], b.items[i]) <==> xs[i] == b.items[i] { SameIs(xs[i], b.items[i]); }
      }
    case Exactly(d) => if b.Exactly? { CmpOrders(d, b.d); }
    case _ =>
  }

  // ----- the differences, one by one

  /** The generated JSON holds the position, the data lacks it, and no optional key excuses it. */
  ghost predicate Lacks(g: Json, d: Json, v: Val, at: Path)
    decreases at
  {
    && at != []
    && match g
       case Obj(members) =>
         && at[0] in members
         && (if d.Obj? && at[0] in d.members then Lacks(members[at[0]], d.members[at[0]], Under(v, at[0]), at[1..])
             else at[1..] == [] && !Excused(v, at[0]))
       case Arr(items) =>
         var i := Index(at[0]);
         && 0 <= i < |items| && at[0] == DigitsOf(i)
         && (if d.Arr? && i < |d.items| then Lacks(items[i], d.items[i], Under(v, at[0]), at[1..]) else at[1..] == [])
       case _ => false
  }

  /** What a path at one child says of the paths behind it. */
  ghost predicate Behind(path: Path, seg: string, p: Path) {
    |path| < |p| && p[..|path|] == path && p[|path|] == seg
  }

  lemma BehindOn(path: Path, seg: string, p: Path)
    ensures Behind(path, seg, p) ==> path + [seg] <= p && p[|path| + 1..] == p[|path|..][1..] && p[|path|..][0] == seg
    ensures path + [seg] <= p ==> Behind(path, seg, p)
    ensures Behind(path, seg, p) && p[|path| + 1..] == [] <==> p == path + [seg]
    ensures p == path + [seg] ==> p[|path|..] == [seg]
  {
    if Behind(path, seg, p) {
      assert p[..|path| + 1] == path + [seg];
      assert p == p[..|path| + 1] + p[|path| + 1..];
    }
    if path + [seg] <= p {
      assert p[..|path| + 1] == path + [seg];
      assert p[..|path|] == p[..|path| + 1][..|path|] == path;
      assert p[|path|] == p[..|path| + 1][|path|];
    }
  }

  /** Exactly the lacking positions are listed. */
  lemma {:induction false} FillsListed(g: Json, d: Json, v: Val, path: Path, p: Path)
    ensures p in FillDiff(g, d, v, path) <==> path <= p && Lacks(g, d, v, p[|path|..])
    decreases g, 0
  {
    hide Member, OptionalIn, Under, Excused, SortedKeys;
    match g
    case Obj(members) =>
      var ks := SortedKeys(members.Keys);
      KeysListed(g, ks, d, v, path, p);
      assert path < p && p[|path|] in members ==> p[|path|] in ks;
    case Arr(items) =>
      ItemsListed(g, 0, d, v, path, p);
      assert path < p <==> path <= p && p[|path|..] != [];
    case _ =>
  }

  /** What one key lists. */
  ghost function KeyFills(g: Json, k: string, d: Json, v: Val, path: Path): seq<Path>
    requires g.Obj? && k in g.members
  {
    if d.Obj? && k in d.members then FillDiff(g.members[k], d.members[k], Member(v, k), path + [k])
    else if !OptionalIn(v, k) then [path + [k]] else []
  }

  lemma {:induction false} KeyListed(g: Json, k: string, d: Json, v: Val, path: Path, p: Path)
    requires g.Obj? && k in g.members
    ensures p in KeyFills(g, k, d, v, path) <==> path < p && p[|path|] == k && Lacks(g, d, v, p[|path|..])
    decreases g, 0, 0
  {
    MembersAre(v);
    hide Member, OptionalIn, Under, Excused, FillDiff;
    BehindOn(path, k, p);
    if d.Obj? && k in d.members {
      FillsListed(g.members[k], d.members[k], Member(v, k), path + [k], p);
    }
  }

  lemma {:induction false} KeysListed(g: Json, ks: seq<string>, d: Json, v: Val, path: Path, p: Path)
    requires g.Obj? && forall k :: k in ks ==> k in g.members
    ensures p in FillKeys(g, ks, d, v, path) <==> path < p && p[|path|] in ks && Lacks(g, d, v, p[|path|..])
    decreases g, 0, |ks|
  {
    MembersAre(v);
    hide Member, OptionalIn, Under, Excused, Lacks, FillDiff;
    if ks != [] {
      KeyListed(g, ks[0], d, v, path, p);
      KeysListed(g, ks[1..], d, v, path, p);
      assert FillKeys(g, ks, d, v, path) == KeyFills(g, ks[0], d, v, path) + FillKeys(g, ks[1..], d, v, path);
      assert path < p ==> (p[|path|] in ks <==> p[|path|] == ks[0] || p[|path|] in ks[1..]);
    }
  }

  /** What one item lists. */
  ghost function ItemFills(g: Json, i: nat, d: Json, v: Val, path: Path): seq<Path>
    requires g.Arr? && i < |g.items|
  {
    if d.Arr? && i < |d.items| then FillDiff(g.items[i], d.items[i], Member(v, DigitsOf(i)), path + [DigitsOf(i)])
    else [path + [DigitsOf(i)]]
  }

  lemma {:induction false} ItemListed(g: Json, i: nat, d: Json, v: Val, path: Path, p: Path)
    requires g.Arr? && i < |g.items|
    ensures p in ItemFills(g, i, d, v, path) <==> path < p && p[|path|] == DigitsOf(i) && Lacks(g, d, v, p[|path|..])
    decreases g, 0, 0
  {
    MembersAre(v);
    hide Member, OptionalIn, Under, Excused, FillDiff, DigitsOf, Index;
    var seg := DigitsOf(i);
    IndexOf(i);
    BehindOn(path, seg, p);
    if d.Arr? && i < |d.items| {
      FillsListed(g.items[i], d.items[i], Member(v, seg), path + [seg], p);
    }
  }

  lemma {:induction false} ItemsListed(g: Json, i: nat, d: Json, v: Val, path: Path, p: Path)
    requires g.Arr? && i <= |g.items|
    ensures p in FillItems(g, i, d, v, path)
            <==> path < p && i <= Index(p[|path|]) < |g.items| && Lacks(g, d, v, p[|path|..])
    decreases g, 0, 1 + |g.items| - i
  {
    MembersAre(v);
    hide Member, OptionalIn, Under, Excused, FillDiff, DigitsOf, Index;
    if i < |g.items| {
      ItemListed(g, i, d, v, path, p);
      ItemsListed(g, i + 1, d, v, path, p);
      IndexOf(i);
      assert FillItems(g, i, d, v, path) == ItemFills(g, i, d, v, path) + FillItems(g, i + 1, d, v, path);
    }
  }

  // ----- the verdict

  /** What one key must be for nothing to be listed. */
  ghost predicate KeyFilled(g: Json, k: string, d: Json, v: Val, path: Path)
    requires g.Obj? && k in g.members
  {
    if d.Obj? && k in d.members then FillDiff(g.members[k], d.members[k], Member(v, k), path + [k]) == [] else OptionalIn(v, k)
  }

  lemma {:induction false} KeysNone(g: Json, ks: seq<string>, d: Json, v: Val, path: Path)
    requires g.Obj? && forall k :: k in ks ==> k in g.members
    ensures FillKeys(g, ks, d, v, path) == [] <==> forall k :: k in ks ==> KeyFilled(g, k, d, v, path)
  {
    hide FillDiff, Member, OptionalIn, Under, Excused;
    if ks != [] {
      KeysNone(g, ks[1..], d, v, path);
      assert forall k :: k in ks <==> k == ks[0] || k in ks[1..];
      assert KeyFilled(g, ks[0], d, v, path) || !KeyFilled(g, ks[0], d, v, path);
    }
  }

  ghost predicate ItemFilled(g: Json, i: nat, d: Json, v: Val, path: Path)
    requires g.Arr? && i < |g.items|
  {
    d.Arr? && i < |d.items| && FillDiff(g.items[i], d.items[i], Member(v, DigitsOf(i)), path + [DigitsOf(i)]) == []
  }

  lemma {:induction false} ItemsNone(g: Json, i: nat, d: Json, v: Val, path: Path)
    requires g.Arr? && i <= |g.items|
    ensures FillItems(g, i, d, v, path) == [] <==> forall j: nat :: i <= j < |g.items| ==> ItemFilled(g, j, d, v, path)
    decreases |g.items| - i
  {
    hide FillDiff, Member, DigitsOf;
    if i < |g.items| {
      ItemsNone(g, i + 1, d, v, path);
      assert ItemFilled(g, i, d, v, path) || !ItemFilled(g, i, d, v, path);
    }
  }

  /** Nothing lacking, and what is left is the data: exactly where the generated JSON is the data's with
      optional members added. */
  lemma {:induction false} FilledIs(g: Json, d: Json, v: Val, path: Path)
    ensures FillDiff(g, d, v, path) == [] && WithoutFills(g, d) == d <==> Extends(g, d, v)
    decreases g
  {
    match g
    case Obj(members) => if d.Obj? { ObjFilled(g, d, v, path); }
    case Arr(items) => if d.Arr? { ArrFilled(g, d, v, path); }
    case _ =>
  }

  lemma {:induction false} ObjFilled(g: Json, d: Json, v: Val, path: Path)
    requires g.Obj? && d.Obj?
    ensures FillDiff(g, d, v, path) == [] && WithoutFills(g, d) == d <==> Extends(g, d, v)
    decreases g, 0
  {
    MembersAre(v);
    hide FillKeys, SortedKeys, Member, OptionalIn, Under, Excused;
    KeysNone(g, SortedKeys(g.members.Keys), d, v, path);
    forall k | k in g.members && k in d.members
      ensures KeyFilled(g, k, d, v, path) && WithoutFills(g.members[k], d.members[k]) == d.members[k] <==> Extends(g.members[k], d.members[k], Member(v, k)) {
      FilledIs(g.members[k], d.members[k], Member(v, k), path + [k]);
    }
    KeptKeys(g, d);
  }

  /** What is left of a map is the data exactly where every key of the data is held, and left, the same. */
  lemma KeptKeys(g: Json, d: Json)
    requires g.Obj? && d.Obj?
    ensures WithoutFills(g, d) == d
            <==> forall k :: k in d.members ==> k in g.members && WithoutFills(g.members[k], d.members[k]) == d.members[k]
  {
    var left := map k | k in g.members && k in d.members :: WithoutFills(g.members[k], d.members[k]);
    assert WithoutFills(g, d) == Obj(left);
    MapSame(left, d.members);
  }

  lemma MapSame<K, V>(a: map<K, V>, b: map<K, V>)
    requires forall k :: k in a ==> k in b
    ensures a == b <==> forall k :: k in b ==> k in a && a[k] == b[k]
  {
    if forall k :: k in b ==> k in a && a[k] == b[k] { assert a.Keys == b.Keys; }
  }

  lemma {:induction false} ArrFilled(g: Json, d: Json, v: Val, path: Path)
    requires g.Arr? && d.Arr?
    ensures FillDiff(g, d, v, path) == [] && WithoutFills(g, d) == d <==> Extends(g, d, v)
    decreases g, 0
  {
    MembersAre(v);
    hide FillItems, Member, Under, DigitsOf;
    ItemsNone(g, 0, d, v, path);
    forall i: nat | i < |g.items| && i < |d.items|
      ensures ItemFilled(g, i, d, v, path) && WithoutFills(g.items[i], d.items[i]) == d.items[i]
              <==> Extends(g.items[i], d.items[i], Member(v, DigitsOf(i))) {
      FilledIs(g.items[i], d.items[i], Member(v, DigitsOf(i)), path + [DigitsOf(i)]);
    }
    if |g.items| <= |d.items| {
      KeptItems(g, d);
    } else {
      assert !ItemFilled(g, |d.items|, d, v, path);
    }
  }

  lemma KeptItems(g: Json, d: Json)
    requires g.Arr? && d.Arr? && |g.items| <= |d.items|
    ensures WithoutFills(g, d) == d
            <==> |g.items| == |d.items| && forall i :: 0 <= i < |g.items| ==> WithoutFills(g.items[i], d.items[i]) == d.items[i]
  {
    var left := WithoutFills(g, d).items;
    assert |left| == |g.items| && forall i :: 0 <= i < |left| ==> left[i] == WithoutFills(g.items[i], d.items[i]);
    if |left| == |d.items| && forall i :: 0 <= i < |left| ==> left[i] == d.items[i] { assert left == d.items; }
  }

  /** The trial's last word: what the meet generates is the value's own JSON with members it makes
      optional added, at any depth, and nothing else. */
  lemma AdmitsOwnIs(out: Json, own: Json, met: Val)
    ensures AdmitsOwn(out, own, met) <==> Extends(out, own, met)
  {
    hide FillDiff, WithoutFills, SameJson, Extends;
    SameIs(WithoutFills(out, own), own);
    FilledIs(out, own, met, []);
  }

  /** A value is an instance of whatever generates its own JSON. */
  lemma {:induction false} OwnAdmitted(own: Json, met: Val)
    ensures Extends(own, own, met)
    decreases own
  {
    match own
    case Obj(members) =>
      forall k | k in members ensures Extends(members[k], members[k], Under(met, k)) { OwnAdmitted(members[k], Under(met, k)); }
    case Arr(items) =>
      forall i | 0 <= i < |items| ensures Extends(items[i], items[i], Under(met, DigitsOf(i))) { OwnAdmitted(items[i], Under(met, DigitsOf(i))); }
    case _ =>
  }
}
