/**
 What the importer writes, read back (go/jsonschema_import.go:506-633): the reader binds `&` closer
 than a bar, as the language does (go/lang.go:327-328), and takes brackets as they stand.  Whatever
 the grouping, the same meet or disjunction is read, and the chains it is read as are as short as
 the writer means them to be exactly where no chain stands unbracketed in a chain of its kind and
 makes it longer.
 */
module WrittenBack {
  import opened Branches
  import opened Writer

  // ----- reading

  datatype Out = Read(e: Expr, rest: seq<Tok>) | Bad

  function Pack(and: bool, items: seq<Expr>): Expr {
    if |items| == 1 then items[0] else if and then And(items) else Or(items)
  }

  function ReadOr(ts: seq<Tok>): (out: Out)
    ensures out.Read? ==> |out.rest| < |ts|
    decreases |ts|, 4
  {
    OrLoop([], ts)
  }

  function OrLoop(acc: seq<Expr>, ts: seq<Tok>): (out: Out)
    ensures out.Read? ==> |out.rest| < |ts|
    decreases |ts|, 3
  {
    var x := ReadAnd(ts);
    if x.Bad? then Bad else OrNext(acc + [x.e], x.rest)
  }

  function OrNext(acc: seq<Expr>, ts: seq<Tok>): (out: Out)
    ensures out.Read? ==> |out.rest| <= |ts|
    decreases |ts|, 0
  {
    if ts != [] && ts[0] == Bar then OrLoop(acc, ts[1..]) else Read(Pack(false, acc), ts)
  }

  function ReadAnd(ts: seq<Tok>): (out: Out)
    ensures out.Read? ==> |out.rest| < |ts|
    decreases |ts|, 2
  {
    AndLoop([], ts)
  }

  function AndLoop(acc: seq<Expr>, ts: seq<Tok>): (out: Out)
    ensures out.Read? ==> |out.rest| < |ts|
    decreases |ts|, 1
  {
    var x := ReadOne(ts);
    if x.Bad? then Bad else AndNext(acc + [x.e], x.rest)
  }

  function AndNext(acc: seq<Expr>, ts: seq<Tok>): (out: Out)
    ensures out.Read? ==> |out.rest| <= |ts|
    decreases |ts|, 0
  {
    if ts != [] && ts[0] == Amp then AndLoop(acc, ts[1..]) else Read(Pack(true, acc), ts)
  }

  function ReadOne(ts: seq<Tok>): (out: Out)
    ensures out.Read? ==> |out.rest| < |ts|
    decreases |ts|, 0
  {
    if ts == [] then Bad
    else if ts[0].Part? then Read(ts[0].e, ts[1..])
    else if ts[0] == Open then
      var x := ReadOr(ts[1..]);
      if x.Read? && x.rest != [] && x.rest[0] == Close then Read(x.e, x.rest[1..]) else Bad
    else Bad
  }

  // ----- one meet, however it is grouped

  predicate ChainOf(and: bool, e: Expr) {
    if and then e.And? else e.Or?
  }

  function Flat(and: bool, m: Expr): seq<Expr> {
    if and && m.And? then m.items else if !and && m.Or? then m.items else [m]
  }

  /** An expression with no meet in a meet and no disjunction in a disjunction. */
  function Norm(e: Expr): Expr
    decreases e, 0
  {
    match e
    case And(items) => Pack(true, Flats(true, items))
    case Or(items) => Pack(false, Flats(false, items))
    case _ => e
  }

  function Flats(and: bool, items: seq<Expr>): seq<Expr>
    decreases items, 1
  {
    if items == [] then [] else Flat(and, Norm(items[0])) + Flats(and, items[1..])
  }

  lemma {:induction false} FlatsAppend(and: bool, a: seq<Expr>, b: seq<Expr>)
    ensures Flats(and, a + b) == Flats(and, a) + Flats(and, b)
  {
    hide Flat, Norm;
    if a == [] {
      assert a + b == b;
    } else {
      assert (a + b)[0] == a[0] && (a + b)[1..] == a[1..] + b;
      FlatsAppend(and, a[1..], b);
    }
  }

  lemma FlatsOne(and: bool, e: Expr)
    ensures Flats(and, [e]) == Flat(and, Norm(e))
  {
    assert [e][1..] == [];
  }

  ghost predicate NoneSame(and: bool, items: seq<Expr>) {
    forall i :: 0 <= i < |items| ==> !ChainOf(and, items[i])
  }

  /** What Norm makes: no chain of one, none in a chain of its kind. */
  ghost predicate Normal(m: Expr) {
    match m
    case And(items) => |items| != 1 && NoneSame(true, items) && forall i :: 0 <= i < |items| ==> Normal(items[i])
    case Or(items) => |items| != 1 && NoneSame(false, items) && forall i :: 0 <= i < |items| ==> Normal(items[i])
    case _ => true
  }

  ghost predicate AllNormal(items: seq<Expr>) {
    forall i :: 0 <= i < |items| ==> Normal(items[i])
  }

  lemma FlatNormal(and: bool, m: Expr)
    requires Normal(m)
    ensures AllNormal(Flat(and, m)) && NoneSame(and, Flat(and, m))
  {
  }

  lemma PackNormal(and: bool, items: seq<Expr>)
    requires AllNormal(items) && NoneSame(and, items)
    ensures Normal(Pack(and, items)) && Flat(and, Pack(and, items)) == items
  {
  }

  lemma {:induction false} NormNormal(e: Expr)
    ensures Normal(Norm(e))
    decreases e, 0
  {
    hide Normal, Flats, Pack;
    match e
    case And(items) => FlatsNormal(true, items); PackNormal(true, Flats(true, items));
    case Or(items) => FlatsNormal(false, items); PackNormal(false, Flats(false, items));
    case _ => AtomNormal(e);
  }

  lemma AtomNormal(e: Expr)
    requires !e.And? && !e.Or?
    ensures Normal(e)
  {
  }

  lemma {:induction false} FlatsNormal(and: bool, items: seq<Expr>)
    ensures AllNormal(Flats(and, items)) && NoneSame(and, Flats(and, items))
    decreases items, 1
  {
    hide Normal, Flat, Norm, ChainOf;
    if items != [] {
      NormNormal(items[0]);
      FlatNormal(and, Norm(items[0]));
      FlatsNormal(and, items[1..]);
    }
  }

  lemma NormPack(and: bool, items: seq<Expr>)
    ensures |items| != 1 ==> Norm(Pack(and, items)) == Pack(and, Flats(and, items))
    ensures |items| == 1 ==> Norm(Pack(and, items)) == Norm(items[0])
  {
    hide Flats;
  }

  /** A chain packed counts, in a chain of its kind, for its members. */
  lemma FlatPack(and: bool, items: seq<Expr>)
    ensures Flat(and, Norm(Pack(and, items))) == Flats(and, items)
  {
    hide Flats, Normal, Norm, Pack, Flat;
    NormPack(and, items);
    if |items| == 1 {
      assert items == [items[0]];
      FlatsOne(and, items[0]);
    } else {
      FlatsNormal(and, items);
      PackNormal(and, Flats(and, items));
    }
  }

  lemma NormOf(and: bool, items: seq<Expr>)
    ensures Norm(Pack(and, items)) == Pack(and, Flats(and, items))
  {
    hide Flats, Norm, Normal;
    NormPack(and, items);
    if |items| == 1 {
      assert items == [items[0]];
      FlatsOne(and, items[0]);
      NormNormal(items[0]);
      PackFlat(and, Norm(items[0]));
    }
  }

  lemma PackFlat(and: bool, m: Expr)
    requires Normal(m)
    ensures Pack(and, Flat(and, m)) == m
  {
  }

  // ----- how long the chains are that a reader meets

  /** The members a reader meets in a chain: groups, or parts, and those of a chain of its kind unbracketed. */
  function Parts(items: seq<Expr>, level: nat, and: bool): nat
    decreases items, level, 1
  {
    if items == [] then 0
    else if |items| <= Span(level) then GroupParts(items, level, and)
    else GroupParts(items[..Span(level)], level, and) + Parts(items[Span(level)..], level, and)
  }

  function GroupParts(items: seq<Expr>, level: nat, and: bool): nat
    requires 0 < |items| <= Span(level)
    decreases items, level, 0
  {
    if 0 < level then 1 else MemberParts(items[0], and)
  }

  function MemberParts(e: Expr, and: bool): nat
    decreases e, 1
  {
    if ChainOf(and, e) then Parts(e.items, Level(|e.items|), and) else 1
  }

  /** No chain a reader meets is longer than a group. */
  predicate Narrow(e: Expr)
    decreases e, 0
  {
    match e
    case And(items) => Parts(items, Level(|items|), true) <= IMPORT_GROUP && NarrowAll(items, Level(|items|), true)
    case Or(items) => Parts(items, Level(|items|), false) <= IMPORT_GROUP && NarrowAll(items, Level(|items|), false)
    case _ => true
  }

  predicate NarrowAll(items: seq<Expr>, level: nat, and: bool)
    decreases items, level, 1
  {
    if items == [] then true
    else if |items| <= Span(level) then GroupNarrow(items, level, and)
    else GroupNarrow(items[..Span(level)], level, and) && NarrowAll(items[Span(level)..], level, and)
  }

  predicate GroupNarrow(items: seq<Expr>, level: nat, and: bool)
    requires 0 < |items| <= Span(level)
    decreases items, level, 0
  {
    if 0 < level then Parts(items, level - 1, and) <= IMPORT_GROUP && NarrowAll(items, level - 1, and)
    else MemberNarrow(items[0], and)
  }

  predicate MemberNarrow(e: Expr, and: bool)
    decreases e, 1
  {
    if ChainOf(and, e) then NarrowAll(e.items, Level(|e.items|), and) else Narrow(e)
  }

  /** Every chain of the expression has at most a group of members. */
  ghost predicate Slim(e: Expr) {
    match e
    case And(items) => |items| <= 32 && forall i :: 0 <= i < |items| ==> Slim(items[i])
    case Or(items) => |items| <= 32 && forall i :: 0 <= i < |items| ==> Slim(items[i])
    case _ => true
  }

  ghost predicate SlimAll(items: seq<Expr>) {
    forall i :: 0 <= i < |items| ==> Slim(items[i])
  }

  lemma PackSlim(and: bool, items: seq<Expr>)
    requires items != []
    ensures Slim(Pack(and, items)) <==> |items| <= 32 && SlimAll(items)
  {
  }

  lemma SlimOne(e: Expr)
    ensures SlimAll([e]) <==> Slim(e)
  {
    assert [e][0] == e;
  }

  lemma SlimAppend(a: seq<Expr>, b: seq<Expr>)
    ensures SlimAll(a + b) <==> SlimAll(a) && SlimAll(b)
  {
    hide Slim;
    if SlimAll(a + b) {
      forall i | 0 <= i < |a| ensures Slim(a[i]) { assert (a + b)[i] == a[i]; }
      forall i | 0 <= i < |b| ensures Slim(b[i]) { assert (a + b)[|a| + i] == b[i]; }
    }
  }

  // ----- written and read

  /** No chain is empty. */
  ghost predicate Solid(e: Expr) {
    match e
    case And(items) => items != [] && forall i :: 0 <= i < |items| ==> Solid(items[i])
    case Or(items) => items != [] && forall i :: 0 <= i < |items| ==> Solid(items[i])
    case _ => true
  }

  ghost predicate AllSolid(items: seq<Expr>) {
    items != [] && forall i :: 0 <= i < |items| ==> Solid(items[i])
  }

  /** What may stand behind a member of a chain. */
  predicate Ends(and: bool, rest: seq<Tok>) {
    rest == [] || rest[0] == Close || rest[0] == Bar || (and && rest[0] == Amp)
  }

  /** The loop over a chain reads these members and goes on. */
  ghost predicate Back(and: bool, acc: seq<Expr>, ts: seq<Tok>, bs: seq<Expr>, rest: seq<Tok>) {
    if and then AndLoop(acc, ts) == AndNext(acc + bs, rest) else OrLoop(acc, ts) == OrNext(acc + bs, rest)
  }

  /** The members read make the chain written, are as many as these, and slim or not. */
  ghost predicate Reads(and: bool, items: seq<Expr>, bs: seq<Expr>, parts: nat, narrow: bool) {
    bs != [] && Flats(and, bs) == Flats(and, items) && |bs| == parts && (SlimAll(bs) <==> narrow)
  }

  lemma AndRead(acc: seq<Expr>, ts: seq<Tok>)
    ensures ReadOne(ts).Read? ==> AndLoop(acc, ts) == AndNext(acc + [ReadOne(ts).e], ReadOne(ts).rest)
  {
    hide ReadOne, AndNext;
  }

  lemma OrRead(acc: seq<Expr>, ts: seq<Tok>)
    ensures ReadAnd(ts).Read? ==> OrLoop(acc, ts) == OrNext(acc + [ReadAnd(ts).e], ReadAnd(ts).rest)
  {
    hide ReadAnd, OrNext;
  }

  lemma OneBack(and: bool, acc: seq<Expr>, ts: seq<Tok>, x: Expr, rest: seq<Tok>)
    requires ReadOne(ts) == Read(x, rest) && Ends(and, rest)
    ensures Back(and, acc, ts, [x], rest)
  {
    hide ReadOne, AndLoop, AndNext;
    AndRead(acc, ts);
    if !and {
      AndRead([], ts);
      MeetBack(acc, ts, [x], rest);
    }
  }

  /** A meet read whole inside a disjunction. */
  lemma MeetBack(acc: seq<Expr>, ts: seq<Tok>, bs: seq<Expr>, rest: seq<Tok>)
    requires Back(true, [], ts, bs, rest) && Ends(false, rest) && bs != []
    ensures Back(false, acc, ts, [Pack(true, bs)], rest)
  {
    hide AndLoop, Pack;
    assert [] + bs == bs;
    assert AndNext(bs, rest) == Read(Pack(true, bs), rest);
    assert ReadAnd(ts) == AndLoop([], ts);
    OrRead(acc, ts);
  }

  /** A chain read to its closing bracket. */
  lemma WholeBack(and: bool, ts: seq<Tok>, bs: seq<Expr>, rest: seq<Tok>)
    requires Back(and, [], ts, bs, rest) && (rest == [] || rest[0] == Close) && bs != []
    ensures ReadOr(ts) == Read(Pack(and, bs), rest)
  {
    hide AndLoop, OrLoop;
    assert [] + bs == bs;
    assert ReadOr(ts) == OrLoop([], ts);
    if and {
      MeetBack([], ts, bs, rest);
      assert [] + [Pack(true, bs)] == [Pack(true, bs)];
      assert OrNext([Pack(true, bs)], rest) == Read(Pack(false, [Pack(true, bs)]), rest);
    } else {
      assert OrNext(bs, rest) == Read(Pack(false, bs), rest);
    }
  }

  lemma BracketBack(and: bool, text: seq<Tok>, bs: seq<Expr>, rest: seq<Tok>)
    requires Back(and, [], text + ([Close] + rest), bs, [Close] + rest) && bs != []
    ensures ReadOne([Open] + text + [Close] + rest) == Read(Pack(and, bs), rest)
  {
    hide ReadOr, AndLoop, OrLoop, Pack;
    WholeBack(and, text + ([Close] + rest), bs, [Close] + rest);
    var ts := [Open] + text + [Close] + rest;
    assert ts[0] == Open && ts[1..] == text + ([Close] + rest);
    assert ([Close] + rest)[1..] == rest;
  }

  lemma {:induction false} ChainBack(items: seq<Expr>, level: nat, and: bool, acc: seq<Expr>, rest: seq<Tok>) returns (bs: seq<Expr>)
    requires AllSolid(items) && Ends(and, rest)
    ensures Back(and, acc, Chain(items, level, and) + rest, bs, rest)
    ensures Reads(and, items, bs, Parts(items, level, and), NarrowAll(items, level, and))
    decreases items, level, 3
  {
    hide Group, GroupParts, GroupNarrow, Solid, Slim, SlimAll, Flats, Back, Span;
    if |items| <= Span(level) {
      bs := GroupBack(items, level, and, acc, rest);
    } else {
      var k := Span(level);
      var more := Chain(items[k..], level, and) + rest;
      Divided(items, k);
      var first := GroupBack(items[..k], level, and, acc, [Between(and)] + more);
      var others := ChainBack(items[k..], level, and, acc + first, rest);
      bs := first + others;
      assert Chain(items, level, and) + rest == Group(items[..k], level, and) + ([Between(and)] + more);
      BackOn(and, acc, Group(items[..k], level, and), first, more, others, rest);
      assert items == items[..k] + items[k..];
      FlatsAppend(and, items[..k], items[k..]);
      FlatsAppend(and, first, others);
      SlimAppend(first, others);
    }
  }

  lemma Divided(items: seq<Expr>, k: nat)
    requires AllSolid(items) && 0 < k < |items|
    ensures AllSolid(items[..k]) && AllSolid(items[k..])
  {
    hide Solid;
  }

  /** Members, the sign between, and members. */
  lemma BackOn(and: bool, acc: seq<Expr>, text: seq<Tok>, first: seq<Expr>, more: seq<Tok>, others: seq<Expr>, rest: seq<Tok>)
    requires Back(and, acc, text + ([Between(and)] + more), first, [Between(and)] + more) && Back(and, acc + first, more, others, rest)
    ensures Back(and, acc, text + ([Between(and)] + more), first + others, rest)
  {
    hide AndLoop, OrLoop, Pack;
    assert ([Between(and)] + more)[1..] == more;
    assert acc + first + others == acc + (first + others);
  }

  lemma {:induction false} GroupBack(items: seq<Expr>, level: nat, and: bool, acc: seq<Expr>, rest: seq<Tok>) returns (bs: seq<Expr>)
    requires |items| <= Span(level) && AllSolid(items) && Ends(and, rest)
    ensures Back(and, acc, Group(items, level, and) + rest, bs, rest)
    ensures Reads(and, items, bs, GroupParts(items, level, and), GroupNarrow(items, level, and))
    decreases items, level, 2
  {
    hide Chain, Parts, NarrowAll, Slim, SlimAll, Flats, Back, Pack, MemberText, MemberParts, MemberNarrow, ReadOne;
    GroupIs(items, level, and);
    if 0 < level {
      var inner := ChainBack(items, level - 1, and, [], [Close] + rest);
      var text := Chain(items, level - 1, and);
      BracketBack(and, text, inner, rest);
      var x := Pack(and, inner);
      OneBack(and, acc, [Open] + text + [Close] + rest, x, rest);
      bs := [x];
      FlatsOne(and, x);
      FlatPack(and, inner);
      PackSlim(and, inner);
      SlimOne(x);
    } else {
      bs := MemberBack(items[0], and, acc, rest);
      assert items == [items[0]];
    }
  }

  lemma {:induction false} MemberBack(e: Expr, and: bool, acc: seq<Expr>, rest: seq<Tok>) returns (bs: seq<Expr>)
    requires Solid(e) && Ends(and, rest)
    ensures Back(and, acc, MemberText(e, and) + rest, bs, rest)
    ensures Reads(and, [e], bs, MemberParts(e, and), MemberNarrow(e, and))
    decreases e, 2
  {
    hide Chain, Parts, NarrowAll, Slim, SlimAll, Flats, Back, Pack, Norm, Level, ReadOne;
    FlatsOne(and, e);
    if e.And? || e.Or? {
      var level := Level(|e.items|);
      if ChainOf(and, e) {
        bs := ChainBack(e.items, level, and, acc, rest);
        NormChain(and, e);
      } else if and {
        var inner := ChainBack(e.items, level, false, [], [Close] + rest);
        BracketBack(false, Written(e), inner, rest);
        OneBack(true, acc, [Open] + Written(e) + [Close] + rest, Pack(false, inner), rest);
        bs := [Pack(false, inner)];
        OtherRead(true, e, inner);
      } else {
        var inner := ChainBack(e.items, level, true, [], rest);
        MeetBack(acc, Written(e) + rest, inner, rest);
        bs := [Pack(true, inner)];
        OtherRead(false, e, inner);
      }
    } else {
      PartRead(e, rest);
      OneBack(and, acc, [Part(e)] + rest, e, rest);
      bs := [e];
      SlimOne(e);
      AtomSlim(e);
    }
  }

  lemma AtomSlim(e: Expr)
    requires !e.And? && !e.Or?
    ensures Slim(e)
  {
  }

  lemma PartRead(e: Expr, rest: seq<Tok>)
    ensures ReadOne([Part(e)] + rest) == Read(e, rest)
  {
    assert ([Part(e)] + rest)[1..] == rest;
  }

  /** A chain counts, in a chain of its kind, for its members. */
  lemma NormChain(and: bool, e: Expr)
    requires ChainOf(and, e)
    ensures Flat(and, Norm(e)) == Flats(and, e.items)
  {
    hide Flats, Normal;
    FlatsNormal(and, e.items);
    PackNormal(and, Flats(and, e.items));
  }

  /** A chain of the other kind is one member. */
  lemma OtherRead(and: bool, e: Expr, inner: seq<Expr>)
    requires ChainOf(!and, e) && inner != [] && Flats(!and, inner) == Flats(!and, e.items)
    ensures Flats(and, [Pack(!and, inner)]) == Flats(and, [e])
    ensures SlimAll([Pack(!and, inner)]) <==> |inner| <= IMPORT_GROUP && SlimAll(inner)
  {
    hide Flats, Norm, Pack, Slim, SlimAll;
    FlatsOne(and, e);
    FlatsOne(and, Pack(!and, inner));
    NormOf(!and, inner);
    NormIs(!and, e);
    PackSlim(!and, inner);
    SlimOne(Pack(!and, inner));
  }

  lemma NormIs(and: bool, e: Expr)
    requires ChainOf(and, e)
    ensures Norm(e) == Pack(and, Flats(and, e.items))
  {
  }

  /** What is written reads back whole as the same meet or disjunction, in chains no longer than a
      group exactly where the expression is narrow. */
  lemma WrittenReads(e: Expr)
    requires Solid(e)
    ensures exists x :: ReadOr(Written(e)) == Read(x, []) && Norm(x) == Norm(e) && (Slim(x) <==> Narrow(e))
  {
    hide Chain, Parts, NarrowAll, Slim, SlimAll, Flats, Back, Pack, Norm, Level, ReadOr;
    var and := e.And?;
    assert Written(e) + [] == Written(e);
    if e.And? || e.Or? {
      var bs := ChainBack(e.items, Level(|e.items|), and, [], []);
      WholeBack(and, Written(e), bs, []);
      NormOf(and, bs);
      NormIs(and, e);
      PackSlim(and, bs);
    } else {
      PartRead(e, []);
      OneBack(false, [], [Part(e)] + [], e, []);
      WholeBack(false, [Part(e)] + [], [e], []);
      PackOne(e);
      AtomSlim(e);
    }
  }

  lemma PackOne(e: Expr)
    ensures Pack(false, [e]) == e
  {
  }
}
