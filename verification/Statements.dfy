/**
 Statements of the formatter's tree (go/format.go:121-170, 1086-1128) and what they mean: a
 body is the meet of its statements, so its meaning is the set of what each one says.
 */
module Statements {
  import opened Options

  /** A statement or a value.  A value that is neither a map nor a chain is its text, and
      whether that text fits on a line at all. */
  datatype Node =
    | Pair(key: string, opt: bool, alias: bool, value: Node, trail: string)
    | Spread(value: Node, trail: string)
    | Map(body: seq<Node>, open: string)
    | Comment(text: string)
    | Blank
    | Include(text: string)
    | Value(text: string, oneLine: bool)

  function Size(n: Node): (s: nat)
    ensures 0 < s
  {
    match n
    case Pair(_, _, _, v, _) => 1 + Size(v)
    case Spread(v, _) => 1 + Size(v)
    case Map(body, _) => 1 + Sizes(body)
    case _ => 1
  }

  function Sizes(body: seq<Node>): nat {
    if body == [] then 0 else Size(body[0]) + Sizes(body[1..])
  }

  lemma {:induction false} SizesAppend(a: seq<Node>, b: seq<Node>)
    ensures Sizes(a + b) == Sizes(a) + Sizes(b)
  {
    if a == [] {
      assert a + b == b;
    } else {
      assert (a + b)[0] == a[0] && (a + b)[1..] == a[1..] + b;
      SizesAppend(a[1..], b);
    }
  }

  predicate Filler(n: Node) {
    n.Comment? || n.Blank?
  }

  /** fmtPlainEntries: the entries of a map in braces, or the one pair of a chain. */
  function PlainEntries(v: Node): Option<seq<Node>> {
    if v.Pair? then Some([v])
    else if !v.Map? || v.open != "" || exists e :: e in v.body && e.Include? then None
    else Some(v.body)
  }

  /** A comment behind what already has one. */
  function Sunk(last: Node, trail: string): Node
    requires last.Pair? || last.Spread?
  {
    last.(trail := if last.trail == "" then trail else last.trail + " " + trail)
  }

  /** fmtMembers: the entries, with the statement's own trailing comment sunk onto the last. */
  function Members(p: Node): Option<seq<Node>>
    requires p.Pair?
  {
    var plain := PlainEntries(p.value);
    if plain.None? || p.trail == "" then plain
    else
      var entries := plain.value;
      if entries == [] then None
      else
        var last := entries[|entries| - 1];
        if !last.Pair? && !last.Spread? then None
        else Some(entries[..|entries| - 1] + [Sunk(last, p.trail)])
  }

  predicate HasSpread(entries: seq<Node>) {
    exists e :: e in entries && e.Spread?
  }

  // ----- what a body says

  datatype Step = Key(k: string) | Every

  /** That a field stands at a path, or a declaration, that it is required, that it is a map,
      that a value is there, or a file's content. */
  datatype Says = Field | Declared | Required | IsMap | Holds(text: string) | Includes(text: string)

  datatype Fact = Fact(path: seq<Step>, says: Says)

  /** What an entry of the map at `path` says; without `sep` a declaration is read as a field.
      Two entries of one key say both their parts: the meet of the two. */
  function EntryFacts(e: Node, path: seq<Step>, sep: bool): set<Fact>
    decreases e, 1
  {
    match e
    case Pair(key, opt, alias, value, _) =>
      var at := path + [Key(key)];
      {Fact(at, if sep && alias then Declared else Field)} + (if opt then {} else {Fact(at, Required)}) + ValueFacts(value, at, sep)
    case Spread(value, _) => ValueFacts(value, path + [Every], sep)
    case Include(text) => {Fact(path, Includes(text))}
    case _ => {}
  }

  function ValueFacts(v: Node, path: seq<Step>, sep: bool): set<Fact>
    decreases v, 2
  {
    match v
    case Pair(_, _, _, _, _) => {Fact(path, IsMap)} + EntryFacts(v, path, sep)
    case Map(body, _) => {Fact(path, IsMap)} + BodyFacts(body, path, sep)
    case Include(text) => {Fact(path, Includes(text))}
    case Value(text, _) => {Fact(path, Holds(text))}
    case _ => {}
  }

  /** The meet of the statements of a body. */
  function BodyFacts(body: seq<Node>, path: seq<Step>, sep: bool): set<Fact>
    decreases body, 0
  {
    if body == [] then {} else EntryFacts(body[0], path, sep) + BodyFacts(body[1..], path, sep)
  }

  lemma {:induction false} FactsAppend(a: seq<Node>, b: seq<Node>, path: seq<Step>, sep: bool)
    ensures BodyFacts(a + b, path, sep) == BodyFacts(a, path, sep) + BodyFacts(b, path, sep)
  {
    hide EntryFacts;
    if a == [] {
      assert a + b == b;
    } else {
      assert (a + b)[0] == a[0] && (a + b)[1..] == a[1..] + b;
      FactsAppend(a[1..], b, path, sep);
    }
  }

  lemma FactsOne(e: Node, path: seq<Step>, sep: bool)
    ensures BodyFacts([e], path, sep) == EntryFacts(e, path, sep)
  {
    hide EntryFacts;
    assert [e][1..] == [];
  }

  /** A plain value says what its entries do, and that it is a map. */
  lemma PlainFacts(v: Node, path: seq<Step>, sep: bool)
    ensures PlainEntries(v).Some? ==> ValueFacts(v, path, sep) == {Fact(path, IsMap)} + BodyFacts(PlainEntries(v).value, path, sep)
  {
    if v.Pair? { FactsOne(v, path, sep); }
  }

  /** Where a comment stands is not part of the meaning. */
  lemma MembersFacts(p: Node, path: seq<Step>, sep: bool)
    requires p.Pair?
    ensures Members(p).Some? ==>
      PlainEntries(p.value).Some? && BodyFacts(Members(p).value, path, sep) == BodyFacts(PlainEntries(p.value).value, path, sep)
  {
    if Members(p).Some? && p.trail != "" {
      var entries := PlainEntries(p.value).value;
      var n := |entries| - 1;
      SunkFacts(entries[n], p.trail, path, sep);
      FactsAppend(entries[..n], [entries[n]], path, sep);
      FactsAppend(entries[..n], [Sunk(entries[n], p.trail)], path, sep);
      assert entries == entries[..n] + [entries[n]];
    }
  }

  lemma SunkFacts(last: Node, trail: string, path: seq<Step>, sep: bool)
    requires last.Pair? || last.Spread?
    ensures BodyFacts([Sunk(last, trail)], path, sep) == BodyFacts([last], path, sep)
  {
    FactsOne(last, path, sep);
    FactsOne(Sunk(last, trail), path, sep);
  }

  /** No path is both declared and a field. */
  ghost predicate Separate(facts: set<Fact>) {
    forall f :: f in facts && f.says.Declared? ==> Fact(f.path, Field) !in facts
  }

  // ----- what stands written

  function Word(text: string): string {
    if text == "" then "" else text + " "
  }

  /** The values and comments under a node, in the order they stand in. */
  function Written(n: Node): string
    decreases n, 0
  {
    match n
    case Pair(_, _, _, v, trail) => Written(v) + Word(trail)
    case Spread(v, trail) => Written(v) + Word(trail)
    case Map(body, open) => Word(open) + WrittenBody(body)
    case Comment(text) => Word(text)
    case Blank => ""
    case Include(text) => Word(text)
    case Value(text, _) => Word(text)
  }

  function WrittenBody(body: seq<Node>): string
    decreases body, 1
  {
    if body == [] then "" else Written(body[0]) + WrittenBody(body[1..])
  }

  lemma {:induction false} WrittenAppend(a: seq<Node>, b: seq<Node>)
    ensures WrittenBody(a + b) == WrittenBody(a) + WrittenBody(b)
  {
    hide Written;
    if a == [] {
      assert a + b == b;
    } else {
      assert (a + b)[0] == a[0] && (a + b)[1..] == a[1..] + b;
      WrittenAppend(a[1..], b);
    }
  }

  lemma WrittenOne(e: Node)
    ensures WrittenBody([e]) == Written(e)
  {
    hide Written;
    assert [e][1..] == [];
  }

  lemma PlainWritten(v: Node)
    ensures PlainEntries(v).Some? ==> Written(v) == WrittenBody(PlainEntries(v).value)
  {
    hide WrittenBody;
    if v.Pair? { WrittenOne(v); }
  }

  lemma WordJoin(a: string, b: string)
    requires b != ""
    ensures Word(if a == "" then b else a + " " + b) == Word(a) + Word(b)
  {
    if a != "" { assert (a + " " + b) + " " == (a + " ") + (b + " "); }
  }

  lemma SunkWritten(last: Node, trail: string)
    requires (last.Pair? || last.Spread?) && trail != ""
    ensures Written(Sunk(last, trail)) == Written(last) + Word(trail)
  {
    hide Word;
    WordJoin(last.trail, trail);
    Assoc(Written(last.value), Word(last.trail), Word(trail));
  }

  lemma Assoc(a: string, b: string, c: string)
    ensures a + (b + c) == (a + b) + c
  {
  }

  /** A statement's own comment follows what its value holds, sunk or not. */
  lemma MembersWritten(p: Node)
    requires p.Pair?
    ensures Members(p).Some? ==> WrittenBody(Members(p).value) == Written(p)
  {
    hide Written, WrittenBody;
    if Members(p).Some? {
      PlainWritten(p.value);
      PairWritten(p);
      var entries := PlainEntries(p.value).value;
      if p.trail != "" {
        var n := |entries| - 1;
        var last := entries[n];
        WrittenAppend(entries[..n], [last]);
        WrittenAppend(entries[..n], [Sunk(last, p.trail)]);
        WrittenOne(last);
        WrittenOne(Sunk(last, p.trail));
        SunkWritten(last, p.trail);
        Assoc(WrittenBody(entries[..n]), Written(last), Word(p.trail));
        assert entries == entries[..n] + [last];
      }
    }
  }

  lemma PairWritten(p: Node)
    requires p.Pair?
    ensures Written(p) == Written(p.value) + Word(p.trail)
  {
  }
}
