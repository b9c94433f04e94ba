/**
 The importer's expressions, what one admits of a JSON value, and what it says of them
 without asking: the kinds an expression can admit, the literals it is, and what in it a
 disjunction would settle differently (go/jsonschema_import.go:335-360, 1862-2021).
 */
module Branches {
  import opened Options
  import opened ExactNumbers

  datatype Json = JNull | JBool(b: bool) | JNum(x: real) | JStr(s: string) | JArr(items: seq<Json>) | JObj(members: seq<(string, Json)>)

  datatype Kind = NullKind | BooleanKind | NumberKind | StringKind | ObjectKind | ArrayKind

  function KindOf(v: Json): Kind {
    match v
    case JNull => NullKind
    case JBool(_) => BooleanKind
    case JNum(_) => NumberKind
    case JStr(_) => StringKind
    case JArr(_) => ArrayKind
    case JObj(_) => ObjectKind
  }

  const ALL_KINDS: set<Kind> := {NullKind, BooleanKind, NumberKind, StringKind, ObjectKind, ArrayKind}

  datatype Entry = Entry(key: string, optional: bool, val: Expr)

  /** An expression; a list has literal members or one spread.  Marks are left out. */
  datatype Expr =
    | Raw(text: string)
    | And(items: seq<Expr>)
    | Or(items: seq<Expr>)
    | Call(name: string, items: seq<Expr>)
    | ListOf(items: seq<Expr>)
    | Each(spread: Expr)
    | MapOf(entries: seq<Entry>, spreads: seq<Expr>)

  // ----- what an expression admits

  /** What meeting an instance can come to: the instance itself, or some other value. */
  datatype Outcome = Same | Changed(n: nat)

  /** What the unifier makes of an instance where the expression's shape does not say: it is
      asked only where every part that has to survive the meet does. */
  datatype World = World(
    quote: string -> string,
    raw: (string, Json) -> set<Outcome>,
    shaped: (Expr, Json) -> set<Outcome>,
    blocked: (Expr, Json) -> set<Outcome>,
    counts: (Expr, nat) -> bool)

  predicate NumberStart(text: string) {
    (|text| > 0 && '0' <= text[0] <= '9') || (|text| > 1 && text[0] == '-' && '0' <= text[1] <= '9')
  }

  predicate QuoteStart(text: string) {
    |text| > 0 && text[0] == '"'
  }

  predicate AliasStart(text: string) {
    |text| > 0 && text[0] == '%'
  }

  /** The literal of an exact number. */
  ghost predicate NumberText(x: real, text: string) {
    exists e :: WellPlaced(e) && ExactValue(e) == x && ExactText(e) == text
  }

  /** The text is the literal of the scalar. */
  ghost predicate Writes(w: World, text: string, v: Json) {
    match v
    case JNull => text == "null"
    case JBool(b) => text == if b then "true" else "false"
    case JNum(x) => NumberStart(text) && NumberText(x, text)
    case JStr(s) => QuoteStart(text) && text == w.quote(s)
    case _ => false
  }

  predicate LiteralText(text: string) {
    text == "null" || text == "true" || text == "false" || QuoteStart(text) || NumberStart(text)
  }

  function If(b: bool, out: set<Outcome>): set<Outcome> {
    if b then out else {}
  }

  ghost function RawMeets(w: World, text: string, v: Json): set<Outcome> {
    if text == "nil" then {}
    else if LiteralText(text) then if Writes(w, text, v) then {Same} else {}
    else if text == "boolean" then If(v.JBool?, {Same})
    else if text == "number" then If(v.JNum?, {Same})
    else if text == "map" then If(v.JObj?, {Same})
    else if text == "list" then If(v.JArr?, {Same})
    else w.raw(text, v)
  }

  /** What the meet of the expression with an instance can come to; empty is a conflict. */
  ghost function Meets(w: World, e: Expr, v: Json): set<Outcome>
    decreases e, 1
  {
    match e
    case Raw(text) => RawMeets(w, text, v)
    case And(items) => if exists i :: 0 <= i < |items| && Meets(w, items[i], v) == {} then {} else w.shaped(e, v)
    case Or(items) => Unions(w, items, v)
    case Call(name, items) =>
      if name == "nof" then (if items != [] && CountTakes(w, items[0], Admitting(w, items[1..], v)) then {Same} else {})
      else if (name == "meta" || name == "deprecate") && items != [] then Meets(w, items[0], v)
      else if name == "close" && items != [] then (if Meets(w, items[0], v) == {} then {} else w.shaped(e, v))
      else if name == "empty" || name == "re" then If(v.JStr?, w.shaped(e, v))
      else if name in ["min", "max", "above", "below", "mulof"] then If(v.JNum?, w.shaped(e, v))
      else w.shaped(e, v)
    case ListOf(_) => If(v.JArr?, w.shaped(e, v))
    case Each(_) => If(v.JArr?, w.shaped(e, v))
    case MapOf(_, _) => If(v.JObj?, w.shaped(e, v))
  }

  /** A branch of a disjunction: one that a conflict rules out is out, and one whose meet
      depends on more than its kind may come to anything else. */
  ghost function InOr(w: World, e: Expr, v: Json): set<Outcome>
    decreases e, 2
  {
    if Meets(w, e, v) == {} then {} else if Blocker(e) then w.blocked(e, v) else Meets(w, e, v)
  }

  ghost function Unions(w: World, items: seq<Expr>, v: Json): set<Outcome>
    decreases items, 0
  {
    if items == [] then {} else InOr(w, items[0], v) + Unions(w, items[1..], v)
  }

  /** How many of the branches a fresh trial of each admits. */
  ghost function Admitting(w: World, items: seq<Expr>, v: Json): nat
    decreases items, 0
  {
    if items == [] then 0 else (if Meets(w, items[0], v) == {Same} then 1 else 0) + Admitting(w, items[1..], v)
  }

  predicate CountTakes(w: World, count: Expr, n: nat) {
    if count == Raw("1") then n == 1 else if count == Call("min", [Raw("1")]) then 1 <= n else w.counts(count, n)
  }

  /** The expression admits the instance: the meet comes to the instance and nothing else. */
  ghost predicate Admits(w: World, e: Expr, v: Json) {
    Meets(w, e, v) == {Same}
  }

  // ----- kinds

  function RawKinds(text: string): set<Kind> {
    if text == "nil" then {}
    else if text == "true" || text == "false" || text == "boolean" then {BooleanKind}
    else if text == "null" then {NullKind}
    else if text == "number" then {NumberKind}
    else if text == "map" then {ObjectKind}
    else if text == "list" then {ArrayKind}
    else if QuoteStart(text) then {StringKind}
    else if NumberStart(text) then {NumberKind}
    else ALL_KINDS
  }

  /** kindsOf. */
  function KindsOf(e: Expr): set<Kind>
    decreases e, 1
  {
    match e
    case Raw(text) => RawKinds(text)
    case And(items) => Common(items)
    case Or(items) => AnyKinds(items)
    case Call(name, items) =>
      if name == "empty" || name == "re" then {StringKind}
      else if (name == "close" || name == "meta" || name == "deprecate") && items != [] then KindsOf(items[0])
      else if name in ["min", "max", "above", "below", "mulof"] then {NumberKind}
      else ALL_KINDS
    case ListOf(_) => {ArrayKind}
    case Each(_) => {ArrayKind}
    case MapOf(_, _) => {ObjectKind}
  }

  function Common(items: seq<Expr>): set<Kind>
    decreases items, 0
  {
    if items == [] then ALL_KINDS else KindsOf(items[0]) * Common(items[1..])
  }

  function AnyKinds(items: seq<Expr>): set<Kind>
    decreases items, 0
  {
    if items == [] then {} else KindsOf(items[0]) + AnyKinds(items[1..])
  }

  // ----- literals

  predicate Rider(e: Expr) {
    e.Call? && (e.name == "meta" || e.name == "deprecate")
  }

  /** literalTexts: the texts of an expression made of scalar literals alone. */
  function LiteralTexts(e: Expr): Option<seq<string>>
    decreases e, 1
  {
    if Rider(e) then if e.items == [] then None else LiteralTexts(e.items[0])
    else if e.Or? then TextsOfAll(e.items)
    else if e.Raw? && LiteralText(e.text) then Some([e.text])
    else None
  }

  function TextsOfAll(items: seq<Expr>): Option<seq<string>>
    decreases items, 0
  {
    if items == [] then Some([])
    else
      var first, rest := LiteralTexts(items[0]), TextsOfAll(items[1..]);
      if first.None? || rest.None? then None else Some(first.value + rest.value)
  }

  // ----- what a disjunction settles differently

  predicate HoldsNil(e: Expr) {
    match e
    case Raw(text) => text == "nil"
    case And(items) => exists i :: 0 <= i < |items| && HoldsNil(items[i])
    case Or(items) => exists i :: 0 <= i < |items| && HoldsNil(items[i])
    case Call(_, items) => if Rider(e) then items != [] && HoldsNil(items[0]) else exists i :: 0 <= i < |items| && HoldsNil(items[i])
    case ListOf(items) => exists i :: 0 <= i < |items| && HoldsNil(items[i])
    case Each(spread) => HoldsNil(spread)
    case MapOf(entries, spreads) =>
      (exists i :: 0 <= i < |entries| && HoldsNil(entries[i].val)) || exists i :: 0 <= i < |spreads| && HoldsNil(spreads[i])
  }

  /** blocker: whether any part, however deep, keeps a disjunction from settling the expression by itself. */
  predicate Blocker(e: Expr)
    decreases e, 0
  {
    match e
    case Raw(text) => AliasStart(text)
    case And(items) =>
      ((exists i :: 0 <= i < |items| && items[i].Call? && items[i].name == "len") && StringKind !in KindsOf(e))
      || exists i :: 0 <= i < |items| && Blocker(items[i])
    case Or(items) => exists i :: 0 <= i < |items| && Blocker(items[i])
    case Call(name, items) =>
      name in ["nof", "must", "when", "close", "contains", "unique"]
      || if Rider(e) then items != [] && Blocker(items[0]) else exists i :: 0 <= i < |items| && Blocker(items[i])
    case ListOf(items) => true
    case Each(spread) => HoldsNil(spread) || Blocker(spread)
    case MapOf(entries, spreads) =>
      || (exists i :: 0 <= i < |entries| && !entries[i].optional)
      || (exists i :: 0 <= i < |spreads| && HoldsNil(spreads[i]))
      || (exists i :: 0 <= i < |entries| && Blocker(entries[i].val))
      || exists i :: 0 <= i < |spreads| && Blocker(spreads[i])
  }

  // ----- what they say is so

  lemma RawKindsCover(w: World, text: string, v: Json)
    requires RawMeets(w, text, v) != {}
    ensures KindOf(v) in RawKinds(text)
  {
    hide NumberText;
  }

  /** kindsOf misses no kind: an instance whose meet survives is of one of them. */
  lemma {:induction false} KindsCover(w: World, e: Expr, v: Json)
    requires Meets(w, e, v) != {}
    ensures KindOf(v) in KindsOf(e)
    decreases e, 1
  {
    match e
    case Raw(text) => RawKindsCover(w, text, v);
    case And(items) => CommonCovers(w, items, v);
    case Or(items) => AnyCovers(w, items, v);
    case Call(name, items) =>
      if (name == "close" || name == "meta" || name == "deprecate") && items != [] { KindsCover(w, items[0], v); }
    case ListOf(_) =>
    case Each(_) =>
    case MapOf(_, _) =>
  }

  lemma {:induction false} CommonCovers(w: World, items: seq<Expr>, v: Json)
    requires forall i :: 0 <= i < |items| ==> Meets(w, items[i], v) != {}
    ensures KindOf(v) in Common(items)
    decreases items, 0
  {
    hide Meets, KindsOf;
    if items != [] {
      KindsCover(w, items[0], v);
      assert forall i :: 0 <= i < |items[1..]| ==> items[1..][i] == items[i + 1];
      CommonCovers(w, items[1..], v);
    }
  }

  lemma {:induction false} AnyCovers(w: World, items: seq<Expr>, v: Json)
    requires Unions(w, items, v) != {}
    ensures KindOf(v) in AnyKinds(items)
    decreases items, 0
  {
    hide Meets, KindsOf;
    if items != [] {
      if InOr(w, items[0], v) != {} { KindsCover(w, items[0], v); } else { AnyCovers(w, items[1..], v); }
    }
  }

  /** A scalar has one literal. */
  lemma OneText(w: World, a: string, b: string, v: Json)
    requires Writes(w, a, v) && Writes(w, b, v)
    ensures a == b
  {
    hide WellPlaced, ExactValue, ExactText, NumberStart;
    if v.JNum? {
      var e :| WellPlaced(e) && ExactValue(e) == v.x && ExactText(e) == a;
      var f :| WellPlaced(f) && ExactValue(f) == v.x && ExactText(f) == b;
      PlaceUnique(e, f);
    }
  }

  /** The instance is one of the literals. */
  ghost predicate OneOfTexts(w: World, texts: seq<string>, v: Json) {
    exists t :: t in texts && Writes(w, t, v)
  }

  lemma OneOfAppend(w: World, a: seq<string>, b: seq<string>, v: Json)
    ensures OneOfTexts(w, a + b, v) <==> OneOfTexts(w, a, v) || OneOfTexts(w, b, v)
  {
    hide Writes;
    assert forall t :: t in a + b <==> t in a || t in b;
  }

  lemma RawLiteral(w: World, text: string, v: Json)
    requires LiteralText(text)
    ensures RawMeets(w, text, v) == if Writes(w, text, v) then {Same} else {}
    ensures !AliasStart(text)
    ensures OneOfTexts(w, [text], v) <==> Writes(w, text, v)
  {
    hide Writes;
    assert text in [text];
  }

  /** What is nothing but literals admits exactly them, in a disjunction as by itself. */
  lemma {:induction false} LiteralsMeet(w: World, e: Expr, v: Json)
    requires LiteralTexts(e).Some?
    ensures Meets(w, e, v) == if OneOfTexts(w, LiteralTexts(e).value, v) then {Same} else {}
    ensures !Blocker(e)
    decreases e, 1
  {
    hide RawMeets, OneOfTexts, LiteralText, AliasStart;
    if Rider(e) {
      LiteralsMeet(w, e.items[0], v);
    } else if e.Or? {
      LiteralsUnite(w, e.items, v);
    } else {
      RawLiteral(w, e.text, v);
    }
  }

  lemma {:induction false} LiteralsUnite(w: World, items: seq<Expr>, v: Json)
    requires TextsOfAll(items).Some?
    ensures Unions(w, items, v) == if OneOfTexts(w, TextsOfAll(items).value, v) then {Same} else {}
    ensures forall i :: 0 <= i < |items| ==> !Blocker(items[i])
    decreases items, 0
  {
    hide Meets, OneOfTexts, Blocker, LiteralTexts;
    if items == [] {
      NoTexts(w, v);
    } else {
      LiteralsMeet(w, items[0], v);
      LiteralsUnite(w, items[1..], v);
      OneOfAppend(w, LiteralTexts(items[0]).value, TextsOfAll(items[1..]).value, v);
      forall i | 0 <= i < |items| ensures !Blocker(items[i]) {
        if 0 < i { assert items[i] == items[1..][i - 1]; }
      }
    }
  }

  lemma NoTexts(w: World, v: Json)
    ensures !OneOfTexts(w, [], v)
  {
  }

  /** importApart: distinct literals, or kinds apart. */
  predicate Apart(b: Expr, c: Expr) {
    var bt, ct := LiteralTexts(b), LiteralTexts(c);
    if bt.Some? && ct.Some? then forall t :: t in bt.value ==> t !in ct.value
    else KindsOf(b) !! KindsOf(c)
  }

  /** No instance survives the meet with both of two branches that are apart. */
  lemma ApartMeet(w: World, b: Expr, c: Expr, v: Json)
    requires Apart(b, c)
    ensures Meets(w, b, v) == {} || Meets(w, c, v) == {}
  {
    hide Meets, KindsOf, LiteralTexts, Writes;
    if LiteralTexts(b).Some? && LiteralTexts(c).Some? {
      LiteralsMeet(w, b, v);
      LiteralsMeet(w, c, v);
      if OneOfTexts(w, LiteralTexts(b).value, v) && OneOfTexts(w, LiteralTexts(c).value, v) {
        var t :| t in LiteralTexts(b).value && Writes(w, t, v);
        var u :| u in LiteralTexts(c).value && Writes(w, u, v);
        OneText(w, t, u, v);
      }
    } else if Meets(w, b, v) != {} && Meets(w, c, v) != {} {
      KindsCover(w, b, v);
      KindsCover(w, c, v);
    }
  }
}
