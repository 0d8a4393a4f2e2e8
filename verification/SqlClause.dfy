/**
 * WHERE clauses (enforcer/src/db/db_clause.h, enforcer/src/db/db_backend_sqlite.c): the clause tree, its text, the
 * grammar of that text and the meaning of both.
 */
module SqlClause {
  import opened Prelude

  datatype Operator = And | Or | UnknownOperator

  datatype Comparison = Equal | NotEqual | LessThan | LessOrEqual | GreaterOrEqual | GreaterThan

  /** A linked list of clauses; the operator of each stands between the clause before it and itself. */
  datatype Clauses<V> = End | Item(operator: Operator, body: Body<V>, next: Clauses<V>)

  /** What a clause demands. `Unknown` stands for an unknown type and for a nested clause without a list. */
  datatype Body<V> =
    | Compare(field: string, comparison: Comparison, value: V)
    | IsNull(field: string)
    | IsNotNull(field: string)
    | Nested(list: Clauses<V>)
    | Unknown

  // ----- the text -----

  datatype Token =
    | AND | OR | OPEN | CLOSE | IS | NOT | NULL | UPDATE | SET | WHERE | DELETE | FROM
    | COMPARES(comparison: Comparison) | SLOT | SLOT_COMMA | NAME(name: string)

  /** The tokens of a list of clauses; the operator of the first one is not printed. */
  function Tokens<V>(table: string, list: Clauses<V>, first: bool): seq<Token> {
    match list
    case End => []
    case Item(o, body, next) => OperatorTokens(o, first) + BodyTokens(table, body) + Tokens(table, next, false)
  }

  function OperatorTokens(o: Operator, first: bool): seq<Token> {
    if first then [] else if o == And then [AND] else [OR]
  }

  function BodyTokens<V>(table: string, body: Body<V>): seq<Token> {
    match body
    case Compare(f, c, _) => [NAME(Column(table, f)), COMPARES(c), SLOT]
    case IsNull(f) => [NAME(Column(table, f)), IS, NULL]
    case IsNotNull(f) => [NAME(Column(table, f)), IS, NOT, NULL]
    case Nested(list) => [OPEN] + Tokens(table, list, true) + [CLOSE]
    case Unknown => []
  }

  function Column(table: string, field: string): string { table + "." + field }

  /** Types and operators that can be printed; the operator of the first clause is never looked at. */
  predicate Known<V>(list: Clauses<V>, first: bool) {
    list.Item? ==>
      && (first || list.operator != UnknownOperator)
      && !list.body.Unknown? && (list.body.Nested? ==> Known(list.body.list, true))
      && Known(list.next, false)
  }

  // ----- spelling -----

  function Spell(t: Token): string {
    match t
    case AND => "AND"
    case OR => "OR"
    case OPEN => "("
    case CLOSE => ")"
    case NAME(name) => name
    case COMPARES(Equal) => "="
    case COMPARES(NotEqual) => "!="
    case COMPARES(LessThan) => "<"
    case COMPARES(LessOrEqual) => "<="
    case COMPARES(GreaterOrEqual) => ">="
    case COMPARES(GreaterThan) => ">"
    case SLOT => "?"
    case SLOT_COMMA => "?,"
    case UPDATE => "UPDATE"
    case SET => "SET"
    case WHERE => "WHERE"
    case DELETE => "DELETE"
    case FROM => "FROM"
    case IS => "IS"
    case NOT => "NOT"
    case NULL => "NULL"
  }

  /** The token a word spells; anything that is not a symbol or a keyword is a name. */
  function Lex(w: string): Token {
    match w
    case "AND" => AND
    case "OR" => OR
    case "(" => OPEN
    case ")" => CLOSE
    case "=" => COMPARES(Equal)
    case "!=" => COMPARES(NotEqual)
    case "<" => COMPARES(LessThan)
    case "<=" => COMPARES(LessOrEqual)
    case ">=" => COMPARES(GreaterOrEqual)
    case ">" => COMPARES(GreaterThan)
    case "?" => SLOT
    case "?," => SLOT_COMMA
    case "UPDATE" => UPDATE
    case "SET" => SET
    case "WHERE" => WHERE
    case "DELETE" => DELETE
    case "FROM" => FROM
    case "IS" => IS
    case "NOT" => NOT
    case "NULL" => NULL
    case _ => NAME(w)
  }

  /** Tokens as they are printed, each behind a space. */
  function Text(ts: seq<Token>): string {
    if ts == [] then [] else " " + Spell(ts[0]) + Text(ts[1..])
  }

  lemma Joined(a: string, b: string, c: string)
    ensures a + (b + c) == a + b + c
  {
  }

  lemma {:induction false} TextOfSum(a: seq<Token>, b: seq<Token>)
    ensures Text(a + b) == Text(a) + Text(b)
  {
    hide Spell;
    if a == [] {
      assert a + b == b;
    } else {
      var first := " " + Spell(a[0]);
      TextOfSum(a[1..], b);
      assert (a + b)[1..] == a[1..] + b && (a + b)[0] == a[0];
      Joined(first, Text(a[1..]), Text(b));
    }
  }

  /** The length of the word at the front. */
  function WordEnd(s: string): (k: nat)
    ensures k <= |s| && ' ' !in s[..k] && (k == |s| || s[k] == ' ')
  {
    if s == [] || s[0] == ' ' then 0
    else
      assert s[..WordEnd(s[1..]) + 1] == [s[0]] + s[1..][..WordEnd(s[1..])];
      WordEnd(s[1..]) + 1
  }

  /** The tokens of a text. */
  function Scan(s: string): seq<Token>
    decreases |s|
  {
    if s == [] then []
    else
      var from := if s[0] == ' ' then 1 else 0;
      var k := from + WordEnd(s[from..]);
      [Lex(s[from..k])] + Scan(s[k..])
  }

  lemma {:induction false} WordEndAt(w: string, rest: string)
    requires ' ' !in w && (rest == [] || rest[0] == ' ')
    ensures WordEnd(w + rest) == |w|
  {
    if w == [] {
      assert w + rest == rest;
    } else {
      WordEndAt(w[1..], rest);
      assert (w + rest)[1..] == w[1..] + rest;
    }
  }

  /** A name without spaces that is not a keyword. */
  predicate Plain(name: string) { ' ' !in name && Lex(name) == NAME(name) }

  predicate Scannable(t: Token) { t.NAME? ==> Plain(t.name) }

  lemma LexSpell(t: Token)
    requires Scannable(t)
    ensures Lex(Spell(t)) == t && ' ' !in Spell(t)
  {
  }

  /** The dot of a column keeps it from being a keyword. */
  lemma ColumnIsPlain(table: string, field: string)
    requires ' ' !in table && ' ' !in field
    ensures Plain(Column(table, field))
  {
    assert '.' in Column(table, field);
  }

  lemma {:induction false} ScanText(ts: seq<Token>)
    requires forall i :: 0 <= i < |ts| ==> Scannable(ts[i])
    ensures Scan(Text(ts)) == ts
  {
    hide Spell, Lex, Scan, Plain;
    if ts != [] {
      var w, rest := Spell(ts[0]), Text(ts[1..]);
      ScanText(ts[1..]);
      LexSpell(ts[0]);
      ScanFirst(w, rest);
      assert ts == [ts[0]] + ts[1..];
    } else {
      ScanNothing();
    }
  }

  lemma ScanNothing()
    ensures Scan("") == []
  {
  }

  lemma ScanFirst(w: string, rest: string)
    requires ' ' !in w && (rest == [] || rest[0] == ' ')
    ensures Scan(" " + w + rest) == [Lex(w)] + Scan(rest)
  {
    hide Lex;
    var s := " " + w + rest;
    WordEndAt(w, rest);
    assert s[1..] == w + rest && s[1..1 + |w|] == w && s[1 + |w|..] == rest;
  }

  // ----- the grammar -----

  datatype Parsed<T> = Parsed(tree: T, rest: seq<Token>, slot: nat)

  predicate OfTable(table: string, t: Token) { t.NAME? && |t.name| > |table| && t.name[..|table| + 1] == table + "." }

  /** Reads one condition; every `?` gets the next slot. */
  function ParseBody(table: string, ts: seq<Token>, slot: nat): (r: Option<Parsed<Body<nat>>>)
    ensures r.Some? ==> |r.value.rest| < |ts|
    decreases |ts|, 0
  {
    if ts == [] then None
    else if ts[0] == OPEN then
      var inner := ParseList(table, ts[1..], true, slot);
      if inner.None? || inner.value.rest == [] || inner.value.rest[0] != CLOSE then None
      else Some(Parsed(Nested(inner.value.tree), inner.value.rest[1..], inner.value.slot))
    else if |ts| < 3 || !OfTable(table, ts[0]) then None
    else
      var f := ts[0].name[|table| + 1..];
      if ts[1].COMPARES? && ts[2] == SLOT then Some(Parsed(Compare(f, ts[1].comparison, slot), ts[3..], slot + 1))
      else if ts[1] == IS && ts[2] == NULL then Some(Parsed(IsNull(f), ts[3..], slot))
      else if ts[1] == IS && ts[2] == NOT && |ts| >= 4 && ts[3] == NULL then Some(Parsed(IsNotNull(f), ts[4..], slot))
      else None
  }

  /** Reads conditions joined by operators, up to a closing parenthesis or the end. */
  function ParseList(table: string, ts: seq<Token>, first: bool, slot: nat): (r: Option<Parsed<Clauses<nat>>>)
    ensures r.Some? ==> |r.value.rest| <= |ts|
    decreases |ts|, 2
  {
    if ts == [] || ts[0] == CLOSE then Some(Parsed(End, ts, slot))
    else if first then ParseItem(table, And, ts, slot)
    else if ts[0] == AND then ParseItem(table, And, ts[1..], slot)
    else if ts[0] == OR then ParseItem(table, Or, ts[1..], slot)
    else None
  }

  function ParseItem(table: string, o: Operator, ts: seq<Token>, slot: nat): (r: Option<Parsed<Clauses<nat>>>)
    ensures r.Some? ==> |r.value.rest| <= |ts|
    decreases |ts|, 1
  {
    var body := ParseBody(table, ts, slot);
    if body.None? then None else
    var next := ParseList(table, body.value.rest, false, body.value.slot);
    if next.None? then None
    else Some(next.value.(tree := Item(o, body.value.tree, next.value.tree)))
  }

  // ----- the text parses back -----

  /** The values of a list, in the order of its text. */
  function Values<V>(list: Clauses<V>): seq<V> {
    if list.End? then [] else BodyValues(list.body) + Values(list.next)
  }

  function BodyValues<V>(body: Body<V>): seq<V> {
    match body
    case Compare(_, _, v) => [v]
    case Nested(list) => Values(list)
    case _ => []
  }

  /** The list with its values numbered from `slot`, and an AND in front, where nothing is printed. */
  function Numbered<V>(list: Clauses<V>, first: bool, slot: nat): Clauses<nat> {
    match list
    case End => End
    case Item(o, body, next) =>
      Item(if first then And else o, NumberedBody(body, slot), Numbered(next, false, slot + |BodyValues(body)|))
  }

  function NumberedBody<V>(body: Body<V>, slot: nat): Body<nat> {
    match body
    case Compare(f, c, _) => Compare(f, c, slot)
    case IsNull(f) => IsNull(f)
    case IsNotNull(f) => IsNotNull(f)
    case Nested(list) => Nested(Numbered(list, true, slot))
    case Unknown => Unknown
  }

  predicate Stops(ts: seq<Token>) { ts == [] || ts[0] == CLOSE }

  lemma {:induction false} ParseTokens<V>(table: string, list: Clauses<V>, first: bool, slot: nat, rest: seq<Token>)
    requires Known(list, first) && Stops(rest)
    ensures ParseList(table, Tokens(table, list, first) + rest, first, slot)
         == Some(Parsed(Numbered(list, first, slot), rest, slot + |Values(list)|))
    decreases list
  {
    hide ParseBody, ParseItem, ParseList, BodyTokens, BodyValues, NumberedBody, OperatorTokens;
    var ts := Tokens(table, list, first) + rest;
    if list.End? {
      assert ts == rest;
      ListEnds(table, rest, first, slot);
    } else {
      var tail := Tokens(table, list.next, false) + rest;
      var body := BodyTokens(table, list.body);
      var slot' := slot + |BodyValues(list.body)|;
      ParseBodyTokens(table, list.body, slot, tail);
      ParseTokens(table, list.next, false, slot', rest);
      var o := if first then And else list.operator;
      ItemTokens(table, o, body + tail, slot, NumberedBody(list.body, slot), tail, slot');
      BodyStarts(table, list.body);
      ListGoesOn(table, list.operator, body + tail, first, slot);
      assert ts == OperatorTokens(list.operator, first) + (body + tail);
    }
  }

  lemma ListEnds(table: string, rest: seq<Token>, first: bool, slot: nat)
    requires Stops(rest)
    ensures ParseList(table, rest, first, slot) == Some(Parsed(End, rest, slot))
  {
  }

  lemma ListGoesOn(table: string, o: Operator, ts: seq<Token>, first: bool, slot: nat)
    requires !Stops(ts) && (first || o != UnknownOperator)
    ensures ParseList(table, OperatorTokens(o, first) + ts, first, slot) ==
            ParseItem(table, if first then And else o, ts, slot)
  {
    hide ParseItem;
    assert first ==> OperatorTokens(o, first) + ts == ts;
    assert !first ==> (OperatorTokens(o, first) + ts)[1..] == ts;
  }

  lemma ItemTokens(table: string, o: Operator, ts: seq<Token>, slot: nat, body: Body<nat>, rest: seq<Token>, slot': nat)
    requires ParseBody(table, ts, slot) == Some(Parsed(body, rest, slot')) && ParseList(table, rest, false, slot').Some?
    ensures var next := ParseList(table, rest, false, slot').value;
            ParseItem(table, o, ts, slot) == Some(Parsed(Item(o, body, next.tree), next.rest, next.slot))
  {
    hide ParseBody, ParseList;
  }

  /** A condition begins with something that does not end a list. */
  lemma BodyStarts<V>(table: string, body: Body<V>)
    requires !body.Unknown?
    ensures BodyTokens(table, body) != [] && BodyTokens(table, body)[0] != CLOSE
  {
  }

  lemma {:induction false} ParseBodyTokens<V>(table: string, body: Body<V>, slot: nat, rest: seq<Token>)
    requires !body.Unknown? && (body.Nested? ==> Known(body.list, true))
    ensures ParseBody(table, BodyTokens(table, body) + rest, slot)
         == Some(Parsed(NumberedBody(body, slot), rest, slot + |BodyValues(body)|))
    decreases body
  {
    hide ParseList, Tokens, Column, OfTable;
    var ts := BodyTokens(table, body) + rest;
    if body.Nested? {
      ParseTokens(table, body.list, true, slot, [CLOSE] + rest);
      assert ts[1..] == Tokens(table, body.list, true) + ([CLOSE] + rest);
      assert ([CLOSE] + rest)[1..] == rest;
    } else {
      ColumnIsOfTable(table, body.field);
      assert ts[|BodyTokens(table, body)|..] == rest;
    }
  }

  lemma ColumnIsOfTable(table: string, field: string)
    ensures OfTable(table, NAME(Column(table, field))) && |Column(table, field)| > |table| &&
            Column(table, field)[|table| + 1..] == field
  {
  }

  /** Every field name in the tree is free of spaces. */
  predicate Spaceless<V>(list: Clauses<V>) {
    list.Item? ==> SpacelessBody(list.body) && Spaceless(list.next)
  }

  predicate SpacelessBody<V>(body: Body<V>) {
    match body
    case Nested(list) => Spaceless(list)
    case Unknown => true
    case _ => ' ' !in body.field
  }

  predicate AllScannable(ts: seq<Token>) {
    forall i :: 0 <= i < |ts| ==> Scannable(ts[i])
  }

  lemma {:induction false} TokensScan<V>(table: string, list: Clauses<V>, first: bool)
    requires ' ' !in table && Spaceless(list)
    ensures AllScannable(Tokens(table, list, first))
    decreases list
  {
    hide Scannable;
    if list.Item? {
      TokensScan(table, list.next, false);
      BodyScans(table, list.body);
      SymbolsScan();
    }
  }

  lemma SymbolsScan()
    ensures Scannable(AND) && Scannable(OR) && Scannable(OPEN) && Scannable(CLOSE) && Scannable(IS) && Scannable(NOT)
    ensures Scannable(NULL) && Scannable(SLOT) && forall c :: Scannable(COMPARES(c))
  {
  }

  lemma {:induction false} BodyScans<V>(table: string, body: Body<V>)
    requires ' ' !in table && SpacelessBody(body)
    ensures AllScannable(BodyTokens(table, body))
    decreases body
  {
    hide Column, Plain, Tokens;
    SymbolsScan();
    if body.Nested? {
      TokensScan(table, body.list, true);
    } else if !body.Unknown? {
      ColumnIsPlain(table, body.field);
    }
  }

  /** The text of a WHERE clause reads back as the same tree, with its values numbered in order. */
  lemma WhereRoundTrip<V>(table: string, list: Clauses<V>, slot: nat)
    requires Known(list, true) && ' ' !in table && Spaceless(list)
    ensures ParseList(table, Scan(Text(Tokens(table, list, true))), true, slot)
         == Some(Parsed(Numbered(list, true, slot), [], slot + |Values(list)|))
  {
    TokensScan(table, list, true);
    ScanText(Tokens(table, list, true));
    ParseTokens(table, list, true, slot, []);
    assert Tokens(table, list, true) + [] == Tokens(table, list, true);
  }

  // ----- values -----

  /** A value of a clause; `Unsupported` stands for the types that cannot be bound. */
  datatype Value =
    | Int32(n: int) | Uint32(n: int) | Int64(n: int) | Uint64(n: int)
    | TextValue(text: string) | Enum(n: int) | Unsupported

  datatype SqlValue = Null | Integer(n: int) | String(text: string)

  function ToInt64(n: int): int {
    var r := n % 0x1_0000_0000_0000_0000;
    if r < 0x8000_0000_0000_0000 then r else r - 0x1_0000_0000_0000_0000
  }

  /** What reaches the database: an unsigned number of 32 bits becomes an `int`, one of 64 bits an `int64`. */
  function Bound(v: Value): SqlValue {
    match v
    case Int32(n) => Integer(n)
    case Uint32(n) => Integer(ToInt32(n))
    case Int64(n) => Integer(n)
    case Uint64(n) => Integer(ToInt64(n))
    case TextValue(s) => String(s)
    case Enum(n) => Integer(n)
    case Unsupported => Null
  }

  function AllBound(vs: seq<Value>): (r: seq<SqlValue>)
    ensures |r| == |vs| && forall i :: 0 <= i < |vs| ==> r[i] == Bound(vs[i])
  {
    seq(|vs|, i requires 0 <= i < |vs| => Bound(vs[i]))
  }

  /** The tree as the database sees it. */
  function BoundTree(list: Clauses<Value>, first: bool): Clauses<SqlValue> {
    match list
    case End => End
    case Item(o, body, next) => Item(if first then And else o, BoundBody(body), BoundTree(next, false))
  }

  function BoundBody(body: Body<Value>): Body<SqlValue> {
    match body
    case Compare(f, c, v) => Compare(f, c, Bound(v))
    case IsNull(f) => IsNull(f)
    case IsNotNull(f) => IsNotNull(f)
    case Nested(list) => Nested(BoundTree(list, true))
    case Unknown => Unknown
  }

  function Slot(slots: seq<SqlValue>, k: nat): SqlValue { if 1 <= k <= |slots| then slots[k - 1] else Null }

  /** A parsed tree with the slots filled in. */
  function Filled(list: Clauses<nat>, slots: seq<SqlValue>): Clauses<SqlValue> {
    match list
    case End => End
    case Item(o, body, next) => Item(o, FilledBody(body, slots), Filled(next, slots))
  }

  function FilledBody(body: Body<nat>, slots: seq<SqlValue>): Body<SqlValue> {
    match body
    case Compare(f, c, k) => Compare(f, c, Slot(slots, k))
    case IsNull(f) => IsNull(f)
    case IsNotNull(f) => IsNotNull(f)
    case Nested(list) => Nested(Filled(list, slots))
    case Unknown => Unknown
  }

  /** The slots from `slot` on hold these values. */
  predicate Holds(slots: seq<SqlValue>, slot: nat, vs: seq<Value>) {
    forall i :: 0 <= i < |vs| ==> Slot(slots, slot + i) == Bound(vs[i])
  }

  /** Numbering the values and filling the slots they were bound to gives the tree that was asked for. */
  lemma {:induction false} FillNumbered(list: Clauses<Value>, first: bool, slot: nat, slots: seq<SqlValue>)
    requires Holds(slots, slot, Values(list))
    ensures Filled(Numbered(list, first, slot), slots) == BoundTree(list, first)
    decreases list
  {
    hide Slot, Bound;
    if list.Item? {
      var a, b := BodyValues(list.body), Values(list.next);
      HoldsParts(slots, slot, a, b);
      FillNumberedBody(list.body, slot, slots);
      FillNumbered(list.next, false, slot + |a|, slots);
    }
  }

  lemma HoldsParts(slots: seq<SqlValue>, slot: nat, a: seq<Value>, b: seq<Value>)
    requires Holds(slots, slot, a + b)
    ensures Holds(slots, slot, a) && Holds(slots, slot + |a|, b)
  {
    hide Slot, Bound;
    assert forall i :: 0 <= i < |a| ==> (a + b)[i] == a[i];
    forall i | 0 <= i < |b| ensures Slot(slots, slot + |a| + i) == Bound(b[i]) {
      assert (a + b)[|a| + i] == b[i];
    }
  }

  lemma {:induction false} FillNumberedBody(body: Body<Value>, slot: nat, slots: seq<SqlValue>)
    requires Holds(slots, slot, BodyValues(body))
    ensures FilledBody(NumberedBody(body, slot), slots) == BoundBody(body)
    decreases body
  {
    hide Slot, Bound;
    if body.Nested? {
      FillNumbered(body.list, true, slot, slots);
    } else if body.Compare? {
      assert BodyValues(body)[0] == body.value && Slot(slots, slot + 0) == Slot(slots, slot);
    }
  }

  // ----- meaning -----

  type Row = map<string, SqlValue>

  function Cell(row: Row, field: string): SqlValue { if field in row then row[field] else Null }

  /** The order of SQLite: numbers in front of text; nothing compares with NULL. */
  function Order(a: SqlValue, b: SqlValue): int
    requires !a.Null? && !b.Null?
  {
    match (a, b)
    case (Integer(m), Integer(n)) => if m < n then -1 else if m == n then 0 else 1
    case (Integer(_), String(_)) => -1
    case (String(_), Integer(_)) => 1
    case (String(s), String(t)) => StrCmp(s, t)
  }

  predicate Compares(a: SqlValue, c: Comparison, b: SqlValue) {
    !a.Null? && !b.Null? &&
    match c
    case Equal => Order(a, b) == 0
    case NotEqual => Order(a, b) != 0
    case LessThan => Order(a, b) < 0
    case LessOrEqual => Order(a, b) <= 0
    case GreaterOrEqual => Order(a, b) >= 0
    case GreaterThan => Order(a, b) > 0
  }

  predicate Meets(row: Row, body: Body<SqlValue>) {
    match body
    case Compare(f, c, v) => Compares(Cell(row, f), c, v)
    case IsNull(f) => Cell(row, f).Null?
    case IsNotNull(f) => !Cell(row, f).Null?
    case Nested(list) => Satisfies(row, list)
    case Unknown => false
  }

  /** A row satisfies a list: AND binds tighter than OR, and no condition at all is met by every row. */
  predicate Satisfies(row: Row, list: Clauses<SqlValue>) { AnyGroup(row, list, true, false) }

  /** `group` tells whether the conditions since the last OR hold, `any` whether an earlier group did. */
  predicate AnyGroup(row: Row, list: Clauses<SqlValue>, group: bool, any: bool) {
    match list
    case End => group || any
    case Item(And, body, next) => AnyGroup(row, next, group && Meets(row, body), any)
    case Item(_, body, next) => AnyGroup(row, next, Meets(row, body), group || any)
  }

  function Append<V>(a: Clauses<V>, b: Clauses<V>): Clauses<V> {
    match a
    case End => b
    case Item(o, body, next) => Item(o, body, Append(next, b))
  }

  lemma {:induction false} AnyStays(row: Row, list: Clauses<SqlValue>, group: bool, any: bool)
    ensures AnyGroup(row, list, group, any) <==> any || AnyGroup(row, list, group, false)
  {
    match list
    case End =>
    case Item(And, body, next) => AnyStays(row, next, group && Meets(row, body), any);
    case Item(_, body, next) =>
      AnyStays(row, next, Meets(row, body), group || any);
      AnyStays(row, next, Meets(row, body), group);
  }

  /** An OR splits a list into two alternatives, each read on its own. */
  lemma {:induction false} OrSeparates(row: Row, a: Clauses<SqlValue>, b: Clauses<SqlValue>, group: bool, any: bool)
    requires b.Item? && b.operator == Or
    ensures AnyGroup(row, Append(a, b), group, any) <==>
              AnyGroup(row, a, group, any) || Satisfies(row, b.(operator := And))
    decreases a
  {
    match a
    case End => AnyStays(row, b.next, Meets(row, b.body), group || any);
    case Item(And, body, next) => OrSeparates(row, next, b, group && Meets(row, body), any);
    case Item(_, body, next) => OrSeparates(row, next, b, Meets(row, body), group || any);
  }

  predicate NoOr(list: Clauses<SqlValue>) { list.Item? ==> list.operator == And && NoOr(list.next) }

  predicate AllMet(row: Row, list: Clauses<SqlValue>) { list.Item? ==> Meets(row, list.body) && AllMet(row, list.next) }

  /** Without OR every condition has to hold. */
  lemma {:induction false} AndJoins(row: Row, list: Clauses<SqlValue>, group: bool)
    requires NoOr(list)
    ensures AnyGroup(row, list, group, false) <==> group && AllMet(row, list)
  {
    if list.Item? { AndJoins(row, list.next, group && Meets(row, list.body)); }
  }

  // ----- values and conditions, in so many words -----

  /**
   How a value is kept in a row: a text as it is, a number as it is, and an unsigned number as the one
   of the same size with a sign that has the same bits.
   */
  ghost predicate Stored(v: Value, c: SqlValue) {
    match v
    case TextValue(s) => c == String(s)
    case Int32(n) => c == Integer(n)
    case Int64(n) => c == Integer(n)
    case Enum(n) => c == Integer(n)
    case Uint32(n) => c.Integer? && -0x8000_0000 <= c.n < 0x8000_0000 && (c.n - n) % 0x1_0000_0000 == 0
    case Uint64(n) =>
      && c.Integer? && -0x8000_0000_0000_0000 <= c.n < 0x8000_0000_0000_0000
      && (c.n - n) % 0x1_0000_0000_0000_0000 == 0
    case Unsupported => false
  }

  /** Every value that can be bound is kept so, and none as NULL. */
  lemma BoundIsStored(v: Value)
    requires v != Unsupported
    ensures Stored(v, Bound(v)) && Bound(v) != Null
  {
    if v.Uint32? { SameBits32(v.n); }
    if v.Uint64? { SameBits64(v.n); }
  }

  lemma SameBits32(n: int)
    ensures -0x8000_0000 <= ToInt32(n) < 0x8000_0000 && (ToInt32(n) - n) % 0x1_0000_0000 == 0
  {
  }

  lemma SameBits64(n: int)
    ensures -0x8000_0000_0000_0000 <= ToInt64(n) < 0x8000_0000_0000_0000
    ensures (ToInt64(n) - n) % 0x1_0000_0000_0000_0000 == 0
  {
  }

  /** Conditions on numbers are the comparisons they are written as. */
  lemma NumberConditions(row: Row, f: string, n: int)
    ensures Meets(row, Compare(f, Equal, Integer(n))) <==> Cell(row, f) == Integer(n)
    ensures Cell(row, f).Integer? ==>
              && (Meets(row, Compare(f, NotEqual, Integer(n))) <==> Cell(row, f).n != n)
              && (Meets(row, Compare(f, LessThan, Integer(n))) <==> Cell(row, f).n < n)
              && (Meets(row, Compare(f, LessOrEqual, Integer(n))) <==> Cell(row, f).n <= n)
              && (Meets(row, Compare(f, GreaterOrEqual, Integer(n))) <==> Cell(row, f).n >= n)
              && (Meets(row, Compare(f, GreaterThan, Integer(n))) <==> Cell(row, f).n > n)
    ensures Cell(row, f).String? ==> Meets(row, Compare(f, GreaterThan, Integer(n)))
    ensures Meets(row, IsNull(f)) <==> Cell(row, f) == Null
    ensures Meets(row, IsNotNull(f)) <==> Cell(row, f) != Null
  {
  }

  /** A condition on a text is met by the rows with exactly that text, and an order on texts is that of a dictionary. */
  lemma TextConditions(row: Row, f: string, s: string)
    ensures Meets(row, Compare(f, Equal, String(s))) <==> Cell(row, f) == String(s)
    ensures Cell(row, f).String? ==>
              && (Meets(row, Compare(f, LessThan, String(s))) <==> StrLess(Cell(row, f).text, s))
              && (Meets(row, Compare(f, GreaterThan, String(s))) <==> StrLess(s, Cell(row, f).text))
    ensures Cell(row, f).Integer? ==> Meets(row, Compare(f, LessThan, String(s)))
  {
    if Cell(row, f).String? {
      StrCmpSign(Cell(row, f).text, s);
      StrCmpSign(s, Cell(row, f).text);
    }
  }

  /** A list in brackets counts as one condition among others, whatever is inside. */
  lemma NestedConditions(row: Row, inner: Clauses<SqlValue>, rest: Clauses<SqlValue>)
    requires NoOr(rest)
    ensures Satisfies(row, Item(And, Nested(inner), rest)) <==> Satisfies(row, inner) && AllMet(row, rest)
  {
    AndJoins(row, Item(And, Nested(inner), rest), true);
  }

  /** A list with one condition that a field is a text selects the rows with that text. */
  lemma LookupByText(row: Row, o: Operator, f: string, s: string)
    ensures Satisfies(row, BoundTree(Item(o, Compare(f, Equal, TextValue(s)), End), true)) <==>
              Cell(row, f) == String(s)
  {
    var list := Item(And, Compare(f, Equal, String(s)), End);
    assert BoundTree(Item(o, Compare(f, Equal, TextValue(s)), End), true) == list;
    TextConditions(row, f, s);
    AndJoins(row, list, true);
    assert AllMet(row, list) <==> Meets(row, list.body);
  }
}
