/**
 The update and delete statements (enforcer/src/db/db_backend_sqlite.c), from their arguments to their effect on the
 rows.
 */
module SqlUpdate {
  import opened Prelude
  import opened SqlClause
  import opened SqlStatement

  // ----- the text -----

  function SetTokens(fields: seq<string>): seq<Token> {
    if fields == [] then []
    else if |fields| == 1 then [NAME(fields[0]), COMPARES(Equal), SLOT]
    else [NAME(fields[0]), COMPARES(Equal), SLOT_COMMA] + SetTokens(fields[1..])
  }

  function WhereTokens<V>(table: string, list: Clauses<V>): seq<Token> {
    if list.End? then [] else [WHERE] + Tokens(table, list, true)
  }

  function UpdateTokens<V>(table: string, fields: seq<string>, list: Clauses<V>): seq<Token> {
    [UPDATE, NAME(table), SET] + SetTokens(fields) + WhereTokens(table, list)
  }

  function DeleteTokens<V>(table: string, list: Clauses<V>): seq<Token> {
    [DELETE, FROM, NAME(table)] + WhereTokens(table, list)
  }

  /** A statement is printed without the space in front. */
  function CommandText(ts: seq<Token>): string
    requires ts != []
  {
    Text(ts)[1..]
  }

  /** What the loop over the fields prints: a comma in front of every field but the first. */
  function SetText(fields: seq<string>, first: bool): string {
    if fields == [] then "" else SetField(fields[0], first) + SetText(fields[1..], false)
  }

  function SetField(field: string, first: bool): string { (if first then " " else ", ") + field + " = ?" }

  lemma {:induction false} SetTextIsTokens(fields: seq<string>)
    ensures Text(SetTokens(fields)) == SetText(fields, true)
  {
    hide Text;
    if |fields| == 1 {
      SetTextOfOne(fields[0]);
      assert SetText(fields[1..], false) == "";
    } else if fields != [] {
      var a, b := [NAME(fields[0]), COMPARES(Equal), SLOT_COMMA], SetTokens(fields[1..]);
      SetTextIsTokens(fields[1..]);
      TextOfSum(a, b);
      SetTextOfOne(fields[0]);
      assert SetText(fields[1..], false) == "," + SetText(fields[1..], true);
      assert SetField(fields[0], true) + "," == " " + fields[0] + " = ?,";
    } else {
      TextOfNone();
    }
  }

  lemma TextOfNone()
    ensures Text([]) == ""
  {
  }

  lemma SetTextOfOne(field: string)
    ensures Text([NAME(field), COMPARES(Equal), SLOT]) == SetField(field, true)
    ensures Text([NAME(field), COMPARES(Equal), SLOT_COMMA]) == " " + field + " = ?,"
  {
    TextOfThree(NAME(field), COMPARES(Equal), SLOT);
    TextOfThree(NAME(field), COMPARES(Equal), SLOT_COMMA);
  }

  // ----- the grammar -----

  /** A prepared statement; `count` is the number of its slots. */
  datatype Command =
    | Updates(table: string, fields: seq<string>, where: Clauses<nat>, count: nat)
    | Deletes(table: string, where: Clauses<nat>, count: nat)

  function ParseSets(ts: seq<Token>): (r: Option<(seq<string>, seq<Token>)>) {
    if |ts| < 3 || !ts[0].NAME? || ts[1] != COMPARES(Equal) then None
    else if ts[2] == SLOT then Some(([ts[0].name], ts[3..]))
    else if ts[2] != SLOT_COMMA then None
    else
      var more := ParseSets(ts[3..]);
      if more.None? then None else Some(([ts[0].name] + more.value.0, more.value.1))
  }

  /** SQL knows no empty parentheses. */
  predicate Full<V>(list: Clauses<V>) {
    list.Item? ==> (list.body.Nested? ==> list.body.list.Item? && Full(list.body.list)) && Full(list.next)
  }

  /** An opening parenthesis with the closing one right behind it. */
  predicate EmptyAt(ts: seq<Token>, i: int) { 0 <= i && i + 1 < |ts| && ts[i] == OPEN && ts[i + 1] == CLOSE }

  ghost predicate NoneEmpty(ts: seq<Token>) {
    forall i {:trigger EmptyAt(ts, i)} :: !EmptyAt(ts, i)
  }

  lemma NoneEmptyOfSum(a: seq<Token>, b: seq<Token>)
    requires a == [] || b == [] || a[|a| - 1] != OPEN || b[0] != CLOSE
    ensures NoneEmpty(a + b) <==> NoneEmpty(a) && NoneEmpty(b)
  {
    if NoneEmpty(a + b) {
      forall i ensures !EmptyAt(a, i) { assert EmptyAt(a, i) ==> EmptyAt(a + b, i); }
      forall i ensures !EmptyAt(b, i) { assert EmptyAt(b, i) ==> EmptyAt(a + b, |a| + i); }
    }
    if NoneEmpty(a) && NoneEmpty(b) {
      forall i ensures !EmptyAt(a + b, i) { assert !EmptyAt(a, i) && !EmptyAt(b, i - |a|); }
    }
  }

  /** Neither begins with a closing parenthesis nor ends with an opening one. */
  predicate Tidy(ts: seq<Token>) { ts != [] ==> ts[0] != CLOSE && ts[|ts| - 1] != OPEN }

  /** A tree has no empty list in it if and only if its text has no empty parentheses. */
  lemma {:induction false} FullIsNoneEmpty<V>(table: string, list: Clauses<V>, first: bool)
    requires Known(list, first)
    ensures Full(list) <==> NoneEmpty(Tokens(table, list, first))
    ensures Tidy(Tokens(table, list, first)) && (list.Item? ==> Tokens(table, list, first) != [])
    decreases list
  {
    if list.Item? {
      var o, body := OperatorTokens(list.operator, first), BodyTokens(table, list.body);
      var next := Tokens(table, list.next, false);
      FullIsNoneEmpty(table, list.next, false);
      FullBody(table, list.body);
      NoneEmptyOfSum(o, body);
      NoneEmptyOfSum(o + body, next);
      assert NoneEmpty(o);
    }
  }

  lemma {:induction false} FullBody<V>(table: string, body: Body<V>)
    requires KnownBody(body)
    ensures (body.Nested? ==> body.list.Item? && Full(body.list)) <==> NoneEmpty(BodyTokens(table, body))
    ensures BodyTokens(table, body) != [] && Tidy(BodyTokens(table, body))
    decreases body
  {
    if body.Nested? {
      var inner := Tokens(table, body.list, true);
      FullIsNoneEmpty(table, body.list, true);
      if body.list.End? {
        assert EmptyAt(BodyTokens(table, body), 0);
      } else {
        NoneEmptyOfSum([OPEN], inner);
        NoneEmptyOfSum([OPEN] + inner, [CLOSE]);
        assert NoneEmpty([OPEN]) && NoneEmpty([CLOSE]);
      }
    }
  }

  function ParseWhere(table: string, ts: seq<Token>, slot: nat): Option<Clauses<nat>> {
    if ts == [] then Some(End)
    else if ts[0] != WHERE then None
    else
      var p := ParseList(table, ts[1..], true, slot);
      if p.None? || p.value.rest != [] || p.value.tree.End? || !Full(p.value.tree) then None
      else Some(p.value.tree)
  }

  function ParseUpdate(table: string, ts: seq<Token>): Option<Command> {
    var sets := ParseSets(ts);
    if sets.None? then None else
    var where := ParseWhere(table, sets.value.1, |sets.value.0| + 1);
    if where.None? then None
    else Some(Updates(table, sets.value.0, where.value, |sets.value.0| + |Values(where.value)|))
  }

  function ParseDelete(table: string, ts: seq<Token>): Option<Command> {
    var where := ParseWhere(table, ts, 1);
    if where.None? then None else Some(Deletes(table, where.value, |Values(where.value)|))
  }

  /** What the database makes of the text of a statement. */
  function Prepare(text: string): Option<Command> {
    var ts := Scan(text);
    if |ts| < 3 then None
    else if ts[0] == UPDATE && ts[1].NAME? && ts[2] == SET then ParseUpdate(ts[1].name, ts[3..])
    else if ts[0] == DELETE && ts[1] == FROM && ts[2].NAME? then ParseDelete(ts[2].name, ts[3..])
    else None
  }

  // ----- the text reads back -----

  lemma {:induction false} SetsReadBack(fields: seq<string>, rest: seq<Token>)
    requires fields != []
    ensures ParseSets(SetTokens(fields) + rest) == Some((fields, rest))
  {
    var ts := SetTokens(fields) + rest;
    if |fields| == 1 {
      assert ts[3..] == rest && fields == [fields[0]];
    } else {
      assert ts[3..] == SetTokens(fields[1..]) + rest;
      assert [fields[0]] + fields[1..] == fields;
      SetsReadBack(fields[1..], rest);
    }
  }

  lemma {:induction false} FullNumbered<V>(list: Clauses<V>, first: bool, slot: nat)
    ensures Full(Numbered(list, first, slot)) <==> Full(list)
    ensures |Values(Numbered(list, first, slot))| == |Values(list)|
    decreases list
  {
    if list.Item? {
      FullNumbered(list.next, false, slot + |BodyValues(list.body)|);
      if list.body.Nested? { FullNumbered(list.body.list, true, slot); }
    }
  }

  lemma WhereReadsBack<V>(table: string, list: Clauses<V>, slot: nat)
    requires Known(list, true)
    ensures ParseWhere(table, WhereTokens(table, list), slot)
         == if Full(list) then Some(Numbered(list, true, slot)) else None
  {
    ParseTokens(table, list, true, slot, []);
    FullNumbered(list, true, slot);
    assert Tokens(table, list, true) + [] == Tokens(table, list, true);
  }

  predicate AllPlain(names: seq<string>) {
    forall i :: 0 <= i < |names| ==> Plain(names[i])
  }

  lemma {:induction false} SetsScan(fields: seq<string>)
    requires AllPlain(fields)
    ensures AllScannable(SetTokens(fields))
  {
    hide Plain;
    if |fields| > 1 { SetsScan(fields[1..]); }
  }

  lemma WhereScans<V>(table: string, list: Clauses<V>)
    requires Plain(table) && Spaceless(list)
    ensures AllScannable(WhereTokens(table, list))
  {
    TokensScan(table, list, true);
  }

  /** The first word of a statement needs no space in front. */
  lemma CommandScans(ts: seq<Token>)
    requires ts != [] && AllScannable(ts) && (ts[0] == UPDATE || ts[0] == DELETE)
    ensures Scan(CommandText(ts)) == ts
  {
    hide Lex, Spell, Scan, Scannable;
    ScanText(ts[1..]);
    LexSpell(ts[0]);
    CommandStarts(ts[0]);
    ScanUnspaced(Spell(ts[0]), Text(ts[1..]));
    assert CommandText(ts) == Spell(ts[0]) + Text(ts[1..]);
    assert ts == [ts[0]] + ts[1..];
  }

  lemma CommandStarts(t: Token)
    requires t == UPDATE || t == DELETE
    ensures Spell(t) != ""
  {
  }

  lemma ScanUnspaced(w: string, rest: string)
    requires w != "" && ' ' !in w && (rest == [] || rest[0] == ' ')
    ensures Scan(w + rest) == [Lex(w)] + Scan(rest)
  {
    hide Lex;
    WordEndAt(w, rest);
    var s := w + rest;
    assert s[0] == w[0] && s[0..] == s && s[0..|w|] == w && s[|w|..] == rest;
  }

  /** The text of an update is the update: its fields in order, then the conditions, their values numbered on. */
  lemma UpdateReadsBack<V>(table: string, fields: seq<string>, list: Clauses<V>)
    requires Known(list, true) && Plain(table) && AllPlain(fields) && Spaceless(list)
    ensures Prepare(CommandText(UpdateTokens(table, fields, list)))
         == if fields != [] && Full(list)
            then Some(Updates(table, fields, Numbered(list, true, |fields| + 1), |fields| + |Values(list)|)) else None
  {
    hide Plain, Text, Scan, Scannable, SetTokens, WhereTokens, ParseUpdate, CommandText;
    var ts := UpdateTokens(table, fields, list);
    SetsScan(fields);
    WhereScans(table, list);
    NameScans(table);
    CommandScans(ts);
    assert ts[3..] == SetTokens(fields) + WhereTokens(table, list);
    UpdateParses(table, fields, list);
  }

  lemma NameScans(name: string)
    requires Plain(name)
    ensures AllScannable([UPDATE, NAME(name), SET]) && AllScannable([DELETE, FROM, NAME(name)])
  {
  }

  lemma UpdateParses<V>(table: string, fields: seq<string>, list: Clauses<V>)
    requires Known(list, true)
    ensures ParseUpdate(table, SetTokens(fields) + WhereTokens(table, list))
         == if fields != [] && Full(list)
            then Some(Updates(table, fields, Numbered(list, true, |fields| + 1), |fields| + |Values(list)|)) else None
  {
    hide SetTokens, WhereTokens, ParseSets, ParseWhere, Full, Numbered, Values, Known;
    WhereReadsBack(table, list, |fields| + 1);
    FullNumbered(list, true, |fields| + 1);
    if fields != [] {
      SetsReadBack(fields, WhereTokens(table, list));
    } else {
      NoSets(table, list);
    }
  }

  lemma NoSets<V>(table: string, list: Clauses<V>)
    ensures ParseSets(SetTokens([]) + WhereTokens(table, list)) == None
  {
  }

  lemma DeleteReadsBack<V>(table: string, list: Clauses<V>)
    requires Known(list, true) && Plain(table) && Spaceless(list)
    ensures Prepare(CommandText(DeleteTokens(table, list)))
         == if Full(list) then Some(Deletes(table, Numbered(list, true, 1), |Values(list)|)) else None
  {
    hide Plain, Text, Scan, Scannable, WhereTokens, ParseWhere, CommandText;
    var ts := DeleteTokens(table, list);
    WhereScans(table, list);
    NameScans(table);
    CommandScans(ts);
    assert ts[3..] == WhereTokens(table, list);
    WhereReadsBack(table, list, 1);
    FullNumbered(list, true, 1);
  }
}
