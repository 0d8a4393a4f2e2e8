/** Building and binding statements (enforcer/src/db/db_backend_sqlite.c). */
module SqlStatement {
  import opened SqlClause

  /** The text of a clause list. */
  function ClauseText<V>(table: string, list: Clauses<V>, first: bool): string { Text(Tokens(table, list, first)) }

  function Size<V>(list: Clauses<V>): nat {
    if list.End? then 0 else 1 + BodySize(list.body) + Size(list.next)
  }

  function BodySize<V>(body: Body<V>): nat { if body.Nested? then Size(body.list) else 0 }

  lemma ClauseTextOfItem<V>(table: string, list: Clauses<V>, first: bool)
    requires list.Item?
    ensures ClauseText(table, list, first)
         == Text(OperatorTokens(list.operator, first)) + Text(BodyTokens(table, list.body))
            + ClauseText(table, list.next, false)
  {
    TextOfSum(OperatorTokens(list.operator, first) + BodyTokens(table, list.body), Tokens(table, list.next, false));
    TextOfSum(OperatorTokens(list.operator, first), BodyTokens(table, list.body));
  }

  lemma TextOfNested<V>(table: string, list: Clauses<V>)
    ensures Text(BodyTokens(table, Nested(list))) == " (" + ClauseText(table, list, true) + " )"
  {
    TextOfSum([OPEN] + Tokens(table, list, true), [CLOSE]);
    TextOfSum([OPEN], Tokens(table, list, true));
    assert Text([OPEN]) == " (" && Text([CLOSE]) == " )";
  }

  lemma TextOfOperator(o: Operator, first: bool)
    ensures Text(OperatorTokens(o, first)) == if first then "" else if o == And then " AND" else " OR"
  {
    assert Text([AND]) == " AND" && Text([OR]) == " OR";
  }

  lemma TextOfEnd<V>(table: string, first: bool)
    ensures ClauseText<V>(table, End, first) == ""
  {
  }

  /** The texts that the cases of the switch print. */
  function BodyText<V>(table: string, body: Body<V>): string
    requires !body.Nested? && !body.Unknown?
  {
    match body
    case Compare(f, c, _) => " " + Column(table, f) + " " + Spell(COMPARES(c)) + " ?"
    case IsNull(f) => " " + Column(table, f) + " IS NULL"
    case IsNotNull(f) => " " + Column(table, f) + " IS NOT NULL"
  }

  lemma TextOfBody<V>(table: string, body: Body<V>)
    requires !body.Nested? && !body.Unknown?
    ensures Text(BodyTokens(table, body)) == BodyText(table, body)
  {
    hide Column, Text, Spell;
    var column := Column(table, body.field);
    match body
    case Compare(_, c, _) =>
      TextOfThree(NAME(column), COMPARES(c), SLOT);
      Spelling(column);
    case IsNull(_) =>
      TextOfThree(NAME(column), IS, NULL);
      Spelling(column);
    case IsNotNull(_) =>
      TextOfThree(NAME(column), IS, NOT);
      TextOfSum([NAME(column), IS, NOT], [NULL]);
      TextOfOne(NULL);
      Spelling(column);
      assert [NAME(column), IS, NOT] + [NULL] == BodyTokens(table, body);
  }

  lemma Spelling(name: string)
    ensures Spell(NAME(name)) == name && Spell(SLOT) == "?" && Spell(IS) == "IS" && Spell(NOT) == "NOT" &&
            Spell(NULL) == "NULL"
  {
  }

  lemma TextOfOne(t: Token)
    ensures Text([t]) == " " + Spell(t)
  {
    hide Spell;
  }

  lemma TextOfThree(a: Token, b: Token, c: Token)
    ensures Text([a, b, c]) == " " + Spell(a) + " " + Spell(b) + " " + Spell(c)
  {
    hide Spell;
    assert Text([a, b, c]) == " " + Spell(a) + Text([b, c]);
    assert Text([b, c]) == " " + Spell(b) + Text([c]);
    assert Text([c]) == " " + Spell(c);
  }

  predicate KnownBody<V>(body: Body<V>) { !body.Unknown? && (body.Nested? ==> Known(body.list, true)) }

  /** The statement under construction: what is written so far, and the room left in the buffer. */
  class SqlBuffer {
    var text: string
    var left: int

    constructor (size: nat)
      ensures text == "" && left == size
    {
      text, left := "", size;
    }

    /** One `snprintf`, and the step of the cursor behind it; text that does not fit with its terminator is refused. */
    method Print(s: string) returns (ok: bool)
      modifies this
      ensures ok <==> |s| < old(left)
      ensures text == old(text) + (if ok then s else "") && left == old(left) - (if ok then |s| else 0)
    {
      ok := |s| < left;
      if ok {
        text := text + s;
        left := left - |s|;
      }
    }

    /** `__db_backend_sqlite_build_clause`: succeeds exactly when every clause is known and the whole text fits. */
    method BuildClause(table: string, list: Clauses<Value>) returns (ok: bool)
      modifies this
      ensures ok <==> Known(list, true) && |ClauseText(table, list, true)| < old(left)
      ensures ok ==>
                text == old(text) + ClauseText(table, list, true) && left == old(left) - |ClauseText(table, list, true)|
      decreases Size(list), 1
    {
      hide Text, Tokens, BodyTokens, OperatorTokens, ClauseText;
      if left < 1 { return false; }
      var clause, first := list, true;
      while clause.Item?
        invariant left >= 1 && left == old(left) + |old(text)| - |text| && Size(clause) <= Size(list)
        invariant Known(list, true) <==> Known(clause, first)
        invariant old(text) + ClauseText(table, list, true) == text + ClauseText(table, clause, first)
        decreases clause
      {
        ClauseTextOfItem(table, clause, first);
        TextOfOperator(clause.operator, first);
        if !first {
          if clause.operator == UnknownOperator { return false; }
          var fits := Print(if clause.operator == And then " AND" else " OR");
          if !fits { return false; }
        }
        first := false;
        var built := BuildBody(table, clause.body);
        if !built { return false; }
        clause := clause.next;
      }
      TextOfEnd<Value>(table, first);
      ok := true;
    }

    /** The switch over the type of a clause. */
    method BuildBody(table: string, body: Body<Value>) returns (ok: bool)
      requires left >= 1
      modifies this
      ensures ok <==> KnownBody(body) && |Text(BodyTokens(table, body))| < old(left)
      ensures ok ==>
                text == old(text) + Text(BodyTokens(table, body)) && left == old(left) - |Text(BodyTokens(table, body))|
      decreases BodySize(body), 2
    {
      hide Text, BodyTokens;
      match body
      case Compare(_, _, _) =>
        TextOfBody(table, body);
        ok := Print(BodyText(table, body));
      case IsNull(_) =>
        TextOfBody(table, body);
        ok := Print(BodyText(table, body));
      case IsNotNull(_) =>
        TextOfBody(table, body);
        ok := Print(BodyText(table, body));
      case Nested(list) =>
        TextOfNested(table, list);
        ok := Print(" (");
        if ok { ok := BuildClause(table, list); }
        if ok { ok := Print(" )"); }
      case Unknown =>
        ok := false;
    }
  }

  // ----- binding -----

  /** Types and values that can be bound; operators are not looked at. */
  predicate Bindable(list: Clauses<Value>) {
    list.Item? ==> BindableBody(list.body) && Bindable(list.next)
  }

  predicate BindableBody(body: Body<Value>) {
    match body
    case Compare(_, _, v) => v != Unsupported
    case Nested(list) => Bindable(list)
    case Unknown => false
    case _ => true
  }

  /** No clause of an unknown type, at any depth. */
  predicate Typed<V>(list: Clauses<V>) {
    list.Item? ==> !list.body.Unknown? && (list.body.Nested? ==> Typed(list.body.list)) && Typed(list.next)
  }

  /** What can be bound: clauses of known types whose values are all supported, whatever their operators. */
  lemma {:induction false} BindableIsExact(list: Clauses<Value>)
    ensures Bindable(list) <==> Typed(list) && Unsupported !in Values(list)
    decreases list
  {
    if list.Item? {
      BindableIsExact(list.next);
      if list.body.Nested? { BindableIsExact(list.body.list); }
    }
  }

  /** Values written into consecutive slots, the first one at position `from`. */
  function Written(slots: seq<SqlValue>, from: nat, vs: seq<Value>): (r: seq<SqlValue>)
    requires vs != [] ==> from + |vs| <= |slots|
    ensures |r| == |slots|
  {
    if vs == [] then slots else slots[..from] + AllBound(vs) + slots[from + |vs|..]
  }

  predicate Fits(slots: seq<SqlValue>, bind: nat, vs: seq<Value>) { vs == [] || bind + |vs| - 1 <= |slots| }

  lemma WrittenTwice(slots: seq<SqlValue>, from: nat, a: seq<Value>, b: seq<Value>)
    requires a + b != [] ==> from + |a| + |b| <= |slots|
    ensures Written(Written(slots, from, a), from + |a|, b) == Written(slots, from, a + b)
  {
    assert AllBound(a + b) == AllBound(a) + AllBound(b);
    if a == [] {
      assert a + b == b;
    } else if b == [] {
      assert a + b == a;
    } else {
      var w := Written(slots, from, a);
      assert w[..from + |a|] == slots[..from] + AllBound(a);
      assert w[from + |a| + |b|..] == slots[from + |a| + |b|..];
    }
  }

  lemma NothingWritten(slots: seq<SqlValue>, start: nat)
    ensures start > 0 ==> Written(slots, start - 1, []) == slots
  {
  }

  /** Every value that was written is kept in its slot. */
  lemma WrittenIsStored(slots: seq<SqlValue>, from: nat, vs: seq<Value>)
    requires from + |vs| <= |slots| && Unsupported !in vs
    ensures forall i :: 0 <= i < |vs| ==> Stored(vs[i], Written(slots, from, vs)[from + i])
  {
    hide Stored, Bound;
    forall i | 0 <= i < |vs| ensures Stored(vs[i], Written(slots, from, vs)[from + i]) {
      BoundIsStored(vs[i]);
      assert Written(slots, from, vs)[from + i] == AllBound(vs)[i];
    }
  }

  /** The text of a comparison, as it is written. */
  lemma CompareSpelling<V>(t: string, f: string, c: Comparison, v: V)
    ensures Text(BodyTokens(t, Compare(f, c, v))) == " " + t + "." + f +
            match c
            case Equal => " = ?"
            case NotEqual => " != ?"
            case LessThan => " < ?"
            case LessOrEqual => " <= ?"
            case GreaterOrEqual => " >= ?"
            case GreaterThan => " > ?"
  {
    hide Text, BodyTokens;
    TextOfBody(t, Compare(f, c, v));
  }

  lemma NullSpelling<V>(t: string, f: string)
    ensures Text(BodyTokens<V>(t, IsNull(f))) == " " + t + "." + f + " IS NULL"
    ensures Text(BodyTokens<V>(t, IsNotNull(f))) == " " + t + "." + f + " IS NOT NULL"
  {
    hide Text, BodyTokens;
    TextOfBody<V>(t, IsNull(f));
    TextOfBody<V>(t, IsNotNull(f));
  }

  /** A prepared statement and its slots. */
  class Statement {
    var slots: seq<SqlValue>

    constructor (count: nat)
      ensures slots == seq(count, _ => Null)
    {
      slots := seq(count, _ => Null);
    }

    /** `sqlite3_bind_int` and its like: slots count from one. */
    method BindSlot(k: nat, v: SqlValue) returns (ok: bool)
      modifies this
      ensures ok <==> 1 <= k <= |old(slots)|
      ensures slots == if ok then old(slots)[k - 1 := v] else old(slots)
    {
      ok := 1 <= k <= |slots|;
      if ok { slots := slots[k - 1 := v]; }
    }

    /** The switch over the type of a value. */
    method BindValue(k: nat, v: Value) returns (ok: bool)
      requires k >= 1
      modifies this
      ensures ok <==> v != Unsupported && k <= |old(slots)|
      ensures ok ==> slots == Written(old(slots), k - 1, [v])
      ensures ok ==> |slots| == |old(slots)| && Stored(v, slots[k - 1])
      ensures ok ==> forall j :: 0 <= j < |slots| && j != k - 1 ==> slots[j] == old(slots)[j]
    {
      if v == Unsupported { return false; }
      BoundIsStored(v);
      ok := BindSlot(k, Bound(v));
    }

    /** `__db_backend_sqlite_bind_clause`: the values of the tree fill consecutive slots, in the order of its text. */
    method BindClause(list: Clauses<Value>, start: nat) returns (ok: bool, bind: nat)
      modifies this
      ensures ok <==> start != 0 && Bindable(list) && Fits(old(slots), start, Values(list))
      ensures ok ==> bind == start + |Values(list)| && slots == Written(old(slots), start - 1, Values(list))
      decreases Size(list), 1
    {
      hide Written, AllBound, BindableBody, BodyValues;
      bind := start;
      NothingWritten(slots, start);
      if bind == 0 { return false, bind; }
      var clause := list;
      ghost var done: seq<Value> := [];
      while clause.Item?
        invariant Size(clause) <= Size(list) && done + Values(clause) == Values(list) && bind == start + |done|
        invariant Bindable(list) <==> Bindable(clause)
        invariant Fits(old(slots), start, done) && slots == Written(old(slots), start - 1, done)
        decreases clause
      {
        var body := clause.body;
        assert Values(list) == done + BodyValues(body) + Values(clause.next);
        var bound;
        bound, bind := BindBody(body, bind);
        if !bound { return false, bind; }
        WrittenTwice(old(slots), start - 1, done, BodyValues(body));
        done := done + BodyValues(body);
        clause := clause.next;
      }
      assert done == Values(list);
      ok := true;
    }

    method BindBody(body: Body<Value>, start: nat) returns (ok: bool, bind: nat)
      requires start >= 1
      modifies this
      ensures ok <==> BindableBody(body) && Fits(old(slots), start, BodyValues(body))
      ensures ok ==> bind == start + |BodyValues(body)| && slots == Written(old(slots), start - 1, BodyValues(body))
      decreases BodySize(body), 2
    {
      bind := start;
      match body
      case Compare(_, _, v) =>
        ok := BindValue(start, v);
        bind := start + 1;
      case IsNull(_) =>
        ok := true;
      case IsNotNull(_) =>
        ok := true;
      case Nested(list) =>
        ok, bind := BindClause(list, start);
      case Unknown =>
        ok := false;
    }
  }
}
