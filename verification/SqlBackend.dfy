/** The revision logic of update and delete (enforcer/src/db/db_backend_sqlite.c). */
module SqlBackend {
  import opened Prelude
  import opened SqlClause
  import opened SqlStatement
  import opened SqlUpdate

  /** The size of the buffer for the text of a statement. */
  const SQL_SIZE: nat := 4 * 1024

  datatype ObjectField = ObjectField(name: string, revision: bool)

  datatype DbObject = DbObject(table: string, fields: seq<ObjectField>)

  // ----- building -----

  function AllFields(fields: seq<string>, revision: Option<string>): seq<string> {
    fields + (if revision.Some? then [revision.value] else [])
  }

  function WhereText<V>(table: string, list: Clauses<V>): string {
    if list.End? then "" else " WHERE" + ClauseText(table, list, true)
  }

  lemma WhereTextIsTokens<V>(table: string, list: Clauses<V>)
    ensures Text(WhereTokens(table, list)) == WhereText(table, list)
  {
    if list.Item? {
      TextOfOne(WHERE);
      TextOfSum([WHERE], Tokens(table, list, true));
    }
  }

  lemma UpdateText<V>(table: string, fields: seq<string>, list: Clauses<V>)
    ensures CommandText(UpdateTokens(table, fields, list))
         == "UPDATE " + table + " SET" + SetText(fields, true) + WhereText(table, list)
  {
    hide Text, Tokens, SetTokens, WhereTokens, SetText, WhereText, Spell;
    var start, sets, where := [UPDATE, NAME(table), SET], SetTokens(fields), WhereTokens(table, list);
    TextOfSum(start + sets, where);
    TextOfSum(start, sets);
    SetTextIsTokens(fields);
    WhereTextIsTokens(table, list);
    TextOfThree(UPDATE, NAME(table), SET);
    CommandWords(table);
    assert (" " + "UPDATE" + " " + table + " " + "SET")[1..] == "UPDATE " + table + " SET";
  }

  lemma DeleteText<V>(table: string, list: Clauses<V>)
    ensures CommandText(DeleteTokens(table, list)) == "DELETE FROM " + table + WhereText(table, list)
  {
    hide Text, Tokens, WhereTokens, WhereText, Spell;
    TextOfSum([DELETE, FROM, NAME(table)], WhereTokens(table, list));
    WhereTextIsTokens(table, list);
    TextOfThree(DELETE, FROM, NAME(table));
    CommandWords(table);
    assert (" " + "DELETE" + " " + "FROM" + " " + table)[1..] == "DELETE FROM " + table;
  }

  lemma CommandWords(table: string)
    ensures Spell(UPDATE) == "UPDATE" && Spell(SET) == "SET" && Spell(DELETE) == "DELETE" && Spell(FROM) == "FROM"
    ensures Spell(NAME(table)) == table
  {
  }

  /** The assignments: the fields given, then the new revision. */
  method PrintSets(buffer: SqlBuffer, fields: seq<string>, revision: Option<string>) returns (ok: bool)
    requires buffer.left >= 1
    modifies buffer
    ensures ok <==> |SetText(AllFields(fields, revision), true)| < old(buffer.left)
    ensures ok ==> buffer.text == old(buffer.text) + SetText(AllFields(fields, revision), true)
    ensures ok ==> buffer.left == old(buffer.left) - |SetText(AllFields(fields, revision), true)|
  {
    ghost var all := AllFields(fields, revision);
    var i, first := 0, true;
    while i < |fields|
      invariant 0 <= i <= |fields| && buffer.left >= 1 &&
                buffer.left == old(buffer.left) + |old(buffer.text)| - |buffer.text|
      invariant old(buffer.text) + SetText(all, true) == buffer.text + SetText(all[i..], first)
    {
      assert all[i..][1..] == all[i + 1..] && all[i..][0] == fields[i];
      ok := buffer.Print(SetField(fields[i], first));
      if !ok { return; }
      first := false;
      i := i + 1;
    }
    if revision.Some? {
      assert all[i..] == [revision.value];
      assert SetText(all[i..], first) == SetField(revision.value, first);
      ok := buffer.Print(SetField(revision.value, first));
      if !ok { return; }
    } else {
      assert all[i..] == [];
    }
    ok := true;
  }

  method PrintWhere(buffer: SqlBuffer, table: string, list: Clauses<Value>) returns (ok: bool)
    requires buffer.left >= 1
    modifies buffer
    ensures ok <==> Known(list, true) && |WhereText(table, list)| < old(buffer.left)
    ensures ok ==> buffer.text == old(buffer.text) + WhereText(table, list)
    ensures ok ==> buffer.left == old(buffer.left) - |WhereText(table, list)|
  {
    hide ClauseText;
    assert ClauseText<Value>(table, End, true) == "" by { TextOfEnd<Value>(table, true); }
    if list.Item? {
      ok := buffer.Print(" WHERE");
      if !ok { return; }
    }
    ok := buffer.BuildClause(table, list);
  }

  method BuildUpdate(table: string, fields: seq<string>, revision: Option<string>, list: Clauses<Value>)
    returns (ok: bool, text: string)
    ensures ok <==>
              Known(list, true) && |CommandText(UpdateTokens(table, AllFields(fields, revision), list))| < SQL_SIZE
    ensures ok ==> text == CommandText(UpdateTokens(table, AllFields(fields, revision), list)) && |text| <= 4095
    ensures !ok && Known(list, true) ==> |CommandText(UpdateTokens(table, AllFields(fields, revision), list))| >= 4096
  {
    hide SetText, WhereText, AllFields, UpdateTokens, CommandText;
    UpdateText(table, AllFields(fields, revision), list);
    var buffer := new SqlBuffer(SQL_SIZE);
    ok := buffer.Print("UPDATE " + table + " SET");
    if ok { ok := PrintSets(buffer, fields, revision); }
    if ok { ok := PrintWhere(buffer, table, list); }
    text := buffer.text;
  }

  method BuildDelete(table: string, list: Clauses<Value>) returns (ok: bool, text: string)
    ensures ok <==> Known(list, true) && |CommandText(DeleteTokens(table, list))| < SQL_SIZE
    ensures ok ==> text == CommandText(DeleteTokens(table, list)) && |text| <= 4095
    ensures !ok && Known(list, true) ==> |CommandText(DeleteTokens(table, list))| >= 4096
  {
    hide WhereText, DeleteTokens, CommandText;
    DeleteText(table, list);
    var buffer := new SqlBuffer(SQL_SIZE);
    ok := buffer.Print("DELETE FROM " + table);
    if ok { ok := PrintWhere(buffer, table, list); }
    text := buffer.text;
  }

  // ----- the revision -----

  function RevisionFields(fields: seq<ObjectField>): seq<string> {
    if fields == [] then []
    else (if fields[0].revision then [fields[0].name] else []) + RevisionFields(fields[1..])
  }

  /** The names of the fields that hold a revision, and of no others. */
  lemma {:induction false} RevisionFieldsMean(fields: seq<ObjectField>, name: string)
    ensures name in RevisionFields(fields) <==> ObjectField(name, true) in fields
  {
    if fields != [] {
      RevisionFieldsMean(fields[1..], name);
      assert fields == [fields[0]] + fields[1..];
    }
  }

  /** The revision field of an object; two of them are not supported. */
  method FindRevisionField(fields: seq<ObjectField>) returns (ok: bool, revision: Option<string>)
    ensures ok <==> |RevisionFields(fields)| <= 1
    ensures ok ==> revision == if RevisionFields(fields) == [] then None else Some(RevisionFields(fields)[0])
  {
    revision := None;
    var i := 0;
    while i < |fields|
      invariant 0 <= i <= |fields|
      invariant RevisionFields(fields) ==
                (if revision.Some? then [revision.value] else []) + RevisionFields(fields[i..])
    {
      assert fields[i..][1..] == fields[i + 1..];
      if fields[i].revision {
        if revision.Some? { return false, None; }
        revision := Some(fields[i].name);
      }
      i := i + 1;
    }
    ok := true;
  }

  /** Every clause up to the first one on `name` has a field, as the comparison of names demands. */
  predicate Reaches(list: Clauses<Value>, name: string) {
    list.Item? ==> !list.body.Nested? && !list.body.Unknown? && (list.body.field == name || Reaches(list.next, name))
  }

  /** The value the first clause on `name` compares with. */
  function Demanded(list: Clauses<Value>, name: string): Option<Value>
    requires Reaches(list, name)
  {
    if list.End? then None
    else if list.body.field == name then Some(if list.body.Compare? then list.body.value else Unsupported)
    else Demanded(list.next, name)
  }

  method FindRevisionClause(list: Clauses<Value>, name: string) returns (found: Option<Value>)
    requires Reaches(list, name)
    ensures found == Demanded(list, name)
  {
    var clause := list;
    while clause.Item?
      invariant Reaches(clause, name) && Demanded(clause, name) == Demanded(list, name)
      decreases clause
    {
      if clause.body.field == name {
        return Some(if clause.body.Compare? then clause.body.value else Unsupported);
      }
      clause := clause.next;
    }
    found := None;
  }

  /** The revision as a number, if the type of the value allows. */
  function RevisionNumber(v: Value): Option<int> {
    match v
    case Int32(n) => Some(n)
    case Uint32(n) => Some(n)
    case Int64(n) => Some(n)
    case Uint64(n) => Some(ToInt64(n))
    case _ => None
  }

  /** A revision is a number of any width; a text or an enumeration is none. */
  lemma RevisionNumbers(n: int)
    ensures RevisionNumber(Int32(n)) == Some(n) && RevisionNumber(Int64(n)) == Some(n)
    ensures RevisionNumber(Uint32(n)) == Some(n)
    ensures RevisionNumber(Uint64(n)).Some? && Stored(Uint64(n), Integer(RevisionNumber(Uint64(n)).value))
    ensures forall s :: RevisionNumber(TextValue(s)) == None
    ensures RevisionNumber(Enum(n)) == None && RevisionNumber(Unsupported) == None
  {
    BoundIsStored(Uint64(n));
  }

  /** The number of clauses in front of the first one on `name`, or of all of them. */
  function Ahead(list: Clauses<Value>, name: string): nat
    requires Reaches(list, name)
  {
    if list.End? || list.body.field == name then 0 else 1 + Ahead(list.next, name)
  }

  function Nth<V>(list: Clauses<V>, i: nat): Clauses<V> {
    if i == 0 || list.End? then list else Nth(list.next, i - 1)
  }

  /** What is demanded of the revision is the value of the first clause on it, if there is one. */
  lemma {:induction false} DemandedIsFirst(list: Clauses<Value>, name: string)
    requires Reaches(list, name)
    ensures var at := Nth(list, Ahead(list, name));
            if at.End? then Demanded(list, name) == None
            else !at.body.Nested? && !at.body.Unknown? && at.body.field == name
                 && Demanded(list, name) == Some(if at.body.Compare? then at.body.value else Unsupported)
    ensures forall i: nat {:trigger Nth(list, i)} :: i < Ahead(list, name) ==>
              && Nth(list, i).Item? && !Nth(list, i).body.Nested? && !Nth(list, i).body.Unknown?
              && Nth(list, i).body.field != name
  {
    if list.Item? && list.body.field != name {
      DemandedIsFirst(list.next, name);
      forall i: nat | i < Ahead(list, name)
        ensures Nth(list, i).Item? && !Nth(list, i).body.Nested? && !Nth(list, i).body.Unknown?
                && Nth(list, i).body.field != name
      {
        if i > 0 { assert Nth(list, i) == Nth(list.next, i - 1); }
      }
    }
  }

  // ----- binding -----

  function Padded(vs: seq<SqlValue>, count: nat): seq<SqlValue> {
    if |vs| <= count then vs + seq(count - |vs|, _ => Null) else vs
  }

  /** All the values of a statement in the order of their slots: assignments, the new revision, conditions. */
  function SlotValues(values: seq<Value>, revision: Option<int>, list: Clauses<Value>): seq<SqlValue> {
    AllBound(values) + (if revision.Some? then [Integer(revision.value)] else []) + AllBound(Values(list))
  }

  predicate Supported(values: seq<Value>) { Unsupported !in values }

  lemma WrittenOnPadded(vs: seq<SqlValue>, count: nat, more: seq<Value>)
    requires |vs| + |more| <= count
    ensures Written(Padded(vs, count), |vs|, more) == Padded(vs + AllBound(more), count)
  {
    if more == [] { assert vs + AllBound(more) == vs; }
  }

  method BindValues(statement: Statement, values: seq<Value>) returns (ok: bool)
    requires statement.slots == Padded([], |statement.slots|)
    modifies statement
    ensures ok <==> Supported(values) && |values| <= |old(statement.slots)|
    ensures ok ==> statement.slots == Padded(AllBound(values), |old(statement.slots)|)
  {
    hide Padded, Written;
    ghost var n := |statement.slots|;
    var i := 0;
    assert AllBound(values[..0]) == [];
    while i < |values|
      invariant 0 <= i <= |values| && i <= n && Supported(values[..i])
      invariant statement.slots == Padded(AllBound(values[..i]), n) && |statement.slots| == n
    {
      ok := statement.BindValue(i + 1, values[i]);
      if !ok { return; }
      WrittenOnPadded(AllBound(values[..i]), n, [values[i]]);
      assert AllBound(values[..i + 1]) == AllBound(values[..i]) + AllBound([values[i]]);
      i := i + 1;
    }
    assert values[..i] == values;
    ok := true;
  }

  /** The values of an update: what is to be set, the new revision, and the values of the conditions. */
  method BindUpdate(statement: Statement, values: seq<Value>, revision: Option<int>, list: Clauses<Value>)
      returns (ok: bool)
    requires statement.slots == Padded([], |statement.slots|)
    modifies statement
    ensures ok <==>
              Supported(values) && Bindable(list) && |SlotValues(values, revision, list)| <= |old(statement.slots)|
    ensures ok ==> statement.slots == Padded(SlotValues(values, revision, list), |old(statement.slots)|)
  {
    hide Padded, Written, Bindable, Supported;
    ghost var n := |statement.slots|;
    PaddedLength(AllBound(values), n);
    ok := BindValues(statement, values);
    if !ok { return; }
    var bind := |values| + 1;
    ghost var vs := AllBound(values);
    if revision.Some? {
      ok := statement.BindSlot(bind, Integer(revision.value));
      if !ok { return; }
      PaddedOne(vs, n, Integer(revision.value));
      vs := vs + [Integer(revision.value)];
      bind := bind + 1;
    }
    PaddedLength(vs, n);
    assert SlotValues(values, revision, list) == vs + AllBound(Values(list));
    if |vs| + |Values(list)| <= n { WrittenOnPadded(vs, n, Values(list)); }
    ok, bind := statement.BindClause(list, bind);
  }

  lemma PaddedLength(vs: seq<SqlValue>, n: nat)
    ensures |vs| <= n ==> |Padded(vs, n)| == n
  {
  }

  lemma PaddedOne(vs: seq<SqlValue>, n: nat, v: SqlValue)
    requires |vs| < n
    ensures |Padded(vs, n)| == n && Padded(vs, n)[|vs| := v] == Padded(vs + [v], n)
  {
  }

  // ----- the effect -----

  type Rows = map<int, Row>

  function Selected(rows: Rows, where: Clauses<SqlValue>): set<int> {
    set k | k in rows && Satisfies(rows[k], where)
  }

  /** The first `n` fields set to the first `n` values, in order. */
  function Assigned(row: Row, fields: seq<string>, values: seq<SqlValue>, n: nat): Row
    requires n <= |fields|
  {
    if n == 0 then row else Assigned(row, fields, values, n - 1)[fields[n - 1] := Slot(values, n)]
  }

  function Rewritten(rows: Rows, fields: seq<string>, values: seq<SqlValue>, where: Clauses<SqlValue>): Rows {
    map k | k in rows :: if Satisfies(rows[k], where) then Assigned(rows[k], fields, values, |fields|) else rows[k]
  }

  function Remaining(rows: Rows, where: Clauses<SqlValue>): Rows {
    map k | k in rows && !Satisfies(rows[k], where) :: rows[k]
  }

  lemma NothingSelected(rows: Rows, fields: seq<string>, values: seq<SqlValue>, where: Clauses<SqlValue>)
    requires Selected(rows, where) == {}
    ensures Rewritten(rows, fields, values, where) == rows && Remaining(rows, where) == rows
  {
    assert forall k :: k in rows ==> k !in Selected(rows, where);
  }

  function RevisionOf(obj: DbObject): Option<string> {
    if RevisionFields(obj.fields) == [] then None else Some(RevisionFields(obj.fields)[0])
  }

  /** At most one revision field; if there is one, the conditions name it, and its value is a number. */
  predicate Guarded(obj: DbObject, list: Clauses<Value>)
    requires RevisionOf(obj).Some? ==> Reaches(list, RevisionOf(obj).value)
  {
    && |RevisionFields(obj.fields)| <= 1
    && (RevisionOf(obj).Some? ==>
          && Demanded(list, RevisionOf(obj).value).Some?
          && RevisionNumber(Demanded(list, RevisionOf(obj).value).value).Some?)
  }

  /** The revision an update writes. */
  function NewRevision(obj: DbObject, list: Clauses<Value>): Option<int>
    requires RevisionOf(obj).Some? ==> Reaches(list, RevisionOf(obj).value)
    requires Guarded(obj, list)
  {
    if RevisionOf(obj).None? then None
    else Some(ToInt64(RevisionNumber(Demanded(list, RevisionOf(obj).value).value).value + 1))
  }

  // ----- one statement -----

  /** What the database makes of the statement that is built, if it can be built. */
  function UpdateCommand(table: string, fields: seq<string>, list: Clauses<Value>): Option<Command> {
    var text := CommandText(UpdateTokens(table, fields, list));
    if Known(list, true) && |text| < SQL_SIZE then Prepare(text) else None
  }

  function DeleteCommand(table: string, list: Clauses<Value>): Option<Command> {
    var text := CommandText(DeleteTokens(table, list));
    if Known(list, true) && |text| < SQL_SIZE then Prepare(text) else None
  }

  method PrepareUpdate(table: string, fields: seq<string>, revision: Option<string>, list: Clauses<Value>)
    returns (command: Option<Command>)
    ensures command == UpdateCommand(table, AllFields(fields, revision), list)
  {
    hide Known, CommandText, UpdateTokens, Prepare, AllFields;
    var ok, text := BuildUpdate(table, fields, revision, list);
    if !ok { return None; }
    command := Prepare(text);
  }

  method PrepareDelete(table: string, list: Clauses<Value>) returns (command: Option<Command>)
    ensures command == DeleteCommand(table, list)
  {
    hide Known, CommandText, DeleteTokens, Prepare;
    var ok, text := BuildDelete(table, list);
    if !ok { return None; }
    command := Prepare(text);
  }

  type Tables = map<string, Rows>

  /** The table is there, and there is a slot for every value. */
  predicate Runs(tables: Tables, command: Command, values: seq<Value>, number: Option<int>, list: Clauses<Value>) {
    && command.table in tables && Supported(values) && Bindable(list)
    && |SlotValues(values, number, list)| <= command.count
  }

  function SlotsOf(command: Command, values: seq<Value>, number: Option<int>, list: Clauses<Value>): seq<SqlValue> {
    Padded(SlotValues(values, number, list), command.count)
  }

  function Chosen(tables: Tables, command: Command, slots: seq<SqlValue>): set<int>
    requires command.table in tables
  {
    Selected(tables[command.table], Filled(command.where, slots))
  }

  function Applied(tables: Tables, command: Command, slots: seq<SqlValue>): Tables
    requires command.table in tables
  {
    var rows, where := tables[command.table], Filled(command.where, slots);
    tables[command.table :=
      if command.Updates? then Rewritten(rows, command.fields, slots, where) else Remaining(rows, where)]
  }

  lemma NothingApplied(tables: Tables, command: Command, slots: seq<SqlValue>)
    requires command.table in tables && Chosen(tables, command, slots) == {}
    ensures Applied(tables, command, slots) == tables
  {
    var fields := if command.Updates? then command.fields else [];
    NothingSelected(tables[command.table], fields, slots, Filled(command.where, slots));
  }

  class Database {
    var tables: Tables

    constructor (tables: Tables)
      ensures this.tables == tables
    {
      this.tables := tables;
    }

    /** One statement, run as one atomic step. */
    method Execute(command: Command, slots: seq<SqlValue>) returns (changes: nat)
      requires command.table in tables
      modifies this
      ensures changes == |Chosen(old(tables), command, slots)| && tables == Applied(old(tables), command, slots)
    {
      changes := |Chosen(tables, command, slots)|;
      tables := Applied(tables, command, slots);
    }

    /** The statement itself, once the revision is known. */
    method RunUpdate(table: string, fields: seq<string>, values: seq<Value>, list: Clauses<Value>,
                     revision: Option<string>, number: Option<int>) returns (ok: bool)
      requires revision.Some? <==> number.Some?
      modifies this
      ensures var command := UpdateCommand(table, AllFields(fields, revision), list);
              && (ok <==> (&& command.Some? && Runs(old(tables), command.value, values, number, list)
                           && (revision.Some? ==>
                                 Chosen(old(tables), command.value,
                                     SlotsOf(command.value, values, number, list)) != {})))
              && (ok ==> tables == Applied(old(tables), command.value, SlotsOf(command.value, values, number, list)))
              && (!ok ==> tables == old(tables))
    {
      hide UpdateCommand, Bindable, Supported, Applied, Chosen, Padded, SlotValues, AllFields;
      var command := PrepareUpdate(table, fields, revision, list);
      if command.None? || command.value.table !in tables { return false; }
      var statement := new Statement(command.value.count);
      NoneBound(command.value.count);
      ok := BindUpdate(statement, values, number, list);
      if !ok { return; }
      var changes := Execute(command.value, statement.slots);
      if revision.Some? && changes < 1 {
        NothingApplied(old(tables), command.value, statement.slots);
        ok := false;
      }
    }

    /** `db_backend_sqlite_update`, from the arguments to the rows. */
    method Update(obj: DbObject, fields: seq<string>, values: seq<Value>, list: Clauses<Value>) returns (ok: bool)
      requires RevisionOf(obj).Some? ==> Reaches(list, RevisionOf(obj).value)
      modifies this
      ensures ok ==> Guarded(obj, list)
      ensures var command := UpdateCommand(obj.table, AllFields(fields, RevisionOf(obj)), list);
              Guarded(obj, list) ==>
                var number := NewRevision(obj, list);
                && (ok <==> (&& command.Some? && Runs(old(tables), command.value, values, number, list)
                             && (RevisionOf(obj).Some? ==>
                                   Chosen(old(tables), command.value,
                                       SlotsOf(command.value, values, number, list)) != {})))
                && (ok ==> tables == Applied(old(tables), command.value, SlotsOf(command.value, values, number, list)))
      ensures !ok ==> tables == old(tables)
    {
      hide UpdateCommand, Runs, Applied, Chosen, SlotsOf, AllFields, RevisionFields, Demanded;
      var revision;
      ok, revision := FindRevisionField(obj.fields);
      if !ok { return; }
      var number: Option<int> := None;
      if revision.Some? {
        var found := FindRevisionClause(list, revision.value);
        if found.None? || RevisionNumber(found.value).None? { return false; }
        number := Some(ToInt64(RevisionNumber(found.value).value + 1));
      }
      ok := RunUpdate(obj.table, fields, values, list, revision, number);
    }

    /** `db_backend_sqlite_delete`, from the arguments to the rows. */
    method Delete(obj: DbObject, list: Clauses<Value>) returns (ok: bool)
      requires RevisionOf(obj).Some? ==> Reaches(list, RevisionOf(obj).value)
      modifies this
      ensures var command := DeleteCommand(obj.table, list);
              && (ok <==> (&& |RevisionFields(obj.fields)| <= 1
                           && (RevisionOf(obj).Some? ==> Demanded(list, RevisionOf(obj).value).Some?)
                           && command.Some? && Runs(old(tables), command.value, [], None, list)
                           && (RevisionOf(obj).Some? ==>
                                 Chosen(old(tables), command.value, SlotsOf(command.value, [], None, list)) != {})))
              && (ok ==> tables == Applied(old(tables), command.value, SlotsOf(command.value, [], None, list)))
              && (!ok ==> tables == old(tables))
    {
      hide DeleteCommand, Bindable, Applied, Chosen, RevisionFields, Demanded, Padded, SlotValues, Written;
      var revision;
      ok, revision := FindRevisionField(obj.fields);
      if !ok { return; }
      if revision.Some? {
        var found := FindRevisionClause(list, revision.value);
        if found.None? { return false; }
      }
      var command := PrepareDelete(obj.table, list);
      if command.None? || command.value.table !in tables { return false; }
      var statement := new Statement(command.value.count);
      NoneBound(command.value.count);
      OnlyConditions(command.value.count, list);
      var bind;
      ok, bind := statement.BindClause(list, 1);
      if !ok { return; }
      var changes := Execute(command.value, statement.slots);
      if revision.Some? && changes < 1 {
        NothingApplied(old(tables), command.value, statement.slots);
        ok := false;
      }
    }
  }

  /** The slots of a delete are the values of its conditions. */
  lemma OnlyConditions(count: nat, list: Clauses<Value>)
    ensures |Padded([], count)| == count && SlotValues([], None, list) == AllBound(Values(list)) && Supported([])
    ensures |Values(list)| <= count ==>
              Written(Padded([], count), 0, Values(list)) == Padded(SlotValues([], None, list), count)
  {
    assert AllBound([]) == [];
    assert SlotValues([], None, list) == AllBound(Values(list));
    if |Values(list)| <= count {
      WrittenOnPadded([], count, Values(list));
      assert [] + AllBound(Values(list)) == AllBound(Values(list));
    }
  }

  // ----- statements with proper names -----

  /** The names of a statement, as SQL wants them. */
  predicate WellNamed(table: string, fields: seq<string>, list: Clauses<Value>) {
    Plain(table) && AllPlain(fields) && Spaceless(list)
  }

  /** What the text of an update must be. */
  predicate Preparable(table: string, fields: seq<string>, list: Clauses<Value>) {
    Known(list, true) && |CommandText(UpdateTokens(table, fields, list))| < SQL_SIZE && fields != [] && Full(list)
  }

  predicate DeletePreparable(table: string, list: Clauses<Value>) {
    Known(list, true) && |CommandText(DeleteTokens(table, list))| < SQL_SIZE && Full(list)
  }

  /** The conditions of an update with `n` assignments, as the database reads them off the text. */
  function UpdateWhere(n: nat, values: seq<Value>, number: Option<int>, list: Clauses<Value>): Clauses<SqlValue> {
    Filled(Numbered(list, true, n + 1), UpdateSlots(n, values, number, list))
  }

  function UpdateSlots(n: nat, values: seq<Value>, number: Option<int>, list: Clauses<Value>): seq<SqlValue> {
    Padded(SlotValues(values, number, list), n + |Values(list)|)
  }

  function Updated(rows: Rows, fields: seq<string>, values: seq<Value>, number: Option<int>,
      list: Clauses<Value>): Rows
  {
    Rewritten(rows, fields, UpdateSlots(|fields|, values, number, list), UpdateWhere(|fields|, values, number, list))
  }

  /** With proper names, what runs is an update of that table, those fields and those conditions. */
  lemma UpdateRuns(table: string, fields: seq<string>, values: seq<Value>, number: Option<int>, list: Clauses<Value>,
                   tables: Tables)
    requires WellNamed(table, fields, list)
    ensures UpdateCommand(table, fields, list).Some? <==> Preparable(table, fields, list)
    ensures Preparable(table, fields, list) ==>
              var command := UpdateCommand(table, fields, list).value;
              var slots := SlotsOf(command, values, number, list);
              && command.table == table && command.count == |fields| + |Values(list)|
              && (table in tables ==>
                    && Chosen(tables, command, slots)
                       == Selected(tables[table], UpdateWhere(|fields|, values, number, list))
                    && Applied(tables, command, slots)
                       == tables[table := Updated(tables[table], fields, values, number, list)])
  {
    hide Known, Full, CommandText, UpdateTokens, Prepare, Numbered, Spaceless, AllPlain, Plain, Padded, SlotValues;
    hide Rewritten, Selected, Filled;
    if Known(list, true) { UpdateReadsBack(table, fields, list); }
  }

  /** With proper names, a delete removes the rows that meet the conditions asked for. */
  lemma DeleteRuns(table: string, list: Clauses<Value>, tables: Tables)
    requires WellNamed(table, [], list)
    ensures DeleteCommand(table, list).Some? <==> DeletePreparable(table, list)
    ensures DeletePreparable(table, list) ==>
              var command := DeleteCommand(table, list).value;
              var slots := SlotsOf(command, [], None, list);
              && command.table == table && command.count == |Values(list)|
              && (table in tables ==>
                    && Chosen(tables, command, slots) == Selected(tables[table], BoundTree(list, true))
                    && Applied(tables, command, slots)
                       == tables[table := Remaining(tables[table], BoundTree(list, true))])
  {
    hide Known, Full, CommandText, DeleteTokens, Prepare, Numbered, Spaceless, Plain, Remaining, Selected, Filled,
        BoundTree;
    DeleteSlots(list);
    if Known(list, true) { DeleteReadsBack(table, list); }
  }

  lemma DeleteSlots(list: Clauses<Value>)
    ensures var slots := Padded(SlotValues([], None, list), |Values(list)|);
            Filled(Numbered(list, true, 1), slots) == BoundTree(list, true)
  {
    OnlyConditions(|Values(list)|, list);
    var slots := Padded(SlotValues([], None, list), |Values(list)|);
    assert slots == AllBound(Values(list));
    FillNumbered(list, true, 1, slots);
  }

  /**
   * With one value for each field, what runs is what was asked for: the conditions see their own values, and every
   * field gets its own value, the revision the new number.
   */
  lemma UpdateIsAligned(fields: seq<string>, values: seq<Value>, revision: Option<string>, number: Option<int>,
                        list: Clauses<Value>)
    requires |values| == |fields| && (revision.Some? <==> number.Some?)
    ensures var all := AllFields(fields, revision);
            var slots := UpdateSlots(|all|, values, number, list);
            && UpdateWhere(|all|, values, number, list) == BoundTree(list, true)
            && (forall i :: 0 <= i < |fields| ==> Slot(slots, i + 1) == Bound(values[i]))
            && (revision.Some? ==> Slot(slots, |all|) == Integer(number.value))
  {
    hide Bound, BoundTree, Filled, Numbered, Values;
    var all := AllFields(fields, revision);
    var slots := UpdateSlots(|all|, values, number, list);
    CountSlotValues(values, number, list);
    assert slots == SlotValues(values, number, list);
    SlotsInOrder(values, number, list);
    FillNumbered(list, true, |all| + 1, slots);
  }

  /** Where the values are: first those to set, then the revision, then those of the conditions. */
  lemma SlotsInOrder(values: seq<Value>, number: Option<int>, list: Clauses<Value>)
    ensures var slots, n := SlotValues(values, number, list), |values| + if number.Some? then 1 else 0;
            && (forall i :: 0 <= i < |values| ==> Slot(slots, i + 1) == Bound(values[i]))
            && (number.Some? ==> Slot(slots, n) == Integer(number.value))
            && Holds(slots, n + 1, Values(list))
  {
    hide Bound, Values;
    CountSlotValues(values, number, list);
  }

  lemma CountSlotValues(values: seq<Value>, number: Option<int>, list: Clauses<Value>)
    ensures |SlotValues(values, number, list)| == |values| + (if number.Some? then 1 else 0) + |Values(list)|
  {
  }

  lemma NoneBound(count: nat)
    ensures seq(count, _ => Null) == Padded([], count)
  {
  }
}
