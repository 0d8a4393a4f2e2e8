/** Sessions that create, read, update and delete rows under a revision (enforcer/src/db/db_backend_sqlite.c). */
module Revision {
  import opened Prelude
  import opened SqlClause
  import opened SqlStatement
  import opened SqlUpdate
  import opened SqlBackend

  type Session = nat

  // ----- one statement -----

  /** The conditions of every update and delete: the id and the revision that were read. */
  function ById(k: int, r: int): Clauses<Value> {
    Item(And, Compare("id", Equal, Int32(k)), Item(And, Compare("rev", Equal, Int64(r)), End))
  }

  predicate HasRevision(row: Row) { Cell(row, "rev").Integer? }

  function RevisionIn(row: Row): int
    requires HasRevision(row)
  {
    Cell(row, "rev").n
  }

  /** The rows are stored under their ids. */
  predicate Keyed(rows: Rows) {
    forall k {:trigger rows[k]} :: k in rows ==> Cell(rows[k], "id") == Integer(k) && HasRevision(rows[k])
  }

  /** The conditions select the row with that id, if its revision is still the one that was read, and nothing else. */
  lemma GuardSelects(rows: Rows, k: int, r: int)
    requires Keyed(rows)
    ensures Selected(rows, BoundTree(ById(k, r), true)) == if k in rows && RevisionIn(rows[k]) == r then {k} else {}
  {
    var where := BoundTree(ById(k, r), true);
    forall i | i in rows ensures Satisfies(rows[i], where) <==> i == k && RevisionIn(rows[i]) == r {
      GuardMeans(rows[i], k, r);
    }
  }

  lemma GuardMeans(row: Row, k: int, r: int)
    ensures Satisfies(row, BoundTree(ById(k, r), true)) <==>
              Cell(row, "id") == Integer(k) && Cell(row, "rev") == Integer(r)
  {
    var second := Item(And, Compare("rev", Equal, Integer(r)), End);
    var where := Item(And, Compare("id", Equal, Integer(k)), second);
    assert BoundTree(ById(k, r).next, false) == second;
    assert BoundTree(ById(k, r), true) == where;
    AndJoins(row, where, true);
    assert AllMet(row, second) <==> Meets(row, second.body);
    assert AllMet(row, where) <==> Meets(row, where.body) && AllMet(row, second);
  }

  /** The rows after an update of row `k`, as `SqlBackend.Database.Update` leaves them. */
  function UpdatedRows(rows: Rows, k: int, r: int, fields: seq<string>, values: seq<Value>): Rows {
    Updated(rows, fields + ["rev"], values, Some(ToInt64(r + 1)), ById(k, r))
  }

  /** The rows an update of row `k` selects, as `SqlBackend.Database.Update` counts them. */
  function UpdateSelects(rows: Rows, k: int, r: int, fields: seq<string>, values: seq<Value>): set<int> {
    Selected(rows, UpdateWhere(|fields| + 1, values, Some(ToInt64(r + 1)), ById(k, r)))
  }

  /** An object with a revision field `rev` writes the revision it demands plus one. */
  lemma WritesNextRevision(obj: DbObject, k: int, r: int)
    requires RevisionFields(obj.fields) == ["rev"]
    ensures RevisionOf(obj) == Some("rev") && Reaches(ById(k, r), "rev") && Guarded(obj, ById(k, r))
    ensures NewRevision(obj, ById(k, r)) == Some(ToInt64(r + 1))
  {
    var second := ById(k, r).next;
    assert Reaches(second, "rev") && Demanded(second, "rev") == Some(Int64(r));
    assert "id" != "rev";
  }

  /** What an update does to the row it selects. */
  function NewRow(row: Row, fields: seq<string>, values: seq<Value>, r: int): Row
    requires |values| == |fields|
  {
    Assigned(row, fields, AllBound(values), |fields|)["rev" := Integer(r + 1)]
  }

  lemma {:induction false} AssignedPrefix(row: Row, fields: seq<string>, more: seq<string>, vs: seq<SqlValue>,
      ws: seq<SqlValue>, n: nat)
    requires n <= |fields| && n <= |vs| && n <= |ws| && vs[..n] == ws[..n]
    ensures Assigned(row, fields + more, vs, n) == Assigned(row, fields, ws, n)
  {
    if n > 0 {
      assert vs[..n - 1] == vs[..n][..n - 1] && ws[..n - 1] == ws[..n][..n - 1];
      AssignedPrefix(row, fields, more, vs, ws, n - 1);
      assert vs[n - 1] == vs[..n][n - 1] && ws[n - 1] == ws[..n][n - 1];
    }
  }

  /** Revisions that leave room for the next one in 64 bits. */
  predicate Room(r: int) { 0 <= r < 0x7fff_ffff_ffff_ffff }

  /** An update changes the row with that id if its revision is still the one that was read, and no other row. */
  lemma UpdateIsGuarded(rows: Rows, k: int, r: int, fields: seq<string>, values: seq<Value>)
    requires Keyed(rows) && |values| == |fields| && Room(r)
    ensures UpdateSelects(rows, k, r, fields, values) == if k in rows && RevisionIn(rows[k]) == r then {k} else {}
    ensures k in rows && RevisionIn(rows[k]) == r ==>
              UpdatedRows(rows, k, r, fields, values) == rows[k := NewRow(rows[k], fields, values, r)]
  {
    hide SqlClause.Satisfies, BoundTree, UpdateSlots, UpdateWhere, ToInt64, Assigned;
    var number := Some(ToInt64(r + 1));
    assert AllFields(fields, Some("rev")) == fields + ["rev"];
    UpdateIsAligned(fields, values, Some("rev"), number, ById(k, r));
    GuardSelects(rows, k, r);
    if k in rows && RevisionIn(rows[k]) == r {
      var all := fields + ["rev"];
      UpdatedRow(rows[k], fields, values, r, ById(k, r));
      RewrittenOne(rows, all, UpdateSlots(|all|, values, number, ById(k, r)), BoundTree(ById(k, r), true), k);
    }
  }

  lemma RewrittenOne(rows: Rows, fields: seq<string>, vs: seq<SqlValue>, where: Clauses<SqlValue>, k: int)
    requires k in rows && Selected(rows, where) == {k}
    ensures Rewritten(rows, fields, vs, where) == rows[k := Assigned(rows[k], fields, vs, |fields|)]
  {
    hide SqlClause.Satisfies, Assigned;
    var after := Rewritten(rows, fields, vs, where);
    forall i | i in rows
      ensures i in after && after[i] == if i == k then Assigned(rows[k], fields, vs, |fields|) else rows[i]
    {
      assert i in Selected(rows, where) <==> i == k;
    }
    assert after.Keys == rows.Keys;
  }

  lemma UpdatedRow(row: Row, fields: seq<string>, values: seq<Value>, r: int, list: Clauses<Value>)
    requires |values| == |fields| && Room(r)
    ensures var all := fields + ["rev"];
            var slots := UpdateSlots(|all|, values, Some(ToInt64(r + 1)), list);
            Assigned(row, all, slots, |all|) == NewRow(row, fields, values, r)
  {
    var n, number := |fields|, Some(ToInt64(r + 1));
    var slots := UpdateSlots(n + 1, values, number, list);
    assert AllFields(fields, Some("rev")) == fields + ["rev"];
    UpdateIsAligned(fields, values, Some("rev"), number, list);
    CountSlotValues(values, number, list);
    assert slots[..n] == AllBound(values)[..n];
    AssignedPrefix(row, fields, ["rev"], slots, AllBound(values), n);
  }

  lemma {:induction false} AssignedKeeps(row: Row, fields: seq<string>, vs: seq<SqlValue>, n: nat, field: string)
    requires n <= |fields| && field !in fields
    ensures Cell(Assigned(row, fields, vs, n), field) == Cell(row, field)
  {
    if n > 0 { AssignedKeeps(row, fields, vs, n - 1, field); }
  }

  /** A field that is set once. */
  predicate Once(fields: seq<string>, i: nat)
    requires i < |fields|
  {
    fields[i] != "rev" && forall j :: 0 <= j < |fields| && j != i ==> fields[j] != fields[i]
  }

  /** Every field that is set holds its value, the revision is the next one, and nothing else has changed. */
  ghost predicate Holds(fields: seq<string>, values: seq<Value>, rev: int, before: Row, after: Row)
    requires |values| == |fields|
  {
    && (forall i :: 0 <= i < |fields| && Once(fields, i) && values[i] != Unsupported ==>
          Stored(values[i], Cell(after, fields[i])) && Cell(after, fields[i]) != Null)
    && Cell(after, "rev") == Integer(rev + 1)
    && (forall f :: f !in fields && f != "rev" ==> Cell(after, f) == Cell(before, f))
  }

  lemma {:induction false} AssignedOnce(row: Row, fields: seq<string>, vs: seq<SqlValue>, n: nat, i: nat)
    requires i < n <= |fields| == |vs| && forall j :: 0 <= j < |fields| && j != i ==> fields[j] != fields[i]
    ensures Cell(Assigned(row, fields, vs, n), fields[i]) == vs[i]
  {
    if i < n - 1 { AssignedOnce(row, fields, vs, n - 1, i); }
  }

  lemma NewRowHolds(row: Row, fields: seq<string>, values: seq<Value>, rev: int)
    requires |values| == |fields|
    ensures Holds(fields, values, rev, row, NewRow(row, fields, values, rev))
  {
    hide Stored, Bound, Assigned;
    var after, set_ := NewRow(row, fields, values, rev), Assigned(row, fields, AllBound(values), |fields|);
    forall i | 0 <= i < |fields| && Once(fields, i) && values[i] != Unsupported
      ensures Stored(values[i], Cell(after, fields[i])) && Cell(after, fields[i]) != Null
    {
      AssignedOnce(row, fields, AllBound(values), |fields|, i);
      BoundIsStored(values[i]);
    }
    forall f | f !in fields && f != "rev" ensures Cell(after, f) == Cell(row, f) {
      AssignedKeeps(row, fields, AllBound(values), |fields|, f);
    }
  }

  lemma GuardIsFine(table: string, fields: seq<string>, k: int, r: int)
    requires WellNamed(table, fields, End)
    ensures WellNamed(table, fields, ById(k, r)) && Bindable(ById(k, r)) && Known(ById(k, r), true) && Full(ById(k, r))
  {
    var second := ById(k, r).next;
    assert Bindable(second.next);
    assert Spaceless(second) && Bindable(second) && Known(second, false) && Full(second);
  }

  /**
   * The update of an object, as every object builds it: its own id and revision are the conditions. If the text
   * fits and the values can be bound, it succeeds exactly when the row still has the revision, and then changes that
   * row alone.
   */
  method UpdateObject(db: Database, obj: DbObject, id: int, rev: int, fields: seq<string>, values: seq<Value>)
      returns (ok: bool)
    requires RevisionFields(obj.fields) == ["rev"] && WellNamed(obj.table, fields + ["rev"], End) &&
             |values| == |fields|
    requires obj.table in db.tables && Keyed(db.tables[obj.table]) && Room(rev)
    modifies db
    ensures var rows := old(db.tables)[obj.table];
            && (ok <==> (&& Preparable(obj.table, fields + ["rev"], ById(id, rev)) && Supported(values)
                         && id in rows && RevisionIn(rows[id]) == rev))
            && (ok ==> db.tables == old(db.tables)[obj.table := rows[id := NewRow(rows[id], fields, values, rev)]])
            && (!ok ==> db.tables == old(db.tables))
    ensures ok ==>
              && obj.table in db.tables && id in db.tables[obj.table]
              && Holds(fields, values, rev, old(db.tables)[obj.table][id], db.tables[obj.table][id])
  {
    hide WellNamed, Preparable, Supported, Bindable, Updated, UpdateWhere, UpdateCommand, Chosen, Applied, SlotsOf;
    hide Selected, NewRow, RevisionFields, Guarded, NewRevision, ById, SlotValues;
    var list, all := ById(id, rev), fields + ["rev"];
    WritesNextRevision(obj, id, rev);
    assert AllFields(fields, Some("rev")) == all;
    GuardIsFine(obj.table, all, id, rev);
    UpdateIsGuarded(db.tables[obj.table], id, rev, fields, values);
    UpdateRuns(obj.table, all, values, Some(ToInt64(rev + 1)), list, db.tables);
    CountSlotValues(values, Some(ToInt64(rev + 1)), list);
    ghost var rows := db.tables[obj.table];
    if id in rows { NewRowHolds(rows[id], fields, values, rev); }
    hide Holds;
    ok := db.Update(obj, fields, values, list);
  }

  method DeleteObject(db: Database, obj: DbObject, id: int, rev: int) returns (ok: bool)
    requires RevisionFields(obj.fields) == ["rev"] && WellNamed(obj.table, [], End)
    requires obj.table in db.tables && Keyed(db.tables[obj.table])
    modifies db
    ensures var rows := old(db.tables)[obj.table];
            && (ok <==> DeletePreparable(obj.table, ById(id, rev)) && id in rows && RevisionIn(rows[id]) == rev)
            && (ok ==> db.tables == old(db.tables)[obj.table := rows - {id}])
            && (!ok ==> db.tables == old(db.tables))
  {
    hide WellNamed, DeletePreparable, Bindable, BoundTree, Selected, Remaining, DeleteCommand, Chosen, Applied, SlotsOf;
    hide RevisionFields, ById, Guarded, SlotValues;
    var list := ById(id, rev);
    DemandsRevision(obj, id, rev);
    GuardIsFine(obj.table, [], id, rev);
    GuardSelects(db.tables[obj.table], id, rev);
    DeleteRuns(obj.table, list, db.tables);
    CountSlotValues([], None, list);
    ghost var rows := db.tables[obj.table];
    if id in rows && RevisionIn(rows[id]) == rev { RemainingOne(rows, BoundTree(list, true), id); }
    ok := db.Delete(obj, list);
  }

  lemma DemandsRevision(obj: DbObject, k: int, r: int)
    requires RevisionFields(obj.fields) == ["rev"]
    ensures RevisionOf(obj) == Some("rev") && Reaches(ById(k, r), "rev") && Demanded(ById(k, r), "rev").Some?
  {
    WritesNextRevision(obj, k, r);
  }

  // ----- sessions -----

  /** What a session has read: the row, and its id as the session keeps it. */
  datatype Snapshot = Snapshot(id: int, row: Row)

  /** A statement that went through: what its session had read, and the row that was there. */
  datatype Event = Wrote(id: int, seen: Row, before: Row, after: Row) | Removed(id: int, seen: Row, before: Row)

  /** The rows, what each session has read, the ids handed out so far, and the statements that went through. */
  datatype State = State(rows: Rows, snapshots: map<Session, Snapshot>, used: set<int>, log: seq<Event>)

  const EMPTY := State(map[], map[], {}, [])

  datatype Step =
    | Create(id: int, row: Row)
    | Read(session: Session, id: int)
    | Update(session: Session, fields: seq<string>, values: seq<Value>)
    | Delete(session: Session)

  function Created(id: int, row: Row): Row { row["id" := Integer(id)]["rev" := Integer(1)] }

  function AfterUpdate(s: State, snapshot: Snapshot, fields: seq<string>, values: seq<Value>): State {
    var id := snapshot.id;
    if !HasRevision(snapshot.row) then s else
    var r := RevisionIn(snapshot.row);
    if UpdateSelects(s.rows, id, r, fields, values) == {} then s else
    var rows := UpdatedRows(s.rows, id, r, fields, values);
    if id !in s.rows || id !in rows then s
    else s.(rows := rows, log := s.log + [Wrote(id, snapshot.row, s.rows[id], rows[id])])
  }

  function AfterDelete(s: State, snapshot: Snapshot): State {
    var id := snapshot.id;
    if !HasRevision(snapshot.row) then s else
    var where := BoundTree(ById(id, RevisionIn(snapshot.row)), true);
    if Selected(s.rows, where) == {} || id !in s.rows then s else
    s.(rows := Remaining(s.rows, where), log := s.log + [Removed(id, snapshot.row, s.rows[id])])
  }

  /** A read keeps the id in 32 bits, whatever its size in the database. */
  function AfterRead(s: State, session: Session, id: int): State
    requires id in s.rows
  {
    s.(snapshots := s.snapshots[session := Snapshot(ToInt32(id), s.rows[id])])
  }

  function AfterCreate(s: State, id: int, row: Row): State {
    s.(rows := s.rows[id := Created(id, row)], used := s.used + {id})
  }

  /** One statement of one session; a session keeps what it read, even after its own update. */
  function Next(s: State, step: Step): State {
    match step
    case Create(id, row) => if id in s.rows then s else AfterCreate(s, id, row)
    case Read(session, id) => if id in s.rows then AfterRead(s, session, id) else s
    case Update(session, fields, values) =>
      if session in s.snapshots then AfterUpdate(s, s.snapshots[session], fields, values) else s
    case Delete(session) => if session in s.snapshots then AfterDelete(s, s.snapshots[session]) else s
  }

  function After(steps: seq<Step>): State {
    if steps == [] then EMPTY else Next(After(steps[..|steps| - 1]), steps[|steps| - 1])
  }

  /** The ids that the database may hand out, and those among them that it may hand out again. */
  datatype Policy = Policy(ids: iset<int>, again: iset<int>)

  /** Ids follow the policy; an update has one value for each field and leaves the id alone. */
  ghost predicate Disciplined(p: Policy, s: State, step: Step) {
    match step
    case Create(id, _) => id in p.ids && (id in s.used ==> id in p.again)
    case Update(_, fields, values) => |values| == |fields| && "id" !in fields
    case _ => true
  }

  ghost predicate AllDisciplined(p: Policy, steps: seq<Step>) {
    steps != [] ==>
      && AllDisciplined(p, steps[..|steps| - 1])
      && Disciplined(p, After(steps[..|steps| - 1]), steps[|steps| - 1])
  }

  /** No id is cut to another one that may exist, and none that survives the cut is handed out again. */
  ghost predicate Distinguishes(p: Policy) {
    && (forall id :: id in p.ids && ToInt32(id) in p.ids ==> ToInt32(id) == id)
    && (forall id :: id in p.ids && id in p.again ==> ToInt32(id) != id)
  }

  /** A run in which no revision leaves 64 bits. */
  predicate Short(n: nat) { n < 0x7fff_ffff_ffff_fffe }

  /** The successful updates of a row. */
  function Updates(log: seq<Event>, id: int): nat {
    if log == [] then 0
    else Updates(log[..|log| - 1], id) + (if log[|log| - 1].Wrote? && log[|log| - 1].id == id then 1 else 0)
  }

  lemma UpdatesOfMore(log: seq<Event>, e: Event, id: int)
    ensures Updates(log + [e], id) == Updates(log, id) + if e.Wrote? && e.id == id then 1 else 0
  {
    assert (log + [e])[..|log|] == log;
  }

  // ----- the invariant -----

  /** A stored row has its id and one revision more than updates. */
  predicate RowOk(s: State, k: int)
    requires k in s.rows
  {
    Cell(s.rows[k], "id") == Integer(k) && Cell(s.rows[k], "rev") == Integer(1 + Updates(s.log, k)) && k in s.used
  }

  /** Ids in use were allowed, and a row whose id does not survive the cut is out of reach, so it stays. */
  ghost predicate IdOk(p: Policy, s: State, k: int) {
    k in s.used ==> k in p.ids && (ToInt32(k) != k ==> k in s.rows)
  }

  /** A snapshot is no newer than the row it can reach, and the same as that row if it is as new. */
  ghost predicate SnapshotOk(p: Policy, s: State, snapshot: Snapshot) {
    var id, row := snapshot.id, snapshot.row;
    && ToInt32(id) == id && HasRevision(row) && 1 <= RevisionIn(row) <= 1 + |s.log|
    && (id in p.ids ==>
          && id in s.used && RevisionIn(row) <= 1 + Updates(s.log, id)
          && (id in s.rows && RevisionIn(row) == 1 + Updates(s.log, id) ==> row == s.rows[id]))
  }

  /** An event saw the row as it was, and its revision is not the current one. */
  predicate EventOk(s: State, i: nat)
    requires i < |s.log|
  {
    var e := s.log[i];
    && e.seen == e.before && e.id in s.used && HasRevision(e.seen) && 1 <= RevisionIn(e.seen)
    && (e.Wrote? ==> RevisionIn(e.seen) <= Updates(s.log, e.id))
    && (e.Removed? ==> e.id !in s.rows)
    && (e.id in s.rows ==> RevisionIn(e.seen) < 1 + Updates(s.log, e.id))
  }

  ghost predicate Inv(p: Policy, s: State) {
    && (forall k {:trigger RowOk(s, k)} :: k in s.rows ==> RowOk(s, k))
    && (forall k {:trigger IdOk(p, s, k)} :: IdOk(p, s, k))
    && (forall n {:trigger SnapshotOk(p, s, s.snapshots[n])} :: n in s.snapshots ==> SnapshotOk(p, s, s.snapshots[n]))
    && (forall i {:trigger EventOk(s, i)} :: 0 <= i < |s.log| ==> EventOk(s, i))
  }

  /** Of two statements on one row the first is an update, and the second saw a later revision. */
  predicate InOrder(log: seq<Event>, i: nat, j: nat)
    requires i < j < |log|
  {
    log[i].id == log[j].id && HasRevision(log[i].seen) && HasRevision(log[j].seen) ==>
      log[i].Wrote? && RevisionIn(log[i].seen) < RevisionIn(log[j].seen)
  }

  predicate Ordered(log: seq<Event>) {
    forall i, j {:trigger InOrder(log, i, j)} :: 0 <= i < j < |log| ==> InOrder(log, i, j)
  }

  lemma {:induction false} UpdatesAreFew(log: seq<Event>, id: int)
    ensures Updates(log, id) <= |log|
  {
    if log != [] { UpdatesAreFew(log[..|log| - 1], id); }
  }

  lemma InvIsKeyed(p: Policy, s: State)
    requires Inv(p, s)
    ensures Keyed(s.rows)
  {
    forall k | k in s.rows ensures Cell(s.rows[k], "id") == Integer(k) && HasRevision(s.rows[k]) {
      assert RowOk(s, k);
    }
  }

  /** An update that goes through saw the row as it is. */
  lemma UpdateSaw(p: Policy, s: State, snapshot: Snapshot, fields: seq<string>, values: seq<Value>)
    requires Inv(p, s) && SnapshotOk(p, s, snapshot) && |values| == |fields| && Short(|s.log|)
    ensures var t, id, seen := AfterUpdate(s, snapshot, fields, values), snapshot.id, snapshot.row;
            || t == s
            || (&& id in s.rows && seen == s.rows[id] && RevisionIn(seen) == 1 + Updates(s.log, id)
                && var row := NewRow(seen, fields, values, RevisionIn(seen));
                   t == s.(rows := s.rows[id := row], log := s.log + [Wrote(id, seen, seen, row)]))
  {
    hide UpdateSelects, UpdatedRows, NewRow;
    var id, r := snapshot.id, RevisionIn(snapshot.row);
    InvIsKeyed(p, s);
    UpdateIsGuarded(s.rows, id, r, fields, values);
    if id in s.rows { assert RowOk(s, id) && IdOk(p, s, id); }
  }

  lemma NewRowCells(row: Row, fields: seq<string>, values: seq<Value>, r: int)
    requires |values| == |fields| && "id" !in fields
    ensures Cell(NewRow(row, fields, values, r), "id") == Cell(row, "id")
    ensures Cell(NewRow(row, fields, values, r), "rev") == Integer(r + 1)
  {
    AssignedKeeps(row, fields, AllBound(values), |fields|, "id");
    assert "id" != "rev";
  }

  /** A row is replaced by its next revision. */
  lemma WriteKeepsInv(p: Policy, s: State, t: State, e: Event)
    requires Inv(p, s) && Ordered(s.log) && e.Wrote? && e.id in s.rows && e.seen == e.before == s.rows[e.id]
    requires Cell(e.after, "id") == Integer(e.id) && Cell(e.after, "rev") == Integer(2 + Updates(s.log, e.id))
    requires t == s.(rows := s.rows[e.id := e.after], log := s.log + [e])
    ensures Inv(p, t) && Ordered(t.log)
  {
    hide Updates, ToInt32;
    assert RowOk(s, e.id);
    forall k ensures Updates(t.log, k) == Updates(s.log, k) + if k == e.id then 1 else 0 {
      UpdatesOfMore(s.log, e, k);
    }
    forall k | k in t.rows ensures RowOk(t, k) {
      if k != e.id { assert RowOk(s, k); }
    }
    forall k ensures IdOk(p, t, k) { assert IdOk(p, s, k); }
    forall n | n in t.snapshots ensures SnapshotOk(p, t, t.snapshots[n]) {
      assert SnapshotOk(p, s, s.snapshots[n]);
    }
    forall i | 0 <= i < |t.log| ensures EventOk(t, i) {
      if i < |s.log| { assert EventOk(s, i); }
    }
    LogGrows(p, s, e);
  }

  lemma LogGrows(p: Policy, s: State, e: Event)
    requires Inv(p, s) && Ordered(s.log) && e.id in s.rows
    requires HasRevision(e.seen) && RevisionIn(e.seen) == 1 + Updates(s.log, e.id)
    ensures Ordered(s.log + [e])
  {
    var log := s.log + [e];
    forall i, j | 0 <= i < j < |log| ensures InOrder(log, i, j) {
      if j < |s.log| { assert InOrder(s.log, i, j); } else { assert EventOk(s, i); }
    }
  }

  lemma DeleteKeepsInv(p: Policy, s: State, t: State, e: Event)
    requires Inv(p, s) && Ordered(s.log) && e.Removed? && e.id in s.rows && e.seen == e.before == s.rows[e.id]
    requires ToInt32(e.id) == e.id && t == s.(rows := s.rows - {e.id}, log := s.log + [e])
    ensures Inv(p, t) && Ordered(t.log)
  {
    hide Updates, ToInt32;
    assert RowOk(s, e.id);
    forall k ensures Updates(t.log, k) == Updates(s.log, k) { UpdatesOfMore(s.log, e, k); }
    forall k | k in t.rows ensures RowOk(t, k) { assert RowOk(s, k); }
    forall k ensures IdOk(p, t, k) { assert IdOk(p, s, k); }
    forall n | n in t.snapshots ensures SnapshotOk(p, t, t.snapshots[n]) {
      assert SnapshotOk(p, s, s.snapshots[n]);
    }
    forall i | 0 <= i < |t.log| ensures EventOk(t, i) {
      if i < |s.log| { assert EventOk(s, i); }
    }
    LogGrows(p, s, e);
  }

  /** A delete that goes through saw the row as it is. */
  lemma DeleteSaw(p: Policy, s: State, snapshot: Snapshot)
    requires Inv(p, s) && SnapshotOk(p, s, snapshot)
    ensures var t, id, seen := AfterDelete(s, snapshot), snapshot.id, snapshot.row;
            || t == s
            || (&& id in s.rows && seen == s.rows[id]
                && t == s.(rows := s.rows - {id}, log := s.log + [Removed(id, seen, seen)]))
  {
    hide BoundTree, SqlClause.Satisfies;
    var id, r := snapshot.id, RevisionIn(snapshot.row);
    InvIsKeyed(p, s);
    GuardSelects(s.rows, id, r);
    if id in s.rows { assert RowOk(s, id) && IdOk(p, s, id); }
    if id in s.rows && RevisionIn(s.rows[id]) == r { RemainingOne(s.rows, BoundTree(ById(id, r), true), id); }
  }

  lemma RemainingOne(rows: Rows, where: Clauses<SqlValue>, k: int)
    requires k in rows && Selected(rows, where) == {k}
    ensures Remaining(rows, where) == rows - {k}
  {
    hide SqlClause.Satisfies;
    forall i | i in rows ensures Satisfies(rows[i], where) <==> i == k {
      assert i in Selected(rows, where) <==> i == k;
    }
  }

  lemma CreateKeepsInv(p: Policy, s: State, id: int, row: Row)
    requires Inv(p, s) && id !in s.rows && Distinguishes(p) && Disciplined(p, s, Create(id, row))
    ensures Inv(p, AfterCreate(s, id, row))
  {
    hide ToInt32;
    assert IdOk(p, s, id);
    var t := AfterCreate(s, id, row);
    forall i | 0 <= i < |s.log| ensures s.log[i].id != id { assert EventOk(s, i); }
    NeverUpdated(s.log, id);
    forall k | k in t.rows ensures RowOk(t, k) {
      if k != id { assert RowOk(s, k); }
    }
    forall k ensures IdOk(p, t, k) { assert IdOk(p, s, k); }
    forall n | n in t.snapshots ensures SnapshotOk(p, t, t.snapshots[n]) { assert SnapshotOk(p, s, s.snapshots[n]); }
    forall i | 0 <= i < |t.log| ensures EventOk(t, i) { assert EventOk(s, i); }
  }

  lemma {:induction false} NeverUpdated(log: seq<Event>, id: int)
    requires forall i :: 0 <= i < |log| ==> log[i].id != id
    ensures Updates(log, id) == 0
  {
    if log != [] { NeverUpdated(log[..|log| - 1], id); }
  }

  lemma ReadKeepsInv(p: Policy, s: State, session: Session, id: int)
    requires Inv(p, s) && id in s.rows && Distinguishes(p)
    ensures Inv(p, AfterRead(s, session, id))
  {
    var t := AfterRead(s, session, id);
    UpdatesAreFew(s.log, id);
    assert RowOk(s, id) && IdOk(p, s, id) && ToInt32(ToInt32(id)) == ToInt32(id);
    hide Updates, ToInt32;
    forall k | k in t.rows ensures RowOk(t, k) { assert RowOk(s, k); }
    forall k ensures IdOk(p, t, k) { assert IdOk(p, s, k); }
    forall n | n in t.snapshots ensures SnapshotOk(p, t, t.snapshots[n]) {
      if n != session { assert SnapshotOk(p, s, s.snapshots[n]); }
    }
    forall i | 0 <= i < |t.log| ensures EventOk(t, i) { assert EventOk(s, i); }
  }

  lemma StepKeepsInv(p: Policy, s: State, step: Step)
    requires Distinguishes(p) && Inv(p, s) && Ordered(s.log) && Disciplined(p, s, step) && Short(|s.log|)
    ensures Inv(p, Next(s, step)) && Ordered(Next(s, step).log) && |Next(s, step).log| <= |s.log| + 1
  {
    hide Inv, Ordered, AfterUpdate, AfterDelete, RowOk, EventOk, NewRow, Updates, Distinguishes;
    match step
    case Create(id, row) => if id !in s.rows { CreateKeepsInv(p, s, id, row); }
    case Read(session, id) => if id in s.rows { ReadKeepsInv(p, s, session, id); }
    case Update(session, fields, values) =>
      if session in s.snapshots { UpdateKeepsInv(p, s, session, fields, values); }
    case Delete(session) =>
      if session in s.snapshots {
        var snapshot := s.snapshots[session];
        InvOfSnapshot(p, s, session);
        DeleteSaw(p, s, snapshot);
        var t := AfterDelete(s, snapshot);
        if t != s { DeleteKeepsInv(p, s, t, Removed(snapshot.id, snapshot.row, snapshot.row)); }
      }
  }

  lemma InvOfSnapshot(p: Policy, s: State, session: Session)
    requires Inv(p, s) && session in s.snapshots
    ensures SnapshotOk(p, s, s.snapshots[session])
  {
  }

  lemma UpdateKeepsInv(p: Policy, s: State, session: Session, fields: seq<string>, values: seq<Value>)
    requires Inv(p, s) && Ordered(s.log) && session in s.snapshots && Short(|s.log|)
    requires |values| == |fields| && "id" !in fields
    ensures var t := AfterUpdate(s, s.snapshots[session], fields, values);
            Inv(p, t) && Ordered(t.log) && |t.log| <= |s.log| + 1
  {
    hide Ordered, AfterUpdate, EventOk, NewRow, Updates;
    var snapshot := s.snapshots[session];
    assert SnapshotOk(p, s, snapshot);
    UpdateSaw(p, s, snapshot, fields, values);
    var t, r := AfterUpdate(s, snapshot, fields, values), RevisionIn(snapshot.row);
    if t != s {
      var row := NewRow(snapshot.row, fields, values, r);
      NewRowCells(snapshot.row, fields, values, r);
      assert RowOk(s, snapshot.id);
      WriteKeepsInv(p, s, t, Wrote(snapshot.id, snapshot.row, snapshot.row, row));
    }
  }

  lemma {:induction false} RunKeepsInv(p: Policy, steps: seq<Step>)
    requires Distinguishes(p) && AllDisciplined(p, steps) && Short(|steps|)
    ensures Inv(p, After(steps)) && Ordered(After(steps).log) && |After(steps).log| <= |steps|
  {
    hide Inv, Ordered, Next, Distinguishes;
    if steps == [] {
      EmptyInv(p);
    } else {
      RunKeepsInv(p, steps[..|steps| - 1]);
      StepKeepsInv(p, After(steps[..|steps| - 1]), steps[|steps| - 1]);
    }
  }

  lemma EmptyInv(p: Policy)
    ensures Inv(p, EMPTY) && Ordered(EMPTY.log)
  {
  }

  /**
   * No update is lost: a row has one revision more than it had updates, every statement that went through saw the
   * row as it was, and no two went through for the same revision of a row.
   */
  ghost predicate NoneLost(s: State) {
    && (forall k :: k in s.rows ==> Cell(s.rows[k], "rev") == Integer(1 + Updates(s.log, k)))
    && (forall i :: 0 <= i < |s.log| ==> s.log[i].seen == s.log[i].before)
    && (forall i, j :: 0 <= i < j < |s.log| && s.log[i].id == s.log[j].id ==>
          s.log[i].Wrote? && Cell(s.log[i].seen, "rev") != Cell(s.log[j].seen, "rev"))
  }

  lemma NoLostUpdate(p: Policy, steps: seq<Step>)
    requires Distinguishes(p) && AllDisciplined(p, steps) && Short(|steps|)
    ensures NoneLost(After(steps))
  {
    hide After;
    var s := After(steps);
    RunKeepsInv(p, steps);
    forall k | k in s.rows ensures Cell(s.rows[k], "rev") == Integer(1 + Updates(s.log, k)) { assert RowOk(s, k); }
    forall i | 0 <= i < |s.log| ensures s.log[i].seen == s.log[i].before && HasRevision(s.log[i].seen) {
      assert EventOk(s, i);
    }
    forall i, j | 0 <= i < j < |s.log| && s.log[i].id == s.log[j].id
      ensures s.log[i].Wrote? && Cell(s.log[i].seen, "rev") != Cell(s.log[j].seen, "rev")
    {
      assert InOrder(s.log, i, j);
    }
  }

  // ----- and ids must be distinguished -----

  /** A run, and the proof that it follows the policy. */
  lemma AddStep(p: Policy, steps: seq<Step>, step: Step) returns (r: seq<Step>)
    requires AllDisciplined(p, steps) && Disciplined(p, After(steps), step)
    ensures r == steps + [step] && AllDisciplined(p, r) && After(r) == Next(After(steps), step)
  {
    r := steps + [step];
    assert r[..|steps|] == steps;
  }

  lemma NothingYet(p: Policy)
    ensures After([]) == EMPTY && AllDisciplined(p, [])
  {
  }

  /** An update with what was read of row `id`, when another row of the same revision is at the id kept. */
  lemma OverwritesUnseen(s: State, session: Session)
    requires session in s.snapshots && Keyed(s.rows) && s.snapshots[session].id in s.rows
    requires HasRevision(s.snapshots[session].row) && Room(RevisionIn(s.snapshots[session].row))
    requires RevisionIn(s.snapshots[session].row) == RevisionIn(s.rows[s.snapshots[session].id])
    ensures var t, id := Next(s, Update(session, [], [])), s.snapshots[session].id;
            |t.log| == |s.log| + 1 && t.log[..|s.log|] == s.log && t.log[|s.log|].Wrote? && t.log[|s.log|].id == id
            && t.log[|s.log|].seen == s.snapshots[session].row && t.log[|s.log|].before == s.rows[id]
  {
    hide UpdateSelects, UpdatedRows, NewRow;
    var snapshot := s.snapshots[session];
    UpdateIsGuarded(s.rows, snapshot.id, RevisionIn(snapshot.row), [], []);
  }

  /** Of two ids that are the same in 32 bits, what was read of one row is written over the other. */
  lemma WideIdsLoseUpdates(p: Policy, id: int, a: Row, b: Row) returns (steps: seq<Step>)
    requires id in p.ids && ToInt32(id) in p.ids && ToInt32(id) != id
    ensures AllDisciplined(p, steps) && |steps| == 4
    ensures var s := After(steps);
            |s.log| == 1 && s.log[0].Wrote? && s.log[0].id == ToInt32(id) && s.log[0].seen == Created(id, b)
            && s.log[0].before == Created(ToInt32(id), a) && !NoneLost(s)
  {
    hide After, AfterUpdate, AfterDelete;
    var k := ToInt32(id);
    NothingYet(p);
    steps := AddStep(p, [], Create(k, a));
    steps := AddStep(p, steps, Create(id, b));
    steps := AddStep(p, steps, Read(0, id));
    var s := After(steps);
    assert s.rows == map[k := Created(k, a), id := Created(id, b)] && s.snapshots[0] == Snapshot(k, Created(id, b));
    assert Keyed(s.rows) && Created(id, b)["id"] != Created(k, a)["id"];
    OverwritesUnseen(s, 0);
    steps := AddStep(p, steps, Update(0, [], []));
  }

  /** If an id is handed out again, a row can be overwritten by a session that never saw it. */
  lemma ReuseLosesUpdates(p: Policy, id: int, a: Row, b: Row) returns (steps: seq<Step>)
    requires id in p.ids && id in p.again && ToInt32(id) == id && Created(id, a) != Created(id, b)
    ensures AllDisciplined(p, steps) && |steps| == 5
    ensures var s := After(steps);
            |s.log| == 2 && s.log[1].Wrote? && s.log[1].seen == Created(id, a) && s.log[1].before == Created(id, b)
            && !NoneLost(s)
  {
    hide After, AfterUpdate, BoundTree, SqlClause.Satisfies, Selected, Remaining;
    NothingYet(p);
    steps := AddStep(p, [], Create(id, a));
    steps := AddStep(p, steps, Read(0, id));
    var rows := After(steps).rows;
    assert rows == map[id := Created(id, a)] && Keyed(rows);
    GuardSelects(rows, id, 1);
    RemainingOne(rows, BoundTree(ById(id, 1), true), id);
    steps := AddStep(p, steps, Delete(0));
    steps := AddStep(p, steps, Create(id, b));
    var s := After(steps);
    assert s.rows == map[id := Created(id, b)] && s.snapshots[0] == Snapshot(id, Created(id, a)) && Keyed(s.rows);
    OverwritesUnseen(s, 0);
    steps := AddStep(p, steps, Update(0, [], []));
  }

  /**
   No update is lost in any run under a policy, if and only if the policy distinguishes the rows a session can reach.
   */
  lemma NoLostUpdateIsExact(p: Policy)
    ensures (forall steps :: AllDisciplined(p, steps) && Short(|steps|) ==> NoneLost(After(steps))) <==>
              Distinguishes(p)
  {
    hide NoneLost, After, ToInt32;
    if Distinguishes(p) {
      forall steps | AllDisciplined(p, steps) && Short(|steps|) ensures NoneLost(After(steps)) {
        NoLostUpdate(p, steps);
      }
    } else if id :| id in p.ids && ToInt32(id) in p.ids && ToInt32(id) != id {
      var steps := WideIdsLoseUpdates(p, id, map[], map[]);
    } else {
      var id :| id in p.ids && id in p.again && ToInt32(id) == id;
      var a: Row, b: Row := map["data" := Integer(0)], map["data" := Integer(1)];
      assert Created(id, a)["data"] != Created(id, b)["data"];
      var steps := ReuseLosesUpdates(p, id, a, b);
    }
  }
}
