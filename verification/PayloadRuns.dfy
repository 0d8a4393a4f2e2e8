/**
 Who owns a task's payload in every run (common/scheduler/schedule.c:250-257, 376-385; common/scheduler/task.c:93-101,
 133-142).
 */
module PayloadRuns {
  import opened Prelude
  import opened TaskModel
  import opened ScheduleSpec
  import opened SchedulerRuns

  /** A place that can refer to a payload: a scheduled task, or the task in a worker's hands. */
  datatype Slot = Tree(id: TTuple) | Hand(w: WorkerId)

  /** The task in a slot. */
  function TaskIn(st: State, slot: Slot): Option<View> {
    match slot
    case Tree(id) => if id in st.s.tasks then Some(st.s.tasks[id]) else None
    case Hand(w) => if w in st.workers && InFlight(st.workers[w]) then Some(st.workers[w].v) else None
  }

  /** The payload that the task in a slot owns. */
  function Refers(st: State, slot: Slot): Option<Payload> {
    match slot
    case Tree(id) => if id in st.s.tasks then Owned(st.s.tasks[id]) else None
    case Hand(w) => if w in st.workers && InFlight(st.workers[w]) then Owned(st.workers[w].v) else None
  }

  ghost predicate Disjoint(st: State, a: Slot, b: Slot) {
    a != b && Refers(st, a).Some? ==> Refers(st, a) != Refers(st, b)
  }

  ghost predicate NoRepeats(ps: seq<Payload>) {
    forall i, j :: 0 <= i < j < |ps| ==> ps[i] != ps[j]
  }

  /** Live tasks own different payloads, none of them freed, and no payload was freed twice. */
  ghost predicate PayloadInv(st: State) {
    && (forall a, b {:trigger Disjoint(st, a, b)} :: Disjoint(st, a, b))
    && (forall a {:trigger Refers(st, a)} :: Refers(st, a).Some? ==>
          Refers(st, a).value in st.owned && Refers(st, a).value !in st.s.released)
    && (forall p :: p in st.s.released ==> p in st.owned)
    && NoRepeats(st.s.released)
    && (forall id :: id in st.s.tasks ==> st.s.tasks[id].id == id)
  }

  ghost predicate Freed(st: State, st': State, p: Payload) {
    p in st.owned && p !in st.s.released && forall a {:trigger Refers(st', a)} :: Refers(st', a) != Some(p)
  }

  /** What only one slot referred to, and that slot refers to no more, may be freed. */
  lemma LetGo(st: State, st': State, slot: Slot, p: Payload)
    requires PayloadInv(st) && Refers(st, slot) == Some(p)
    requires forall a {:trigger Refers(st', a)} :: Refers(st', a) == Some(p) ==>
               exists b :: b != slot && Refers(st, b) == Some(p)
    ensures Freed(st, st', p)
  {
    forall b | b != slot ensures Refers(st, b) != Some(p) { assert Disjoint(st, slot, b); }
  }

  /**
   `st'` is reached by moving references (`from` tells where each one was), adding one in slot `fresh`, and freeing
   `freed`.
   */
  ghost predicate Moved(st: State, st': State, freed: seq<Payload>, from: Slot -> Slot, fresh_: Slot) {
    && st.owned <= st'.owned && st'.s.released == st.s.released + freed
    && (forall id :: id in st'.s.tasks ==> st'.s.tasks[id].id == id)
    && (forall a {:trigger Refers(st', a)} :: Refers(st', a).Some? ==>
          || Refers(st', a) == Refers(st, from(a))
          || (a == fresh_ && Refers(st', a).value !in st.owned && Refers(st', a).value in st'.owned))
    && (forall a, b {:trigger from(a), from(b)} ::
        Refers(st', a).Some? && Refers(st', b).Some? && a != b && a != fresh_ && b != fresh_ ==> from(a) != from(b))
    && (forall a {:trigger from(a)} ::
        Refers(st', a).Some? && a != fresh_ && Refers(st', fresh_) == Refers(st, from(fresh_)) ==>
            from(a) != from(fresh_))
    && (forall p {:trigger Freed(st, st', p)} :: p in freed ==> Freed(st, st', p))
    && NoRepeats(freed)
  }

  lemma MoveKeepsPayloads(st: State, st': State, freed: seq<Payload>, from: Slot -> Slot, fresh_: Slot)
    requires PayloadInv(st) && Moved(st, st', freed, from, fresh_)
    ensures PayloadInv(st')
  {
    forall p | p in freed ensures Freed(st, st', p) {}
    forall a, b ensures Disjoint(st', a, b) {
      if a != b && Refers(st', a).Some? && Refers(st', b).Some? {
        assert Disjoint(st, from(a), from(b));
      }
    }
    forall i, j | 0 <= i < j < |st'.s.released| ensures st'.s.released[i] != st'.s.released[j] {
      var n := |st.s.released|;
      if i < n <= j {
        assert st.s.released[i] in st.s.released && freed[j - n] in freed && Freed(st, st', freed[j - n]);
      } else if n <= i { assert freed[i - n] != freed[j - n]; }
    }
  }

  lemma PayloadKeys(st: State)
    requires PayloadInv(st)
    ensures forall id :: id in st.s.tasks ==> st.s.tasks[id].id == id
  {
  }

  lemma SubmitKeepsPayloads(st: State, step: Step)
    requires PayloadInv(st) && step.Submit? && OwnedSet(step.v) !! st.owned
    ensures PayloadInv(Next(st, step))
  {
    if Enabled(st, step) {
      var v, st' := step.v, Next(st, step);
      var freed := if v.id in st.s.tasks && step.replace then Released(st.s.tasks[v.id]) else [];
      forall p | p in freed ensures Freed(st, st', p) {
        assert Refers(st, Tree(v.id)) == Some(p);
        forall a | Refers(st', a) == Some(p) ensures a != Tree(v.id) && Refers(st, a) == Some(p) {}
        LetGo(st, st', Tree(v.id), p);
      }
      MoveKeepsPayloads(st, st', freed, a => a, Tree(v.id));
    }
  }

  /** A task that a worker resubmits is merged into the one that is scheduled. */
  predicate Merges(st: State, v: View) { v.id in st.s.tasks && v.id.cls == CLASS_ENFORCER }

  /** Where a payload was before a worker resubmitted its task. */
  function Origin(st: State, w: WorkerId, v: View, a: Slot): Slot {
    if a == Tree(v.id) && (v.id !in st.s.tasks || Merges(st, v)) then Hand(w) else a
  }

  lemma ResubmitMoves(st: State, w: WorkerId)
    requires Enabled(st, Complete(w)) && st.workers[w].when >= 0
    requires forall id :: id in st.s.tasks ==> st.s.tasks[id].id == id
    ensures var v, st' := st.workers[w].v, Next(st, Complete(w));
            && st'.owned == st.owned && (forall id :: id in st'.s.tasks ==> st'.s.tasks[id].id == id)
            && st'.s.released == st.s.released + (if Merges(st, v) then Released(st.s.tasks[v.id]) else [])
            && (forall a {:trigger Refers(st', a)} :: Refers(st', a).Some? ==>
                  && Refers(st', a) == Refers(st, Origin(st, w, v, a)) && a != Hand(w)
                  && (Merges(st, v) ==> Origin(st, w, v, a) != Tree(v.id)))
  {
  }

  lemma ResubmitKeepsPayloads(st: State, w: WorkerId)
    requires PayloadInv(st) && Enabled(st, Complete(w)) && st.workers[w].when >= 0
    ensures PayloadInv(Next(st, Complete(w)))
  {
    PayloadKeys(st);
    hide PayloadInv, Next;
    var v, st' := st.workers[w].v, Next(st, Complete(w));
    ResubmitMoves(st, w);
    var freed := if Merges(st, v) then Released(st.s.tasks[v.id]) else [];
    forall p | p in freed ensures Freed(st, st', p) {
      assert Refers(st, Tree(v.id)) == Some(p);
      LetGo(st, st', Tree(v.id), p);
    }
    MoveKeepsPayloads(st, st', freed, a => Origin(st, w, v, a), Hand(w));
  }

  lemma CompleteKeepsPayloads(st: State, step: Step)
    requires PayloadInv(st) && step.Complete?
    ensures PayloadInv(Next(st, step))
  {
    if Enabled(st, step) {
      var Returned(v, when) := st.workers[step.w];
      if when >= 0 {
        ResubmitKeepsPayloads(st, step.w);
      } else {
        var st', hand := Next(st, step), Hand(step.w);
        forall a | Refers(st', a).Some? ensures Refers(st', a) == Refers(st, a) && a != hand {}
        forall p | p in Released(v) ensures Freed(st, st', p) {
          assert Refers(st, hand) == Some(p);
          LetGo(st, st', hand, p);
        }
        MoveKeepsPayloads(st, st', Released(v), a => a, hand);
      }
    }
  }

  lemma WorkerKeepsPayloads(st: State, step: Step)
    requires PayloadInv(st) && (step.Pop? || step.Sleep? || step.WakeUp? || step.Begin? || step.Finish?)
    ensures PayloadInv(Next(st, step))
  {
    PayloadKeys(st);
    hide PayloadInv, Submission, IsFirst;
    if Enabled(st, step) {
      var from := a => if step.Pop? && a == Hand(step.w) then Tree(step.id) else a;
      MoveKeepsPayloads(st, Next(st, step), [], from, Hand(step.w));
    }
  }

  /** Destroying different tasks frees the payloads of these tasks, each of them once. */
  lemma {:induction false} ReleasedInSound(m: map<TTuple, View>, order: seq<TTuple>)
    requires forall i :: 0 <= i < |order| ==> order[i] in m
    requires forall i, j {:trigger Apart(order, i, j)} :: 0 <= i < j < |order| ==> Apart(order, i, j)
    requires forall x, y :: x in m && y in m && x != y && Owned(m[x]).Some? ==> Owned(m[x]) != Owned(m[y])
    ensures NoRepeats(ReleasedIn(m, order))
    ensures forall p :: p in ReleasedIn(m, order) ==> exists i :: 0 <= i < |order| && Owned(m[order[i]]) == Some(p)
  {
    if order != [] {
      var n := |order| - 1;
      var init := order[..n];
      forall i, j | 0 <= i < j < n ensures Apart(init, i, j) { assert Apart(order, i, j); }
      ReleasedInSound(m, init);
      var before := ReleasedIn(m, init);
      forall p | p in before
        ensures Some(p) != Owned(m[order[n]]) && exists i :: 0 <= i < |order| && Owned(m[order[i]]) == Some(p)
      {
        var i :| 0 <= i < n && Owned(m[init[i]]) == Some(p);
        assert Apart(order, i, n) && order[i] == init[i];
      }
      assert Owned(m[order[n]]).Some? ==> order[n] in m;
    }
  }

  lemma DestroyKeepsPayloads(st: State, st': State, ids: set<TTuple>, order: seq<TTuple>)
    requires PayloadInv(st) && ids <= st.s.tasks.Keys && Enumerates(order, ids)
    requires st'.s.tasks == st.s.tasks - ids && st'.s.released == st.s.released + ReleasedIn(st.s.tasks, order)
    requires st'.workers == st.workers && st'.owned == st.owned
    ensures PayloadInv(st')
  {
    var m := st.s.tasks;
    forall x, y | x in m && y in m && x != y && Owned(m[x]).Some? ensures Owned(m[x]) != Owned(m[y]) {
      assert Disjoint(st, Tree(x), Tree(y)) && Refers(st, Tree(x)).Some?;
    }
    ReleasedInSound(m, order);
    forall a | Refers(st', a).Some?
      ensures Refers(st', a) == Refers(st, a) && forall id :: id in ids ==> a != Tree(id)
    {
    }
    forall p | p in ReleasedIn(m, order) ensures Freed(st, st', p) {
      var i :| 0 <= i < |order| && Owned(m[order[i]]) == Some(p);
      assert Refers(st, Tree(order[i])) == Some(p);
      LetGo(st, st', Tree(order[i]), p);
    }
    MoveKeepsPayloads(st, st', ReleasedIn(m, order), a => a, Tree(TTuple("", "", "")));
  }

  lemma TreesKeepPayloads(st: State, step: Step)
    requires PayloadInv(st) && (step.FlushAll? || step.Unschedule?)
    ensures PayloadInv(Next(st, step))
  {
    if Enabled(st, step) { MoveKeepsPayloads(st, Next(st, step), [], a => a, Tree(TTuple("", "", ""))); }
  }

  lemma StepKeepsPayloads(st: State, step: Step)
    requires PayloadInv(st) && (step.Submit? ==> OwnedSet(step.v) !! st.owned)
    ensures PayloadInv(Next(st, step))
  {
    match step
    case Submit(_, _) => SubmitKeepsPayloads(st, step);
    case Complete(_) => CompleteKeepsPayloads(st, step);
    case FlushAll(_, _, _) => TreesKeepPayloads(st, step);
    case Unschedule(_) => TreesKeepPayloads(st, step);
    case Destroy(ids, order) => if Enabled(st, step) { DestroyKeepsPayloads(st, Next(st, step), ids, order); }
    case PurgeAll(order) => if Enabled(st, step) { DestroyKeepsPayloads(st, Next(st, step), st.s.tasks.Keys, order); }
    case _ => WorkerKeepsPayloads(st, step);
  }

  // ----- borrowed pointers -----

  ghost predicate Borrows(st: State, slot: Slot) {
    TaskIn(st, slot).Some? ==> BorrowedSet(TaskIn(st, slot).value) <= st.borrowed
  }

  /** What live tasks borrow was submitted as such, and nothing is both borrowed and owned. */
  ghost predicate BorrowInv(st: State) {
    st.owned !! st.borrowed && forall slot {:trigger Borrows(st, slot)} :: Borrows(st, slot)
  }

  ghost predicate SameSource(v: View, u: View) { v.userdata == u.userdata && v.freedata == u.freedata }

  /** Every live task carries the payload of a task that was live before, or of the one submitted. */
  ghost predicate Sourced(st: State, step: Step, v: View, from: Slot) {
    || (TaskIn(st, from).Some? && SameSource(v, TaskIn(st, from).value))
    || (step.Submit? && Enabled(st, step) && SameSource(v, step.v))
  }

  lemma SubmissionSource(st: State, v: View, replace: bool, slot: Slot)
    requires TaskIn(Submission(st, v, replace), slot).Some?
    ensures var u := TaskIn(Submission(st, v, replace), slot).value;
            || (TaskIn(st, slot).Some? && SameSource(u, TaskIn(st, slot).value))
            || (slot == Tree(v.id) && SameSource(u, v) && (v.id in st.s.tasks ==> replace))
  {
  }

  lemma CompleteSource(st: State, step: Step, slot: Slot) returns (from: Slot)
    requires step.Complete? && Enabled(st, step) && TaskIn(Next(st, step), slot).Some?
    ensures Sourced(st, step, TaskIn(Next(st, step), slot).value, from)
  {
    hide Submitted;
    var Returned(v, when) := st.workers[step.w];
    from := slot;
    if when >= 0 {
      var st', v' := st.(workers := st.workers[step.w := Idle]), v.(due := when);
      SubmissionSource(st', v', v.id.cls == CLASS_ENFORCER, slot);
      if slot == Tree(v.id) && SameSource(TaskIn(Next(st, step), slot).value, v') { from := Hand(step.w); }
    }
  }

  lemma PayloadSource(st: State, step: Step, slot: Slot) returns (from: Slot)
    requires TaskIn(Next(st, step), slot).Some?
    ensures Sourced(st, step, TaskIn(Next(st, step), slot).value, from)
  {
    hide Submission;
    from := slot;
    if Enabled(st, step) {
      match step
      case Submit(v, replace) => SubmissionSource(st, v, replace, slot);
      case Complete(_) => from := CompleteSource(st, step, slot);
      case Pop(w, id, _) => from := if slot == Hand(w) then Tree(id) else slot;
      case _ =>
    }
  }

  lemma StepKeepsBorrows(st: State, step: Step)
    requires BorrowInv(st)
    requires step.Submit? ==> OwnedSet(step.v) !! st.borrowed && BorrowedSet(step.v) !! st.owned
    ensures BorrowInv(Next(st, step))
  {
    var st' := Next(st, step);
    assert st.borrowed <= st'.borrowed;
    forall slot ensures Borrows(st', slot) {
      if TaskIn(st', slot).Some? {
        var from := PayloadSource(st, step, slot);
        assert Borrows(st, from);
      }
    }
  }

  // ----- all runs -----

  function Pointers(v: View): set<Payload> { OwnedSet(v) + BorrowedSet(v) }

  /** What is submitted in a run, in order. */
  function Submissions(steps: seq<Step>): seq<View> {
    if steps == [] then []
    else
      var last := steps[|steps| - 1];
      Submissions(steps[..|steps| - 1]) + if last.Submit? then [last.v] else []
  }

  ghost predicate Unshared(vs: seq<View>, i: nat, j: nat)
    requires i < |vs| && j < |vs|
  {
    i != j ==> OwnedSet(vs[i]) !! Pointers(vs[j])
  }

  /** A payload that is handed over with a free function is in no other submission; other pointers may be shared. */
  ghost predicate OwnedOnce(vs: seq<View>) {
    forall i, j {:trigger Unshared(vs, i, j)} :: 0 <= i < |vs| && 0 <= j < |vs| ==> Unshared(vs, i, j)
  }

  lemma OwnedOncePrefix(vs: seq<View>, n: nat)
    requires OwnedOnce(vs) && n <= |vs|
    ensures OwnedOnce(vs[..n])
  {
    forall i, j | 0 <= i < n && 0 <= j < n ensures Unshared(vs[..n], i, j) { assert Unshared(vs, i, j); }
  }

  lemma {:induction false} WhereFrom(ws: set<WorkerId>, steps: seq<Step>, p: Payload) returns (i: nat)
    requires p in After(ws, steps).owned || p in After(ws, steps).borrowed
    ensures i < |Submissions(steps)| && p in Pointers(Submissions(steps)[i])
    ensures p !in After(ws, steps).borrowed ==> p in OwnedSet(Submissions(steps)[i])
  {
    var n := |steps| - 1;
    var st := After(ws, steps[..n]);
    if p in st.owned || p in st.borrowed {
      i := WhereFrom(ws, steps[..n], p);
    } else {
      i := |Submissions(steps)| - 1;
    }
  }

  lemma FreshSubmission(ws: set<WorkerId>, steps: seq<Step>)
    requires OwnedOnce(Submissions(steps)) && steps != [] && steps[|steps| - 1].Submit?
    requires BorrowInv(After(ws, steps[..|steps| - 1]))
    ensures var st, v := After(ws, steps[..|steps| - 1]), steps[|steps| - 1].v;
            OwnedSet(v) !! st.owned + st.borrowed && BorrowedSet(v) !! st.owned
  {
    hide After;
    var n, vs := |steps| - 1, Submissions(steps);
    var st, v := After(ws, steps[..n]), steps[n].v;
    forall p | p in Pointers(v) && (p in st.owned || p in st.borrowed)
      ensures p in BorrowedSet(v) && p in st.borrowed
    {
      var i := WhereFrom(ws, steps[..n], p);
      assert Unshared(vs, |vs| - 1, i) && Unshared(vs, i, |vs| - 1);
    }
  }

  lemma {:induction false} RunKeepsPayloads(ws: set<WorkerId>, steps: seq<Step>)
    requires OwnedOnce(Submissions(steps))
    ensures PayloadInv(After(ws, steps)) && BorrowInv(After(ws, steps))
  {
    if steps == [] {
      var st := After(ws, steps);
      forall a ensures Refers(st, a) == None && Borrows(st, a) {}
    } else {
      var n := |steps| - 1;
      var st, step, vs := After(ws, steps[..n]), steps[n], Submissions(steps[..n]);
      OwnedOncePrefix(Submissions(steps), |vs|);
      assert Submissions(steps)[..|vs|] == vs;
      RunKeepsPayloads(ws, steps[..n]);
      if step.Submit? { FreshSubmission(ws, steps); }
      StepKeepsPayloads(st, step);
      StepKeepsBorrows(st, step);
    }
  }

  /** No payload was freed twice, and none that a scheduled or running task refers to, whether it owns it or not. */
  ghost predicate Safe(st: State) {
    && NoRepeats(st.s.released)
    && forall slot {:trigger TaskIn(st, slot)} :: TaskIn(st, slot).Some? && TaskIn(st, slot).value.userdata.Some? ==>
         TaskIn(st, slot).value.userdata.value !in st.s.released
  }

  /**
   Every run is safe in which a payload with a free function is submitted once; other pointers may
   be shared at will.
   */
  lemma PayloadsAreSafe(ws: set<WorkerId>, steps: seq<Step>)
    requires OwnedOnce(Submissions(steps))
    ensures Safe(After(ws, steps))
  {
    hide After;
    RunKeepsPayloads(ws, steps);
    var st := After(ws, steps);
    forall slot | TaskIn(st, slot).Some? && TaskIn(st, slot).value.userdata.Some?
      ensures TaskIn(st, slot).value.userdata.value !in st.s.released
    {
      assert Borrows(st, slot) && Refers(st, slot) == Owned(TaskIn(st, slot).value);
    }
  }

  // ----- and that is exactly what is needed -----

  ghost predicate Holds(st: State, v: View) {
    st.s.tasks.Keys == {v.id} && SameSource(st.s.tasks[v.id], v) && st.s.tasks[v.id].due == v.due
  }

  lemma SubmitAlone(st: State, v: View)
    requires st.s.tasks == map[] && Storable(v)
    ensures var st' := Next(st, Submit(v, false));
            Holds(st', v) && st'.workers == st.workers && st'.s.released == st.s.released
  {
  }

  lemma DestroyAlone(st: State, v: View)
    requires Holds(st, v)
    ensures var st' := Next(st, Destroy({v.id}, [v.id]));
            st'.s.tasks == map[] && st'.workers == st.workers && st'.s.released == st.s.released + Released(v)
  {
    assert ReleasedIn(st.s.tasks, [v.id]) == Released(st.s.tasks[v.id]);
  }

  lemma PopAlone(st: State, v: View, w: WorkerId)
    requires Holds(st, v) && w in st.workers && st.workers[w].Idle?
    ensures var st' := Next(st, Pop(w, v.id, v.due));
            && st'.s.tasks == map[] && st'.s.released == st.s.released
            && TaskIn(st', Hand(w)).Some? && SameSource(TaskIn(st', Hand(w)).value, v)
  {
  }

  lemma AddPayloadStep(ws: set<WorkerId>, steps: seq<Step>, step: Step) returns (r: seq<Step>)
    ensures After(ws, r) == Next(After(ws, steps), step)
    ensures Submissions(r) == Submissions(steps) + if step.Submit? then [step.v] else []
  {
    r := AddStep(ws, steps, step);
    assert r[..|steps|] == steps;
  }

  lemma UnscheduleAlone(st: State, v: View)
    requires Holds(st, v)
    ensures var st' := Next(st, Unschedule({v.id}));
            st'.s.tasks == map[] && st'.workers == st.workers && st'.s.released == st.s.released
  {
  }

  /** Submissions that come to nothing: each task is taken out again. */
  lemma {:induction false} SkipAll(ws: set<WorkerId>, steps: seq<Step>, vs: seq<View>) returns (r: seq<Step>)
    requires After(ws, steps).s.tasks == map[] && forall i :: 0 <= i < |vs| ==> Storable(vs[i])
    ensures Submissions(r) == Submissions(steps) + vs
    ensures var st, st' := After(ws, steps), After(ws, r);
            st'.s.tasks == map[] && st'.workers == st.workers && st'.s.released == st.s.released
    decreases |vs|
  {
    hide After, Next, Submissions;
    if vs == [] {
      r := steps;
      assert Submissions(steps) + vs == Submissions(steps);
    } else {
      SubmitAlone(After(ws, steps), vs[0]);
      r := AddPayloadStep(ws, steps, Submit(vs[0], false));
      UnscheduleAlone(After(ws, r), vs[0]);
      r := AddPayloadStep(ws, r, Unschedule({vs[0].id}));
      assert Submissions(r) + vs[1..] == Submissions(steps) + vs;
      r := SkipAll(ws, r, vs[1..]);
    }
  }

  /** The first of two submissions that share a payload: freed at once if it is owned, otherwise held by a worker. */
  lemma FirstSharer(steps: seq<Step>, u: View) returns (r: seq<Step>)
    requires Storable(u) && After({1}, steps).s.tasks == map[] && After({1}, steps).workers == map[1 := Idle]
    requires u.userdata.Some?
    ensures Submissions(r) == Submissions(steps) + [u] && After({1}, r).s.tasks == map[]
    ensures Owned(u).Some? ==> u.userdata.value in After({1}, r).s.released
    ensures Owned(u).None? ==> HoldsInHand(After({1}, r), u)
  {
    hide After, Next, Submissions;
    SubmitAlone(After({1}, steps), u);
    r := AddPayloadStep({1}, steps, Submit(u, false));
    if Owned(u).Some? {
      DestroyAlone(After({1}, r), u);
      r := AddPayloadStep({1}, r, Destroy({u.id}, [u.id]));
    } else {
      PopAlone(After({1}, r), u, 1);
      r := AddPayloadStep({1}, r, Pop(1, u.id, u.due));
    }
    assert Submissions(steps) + [u] + [] == Submissions(steps) + [u];
  }

  ghost predicate HoldsInHand(st: State, u: View) {
    1 in st.workers && InFlight(st.workers[1]) && SameSource(st.workers[1].v, u)
  }

  /** The second one: it refers to what was freed, or frees what is referred to. */
  lemma SecondSharer(steps: seq<Step>, u: View, v: View) returns (r: seq<Step>)
    requires Storable(v) && After({1}, steps).s.tasks == map[] && u.userdata.Some? && v.userdata == u.userdata
    requires Owned(u).Some? ==> u.userdata.value in After({1}, steps).s.released
    requires Owned(u).None? ==> HoldsInHand(After({1}, steps), u) && Owned(v).Some?
    ensures Submissions(r) == Submissions(steps) + [v] && !Safe(After({1}, r))
  {
    hide After, Next, Submissions;
    SubmitAlone(After({1}, steps), v);
    r := AddPayloadStep({1}, steps, Submit(v, false));
    if Owned(u).Some? {
      assert TaskIn(After({1}, r), Tree(v.id)).Some?;
    } else {
      DestroyAlone(After({1}, r), v);
      r := AddPayloadStep({1}, r, Destroy({v.id}, [v.id]));
      assert TaskIn(After({1}, r), Hand(1)).Some?;
      assert Submissions(steps) + [v] + [] == Submissions(steps) + [v];
    }
  }

  lemma WorkersStart()
    ensures Initial({1}).workers == map[1 := Idle] && Submissions([]) == []
  {
  }

  /** Of submissions planned in any order, two that share an owned payload can free it while it is referred to. */
  lemma SharingIsUnsafe(vs: seq<View>, i: nat, j: nat) returns (steps: seq<Step>)
    requires i < j < |vs| && (forall k :: 0 <= k < |vs| ==> Storable(vs[k]))
    requires !Unshared(vs, i, j) || !Unshared(vs, j, i)
    ensures Submissions(steps) == vs[..j + 1] && !Safe(After({1}, steps))
  {
    hide After, Next, Submissions, Safe;
    Starts({1});
    WorkersStart();
    steps := SkipAll({1}, [], vs[..i]);
    steps := FirstSharer(steps, vs[i]);
    steps := SkipAll({1}, steps, vs[i + 1..j]);
    steps := SecondSharer(steps, vs[i], vs[j]);
    assert [] + vs[..i] + [vs[i]] + vs[i + 1..j] + [vs[j]] == vs[..j + 1];
  }

  /** All runs of planned submissions are safe, if and only if an owned payload is in one submission only. */
  lemma PayloadSafetyIsExact(vs: seq<View>)
    requires forall k :: 0 <= k < |vs| ==> Storable(vs[k])
    ensures (forall ws, steps :: Submissions(steps) <= vs ==> Safe(After(ws, steps))) <==> OwnedOnce(vs)
  {
    hide After, Safe, Submissions;
    if OwnedOnce(vs) {
      forall ws, steps | Submissions(steps) <= vs ensures Safe(After(ws, steps)) {
        OwnedOncePrefix(vs, |Submissions(steps)|);
        assert vs[..|Submissions(steps)|] == Submissions(steps);
        PayloadsAreSafe(ws, steps);
      }
    } else {
      var i, j :| 0 <= i < |vs| && 0 <= j < |vs| && !Unshared(vs, i, j);
      var steps := SharingIsUnsafe(vs, if i < j then i else j, if i < j then j else i);
      assert Submissions(steps) <= vs && !Safe(After({1}, steps));
    }
  }
}
