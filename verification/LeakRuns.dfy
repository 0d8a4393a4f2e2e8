/**
 Which payloads are forgotten (common/scheduler/schedule.c:322-399, 630-646; common/scheduler/task.c:93-143): in every
 run a payload that came with a free function is freed, still to be freed, or was dropped with its task.
 */
module LeakRuns {
  import opened Prelude
  import opened TaskModel
  import opened ScheduleSpec
  import opened SchedulerRuns
  import opened PayloadRuns

  /** The payload was freed, or a live task is still to free it. */
  ghost predicate Covered(st: State, p: Payload) {
    p in st.s.released || exists slot :: TaskIn(st, slot).Some? && Frees(TaskIn(st, slot).value, p)
  }

  /** The task is to free the payload. */
  predicate Frees(v: View, p: Payload) { v.freedata.Some? && v.userdata == Some(p) }

  /**
   Steps that drop the task that is to free `p` without destroying it: a submission that is refused, a
   task of a class other than the enforcer's that was run when its tuple is scheduled again, and unscheduling.
   */
  ghost predicate Drops(st: State, step: Step, p: Payload) {
    && Enabled(st, step)
    && match step
       case Submit(v, replace) => v.id in st.s.tasks && !replace && Frees(v, p)
       case Complete(w) =>
         var Returned(v, when) := st.workers[w];
         when >= 0 && v.id in st.s.tasks && v.id.cls != "enforcer" && Frees(v, p)
       case Unschedule(ids) => exists id :: id in ids && Frees(st.s.tasks[id], p)
       case _ => false
  }

  /** Some step of the run dropped the task. */
  ghost predicate Dropped(ws: set<WorkerId>, steps: seq<Step>, p: Payload) {
    steps != [] &&
    (Dropped(ws, steps[..|steps| - 1], p) || Drops(After(ws, steps[..|steps| - 1]), steps[|steps| - 1], p))
  }

  /** Destroying tasks frees the payloads of all of them. */
  lemma {:induction false} ReleasedInComplete(m: map<TTuple, View>, order: seq<TTuple>, i: nat, p: Payload)
    requires i < |order| && order[i] in m && Frees(m[order[i]], p)
    ensures p in ReleasedIn(m, order)
  {
    var n := |order| - 1;
    if i < n { ReleasedInComplete(m, order[..n], i, p); }
  }

  lemma DestroyCovers(st: State, st': State, ids: set<TTuple>, order: seq<TTuple>, slot: Slot, p: Payload)
    requires Enumerates(order, ids) && ids <= st.s.tasks.Keys
    requires st'.s.tasks == st.s.tasks - ids && st'.s.released == st.s.released + ReleasedIn(st.s.tasks, order)
    requires st'.workers == st.workers && TaskIn(st, slot).Some? && Frees(TaskIn(st, slot).value, p)
    ensures Covered(st', p)
  {
    if slot.Tree? && slot.id in ids {
      var i :| 0 <= i < |order| && order[i] == slot.id;
      ReleasedInComplete(st.s.tasks, order, i, p);
    } else {
      assert TaskIn(st', slot) == TaskIn(st, slot);
    }
  }

  /** A submission: what was to be freed before it was freed or is still to be freed. */
  lemma SubmissionCovers(st: State, st': State, v: View, replace: bool, slot: Slot, p: Payload)
    requires st'.s == Submitted(st.s, v, replace).0
    requires TaskIn(st, slot).Some? && Frees(TaskIn(st, slot).value, p)
    requires slot.Hand? ==> TaskIn(st', slot) == TaskIn(st, slot)
    ensures Covered(st', p)
  {
    SubmittedMeans(st.s, v, replace);
    hide Submitted;
    if slot == Tree(v.id) && replace {
      assert Handed(st.s.tasks[v.id].userdata, st.s.tasks[v.id].freedata) == [p];
    } else {
      assert TaskIn(st', slot) == TaskIn(st, slot);
    }
  }

  lemma NewCovers(st: State, st': State, v: View, replace: bool, p: Payload)
    requires (v.id in st.s.tasks ==> replace) && st'.s == Submitted(st.s, v, replace).0 && Frees(v, p)
    ensures Covered(st', p)
  {
    SubmittedMeans(st.s, v, replace);
    hide Submitted;
    assert TaskIn(st', Tree(v.id)).Some?;
  }

  lemma CompleteCovers(st: State, step: Step, slot: Slot, p: Payload)
    requires step.Complete? && Enabled(st, step) && !Drops(st, step, p)
    requires TaskIn(st, slot).Some? && Frees(TaskIn(st, slot).value, p)
    ensures Covered(Next(st, step), p)
  {
    var Returned(v, when) := st.workers[step.w];
    var st' := Next(st, step);
    if when >= 0 {
      var v' := v.(due := when);
      if slot == Hand(step.w) {
        NewCovers(st, st', v', v.id.cls == CLASS_ENFORCER, p);
      } else {
        SubmissionCovers(st, st', v', v.id.cls == CLASS_ENFORCER, slot, p);
      }
    } else if slot != Hand(step.w) {
      assert TaskIn(st', slot) == TaskIn(st, slot);
    }
  }

  lemma WorkerCovers(st: State, step: Step, slot: Slot, p: Payload)
    requires step.Pop? || step.Sleep? || step.WakeUp? || step.Begin? || step.Finish?
    requires Enabled(st, step) && TaskIn(st, slot).Some? && Frees(TaskIn(st, slot).value, p)
    ensures Covered(Next(st, step), p)
  {
    var slot' := if step.Pop? && slot == Tree(step.id) then Hand(step.w) else slot;
    assert TaskIn(Next(st, step), slot').Some? && Frees(TaskIn(Next(st, step), slot').value, p);
  }

  lemma StepCovers(st: State, step: Step, p: Payload)
    requires Covered(st, p) && !Drops(st, step, p)
    ensures Covered(Next(st, step), p)
  {
    var st' := Next(st, step);
    if Enabled(st, step) && p !in st.s.released {
      hide Covered;
      var slot := CoveringSlot(st, p);
      match step
      case Submit(v, replace) => SubmissionCovers(st, st', v, replace, slot, p);
      case Complete(_) => CompleteCovers(st, step, slot, p);
      case FlushAll(_, _, _) => FlushCovers(st, step, slot, p);
      case Unschedule(_) => FlushCovers(st, step, slot, p);
      case Destroy(ids, order) => DestroyCovers(st, st', ids, order, slot, p);
      case PurgeAll(order) => DestroyCovers(st, st', st.s.tasks.Keys, order, slot, p);
      case _ => WorkerCovers(st, step, slot, p);
    } else if Enabled(st, step) {
      ReleasedStays(st, step, p);
    }
  }

  lemma CoveringSlot(st: State, p: Payload) returns (slot: Slot)
    requires Covered(st, p) && p !in st.s.released
    ensures TaskIn(st, slot).Some? && Frees(TaskIn(st, slot).value, p)
  {
    slot :| TaskIn(st, slot).Some? && Frees(TaskIn(st, slot).value, p);
  }

  lemma FlushCovers(st: State, step: Step, slot: Slot, p: Payload)
    requires (step.FlushAll? || step.Unschedule?) && !Drops(st, step, p) && Enabled(st, step)
    requires TaskIn(st, slot).Some? && Frees(TaskIn(st, slot).value, p)
    ensures Covered(Next(st, step), p)
  {
    assert TaskIn(Next(st, step), slot).Some? && Frees(TaskIn(Next(st, step), slot).value, p);
  }

  lemma ReleasedStays(st: State, step: Step, p: Payload)
    requires p in st.s.released
    ensures Covered(Next(st, step), p)
  {
    assert step.Submit? ==> st.s.released <= Submitted(st.s, step.v, step.replace).0.released;
  }

  // ----- and what is dropped stays forgotten -----

  /** Under the invariant, a payload of which no slot has hold is nobody's. */
  lemma Uncovered(st: State, p: Payload)
    requires p !in st.s.released && forall a {:trigger Refers(st, a)} :: Refers(st, a) != Some(p)
    ensures !Covered(st, p)
  {
    forall slot | TaskIn(st, slot).Some? ensures !Frees(TaskIn(st, slot).value, p) {
      assert Refers(st, slot) == Owned(TaskIn(st, slot).value);
    }
  }

  lemma Referred(st: State, p: Payload, slot: Slot)
    requires PayloadInv(st) && Refers(st, slot) == Some(p)
    ensures p in st.owned && p !in st.s.released && forall b :: b != slot ==> Refers(st, b) != Some(p)
  {
    forall b | b != slot ensures Refers(st, b) != Some(p) { assert Disjoint(st, slot, b); }
  }

  /** A step that drops a task leaves its payload to nobody. */
  lemma DropUncovers(st: State, step: Step, p: Payload)
    requires PayloadInv(st) && Drops(st, step, p) && (step.Submit? ==> p !in st.owned)
    ensures !Covered(Next(st, step), p) && p in Next(st, step).owned
  {
    var st' := Next(st, step);
    if step.Submit? {
      assert p in OwnedSet(step.v) && st'.s == st.s && st'.workers == st.workers;
      forall a ensures Refers(st', a) != Some(p) { assert Refers(st', a) == Refers(st, a); }
    } else {
      var slot := DroppedSlot(st, step, p);
      Referred(st, p, slot);
    }
    Uncovered(st', p);
  }

  lemma DroppedSlot(st: State, step: Step, p: Payload) returns (slot: Slot)
    requires Drops(st, step, p) && !step.Submit?
    ensures Refers(st, slot) == Some(p) && Next(st, step).s.released == st.s.released
    ensures Next(st, step).owned == st.owned && Refers(Next(st, step), slot) == None
    ensures forall b {:trigger Refers(Next(st, step), b)} :: b != slot ==>
              Refers(Next(st, step), b) == Refers(st, b) || Refers(Next(st, step), b) == None
  {
    if step.Complete? {
      slot := Hand(step.w);
    } else {
      var id :| id in step.ids && Frees(st.s.tasks[id], p);
      slot := Tree(id);
    }
  }

  lemma {:induction false} ReleasedInFrees(m: map<TTuple, View>, order: seq<TTuple>, p: Payload) returns (id: TTuple)
    requires p in ReleasedIn(m, order)
    ensures id in m && Frees(m[id], p)
  {
    var n := |order| - 1;
    if p in ReleasedIn(m, order[..n]) { id := ReleasedInFrees(m, order[..n], p); } else { id := order[n]; }
  }

  /** Only a payload that a live task is to free is freed. */
  lemma FreedWasCovered(st: State, step: Step, p: Payload)
    requires p in Next(st, step).s.released
    ensures Covered(st, p)
  {
    if p !in st.s.released {
      match step
      case Submit(v, _) => assert TaskIn(st, Tree(v.id)).Some?;
      case Complete(w) => CompleteFrees(st, w, p);
      case Destroy(_, order) =>
        var id := ReleasedInFrees(st.s.tasks, order, p);
        assert TaskIn(st, Tree(id)).Some?;
      case PurgeAll(order) =>
        var id := ReleasedInFrees(st.s.tasks, order, p);
        assert TaskIn(st, Tree(id)).Some?;
      case _ =>
    }
  }

  lemma CompleteFrees(st: State, w: WorkerId, p: Payload)
    requires p in Next(st, Complete(w)).s.released && p !in st.s.released
    ensures Covered(st, p)
  {
    var Returned(v, when) := st.workers[w];
    if when >= 0 {
      assert TaskIn(st, Tree(v.id)).Some?;
    } else {
      assert TaskIn(st, Hand(w)).Some?;
    }
  }

  /** What nobody was to free, nobody is to free after a step, unless it is submitted. */
  lemma StaysUncovered(st: State, step: Step, p: Payload)
    requires !Covered(st, p) && (step.Submit? ==> p !in OwnedSet(step.v))
    ensures !Covered(Next(st, step), p)
  {
    var st' := Next(st, step);
    hide Next;
    if p in st'.s.released { FreedWasCovered(st, step, p); }
    forall slot | TaskIn(st', slot).Some? ensures !Frees(TaskIn(st', slot).value, p) {
      var from := PayloadSource(st, step, slot);
    }
  }

  lemma {:induction false} DroppedWasOwned(ws: set<WorkerId>, steps: seq<Step>, p: Payload)
    requires OwnedOnce(Submissions(steps)) && Dropped(ws, steps, p)
    ensures p in After(ws, steps).owned
  {
    var n := |steps| - 1;
    var st, step := After(ws, steps[..n]), steps[n];
    OwnedOnceBefore(steps);
    if Dropped(ws, steps[..n], p) {
      DroppedWasOwned(ws, steps[..n], p);
    } else if p !in st.owned {
      RunKeepsPayloads(ws, steps[..n]);
      DropUncovers(st, step, p);
    }
  }

  lemma OwnedOnceBefore(steps: seq<Step>)
    requires OwnedOnce(Submissions(steps)) && steps != []
    ensures OwnedOnce(Submissions(steps[..|steps| - 1]))
  {
    var vs := Submissions(steps[..|steps| - 1]);
    OwnedOncePrefix(Submissions(steps), |vs|);
    assert Submissions(steps)[..|vs|] == vs;
  }

  /** One more step, for a payload that was there before or comes with it. */
  lemma StepIsExact(st: State, step: Step, p: Payload)
    requires PayloadInv(st) && (step.Submit? ==> OwnedSet(step.v) !! st.owned) && p in Next(st, step).owned
    ensures p in st.owned ==> (Covered(Next(st, step), p) <==> Covered(st, p) && !Drops(st, step, p))
    ensures p !in st.owned ==> (Covered(Next(st, step), p) <==> !Drops(st, step, p))
  {
    var st' := Next(st, step);
    hide Covered, Next;
    if Drops(st, step, p) {
      DropUncovers(st, step, p);
    } else if p !in st.owned {
      NewIsCovered(st, step, p);
    } else if Covered(st, p) {
      StepCovers(st, step, p);
    } else {
      StaysUncovered(st, step, p);
    }
  }

  lemma NewIsCovered(st: State, step: Step, p: Payload)
    requires p in Next(st, step).owned && p !in st.owned && !Drops(st, step, p)
    ensures Covered(Next(st, step), p)
  {
    NewCovers(st, Next(st, step), step.v, step.replace, p);
  }

  /**
   In every run in which payloads are handed over once: one that was handed over was freed, or a live
   task is still to free it, if and only if no step dropped its task.
   */
  lemma {:induction false} LeaksExactly(ws: set<WorkerId>, steps: seq<Step>, p: Payload)
    requires OwnedOnce(Submissions(steps)) && p in After(ws, steps).owned
    ensures Covered(After(ws, steps), p) <==> !Dropped(ws, steps, p)
  {
    hide Covered, Drops;
    var n := |steps| - 1;
    var st, step := After(ws, steps[..n]), steps[n];
    OwnedOnceBefore(steps);
    RunKeepsPayloads(ws, steps[..n]);
    if step.Submit? { FreshSubmission(ws, steps); }
    StepIsExact(st, step, p);
    if p in st.owned {
      LeaksExactly(ws, steps[..n], p);
    } else if Dropped(ws, steps[..n], p) {
      DroppedWasOwned(ws, steps[..n], p);
    }
  }


  /** For any task with a payload: submitted without REPLACE while its tuple is scheduled, it is dropped. */
  lemma RefusedLeaks(ws: set<WorkerId>, v: View, p: Payload)
    requires Storable(v) && Frees(v, p)
    ensures var st := After(ws, [Submit(v.(userdata := None), false), Submit(v, false)]);
            p in st.owned && !Covered(st, p)
  {
    hide Covered;
    var u := v.(userdata := None);
    AfterMore(ws, [], Submit(u, false));
    AfterMore(ws, [Submit(u, false)], Submit(v, false));
    var st := After(ws, [Submit(u, false)]);
    assert [] + [Submit(u, false)] == [Submit(u, false)];
    assert [Submit(u, false)] + [Submit(v, false)] == [Submit(u, false), Submit(v, false)];
    assert v.id in st.s.tasks && st.owned == {};
    forall a, b ensures Disjoint(st, a, b) && Refers(st, a) == None {}
    DropUncovers(st, Submit(v, false), p);
  }
}
