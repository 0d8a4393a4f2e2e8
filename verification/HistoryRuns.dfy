/**
 What a scheduled task looks like after any number of submissions of its tuple (common/scheduler/schedule.c:371-388).
 */
module HistoryRuns {
  import opened Prelude
  import opened TaskModel
  import opened ScheduleSpec
  import opened SchedulerRuns

  /** The earliest date among the submissions. */
  function Earliest(h: seq<View>): (d: int)
    requires h != []
    ensures exists i :: 0 <= i < |h| && d == h[i].due
    ensures forall i :: 0 <= i < |h| ==> d <= h[i].due
  {
    if |h| == 1 then h[0].due
    else
      var d := Earliest(h[..|h| - 1]);
      assert forall i :: 0 <= i < |h| - 1 ==> h[..|h| - 1][i] == h[i];
      Min(d, h[|h| - 1].due)
  }

  /** The earliest date requested, the payload submitted last, and the rest from the first submission. */
  ghost predicate Summarises(v: View, h: seq<View>) {
    && h != []
    && v == h[0].(due := Earliest(h), userdata := h[|h| - 1].userdata, freedata := h[|h| - 1].freedata)
  }

  ghost predicate HistoryInv(st: State) {
    && (forall id :: id in st.s.tasks ==> st.s.tasks[id].id == id)
    && (forall id :: id in st.history ==> id in st.s.tasks && Summarises(st.s.tasks[id], st.history[id]))
  }

  lemma SubmissionKeepsHistory(st: State, v: View, replace: bool)
    requires HistoryInv(st)
    ensures HistoryInv(Submission(st, v, replace))
  {
    hide Summarises;
    if v.id !in st.s.tasks {
      FirstSubmission(Enter(st.s, v).tasks[v.id]);
    } else if replace && v.id in st.history {
      NextSubmission(st.s.tasks[v.id], st.history[v.id], v);
    }
  }

  lemma FirstSubmission(v: View)
    ensures Summarises(v, [v])
  {
  }

  lemma NextSubmission(v: View, h: seq<View>, new_: View)
    requires Summarises(v, h)
    ensures Summarises(Merged(v, new_), h + [new_])
  {
    assert (h + [new_])[..|h|] == h;
  }

  lemma StepKeepsHistory(st: State, step: Step)
    requires HistoryInv(st)
    ensures HistoryInv(Next(st, step))
  {
    if Enabled(st, step) {
      match step
      case Submit(v, replace) => SubmissionKeepsHistory(st, v, replace);
      case Complete(w) =>
        var Returned(v, when) := st.workers[w];
        var st' := st.(workers := st.workers[w := Idle]);
        if when >= 0 { SubmissionKeepsHistory(st', v.(due := when), v.id.cls == CLASS_ENFORCER); }
      case _ =>
    }
  }

  /**
   In every run: a scheduled task whose tuple was not flushed since it was last absent is due at the
   earliest date submitted since, carries the latest payload, and has the callback, lock and
   back-off it entered with.
   */
  lemma {:induction false} ReplaceHistory(ws: set<WorkerId>, steps: seq<Step>, id: TTuple)
    ensures id in After(ws, steps).history ==>
              id in After(ws, steps).s.tasks && Summarises(After(ws, steps).s.tasks[id], After(ws, steps).history[id])
    ensures HistoryInv(After(ws, steps))
  {
    if steps != [] {
      ReplaceHistory(ws, steps[..|steps| - 1], id);
      StepKeepsHistory(After(ws, steps[..|steps| - 1]), steps[|steps| - 1]);
    }
  }

  lemma SubmissionKeepsKeys(st: State, v: View, replace: bool)
    requires st.history.Keys == st.s.tasks.Keys
    ensures Submission(st, v, replace).history.Keys == Submission(st, v, replace).s.tasks.Keys
  {
    assert Enter(st.s, v).tasks.Keys == st.s.tasks.Keys + {v.id};
  }

  lemma StepKeepsKeys(st: State, step: Step)
    requires st.history.Keys == st.s.tasks.Keys && !step.FlushAll?
    ensures Next(st, step).history.Keys == Next(st, step).s.tasks.Keys
  {
    if Enabled(st, step) {
      match step
      case Submit(v, replace) => SubmissionKeepsKeys(st, v, replace);
      case Complete(w) =>
        var Returned(v, when) := st.workers[w];
        var st' := st.(workers := st.workers[w := Idle]);
        if when >= 0 { SubmissionKeepsKeys(st', v.(due := when), v.id.cls == CLASS_ENFORCER); }
      case _ =>
    }
  }

  /** The history is complete: without a flush, every scheduled task has one. */
  lemma {:induction false} UnflushedTasksHaveHistory(ws: set<WorkerId>, steps: seq<Step>)
    requires forall i :: 0 <= i < |steps| ==> !steps[i].FlushAll?
    ensures After(ws, steps).history.Keys == After(ws, steps).s.tasks.Keys
  {
    if steps != [] {
      UnflushedTasksHaveHistory(ws, steps[..|steps| - 1]);
      StepKeepsKeys(After(ws, steps[..|steps| - 1]), steps[|steps| - 1]);
    }
  }

  // ----- idle workers -----

  function Sleepers(workers: map<WorkerId, Worker>): set<WorkerId> {
    set w | w in workers && workers[w].Waiting?
  }

  lemma SleepersUpdate(workers: map<WorkerId, Worker>, w: WorkerId, k: Worker)
    requires w in workers
    ensures |Sleepers(workers[w := k])| ==
            |Sleepers(workers)| + (if k.Waiting? then 1 else 0) - (if workers[w].Waiting? then 1 else 0)
  {
    var others := Sleepers(workers) - {w};
    assert Sleepers(workers) == if workers[w].Waiting? then others + {w} else others;
    assert Sleepers(workers[w := k]) == if k.Waiting? then others + {w} else others;
  }

  lemma StepCounts(st: State, step: Step)
    ensures Next(st, step).numWaiting - st.numWaiting == |Sleepers(Next(st, step).workers)| - |Sleepers(st.workers)|
  {
    if Enabled(st, step) {
      match step
      case Pop(w, _, _) => SleepersUpdate(st.workers, w, Next(st, step).workers[w]);
      case Sleep(w, _) => SleepersUpdate(st.workers, w, Waiting);
      case WakeUp(w) => SleepersUpdate(st.workers, w, Idle);
      case Begin(w) => SleepersUpdate(st.workers, w, Next(st, step).workers[w]);
      case Finish(w, _, _) => SleepersUpdate(st.workers, w, Next(st, step).workers[w]);
      case Complete(w) => SleepersUpdate(st.workers, w, Idle);
      case _ =>
    }
  }

  /** `num_waiting` is the number of workers asleep in `schedule_pop_task`, in every run. */
  lemma {:induction false} IdleCountIsExact(ws: set<WorkerId>, steps: seq<Step>)
    ensures After(ws, steps).numWaiting == |Sleepers(After(ws, steps).workers)|
  {
    if steps == [] {
      assert Sleepers(Initial(ws).workers) == {};
    } else {
      IdleCountIsExact(ws, steps[..|steps| - 1]);
      StepCounts(After(ws, steps[..|steps| - 1]), steps[|steps| - 1]);
    }
  }
}
