/**
 `task_perform` and the attached time leap (common/scheduler/task.c:103-143,
 enforcer/src/daemon/time_leap_cmd.c:170-203).
 */
module TimeLeap {
  import opened Prelude
  import opened TaskModel
  import opened Trees
  import opened ScheduleSpec
  import opened Schedule
  import opened SchedulerRuns

  /** What a callback does: it submits tasks and returns the time to run again, or a code. */
  datatype Outcome = Outcome(submissions: seq<View>, result: int)

  predicate Acceptable(o: Outcome) {
    forall i :: 0 <= i < |o.submissions| ==> Storable(o.submissions[i])
  }

  /** The schedule after a callback has made its submissions. */
  function SubmittedAll(m: Sched, vs: seq<View>): Sched {
    if vs == [] then m else Submitted(SubmittedAll(m, vs[..|vs| - 1]), vs[|vs| - 1], true).0
  }

  /** Every submission of a callback is scheduled afterwards, for its date or an earlier one. */
  lemma {:induction false} SubmissionsAreScheduled(m: Sched, vs: seq<View>, i: nat)
    requires i < |vs|
    ensures vs[i].id in SubmittedAll(m, vs).tasks && SubmittedAll(m, vs).tasks[vs[i].id].due <= vs[i].due
  {
    hide Submitted;
    var n := |vs| - 1;
    SubmittedMeans(SubmittedAll(m, vs[..n]), vs[n], true);
    if i < n { SubmissionsAreScheduled(m, vs[..n], i); }
  }

  /** The schedule after a task, popped before, has been performed. */
  function Performed(m: Sched, v: View, o: Outcome, now: int): Sched {
    var m' := if v.callback.Some? then SubmittedAll(m, o.submissions) else m;
    var (v', when) := Rescheduled(v, if v.callback.Some? then o.result else SUCCESS, now);
    if when >= 0 then Submitted(m', v'.(due := when), v.id.cls == CLASS_ENFORCER).0
    else m'.(released := m'.released + Released(v'))
  }

  /** Allocates a task structure. */
  method Allocate(s: Schedule, v: View) returns (t: Ref)
    requires s.Valid()
    modifies s`mem
    ensures s.Valid() && t !in old(s.mem) && t !in s.tasks && s.mem == old(s.mem)[t := v]
    ensures s.Model() == old(s.Model())
  {
    t := 0;
    ghost var left := s.mem.Keys;
    while t in s.mem
      invariant forall p :: p in s.mem && p >= t ==> p in left
      decreases left
    {
      left := left - {t};
      t := t + 1;
    }
    forall p | p in s.tasks ensures p in s.mem { Agree(s.mem, s.tasks, s.tasksByName, s.where, p); }
    SoundFrame(s.mem, s.mem[t := v], s.tasks, s.tasksByName, s.where);
    s.mem := s.mem[t := v];
  }

  /** The submissions a callback makes while it runs. */
  method SubmitAll(s: Schedule, vs: seq<View>, ghost held: Ref)
    requires s.Valid() && held in s.mem && held !in s.tasks
    requires forall i :: 0 <= i < |vs| ==> Storable(vs[i])
    modifies s
    ensures s.Valid() && held in s.mem && held !in s.tasks && s.mem[held] == old(s.mem[held])
    ensures s.Model() == SubmittedAll(old(s.Model()), vs)
  {
    for i := 0 to |vs|
      invariant s.Valid() && held in s.mem && held !in s.tasks && s.mem[held] == old(s.mem[held])
      invariant s.Model() == SubmittedAll(old(s.Model()), vs[..i])
    {
      assert vs[..i + 1][..i] == vs[..i];
      var t := Allocate(s, vs[i]);
      var ok := s.ScheduleTask(t, true);
    }
    assert vs[..|vs|] == vs;
  }

  /**
   `task_perform`, under a real or a set clock: runs the callback, then reschedules or destroys the task. The date it
   may be rescheduled for has to fit, whatever the clock then says.
   */
  method Perform(s: Schedule, t: Ref, o: Outcome, clock: Clock)
    requires s.Valid() && t in s.mem && t !in s.tasks && s.mem[t].id.typ != WHATEVER && Acceptable(o)
    requires clock.Ticks()
    requires forall now :: clock.Low() <= now <= clock.High() ==> Rescheduled(s.mem[t], o.result, now).1 <= MAX_DUE
    modifies s, clock
    ensures s.Valid() && clock.Ticks() && clock.timeNowSet == old(clock.timeNowSet)
    ensures old(clock.Low()) <= clock.Low() && clock.High() == old(clock.High())
    ensures s.Model() == Performed(old(s.Model()), old(s.mem[t]), o, clock.Low())
    ensures old(s.mem[t]).callback.Some? ==>
              Carried(SubmittedAll(old(s.Model()), o.submissions), s.Model(), old(s.mem[t]), o.result, clock.Low())
    ensures old(s.mem[t]).callback.None? ==> Carried(old(s.Model()), s.Model(), old(s.mem[t]), -1, clock.Low())
  {
    hide Carried;
    var result := SUCCESS;
    if s.mem[t].callback.Some? {
      SubmitAll(s, o.submissions, t);
      result := o.result;
    }
    var now := clock.TimeNow();
    var (v, when) := Rescheduled(s.mem[t], result, now);
    RescheduledIsCarried(s.Model(), s.mem[t], result, now);
    if when >= 0 {
      Hold(s, t, v.(due := when));
      var ok := s.ScheduleTask(t, v.id.cls == CLASS_ENFORCER);
    } else {
      s.Destroy(t);
    }
  }

  /** Changes a task that is in no tree. */
  method Hold(s: Schedule, t: Ref, v: View)
    requires s.Valid() && t in s.mem && t !in s.tasks
    modifies s`mem
    ensures s.Valid() && s.mem == old(s.mem)[t := v] && s.Model() == old(s.Model())
  {
    SoundFrame(s.mem, s.mem[t := v], s.tasks, s.tasksByName, s.where);
    s.mem := s.mem[t := v];
  }

  /** A task that was run, with the date it was due and the time it was run at. */
  datatype Ran = Ran(id: TTuple, due: int, at: int)

  ghost predicate InTime(log: seq<Ran>, from: int, to: int) {
    && (forall i :: 0 <= i < |log| ==> log[i].due <= log[i].at && from <= log[i].at <= to)
    && (forall i, j :: 0 <= i < j < |log| ==> log[i].at <= log[j].at)
  }

  /** Once an enforce task has run, time stands still. */
  ghost predicate Stands(log: seq<Ran>) {
    forall i, j :: 0 <= i < j < |log| && log[i].id.typ == "enforce" ==> log[j].at == log[i].at
  }

  /** The first task asks for a date that does not fit. */
  ghost predicate TooLate(m: Sched, o: Outcome) {
    exists id, at :: IsFirst(m.tasks, id) && at <= MAX_DUE && Rescheduled(m.tasks[id], o.result, at).1 > MAX_DUE
  }

  ghost predicate RanEnforce(log: seq<Ran>) {
    exists i :: 0 <= i < |log| && log[i].id.typ == TYPE_ENFORCE
  }

  /** A run of the first task of a schedule. */
  ghost predicate RunsFirst(m: Sched, r: Ran) {
    IsFirst(m.tasks, r.id) && m.tasks[r.id].due == r.due
  }

  /** The schedule after such a run. */
  function AfterRun(m: Sched, r: Ran, o: Outcome): Sched {
    if r.id in m.tasks then Performed(Removed(m, {r.id}), m.tasks[r.id], o, r.at) else m
  }

  /** The schedule after the runs in the log, with the given outcomes. */
  function AfterRuns(m: Sched, log: seq<Ran>, outcomes: seq<Outcome>): Sched
    requires |log| <= |outcomes|
  {
    if log == [] then m
    else AfterRun(AfterRuns(m, log[..|log| - 1], outcomes), log[|log| - 1], outcomes[|log| - 1])
  }

  /** Every run in the log is one of the first task there was. */
  ghost predicate Traces(m: Sched, log: seq<Ran>, outcomes: seq<Outcome>)
    requires |log| <= |outcomes|
  {
    log != [] ==>
      && Traces(m, log[..|log| - 1], outcomes)
      && RunsFirst(AfterRuns(m, log[..|log| - 1], outcomes), log[|log| - 1])
  }

  lemma NoRuns(m: Sched, outcomes: seq<Outcome>)
    ensures AfterRuns(m, [], outcomes) == m && Traces(m, [], outcomes)
  {
  }

  lemma TracesMore(m: Sched, log: seq<Ran>, outcomes: seq<Outcome>, r: Ran)
    requires |log| < |outcomes| && Traces(m, log, outcomes) && RunsFirst(AfterRuns(m, log, outcomes), r)
    ensures Traces(m, log + [r], outcomes)
    ensures AfterRuns(m, log + [r], outcomes) == AfterRun(AfterRuns(m, log, outcomes), r, outcomes[|log|])
  {
    hide AfterRun, RunsFirst;
    assert (log + [r])[..|log|] == log;
  }

  /** The time to leap to: the date of the first task, or now if that is past; -1 if there is no task. */
  method NextTime(s: Schedule, clock: Clock) returns (timeLeap: int)
    requires s.Valid() && clock.Ticks() && 1 <= clock.Low()
    modifies clock
    ensures clock.Ticks() && old(clock.Low()) <= clock.Low() && clock.timeNowSet == old(clock.timeNowSet)
    ensures timeLeap == -1 <==> s.Model().tasks == map[]
    ensures timeLeap != -1 ==> clock.Low() <= timeLeap <= MAX_DUE
    ensures timeLeap > clock.Low() ==> forall id :: id in s.Model().tasks ==> s.Model().tasks[id].due >= timeLeap
    ensures forall id :: IsFirst(s.Model().tasks, id) ==> s.Model().tasks[id].due <= timeLeap
  {
    var idle, count;
    timeLeap, idle, count := s.Info();
    if count > 0 {
      ghost var first :| IsFirst(s.Model().tasks, first) && timeLeap == s.Model().tasks[first].due;
      At(s.mem, s.tasks, s.tasksByName, s.where, first);
    }
    if timeLeap >= 0 {
      var now := clock.TimeNow();
      if timeLeap < now { timeLeap := clock.TimeNow(); }
    }
  }

  /**
   The loop of `time leap --attach`, for as many rounds as there are outcomes of callbacks and dates
   fit 31 bits. It always runs the first task there is; the clock never goes back and every task
   runs at or after its date; the loop ends with an empty queue, or after an enforce task when
   everything left is due later.
   */
  method Leap(s: Schedule, clock: Clock, outcomes: seq<Outcome>) returns (done: bool, log: seq<Ran>)
    requires s.Valid() && clock.Ticks() && 1 <= clock.Low()
    requires forall i :: 0 <= i < |outcomes| ==> Acceptable(outcomes[i])
    modifies s, clock
    ensures s.Valid() && old(clock.Low()) <= clock.Low()
    ensures InTime(log, old(clock.Low()), clock.Low())
    ensures |log| <= |outcomes| && Traces(old(s.Model()), log, outcomes)
    ensures done ==> s.Model() == AfterRuns(old(s.Model()), log, outcomes)
    ensures Stands(log)
    ensures !done && |log| < |outcomes| ==> TooLate(AfterRuns(old(s.Model()), log, outcomes), outcomes[|log|])
    ensures done ==> s.Model().tasks == map[] ||
                     (RanEnforce(log) && forall id :: id in s.Model().tasks ==> s.Model().tasks[id].due > clock.Low())
  {
    hide AfterRun, AfterRuns, Traces, RunsFirst, TooLate, InTime, Stands, RanEnforce, IsFirst, Sound, Guards, Scheduled;
    log, done := [], false;
    NoRuns(s.Model(), outcomes);
    NothingRan(clock.Low());
    var processedEnforce := false;
    for i := 0 to |outcomes|
      invariant s.Valid() && clock.Ticks() && old(clock.Low()) <= clock.Low()
      invariant InTime(log, old(clock.Low()), clock.Low())
      invariant |log| == i && Traces(old(s.Model()), log, outcomes)
      invariant s.Model() == AfterRuns(old(s.Model()), log, outcomes)
      invariant processedEnforce <==> RanEnforce(log)
      invariant processedEnforce ==> i > 0 && clock.timeNowSet != 0 && log[|log| - 1].at == clock.Low()
      invariant Stands(log)
    {
      ghost var before := clock.Low();
      var timeLeap := NextTime(s, clock);
      InTimeLater(log, old(clock.Low()), before, clock.Low());
      if processedEnforce {
        var now := clock.TimeNow();
        if timeLeap > now { return true, log; }
      }
      if timeLeap == -1 { return true, log; }
      InTimeLater(log, old(clock.Low()), before, timeLeap);
      var ran := RunFirst(s, clock, timeLeap, outcomes[i]);
      if ran.None? { return; }
      TracesMore(old(s.Model()), log, outcomes, ran.value);
      assert processedEnforce ==> ran.value.at == log[|log| - 1].at;
      log := Logged(log, ran.value, old(clock.Low()));
      if ran.value.id.typ == TYPE_ENFORCE { processedEnforce := true; }
    }
  }

  /** Leaps to a time and runs the first task, unless the date it would be rescheduled for does not fit. */
  method RunFirst(s: Schedule, clock: Clock, timeLeap: int, o: Outcome) returns (ran: Option<Ran>)
    requires s.Valid() && s.Model().tasks != map[] && Acceptable(o) && 1 <= timeLeap <= MAX_DUE
    requires forall id :: IsFirst(s.Model().tasks, id) ==> s.Model().tasks[id].due <= timeLeap
    modifies s, clock
    ensures s.Valid() && clock.timeNowSet == timeLeap
    ensures ran.Some? ==> ran.value.due <= ran.value.at == timeLeap && RunsFirst(old(s.Model()), ran.value)
    ensures ran.Some? ==> s.Model() == AfterRun(old(s.Model()), ran.value, o)
    ensures ran.None? ==> TooLate(old(s.Model()), o)
  {
    hide Performed;
    clock.SetTimeNow(timeLeap);
    var r := s.PopFirst();
    var t := r.value;
    if Rescheduled(s.mem[t], o.result, timeLeap).1 > MAX_DUE { return None; }
    ran := Some(Ran(s.mem[t].id, s.mem[t].due, timeLeap));
    Perform(s, t, o, clock);
  }

  lemma NothingRan(now: int)
    ensures InTime([], now, now) && Stands([]) && !RanEnforce([])
  {
  }

  lemma InTimeLater(log: seq<Ran>, from: int, to: int, later: int)
    requires InTime(log, from, to) && to <= later
    ensures InTime(log, from, later)
  {
  }

  method Logged(log: seq<Ran>, r: Ran, ghost from: int) returns (log': seq<Ran>)
    requires InTime(log, from, r.at) && r.due <= r.at && from <= r.at
    requires Stands(log) && (RanEnforce(log) ==> r.at == log[|log| - 1].at)
    ensures log' == log + [r] && InTime(log', from, r.at) && Stands(log')
    ensures RanEnforce(log) || r.id.typ == TYPE_ENFORCE <==> RanEnforce(log')
  {
    log' := log + [r];
    forall i, j | 0 <= i < j < |log'| && log'[i].id.typ == "enforce" ensures log'[j].at == log'[i].at {
      if j == |log| { assert RanEnforce(log) && (i < |log| - 1 ==> log[|log| - 1].at == log[i].at); }
    }
    if RanEnforce(log') && r.id.typ != TYPE_ENFORCE {
      var i :| 0 <= i < |log'| && log'[i].id.typ == TYPE_ENFORCE;
      assert log'[i] == log[i];
    }
    assert log'[|log|] == r;
    if RanEnforce(log) {
      var i :| 0 <= i < |log| && log[i].id.typ == TYPE_ENFORCE;
      assert log'[i] == log[i];
    }
  }
}
