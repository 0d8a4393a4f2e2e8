/**
 The workers on the scheduler itself (common/scheduler/worker.c:57-75, common/scheduler/task.c:103-143): every critical
 section works on the trees in place, and the whole is a run of the state machine in `SchedulerRuns`.
 */
module Workers {
  import opened Prelude
  import opened TaskModel
  import opened ScheduleSpec
  import Trees
  import opened Schedule
  import opened SchedulerRuns
  import opened PayloadRuns
  import opened TimeLeap

  /** What a worker is doing, and with the task at which address. */
  datatype Local = Free | Asleep | Took(t: Ref) | Runs(t: Ref) | Left(t: Ref, when: int)

  predicate HasTask(l: Local) { l.Took? || l.Runs? || l.Left? }

  /** The worker of the state machine that a worker stands for. */
  ghost predicate Shows(mem: Memory, tasks: seq<Ref>, l: Local, k: Worker) {
    && (HasTask(l) ==> l.t in mem && l.t !in tasks && mem[l.t].id.typ != WHATEVER)
    && match l
       case Free => k == Idle
       case Asleep => k == Waiting
       case Took(t) => k == Popped(mem[t])
       case Runs(t) => k == Running(mem[t])
       case Left(t, when) => k == Returned(mem[t], when) && when <= MAX_DUE
  }

  ghost predicate Apart(a: Local, b: Local) { HasTask(a) && HasTask(b) ==> a.t != b.t }

  /** All workers are shown, and no two have the same task in hand. */
  ghost predicate InHands(mem: Memory, tasks: seq<Ref>, workers: map<WorkerId, Local>, ks: map<WorkerId, Worker>) {
    && workers.Keys == ks.Keys
    && (forall w {:trigger Shows(mem, tasks, workers[w], ks[w])} :: w in workers ==>
          Shows(mem, tasks, workers[w], ks[w]))
    && (forall v, w {:trigger Apart(workers[v], workers[w])} :: v in workers && w in workers && v != w ==>
          Apart(workers[v], workers[w]))
  }

  /** Tasks in hand are left alone, but for those in `but`. */
  ghost predicate Spared(mem: Memory, tasks: seq<Ref>, mem': Memory, tasks': seq<Ref>, but: set<Ref>) {
    forall p :: p in mem && p !in tasks && p !in but ==> p in mem' && p !in tasks' && mem'[p] == mem[p]
  }

  /** One worker goes on with a task that nobody else has in hand, and the tasks of the others are left alone. */
  lemma HandsChange(mem: Memory, tasks: seq<Ref>, mem': Memory, tasks': seq<Ref>, but: set<Ref>,
                    workers: map<WorkerId, Local>, ks: map<WorkerId, Worker>, w: WorkerId, l: Local, k: Worker)
    requires InHands(mem, tasks, workers, ks) && Spared(mem, tasks, mem', tasks', but) && w in workers
    requires Shows(mem', tasks', l, k)
    requires forall v {:trigger Apart(workers[v], l)} :: v in workers && v != w ==>
               Apart(workers[v], l) && (HasTask(workers[v]) ==> workers[v].t !in but)
    ensures InHands(mem', tasks', workers[w := l], ks[w := k])
  {
    var workers', ks' := workers[w := l], ks[w := k];
    forall v | v in workers' ensures Shows(mem', tasks', workers'[v], ks'[v]) {
      if v != w { assert Shows(mem, tasks, workers[v], ks[v]) && Apart(workers[v], l); }
    }
    forall u, v | u in workers' && v in workers' && u != v ensures Apart(workers'[u], workers'[v]) {
      if u != w && v != w {
        assert Apart(workers[u], workers[v]);
      } else {
        assert Apart(workers[if u == w then v else u], l);
      }
    }
  }

  lemma HandsKept(mem: Memory, tasks: seq<Ref>, mem': Memory, tasks': seq<Ref>, workers: map<WorkerId, Local>,
                  ks: map<WorkerId, Worker>)
    requires InHands(mem, tasks, workers, ks) && Spared(mem, tasks, mem', tasks', {})
    ensures InHands(mem', tasks', workers, ks)
  {
    forall v | v in workers ensures Shows(mem', tasks', workers[v], ks[v]) {
      assert Shows(mem, tasks, workers[v], ks[v]);
    }
  }

  /** What is called, and by which worker. */
  datatype Command =
    | Submits(v: View, replace: bool)
    | Pops(w: WorkerId, now: int, leaped: bool)
    | Wakes(w: WorkerId)
    | Begins(w: WorkerId)
    | Finishes(w: WorkerId, result: int, now: int)
    | Completes(w: WorkerId)
    | Flushes
    | PurgesOwner(cls: string, owner: string)
    | Unschedules(typ: string, owner: string)
    | Purges

  /** The worker is in the place for a command. */
  predicate InPlace(workers: map<WorkerId, Local>, c: Command) {
    match c
    case Pops(w, _, _) => w in workers && workers[w].Free?
    case Wakes(w) => w in workers && workers[w].Asleep?
    case Begins(w) => w in workers && workers[w].Took?
    case Finishes(w, _, _) => w in workers && workers[w].Runs?
    case Completes(w) => w in workers && workers[w].Left?
    case _ => true
  }

  /** The steps of the machine that a command may turn out to be. */
  predicate Becomes(c: Command, step: Step) {
    match c
    case Submits(v, replace) => step == Submit(v, replace)
    case Pops(w, now, _) => (step.Pop? && step.w == w && step.now == now) || step == Sleep(w, now)
    case Wakes(w) => step == WakeUp(w)
    case Begins(w) => step == Begin(w)
    case Finishes(w, result, now) => step == Finish(w, result, now)
    case Completes(w) => step == Complete(w)
    case Flushes => step.FlushAll?
    case PurgesOwner(_, _) => step.Destroy?
    case Unschedules(_, _) => step.Unschedule?
    case Purges => step.PurgeAll?
  }

  class Daemon {
    const schedule: Schedule
    ghost const ws: set<WorkerId>
    var workers: map<WorkerId, Local>
    var held: map<Lock, WorkerId>
    ghost var steps: seq<Step>

    /** The state of the machine after the steps so far. */
    ghost function State(): SchedulerRuns.State
      reads this
    {
      After(ws, steps)
    }

    ghost predicate Valid()
      reads this, schedule
    {
      && schedule.Valid() && schedule.Model() == State().s && schedule.numWaiting == State().numWaiting
      && held == State().held && InHands(schedule.mem, schedule.tasks, workers, State().workers)
    }

    constructor (ws: set<WorkerId>)
      ensures Valid() && steps == [] && this.ws == ws && fresh(schedule)
    {
      schedule := new Schedule();
      this.ws := ws;
      workers := map w | w in ws :: Free;
      held := map[];
      steps := [];
    }

    /** Somebody submits a task. */
    method Submit(v: View, replace: bool)
      requires Valid()
      modifies this`steps, schedule
      ensures Valid() && steps == old(steps) + [SchedulerRuns.Submit(v, replace)]
    {
      hide After, InHands, Spared, Trees.Sound, Trees.Guards, Trees.Scheduled, Submitted;
      ghost var mem, tasks := schedule.mem, schedule.tasks;
      AfterMore(ws, steps, SchedulerRuns.Submit(v, replace));
      steps := steps + [SchedulerRuns.Submit(v, replace)];
      if Storable(v) {
        var t := Allocate(schedule, v);
        var ok := schedule.ScheduleTask(t, replace);
        TasksSpared(mem, tasks, schedule.mem, schedule.tasks, {});
        HandsKept(mem, tasks, schedule.mem, schedule.tasks, workers, old(State()).workers);
      }
    }

    /** `schedule_pop_task`: takes the first task if it is due, otherwise goes to sleep. */
    method Pop(w: WorkerId, now: int, leaped: bool) returns (ghost step: Step)
      requires Valid() && w in workers && workers[w].Free?
      modifies this`steps, this`workers, schedule
      ensures Valid() && steps == old(steps) + [step] && w in workers
      ensures if workers[w].Took? then step.Pop? && step.w == w && step.now == now else step == Sleep(w, now)
    {
      hide After, Next, InHands, Shows, Spared, Trees.Sound, Trees.Guards, Trees.Scheduled, IsFirst;
      ghost var st, mem, tasks := State(), schedule.mem, schedule.tasks;
      WorkerShown(mem, tasks, workers, st.workers, w);
      var r, wait := schedule.PopTask(now, leaped);
      ghost var mem', tasks' := schedule.mem, schedule.tasks;
      TasksSpared(mem, tasks, mem', tasks', {});
      var l := Asleep;
      step := Sleep(w, now);
      if r.Some? {
        l := Took(r.value);
        step := SchedulerRuns.Pop(w, mem'[r.value].id, now);
        PopNext(st, w, mem'[r.value].id, now);
      } else {
        SleepNext(st, w, now);
      }
      TakenFromTree(mem, tasks, workers, st.workers, w, l);
      ShowsTaken(mem', tasks', l);
      AfterMore(ws, steps, step);
      HandsChange(mem, tasks, mem', tasks', {}, workers, st.workers, w, l, Next(st, step).workers[w]);
      workers := workers[w := l];
      steps := steps + [step];
    }

    /** The end of the sleep. */
    method WakeUp(w: WorkerId)
      requires Valid() && w in workers && workers[w].Asleep?
      modifies this`steps, this`workers, schedule
      ensures Valid() && steps == old(steps) + [SchedulerRuns.WakeUp(w)] && workers == old(workers)[w := Free]
    {
      hide After, Next, InHands, Shows, Spared, Trees.Sound, Trees.Guards, Trees.Scheduled;
      ghost var st, mem, tasks := State(), schedule.mem, schedule.tasks;
      WorkerShown(mem, tasks, workers, st.workers, w);
      WakeNext(st, w);
      schedule.Wake();
      AfterMore(ws, steps, SchedulerRuns.WakeUp(w));
      TasksSpared(mem, tasks, schedule.mem, schedule.tasks, {});
      TakenFromTree(mem, tasks, workers, st.workers, w, Free);
      ShowsFree(schedule.mem, schedule.tasks);
      HandsChange(mem, tasks, schedule.mem, schedule.tasks, {}, workers, st.workers, w, Free, Idle);
      workers := workers[w := Free];
      steps := steps + [SchedulerRuns.WakeUp(w)];
    }

    /** Takes the lock of the task, unless another worker has it, and enters the callback, if there is one. */
    method Begin(w: WorkerId)
      requires Valid() && w in workers && workers[w].Took?
      modifies this`steps, this`workers, this`held
      ensures Valid() && steps == old(steps) + [SchedulerRuns.Begin(w)] && workers.Keys == old(workers).Keys
    {
      hide After, Next, InHands, Shows, Spared, Trees.Sound, Trees.Guards, Trees.Scheduled;
      ghost var st, mem, tasks := State(), schedule.mem, schedule.tasks;
      WorkerShown(mem, tasks, workers, st.workers, w);
      HeldTask(mem, tasks, workers[w], st.workers[w]);
      var t := workers[w].t;
      var v, l := schedule.mem[t], workers[w];
      BeginNext(st, w);
      AfterMore(ws, steps, SchedulerRuns.Begin(w));
      steps := steps + [SchedulerRuns.Begin(w)];
      if v.callback.None? {
        l := Left(t, SUCCESS);
      } else if v.lock.None? {
        l := Runs(t);
      } else if v.lock.value !in held {
        l := Runs(t);
        held := held[v.lock.value := w];
      }
      ShowsHeld(mem, tasks, l);
      assert Next(st, SchedulerRuns.Begin(w)).workers == st.workers[w := Machine(mem, l)];
      HandsSame(mem, tasks, workers, st.workers, w, l, Machine(mem, l));
      workers := workers[w := l];
    }

    /** The callback returns: the lock is given back and the date to run again is worked out, if it fits. */
    method Finish(w: WorkerId, result: int, now: int)
      requires Valid() && w in workers && workers[w].Runs?
      modifies this`steps, this`workers, this`held, schedule
      ensures Valid() && steps == old(steps) + [SchedulerRuns.Finish(w, result, now)]
      ensures workers.Keys == old(workers).Keys
    {
      hide After, Next, InHands, Shows, Spared, Trees.Sound, Trees.Guards, Trees.Scheduled, Rescheduled;
      ghost var st, mem, tasks := State(), schedule.mem, schedule.tasks;
      WorkerShown(mem, tasks, workers, st.workers, w);
      HeldTask(mem, tasks, workers[w], st.workers[w]);
      var t := workers[w].t;
      var v := schedule.mem[t];
      var (v', when) := Rescheduled(v, result, now);
      RescheduledTask(v, result, now);
      FinishNext(st, w, result, now);
      AfterMore(ws, steps, SchedulerRuns.Finish(w, result, now));
      steps := steps + [SchedulerRuns.Finish(w, result, now)];
      if when <= MAX_DUE {
        Hold(schedule, t, v');
        if v.lock.Some? { held := held - {v.lock.value}; }
        TasksSpared(mem, tasks, schedule.mem, schedule.tasks, {t});
        ShowsHeld(schedule.mem, schedule.tasks, Left(t, when));
        HandsOn(mem, tasks, schedule.mem, schedule.tasks, workers, st.workers, w, Left(t, when), Returned(v', when));
        workers := workers[w := Left(t, when)];
      }
    }

    /** The end of `task_perform`: the task is rescheduled or destroyed. */
    method Complete(w: WorkerId)
      requires Valid() && w in workers && workers[w].Left?
      modifies this`steps, this`workers, schedule
      ensures Valid() && steps == old(steps) + [SchedulerRuns.Complete(w)] && workers == old(workers)[w := Free]
    {
      hide After, Next, InHands, Shows, Spared, Trees.Sound, Trees.Guards, Trees.Scheduled, Submitted;
      ghost var st, mem, tasks := State(), schedule.mem, schedule.tasks;
      WorkerShown(mem, tasks, workers, st.workers, w);
      HeldTask(mem, tasks, workers[w], st.workers[w]);
      var Left(t, when) := workers[w];
      var v := schedule.mem[t];
      CompleteNext(st, w);
      AfterMore(ws, steps, SchedulerRuns.Complete(w));
      steps := steps + [SchedulerRuns.Complete(w)];
      if when >= 0 {
        Hold(schedule, t, v.(due := when));
        var ok := schedule.ScheduleTask(t, v.id.cls == CLASS_ENFORCER);
      } else {
        schedule.Destroy(t);
      }
      TasksSpared(mem, tasks, schedule.mem, schedule.tasks, {t});
      ShowsFree(schedule.mem, schedule.tasks);
      HandsOn(mem, tasks, schedule.mem, schedule.tasks, workers, st.workers, w, Free, Idle);
      workers := workers[w := Free];
    }

    /** `schedule_flush`, while workers have tasks in hand. */
    method Flush(clock: Clock) returns (ghost step: Step)
      requires Valid() && clock.Ticks()
      modifies this`steps, schedule, clock
      ensures Valid() && clock.Ticks() && steps == old(steps) + [step] && step.FlushAll?
    {
      hide After, Next, InHands, Shows, Spared, Trees.Sound, Trees.Guards, Trees.Scheduled, Flushed;
      ghost var st, mem, tasks, from := State(), schedule.mem, schedule.tasks, clock.Low();
      schedule.Flush(clock);
      step := FlushAll(schedule.Model().tasks, from, clock.Low());
      FlushNext(st, step);
      AfterMore(ws, steps, step);
      steps := steps + [step];
      TasksSpared(mem, tasks, schedule.mem, schedule.tasks, {});
      HandsKept(mem, tasks, schedule.mem, schedule.tasks, workers, st.workers);
    }

    /** `schedule_purge_owner`, while workers have tasks in hand. */
    method PurgeOwner(cls: string, owner: string) returns (ghost step: Step)
      requires Valid()
      modifies this`steps, schedule
      ensures Valid() && steps == old(steps) + [step] && step.Destroy?
      ensures step.ids == Matching(old(State()).s.tasks, owner, cls, WHATEVER)
    {
      hide After, Next, InHands, Shows, Spared, Trees.Sound, Trees.Guards, Trees.Scheduled, Enumerates;
      ghost var st, mem, tasks := State(), schedule.mem, schedule.tasks;
      ghost var order := schedule.PurgeOwner(cls, owner);
      step := Destroy(Matching(st.s.tasks, owner, cls, WHATEVER), order);
      DestroyNext(st, step);
      AfterMore(ws, steps, step);
      steps := steps + [step];
      TasksSpared(mem, tasks, schedule.mem, schedule.tasks, {});
      HandsKept(mem, tasks, schedule.mem, schedule.tasks, workers, st.workers);
    }

    /** `schedule_unscheduletask`, while workers have tasks in hand. */
    method UnscheduleMatching(typ: string, owner: string) returns (ghost step: Step)
      requires Valid()
      modifies this`steps, schedule
      ensures Valid() && steps == old(steps) + [step] && step.Unschedule?
      ensures step.ids <= Matching(old(State()).s.tasks, owner, CLASS_SIGNER, typ)
    {
      hide After, Next, InHands, Shows, Spared, Trees.Sound, Trees.Guards, Trees.Scheduled;
      ghost var st, mem, tasks := State(), schedule.mem, schedule.tasks;
      ghost var gone := schedule.UnscheduleMatching(typ, owner);
      step := Unschedule(gone);
      UnscheduleNext(st, step);
      AfterMore(ws, steps, step);
      steps := steps + [step];
      TasksSpared(mem, tasks, schedule.mem, schedule.tasks, {});
      HandsKept(mem, tasks, schedule.mem, schedule.tasks, workers, st.workers);
    }

    /** `schedule_purge`, while workers may have tasks in hand. */
    method Purge() returns (ghost step: Step)
      requires Valid()
      modifies this`steps, schedule
      ensures Valid() && steps == old(steps) + [step] && step.PurgeAll?
    {
      hide After, Next, InHands, Shows, Spared, Trees.Sound, Trees.Guards, Trees.Scheduled, Enumerates;
      ghost var st, mem, tasks := State(), schedule.mem, schedule.tasks;
      ghost var order := schedule.Purge();
      step := PurgeAll(order);
      PurgeNext(st, step);
      AfterMore(ws, steps, step);
      steps := steps + [step];
      TasksSpared(mem, tasks, schedule.mem, schedule.tasks, {});
      HandsKept(mem, tasks, schedule.mem, schedule.tasks, workers, st.workers);
    }

    /** One critical section is one step of the machine; a worker that is not in the place for it does nothing. */
    method Execute(c: Command, clock: Clock) returns (ghost step: Step)
      requires Valid() && clock.Ticks()
      modifies this`steps, this`workers, this`held, schedule, clock
      ensures Valid() && clock.Ticks()
      ensures if InPlace(old(workers), c) then steps == old(steps) + [step] && Becomes(c, step) else steps == old(steps)
    {
      hide InHands, After, Trees.Sound, Trees.Guards, Trees.Scheduled;
      step := PurgeAll([]);
      if !InPlace(workers, c) { return; }
      match c {
        case Submits(v, replace) =>
          Submit(v, replace);
          step := SchedulerRuns.Submit(v, replace);
        case Pops(w, now, leaped) =>
          step := Pop(w, now, leaped);
        case Wakes(w) =>
          WakeUp(w);
          step := SchedulerRuns.WakeUp(w);
        case Begins(w) =>
          Begin(w);
          step := SchedulerRuns.Begin(w);
        case Finishes(w, result, now) =>
          Finish(w, result, now);
          step := SchedulerRuns.Finish(w, result, now);
        case Completes(w) =>
          Complete(w);
          step := SchedulerRuns.Complete(w);
        case Flushes =>
          step := Flush(clock);
        case PurgesOwner(cls, owner) =>
          step := PurgeOwner(cls, owner);
        case Unschedules(typ, owner) =>
          step := UnscheduleMatching(typ, owner);
        case Purges =>
          step := Purge();
      }
    }

    /**
     Any interleaving of critical sections on the trees is a run of the state machine: the trees stand
     for its schedule, and the workers for its workers, at the end and, as this holds of every list of
     commands, all along.
     */
    method Run(cs: seq<Command>, clock: Clock)
      requires Valid() && clock.Ticks()
      modifies this`steps, this`workers, this`held, schedule, clock
      ensures Valid() && clock.Ticks() && old(steps) <= steps
    {
      for i := 0 to |cs|
        invariant Valid() && clock.Ticks() && old(steps) <= steps
      {
        ghost var step := Execute(cs[i], clock);
      }
    }

    /** On the trees, too, two workers never run callbacks of one owner and class at the same time. */
    lemma Excludes(d: Discipline, v: WorkerId, w: WorkerId)
      requires Valid() && Orderly(d) && Follows(d, ws, steps)
      requires v in workers && w in workers && v != w && workers[v].Runs? && workers[w].Runs?
      ensures workers[v].t in schedule.mem && workers[w].t in schedule.mem
      ensures ResourceOf(schedule.mem[workers[v].t].id) != ResourceOf(schedule.mem[workers[w].t].id)
    {
      hide After, Follows, Orderly;
      WorkerShown(schedule.mem, schedule.tasks, workers, State().workers, v);
      WorkerShown(schedule.mem, schedule.tasks, workers, State().workers, w);
      MutualExclusion(d, ws, steps, v, w);
    }

    /** The payloads freed so far, each of them once, are those of no task in a tree or in a worker's hands. */
    lemma FreesSafely(t: Ref)
      requires Valid() && OwnedOnce(Submissions(steps))
      requires t in schedule.tasks || exists w :: w in workers && HasTask(workers[w]) && workers[w].t == t
      ensures NoRepeats(schedule.released) && t in schedule.mem
      ensures schedule.mem[t].userdata.Some? ==> schedule.mem[t].userdata.value !in schedule.released
    {
      hide After, OwnedOnce, Submissions;
      var st := State();
      PayloadsAreSafe(ws, steps);
      if t in schedule.tasks {
        Trees.Agree(schedule.mem, schedule.tasks, schedule.tasksByName, schedule.where, t);
        assert TaskIn(st, Tree(schedule.mem[t].id)) == Some(schedule.mem[t]);
      } else {
        var w :| w in workers && HasTask(workers[w]) && workers[w].t == t;
        WorkerShown(schedule.mem, schedule.tasks, workers, st.workers, w);
        assert TaskIn(st, Hand(w)) == Some(schedule.mem[t]);
      }
    }
  }

  // ----- the steps of the machine -----

  lemma PopNext(st: SchedulerRuns.State, w: WorkerId, id: TTuple, now: int)
    requires w in st.workers && st.workers[w].Idle? && IsFirst(st.s.tasks, id) && st.s.tasks[id].due <= now
    ensures var st' := Next(st, SchedulerRuns.Pop(w, id, now));
            && st'.s == Removed(st.s, {id}) && st'.workers == st.workers[w := Popped(st.s.tasks[id])]
            && st'.held == st.held && st'.numWaiting == st.numWaiting
  {
  }

  lemma SleepNext(st: SchedulerRuns.State, w: WorkerId, now: int)
    requires w in st.workers && st.workers[w].Idle? && forall id :: id in st.s.tasks ==> st.s.tasks[id].due > now
    ensures Next(st, Sleep(w, now)) == st.(workers := st.workers[w := Waiting], numWaiting := st.numWaiting + 1)
  {
  }

  lemma WakeNext(st: SchedulerRuns.State, w: WorkerId)
    requires w in st.workers && st.workers[w].Waiting?
    ensures Next(st, SchedulerRuns.WakeUp(w))
         == st.(workers := st.workers[w := Idle], numWaiting := st.numWaiting - 1)
  {
  }

  lemma BeginNext(st: SchedulerRuns.State, w: WorkerId)
    requires w in st.workers && st.workers[w].Popped?
    ensures var v, st' := st.workers[w].v, Next(st, SchedulerRuns.Begin(w));
            if v.callback.None? then st' == st.(workers := st.workers[w := Returned(v, SUCCESS)])
            else if v.lock.None? then st' == st.(workers := st.workers[w := Running(v)])
            else if v.lock.value in st.held then st' == st
            else st' == st.(workers := st.workers[w := Running(v)], held := st.held[v.lock.value := w])
  {
  }

  lemma FinishNext(st: SchedulerRuns.State, w: WorkerId, result: int, now: int)
    requires w in st.workers && st.workers[w].Running?
    ensures var v, st' := st.workers[w].v, Next(st, SchedulerRuns.Finish(w, result, now));
            var (v', when) := Rescheduled(v, result, now);
            if when > MAX_DUE then st' == st
            else st' == st.(workers := st.workers[w := Returned(v', when)],
                            held := if v.lock.None? then st.held else st.held - {v.lock.value})
  {
  }

  lemma RescheduledTask(v: View, result: int, now: int)
    ensures Rescheduled(v, result, now).0.id == v.id
  {
  }

  lemma CompleteNext(st: SchedulerRuns.State, w: WorkerId)
    requires w in st.workers && st.workers[w].Returned?
    ensures var Returned(v, when) := st.workers[w];
            var st' := Next(st, SchedulerRuns.Complete(w));
            && st'.workers == st.workers[w := Idle] && st'.held == st.held && st'.numWaiting == st.numWaiting
            && st'.s == if when >= 0 then Submitted(st.s, v.(due := when), v.id.cls == CLASS_ENFORCER).0
                        else st.s.(released := st.s.released + Released(v))
  {
  }

  ghost predicate OnlySchedule(st: SchedulerRuns.State, st': SchedulerRuns.State) {
    st'.workers == st.workers && st'.held == st.held && st'.numWaiting == st.numWaiting
  }

  lemma FlushNext(st: SchedulerRuns.State, step: Step)
    requires step.FlushAll? && 0 <= step.from && step.to <= MAX_DUE
    requires Flushed(st.s.tasks, step.tasks, step.from, step.to)
    ensures OnlySchedule(st, Next(st, step)) && Next(st, step).s == st.s.(tasks := step.tasks)
  {
  }

  lemma DestroyNext(st: SchedulerRuns.State, step: Step)
    requires step.Destroy? && step.ids <= st.s.tasks.Keys && Enumerates(step.order, step.ids)
    ensures OnlySchedule(st, Next(st, step)) && Next(st, step).s == Destroyed(st.s, step.ids, step.order)
  {
  }

  lemma UnscheduleNext(st: SchedulerRuns.State, step: Step)
    requires step.Unschedule? && step.ids <= st.s.tasks.Keys
    ensures OnlySchedule(st, Next(st, step)) && Next(st, step).s == Removed(st.s, step.ids)
  {
  }

  lemma PurgeNext(st: SchedulerRuns.State, step: Step)
    requires step.PurgeAll? && Enumerates(step.order, st.s.tasks.Keys)
    ensures OnlySchedule(st, Next(st, step))
    ensures Next(st, step).s == Destroyed(st.s, st.s.tasks.Keys, step.order).(locks := map[])
  {
  }

  // ----- tasks in hand -----

  /** The worker of the machine that a worker with a task in hand stands for. */
  ghost function Machine(mem: Memory, l: Local): Worker
    requires HasTask(l) && l.t in mem
  {
    match l
    case Took(t) => Popped(mem[t])
    case Runs(t) => Running(mem[t])
    case Left(t, when) => Returned(mem[t], when)
  }

  lemma HeldTask(mem: Memory, tasks: seq<Ref>, l: Local, k: Worker)
    requires Shows(mem, tasks, l, k) && HasTask(l)
    ensures l.t in mem && l.t !in tasks && mem[l.t].id.typ != WHATEVER && k == Machine(mem, l)
    ensures l.Left? ==> l.when <= MAX_DUE
  {
  }

  lemma ShowsHeld(mem: Memory, tasks: seq<Ref>, l: Local)
    requires HasTask(l) && l.t in mem && l.t !in tasks && mem[l.t].id.typ != WHATEVER && (l.Left? ==> l.when <= MAX_DUE)
    ensures Shows(mem, tasks, l, Machine(mem, l))
  {
  }

  lemma ShowsFree(mem: Memory, tasks: seq<Ref>)
    ensures Shows(mem, tasks, Free, Idle)
  {
  }

  /** A worker goes on with the task it has in hand, which may change or go; nothing else does. */
  lemma HandsOn(mem: Memory, tasks: seq<Ref>, mem': Memory, tasks': seq<Ref>, workers: map<WorkerId, Local>,
                ks: map<WorkerId, Worker>, w: WorkerId, l: Local, k: Worker)
    requires InHands(mem, tasks, workers, ks) && w in workers && HasTask(workers[w])
    requires HasTask(l) ==> l.t == workers[w].t
    requires Spared(mem, tasks, mem', tasks', {workers[w].t}) && Shows(mem', tasks', l, k)
    ensures InHands(mem', tasks', workers[w := l], ks[w := k])
  {
    forall v | v in workers && v != w
      ensures Apart(workers[v], l) && (HasTask(workers[v]) ==> workers[v].t !in {workers[w].t})
    {
      assert Apart(workers[v], workers[w]);
    }
    HandsChange(mem, tasks, mem', tasks', {workers[w].t}, workers, ks, w, l, k);
  }

  lemma HandsSame(mem: Memory, tasks: seq<Ref>, workers: map<WorkerId, Local>, ks: map<WorkerId, Worker>, w: WorkerId,
                  l: Local, k: Worker)
    requires InHands(mem, tasks, workers, ks) && w in workers && HasTask(workers[w])
    requires HasTask(l) && l.t == workers[w].t && Shows(mem, tasks, l, k)
    ensures InHands(mem, tasks, workers[w := l], ks[w := k])
  {
    HandsOn(mem, tasks, mem, tasks, workers, ks, w, l, k);
  }

  lemma ShowsTaken(mem: Memory, tasks: seq<Ref>, l: Local)
    requires l.Asleep? || (l.Took? && l.t in mem && l.t !in tasks && mem[l.t].id.typ != WHATEVER)
    ensures Shows(mem, tasks, l, if l.Asleep? then Waiting else Popped(mem[l.t]))
  {
  }

  lemma WorkerShown(mem: Memory, tasks: seq<Ref>, workers: map<WorkerId, Local>, ks: map<WorkerId, Worker>, w: WorkerId)
    requires InHands(mem, tasks, workers, ks) && w in workers
    ensures w in ks && Shows(mem, tasks, workers[w], ks[w])
    ensures workers[w].Free? ==> ks[w].Idle?
    ensures workers[w].Asleep? ==> ks[w].Waiting?
  {
  }

  lemma TasksSpared(mem: Memory, tasks: seq<Ref>, mem': Memory, tasks': seq<Ref>, but: set<Ref>)
    requires forall p :: p in mem && p !in tasks && p !in but ==> p in mem' && p !in tasks' && mem'[p] == mem[p]
    ensures Spared(mem, tasks, mem', tasks', but)
  {
  }

  /** A task that comes out of the trees is in nobody's hands. */
  lemma TakenFromTree(mem: Memory, tasks: seq<Ref>, workers: map<WorkerId, Local>, ks: map<WorkerId, Worker>,
                      w: WorkerId, l: Local)
    requires InHands(mem, tasks, workers, ks) && (HasTask(l) ==> l.t in tasks)
    ensures forall v {:trigger Apart(workers[v], l)} :: v in workers && v != w ==> Apart(workers[v], l)
  {
    forall v | v in workers && v != w ensures Apart(workers[v], l) { assert Shows(mem, tasks, workers[v], ks[v]); }
  }
}
