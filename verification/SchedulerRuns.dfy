/**
 Runs of the scheduler with any number of workers (common/scheduler/worker.c, common/scheduler/task.c:103-143).

 Every operation holds the schedule lock, so it is one atomic step. A worker pops a task, takes the
 lock of the task, runs the callback, gives the lock back, and reschedules or destroys the task.
 */
module SchedulerRuns {
  import opened Prelude
  import opened TaskModel
  import opened ScheduleSpec
  import opened Schedule

  const PROMPTLY := 1
  const IMMEDIATELY := 0
  const SUCCESS := -1
  const DEFER := -2

  type WorkerId = nat

  datatype Worker =
    | Idle
    | Waiting
    | Popped(v: View)
    | Running(v: View)
    | Returned(v: View, when: int)

  /**
   `owned` and `borrowed` are the payloads ever submitted, with a free function and without one;
   `history` lists the submissions that made a scheduled task, unless it was flushed.
   */
  datatype State = State(s: Sched, workers: map<WorkerId, Worker>, held: map<Lock, WorkerId>, numWaiting: int,
                         owned: set<Payload>, borrowed: set<Payload>, history: map<TTuple, seq<View>>)

  datatype Step =
    | Submit(v: View, replace: bool)
    | Pop(w: WorkerId, id: TTuple, now: int)
    | Sleep(w: WorkerId, now: int)
    | WakeUp(w: WorkerId)
    | Begin(w: WorkerId)
    | Finish(w: WorkerId, result: int, now: int)
    | Complete(w: WorkerId)
    | FlushAll(tasks: map<TTuple, View>, from: int, to: int)
    | Destroy(ids: set<TTuple>, order: seq<TTuple>)
    | Unschedule(ids: set<TTuple>)
    | PurgeAll(order: seq<TTuple>)

  function Initial(ws: set<WorkerId>): State {
    State(EMPTY, map w | w in ws :: Idle, map[], 0, {}, {}, map[])
  }

  function OwnedSet(v: View): set<Payload> {
    if Owned(v).Some? then {Owned(v).value} else {}
  }

  function BorrowedSet(v: View): set<Payload> {
    if v.freedata.None? && v.userdata.Some? then {v.userdata.value} else {}
  }

  /** The submissions behind the scheduled tasks, after a submission. */
  function Recorded(st: State, v: View, replace: bool): map<TTuple, seq<View>> {
    if v.id !in st.s.tasks then st.history[v.id := [Enter(st.s, v).tasks[v.id]]]
    else if replace && v.id in st.history then st.history[v.id := st.history[v.id] + [v]]
    else st.history
  }

  function Submission(st: State, v: View, replace: bool): State {
    st.(s := Submitted(st.s, v, replace).0, history := Recorded(st, v, replace))
  }

  /** The moment `task_perform` reschedules a task for, and the back-off it leaves in the task. */
  function Rescheduled(v: View, result: int, now: int): (View, int) {
    if result == PROMPTLY then (v, now)
    else if result == IMMEDIATELY then (v, 0)
    else if result == DEFER then
      var b := Clamp(v.backoff * 2, 60, MAX_BACKOFF);
      (v.(backoff := b), now + b)
    else (v, result)
  }

  function Power2(n: nat): nat { if n == 0 then 1 else 2 * Power2(n - 1) }

  /** The task after its callback has asked `n` times in a row to be deferred. */
  function Deferred(v: View, n: nat): View {
    if n == 0 then v else Rescheduled(Deferred(v, n - 1), DEFER, 0).0
  }

  /** The delay doubles from one minute up to one hour, and the task waits exactly that long. */
  lemma {:induction false} BackoffDoubles(v: View, n: nat, now: int)
    requires v.backoff == 0
    ensures Deferred(v, n) == v.(backoff := if n == 0 then 0 else Min(60 * Power2(n - 1), MAX_BACKOFF))
    ensures Rescheduled(Deferred(v, n), DEFER, now).1 == now + Min(60 * Power2(n), MAX_BACKOFF)
  {
    if n > 0 { BackoffDoubles(v, n - 1, now); }
  }

  /** The delay a task is deferred for, twice the last one but between a minute and an hour. */
  ghost predicate Delays(before: int, after: int) {
    && 60 <= after <= 3600
    && (after == 2 * before || (after == 60 && 2 * before < 60) || (after == 3600 && 2 * before > 3600))
  }

  /**
   What becomes of a task that returned `result` at the time `now`: `m` is the schedule before it is
   rescheduled or destroyed, and `m'` after.
   */
  ghost predicate Carried(m: Sched, m': Sched, v: View, result: int, now: int) {
    && (result == -1 || result < -2 ==>
          m' == m.(released := m.released + Handed(v.userdata, v.freedata)))
    && (result >= -2 && result != -1 && v.id !in m.tasks ==>
          && m'.tasks.Keys == m.tasks.Keys + {v.id} && m'.released == m.released
          && var n := m'.tasks[v.id];
             && (result >= 2 ==> n.due == result) && (result == 1 ==> n.due == now) && (result == 0 ==> n.due == 0)
             && (result == -2 ==> n.due == now + n.backoff && Delays(v.backoff, n.backoff))
             && (result >= 0 ==> n.backoff == v.backoff)
             && n.callback == v.callback && n.userdata == v.userdata && n.freedata == v.freedata
             && (v.lock.Some? ==> n.lock == v.lock))
    && (result >= -2 && result != -1 && v.id in m.tasks && v.id.cls != "enforcer" ==> m' == m)
    && (result >= -2 && result != -1 && v.id in m.tasks && v.id.cls == "enforcer" ==>
          && m'.tasks.Keys == m.tasks.Keys
          && var e, n := m.tasks[v.id], m'.tasks[v.id];
             && m'.released == m.released + Handed(e.userdata, e.freedata)
             && n.due <= e.due && n.userdata == v.userdata && n.freedata == v.freedata
             && (result >= 2 ==> n.due <= result && (n.due == result || n.due == e.due))
             && (result == 1 ==> n.due <= now && (n.due == now || n.due == e.due))
             && (result == 0 ==> n.due <= 0 && (n.due == 0 || n.due == e.due))
             && (result == -2 ==> n.due == e.due || Delays(v.backoff, n.due - now)))
    && (forall id :: id in m.tasks && id != v.id ==> id in m'.tasks && m'.tasks[id] == m.tasks[id])
  }

  predicate InFlight(w: Worker) {
    w.Popped? || w.Running? || w.Returned?
  }

  ghost predicate Enabled(st: State, step: Step) {
    match step
    case Submit(v, replace) => Storable(v)
    case Pop(w, id, now) =>
      w in st.workers && st.workers[w].Idle? && IsFirst(st.s.tasks, id) && st.s.tasks[id].due <= now
    case Sleep(w, now) =>
      w in st.workers && st.workers[w].Idle? && forall id :: id in st.s.tasks ==> st.s.tasks[id].due > now
    case WakeUp(w) => w in st.workers && st.workers[w].Waiting?
    case Begin(w) =>
      w in st.workers && st.workers[w].Popped? &&
      (st.workers[w].v.callback.Some? && st.workers[w].v.lock.Some? ==> st.workers[w].v.lock.value !in st.held)
    case Finish(w, result, now) =>
      w in st.workers && st.workers[w].Running? && Rescheduled(st.workers[w].v, result, now).1 <= MAX_DUE
    case Complete(w) => w in st.workers && st.workers[w].Returned?
    case FlushAll(tasks, from, to) => Flushed(st.s.tasks, tasks, from, to) && 0 <= from && to <= MAX_DUE
    case Destroy(ids, order) => ids <= st.s.tasks.Keys && Enumerates(order, ids)
    case Unschedule(ids) => ids <= st.s.tasks.Keys
    case PurgeAll(order) => Enumerates(order, st.s.tasks.Keys)
  }

  /** The state after a step; a step that is not possible does not happen. */
  ghost function Next(st: State, step: Step): State {
    if !Enabled(st, step) then st else
    match step
    case Submit(v, replace) =>
      Submission(st, v, replace).(owned := st.owned + OwnedSet(v), borrowed := st.borrowed + BorrowedSet(v))
    case Pop(w, id, now) =>
      st.(s := Removed(st.s, {id}), workers := st.workers[w := Popped(st.s.tasks[id])], history := st.history - {id})
    case Sleep(w, now) => st.(workers := st.workers[w := Waiting], numWaiting := st.numWaiting + 1)
    case WakeUp(w) => st.(workers := st.workers[w := Idle], numWaiting := st.numWaiting - 1)
    case Begin(w) =>
      var v := st.workers[w].v;
      if v.callback.None? then st.(workers := st.workers[w := Returned(v, SUCCESS)])
      else if v.lock.None? then st.(workers := st.workers[w := Running(v)])
      else st.(workers := st.workers[w := Running(v)], held := st.held[v.lock.value := w])
    case Finish(w, result, now) =>
      var v := st.workers[w].v;
      var (v', when) := Rescheduled(v, result, now);
      var st' := st.(workers := st.workers[w := Returned(v', when)]);
      if v.lock.None? then st' else st'.(held := st.held - {v.lock.value})
    case Complete(w) =>
      var Returned(v, when) := st.workers[w];
      var st' := st.(workers := st.workers[w := Idle]);
      if when >= 0 then Submission(st', v.(due := when), v.id.cls == CLASS_ENFORCER)
      else st'.(s := st.s.(released := st.s.released + Released(v)))
    case FlushAll(tasks, from, to) => st.(s := st.s.(tasks := tasks), history := map[])
    case Destroy(ids, order) => st.(s := Destroyed(st.s, ids, order), history := st.history - ids)
    case Unschedule(ids) => st.(s := Removed(st.s, ids), history := st.history - ids)
    case PurgeAll(order) =>
      st.(s := Destroyed(st.s, st.s.tasks.Keys, order).(locks := map[]), history := map[])
  }

  /** The state after a run. */
  ghost function After(ws: set<WorkerId>, steps: seq<Step>): State {
    if steps == [] then Initial(ws) else Next(After(ws, steps[..|steps| - 1]), steps[|steps| - 1])
  }

  // ----- at most one callback per (owner, class) -----

  /**
   What callers may do: submit tuples, each with a lock of the caller's or without one, and purge,
   only while no task is in flight or at any time.
   */
  datatype Discipline = Discipline(submits: iset<(TTuple, Option<nat>)>, purgesBusy: bool)

  function HandedIn(l: Option<nat>): Option<Lock> { if l.Some? then Some(Given(l.value)) else None }

  ghost predicate Permitted(d: Discipline, v: View) {
    exists l :: (v.id, l) in d.submits && v.lock == HandedIn(l)
  }

  ghost predicate AtRest(st: State) {
    forall w :: w in st.workers ==> !InFlight(st.workers[w])
  }

  ghost predicate Allowed(d: Discipline, st: State, step: Step) {
    && (step.Submit? ==> Permitted(d, step.v))
    && (step.PurgeAll? ==> d.purgesBusy || AtRest(st))
  }

  /** Every submission and every purge of a run is one that callers may make. */
  ghost predicate Follows(d: Discipline, ws: set<WorkerId>, steps: seq<Step>) {
    steps != [] ==>
      && Follows(d, ws, steps[..|steps| - 1])
      && Allowed(d, After(ws, steps[..|steps| - 1]), steps[|steps| - 1])
  }

  ghost predicate Agreed(x: TTuple, k: Option<nat>, y: TTuple, l: Option<nat>) {
    x.typ != WHATEVER && y.typ != WHATEVER && ResourceOf(x) == ResourceOf(y) ==> k == l
  }

  /** All tasks of one (owner, class) come with the same lock, or all of them without one. */
  ghost predicate Consistent(d: Discipline) {
    forall x, k, y, l :: (x, k) in d.submits && (y, l) in d.submits ==> Agreed(x, k, y, l)
  }

  /** Every task that can be scheduled comes with a lock. */
  ghost predicate AlwaysLocked(d: Discipline) {
    forall x :: (x, None) in d.submits ==> x.typ == WHATEVER
  }

  /** One lock per (owner, class), which no purge takes away from a task in flight. */
  ghost predicate Orderly(d: Discipline) {
    Consistent(d) && (d.purgesBusy ==> AlwaysLocked(d))
  }

  /** The lock that callers use for each resource, if they use one. */
  type Owners = Resource -> Option<Lock>

  ghost predicate Owns(d: Discipline, r: Resource, x: TTuple, k: nat) {
    (x, Some(k)) in d.submits && x.typ != WHATEVER && ResourceOf(x) == r
  }

  /** Where every task comes with a lock, a resource without tasks may count as having one. */
  ghost function OwnersOf(d: Discipline): Owners {
    r => if exists x, k :: Owns(d, r, x, k) then var x, k :| Owns(d, r, x, k); Some(Given(k))
         else if AlwaysLocked(d) then Some(Given(0)) else None
  }

  lemma PermittedLock(d: Discipline, v: View)
    requires Consistent(d) && Permitted(d, v) && v.id.typ != WHATEVER
    ensures v.lock == OwnersOf(d)(ResourceOf(v.id))
  {
    var r := ResourceOf(v.id);
    var l :| (v.id, l) in d.submits && v.lock == HandedIn(l);
    if l.Some? { assert Owns(d, r, v.id, l.value); }
    if exists x, k :: Owns(d, r, x, k) {
      var x, k :| Owns(d, r, x, k) && OwnersOf(d)(r) == Some(Given(k));
      assert Agreed(x, Some(k), v.id, l);
    }
  }

  lemma AllOwned(d: Discipline)
    requires AlwaysLocked(d)
    ensures forall r :: OwnersOf(d)(r).Some?
  {
  }

  /** The task carries the one lock of its resource. */
  ghost predicate Locked(own: Owners, locks: map<Resource, Lock>, v: View) {
    var r := ResourceOf(v.id);
    if own(r).Some? then v.lock == own(r) else r in locks && v.lock == Some(locks[r])
  }

  ghost predicate TasksLocked(own: Owners, s: Sched) {
    forall id :: id in s.tasks ==> s.tasks[id].id == id && Storable(s.tasks[id]) && Locked(own, s.locks, s.tasks[id])
  }

  /** What a worker with a task in hand relies on; one that runs a callback holds the lock. */
  ghost predicate WorkerLocked(own: Owners, locks: map<Resource, Lock>, held: map<Lock, WorkerId>, w: WorkerId,
      k: Worker)
  {
    InFlight(k) ==>
      && Locked(own, locks, k.v) && k.v.id.typ != WHATEVER
      && (k.Running? ==> k.v.lock.value in held && held[k.v.lock.value] == w)
      && (k.Returned? ==> k.when <= MAX_DUE)
  }

  ghost predicate WorkersLocked(own: Owners, locks: map<Resource, Lock>, held: map<Lock, WorkerId>,
      workers: map<WorkerId, Worker>)
  {
    forall w :: w in workers ==> WorkerLocked(own, locks, held, w, workers[w])
  }

  ghost predicate LockInv(own: Owners, st: State) {
    TasksLocked(own, st.s) && WorkersLocked(own, st.s.locks, st.held, st.workers)
  }

  lemma SubmissionKeepsLocks(own: Owners, s: Sched, v: View, replace: bool)
    requires TasksLocked(own, s) && Storable(v)
    requires v.lock == own(ResourceOf(v.id)) || Locked(own, s.locks, v)
    ensures TasksLocked(own, Submitted(s, v, replace).0)
    ensures forall r :: r in s.locks ==>
              r in Submitted(s, v, replace).0.locks && Submitted(s, v, replace).0.locks[r] == s.locks[r]
  {
  }

  lemma SubmitKeepsLocks(own: Owners, st: State, step: Step)
    requires LockInv(own, st) && step.Submit? && (Storable(step.v) ==> step.v.lock == own(ResourceOf(step.v.id)))
    ensures LockInv(own, Next(st, step))
  {
    if Enabled(st, step) { SubmissionKeepsLocks(own, st.s, step.v, step.replace); }
  }

  lemma CompleteKeepsLocks(own: Owners, st: State, step: Step)
    requires LockInv(own, st) && step.Complete?
    ensures LockInv(own, Next(st, step))
  {
    if Enabled(st, step) {
      var k := st.workers[step.w];
      assert WorkerLocked(own, st.s.locks, st.held, step.w, k);
      if k.when >= 0 { SubmissionKeepsLocks(own, st.s, k.v.(due := k.when), k.v.id.cls == CLASS_ENFORCER); }
    }
  }

  lemma WorkerKeepsLocks(own: Owners, st: State, step: Step)
    requires LockInv(own, st) && (step.Pop? || step.Sleep? || step.WakeUp? || step.Begin? || step.Finish?)
    ensures LockInv(own, Next(st, step))
  {
    if Enabled(st, step) {
      assert WorkerLocked(own, st.s.locks, st.held, step.w, st.workers[step.w]);
    }
  }

  lemma TreesKeepLocks(own: Owners, st: State, step: Step)
    requires LockInv(own, st) && (step.FlushAll? || step.Destroy? || step.Unschedule? || step.PurgeAll?)
    requires step.PurgeAll? ==> (forall r :: own(r).Some?) || AtRest(st)
    ensures LockInv(own, Next(st, step))
  {
  }

  lemma StepKeepsLocks(own: Owners, st: State, step: Step)
    requires LockInv(own, st) && (step.Submit? && Storable(step.v) ==> step.v.lock == own(ResourceOf(step.v.id)))
    requires step.PurgeAll? ==> (forall r :: own(r).Some?) || AtRest(st)
    ensures LockInv(own, Next(st, step))
  {
    match step
    case Submit(_, _) => SubmitKeepsLocks(own, st, step);
    case Complete(_) => CompleteKeepsLocks(own, st, step);
    case FlushAll(_, _, _) => TreesKeepLocks(own, st, step);
    case Destroy(_, _) => TreesKeepLocks(own, st, step);
    case Unschedule(_) => TreesKeepLocks(own, st, step);
    case PurgeAll(_) => TreesKeepLocks(own, st, step);
    case _ => WorkerKeepsLocks(own, st, step);
  }

  lemma {:induction false} RunKeepsLocks(d: Discipline, ws: set<WorkerId>, steps: seq<Step>)
    requires Orderly(d) && Follows(d, ws, steps)
    ensures LockInv(OwnersOf(d), After(ws, steps))
  {
    hide OwnersOf;
    if steps != [] {
      var st, step := After(ws, steps[..|steps| - 1]), steps[|steps| - 1];
      RunKeepsLocks(d, ws, steps[..|steps| - 1]);
      if step.Submit? && Storable(step.v) { PermittedLock(d, step.v); }
      if d.purgesBusy { AllOwned(d); }
      StepKeepsLocks(OwnersOf(d), st, step);
    }
  }

  /** Two workers run callbacks of one owner and class. */
  ghost predicate Collide(st: State, w1: WorkerId, w2: WorkerId) {
    && w1 != w2 && w1 in st.workers && w2 in st.workers && st.workers[w1].Running? && st.workers[w2].Running?
    && ResourceOf(st.workers[w1].v.id) == ResourceOf(st.workers[w2].v.id)
  }

  /** In every run, two workers never run callbacks of one owner and class at the same time. */
  lemma MutualExclusion(d: Discipline, ws: set<WorkerId>, steps: seq<Step>, w1: WorkerId, w2: WorkerId)
    requires Orderly(d) && Follows(d, ws, steps)
    ensures !Collide(After(ws, steps), w1, w2)
  {
    hide OwnersOf;
    RunKeepsLocks(d, ws, steps);
  }

  // ----- and that is exactly what is needed -----

  /** A task that is due at once, with a callback. */
  function Ready(id: TTuple, l: Option<Lock>): View { View(id, 0, Some(0), None, None, l, 0) }

  /** The lock that a submission to an empty schedule ends up with. */
  function Received(st: State, id: TTuple, l: Option<nat>): Lock {
    if l.Some? then Given(l.value)
    else if ResourceOf(id) in st.s.locks then st.s.locks[ResourceOf(id)] else Allocated(st.s.nextLock)
  }

  lemma Starts(ws: set<WorkerId>)
    ensures After(ws, []) == Initial(ws)
  {
  }

  /** A task is submitted to an empty schedule and an idle worker pops it. */
  lemma PopOne(ws: set<WorkerId>, steps: seq<Step>, id: TTuple, l: Option<nat>, w: WorkerId) returns (more: seq<Step>)
    requires After(ws, steps).s.tasks == map[] && id.typ != WHATEVER
    requires w in After(ws, steps).workers && After(ws, steps).workers[w].Idle?
    ensures more == steps + [Submit(Ready(id, HandedIn(l)), false)] + [Pop(w, id, 0)]
    ensures var st, st' := After(ws, steps), After(ws, more);
            && st'.s.tasks == map[] && st'.held == st.held && (l.Some? ==> st'.s.locks == st.s.locks)
            && (l.None? && ResourceOf(id) !in st.s.locks ==> st'.s.nextLock == st.s.nextLock + 1)
            && st'.workers == st.workers[w := Popped(Ready(id, Some(Received(st, id, l))))]
  {
    var st := After(ws, steps);
    more := AddStep(ws, steps, Submit(Ready(id, HandedIn(l)), false));
    assert After(ws, more).s.tasks == map[id := Ready(id, Some(Received(st, id, l)))];
    more := AddStep(ws, more, Pop(w, id, 0));
  }

  lemma FollowsMore(d: Discipline, ws: set<WorkerId>, steps: seq<Step>, step: Step)
    requires Follows(d, ws, steps) && Allowed(d, After(ws, steps), step)
    ensures Follows(d, ws, steps + [step])
  {
    assert (steps + [step])[..|steps|] == steps;
  }

  /** One task that callers may submit is in the hands of a worker. */
  lemma PopPermitted(d: Discipline, steps: seq<Step>, id: TTuple, l: Option<nat>, w: WorkerId)
      returns (more: seq<Step>)
    requires Follows(d, {1, 2}, steps) && After({1, 2}, steps).s.tasks == map[] && id.typ != WHATEVER
    requires w in After({1, 2}, steps).workers && After({1, 2}, steps).workers[w].Idle? && (id, l) in d.submits
    ensures Follows(d, {1, 2}, more)
    ensures var st, st' := After({1, 2}, steps), After({1, 2}, more);
            && st'.s.tasks == map[] && st'.held == st.held && (l.Some? ==> st'.s.locks == st.s.locks)
            && (l.None? && ResourceOf(id) !in st.s.locks ==> st'.s.nextLock == st.s.nextLock + 1)
            && st'.workers == st.workers[w := Popped(Ready(id, Some(Received(st, id, l))))]
  {
    hide After, Next, Follows;
    more := PopOne({1, 2}, steps, id, l, w);
    assert Permitted(d, Ready(id, HandedIn(l)));
    FollowsMore(d, {1, 2}, steps, Submit(Ready(id, HandedIn(l)), false));
    FollowsMore(d, {1, 2}, steps + [Submit(Ready(id, HandedIn(l)), false)], Pop(w, id, 0));
  }

  /** A callback begins, if nobody holds the lock of its task. */
  lemma BeginOne(d: Discipline, steps: seq<Step>, w: WorkerId, x: TTuple, a: Lock) returns (more: seq<Step>)
    requires Follows(d, {1, 2}, steps)
    requires var st := After({1, 2}, steps);
             w in st.workers && st.workers[w] == Popped(Ready(x, Some(a))) && a !in st.held
    ensures Follows(d, {1, 2}, more)
    ensures var st, st' := After({1, 2}, steps), After({1, 2}, more);
            st'.s == st.s && st'.workers == st.workers[w := Running(Ready(x, Some(a)))] && st'.held == st.held[a := w]
  {
    hide After, Follows;
    FollowsMore(d, {1, 2}, steps, Begin(w));
    more := AddStep({1, 2}, steps, Begin(w));
  }

  lemma StartsFollowing(d: Discipline)
    ensures After({1, 2}, []) == Initial({1, 2}) && Follows(d, {1, 2}, [])
    ensures Initial({1, 2}).workers == map[1 := Idle, 2 := Idle]
  {
  }

  /**
   Of any two submissions of one (owner, class) that callers may make with different locks, or one
   with a lock and one without, the callbacks can run at the same time.
   */
  lemma DisciplineIsNeeded(d: Discipline, x: TTuple, k: Option<nat>, y: TTuple, l: Option<nat>)
      returns (steps: seq<Step>)
    requires (x, k) in d.submits && (y, l) in d.submits && !Agreed(x, k, y, l)
    ensures Follows(d, {1, 2}, steps) && Collide(After({1, 2}, steps), 1, 2)
  {
    hide After, Next, Follows;
    StartsFollowing(d);
    var a := Received(Initial({1, 2}), x, k);
    steps := PopPermitted(d, [], x, k, 1);
    steps := BeginOne(d, steps, 1, x, a);
    var b := Received(After({1, 2}, steps), y, l);
    steps := PopPermitted(d, steps, y, l, 2);
    steps := BeginOne(d, steps, 2, y, b);
  }

  /** A worker has a task in hand while everything is purged: the locks are gone, but not from the task. */
  lemma PurgeBusy(d: Discipline, steps: seq<Step>) returns (more: seq<Step>)
    requires d.purgesBusy && Follows(d, {1, 2}, steps) && After({1, 2}, steps).s.tasks == map[]
    ensures Follows(d, {1, 2}, more)
    ensures var st, st' := After({1, 2}, steps), After({1, 2}, more);
            && st'.s.tasks == map[] && st'.s.locks == map[] && st'.s.nextLock == st.s.nextLock
            && st'.workers == st.workers && st'.held == st.held
  {
    hide After, Follows;
    FollowsMore(d, {1, 2}, steps, PurgeAll([]));
    more := AddStep({1, 2}, steps, PurgeAll([]));
  }

  /** A worker runs a callback, everything is purged, and the same task is submitted and begun again. */
  lemma BusyPurgeCollides(d: Discipline, x: TTuple) returns (steps: seq<Step>)
    requires d.purgesBusy && (x, None) in d.submits && x.typ != WHATEVER
    ensures Follows(d, {1, 2}, steps) && Collide(After({1, 2}, steps), 1, 2)
  {
    hide After, Next, Follows;
    StartsFollowing(d);
    steps := PopPermitted(d, [], x, None, 1);
    steps := BeginOne(d, steps, 1, x, Allocated(0));
    steps := PurgeBusy(d, steps);
    steps := PopPermitted(d, steps, x, None, 2);
    steps := BeginOne(d, steps, 2, x, Allocated(1));
  }

  /**
   Callbacks of one (owner, class) exclude each other in all runs, if and only if callers are
   consistent about its lock, and either purge only while no task is in flight or always bring a lock.
   */
  lemma MutualExclusionIsExact(d: Discipline)
    ensures (forall ws, steps, w1, w2 :: Follows(d, ws, steps) ==> !Collide(After(ws, steps), w1, w2)) <==> Orderly(d)
  {
    hide After, Follows, Collide;
    if Orderly(d) {
      forall ws, steps, w1, w2 | Follows(d, ws, steps) ensures !Collide(After(ws, steps), w1, w2) {
        MutualExclusion(d, ws, steps, w1, w2);
      }
    } else {
      var steps;
      if Consistent(d) {
        var x :| (x, None) in d.submits && x.typ != WHATEVER;
        steps := BusyPurgeCollides(d, x);
      } else {
        var x, k, y, l :| (x, k) in d.submits && (y, l) in d.submits && !Agreed(x, k, y, l);
        steps := DisciplineIsNeeded(d, x, k, y, l);
      }
      assert Collide(After({1, 2}, steps), 1, 2);
    }
  }

  lemma AfterMore(ws: set<WorkerId>, steps: seq<Step>, step: Step)
    ensures After(ws, steps + [step]) == Next(After(ws, steps), step)
  {
    assert (steps + [step])[..|steps|] == steps;
  }

  lemma AddStep(ws: set<WorkerId>, steps: seq<Step>, step: Step) returns (r: seq<Step>)
    ensures r == steps + [step] && After(ws, r) == Next(After(ws, steps), step)
  {
    r := steps + [step];
    AfterMore(ws, steps, step);
  }

  // ----- what becomes of a task that has run -----

  lemma RescheduledIsCarried(m: Sched, v: View, result: int, now: int)
    requires now >= 0
    ensures var (v', when) := Rescheduled(v, result, now);
            Carried(m, if when >= 0 then Submitted(m, v'.(due := when), v.id.cls == CLASS_ENFORCER).0
                       else m.(released := m.released + Released(v')), v, result, now)
  {
  }

  /** A worker leaves a callback and finishes with the task: its lock is free, and the task is where the result says. */
  lemma FinishThenComplete(st: State, w: WorkerId, result: int, now: int)
    requires w in st.workers && st.workers[w].Running? && now >= 0 && now + 3600 <= MAX_DUE && result <= MAX_DUE
    ensures var v, st' := st.workers[w].v, Next(Next(st, Finish(w, result, now)), Complete(w));
            && st'.workers == st.workers[w := Idle] && Carried(st.s, st'.s, v, result, now)
            && st'.held == if v.lock.Some? then st.held - {v.lock.value} else st.held
  {
    hide Carried;
    var v, st1 := st.workers[w].v, Next(st, Finish(w, result, now));
    RescheduledIsCarried(st.s, v, result, now);
    assert st1.workers[w].Returned?;
    assert Next(st1, Complete(w)).workers == st.workers[w := Idle];
  }

  // ----- locks are held while callbacks run, and no longer -----

  ghost predicate Runs(st: State, w: WorkerId, l: Lock) {
    w in st.workers && st.workers[w].Running? && st.workers[w].v.lock == Some(l)
  }

  ghost predicate HeldInv(st: State) {
    forall w, l {:trigger Runs(st, w, l)} :: Runs(st, w, l) <==> l in st.held && st.held[l] == w
  }

  lemma StepKeepsHeld(st: State, step: Step)
    requires HeldInv(st)
    ensures HeldInv(Next(st, step))
  {
    var st' := Next(st, step);
    forall w, l ensures Runs(st', w, l) <==> l in st'.held && st'.held[l] == w {
      assert Runs(st, w, l) <==> l in st.held && st.held[l] == w;
      if step.Finish? && Enabled(st, step) && st.workers[step.w].v.lock.Some? {
        assert Runs(st, step.w, st.workers[step.w].v.lock.value);
      }
    }
  }

  /** In every run a lock is held by a worker if and only if it runs the callback of a task with that lock. */
  lemma {:induction false} HeldExactly(ws: set<WorkerId>, steps: seq<Step>)
    ensures HeldInv(After(ws, steps))
  {
    if steps != [] {
      HeldExactly(ws, steps[..|steps| - 1]);
      StepKeepsHeld(After(ws, steps[..|steps| - 1]), steps[|steps| - 1]);
    }
  }
}
