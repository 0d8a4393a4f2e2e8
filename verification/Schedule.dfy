/**
 The scheduler (common/scheduler/schedule.c): a tree of tasks by time, a tree of the same tasks by
 name, and a tree of locks, changed in place under one lock.
 */
module Schedule {
  import opened Prelude
  import opened TaskModel
  import opened OrderedTree
  import opened Trees
  import opened ScheduleSpec
  import opened Wildcard

  /** The clock of common/duration.c: real time, which never goes back, unless a time was set. */
  class Clock {
    const horizon: int    // the last moment that real time reaches
    var real_: int
    var timeNowSet: int

    constructor (start: int, horizon: int)
      ensures real_ == start && timeNowSet == 0 && this.horizon == horizon
    {
      this.horizon := horizon;
      real_, timeNowSet := start, 0;
    }

    /** The earliest value the next reading can have. */
    function Low(): int
      reads this
    {
      if timeNowSet != 0 then timeNowSet else real_
    }

    /** The latest value a reading can have. */
    function High(): int
      reads this
    {
      if timeNowSet != 0 then timeNowSet else horizon
    }

    /** Readings are dates that tasks can have. */
    predicate Ticks()
      reads this
    {
      0 <= Low() <= High() <= MAX_DUE
    }

    method TimeNow() returns (t: int)
      requires Ticks()
      modifies this
      ensures Ticks() && old(Low()) <= Low() == t && High() == old(High())
      ensures timeNowSet == old(timeNowSet) && (timeNowSet != 0 ==> unchanged(this))
    {
      if timeNowSet != 0 { return timeNowSet; }
      var later :| real_ <= later <= horizon;
      real_ := later;
      t := later;
    }

    method SetTimeNow(t: int)
      modifies this
      ensures timeNowSet == t && real_ == old(real_)
    {
      timeNowSet := t;
    }
  }

  class Schedule {
    var mem: Memory               // the task structures, scheduled or held by somebody else
    var tasks: seq<Ref>
    var tasksByName: seq<Ref>
    var lockMem: Memory           // the task structures of the lock tree, shared with nobody
    var locksByName: seq<Ref>
    var numWaiting: int
    var nextLock: nat             // the address of the next mutex to be allocated
    var released: seq<Payload>    // the payloads passed to a free function, in order

    ghost var where: map<TTuple, Ref>
    ghost var locks: map<Resource, Lock>

    ghost predicate Valid()
      reads this
    {
      && Sound(mem, tasks, tasksByName, where)
      && Guards(lockMem, locksByName, locks)
      && (forall p :: p in lockMem ==> p < nextLock)
    }

    ghost function Model(): Sched
      reads this
    {
      Sched(Scheduled(mem, where), locks, nextLock, released)
    }

    /** Tasks held by others are left alone. */
    twostate predicate Leaves(but: set<Ref>)
      reads this
    {
      forall p :: p in old(mem) && p !in old(tasks) && p !in but ==> p in mem && p !in tasks && mem[p] == old(mem[p])
    }

    constructor ()
      ensures Valid() && Model() == EMPTY && numWaiting == 0
    {
      mem, lockMem := map[], map[];
      tasks, tasksByName, locksByName := [], [], [];
      numWaiting, nextLock, released := 0, 0, [];
      where, locks := map[], map[];
    }

    /** Puts a task in both trees; the inserts the source asserts cannot fail. */
    method InsertPair(t: Ref)
      requires Valid() && t in mem && Storable(mem[t]) && mem[t].id !in where
      modifies this`tasks, this`tasksByName, this`where
      ensures Valid()
      ensures Scheduled(mem, where) == old(Scheduled(mem, where))[mem[t].id := mem[t]]
      ensures forall p :: p in tasks <==> p in old(tasks) || p == t
    {
      var ok1, byTime := Insert(ByTime, mem, tasks, t);
      assert ok1 by {
        forall p | p in tasks ensures !Matches(ByTime, mem, mem[t], p) { assert Listed(mem, where, p); }
      }
      var ok2, byName := Insert(ByName, mem, tasksByName, t);
      assert ok2 by {
        forall p | p in tasksByName ensures !Matches(ByName, mem, mem[t], p) { assert Listed(mem, where, p); }
      }
      SoundMore(mem, tasks, tasksByName, where, t, byTime, byName);
      tasks, tasksByName := byTime, byName;
      where := where[mem[t].id := t];
    }

    /** `unschedule_task`: removes the task in the place of `key` from the time tree, then from the name tree. */
    method Unschedule(key: View) returns (r: Option<Ref>)
      requires Valid() && Storable(key)
      modifies this`tasks, this`tasksByName, this`where
      ensures Valid()
      ensures r.Some? <==> key.id in old(where) && old(where)[key.id] in mem && mem[old(where)[key.id]].due == key.due
      ensures r.Some? ==>
                r.value == old(where)[key.id] && Scheduled(mem, where) == old(Scheduled(mem, where)) - {key.id}
      ensures r.Some? ==> where == old(where) - {key.id} && forall p :: p in tasks <==> p in old(tasks) && p != r.value
      ensures r.Some? ==> forall p :: p in tasksByName <==> p in old(tasksByName) && p != r.value
      ensures r.None? ==> unchanged(this)
    {
      At(mem, tasks, tasksByName, where, key.id);
      assert key.id in where && mem[where[key.id]].due == key.due ==> Matches(ByTime, mem, key, where[key.id]);
      var gone, byTime := Delete(ByTime, mem, tasks, key);
      if gone.None? { return None; }
      Agree(mem, tasks, tasksByName, where, gone.value);
      var gone2, byName := Delete(ByName, mem, tasksByName, mem[gone.value]);
      assert gone2 == gone by {
        assert Matches(ByName, mem, mem[gone.value], gone.value);
        Agree(mem, tasks, tasksByName, where, gone2.value);
      }
      SoundLess(mem, tasks, tasksByName, where, gone.value, byTime, byName);
      tasks, tasksByName := byTime, byName;
      where := where - {key.id};
      return gone;
    }

    /** `fetch_node_pair` with `remove` set: removes the task from the name tree, then from the time tree. */
    method FetchPair(key: View) returns (r: Option<Ref>)
      requires Valid() && key.id.typ != WHATEVER
      modifies this`tasks, this`tasksByName, this`where
      ensures Valid()
      ensures r.Some? <==> key.id in old(where)
      ensures r.Some? ==>
                r.value == old(where)[key.id] && Scheduled(mem, where) == old(Scheduled(mem, where)) - {key.id}
      ensures r.Some? ==> where == old(where) - {key.id} && forall p :: p in tasks <==> p in old(tasks) && p != r.value
      ensures r.None? ==> unchanged(this)
    {
      At(mem, tasks, tasksByName, where, key.id);
      assert key.id in where ==> Matches(ByName, mem, key, where[key.id]);
      var gone, byName := Delete(ByName, mem, tasksByName, key);
      if gone.None? { return None; }
      Agree(mem, tasks, tasksByName, where, gone.value);
      var gone2, byTime := Delete(ByTime, mem, tasks, mem[gone.value]);
      assert gone2 == gone by {
        assert Matches(ByTime, mem, mem[gone.value], gone.value);
        Agree(mem, tasks, tasksByName, where, gone2.value);
      }
      SoundLess(mem, tasks, tasksByName, where, gone.value, byTime, byName);
      tasks, tasksByName := byTime, byName;
      where := where - {key.id};
      return gone;
    }

    /** The lock of a resource, created when the resource is seen for the first time. */
    method LockFor(id: TTuple) returns (l: Lock)
      requires Valid()
      modifies this`lockMem, this`locksByName, this`locks, this`nextLock
      ensures Valid()
      ensures (locks, nextLock) == old(if ResourceOf(id) in locks then (locks, nextLock)
                                       else (locks[ResourceOf(id) := Allocated(nextLock)], nextLock + 1))
      ensures ResourceOf(id) in locks && l == locks[ResourceOf(id)]
    {
      var key := View(id, 0, None, None, None, Some(Allocated(nextLock)), 0);
      var found, pos := Search(ByLock, lockMem, locksByName, key);
      SearchIsExact(ByLock, lockMem, locksByName, key, pos);
      if found {
        assert Guard(lockMem, locks, locksByName[pos]);
        return lockMem[locksByName[pos]].lock.value;
      }
      assert ResourceOf(id) !in locks by { Unguarded(key); }
      var dup := nextLock;
      var mem' := lockMem[dup := key];
      OrderedFrame(ByLock, lockMem, mem', locksByName);
      var ok, byLock := Insert(ByLock, mem', locksByName, dup);
      assert ok by {
        forall p | p in locksByName ensures !Matches(ByLock, mem', key, p) { assert Guard(lockMem, locks, p); }
      }
      GuardsMore(lockMem, locksByName, locks, dup, key, byLock);
      lockMem, locksByName := mem', byLock;
      locks := locks[ResourceOf(id) := Allocated(nextLock)];
      l, nextLock := Allocated(nextLock), nextLock + 1;
    }

    lemma Unguarded(key: View)
      requires Valid()
      requires forall p {:trigger Matches(ByLock, lockMem, key, p)} :: p in locksByName ==>
                 !Matches(ByLock, lockMem, key, p)
      ensures ResourceOf(key.id) !in locks
    {
      if Guarded(lockMem, locksByName, ResourceOf(key.id)) {
        var p :| p in locksByName && p in lockMem && ResourceOf(lockMem[p].id) == ResourceOf(key.id);
        assert Matches(ByLock, lockMem, key, p);
      }
    }

    /** The part of `schedule_task` for a tuple that is not scheduled. */
    method Add(task: Ref)
      requires Valid() && task in mem && Storable(mem[task]) && task !in tasks && mem[task].id !in where
      modifies this
      ensures Valid()
      ensures Model() == Enter(old(Model()), old(mem[task]))
      ensures numWaiting == old(numWaiting) && Leaves({task})
    {
      if mem[task].lock.None? {
        var l := LockFor(mem[task].id);
        var mem' := mem[task := mem[task].(lock := Some(l))];
        SoundFrame(mem, mem', tasks, tasksByName, where);
        mem := mem';
      }
      InsertPair(task);
    }

    method ScheduleTask(task: Ref, replace: bool) returns (ok: bool)
      requires Valid() && task in mem && Storable(mem[task]) && task !in tasks
      modifies this
      ensures Valid()
      ensures (Model(), ok) == Submitted(old(Model()), old(mem[task]), replace)
      ensures numWaiting == old(numWaiting) && Leaves({task})
    {
      var new_ := mem[task];
      At(mem, tasks, tasksByName, where, new_.id);
      if !replace {
        var found, pos := Search(ByName, mem, tasksByName, new_);
        SearchIsExact(ByName, mem, tasksByName, new_, pos);
        assert new_.id in where ==> Matches(ByName, mem, new_, where[new_.id]);
        if found {
          Agree(mem, tasks, tasksByName, where, tasksByName[pos]);
          return false;
        }
        Add(task);
        return true;
      }
      var existing := FetchPair(new_);
      if existing.None? {
        Add(task);
        return true;
      }
      ghost var id, merged := new_.id, Merged(mem[existing.value], new_);
      Merge(existing.value, task);
      assert (old(Scheduled(mem, where)) - {id})[id := merged] == old(Scheduled(mem, where))[id := merged];
      ok := true;
    }

    /** The part of `schedule_task` that merges a new task into the one of its tuple, just taken out. */
    method Merge(e: Ref, task: Ref)
      requires Valid() && e in mem && task in mem && Storable(mem[e]) && Storable(mem[task])
      requires e !in tasks && task !in tasks && e != task && mem[e].id == mem[task].id && mem[e].id !in where
      modifies this
      ensures Valid()
      ensures Model() == old(Model().(tasks := Scheduled(mem, where)[mem[e].id := Merged(mem[e], mem[task])],
                                      released := released + Released(mem[e])))
      ensures numWaiting == old(numWaiting) && Leaves({e, task}) && task !in mem && task !in tasks
    {
      var new_ := mem[task];
      var due := if new_.due < mem[e].due then new_.due else mem[e].due;
      released := released + Released(mem[e]);
      var mem' := mem[e := mem[e].(due := due, userdata := new_.userdata, freedata := new_.freedata)];
      mem' := mem' - {task};  // its payload now belongs to the scheduled task
      SoundFrame(mem, mem', tasks, tasksByName, where);
      mem := mem';
      InsertPair(e);
    }

    /** `task_destroy`: frees the payload and the structure of a task that is in no tree. */
    method Destroy(t: Ref)
      requires Valid() && t in mem && t !in tasks
      modifies this`mem, this`released
      ensures Valid() && Scheduled(mem, where) == old(Scheduled(mem, where))
      ensures mem == old(mem) - {t} && released == old(released) + Released(old(mem[t]))
      ensures released == old(released) + Handed(old(mem[t]).userdata, old(mem[t]).freedata)
    {
      released := released + Released(mem[t]);
      SoundFrame(mem, mem - {t}, tasks, tasksByName, where);
      mem := mem - {t};
    }

    /** `pop_first_task`. */
    method PopFirst() returns (r: Option<Ref>)
      requires Valid()
      modifies this`tasks, this`tasksByName, this`where
      ensures Valid() && Leaves({})
      ensures r.None? <==> old(Model()).tasks == map[]
      ensures r.None? ==> unchanged(this)
      ensures r.Some? ==> r.value in mem && r.value !in tasks && IsFirst(old(Model()).tasks, mem[r.value].id)
      ensures r.Some? ==> old(Model()).tasks[mem[r.value].id] == mem[r.value] && Storable(mem[r.value])
      ensures r.Some? ==> Model() == Removed(old(Model()), {mem[r.value].id})
    {
      if tasks == [] {
        assert Scheduled(mem, where) == map[] by {
          forall id | id in where ensures false { At(mem, tasks, tasksByName, where, id); }
        }
        return None;
      }
      FirstIsEarliest(mem, tasks, tasksByName, where);
      Agree(mem, tasks, tasksByName, where, tasks[0]);
      r := Unschedule(mem[tasks[0]]);
    }

    /**
     `schedule_pop_task` up to the wait: a task that is due is taken out; otherwise the caller is
     counted as waiting and `wait` is the time-out it sleeps with.
     */
    method PopTask(now: int, leaped: bool) returns (r: Option<Ref>, wait: int)
      requires Valid()
      modifies this`tasks, this`tasksByName, this`where, this`numWaiting
      ensures Valid() && Leaves({})
      ensures r.None? ==> Model() == old(Model()) && numWaiting == old(numWaiting) + 1
      ensures r.None? ==> forall id :: id in Model().tasks ==> Model().tasks[id].due > now
      ensures r.None? && leaped ==> wait == -1
      ensures r.None? && !leaped && tasks == [] ==> wait == WaitTime(None, now)
      ensures r.None? && !leaped && tasks != [] ==> tasks[0] in mem && wait == WaitTime(Some(mem[tasks[0]]), now)
      ensures r.Some? ==>
                numWaiting == old(numWaiting) && r.value in mem && r.value !in tasks && mem[r.value].due <= now
      ensures r.Some? ==> r.value in old(tasks) && Storable(mem[r.value])
      ensures r.Some? ==>
                IsFirst(old(Model()).tasks, mem[r.value].id) && old(Model()).tasks[mem[r.value].id] == mem[r.value]
      ensures r.Some? ==> Model() == Removed(old(Model()), {mem[r.value].id})
    {
      wait := 0;
      if tasks != [] {
        FirstIsEarliest(mem, tasks, tasksByName, where);
        Agree(mem, tasks, tasksByName, where, tasks[0]);
        if mem[tasks[0]].due <= now {
          r := Unschedule(mem[tasks[0]]);
          return;
        }
      }
      forall id | id in where ensures where[id] in mem && mem[where[id]].due > now {
        At(mem, tasks, tasksByName, where, id);
      }
      numWaiting := numWaiting + 1;
      wait := if leaped then -1 else WaitTime(if tasks == [] then None else Some(mem[tasks[0]]), now);
      r := None;
    }

    /** The end of the wait of `schedule_pop_task`. */
    method Wake()
      modifies this`numWaiting
      ensures numWaiting == old(numWaiting) - 1
    {
      numWaiting := numWaiting - 1;
    }

    /** `schedule_info`: the date of the first task, or -1, and the counts. */
    method Info() returns (firstFireTime: int, idleWorkers: int, taskCount: nat)
      requires Valid()
      ensures idleWorkers == numWaiting
      ensures taskCount == |tasks|
      ensures taskCount == 0 <==> Model().tasks == map[]
      ensures taskCount == 0 ==> firstFireTime == -1
      ensures taskCount > 0 ==> exists id :: IsFirst(Model().tasks, id) && firstFireTime == Model().tasks[id].due
    {
      taskCount, idleWorkers, firstFireTime := |tasks|, numWaiting, -1;
      if tasks != [] {
        FirstIsEarliest(mem, tasks, tasksByName, where);
        Agree(mem, tasks, tasksByName, where, tasks[0]);
        firstFireTime := mem[tasks[0]].due;
      } else {
        forall id | id in where ensures false { At(mem, tasks, tasksByName, where, id); }
      }
    }

    /** `schedule_flush`: every task that is due in the future is made due now. */
    method Flush(clock: Clock)
      requires Valid() && clock.Ticks()
      modifies this`mem, this`tasks, clock
      ensures Valid() && Leaves({})
      ensures Model() == old(Model()).(tasks := Model().tasks)
      ensures clock.Ticks() && old(clock.Low()) <= clock.Low()
      ensures Flushed(old(Model()).tasks, Model().tasks, old(clock.Low()), clock.Low())
      ensures forall id :: id in Model().tasks ==> Model().tasks[id].due <= clock.Low()
    {
      ghost var m, from := Scheduled(mem, where), clock.Low();
      assert Flushing(m, m, from, from);
      while true
        invariant Valid() && Leaves({}) && clock.Ticks() && from <= clock.Low()
        invariant forall p :: p in tasks <==> p in old(tasks)
        invariant Flushing(m, Scheduled(mem, where), from, clock.Low())
        decreases Future(Scheduled(mem, where), clock.Low())
      {
        if tasks == [] {
          forall id | id in where ensures false { At(mem, tasks, tasksByName, where, id); }
          break;
        }
        ghost var before := clock.Low();
        var last := tasks[|tasks| - 1];
        Agree(mem, tasks, tasksByName, where, last);
        var now := clock.TimeNow();
        if mem[last].due <= now {
          forall id | id in where ensures where[id] in mem && mem[where[id]].due <= now {
            LastIsLatest(mem, tasks, tasksByName, where, id);
          }
          break;
        }
        now := clock.TimeNow();
        FlushRound(m, Scheduled(mem, where), from, before, now, mem[last].id);
        Postpone(last, now);
      }
    }

    /** Takes a task out of the time tree, changes its date and puts it back. */
    method Postpone(t: Ref, due: int)
      requires Valid() && t in tasks && 0 <= due <= MAX_DUE
      modifies this`mem, this`tasks
      ensures Valid()
      ensures t in old(mem) && mem == old(mem)[t := old(mem[t]).(due := due)]
      ensures old(mem[t]).id in where && where[old(mem[t]).id] == t
      ensures Scheduled(mem, where) == old(Scheduled(mem, where))[old(mem[t]).id := mem[t]]
      ensures forall p :: p in tasks <==> p in old(tasks)
    {
      Agree(mem, tasks, tasksByName, where, t);
      var gone, byTime := Delete(ByTime, mem, tasks, mem[t]);
      assert gone == Some(t) by {
        assert Matches(ByTime, mem, mem[t], t);
        Agree(mem, tasks, tasksByName, where, gone.value);
      }
      var mem' := mem[t := mem[t].(due := due)];
      OrderedFrame(ByTime, mem, mem', byTime);
      OrderedFrame(ByName, mem, mem', tasksByName);
      var ok, back := Insert(ByTime, mem', byTime, t);
      assert ok by {
        forall p | p in byTime ensures !Matches(ByTime, mem', mem'[t], p) { assert Listed(mem, where, p); }
      }
      SoundUpdate(mem, mem', tasks, back, tasksByName, where, t);
      mem, tasks := mem', back;
    }

    /** The tasks of one owner and class, in the order of the name tree. */
    method Collect(cls: string, owner: string) returns (found: seq<Ref>, ghost order: seq<TTuple>)
      requires Valid()
      ensures Enumerates(order, Matching(Model().tasks, owner, cls, WHATEVER))
      ensures |found| == |order| && forall i :: 0 <= i < |found| ==> order[i] in where && where[order[i]] == found[i]
    {
      found, order := [], [];
      for k := 0 to |tasksByName|
        invariant |found| == |order|
        invariant forall i :: 0 <= i < |found| ==>
                    order[i] in where && where[order[i]] == found[i] && found[i] in tasksByName[..k]
        invariant forall i :: 0 <= i < |found| ==> order[i] in Matching(Model().tasks, owner, cls, WHATEVER)
        invariant forall i, j {:trigger Apart(order, i, j)} :: 0 <= i < j < |order| ==> Apart(order, i, j)
        invariant forall p ::
                    p in tasksByName[..k] && p in mem && mem[p].id.owner == owner && mem[p].id.cls == cls ==>
                      mem[p].id in order
      {
        var t := tasksByName[k];
        Agree(mem, tasks, tasksByName, where, t);
        assert t !in tasksByName[..k] by {
          if j :| 0 <= j < k && tasksByName[j] == t { OrderedDistinct(ByName, mem, tasksByName, j, k); }
        }
        assert tasksByName[..k + 1] == tasksByName[..k] + [t];
        if mem[t].id.owner == owner && mem[t].id.cls == cls {
          assert forall i :: 0 <= i < |order| ==> order[i] != mem[t].id;
          ghost var longer := order + [mem[t].id];
          forall i, j | 0 <= i < j < |longer| ensures Apart(longer, i, j) { assert j < |order| ==> Apart(order, i, j); }
          found, order := found + [t], longer;
        }
      }
      forall id | id in Matching(Model().tasks, owner, cls, WHATEVER) ensures id in order {
        At(mem, tasks, tasksByName, where, id);
      }
    }

    method RemoveAndDestroy(t: Ref, ghost id: TTuple)
      requires Valid() && id in where && where[id] == t
      modifies this`mem, this`tasks, this`tasksByName, this`where, this`released
      ensures Valid() && Leaves({}) && where == old(where) - {id}
      ensures id in old(Scheduled(mem, where)) && released == old(released) + Released(old(Scheduled(mem, where))[id])
      ensures Scheduled(mem, where) == old(Scheduled(mem, where)) - {id}
    {
      At(mem, tasks, tasksByName, where, id);
      var r := FetchPair(mem[t]);
      Destroy(t);
    }

    /** Destroys the listed tasks one after the other. */
    method DestroyAll(found: seq<Ref>, ghost order: seq<TTuple>, ghost ids: set<TTuple>)
      requires Valid() && Enumerates(order, ids)
      requires |found| == |order| && forall i :: 0 <= i < |found| ==> order[i] in where && where[order[i]] == found[i]
      modifies this`mem, this`tasks, this`tasksByName, this`where, this`released
      ensures Valid() && Leaves({})
      ensures Model() == Destroyed(old(Model()), ids, order)
    {
      hide Sound, Guards, Scheduled;
      ghost var m := Model().tasks;
      ghost var gone: set<TTuple> := {};
      assert order[..0] == [] && m - {} == m;
      for i := 0 to |found|
        invariant Valid() && Leaves({}) && where == old(where) - gone
        invariant gone <= ids && (forall j :: 0 <= j < i ==> order[j] in gone) &&
                  (forall j :: i <= j < |order| ==> order[j] !in gone)
        invariant Scheduled(mem, where) == m - gone
        invariant released == old(released) + ReleasedIn(m, order[..i])
      {
        ghost var id := order[i];
        assert id in m && m[id] == Scheduled(mem, where)[id] by { At(mem, tasks, tasksByName, where, id); }
        MinusStep(m, gone, id);
        MinusStep(old(where), gone, id);
        RemoveAndDestroy(found[i], id);
        ReleasedStep(m, order, i);
        assert released == old(released) + ReleasedIn(m, order[..i + 1]);
        forall j | i < j < |order| ensures order[j] != id { assert Apart(order, i, j); }
        gone := gone + {id};
      }
      assert order[..|found|] == order;
      assert gone == ids;
    }

    /** `schedule_purge_owner`: destroys exactly the tasks of one owner and class. */
    method PurgeOwner(cls: string, owner: string) returns (ghost order: seq<TTuple>)
      requires Valid()
      modifies this`mem, this`tasks, this`tasksByName, this`where, this`released
      ensures Valid() && Leaves({})
      ensures Enumerates(order, Matching(old(Model()).tasks, owner, cls, WHATEVER))
      ensures Model() == Destroyed(old(Model()), Matching(old(Model()).tasks, owner, cls, WHATEVER), order)
      ensures forall id :: id in Model().tasks <==> id in old(Model()).tasks && (id.owner != owner || id.cls != cls)
      ensures forall id :: id in Model().tasks ==> Model().tasks[id] == old(Model()).tasks[id]
    {
      var found;
      found, order := Collect(cls, owner);
      DestroyAll(found, order, Matching(Model().tasks, owner, cls, WHATEVER));
    }

    /** The first loop of `schedule_purge`: empties the time tree, whose tasks the name tree still holds. */
    method EmptyTimeTree()
      requires Ordered(ByTime, mem, tasks)
      modifies this`tasks
      ensures tasks == []
    {
      while tasks != []
        invariant Ordered(ByTime, mem, tasks)
        decreases |tasks|
      {
        assert Kept(ByTime, mem, tasks[0]) && Matches(ByTime, mem, mem[tasks[0]], tasks[0]);
        var gone, rest := Delete(ByTime, mem, tasks, mem[tasks[0]]);
        if gone.None? { break; }
        tasks := rest;
      }
    }

    /** The second loop of `schedule_purge`: empties the name tree and destroys its tasks. */
    method EmptyNameTree() returns (ghost order: seq<TTuple>)
      requires Ordered(ByName, mem, tasksByName) && Indexes(mem, tasksByName, where)
      modifies this`mem, this`tasksByName, this`released
      ensures tasksByName == [] && Enumerates(order, where.Keys)
      ensures released == old(released) + ReleasedIn(old(Scheduled(mem, where)), order)
      ensures forall p :: p in old(mem) && p !in old(tasksByName) ==> p in mem && mem[p] == old(mem[p])
    {
      hide Ordered, Indexes, Scheduled, Released, ReleasedIn;
      ghost var m := Scheduled(mem, where);
      order := [];
      NoneReleased(m);
      InTree(mem, tasksByName, where);
      while tasksByName != []
        invariant Ordered(ByName, mem, tasksByName)
        invariant forall p :: p in tasksByName ==> p in old(tasksByName)
        invariant forall p :: p in old(mem) && (p !in old(tasksByName) || p in tasksByName) ==>
                    p in mem && mem[p] == old(mem[p])
        invariant forall i :: 0 <= i < |order| ==> order[i] in where && where[order[i]] !in tasksByName
        invariant forall id :: id in where ==> where[id] in tasksByName || id in order
        invariant forall i, j {:trigger Apart(order, i, j)} :: 0 <= i < j < |order| ==> Apart(order, i, j)
        invariant released == old(released) + ReleasedIn(m, order)
        decreases |tasksByName|
      {
        ghost var t := tasksByName[0];
        AtInTree(old(mem), old(tasksByName), where, t);
        ghost var longer := order + [mem[t].id];
        ReleasedStep(m, longer, |order|);
        assert longer[..|order|] == order && longer[..|order| + 1] == longer;
        forall i, j | 0 <= i < j < |longer| ensures Apart(longer, i, j) { assert j < |order| ==> Apart(order, i, j); }
        order := longer;
        DestroyFirst();
      }
    }

    /** One round of the second loop of `schedule_purge`. */
    method DestroyFirst()
      requires Ordered(ByName, mem, tasksByName) && tasksByName != []
      modifies this`mem, this`tasksByName, this`released
      ensures old(tasksByName[0] in mem) && released == old(released) + Released(old(mem[tasksByName[0]]))
      ensures mem == old(mem) - {old(tasksByName[0])} && Ordered(ByName, mem, tasksByName)
      ensures |tasksByName| == |old(tasksByName)| - 1
      ensures forall p :: p in tasksByName <==> p in old(tasksByName) && p != old(tasksByName[0])
    {
      var t := tasksByName[0];
      assert Kept(ByName, mem, t) && Matches(ByName, mem, mem[t], t);
      var gone, rest := Delete(ByName, mem, tasksByName, mem[t]);
      assert gone == Some(t) by {
        var j :| 0 <= j < |tasksByName| && tasksByName[j] == gone.value;
        OrderedDistinct(ByName, mem, tasksByName, 0, j);
      }
      released := released + Released(mem[t]);
      OrderedFrame(ByName, mem, mem - {t}, rest);
      mem, tasksByName := mem - {t}, rest;
    }

    /** The third loop of `schedule_purge`: empties the lock tree. */
    method EmptyLockTree()
      requires Ordered(ByLock, lockMem, locksByName)
      modifies this`lockMem, this`locksByName
      ensures locksByName == [] && forall p :: p in lockMem ==> p in old(lockMem)
    {
      while locksByName != []
        invariant Ordered(ByLock, lockMem, locksByName)
        invariant forall p :: p in lockMem ==> p in old(lockMem)
        decreases |locksByName|
      {
        var t := locksByName[0];
        assert Kept(ByLock, lockMem, t) && Matches(ByLock, lockMem, lockMem[t], t);
        var gone, rest := Delete(ByLock, lockMem, locksByName, lockMem[t]);
        if gone.None? { break; }
        forall p | p in rest ensures Kept(ByLock, lockMem - {gone.value}, p) { assert Kept(ByLock, lockMem, p); }
        OrderedFrame(ByLock, lockMem, lockMem - {gone.value}, rest);
        lockMem, locksByName := lockMem - {gone.value}, rest;
      }
    }

    /** `schedule_purge`: destroys every task and every lock. */
    method Purge() returns (ghost order: seq<TTuple>)
      requires Valid()
      modifies this
      ensures Valid() && Leaves({})
      ensures Enumerates(order, old(Model()).tasks.Keys)
      ensures Model() == Destroyed(old(Model()), old(Model()).tasks.Keys, order).(locks := map[])
      ensures Model().tasks == map[]
      ensures numWaiting == old(numWaiting)
    {
      hide Sound, Guards, Scheduled, Ordered, Indexes;
      SoundParts(mem, tasks, tasksByName, where);
      GuardsParts(lockMem, locksByName, locks);
      EmptyTimeTree();
      order := EmptyNameTree();
      EmptyLockTree();
      where, locks := map[], map[];
      SoundEmpty(mem, lockMem);
    }

    lemma NoneLeft(owner: string, typ: string, m: map<TTuple, View>, gone: set<TTuple>, pos: nat)
      requires Valid() && Misses(ByName, mem, tasksByName, SearchKey(owner, typ), pos)
      requires Clear(m, owner, typ) && Scheduled(mem, where) == m - gone &&
               gone <= Matching(m, owner, CLASS_SIGNER, typ)
      ensures gone == Matching(m, owner, CLASS_SIGNER, typ)
    {
      forall p | p in tasksByName ensures p in mem && mem[p].id in m { Agree(mem, tasks, tasksByName, where, p); }
      MissLeavesNone(mem, tasksByName, owner, typ, pos);
      forall id | id in Matching(m, owner, CLASS_SIGNER, typ) ensures id in gone {
        if id !in gone {
          assert id in Scheduled(mem, where);
          At(mem, tasks, tasksByName, where, id);
          FoundMatches(owner, typ, mem[where[id]]);
          assert Thins(mem, SearchKey(owner, typ), where[id]);
        }
      }
    }

    /** One round of `schedule_unscheduletask`: the node found by name, and the one of the same task by time. */
    method UnscheduleAt(pos: nat, key: View) returns (ghost id: TTuple)
      requires Valid() && pos < |tasksByName| && Thins(mem, key, tasksByName[pos])
      requires key == SearchKey(key.id.owner, key.id.typ)
      modifies this`tasks, this`tasksByName, this`where
      ensures Valid() && Leaves({}) && id in old(where) && where == old(where) - {id}
      ensures id in Matching(old(Model()).tasks, key.id.owner, CLASS_SIGNER, key.id.typ)
      ensures Scheduled(mem, where) == old(Scheduled(mem, where)) - {id}
      ensures forall p :: p in tasksByName <==> p in old(tasksByName) && p != old(tasksByName[pos])
    {
      var t := tasksByName[pos];
      Agree(mem, tasks, tasksByName, where, t);
      var found, q := Search(ByTime, mem, tasks, mem[t]);
      SearchIsExact(ByTime, mem, tasks, mem[t], q);
      assert found && tasks[q] == t by {
        assert Matches(ByTime, mem, mem[t], t);
        if found { Agree(mem, tasks, tasksByName, where, tasks[q]); }
      }
      FoundMatches(key.id.owner, key.id.typ, mem[t]);
      id := mem[t].id;
      var r := Unschedule(mem[t]);
    }

    /** `schedule_unscheduletask`: takes out signer tasks found by name until a search finds none. */
    method UnscheduleMatching(typ: string, owner: string) returns (ghost gone: set<TTuple>)
      requires Valid()
      modifies this`tasks, this`tasksByName, this`where
      ensures Valid() && Leaves({})
      ensures Residue(mem, old(tasksByName), SearchKey(owner, typ), tasksByName)
      ensures gone <= Matching(old(Model()).tasks, owner, CLASS_SIGNER, typ) && Model() == Removed(old(Model()), gone)
      ensures forall id :: id in gone ==> id.owner == owner && id.cls == "signer" && (typ == "[any]" || id.typ == typ)
      ensures Clear(old(Model()).tasks, owner, typ) ==>
                Model() == Removed(old(Model()), Matching(old(Model()).tasks, owner, CLASS_SIGNER, typ))
      ensures Clear(old(Model()).tasks, owner, typ) ==>
                forall id :: id in Model().tasks ==>
                  id.owner != owner || id.cls != "signer" || (typ != "[any]" && id.typ != typ)
    {
      var key := SearchKey(owner, typ);
      gone := {};
      assert Scheduled(mem, where) - {} == Scheduled(mem, where);
      while true
        invariant Valid() && Leaves({}) && Thinned(mem, old(tasksByName), key, tasksByName)
        invariant gone <= Matching(old(Model()).tasks, owner, CLASS_SIGNER, typ)
        invariant Scheduled(mem, where) == old(Model()).tasks - gone
        decreases where.Keys
      {
        var found, pos := Search(ByName, mem, tasksByName, key);
        if !found {
          if Clear(old(Model()).tasks, owner, typ) { NoneLeft(owner, typ, old(Model()).tasks, gone, pos); }
          break;
        }
        ghost var id := UnscheduleAt(pos, key);
        MinusStep(old(Model()).tasks, gone, id);
        gone := gone + {id};
      }
    }
  }

  const MAX_BACKOFF := 3600

  /** How long a worker sleeps when the first task, if any, is not due. */
  function WaitTime(first: Option<View>, now: int): (t: int)
    ensures 0 <= t <= MAX_BACKOFF
    ensures first.Some? && first.value.id.cls == CLASS_ENFORCER && first.value.due >= now ==> t <= first.value.due - now
    ensures first.Some? && first.value.id.cls == "enforcer" && 0 <= first.value.due - now <= 3600 ==>
              t == first.value.due - now
    ensures first.None? ==> t == 60
    ensures first.Some? && first.value.id.cls != "enforcer" && first.value.due - now <= 60 ==> t == 60
    ensures first.Some? && 60 <= first.value.due - now <= 3600 ==> t == first.value.due - now
    ensures first.Some? && first.value.due - now >= 3600 ==> t == 3600
  {
    Clamp(if first.Some? then first.value.due - now else 0,
          if first.Some? && first.value.id.cls == CLASS_ENFORCER then 0 else 60, MAX_BACKOFF)
  }

  /** `clamp` of common/util.c. */
  function Clamp(value: int, lbnd: int, ubnd: int): int {
    if value < lbnd then lbnd else if value > ubnd then ubnd else value
  }
}
