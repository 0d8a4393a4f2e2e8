/**
 What the scheduler means: one finite map from task tuple to task, one lock per (owner, class),
 and the payloads handed to their free functions so far.
 */
module ScheduleSpec {
  import opened Prelude
  import opened TaskModel

  datatype Sched = Sched(tasks: map<TTuple, View>, locks: map<Resource, Lock>, nextLock: nat, released: seq<Payload>)

  const EMPTY := Sched(map[], map[], 0, [])

  /** A submitted task that is not scheduled yet: it keeps its own lock or gets the one of its resource. */
  function Enter(s: Sched, v: View): Sched {
    if v.lock.Some? then s.(tasks := s.tasks[v.id := v])
    else
      var r := ResourceOf(v.id);
      if r in s.locks then s.(tasks := s.tasks[v.id := v.(lock := Some(s.locks[r]))])
      else
        var l := Allocated(s.nextLock);
        s.(tasks := s.tasks[v.id := v.(lock := Some(l))], locks := s.locks[r := l], nextLock := s.nextLock + 1)
  }

  /** REPLACE on a scheduled tuple: the earlier date and the newer payload win, the rest stays. */
  function Merged(old_: View, new_: View): View {
    old_.(due := Min(old_.due, new_.due), userdata := new_.userdata, freedata := new_.freedata)
  }

  function Submitted(s: Sched, v: View, replace: bool): (r: (Sched, bool)) {
    if v.id !in s.tasks then (Enter(s, v), true)
    else if !replace then (s, false)
    else
      var e := s.tasks[v.id];
      (s.(tasks := s.tasks[v.id := Merged(e, v)], released := s.released + Released(e)), true)
  }

  function Removed(s: Sched, ids: set<TTuple>): Sched {
    s.(tasks := s.tasks - ids)
  }

  /** `id` is the first task to run: every other one is later, or as late with a larger tuple. */
  ghost predicate IsFirst(m: map<TTuple, View>, id: TTuple) {
    && id in m
    && forall o :: o in m && o != id ==> Less(ByTime, m[id], m[o])
  }

  /** `m'` is `m` with some dates after `from` brought forward to a moment between `from` and `to`. */
  ghost predicate Flushing(m: map<TTuple, View>, m': map<TTuple, View>, from: int, to: int) {
    && m'.Keys == m.Keys
    && forall id :: id in m ==>
         && m'[id] == m[id].(due := m'[id].due)
         && (m'[id].due == m[id].due || (m[id].due > from && from <= m'[id].due <= to))
  }

  /** ... and no date lies in the future any more. */
  ghost predicate Flushed(m: map<TTuple, View>, m': map<TTuple, View>, from: int, to: int) {
    Flushing(m, m', from, to) && forall id :: id in m' ==> m'[id].due <= to
  }

  function Future(m: map<TTuple, View>, now: int): set<TTuple> {
    set id | id in m && m[id].due > now
  }

  /** A round of the flush makes one future task due, so fewer future tasks are left. */
  lemma FlushRound(m0: map<TTuple, View>, m: map<TTuple, View>, from: int, before: int, now: int, id: TTuple)
    requires Flushing(m0, m, from, before) && from <= before <= now && id in m && m[id].due > before
    ensures Flushing(m0, m[id := m[id].(due := now)], from, now)
    ensures Future(m[id := m[id].(due := now)], now) < Future(m, before)
  {
    assert id in Future(m, before) && id !in Future(m[id := m[id].(due := now)], now);
  }

  function Matching(m: map<TTuple, View>, owner: string, cls: string, typ: string): set<TTuple> {
    set id | id in m && id.owner == owner && id.cls == cls && (typ == WHATEVER || id.typ == typ)
  }

  /** The payloads freed when the tasks named in `order` are destroyed one after the other. */
  function ReleasedIn(m: map<TTuple, View>, order: seq<TTuple>): seq<Payload> {
    if order == [] then []
    else ReleasedIn(m, order[..|order| - 1]) +
         (if order[|order| - 1] in m then Released(m[order[|order| - 1]]) else [])
  }

  lemma NoneReleased(m: map<TTuple, View>)
    ensures ReleasedIn(m, []) == []
  {
  }

  lemma ReleasedStep(m: map<TTuple, View>, order: seq<TTuple>, i: nat)
    requires i < |order| && order[i] in m
    ensures ReleasedIn(m, order[..i + 1]) == ReleasedIn(m, order[..i]) + Released(m[order[i]])
  {
    assert order[..i + 1][..i] == order[..i];
  }

  lemma MinusStep<V>(m: map<TTuple, V>, gone: set<TTuple>, id: TTuple)
    ensures (m - gone) - {id} == m - (gone + {id})
  {
  }

  /** `order` names every element of `ids` exactly once. */
  ghost predicate Enumerates(order: seq<TTuple>, ids: set<TTuple>) {
    && (forall i :: 0 <= i < |order| ==> order[i] in ids)
    && (forall id :: id in ids ==> id in order)
    && (forall i, j {:trigger Apart(order, i, j)} :: 0 <= i < j < |order| ==> Apart(order, i, j))
  }

  ghost predicate Apart(order: seq<TTuple>, i: int, j: int)
    requires 0 <= i < j < |order|
  {
    order[i] != order[j]
  }

  /** The tasks `ids` are destroyed in the given order. */
  function Destroyed(s: Sched, ids: set<TTuple>, order: seq<TTuple>): Sched {
    s.(tasks := s.tasks - ids, released := s.released + ReleasedIn(s.tasks, order))
  }

  // ----- what these say of the tasks, in so many words -----

  /** A payload freed for a task: its own, if it came with a free function. */
  function Handed(userdata: Option<Payload>, freedata: Option<nat>): seq<Payload> {
    if freedata == None || userdata == None then [] else [userdata.value]
  }

  /**
   A submission succeeds unless it is refused, which leaves everything as it is. Nothing but its own
   tuple changes. An absent task enters as it was submitted, with its own lock or the one of its
   resource; a scheduled one gets the earlier date and the new payload, and its old payload is freed.
   */
  lemma SubmittedMeans(s: Sched, v: View, replace: bool)
    ensures var (t, ok) := Submitted(s, v, replace);
            && (ok <==> replace || v.id !in s.tasks) && (!ok ==> t == s)
            && (forall id :: id != v.id ==>
                  (id in t.tasks <==> id in s.tasks) && (id in s.tasks ==> t.tasks[id] == s.tasks[id]))
            && v.id in t.tasks
    ensures v.id !in s.tasks ==>
              var t := Submitted(s, v, replace).0;
              var n, r := t.tasks[v.id], ResourceOf(v.id);
              && n.id == v.id && n.due == v.due && n.callback == v.callback && n.userdata == v.userdata
              && n.freedata == v.freedata && n.backoff == v.backoff && t.released == s.released
              && (v.lock.Some? ==> n.lock == v.lock && t.locks == s.locks)
              && (v.lock.None? ==> r in t.locks && n.lock == Some(t.locks[r]))
              && (v.lock.None? && r in s.locks ==> t.locks == s.locks)
              && (v.lock.None? && r !in s.locks ==> t.locks == s.locks[r := Allocated(s.nextLock)])
    ensures v.id in s.tasks && replace ==>
              var t, e := Submitted(s, v, replace).0, s.tasks[v.id];
              var n := t.tasks[v.id];
              && n.due <= v.due && n.due <= e.due && (n.due == v.due || n.due == e.due)
              && n.userdata == v.userdata && n.freedata == v.freedata
              && n.id == e.id && n.callback == e.callback && n.lock == e.lock && n.backoff == e.backoff
              && t.released == s.released + Handed(e.userdata, e.freedata) && t.locks == s.locks
  {
  }
}
