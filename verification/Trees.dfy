/**
 The invariant of the scheduler's trees: two ordered trees over the same tasks, and one lock per resource.
 `where` is the address at which each scheduled tuple lives.
 */
module Trees {
  import opened Prelude
  import opened TaskModel
  import opened OrderedTree
  import opened ScheduleSpec

  ghost predicate Listed(mem: Memory, where: map<TTuple, Ref>, p: Ref) {
    p in mem && mem[p].id in where && where[mem[p].id] == p
  }

  ghost predicate Filed(mem: Memory, where: map<TTuple, Ref>, s: seq<Ref>, id: TTuple)
    requires id in where
  {
    where[id] in s && where[id] in mem && mem[where[id]].id == id
  }

  ghost predicate Indexes(mem: Memory, s: seq<Ref>, where: map<TTuple, Ref>) {
    && (forall p {:trigger Listed(mem, where, p)} :: p in s ==> Listed(mem, where, p))
    && (forall id {:trigger Filed(mem, where, s, id)} :: id in where ==> Filed(mem, where, s, id))
  }

  /** Two ordered trees hold exactly the tasks listed, one per tuple. */
  ghost predicate Sound(mem: Memory, time: seq<Ref>, name: seq<Ref>, where: map<TTuple, Ref>) {
    && Ordered(ByTime, mem, time) && Ordered(ByName, mem, name)
    && Indexes(mem, time, where) && Indexes(mem, name, where)
  }

  /** The one finite map that the two trees stand for. */
  ghost function Scheduled(mem: Memory, where: map<TTuple, Ref>): map<TTuple, View> {
    map id | id in where && where[id] in mem :: mem[where[id]]
  }

  /** The two trees and the map agree: same tasks, same contents, one task per tuple. */
  lemma Agree(mem: Memory, time: seq<Ref>, name: seq<Ref>, where: map<TTuple, Ref>, p: Ref)
    requires Sound(mem, time, name, where)
    ensures p in time <==> p in name
    ensures p in time ==> p in mem && Storable(mem[p]) && mem[p].id in where && where[mem[p].id] == p
    ensures p in time ==> mem[p].id in Scheduled(mem, where) && Scheduled(mem, where)[mem[p].id] == mem[p]
  {
    if p in time { assert Listed(mem, where, p) && Kept(ByTime, mem, p) && Filed(mem, where, name, mem[p].id); }
    if p in name { assert Listed(mem, where, p) && Filed(mem, where, time, mem[p].id); }
  }

  lemma At(mem: Memory, time: seq<Ref>, name: seq<Ref>, where: map<TTuple, Ref>, id: TTuple)
    requires Sound(mem, time, name, where)
    ensures id in Scheduled(mem, where) <==> id in where
    ensures id in where ==> where[id] in time && where[id] in name && where[id] in mem
                            && mem[where[id]].id == id && Storable(mem[where[id]])
  {
    if id in where {
      assert Filed(mem, where, time, id) && Filed(mem, where, name, id) && Kept(ByTime, mem, where[id]);
    }
  }

  lemma SoundMore(mem: Memory, time: seq<Ref>, name: seq<Ref>, where: map<TTuple, Ref>, t: Ref, time': seq<Ref>,
      name': seq<Ref>)
    requires Sound(mem, time, name, where) && t in mem && mem[t].id !in where
    requires Ordered(ByTime, mem, time') && Ordered(ByName, mem, name')
    requires forall p :: p in time' <==> p in time || p == t
    requires forall p :: p in name' <==> p in name || p == t
    ensures Sound(mem, time', name', where[mem[t].id := t])
    ensures Scheduled(mem, where[mem[t].id := t]) == Scheduled(mem, where)[mem[t].id := mem[t]]
  {
    var w := where[mem[t].id := t];
    forall p | p in time' || p in name' ensures Listed(mem, w, p) {
      if p != t { assert Listed(mem, where, p); }
    }
    forall id | id in w ensures Filed(mem, w, time', id) && Filed(mem, w, name', id) {
      if id != mem[t].id { assert Filed(mem, where, time, id) && Filed(mem, where, name, id); }
    }
  }

  lemma SoundLess(mem: Memory, time: seq<Ref>, name: seq<Ref>, where: map<TTuple, Ref>, t: Ref, time': seq<Ref>,
      name': seq<Ref>)
    requires Sound(mem, time, name, where) && t in time
    requires Ordered(ByTime, mem, time') && Ordered(ByName, mem, name')
    requires forall p :: p in time' <==> p in time && p != t
    requires forall p :: p in name' <==> p in name && p != t
    ensures Listed(mem, where, t) && Sound(mem, time', name', where - {mem[t].id})
    ensures Scheduled(mem, where - {mem[t].id}) == Scheduled(mem, where) - {mem[t].id}
  {
    assert Listed(mem, where, t);
    var w := where - {mem[t].id};
    forall p | p in time' || p in name' ensures Listed(mem, w, p) { assert Listed(mem, where, p); }
    forall id | id in w ensures Filed(mem, w, time', id) && Filed(mem, w, name', id) {
      assert Filed(mem, where, time, id) && Filed(mem, where, name, id);
    }
  }

  /** Both trees depend on the tasks they hold only. */
  lemma SoundFrame(mem: Memory, mem': Memory, time: seq<Ref>, name: seq<Ref>, where: map<TTuple, Ref>)
    requires Sound(mem, time, name, where)
    requires forall p :: p in time && p in mem ==> p in mem' && mem'[p] == mem[p]
    ensures Sound(mem', time, name, where)
    ensures Scheduled(mem', where) == Scheduled(mem, where)
  {
    forall p | p in name ensures p in time { Agree(mem, time, name, where, p); }
    forall p | p in time ensures Listed(mem', where, p) && Kept(ByTime, mem, p) { assert Listed(mem, where, p); }
    OrderedFrame(ByTime, mem, mem', time);
    OrderedFrame(ByName, mem, mem', name);
    forall id | id in where ensures Filed(mem', where, time, id) && Filed(mem', where, name, id) {
      assert Filed(mem, where, time, id) && Filed(mem, where, name, id);
    }
  }

  /** A task may change, apart from its tuple, if the time tree is put in order again. */
  lemma SoundUpdate(mem: Memory, mem': Memory, time: seq<Ref>, time': seq<Ref>, name: seq<Ref>,
      where: map<TTuple, Ref>, t: Ref)
    requires Sound(mem, time, name, where) && t in time && t in mem && t in mem'
    requires mem' == mem[t := mem'[t]] && mem'[t].id == mem[t].id
    requires Ordered(ByTime, mem', time') && Ordered(ByName, mem', name)
    requires forall p :: p in time' <==> p in time
    ensures Sound(mem', time', name, where)
    ensures Scheduled(mem', where) == Scheduled(mem, where)[mem[t].id := mem'[t]]
  {
    assert Listed(mem, where, t);
    forall p | p in time || p in name ensures Listed(mem', where, p) { assert Listed(mem, where, p); }
    forall id | id in where ensures Filed(mem', where, time', id) && Filed(mem', where, name, id) {
      assert Filed(mem, where, time, id) && Filed(mem, where, name, id);
    }
  }

  /** The first node of the time tree is the first task to run. */
  lemma FirstIsEarliest(mem: Memory, time: seq<Ref>, name: seq<Ref>, where: map<TTuple, Ref>)
    requires Sound(mem, time, name, where) && time != []
    ensures time[0] in mem && IsFirst(Scheduled(mem, where), mem[time[0]].id)
  {
    var m := Scheduled(mem, where);
    Agree(mem, time, name, where, time[0]);
    forall o | o in m && o != mem[time[0]].id ensures Less(ByTime, m[mem[time[0]].id], m[o]) {
      At(mem, time, name, where, o);
      var i :| 0 <= i < |time| && time[i] == where[o];
      assert Precedes(ByTime, mem, time, 0, i);
      CompareIsLexicographic(ByTime, mem[time[0]], mem[time[i]]);
    }
  }

  /** No task is due after the last node of the time tree. */
  lemma LastIsLatest(mem: Memory, time: seq<Ref>, name: seq<Ref>, where: map<TTuple, Ref>, id: TTuple)
    requires Sound(mem, time, name, where) && time != [] && id in where
    ensures where[id] in mem && time[|time| - 1] in mem && mem[where[id]].due <= mem[time[|time| - 1]].due
  {
    var n := |time| - 1;
    Agree(mem, time, name, where, time[n]);
    At(mem, time, name, where, id);
    var i :| 0 <= i < |time| && time[i] == where[id];
    if i < n {
      assert Precedes(ByTime, mem, time, i, n);
      CompareIsLexicographic(ByTime, mem[time[i]], mem[time[n]]);
    }
  }

  // ----- the lock tree -----

  ghost predicate Guard(mem: Memory, locks: map<Resource, Lock>, p: Ref) {
    p in mem && ResourceOf(mem[p].id) in locks && mem[p].lock == Some(locks[ResourceOf(mem[p].id)])
  }

  ghost predicate Guarded(mem: Memory, s: seq<Ref>, r: Resource) {
    exists p :: p in s && p in mem && ResourceOf(mem[p].id) == r
  }

  /** The lock tree holds one lock per resource. */
  ghost predicate Guards(mem: Memory, s: seq<Ref>, locks: map<Resource, Lock>) {
    && Ordered(ByLock, mem, s)
    && (forall p {:trigger Guard(mem, locks, p)} :: p in s ==> Guard(mem, locks, p))
    && (forall r {:trigger Guarded(mem, s, r)} :: r in locks ==> Guarded(mem, s, r))
  }

  lemma GuardsMore(mem: Memory, s: seq<Ref>, locks: map<Resource, Lock>, t: Ref, v: View, s': seq<Ref>)
    requires Guards(mem, s, locks) && t !in mem && v.lock.Some? && ResourceOf(v.id) !in locks
    requires Ordered(ByLock, mem[t := v], s') && forall p :: p in s' <==> p in s || p == t
    ensures Guards(mem[t := v], s', locks[ResourceOf(v.id) := v.lock.value])
  {
    var mem', locks' := mem[t := v], locks[ResourceOf(v.id) := v.lock.value];
    forall p | p in s' ensures Guard(mem', locks', p) {
      if p != t { assert Guard(mem, locks, p); }
    }
    forall r | r in locks' ensures Guarded(mem', s', r) {
      if r == ResourceOf(v.id) {
        assert t in s' && t in mem';
      } else {
        assert Guarded(mem, s, r);
        var p :| p in s && p in mem && ResourceOf(mem[p].id) == r;
        assert p in s' && p in mem' && mem'[p] == mem[p];
      }
    }
  }

  // ----- the parts of the invariant, for emptying the trees one after the other -----

  lemma SoundParts(mem: Memory, time: seq<Ref>, name: seq<Ref>, where: map<TTuple, Ref>)
    requires Sound(mem, time, name, where)
    ensures Ordered(ByTime, mem, time) && Ordered(ByName, mem, name) && Indexes(mem, name, where)
    ensures Scheduled(mem, where).Keys == where.Keys && forall p :: p in name <==> p in time
  {
    forall id | id in where ensures id in Scheduled(mem, where) { At(mem, time, name, where, id); }
    forall p ensures p in name <==> p in time { Agree(mem, time, name, where, p); }
  }

  lemma GuardsParts(mem: Memory, s: seq<Ref>, locks: map<Resource, Lock>)
    requires Guards(mem, s, locks)
    ensures Ordered(ByLock, mem, s)
  {
  }

  lemma SoundEmpty(mem: Memory, lockMem: Memory)
    ensures Sound(mem, [], [], map[]) && Guards(lockMem, [], map[]) && Scheduled(mem, map[]) == map[]
  {
  }

  lemma InTree(mem: Memory, s: seq<Ref>, where: map<TTuple, Ref>)
    requires Indexes(mem, s, where)
    ensures forall id :: id in where ==> where[id] in s
  {
    forall id | id in where ensures where[id] in s { assert Filed(mem, where, s, id); }
  }

  /** An item of a tree is listed under its own tuple and no other. */
  lemma AtInTree(mem: Memory, s: seq<Ref>, where: map<TTuple, Ref>, t: Ref)
    requires Indexes(mem, s, where) && t in s
    ensures Listed(mem, where, t) && mem[t].id in Scheduled(mem, where) && Scheduled(mem, where)[mem[t].id] == mem[t]
    ensures forall id :: id in where && where[id] == t ==> id == mem[t].id
  {
    assert Listed(mem, where, t);
    forall id | id in where && where[id] == t ensures id == mem[t].id { assert Filed(mem, where, s, id); }
  }
}
