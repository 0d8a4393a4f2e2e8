/** The registry of threads (common/janitor.c): two circular lists, spliced in place. */
module Janitor {

  class ThreadClass {
    const name: string
    const detached: bool

    constructor (name: string, detached: bool)
      ensures this.name == name && this.detached == detached
    {
      this.name, this.detached := name, detached;
    }
  }

  class Thread {
    var next: Thread?
    var prev: Thread?
    const threadclass: ThreadClass?

    constructor (threadclass: ThreadClass?)
      ensures this.threadclass == threadclass
    {
      this.threadclass := threadclass;
    }
  }

  // ----- circles -----

  ghost function Elems(r: seq<Thread>): set<Thread> { set t | t in r }

  ghost predicate Distinct(r: seq<Thread>) {
    forall i, j :: 0 <= i < j < |r| ==> r[i] != r[j]
  }

  /** `b` follows `a`, seen from both. */
  ghost predicate Edge(a: Thread, b: Thread)
    reads a, b
  {
    a.next == b && b.prev == a
  }

  /** The threads of `r`, each linked to its neighbours and the last to the first. */
  ghost predicate Circle(r: seq<Thread>)
    reads Elems(r)
  {
    && Distinct(r)
    && (r != [] ==> Edge(r[|r| - 1], r[0]))
    && forall i {:trigger Linked(r, i)} :: 1 <= i < |r| ==> Linked(r, i)
  }

  ghost predicate Linked(r: seq<Thread>, i: int)
    requires 1 <= i < |r|
    reads r[i - 1], r[i]
  {
    Edge(r[i - 1], r[i])
  }

  ghost predicate Heads(head: Thread?, r: seq<Thread>) {
    head == if r == [] then null else r[0]
  }

  lemma NoHead(head: Thread?, r: seq<Thread>)
    requires Heads(head, r)
    ensures head == null <==> Elems(r) == {}
  {
    if r != [] { assert r[0] in Elems(r); }
  }

  lemma RotateElems(r: seq<Thread>, k: nat)
    requires Distinct(r) && k <= |r|
    ensures Distinct(r[k..] + r[..k]) && Elems(r[k..] + r[..k]) == Elems(r)
  {
    var q := r[k..] + r[..k];
    forall t | t in r ensures t in q {
      var i :| 0 <= i < |r| && r[i] == t;
      assert q[if i < k then |r| - k + i else i - k] == t;
    }
  }

  /** A circle has no beginning. */
  lemma Rotate(r: seq<Thread>, k: nat)
    requires Circle(r) && k <= |r|
    ensures Circle(r[k..] + r[..k]) && Elems(r[k..] + r[..k]) == Elems(r)
  {
    RotateElems(r, k);
    hide Distinct, Elems;
    var q := r[k..] + r[..k];
    forall i | 1 <= i < |q| ensures Linked(q, i) {
      if i < |r| - k {
        assert q[i] == r[k + i] && q[i - 1] == r[k + i - 1] && Linked(r, k + i);
      } else if i > |r| - k {
        assert q[i] == r[i - (|r| - k)] && q[i - 1] == r[i - 1 - (|r| - k)] && Linked(r, i - (|r| - k));
      }
    }
    assert 0 < k < |r| ==> Linked(r, k);
  }

  /** Links a thread in front of a circle, between its last and its first. */
  method Link(head: Thread?, info: Thread, ghost r: seq<Thread>)
    requires Circle(r) && Heads(head, r) && info !in Elems(r)
    modifies info, Elems(r)
    ensures Circle([info] + r)
  {
    if head != null {
      ghost var last := r[|r| - 1];
      assert head.prev == last;
      info.next := head;
      info.prev := head.prev;
      head.prev.next := info;
      head.prev := info;
      ghost var q := [info] + r;
      forall i | 1 <= i < |q| ensures Linked(q, i) {
        if i > 1 { assert q[i] == r[i - 1] && q[i - 1] == r[i - 2] && old(Linked(r, i - 1)); }
      }
    } else {
      info.next := info;
      info.prev := info;
    }
  }

  /** What is left when the first thread of a circle is bypassed. */
  ghost predicate Bypassed(info: Thread, r: seq<Thread>)
    reads info, Elems(r)
  {
    Circle(r) && info.next == null && info.prev == null
  }

  /** Threads that are in no list. */
  ghost predicate Loose(ts: set<Thread>)
    reads ts
  {
    forall t :: t in ts ==> t.next == null && t.prev == null
  }

  lemma LooseMore(ts: set<Thread>, t: Thread)
    requires Loose(ts) && t.next == null && t.prev == null
    ensures Loose(ts + {t})
  {
  }

  lemma LooseLess(ts: set<Thread>, t: Thread)
    requires Loose(ts)
    ensures Loose(ts - {t})
    ensures t in ts ==> t.next == null && t.prev == null
  {
  }

  ghost function Without(r: seq<Thread>, k: nat): seq<Thread>
    requires k < |r|
  {
    r[..k] + r[k + 1..]
  }

  ghost function Minus(r: seq<Thread>, t: Thread): (q: seq<Thread>)
    ensures (forall x :: x in q ==> x in r) && (t in r ==> |q| < |r|)
  {
    if r == [] then [] else if r[0] == t then r[1..] else [r[0]] + Minus(r[1..], t)
  }

  lemma {:induction false} MinusIsWithout(r: seq<Thread>, k: nat)
    requires Distinct(r) && k < |r|
    ensures Minus(r, r[k]) == Without(r, k)
  {
    if k > 0 {
      MinusIsWithout(r[1..], k - 1);
      assert r[1..][k - 1] == r[k];
      assert [r[0]] + Without(r[1..], k - 1) == Without(r, k);
    }
  }

  lemma WithoutRemoves(r: seq<Thread>, k: nat)
    requires Distinct(r) && k < |r|
    ensures Distinct(Without(r, k))
    ensures forall x :: x in Without(r, k) <==> x in r && x != r[k]
  {
    var q := Without(r, k);
    forall x | x in r && x != r[k] ensures x in q {
      var i :| 0 <= i < |r| && r[i] == x;
      assert q[if i < k then i else i - 1] == x;
    }
  }

  lemma {:induction false} MinusOfAbsent(r: seq<Thread>, t: Thread)
    requires t !in r
    ensures Minus(r, t) == r
  {
    if r != [] { MinusOfAbsent(r[1..], t); }
  }

  /** `info`, at position `k` of a circle, is the first of the circle rotated by `k`. */
  ghost function Turned(r: seq<Thread>, k: nat): (q: seq<Thread>)
    requires k < |r|
    ensures |q| == |r| && q[0] == r[k]
  {
    r[k..] + r[..k]
  }

  /** Taking the first thread out of the turned circle takes the `k`-th out of the circle. */
  lemma TurnBack(r: seq<Thread>, k: nat)
    requires k < |r| && Circle(Turned(r, k)[1..])
    ensures Circle(Without(r, k))
  {
    hide Circle, Elems;
    var q := Turned(r, k)[1..];
    Rotate(q, |r| - 1 - k);
    assert q[|r| - 1 - k..] + q[..|r| - 1 - k] == Without(r, k);
  }

  /** The splice of `janitor_thread_unregister`. */
  method Splice(info: Thread, ghost q: seq<Thread>)
    requires Circle(q) && q != [] && q[0] == info
    modifies Elems(q)
    ensures Bypassed(info, q[1..])
  {
    ghost var second := if |q| == 1 then info else q[1];
    assert |q| > 1 ==> Linked(q, 1);
    assert info.prev == q[|q| - 1] && info.next == second;
    info.next.prev := info.prev;
    info.prev.next := info.next;
    info.next := null;
    info.prev := null;
    forall i | 1 <= i < |q| - 1 ensures Linked(q[1..], i) { assert old(Linked(q, i + 1)); }
  }

  method Unlink(info: Thread, ghost r: seq<Thread>)
    requires Circle(r) && info in Elems(r)
    modifies Elems(r)
    ensures Bypassed(info, Minus(r, info))
  {
    hide Circle, Distinct, Minus, Turned, Without, Elems;
    ghost var k := IndexOf(r, info);
    Brought(info, r, k);
    Splice(info, Turned(r, k));
    TurnBack(r, k);
  }

  /** The guarded splice of `janitor_thread_dispose`, which also meets threads that are in no list. */
  method Bypass(info: Thread, ghost q: seq<Thread>)
    requires if q == [] then info.next == null && info.prev == null else Circle(q) && q[0] == info
    modifies info, Elems(q)
    ensures info.next == null && info.prev == null && (q != [] ==> Circle(q[1..]))
  {
    ghost var second := if |q| <= 1 then info else q[1];
    assert |q| > 1 ==> Linked(q, 1);
    assert q != [] ==> info.prev == q[|q| - 1] && info.next == second;
    if info.next != null && info.next.prev == info { info.next.prev := info.prev; }
    if info.prev != null && info.prev.next == info { info.prev.next := info.next; }
    info.next := null;
    info.prev := null;
    forall i | 1 <= i < |q| - 1 ensures Linked(q[1..], i) { assert old(Linked(q, i + 1)); }
  }

  method Drop(info: Thread, ghost r: seq<Thread>)
    requires Circle(r) && (info !in Elems(r) ==> info.next == null && info.prev == null)
    modifies info, Elems(r)
    ensures Bypassed(info, Minus(r, info))
  {
    hide Circle, Distinct, Minus, Turned, Without;
    ghost var k := IndexOf(r, info);
    ghost var q := if k < |r| then Turned(r, k) else [];
    Brought(info, r, k);
    assert Elems(q) == if k < |r| then Elems(r) else {};
    Bypass(info, q);
    if k < |r| { TurnBack(r, k); }
  }

  ghost function IndexOf(r: seq<Thread>, t: Thread): (k: nat)
    ensures k <= |r| && (k < |r| <==> t in Elems(r)) && (k < |r| ==> r[k] == t)
  {
    if t in r then var k :| 0 <= k < |r| && r[k] == t; k else |r|
  }

  /** Turning a circle brings `info` to its front. */
  lemma Brought(info: Thread, r: seq<Thread>, k: nat)
    requires Circle(r) && k == IndexOf(r, info)
    ensures k < |r| ==> Circle(Turned(r, k)) && Elems(Turned(r, k)) == Elems(r)
    ensures Minus(r, info) == if k < |r| then Without(r, k) else r
    ensures Elems([]) == {}
  {
    if k < |r| {
      Rotate(r, k);
      MinusIsWithout(r, k);
    } else {
      MinusOfAbsent(r, info);
    }
  }

  // ----- the life of a thread -----

  /** Where the threads are: running, unregistered but not yet finished, waiting to be joined, or released. */
  datatype Threads = Threads(running: seq<Thread>, between: set<Thread>, finished: seq<Thread>, freed: set<Thread>)

  ghost const NONE := Threads([], {}, [], {})

  /** No thread is in two places, or twice in one, and none that waits to be joined is detached. */
  ghost predicate Separate(s: Threads) {
    && Distinct(s.running) && Distinct(s.finished)
    && Elems(s.running) !! s.between && Elems(s.running) !! Elems(s.finished) && Elems(s.running) !! s.freed
    && Elems(s.finished) !! s.between && Elems(s.finished) !! s.freed && s.between !! s.freed
    && forall t :: t in s.finished ==> t.threadclass != null && !t.threadclass.detached
  }

  datatype Step = Register(t: Thread) | Unregister(t: Thread) | Finish(t: Thread) | Join(t: Thread)

  ghost function Released(s: Threads, t: Thread): Threads {
    s.(between := s.between - {t}, finished := Minus(s.finished, t), freed := s.freed + {t})
  }

  /** A thread is registered once, unregisters and finishes itself in turn, and is joined once, after it finished. */
  ghost predicate Enabled(s: Threads, step: Step) {
    var t := step.t;
    match step
    case Register(_) => t !in Elems(s.running) && t !in s.between && t !in Elems(s.finished) && t !in s.freed
    case Unregister(_) => t in Elems(s.running)
    case Finish(_) => t in s.between && t.threadclass != null
    case Join(_) => t in Elems(s.finished)
  }

  ghost function Next(s: Threads, step: Step): Threads {
    var t := step.t;
    match step
    case Register(_) => s.(running := [t] + s.running)
    case Unregister(_) => s.(running := Minus(s.running, t), between := s.between + {t})
    case Finish(_) =>
      if t.threadclass == null || t.threadclass.detached then Released(s, t)
      else s.(between := s.between - {t}, finished := [t] + s.finished)
    case Join(_) => Released(s, t)
  }

  lemma StepKeepsSeparate(s: Threads, step: Step)
    requires Separate(s) && Enabled(s, step)
    ensures Separate(Next(s, step))
  {
    if step.Unregister? { MinusRemoves(s.running, step.t); }
    MinusRemoves(s.finished, step.t);
  }

  lemma SeparateApart(s: Threads)
    requires Separate(s)
    ensures Distinct(s.finished) && Elems(s.running) !! Elems(s.finished) && Elems(s.running) !! s.between
    ensures Elems(s.finished) !! s.between
    ensures forall t :: t in Elems(s.finished) ==> t.threadclass != null && !t.threadclass.detached
  {
  }

  lemma ReleaseKeepsSeparate(s: Threads, t: Thread)
    requires Separate(s) && (t in Elems(s.finished) || t in s.between)
    ensures Separate(Released(s, t))
  {
    MinusRemoves(s.finished, t);
  }

  lemma MinusRemoves(r: seq<Thread>, t: Thread)
    requires Distinct(r)
    ensures Distinct(Minus(r, t))
    ensures forall x :: x in Minus(r, t) <==> x in r && x != t
    ensures t !in Elems(r) ==> Minus(r, t) == r
  {
    if t in r {
      var k :| 0 <= k < |r| && r[k] == t;
      MinusIsWithout(r, k);
      WithoutRemoves(r, k);
    } else {
      MinusOfAbsent(r, t);
    }
  }

  // ----- the registry -----

  class Registry {
    var threadlist: Thread?
    var finishedthreadlist: Thread?
    ghost var threads: Threads

    ghost predicate Valid()
      reads this, Elems(threads.running), Elems(threads.finished), threads.between
    {
      && Separate(threads)
      && Circle(threads.running) && Heads(threadlist, threads.running)
      && Circle(threads.finished) && Heads(finishedthreadlist, threads.finished)
      && Loose(threads.between)
    }

    constructor ()
      ensures Valid() && threads == NONE
    {
      threadlist, finishedthreadlist, threads := null, null, NONE;
    }

    /** `janitor_thread_register`. */
    method RegisterThread(info: Thread)
      requires Valid() && Enabled(threads, Register(info))
      modifies this, info, Elems(threads.running)
      ensures Valid() && threads == Next(old(threads), Register(info))
      ensures threadlist == info && threads.running == [info] + old(threads.running)
      ensures threads.finished == old(threads.finished) && threads.freed == old(threads.freed)
    {
      hide Circle, Distinct, Loose, Minus;
      StepKeepsSeparate(threads, Register(info));
      Link(threadlist, info, threads.running);
      threadlist := info;
      threads := Next(threads, Register(info));
    }

    /** `janitor_thread_unregister`. */
    method UnregisterThread(info: Thread?)
      requires Valid() && (info != null ==> Enabled(threads, Unregister(info)))
      modifies this, Elems(threads.running)
      ensures Valid() && threads == if info == null then old(threads) else Next(old(threads), Unregister(info))
      ensures forall t :: t in threads.running <==> t in old(threads.running) && t != info
      ensures threads.finished == old(threads.finished) && threads.freed == old(threads.freed)
    {
      hide Circle, Distinct, Loose, Minus, Heads;
      if info == null { return; }
      StepKeepsSeparate(threads, Unregister(info));
      ghost var r := threads.running;
      ghost var between := threads.between;
      NoHead(threadlist, r);
      MinusRemoves(r, info);
      threads := Next(threads, Unregister(info));
      if threadlist != null {
        HeadWithout(threadlist, r, info);
        if threadlist == info {
          if info.next == info { threadlist := null; } else { threadlist := info.next; }
        }
        Unlink(info, r);
        LooseMore(between, info);
      }
    }

    /** `janitor_thread_dispose`: takes a thread out of the list of finished ones, if it is there, and releases it. */
    method Dispose(info: Thread?)
      requires Valid() && (info != null ==> info in Elems(threads.finished) || info in threads.between)
      modifies this, info, Elems(threads.finished)
      ensures Valid() && threads == if info == null then old(threads) else Released(old(threads), info)
      ensures forall t :: t in threads.finished <==> t in old(threads.finished) && t != info
      ensures threads.running == old(threads.running)
      ensures threads.freed == if info == null then old(threads.freed) else old(threads.freed) + {info}
    {
      hide Circle, Distinct, Loose, Minus, Heads, Separate;
      if info == null { return; }
      SeparateApart(threads);
      ghost var r := threads.finished;
      MinusRemoves(r, info);
      ReleaseKeepsSeparate(threads, info);
      LooseLess(threads.between, info);
      NoHead(finishedthreadlist, r);
      threads := Released(threads, info);
      if info.threadclass == null || !info.threadclass.detached {
        if finishedthreadlist != null {
          HeadWithout(finishedthreadlist, r, info);
          if finishedthreadlist == info {
            if info.next == info { finishedthreadlist := null; } else { finishedthreadlist := info.next; }
          }
          Drop(info, r);
        }
      }
    }

    /** `janitor_thread_finished`: a detached thread is released at once, any other waits to be joined. */
    method Finished(info: Thread)
      requires Valid() && Enabled(threads, Finish(info))
      modifies this, info, Elems(threads.finished)
      ensures Valid() && threads == Next(old(threads), Finish(info)) && threads.running == old(threads.running)
      ensures !info.threadclass.detached ==>
                finishedthreadlist == info && threads.finished == [info] + old(threads.finished)
      ensures !info.threadclass.detached ==> threads.freed == old(threads.freed) && info !in threads.freed
      ensures info.threadclass.detached ==> threads.freed == old(threads.freed) + {info}
      ensures info.threadclass.detached ==> info !in threads.finished && info !in threads.running
      ensures info.threadclass.detached ==>
                forall t :: t in threads.finished <==> t in old(threads.finished) && t != info
    {
      hide Circle, Distinct, Loose, Minus;
      if !info.threadclass.detached {
        StepKeepsSeparate(threads, Finish(info));
        LooseLess(threads.between, info);
        Link(finishedthreadlist, info, threads.finished);
        finishedthreadlist := info;
        threads := Next(threads, Finish(info));
      } else {
        Dispose(info);
      }
    }

    /** `janitor_thread_join`, once the thread has ended. */
    method JoinThread(thread: Thread)
      requires Valid() && Enabled(threads, Join(thread))
      modifies this, Elems(threads.finished)
      ensures Valid() && threads == Next(old(threads), Join(thread)) && threads.running == old(threads.running)
      ensures threads.freed == old(threads.freed) + {thread}
      ensures forall t :: t in threads.finished <==> t in old(threads.finished) && t != thread
    {
      Dispose(thread);
    }

    /** Any interleaving of the operations, one atomic call after another. */
    method Run(steps: seq<Step>, ghost memory: set<Thread>)
      requires Valid() && AllEnabled(threads, steps)
      requires Within(threads, memory) && StepsWithin(steps, memory)
      modifies this, memory
      ensures Valid() && threads == After(old(threads), steps)
      decreases |steps|
    {
      hide Circle, Distinct, Loose, Minus;
      if steps != [] {
        StepStays(threads, steps[0], memory);
        match steps[0] {
          case Register(t) => RegisterThread(t);
          case Unregister(t) => UnregisterThread(t);
          case Finish(t) => Finished(t);
          case Join(t) => JoinThread(t);
        }
        Run(steps[1..], memory);
      }
    }

    /** `janitor_thread_tryjoinall`: joins every finished thread of a class, and tells whether others still run. */
    method TryJoinAll(threadclass: ThreadClass?) returns (moreLeft: bool)
      requires Valid()
      modifies this, Elems(threads.finished)
      ensures Valid()
      ensures threads == old(threads).(finished := Others(old(threads.finished), threadclass),
                                       freed := old(threads.freed) + OfClass(old(threads.finished), threadclass))
      ensures moreLeft <==> OfClass(threads.running, threadclass) != {}
    {
      hide Circle, Distinct, Loose, Minus;
      ghost var was := threads;
      var found := FindThread(finishedthreadlist, threadclass, threads.finished);
      while found != null
        invariant Valid() && Elems(threads.finished) <= Elems(was.finished)
        invariant JoinedSome(was, threads, threadclass)
        invariant if found == null then OfClass(threads.finished, threadclass) == {}
                  else found in Elems(threads.finished) && found.threadclass == threadclass
        decreases |threads.finished|
      {
        JoinOne(was, threads, threadclass, found);
        JoinThread(found);
        found := FindThread(finishedthreadlist, threadclass, threads.finished);
      }
      JoinedAll(was, threads, threadclass);
      found := FindThread(finishedthreadlist, threadclass, threads.finished);
      if found == null {
        found := FindThread(threadlist, threadclass, threads.running);
      }
      moreLeft := found != null;
    }

    /**
     * `janitor_thread_tryjoinall` while other threads run between its critical sections: before and after each join
     * as `rounds` says, and before the last look at the lists as `last` says. All of it together is one run of
     * enabled operations, so the lists stay sound, and the result is right about the lists it ends with.
     */
    method TryJoinAllAmid(threadclass: ThreadClass?, rounds: seq<Window>, last: seq<Step>, ghost memory: set<Thread>)
      returns (moreLeft: bool, ghost run: seq<Step>)
      requires Valid() && Tolerable(threads, threadclass, rounds, last) && Within(threads, memory)
      requires StepsWithin(last, memory)
      requires forall i :: 0 <= i < |rounds| ==> StepsWithin(rounds[i].0, memory) && StepsWithin(rounds[i].1, memory)
      modifies this, memory
      ensures Valid() && AllEnabled(old(threads), run) && threads == After(old(threads), run)
      ensures moreLeft <==> OfClass(threads.finished, threadclass) != {} || OfClass(threads.running, threadclass) != {}
      decreases |rounds|, |threads.finished|
    {
      hide Circle, Distinct, Loose, Minus, AllEnabled, Others;
      var found := FindThread(finishedthreadlist, threadclass, threads.finished);
      if found == null {
        ghost var was := threads;
        assert AllEnabled(was, last) by { TolerableEnd(was, threadclass, rounds, last); }
        Run(last, memory);
        run := last;
        found := FindThread(finishedthreadlist, threadclass, threads.finished);
        if found == null { found := FindThread(threadlist, threadclass, threads.running); }
        moreLeft := found != null;
        assert moreLeft ==> found in OfClass(threads.finished, threadclass) + OfClass(threads.running, threadclass);
      } else {
        moreLeft, run := JoinAmid(threadclass, found, rounds, last, memory);
      }
    }

    /** One round: a thread was found; others run, it is joined, others run again. */
    method JoinAmid(threadclass: ThreadClass?, found: Thread, rounds: seq<Window>, last: seq<Step>,
        ghost memory: set<Thread>)
      returns (moreLeft: bool, ghost run: seq<Step>)
      requires Valid() && Tolerable(threads, threadclass, rounds, last) && Within(threads, memory)
      requires found in OfClass(threads.finished, threadclass) && StepsWithin(last, memory)
      requires forall i :: 0 <= i < |rounds| ==> StepsWithin(rounds[i].0, memory) && StepsWithin(rounds[i].1, memory)
      modifies this, memory
      ensures Valid() && AllEnabled(old(threads), run) && threads == After(old(threads), run)
      ensures moreLeft <==> OfClass(threads.finished, threadclass) != {} || OfClass(threads.running, threadclass) != {}
      decreases |rounds|, |threads.finished|, 0
    {
      hide Circle, Distinct, Loose, Minus, AllEnabled, After, Others, OfClass, Tolerable, Within, Next, Enabled;
      ghost var was := threads;
      var window := Head(rounds);
      TolerableRound(was, threadclass, rounds, last, found, memory);
      Run(window.0, memory);
      JoinThread(found);
      Run(window.1, memory);
      ghost var more;
      moreLeft, more := TryJoinAllAmid(threadclass, Tail(rounds), last, memory);
      run := window.0 + [Join(found)] + window.1 + more;
      RoundIsRun(was, window, found, more);
    }
  }

  // ----- joining -----

  ghost function OfClass(r: seq<Thread>, threadclass: ThreadClass?): set<Thread> {
    set t | t in r && t.threadclass == threadclass
  }

  ghost function Others(r: seq<Thread>, threadclass: ThreadClass?): seq<Thread> {
    if r == [] then []
    else (if r[0].threadclass == threadclass then [] else [r[0]]) + Others(r[1..], threadclass)
  }

  lemma {:induction false} OthersOfOthers(r: seq<Thread>, threadclass: ThreadClass?)
    requires OfClass(r, threadclass) == {}
    ensures Others(r, threadclass) == r
  {
    if r != [] {
      assert r[0] !in OfClass(r, threadclass);
      assert OfClass(r[1..], threadclass) <= OfClass(r, threadclass);
      OthersOfOthers(r[1..], threadclass);
    }
  }

  lemma {:induction false} OthersOfMinus(r: seq<Thread>, threadclass: ThreadClass?, t: Thread)
    requires t.threadclass == threadclass
    ensures Others(Minus(r, t), threadclass) == Others(r, threadclass)
  {
    if r != [] && r[0] != t {
      OthersOfMinus(r[1..], threadclass, t);
      assert Minus(r, t)[1..] == Minus(r[1..], t);
    }
  }

  /** Some of the finished threads of a class have been joined. */
  ghost predicate JoinedSome(was: Threads, now: Threads, threadclass: ThreadClass?) {
    && now.running == was.running && now.between == was.between
    && Others(now.finished, threadclass) == Others(was.finished, threadclass)
    && now.freed + OfClass(now.finished, threadclass) == was.freed + OfClass(was.finished, threadclass)
  }

  lemma JoinOne(was: Threads, now: Threads, threadclass: ThreadClass?, t: Thread)
    requires JoinedSome(was, now, threadclass) && Separate(now) && t in Elems(now.finished) &&
             t.threadclass == threadclass
    ensures JoinedSome(was, Next(now, Join(t)), threadclass)
    ensures |Minus(now.finished, t)| < |now.finished| && Elems(Minus(now.finished, t)) <= Elems(now.finished)
  {
    hide Others, Minus;
    OthersOfMinus(now.finished, threadclass, t);
    ClassOfMinus(now.finished, threadclass, t);
  }

  lemma ClassOfMinus(r: seq<Thread>, threadclass: ThreadClass?, t: Thread)
    requires Distinct(r) && t in Elems(r) && t.threadclass == threadclass
    ensures OfClass(r, threadclass) == OfClass(Minus(r, t), threadclass) + {t}
    ensures |Minus(r, t)| < |r| && Elems(Minus(r, t)) <= Elems(r)
  {
    MinusRemoves(r, t);
    MinusIsWithout(r, IndexOf(r, t));
  }

  lemma JoinedAll(was: Threads, now: Threads, threadclass: ThreadClass?)
    requires JoinedSome(was, now, threadclass) && OfClass(now.finished, threadclass) == {}
    ensures now.finished == Others(was.finished, threadclass)
    ensures now.freed == was.freed + OfClass(was.finished, threadclass)
  {
    OthersOfOthers(now.finished, threadclass);
  }

  /** The scan of `janitor_thread_tryjoinall`: once around the circle, up to the first thread of the class. */
  method FindThread(head: Thread?, threadclass: ThreadClass?, ghost r: seq<Thread>) returns (found: Thread?)
    requires Circle(r) && Heads(head, r)
    ensures if found == null then OfClass(r, threadclass) == {}
            else found in Elems(r) && found.threadclass == threadclass
  {
    found := null;
    var thread := head;
    if thread != null {
      ghost var i := 0;
      while true
        invariant 0 <= i < |r| && thread == r[i] && found == null
        invariant forall j :: 0 <= j < i ==> r[j].threadclass != threadclass
        decreases |r| - i
      {
        if thread.threadclass == threadclass {
          found := thread;
          break;
        }
        assert i + 1 < |r| ==> Linked(r, i + 1);
        thread := thread.next;
        if thread == head { break; }
        i := i + 1;
      }
    }
  }

  // ----- all interleavings -----

  ghost predicate AllEnabled(s: Threads, steps: seq<Step>)
    decreases |steps|
  {
    steps != [] ==> Enabled(s, steps[0]) && AllEnabled(Next(s, steps[0]), steps[1..])
  }

  ghost function After(s: Threads, steps: seq<Step>): Threads
    decreases |steps|
  {
    if steps == [] then s else After(Next(s, steps[0]), steps[1..])
  }

  /** A thread that is not detached is released only if somebody joined it. */
  lemma {:induction false} FreedOnlyByJoin(s: Threads, steps: seq<Step>, t: Thread)
    requires AllEnabled(s, steps) && t !in s.freed && t in After(s, steps).freed
    requires t.threadclass != null && !t.threadclass.detached
    ensures Join(t) in steps
    decreases |steps|
  {
    if t !in Next(s, steps[0]).freed {
      FreedOnlyByJoin(Next(s, steps[0]), steps[1..], t);
    }
  }

  /** And one that is joined was finished before, so it had been registered and unregistered. */
  lemma {:induction false} JoinedAfterFinish(s: Threads, steps: seq<Step>, t: Thread)
    requires AllEnabled(s, steps) && Join(t) in steps && t !in s.finished
    ensures Finish(t) in steps
    decreases |steps|
  {
    if steps[0] != Finish(t) {
      assert Join(t) in steps[1..];
      JoinedAfterFinish(Next(s, steps[0]), steps[1..], t);
    }
  }

  lemma StepStays(s: Threads, step: Step, memory: set<Thread>)
    requires Within(s, memory) && step.t in memory
    ensures Within(Next(s, step), memory)
  {
  }

  ghost predicate Within(s: Threads, memory: set<Thread>) {
    Elems(s.running) + Elems(s.finished) + s.between <= memory
  }

  ghost predicate StepsWithin(steps: seq<Step>, memory: set<Thread>) {
    forall i :: 0 <= i < |steps| ==> steps[i].t in memory
  }

  lemma {:induction false} RunStays(s: Threads, steps: seq<Step>, memory: set<Thread>)
    requires Within(s, memory) && StepsWithin(steps, memory)
    ensures Within(After(s, steps), memory)
    decreases |steps|
  {
    if steps != [] {
      StepStays(s, steps[0], memory);
      RunStays(Next(s, steps[0]), steps[1..], memory);
    }
  }

  lemma {:induction false} RunOfSum(s: Threads, a: seq<Step>, b: seq<Step>)
    ensures After(s, a + b) == After(After(s, a), b)
    ensures AllEnabled(s, a + b) <==> AllEnabled(s, a) && AllEnabled(After(s, a), b)
    decreases |a|
  {
    hide Next, Enabled;
    if a == [] {
      assert a + b == b;
    } else {
      RunOfSum(Next(s, a[0]), a[1..], b);
      assert (a + b)[1..] == a[1..] + b;
    }
  }

  // ----- what others may do meanwhile -----

  /** What other threads do before and after a join. */
  type Window = (seq<Step>, seq<Step>)

  function Head(rounds: seq<Window>): Window { if rounds == [] then ([], []) else rounds[0] }

  function Tail(rounds: seq<Window>): seq<Window> { if rounds == [] then [] else rounds[1..] }

  ghost predicate NoJoins(steps: seq<Step>, threadclass: ThreadClass?) {
    forall i :: 0 <= i < |steps| && steps[i].Join? ==> steps[i].t.threadclass != threadclass
  }

  /** Others do what is possible at the time, and leave the joining of the class to one thread. */
  ghost predicate Tolerable(s: Threads, threadclass: ThreadClass?, rounds: seq<Window>, last: seq<Step>)
    decreases |rounds|, |s.finished|
  {
    if OfClass(s.finished, threadclass) == {} then AllEnabled(s, last)
    else
      var (before, after) := Head(rounds);
      && AllEnabled(s, before) && NoJoins(before, threadclass)
      && forall t :: t in s.finished && t.threadclass == threadclass ==>
           var joined := Next(After(s, before), Join(t));
           AllEnabled(joined, after) && Tolerable(After(joined, after), threadclass, Tail(rounds), last)
  }

  lemma TolerableEnd(s: Threads, threadclass: ThreadClass?, rounds: seq<Window>, last: seq<Step>)
    requires Tolerable(s, threadclass, rounds, last) && OfClass(s.finished, threadclass) == {}
    ensures AllEnabled(s, last)
  {
  }

  /** A finished thread that nobody joins stays finished. */
  lemma {:induction false} StaysFinished(s: Threads, steps: seq<Step>, t: Thread)
    requires Separate(s) && AllEnabled(s, steps) && NoJoins(steps, t.threadclass) && t in Elems(s.finished)
    ensures t in Elems(After(s, steps).finished)
    decreases |steps|
  {
    if steps != [] {
      StepKeepsSeparate(s, steps[0]);
      MinusRemoves(s.finished, steps[0].t);
      assert NoJoins(steps[1..], t.threadclass);
      StaysFinished(Next(s, steps[0]), steps[1..], t);
    }
  }

  lemma TolerableRound(s: Threads, threadclass: ThreadClass?, rounds: seq<Window>, last: seq<Step>, t: Thread,
      memory: set<Thread>)
    requires Separate(s) && Tolerable(s, threadclass, rounds, last) && t in OfClass(s.finished, threadclass)
    requires Within(s, memory) && StepsWithin(Head(rounds).0, memory) && StepsWithin(Head(rounds).1, memory)
    ensures var (before, after) := Head(rounds);
            var s1 := After(s, before);
            var s2 := Next(s1, Join(t));
            && AllEnabled(s, before) && Enabled(s1, Join(t)) && AllEnabled(s2, after)
            && Tolerable(After(s2, after), threadclass, Tail(rounds), last)
            && Within(s, memory) && Within(s1, memory) && Within(s2, memory) && Within(After(s2, after), memory)
            && (rounds == [] ==> |After(s2, after).finished| < |s.finished|)
  {
    var (before, after) := Head(rounds);
    StaysFinished(s, before, t);
    RunStays(s, before, memory);
    var s1 := After(s, before);
    assert t in memory;
    StepStays(s1, Join(t), memory);
    RunStays(Next(s1, Join(t)), after, memory);
  }

  lemma RoundIsRun(s: Threads, window: Window, t: Thread, more: seq<Step>)
    ensures var s1 := After(s, window.0);
            var s2 := Next(s1, Join(t));
            var run := window.0 + [Join(t)] + window.1 + more;
            && After(s, run) == After(After(s2, window.1), more)
            && ((&& AllEnabled(s, window.0) && Enabled(s1, Join(t))
                 && AllEnabled(s2, window.1) && AllEnabled(After(s2, window.1), more)) ==> AllEnabled(s, run))
  {
    hide Next, Enabled;
    var a, b := window.0, [Join(t)];
    RunOfSum(s, a + b + window.1, more);
    RunOfSum(s, a + b, window.1);
    RunOfSum(s, a, b);
    assert b[1..] == [];
  }

  /** Whatever the order of the calls, no thread is ever in two places, and a released thread never comes back. */
  lemma {:induction false} RunKeepsSeparate(s: Threads, steps: seq<Step>)
    requires Separate(s) && AllEnabled(s, steps)
    ensures Separate(After(s, steps)) && s.freed <= After(s, steps).freed
    decreases |steps|
  {
    if steps != [] {
      StepKeepsSeparate(s, steps[0]);
      RunKeepsSeparate(Next(s, steps[0]), steps[1..]);
    }
  }

  /** The head of the list without `t`: the next of `t`, if `t` was the head and not alone. */
  lemma HeadWithout(head: Thread?, r: seq<Thread>, t: Thread)
    requires Circle(r) && Heads(head, r)
    ensures Heads(if head != t then head else if t.next == t then null else t.next, Minus(r, t))
  {
    if head == t { Neighbour(r); } else { MinusKeepsHead(r, t); }
  }

  /** The next thread of the first one is the second, or itself if it is alone. */
  lemma Neighbour(r: seq<Thread>)
    requires Circle(r) && r != []
    ensures r[0].next == r[if |r| == 1 then 0 else 1]
    ensures r[0].next == r[0] <==> |r| == 1
  {
    assert |r| > 1 ==> Linked(r, 1);
  }

  lemma MinusKeepsHead(r: seq<Thread>, t: Thread)
    requires r == [] || r[0] != t
    ensures r != [] ==> Minus(r, t) != [] && Minus(r, t)[0] == r[0]
  {
  }
}
