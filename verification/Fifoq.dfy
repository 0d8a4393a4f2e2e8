/** The queue of sub-tasks and the wait for their reports (common/scheduler/fifoq.c). */
module Fifoq {
  import opened Prelude

  const MAX_COUNT := 1000
  const TRIES_COUNT := 10

  datatype Status = Ok | Unchanged | AssertErr

  /** The bounded queue: two arrays of which the first `count` cells are in use. */
  class Queue {
    const blob: array<nat>
    const owner: array<nat>
    var count: nat

    ghost predicate Valid()
      reads this
    {
      blob.Length == MAX_COUNT && owner.Length == MAX_COUNT && blob != owner && count <= MAX_COUNT
    }

    /** The queued items with the workers they belong to, first in first. */
    ghost function Contents(): seq<(nat, nat)>
      requires Valid()
      reads this, blob, owner
    {
      seq(count, i requires 0 <= i < count && count <= blob.Length && count <= owner.Length
                   reads this, blob, owner
                   => (blob[i], owner[i]))
    }

    constructor ()
      ensures Valid() && Contents() == [] && fresh(blob) && fresh(owner)
    {
      blob, owner := new nat[MAX_COUNT](_ => 0), new nat[MAX_COUNT](_ => 0);
      count := 0;
    }

    /** `fifoq_push`; `notify` tells whether the drudgers are woken. */
    method Push(item: Option<nat>, context: nat, tries: int) returns (status: Status, tries': int, notify: bool)
      requires Valid()
      modifies this`count, blob, owner
      ensures Valid()
      ensures status == if item.None? then AssertErr else if |old(Contents())| == 1000 then Unchanged else Ok
      ensures Contents() == if status == Ok then old(Contents()) + [(item.value, context)] else old(Contents())
      ensures status == Ok ==> notify == (old(Contents()) == [])
      ensures status == Unchanged ==> notify == (tries > 10)
      ensures tries' == if status == Unchanged && tries > 10 then 0 else tries
    {
      tries', notify := tries, false;
      if item.None? { return AssertErr, tries, false; }
      if count >= MAX_COUNT {
        if tries > TRIES_COUNT { tries', notify := 0, true; }
        return Unchanged, tries', notify;
      }
      blob[count] := item.value;
      owner[count] := context;
      count := count + 1;
      notify := count == 1;
      status := Ok;
    }

    /** `fifoq_pop`: takes the first item and moves the others up; `notify` tells whether waiting workers are woken. */
    method Pop() returns (item: Option<nat>, context: nat, notify: bool)
      requires Valid()
      modifies this`count, blob, owner
      ensures Valid()
      ensures item.None? <==> old(Contents()) == []
      ensures item.None? ==> Contents() == old(Contents()) && !notify
      ensures item.Some? ==> [(item.value, context)] + Contents() == old(Contents())
      ensures item.Some? ==> notify == (|Contents()| <= 100)
    {
      context, notify := 0, false;
      if count <= 0 { return None, 0, false; }
      item, context := Some(blob[0]), owner[0];
      for i := 0 to count - 1
        invariant count == old(count)
        invariant forall j :: 0 <= j < i ==> blob[j] == old(blob[j + 1]) && owner[j] == old(owner[j + 1])
        invariant forall j :: i <= j < MAX_COUNT ==> blob[j] == old(blob[j]) && owner[j] == old(owner[j])
      {
        blob[i] := blob[i + 1];
        owner[i] := owner[i + 1];
      }
      count := count - 1;
      notify := 10 * count <= MAX_COUNT;
    }
  }

  // ----- waiting for the reports -----

  /** Where the worker is: queuing sub-tasks, asleep in `fifoq_waitfor`, about to look again, or stopped. */
  datatype Pc = Working | Blocked | Awake | Stopped

  /** What a wait returned: the failures it reported, and what had happened to the sub-tasks it waited for. */
  datatype Verdict = Verdict(result: int, pushed: nat, reported: nat, failures: nat, exit: bool)

  /** `outstanding` and `failed` are the worker's fields; the other counters say what happened since the last wait. */
  datatype State = State(pc: Pc, outstanding: int, failed: int, exit: bool,
                         pushed: nat, reported: nat, failures: nat, verdicts: seq<Verdict>)

  datatype Step = PushTask | Report(ok: bool) | StartWait | Spurious | LookAgain | NeedToExit

  const INITIAL := State(Working, 0, 0, false, 0, 0, 0, [])

  /** The test of the loop in `fifoq_waitfor`: sleep, or return and clear the failures. */
  function Look(st: State): State {
    if st.outstanding > 0 && !st.exit then st.(pc := Blocked)
    else
      var v := Verdict(st.failed, st.pushed, st.reported, st.failures, st.exit);
      if st.exit then st.(pc := Stopped, failed := 0, verdicts := st.verdicts + [v])
      else st.(pc := Working, failed := 0, pushed := 0, reported := 0, failures := 0, verdicts := st.verdicts + [v])
  }

  /** A step that is not possible does not happen. A sub-task is reported after it was pushed, and once. */
  function Next(st: State, step: Step): State {
    match step
    case PushTask => if st.pc == Working then st.(pushed := st.pushed + 1) else st
    case Report(ok) =>
      if st.reported == st.pushed then st else
      var st' := st.(outstanding := st.outstanding - 1, reported := st.reported + 1);
      var st'' := if ok then st' else st'.(failed := st.failed + 1, failures := st.failures + 1);
      if st''.outstanding == 0 && st.pc == Blocked then st''.(pc := Awake) else st''
    case StartWait => if st.pc == Working then Look(st.(outstanding := st.outstanding + st.pushed)) else st
    case Spurious => if st.pc == Blocked then st.(pc := Awake) else st
    case LookAgain => if st.pc == Awake then Look(st) else st
    case NeedToExit => st.(exit := true)
  }

  function After(steps: seq<Step>): State {
    if steps == [] then INITIAL else Next(After(steps[..|steps| - 1]), steps[|steps| - 1])
  }

  ghost predicate Sound(v: Verdict) {
    !v.exit ==> v.reported == v.pushed && v.result == v.failures
  }

  ghost predicate Inv(st: State) {
    && st.reported <= st.pushed
    && (st.pc != Stopped ==> st.failed == st.failures)
    && (st.pc == Working ==> st.outstanding + st.reported == 0)
    && (st.pc == Blocked || st.pc == Awake ==> st.outstanding == st.pushed - st.reported)
    && (st.pc == Blocked ==> st.outstanding > 0)
    && (forall i :: 0 <= i < |st.verdicts| ==> Sound(st.verdicts[i]))
  }

  lemma {:induction false} RunKeepsInv(steps: seq<Step>)
    ensures Inv(After(steps))
  {
    if steps != [] { RunKeepsInv(steps[..|steps| - 1]); }
  }

  /**
   Every wait that ends without a request to exit has seen all reports and returns the number of failures among them.
   */
  lemma WaitIsExact(steps: seq<Step>, i: nat)
    requires i < |After(steps).verdicts| && !After(steps).verdicts[i].exit
    ensures After(steps).verdicts[i].reported == After(steps).verdicts[i].pushed
    ensures After(steps).verdicts[i].result == After(steps).verdicts[i].failures
  {
    RunKeepsInv(steps);
    assert Sound(After(steps).verdicts[i]);
  }

  function Reports(oks: seq<bool>): seq<Step> {
    seq(|oks|, i requires 0 <= i < |oks| => Report(oks[i]))
  }

  function Failures(oks: seq<bool>): nat {
    if oks == [] then 0 else Failures(oks[..|oks| - 1]) + (if oks[|oks| - 1] then 0 else 1)
  }

  /** No wake-up is lost: a sleeping worker still has a sub-task to come, and the last report wakes it up. */
  lemma {:induction false} NoLostWakeUp(steps: seq<Step>, oks: seq<bool>)
    requires After(steps).pc == Blocked && |oks| <= After(steps).pushed - After(steps).reported
    ensures After(steps).reported < After(steps).pushed
    ensures var st, st' := After(steps), After(steps + Reports(oks));
            && st'.reported == st.reported + |oks| && st'.failures == st.failures + Failures(oks)
            && st'.pushed == st.pushed && st'.exit == st.exit && st'.verdicts == st.verdicts
            && (st'.pc == Awake <==> |oks| == st.pushed - st.reported) && (st'.pc == Blocked || st'.pc == Awake)
  {
    hide After, Reports;
    RunKeepsInv(steps);
    OneMoreReport(steps, oks);
    if oks != [] {
      var n := |oks| - 1;
      NoLostWakeUp(steps, oks[..n]);
      RunKeepsInv(steps + Reports(oks[..n]));
    }
  }

  lemma OneMoreReport(steps: seq<Step>, oks: seq<bool>)
    ensures After(steps + Reports(oks)) ==
            if oks == [] then After(steps) else Next(After(steps + Reports(oks[..|oks| - 1])), Report(oks[|oks| - 1]))
  {
    hide Next;
    var all := steps + Reports(oks);
    if oks == [] {
      assert all == steps;
    } else {
      assert all[..|all| - 1] == steps + Reports(oks[..|oks| - 1]) && all[|all| - 1] == Report(oks[|oks| - 1]);
    }
  }

  /** So a sleeping worker returns as soon as the missing reports are in, with the exact number of failures. */
  lemma WaitEnds(steps: seq<Step>, oks: seq<bool>)
    requires After(steps).pc == Blocked && !After(steps).exit && |oks| == After(steps).pushed - After(steps).reported
    ensures var st, st' := After(steps), After(steps + Reports(oks) + [LookAgain]);
            var failed := st.failures + Failures(oks);
            st'.pc == Working && st'.verdicts == st.verdicts + [Verdict(failed, st.pushed, st.pushed, failed, false)]
  {
    NoLostWakeUp(steps, oks);
    RunKeepsInv(steps + Reports(oks));
    var all := steps + Reports(oks) + [LookAgain];
    assert all[..|all| - 1] == steps + Reports(oks);
  }

  /** Once it is asked to exit, a worker does not go to sleep any more, and one that is woken leaves the wait. */
  lemma ExitEndsWaits(steps: seq<Step>, step: Step)
    requires After(steps).exit && After(steps).pc != Blocked
    ensures After(steps + [step]).pc != Blocked
    ensures step == LookAgain && After(steps).pc == Awake ==> After(steps + [step]).pc == Stopped
  {
    assert (steps + [step])[..|steps|] == steps;
  }
}
