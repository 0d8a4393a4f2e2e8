# OpenDNSSEC: verified models of the scheduler, the database backend, the wire protocol and the codecs

This project models the parts of OpenDNSSEC whose correctness does not show in any single function, and proves
properties of them with Dafny 4.11. `dafny verify dfyconfig.toml` checks everything.

* **The task scheduler** (`Task`, `OrderedTree`, `Trees`, `ScheduleSpec`, `Wildcard`, `RedBlack`, `Schedule`,
  `SchedulerRuns`, `PayloadRuns`, `LeakRuns`, `HistoryRuns`, `TimeLeap`, `Workers`). The class `Schedule` keeps a tree by
  time, a tree by name and a tree of locks, and changes them in place; every method is proved against one finite map from task tuple to task
  (`ScheduleSpec.Sched`). `SchedulerRuns` lets any number of workers interleave over that map, one step per critical
  section; invariants of all runs give mutual exclusion, payload ownership and the meaning of repeated REPLACE.
  `TimeLeap` runs the simulated clock over the class itself, and `Workers` runs any interleaving of workers over it: such
  a run is one of the state machine, so its invariants hold of the trees.
* **The sub-task queue** (`Fifoq`): the bounded array, and the wait/report counter as a state machine.
* **The SQLite backend** (`SqlClause`, `SqlStatement`, `SqlUpdate`, `SqlBackend`, `Revision`). Statement text is built in
  a bounded buffer and scanned and parsed back by a small grammar of the database's side, so the effect of an update on
  the rows is stated in terms of its arguments. `Revision` interleaves sessions over those statements and proves
  that no update is lost.
* **The client protocol** (`Framing`): frames, the in-place extractor, and independence of how the bytes are cut into reads.
* **Codecs**: Base64 (`Base64`, `Base64Codec`; section 4 and section 3.5 of RFC 4648) and durations (`Duration`; a subset
  of section 4.4.3.2 of ISO 8601:2004).
* **The thread registry** (`Janitor`): two circular doubly linked lists of heap objects, spliced in place.

Conventions. Integers are unbounded; conversions that lose bits are written out (`ToInt32`, `ToInt64`, `Uint32`, `Distance`).
A search in a red-black tree is modelled by `OrderedTree.Search`, which may inspect any item of the interval that is
left, so every tree shape is covered (`RedBlack.FindIsSearch`). Quantifiers with a named predicate as trigger are
instantiated on that fact only.
A step of a run that is not enabled leaves the state unchanged, so statements about runs hold for every list of steps.

Where code and documentation differ, the code is followed: `duration_compare` is documented to return -1, 0 or 1 and
returns a difference; the comment on `set_time_now` says the set time holds only while it is later than the real time,
but `time_now` returns it whenever it is non-zero; the enum comments of `db_clause_operator_t` swap AND and OR, while the
printed words do not.

Properties that are false of the code, when they hold, and an input at which they fail:

* `TaskModel.DateRangeIsExact`: the time comparator orders the dates 0..n if and only if n fits 31 bits
  (`TaskModel.WideDatesCollide`: the dates 0 and 2^31).
* `RedBlack.UnscheduleIsExact`: whatever tasks of a family are scheduled, a wildcard unschedule removes all matches in
  every red-black tree, if and only if no two tuples of the family stand in each other's way. `RedBlack.SignTaskIsLeft`
  is a sign task that is left behind an enforce task. For one given schedule, `Wildcard.SearchTreesAreExact` says the
  same about all search trees, balanced or not.
* `SchedulerRuns.MutualExclusionIsExact`: callbacks of one (owner, class) exclude each other, if and only if callers
  submit its tasks all with one lock or all without, and either purge only while no task is in flight or always bring a
  lock. `SchedulerRuns.DisciplineIsNeeded` has the run for any two submissions that differ, and
  `SchedulerRuns.BusyPurgeCollides` the one for any task without a lock of its own that is running while everything is
  purged.
* `PayloadRuns.PayloadSafetyIsExact`: planned submissions are safe in all runs, if and only if a payload with a free
  function is in one of them only; `PayloadRuns.SharingIsUnsafe` has the run for any two that share one.
* `LeakRuns.LeaksExactly`: a payload that was handed over with a free function is freed or still to be freed, if and only
  if no step of the run dropped its task. `LeakRuns.RefusedLeaks` drops any task by submitting its tuple again without
  REPLACE; a signer task that was run and finds its tuple scheduled again, and a task that is unscheduled, are dropped too.
* `Framing.ExitCodeIsExact`: the exit code is right if and only if at most three bytes follow, or the fourth one happens
  to be the same (`Framing.ExitCodeIsLost`). At the end of a conversation it is always right (`Framing.ConversationEnds`).
* `Base64Codec.PtonLen`: the length function accepts exactly the strings of the decoder and those with stray pad bits
  (`Base64Codec.StrayLength`).
* `Duration.PrintParseIsExact`: a printed duration parses back if and only if its weeks stand alone
  (`Duration.WeekIsLost`).
* `Revision.NoLostUpdateIsExact`: no update is lost, if and only if no id is cut to another one that may exist when it is
  read into 32 bits, and none that survives the cut is handed out twice. `Revision.WideIdsLoseUpdates` and
  `Revision.ReuseLosesUpdates` have the runs for any ids that violate this. Ids that fit 32 bits and are never handed
  out twice, as the schema's AUTOINCREMENT sees to, meet the condition.

## Model

| member | source | states |
|---|---|---|
| `Prelude.StrCmpSign` | common/scheduler/task.c:161-174 | `strcmp` as used by the comparators is zero only on equal strings, antisymmetric, and negative exactly in dictionary order |
| `TaskModel.CompareIsLexicographic` | common/scheduler/task.c:161-213 | on storable tasks the three comparators are the lexicographic orders (due, owner, type, class), (owner, type, class) and (owner, class): sign and equality, both directions |
| `TaskModel.CompareTransitive` | common/scheduler/task.c:161-213 | the comparators are transitive on storable tasks |
| `TaskModel.CompareIsAntisymmetric` | common/scheduler/task.c:161-197 | by name and by lock swapping the sides negates the result, for all tasks and search keys |
| `TaskModel.UnspecifiedIsPassedOver` | common/scheduler/task.c:168-172 | an unspecified type or date on either side leaves the decision to the other fields |
| `TaskModel.LessIsStrictTotalOrder` | common/scheduler/task.c:199-213 | the order of each tree is strict and total on the tasks it may store |
| `TaskModel.DateRangeIsExact` | common/scheduler/task.c:207-211 | the truncated difference orders all dates 0..n if and only if n is at most 2^31-1 |
| `TaskModel.WideDatesCollide` | common/scheduler/task.c:207-211 | of two tasks due at 0 and at 2^31 each compares as the earlier one |
| `OrderedTree.Search` | common/scheduler/schedule.c:154-181 | for every tree shape: a hit compares equal, a miss ends in a gap whose neighbours send the search there |
| `OrderedTree.SearchIsExact` | common/scheduler/schedule.c:154-181 | in an ordered tree a miss means that nothing stands in the key's place, and a hit is that item |
| `OrderedTree.Insert` | common/scheduler/schedule.c:367-368 | insertion is refused exactly when the place is taken, otherwise it keeps the order and adds the one item |
| `OrderedTree.Delete` | common/scheduler/schedule.c:421-424 | deletion removes the item in the key's place and nothing else |
| `Trees.Agree` | common/scheduler/schedule.h:64-80 | both trees hold exactly the same tasks, which are those of one map from tuple to task |
| `Trees.FirstIsEarliest` | common/scheduler/schedule.c:76-92 | the first item of the time tree is the earliest task of the map, ties broken by tuple |
| `Trees.LastIsLatest` | common/scheduler/schedule.c:492-508 | no scheduled task is due after the last item of the time tree |
| `ScheduleSpec.FlushRound` | common/scheduler/schedule.c:496-502 | a round of the flush keeps tasks, tuples and dates that were due, and leaves fewer tasks in the future, also if the clock moved |
| `ScheduleSpec.SubmittedMeans` | common/scheduler/schedule.c:322-399 | a submission succeeds exactly if it may replace or the tuple is absent, a refused one changes nothing, no other task changes; an absent task enters with its own date, payload and back-off and the one lock of its resource, a scheduled one gets the earlier date and the new payload and its old payload is freed |
| `Schedule.Clock.TimeNow` | common/duration.c:468-472 | readings never go back, and a set time is returned as it is |
| `Schedule.Schedule.constructor` | common/scheduler/schedule.c:187-205 | a new schedule satisfies the invariant and stands for the empty map |
| `Schedule.Schedule.InsertPair` | common/scheduler/schedule.c:360-370 | for an absent tuple both asserted inserts succeed, the trees still agree, and the map gains the one task |
| `Schedule.Schedule.FetchPair` | common/scheduler/schedule.c:154-181 | finds a task exactly when its tuple is scheduled, whatever its date, and removes it from both trees |
| `Schedule.Schedule.Unschedule` | common/scheduler/schedule.c:408-432 | finds a task exactly when tuple and date match, and removes it from both trees; otherwise nothing changes |
| `Schedule.Schedule.LockFor` | common/scheduler/schedule.c:344-359 | one lock per (owner, class): the existing one, or a new one that is entered |
| `Schedule.Schedule.Add` | common/scheduler/schedule.c:339-370 | an absent task enters the map with its own lock or that of its resource; tasks held by others are untouched |
| `Schedule.Schedule.Merge` | common/scheduler/schedule.c:376-389 | the scheduled task takes the earlier date and the new payload, the old payload is freed once, the new structure is gone |
| `Schedule.Schedule.ScheduleTask` | common/scheduler/schedule.c:322-399 | the trees afterwards stand for `Submitted` of the map before: enter, refuse or merge; the status tells which |
| `Schedule.Schedule.Destroy` | common/scheduler/task.c:93-101 | the payload is freed once and the structure is gone; the schedule is unchanged |
| `Schedule.Schedule.PopFirst` | common/scheduler/schedule.c:101-121 | removes the earliest task of the map, or returns nothing exactly when the map is empty |
| `Schedule.Schedule.PopTask` | common/scheduler/schedule.c:444-468 | a popped task is due and no scheduled task is earlier; if none is returned nothing is due, the caller is counted as waiting and sleeps for the clamped time |
| `Schedule.Schedule.Info` | common/scheduler/schedule.c:515-543 | the reported time is that of the earliest task, -1 exactly when there is none |
| `Schedule.Schedule.Flush` | common/scheduler/schedule.c:481-513 | terminates under a clock that moves on; afterwards no task is due later than the clock, what was due is untouched, the tasks are the same and the trees agree |
| `Schedule.Schedule.Postpone` | common/scheduler/schedule.c:500-502 | taking a task out of the time tree only, changing its date and reinserting it keeps both trees in agreement |
| `Schedule.Schedule.Collect` | common/scheduler/schedule.c:288-306 | the scan lists every task of the owner and class exactly once |
| `Schedule.Schedule.DestroyAll` | common/scheduler/schedule.c:308-315 | each listed task leaves both trees and its payload is freed, once and in order |
| `Schedule.Schedule.PurgeOwner` | common/scheduler/schedule.c:272-320 | exactly the tasks of that owner and class are gone from both trees |
| `Schedule.Schedule.EmptyNameTree` | common/scheduler/schedule.c:250-257 | every task is destroyed once, and its payload is still there when that happens |
| `Schedule.Schedule.Purge` | common/scheduler/schedule.c:233-270 | no task and no lock is left, and the payload of every task was freed once |
| `Schedule.Schedule.UnscheduleAt` | common/scheduler/schedule.c:639-643 | the node found by name is also found by time, the asserted keys are equal, and the task matches |
| `Schedule.Schedule.UnscheduleMatching` | common/scheduler/schedule.c:630-646 | terminates, removes matching signer tasks only, and all of them if nothing stands in the way |
| `Schedule.WaitTime` | common/scheduler/schedule.c:457-459 | with an enforcer task first the time-out is the time left, at most an hour; otherwise at least a minute and at most an hour; a minute with an empty queue |
| `Wildcard.WrongWay` | common/scheduler/task.c:161-174 | which pairs of tasks make a wildcard search turn the wrong way in a tree ordered by type |
| `Wildcard.MissLeavesNone` | common/scheduler/schedule.c:630-646 | if nothing stands in the way, a wildcard search that misses has no match in the whole tree |
| `Wildcard.BlockedLeavesOne` | common/scheduler/schedule.c:630-646 | if something stands in the way, the loop can stop with a matching task left in some search tree, balanced or not |
| `Wildcard.SearchTreesAreExact` | common/scheduler/schedule.c:630-646 | for a given schedule and all search trees, balanced or not: nothing matching is left, if and only if the type is given or no task stands in the way |
| `RedBlack.FindIsSearch` | common/scheduler/schedule.c:154-181 | a search in any tree ends as the arbitrary search on the sequence of its items can, so the sequence covers all trees |
| `RedBlack.UnscheduleIsExact` | common/scheduler/schedule.c:630-646 | for all schedules of tuples from a family and all red-black trees: nothing matching is left, if and only if the type is given or no two tuples of the family stand in each other's way |
| `RedBlack.SignTaskIsLeft` | common/scheduler/schedule.c:630-646 | a red-black tree of one sign task and one enforce task of a zone, in which unscheduling any type leaves the sign task |
| `SchedulerRuns.BackoffDoubles` | common/scheduler/task.c:128-132 | a task deferred n times in a row waits 60 * 2^(n-1) seconds, at most an hour, and nothing else in it changes |
| `SchedulerRuns.FinishThenComplete` | common/scheduler/task.c:113-142 | for every result and state: a task that asked for a date r >= 2 is due at r, for 1 at the clock's reading, for 0 at 0, deferred at the reading plus a delay that doubles between a minute and an hour; on success it is absent and its owned payload freed; a tuple scheduled in between is merged for the enforcer and left alone otherwise; the lock is given back |
| `SchedulerRuns.HeldExactly` | common/scheduler/task.c:109-119 | in every run a lock is held by a worker if and only if that worker runs the callback of a task with this lock |
| `SchedulerRuns.SubmissionKeepsLocks` | common/scheduler/schedule.c:339-359 | a submission keeps the one lock of every resource |
| `SchedulerRuns.StepKeepsLocks` | common/scheduler/worker.c:63-74 | every step of every worker, every submission that follows the callers' locks, and every purge that meets no task without an owner's lock in flight, keeps the lock invariant |
| `SchedulerRuns.RunKeepsLocks` | common/scheduler/schedule.c:340-359 | in every run in which callers are consistent about locks, and purge at rest or always bring a lock, all live tasks of one (owner, class) carry the same lock, and a running callback holds it; payloads may be shared |
| `SchedulerRuns.MutualExclusion` | common/scheduler/task.c:109-119 | in every such run at most one callback of an (owner, class) is running |
| `SchedulerRuns.DisciplineIsNeeded` | common/scheduler/schedule.c:340-359 | for any two permitted submissions of one (owner, class) with different locks, or one with a lock and one without, a run in which both callbacks run at once |
| `SchedulerRuns.BusyPurgeCollides` | common/scheduler/schedule.c:258-268 | for any task without a lock of its own, a run in which it is purged while it runs, submitted again, and both callbacks run at once |
| `SchedulerRuns.MutualExclusionIsExact` | common/scheduler/task.c:109-119 | over all runs, mutual exclusion per (owner, class) holds if and only if callers submit its tasks all with one lock or all without, and either purge only while no task is in flight or always bring a lock |
| `PayloadRuns.LetGo` | common/scheduler/schedule.c:376-385 | a payload that its only owner gives up may be freed |
| `PayloadRuns.ResubmitKeepsPayloads` | common/scheduler/task.c:133-142 | rescheduling after a run moves the payload to the schedule and frees only the one it replaces |
| `PayloadRuns.RunKeepsPayloads` | common/scheduler/schedule.c:376-385 | the ownership invariant holds in every run in which a payload with a free function is in one submission only; pointers without one may be shared |
| `PayloadRuns.PayloadsAreSafe` | common/scheduler/task.c:93-143 | in every such run no payload is freed twice, and none while a scheduled or running task refers to it, as its owner or not |
| `PayloadRuns.SharingIsUnsafe` | common/scheduler/task.c:93-101 | of any planned submissions, two that share a payload which one of them owns have a run that frees it while it is referred to |
| `PayloadRuns.PayloadSafetyIsExact` | common/scheduler/task.c:93-143 | all runs of planned submissions are safe, if and only if an owned payload is in one of them only |
| `LeakRuns.DropUncovers` | common/scheduler/schedule.c:371-374 | a step that drops a task leaves its payload neither freed nor to be freed |
| `LeakRuns.StaysUncovered` | common/scheduler/task.c:93-101 | a payload that nobody is to free is not freed or taken up by any step but its own submission |
| `LeakRuns.LeaksExactly` | common/scheduler/task.c:93-143 | in every run with owned payloads submitted once: a payload handed over was freed or a live task is to free it, if and only if no step dropped its task (a refused submission, a rescheduling refused because the tuple is back, an unscheduling) |
| `LeakRuns.RefusedLeaks` | common/scheduler/schedule.c:371-374 | for any task with an owned payload, a run in which its submission is refused and the payload forgotten |
| `HistoryRuns.Earliest` | common/scheduler/schedule.c:378-379 | the minimum of the dates submitted |
| `HistoryRuns.ReplaceHistory` | common/scheduler/schedule.c:376-388 | in every run a task has the earliest date, the latest payload, and the callback, lock and back-off of the first submission since its tuple was absent |
| `HistoryRuns.UnflushedTasksHaveHistory` | common/scheduler/schedule.c:322-399 | without a flush every scheduled task has such a history |
| `HistoryRuns.IdleCountIsExact` | common/scheduler/schedule.c:456-463 | in every run `num_waiting` is the number of workers asleep |
| `TimeLeap.SubmitAll` | common/scheduler/task.c:113 | the submissions of a callback reach the schedule and leave the task in hand alone |
| `TimeLeap.SubmissionsAreScheduled` | common/scheduler/task.c:113 | every submission of a callback is scheduled afterwards, for its date or an earlier one |
| `TimeLeap.Perform` | common/scheduler/task.c:103-143 | under a real or a set clock: after the callback's submissions the task is due exactly when its result says, whether a date, a code or a deferral, or is absent with its owned payload freed; without a callback it is destroyed |
| `TimeLeap.RunFirst` | enforcer/src/daemon/time_leap_cmd.c:189-198 | a round runs the first task there is, at the time leaped to and not before its date |
| `TimeLeap.NextTime` | enforcer/src/daemon/time_leap_cmd.c:180-181 | the next time is never in the past, and later than now only if everything is due then or later |
| `TimeLeap.Leap` | enforcer/src/daemon/time_leap_cmd.c:175-200 | the loop runs the first task each time and leaves the schedule of those runs; the clock never goes back and stands still after an enforce task, every task runs at or after its date, the loop stops early only if a date would leave 31 bits, and ends with an empty queue or after an enforce task with everything left due strictly later |
| `Workers.Daemon.Pop` | common/scheduler/worker.c:63-74 | popping on the trees is the step of taking the first due task, or of going to sleep when none is due |
| `Workers.Daemon.Begin` | common/scheduler/task.c:109-123 | entering a callback on the trees is the step of taking the lock of the task, which nobody else has |
| `Workers.Daemon.Finish` | common/scheduler/task.c:113-132 | leaving it is the step of giving the lock back and working out date and back-off; with `Complete`, `SchedulerRuns.FinishThenComplete` says where the task is |
| `Workers.Daemon.Complete` | common/scheduler/task.c:133-142 | rescheduling or destroying on the trees is that step, and the tasks in other hands stay as they are |
| `Workers.Daemon.Execute` | common/scheduler/worker.c:57-75 | every critical section on the trees, by any worker or caller, is one step of the state machine |
| `Workers.Daemon.Run` | common/scheduler/worker.c:57-75 | any interleaving of them keeps the trees and the tasks in hand equal to the state that the state machine reaches |
| `Workers.Daemon.Excludes` | common/scheduler/task.c:109-119 | on the trees two workers never run callbacks of one (owner, class), under the same discipline |
| `Workers.Daemon.FreesSafely` | common/scheduler/task.c:93-101 | on the trees no payload is freed twice, and none that a task in a tree or in hand refers to |
| `Fifoq.Queue.Push` | common/scheduler/fifoq.c:108-138 | appends to the queue, refuses when full, and notifies when the first item arrives |
| `Fifoq.Queue.Pop` | common/scheduler/fifoq.c:78-101 | the first item in is the first out, with its owner, and the rest keeps its order |
| `Fifoq.RunKeepsInv` | common/scheduler/fifoq.c:140-165 | in every run a waiting worker's counter is the number of reports to come, whether they came before or after the wait began |
| `Fifoq.WaitIsExact` | common/scheduler/fifoq.c:154-165 | a wait that ends without a request to exit has seen all reports and returns the number that failed |
| `Fifoq.NoLostWakeUp` | common/scheduler/fifoq.c:147-150 | a sleeping worker has a report to come, and exactly the last one wakes it |
| `Fifoq.WaitEnds` | common/scheduler/fifoq.c:159-163 | after the missing reports the wait returns the exact number of failures |
| `Fifoq.ExitEndsWaits` | common/scheduler/fifoq.c:159-161 | asked to exit, a worker does not fall asleep any more and leaves the wait when woken |
| `Framing.WriteHeader` | common/clientpipe.c:50-60 | opcode and length in network order, nothing else in the buffer changes |
| `Framing.ClientMsg` | common/clientpipe.c:72-81 | what is written is the encoded frame |
| `Framing.EncodeLayout` | common/clientpipe.c:50-81 | the opcode, the length with its high byte first, the payload, and nothing else |
| `Framing.MoveDown` | enforcer/src/ods-enforcer.c:141 | the bytes move to the front although source and target overlap |
| `Framing.Shorten` | enforcer/src/ods-enforcer.c:173-176 | only a header with the length still to come remains |
| `Framing.ExtractMsg` | enforcer/src/ods-enforcer.c:118-181 | the in-place loop delivers and leaves what the function `Extract` of the buffer says, and stays inside the buffer |
| `Framing.Receive` | enforcer/src/ods-enforcer.c:312-324 | a read appended to the buffer and extracted is `Extract` of old bytes and new |
| `Framing.FirstComplete` | enforcer/src/ods-enforcer.c:136-141 | a complete first frame is delivered as it was sent |
| `Framing.FirstTruncated` | enforcer/src/ods-enforcer.c:169-177 | after the discard the stream is the same frames, the first one without its beginning and not empty |
| `Framing.PromptFails` | enforcer/src/ods-enforcer.c:156-164 | a prompt that cannot be answered is delivered and ends the conversation with code 300 |
| `Framing.ExitIsChecked` | enforcer/src/ods-enforcer.c:143-148 | an EXIT is malformed if and only if its payload is not one byte |
| `Framing.ExtractKeepsStream` | enforcer/src/ods-enforcer.c:130-180 | one call delivers some frames, and buffer and unread bytes are the others; it never asks for more with a full buffer |
| `Framing.ReadsKeepStream` | enforcer/src/ods-enforcer.c:312-324 | the same after any number of reads |
| `Framing.ChunkingIsIrrelevant` | enforcer/src/ods-enforcer.c:130-180 | for every cut into reads: the same opcodes in order, whole payloads if they fit and non-empty ends otherwise, free space at every read, nothing left at the end |
| `Framing.ConversationEnds` | enforcer/src/ods-enforcer.c:130-180 | messages followed by an EXIT, for every cut into reads: all messages are delivered before the end and the exit code is the one sent |
| `Framing.ExitCodeIsExact` | enforcer/src/ods-enforcer.c:140-147 | the reported exit code is the one sent, if and only if at most three bytes follow or the fourth is equal |
| `Framing.ExitCodeIsLost` | enforcer/src/ods-enforcer.c:140-147 | an EXIT with code 0 and four bytes behind it ends with the fourth of them |
| `Base64.EncodeDecode` | common/b64_ntop.c:124-181 | decoding undoes encoding for all byte strings |
| `Base64.DecodeEncode` | common/b64_pton.c:171-285 | encoding undoes decoding, so no byte string has a second encoding |
| `Base64.DecodeIsCanonical` | common/b64_pton.c:171-285 | a string decodes to b if and only if it is the encoding of b |
| `Base64.LetterIsInAlphabet` | common/b64_ntop.c:58-59 | letter i is character i of the alphabet written out, for all 64 |
| `Base64.EncodeIsRadix64` | common/b64_ntop.c:131-176 | for all byte strings: the letters, read as digits in base 64 by their place in the alphabet, make the number that the bytes make in base 256, shifted by the zero bits of a last group, followed by the pad characters missing to a multiple of four |
| `Base64.EncodeLength` | common/b64_ntop.c:131-176 | four characters for every three bytes begun |
| `Base64.Vectors` | common/b64_ntop.c:124-181 | the vectors for f, fo and foo of section 10 of RFC 4648 |
| `Base64.DecodeStops` | common/b64_pton.c:233-284 | the verdict after the letters, by state and padding, is that of decoding four characters at a time |
| `Base64Codec.NTop` | common/b64_ntop.c:124-181 | writes the encoding and its terminator, and fails exactly when they do not fit; what the encoding is, is `Base64.EncodeIsRadix64` |
| `Base64Codec.InitializeRmap` | common/b64_pton.c:142-169 | the reverse map classifies every character and inverts the alphabet |
| `Base64Codec.Store` | common/b64_pton.c:196-230 | one turn of the switch adds six bits to the bytes so far, and fails exactly when there is no room |
| `Base64Codec.DecodeLetters` | common/b64_pton.c:180-231 | the loop stores the bits of the letters, skips white space, and has room if the buffer has the calculated size |
| `Base64Codec.CheckTail` | common/b64_pton.c:238-282 | the tail is accepted exactly when, white space apart, it is the padding of the state |
| `Base64Codec.PtonDo` | common/b64_pton.c:171-285 | it succeeds exactly when the stripped string decodes and its letters fit the buffer, an incomplete byte included, and then the decoded bytes are stored; with a buffer of the calculated size they fit |
| `Base64Codec.PtonLen` | common/b64_pton.c:288-378 | the length of what the decoder stores; beyond that it accepts exactly the strings with stray pad bits |
| `Base64Codec.StrayLength` | common/b64_pton.c:339-377 | "AB==" encodes nothing but has stray bits, so the length function accepts it |
| `Base64Codec.RoomEnough` | common/util.c:254-258 | the calculated size is enough for any string |
| `Base64Codec.SizeIsTight` | common/util.c:254-258 | for an encoding the calculated size is the bytes, a terminator and at most the padding |
| `Base64Codec.Pton` | common/b64_pton.c:380-391 | with a buffer, s is accepted exactly when, without white space, it is the encoding of some b and its letters fit, and then b is stored; the calculated size is enough; without a buffer the length of b is returned, and of all other strings exactly those with stray bits are accepted |
| `Duration.DigitsInNumber` | common/duration.c:196-209 | the number of decimal digits |
| `Duration.Duration2String` | common/duration.c:216-351 | the text of the duration, and a size computed in advance that is exact, terminator included |
| `Duration.NumIsDecimal` | common/duration.c:264-344 | numbers are printed in decimal without leading zeros |
| `Duration.PrintLayout` | common/duration.c:216-351 | the text letter by letter: each positive field with its letter, T only in front of a time, and PT0S for nothing at all |
| `Duration.TakesField` | common/duration.c:135-174 | a field that is printed next is read back and the cursor moves behind it |
| `Duration.TakesMonths` | common/duration.c:141-146 | months are read back, and the M of the minutes is not taken for them |
| `Duration.TakesMinutes` | common/duration.c:163-168 | minutes are read back, and the M of the months is not taken for them |
| `Duration.PrintParse` | common/duration.c:110-189 | parsing undoes printing for all fields in 0..2^31-1 with weeks alone |
| `Duration.ParsedWeeksAlone` | common/duration.c:176-187 | whatever the text, the parser never returns weeks beside anything else |
| `Duration.PrintParseIsExact` | common/duration.c:110-189 | for fields in 0..2^31-1 the round trip holds if and only if weeks stand alone |
| `Duration.WeekIsLost` | common/duration.c:147-187 | one week and one day is printed as P1W1D and read back as one day |
| `Duration.NeedsP` | common/duration.c:126-132 | a text without a P is refused, one with a P and no W never is |
| `Duration.WeeksBesideYears` | common/duration.c:177-183 | weeks beside any number of years are refused |
| `Duration.MinutesTwice` | common/duration.c:163-174 | the last M ends the minutes: of two numbers the first one counts and the seconds stand behind the second |
| `Duration.AtoiSigns` | common/duration.c:137 | a sign or a blank in front of a number |
| `Duration.UnitsConvert` | common/duration.c:358-380 | in every duration a unit counts as much as its number of the next smaller one: 60 seconds, 60 minutes, 24 hours, and 7, 31 and 365 days for weeks, months and years |
| `Duration.WeeksInSeconds` | common/duration.c:176-187 | the text of n weeks parses and converts to n * 604800 seconds, for all n of 31 bits |
| `Duration.SetTime` | common/duration.c:384-405 | for all times, negative ones included, the fields add up to the time again, all of one sign and each smaller than one unit of the next |
| `Duration.CompareIsLexicographic` | common/duration.c:70-103 | for all fields of 31 bits, weeks included, the result is the difference of the first fields that differ, and zero only for equal durations |
| `Duration.CompareWithNone` | common/duration.c:73-78 | a missing duration sorts behind all others and equals itself |
| `Duration.CompareIsByTime` | common/duration.c:70-103 | reduced durations compare as the times they stand for, and no two of them stand for the same time |
| `Duration.TimeRoundTrip` | common/duration.c:358-405 | set, print, parse and convert give every time back whose years fit 31 bits |
| `Duration.CompareTimes` | common/duration.c:70-103 | durations set from two such times compare exactly as the times |
| `Janitor.Rotate` | common/janitor.c:154-162 | a circular list is one from every starting point |
| `Janitor.Link` | common/janitor.c:258-266 | linking in front of the head gives a circle with the thread in front |
| `Janitor.Unlink` | common/janitor.c:200-202 | unlinking any member leaves the circle of the others and no links in the thread |
| `Janitor.Drop` | common/janitor.c:243-247 | the guarded splice does the same, and nothing to the list if the thread is in none |
| `Janitor.StepKeepsSeparate` | common/janitor.c:185-289 | every operation keeps each thread in at most one place |
| `Janitor.RunKeepsSeparate` | common/janitor.c:185-289 | so does every interleaving, and a released thread never comes back |
| `Janitor.FreedOnlyByJoin` | common/janitor.c:270-289 | in every run a thread that is not detached is freed only if it was joined |
| `Janitor.JoinedAfterFinish` | common/janitor.c:368-376 | and joined only if it finished before |
| `Janitor.Registry.RegisterThread` | common/janitor.c:253-268 | both circles stay sound, and the thread heads the running list |
| `Janitor.Registry.UnregisterThread` | common/janitor.c:185-225 | both circles stay sound, and the thread is in neither list |
| `Janitor.Registry.Dispose` | common/janitor.c:227-251 | both circles stay sound, and the thread is released and in no list |
| `Janitor.Registry.Finished` | common/janitor.c:270-289 | a thread that is not detached becomes the head of the finished list, in front of the others, and is not freed; a detached one is freed and in neither list |
| `Janitor.Registry.JoinThread` | common/janitor.c:368-376 | a finished thread leaves the list and is released |
| `Janitor.Registry.Run` | common/janitor.c:185-289 | any interleaving of the operations on the heap keeps the two circles sound and follows the abstract run |
| `Janitor.FindThread` | common/janitor.c:387-397 | the scan goes round once and finds a thread of the class exactly when there is one |
| `Janitor.Registry.TryJoinAll` | common/janitor.c:378-431 | with nothing in between its critical sections: terminates, joins exactly the finished threads of the class, keeps the order of the others, and reports whether one still runs |
| `Janitor.Registry.TryJoinAllAmid` | common/janitor.c:378-431 | with any enabled operations of other threads between its critical sections (the joins of the class apart): terminates, keeps both lists sound, amounts to one run of the operations, and reports exactly whether a thread of the class is in a list |
| `SqlClause.ScanText` | enforcer/src/db/db_backend_sqlite.c:405-512 | printed tokens scan back as the same tokens |
| `SqlClause.ParseTokens` | enforcer/src/db/db_backend_sqlite.c:385-528 | the tokens of a nested clause tree parse back to the tree, with slots numbered in order |
| `SqlClause.WhereRoundTrip` | enforcer/src/db/db_backend_sqlite.c:385-528 | so does its text: every clause, operator and parenthesis, up to the unprinted operator of each first clause |
| `SqlClause.FillNumbered` | enforcer/src/db/db_backend_sqlite.c:385-654 | filling the numbered slots with the values bound in order gives the tree that was asked for |
| `SqlClause.OrSeparates` | enforcer/src/db/db_clause.h:84-97 | in the printed list OR separates alternatives and AND binds tighter |
| `SqlClause.AndJoins` | enforcer/src/db/db_clause.h:84-97 | a list without OR is met exactly when every clause is |
| `SqlClause.NestedConditions` | enforcer/src/db/db_backend_sqlite.c:505-517 | a list in brackets counts as one condition, met exactly when the list is |
| `SqlClause.BoundIsStored` | enforcer/src/db/db_backend_sqlite.c:571-630 | a text is kept as it is, a signed number and an enumeration as the number, an unsigned one as the signed number of its size with the same bits, and nothing as NULL |
| `SqlClause.NumberConditions` | enforcer/src/db/db_backend_sqlite.c:432-503 | conditions on numbers are met exactly by the comparison they spell, NULL tests by NULL |
| `SqlClause.TextConditions` | enforcer/src/db/db_backend_sqlite.c:432-503 | a condition that a field equals a text is met exactly by that text, and the order of texts is that of a dictionary |
| `SqlClause.LookupByText` | enforcer/src/db/zone_db.c:1538-1549 | a lookup by a text selects exactly the rows whose cell is that text |
| `SqlStatement.SqlBuffer.BuildClause` | enforcer/src/db/db_backend_sqlite.c:385-528 | succeeds exactly when all types and operators are known and the whole text fits; then the text is appended unabridged and the room left is exact |
| `SqlStatement.SqlBuffer.BuildBody` | enforcer/src/db/db_backend_sqlite.c:430-523 | the same for one clause, nested lists included |
| `SqlStatement.CompareSpelling` | enforcer/src/db/db_backend_sqlite.c:433-485 | the six comparisons as they are written |
| `SqlStatement.NullSpelling` | enforcer/src/db/db_backend_sqlite.c:487-503 | the two NULL tests as they are written |
| `SqlStatement.Statement.BindValue` | enforcer/src/db/db_backend_sqlite.c:571-630 | the slot then holds the text or the number as `SqlClause.Stored` says, the other slots what they held, unless the type is not supported or the slot does not exist |
| `SqlStatement.Statement.BindClause` | enforcer/src/db/db_backend_sqlite.c:538-654 | the values of the tree fill consecutive slots in the order of the text, and the cursor ends behind them |
| `SqlStatement.BindableIsExact` | enforcer/src/db/db_backend_sqlite.c:555-650 | what can be bound: clauses of known types at every depth, all of whose values are supported |
| `SqlUpdate.SetsReadBack` | enforcer/src/db/db_backend_sqlite.c:1376-1413 | the assignments read back as the fields in order |
| `SqlUpdate.UpdateReadsBack` | enforcer/src/db/db_backend_sqlite.c:1365-1429 | the text of an update reads back as its fields and its tree, slots numbered on; it is no statement exactly when it sets nothing or has empty parentheses |
| `SqlUpdate.DeleteReadsBack` | enforcer/src/db/db_backend_sqlite.c:1624-1645 | the same for a delete |
| `SqlUpdate.FullIsNoneEmpty` | enforcer/src/db/db_backend_sqlite.c:505-517 | no nested list is empty, if and only if no opening parenthesis of the text is followed by a closing one |
| `SqlBackend.PrintSets` | enforcer/src/db/db_backend_sqlite.c:1374-1413 | fields, then the revision, appended unabridged exactly when they fit |
| `SqlBackend.BuildUpdate` | enforcer/src/db/db_backend_sqlite.c:1361-1429 | succeeds exactly when the clauses are known and the whole statement fits the buffer; then the text is the statement |
| `SqlBackend.BuildDelete` | enforcer/src/db/db_backend_sqlite.c:1624-1645 | the same for a delete |
| `SqlBackend.FindRevisionField` | enforcer/src/db/db_backend_sqlite.c:1297-1312 | finds the revision field and refuses objects with two |
| `SqlBackend.FindRevisionClause` | enforcer/src/db/db_backend_sqlite.c:1313-1328 | finds the first clause on the revision field |
| `SqlBackend.RevisionFieldsMean` | enforcer/src/db/db_backend_sqlite.c:1297-1312 | a field counts as a revision if and only if its type says so |
| `SqlBackend.DemandedIsFirst` | enforcer/src/db/db_backend_sqlite.c:1318-1328 | the revision demanded is the value of the first clause on the field, none in front of which names it |
| `SqlBackend.RevisionNumbers` | enforcer/src/db/db_backend_sqlite.c:1329-1360 | a revision is a number of any of the four integer types, kept in 64 bits, and no text or enumeration |
| `SqlBackend.BindUpdate` | enforcer/src/db/db_backend_sqlite.c:1438-1546 | slots hold the values to set, then the new revision, then the values of the conditions, and NULL behind |
| `SqlBackend.Database.Update` | enforcer/src/db/db_backend_sqlite.c:1260-1568 | for all arguments: exactly when an update succeeds, what the rows are afterwards in terms of the statement as the database reads it, and that a failed one changes nothing |
| `SqlBackend.Database.Delete` | enforcer/src/db/db_backend_sqlite.c:1570-1676 | likewise for a delete |
| `SqlBackend.UpdateRuns` | enforcer/src/db/db_backend_sqlite.c:1361-1546 | with proper names the database reads the update that was meant: its table, its fields, its conditions, and nothing else |
| `SqlBackend.DeleteRuns` | enforcer/src/db/db_backend_sqlite.c:1624-1657 | with proper names a delete removes exactly the rows that meet the conditions asked for |
| `SqlBackend.UpdateIsAligned` | enforcer/src/db/db_backend_sqlite.c:1438-1546 | with one value per field every field gets its own value, the revision the new number, and the conditions see their own values |
| `Revision.GuardSelects` | enforcer/src/db/key_data.c:1559-1583 | id and revision clauses select the row with that id if it still has that revision, and nothing else |
| `Revision.WritesNextRevision` | enforcer/src/db/db_backend_sqlite.c:1313-1361 | the revision written is the revision demanded plus one |
| `Revision.UpdateIsGuarded` | enforcer/src/db/db_backend_sqlite.c:1530-1565 | an update under these clauses replaces that one row, with the next revision, if the revision is unchanged |
| `Revision.NewRowHolds` | enforcer/src/db/db_backend_sqlite.c:1438-1546 | in the new row a field that is set once holds its value, never NULL, the revision is one more, and all other cells are as before |
| `Revision.UpdateObject` | enforcer/src/db/key_data.c:1353-1589 | the update of an object succeeds exactly when the row still has the revision that was read (and text and values are fine), and changes that row alone; afterwards every field set once holds the text or number given, none of them NULL |
| `Revision.DeleteObject` | enforcer/src/db/key_data.c:1591-1635 | likewise for its deletion |
| `Revision.UpdateSaw` | enforcer/src/db/db_backend_sqlite.c:1557-1565 | an update that succeeds in a run saw the row as it is |
| `Revision.DeleteSaw` | enforcer/src/db/db_backend_sqlite.c:1665-1673 | so did a delete that succeeds |
| `Revision.StepKeepsInv` | enforcer/src/db/db_backend_sqlite.c:703-714 | every create (at revision 1), read (the id cut to 32 bits), update and delete of every session keeps the invariant |
| `Revision.RunKeepsInv` | enforcer/src/db/db_backend_sqlite.c:1260-1676 | it holds in every interleaving in which ids are distinguished |
| `Revision.NoLostUpdate` | enforcer/src/db/db_backend_sqlite.c:1313-1565 | in every such interleaving a row's revision is one plus its successful updates, every success saw the row just before it, and no two succeed on one revision of a row |
| `Revision.NoLostUpdateIsExact` | enforcer/src/db/db_backend_sqlite.c:703-711 | no update is lost in any run, if and only if no id is cut to another one that may exist, and none that survives the cut is handed out twice |
| `Revision.WideIdsLoseUpdates` | enforcer/src/db/db_backend_sqlite.c:703-711 | for every two ids that are the same in 32 bits, a run in which what was read of one row is written over the other |
| `Revision.ReuseLosesUpdates` | enforcer/src/db/db_schema_sqlite.c:30-37 | for every id that is handed out twice, a run in which a session overwrites a row it never saw |

## Left out

- The MySQL backend (enforcer/src/db/db_backend_mysql.c), joins, counting, the SELECT and INSERT texts, transactions and the busy handler.
- Building clause objects (enforcer/src/db/db_clause.c): a clause tree is a value here, so aliasing and the append through begin/end are not modelled; nor is a revision clause written as IS NULL, which is treated as one without a number.
- SqlBackend.Database.Update: the grammar of the database's side knows only the statements that this backend prints, columns that do not exist are not refused, and column affinity is ignored; the revision is 64 bits wide.
- Revision.NoLostUpdate: holds for fewer than 2^63-2 statements, beyond which the revision leaves 64 bits; updates do not set the id.
- The server side of the message protocol (common/cmdhandler.c), sockets, prompts and output; a prompt's outcome is a parameter, and printing stops a payload at its first zero byte, which is not modelled.
- `time leap` with `--time` or without `--attach`; TimeLeap.Leap follows a run for as long as a list of callback outcomes lasts and dates fit 31 bits; real time stays below a horizon that leaves room for the longest back-off.
- Task structures live in an explicit memory map of addresses instead of Dafny objects; updates in place and sharing between the trees are modelled on that map, and use after release is the absence of an address.
- The nodes of the `ldns` red-black trees; insertion and deletion are not shown to balance.
- The callbacks of tasks, handler registration and task descriptions; a callback is a result and a list of submissions.
- A mutex that is destroyed by a purge while a task in flight refers to it: in the model it stays a mutex of its own.
- PayloadRuns.PayloadsAreSafe: a payload stands for one allocation, so an address that is freed and allocated again is another payload.
- Condition variables and mutexes themselves: a critical section is one step, and a wait is a blocked state with a wake-up step.
- That `janitor_thread_joinall` returns only after every thread ended: between unregister and finished a thread is in neither list. Barriers, thread attributes and signals are not modelled.
- Bytes above 127 in Base64 input, and the bit operations, which are written as arithmetic.
- Numbers that overflow `atoi`, a null text, and allocation failures in Duration.PrintParse and its neighbours; allocation failures everywhere else.
- Calendar and locale functions, random numbers, logging, configuration files, PKCS#11 and the HSM wrappers.
