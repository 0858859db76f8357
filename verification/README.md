# Lightstone task scheduler: a Dafny model of the pulse step

Lightstone's `TaskScheduler` drives recurring tasks. Any caller can `schedule` a
task. The handle goes into a buffer of new tasks. On every pulse the scheduler
first moves the whole buffer, in order, to the end of its list of active tasks
and clears the buffer. It then walks the active list with an iterator. It calls
each task's `pulse()` once, and removes the entry in place through the iterator
when the call answers `false`.

The model has three modules:

- `Filter` (filter.dfy) holds the order-preserving "filter while iterating".
  `Keep` is the list of survivors. `KeptIndices` is its reference description:
  the strictly increasing list of exactly those positions whose call answered
  `true`. The lemmas derive order, membership and multiplicity facts from that.
- `TaskScheduler` (task_scheduler.dfy) holds the state `Scheduler(pending, active)`,
  the pure operations `Schedule` and `Pulse`, and `PulseSteps`. `PulseSteps` is
  the tick written the way `TaskScheduler.pulse()` performs it: an append loop for the
  drain, then an `ArrayList` iterator loop. Its `remove` deletes the entry just
  returned by `next` and steps the cursor back. It is proved equal to `Pulse`,
  and it records the handles in the order their `pulse()` was called.
- `Timeline` (timeline.dfy) holds runs of interleaved `Submit` and `Tick`
  events. These state the properties that span several pulses.

A task's behaviour is an input. Within one scheduler pulse, the k-th call to a
task's `pulse()` (counting from 0, in walk order) answers `outcome(k)`. The
`outcome` function is a parameter. So every possible task behaviour is covered,
including a handle scheduled twice that answers differently at its two entries.

## Model

| member | source | states |
|---|---|---|
| TaskScheduler.Schedule | src/net/lightstone/task/TaskScheduler.java:71-75 | the given handle is appended behind every earlier submission, and the active list is unchanged |
| TaskScheduler.Pulse | src/net/lightstone/task/TaskScheduler.java:80-94 | after a pulse the buffer of new tasks is empty, and the active list is never longer than old active plus old pending |
| TaskScheduler.PulseSteps | src/net/lightstone/task/TaskScheduler.java:80-93 | the drain loop followed by the iterator-remove loop calls `pulse()` on exactly the entries of old active followed by old pending, each once and in list order; the number of calls equals the combined length; the resulting state equals `Pulse` |
| TaskScheduler.PulseIsOrderedFilter | src/net/lightstone/task/TaskScheduler.java:82-93 | the new active list is the combined list restricted, in order, to exactly the positions whose call answered `true`; its length is the number of `true` answers; it holds no handle more often than the combined list does |
| TaskScheduler.ScheduledJoinsNextPulse | src/net/lightstone/task/TaskScheduler.java:71-93 | a scheduled handle is walked last in the next pulse, after all earlier entries, and it is active afterwards exactly when its call answers `true` |
| TaskScheduler.DuplicateScheduleAdvancesTwice | src/net/lightstone/task/TaskScheduler.java:71-93 | scheduling one handle twice gives two entries, so it is walked twice; if both calls continue, both entries stay active at the end of the list |
| TaskScheduler.ContinuingTaskStaysActive | src/net/lightstone/task/TaskScheduler.java:88-93 | an entry whose call answered `true` is in the new active list |
| TaskScheduler.FinishedTaskIsDropped | src/net/lightstone/task/TaskScheduler.java:85-92 | a handle all of whose calls answered `false` is neither active nor pending after the pulse |
| Filter.Keep | src/net/lightstone/task/TaskScheduler.java:88-93 | the survivors of the iterator walk are never more than the walked entries, and every survivor is a walked handle; `KeepIsSelection` pins them exactly |
| Filter.KeptIndices | src/net/lightstone/task/TaskScheduler.java:88-92 | the positions are ascending and below the list length, and a position is listed exactly when its call answered `true` |
| Filter.KeepIsSelection | src/net/lightstone/task/TaskScheduler.java:88-93 | the survivors of the iterator walk are the list entries at exactly the continuing positions, in ascending order, so none is skipped or repeated |
| Filter.KeepSnoc | src/net/lightstone/task/TaskScheduler.java:88-93 | one more entry at the end of the walk is appended to the survivors exactly when its call continues, and earlier survivors are unaffected |
| Filter.KeepSubMultiset | src/net/lightstone/task/TaskScheduler.java:88-93 | the walk invents no handle: each handle survives at most as often as it occurs |
| Filter.KeepContinuing | src/net/lightstone/task/TaskScheduler.java:88-92 | an entry whose call answered `true` survives |
| Filter.KeepDropsFinished | src/net/lightstone/task/TaskScheduler.java:90-92 | a handle all of whose calls answered `false` is not among the survivors |
| Filter.KeepPreservesOrder | src/net/lightstone/task/TaskScheduler.java:88-93 | two continuing entries keep their relative order among the survivors |
| Timeline.Step | src/net/lightstone/task/TaskScheduler.java:71-93 | a submission advances nothing, leaves the active list alone and adds only its handle to the walk; a tick advances exactly the walk (old active followed by old pending) and empties the buffer; no step brings in a handle other than the one it submits |
| Timeline.Run | src/net/lightstone/task/TaskScheduler.java:71-93 | over any sequence of submissions and ticks, only handles that were already pending or active, or were submitted during the run, are ever advanced or end up scheduled |
| Timeline.SubmissionsAdvanceNothing | src/net/lightstone/task/TaskScheduler.java:71-75 | submissions without a tick call no task's `pulse()` and leave the active list alone; the buffer becomes the old buffer followed by exactly the submitted handles, in submission order, with nothing lost or duplicated |
| Timeline.WaitingTaskAdvancedByTick | src/net/lightstone/task/TaskScheduler.java:80-90 | a handle that is pending or active is advanced at least once as soon as any tick occurs |
| Timeline.SubmittedTaskAdvancedNextTick | src/net/lightstone/task/TaskScheduler.java:71-90 | a handle that is neither pending nor active is not advanced by any ticks before its submission, however many there are, and is advanced once a tick follows its submission |
| Timeline.DroppedTaskNeverAdvanced | src/net/lightstone/task/TaskScheduler.java:80-93 | a handle that is neither pending nor active and is not submitted again is never advanced again and never comes back |
| Timeline.ContinuingTaskStays | src/net/lightstone/task/TaskScheduler.java:80-93 | over consecutive submissions and ticks, a handle whose calls always continue stays scheduled |
| Timeline.ContinuingTasksKeepOrder | src/net/lightstone/task/TaskScheduler.java:80-93 | over consecutive submissions and ticks, two handles whose calls always continue keep their relative order |
| Timeline.RunPrepend | src/net/lightstone/task/TaskScheduler.java:71-93 | a run is its first event followed by the rest: states and advance lists compose |
| Timeline.ThreeTaskScenario | src/net/lightstone/task/TaskScheduler.java:71-93 | handles 1, 2, 3 are submitted and 1 completes on its first call. The first tick advances 1, 2, 3 in that order and leaves 2, 3. The second tick advances only 2, 3 |

## Left out

- The `ScheduledExecutorService`, the `scheduleAtFixedRate` call in the constructor and the 200 ms `PULSE_EVERY` interval (lines 38, 43, 58-65) are left out. They are wall-clock timing and thread plumbing. A tick is an explicit `Tick` event, and the constructor is the constant `Initial` with both lists empty.
- The `synchronized (newTasks)` blocks (lines 72, 81) are left out. `Schedule` and `Pulse` are modelled as atomic sequential steps. A submission that races with a pulse is modelled as an event before or after that pulse.
- Concrete `Task` implementations are not part of this model, since the `Task` interface and its implementations are not shown. Each call's answer comes from the `outcome` parameter.
- Exceptions thrown from a task's `pulse()` are left out. Neither `pulse()` nor the timer's runnable (lines 59-64) catches them, and a periodic executor task that throws is never run again. So one throwing task ends all scheduling for good, while `schedule` keeps buffering handles that never run. The model's `Tick` always completes.
- A null handle is not modelled: `TaskId` has no null value. `TaskScheduler` accepts `schedule(null)` (line 73), and the next pulse then throws a `NullPointerException` at line 90, which ends all scheduling in the same way.
- There is no start/stop lifecycle and no rejection after stop. `TaskScheduler` has no stop operation, so there is nothing to model.
- `schedule` does not de-duplicate: a handle may be both pending and active, or appear twice in either list. `DuplicateScheduleAdvancesTwice` states the result.
- How many times a given task is advanced before it reports completion is not stated, because `outcome` is indexed by call position within a pulse, not per task. `FinishedTaskIsDropped` and `DroppedTaskNeverAdvanced` state that a dropped handle is never advanced again.
- Filter.Keep: its own contract states only the length bound and that every survivor is a walked handle. The exact survivor list, at exactly the continuing positions and in order, is stated by `Filter.KeepIsSelection`, because a quantified contract on this recursive function would be paid by every proof that unfolds it.
