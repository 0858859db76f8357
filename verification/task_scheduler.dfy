/**
 The scheduler state and its two operations: `Schedule` buffers a task handle,
 `Pulse` promotes the buffered handles and then advances every active task
 once, dropping those that report completion.

 A task's own `pulse()` is not part of this model. Within one scheduler pulse
 the k-th advance call (counting from 0) answers `outcome(k)`, so every
 possible task behaviour is one choice of `outcome`.
 */
module TaskScheduler {
  import Filter

  /** A task handle; the scheduler compares handles by identity only. */
  type TaskId = nat

  /** The buffer of submitted handles and the list of active handles, both in order. */
  datatype Scheduler = Scheduler(pending: seq<TaskId>, active: seq<TaskId>)

  /** A freshly constructed scheduler: both lists empty. */
  const Initial: Scheduler := Scheduler([], [])

  /** The list a pulse walks: the active handles followed by the promoted ones. */
  function Walk(s: Scheduler): (walk: seq<TaskId>)
  {
    s.active + s.pending
  }

  /** Buffers `t` behind every earlier submission; nothing is advanced. */
  function Schedule(s: Scheduler, t: TaskId): (s': Scheduler)
    ensures s'.active == s.active
    ensures |s'.pending| == |s.pending| + 1
    ensures s'.pending[..|s.pending|] == s.pending && s'.pending[|s.pending|] == t
  {
    s.(pending := s.pending + [t])
  }

  /** One tick: promote every pending handle, then keep the entries whose advance call continued. */
  function Pulse(s: Scheduler, outcome: nat -> bool): (s': Scheduler)
    ensures s'.pending == []
    ensures |s'.active| <= |s.active| + |s.pending|
  {
    Scheduler([], Filter.Keep(Walk(s), outcome))
  }

  /**
   The tick step as `TaskScheduler.pulse()` performs it (append loop, then
   `ArrayList` iterator with `remove`): append the buffered handles to
   the active list one by one and clear the buffer, then walk the active list
   with an iterator whose `remove` deletes the entry just returned by `next`.
   `advanced` lists the handles in the order their advance was called.
   */
  method PulseSteps(s: Scheduler, outcome: nat -> bool) returns (next: Scheduler, advanced: seq<TaskId>)
    ensures advanced == s.active + s.pending
    ensures next == Pulse(s, outcome)
  {
    var tasks := s.active;
    var newTasks := s.pending;
    var k := 0;
    while k < |newTasks|
      invariant 0 <= k <= |newTasks|
      invariant tasks == s.active + newTasks[..k]
    {
      tasks := tasks + [newTasks[k]];
      k := k + 1;
    }
    newTasks := [];

    ghost var walk := tasks;
    var cursor := 0;
    advanced := [];
    while cursor < |tasks|
      invariant cursor <= |tasks|
      invariant |advanced| <= |walk| && advanced == walk[..|advanced|]
      invariant tasks[..cursor] == Filter.Keep(walk[..|advanced|], outcome)
      invariant tasks[cursor..] == walk[|advanced|..]
      decreases |tasks| - cursor
    {
      var task := tasks[cursor];
      cursor := cursor + 1;
      var more := outcome(|advanced|);
      Filter.KeepSnoc(walk[..|advanced|], task, outcome);
      assert walk[..|advanced| + 1] == walk[..|advanced|] + [task];
      advanced := advanced + [task];
      if !more {
        tasks := tasks[..cursor - 1] + tasks[cursor..];
        cursor := cursor - 1;
      }
    }
    assert walk[..|advanced|] == walk;
    next := Scheduler(newTasks, tasks);
  }

  /** The new active list is the walked list restricted, in order, to exactly the continuing positions. */
  lemma PulseIsOrderedFilter(s: Scheduler, outcome: nat -> bool)
    ensures |Pulse(s, outcome).active| == |Filter.KeptIndices(|Walk(s)|, outcome)|
    ensures forall j :: 0 <= j < |Pulse(s, outcome).active| ==>
              Pulse(s, outcome).active[j] == Walk(s)[Filter.KeptIndices(|Walk(s)|, outcome)[j]]
    ensures multiset(Pulse(s, outcome).active) <= multiset(s.active) + multiset(s.pending)
  {
    Filter.KeepIsSelection(Walk(s), outcome);
    Filter.KeepSubMultiset(Walk(s), outcome);
  }

  /** A scheduled handle is walked last in the next pulse and stays active exactly when its call continues. */
  lemma ScheduledJoinsNextPulse(s: Scheduler, t: TaskId, outcome: nat -> bool)
    ensures Walk(Schedule(s, t)) == Walk(s) + [t]
    ensures Pulse(Schedule(s, t), outcome).active ==
            Pulse(s, outcome).active + (if outcome(|Walk(s)|) then [t] else [])
  {
  }

  /** Two submissions of one handle add two entries of it to the walk. */
  lemma DuplicateScheduleWalk(s: Scheduler, t: TaskId)
    ensures Walk(Schedule(Schedule(s, t), t)) == Walk(s) + [t, t]
    ensures multiset(Walk(Schedule(Schedule(s, t), t)))[t] == multiset(Walk(s))[t] + 2
  {
    assert Walk(Schedule(Schedule(s, t), t)) == Walk(s) + [t, t];
    assert multiset(Walk(s) + [t, t]) == multiset(Walk(s)) + multiset{t, t};
  }

  /** Two trailing entries that both continue both survive, at the end. */
  lemma KeepTwoTrailing(w: seq<TaskId>, t: TaskId, outcome: nat -> bool)
    requires outcome(|w|) && outcome(|w| + 1)
    ensures Filter.Keep(w + [t, t], outcome) == Filter.Keep(w, outcome) + [t, t]
  {
    Filter.KeepSnoc(w, t, outcome);
    Filter.KeepSnoc(w + [t], t, outcome);
    assert w + [t, t] == (w + [t]) + [t];
  }

  /** Submitting a handle twice walks it twice; if both calls continue, both entries stay. */
  lemma DuplicateScheduleAdvancesTwice(s: Scheduler, t: TaskId, outcome: nat -> bool)
    ensures multiset(Walk(Schedule(Schedule(s, t), t)))[t] == multiset(Walk(s))[t] + 2
    ensures outcome(|Walk(s)|) && outcome(|Walk(s)| + 1) ==>
              Pulse(Schedule(Schedule(s, t), t), outcome).active == Pulse(s, outcome).active + [t, t]
  {
    DuplicateScheduleWalk(s, t);
    if outcome(|Walk(s)|) && outcome(|Walk(s)| + 1) {
      KeepTwoTrailing(Walk(s), t, outcome);
    }
  }

  /** An entry whose call continued is active after the pulse. */
  lemma ContinuingTaskStaysActive(s: Scheduler, outcome: nat -> bool, i: nat)
    requires i < |Walk(s)| && outcome(i)
    ensures Walk(s)[i] in Pulse(s, outcome).active
  {
    Filter.KeepContinuing(Walk(s), outcome, i);
  }

  /** A handle every one of whose calls reported completion is gone after the pulse. */
  lemma FinishedTaskIsDropped(s: Scheduler, outcome: nat -> bool, t: TaskId)
    requires forall i :: 0 <= i < |Walk(s)| && Walk(s)[i] == t ==> !outcome(i)
    ensures t !in Walk(Pulse(s, outcome))
  {
    Filter.KeepDropsFinished(Walk(s), outcome, t);
    assert Walk(Pulse(s, outcome)) == Pulse(s, outcome).active;
  }
}
