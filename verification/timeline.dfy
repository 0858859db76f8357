/**
 Submissions interleaved with ticks. A run records every advance call, in
 call order, so that "advanced", "not advanced" and "advanced again" can be
 stated across several pulses.
 */
module Timeline {
  import Filter
  import opened TaskScheduler

  /** One thing that happens to the scheduler: a submission or a timer tick. */
  datatype Event = Submit(task: TaskId) | Tick(outcome: nat -> bool)

  /** The state after some events and every handle advanced on the way, in call order. */
  datatype History = History(state: Scheduler, advanced: seq<TaskId>)

  /** A submission only buffers; a tick advances the whole walk and empties the buffer. */
  function Step(s: Scheduler, e: Event): (h: History)
    ensures e.Submit? ==> h.advanced == [] && h.state.active == s.active && Walk(h.state) == Walk(s) + [e.task]
    ensures e.Tick? ==> h.advanced == Walk(s) && h.state.pending == []
    ensures forall t :: t in Walk(h.state) ==> t in Walk(s) || e == Submit(t)
  {
    match e
    case Submit(t) => History(Schedule(s, t), [])
    case Tick(outcome) => History(Pulse(s, outcome), Walk(s))
  }

  /** Runs `events` in order; only handles already scheduled or submitted on the way are ever advanced. */
  function Run(s: Scheduler, events: seq<Event>): (h: History)
    ensures forall t :: t in h.advanced ==> t in Walk(s) || Submits(events, t)
    ensures forall t :: t in Walk(h.state) ==> t in Walk(s) || Submits(events, t)
    decreases |events|
  {
    if |events| == 0 then History(s, [])
    else
      var first := Step(s, events[0]);
      var rest := Run(first.state, events[1..]);
      History(rest.state, first.advanced + rest.advanced)
  }

  predicate HasTick(events: seq<Event>)
  {
    exists k :: 0 <= k < |events| && events[k].Tick?
  }

  predicate Submits(events: seq<Event>, t: TaskId)
  {
    exists k :: 0 <= k < |events| && events[k] == Submit(t)
  }

  /** The handles submitted by `events`, in submission order. */
  function Submitted(events: seq<Event>): (submitted: seq<TaskId>)
  {
    if |events| == 0 then []
    else (if events[0].Submit? then [events[0].task] else []) + Submitted(events[1..])
  }

  /** At every tick of the run, every call on an entry of `t` continues. */
  ghost predicate AlwaysContinues(t: TaskId, s: Scheduler, events: seq<Event>)
    decreases |events|
  {
    |events| == 0 ||
    ((events[0].Tick? ==> forall i :: 0 <= i < |Walk(s)| && Walk(s)[i] == t ==> events[0].outcome(i))
     && AlwaysContinues(t, Step(s, events[0]).state, events[1..]))
  }

  /** Dropping the first event of a run without ticks leaves a run without ticks. */
  lemma NoTickInTail(events: seq<Event>)
    requires |events| > 0 && !HasTick(events)
    ensures !HasTick(events[1..])
  {
    forall k | 0 <= k < |events[1..]|
      ensures !events[1..][k].Tick?
    {
      assert events[1..][k] == events[k + 1];
    }
  }

  /** Without ticks, nothing is advanced and the active list stays as it was. */
  lemma {:induction false} SubmissionsKeepActive(s: Scheduler, events: seq<Event>)
    requires !HasTick(events)
    ensures Run(s, events).advanced == []
    ensures Run(s, events).state.active == s.active
    decreases |events|
  {
    if |events| > 0 {
      assert events[0].Submit?;
      NoTickInTail(events);
      SubmissionsKeepActive(Schedule(s, events[0].task), events[1..]);
    }
  }

  /** Without ticks, the buffer grows by exactly the submitted handles, in order. */
  lemma {:induction false} SubmissionsFillBuffer(s: Scheduler, events: seq<Event>)
    requires !HasTick(events)
    ensures Run(s, events).state.pending == s.pending + Submitted(events)
    decreases |events|
  {
    if |events| > 0 {
      assert events[0].Submit?;
      NoTickInTail(events);
      var s1 := Schedule(s, events[0].task);
      assert Run(s, events).state == Run(s1, events[1..]).state;
      assert Submitted(events) == [events[0].task] + Submitted(events[1..]);
      SubmissionsFillBuffer(s1, events[1..]);
      assert s.pending + ([events[0].task] + Submitted(events[1..]))
          == (s.pending + [events[0].task]) + Submitted(events[1..]);
    }
  }

  /** Submissions alone advance nothing, leave the active list untouched and buffer exactly what was submitted. */
  lemma SubmissionsAdvanceNothing(s: Scheduler, events: seq<Event>)
    requires !HasTick(events)
    ensures Run(s, events).advanced == []
    ensures Run(s, events).state.active == s.active
    ensures Run(s, events).state.pending == s.pending + Submitted(events)
  {
    SubmissionsKeepActive(s, events);
    SubmissionsFillBuffer(s, events);
  }

  /** A handle waiting or active is advanced at least once as soon as a tick occurs. */
  lemma {:induction false} WaitingTaskAdvancedByTick(s: Scheduler, events: seq<Event>, t: TaskId)
    requires t in Walk(s) && HasTick(events)
    ensures t in Run(s, events).advanced
    decreases |events|
  {
    var first := Step(s, events[0]);
    if events[0].Submit? {
      assert Walk(first.state) == Walk(s) + [events[0].task];
      assert HasTick(events[1..]) by {
        var k :| 0 <= k < |events| && events[k].Tick?;
        assert events[1..][k - 1] == events[k];
      }
      WaitingTaskAdvancedByTick(first.state, events[1..], t);
    }
  }

  /**
   A handle that is neither waiting nor active is not advanced by any earlier
   ticks, and is advanced once a tick follows its submission.
   */
  lemma SubmittedTaskAdvancedNextTick(s: Scheduler, t: TaskId, before: seq<Event>, after: seq<Event>)
    requires HasTick(after)
    requires t !in Walk(s) && !Submits(before, t)
    ensures t !in Run(s, before).advanced
    ensures t in Run(Run(s, before).state, [Submit(t)] + after).advanced
  {
    DroppedTaskNeverAdvanced(s, before, t);
    var s1 := Schedule(Run(s, before).state, t);
    assert t in Walk(s1);
    WaitingTaskAdvancedByTick(s1, after, t);
    assert ([Submit(t)] + after)[1..] == after;
  }

  /** A handle that is neither waiting nor active and is never submitted again is never advanced again. */
  lemma DroppedTaskNeverAdvanced(s: Scheduler, events: seq<Event>, t: TaskId)
    requires t !in Walk(s) && !Submits(events, t)
    ensures t !in Run(s, events).advanced
    ensures t !in Walk(Run(s, events).state)
  {
  }

  /** A handle whose calls always continue stays scheduled through the whole run. */
  lemma {:induction false} ContinuingTaskStays(s: Scheduler, events: seq<Event>, t: TaskId)
    requires t in Walk(s) && AlwaysContinues(t, s, events)
    ensures t in Walk(Run(s, events).state)
    decreases |events|
  {
    if |events| > 0 {
      var first := Step(s, events[0]);
      match events[0] {
        case Submit(u) =>
          assert Walk(first.state) == Walk(s) + [u];
        case Tick(outcome) =>
          var i :| 0 <= i < |Walk(s)| && Walk(s)[i] == t;
          Filter.KeepContinuing(Walk(s), outcome, i);
          assert Walk(first.state) == Pulse(s, outcome).active;
      }
      ContinuingTaskStays(first.state, events[1..], t);
    }
  }

  /** Two handles whose calls always continue keep their relative order through the whole run. */
  lemma {:induction false} ContinuingTasksKeepOrder(s: Scheduler, events: seq<Event>, a: TaskId, b: TaskId)
    requires Filter.Precedes(Walk(s), a, b)
    requires AlwaysContinues(a, s, events) && AlwaysContinues(b, s, events)
    ensures Filter.Precedes(Walk(Run(s, events).state), a, b)
    decreases |events|
  {
    if |events| > 0 {
      var first := Step(s, events[0]);
      var i, j :| 0 <= i < j < |Walk(s)| && Walk(s)[i] == a && Walk(s)[j] == b;
      match events[0] {
        case Submit(u) =>
          assert Walk(first.state) == Walk(s) + [u];
          assert Walk(first.state)[i] == a && Walk(first.state)[j] == b;
        case Tick(outcome) =>
          Filter.KeepPreservesOrder(Walk(s), outcome, i, j);
          assert Walk(first.state) == Pulse(s, outcome).active;
      }
      ContinuingTasksKeepOrder(first.state, events[1..], a, b);
    }
  }

  /** Running `[e] + rest` is one step followed by the rest of the run. */
  lemma RunPrepend(s: Scheduler, e: Event, rest: seq<Event>)
    ensures Run(s, [e] + rest).state == Run(Step(s, e).state, rest).state
    ensures Run(s, [e] + rest).advanced == Step(s, e).advanced + Run(Step(s, e).state, rest).advanced
  {
  }

  /** The first pulse of the scenario: the first task completes, the other two stay, in order. */
  lemma ScenarioFirstTick(first: nat -> bool)
    requires !first(0) && first(1) && first(2)
    ensures Pulse(Scheduler([1, 2, 3], []), first) == Scheduler([], [2, 3])
  {
    Filter.KeepSnoc([1, 2], 3, first);
    Filter.KeepSnoc([1], 2, first);
    Filter.KeepSnoc([], 1, first);
    assert [1, 2, 3] == [1, 2] + [3] && [1, 2] == [1] + [2] && [1] == [] + [1];
    assert Walk(Scheduler([1, 2, 3], [])) == [1, 2, 3];
  }

  /** The second pulse of the scenario: both survivors continue again. */
  lemma ScenarioSecondTick(second: nat -> bool)
    requires second(0) && second(1)
    ensures Pulse(Scheduler([], [2, 3]), second) == Scheduler([], [2, 3])
  {
  }

  /** The two ticks of the scenario, starting from the three buffered handles. */
  lemma ScenarioTicks(first: nat -> bool, second: nat -> bool)
    requires !first(0) && first(1) && first(2)
    requires second(0) && second(1)
    ensures Run(Scheduler([1, 2, 3], []), [Tick(first)]) == History(Scheduler([], [2, 3]), [1, 2, 3])
    ensures Run(Scheduler([1, 2, 3], []), [Tick(first), Tick(second)])
              == History(Scheduler([], [2, 3]), [1, 2, 3, 2, 3])
  {
    var s3 := Scheduler([1, 2, 3], []);
    var p1 := Scheduler([], [2, 3]);
    ScenarioFirstTick(first);
    ScenarioSecondTick(second);
    RunPrepend(p1, Tick(second), []);
    assert Run(p1, [Tick(second)]) == History(p1, [2, 3]);
    RunPrepend(s3, Tick(first), []);
    RunPrepend(s3, Tick(first), [Tick(second)]);
  }

  /**
   Three handles submitted before the first tick: the first reports completion
   on its first call, the other two keep going. The first tick advances all
   three in submission order; the second advances only the two survivors.
   */
  lemma ThreeTaskScenario(first: nat -> bool, second: nat -> bool)
    requires !first(0) && first(1) && first(2)
    requires second(0) && second(1)
    ensures Run(Initial, [Submit(1), Submit(2), Submit(3), Tick(first)]) == History(Scheduler([], [2, 3]), [1, 2, 3])
    ensures Run(Initial, [Submit(1), Submit(2), Submit(3), Tick(first), Tick(second)])
              == History(Scheduler([], [2, 3]), [1, 2, 3, 2, 3])
  {
    var s1 := Schedule(Initial, 1);
    var s2 := Schedule(s1, 2);
    var s3 := Schedule(s2, 3);
    assert s3 == Scheduler([1, 2, 3], []);
    ScenarioTicks(first, second);
    RunPrepend(s2, Submit(3), [Tick(first)]);
    RunPrepend(s2, Submit(3), [Tick(first), Tick(second)]);
    RunPrepend(s1, Submit(2), [Submit(3), Tick(first)]);
    RunPrepend(s1, Submit(2), [Submit(3), Tick(first), Tick(second)]);
    RunPrepend(Initial, Submit(1), [Submit(2), Submit(3), Tick(first)]);
    RunPrepend(Initial, Submit(1), [Submit(2), Submit(3), Tick(first), Tick(second)]);
  }
}
