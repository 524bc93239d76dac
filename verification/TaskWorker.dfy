/**
 The worker loop of a background task, running beside every other thread and worker.

 Between any two of its steps the others take any steps they like: create, cancel, and the workers of
 other tasks. The object records the run, so that what is proved of all runs holds of it; that the loop
 ends at all is the termination measure of `TaskSystem`.
 */
module TaskWorker {
  import opened Wrappers
  import opened BackgroundTasks
  import opened TaskSystem

  class TaskHost {
    const runtime: BackgroundTaskRuntime
    var workers: map<TaskId, Worker>
    var modes: map<TaskId, Mode>
    var results: map<TaskId, seq<Outcome>>
    var handoffs: map<TaskId, nat>
    ghost var states: seq<Sys>
    ghost var events: seq<Event>
    /** The numbers of the events that were calls of `Cancel` on this object, in order. */
    ghost var calls: seq<nat>

    function View(): Sys
      reads this, runtime
    {
      Sys(runtime.tasks, workers, modes, results, handoffs)
    }

    predicate Works(id: TaskId, w: Worker)
      reads this
    {
      id in workers && workers[id] == w
    }

    ghost predicate Valid()
      reads this, runtime
    {
      Run(states, events) && states[|events|] == View()
    }

    twostate predicate Continued()
      reads this, runtime
    {
      Valid() && old(events) <= events && old(states) <= states
    }

    /** The object has gone on without calls of `Cancel`. */
    twostate predicate OthersContinued()
      reads this, runtime
    {
      Continued() && calls == old(calls)
    }

    constructor ()
      ensures Valid() && fresh(runtime) && View() == INITIAL
    {
      runtime := new BackgroundTaskRuntime();
      workers, modes, results, handoffs := map[], map[], map[], map[];
      states, events, calls := [INITIAL], [], [];
    }

    /** Notes that event `e` has led from the last recorded state to the present one. */
    ghost method Record(e: Event)
      requires Run(states, events) && Step(states[|events|], e, View())
      modifies this`states, this`events
      ensures Valid() && events == old(events) + [e] && states == old(states) + [View()]
    {
      states, events := states + [View()], events + [e];
    }

    /** Any number of steps that are not steps of the worker of `id`. */
    method OthersStep(id: TaskId)
      requires Valid() && id in workers
      modifies this, runtime
      ensures Continued() && id in workers && SameOrNoticed(old(workers[id]), workers[id])
      ensures Measure(id) <= old(Measure(id))
    {
      hide Run, Step;
      var n: int := *;
      for i := 0 to if n > 0 then n else 0
        invariant Continued() && id in workers && SameOrNoticed(old(workers[id]), workers[id])
        invariant Measure(id) <= old(Measure(id))
      {
        var e: Event, s: Sys := *, *;
        if !IsWorkerStep(e, id) && Step(View(), e, s) {
          OthersMove(id, e, s);
          runtime.tasks := s.tasks;
          workers, modes, results, handoffs := s.workers, s.modes, s.results, s.handoffs;
          Record(e);
        }
      }
    }

    /** Any number of steps of any threads and workers. */
    method AnySteps()
      requires Valid()
      modifies this, runtime
      ensures OthersContinued()
    {
      var n: int := *;
      for i := 0 to if n > 0 then n else 0
        invariant OthersContinued()
      {
        var e: Event, s: Sys := *, *;
        if Step(View(), e, s) {
          runtime.tasks := s.tasks;
          workers, modes, results, handoffs := s.workers, s.modes, s.results, s.handoffs;
          Record(e);
        }
      }
    }

    /** `cancel` */
    method Cancel(id: TaskId) returns (cancelled: bool)
      requires Valid()
      modifies this, runtime
      ensures Continued() && |events| == |old(events)| + 1 && calls == old(calls) + [|old(events)|]
      ensures events[|old(events)|].Cancel? && events[|old(events)|].id == id
      ensures cancelled <==> CancelSucceeds(states, events, |old(events)|, id)
      ensures !Cancellable(runtime.tasks, id)
    {
      var now: int := *;
      var listening := id in workers && workers[id] == Sleeping;
      cancelled := runtime.Cancel(id, now);
      if cancelled && listening {
        workers := workers[id := Noticed];
      }
      calls := calls + [|events|];
      Record(Event.Cancel(id, now));
    }

    /**
     `cancel_owner`, beside all other threads. It calls `cancel` once for every task the owner had at the
     start: `index` are the numbers of these calls. Afterwards none of the tasks is active, and the count is
     that of the calls that succeeded.
     */
    method CancelOwner(owner: string) returns (count: nat, ghost index: map<TaskId, nat>)
      requires Valid()
      modifies this, runtime
      ensures Continued() && CancelledAll(states, events, |old(events)|, index)
      ensures index.Keys == set id | id in old(runtime.tasks) && old(runtime.tasks)[id].owner == owner
      ensures OwnCalls(old(calls), calls, index)
      ensures count == |Succeeded(states, events, index)|
      ensures forall id | id in index :: !Cancellable(runtime.tasks, id)
    {
      var ids := set id | id in runtime.tasks && runtime.tasks[id].owner == owner;
      ghost var all, from := ids, |events|;
      count, index := 0, map[];
      KnownAtStart(owner);
      assert Succeeded(states, events, index) == {} && CancelledAll(states, events, from, index);
      assert OwnCalls(calls, calls, index);
      hide Run, Step, View, Valid, Cancellable, CancelledAll, Succeeded, OwnCalls;
      while ids != {}
        invariant Continued() && from <= |events| && CancelledAll(states, events, from, index)
        invariant ids <= all <= states[from].workers.Keys && index.Keys == all - ids
        invariant OwnCalls(old(calls), calls, index)
        invariant count == |Succeeded(states, events, index)|
        decreases ids
      {
        var id :| id in ids;
        OwnMore(old(calls), calls, index, id);
        var cancelled := CancelNext(id, from, index);
        index := index[id := |events| - 1];
        ids := ids - {id};
        if cancelled {
          count := count + 1;
        }
      }
      NoneActive(from, index);
    }

    lemma KnownAtStart(owner: string)
      requires Valid()
      ensures (set id | id in runtime.tasks && runtime.tasks[id].owner == owner) <= states[|events|].workers.Keys
    {
      InvAlways(states, events, |events|);
    }

    lemma NoneActive(from: nat, index: map<TaskId, nat>)
      requires Valid() && CancelledAll(states, events, from, index)
      ensures forall id | id in index :: !Cancellable(runtime.tasks, id)
    {
    }

    /** Others act, and then `id` is cancelled. */
    method CancelNext(id: TaskId, ghost from: nat, ghost index: map<TaskId, nat>) returns (cancelled: bool)
      requires Valid() && CancelledAll(states, events, from, index) && from <= |events|
      requires id in states[from].workers && id !in index
      modifies this, runtime
      ensures Continued() && from < |events| && states[from] == old(states[from])
      ensures calls == old(calls) + [|events| - 1]
      ensures CancelledAll(states, events, from, index[id := |events| - 1])
      ensures |Succeeded(states, events, index[id := |events| - 1])|
              == |old(Succeeded(states, events, index))| + if cancelled then 1 else 0
    {
      assert from < |states|;
      hide Run, Step, Cancellable, CancelSucceeds, CancelledAll, Succeeded;
      ghost var states0, events0 := states, events;
      AnySteps();
      CancelledLater(states0, events0, states, events, from, index);
      states0, events0 := states, events;
      cancelled := Cancel(id);
      CancelledLater(states0, events0, states, events, from, index);
      CancelledOne(states, events, from, index, id);
    }

    /** What is left for the worker of `id` to do. */
    ghost function Measure(id: TaskId): int
      reads this, runtime
    {
      MeasureOf(View(), id)
    }

    lemma OthersMove(id: TaskId, e: Event, s: Sys)
      requires Valid() && id in workers && !IsWorkerStep(e, id) && Step(View(), e, s)
      ensures id in s.workers && SameOrNoticed(workers[id], s.workers[id]) && MeasureOf(s, id) <= Measure(id)
    {
      InvAlways(states, events, |events|);
      WorkDecreases(View(), e, s, id);
      Unmoved(View(), e, s, id);
    }

    lemma Remembered(id: TaskId)
      requires Valid() && id in workers
      ensures Inv(View()) && TaskInv(View(), id) && 0 <= Measure(id)
    {
      InvAlways(states, events, |events|);
      assert TaskInv(View(), id);
    }

    /** A step of the worker of `id` has been taken, which leaves it less to do. */
    twostate predicate Stepped(id: TaskId)
      reads this, runtime
    {
      Continued() && id in workers && Measure(id) < old(Measure(id)) && 0 <= Measure(id)
    }

    /** Notes a step of the worker. */
    ghost method RecordOwn(id: TaskId, e: Event)
      requires Run(states, events) && Step(states[|events|], e, View()) && IsWorkerStep(e, id)
      requires id in states[|events|].workers
      modifies this`states, this`events
      ensures Valid() && events == old(events) + [e] && states == old(states) + [View()]
      ensures id in workers && id in old(states[|events|]).modes && id in old(states[|events|]).handoffs
      ensures 0 <= Measure(id) < WorkLeft(old(states[|events|]), id)
    {
      InvAlways(states, events, |events|);
      WorkDecreases(states[|events|], e, View(), id);
      Record(e);
    }

    function Handoffs(id: TaskId): Option<nat>
      reads this
    {
      if id in handoffs then Some(handoffs[id]) else None
    }

    function Results(id: TaskId): seq<Outcome>
      reads this
    {
      if id in results then results[id] else []
    }

    /** The number handed to the executor counts the handoffs. */
    method Prepare(id: TaskId) returns (runNumber: Option<nat>)
      requires Valid() && Works(id, AtPrepare)
      modifies this, runtime
      ensures Stepped(id) && workers[id] == if runNumber.Some? then Executing else Done
      ensures runNumber == if CanRun(old(runtime.tasks), id) then Handoffs(id) else None
    {
      Remembered(id);
      var now: int := *;
      runNumber := runtime.PrepareExecution(id, now);
      workers := workers[id := if runNumber.Some? then Executing else Done];
      if runNumber.Some? {
        handoffs := handoffs[id := handoffs[id] + 1];
      }
      RecordOwn(id, Event.Prepare(id, now));
      Remembered(id);
    }

    method Apply(id: TaskId, outcome: Outcome) returns (next: NextRun)
      requires Valid() && Works(id, Executing)
      modifies this, runtime
      ensures Stepped(id) && workers[id] == if next.Wait? then Deciding else Done
      ensures Results(id) == if CanRun(old(runtime.tasks), id) then old(Results(id)) + [outcome] else old(Results(id))
    {
      Remembered(id);
      var now: int := *;
      if CanRun(runtime.tasks, id) {
        results := results[id := results[id] + [outcome]];
      }
      next := runtime.ApplyExecutionResult(id, outcome, now);
      workers := workers[id := if next.Wait? then Deciding else Done];
      RecordOwn(id, Event.Apply(id, outcome, now));
    }

    /** The `select!` between the timer and the notice of a cancellation, whichever is first. */
    method Sleep(id: TaskId) returns (noticed: bool)
      requires Valid() && Works(id, Deciding)
      modifies this, runtime
      ensures Stepped(id) && workers[id] == if noticed then Done else AtPrepare
    {
      workers := workers[id := Sleeping];
      RecordOwn(id, Listen(id));
      OthersStep(id);
      noticed := false;
      if workers[id] == Noticed {
        noticed := *;
      }
      Wake(id, noticed);
    }

    method Wake(id: TaskId, noticed: bool)
      requires Valid() && (Works(id, Noticed) || (Works(id, Sleeping) && !noticed))
      modifies this, runtime
      ensures Stepped(id) && workers[id] == if noticed then Done else AtPrepare
    {
      workers := workers[id := if noticed then Done else AtPrepare];
      RecordOwn(id, if noticed then NoticeArrives(id) else TimerFires(id));
    }

    /** A task still in the table and not cancelled has ended by its stop rule. */
    predicate EndedByRule(id: TaskId)
      reads this, runtime
    {
      id in runtime.tasks && !runtime.tasks[id].cancelled ==>
        && id in results && results[id] != []
        && LastRun(runtime.tasks[id].mode, results[id])
        && runtime.tasks[id].state == Verdict(runtime.tasks[id].mode, results[id])
    }

    /**
     `run_task`. It ends, whatever the results of its runs and whatever other threads do; and an uncancelled
     task that is still in the table then has ended by its stop rule.
     */
    method RunTask(id: TaskId)
      requires Valid() && Works(id, AtPrepare)
      modifies this, runtime
      ensures Continued() && Works(id, Done)
      ensures EndedByRule(id)
    {
      hide Run, Step, View, Valid, Measure, EndedByRule;
      SomeWorkLeft(id);
      var again := true;
      while again
        invariant Continued() && Works(id, if again then AtPrepare else Done) && 0 <= Measure(id)
        decreases Measure(id)
      {
        again := RunOnce(id);
      }
      Ended(id);
    }

    /** One run of the worker's loop, up to where it goes on or breaks. */
    method RunOnce(id: TaskId) returns (again: bool)
      requires Valid() && Works(id, AtPrepare)
      modifies this, runtime
      ensures Stepped(id) && Works(id, if again then AtPrepare else Done)
    {
      hide Run, Step, View, Valid, Measure, CanRun, Handoffs, Results;
      OthersStep(id);
      var runNumber := Prepare(id);
      if runNumber.None? {
        return false;
      }
      OthersStep(id);
      var outcome: Outcome := *;
      var next := Apply(id, outcome);
      if next.Stop? {
        return false;
      }
      OthersStep(id);
      var noticed := Sleep(id);
      again := !noticed;
    }

    lemma SomeWorkLeft(id: TaskId)
      requires Valid() && id in workers
      ensures 0 <= Measure(id)
    {
      Remembered(id);
    }

    lemma Ended(id: TaskId)
      requires Valid() && Works(id, Done)
      ensures EndedByRule(id)
    {
      InvAlways(states, events, |events|);
      assert TaskInv(View(), id);
      if id in runtime.tasks && !runtime.tasks[id].cancelled {
        StopRule(states, events, |events|, id);
      }
    }
  }

  /** Every task of `index` has had a call of `cancel` since `from`, by the event given, and is not active now. */
  ghost predicate CancelledAll(states: seq<Sys>, events: seq<Event>, from: nat, index: map<TaskId, nat>) {
    && |states| == |events| + 1 && from < |states|
    && (forall id | id in index ::
          && from <= index[id] < |events| && events[index[id]].Cancel? && events[index[id]].id == id
          && id in states[from].workers && !Cancellable(states[|events|].tasks, id))
  }

  /** The tasks whose call succeeded. */
  ghost function Succeeded(states: seq<Sys>, events: seq<Event>, index: map<TaskId, nat>): set<TaskId> {
    set id | id in index && |states| == |events| + 1 && index[id] < |events|
             && CancelSucceeds(states, events, index[id], id)
  }

  lemma CancelledLater(states: seq<Sys>, events: seq<Event>, states': seq<Sys>, events': seq<Event>,
                       from: nat, index: map<TaskId, nat>)
    requires Run(states', events') && states <= states' && events <= events'
    requires CancelledAll(states, events, from, index)
    ensures CancelledAll(states', events', from, index)
    ensures Succeeded(states', events', index) == Succeeded(states, events, index)
  {
    forall id | id in index
      ensures !Cancellable(states'[|events'|].tasks, id)
      ensures CancelSucceeds(states', events', index[id], id) <==> CancelSucceeds(states, events, index[id], id)
    {
      WorkersRemembered(states', events', from, |events|, id);
      NeverCancellableAgain(states', events', |events|, |events'|, id);
    }
  }

  lemma CancelledOne(states: seq<Sys>, events: seq<Event>, from: nat, index: map<TaskId, nat>, id: TaskId)
    requires CancelledAll(states, events, from, index) && id !in index && from < |events| && id in states[from].workers
    requires events[|events| - 1].Cancel? && events[|events| - 1].id == id && !Cancellable(states[|events|].tasks, id)
    ensures CancelledAll(states, events, from, index[id := |events| - 1])
    ensures |Succeeded(states, events, index[id := |events| - 1])|
            == |Succeeded(states, events, index)| + if CancelSucceeds(states, events, |events| - 1, id) then 1 else 0
  {
    hide Cancellable;
    var more := if CancelSucceeds(states, events, |events| - 1, id) then {id} else {};
    assert Succeeded(states, events, index[id := |events| - 1]) == Succeeded(states, events, index) + more;
  }

  /** The calls made since `calls0` are the ones `index` gives. */
  ghost predicate OwnCalls(calls0: seq<nat>, calls: seq<nat>, index: map<TaskId, nat>) {
    && calls0 <= calls
    && (forall k | |calls0| <= k < |calls| :: exists id :: id in index && index[id] == calls[k])
    && (forall id | id in index :: index[id] in calls[|calls0|..])
  }

  lemma OwnMore(calls0: seq<nat>, calls: seq<nat>, index: map<TaskId, nat>, id: TaskId)
    requires OwnCalls(calls0, calls, index) && id !in index
    ensures forall i :: OwnCalls(calls0, calls + [i], index[id := i])
  {
    forall i: nat
      ensures OwnCalls(calls0, calls + [i], index[id := i])
    {
      var calls', index' := calls + [i], index[id := i];
      assert calls'[|calls0|..] == calls[|calls0|..] + [i];
      forall k | |calls0| <= k < |calls'|
        ensures exists other :: other in index' && index'[other] == calls'[k]
      {
        if k < |calls| {
          assert calls[k] == calls'[k];
          var other :| other in index && index[other] == calls[k];
          assert index'[other] == calls'[k];
        } else {
          assert index'[id] == calls'[k];
        }
      }
    }
  }

  ghost function MeasureOf(s: Sys, id: TaskId): int {
    if id in s.workers && id in s.modes && id in s.handoffs then WorkLeft(s, id) else 0
  }

  /** Other threads move a worker only by giving it the notice while it listens. */
  predicate SameOrNoticed(w: Worker, w': Worker) {
    w' == w || (w == Sleeping && w' == Noticed)
  }

  lemma Unmoved(s: Sys, e: Event, s': Sys, id: TaskId)
    requires Step(s, e, s') && !IsWorkerStep(e, id) && id in s.workers
    ensures id in s'.workers && SameOrNoticed(s.workers[id], s'.workers[id])
  {
  }
}
