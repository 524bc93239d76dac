/**
 Whole runs of the background task runtime: table operations from any thread, interleaved with one
 worker per task. A worker prepares, executes, applies the result, and then either stops or waits; the
 cancellation notice only reaches a worker that is already asleep.
 */
module TaskSystem {
  import opened Wrappers
  import opened BackgroundTasks

  datatype Worker =
    | AtPrepare
    | Executing   // the executor has been handed the task
    | Deciding    // told to wait, not yet listening for the notice
    | Sleeping    // listening for the notice and for the timer
    | Noticed     // the notice has been given to the listening worker
    | Done

  /**
   `workers`, `modes`, `results` and `handoffs` are kept for every task ever created: the worker, the
   mode, the results applied so far and the number of executor handoffs.
   */
  datatype Sys = Sys(
    tasks: Table, workers: map<TaskId, Worker>, modes: map<TaskId, Mode>,
    results: map<TaskId, seq<Outcome>>, handoffs: map<TaskId, nat>)

  const INITIAL := Sys(map[], map[], map[], map[], map[])

  datatype Event =
    | Create(id: TaskId, spec: Spec, now: int, removed: Option<TaskId>)
    | Cancel(id: TaskId, now: int)
    | Prepare(id: TaskId, now: int)
    | Apply(id: TaskId, outcome: Outcome, now: int)
    | Listen(id: TaskId)
    | TimerFires(id: TaskId)
    | NoticeArrives(id: TaskId)

  predicate AtWork(s: Sys, id: TaskId, w: Worker) {
    id in s.workers && s.workers[id] == w
  }

  predicate Step(s: Sys, e: Event, s': Sys) {
    match e
    case Create(id, spec, now, removed) =>
      && id !in s.workers
      && Created(s.tasks, spec, id, now, removed, s'.tasks)
      && s' == Sys(s'.tasks, s.workers[id := AtPrepare], s.modes[id := spec.mode],
                   s.results[id := []], s.handoffs[id := 0])
    case Cancel(id, now) =>
      s' == s.(tasks := AfterCancel(s.tasks, id, now),
               workers := if Cancellable(s.tasks, id) && AtWork(s, id, Sleeping) then s.workers[id := Noticed]
                          else s.workers)
    case Prepare(id, now) =>
      && AtWork(s, id, AtPrepare) && id in s.handoffs
      && s' == s.(tasks := AfterPrepare(s.tasks, id, now),
                  workers := s.workers[id := if CanRun(s.tasks, id) then Executing else Done],
                  handoffs := if CanRun(s.tasks, id) then s.handoffs[id := s.handoffs[id] + 1] else s.handoffs)
    case Apply(id, outcome, now) =>
      && AtWork(s, id, Executing) && id in s.results
      && var tasks' := AfterApply(s.tasks, id, outcome, now);
         s' == s.(tasks := tasks',
                  workers := s.workers[id := if CanRun(s.tasks, id) && tasks'[id].state == Waiting then Deciding
                                             else Done],
                  results := if CanRun(s.tasks, id) then s.results[id := s.results[id] + [outcome]] else s.results)
    case Listen(id) => AtWork(s, id, Deciding) && s' == s.(workers := s.workers[id := Sleeping])
    case TimerFires(id) =>
      (AtWork(s, id, Sleeping) || AtWork(s, id, Noticed)) && s' == s.(workers := s.workers[id := AtPrepare])
    case NoticeArrives(id) => AtWork(s, id, Noticed) && s' == s.(workers := s.workers[id := Done])
  }

  ghost predicate Run(states: seq<Sys>, events: seq<Event>) {
    && |states| == |events| + 1 && states[0] == INITIAL
    && forall i | 0 <= i < |events| :: Step(states[i], events[i], states[i + 1])
  }

  // ------------------------------------------------------------------ the stop rule, on the trace of results

  function LatestFingerprint(trace: seq<Outcome>): Option<string> {
    if trace == [] then None
    else
      match trace[|trace| - 1]
      case Success(result) => Some(result.fingerprint)
      case Failure => LatestFingerprint(trace[..|trace| - 1])
  }

  predicate EndsInFailure(trace: seq<Outcome>) {
    trace != [] && trace[|trace| - 1].Failure?
  }

  function LastSummary(trace: seq<Outcome>): Option<string> {
    if trace == [] || EndsInFailure(trace) then None else Some(trace[|trace| - 1].result.summary)
  }

  /** Run number `n` (counted from 1) satisfies the condition the task is watching for. */
  predicate ConditionHolds(mode: Mode, trace: seq<Outcome>, n: int)
    requires 1 <= n <= |trace|
  {
    var (before, run) := (trace[..n - 1], trace[n - 1]);
    mode.Conditional? &&
    match mode.condition
    case ExecutionFails => run.Failure?
    case ExecutionRecovers => run.Success? && EndsInFailure(before)
    case ResultChanged =>
      run.Success? && LatestFingerprint(before).Some? && LatestFingerprint(before).value != run.result.fingerprint
    case ResultContains(text) => run.Success? && Substring(text, run.result.summary)
    case ResultFieldEquals(pointer, expected) =>
      run.Success? && pointer in run.result.fields && run.result.fields[pointer] == expected
  }

  predicate StopsAt(mode: Mode, trace: seq<Outcome>, n: int)
    requires 1 <= n <= |trace|
  {
    mode.OneShot? || n >= mode.maxRuns || ConditionHolds(mode, trace, n)
  }

  function Verdict(mode: Mode, trace: seq<Outcome>): TaskState
    requires trace != []
  {
    if trace[|trace| - 1].Failure? && !ConditionHolds(mode, trace, |trace|) then Failed else Completed
  }

  /** Run `n` is decided by the first `n` results alone. */
  lemma StopsAtPrefix(mode: Mode, trace: seq<Outcome>, more: seq<Outcome>, n: int)
    requires 1 <= n <= |trace|
    ensures StopsAt(mode, trace + more, n) == StopsAt(mode, trace, n)
    ensures ConditionHolds(mode, trace + more, n) == ConditionHolds(mode, trace, n)
  {
    assert (trace + more)[..n - 1] == trace[..n - 1];
  }

  ghost predicate NeverStopsBefore(mode: Mode, trace: seq<Outcome>, n: int)
    requires n <= |trace| + 1
  {
    forall k :: 1 <= k < n ==> !StopsAt(mode, trace, k)
  }

  // ------------------------------------------------------------------ the invariant

  /** What the stored flags of a live task say about the trace of its results. */
  ghost predicate LiveTask(task: OwnedTask, trace: seq<Outcome>, w: Worker) {
    && task.state != Cancelled
    && task.lastFingerprint == LatestFingerprint(trace)
    && task.hadFailure == EndsInFailure(trace)
    && task.lastErrorCode.Some? == EndsInFailure(trace)
    && task.lastSummary == LastSummary(trace)
    && task.runCount == |trace| + (if w == Executing then 1 else 0)
    && (if trace != [] && StopsAt(task.mode, trace, |trace|) then
          w == Done && task.state == Verdict(task.mode, trace)
        else
          w != Done && !Terminal(task.state)
          && w != Noticed && (w == Executing <==> task.state == Running)
          && (w == Deciding || w == Sleeping ==> task.state == Waiting))
  }

  ghost predicate TaskInv(s: Sys, id: TaskId) {
    && id in s.workers && id in s.modes && id in s.results && id in s.handoffs
    && 1 <= MaximumRuns(s.modes[id])
    && s.handoffs[id] <= MaximumRuns(s.modes[id])
    && (s.workers[id] == Noticed ==> !CanRun(s.tasks, id))
    && (id in s.tasks ==>
          && s.tasks[id].mode == s.modes[id]
          && s.tasks[id].runCount == s.handoffs[id]
          && NeverStopsBefore(s.modes[id], s.results[id], |s.results[id]|)
          && (s.tasks[id].cancelled <==> s.tasks[id].state == Cancelled)
          && (!s.tasks[id].cancelled ==> LiveTask(s.tasks[id], s.results[id], s.workers[id]))
          && (s.tasks[id].cancelled ==> NeverStopsBefore(s.modes[id], s.results[id], |s.results[id]| + 1)))
  }

  ghost predicate Inv(s: Sys) {
    && s.tasks.Keys <= s.workers.Keys
    && (forall id | id in s.workers :: TaskInv(s, id))
  }

  /** Events of other tasks do not touch a task, except that `create` may evict it. */
  lemma OthersUnchanged(s: Sys, e: Event, s': Sys, id: TaskId)
    requires Step(s, e, s') && id != e.id && id in s.workers && TaskInv(s, id)
    ensures TaskInv(s', id)
    ensures id in s'.tasks ==> id in s.tasks && s'.tasks[id] == s.tasks[id]
  {
  }

  /** Why an uncancelled task that is about to run again has a run left. */
  lemma RunLeft(task: OwnedTask, trace: seq<Outcome>, w: Worker)
    requires LiveTask(task, trace, w) && w in {AtPrepare, Deciding, Sleeping} && 1 <= MaximumRuns(task.mode)
    ensures task.runCount < MaximumRuns(task.mode)
    ensures NeverStopsBefore(task.mode, trace, |trace|) ==> NeverStopsBefore(task.mode, trace, |trace| + 1)
  {
  }

  /** The stateful test of `condition_matches` is the condition on the trace. */
  lemma MatchedIsCondition(task: OwnedTask, trace: seq<Outcome>, outcome: Outcome)
    requires task.lastFingerprint == LatestFingerprint(trace) && task.hadFailure == EndsInFailure(trace)
    ensures Matched(task, outcome) == ConditionHolds(task.mode, trace + [outcome], |trace| + 1)
  {
    var trace' := trace + [outcome];
    assert trace'[..|trace|] == trace && trace'[|trace|] == outcome;
    hide LatestFingerprint, EndsInFailure, Substring;
    assert ConditionHolds(task.mode, trace', |trace'|) == Matched(task, outcome);
  }

  lemma AppliedKeepsLive(task: OwnedTask, trace: seq<Outcome>, outcome: Outcome, now: int)
    requires LiveTask(task, trace, Executing) && NeverStopsBefore(task.mode, trace, |trace|)
    requires 1 <= MaximumRuns(task.mode)
    ensures var task', trace' := Applied(task, outcome, now), trace + [outcome];
            && NeverStopsBefore(task.mode, trace', |trace'|)
            && LiveTask(task', trace', if task'.state == Waiting then Deciding else Done)
  {
    var trace' := trace + [outcome];
    MatchedIsCondition(task, trace, outcome);
    assert trace'[..|trace|] == trace;
    forall k | 1 <= k < |trace'|
      ensures !StopsAt(task.mode, trace', k)
    {
      StopsAtPrefix(task.mode, trace, [outcome], k);
    }
  }

  lemma StepKeepsInv(s: Sys, e: Event, s': Sys)
    requires Inv(s) && Step(s, e, s')
    ensures Inv(s')
  {
    forall id | id in s'.workers
      ensures TaskInv(s', id)
    {
      if id != e.id {
        OthersUnchanged(s, e, s', id);
      } else {
        StepKeepsOwnInv(s, e, s');
      }
    }
  }

  lemma StepKeepsOwnInv(s: Sys, e: Event, s': Sys)
    requires Inv(s) && Step(s, e, s') && e.id in s'.workers
    ensures TaskInv(s', e.id)
  {
    match e
    case Create(_, _, _, _) => CreateKeepsInv(s, e, s');
    case Prepare(_, _) => PrepareKeepsInv(s, e, s');
    case Apply(_, _, _) => ApplyKeepsInv(s, e, s');
    case Cancel(_, _) => CancelKeepsInv(s, e, s');
    case _ => assert TaskInv(s, e.id);
  }

  lemma CreateKeepsInv(s: Sys, e: Event, s': Sys)
    requires e.Create? && Step(s, e, s')
    ensures TaskInv(s', e.id)
  {
  }

  lemma CancelKeepsInv(s: Sys, e: Event, s': Sys)
    requires e.Cancel? && Inv(s) && Step(s, e, s') && e.id in s'.workers
    ensures TaskInv(s', e.id)
  {
    assert TaskInv(s, e.id);
    hide Inv;
  }

  lemma PrepareKeepsInv(s: Sys, e: Event, s': Sys)
    requires e.Prepare? && Inv(s) && Step(s, e, s')
    ensures TaskInv(s', e.id)
  {
    assert TaskInv(s, e.id);
    if CanRun(s.tasks, e.id) {
      RunLeft(s.tasks[e.id], s.results[e.id], AtPrepare);
    }
  }

  lemma ApplyKeepsInv(s: Sys, e: Event, s': Sys)
    requires e.Apply? && Inv(s) && Step(s, e, s')
    ensures TaskInv(s', e.id)
  {
    assert TaskInv(s, e.id);
    if CanRun(s.tasks, e.id) {
      AppliedKeepsLive(s.tasks[e.id], s.results[e.id], e.outcome, e.now);
    }
  }

  lemma {:induction false} InvAlways(states: seq<Sys>, events: seq<Event>, i: nat)
    requires Run(states, events) && i < |states|
    ensures Inv(states[i])
  {
    if i > 0 {
      InvAlways(states, events, i - 1);
      StepKeepsInv(states[i - 1], events[i - 1], states[i]);
    }
  }

  // ------------------------------------------------------------------ the stop rule

  /** `trace` ends with the last run that a task in this mode makes. */
  predicate LastRun(mode: Mode, trace: seq<Outcome>) {
    match mode
    case OneShot => |trace| == 1
    case Interval(_, maxRuns) => |trace| == maxRuns
    case Conditional(_, maxRuns, _) => trace != [] && (|trace| == maxRuns || ConditionHolds(mode, trace, |trace|))
  }

  /**
   The flags kept between runs implement a rule about the whole trace of results. In every reachable
   state a task that has not been cancelled has ended exactly when its latest run is the last one: the only
   run of a one-shot task, run number `maxRuns`, or one at which the condition of a conditional task holds,
   which it does at no earlier run. It has failed exactly when that run failed without being what the task
   waited for.
   */
  lemma {:induction false} StopRule(states: seq<Sys>, events: seq<Event>, i: nat, id: TaskId)
    requires Run(states, events) && i < |states| && id in states[i].tasks && !states[i].tasks[id].cancelled
    ensures id in states[i].results && id in states[i].workers
    ensures var task, trace := states[i].tasks[id], states[i].results[id];
            && (Terminal(task.state) <==> LastRun(task.mode, trace))
            && (forall k :: 1 <= k < |trace| ==> !LastRun(task.mode, trace[..k]))
            && (task.state == Failed <==>
                  trace != [] && LastRun(task.mode, trace) && trace[|trace| - 1].Failure?
                  && !ConditionHolds(task.mode, trace, |trace|))
            && (Terminal(task.state) <==> states[i].workers[id] == Done)
            && task.lastSummary == LastSummary(trace)
  {
    InvAlways(states, events, i);
    assert TaskInv(states[i], id);
    var task, trace := states[i].tasks[id], states[i].results[id];
    assert |trace| <= states[i].handoffs[id];
    forall k | 1 <= k < |trace|
      ensures !LastRun(task.mode, trace[..k])
    {
      assert !StopsAt(task.mode, trace, k);
      assert trace == trace[..k] + trace[k..];
      StopsAtPrefix(task.mode, trace[..k], trace[k..], k);
    }
  }

  /**
   The run count is the number of handoffs to the executor, one for a one-shot task and at most `maxRuns` for
   any other, evicted or not.
   */
  lemma {:induction false} RunsAreCounted(states: seq<Sys>, events: seq<Event>, i: nat, id: TaskId)
    requires Run(states, events) && i < |states| && id in states[i].workers
    ensures id in states[i].handoffs && id in states[i].modes
    ensures states[i].handoffs[id] <= match states[i].modes[id] case OneShot => 1 case mode => mode.maxRuns
    ensures id in states[i].tasks ==>
              states[i].tasks[id].runCount == states[i].handoffs[id] && states[i].tasks[id].mode == states[i].modes[id]
  {
    InvAlways(states, events, i);
    assert TaskInv(states[i], id);
  }

  /**
   The record of a task changes only by its own creation, start, result or cancellation, and then carries the
   time of that; so the task evicted from a full table is one that ended longest ago.
   */
  lemma ChangeIsStamped(states: seq<Sys>, events: seq<Event>, i: nat, id: TaskId)
    requires Run(states, events) && i < |events| && id in states[i + 1].tasks
    requires id in states[i].tasks ==> states[i].tasks[id] != states[i + 1].tasks[id]
    ensures events[i].id == id && (events[i].Create? || events[i].Prepare? || events[i].Apply? || events[i].Cancel?)
    ensures states[i + 1].tasks[id].updatedAt == events[i].now
    ensures events[i].Create? && events[i].removed.Some? ==>
              var gone := events[i].removed.value;
              && gone in states[i].tasks && states[i].tasks[gone].state in {Completed, Failed, Cancelled}
              && (forall other | other in states[i].tasks ::
                    states[i].tasks[other].state in {Completed, Failed, Cancelled} ==>
                      states[i].tasks[gone].updatedAt <= states[i].tasks[other].updatedAt)
  {
    assert Step(states[i], events[i], states[i + 1]);
    hide Validate, ActiveOf, Matched;
  }

  // ------------------------------------------------------------------ termination of workers

  function Rank(w: Worker): nat {
    match w
    case Executing => 4
    case Deciding => 3
    case Sleeping => 2
    case Noticed => 2
    case AtPrepare => 1
    case Done => 0
  }

  /** What is left for the worker of `id` to do. */
  function WorkLeft(s: Sys, id: TaskId): int
    requires id in s.workers && id in s.modes && id in s.handoffs
  {
    if s.workers[id] == Done then 0
    else 4 * (MaximumRuns(s.modes[id]) - s.handoffs[id]) + Rank(s.workers[id])
  }

  predicate IsWorkerStep(e: Event, id: TaskId) {
    e.id == id && (e.Prepare? || e.Apply? || e.Listen? || e.TimerFires? || e.NoticeArrives?)
  }

  lemma WorkDecreases(s: Sys, e: Event, s': Sys, id: TaskId)
    requires Inv(s) && Step(s, e, s') && id in s.workers
    ensures TaskInv(s, id) && TaskInv(s', id)
    ensures 0 <= WorkLeft(s', id) <= WorkLeft(s, id) && s'.modes[id] == s.modes[id]
    ensures IsWorkerStep(e, id) ==> WorkLeft(s', id) < WorkLeft(s, id)
  {
    assert TaskInv(s, id);
    StepKeepsInv(s, e, s');
    assert TaskInv(s', id);
    hide Inv, TaskInv;
    WorkerMoves(s, e, s', id);
    hide Step;
  }

  lemma WorkerMoves(s: Sys, e: Event, s': Sys, id: TaskId)
    requires Step(s, e, s') && id in s.workers && id in s.modes && id in s.handoffs && id in s.results
    ensures id in s'.workers && id in s'.modes && id in s'.handoffs && s'.modes[id] == s.modes[id]
    ensures var ran := s'.handoffs[id] - s.handoffs[id];
            && (ran == 0 || (ran == 1 && s'.workers[id] == Executing))
            && (s'.workers[id] == Done
                || Rank(s'.workers[id]) + (if IsWorkerStep(e, id) then 1 else 0) <= Rank(s.workers[id]) + 4 * ran)
            && (IsWorkerStep(e, id) ==> s.workers[id] != Done)
            && (!IsWorkerStep(e, id) ==> ran == 0 && Rank(s'.workers[id]) == Rank(s.workers[id]))
  {
  }

  function WorkerSteps(events: seq<Event>, id: TaskId): nat {
    if events == [] then 0
    else WorkerSteps(events[..|events| - 1], id) + if IsWorkerStep(events[|events| - 1], id) then 1 else 0
  }

  /** A worker takes at most four steps a run and one more: it cannot go on forever, whatever else happens. */
  lemma {:induction false} WorkerTerminates(states: seq<Sys>, events: seq<Event>, i: nat, id: TaskId)
    requires Run(states, events) && i < |states| && id in states[i].workers
    ensures TaskInv(states[i], id)
    ensures WorkerSteps(events[..i], id) + WorkLeft(states[i], id) <= 4 * MaximumRuns(states[i].modes[id]) + 1
  {
    InvAlways(states, events, i);
    assert TaskInv(states[i], id);
    if i > 0 {
      var s, e := states[i - 1], events[i - 1];
      assert events[..i][..i - 1] == events[..i - 1];
      RunStep(states, events, i - 1);
      hide Run, Step, Inv, TaskInv, WorkLeft, MaximumRuns;
      if id in s.workers {
        WorkerTerminates(states, events, i - 1, id);
        WorkDecreases(s, e, states[i], id);
      } else {
        UnknownTaskHasNoSteps(states, events, i - 1, id);
        NewWorker(s, e, states[i], id);
      }
    }
  }

  lemma NewWorker(s: Sys, e: Event, s': Sys, id: TaskId)
    requires Step(s, e, s') && id !in s.workers && id in s'.workers && TaskInv(s', id)
    ensures WorkLeft(s', id) == 4 * MaximumRuns(s'.modes[id]) + 1 && !IsWorkerStep(e, id)
  {
  }

  lemma UnknownTaskHasNoSteps(states: seq<Sys>, events: seq<Event>, i: nat, id: TaskId)
    requires Run(states, events) && i < |states| && id !in states[i].workers
    ensures WorkerSteps(events[..i], id) == 0
  {
    if i > 0 {
      assert events[..i][..i - 1] == events[..i - 1];
      assert Step(states[i - 1], events[i - 1], states[i]);
      UnknownTaskHasNoSteps(states, events, i - 1, id);
    }
  }

  // ------------------------------------------------------------------ cancellation

  lemma TerminalStepUnchanged(s: Sys, e: Event, s': Sys, id: TaskId)
    requires Inv(s) && Step(s, e, s') && id in s.workers && (id in s.tasks ==> Terminal(s.tasks[id].state))
    ensures id in s'.workers && id in s.handoffs && id in s'.handoffs && s'.handoffs[id] == s.handoffs[id]
    ensures id in s'.tasks ==> id in s.tasks && s'.tasks[id] == s.tasks[id]
  {
    assert TaskInv(s, id);
  }

  lemma GoneStaysGone(states: seq<Sys>, events: seq<Event>, i: nat, j: nat, id: TaskId)
    requires Run(states, events) && i <= j < |states|
    requires id in states[i].workers && id !in states[i].tasks
    ensures id !in states[j].tasks && id in states[j].workers
    decreases j
  {
    if i < j {
      GoneStaysGone(states, events, i, j - 1, id);
      assert Step(states[j - 1], events[j - 1], states[j]);
    }
  }

  /** A task that was evicted never comes back, since `create` uses fresh ids. */
  lemma {:induction false} EvictedNeverReappears(
      states: seq<Sys>, events: seq<Event>, i: nat, j: nat, k: nat, id: TaskId)
    requires Run(states, events) && i < j <= k < |states|
    requires id in states[i].tasks && id !in states[j].tasks
    ensures id !in states[k].tasks
  {
    InvAlways(states, events, i);
    WorkersRemembered(states, events, i, j, id);
    GoneStaysGone(states, events, j, k, id);
  }

  lemma WorkersRemembered(states: seq<Sys>, events: seq<Event>, i: nat, j: nat, id: TaskId)
    requires Run(states, events) && i <= j < |states| && id in states[i].workers
    ensures id in states[j].workers
    decreases j
  {
    if i < j {
      WorkersRemembered(states, events, i, j - 1, id);
      assert Step(states[j - 1], events[j - 1], states[j]);
    }
  }

  /**
   A terminal task is final: as long as it is kept, its record never changes again, and the executor is
   never handed it again. In particular a run still in flight when the task was cancelled is discarded.
   */
  lemma {:induction false} TerminalIsFinal(states: seq<Sys>, events: seq<Event>, i: nat, j: nat, id: TaskId)
    requires Run(states, events) && i <= j < |states|
    requires id in states[i].tasks && Terminal(states[i].tasks[id].state)
    ensures id in states[j].tasks ==> states[j].tasks[id] == states[i].tasks[id]
    ensures id in states[i].handoffs && id in states[j].handoffs && states[j].handoffs[id] == states[i].handoffs[id]
    decreases j
  {
    Known(states, events, i, id);
    hide Run, Terminal;
    if i < j {
      TerminalIsFinal(states, events, i, j - 1, id);
      WorkersRemembered(states, events, i, j - 1, id);
      TerminalOneMore(states, events, j - 1, id);
    }
  }

  lemma TerminalOneMore(states: seq<Sys>, events: seq<Event>, k: nat, id: TaskId)
    requires Run(states, events) && k + 1 < |states|
    requires id in states[k].workers && (id in states[k].tasks ==> Terminal(states[k].tasks[id].state))
    ensures id in states[k].handoffs && id in states[k + 1].handoffs
    ensures states[k + 1].handoffs[id] == states[k].handoffs[id]
    ensures id in states[k + 1].tasks ==> id in states[k].tasks && states[k + 1].tasks[id] == states[k].tasks[id]
  {
    RunStep(states, events, k);
    TerminalStepUnchanged(states[k], events[k], states[k + 1], id);
  }


  lemma Known(states: seq<Sys>, events: seq<Event>, i: nat, id: TaskId)
    requires Run(states, events) && i < |states| && id in states[i].tasks
    ensures id in states[i].workers && id in states[i].handoffs
  {
    InvAlways(states, events, i);
    assert TaskInv(states[i], id);
  }

  lemma RunStep(states: seq<Sys>, events: seq<Event>, k: nat)
    requires Run(states, events) && k < |events|
    ensures k + 1 < |states| && Inv(states[k]) && Step(states[k], events[k], states[k + 1])
  {
    InvAlways(states, events, k);
  }

  /** A task that is terminal or gone stays so. */
  lemma {:induction false} NeverCancellableAgain(states: seq<Sys>, events: seq<Event>, i: nat, j: nat, id: TaskId)
    requires Run(states, events) && i <= j < |states| && id in states[i].workers && !Cancellable(states[i].tasks, id)
    ensures !Cancellable(states[j].tasks, id)
  {
    if id in states[i].tasks {
      TerminalIsFinal(states, events, i, j, id);
    } else {
      GoneStaysGone(states, events, i, j, id);
    }
  }

  /** A task is `Cancelled` exactly when its flag is set. */
  lemma {:induction false} CancelledMeansFlag(states: seq<Sys>, events: seq<Event>, i: nat, id: TaskId)
    requires Run(states, events) && i < |states| && id in states[i].tasks
    ensures states[i].tasks[id].cancelled <==> states[i].tasks[id].state == Cancelled
  {
    InvAlways(states, events, i);
    assert TaskInv(states[i], id);
  }

  /** Event `i` is a call of `cancel` for `id` that returns true. */
  ghost predicate CancelSucceeds(states: seq<Sys>, events: seq<Event>, i: nat, id: TaskId)
    requires |states| == |events| + 1 && i < |events|
  {
    events[i].Cancel? && events[i].id == id && Cancellable(states[i].tasks, id)
  }

  /** `cancel` returns true at most once per task. */
  lemma {:induction false} CancelSucceedsOnce(states: seq<Sys>, events: seq<Event>, i: nat, j: nat, id: TaskId)
    requires Run(states, events) && i < |events| && j < |events|
    requires CancelSucceeds(states, events, i, id) && CancelSucceeds(states, events, j, id)
    ensures i == j
  {
    if i < j {
      assert Step(states[i], events[i], states[i + 1]);
      TerminalIsFinal(states, events, i + 1, j, id);
    } else if j < i {
      assert Step(states[j], events[j], states[j + 1]);
      TerminalIsFinal(states, events, j + 1, i, id);
    }
  }

  /** What the worker of a task that is cancelled or gone can still do. */
  function StepsAfterCancel(w: Worker): (n: nat)
    ensures n <= 3
  {
    match w
    case Deciding => 3
    case Sleeping => 2
    case Noticed => 2
    case AtPrepare => 1
    case Executing => 1
    case Done => 0
  }

  /**
   Between `s0` and `s` the worker of a cancelled task has taken `steps` of the steps it had left, the
   executor has not been handed the task.
   */
  ghost predicate Stopping(s0: Sys, s: Sys, steps: int, id: TaskId) {
    && id in s0.workers && id in s.workers && !CanRun(s.tasks, id)
    && steps + StepsAfterCancel(s.workers[id]) <= StepsAfterCancel(s0.workers[id])
    && id in s0.handoffs && id in s.handoffs && s.handoffs[id] == s0.handoffs[id]
  }

  lemma StoppingStep(s0: Sys, s: Sys, e: Event, s': Sys, steps: int, id: TaskId)
    requires Inv(s) && Step(s, e, s') && Stopping(s0, s, steps, id)
    ensures Stopping(s0, s', steps + if IsWorkerStep(e, id) then 1 else 0, id)
  {
    assert TaskInv(s, id);
    hide Inv;
  }

  /**
   Noticed or not, the worker of a cancelled task takes at most three more steps, and none of them hands
   the task to the executor.
   */
  lemma {:induction false} CancelledWorkerStops(states: seq<Sys>, events: seq<Event>, i: nat, j: nat, id: TaskId)
    requires Run(states, events) && i <= j < |states| && id in states[i].workers && !CanRun(states[i].tasks, id)
    ensures Stopping(states[i], states[j], WorkerSteps(events[..j], id) - WorkerSteps(events[..i], id), id)
    decreases j
  {
    hide Stopping, Step, CanRun, WorkerSteps, StepsAfterCancel;
    if i < j {
      CancelledWorkerStops(states, events, i, j - 1, id);
      RunStep(states, events, j - 1);
      var before := WorkerSteps(events[..j - 1], id) - WorkerSteps(events[..i], id);
      WorkerStepsOneMore(events, j, id);
      StoppingStep(states[i], states[j - 1], events[j - 1], states[j], before, id);
    } else {
      StoppingStarts(states, events, i, id);
    }
  }

  lemma StoppingStarts(states: seq<Sys>, events: seq<Event>, i: nat, id: TaskId)
    requires Run(states, events) && i < |states| && id in states[i].workers && !CanRun(states[i].tasks, id)
    ensures Stopping(states[i], states[i], 0, id)
  {
    HandoffsKnown(states, events, i, id);
  }

  lemma HandoffsKnown(states: seq<Sys>, events: seq<Event>, i: nat, id: TaskId)
    requires Run(states, events) && i < |states| && id in states[i].workers
    ensures id in states[i].handoffs
  {
    InvAlways(states, events, i);
    assert TaskInv(states[i], id);
  }

  lemma WorkerStepsOneMore(events: seq<Event>, j: nat, id: TaskId)
    requires 0 < j <= |events|
    ensures WorkerSteps(events[..j], id)
            == WorkerSteps(events[..j - 1], id) + if IsWorkerStep(events[j - 1], id) then 1 else 0
  {
    assert events[..j][..j - 1] == events[..j - 1];
  }

  /**
   A cancellation that comes while the worker is not listening goes unnoticed: the notice never arrives,
   however the run goes on. The worker still stops as above.
   */
  lemma {:induction false} LostNotice(states: seq<Sys>, events: seq<Event>, i: nat, j: nat, id: TaskId)
    requires Run(states, events) && i < j < |events|
    requires CancelSucceeds(states, events, i, id) && !AtWork(states[i], id, Sleeping)
    ensures events[j] != NoticeArrives(id)
  {
    UnheardCancel(states, events, i, id);
    NeverNoticed(states, events, i + 1, j, id);
    NoticeNeedsListener(states, events, j, id);
  }

  /** The task is cancelled or gone, and its worker has not been given the notice. */
  predicate Unheard(s: Sys, id: TaskId) {
    id in s.workers && !CanRun(s.tasks, id) && s.workers[id] != Noticed
  }

  lemma {:induction false} NeverNoticed(states: seq<Sys>, events: seq<Event>, i: nat, j: nat, id: TaskId)
    requires Run(states, events) && i <= j < |states| && Unheard(states[i], id)
    ensures Unheard(states[j], id)
    decreases j
  {
    hide Unheard, Step, Inv;
    if i < j {
      NeverNoticed(states, events, i, j - 1, id);
      RunStep(states, events, j - 1);
      UnnoticedStep(states[j - 1], events[j - 1], states[j], id);
    }
  }

  lemma UnnoticedStep(s: Sys, e: Event, s': Sys, id: TaskId)
    requires Inv(s) && Step(s, e, s') && Unheard(s, id)
    ensures Unheard(s', id)
  {
    assert TaskInv(s, id);
    hide Inv;
  }

  lemma UnheardCancel(states: seq<Sys>, events: seq<Event>, i: nat, id: TaskId)
    requires Run(states, events) && i < |events|
    requires CancelSucceeds(states, events, i, id) && !AtWork(states[i], id, Sleeping)
    ensures Unheard(states[i + 1], id)
  {
    RunStep(states, events, i);
    assert TaskInv(states[i], id);
  }

  lemma NoticeNeedsListener(states: seq<Sys>, events: seq<Event>, j: nat, id: TaskId)
    requires Run(states, events) && j < |events|
    ensures events[j] == NoticeArrives(id) ==> id in states[j].workers && states[j].workers[id] == Noticed
  {
    assert Step(states[j], events[j], states[j + 1]);
  }

  // ------------------------------------------------------------------ the bounded table

  ghost predicate Bounded(s: Sys) {
    |s.tasks| <= 128 && forall owner :: |ActiveOf(s.tasks, owner)| <= 32
  }

  lemma CreateBounded(tasks: Table, spec: Spec, id: TaskId, now: int, removed: Option<TaskId>, tasks': Table)
    requires Created(tasks, spec, id, now, removed, tasks') && id !in tasks
    requires |tasks| <= MAX_RETAINED_TASKS
    requires forall owner :: |ActiveOf(tasks, owner)| <= MAX_ACTIVE_TASKS_PER_OWNER
    ensures |tasks'| <= MAX_RETAINED_TASKS
    ensures forall owner :: |ActiveOf(tasks', owner)| <= MAX_ACTIVE_TASKS_PER_OWNER
  {
    assert tasks'.Keys == (if removed.Some? then tasks.Keys - {removed.value} else tasks.Keys) + {id};
    forall owner
      ensures |ActiveOf(tasks', owner)| <= MAX_ACTIVE_TASKS_PER_OWNER
    {
      ActiveAfterCreate(tasks, spec, id, now, removed, tasks', owner);
      hide Created, ActiveOf;
      SubsetBounded(ActiveOf(tasks', owner), ActiveOf(tasks, owner) + if owner == spec.owner then {id} else {});
    }
  }

  lemma ActiveAfterCreate(
      tasks: Table, spec: Spec, id: TaskId, now: int, removed: Option<TaskId>, tasks': Table, owner: string)
    requires Created(tasks, spec, id, now, removed, tasks') && id !in tasks
    ensures ActiveOf(tasks', owner) <= ActiveOf(tasks, owner) + if owner == spec.owner then {id} else {}
    ensures |ActiveOf(tasks, spec.owner)| < MAX_ACTIVE_TASKS_PER_OWNER
  {
    hide Validate;
    forall k | k in ActiveOf(tasks', owner)
      ensures k in ActiveOf(tasks, owner) + if owner == spec.owner then {id} else {}
    {
    }
  }

  lemma SubsetBounded(a: set<TaskId>, b: set<TaskId>)
    requires a <= b
    ensures |a| <= |b|
  {
    assert b == a + (b - a);
  }

  lemma StepKeepsBounded(s: Sys, e: Event, s': Sys)
    requires Inv(s) && Bounded(s) && Step(s, e, s')
    ensures Bounded(s')
  {
    if e.Create? {
      CreateBounded(s.tasks, e.spec, e.id, e.now, e.removed, s'.tasks);
    } else {
      assert s'.tasks.Keys == s.tasks.Keys;
      forall owner
        ensures |ActiveOf(s'.tasks, owner)| <= MAX_ACTIVE_TASKS_PER_OWNER
      {
        StepShrinksActive(s, e, s', owner);
        SubsetBounded(ActiveOf(s'.tasks, owner), ActiveOf(s.tasks, owner));
      }
    }
  }

  lemma StepShrinksActive(s: Sys, e: Event, s': Sys, owner: string)
    requires Inv(s) && Step(s, e, s') && !e.Create?
    ensures ActiveOf(s'.tasks, owner) <= ActiveOf(s.tasks, owner)
  {
    forall id | id in ActiveOf(s'.tasks, owner)
      ensures id in ActiveOf(s.tasks, owner)
    {
      assert TaskInv(s, id);
      hide TaskInv, Applied;
      if Terminal(s.tasks[id].state) {
        TerminalStepUnchanged(s, e, s', id);
      }
    }
  }

  /** At most 128 tasks are kept, and at most 32 of one owner are active, in every reachable state. */
  lemma {:induction false} TableIsBounded(states: seq<Sys>, events: seq<Event>, i: nat)
    requires Run(states, events) && i < |states|
    ensures Bounded(states[i])
  {
    if i > 0 {
      TableIsBounded(states, events, i - 1);
      InvAlways(states, events, i - 1);
      StepKeepsBounded(states[i - 1], events[i - 1], states[i]);
    } else {
      forall owner
        ensures ActiveOf(states[0].tasks, owner) == {}
      {
      }
    }
  }
}
