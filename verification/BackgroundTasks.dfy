/**
 Background AI tasks: the task table and the operations on it, each atomic under the table's lock.

 `TaskSystem` interleaves these operations with one worker per task.
 */
module BackgroundTasks {
  import opened Wrappers
  import opened StructuredValue

  type TaskId = string

  const MAX_U32 := 0xFFFF_FFFF

  type U32 = n: int | 0 <= n <= MAX_U32

  // ------------------------------------------------------------------ specifications of tasks

  datatype Condition =
    | ResultChanged
    | ResultContains(text: string)
    | ResultFieldEquals(pointer: string, expected: Value)
    | ExecutionFails
    | ExecutionRecovers

  datatype Mode =
    | OneShot
    | Interval(intervalSeconds: nat, maxRuns: U32)
    | Conditional(intervalSeconds: nat, maxRuns: U32, condition: Condition)

  datatype TaskState = Queued | Running | Waiting | Completed | Failed | Cancelled

  /** `arguments` is the parsed argument text, or `None` when it is not JSON. */
  datatype Spec = Spec(owner: string, toolName: string, argumentsJson: string, arguments: Option<Value>, mode: Mode)

  datatype Limits = Limits(minimumInterval: nat, maximumInterval: nat, maximumRuns: nat, maximumArgumentChars: nat)

  const DEFAULT_LIMITS := Limits(5, 86400, 10000, 131072)

  datatype Error =
    | Invalid | InvalidInterval | InvalidRunLimit | ArgumentsTooLarge | LiveHandleNotAllowed
    | TooManyActiveTasks | TaskCapacityReached

  const MAX_ACTIVE_TASKS_PER_OWNER := 32

  const MAX_RETAINED_TASKS := 128

  const LIVE_KEYS: set<string> := {"handle_id", "handleId", "session_id", "sessionId"}

  /** The characters removed by `str::trim` (Unicode White_Space). */
  predicate IsWhitespace(c: char) {
    || '\U{0009}' <= c <= '\U{000D}' || c == ' ' || c == '\U{0085}' || c == '\U{00A0}' || c == '\U{1680}'
    || '\U{2000}' <= c <= '\U{200A}' || c == '\U{2028}' || c == '\U{2029}' || c == '\U{202F}'
    || c == '\U{205F}' || c == '\U{3000}'
  }

  predicate IsBlank(s: string) {
    forall i | 0 <= i < |s| :: IsWhitespace(s[i])
  }

  /** `contains_live_handle`: some object, at any depth, has a key that names a live handle. */
  predicate ContainsLiveHandle(v: Value): (r: bool)
    ensures r <==> exists k :: k in Keys(v) && k in LIVE_KEYS
  {
    match v
    case Array(items) =>
      var r := exists i | 0 <= i < |items| :: ContainsLiveHandle(items[i]);
      assert forall k :: k in Keys(v) <==> exists i | 0 <= i < |items| :: k in Keys(items[i]);
      r
    case Object(fields) =>
      var r := exists i | 0 <= i < |fields| :: fields[i].key in LIVE_KEYS || ContainsLiveHandle(fields[i].value);
      assert forall i | 0 <= i < |fields| :: fields[i].key in Keys(v);
      assert forall k ::
          k in Keys(v) <==> exists i | 0 <= i < |fields| :: k == fields[i].key || k in Keys(fields[i].value);
      r
    case _ => false
  }

  function MaximumRuns(mode: Mode): U32 {
    if mode.OneShot? then 1 else mode.maxRuns
  }

  predicate Repeats(mode: Mode) { !mode.OneShot? }

  predicate Named(spec: Spec) { !IsBlank(spec.owner) && !IsBlank(spec.toolName) }

  predicate SmallArguments(spec: Spec, limits: Limits) { |spec.argumentsJson| <= limits.maximumArgumentChars }

  ghost predicate HandleFree(spec: Spec) {
    spec.arguments.Some? && forall k | k in Keys(spec.arguments.value) :: k !in LIVE_KEYS
  }

  predicate IntervalAllowed(spec: Spec, limits: Limits) {
    Repeats(spec.mode) ==> limits.minimumInterval <= spec.mode.intervalSeconds <= limits.maximumInterval
  }

  predicate RunsAllowed(spec: Spec, limits: Limits) {
    Repeats(spec.mode) ==> 1 <= spec.mode.maxRuns <= limits.maximumRuns
  }

  /**
   `validate_background_task_spec` accepts exactly the specifications that meet every limit. The error says
   which requirement fails first, in the order size, names, syntax, live handles, interval, runs.
   */
  function Validate(spec: Spec, limits: Limits): (r: Option<Error>)
    ensures r.None? <==>
            && SmallArguments(spec, limits) && Named(spec) && HandleFree(spec)
            && IntervalAllowed(spec, limits) && RunsAllowed(spec, limits)
    ensures r.None? ==> MaximumRuns(spec.mode) >= 1
    ensures r == Some(ArgumentsTooLarge) <==> !SmallArguments(spec, limits)
    ensures r == Some(Invalid) <==> SmallArguments(spec, limits) && !(Named(spec) && spec.arguments.Some?)
    ensures r == Some(LiveHandleNotAllowed) <==>
            SmallArguments(spec, limits) && Named(spec) && spec.arguments.Some? && !HandleFree(spec)
    ensures r == Some(InvalidInterval) <==>
            SmallArguments(spec, limits) && Named(spec) && HandleFree(spec) && !IntervalAllowed(spec, limits)
    ensures r == Some(InvalidRunLimit) <==>
            && SmallArguments(spec, limits) && Named(spec) && HandleFree(spec)
            && IntervalAllowed(spec, limits) && !RunsAllowed(spec, limits)
  {
    if IsBlank(spec.owner) || IsBlank(spec.toolName) || |spec.argumentsJson| > limits.maximumArgumentChars then
      if |spec.argumentsJson| > limits.maximumArgumentChars then Some(ArgumentsTooLarge) else Some(Invalid)
    else if spec.arguments.None? then Some(Invalid)
    else if ContainsLiveHandle(spec.arguments.value) then Some(LiveHandleNotAllowed)
    else
      match spec.mode
      case OneShot => None
      case _ =>
        if !(limits.minimumInterval <= spec.mode.intervalSeconds <= limits.maximumInterval) then Some(InvalidInterval)
        else if spec.mode.maxRuns == 0 || spec.mode.maxRuns > limits.maximumRuns then Some(InvalidRunLimit)
        else None
  }

  // ------------------------------------------------------------------ tasks

  /** `fields` maps the JSON pointers that resolve in the condition value, if there is one, to their values. */
  datatype ExecutionResult = ExecutionResult(summary: string, fingerprint: string, fields: map<string, Value>)

  datatype Outcome = Success(result: ExecutionResult) | Failure

  datatype OwnedTask = OwnedTask(
    owner: string, mode: Mode, state: TaskState, runCount: U32,
    lastSummary: Option<string>, lastErrorCode: Option<string>,
    lastFingerprint: Option<string>, hadFailure: bool, cancelled: bool, updatedAt: int)

  type Table = map<TaskId, OwnedTask>

  predicate Terminal(state: TaskState) {
    state in {Completed, Failed, Cancelled}
  }

  function NewTask(spec: Spec, now: int): OwnedTask {
    OwnedTask(spec.owner, spec.mode, Queued, 0, None, None, None, false, false, now)
  }

  function ActiveOf(tasks: Table, owner: string): set<TaskId> {
    set id | id in tasks && tasks[id].owner == owner && !Terminal(tasks[id].state)
  }

  predicate Substring(text: string, s: string) {
    exists i | 0 <= i <= |s| - |text| :: OccursAt(text, s, i)
  }

  predicate OccursAt(text: string, s: string, i: int) {
    0 <= i <= |s| - |text| && s[i..i + |text|] == text
  }

  /** One string contains another exactly if it is that string with something before and something after it. */
  lemma SubstringIsInfix(text: string, s: string)
    ensures Substring(text, s) <==> exists before: string, after: string :: s == before + text + after
  {
    if i :| OccursAt(text, s, i) {
      assert s == s[..i] + text + s[i + |text|..];
    }
    if before: string, after: string :| s == before + text + after {
      assert OccursAt(text, s, |before|);
    }
  }

  /** `condition_matches`: does a successful run end the task, given the state kept from earlier runs? */
  predicate ConditionMatches(mode: Mode, previous: Option<string>, hadFailure: bool, result: ExecutionResult) {
    mode.Conditional? &&
    match mode.condition
    case ResultChanged => previous.Some? && previous.value != result.fingerprint
    case ResultContains(text) => Substring(text, result.summary)
    case ResultFieldEquals(pointer, expected) => pointer in result.fields && result.fields[pointer] == expected
    case ExecutionFails => false
    case ExecutionRecovers => hadFailure
  }

  datatype NextRun = Stop | Wait(interval: nat)

  function Matched(task: OwnedTask, outcome: Outcome): bool {
    match outcome
    case Success(result) => ConditionMatches(task.mode, task.lastFingerprint, task.hadFailure, result)
    case Failure => task.mode.Conditional? && task.mode.condition.ExecutionFails?
  }

  /** What `apply_execution_result` does to a task that is present and not cancelled. */
  function Applied(task: OwnedTask, outcome: Outcome, now: int): OwnedTask {
    var noted :=
      match outcome
      case Success(result) => task.(lastFingerprint := Some(result.fingerprint), hadFailure := false,
                                    lastSummary := Some(result.summary), lastErrorCode := None)
      case Failure => task.(hadFailure := true, lastSummary := None, lastErrorCode := Some("execution_failed"));
    var finished := task.mode.OneShot? || Matched(task, outcome) || task.runCount >= MaximumRuns(task.mode);
    noted.(updatedAt := now,
           state := if !finished then Waiting
                    else if outcome.Failure? && !Matched(task, outcome) then Failed else Completed)
  }

  function Started(task: OwnedTask, now: int): OwnedTask {
    task.(state := Running, updatedAt := now,
          runCount := if task.runCount < MAX_U32 then task.runCount + 1 else MAX_U32)
  }

  function CancelledTask(task: OwnedTask, now: int): OwnedTask {
    task.(cancelled := true, state := Cancelled, updatedAt := now)
  }

  predicate Cancellable(tasks: Table, id: TaskId) {
    id in tasks && !Terminal(tasks[id].state)
  }

  function AfterCancel(tasks: Table, id: TaskId, now: int): Table {
    if Cancellable(tasks, id) then tasks[id := CancelledTask(tasks[id], now)] else tasks
  }

  predicate CanRun(tasks: Table, id: TaskId) {
    id in tasks && !tasks[id].cancelled
  }

  function AfterPrepare(tasks: Table, id: TaskId, now: int): Table {
    if CanRun(tasks, id) then tasks[id := Started(tasks[id], now)] else tasks
  }

  function AfterApply(tasks: Table, id: TaskId, outcome: Outcome, now: int): Table {
    if CanRun(tasks, id) then tasks[id := Applied(tasks[id], outcome, now)] else tasks
  }

  /** A terminal task that no other terminal task was last updated before. */
  predicate OldestTerminal(tasks: Table, id: TaskId) {
    && id in tasks && Terminal(tasks[id].state)
    && forall other | other in tasks && Terminal(tasks[other].state) :: tasks[id].updatedAt <= tasks[other].updatedAt
  }

  lemma OldestTerminalExists(tasks: Table, among: set<TaskId>) returns (oldest: TaskId)
    requires among != {} && among <= tasks.Keys
    ensures oldest in among
    ensures forall other | other in among :: tasks[oldest].updatedAt <= tasks[other].updatedAt
    decreases among
  {
    var first :| first in among;
    oldest := first;
    var rest := among - {first};
    assert forall other | other in among :: other == first || other in rest;
    if rest != {} {
      var best := OldestTerminalExists(tasks, rest);
      if tasks[best].updatedAt <= tasks[oldest].updatedAt {
        oldest := best;
      }
    }
  }

  /** The table after a successful `create`, which evicts a task when the table is full. */
  predicate Created(tasks: Table, spec: Spec, id: TaskId, now: int, removed: Option<TaskId>, tasks': Table) {
    && Validate(spec, DEFAULT_LIMITS).None?
    && |ActiveOf(tasks, spec.owner)| < MAX_ACTIVE_TASKS_PER_OWNER
    && (removed.Some? <==> |tasks| >= MAX_RETAINED_TASKS)
    && (removed.Some? ==> OldestTerminal(tasks, removed.value))
    && tasks' == (if removed.Some? then tasks - {removed.value} else tasks)[id := NewTask(spec, now)]
  }

  class BackgroundTaskRuntime {
    var tasks: Table

    constructor ()
      ensures tasks == map[]
    {
      tasks := map[];
    }

    /** `create`, up to spawning the worker. The id is a fresh UUID. */
    method Create(spec: Spec, id: TaskId, now: int) returns (r: Result<Option<TaskId>, Error>)
      requires id !in tasks
      modifies this
      ensures r.Ok? ==> Created(old(tasks), spec, id, now, r.value, tasks)
      ensures r.Err? ==> tasks == old(tasks)
      ensures r.Err? ==>
                if Validate(spec, DEFAULT_LIMITS).Some? then Some(r.error) == Validate(spec, DEFAULT_LIMITS)
                else if |ActiveOf(tasks, spec.owner)| >= MAX_ACTIVE_TASKS_PER_OWNER then r.error == TooManyActiveTasks
                else r.error == TaskCapacityReached && |tasks| >= MAX_RETAINED_TASKS
                     && forall other | other in tasks :: !Terminal(tasks[other].state)
    {
      var invalid := Validate(spec, DEFAULT_LIMITS);
      if invalid.Some? {
        return Err(invalid.value);
      }
      if |ActiveOf(tasks, spec.owner)| >= MAX_ACTIVE_TASKS_PER_OWNER {
        return Err(TooManyActiveTasks);
      }
      var removed: Option<TaskId> := None;
      if |tasks| >= MAX_RETAINED_TASKS {
        var terminal := set other | other in tasks && Terminal(tasks[other].state);
        assert forall other | other in tasks && Terminal(tasks[other].state) :: other in terminal;
        if terminal == {} {
          return Err(TaskCapacityReached);
        }
        ghost var witness_ := OldestTerminalExists(tasks, terminal);
        assert OldestTerminal(tasks, witness_);
        var oldest :| oldest in tasks && OldestTerminal(tasks, oldest);
        tasks := tasks - {oldest};
        removed := Some(oldest);
      }
      tasks := tasks[id := NewTask(spec, now)];
      r := Ok(removed);
    }

    method Cancel(id: TaskId, now: int) returns (cancelled: bool)
      modifies this
      ensures tasks == AfterCancel(old(tasks), id, now)
      ensures cancelled <==> Cancellable(old(tasks), id)
    {
      if id !in tasks {
        return false;
      }
      if tasks[id].state in {Completed, Failed, Cancelled} {
        return false;
      }
      tasks := tasks[id := tasks[id].(cancelled := true)];
      tasks := tasks[id := tasks[id].(state := Cancelled, updatedAt := now)];
      cancelled := true;
    }

    /** `cancel_owner`, without other threads in between: cancels and counts exactly the active tasks of one owner. */
    method CancelOwner(owner: string, now: int) returns (count: nat)
      modifies this
      ensures count == |ActiveOf(old(tasks), owner)|
      ensures tasks.Keys == old(tasks).Keys
      ensures forall id | id in tasks ::
                tasks[id]
                == if id in ActiveOf(old(tasks), owner) then CancelledTask(old(tasks)[id], now) else old(tasks)[id]
    {
      var ids := set id | id in tasks && tasks[id].owner == owner;
      ghost var active, done := ActiveOf(tasks, owner), {};
      count := 0;
      while ids != {}
        invariant tasks.Keys == old(tasks).Keys && ids <= tasks.Keys
        invariant forall id | id in ids :: tasks[id].owner == owner
        invariant done <= active && done !! ids && active - done <= ids
        invariant count == |done|
        invariant forall id | id in tasks ::
                    tasks[id] == if id in done then CancelledTask(old(tasks)[id], now) else old(tasks)[id]
        decreases ids
      {
        var id :| id in ids;
        ids := ids - {id};
        var cancelled := Cancel(id, now);
        if cancelled {
          count := count + 1;
          done := done + {id};
        }
      }
      assert done == active;
    }

    /** Hands the task to the executor: `None` when it is gone or cancelled, else the number of this run. */
    method PrepareExecution(id: TaskId, now: int) returns (runNumber: Option<nat>)
      modifies this
      ensures tasks == AfterPrepare(old(tasks), id, now)
      ensures runNumber == if CanRun(old(tasks), id) then Some(tasks[id].runCount) else None
    {
      if id !in tasks || tasks[id].cancelled {
        return None;
      }
      var task := tasks[id].(state := Running);
      task := task.(runCount := if task.runCount < MAX_U32 then task.runCount + 1 else MAX_U32);
      tasks := tasks[id := task.(updatedAt := now)];
      runNumber := Some(task.runCount);
    }

    method ApplyExecutionResult(id: TaskId, outcome: Outcome, now: int) returns (next: NextRun)
      modifies this
      ensures tasks == AfterApply(old(tasks), id, outcome, now)
      ensures next.Wait? <==> CanRun(old(tasks), id) && tasks[id].state == Waiting
      ensures next.Wait? ==> !tasks[id].mode.OneShot? && next.interval == tasks[id].mode.intervalSeconds
    {
      if id !in tasks || tasks[id].cancelled {
        return Stop;
      }
      var task := tasks[id];
      var matched;
      match outcome {
        case Success(result) =>
          matched := ConditionMatches(task.mode, task.lastFingerprint, task.hadFailure, result);
          task := task.(lastFingerprint := Some(result.fingerprint));
          task := task.(hadFailure := false);
          task := task.(lastSummary := Some(result.summary));
          task := task.(lastErrorCode := None);
        case Failure =>
          matched := task.mode.Conditional? && task.mode.condition.ExecutionFails?;
          task := task.(hadFailure := true);
          task := task.(lastSummary := None);
          task := task.(lastErrorCode := Some("execution_failed"));
      }
      var finished := task.mode.OneShot? || matched || task.runCount >= MaximumRuns(task.mode);
      if finished {
        task := task.(state := if task.lastErrorCode.Some? && !matched then Failed else Completed);
        task := task.(updatedAt := now);
        next := Stop;
      } else {
        task := task.(state := Waiting);
        task := task.(updatedAt := now);
        next := Wait(task.mode.intervalSeconds);
      }
      tasks := tasks[id := task];
    }
  }
}
