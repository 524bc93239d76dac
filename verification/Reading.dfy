/**
 What one call of the pseudoterminal reader does, as a function of what it finds: the outcome of every
 read, and whether its attempt to lock the terminal succeeds.
 */
module Reading {
  newtype byte = x: int | 0 <= x < 256

  type Bytes = seq<byte>

  const READ_BUFFER_SIZE := 0x10_0000

  const MAX_LOCKED_READ := 0xFFFF

  /** `Blocked` stands for the error kinds `Interrupted` and `WouldBlock`. */
  datatype ReadOutcome = Got(data: Bytes) | Blocked | Broken

  /** One iteration: the read, and whether an attempt to lock the terminal succeeds. */
  datatype ReadStep = ReadStep(outcome: ReadOutcome, lockFree: bool)

  datatype ReadEnd = StillReading | CaughtUp | ReadFailed

  /** How far a call has come: bytes read and not yet parsed, bytes parsed, and whether it holds the lock. */
  datatype Progress = Progress(buffered: Bytes, parsed: Bytes, locked: bool, end: ReadEnd)

  const START := Progress([], [], false, StillReading)

  /** The part of `data` that fits. */
  function Fitting(data: Bytes, room: nat): Bytes {
    if |data| <= room then data else data[..room]
  }

  function Room(buffered: Bytes): nat {
    if |buffered| <= READ_BUFFER_SIZE then READ_BUFFER_SIZE - |buffered| else 0
  }

  /** What the buffer holds after a read. */
  function Filled(buffered: Bytes, outcome: ReadOutcome): Bytes {
    if outcome.Got? then buffered + Fitting(outcome.data, Room(buffered)) else buffered
  }

  /** Parses what is buffered if the lock is held, obtained, or forced because the buffer is full. */
  function Parse(p: Progress, lockFree: bool): Progress {
    if p.locked || lockFree || |p.buffered| >= READ_BUFFER_SIZE then
      var parsed := p.parsed + p.buffered;
      Progress([], parsed, true, if |parsed| >= MAX_LOCKED_READ then CaughtUp else StillReading)
    else p
  }

  function AfterStep(p: Progress, step: ReadStep): Progress {
    if !p.end.StillReading? then p
    else
      var filled := Filled(p.buffered, step.outcome);
      if step.outcome.Broken? then p.(end := ReadFailed)
      else if filled == [] then p.(end := CaughtUp)
      else Parse(p.(buffered := filled), step.lockFree)
  }

  function AfterScript(steps: seq<ReadStep>): Progress {
    if steps == [] then START else AfterStep(AfterScript(steps[..|steps| - 1]), steps[|steps| - 1])
  }

  lemma ScriptMore(steps: seq<ReadStep>, step: ReadStep)
    ensures AfterScript(steps + [step]) == AfterStep(AfterScript(steps), step)
  {
    assert (steps + [step])[..|steps|] == steps;
  }

  /** What every call keeps: nothing is buffered under the lock, and one call parses only so much. */
  lemma {:induction false} ReadInv(steps: seq<ReadStep>)
    ensures var p := AfterScript(steps);
            && |p.buffered| < READ_BUFFER_SIZE && |p.parsed| < MAX_LOCKED_READ + READ_BUFFER_SIZE
            && (p.locked ==> p.buffered == []) && (!p.locked ==> p.parsed == [])
            && (p.end.StillReading? ==> |p.parsed| < MAX_LOCKED_READ)
            && (p.end.CaughtUp? ==> p.buffered == [])
  {
    if steps != [] {
      ReadInv(steps[..|steps| - 1]);
    }
  }

  /** After this read the call tries to lock the terminal. */
  predicate Attempted(p: Progress, outcome: ReadOutcome) {
    p.end.StillReading? && !p.locked && !outcome.Broken? && Filled(p.buffered, outcome) != []
  }

  /** How the attempts to lock the terminal end, one after the other. */
  function Attempts(steps: seq<ReadStep>): seq<bool> {
    if steps == [] then []
    else
      var init, last := steps[..|steps| - 1], steps[|steps| - 1];
      Attempts(init) + if Attempted(AfterScript(init), last.outcome) then [last.lockFree] else []
  }

  lemma AttemptsMore(steps: seq<ReadStep>, step: ReadStep)
    ensures Attempts(steps + [step])
            == Attempts(steps) + if Attempted(AfterScript(steps), step.outcome) then [step.lockFree] else []
  {
    assert (steps + [step])[..|steps|] == steps;
  }

  /** The bytes the reads have to offer. */
  function Total(steps: seq<ReadStep>): nat {
    if steps == [] then 0 else Total(steps[..|steps| - 1]) + Offer(steps[|steps| - 1].outcome)
  }

  function Offer(outcome: ReadOutcome): nat {
    if outcome.Got? then |outcome.data| else 0
  }

  lemma FilledLength(buffered: Bytes, outcome: ReadOutcome)
    requires |buffered| <= READ_BUFFER_SIZE
    ensures var all := |buffered| + Offer(outcome);
            |Filled(buffered, outcome)| == if all <= READ_BUFFER_SIZE then all else READ_BUFFER_SIZE
  {
  }

  ghost predicate NeverFree(steps: seq<ReadStep>) {
    forall i | 0 <= i < |steps| :: !steps[i].lockFree
  }

  lemma LockedStep(p: Progress, step: ReadStep)
    requires p.end.StillReading? && |p.buffered| < READ_BUFFER_SIZE && AfterStep(p, step).end.StillReading?
    ensures AfterStep(p, step).locked
            <==> p.locked || step.lockFree || |p.buffered| + Offer(step.outcome) >= READ_BUFFER_SIZE
    ensures !AfterStep(p, step).locked ==> |AfterStep(p, step).buffered| == |p.buffered| + Offer(step.outcome)
  {
    FilledLength(p.buffered, step.outcome);
    hide Filled;
  }

  /** What the steps so far say about the lock and the buffer. */
  ghost predicate LockTold(p: Progress, steps: seq<ReadStep>) {
    && (p.locked <==> !(NeverFree(steps) && Total(steps) < READ_BUFFER_SIZE))
    && (!p.locked ==> |p.buffered| == Total(steps))
  }

  lemma LockToldMore(p: Progress, steps: seq<ReadStep>, step: ReadStep)
    requires LockTold(p, steps) && p.end.StillReading? && |p.buffered| < READ_BUFFER_SIZE
    requires AfterStep(p, step).end.StillReading?
    ensures LockTold(AfterStep(p, step), steps + [step])
  {
    LockedStep(p, step);
    var more := steps + [step];
    assert more[..|steps|] == steps && more[|steps|] == step;
    assert NeverFree(more) <==> NeverFree(steps) && !step.lockFree;
  }

  /** The lock is still not held exactly when no attempt succeeded and the buffer never filled. */
  lemma {:induction false} LockedExactly(steps: seq<ReadStep>)
    requires AfterScript(steps).end.StillReading?
    ensures LockTold(AfterScript(steps), steps)
  {
    if steps != [] {
      var init, last := steps[..|steps| - 1], steps[|steps| - 1];
      assert steps == init + [last];
      ScriptMore(init, last);
      hide AfterScript, LockTold;
      ReadInv(init);
      LockedExactly(init);
      LockToldMore(AfterScript(init), init, last);
    }
  }

  /**
   A failing read loses bytes exactly when something had been read, no attempt to lock the terminal had
   succeeded, and the buffer had not filled; it loses all that was read then.
   */
  lemma FailureLosesExactly(steps: seq<ReadStep>, last: ReadStep)
    requires AfterScript(steps).end.StillReading? && last.outcome.Broken?
    ensures var p := AfterScript(steps + [last]);
            && p.end.ReadFailed?
            && (p.buffered != [] <==> 0 < Total(steps) < READ_BUFFER_SIZE && NeverFree(steps))
            && (p.buffered != [] <==> |p.parsed + p.buffered| > 0 && p.parsed == [])
            && (p.buffered != [] ==> |p.buffered| == Total(steps))
  {
    ScriptMore(steps, last);
    ReadInv(steps);
    LockedExactly(steps);
  }

  /**
   A call that is still reading returns normally exactly when a read brings nothing and nothing is left to
   parse, or enough has been parsed under the lock.
   */
  lemma CaughtUpExactly(steps: seq<ReadStep>, last: ReadStep)
    requires AfterScript(steps).end.StillReading?
    ensures var before, p := AfterScript(steps), AfterScript(steps + [last]);
            && (p.end.CaughtUp? <==>
                  !last.outcome.Broken?
                  && (|before.buffered| + Offer(last.outcome) == 0 || |p.parsed| >= 0xFFFF))
            && (p.end.ReadFailed? <==> last.outcome.Broken?)
  {
    ScriptMore(steps, last);
    ReadInv(steps);
    FilledLength(AfterScript(steps).buffered, last.outcome);
  }

  /** One byte is read while the terminal is locked by somebody else, and the next read fails. */
  lemma LossExample()
    ensures AfterScript([ReadStep(Got([65]), false), ReadStep(Broken, false)]) == Progress([65], [], false, ReadFailed)
  {
    var first := ReadStep(Got([65]), false);
    assert Fitting([65], READ_BUFFER_SIZE) == [65];
    ScriptMore([], first);
    ScriptMore([first], ReadStep(Broken, false));
    assert [] + [first] == [first];
    assert [first] + [ReadStep(Broken, false)] == [first, ReadStep(Broken, false)];
  }
}
