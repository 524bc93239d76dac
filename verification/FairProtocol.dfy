/**
 The two-mutex fairness protocol: `next` is taken before `data`, so that a thread that has been promised
 the data cannot be overtaken by one that keeps re-locking it.

 A thread is described by the guards it holds and the call it is inside. Any thread may make any call,
 whatever it holds, and drop its guards in any order; every acquisition or release of one of the two
 mutexes is one atomic step, and steps of different threads interleave freely. Neither mutex can be taken
 twice, by the same thread or by another.
 */
module FairProtocol {
  import opened Wrappers

  type Thread = nat

  datatype Mutex = Next | Data

  datatype Call =
    | NoCall
    | LockNext     // `lock`: wants `next`
    | LockData     // `lock`: has taken `next` and wants `data`
    | LockReturn   // `lock`: has taken both and is about to release `next`
    | LeaseNext    // `lease`: wants `next`
    | UnfairData   // `lock_unfair`: wants `data`

  datatype Pos = Pos(next: bool, data: bool, call: Call) {
    predicate Holds(m: Mutex) { if m == Next then next else data }

    /** The mutex the thread waits for. */
    function Wants(): Option<Mutex> {
      if call == LockNext || call == LeaseNext then Some(Next)
      else if call == LockData || call == UnfairData then Some(Data)
      else None
    }

    /** A call that can block on a mutex while the thread holds the data, or on `next` while it holds `next`. */
    predicate Nested() {
      (data && Wants().Some?) || (next && Wants() == Some(Next))
    }

    /** What the code of `lock` keeps while it runs. */
    predicate WellPlaced() {
      (call == LockData || call == LockReturn ==> next) && (call == LockReturn ==> data)
    }
  }

  const Idle := Pos(false, false, NoCall)

  datatype State = State(pcs: map<Thread, Pos>) {
    function At(t: Thread): Pos { if t in pcs then pcs[t] else Idle }

    predicate Holds(t: Thread, m: Mutex) { At(t).Holds(m) }

    ghost predicate Free(m: Mutex) { forall t :: !Holds(t, m) }

    function Move(t: Thread, p: Pos): State { State(pcs[t := p]) }
  }

  datatype Action =
    | BeginLock | BeginLease | BeginUnfair
    | TakeNext           // the blocking acquisition of `next`
    | TakeData           // the blocking acquisition of `data`
    | Park(m: Mutex)     // a blocked call looks at the mutex it waits for, and finds it held
    | DropNext           // `lock` returns and releases `next`
    | TryData(won: bool) // `try_lock_unfair`
    | ReleaseData        // drop the data guard
    | ReleaseLease       // drop the lease

  /** Where a thread at `p` stands after action `a`, or `None` when it cannot do that there. */
  function After(p: Pos, a: Action): Option<Pos> {
    match a
    case BeginLock => if p.call == NoCall then Some(p.(call := LockNext)) else None
    case BeginLease => if p.call == NoCall then Some(p.(call := LeaseNext)) else None
    case BeginUnfair => if p.call == NoCall then Some(p.(call := UnfairData)) else None
    case TakeNext =>
      if p.Wants() == Some(Next) then Some(Pos(true, p.data, if p.call == LockNext then LockData else NoCall))
      else None
    case TakeData =>
      if p.Wants() == Some(Data) then Some(Pos(p.next, true, if p.call == LockData then LockReturn else NoCall))
      else None
    case Park(m) => if p.Wants() == Some(m) then Some(p) else None
    case DropNext => if p.call == LockReturn then Some(Pos(false, p.data, NoCall)) else None
    case TryData(won) => if p.call == NoCall then Some(if won then p.(data := true) else p) else None
    case ReleaseData => if p.call == NoCall && p.data then Some(p.(data := false)) else None
    case ReleaseLease => if p.call == NoCall && p.next then Some(p.(next := false)) else None
  }

  /** A mutex is only acquired when no thread holds it, and an attempt or a look fails only when one does. */
  ghost predicate Granted(s: State, a: Action) {
    match a
    case TakeNext => s.Free(Next)
    case TakeData => s.Free(Data)
    case Park(m) => !s.Free(m)
    case TryData(won) => won == s.Free(Data)
    case _ => true
  }

  /** One atomic step of thread `t`. */
  ghost predicate Step(s: State, t: Thread, a: Action, s': State) {
    After(s.At(t), a).Some? && Granted(s, a) && s' == s.Move(t, After(s.At(t), a).value)
  }

  datatype Event = Event(thread: Thread, action: Action)

  /** A run: states linked by steps. */
  ghost predicate Run(states: seq<State>, events: seq<Event>) {
    && |states| == |events| + 1
    && (forall i | 0 <= i < |events| :: Step(states[i], events[i].thread, events[i].action, states[i + 1]))
  }

  ghost predicate Execution(states: seq<State>, events: seq<Event>) {
    Run(states, events) && states[0] == State(map[])
  }

  // ------------------------------------------------------------------ mutual exclusion

  ghost predicate Exclusive(s: State) {
    && (forall m, t, u :: s.Holds(t, m) && s.Holds(u, m) ==> t == u)
    && (forall t :: s.At(t).WellPlaced())
  }

  lemma OthersStay(s: State, t: Thread, a: Action, s': State)
    requires Step(s, t, a, s')
    ensures forall u | u != t :: s'.At(u) == s.At(u)
    ensures s'.At(t) == After(s.At(t), a).value
  {
  }

  lemma StepKeepsExclusive(s: State, t: Thread, a: Action, s': State)
    requires Exclusive(s) && Step(s, t, a, s')
    ensures Exclusive(s')
  {
    OthersStay(s, t, a, s');
    assert s.At(t).WellPlaced();
    forall m, u | s'.Holds(u, m)
      ensures s.Holds(u, m) || (u == t && s.Free(m))
    {
    }
  }

  lemma {:induction false} StaysExclusive(states: seq<State>, events: seq<Event>, i: nat)
    requires Run(states, events) && Exclusive(states[0]) && i < |states|
    ensures Exclusive(states[i])
  {
    if i > 0 {
      StaysExclusive(states, events, i - 1);
      StepKeepsExclusive(states[i - 1], events[i - 1].thread, events[i - 1].action, states[i]);
    }
  }

  /** In every reachable state each mutex has at most one holder, however it is used. */
  lemma {:induction false} MutualExclusion(states: seq<State>, events: seq<Event>, i: nat)
    requires Execution(states, events) && i < |states|
    ensures Exclusive(states[i])
  {
    StaysExclusive(states, events, i);
  }

  // ------------------------------------------------------------------ hand-off

  /** Event `i` is the moment its thread obtains the data. */
  ghost predicate Obtains(states: seq<State>, events: seq<Event>, i: nat)
    requires |states| == |events| + 1 && i < |events|
  {
    var t := events[i].thread;
    !states[i].Holds(t, Data) && states[i + 1].Holds(t, Data)
  }

  /** Event `i` is a `lock_unfair` or a `try_lock_unfair` that succeeds without a lease. */
  ghost predicate Unleased(states: seq<State>, events: seq<Event>, i: nat)
    requires |states| == |events| + 1 && i < |events|
  {
    var e, p := events[i], states[i].At(events[i].thread);
    !p.next && ((e.action == TakeData && p.call == UnfairData) || e.action == TryData(true))
  }

  /**
   Overtaking, exactly: while a thread holds `next`, another thread obtains the data by unleased
   acquisitions and in no other way.
   */
  lemma {:induction false} OvertakingIsUnleased(states: seq<State>, events: seq<Event>, t: Thread, i: nat)
    requires Execution(states, events) && i < |events| && states[i].Holds(t, Next)
    ensures Obtains(states, events, i) && events[i].thread != t <==> Unleased(states, events, i)
  {
    MutualExclusion(states, events, i);
    var s, e := states[i], events[i];
    assert Step(s, e.thread, e.action, states[i + 1]);
    OthersStay(s, e.thread, e.action, states[i + 1]);
    assert s.Holds(e.thread, Next) ==> e.thread == t;
    assert s.At(e.thread).WellPlaced();
    assert s.Free(Data) ==> !s.Holds(e.thread, Data);
  }

  /** Over any stretch in which `t` holds `next`, nobody overtakes it exactly when nobody goes unleased. */
  lemma NoOvertaking(states: seq<State>, events: seq<Event>, t: Thread, from: nat, to: nat)
    requires Execution(states, events) && from <= to <= |events|
    requires forall i | from <= i < to :: states[i].Holds(t, Next)
    ensures (forall i | from <= i < to && Obtains(states, events, i) :: events[i].thread == t)
            <==> forall i | from <= i < to :: !Unleased(states, events, i)
  {
    forall i | from <= i < to
      ensures Obtains(states, events, i) && events[i].thread != t <==> Unleased(states, events, i)
    {
      OvertakingIsUnleased(states, events, t, i);
    }
  }

  /** A thread that holds `next` and is blocked on the data, in `lock` or under a lease. */
  predicate Promised(p: Pos) {
    p.next && p.Wants() == Some(Data)
  }

  /** Event `i` is `t` obtaining the data. */
  ghost predicate Takes(states: seq<State>, events: seq<Event>, t: Thread, i: nat)
    requires |states| == |events| + 1 && i < |events|
  {
    events[i].thread == t && Obtains(states, events, i)
  }

  /** A thread that was promised the data keeps the promise until it has the data, whatever others do. */
  lemma {:induction false} PromiseKept(states: seq<State>, events: seq<Event>, t: Thread, from: nat, i: nat)
    requires Execution(states, events) && from <= i < |states|
    requires Promised(states[from].At(t))
    requires forall j | from <= j < i :: !Takes(states, events, t, j)
    ensures states[i].At(t) == states[from].At(t)
  {
    if i > from {
      PromiseKept(states, events, t, from, i - 1);
      var s, e := states[i - 1], events[i - 1];
      assert Step(s, e.thread, e.action, states[i]);
      OthersStay(s, e.thread, e.action, states[i]);
      assert !Takes(states, events, t, i - 1);
      assert s.Free(Data) ==> !s.Holds(t, Data);
    }
  }

  /**
   Bounded waiting: until the promised thread has the data, somebody else obtains it exactly when there is
   an unleased acquisition.
   */
  lemma PromisedThreadIsNext(states: seq<State>, events: seq<Event>, t: Thread, from: nat, to: nat)
    requires Execution(states, events) && from <= to <= |events|
    requires Promised(states[from].At(t))
    requires forall j | from <= j < to :: !Takes(states, events, t, j)
    ensures (forall i | from <= i < to :: !Obtains(states, events, i))
            <==> forall i | from <= i < to :: !Unleased(states, events, i)
  {
    forall i | from <= i < to
      ensures Obtains(states, events, i) <==> Unleased(states, events, i)
    {
      PromiseKept(states, events, t, from, i);
      OvertakingIsUnleased(states, events, t, i);
      assert !Takes(states, events, t, i);
    }
  }

  /**
   Once the current holder has let go, the data stays free until the promised thread takes it, so that its
   acquisition stays enabled, exactly when there is no unleased acquisition.
   */
  lemma {:induction false} DataReservedForPromised(
      states: seq<State>, events: seq<Event>, t: Thread, from: nat, to: nat)
    requires Execution(states, events) && from <= to < |states|
    requires Promised(states[from].At(t)) && states[from].Free(Data)
    requires forall j | from <= j < to :: !Takes(states, events, t, j)
    ensures (forall i | from <= i <= to :: states[i].Free(Data))
            <==> forall i | from <= i < to :: !Unleased(states, events, i)
  {
    if to > from {
      DataReservedForPromised(states, events, t, from, to - 1);
      ReservedOneMore(states, events, t, from, to - 1);
    }
  }

  lemma ReservedOneMore(states: seq<State>, events: seq<Event>, t: Thread, from: nat, i: nat)
    requires Execution(states, events) && from <= i < |events| && Promised(states[from].At(t))
    requires forall j | from <= j <= i :: !Takes(states, events, t, j)
    ensures states[i].Free(Data) ==> (states[i + 1].Free(Data) <==> !Unleased(states, events, i))
  {
    PromiseKept(states, events, t, from, i);
    OvertakingIsUnleased(states, events, t, i);
    assert !Takes(states, events, t, i);
    hide Step, Unleased;
    if states[i].Free(Data) {
      FreeUntilObtained(states, events, i);
    }
  }

  lemma FreeUntilObtained(states: seq<State>, events: seq<Event>, i: nat)
    requires Run(states, events) && i < |events| && states[i].Free(Data)
    ensures states[i + 1].Free(Data) <==> !Obtains(states, events, i)
  {
    var s, s', t := states[i], states[i + 1], events[i].thread;
    OthersStay(s, t, events[i].action, s');
    assert !s.Holds(t, Data);
    forall u
      ensures s'.Holds(u, Data) ==> u == t
    {
      assert !s.Holds(u, Data) && (u != t ==> s'.At(u) == s.At(u));
    }
  }

  /** The threat is always there: with the data free, any thread outside a call can take it without a lease. */
  lemma AnyThreadCanOvertake(s: State, t: Thread, u: Thread)
    requires Promised(s.At(t)) && s.Free(Data) && s.At(u).call == NoCall && u != t
    ensures var s' := s.Move(u, s.At(u).(data := true));
            Step(s, u, TryData(true), s') && s'.At(t) == s.At(t) && !Granted(s', TakeData)
  {
    var s' := s.Move(u, s.At(u).(data := true));
    assert s'.Holds(u, Data);
  }

  /** Thread 0 has been promised the data. */
  function PromisedRun(): (seq<State>, seq<Event>) {
    var s0 := State(map[]);
    var s1 := s0.Move(0, Idle.(call := LockNext));
    ([s0, s1, s1.Move(0, Pos(true, false, LockData))], [Event(0, BeginLock), Event(0, TakeNext)])
  }

  lemma PromisedRunIsOne()
    ensures var (states, events) := PromisedRun();
            Execution(states, events) && Promised(states[2].At(0)) && states[2].Free(Data) && states[2].At(1) == Idle
  {
    var (states, events) := PromisedRun();
    assert Step(states[0], 0, BeginLock, states[1]) && Step(states[1], 0, TakeNext, states[2]);
  }

  lemma RunMore(states: seq<State>, events: seq<Event>, t: Thread, a: Action, s: State)
    requires Run(states, events) && Step(states[|events|], t, a, s)
    ensures Run(states + [s], events + [Event(t, a)])
  {
  }

  /** Thread 1 overtakes it by `try_lock_unfair`, as the renderer's snapshots do. */
  lemma TryOvertakes()
    ensures exists states: seq<State>, events: seq<Event> ::
              && Execution(states, events) && |events| == 3 && events[2] == Event(1, TryData(true))
              && Promised(states[2].At(0)) && Obtains(states, events, 2)
  {
    var (states, events) := PromisedRun();
    PromisedRunIsOne();
    AnyThreadCanOvertake(states[2], 0, 1);
    var s := states[2].Move(1, Idle.(data := true));
    RunMore(states, events, 1, TryData(true), s);
    var states', events' := states + [s], events + [Event(1, TryData(true))];
    assert states'[0] == states[0] && states'[2] == states[2] && states'[3] == s;
    hide Run, PromisedRun;
    assert Obtains(states', events', 2);
  }

  /** Thread 1 overtakes it by `lock_unfair`, as flushing an incomplete character does. */
  lemma LockUnfairOvertakes()
    ensures exists states: seq<State>, events: seq<Event> ::
              && Execution(states, events) && |events| == 4 && events[3] == Event(1, TakeData)
              && Promised(states[3].At(0)) && Obtains(states, events, 3)
  {
    var (states, events) := PromisedRun();
    PromisedRunIsOne();
    var s := states[2].Move(1, Idle.(call := UnfairData));
    var s' := s.Move(1, Idle.(data := true));
    assert forall u: Thread :: s.Holds(u, Data) ==> states[2].Holds(u, Data);
    RunMore(states, events, 1, BeginUnfair, s);
    RunMore(states + [s], events + [Event(1, BeginUnfair)], 1, TakeData, s');
    var states', events' := states + [s] + [s'], events + [Event(1, BeginUnfair)] + [Event(1, TakeData)];
    assert states'[0] == states[0] && states'[3] == s && states'[4] == s';
    hide Run, PromisedRun;
    assert Obtains(states', events', 3);
  }
}
