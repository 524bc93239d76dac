/**
 When the fair mutex deadlocks: which mutexes can never be released again, which calls can never return,
 and what it takes to get there.
 */
module FairDeadlock {
  import opened Wrappers
  import opened FairProtocol

  function Other(m: Mutex): Mutex { if m == Next then Data else Next }

  /** The thread waits for a mutex that somebody holds, perhaps itself. */
  ghost predicate Waits(s: State, t: Thread) {
    s.At(t).Wants().Some? && !s.Free(s.At(t).Wants().value)
  }

  ghost predicate CanStep(s: State, t: Thread) {
    exists a :: After(s.At(t), a).Some? && Granted(s, a) && After(s.At(t), a).value != s.At(t)
  }

  /** A thread inside the protocol can move unless it waits for a held mutex. */
  lemma InsideCanStep(s: State, t: Thread)
    requires s.At(t) != Idle
    ensures CanStep(s, t) <==> !Waits(s, t)
  {
    var p := s.At(t);
    var a := if p.Wants() == Some(Next) then TakeNext
             else if p.Wants() == Some(Data) then TakeData
             else if p.call == LockReturn then DropNext
             else if p.data then ReleaseData
             else ReleaseLease;
    assert After(p, a).Some? && After(p, a).value != p;
    if !Waits(s, t) {
      assert Granted(s, a);
    }
  }

  /** A holder of the data can move unless it asks for the data again, or for `next` while that is taken. */
  lemma DataHolderCanStep(s: State, t: Thread)
    requires s.Holds(t, Data)
    ensures CanStep(s, t) <==>
            !(s.At(t).Wants() == Some(Data) || (s.At(t).Wants() == Some(Next) && !s.Free(Next)))
  {
    InsideCanStep(s, t);
  }

  // ------------------------------------------------------------------ dead mutexes

  /**
   A holder that will never release `m`: it waits for `m` itself; or it holds the data while its `lock` asks
   for `next`, and is going to ask for the data; or it waits for the other mutex, whose holder waits as well.
   */
  ghost predicate Hopeless(s: State, u: Thread, m: Mutex) {
    var p := s.At(u);
    || p.Wants() == Some(m)
    || (m == Data && p.call == LockNext)
    || (p.Wants() == Some(Other(m)) && exists w :: s.Holds(w, Other(m)) && s.At(w).Wants().Some?)
  }

  ghost predicate Dead(s: State, m: Mutex) {
    exists u :: s.Holds(u, m) && Hopeless(s, u, m)
  }

  /** A dead mutex stays dead, and held. */
  lemma DeadStays(s: State, t: Thread, a: Action, s': State, m: Mutex)
    requires Exclusive(s) && Step(s, t, a, s') && Dead(s, m)
    ensures Dead(s', m)
  {
    OthersStay(s, t, a, s');
    var u :| s.Holds(u, m) && Hopeless(s, u, m);
    var p := s.At(u);
    assert !s.Free(m);
    if p.Wants() != Some(m) && !(m == Data && p.call == LockNext) {
      var w :| s.Holds(w, Other(m)) && s.At(w).Wants().Some?;
      assert !s.Free(Other(m));
      assert s'.At(u) == p && s'.At(w) == s.At(w);
      assert s'.Holds(w, Other(m)) && s'.At(w).Wants().Some?;
    }
    assert s'.Holds(u, m) && Hopeless(s', u, m);
  }

  ghost predicate Path(s: State, states: seq<State>, events: seq<Event>) {
    Run(states, events) && states[0] == s
  }

  /** `s'` can follow from `s`. */
  ghost predicate Reaches(s: State, s': State) {
    exists states, events :: Path(s, states, events) && states[|events|] == s'
  }

  lemma ReachesSelf(s: State)
    ensures Reaches(s, s)
  {
    var states, events: seq<Event> := [s], [];
    assert Path(s, states, events) && states[|events|] == s;
  }

  lemma ReachesMore(s: State, s1: State, t: Thread, a: Action, s2: State)
    requires Reaches(s, s1) && Step(s1, t, a, s2)
    ensures Reaches(s, s2)
  {
    var states, events :| Path(s, states, events) && states[|events|] == s1;
    RunMore(states, events, t, a, s2);
    assert Path(s, states + [s2], events + [Event(t, a)]);
  }

  lemma {:induction false} DeadAlong(states: seq<State>, events: seq<Event>, i: nat, m: Mutex)
    requires Run(states, events) && Exclusive(states[0]) && Dead(states[0], m) && i < |states|
    ensures Dead(states[i], m)
  {
    if i > 0 {
      DeadAlong(states, events, i - 1, m);
      StaysExclusive(states, events, i - 1);
      DeadStays(states[i - 1], events[i - 1].thread, events[i - 1].action, states[i], m);
    }
  }

  /** A mutex can never be free again exactly when it is dead. */
  lemma DeadExactly(s: State, m: Mutex)
    requires Exclusive(s)
    ensures Dead(s, m) <==> !exists s' :: Reaches(s, s') && s'.Free(m)
  {
    if Dead(s, m) {
      forall s' | Reaches(s, s')
        ensures !s'.Free(m)
      {
        var states, events :| Path(s, states, events) && states[|events|] == s';
        DeadAlong(states, events, |events|, m);
      }
    } else {
      CanBeFreed(s, m);
    }
  }

  /** The holder, if there is one, gets what it waits for from its holder and then lets go. */
  lemma CanBeFreed(s: State, m: Mutex)
    requires Exclusive(s) && !Dead(s, m)
    ensures exists s' :: Reaches(s, s') && s'.Free(m)
  {
    ReachesSelf(s);
    if !s.Free(m) {
      var u :| s.Holds(u, m);
      assert !Hopeless(s, u, m) && s.At(u).WellPlaced();
      if s.At(u).Wants().None? {
        LetsGo(s, s, u, m);
      } else if s.Free(Other(m)) {
        ServedLetsGo(s, s, u, m);
      } else {
        var w :| s.Holds(w, Other(m));
        assert s.At(w).WellPlaced() && s.At(w).call == NoCall && w != u by {
          assert s.At(w).call == LockReturn ==> s.Holds(w, m) && s.Holds(w, Other(m));
        }
        var s1 := s.Move(w, Released(s.At(w), Other(m)));
        assert Step(s, w, if m == Next then ReleaseData else ReleaseLease, s1);
        ReachesMore(s, s, w, if m == Next then ReleaseData else ReleaseLease, s1);
        StepKeepsExclusive(s, w, if m == Next then ReleaseData else ReleaseLease, s1);
        FreedBy(s, w, Other(m), s1);
        assert s1.At(u) == s.At(u);
        ServedLetsGo(s, s1, u, m);
      }
    }
  }

  function Released(p: Pos, m: Mutex): Pos {
    if m == Next then p.(next := false) else p.(data := false)
  }

  lemma FreedBy(s: State, w: Thread, m: Mutex, s': State)
    requires Exclusive(s) && s.Holds(w, m)
    requires !s'.Holds(w, m) && forall u | u != w :: s'.At(u) == s.At(u)
    ensures s'.Free(m)
  {
    forall u
      ensures !s'.Holds(u, m)
    {
      assert u != w ==> s'.Holds(u, m) == s.Holds(u, m);
    }
  }

  /** A holder that waits for nothing releases the mutex, inside `lock` after returning from it. */
  lemma LetsGo(s0: State, s: State, u: Thread, m: Mutex)
    requires Reaches(s0, s) && Exclusive(s) && s.Holds(u, m) && s.At(u).Wants().None?
    ensures exists s' :: Reaches(s0, s') && s'.Free(m)
  {
    var s1 := s;
    if s.At(u).call == LockReturn {
      s1 := s.Move(u, s.At(u).(next := false, call := NoCall));
      assert Step(s, u, DropNext, s1);
      ReachesMore(s0, s, u, DropNext, s1);
      StepKeepsExclusive(s, u, DropNext, s1);
      if m == Next {
        FreedBy(s, u, m, s1);
      }
    }
    if !s1.Free(m) {
      assert s1.Holds(u, m) && s1.At(u).call == NoCall;
      var a := if m == Next then ReleaseLease else ReleaseData;
      var s2 := s1.Move(u, Released(s1.At(u), m));
      assert Step(s1, u, a, s2);
      ReachesMore(s0, s1, u, a, s2);
      FreedBy(s1, u, m, s2);
    }
  }

  /** With the other mutex free, a holder of `m` that waits for it takes it and lets go of `m`. */
  lemma ServedLetsGo(s0: State, s: State, u: Thread, m: Mutex)
    requires Reaches(s0, s) && Exclusive(s) && s.Holds(u, m) && s.Free(Other(m))
    requires s.At(u).Wants() == Some(Other(m)) && !(m == Data && s.At(u).call == LockNext)
    ensures exists s' :: Reaches(s0, s') && s'.Free(m)
  {
    var a := if m == Next then TakeData else TakeNext;
    var s1 := s.Move(u, After(s.At(u), a).value);
    assert Step(s, u, a, s1);
    ReachesMore(s0, s, u, a, s1);
    StepKeepsExclusive(s, u, a, s1);
    assert s1.Holds(u, m) && s1.At(u).Wants().None?;
    LetsGo(s0, s1, u, m);
  }

  /** A call that waits for a mutex never gets it, and so never returns, exactly when the mutex is dead. */
  lemma WaiterStuckExactly(s: State, t: Thread)
    requires Exclusive(s) && s.At(t).Wants().Some?
    ensures Dead(s, s.At(t).Wants().value) <==> forall s' | Reaches(s, s') :: s'.At(t) == s.At(t)
  {
    var m := s.At(t).Wants().value;
    if Dead(s, m) {
      forall s' | Reaches(s, s')
        ensures s'.At(t) == s.At(t)
      {
        var states, events :| Path(s, states, events) && states[|events|] == s';
        StuckAlong(states, events, |events|, t);
      }
    } else {
      DeadExactly(s, m);
      var s1 :| Reaches(s, s1) && s1.Free(m);
      if s1.At(t) == s.At(t) {
        var a := if m == Next then TakeNext else TakeData;
        var s2 := s1.Move(t, After(s1.At(t), a).value);
        assert Step(s1, t, a, s2);
        ReachesMore(s, s1, t, a, s2);
      }
    }
  }

  lemma {:induction false} StuckAlong(states: seq<State>, events: seq<Event>, i: nat, t: Thread)
    requires Run(states, events) && Exclusive(states[0]) && i < |states|
    requires states[0].At(t).Wants().Some? && Dead(states[0], states[0].At(t).Wants().value)
    ensures states[i].At(t) == states[0].At(t)
  {
    if i > 0 {
      StuckAlong(states, events, i - 1, t);
      DeadAlong(states, events, i - 1, states[0].At(t).Wants().value);
      OthersStay(states[i - 1], events[i - 1].thread, events[i - 1].action, states[i]);
    }
  }

  // ------------------------------------------------------------------ how a mutex dies

  ghost predicate NobodyNested(s: State) {
    forall t :: !s.At(t).Nested()
  }

  /** Event `i` begins a call that can block on a mutex while its thread holds it, or on `next` with the data held. */
  ghost predicate Nests(states: seq<State>, events: seq<Event>, i: nat)
    requires |states| == |events| + 1 && i < |events|
  {
    var t := events[i].thread;
    !states[i].At(t).Nested() && states[i + 1].At(t).Nested()
  }

  /** Without nested calls no mutex is ever dead. */
  lemma {:induction false} NoDeadlock(states: seq<State>, events: seq<Event>, i: nat, m: Mutex)
    requires Execution(states, events) && i < |states|
    requires forall j | 0 <= j < i :: !Nests(states, events, j)
    ensures NobodyNested(states[i]) && !Dead(states[i], m)
  {
    UnnestedRun(states, events, i);
    MutualExclusion(states, events, i);
    UnnestedAlive(states[i], m);
  }

  lemma UnnestedAlive(s: State, m: Mutex)
    requires NobodyNested(s) && Exclusive(s)
    ensures !Dead(s, m)
  {
    forall u | s.Holds(u, m)
      ensures !Hopeless(s, u, m)
    {
      assert !s.At(u).Nested();
      forall w | s.Holds(w, Other(m)) && s.At(w).Wants().Some?
        ensures s.At(u).Wants() != Some(Other(m))
      {
        assert !s.At(w).Nested();
      }
    }
  }

  lemma {:induction false} UnnestedRun(states: seq<State>, events: seq<Event>, i: nat)
    requires Run(states, events) && i < |states| && NobodyNested(states[0])
    requires forall j | 0 <= j < i :: !Nests(states, events, j)
    ensures NobodyNested(states[i])
  {
    if i > 0 {
      UnnestedRun(states, events, i - 1);
      OthersStay(states[i - 1], events[i - 1].thread, events[i - 1].action, states[i]);
      assert !Nests(states, events, i - 1);
    }
  }

  /** A run from `s` in which nobody begins a nested call and after which a mutex is dead. */
  ghost predicate RunsIntoDeadlock(s: State, states: seq<State>, events: seq<Event>) {
    && Path(s, states, events)
    && (forall j | 0 <= j < |events| :: !Nests(states, events, j))
    && exists m :: Dead(states[|events|], m)
  }

  /** A dead mutex can follow without further nested calls exactly when somebody is inside one now. */
  lemma DeadlockFollowsNesting(s: State)
    requires Exclusive(s)
    ensures (exists states, events :: RunsIntoDeadlock(s, states, events)) <==> !NobodyNested(s)
  {
    if t :| s.At(t).Nested() {
      NestingIntoDeadlock(s, t);
    } else {
      forall states, events
        ensures !RunsIntoDeadlock(s, states, events)
      {
        if Path(s, states, events) && forall j | 0 <= j < |events| :: !Nests(states, events, j) {
          UnnestedRun(states, events, |events|);
          StaysExclusive(states, events, |events|);
          UnnestedAlive(states[|events|], Next);
          UnnestedAlive(states[|events|], Data);
        }
      }
    }
  }

  lemma NestingIntoDeadlock(s: State, t: Thread)
    requires Exclusive(s) && s.At(t).Nested()
    ensures exists states, events :: RunsIntoDeadlock(s, states, events)
  {
    var p := s.At(t);
    if !(p.data && p.call == LeaseNext) {
      assert s.Holds(t, if p.data then Data else Next) && Hopeless(s, t, if p.data then Data else Next);
      assert Dead(s, if p.data then Data else Next);
      assert RunsIntoDeadlock(s, [s], []);
    } else if s.Free(Next) {
      NewcomerCrosses(s, t);
    } else {
      var w :| s.Holds(w, Next);
      LeaseHolderCrosses(s, t, w);
    }
  }

  lemma WaitingBoth(s: State, t: Thread, w: Thread)
    requires s.Holds(t, Data) && s.At(t).Wants() == Some(Next) && s.Holds(w, Next) && s.At(w).Wants().Some?
    ensures Dead(s, Data)
  {
    assert Hopeless(s, t, Data);
  }

  lemma LeaseHolderCrosses(s: State, t: Thread, w: Thread)
    requires Exclusive(s) && s.Holds(t, Data) && s.At(t).call == LeaseNext && s.Holds(w, Next)
    ensures exists states, events :: RunsIntoDeadlock(s, states, events)
  {
    if s.At(w).Wants().Some? {
      WaitingBoth(s, t, w);
      assert RunsIntoDeadlock(s, [s], []);
    } else {
      assert w != t && !s.Holds(w, Data) && s.At(w).WellPlaced();
      var s1 := s.Move(w, s.At(w).(call := UnfairData));
      assert Step(s, w, BeginUnfair, s1);
      assert s1.At(t) == s.At(t) && s1.Holds(w, Next);
      WaitingBoth(s1, t, w);
      assert Path(s, [s, s1], [Event(w, BeginUnfair)]) && !Nests([s, s1], [Event(w, BeginUnfair)], 0);
      assert RunsIntoDeadlock(s, [s, s1], [Event(w, BeginUnfair)]);
    }
  }

  /** With `next` free, an idle thread that calls `lock` completes the crossing. */
  lemma NewcomerCrosses(s: State, t: Thread)
    requires Exclusive(s) && s.Holds(t, Data) && s.At(t).call == LeaseNext && s.Free(Next)
    ensures exists states, events :: RunsIntoDeadlock(s, states, events)
  {
    var v := IdleThread(s.pcs.Keys);
    var s1 := s.Move(v, Idle.(call := LockNext));
    var s2 := s1.Move(v, Pos(true, false, LockData));
    assert s.At(v) == Idle && v != t;
    forall w
      ensures !s1.Holds(w, Next)
    {
      assert !s.Holds(w, Next);
    }
    assert Step(s, v, BeginLock, s1) && Step(s1, v, TakeNext, s2);
    assert s2.At(t) == s.At(t) && s2.At(v) == Pos(true, false, LockData);
    WaitingBoth(s2, t, v);
    var states, events := [s, s1, s2], [Event(v, BeginLock), Event(v, TakeNext)];
    assert Path(s, states, events) && !Nests(states, events, 0) && !Nests(states, events, 1);
    assert RunsIntoDeadlock(s, states, events);
  }

  lemma {:induction false} IdleThread(used: set<Thread>) returns (v: Thread)
    ensures v !in used && forall u | u in used :: u < v
    decreases used
  {
    v := 0;
    if used != {} {
      var u :| u in used;
      var w := IdleThread(used - {u});
      v := if u < w then w else u + 1;
      assert forall x | x in used :: x == u || x in used - {u};
    }
  }

  // ------------------------------------------------------------------ nobody can move

  /** Somebody is inside the protocol, and nobody inside it can ever move again. */
  ghost predicate Deadlocked(s: State) {
    (exists t :: s.At(t) != Idle) && forall t | s.At(t) != Idle :: !CanStep(s, t)
  }

  /** A holder waits for a mutex that is held, its own included, and so does everybody who waits. */
  ghost predicate Crossed(s: State) {
    && (exists m :: !s.Free(m))
    && (forall t | s.Holds(t, Next) || s.Holds(t, Data) :: Waits(s, t))
    && (forall t | s.At(t).Wants().Some? :: Waits(s, t))
  }

  /** Standstill, exactly. */
  lemma DeadlockIsCrossed(s: State)
    requires Exclusive(s)
    ensures Deadlocked(s) <==> Crossed(s)
  {
    forall t | s.At(t) != Idle
      ensures CanStep(s, t) <==> !Waits(s, t)
      ensures s.At(t).Wants().Some? || s.Holds(t, Next) || s.Holds(t, Data)
    {
      InsideCanStep(s, t);
      assert s.At(t).WellPlaced();
    }
    if Crossed(s) {
      var m :| !s.Free(m);
      var t :| s.Holds(t, m);
      assert s.At(t) != Idle;
    }
  }

  /** At a standstill every held mutex is dead. */
  lemma StandstillIsDead(s: State, m: Mutex)
    requires Exclusive(s) && Deadlocked(s) && !s.Free(m)
    ensures Dead(s, m)
  {
    DeadlockIsCrossed(s);
    var u :| s.Holds(u, m);
    HolderWaits(s, u, m);
    if s.At(u).Wants() != Some(m) {
      assert s.At(u).Wants() == Some(Other(m));
      var w :| s.Holds(w, Other(m));
      HolderWaits(s, w, Other(m));
    }
    assert Hopeless(s, u, m);
  }

  lemma HolderWaits(s: State, u: Thread, m: Mutex)
    requires Crossed(s) && s.Holds(u, m)
    ensures Waits(s, u)
  {
    assert s.Holds(u, Next) || s.Holds(u, Data);
  }

  // ------------------------------------------------------------------ examples

  /** A thread takes the data and calls `lock_unfair` again: the data is dead. */
  lemma RelockedData()
    ensures exists states: seq<State>, events: seq<Event> ::
              && Execution(states, events) && |events| == 2
              && events == [Event(0, TryData(true)), Event(0, BeginUnfair)] && Dead(states[2], Data)
  {
    var s0 := State(map[]);
    var s1 := s0.Move(0, Pos(false, true, NoCall));
    var s2 := s1.Move(0, Pos(false, true, UnfairData));
    assert Step(s0, 0, TryData(true), s1) && Step(s1, 0, BeginUnfair, s2);
    assert s2.Holds(0, Data) && Hopeless(s2, 0, Data);
    var states, events := [s0, s1, s2], [Event(0, TryData(true)), Event(0, BeginUnfair)];
    assert Execution(states, events) && Dead(states[2], Data);
  }

  /** A holder of the lease calls `lock`: `next` is dead, with the data free. */
  lemma LockUnderLease()
    ensures exists states: seq<State>, events: seq<Event> ::
              && Execution(states, events) && |events| == 3
              && events == [Event(0, BeginLease), Event(0, TakeNext), Event(0, BeginLock)]
              && Dead(states[3], Next) && states[3].Free(Data)
  {
    var s0 := State(map[]);
    var s1 := s0.Move(0, Pos(false, false, LeaseNext));
    var s2 := s1.Move(0, Pos(true, false, NoCall));
    var s3 := s2.Move(0, Pos(true, false, LockNext));
    assert Step(s0, 0, BeginLease, s1) && Step(s1, 0, TakeNext, s2) && Step(s2, 0, BeginLock, s3);
    assert s3.Holds(0, Next) && Hopeless(s3, 0, Next);
    var states, events := [s0, s1, s2, s3], [Event(0, BeginLease), Event(0, TakeNext), Event(0, BeginLock)];
    assert Execution(states, events) && Dead(states[3], Next);
  }
}
