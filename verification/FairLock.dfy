/**
 The fair mutex as an object, used by any number of threads.

 Every acquisition and release is a step of the protocol in `FairProtocol`; the object records the run it
 has gone through, so that what is proved of all runs holds of it. Before each acquisition the other
 threads take any steps they like, and a caller's `patience` bounds how often it looks again at a mutex
 that is taken.
 */
module FairLock {
  import opened Wrappers
  import opened FairProtocol

  /** The results of the calls of `try_lock_unfair` by `t` among the events from number `from` on. */
  function Tries(events: seq<Event>, from: nat, t: Thread): seq<bool> {
    if |events| <= from then []
    else
      var e := events[|events| - 1];
      Tries(events[..|events| - 1], from, t)
      + if e.thread == t && e.action.TryData? then [e.action.won] else []
  }

  /** `t` does not call `try_lock_unfair` from event `from` on. */
  ghost predicate NoTries(events: seq<Event>, from: nat, t: Thread) {
    forall i | from <= i < |events| && events[i].thread == t :: !events[i].action.TryData?
  }

  lemma {:induction false} TriesSame(before: seq<Event>, events: seq<Event>, from: nat, t: Thread)
    requires before <= events && from <= |before| && NoTries(events, |before|, t)
    ensures Tries(events, from, t) == Tries(before, from, t)
    decreases |events|
  {
    if |before| < |events| {
      TriesSame(before, events[..|events| - 1], from, t);
    } else {
      assert before == events;
    }
  }

  function Taking(m: Mutex): Action { if m == Next then TakeNext else TakeData }

  /** How often `t` has looked at `m` in vain, from event `from` on. */
  function Looks(events: seq<Event>, from: nat, t: Thread, m: Mutex): nat {
    if |events| <= from then 0
    else Looks(events[..|events| - 1], from, t, m) + if events[|events| - 1] == Event(t, Park(m)) then 1 else 0
  }

  /** Between the events `from` and `to`, all `t` does is look at `m` in vain. */
  ghost predicate OnlyLooks(events: seq<Event>, from: nat, to: nat, t: Thread, m: Mutex) {
    to <= |events| && forall i | from <= i < to && events[i].thread == t :: events[i].action == Park(m)
  }

  lemma NoLooks(events: seq<Event>, t: Thread, m: Mutex)
    ensures Looks(events, |events|, t, m) == 0
  {
  }

  lemma OneMore(events: seq<Event>, e: Event, from: nat, t: Thread, m: Mutex)
    requires from <= |events| && e.thread == t && OnlyLooks(events, from, |events|, t, m)
    ensures OnlyLooks(events + [e], from, |events|, t, m)
    ensures e.action == Park(m) ==>
              && Looks(events + [e], from, t, m) == Looks(events, from, t, m) + 1
              && OnlyLooks(events + [e], from, |events| + 1, t, m)
    ensures Alone(events + [e], from, t) ==> Alone(events, from, t)
  {
    assert (events + [e])[..|events|] == events;
    StillAlone(events, events + [e], from, t);
  }

  lemma NotAlone(events: seq<Event>, from: nat, i: nat, t: Thread)
    requires from <= i < |events| && events[i].thread != t
    ensures !Alone(events, from, t)
  {
  }

  lemma StillAlone(before: seq<Event>, events: seq<Event>, from: nat, t: Thread)
    requires before <= events
    ensures Alone(events, from, t) ==> Alone(before, from, t)
  {
    if Alone(events, from, t) {
      forall i | from <= i < |before|
        ensures before[i].thread == t
      {
        assert events[i].thread == t;
      }
    }
  }

  lemma {:induction false} LooksLater(events: seq<Event>, from: nat, later: nat, t: Thread, m: Mutex)
    requires from <= later <= |events|
    requires forall i | from <= i < later :: events[i] != Event(t, Park(m))
    ensures Looks(events, from, t, m) == Looks(events, later, t, m)
    ensures Alone(events, from, t) ==> Alone(events, later, t)
  {
    if later < |events| {
      LooksLater(events[..|events| - 1], from, later, t, m);
    } else {
      LooksSame(events[..from], events, from, t, m);
    }
  }

  /** Nobody but `t` does anything from event `from` on. */
  ghost predicate Alone(events: seq<Event>, from: nat, t: Thread) {
    forall i | from <= i < |events| :: events[i].thread == t
  }

  lemma {:induction false} LooksSame(before: seq<Event>, events: seq<Event>, from: nat, t: Thread, m: Mutex)
    requires before <= events && from <= |before|
    requires forall i | |before| <= i < |events| :: events[i] != Event(t, Park(m))
    ensures Looks(events, from, t, m) == Looks(before, from, t, m)
    decreases |events|
  {
    if |before| < |events| {
      LooksSame(before, events[..|events| - 1], from, t, m);
    } else {
      assert before == events;
    }
  }

  /** Each of these looks found the mutex held. */
  lemma {:induction false} LooksFoundHeld(states: seq<State>, events: seq<Event>, from: nat, t: Thread, m: Mutex)
    returns (looks: seq<nat>)
    requires Run(states, events)
    ensures |looks| == Looks(events, from, t, m)
    ensures forall k | 0 <= k < |looks| ::
              from <= looks[k] < |events| && events[looks[k]] == Event(t, Park(m)) && !states[looks[k]].Free(m)
    ensures forall k, l | 0 <= k < l < |looks| :: looks[k] < looks[l]
    decreases |events|
  {
    looks := [];
    if from < |events| {
      var n := |events| - 1;
      assert Step(states[n], events[n].thread, events[n].action, states[n + 1]);
      looks := LooksFoundHeld(states[..n + 1], events[..n], from, t, m);
      if events[n] == Event(t, Park(m)) {
        looks := looks + [n];
      }
    }
  }

  class FairMutex {
    /** Who holds the mutex `next`. */
    var next: Option<Thread>
    /** Who holds the mutex `data`. */
    var data: Option<Thread>
    /** Where every thread stands. */
    var at: State
    ghost var states: seq<State>
    ghost var events: seq<Event>

    ghost predicate Valid()
      reads this
    {
      && Execution(states, events) && states[|events|] == at
      && (forall t: Thread :: at.Holds(t, Next) <==> next == Some(t))
      && (forall t: Thread :: at.Holds(t, Data) <==> data == Some(t))
    }

    constructor ()
      ensures Valid() && events == []
    {
      next, data, at := None, None, State(map[]);
      states, events := [State(map[])], [];
    }

    /** The field says that nobody holds `m`. */
    predicate Unheld(m: Mutex)
      reads this
    {
      if m == Next then next == None else data == None
    }

    predicate CanAct(t: Thread, a: Action)
      reads this
    {
      && After(at.At(t), a).Some?
      && match a
         case TakeNext => next == None
         case TakeData => data == None
         case Park(m) => !Unheld(m)
         case TryData(won) => won == (data == None)
         case _ => true
    }

    /** The state of the two mutexes lets a thread act exactly when the protocol has a step for it. */
    lemma CanActMeansStep(t: Thread, a: Action)
      requires Valid()
      ensures CanAct(t, a) <==> exists s' :: Step(at, t, a, s')
    {
      assert next == None <==> at.Free(Next) by {
        if next.Some? {
          assert at.Holds(next.value, Next);
        }
      }
      assert data == None <==> at.Free(Data) by {
        if data.Some? {
          assert at.Holds(data.value, Data);
        }
      }
      if CanAct(t, a) {
        assert Step(at, t, a, at.Move(t, After(at.At(t), a).value));
      }
    }

    /** Performs one step of thread `t`, or nothing when the step cannot be taken now. */
    method Act(t: Thread, a: Action) returns (done: bool)
      requires Valid()
      modifies this
      ensures Valid()
      ensures done <==> old(CanAct(t, a))
      ensures done ==> events == old(events) + [Event(t, a)] && states == old(states) + [at]
      ensures done ==> at == old(at).Move(t, After(old(at).At(t), a).value)
      ensures !done ==> at == old(at) && events == old(events) && states == old(states)
      ensures !done || a !in {TakeNext, DropNext, ReleaseLease} ==> next == old(next)
      ensures !done || a !in {TakeData, TryData(true), ReleaseData} ==> data == old(data)
      ensures done && a in {TakeData, TryData(true)} ==> data == Some(t)
    {
      done := CanAct(t, a);
      if done {
        CanActMeansStep(t, a);
        if a == TakeNext {
          next := Some(t);
        } else if a == DropNext || a == ReleaseLease {
          next := None;
        } else if a == TakeData || a == TryData(true) {
          data := Some(t);
        } else if a == ReleaseData {
          data := None;
        }
        MutualExclusion(states, events, |events|);
        ghost var before, next0, data0 := at, old(next), old(data);
        Record(t, a, After(at.At(t), a).value);
        GuardsFollow(before, t, a, next0, data0);
      }
    }

    /** The two fields follow a step of the protocol. */
    lemma GuardsFollow(before: State, t: Thread, a: Action, next0: Option<Thread>, data0: Option<Thread>)
      requires Exclusive(before) && Step(before, t, a, at)
      requires forall u: Thread :: before.Holds(u, Next) <==> next0 == Some(u)
      requires forall u: Thread :: before.Holds(u, Data) <==> data0 == Some(u)
      requires next == if a == TakeNext then Some(t) else if a in {DropNext, ReleaseLease} then None else next0
      requires data == if a in {TakeData, TryData(true)} then Some(t) else if a == ReleaseData then None else data0
      ensures forall u: Thread :: at.Holds(u, Next) <==> next == Some(u)
      ensures forall u: Thread :: at.Holds(u, Data) <==> data == Some(u)
    {
      assert before.At(t).WellPlaced();
      forall u: Thread
        ensures at.Holds(u, Next) <==> next == Some(u)
        ensures at.Holds(u, Data) <==> data == Some(u)
      {
        assert u != t ==> at.At(u) == before.At(u);
        assert before.Holds(u, Next) <==> next0 == Some(u);
        assert before.Holds(t, Next) <==> next0 == Some(t);
        assert before.Holds(u, Data) <==> data0 == Some(u);
        assert before.Holds(t, Data) <==> data0 == Some(t);
      }
    }

    /** Notes a step whose effect on the two mutexes has already taken place. */
    method Record(t: Thread, ghost a: Action, p: Pos)
      requires Execution(states, events) && states[|events|] == at
      requires Step(at, t, a, at.Move(t, p))
      modifies this`at, this`states, this`events
      ensures at == old(at).Move(t, p) && Execution(states, events) && states[|events|] == at
      ensures events == old(events) + [Event(t, a)] && states == old(states) + [at]
    {
      at := at.Move(t, p);
      states, events := states + [at], events + [Event(t, a)];
    }

    /** Events `from` up to `to` are of other threads. */
    ghost predicate OthersOnly(t: Thread, from: nat, to: nat)
      reads this
    {
      to <= |events| && forall i | from <= i < to :: events[i].thread != t
    }

    /** Any number of steps of other threads. */
    method OthersStep(t: Thread)
      requires Valid()
      modifies this
      ensures Valid() && at.At(t) == old(at).At(t)
      ensures old(events) <= events && old(states) <= states && OthersOnly(t, |old(events)|, |events|)
      ensures |events| == |old(events)| ==> next == old(next) && data == old(data)
      ensures NoTries(events, |old(events)|, t)
      ensures old(at).At(t).next ==> NextHeld(t, |old(events)|, |events|)
    {
      var n: int := *;
      for i := 0 to if n > 0 then n else 0
        invariant Valid() && at.At(t) == old(at).At(t)
        invariant old(events) <= events && old(states) <= states && OthersOnly(t, |old(events)|, |events|)
        invariant |events| == |old(events)| ==> next == old(next) && data == old(data)
        invariant old(at).At(t).next ==> NextHeld(t, |old(events)|, |events|)
      {
        var u: Thread, a: Action := *, *;
        if u != t {
          var done := Act(u, a);
        }
      }
    }

    /**
     Since event `from`, when the mutexes were as `next0` and `data0` say, `t` has looked at `m` in vain
     `looks` times and done nothing else.
     */
    ghost predicate Looking(t: Thread, m: Mutex, from: nat, looks: nat, next0: Option<Thread>, data0: Option<Thread>)
      reads this
    {
      && at.At(t).Wants() == Some(m) && OnlyLooks(events, from, |events|, t, m)
      && Looks(events, from, t, m) == looks
      && (Alone(events, from, t) ==> next == next0 && data == data0 && (Unheld(m) ==> looks == 0))
    }

    /** Others act while `t` waits. */
    method OthersLet(t: Thread, m: Mutex, ghost from: nat, ghost looks: nat, ghost next0: Option<Thread>,
                     ghost data0: Option<Thread>)
      requires Valid() && from <= |events| && Looking(t, m, from, looks, next0, data0)
      modifies this
      ensures Valid() && old(events) <= events && old(states) <= states
      ensures at.At(t) == old(at).At(t) && Looking(t, m, from, looks, next0, data0)
    {
      ghost var before := events;
      hide Valid, Looks;
      OthersStep(t);
      LooksSame(before, events, from, t, m);
      StillAlone(before, events, from, t);
      if |events| > |before| {
        NotAlone(events, from, |before|, t);
      }
    }

    /** Takes `m` exactly if it is free. */
    method TakeOrPark(t: Thread, m: Mutex) returns (done: bool)
      requires Valid() && at.At(t).Wants() == Some(m)
      modifies this
      ensures Valid() && (done <==> old(Unheld(m))) && (old(at).At(t).Holds(m) ==> !done)
      ensures events == old(events) + [Event(t, if done then Taking(m) else Park(m))] && old(states) <= states
      ensures Some(at.At(t)) == if done then After(old(at).At(t), Taking(m)) else Some(old(at).At(t))
      ensures m == Data || !done ==> next == old(next)
      ensures m == Next || !done ==> data == old(data)
    {
      GuardsHeld(t);
      hide Valid;
      done := Act(t, Taking(m));
      if !done {
        var parked := Act(t, Park(m));
      }
    }

    /** Others act, and then `t` looks at `m` and takes it if it is free. */
    method Look(t: Thread, m: Mutex, ghost from: nat, ghost looks: nat, ghost next0: Option<Thread>,
                ghost data0: Option<Thread>)
      returns (done: bool)
      requires Valid() && from <= |events| && Looking(t, m, from, looks, next0, data0)
      modifies this
      ensures Valid() && old(events) <= events && old(states) <= states && |events| > |old(events)|
      ensures !done ==> at.At(t) == old(at).At(t) && Looking(t, m, from, looks + 1, next0, data0)
      ensures done ==> Taken(t, m, from, old(at).At(t), next0, data0)
      ensures old(at).At(t).Holds(m) ==> !done
    {
      OthersLet(t, m, from, looks, next0, data0);
      hide Valid, Looks, OnlyLooks, Alone;
      ghost var seen := events;
      done := TakeOrPark(t, m);
      OneMore(seen, events[|seen|], from, t, m);
      assert events == seen + [events[|seen|]];
    }

    /** The last event is `t` taking `m`; since event `from` it has only looked at `m` before that. */
    ghost predicate Taken(
        t: Thread, m: Mutex, from: nat, before: Pos, next0: Option<Thread>, data0: Option<Thread>)
      reads this
    {
      && |events| > from && events[|events| - 1] == Event(t, Taking(m))
      && After(before, Taking(m)) == Some(at.At(t)) && OnlyLooks(events, from, |events| - 1, t, m)
      && (Alone(events, from, t) ==> if m == Next then data == data0 else next == next0)
    }

    /**
     Waits for a mutex: looks at it at most `patience` times, takes it at the first look that finds it free,
     and gives up only after `patience` looks that found it held. A thread that waits for a mutex it holds
     never gets it.
     */
    method Await(t: Thread, m: Mutex, patience: nat) returns (done: bool)
      requires Valid() && at.At(t).Wants() == Some(m)
      modifies this
      ensures Valid() && old(events) <= events && old(states) <= states
      ensures done ==> |events| > |old(events)| && events[|events| - 1] == Event(t, Taking(m))
      ensures if done then After(old(at).At(t), Taking(m)) == Some(at.At(t)) else at.At(t) == old(at).At(t)
      ensures OnlyLooks(events, |old(events)|, if done then |events| - 1 else |events|, t, m)
      ensures !done ==> Looks(events, |old(events)|, t, m) == patience
      ensures patience > 0 && old(Unheld(m)) && Alone(events, |old(events)|, t) ==> done
      ensures Alone(events, |old(events)|, t) ==> if m == Next then data == old(data) else next == old(next)
      ensures Guards(t)
      ensures old(at).At(t).Holds(m) ==> !done
    {
      hide Valid, Looks;
      ghost var from, next0, data0 := |events|, next, data;
      NoLooks(events, t, m);
      done := false;
      for i := 0 to patience
        invariant Valid() && !done && old(events) <= events && old(states) <= states
        invariant at.At(t) == old(at).At(t) && Looking(t, m, from, i, next0, data0)
      {
        done := Look(t, m, from, i, next0, data0);
        if done {
          GuardsHeld(t);
          return;
        }
      }
      GuardsHeld(t);
    }

    /** The fields agree with the position of `t`. */
    ghost predicate Guards(t: Thread)
      reads this
    {
      (next == Some(t) <==> at.At(t).next) && (data == Some(t) <==> at.At(t).data)
    }

    lemma GuardsHeld(t: Thread)
      requires Valid()
      ensures Guards(t)
    {
      assert at.Holds(t, Next) <==> next == Some(t);
      assert at.Holds(t, Data) <==> data == Some(t);
    }

    /** Nobody but `t` obtains the data from event `from` on. */
    ghost predicate FirstToObtain(t: Thread, from: nat)
      reads this
    {
      |states| == |events| + 1 &&
      forall i | from <= i < |events| && Obtains(states, events, i) :: events[i].thread == t
    }

    /** No `lock_unfair` and no `try_lock_unfair` succeeds without a lease from event `from` on. */
    ghost predicate NobodyUnleased(from: nat)
      reads this
    {
      |states| == |events| + 1 && forall i | from <= i < |events| :: !Unleased(states, events, i)
    }

    /** `t` held `next` before each of the events `from` up to `to`. */
    ghost predicate NextHeld(t: Thread, from: nat, to: nat)
      reads this
    {
      |states| == |events| + 1 && to <= |events| && forall i | from <= i < to :: states[i].Holds(t, Next)
    }

    lemma FirstUnlessUnleased(t: Thread, from: nat)
      requires Valid() && from <= |events| && NextHeld(t, from, |events|)
      ensures FirstToObtain(t, from) <==> NobodyUnleased(from)
    {
      NoOvertaking(states, events, t, from, |events|);
    }

    /** After event `from`, `t` has looked `patience` times at the mutex it waits for, each time in vain. */
    ghost predicate GaveUp(t: Thread, from: nat, patience: nat)
      reads this
    {
      at.At(t).Wants().Some? && Looks(events, from, t, at.At(t).Wants().value) == patience
    }

    /** `t` has given up so after event `from` or later. */
    ghost predicate GaveUpSince(t: Thread, from: nat, patience: nat)
      reads this
    {
      exists later :: from <= later && GaveUp(t, later, patience)
    }

    /** Waits for the promised data; it is the first to get it exactly when nobody takes it without a lease. */
    method AwaitPromised(t: Thread, patience: nat) returns (done: bool)
      requires Valid() && Promised(at.At(t))
      modifies this
      ensures Valid() && old(events) <= events && old(states) <= states && Guards(t)
      ensures Some(at.At(t)) == if done then After(old(at).At(t), TakeData) else Some(old(at).At(t))
      ensures done ==> |events| > |old(events)|
      ensures old(at).At(t).data ==> !done
      ensures NoTries(events, |old(events)|, t)
      ensures NextHeld(t, |old(events)|, |events|)
      ensures FirstToObtain(t, |old(events)|) <==> NobodyUnleased(|old(events)|)
      ensures !done ==> GaveUp(t, |old(events)|, patience)
      ensures patience > 0 && old(data) == None && Alone(events, |old(events)|, t) ==> done
    {
      hide Looks, Alone, FirstToObtain, NobodyUnleased, NextHeld;
      ghost var from := |events|;
      done := Await(t, Data, patience);
      PromiseHeld(t, from, if done then |events| - 1 else |events|);
      FirstUnlessUnleased(t, from);
    }

    /** A promised thread that only looks at the data holds `next` all the while, and when it takes the data. */
    lemma PromiseHeld(t: Thread, from: nat, to: nat)
      requires Valid() && from <= to <= |events| <= to + 1 && Promised(states[from].At(t))
      requires OnlyLooks(events, from, to, t, Data)
      ensures NextHeld(t, from, |events|)
    {
      forall i | from <= i < |events|
        ensures states[i].Holds(t, Next)
      {
        forall j | from <= j < i
          ensures !Takes(states, events, t, j)
        {
          assert Step(states[j], events[j].thread, events[j].action, states[j + 1]);
        }
        PromiseKept(states, events, t, from, i);
      }
    }

    /**
     `lock`: take `next`, take `data`, release `next`. Since `next` was taken nobody else has obtained the
     data exactly when nobody has taken it without a lease. A holder of either mutex never gets both.
     */
    method Lock(t: Thread, patience: nat) returns (locked: bool, ghost promised: nat)
      requires Valid() && at.At(t).call == NoCall
      modifies this
      ensures Valid() && old(events) <= events
      ensures locked ==> at.At(t) == Pos(false, true, NoCall) && data == Some(t) && next != Some(t)
      ensures locked ==> |old(events)| < promised < |events| && events[promised - 1] == Event(t, TakeNext)
      ensures locked ==> (FirstToObtain(t, promised) <==> NobodyUnleased(promised))
      ensures old(at).At(t) != Idle ==> !locked
      ensures !locked ==> at.At(t).data == old(at).At(t).data && GaveUp(t, |old(events)|, patience)
      ensures patience > 0 && old(next) == None && old(data) == None && Alone(events, |old(events)|, t) ==> locked
    {
      hide Valid, FirstToObtain, NobodyUnleased, NextHeld, OthersOnly, Execution, Looks;
      promised := 0;
      ghost var from := |events|;
      var begun := Act(t, BeginLock);
      locked := Await(t, Next, patience);
      if !locked {
        LooksLater(events, from, from + 1, t, Next);
        return;
      }
      promised := |events|;
      locked := AwaitPromised(t, patience);
      if !locked {
        LooksLater(events, from, promised, t, Data);
        return;
      }
      DropNextAndReturn(t, promised);
    }

    method DropNextAndReturn(t: Thread, ghost promised: nat)
      requires Valid() && at.At(t) == Pos(true, true, LockReturn) && promised <= |events|
      modifies this
      ensures Valid() && old(events) <= events && |events| > |old(events)|
      ensures at.At(t) == Pos(false, true, NoCall) && Guards(t)
      ensures old(FirstToObtain(t, promised)) <==> FirstToObtain(t, promised)
      ensures old(NobodyUnleased(promised)) <==> NobodyUnleased(promised)
    {
      var dropped := Act(t, DropNext);
      GuardsHeld(t);
      forall i | promised <= i < |events| - 1
        ensures Obtains(states, events, i) <==> old(Obtains(states, events, i))
        ensures Unleased(states, events, i) <==> old(Unleased(states, events, i))
        ensures events[i] == old(events)[i]
      {
      }
    }

    /** `lease`: take `next`. A holder of the lease never gets it again. */
    method Lease(t: Thread, patience: nat) returns (leased: bool)
      requires Valid() && at.At(t).call == NoCall
      modifies this
      ensures Valid() && old(events) <= events && old(states) <= states && Guards(t)
      ensures at.At(t) == if leased then old(at).At(t).(next := true) else old(at).At(t).(call := LeaseNext)
      ensures old(at).At(t).next ==> !leased
      ensures !leased ==> GaveUp(t, |old(events)|, patience)
      ensures patience > 0 && old(next) == None && Alone(events, |old(events)|, t) ==> leased
    {
      ghost var from := |events|;
      var begun := Act(t, BeginLease);
      leased := Await(t, Next, patience);
      LooksLater(events, from, from + 1, t, Next);
    }

    /** `try_lock_unfair`, with or without the lease: takes the data exactly when nobody holds it. */
    method TryLockUnfair(t: Thread) returns (locked: bool)
      requires Valid() && at.At(t).call == NoCall
      modifies this
      ensures Valid() && next == old(next) && Guards(t)
      ensures locked <==> old(data) == None
      ensures data == if locked then Some(t) else old(data)
      ensures at.At(t) == if locked then old(at).At(t).(data := true) else old(at).At(t)
      ensures events == old(events) + [Event(t, TryData(locked))] && old(states) <= states
      ensures old(at).At(t).next ==> NextHeld(t, |old(events)|, |events|)
    {
      CanActMeansStep(t, TryData(true));
      locked := Act(t, TryData(true));
      if !locked {
        var refused := Act(t, TryData(false));
      }
      GuardsHeld(t);
    }

    /**
     `lock_unfair`. Under the lease the caller is the first to obtain the data exactly when nobody takes it
     without one. A holder of the data never gets it again.
     */
    method LockUnfair(t: Thread, patience: nat) returns (locked: bool)
      requires Valid() && at.At(t).call == NoCall
      modifies this
      ensures Valid() && old(events) <= events && old(states) <= states && Guards(t)
      ensures at.At(t) == if locked then old(at).At(t).(data := true) else old(at).At(t).(call := UnfairData)
      ensures old(at).At(t).data ==> !locked
      ensures NoTries(events, |old(events)|, t)
      ensures old(at).At(t).next ==> NextHeld(t, |old(events)|, |events|)
      ensures old(at).At(t).next ==> (FirstToObtain(t, |old(events)|) <==> NobodyUnleased(|old(events)|))
      ensures !locked ==> GaveUp(t, |old(events)|, patience)
      ensures patience > 0 && old(data) == None && Alone(events, |old(events)|, t) ==> locked
    {
      GuardsHeld(t);
      hide Valid, Looks, Alone, FirstToObtain, NobodyUnleased, NextHeld;
      if next == Some(t) {
        locked := LockLeased(t, patience);
      } else {
        locked := LockBare(t, patience);
      }
    }

    /** `lock_unfair` without the lease. */
    method LockBare(t: Thread, patience: nat) returns (locked: bool)
      requires Valid() && at.At(t).call == NoCall
      modifies this
      ensures Valid() && old(events) <= events && old(states) <= states && Guards(t)
      ensures at.At(t) == if locked then old(at).At(t).(data := true) else old(at).At(t).(call := UnfairData)
      ensures old(at).At(t).data ==> !locked
      ensures NoTries(events, |old(events)|, t)
      ensures !locked ==> GaveUp(t, |old(events)|, patience)
      ensures patience > 0 && old(data) == None && Alone(events, |old(events)|, t) ==> locked
    {
      hide Valid, Looks, Alone;
      ghost var from := |events|;
      BeginWaiting(t);
      locked := Await(t, Data, patience);
      LooksLater(events, from, from + 1, t, Data);
    }

    /** The call of `lock_unfair` begins. */
    method BeginWaiting(t: Thread)
      requires Valid() && at.At(t).call == NoCall
      modifies this
      ensures Valid() && at.At(t) == old(at).At(t).(call := UnfairData) && next == old(next) && data == old(data)
      ensures events == old(events) + [Event(t, BeginUnfair)] && old(states) <= states
      ensures |states| == |events| + 1 && states[|old(events)|] == old(at)
    {
      var begun := Act(t, BeginUnfair);
    }

    /** `lock_unfair` under the lease. */
    method LockLeased(t: Thread, patience: nat) returns (locked: bool)
      requires Valid() && at.At(t).call == NoCall && at.At(t).next
      modifies this
      ensures Valid() && old(events) <= events && old(states) <= states && Guards(t)
      ensures at.At(t) == if locked then old(at).At(t).(data := true) else old(at).At(t).(call := UnfairData)
      ensures old(at).At(t).data ==> !locked
      ensures NoTries(events, |old(events)|, t) && NextHeld(t, |old(events)|, |events|)
      ensures FirstToObtain(t, |old(events)|) <==> NobodyUnleased(|old(events)|)
      ensures !locked ==> GaveUp(t, |old(events)|, patience)
      ensures patience > 0 && old(data) == None && Alone(events, |old(events)|, t) ==> locked
    {
      hide Valid, Looks, Alone, FirstToObtain, NobodyUnleased, NextHeld, NoTries;
      ghost var from := |events|;
      BeginWaiting(t);
      locked := AwaitPromised(t, patience);
      LooksLater(events, from, from + 1, t, Data);
      HeldFromOneOn(t, from);
    }

    lemma HeldFromOneOn(t: Thread, from: nat)
      requires Valid() && from < |events| && states[from].Holds(t, Next) && events[from] == Event(t, BeginUnfair)
      requires NextHeld(t, from + 1, |events|) && NoTries(events, from + 1, t)
      ensures NextHeld(t, from, |events|) && NoTries(events, from, t)
      ensures FirstToObtain(t, from) <==> NobodyUnleased(from)
    {
      FirstUnlessUnleased(t, from);
    }

    /** Drops the data guard. */
    method Unlock(t: Thread)
      requires Valid() && at.At(t).call == NoCall && at.At(t).data
      modifies this
      ensures Valid() && old(events) <= events && old(states) <= states
      ensures at.At(t) == old(at).At(t).(data := false) && data == None && next == old(next)
      ensures NoTries(events, |old(events)|, t)
      ensures old(at).At(t).next ==> NextHeld(t, |old(events)|, |events|)
    {
      GuardsHeld(t);
      var released := Act(t, ReleaseData);
    }

    /** Drops the lease. */
    method EndLease(t: Thread)
      requires Valid() && at.At(t).call == NoCall && at.At(t).next
      modifies this
      ensures Valid() && old(events) <= events && old(states) <= states
      ensures at.At(t) == old(at).At(t).(next := false) && next == None && data == old(data)
      ensures NoTries(events, |old(events)|, t)
      ensures old(at).At(t).next ==> NextHeld(t, |old(events)|, |events|)
    {
      GuardsHeld(t);
      var released := Act(t, ReleaseLease);
    }
  }
}
