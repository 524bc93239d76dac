/**
 Single-flight reads of provider API keys.

 Readers that miss the cache share one read of the operating system's secret store: the first becomes
 the owner of a slot, the others wait for the slot's result. Each lock acquisition is one atomic step,
 and steps of all threads interleave freely.
 */
module KeyStore {
  import opened Wrappers

  type Provider = string
  type Secret = string
  type Thread = nat
  type SlotId = nat

  datatype ReadResult = Found(secret: Secret) | Absent | LoadError(message: string)

  datatype Slot = Slot(provider: Provider, result: Option<ReadResult>)

  datatype Pc =
    | Idle
    | Looking(p: Provider)                                // `get_provider_key`, before the cache is read
    | Beginning(p: Provider)                              // the cache missed
    | Loading(p: Provider, slot: SlotId)                  // owner, before the secret store is read
    | Loaded(p: Provider, slot: SlotId, r: ReadResult)    // owner, before the cache is written
    | Publishing(p: Provider, slot: SlotId, r: ReadResult) // owner, before `slot.finish`
    | Removing(p: Provider, slot: SlotId, r: ReadResult)  // owner, before the slot leaves the map
    | WaitingOn(p: Provider, slot: SlotId)                // waiter
    | Returned(p: Provider, r: ReadResult, joined: Option<SlotId>)
    | Storing(p: Provider, secret: Secret)                // `store_provider_key`, before the secret store
    | StoreCaching(p: Provider, secret: Secret)           // ... before the cache
    | Deleting(p: Provider)                               // `delete_provider_key`, before the secret store
    | DeleteCaching(p: Provider)                          // ... before the cache
  {
    predicate Owns(q: Provider, s: SlotId) {
      (Loading? || Loaded? || Publishing? || Removing?) && p == q && slot == s
    }

    predicate Owner() { Loading? || Loaded? || Publishing? || Removing? }

    predicate Reads(q: Provider) {
      (Looking? || Beginning? || WaitingOn? || Owner()) && p == q
    }

    predicate Mutates(q: Provider) {
      (Storing? || StoreCaching? || Deleting? || DeleteCaching?) && p == q
    }

    /** The secret store has changed and the cache has not yet. */
    predicate HalfDone(q: Provider) {
      (StoreCaching? || DeleteCaching?) && p == q
    }
  }

  /** `vault` is the operating system's secret store; slots are never reused. */
  datatype State = State(
    cache: map<Provider, Secret>, vault: map<Provider, Secret>, inFlight: map<Provider, SlotId>,
    slots: map<SlotId, Slot>, nextSlot: nat, pcs: map<Thread, Pc>)
  {
    function At(t: Thread): Pc { if t in pcs then pcs[t] else Idle }

    function Move(t: Thread, pc: Pc): State { this.(pcs := pcs[t := pc]) }

    function Finished(slot: SlotId): bool
      requires slot in slots
    {
      slots[slot].result.Some?
    }
  }

  datatype Action =
    | BeginGet(p: Provider) | Look | Begin | Load(failure: Option<string>) | PutCache | Finish | Remove | Wake | Return
    | Park // a waiter looks at its slot and finds no result
    | BeginStore(p: Provider, secret: Secret) | WriteVault(fails: bool) | WriteCache | BeginDelete(p: Provider)
    | ClearCache

  /** One atomic step of thread `t`. */
  predicate Step(s: State, t: Thread, a: Action, s': State) {
    var pc := s.At(t);
    match a
    case BeginGet(p) => pc.Idle? && s' == s.Move(t, Looking(p))
    case Look =>
      pc.Looking? &&
      s' == s.Move(t, if pc.p in s.cache then Returned(pc.p, Found(s.cache[pc.p]), None) else Beginning(pc.p))
    case Begin =>
      pc.Beginning? &&
      if pc.p in s.inFlight then s' == s.Move(t, WaitingOn(pc.p, s.inFlight[pc.p]))
      else s' == s.Move(t, Loading(pc.p, s.nextSlot)).(
                   inFlight := s.inFlight[pc.p := s.nextSlot],
                   slots := s.slots[s.nextSlot := Slot(pc.p, None)],
                   nextSlot := s.nextSlot + 1)
    case Load(failure) =>
      pc.Loading? &&
      s' == s.Move(t, Loaded(pc.p, pc.slot,
                             if failure.Some? then LoadError(failure.value)
                             else if pc.p in s.vault then Found(s.vault[pc.p]) else Absent))
    case PutCache =>
      pc.Loaded? && s' == s.Move(t, Publishing(pc.p, pc.slot, pc.r)).(
                            cache := if pc.r.Found? then s.cache[pc.p := pc.r.secret] else s.cache)
    case Finish =>
      pc.Publishing? && pc.slot in s.slots &&
      s' == s.Move(t, Removing(pc.p, pc.slot, pc.r)).(
              slots := s.slots[pc.slot := s.slots[pc.slot].(result := Some(pc.r))])
    case Remove =>
      pc.Removing? && s' == s.Move(t, Returned(pc.p, pc.r, Some(pc.slot))).(inFlight := s.inFlight - {pc.p})
    case Wake =>
      pc.WaitingOn? && pc.slot in s.slots && s.Finished(pc.slot) &&
      s' == s.Move(t, Returned(pc.p, s.slots[pc.slot].result.value, Some(pc.slot)))
    case Park => pc.WaitingOn? && pc.slot in s.slots && !s.Finished(pc.slot) && s' == s.Move(t, pc)
    case Return => pc.Returned? && s' == s.Move(t, Idle)
    case BeginStore(p, secret) =>
      pc.Idle? && s' == s.Move(t, if secret == "" then Deleting(p) else Storing(p, secret))
    case BeginDelete(p) => pc.Idle? && s' == s.Move(t, Deleting(p))
    case WriteVault(fails) =>
      (pc.Storing? || pc.Deleting?) &&
      if fails then s' == s.Move(t, Idle)
      else if pc.Storing? then s' == s.Move(t, StoreCaching(pc.p, pc.secret)).(vault := s.vault[pc.p := pc.secret])
      else s' == s.Move(t, DeleteCaching(pc.p)).(vault := s.vault - {pc.p})
    case WriteCache =>
      (pc.StoreCaching? || pc.DeleteCaching?) &&
      s' == s.Move(t, Idle).(cache := if pc.StoreCaching? then s.cache[pc.p := pc.secret] else s.cache - {pc.p})
    case ClearCache => pc.Idle? && s' == s.(cache := map[])
  }

  datatype Event = Event(thread: Thread, action: Action)

  ghost predicate Run(states: seq<State>, events: seq<Event>, vault: map<Provider, Secret>) {
    && |states| == |events| + 1
    && states[0] == State(map[], vault, map[], map[], 0, map[])
    && forall i | 0 <= i < |events| :: Step(states[i], events[i].thread, events[i].action, states[i + 1])
  }

  // ------------------------------------------------------------------ single flight

  /** The owner of a slot is the registered one, and its slot is unfinished until it publishes. */
  ghost predicate OwnerInv(s: State, t: Thread) {
    var pc := s.At(t);
    pc.Owner() ==>
      && pc.p in s.inFlight && s.inFlight[pc.p] == pc.slot
      && pc.slot in s.slots && s.slots[pc.slot].provider == pc.p
      && s.slots[pc.slot].result == if pc.Removing? then Some(pc.r) else None
  }

  ghost predicate JoinerInv(s: State, t: Thread) {
    var pc := s.At(t);
    && (pc.WaitingOn? ==> pc.slot in s.slots && s.slots[pc.slot].provider == pc.p)
    && (pc.Returned? && pc.joined.Some? ==>
          pc.joined.value in s.slots && s.slots[pc.joined.value] == Slot(pc.p, Some(pc.r)))
  }

  ghost predicate ThreadsInv(s: State) {
    forall t :: OwnerInv(s, t) && JoinerInv(s, t)
  }

  ghost predicate OneOwner(s: State) {
    forall t, u | s.At(t).Owner() && s.At(u).Owner() && s.At(t).p == s.At(u).p :: t == u
  }

  ghost predicate InFlightTyped(s: State) {
    forall p | p in s.inFlight :: s.inFlight[p] in s.slots && s.slots[s.inFlight[p]].provider == p
  }

  /** Every slot in the map has an owner, so somebody is going to finish it. */
  ghost predicate InFlightOwned(s: State) {
    forall p | p in s.inFlight :: exists t :: s.At(t).Owns(p, s.inFlight[p])
  }

  ghost predicate SlotsNumbered(s: State) {
    forall slot | slot in s.slots :: slot < s.nextSlot
  }

  /** A slot leaves the map only after it was finished. */
  ghost predicate UnfinishedInFlight(s: State) {
    forall slot | slot in s.slots && !s.Finished(slot) ::
      s.slots[slot].provider in s.inFlight && s.inFlight[s.slots[slot].provider] == slot
  }

  ghost predicate Inv(s: State) {
    ThreadsInv(s) && OneOwner(s) && InFlightTyped(s) && InFlightOwned(s) && SlotsNumbered(s) && UnfinishedInFlight(s)
  }

  lemma OthersStay(s: State, t: Thread, a: Action, s': State)
    requires Step(s, t, a, s')
    ensures forall u | u != t :: s'.At(u) == s.At(u)
  {
  }

  lemma OwnerStepKept(s: State, t: Thread, a: Action, s': State)
    requires OwnerInv(s, t) && Step(s, t, a, s')
    ensures OwnerInv(s', t)
  {
  }

  lemma JoinerStepKept(s: State, t: Thread, a: Action, s': State)
    requires OwnerInv(s, t) && JoinerInv(s, t) && InFlightTyped(s) && Step(s, t, a, s')
    ensures JoinerInv(s', t)
  {
    match a
    case Begin =>
    case Remove =>
    case Wake =>
    case _ =>
  }

  lemma OtherThreadKept(s: State, t: Thread, a: Action, s': State, u: Thread)
    requires OwnerInv(s, u) && JoinerInv(s, u) && OwnerInv(s, t) && SlotsNumbered(s) && Step(s, t, a, s')
    requires u != t && s'.At(u) == s.At(u)
    requires s.At(t).Owner() && s.At(u).Owner() ==> s.At(t).p != s.At(u).p
    ensures OwnerInv(s', u) && JoinerInv(s', u)
  {
    match a
    case Begin =>
    case Finish =>
    case Remove =>
    case _ =>
  }

  lemma KeepsThreads(s: State, t: Thread, a: Action, s': State)
    requires Inv(s) && Step(s, t, a, s')
    ensures ThreadsInv(s')
  {
    forall u
      ensures OwnerInv(s', u) && JoinerInv(s', u)
    {
      assert OwnerInv(s, u) && JoinerInv(s, u) && OwnerInv(s, t);
      hide ThreadsInv, OwnerInv, JoinerInv, InFlightOwned, Step;
      if u == t {
        OwnerStepKept(s, t, a, s');
        JoinerStepKept(s, t, a, s');
      } else {
        OthersStay(s, t, a, s');
        OtherThreadKept(s, t, a, s', u);
      }
    }
  }

  lemma KeepsOneOwner(s: State, t: Thread, a: Action, s': State)
    requires Inv(s) && Step(s, t, a, s')
    ensures OneOwner(s')
  {
    hide InFlightOwned, UnfinishedInFlight, JoinerInv;
    OthersStay(s, t, a, s');
    forall u | s'.At(u).Owner()
      ensures (s.At(u).Owner() && s.At(u).p == s'.At(u).p) || (u == t && a.Begin? && s'.At(u).p !in s.inFlight)
    {
    }
    forall u, v | s'.At(u).Owner() && s'.At(v).Owner() && s'.At(u).p == s'.At(v).p
      ensures u == v
    {
      assert OwnerInv(s, u) && OwnerInv(s, v);
    }
  }

  /** A thread stops owning a slot only when it removes it from the map. */
  lemma OwnershipKept(s: State, t: Thread, a: Action, s': State, p: Provider)
    requires Step(s, t, a, s') && p in s'.inFlight && (p in s.inFlight ==> OwnerInv(s, t))
    ensures p in s.inFlight ==> s'.inFlight[p] == s.inFlight[p]
    ensures p in s.inFlight && s.At(t).Owns(p, s.inFlight[p]) ==> s'.At(t).Owns(p, s'.inFlight[p])
    ensures p !in s.inFlight ==> s'.At(t).Owns(p, s'.inFlight[p])
  {
  }

  lemma KeepsInFlightOwned(s: State, t: Thread, a: Action, s': State)
    requires ThreadsInv(s) && InFlightOwned(s) && Step(s, t, a, s')
    ensures InFlightOwned(s')
  {
    OthersStay(s, t, a, s');
    assert OwnerInv(s, t);
    hide OwnerInv, JoinerInv;
    forall p | p in s'.inFlight
      ensures exists u :: s'.At(u).Owns(p, s'.inFlight[p])
    {
      OwnershipKept(s, t, a, s', p);
      hide Step;
      if p in s.inFlight {
        var u :| s.At(u).Owns(p, s.inFlight[p]);
        assert s'.At(u).Owns(p, s'.inFlight[p]);
      } else {
        assert s'.At(t).Owns(p, s'.inFlight[p]);
      }
    }
  }

  lemma KeepsTyped(s: State, t: Thread, a: Action, s': State)
    requires OwnerInv(s, t) && InFlightTyped(s) && SlotsNumbered(s) && Step(s, t, a, s')
    ensures InFlightTyped(s') && SlotsNumbered(s')
  {
  }

  lemma KeepsUnfinishedInFlight(s: State, t: Thread, a: Action, s': State)
    requires OwnerInv(s, t) && InFlightTyped(s) && SlotsNumbered(s) && UnfinishedInFlight(s) && Step(s, t, a, s')
    ensures UnfinishedInFlight(s')
  {
  }

  lemma StepKeepsInv(s: State, t: Thread, a: Action, s': State)
    requires Inv(s) && Step(s, t, a, s')
    ensures Inv(s')
  {
    KeepsThreads(s, t, a, s');
    KeepsOneOwner(s, t, a, s');
    KeepsInFlightOwned(s, t, a, s');
    assert OwnerInv(s, t);
    KeepsTyped(s, t, a, s');
    KeepsUnfinishedInFlight(s, t, a, s');
  }

  lemma {:induction false} InvAlways(states: seq<State>, events: seq<Event>, vault: map<Provider, Secret>, i: nat)
    requires Run(states, events, vault) && i < |states|
    ensures Inv(states[i])
  {
    hide Step;
    if i > 0 {
      InvAlways(states, events, vault, i - 1);
      StepKeepsInv(states[i - 1], events[i - 1].thread, events[i - 1].action, states[i]);
    }
  }

  /**
   Single flight: in every reachable state at most one thread is reading the secret store for a provider
   through `get_provider_key`.
   */
  lemma {:induction false} SingleFlight(
      states: seq<State>, events: seq<Event>, vault: map<Provider, Secret>, i: nat, t: Thread, u: Thread)
    requires Run(states, events, vault) && i < |states|
    requires states[i].At(t).Owner() && states[i].At(u).Owner() && states[i].At(t).p == states[i].At(u).p
    ensures t == u
  {
    InvAlways(states, events, vault, i);
  }

  lemma ResultStepKept(s: State, t: Thread, a: Action, s': State, slot: SlotId)
    requires Inv(s) && Step(s, t, a, s') && slot in s.slots
    ensures slot in s'.slots && s'.slots[slot].provider == s.slots[slot].provider
    ensures s.Finished(slot) ==> s'.slots[slot] == s.slots[slot]
  {
    assert OwnerInv(s, t);
  }

  /** A published result is never replaced. */
  lemma {:induction false} ResultKept(
      states: seq<State>, events: seq<Event>, vault: map<Provider, Secret>, i: nat, j: nat, slot: SlotId)
    requires Run(states, events, vault) && i <= j < |states| && slot in states[i].slots && states[i].Finished(slot)
    ensures slot in states[j].slots && states[j].slots[slot] == states[i].slots[slot]
    decreases j
  {
    hide Step, Inv;
    if i < j {
      ResultKept(states, events, vault, i, j - 1, slot);
      InvAlways(states, events, vault, j - 1);
      ResultStepKept(states[j - 1], events[j - 1].thread, events[j - 1].action, states[j], slot);
    }
  }

  /**
   Everybody who joined a slot, at whatever time, returns the same result for the same provider: the one
   its owner read and returns itself.
   */
  lemma {:induction false} JoinersAgree(
      states: seq<State>, events: seq<Event>, vault: map<Provider, Secret>,
      i: nat, t: Thread, j: nat, u: Thread)
    requires Run(states, events, vault) && i <= j < |states|
    requires states[i].At(t).Returned? && states[j].At(u).Returned?
    requires states[i].At(t).joined.Some? && states[i].At(t).joined == states[j].At(u).joined
    ensures states[i].At(t).r == states[j].At(u).r && states[i].At(t).p == states[j].At(u).p
  {
    InvAlways(states, events, vault, i);
    InvAlways(states, events, vault, j);
    assert JoinerInv(states[i], t) && JoinerInv(states[j], u);
    ResultKept(states, events, vault, i, j, states[i].At(t).joined.value);
  }

  // ------------------------------------------------------------------ no waiter is stranded

  /** The owner's next step, which waits for nothing. */
  function OwnerAction(pc: Pc, failure: Option<string>): Action
    requires pc.Owner()
  {
    match pc
    case Loading(_, _) => Load(failure)
    case Loaded(_, _, _) => PutCache
    case Publishing(_, _, _) => Finish
    case Removing(_, _, _) => Remove
  }

  /** Steps the owner still has to take before its slot is finished. */
  function StepsToFinish(pc: Pc): nat {
    match pc
    case Loading(_, _) => 3
    case Loaded(_, _, _) => 2
    case Publishing(_, _, _) => 1
    case _ => 0
  }

  /**
   A waiter either can wake now, or the slot has an owner with at most three steps to go before it is
   finished, none of which waits for another thread. So no waiter blocks for ever.
   */
  lemma {:induction false} WaiterServed(
      states: seq<State>, events: seq<Event>, vault: map<Provider, Secret>, i: nat, t: Thread)
    requires Run(states, events, vault) && i < |states| && states[i].At(t).WaitingOn?
    ensures var s, slot := states[i], states[i].At(t).slot;
            && slot in s.slots
            && (s.Finished(slot) ==> exists s' :: Step(s, t, Wake, s'))
            && (!s.Finished(slot) ==>
                  exists u :: s.At(u).Owns(s.At(t).p, slot) && 1 <= StepsToFinish(s.At(u)) <= 3)
  {
    var s, pc := states[i], states[i].At(t);
    InvAlways(states, events, vault, i);
    assert JoinerInv(s, t);
    if s.Finished(pc.slot) {
      assert Step(s, t, Wake, s.Move(t, Returned(pc.p, s.slots[pc.slot].result.value, Some(pc.slot))));
    } else {
      var u :| s.At(u).Owns(pc.p, pc.slot);
      assert OwnerInv(s, u);
    }
  }

  function OwnerMove(s: State, u: Thread, failure: Option<string>): State
    requires s.At(u).Owner() && (s.At(u).Publishing? ==> s.At(u).slot in s.slots)
  {
    var pc := s.At(u);
    match pc
    case Loading(p, slot) =>
      s.Move(u, Loaded(p, slot, if failure.Some? then LoadError(failure.value)
                                else if p in s.vault then Found(s.vault[p]) else Absent))
    case Loaded(p, slot, r) =>
      s.Move(u, Publishing(p, slot, r)).(cache := if r.Found? then s.cache[p := r.secret] else s.cache)
    case Publishing(p, slot, r) =>
      s.Move(u, Removing(p, slot, r)).(slots := s.slots[slot := s.slots[slot].(result := Some(r))])
    case Removing(p, slot, r) =>
      s.Move(u, Returned(p, r, Some(slot))).(inFlight := s.inFlight - {p})
  }

  /** An owner is always able to step, and each of its steps brings its slot closer to being finished. */
  lemma OwnerAlwaysSteps(s: State, u: Thread, failure: Option<string>)
    requires Inv(s) && s.At(u).Owner()
    ensures exists s' :: Step(s, u, OwnerAction(s.At(u), failure), s')
    ensures forall s' | Step(s, u, OwnerAction(s.At(u), failure), s') ::
              if StepsToFinish(s.At(u)) <= 1 then s.At(u).slot in s'.slots && s'.Finished(s.At(u).slot)
              else s'.At(u).Owns(s.At(u).p, s.At(u).slot) && StepsToFinish(s'.At(u)) == StepsToFinish(s.At(u)) - 1
  {
    assert OwnerInv(s, u);
    assert Step(s, u, OwnerAction(s.At(u), failure), OwnerMove(s, u, failure));
  }

  // ------------------------------------------------------------------ the cache and the secret store

  /** What a thread is about to write to the cache, and for which provider. */
  function PendingWrite(pc: Pc): Option<(Provider, Secret)> {
    if pc.Loaded? && pc.r.Found? then Some((pc.p, pc.r.secret))
    else if pc.StoreCaching? then Some((pc.p, pc.secret))
    else None
  }

  predicate Holds(keys: map<Provider, Secret>, key: (Provider, Secret)) {
    key.0 in keys && keys[key.0] == key.1
  }

  /** What a thread is about to write to the cache is what the secret store holds. */
  ghost predicate PendingWriteCoherent(s: State, t: Thread) {
    PendingWrite(s.At(t)).Some? ==> Holds(s.vault, PendingWrite(s.At(t)).value)
  }

  /** The cache has a key that the secret store does not have, and nobody is changing it any more. */
  ghost predicate Stale(s: State, p: Provider) {
    p in s.cache && !Holds(s.vault, (p, s.cache[p])) && forall t :: !s.At(t).HalfDone(p)
  }

  ghost predicate Coherent(s: State) {
    && (forall t :: PendingWriteCoherent(s, t))
    && (forall p :: !Stale(s, p))
  }

  /** The secret store changes a key while another thread is about to write an older one to the cache. */
  ghost predicate Disturbs(s: State, t: Thread, a: Action) {
    && a == WriteVault(false)
    && exists u | u != t :: PendingElsewhere(s, t, u)
  }

  ghost predicate PendingElsewhere(s: State, t: Thread, u: Thread) {
    var pc, pending := s.At(t), PendingWrite(s.At(u));
    && (pc.Storing? || pc.Deleting?) && pending.Some? && pending.value.0 == pc.p
    && (pc.Storing? ==> pending.value.1 != pc.secret)
  }

  /** A step loses coherence exactly when it disturbs. */
  lemma StepKeepsCoherent(s: State, t: Thread, a: Action, s': State)
    requires Step(s, t, a, s') && Coherent(s)
    ensures Coherent(s') <==> !Disturbs(s, t, a)
  {
    OthersStay(s, t, a, s');
    if Disturbs(s, t, a) {
      var u :| u != t && PendingElsewhere(s, t, u);
      DisturbedPending(s, t, s', u);
    } else {
      forall u
        ensures PendingWriteCoherent(s', u)
      {
        assert PendingWriteCoherent(s, u);
        PendingWriteKept(s, t, a, s', u);
      }
      forall p
        ensures !Stale(s', p)
      {
        NotStaleKept(s, t, a, s', p);
      }
    }
  }

  lemma DisturbedPending(s: State, t: Thread, s': State, u: Thread)
    requires Step(s, t, WriteVault(false), s') && u != t && PendingElsewhere(s, t, u)
    ensures !PendingWriteCoherent(s', u)
  {
    OthersStay(s, t, WriteVault(false), s');
  }

  lemma PendingWriteKept(s: State, t: Thread, a: Action, s': State, u: Thread)
    requires Step(s, t, a, s') && !Disturbs(s, t, a) && PendingWriteCoherent(s, u)
    ensures PendingWriteCoherent(s', u)
  {
    if u != t {
      OthersStay(s, t, a, s');
      VaultChange(s, t, a, s');
      hide Step;
      assert a == WriteVault(false) ==> !PendingElsewhere(s, t, u);
    }
  }

  /** The secret store changes only under a store or delete, and only for its provider. */
  lemma VaultChange(s: State, t: Thread, a: Action, s': State)
    requires Step(s, t, a, s')
    ensures s'.vault != s.vault ==> a == WriteVault(false) && (s.At(t).Storing? || s.At(t).Deleting?)
    ensures s'.vault != s.vault ==>
              s'.vault == if s.At(t).Storing? then s.vault[s.At(t).p := s.At(t).secret] else s.vault - {s.At(t).p}
  {
  }

  lemma NotStaleKept(s: State, t: Thread, a: Action, s': State, p: Provider)
    requires Step(s, t, a, s') && PendingWriteCoherent(s, t) && !Stale(s, p)
    ensures !Stale(s', p)
  {
    OthersStay(s, t, a, s');
    if s'.At(t).HalfDone(p) {
    } else if forall u | u != t :: !s'.At(u).HalfDone(p) {
      forall u | u != t
        ensures !s.At(u).HalfDone(p)
      {
        assert !s'.At(u).HalfDone(p);
      }
    }
  }

  /** The cache agrees with the secret store throughout a run exactly when no step of it disturbs. */
  lemma {:induction false} CacheAgreesExactly(
      states: seq<State>, events: seq<Event>, vault: map<Provider, Secret>, i: nat)
    requires Run(states, events, vault) && i < |states|
    ensures (forall j | 0 <= j <= i :: Coherent(states[j]))
            <==> forall j | 0 <= j < i :: !Disturbs(states[j], events[j].thread, events[j].action)
  {
    hide Coherent, Disturbs;
    if i > 0 {
      CacheAgreesExactly(states, events, vault, i - 1);
      assert Step(states[i - 1], events[i - 1].thread, events[i - 1].action, states[i]);
      if Coherent(states[i - 1]) {
        StepKeepsCoherent(states[i - 1], events[i - 1].thread, events[i - 1].action, states[i]);
      }
    } else {
      EmptyCacheCoherent(states[0]);
    }
  }

  lemma EmptyCacheCoherent(s: State)
    requires s.cache == map[] && s.pcs == map[]
    ensures Coherent(s)
  {
  }

  /** A run from `s` without disturbing steps that ends with a stale key. */
  ghost predicate GoesStale(s: State, states: seq<State>, events: seq<Event>) {
    && |states| == |events| + 1 && states[0] == s
    && (forall i | 0 <= i < |events| ::
          && Step(states[i], events[i].thread, events[i].action, states[i + 1])
          && !Disturbs(states[i], events[i].thread, events[i].action))
    && exists p :: Stale(states[|events|], p)
  }

  /**
   Coherence is the weakest condition: from an incoherent state, however reached, steps that disturb
   nothing lead to a stale key that nobody is changing any more; from a coherent one they never do.
   */
  lemma StaleKeyFollowsExactly(s: State)
    ensures (exists states, events :: GoesStale(s, states, events)) <==> !Coherent(s)
  {
    if states, events :| Coherent(s) && GoesStale(s, states, events) {
      UndisturbedStays(states, events, |events|);
      assert false;
    } else if p :| Stale(s, p) {
      assert GoesStale(s, [s], []);
    } else if t :| !PendingWriteCoherent(s, t) {
      PendingGoesStale(s, t);
    }
  }

  lemma {:induction false} UndisturbedStays(states: seq<State>, events: seq<Event>, i: nat)
    requires |states| == |events| + 1 && i < |states| && Coherent(states[0])
    requires forall i | 0 <= i < |events| ::
               && Step(states[i], events[i].thread, events[i].action, states[i + 1])
               && !Disturbs(states[i], events[i].thread, events[i].action)
    ensures Coherent(states[i])
  {
    hide Coherent, Disturbs;
    if i > 0 {
      UndisturbedStays(states, events, i - 1);
      StepKeepsCoherent(states[i - 1], events[i - 1].thread, events[i - 1].action, states[i]);
    }
  }

  ghost function OthersHalfDone(s: State, u: Thread, p: Provider): set<Thread> {
    set t | t in s.pcs && t != u && s.At(t).HalfDone(p)
  }

  /** The others finish their changes of the cache, and then `u` makes its own. */
  lemma {:induction false} PendingGoesStale(s: State, u: Thread)
    requires !PendingWriteCoherent(s, u)
    ensures exists states, events :: GoesStale(s, states, events)
    decreases |OthersHalfDone(s, u, s.At(u).p)|
  {
    var p := s.At(u).p;
    if OthersHalfDone(s, u, p) == {} {
      WritesStale(s, u);
    } else {
      var t :| t in OthersHalfDone(s, u, p);
      var s' := WrittenCache(s, t);
      FinishOne(s, u, t, s');
      PendingGoesStale(s', u);
      var states, events :| GoesStale(s', states, events);
      GoesStaleLater(s, t, WriteCache, s', states, events);
    }
  }

  function WrittenCache(s: State, t: Thread): State
    requires s.At(t).StoreCaching? || s.At(t).DeleteCaching?
  {
    var pc := s.At(t);
    s.Move(t, Idle).(cache := if pc.StoreCaching? then s.cache[pc.p := pc.secret] else s.cache - {pc.p})
  }

  lemma FinishOne(s: State, u: Thread, t: Thread, s': State)
    requires !PendingWriteCoherent(s, u) && t in OthersHalfDone(s, u, s.At(u).p) && s' == WrittenCache(s, t)
    ensures Step(s, t, WriteCache, s') && !PendingWriteCoherent(s', u) && s'.At(u) == s.At(u)
    ensures |OthersHalfDone(s', u, s.At(u).p)| < |OthersHalfDone(s, u, s.At(u).p)|
  {
    var p := s.At(u).p;
    OthersStay(s, t, WriteCache, s');
    assert OthersHalfDone(s', u, p) == OthersHalfDone(s, u, p) - {t};
  }

  lemma WritesStale(s: State, u: Thread)
    requires !PendingWriteCoherent(s, u) && OthersHalfDone(s, u, s.At(u).p) == {}
    ensures exists states, events :: GoesStale(s, states, events)
  {
    var pc, key := s.At(u), PendingWrite(s.At(u)).value;
    var a := if pc.Loaded? then PutCache else WriteCache;
    var s' := if pc.Loaded? then s.Move(u, Publishing(pc.p, pc.slot, pc.r)).(cache := s.cache[key.0 := key.1])
              else WrittenCache(s, u);
    OthersStay(s, u, a, s');
    forall t
      ensures !s'.At(t).HalfDone(pc.p)
    {
      assert t !in OthersHalfDone(s, u, pc.p);
    }
    assert Stale(s', pc.p);
    assert GoesStale(s', [s'], []);
    GoesStaleLater(s, u, a, s', [s'], []);
  }

  lemma GoesStaleLater(s: State, t: Thread, a: Action, s': State, states: seq<State>, events: seq<Event>)
    requires Step(s, t, a, s') && !Disturbs(s, t, a) && GoesStale(s', states, events)
    ensures GoesStale(s, [s] + states, [Event(t, a)] + events)
  {
    hide Step, Disturbs;
    var states', events' := [s] + states, [Event(t, a)] + events;
    forall i | 0 <= i < |events'|
      ensures Step(states'[i], events'[i].thread, events'[i].action, states'[i + 1])
      ensures !Disturbs(states'[i], events'[i].thread, events'[i].action)
    {
      if i > 0 {
        assert events'[i] == events[i - 1] && states'[i] == states[i - 1] && states'[i + 1] == states[i];
      }
    }
    assert states'[|events'|] == states[|events|];
  }

  /**
   What an overlap does, in any state: a store or delete that reaches the secret store while another thread
   is about to cache a different key leads to a stale key.
   */
  lemma OverlapGoesStale(s: State, t: Thread, s': State)
    requires Disturbs(s, t, WriteVault(false)) && Step(s, t, WriteVault(false), s')
    ensures exists states, events :: GoesStale(s', states, events)
  {
    var u :| u != t && PendingElsewhere(s, t, u);
    DisturbedPending(s, t, s', u);
    PendingGoesStale(s', u);
  }

  // ------------------------------------------------------------------ callers that keep reads and changes apart

  /** No read of a provider overlaps a store or delete of it, and no two stores or deletes overlap. */
  ghost predicate Separate(s: State, t: Thread, a: Action) {
    match a
    case BeginGet(p) => forall u :: !s.At(u).Mutates(p)
    case BeginStore(p, _) => forall u :: !s.At(u).Mutates(p) && !s.At(u).Reads(p)
    case BeginDelete(p) => forall u :: !s.At(u).Mutates(p) && !s.At(u).Reads(p)
    case _ => true
  }

  ghost predicate SeparateRun(states: seq<State>, events: seq<Event>)
    requires |states| == |events| + 1
  {
    forall i | 0 <= i < |events| :: Separate(states[i], events[i].thread, events[i].action)
  }

  ghost predicate NoOverlap(s: State) {
    forall t, u, p | s.At(t).Mutates(p) && t != u :: !s.At(u).Mutates(p) && !s.At(u).Reads(p)
  }

  /** A thread becomes a reader or a changer of a provider only where `Separate` guards it. */
  lemma RolesKept(s: State, t: Thread, a: Action, s': State, p: Provider)
    requires Step(s, t, a, s') && Separate(s, t, a)
    ensures s'.At(t).Mutates(p) ==> s.At(t).Mutates(p) || forall u :: !s.At(u).Mutates(p) && !s.At(u).Reads(p)
    ensures s'.At(t).Reads(p) ==> s.At(t).Reads(p) || forall u :: !s.At(u).Mutates(p)
  {
    if !a.BeginGet? && !a.BeginStore? && !a.BeginDelete? {
      SameRole(s, t, a, s', p);
    }
  }

  /** A thread takes up a part only when it begins a call. */
  lemma SameRole(s: State, t: Thread, a: Action, s': State, p: Provider)
    requires Step(s, t, a, s') && !a.BeginGet? && !a.BeginStore? && !a.BeginDelete?
    ensures s'.At(t).Mutates(p) ==> s.At(t).Mutates(p)
    ensures s'.At(t).Reads(p) ==> s.At(t).Reads(p)
  {
  }

  lemma NoOverlapKept(s: State, t: Thread, a: Action, s': State)
    requires NoOverlap(s) && Step(s, t, a, s') && Separate(s, t, a)
    ensures NoOverlap(s')
  {
    OthersStay(s, t, a, s');
    forall p
      ensures s'.At(t).Mutates(p) ==> s.At(t).Mutates(p) || forall u :: !s.At(u).Mutates(p) && !s.At(u).Reads(p)
      ensures s'.At(t).Reads(p) ==> s.At(t).Reads(p) || forall u :: !s.At(u).Mutates(p)
    {
      RolesKept(s, t, a, s', p);
    }
    hide Step, Separate;
  }

  lemma ApartMeansUndisturbed(s: State, t: Thread, a: Action)
    requires NoOverlap(s)
    ensures !Disturbs(s, t, a)
  {
    forall u | u != t
      ensures !PendingElsewhere(s, t, u)
    {
      assert s.At(t).Storing? || s.At(t).Deleting? ==> s.At(t).Mutates(s.At(t).p);
    }
  }

  /**
   While no store or delete of a provider overlaps a read of it, or another store or delete, no step
   disturbs, and so a cached key is the stored one whenever no change of it is half done.
   */
  lemma {:induction false} CacheAgreesWithStore(
      states: seq<State>, events: seq<Event>, vault: map<Provider, Secret>, i: nat)
    requires Run(states, events, vault) && SeparateRun(states, events) && i < |states|
    ensures NoOverlap(states[i]) && Coherent(states[i])
    ensures forall j | 0 <= j < i :: !Disturbs(states[j], events[j].thread, events[j].action)
  {
    if i > 0 {
      CacheAgreesWithStore(states, events, vault, i - 1);
      NoOverlapKept(states[i - 1], events[i - 1].thread, events[i - 1].action, states[i]);
      ApartMeansUndisturbed(states[i - 1], events[i - 1].thread, events[i - 1].action);
    }
    CacheAgreesExactly(states, events, vault, i);
  }

  // ------------------------------------------------------------------ one overlap

  ghost predicate Reaches(vault: map<Provider, Secret>, s: State) {
    exists states, events :: Run(states, events, vault) && states[|events|] == s
  }

  lemma ReachesMore(vault: map<Provider, Secret>, s: State, t: Thread, a: Action, s': State)
    requires Reaches(vault, s) && Step(s, t, a, s')
    ensures Reaches(vault, s')
  {
    var states, events :| Run(states, events, vault) && states[|events|] == s;
    assert Run(states + [s'], events + [Event(t, a)], vault);
  }

  /** A reader of `p` has read the secret store and not yet written the cache. */
  lemma ReadOldKey(vault: map<Provider, Secret>) returns (s: State)
    requires vault == map["p" := "old"]
    ensures Reaches(vault, s)
    ensures s == State(map[], vault, map["p" := 0], map[0 := Slot("p", None)], 1,
                       map[0 := Loaded("p", 0, Found("old"))])
  {
    hide Run, Reaches;
    var s0 := State(map[], vault, map[], map[], 0, map[]);
    var s3 := State(map[], vault, map["p" := 0], map[0 := Slot("p", None)], 1, map[0 := Loading("p", 0)]);
    s := s3.Move(0, Loaded("p", 0, Found("old")));
    StartReached(vault);
    ReachesMore(vault, s0, 0, BeginGet("p"), s0.Move(0, Looking("p")));
    ReachesMore(vault, s0.Move(0, Looking("p")), 0, Look, s0.Move(0, Beginning("p")));
    ReachesMore(vault, s0.Move(0, Beginning("p")), 0, Begin, s3);
    ReachesMore(vault, s3, 0, Load(None), s);
  }

  lemma StartReached(vault: map<Provider, Secret>)
    ensures Reaches(vault, State(map[], vault, map[], map[], 0, map[]))
  {
    assert Run([State(map[], vault, map[], map[], 0, map[])], [], vault);
  }

  /**
   A reader has read the old key; a store of another key, or a delete, then reaches the secret store. The
   old key is going to stay in the cache.
   */
  lemma OverlapLeavesStaleKey(deleting: bool) returns (vault: map<Provider, Secret>, s: State, s': State)
    ensures Reaches(vault, s) && s.At(1) == (if deleting then Deleting("p") else Storing("p", "new"))
    ensures Disturbs(s, 1, WriteVault(false)) && Step(s, 1, WriteVault(false), s')
    ensures s'.vault == (if deleting then map[] else map["p" := "new"])
    ensures exists states, events :: GoesStale(s', states, events)
  {
    vault := map["p" := "old"];
    var s0 := ReadOldKey(vault);
    s := s0.Move(1, if deleting then Deleting("p") else Storing("p", "new"));
    ReachesMore(vault, s0, 1, if deleting then BeginDelete("p") else BeginStore("p", "new"), s);
    s' := if deleting then s.Move(1, DeleteCaching("p")).(vault := s.vault - {"p"})
          else s.Move(1, StoreCaching("p", "new")).(vault := s.vault["p" := "new"]);
    assert s.At(0) == s0.At(0) && s.At(1).p == "p";
    assert PendingElsewhere(s, 1, 0);
    OverlapGoesStale(s, 1, s');
  }
}
