/**
 The provider key store as an object, used by any number of threads.

 Each section under one lock is a step of the protocol in `KeyStore`, and between two sections the
 other threads take any steps they like; the object records the run, so that what is proved of all
 runs holds of it.
 */
module ProviderKeys {
  import opened Wrappers
  import opened KeyStore

  function ChangedVault(vault: map<Provider, Secret>, p: Provider, secret: Secret): map<Provider, Secret> {
    if secret == "" then vault - {p} else vault[p := secret]
  }

  /** Event `i` is `t` changing the key of `p` in the secret store. */
  ghost predicate WroteVaultAt(
      states: seq<State>, events: seq<Event>, i: nat, t: Thread, p: Provider, secret: Secret)
  {
    && i < |events| && i + 1 < |states| && events[i] == Event(t, WriteVault(false))
    && states[i + 1].vault == ChangedVault(states[i].vault, p, secret)
  }

  ghost predicate WroteVault(
      states: seq<State>, events: seq<Event>, from: nat, t: Thread, p: Provider, secret: Secret)
  {
    exists i :: from <= i && WroteVaultAt(states, events, i, t, p, secret)
  }

  /** From event `from` on `t` has changed neither the secret store nor the cache by a store or delete. */
  ghost predicate Untouched(events: seq<Event>, from: nat, t: Thread) {
    forall i | from <= i < |events| && events[i].thread == t ::
      events[i].action != WriteVault(false) && events[i].action != WriteCache
  }

  /** From event `from` on the secret store has refused `t` a store or delete. */
  ghost predicate VaultFailed(events: seq<Event>, from: nat, t: Thread) {
    exists i :: from <= i < |events| && events[i] == Event(t, WriteVault(true))
  }

  /** Event `from` and all later ones are of other threads. */
  ghost predicate OthersOnly(events: seq<Event>, from: nat, t: Thread) {
    forall i | from <= i < |events| :: events[i].thread != t
  }

  /** How often `t` has looked at the slot it waits for in vain, from event `from` on. */
  function Looks(events: seq<Event>, from: nat, t: Thread): nat {
    if |events| <= from then 0
    else Looks(events[..|events| - 1], from, t) + if events[|events| - 1] == Event(t, Park) then 1 else 0
  }

  lemma NoLooks(events: seq<Event>, t: Thread)
    ensures Looks(events, |events|, t) == 0
  {
  }

  lemma {:induction false} LooksSame(before: seq<Event>, events: seq<Event>, from: nat, t: Thread)
    requires before <= events && from <= |before|
    requires forall i | |before| <= i < |events| :: events[i] != Event(t, Park)
    ensures Looks(events, from, t) == Looks(before, from, t)
    decreases |events|
  {
    if |before| < |events| {
      LooksSame(before, events[..|events| - 1], from, t);
    } else {
      assert before == events;
    }
  }

  lemma {:induction false} LooksLater(events: seq<Event>, from: nat, later: nat, t: Thread)
    requires from <= later <= |events| && forall i | from <= i < later :: events[i] != Event(t, Park)
    ensures Looks(events, from, t) == Looks(events, later, t)
  {
    if later < |events| {
      LooksLater(events[..|events| - 1], from, later, t);
    } else {
      LooksSame(events[..from], events, from, t);
    }
  }

  lemma LookedOnce(events: seq<Event>, from: nat, t: Thread)
    requires from <= |events|
    ensures Looks(events + [Event(t, Park)], from, t) == Looks(events, from, t) + 1
  {
    assert (events + [Event(t, Park)])[..|events|] == events;
  }

  /** Each of these looks found the slot without a result. */
  lemma {:induction false} LooksInVain(
      states: seq<State>, events: seq<Event>, vault: map<Provider, Secret>, from: nat, t: Thread)
    returns (looks: seq<nat>)
    requires Run(states, events, vault)
    ensures |looks| == Looks(events, from, t)
    ensures forall k | 0 <= k < |looks| ::
              && from <= looks[k] < |events| && states[looks[k]].At(t).WaitingOn?
              && states[looks[k]].At(t).slot in states[looks[k]].slots
              && states[looks[k]].slots[states[looks[k]].At(t).slot].result == None
    ensures forall k, l | 0 <= k < l < |looks| :: looks[k] < looks[l]
    decreases |events|
  {
    looks := [];
    if from < |events| {
      var n := |events| - 1;
      assert Step(states[n], events[n].thread, events[n].action, states[n + 1]);
      looks := LooksInVain(states[..n + 1], events[..n], vault, from, t);
      if events[n] == Event(t, Park) {
        looks := looks + [n];
      }
    }
  }

  class AiProviderKeyStore {
    var cache: map<Provider, Secret>
    /** The operating system's secret store. */
    var vault: map<Provider, Secret>
    var inFlightReads: map<Provider, SlotId>
    /** Every slot ever made; a thread keeps its slot after the slot has left `inFlightReads`. */
    var slots: map<SlotId, Slot>
    var nextSlot: nat
    /** Where every thread stands. */
    var pcs: map<Thread, Pc>
    ghost const initially: map<Provider, Secret>
    ghost var states: seq<State>
    ghost var events: seq<Event>

    function View(): State
      reads this
    {
      State(cache, vault, inFlightReads, slots, nextSlot, pcs)
    }

    function Where(t: Thread): Pc
      reads this
    {
      if t in pcs then pcs[t] else Idle
    }

    ghost predicate Valid()
      reads this
    {
      Run(states, events, initially) && states[|events|] == View()
    }

    constructor (stored: map<Provider, Secret>)
      ensures Valid() && View() == State(map[], stored, map[], map[], 0, map[])
    {
      cache, vault, inFlightReads, slots, nextSlot, pcs := map[], stored, map[], map[], 0, map[];
      initially := stored;
      states, events := [State(map[], stored, map[], map[], 0, map[])], [];
    }

    /** The object has gone on from `states0` and `events0` by one step of `t`. */
    twostate predicate Stepped(t: Thread, a: Action)
      reads this
    {
      && Valid() && Step(old(View()), t, a, View())
      && events == old(events) + [Event(t, a)] && states == old(states) + [View()]
    }

    twostate predicate Continued()
      reads this
    {
      Valid() && old(events) <= events && old(states) <= states
    }

    /** Any number of steps of other threads. */
    method OthersStep(t: Thread)
      requires Valid()
      modifies this
      ensures Continued() && Where(t) == old(Where(t)) && OthersOnly(events, |old(events)|, t)
      ensures Untouched(events, |old(events)|, t)
    {
      var n: int := *;
      for i := 0 to if n > 0 then n else 0
        invariant Continued() && Where(t) == old(Where(t)) && OthersOnly(events, |old(events)|, t)
      {
        var u: Thread, a: Action, s: State := *, *, *;
        if u != t && Step(View(), u, a, s) {
          OthersStay(View(), u, a, s);
          Become(u, a, s);
        }
      }
    }

    /** Takes a step of thread `u` as it is given. */
    method Become(u: Thread, a: Action, s: State)
      requires Valid() && Step(View(), u, a, s)
      modifies this
      ensures Continued() && View() == s && events == old(events) + [Event(u, a)]
    {
      hide Step;
      cache, vault, inFlightReads, slots, nextSlot, pcs := s.cache, s.vault, s.inFlight, s.slots, s.nextSlot, s.pcs;
      states, events := states + [s], events + [Event(u, a)];
    }

    /** Notes that thread `t` is now at `pc`. */
    method Record(t: Thread, ghost a: Action, pc: Pc)
      requires Run(states, events, initially)
      requires Step(states[|events|], t, a, View().Move(t, pc))
      modifies this`pcs, this`states, this`events
      ensures View() == old(View().Move(t, pc)) && Valid()
      ensures events == old(events) + [Event(t, a)] && states == old(states) + [View()]
    {
      pcs := pcs[t := pc];
      states, events := states + [View()], events + [Event(t, a)];
    }

    /** Looks into the cache. */
    method LookUp(t: Thread, p: Provider) returns (cached: Option<Secret>)
      requires Valid() && Where(t) == Looking(p)
      modifies this
      ensures Continued() && Stepped(t, Look)
      ensures cache == old(cache) && cached == if p in cache then Some(cache[p]) else None
      ensures Where(t) == if cached.Some? then Returned(p, Found(cached.value), None) else Beginning(p)
    {
      cached := if p in cache then Some(cache[p]) else None;
      Record(t, Look, if cached.Some? then Returned(p, Found(cached.value), None) else Beginning(p));
    }

    /** `begin_provider_key_read`: joins the slot that is there, or makes one and owns it. */
    method BeginProviderKeyRead(t: Thread, p: Provider) returns (owner: bool, slot: SlotId)
      requires Valid() && Where(t) == Beginning(p)
      modifies this
      ensures Continued() && Stepped(t, Begin)
      ensures owner <==> p !in old(inFlightReads)
      ensures p in inFlightReads && inFlightReads[p] == slot
      ensures Where(t) == if owner then Loading(p, slot) else WaitingOn(p, slot)
    {
      if p in inFlightReads {
        owner, slot := false, inFlightReads[p];
        Record(t, Begin, WaitingOn(p, slot));
      } else {
        owner, slot := true, nextSlot;
        slots := slots[slot := Slot(p, None)];
        nextSlot := nextSlot + 1;
        inFlightReads := inFlightReads[p := slot];
        Record(t, Begin, Loading(p, slot));
      }
    }

    /** Reads the secret store, which may fail. */
    method LoadProviderKeyFromOs(t: Thread, p: Provider, slot: SlotId)
      returns (r: ReadResult, ghost failure: Option<string>)
      requires Valid() && Where(t) == Loading(p, slot)
      modifies this
      ensures Continued() && Stepped(t, Load(failure)) && Where(t) == Loaded(p, slot, r)
      ensures r.LoadError? || r == if p in vault then Found(vault[p]) else Absent
    {
      var error: Option<string> := *;
      r := if error.Some? then LoadError(error.value) else if p in vault then Found(vault[p]) else Absent;
      failure := error;
      Record(t, Load(failure), Loaded(p, slot, r));
    }

    method PutCache(t: Thread, p: Provider, slot: SlotId, r: ReadResult)
      requires Valid() && Where(t) == Loaded(p, slot, r)
      modifies this
      ensures Continued() && Stepped(t, KeyStore.PutCache) && Where(t) == Publishing(p, slot, r)
    {
      if r.Found? {
        cache := cache[p := r.secret];
      }
      Record(t, KeyStore.PutCache, Publishing(p, slot, r));
    }

    /** `ProviderKeyReadSlot::finish` */
    method Finish(t: Thread, p: Provider, slot: SlotId, r: ReadResult)
      requires Valid() && Where(t) == Publishing(p, slot, r) && slot in slots
      modifies this
      ensures Continued() && Stepped(t, KeyStore.Finish) && Where(t) == Removing(p, slot, r)
    {
      slots := slots[slot := slots[slot].(result := Some(r))];
      Record(t, KeyStore.Finish, Removing(p, slot, r));
    }

    method FinishProviderKeyRead(t: Thread, p: Provider, slot: SlotId, r: ReadResult)
      requires Valid() && Where(t) == Removing(p, slot, r)
      modifies this
      ensures Continued() && Stepped(t, Remove) && Where(t) == Returned(p, r, Some(slot))
    {
      inFlightReads := inFlightReads - {p};
      Record(t, Remove, Returned(p, r, Some(slot)));
    }

    /**
     `ProviderKeyReadSlot::wait`: returns the result at the first look that finds one, and gives up only after
     `patience` looks in vain.
     */
    method Wait(t: Thread, p: Provider, slot: SlotId, patience: nat) returns (r: Option<ReadResult>)
      requires Valid() && Where(t) == WaitingOn(p, slot)
      modifies this
      ensures Continued()
      ensures Where(t) == if r.Some? then Returned(p, r.value, Some(slot)) else WaitingOn(p, slot)
      ensures r.Some? ==> slot in slots && slots[slot].result == r
      ensures r.None? ==> Looks(events, |old(events)|, t) == patience
    {
      hide Run, Step, View, Valid, Looks;
      r := None;
      NoLooks(events, t);
      for i := 0 to patience
        invariant Continued() && Where(t) == WaitingOn(p, slot) && r.None?
        invariant Looks(events, |old(events)|, t) == i
      {
        ghost var before := events;
        OthersStep(t);
        LooksSame(before, events, |old(events)|, t);
        before := events;
        r := LookAtSlot(t, p, slot);
        if r.Some? {
          return;
        }
        LookedOnce(before, |old(events)|, t);
      }
    }

    method LookAtSlot(t: Thread, p: Provider, slot: SlotId) returns (r: Option<ReadResult>)
      requires Valid() && Where(t) == WaitingOn(p, slot)
      modifies this
      ensures Continued() && slot in slots && slots == old(slots) && slots[slot].result == r
      ensures Where(t) == if r.Some? then Returned(p, r.value, Some(slot)) else WaitingOn(p, slot)
      ensures r.None? ==> events == old(events) + [Event(t, Park)]
    {
      WaiterHasSlot(t);
      r := slots[slot].result;
      if r.Some? {
        Record(t, Wake, Returned(p, r.value, Some(slot)));
      } else {
        Record(t, Park, WaitingOn(p, slot));
      }
    }

    lemma WaiterHasSlot(t: Thread)
      requires Valid() && Where(t).WaitingOn?
      ensures Where(t).slot in slots
    {
      InvAlways(states, events, initially, |events|);
      assert JoinerInv(View(), t);
    }

    lemma OwnerHasSlot(t: Thread)
      requires Valid() && Where(t).Owner()
      ensures Where(t).slot in slots
    {
      InvAlways(states, events, initially, |events|);
      assert OwnerInv(View(), t);
    }

    lemma JoinedResult(t: Thread)
      requires Valid() && Where(t).Returned? && Where(t).joined.Some?
      ensures var pc := Where(t);
              pc.joined.value in slots && slots[pc.joined.value] == Slot(pc.p, Some(pc.r))
    {
      InvAlways(states, events, initially, |events|);
      assert JoinerInv(View(), t);
    }

    /** The owner's part: read, cache, publish, and only then let the slot leave the map. */
    method ReadAsOwner(t: Thread, p: Provider, slot: SlotId) returns (r: ReadResult)
      requires Valid() && Where(t) == Loading(p, slot)
      modifies this
      ensures Continued() && Where(t) == Returned(p, r, Some(slot))
    {
      hide Run, Step, Stepped, View, Valid;
      OthersStep(t);
      ghost var failure;
      r, failure := LoadProviderKeyFromOs(t, p, slot);
      OthersStep(t);
      PutCache(t, p, slot, r);
      PublishAsOwner(t, p, slot, r);
    }

    method PublishAsOwner(t: Thread, p: Provider, slot: SlotId, r: ReadResult)
      requires Valid() && Where(t) == Publishing(p, slot, r)
      modifies this
      ensures Continued() && Where(t) == Returned(p, r, Some(slot))
    {
      hide Run, Step, Stepped, View, Valid;
      OthersStep(t);
      OwnerHasSlot(t);
      Finish(t, p, slot, r);
      OthersStep(t);
      FinishProviderKeyRead(t, p, slot, r);
    }

    /**
     `get_provider_key`. What is returned was in the cache, or is the result published in the slot that was
     joined, the same for everybody who joined it.
     */
    method GetProviderKey(t: Thread, p: Provider, patience: nat) returns (r: Option<ReadResult>)
      requires Valid() && Where(t).Idle?
      modifies this
      ensures Continued()
      ensures r.Some? ==>
                var pc := Where(t);
                && pc.Returned? && pc.p == p && pc.r == r.value
                && (pc.joined.None? ==> p in cache && r.value == Found(cache[p]))
                && (pc.joined.Some? ==> pc.joined.value in slots && slots[pc.joined.value] == Slot(p, r))
      ensures r.None? ==> Where(t).WaitingOn? && Where(t).p == p && Looks(events, |old(events)|, t) == patience
    {
      hide Run, Step, View, Valid, Looks;
      ghost var from := |events|;
      BeginGetKey(t, p);
      OthersStep(t);
      var cached := LookUp(t, p);
      if cached.Some? {
        return Some(Found(cached.value));
      }
      ghost var later := |events|;
      assert forall i | from <= i < later :: events[i] != Event(t, Park);
      r := ReadThroughSlot(t, p, patience);
      LooksLater(events, from, later, t);
    }

    /** After a cache miss: as the owner of a slot or as a waiter. */
    method ReadThroughSlot(t: Thread, p: Provider, patience: nat) returns (r: Option<ReadResult>)
      requires Valid() && Where(t) == Beginning(p)
      modifies this
      ensures Continued()
      ensures r.Some? ==>
                var pc := Where(t);
                && pc.Returned? && pc.p == p && pc.r == r.value && pc.joined.Some?
                && pc.joined.value in slots && slots[pc.joined.value] == Slot(p, r)
      ensures r.None? ==> Where(t).WaitingOn? && Where(t).p == p && Looks(events, |old(events)|, t) == patience
    {
      hide Run, Step, View, Valid, Looks;
      ghost var from := |events|;
      OthersStep(t);
      var owner, slot := BeginProviderKeyRead(t, p);
      if owner {
        var result := ReadAsOwner(t, p, slot);
        r := Some(result);
      } else {
        ghost var later := |events|;
        r := Wait(t, p, slot, patience);
        LooksLater(events, from, later, t);
      }
      if r.Some? {
        JoinedResult(t);
      }
    }

    method BeginGetKey(t: Thread, p: Provider)
      requires Valid() && Where(t).Idle?
      modifies this
      ensures Continued() && Stepped(t, BeginGet(p)) && Where(t) == Looking(p)
    {
      Record(t, BeginGet(p), Looking(p));
    }

    /**
     `store_provider_key`: an empty key deletes. On success the secret store was changed, by this call, and
     then the cache; on failure, which is the secret store's, this call has changed neither.
     */
    method StoreProviderKey(t: Thread, p: Provider, secret: Secret) returns (ok: bool)
      requires Valid() && Where(t).Idle?
      modifies this
      ensures Continued() && Where(t) == Idle
      ensures ok ==> if secret == "" then p !in cache else p in cache && cache[p] == secret
      ensures if ok then WroteVault(states, events, |old(events)|, t, p, secret)
              else Untouched(events, |old(events)|, t) && VaultFailed(events, |old(events)|, t)
    {
      Record(t, BeginStore(p, secret), if secret == "" then Deleting(p) else Storing(p, secret));
      ok := WriteBoth(t, p, secret);
    }

    /** `delete_provider_key` */
    method DeleteProviderKey(t: Thread, p: Provider) returns (ok: bool)
      requires Valid() && Where(t).Idle?
      modifies this
      ensures Continued() && Where(t) == Idle
      ensures ok ==> p !in cache
      ensures if ok then WroteVault(states, events, |old(events)|, t, p, "")
              else Untouched(events, |old(events)|, t) && VaultFailed(events, |old(events)|, t)
    {
      Record(t, BeginDelete(p), Deleting(p));
      ok := WriteBoth(t, p, "");
    }

    /** Changes the secret store and, if that did not fail, then the cache. */
    method WriteBoth(t: Thread, p: Provider, secret: Secret) returns (ok: bool)
      requires Valid() && Where(t) == if secret == "" then Deleting(p) else Storing(p, secret)
      modifies this
      ensures Continued() && Where(t) == Idle
      ensures ok ==> if secret == "" then p !in cache else p in cache && cache[p] == secret
      ensures if ok then WroteVault(states, events, |old(events)|, t, p, secret)
              else Untouched(events, |old(events)|, t) && VaultFailed(events, |old(events)|, t)
    {
      OthersStep(t);
      StatesAreOneMore();
      hide Run, Step, View;
      if * {
        VaultRefuses(t, p, secret);
        assert events[|events| - 1] == Event(t, WriteVault(true));
        return false;
      }
      ghost var from, i := |old(events)|, |events|;
      WriteToVault(t, p, secret);
      assert WroteVaultAt(states, events, i, t, p, secret);
      OthersStep(t);
      WriteToCache(t, p, secret);
      assert WroteVaultAt(states, events, i, t, p, secret);
      ok := true;
    }

    lemma StatesAreOneMore()
      requires Valid()
      ensures |states| == |events| + 1
    {
    }

    /** The secret store fails. */
    method VaultRefuses(t: Thread, p: Provider, secret: Secret)
      requires Valid() && Where(t) == if secret == "" then Deleting(p) else Storing(p, secret)
      modifies this
      ensures Continued() && Where(t) == Idle && events == old(events) + [Event(t, WriteVault(true))]
    {
      Record(t, WriteVault(true), Idle);
    }

    method WriteToVault(t: Thread, p: Provider, secret: Secret)
      requires Valid() && Where(t) == if secret == "" then Deleting(p) else Storing(p, secret)
      modifies this
      ensures Continued() && Stepped(t, WriteVault(false))
      ensures Where(t) == if secret == "" then DeleteCaching(p) else StoreCaching(p, secret)
      ensures vault == ChangedVault(old(vault), p, secret)
    {
      vault := if secret == "" then vault - {p} else vault[p := secret];
      Record(t, WriteVault(false), if secret == "" then DeleteCaching(p) else StoreCaching(p, secret));
    }

    method WriteToCache(t: Thread, p: Provider, secret: Secret)
      requires Valid() && Where(t) == if secret == "" then DeleteCaching(p) else StoreCaching(p, secret)
      modifies this
      ensures Continued() && Stepped(t, WriteCache) && Where(t) == Idle
      ensures if secret == "" then p !in cache else p in cache && cache[p] == secret
    {
      cache := if secret == "" then cache - {p} else cache[p := secret];
      Record(t, WriteCache, Idle);
    }
  }
}
