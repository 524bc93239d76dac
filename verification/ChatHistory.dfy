/**
 Runs of saves: several snapshots of the same conversations, stamped before their transactions,
 commit one after another in some order.
 */
module ChatHistory {
  import opened Wrappers
  import opened ChatStore
  import opened ChatIntegrity
  import ProjectionClock

  datatype Commit = Commit(state: seq<Conversation>, stamp: int)

  /** The tables after the commits, in the order in which their transactions commit. */
  function Committed(t: Tables, commits: seq<Commit>): Tables {
    if commits == [] then t
    else
      var last := commits[|commits| - 1];
      Saved(Committed(t, commits[..|commits| - 1]), last.state, last.stamp)
  }

  ghost predicate Legal(commits: seq<Commit>, owner: MsgId -> ConvId) {
    forall commit | commit in commits :: AllOwned(commit.state, owner) && DistinctConversations(commit.state)
  }

  lemma {:induction false} RunKeepsAgreement(t: Tables, commits: seq<Commit>, owner: MsgId -> ConvId)
    requires Agree(t, owner) && Legal(commits, owner)
    ensures Agree(Committed(t, commits), owner)
  {
    hide Agree, AllOwned, Saved;
    if commits != [] {
      var init, last := commits[..|commits| - 1], commits[|commits| - 1];
      RunKeepsAgreement(t, init, owner);
      SaveKeepsAgreement(Committed(t, init), last.state, last.stamp, owner);
    }
  }

  /** The version of `id` that a save brings, if it has the message. */
  function Brought(commit: Commit, owner: MsgId -> ConvId, id: MsgId): Option<Row> {
    var entry := Entry(commit.state, owner(id));
    if entry.None? || !entry.value.messagesLoaded then None
    else
      var m := Find(entry.value.messages, id);
      if m.None? then None else Some(Incoming(entry.value.id, m.value, commit.stamp))
  }

  ghost predicate Keeps(commit: Commit, owner: MsgId -> ConvId, id: MsgId) {
    var entry := Entry(commit.state, owner(id));
    entry.Some? && (entry.value.messagesLoaded ==> Find(entry.value.messages, id).Some?)
  }

  lemma RowAfterCommit(t: Tables, commits: seq<Commit>, owner: MsgId -> ConvId, id: MsgId)
    requires Agree(t, owner) && Legal(commits, owner) && commits != []
    requires Keeps(commits[|commits| - 1], owner, id)
    ensures Lookup(Committed(t, commits).messages, id) ==
            var before := Lookup(Committed(t, commits[..|commits| - 1]).messages, id);
            var brought := Brought(commits[|commits| - 1], owner, id);
            if brought.None? then before else Some(Merged(brought.value, before))
  {
    hide Agree, AllOwned, Saved;
    var init, last := commits[..|commits| - 1], commits[|commits| - 1];
    RunKeepsAgreement(t, init, owner);
    SaveRow(Committed(t, init), last.state, last.stamp, owner, id);
  }

  lemma LegalInit(commits: seq<Commit>, owner: MsgId -> ConvId)
    requires Legal(commits, owner) && commits != []
    ensures Legal(commits[..|commits| - 1], owner)
  {
  }

  /** Over any run whose saves all keep a message, its effective stamp never goes down. */
  lemma {:induction false} StampNeverDecreases(t: Tables, commits: seq<Commit>, owner: MsgId -> ConvId, id: MsgId)
    requires Agree(t, owner) && Legal(commits, owner) && id in t.messages
    requires forall commit | commit in commits :: Keeps(commit, owner, id)
    ensures id in Committed(t, commits).messages
    ensures Effective(Committed(t, commits).messages[id]) >= Effective(t.messages[id])
  {
    hide Agree, Legal, Keeps, Brought, Saved;
    if commits != [] {
      var init := commits[..|commits| - 1];
      LegalInit(commits, owner);
      StampNeverDecreases(t, init, owner, id);
      RowAfterCommit(t, commits, owner, id);
      assert Lookup(Committed(t, commits).messages, id).Some?;
    }
  }

  /** Commit `k` has the largest stamp, and is the last to commit among those with it. */
  ghost predicate LatestMax(commits: seq<Commit>, k: nat) {
    && k < |commits|
    && forall j | 0 <= j < |commits| ::
         if j <= k then commits[j].stamp <= commits[k].stamp else commits[j].stamp < commits[k].stamp
  }

  ghost predicate AllBring(commits: seq<Commit>, owner: MsgId -> ConvId, id: MsgId) {
    forall commit | commit in commits :: commit.stamp > 0 && Brought(commit, owner, id).Some?
  }

  /** Of two versions brought to a stored row in turn, only the later stamped one matters. */
  lemma MergedTwice(later: Row, earlier: Row, stored: Option<Row>)
    requires later.projection > 0 && earlier.projection > 0
    ensures Merged(later, Some(Merged(earlier, stored)))
            == Merged(if later.projection >= earlier.projection then later else earlier, stored)
  {
  }

  // ------------------------------------------------------------------ any run of saves

  ghost predicate PositiveStamps(commits: seq<Commit>) {
    forall commit | commit in commits :: commit.stamp > 0
  }

  /** Commit `d` is the last that drops the message: it has not the conversation, or loads it without it. */
  ghost predicate LastDrop(commits: seq<Commit>, owner: MsgId -> ConvId, id: MsgId, d: int) {
    && -1 <= d < |commits| && (0 <= d ==> !Keeps(commits[d], owner, id))
    && forall j | d < j < |commits| :: Keeps(commits[j], owner, id)
  }

  /** Of the commits after `d` that bring the message, `k` has the largest stamp; `-1` if there is none. */
  ghost predicate NewestSince(commits: seq<Commit>, owner: MsgId -> ConvId, id: MsgId, d: int, k: int)
    requires -1 <= d < |commits|
  {
    if k == -1 then forall j | d < j < |commits| :: Brought(commits[j], owner, id).None?
    else
      && d < k < |commits| && Brought(commits[k], owner, id).Some?
      && forall j | d < j < |commits| && Brought(commits[j], owner, id).Some? ::
           if j <= k then commits[j].stamp <= commits[k].stamp else commits[j].stamp < commits[k].stamp
  }

  lemma {:induction false} FindLastDrop(commits: seq<Commit>, owner: MsgId -> ConvId, id: MsgId) returns (d: int)
    ensures LastDrop(commits, owner, id, d)
  {
    d := |commits| - 1;
    while 0 <= d && Keeps(commits[d], owner, id)
      invariant -1 <= d < |commits| && forall j | d < j < |commits| :: Keeps(commits[j], owner, id)
    {
      d := d - 1;
    }
  }

  lemma {:induction false} FindNewest(commits: seq<Commit>, owner: MsgId -> ConvId, id: MsgId, d: int)
    returns (k: int)
    requires -1 <= d < |commits|
    ensures NewestSince(commits, owner, id, d, k)
  {
    k := -1;
    for i := d + 1 to |commits|
      invariant k == -1 || (d < k < i && Brought(commits[k], owner, id).Some?)
      invariant k == -1 ==> forall j | d < j < i :: Brought(commits[j], owner, id).None?
      invariant k != -1 ==>
                  forall j | d < j < i && Brought(commits[j], owner, id).Some? ::
                    if j <= k then commits[j].stamp <= commits[k].stamp else commits[j].stamp < commits[k].stamp
    {
      if Brought(commits[i], owner, id).Some? && (k == -1 || commits[k].stamp <= commits[i].stamp) {
        k := i;
      }
    }
  }

  lemma DroppedByCommit(t: Tables, commits: seq<Commit>, owner: MsgId -> ConvId, id: MsgId)
    requires Agree(t, owner) && Legal(commits, owner) && commits != []
    requires !Keeps(commits[|commits| - 1], owner, id)
    ensures Lookup(Committed(t, commits).messages, id) == None
  {
    hide Agree, AllOwned, Saved;
    var init, last := commits[..|commits| - 1], commits[|commits| - 1];
    RunKeepsAgreement(t, init, owner);
    SaveRow(Committed(t, init), last.state, last.stamp, owner, id);
  }

  /** What a run starts from, as far as the message is concerned. */
  function Base(t: Tables, d: int, id: MsgId): Option<Row> {
    if 0 <= d then None else Lookup(t.messages, id)
  }

  function Outcome(commits: seq<Commit>, owner: MsgId -> ConvId, id: MsgId, k: int, base: Option<Row>): Option<Row>
    requires -1 <= k < |commits|
  {
    if k == -1 || Brought(commits[k], owner, id).None? then base
    else Some(Merged(Brought(commits[k], owner, id).value, base))
  }

  /**
   The row of a message after any run of saves. Saves that do not load its conversation do not matter. The
   last commit that drops it wipes out what came before, whatever the stamps; of the versions brought since,
   the one with the largest stamp is left, merged into the row stored at first if nothing dropped that.
   */
  lemma {:induction false} RowAfterRun(
      t: Tables, commits: seq<Commit>, owner: MsgId -> ConvId, id: MsgId, d: int, k: int)
    requires Agree(t, owner) && Legal(commits, owner) && PositiveStamps(commits)
    requires LastDrop(commits, owner, id, d) && NewestSince(commits, owner, id, d, k)
    ensures Lookup(Committed(t, commits).messages, id) == Outcome(commits, owner, id, k, Base(t, d, id))
  {
    hide Agree, Legal, Saved, Merged, Keeps, Brought, Committed;
    if commits == [] {
      NoCommits(t);
    } else if d == |commits| - 1 {
      DroppedByCommit(t, commits, owner, id);
    } else {
      var init, last := commits[..|commits| - 1], commits[|commits| - 1];
      LegalInit(commits, owner);
      RowAfterCommit(t, commits, owner, id);
      var k' := FindNewest(init, owner, id, d);
      RowAfterRun(t, init, owner, id, d, k');
      if Brought(last, owner, id).Some? {
        StampOf(commits, owner, id);
        if k' != -1 {
          MergedTwice(Brought(last, owner, id).value, Brought(init[k'], owner, id).value, Base(t, d, id));
        }
      }
      SameNewest(commits, owner, id, d, k, k');
    }
  }

  lemma NoCommits(t: Tables)
    ensures Committed(t, []) == t
  {
  }

  lemma StampOf(commits: seq<Commit>, owner: MsgId -> ConvId, id: MsgId)
    requires PositiveStamps(commits)
    ensures forall j | 0 <= j < |commits| && Brought(commits[j], owner, id).Some? ::
              Brought(commits[j], owner, id).value.projection == commits[j].stamp > 0
  {
  }

  /** The newest version of a longer run is its last one or that of the shorter run. */
  lemma SameNewest(commits: seq<Commit>, owner: MsgId -> ConvId, id: MsgId, d: int, k: int, k': int)
    requires commits != [] && -1 <= d < |commits| - 1
    requires NewestSince(commits, owner, id, d, k) && NewestSince(commits[..|commits| - 1], owner, id, d, k')
    ensures var n := |commits| - 1;
            k == if Brought(commits[n], owner, id).Some? && (k' == -1 || commits[k'].stamp <= commits[n].stamp) then n
                 else k'
  {
    hide Brought;
    var init, n := commits[..|commits| - 1], |commits| - 1;
    assert forall j | 0 <= j < n :: init[j] == commits[j];
  }

  /**
   Last writer wins, exactly: the version with the largest stamp is the one left if and only if no save that
   commits after it drops the message. An older save that does so removes a newer message.
   */
  lemma NewestSurvives(t: Tables, commits: seq<Commit>, owner: MsgId -> ConvId, id: MsgId, n: nat)
    requires Agree(t, owner) && Legal(commits, owner) && PositiveStamps(commits)
    requires n < |commits| && Brought(commits[n], owner, id).Some?
    requires forall j | 0 <= j < |commits| && j != n && Brought(commits[j], owner, id).Some? ::
               commits[j].stamp < commits[n].stamp
    requires id in t.messages ==> Effective(t.messages[id]) <= commits[n].stamp
    ensures Lookup(Committed(t, commits).messages, id) == Brought(commits[n], owner, id)
            <==> forall j | n < j < |commits| :: Keeps(commits[j], owner, id)
  {
    hide Agree, Legal, Saved, Committed;
    var d := FindLastDrop(commits, owner, id);
    var k := FindNewest(commits, owner, id, d);
    RowAfterRun(t, commits, owner, id, d, k);
    StampOf(commits, owner, id);
    assert Keeps(commits[n], owner, id);
    if d < n {
      assert k == n;
      StoredRowStays(Brought(commits[n], owner, id).value, Base(t, d, id));
    }
  }

  /** The save stamped 1 commits after the save stamped 2 and does not have its message yet. */
  lemma StaleSaveRemoves(t: Tables, newer: Commit, stale: Commit, m: Message, owner: MsgId -> ConvId)
    requires t == Tables(map[], map[], map[], map[], map[], map[], map[]) && m.id == "m" && owner("m") == "c"
    requires newer == Commit([Conversation("c", "", 0, [m], true, 1, 0)], 2)
    requires stale == Commit([Conversation("c", "", 0, [], true, 0, 0)], 1)
    ensures Agree(t, owner) && Legal([newer, stale], owner) && Brought(newer, owner, "m").Some?
    ensures Lookup(Committed(t, [newer, stale]).messages, "m") == None
  {
    var commits := [newer, stale];
    assert newer.state[0].messages == [m] && stale.state[0].messages == [];
    DroppedByCommit(t, commits, owner, "m");
  }

  /**
   Last writer wins: a message that every save brings ends as if only the save with the largest stamp had
   brought it, whatever the order of the commits. The row stored at first, if any, stays exactly if its
   effective stamp is larger still.
   */
  lemma {:induction false} LastWriterWins(t: Tables, commits: seq<Commit>, owner: MsgId -> ConvId, id: MsgId, k: nat)
    requires Agree(t, owner) && Legal(commits, owner)
    requires AllBring(commits, owner, id) && LatestMax(commits, k)
    ensures Lookup(Committed(t, commits).messages, id)
            == Some(Merged(Brought(commits[k], owner, id).value, Lookup(t.messages, id)))
  {
    hide Agree, Legal, Saved, Merged, Committed;
    RowAfterRun(t, commits, owner, id, -1, k);
  }

  /** What that means for the row stored at first. */
  lemma StoredRowStays(incoming: Row, stored: Option<Row>)
    requires incoming.projection > 0
    ensures Merged(incoming, stored) == incoming
            || (stored.Some? && Merged(incoming, stored) == stored.value
                && Effective(stored.value) > incoming.projection)
    ensures stored.Some? && Effective(stored.value) > incoming.projection ==> Merged(incoming, stored) == stored.value
  {
  }

  ghost predicate DistinctStamps(commits: seq<Commit>) {
    forall i, j | 0 <= i < j < |commits| :: commits[i].stamp != commits[j].stamp
  }

  ghost predicate AllKeep(commits: seq<Commit>, owner: MsgId -> ConvId, id: MsgId) {
    forall commit | commit in commits :: Keeps(commit, owner, id)
  }

  /** Saves with distinct stamps that do not drop a message leave the same version of it in every commit order. */
  lemma CommitOrderIsIrrelevant(
      t: Tables, commits: seq<Commit>, reordered: seq<Commit>, owner: MsgId -> ConvId, id: MsgId)
    requires Agree(t, owner) && Legal(commits, owner) && PositiveStamps(commits)
    requires AllKeep(commits, owner, id) && DistinctStamps(commits)
    requires multiset(commits) == multiset(reordered)
    ensures Lookup(Committed(t, commits).messages, id) == Lookup(Committed(t, reordered).messages, id)
  {
    hide Agree, Saved, Brought, Keeps, Committed, AllOwned;
    forall commit
      ensures commit in commits <==> commit in reordered
    {
      assert commit in multiset(commits) <==> commit in multiset(reordered);
    }
    var k := FindNewest(commits, owner, id, -1);
    var l := FindNewest(reordered, owner, id, -1);
    RowAfterRun(t, commits, owner, id, -1, k);
    RowAfterRun(t, reordered, owner, id, -1, l);
    SameNewestCommit(commits, reordered, owner, id, k, l);
  }

  lemma SameNewestCommit(
      commits: seq<Commit>, reordered: seq<Commit>, owner: MsgId -> ConvId, id: MsgId, k: int, l: int)
    requires NewestSince(commits, owner, id, -1, k) && NewestSince(reordered, owner, id, -1, l)
    requires DistinctStamps(commits) && forall commit :: commit in commits <==> commit in reordered
    ensures (k == -1 <==> l == -1) && (k != -1 ==> commits[k] == reordered[l])
  {
    hide Brought;
    if k != -1 {
      assert commits[k] in reordered;
      var i :| 0 <= i < |reordered| && reordered[i] == commits[k];
    }
    if l != -1 {
      assert reordered[l] in commits;
      var j :| 0 <= j < |commits| && commits[j] == reordered[l];
      assert commits[k].stamp == commits[j].stamp;
    }
  }

  /** Each commit uses its own one of the stamps the clock has issued. */
  ghost predicate StampedByClock(commits: seq<Commit>, issued: seq<ProjectionClock.I64>, turn: seq<nat>) {
    && |turn| == |commits|
    && (forall i | 0 <= i < |commits| :: turn[i] < |issued| && commits[i].stamp == issued[turn[i]])
    && (forall i, j | 0 <= i < j < |commits| :: turn[i] != turn[j])
  }

  /**
   Of concurrent saves that do not drop a message, the one that took its stamp last among those that bring it
   wins, in whatever order they commit.
   */
  lemma LastStampedWins(t: Tables, commits: seq<Commit>, issued: seq<ProjectionClock.I64>, turn: seq<nat>,
                        owner: MsgId -> ConvId, id: MsgId, k: nat)
    requires Agree(t, owner) && Legal(commits, owner) && PositiveStamps(commits) && AllKeep(commits, owner, id)
    requires ProjectionClock.Increasing(issued) && forall i | 0 <= i < |issued| :: issued[i] < ProjectionClock.I64_MAX
    requires StampedByClock(commits, issued, turn)
    requires k < |commits| && Brought(commits[k], owner, id).Some?
    requires forall i | 0 <= i < |commits| && Brought(commits[i], owner, id).Some? :: turn[i] <= turn[k]
    ensures Lookup(Committed(t, commits).messages, id)
            == Some(Merged(Brought(commits[k], owner, id).value, Lookup(t.messages, id)))
  {
    hide Agree, Legal, Keeps, Brought, Committed;
    forall i | 0 <= i < |commits| && i != k && Brought(commits[i], owner, id).Some?
      ensures commits[i].stamp < commits[k].stamp
    {
      assert turn[i] < turn[k];
      assert issued[turn[i]] < issued[turn[k]];
    }
    RowAfterRun(t, commits, owner, id, -1, k);
  }
}
