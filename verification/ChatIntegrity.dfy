/**
 What saving keeps: the agreement of row and index tables, and which version of a message stays.

 `owner` gives each message id its one conversation for life. A save is then described row by row:
 `RowAfter` says what the table holds for one id afterwards, from what it held before and from
 that id's conversation alone.
 */
module ChatIntegrity {
  import opened Wrappers
  import opened ChatStore

  ghost predicate Distinct<T>(s: seq<T>) {
    forall i, j :: 0 <= i < j < |s| ==> s[i] != s[j]
  }

  /** Every indexed id has its row and every row is indexed once, under its own conversation. */
  ghost predicate Agree(t: Tables, owner: MsgId -> ConvId) {
    && t.messageIndex.Keys == t.conversations.Keys
    && (forall c | c in t.messageIndex :: IndexRowAgrees(t, owner, c))
    && (forall id | id in t.messages :: owner(id) in t.messageIndex && id in t.messageIndex[owner(id)])
  }

  ghost predicate IndexRowAgrees(t: Tables, owner: MsgId -> ConvId, c: ConvId)
    requires c in t.messageIndex
  {
    && Distinct(t.messageIndex[c])
    && forall id | id in t.messageIndex[c] :: owner(id) == c && id in t.messages && t.messages[id].conversation == c
  }

  ghost predicate Owned(c: Conversation, owner: MsgId -> ConvId) {
    c.messagesLoaded ==>
      Distinct(Ids(c.messages)) && forall m | m in c.messages :: owner(m.id) == c.id
  }

  ghost predicate AllOwned(state: seq<Conversation>, owner: MsgId -> ConvId) {
    forall c | c in state :: Owned(c, owner)
  }

  ghost predicate DistinctConversations(state: seq<Conversation>) {
    forall i, j :: 0 <= i < j < |state| ==> state[i].id != state[j].id
  }

  // ------------------------------------------------------------------ one id through one save

  function Find(messages: seq<Message>, id: MsgId): (r: Option<Message>)
    ensures r.Some? ==> r.value in messages && r.value.id == id
    ensures r.None? ==> forall m | m in messages :: m.id != id
  {
    if messages == [] then None
    else if messages[|messages| - 1].id == id then Some(messages[|messages| - 1])
    else Find(messages[..|messages| - 1], id)
  }

  function Entry(state: seq<Conversation>, c: ConvId): (r: Option<Conversation>)
    ensures r.Some? ==> r.value in state && r.value.id == c
    ensures r.None? ==> forall e | e in state :: e.id != c
  {
    if state == [] then None
    else if state[|state| - 1].id == c then Some(state[|state| - 1])
    else Entry(state[..|state| - 1], c)
  }

  /** The row kept for `id`, from its row before and the entry of its conversation in the state. */
  function RowAfter(before: Option<Row>, entry: Option<Conversation>, id: MsgId, stamp: int): Option<Row> {
    if entry.None? then None
    else if !entry.value.messagesLoaded then before
    else
      var m := Find(entry.value.messages, id);
      if m.None? then None else Some(Merged(Incoming(entry.value.id, m.value, stamp), before))
  }

  lemma {:induction false} WrittenRow(rows: map<MsgId, Row>, c: ConvId, messages: seq<Message>, stamp: int, id: MsgId)
    requires Distinct(Ids(messages))
    ensures Lookup(Written(rows, c, messages, stamp), id) ==
            var m := Find(messages, id);
            if m.None? then Lookup(rows, id) else Some(Merged(Incoming(c, m.value, stamp), Lookup(rows, id)))
  {
    if messages != [] {
      var init, last := messages[..|messages| - 1], messages[|messages| - 1];
      assert Ids(init) == Ids(messages)[..|init|];
      WrittenRow(rows, c, init, stamp, id);
      assert Ids(messages)[|init|] == last.id;
      FoundIsId(init, last.id);
    }
  }

  lemma FoundIsId(messages: seq<Message>, id: MsgId)
    ensures id in Ids(messages) <==> Find(messages, id).Some?
  {
    if id in Ids(messages) {
      var i :| 0 <= i < |messages| && Ids(messages)[i] == id;
      assert messages[i] in messages && messages[i].id == id;
    }
    if Find(messages, id).Some? {
      var i :| 0 <= i < |messages| && messages[i] == Find(messages, id).value;
      assert Ids(messages)[i] == id;
    }
  }

  lemma SavedOneRow(t: Tables, c: Conversation, stamp: int, owner: MsgId -> ConvId, id: MsgId)
    requires Agree(t, owner) && Owned(c, owner)
    ensures Lookup(SavedOne(t, c, stamp).messages, id) ==
            if owner(id) == c.id then RowAfter(Lookup(t.messages, id), Some(c), id, stamp) else Lookup(t.messages, id)
  {
    if c.messagesLoaded {
      var current := IndexOf(t.messageIndex, c.id);
      assert IndexOf(WithIndexRow(t.messageIndex, c.id), c.id) == current;
      var kept := t.messages - (Elems(current) - Elems(Ids(c.messages)));
      assert SavedOne(t, c, stamp).messages == Written(kept, c.id, c.messages, stamp);
      WrittenRow(kept, c.id, c.messages, stamp, id);
      FoundIsId(c.messages, id);
      if id in current {
        assert owner(id) == c.id;
      }
    }
  }

  lemma SavedOneIndex(t: Tables, c: Conversation, stamp: int, b: ConvId)
    ensures IndexOf(SavedOne(t, c, stamp).messageIndex, b) ==
            if b == c.id && c.messagesLoaded then Ids(c.messages) else IndexOf(t.messageIndex, b)
    ensures SavedOne(t, c, stamp).messageIndex.Keys == t.messageIndex.Keys + {c.id}
    ensures SavedOne(t, c, stamp).conversations.Keys == t.conversations.Keys + {c.id}
  {
  }

  lemma SavedOneAgrees(t: Tables, c: Conversation, stamp: int, owner: MsgId -> ConvId)
    requires Agree(t, owner) && Owned(c, owner)
    ensures Agree(SavedOne(t, c, stamp), owner)
  {
    hide SavedOne;
    var t' := SavedOne(t, c, stamp);
    SavedOneIndex(t, c, stamp, c.id);
    forall b | b in t'.messageIndex
      ensures IndexRowAgrees(t', owner, b)
    {
      SavedOneIndex(t, c, stamp, b);
      forall id | id in t'.messageIndex[b]
        ensures owner(id) == b && id in t'.messages && t'.messages[id].conversation == b
      {
        SavedOneRow(t, c, stamp, owner, id);
        FoundIsId(c.messages, id);
        if id in t.messages {
          RowOwner(t, owner, id);
        }
        assert Lookup(t'.messages, id).Some?;
      }
    }
    forall id | id in t'.messages
      ensures owner(id) in t'.messageIndex && id in t'.messageIndex[owner(id)]
    {
      SavedOneIndex(t, c, stamp, owner(id));
      SavedOneRow(t, c, stamp, owner, id);
      FoundIsId(c.messages, id);
      assert Lookup(t'.messages, id).Some?;
    }
  }

  lemma RowOwner(t: Tables, owner: MsgId -> ConvId, id: MsgId)
    requires Agree(t, owner) && id in t.messages
    ensures t.messages[id].conversation == owner(id)
  {
    assert IndexRowAgrees(t, owner, owner(id));
  }

  lemma DroppedAgrees(t: Tables, gone: set<ConvId>, owner: MsgId -> ConvId)
    requires Agree(t, owner)
    ensures Agree(Dropped(t, gone), owner)
    ensures forall id ::
              Lookup(Dropped(t, gone).messages, id) == if owner(id) in gone then None else Lookup(t.messages, id)
  {
    var removed := Indexed(t.messageIndex, gone);
    forall id | id in removed
      ensures owner(id) in gone
    {
      var c :| c in gone && c in t.messageIndex && id in t.messageIndex[c];
      assert IndexRowAgrees(t, owner, c);
    }
    forall id | id in t.messages && owner(id) in gone
      ensures id in removed
    {
      assert owner(id) in gone && owner(id) in t.messageIndex && id in t.messageIndex[owner(id)];
    }
    forall c | c in t.messageIndex && c !in gone
      ensures IndexRowAgrees(Dropped(t, gone), owner, c)
    {
      assert IndexRowAgrees(t, owner, c);
    }
  }

  lemma {:induction false} SavedAllAgrees(t: Tables, state: seq<Conversation>, stamp: int, owner: MsgId -> ConvId)
    requires Agree(t, owner) && AllOwned(state, owner)
    ensures Agree(SavedAll(t, state, stamp), owner)
  {
    hide SavedOne, Agree, Owned;
    if state != [] {
      SavedAllAgrees(t, state[..|state| - 1], stamp, owner);
      SavedOneAgrees(SavedAll(t, state[..|state| - 1], stamp), state[|state| - 1], stamp, owner);
    }
  }

  lemma {:induction false} SavedAllRow(
      t: Tables, state: seq<Conversation>, stamp: int, owner: MsgId -> ConvId, id: MsgId)
    requires Agree(t, owner) && AllOwned(state, owner) && DistinctConversations(state)
    ensures Lookup(SavedAll(t, state, stamp).messages, id) ==
            var entry := Entry(state, owner(id));
            if entry.Some? then RowAfter(Lookup(t.messages, id), entry, id, stamp) else Lookup(t.messages, id)
  {
    hide SavedOne, Agree, Owned, RowAfter;
    if state != [] {
      var init, last := state[..|state| - 1], state[|state| - 1];
      SavedAllRow(t, init, stamp, owner, id);
      SavedAllAgrees(t, init, stamp, owner);
      SavedOneRow(SavedAll(t, init, stamp), last, stamp, owner, id);
      assert forall e | e in init :: e.id != last.id;
    }
  }

  /** What one save leaves for every id, given that ids keep their conversation. */
  lemma SaveRow(t: Tables, state: seq<Conversation>, stamp: int, owner: MsgId -> ConvId, id: MsgId)
    requires Agree(t, owner) && AllOwned(state, owner) && DistinctConversations(state)
    ensures Lookup(Saved(t, state, stamp).messages, id) ==
            RowAfter(Lookup(t.messages, id), Entry(state, owner(id)), id, stamp)
  {
    var gone := t.conversations.Keys - ConvIds(state);
    DroppedAgrees(t, gone, owner);
    SavedAllRow(Dropped(t, gone), state, stamp, owner, id);
  }

  /** Every save keeps index rows and message rows in agreement. */
  lemma SaveKeepsAgreement(t: Tables, state: seq<Conversation>, stamp: int, owner: MsgId -> ConvId)
    requires Agree(t, owner) && AllOwned(state, owner)
    ensures Agree(Saved(t, state, stamp), owner)
  {
    var gone := t.conversations.Keys - ConvIds(state);
    DroppedAgrees(t, gone, owner);
    SavedAllAgrees(Dropped(t, gone), state, stamp, owner);
  }

  // ------------------------------------------------------------------ conversations and indexes

  lemma {:induction false} SavedAllKeys(t: Tables, state: seq<Conversation>, stamp: int)
    ensures SavedAll(t, state, stamp).conversations.Keys == t.conversations.Keys + ConvIds(state)
  {
    hide SavedOne;
    if state != [] {
      var init, last := state[..|state| - 1], state[|state| - 1];
      SavedAllKeys(t, init, stamp);
      SavedOneIndex(SavedAll(t, init, stamp), last, stamp, last.id);
      assert state == init + [last];
      assert ConvIds(state) == ConvIds(init) + {last.id};
    }
  }

  lemma {:induction false} SavedAllIndex(t: Tables, state: seq<Conversation>, stamp: int, c: ConvId)
    requires DistinctConversations(state)
    ensures IndexOf(SavedAll(t, state, stamp).messageIndex, c) ==
            var entry := Entry(state, c);
            if entry.Some? && entry.value.messagesLoaded then Ids(entry.value.messages) else IndexOf(t.messageIndex, c)
  {
    hide SavedOne, IndexOf, Ids;
    if state != [] {
      var init, last := state[..|state| - 1], state[|state| - 1];
      SavedAllIndex(t, init, stamp, c);
      SavedOneIndex(SavedAll(t, init, stamp), last, stamp, c);
      assert forall e | e in init :: e.id != last.id;
    }
  }

  /** Afterwards there are exactly the conversations of the state, with their messages in the given order. */
  lemma SaveIndex(t: Tables, state: seq<Conversation>, stamp: int, c: ConvId)
    requires DistinctConversations(state)
    ensures Saved(t, state, stamp).conversations.Keys == ConvIds(state)
    ensures c in ConvIds(state) ==>
              var entry := Entry(state, c).value;
              IndexOf(Saved(t, state, stamp).messageIndex, c) ==
              if entry.messagesLoaded then Ids(entry.messages) else IndexOf(t.messageIndex, c)
  {
    SavedAllKeys(Dropped(t, t.conversations.Keys - ConvIds(state)), state, stamp);
    SavedAllIndex(Dropped(t, t.conversations.Keys - ConvIds(state)), state, stamp, c);
  }

  /** A conversation missing from the state leaves no message row; an unloaded one keeps all of its own. */
  lemma MissingAndUnloaded(t: Tables, state: seq<Conversation>, stamp: int, owner: MsgId -> ConvId, id: MsgId)
    requires Agree(t, owner) && AllOwned(state, owner) && DistinctConversations(state)
    ensures owner(id) !in ConvIds(state) ==> id !in Saved(t, state, stamp).messages
    ensures (exists c :: c in state && c.id == owner(id) && !c.messagesLoaded) ==>
              Lookup(Saved(t, state, stamp).messages, id) == Lookup(t.messages, id)
  {
    SaveRow(t, state, stamp, owner, id);
    var entry := Entry(state, owner(id));
    forall c | c in state && c.id == owner(id)
      ensures entry == Some(c)
    {
    }
    assert id in Saved(t, state, stamp).messages <==> Lookup(Saved(t, state, stamp).messages, id).Some?;
  }

  // ------------------------------------------------------------------ transcripts and diagnostics

  ghost predicate NoOrphans(t: Tables) {
    && t.transcripts.Keys <= Indexed(t.transcriptIndex, t.conversations.Keys)
    && t.diagnostics.Keys <= Indexed(t.diagnosticIndex, t.conversations.Keys)
  }

  lemma SavedOneEntries(t: Tables, e: Conversation, stamp: int, c: ConvId)
    ensures var t' := SavedOne(t, e, stamp);
            && t'.transcripts == t.transcripts && t'.diagnostics == t.diagnostics
            && IndexOf(t'.transcriptIndex, c) == IndexOf(t.transcriptIndex, c)
            && IndexOf(t'.diagnosticIndex, c) == IndexOf(t.diagnosticIndex, c)
  {
  }

  lemma {:induction false} SavedAllEntries(t: Tables, state: seq<Conversation>, stamp: int, c: ConvId)
    ensures var t' := SavedAll(t, state, stamp);
            && t'.transcripts == t.transcripts && t'.diagnostics == t.diagnostics
            && IndexOf(t'.transcriptIndex, c) == IndexOf(t.transcriptIndex, c)
            && IndexOf(t'.diagnosticIndex, c) == IndexOf(t.diagnosticIndex, c)
  {
    hide SavedOne, IndexOf;
    if state != [] {
      SavedAllEntries(t, state[..|state| - 1], stamp, c);
      SavedOneEntries(SavedAll(t, state[..|state| - 1], stamp), state[|state| - 1], stamp, c);
    }
  }

  /** The rows that go are those indexed under a conversation the state does not have; nothing else changes. */
  lemma SaveEntries(t: Tables, state: seq<Conversation>, stamp: int, c: ConvId)
    ensures var t' := Saved(t, state, stamp);
            var gone := t.conversations.Keys - ConvIds(state);
            && t'.transcripts == t.transcripts - Indexed(t.transcriptIndex, gone)
            && t'.diagnostics == t.diagnostics - Indexed(t.diagnosticIndex, gone)
            && IndexOf(t'.transcriptIndex, c) == (if c in gone then [] else IndexOf(t.transcriptIndex, c))
            && IndexOf(t'.diagnosticIndex, c) == (if c in gone then [] else IndexOf(t.diagnosticIndex, c))
  {
    SavedAllEntries(Dropped(t, t.conversations.Keys - ConvIds(state)), state, stamp, c);
  }

  lemma StillIndexed(index: map<ConvId, seq<EntryId>>, index': map<ConvId, seq<EntryId>>,
                     all: set<ConvId>, gone: set<ConvId>, kept: set<ConvId>, id: EntryId)
    requires id in Indexed(index, all) && id !in Indexed(index, gone)
    requires all - gone <= kept
    requires forall c | c !in gone :: IndexOf(index', c) == IndexOf(index, c)
    ensures id in Indexed(index', kept)
  {
    var c :| c in all && c in index && id in index[c];
    assert c !in gone;
    assert IndexOf(index', c) == index[c];
    assert c in kept && c in index' && id in index'[c];
  }

  /** No save leaves a transcript or diagnostic row whose conversation is gone. */
  lemma SaveLeavesNoOrphans(t: Tables, state: seq<Conversation>, stamp: int)
    requires NoOrphans(t) && DistinctConversations(state)
    ensures NoOrphans(Saved(t, state, stamp))
  {
    hide Saved, Indexed;
    var t' := Saved(t, state, stamp);
    var gone := t.conversations.Keys - ConvIds(state);
    SaveIndex(t, state, stamp, "");
    SaveEntries(t, state, stamp, "");
    forall c
      ensures c !in gone ==> IndexOf(t'.transcriptIndex, c) == IndexOf(t.transcriptIndex, c)
      ensures c !in gone ==> IndexOf(t'.diagnosticIndex, c) == IndexOf(t.diagnosticIndex, c)
    {
      SaveEntries(t, state, stamp, c);
    }
    forall id | id in t'.transcripts
      ensures id in Indexed(t'.transcriptIndex, t'.conversations.Keys)
    {
      StillIndexed(t.transcriptIndex, t'.transcriptIndex, t.conversations.Keys, gone, t'.conversations.Keys, id);
    }
    forall id | id in t'.diagnostics
      ensures id in Indexed(t'.diagnosticIndex, t'.conversations.Keys)
    {
      StillIndexed(t.diagnosticIndex, t'.diagnosticIndex, t.conversations.Keys, gone, t'.conversations.Keys, id);
    }
  }

  // ------------------------------------------------------------------ metadata

  function MetaAfter(stored: Option<Meta>, entry: Option<Conversation>): Option<Meta> {
    if entry.None? then stored else Some(KeptMeta(entry.value, stored))
  }

  function MetaRow(t: Tables, c: ConvId): Option<Meta> {
    if c in t.conversations then Some(t.conversations[c]) else None
  }

  lemma {:induction false} SavedAllMeta(t: Tables, state: seq<Conversation>, stamp: int, c: ConvId)
    requires DistinctConversations(state)
    ensures MetaRow(SavedAll(t, state, stamp), c) == MetaAfter(MetaRow(t, c), Entry(state, c))
  {
    if state != [] {
      var init, last := state[..|state| - 1], state[|state| - 1];
      SavedAllMeta(t, init, stamp, c);
      assert forall e | e in init :: e.id != last.id;
    }
  }

  ghost predicate CountsAgree(t: Tables) {
    && t.messageIndex.Keys == t.conversations.Keys
    && forall c | c in t.messageIndex :: t.conversations[c].messageCount == |t.messageIndex[c]|
  }

  ghost predicate StubsAreKnown(t: Tables, state: seq<Conversation>) {
    forall c | c in state && !c.messagesLoaded :: c.id in t.conversations || c.messageCount == 0
  }

  /**
   A save keeps every stored count equal to the number of indexed messages exactly when no
   unloaded conversation that is new to the database claims to have messages.
   */
  lemma SaveKeepsCounts(t: Tables, state: seq<Conversation>, stamp: int, owner: MsgId -> ConvId)
    requires CountsAgree(t) && Agree(t, owner) && AllOwned(state, owner) && DistinctConversations(state)
    ensures CountsAgree(Saved(t, state, stamp)) <==> StubsAreKnown(t, state)
  {
    hide Saved;
    var t' := Saved(t, state, stamp);
    SaveKeepsAgreement(t, state, stamp, owner);
    forall c | c in state
      ensures c.id in t'.messageIndex
      ensures t'.conversations[c.id].messageCount == |t'.messageIndex[c.id]| <==>
              c.messagesLoaded || c.id in t.conversations || c.messageCount == 0
    {
      CountOf(t, state, stamp, c);
    }
    SaveIndex(t, state, stamp, "");
    if StubsAreKnown(t, state) {
      forall b | b in t'.messageIndex
        ensures t'.conversations[b].messageCount == |t'.messageIndex[b]|
      {
        var c :| c in state && c.id == b;
      }
    }
  }

  /**
   The metadata row left by a save. A conversation that is not loaded keeps the counts stored for it, a turn
   count only if there is one, and the later of the two updates; if nothing is stored its own are taken.
   */
  lemma SaveMeta(t: Tables, state: seq<Conversation>, stamp: int, c: Conversation)
    requires DistinctConversations(state) && c in state
    ensures MetaRow(Saved(t, state, stamp), c.id).Some?
    ensures var stored, meta := MetaRow(t, c.id), MetaRow(Saved(t, state, stamp), c.id).value;
            && meta.title == c.title
            && (c.messagesLoaded ==>
                  meta == Meta(c.title, c.updatedAt, |c.messages|, Some(MarkedTurns(Marks(c.messages)))))
            && (!c.messagesLoaded && stored.None? ==>
                  meta == Meta(c.title, c.updatedAt, c.messageCount, Some(c.turnCount)))
            && (!c.messagesLoaded && stored.Some? ==>
                  && meta.messageCount == stored.value.messageCount
                  && (stored.value.turnCount.Some? ==> meta.turnCount == stored.value.turnCount)
                  && (stored.value.turnCount.None? ==> meta.turnCount == Some(c.turnCount))
                  && meta.updatedAt >= c.updatedAt && meta.updatedAt >= stored.value.updatedAt
                  && (meta.updatedAt == c.updatedAt || meta.updatedAt == stored.value.updatedAt))
  {
    SavedMeta(t, state, stamp, c);
  }

  lemma SavedMeta(t: Tables, state: seq<Conversation>, stamp: int, c: Conversation)
    requires DistinctConversations(state) && c in state
    ensures MetaRow(Saved(t, state, stamp), c.id) == Some(KeptMeta(c, MetaRow(t, c.id)))
  {
    var dropped := Dropped(t, t.conversations.Keys - ConvIds(state));
    assert Entry(state, c.id) == Some(c);
    SavedAllMeta(dropped, state, stamp, c.id);
    assert MetaRow(dropped, c.id) == MetaRow(t, c.id);
  }

  /** One new conversation that is not loaded and claims three messages. */
  lemma CountsExample(c: Conversation, stamp: int, owner: MsgId -> ConvId)
    requires c == Conversation("c", "", 0, [], false, 3, 0)
    ensures var empty := Tables(map[], map[], map[], map[], map[], map[], map[]);
            CountsAgree(empty) && Agree(empty, owner) && !CountsAgree(Saved(empty, [c], stamp))
  {
    var empty := Tables(map[], map[], map[], map[], map[], map[], map[]);
    assert c in [c] && AllOwned([c], owner);
    SaveKeepsCounts(empty, [c], stamp, owner);
    hide Saved;
  }

  lemma CountOf(t: Tables, state: seq<Conversation>, stamp: int, c: Conversation)
    requires CountsAgree(t) && DistinctConversations(state) && c in state
    requires Saved(t, state, stamp).messageIndex.Keys == Saved(t, state, stamp).conversations.Keys
    ensures c.id in Saved(t, state, stamp).messageIndex && c.id in Saved(t, state, stamp).conversations
    ensures Saved(t, state, stamp).conversations[c.id].messageCount == |Saved(t, state, stamp).messageIndex[c.id]| <==>
            c.messagesLoaded || c.id in t.conversations || c.messageCount == 0
  {
    var dropped := Dropped(t, t.conversations.Keys - ConvIds(state));
    assert Entry(state, c.id) == Some(c);
    SaveIndex(t, state, stamp, c.id);
    SavedAllMeta(dropped, state, stamp, c.id);
    assert MetaRow(dropped, c.id) == MetaRow(t, c.id);
  }
}
