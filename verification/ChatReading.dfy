/** What is saved is what is read back. */
module ChatReading {
  import opened Wrappers
  import opened ChatStore
  import opened ChatIntegrity

  ghost predicate InTimeOrder(messages: seq<Message>) {
    forall i, j | 0 <= i < j < |messages| :: messages[i].timestamp <= messages[j].timestamp
  }

  /** The messages of one timestamp, in their order in `messages`. */
  function At(messages: seq<Message>, time: int): seq<Message> {
    if messages == [] then []
    else
      var last := messages[|messages| - 1];
      At(messages[..|messages| - 1], time) + if last.timestamp == time then [last] else []
  }

  lemma {:induction false} InsertedAll(sorted: seq<Message>, m: Message)
    ensures multiset(InsertByTime(sorted, m)) == multiset(sorted) + multiset{m}
  {
    if sorted != [] && sorted[|sorted| - 1].timestamp > m.timestamp {
      InsertedAll(sorted[..|sorted| - 1], m);
      assert sorted == sorted[..|sorted| - 1] + [sorted[|sorted| - 1]];
    }
  }

  lemma {:induction false} InsertedInOrder(sorted: seq<Message>, m: Message)
    requires InTimeOrder(sorted)
    ensures InTimeOrder(InsertByTime(sorted, m))
    ensures forall i | 0 <= i < |InsertByTime(sorted, m)| ::
              InsertByTime(sorted, m)[i].timestamp <= m.timestamp ||
              (sorted != [] && InsertByTime(sorted, m)[i].timestamp <= sorted[|sorted| - 1].timestamp)
  {
    if sorted != [] && sorted[|sorted| - 1].timestamp > m.timestamp {
      InsertedInOrder(sorted[..|sorted| - 1], m);
    }
  }

  lemma AtPush(messages: seq<Message>, m: Message, time: int)
    ensures At(messages + [m], time) == At(messages, time) + if m.timestamp == time then [m] else []
  {
    assert (messages + [m])[..|messages|] == messages;
  }

  lemma {:induction false} InsertedBehindItsEquals(sorted: seq<Message>, m: Message, time: int)
    ensures At(InsertByTime(sorted, m), time) == At(sorted, time) + if m.timestamp == time then [m] else []
  {
    if sorted == [] || sorted[|sorted| - 1].timestamp <= m.timestamp {
      AtPush(sorted, m, time);
    } else {
      var init, last := sorted[..|sorted| - 1], sorted[|sorted| - 1];
      InsertedBehindItsEquals(init, m, time);
      AtPush(InsertByTime(init, m), last, time);
    }
  }

  /** The order in which messages are read: sorted, nothing lost, and stable within a timestamp. */
  lemma {:induction false} ReadInTimeOrder(messages: seq<Message>, time: int)
    ensures InTimeOrder(ByTime(messages))
    ensures multiset(ByTime(messages)) == multiset(messages)
    ensures At(ByTime(messages), time) == At(messages, time)
  {
    hide InTimeOrder, InsertByTime;
    if messages == [] {
      Empty();
    } else {
      var init, last := messages[..|messages| - 1], messages[|messages| - 1];
      ReadInTimeOrder(init, time);
      InsertedInOrder(ByTime(init), last);
      InsertedAll(ByTime(init), last);
      InsertedBehindItsEquals(ByTime(init), last, time);
      assert messages == init + [last];
    }
  }

  lemma Empty()
    ensures InTimeOrder([])
  {
  }

  lemma InsertedLast(sorted: seq<Message>, m: Message)
    requires InTimeOrder(sorted + [m])
    ensures InTimeOrder(sorted) && InsertByTime(sorted, m) == sorted + [m]
  {
    assert (sorted + [m])[|sorted|] == m;
    assert forall i | 0 <= i < |sorted| :: (sorted + [m])[i] == sorted[i];
  }

  lemma {:induction false} SortedStays(messages: seq<Message>)
    requires InTimeOrder(messages)
    ensures ByTime(messages) == messages
  {
    hide InsertByTime, InTimeOrder;
    if messages != [] {
      var init, last := messages[..|messages| - 1], messages[|messages| - 1];
      assert messages == init + [last];
      InsertedLast(init, last);
      SortedStays(init);
    }
  }

  lemma {:induction false} CollectedAll(rows: map<MsgId, Row>, messages: seq<Message>)
    requires forall m | m in messages :: m.id in rows && MessageOf(m.id, rows[m.id]) == m
    ensures Collected(rows, Ids(messages)) == messages
  {
    if messages != [] {
      var init, last := messages[..|messages| - 1], messages[|messages| - 1];
      CollectedAll(rows, init);
      assert Ids(messages)[..|init|] == Ids(init);
      assert messages == init + [last];
    }
  }

  lemma FindOwn(messages: seq<Message>, m: Message)
    requires Distinct(Ids(messages)) && m in messages
    ensures Find(messages, m.id) == Some(m)
  {
    var found := Find(messages, m.id);
    var i :| 0 <= i < |messages| && messages[i] == m;
    var j :| 0 <= j < |messages| && messages[j] == found.value;
    assert Ids(messages)[i] == Ids(messages)[j];
  }

  /** The conversation's own counts are those of its messages. */
  predicate WellCounted(c: Conversation) {
    c.messagesLoaded && c.messageCount == |c.messages| && c.turnCount == TurnCount(c.messages)
  }

  /**
   Round trip: a loaded conversation is read back, messages in order of time, after a save, provided no
   stored version of its messages is newer than the save. In order already, it is read back unchanged.
   */
  lemma SaveThenRead(t: Tables, state: seq<Conversation>, stamp: int, owner: MsgId -> ConvId, c: Conversation)
    requires Agree(t, owner) && AllOwned(state, owner) && DistinctConversations(state)
    requires stamp > 0 && c in state && c.messagesLoaded
    requires forall m | m in c.messages && m.id in t.messages :: Effective(t.messages[m.id]) <= stamp
    ensures Read(Saved(t, state, stamp), c.id) == Some(WithMessages(c.id, MetaOf(c), ByTime(c.messages)))
    ensures WellCounted(c) && InTimeOrder(c.messages) ==> Read(Saved(t, state, stamp), c.id) == Some(c)
  {
    var t' := Saved(t, state, stamp);
    assert Entry(state, c.id) == Some(c);
    SaveIndex(t, state, stamp, c.id);
    SaveMeta(t, state, stamp, c);
    hide Saved, ByTime, TurnCount, Collected;
    forall m | m in c.messages
      ensures m.id in t'.messages && MessageOf(m.id, t'.messages[m.id]) == m
    {
      assert Owned(c, owner);
      FindOwn(c.messages, m);
      SaveRow(t, state, stamp, owner, m.id);
      assert Lookup(t'.messages, m.id) == Some(Incoming(c.id, m, stamp));
    }
    CollectedAll(t'.messages, c.messages);
    if InTimeOrder(c.messages) {
      SortedStays(c.messages);
    }
  }

  /** A conversation the save did not load reads as before, with the new title and the later update. */
  lemma UnloadedReadsTheSame(t: Tables, state: seq<Conversation>, stamp: int, owner: MsgId -> ConvId, c: Conversation)
    requires Agree(t, owner) && AllOwned(state, owner) && DistinctConversations(state)
    requires c in state && !c.messagesLoaded && c.id in t.conversations
    ensures var before := Read(t, c.id).value;
            Read(Saved(t, state, stamp), c.id)
            == Some(before.(title := c.title,
                            updatedAt := if c.updatedAt >= before.updatedAt then c.updatedAt else before.updatedAt))
  {
    var t' := Saved(t, state, stamp);
    assert Entry(state, c.id) == Some(c);
    SaveIndex(t, state, stamp, c.id);
    SaveMeta(t, state, stamp, c);
    UnloadedCollected(t, state, stamp, owner, c);
    hide Saved, ByTime, TurnCount, Collected, Agree, AllOwned, DistinctConversations, Entry;
  }

  lemma UnloadedCollected(t: Tables, state: seq<Conversation>, stamp: int, owner: MsgId -> ConvId, c: Conversation)
    requires Agree(t, owner) && AllOwned(state, owner) && DistinctConversations(state)
    requires c in state && !c.messagesLoaded && c.id in t.conversations
    ensures Collected(Saved(t, state, stamp).messages, t.messageIndex[c.id])
            == Collected(t.messages, t.messageIndex[c.id])
  {
    var t', ids := Saved(t, state, stamp), t.messageIndex[c.id];
    assert Entry(state, c.id) == Some(c);
    hide Saved, Collected;
    forall id | id in ids
      ensures Lookup(t'.messages, id) == Lookup(t.messages, id)
    {
      assert IndexRowAgrees(t, owner, c.id);
      SaveRow(t, state, stamp, owner, id);
    }
    SameCollected(t.messages, t'.messages, ids);
  }

  lemma {:induction false} SameCollected(rows: map<MsgId, Row>, rows': map<MsgId, Row>, ids: seq<MsgId>)
    requires forall id | id in ids :: Lookup(rows', id) == Lookup(rows, id)
    ensures Collected(rows', ids) == Collected(rows, ids)
  {
    if ids != [] {
      var id := ids[|ids| - 1];
      SameCollected(rows, rows', ids[..|ids| - 1]);
      assert Lookup(rows', id) == Lookup(rows, id);
      assert id in rows' <==> id in rows;
    }
  }
}
