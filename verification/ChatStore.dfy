/**
 The chat database: saving a snapshot of all conversations in one write transaction.

 `Tables` are the rows and the index tables. The methods of the store change them the way the
 transaction does, row by row; the functions say what the tables are afterwards.
 */
module ChatStore {
  import opened Wrappers

  type ConvId = string
  type MsgId = string
  type EntryId = string

  /** A stored message; `projection` is 0 in rows written by older versions. */
  datatype Row = Row(conversation: ConvId, timestamp: int, projection: int, body: string, mark: TurnMark)

  datatype Meta = Meta(title: string, updatedAt: int, messageCount: nat, turnCount: Option<nat>)

  /**
   What decides how many turns a message counts for: whether the user wrote it, the number of user messages
   if it is the summary of a conversation, and what an anchor remembers of the messages it replaces.
   */
  datatype TurnMark = TurnMark(user: bool, summary: Option<nat>, anchor: Option<Anchor>)

  datatype Anchor = Anchor(userCount: Option<nat>, originals: Originals, originalCount: Option<nat>)

  datatype Originals = Forgotten | Remembered(marks: seq<TurnMark>)

  datatype Message = Message(id: MsgId, timestamp: int, body: string, mark: TurnMark)

  datatype Conversation = Conversation(
    id: ConvId, title: string, updatedAt: int, messages: seq<Message>, messagesLoaded: bool,
    messageCount: nat, turnCount: nat)

  datatype Tables = Tables(
    conversations: map<ConvId, Meta>,
    messages: map<MsgId, Row>, messageIndex: map<ConvId, seq<MsgId>>,
    transcripts: map<EntryId, string>, transcriptIndex: map<ConvId, seq<EntryId>>,
    diagnostics: map<EntryId, string>, diagnosticIndex: map<ConvId, seq<EntryId>>)

  // ------------------------------------------------------------------ which row wins

  /** `effective_projection_updated_at` */
  function Effective(row: Row): int {
    if row.projection > 0 then row.projection else row.timestamp
  }

  /** `should_replace_projection` */
  predicate ShouldReplace(incoming: Row, existing: Row) {
    if incoming.projection <= 0 && existing.projection > 0 then false
    else if incoming.projection > 0 && existing.projection <= 0 then incoming.projection >= existing.timestamp
    else Effective(incoming) >= Effective(existing)
  }

  function Merged(incoming: Row, existing: Option<Row>): Row {
    if existing.Some? && !ShouldReplace(incoming, existing.value) then existing.value else incoming
  }

  function Lookup(rows: map<MsgId, Row>, id: MsgId): Option<Row> {
    if id in rows then Some(rows[id]) else None
  }

  /** The effective stamp of a stored row never goes down, legacy rows included. */
  lemma EffectiveNeverDecreases(incoming: Row, existing: Row)
    ensures Effective(Merged(incoming, Some(existing))) >= Effective(existing)
  {
  }

  // ------------------------------------------------------------------ what a save does

  function Incoming(c: ConvId, m: Message, stamp: int): Row {
    Row(c, m.timestamp, stamp, m.body, m.mark)
  }

  function Elems<T(==)>(s: seq<T>): set<T> {
    set x | x in s
  }

  lemma ElemsPush<T>(s: seq<T>, i: nat)
    requires i < |s|
    ensures Elems(s[..i + 1]) == Elems(s[..i]) + {s[i]}
  {
    assert s[..i + 1] == s[..i] + [s[i]];
  }

  function Ids(messages: seq<Message>): seq<MsgId> {
    seq(|messages|, i requires 0 <= i < |messages| => messages[i].id)
  }

  /** The messages an anchor replaces are all remembered, as far as it knows. */
  predicate Complete(a: Anchor) {
    a.originals.Remembered? && (a.originalCount.None? || a.originalCount.value <= |a.originals.marks|)
  }

  /**
   A summary counts for the user messages it stands for; an anchor for those it recorded, else for those among
   the messages it remembers if these are all, else for half of the messages it replaced, rounded up.
   */
  function Turns(mark: TurnMark): nat {
    if mark.summary.Some? then mark.summary.value
    else if mark.anchor.Some? then
      var a := mark.anchor.value;
      if a.userCount.Some? then a.userCount.value
      else if Complete(a) then MarkedTurns(a.originals.marks)
      else if a.originalCount.Some? then (a.originalCount.value + 1) / 2
      else 0
    else if mark.user then 1
    else 0
  }

  function MarkedTurns(marks: seq<TurnMark>): nat {
    if marks == [] then 0 else MarkedTurns(marks[..|marks| - 1]) + Turns(marks[|marks| - 1])
  }

  function Marks(messages: seq<Message>): seq<TurnMark> {
    seq(|messages|, i requires 0 <= i < |messages| => messages[i].mark)
  }

  function TurnCount(messages: seq<Message>): nat {
    MarkedTurns(Marks(messages))
  }

  function MetaOf(c: Conversation): Meta {
    if c.messagesLoaded then Meta(c.title, c.updatedAt, |c.messages|, Some(TurnCount(c.messages)))
    else Meta(c.title, c.updatedAt, c.messageCount, Some(c.turnCount))
  }

  /** Writing the messages of one conversation, first to last. */
  function Written(rows: map<MsgId, Row>, c: ConvId, messages: seq<Message>, stamp: int): map<MsgId, Row> {
    if messages == [] then rows
    else
      var before := Written(rows, c, messages[..|messages| - 1], stamp);
      var last := messages[|messages| - 1];
      before[last.id := Merged(Incoming(c, last, stamp), Lookup(before, last.id))]
  }

  function IndexOf<T>(index: map<ConvId, seq<T>>, c: ConvId): seq<T> {
    if c in index then index[c] else []
  }

  function WithIndexRow<T>(index: map<ConvId, seq<T>>, c: ConvId): map<ConvId, seq<T>> {
    if c in index then index else index[c := []]
  }

  /** `replace_conversation_messages` */
  function Replaced(t: Tables, c: Conversation, stamp: int): Tables {
    var kept := t.messages - (Elems(IndexOf(t.messageIndex, c.id)) - Elems(Ids(c.messages)));
    t.(messages := Written(kept, c.id, c.messages, stamp),
       messageIndex := t.messageIndex[c.id := Ids(c.messages)],
       conversations := t.conversations[c.id := MetaOf(c).(messageCount := |c.messages|)])
  }

  /** The metadata row of a conversation whose messages are not loaded keeps its stored counts. */
  function KeptMeta(c: Conversation, stored: Option<Meta>): Meta {
    var meta := MetaOf(c);
    if c.messagesLoaded || stored.None? then meta
    else meta.(messageCount := stored.value.messageCount,
               turnCount := if stored.value.turnCount.Some? then stored.value.turnCount else meta.turnCount,
               updatedAt := if meta.updatedAt >= stored.value.updatedAt then meta.updatedAt else stored.value.updatedAt)
  }

  function SavedOne(t: Tables, c: Conversation, stamp: int): Tables {
    var stored := if c.id in t.conversations then Some(t.conversations[c.id]) else None;
    var t1 := t.(conversations := t.conversations[c.id := KeptMeta(c, stored)],
                 messageIndex := WithIndexRow(t.messageIndex, c.id),
                 transcriptIndex := WithIndexRow(t.transcriptIndex, c.id),
                 diagnosticIndex := WithIndexRow(t.diagnosticIndex, c.id));
    if c.messagesLoaded then Replaced(t1, c, stamp) else t1
  }

  function SavedAll(t: Tables, cs: seq<Conversation>, stamp: int): Tables {
    if cs == [] then t else SavedOne(SavedAll(t, cs[..|cs| - 1], stamp), cs[|cs| - 1], stamp)
  }

  function Indexed<T>(index: map<ConvId, seq<T>>, cs: set<ConvId>): set<T> {
    set c, id | c in cs && c in index && id in index[c] :: id
  }

  /** Deleting conversations removes their metadata, their index rows and every row these index. */
  function Dropped(t: Tables, gone: set<ConvId>): Tables {
    Tables(t.conversations - gone,
           t.messages - Indexed(t.messageIndex, gone), t.messageIndex - gone,
           t.transcripts - Indexed(t.transcriptIndex, gone), t.transcriptIndex - gone,
           t.diagnostics - Indexed(t.diagnosticIndex, gone), t.diagnosticIndex - gone)
  }

  function ConvIds(state: seq<Conversation>): set<ConvId> {
    set c | c in state :: c.id
  }

  function Saved(t: Tables, state: seq<Conversation>, stamp: int): Tables {
    SavedAll(Dropped(t, t.conversations.Keys - ConvIds(state)), state, stamp)
  }

  // ------------------------------------------------------------------ what a read returns

  function MessageOf(id: MsgId, row: Row): Message {
    Message(id, row.timestamp, row.body, row.mark)
  }

  /** The rows of an index row, in index order; an id without a row is passed over. */
  function Collected(rows: map<MsgId, Row>, ids: seq<MsgId>): seq<Message> {
    if ids == [] then []
    else
      var id := ids[|ids| - 1];
      Collected(rows, ids[..|ids| - 1]) + if id in rows then [MessageOf(id, rows[id])] else []
  }

  /** Puts `m` behind every message that is not later. */
  function InsertByTime(sorted: seq<Message>, m: Message): seq<Message> {
    if sorted == [] || sorted[|sorted| - 1].timestamp <= m.timestamp then sorted + [m]
    else InsertByTime(sorted[..|sorted| - 1], m) + [sorted[|sorted| - 1]]
  }

  /** The stable sort by timestamp. */
  function ByTime(messages: seq<Message>): seq<Message> {
    if messages == [] then [] else InsertByTime(ByTime(messages[..|messages| - 1]), messages[|messages| - 1])
  }

  function WithMessages(c: ConvId, meta: Meta, messages: seq<Message>): Conversation {
    Conversation(c, meta.title, meta.updatedAt, messages, true, |messages|, TurnCount(messages))
  }

  function Read(t: Tables, c: ConvId): Option<Conversation> {
    if c !in t.conversations then None
    else Some(WithMessages(c, t.conversations[c], ByTime(Collected(t.messages, IndexOf(t.messageIndex, c)))))
  }

  // ------------------------------------------------------------------ the store

  /** Removes the rows named by one index row. */
  method RemoveRows<V>(rows0: map<string, V>, ids: seq<string>) returns (rows: map<string, V>)
    ensures rows == rows0 - Elems(ids)
  {
    rows := rows0;
    for i := 0 to |ids|
      invariant rows == rows0 - Elems(ids[..i])
    {
      ElemsPush(ids, i);
      rows := rows - {ids[i]};
    }
    assert ids[..|ids|] == ids;
  }

  /** Removes the rows of the messages a conversation no longer has. */
  method RemoveStale(rows0: map<MsgId, Row>, current: seq<MsgId>, retained: seq<MsgId>) returns (rows: map<MsgId, Row>)
    ensures rows == rows0 - (Elems(current) - Elems(retained))
  {
    rows := rows0;
    for i := 0 to |current|
      invariant rows == rows0 - (Elems(current[..i]) - Elems(retained))
    {
      ElemsPush(current, i);
      if current[i] !in retained {
        rows := rows - {current[i]};
      }
    }
    assert current[..|current|] == current;
  }

  method WriteMessages(rows0: map<MsgId, Row>, c: Conversation, stamp: int) returns (rows: map<MsgId, Row>)
    ensures rows == Written(rows0, c.id, c.messages, stamp)
  {
    rows := rows0;
    for i := 0 to |c.messages|
      invariant rows == Written(rows0, c.id, c.messages[..i], stamp)
    {
      assert c.messages[..i + 1][..i] == c.messages[..i];
      var persisted := Incoming(c.id, c.messages[i], stamp);
      var existing := Lookup(rows, c.messages[i].id);
      if existing.None? || ShouldReplace(persisted, existing.value) {
        rows := rows[c.messages[i].id := persisted];
      } else {
        assert rows[c.messages[i].id := existing.value] == rows;
      }
    }
    assert c.messages[..|c.messages|] == c.messages;
  }

  /** `ai_conversation_turn_count`, without saturation; it counts the snapshots of an anchor the same way. */
  method CountTurns(marks: seq<TurnMark>) returns (turns: nat)
    ensures turns == MarkedTurns(marks)
    decreases marks
  {
    turns := 0;
    for i := 0 to |marks|
      invariant turns == MarkedTurns(marks[..i])
    {
      assert marks[..i + 1][..i] == marks[..i];
      var more := CountOne(marks[i]);
      turns := turns + more;
    }
    assert marks[..|marks|] == marks;
  }

  /** What the loop of `ai_conversation_turn_count` adds for one message. */
  method CountOne(mark: TurnMark) returns (turns: nat)
    ensures turns == Turns(mark)
    decreases mark
  {
    if mark.summary.Some? {
      return mark.summary.value;
    }
    if mark.anchor.Some? {
      var a := mark.anchor.value;
      var compacted := a.userCount;
      if compacted.None? && a.originals.Remembered? {
        if a.originalCount.None? || a.originalCount.value <= |a.originals.marks| {
          var counted := CountTurns(a.originals.marks);
          compacted := Some(counted);
        }
      }
      if compacted.Some? {
        return compacted.value;
      }
      return if a.originalCount.Some? then (a.originalCount.value + 1) / 2 else 0;
    }
    turns := if mark.user then 1 else 0;
  }

  /** Replacing messages by an anchor that remembers them all, or their number of turns, keeps the count. */
  lemma CompactionKeepsTurns(before: seq<TurnMark>, compacted: seq<TurnMark>, after: seq<TurnMark>, anchor: TurnMark)
    requires anchor.summary.None? && anchor.anchor.Some?
    requires var a := anchor.anchor.value;
             a.userCount == Some(MarkedTurns(compacted))
             || (a.userCount.None? && Complete(a) && a.originals.marks == compacted)
    ensures MarkedTurns(before + [anchor] + after) == MarkedTurns(before + compacted + after)
  {
    TurnsAppend(before + [anchor], after);
    TurnsAppend(before + compacted, after);
    TurnsAppend(before, [anchor]);
    TurnsAppend(before, compacted);
    assert MarkedTurns([anchor]) == Turns(anchor) by {
      assert [anchor][..0] == [];
    }
  }

  /** Without summaries and anchors the turns are the messages of the user. */
  lemma {:induction false} PlainTurns(marks: seq<TurnMark>)
    requires forall i | 0 <= i < |marks| :: marks[i].summary.None? && marks[i].anchor.None?
    ensures MarkedTurns(marks) == |set i | 0 <= i < |marks| && marks[i].user|
  {
    if marks != [] {
      var n := |marks| - 1;
      var init := marks[..n];
      PlainTurns(init);
      var before, after := set i | 0 <= i < n && init[i].user, set i | 0 <= i < |marks| && marks[i].user;
      assert after == before + if marks[n].user then {n} else {};
    }
  }

  /**
   A summary adds the number of user messages it stands for. An anchor that neither recorded how many it
   replaced nor remembers them all adds half of the messages it replaced, rounded up, or nothing if it does not
   know how many these were.
   */
  lemma SummariesAndAnchorsCount(before: seq<TurnMark>, mark: TurnMark, after: seq<TurnMark>)
    ensures var others := MarkedTurns(before) + MarkedTurns(after);
            var all := MarkedTurns(before + [mark] + after);
            && (mark.summary.Some? ==> all == others + mark.summary.value)
            && (mark.summary.None? && mark.anchor.Some? && mark.anchor.value.userCount.None? ==>
                  var a := mark.anchor.value;
                  && (a.originals.Forgotten? && a.originalCount.None? ==> all == others)
                  && (a.originalCount.Some?
                      && (a.originals.Forgotten? || |a.originals.marks| < a.originalCount.value) ==>
                        a.originalCount.value <= 2 * (all - others) <= a.originalCount.value + 1))
  {
    TurnsAppend(before + [mark], after);
    TurnsAppend(before, [mark]);
    assert [mark][..0] == [] && MarkedTurns([mark]) == Turns(mark);
  }

  lemma {:induction false} TurnsAppend(a: seq<TurnMark>, b: seq<TurnMark>)
    ensures MarkedTurns(a + b) == MarkedTurns(a) + MarkedTurns(b)
  {
    if b == [] {
      assert a + b == a;
    } else {
      var init := b[..|b| - 1];
      assert (a + b)[..|a + b| - 1] == a + init && (a + b)[|a + b| - 1] == b[|b| - 1];
      TurnsAppend(a, init);
    }
  }

  class AiChatPersistenceStore {
    var tables: Tables

    constructor ()
      ensures tables == Tables(map[], map[], map[], map[], map[], map[], map[])
    {
      tables := Tables(map[], map[], map[], map[], map[], map[], map[]);
    }

    /** `delete_conversation_rows` */
    method DeleteConversationRows(c: ConvId)
      modifies this
      ensures tables == Dropped(old(tables), {c})
    {
      hide Dropped, Elems;
      ghost var t := tables;
      NoElems(t);
      if c in tables.messageIndex {
        var rows := RemoveRows(tables.messages, tables.messageIndex[c]);
        tables := tables.(messages := rows);
      }
      tables := tables.(messageIndex := tables.messageIndex - {c});
      if c in tables.transcriptIndex {
        var rows := RemoveRows(tables.transcripts, tables.transcriptIndex[c]);
        tables := tables.(transcripts := rows);
      }
      tables := tables.(transcriptIndex := tables.transcriptIndex - {c});
      if c in tables.diagnosticIndex {
        var rows := RemoveRows(tables.diagnostics, tables.diagnosticIndex[c]);
        tables := tables.(diagnostics := rows);
      }
      tables := tables.(diagnosticIndex := tables.diagnosticIndex - {c});
      tables := tables.(conversations := tables.conversations - {c});
      DroppedOne(t, c);
    }

    /** `replace_conversation_messages` */
    method ReplaceConversationMessages(c: Conversation, stamp: int)
      requires c.messagesLoaded
      modifies this
      ensures tables == Replaced(old(tables), c, stamp)
    {
      var currentIds := IndexOf(tables.messageIndex, c.id);
      var newIds := Ids(c.messages);
      var rows := RemoveStale(tables.messages, currentIds, newIds);
      rows := WriteMessages(rows, c, stamp);
      tables := tables.(messages := rows);
      tables := tables.(messageIndex := tables.messageIndex[c.id := newIds]);
      tables := tables.(conversations := tables.conversations[c.id := MetaOf(c).(messageCount := |newIds|)]);
    }

    /** `save_state_with_projection_updated_at`, inside its write transaction. */
    method SaveState(state: seq<Conversation>, stamp: int)
      modifies this
      ensures tables == Saved(old(tables), state, stamp)
    {
      ghost var t := tables;
      var desired := ConvIds(state);
      var pending := tables.conversations.Keys - desired;
      ghost var gone := {};
      DroppedNone(t);
      while pending != {}
        invariant pending !! gone && pending + gone == t.conversations.Keys - desired
        invariant tables == Dropped(t, gone)
        decreases pending
      {
        var id :| id in pending;
        DroppedMore(t, gone, id);
        DeleteConversationRows(id);
        pending, gone := pending - {id}, gone + {id};
      }
      assert gone == t.conversations.Keys - desired;
      ghost var dropped := tables;
      for i := 0 to |state|
        invariant tables == SavedAll(dropped, state[..i], stamp)
      {
        assert state[..i + 1][..i] == state[..i];
        SaveConversation(state[i], stamp);
      }
      assert state[..|state|] == state;
    }

    /** `read_conversation`: a stored conversation with its messages by time and the counts taken from them. */
    method ReadConversation(c: ConvId) returns (r: Option<Conversation>)
      ensures r == Read(tables, c)
    {
      if c !in tables.conversations {
        return None;
      }
      var ids := IndexOf(tables.messageIndex, c);
      var messages := [];
      for i := 0 to |ids|
        invariant messages == Collected(tables.messages, ids[..i])
      {
        assert ids[..i + 1][..i] == ids[..i];
        if ids[i] in tables.messages {
          messages := messages + [MessageOf(ids[i], tables.messages[ids[i]])];
        }
      }
      assert ids[..|ids|] == ids;
      messages := ByTime(messages);
      var turns := CountTurns(Marks(messages));
      var meta := tables.conversations[c];
      return Some(Conversation(c, meta.title, meta.updatedAt, messages, true, |messages|, turns));
    }

    method SaveConversation(c: Conversation, stamp: int)
      modifies this
      ensures tables == SavedOne(old(tables), c, stamp)
    {
      var meta := MetaOf(c);
      if !c.messagesLoaded && c.id in tables.conversations {
        var existing := tables.conversations[c.id];
        meta := meta.(messageCount := existing.messageCount);
        meta := meta.(turnCount := if existing.turnCount.Some? then existing.turnCount else meta.turnCount);
        meta := meta.(updatedAt := if meta.updatedAt >= existing.updatedAt then meta.updatedAt else existing.updatedAt);
      }
      tables := tables.(conversations := tables.conversations[c.id := meta]);
      if c.id !in tables.messageIndex {
        tables := tables.(messageIndex := tables.messageIndex[c.id := []]);
      }
      if c.id !in tables.transcriptIndex {
        tables := tables.(transcriptIndex := tables.transcriptIndex[c.id := []]);
      }
      if c.id !in tables.diagnosticIndex {
        tables := tables.(diagnosticIndex := tables.diagnosticIndex[c.id := []]);
      }
      if c.messagesLoaded {
        ReplaceConversationMessages(c, stamp);
      }
    }
  }

  lemma IndexedOne<T>(index: map<ConvId, seq<T>>, c: ConvId)
    ensures Indexed(index, {c}) == Elems(IndexOf(index, c))
  {
    var left, right := Indexed(index, {c}), Elems(IndexOf(index, c));
    forall id | id in right
      ensures id in left
    {
      assert c in {c} && c in index && id in index[c];
    }
  }

  lemma NoElems(t: Tables)
    ensures t.messages - Elems([]) == t.messages
    ensures t.transcripts - Elems([]) == t.transcripts
    ensures t.diagnostics - Elems([]) == t.diagnostics
  {
  }

  lemma DroppedNone(t: Tables)
    ensures Dropped(t, {}) == t
  {
  }

  lemma DroppedOne(t: Tables, c: ConvId)
    ensures Dropped(t, {c}) ==
            Tables(t.conversations - {c},
                   t.messages - Elems(IndexOf(t.messageIndex, c)), t.messageIndex - {c},
                   t.transcripts - Elems(IndexOf(t.transcriptIndex, c)), t.transcriptIndex - {c},
                   t.diagnostics - Elems(IndexOf(t.diagnosticIndex, c)), t.diagnosticIndex - {c})
  {
    hide Indexed, Elems;
    IndexedOne(t.messageIndex, c);
    IndexedOne(t.transcriptIndex, c);
    IndexedOne(t.diagnosticIndex, c);
  }

  lemma IndexedMore<T>(index: map<ConvId, seq<T>>, gone: set<ConvId>, c: ConvId)
    requires c !in gone
    ensures Indexed(index, gone + {c}) == Indexed(index, gone) + Indexed(index - gone, {c})
  {
    var left, right := Indexed(index, gone + {c}), Indexed(index, gone) + Indexed(index - gone, {c});
    forall id | id in left
      ensures id in right
    {
      var b :| b in gone + {c} && b in index && id in index[b];
      if b != c {
        assert b in gone && b in index && id in index[b];
      } else {
        assert c in {c} && c in index - gone && id in (index - gone)[c];
      }
    }
    forall id | id in right
      ensures id in left
    {
      if id in Indexed(index, gone) {
        var b :| b in gone && b in index && id in index[b];
        assert b in gone + {c};
      } else {
        assert c in gone + {c} && c in index && id in index[c];
      }
    }
  }

  lemma DroppedMore(t: Tables, gone: set<ConvId>, c: ConvId)
    requires c !in gone
    ensures Dropped(Dropped(t, gone), {c}) == Dropped(t, gone + {c})
  {
    hide Indexed;
    IndexedMore(t.messageIndex, gone, c);
    IndexedMore(t.transcriptIndex, gone, c);
    IndexedMore(t.diagnosticIndex, gone, c);
  }
}
