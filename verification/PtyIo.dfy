/**
 The parts of the event loop: the channel with its look-ahead, the write queue, and the reader.

 The operating system is nondeterministic here: a write may accept any prefix of what it is offered or
 fail, and messages may arrive on the channel between any two receives.
 */
module PtyIo {
  import opened Wrappers
  import opened Reading
  import FairLock
  import FairProtocol

  datatype Msg = Input(bytes: Bytes) | Shutdown | Resize(columns: nat, lines: nat)

  // ------------------------------------------------------------------ byte streams

  function Flatten(chunks: seq<Bytes>): Bytes {
    if chunks == [] then [] else chunks[0] + Flatten(chunks[1..])
  }

  lemma FlattenNothing()
    ensures Flatten([]) == []
  {
  }

  lemma FlattenAppend(a: seq<Bytes>, b: seq<Bytes>)
    ensures Flatten(a + b) == Flatten(a) + Flatten(b)
  {
    if a == [] {
      assert a + b == b;
    } else {
      assert (a + b)[1..] == a[1..] + b;
      FlattenAppend(a[1..], b);
    }
  }

  lemma {:induction false} FlattenEmpty(chunks: seq<Bytes>)
    ensures Flatten(chunks) == [] <==> forall i | 0 <= i < |chunks| :: chunks[i] == []
  {
    if chunks != [] {
      FlattenEmpty(chunks[1..]);
      assert forall i | 0 < i < |chunks| :: chunks[i] == chunks[1..][i - 1];
    }
  }

  predicate IsSuffix(a: seq<Bytes>, b: seq<Bytes>) {
    |a| <= |b| && a == b[|b| - |a|..]
  }

  lemma SuffixTransitive(a: seq<Bytes>, b: seq<Bytes>, c: seq<Bytes>)
    requires IsSuffix(a, b) && IsSuffix(b, c)
    ensures IsSuffix(a, c)
  {
    assert a == c[|c| - |b|..][|b| - |a|..];
  }

  lemma SuffixAppend(a: seq<Bytes>, b: seq<Bytes>, c: seq<Bytes>)
    requires IsSuffix(a, b)
    ensures IsSuffix(a + c, b + c)
  {
    assert a + c == (b + c)[|b| - |a|..];
  }

  /** The chunks carried by the input messages, in order. */
  function Inputs(msgs: seq<Msg>): seq<Bytes> {
    if msgs == [] then []
    else (if msgs[0].Input? then [msgs[0].bytes] else []) + Inputs(msgs[1..])
  }

  lemma InputsAppend(a: seq<Msg>, b: seq<Msg>)
    ensures Inputs(a + b) == Inputs(a) + Inputs(b)
  {
    if a == [] {
      assert a + b == b;
    } else {
      assert (a + b)[1..] == a[1..] + b;
      InputsAppend(a[1..], b);
    }
  }

  datatype Size = Size(columns: nat, lines: nat)

  /** The sizes carried by the resize messages, in order. */
  function Resizes(msgs: seq<Msg>): seq<Size> {
    if msgs == [] then []
    else ResizeOf(msgs[0]) + Resizes(msgs[1..])
  }

  function ResizeOf(msg: Msg): seq<Size> { if msg.Resize? then [Size(msg.columns, msg.lines)] else [] }

  lemma ResizesAppend(a: seq<Msg>, b: seq<Msg>)
    ensures Resizes(a + b) == Resizes(a) + Resizes(b)
  {
    if a == [] {
      assert a + b == b;
    } else {
      hide ResizeOf;
      assert (a + b)[1..] == a[1..] + b;
      ResizesAppend(a[1..], b);
    }
  }

  lemma InputsNonEmpty(msgs: seq<Msg>)
    requires Input([]) !in msgs
    ensures [] !in Inputs(msgs)
  {
    if msgs != [] {
      assert Input([]) !in msgs[1..];
      InputsNonEmpty(msgs[1..]);
    }
  }

  // ------------------------------------------------------------------ the channel

  /** A channel receiver with a one-message look-ahead. */
  class PeekableReceiver {
    var rx: seq<Msg>
    var peeked: Option<Msg>
    /** Every message received so far, oldest first. */
    ghost var taken: seq<Msg>
    /** Every message sent so far, oldest first. */
    ghost var sent: seq<Msg>

    ghost predicate Valid()
      reads this
    {
      sent == taken + Pending()
    }

    /** What has been sent and not yet received, in send order. */
    function Pending(): seq<Msg>
      reads this
    {
      (if peeked.Some? then [peeked.value] else []) + rx
    }

    constructor ()
      ensures Valid() && sent == []
    {
      rx, peeked, taken, sent := [], None, [], [];
    }

    /** A sender's step; it never touches the look-ahead. */
    method Send(msgs: seq<Msg>)
      requires Valid()
      modifies this`rx, this`sent
      ensures Valid() && Pending() == old(Pending()) + msgs && sent == old(sent) + msgs
    {
      rx, sent := rx + msgs, sent + msgs;
    }

    method TryRecv() returns (r: Option<Msg>)
      modifies this`rx
      ensures r == if old(rx) == [] then None else Some(old(rx)[0])
      ensures rx == if old(rx) == [] then [] else old(rx)[1..]
    {
      if rx == [] {
        r := None;
      } else {
        r, rx := Some(rx[0]), rx[1..];
      }
    }

    /** Looking ahead shows the oldest pending message and receives nothing. */
    method Peek() returns (r: Option<Msg>)
      requires Valid()
      modifies this`rx, this`peeked
      ensures Valid() && Pending() == old(Pending())
      ensures r == if Pending() == [] then None else Some(Pending()[0])
    {
      if peeked.None? {
        peeked := TryRecv();
      }
      r := peeked;
    }

    method Recv() returns (r: Option<Msg>)
      requires Valid()
      modifies this
      ensures Valid() && sent == old(sent)
      ensures old(Pending()) == [] ==> r.None? && Pending() == [] && taken == old(taken)
      ensures old(Pending()) != [] ==>
                && r == Some(old(Pending())[0])
                && Pending() == old(Pending())[1..]
                && taken == old(taken) + [r.value]
    {
      if peeked.Some? {
        r, peeked := peeked, None;
      } else {
        r := TryRecv();
      }
      if r.Some? {
        taken := taken + [r.value];
      }
    }
  }

  // ------------------------------------------------------------------ the write queue

  datatype Writing = Writing(source: Bytes, written: nat) {
    predicate InBounds() { written <= |source| }

    function Remaining(): Bytes
      requires InBounds()
    {
      source[written..]
    }

    predicate Finished() { written >= |source| }
  }

  /** The first chunk of `list0`, if any, has become the current one. */
  ghost predicate NextChunk(list0: seq<Bytes>, writing: Option<Writing>, list: seq<Bytes>) {
    && writing == (if list0 == [] then None else Some(Writing(list0[0], 0)))
    && list == (if list0 == [] then [] else list0[1..])
  }

  class State {
    var writeList: seq<Bytes>
    var writing: Option<Writing>

    /** A chunk being written has bytes left, unless it was empty from the start. */
    predicate Valid()
      reads this
    {
      writing.Some? ==> writing.value.InBounds() && (writing.value.Finished() ==> writing.value.source == [])
    }

    /** The bytes still to be written, as one stream. */
    function Unsent(): Bytes
      requires Valid()
      reads this
    {
      (if writing.Some? then writing.value.Remaining() else []) + Flatten(writeList)
    }

    /** The chunks not yet completely written. */
    function Chunks(): seq<Bytes>
      reads this
    {
      (if writing.Some? then [writing.value.source] else []) + writeList
    }

    constructor ()
      ensures Valid() && Chunks() == [] && Unsent() == []
    {
      writeList, writing := [], None;
    }

    predicate NeedsWrite()
      reads this
      ensures NeedsWrite() <==> Chunks() != []
    {
      writing.Some? || writeList != []
    }

    method GotoNext()
      modifies this
      ensures Valid() && NextChunk(old(writeList), writing, writeList)
    {
      if writeList == [] {
        writing := None;
      } else {
        writing, writeList := Some(Writing(writeList[0], 0)), writeList[1..];
      }
    }

    method EnsureNext()
      requires Valid()
      modifies this
      ensures Valid() && Unsent() == old(Unsent()) && Chunks() == old(Chunks())
      ensures writing.Some? <==> old(NeedsWrite())
    {
      if writing.None? {
        GotoNext();
      }
    }

    method TakeCurrent() returns (r: Option<Writing>)
      modifies this`writing
      ensures r == old(writing) && writing.None?
    {
      r, writing := writing, None;
    }

    method SetCurrent(new_: Option<Writing>)
      modifies this`writing
      ensures writing == new_
      ensures (new_.Some? ==> new_.value.InBounds() && (new_.value.Finished() ==> new_.value.source == [])) ==> Valid()
    {
      writing := new_;
    }
  }

  /** There is no chunk, or one that is not empty. */
  ghost predicate EmptyOrContent(chunks: seq<Bytes>) {
    chunks == [] || exists i :: 0 <= i < |chunks| && chunks[i] != []
  }

  /** The loop wants to write exactly while bytes are unsent, unless nothing but empty chunks is queued. */
  lemma UnsentWhileNeeded(state: State)
    requires state.Valid()
    ensures (state.NeedsWrite() <==> state.Unsent() != []) <==> EmptyOrContent(state.Chunks())
  {
    if state.writing.Some? {
      QueueContent([state.writing.value.source], state.writeList, state.writing.value.Remaining());
    } else {
      QueueContent([], state.writeList, []);
    }
  }

  /** `rest` is what is left of the one chunk in `head`, if any. */
  lemma QueueContent(head: seq<Bytes>, list: seq<Bytes>, rest: Bytes)
    requires if head == [] then rest == [] else |head| == 1 && (rest == [] <==> head[0] == [])
    ensures (head + list != [] <==> rest + Flatten(list) != []) <==> EmptyOrContent(head + list)
  {
    FlattenAppend(head, list);
    FlattenEmpty(head);
    FlattenEmpty(head + list);
    hide Flatten;
    assert Flatten(head) == [] <==> rest == [];
    assert Flatten(head + list) == [] <==> rest + Flatten(list) == [];
  }

  // ------------------------------------------------------------------ the pseudoterminal

  datatype WriteResult = Wrote(n: nat) | TryAgain | Fatal

  class Pty {
    /** Every byte the operating system has accepted. */
    var accepted: Bytes
    /** Every byte read out of the pseudoterminal. */
    var delivered: Bytes
    /** The write interest last registered with the poller. */
    var registeredWritable: bool
    /** Every size the pseudoterminal has been resized to. */
    var sizes: seq<Size>
    /** How the operating system has answered every write. */
    ghost var answers: seq<WriteResult>

    constructor ()
      ensures accepted == [] && delivered == [] && !registeredWritable && sizes == [] && answers == []
    {
      accepted, delivered, registeredWritable, sizes, answers := [], [], false, [], [];
    }

    method OnResize(columns: nat, lines: nat)
      modifies this`sizes
      ensures sizes == old(sizes) + [Size(columns, lines)]
    {
      sizes := sizes + [Size(columns, lines)];
    }

    /** `TryAgain` stands for the error kinds `Interrupted` and `WouldBlock`. */
    method Write(buf: Bytes) returns (r: WriteResult)
      modifies this`accepted, this`answers
      ensures answers == old(answers) + [r]
      ensures r.Wrote? ==> r.n <= |buf| && accepted == old(accepted) + buf[..r.n]
      ensures !r.Wrote? ==> accepted == old(accepted)
    {
      if * {
        var n: nat :| n <= |buf|;
        accepted := accepted + buf[..n];
        r := Wrote(n);
      } else if * {
        r := TryAgain;
      } else {
        r := Fatal;
      }
      answers := answers + [r];
    }

    method Reregister(writable: bool)
      modifies this`registeredWritable
      ensures registeredWritable == writable
    {
      registeredWritable := writable;
    }
  }

  /** Some bytes were accepted by the write that got answer number `i`. */
  ghost predicate Accepts(answers: seq<WriteResult>, i: nat) {
    i < |answers| && answers[i].Wrote? && answers[i].n > 0
  }

  /** The bytes `from` up to `to` of `source` have been accepted since `accepted0`. */
  ghost predicate Offered(accepted0: Bytes, accepted: Bytes, source: Bytes, from: nat, to: nat) {
    from <= to <= |source| && accepted == accepted0 + source[from..to]
  }

  lemma OfferedMore(accepted0: Bytes, accepted: Bytes, current: Writing, from: nat, n: nat)
    requires current.InBounds() && n <= |current.Remaining()|
    requires Offered(accepted0, accepted, current.source, from, current.written)
    ensures Offered(accepted0, accepted + current.Remaining()[..n], current.source, from, current.written + n)
  {
    assert current.source[from..current.written] + current.Remaining()[..n]
        == current.source[from..current.written + n];
  }

  /** The answers `from` up to `to` all accept something. */
  ghost predicate AllAccept(answers: seq<WriteResult>, from: nat, to: int) {
    forall i | from <= i < to :: Accepts(answers, i)
  }

  /** There are answers since `answers0`; all but the last accept something, and the last one ends in `end`. */
  ghost predicate Answered(answers0: seq<WriteResult>, answers: seq<WriteResult>, end: WriteEnd) {
    && answers0 <= answers && |answers0| < |answers|
    && AllAccept(answers, |answers0|, |answers| - 1)
    && var last := answers[|answers| - 1];
       end == if last.Fatal? then Failed else if last.Wrote? && last.n > 0 then ChunkDone else Stopped
  }

  lemma AnsweredOne(answers0: seq<WriteResult>, answers: seq<WriteResult>, r: WriteResult)
    requires answers0 <= answers && AllAccept(answers, |answers0|, |answers|)
    ensures Answered(answers0, answers + [r],
                     if r.Fatal? then Failed else if r.Wrote? && r.n > 0 then ChunkDone else Stopped)
    ensures r.Wrote? && r.n > 0 ==> AllAccept(answers + [r], |answers0|, |answers| + 1)
  {
    forall i | |answers0| <= i < |answers|
      ensures Accepts(answers + [r], i)
    {
      assert Accepts(answers, i);
    }
  }

  /** The last answer since `answers0` is a fatal error. */
  ghost predicate WriteFailed(answers0: seq<WriteResult>, answers: seq<WriteResult>) {
    |answers0| < |answers| && answers[|answers| - 1].Fatal?
  }

  lemma AnsweredMore(answers0: seq<WriteResult>, before: seq<WriteResult>, answers: seq<WriteResult>, end: WriteEnd)
    requires answers0 <= before && AllAccept(before, |answers0|, |before|) && Answered(before, answers, end)
    ensures answers0 <= answers && |answers0| < |answers|
    ensures AllAccept(answers, |answers0|, |answers|) <==> end.ChunkDone?
    ensures WriteFailed(answers0, answers) <==> end.Failed?
  {
    forall i | |answers0| <= i < |answers| - 1
      ensures Accepts(answers, i)
    {
      assert i < |before| ==> Accepts(before, i);
    }
    assert Accepts(answers, |answers| - 1) <==> end.ChunkDone?;
  }

  /** Further writes have been answered. */
  ghost predicate Asked(answers0: seq<WriteResult>, answers: seq<WriteResult>) {
    answers0 <= answers
  }

  lemma AskedMore(answers0: seq<WriteResult>, answers: seq<WriteResult>, r: WriteResult)
    requires Asked(answers0, answers)
    ensures Asked(answers0, answers + [r])
    ensures |answers| == |answers0| ==> (Accepts(answers + [r], |answers0|) <==> r.Wrote? && r.n > 0)
    ensures |answers| > |answers0| ==> (Accepts(answers + [r], |answers0|) <==> Accepts(answers, |answers0|))
  {
  }

  function Accepted(r: WriteResult): nat { if r.Wrote? then r.n else 0 }

  /**
   Since the streams of accepted bytes and of answers were `accepted0` and `answers0`, writing has come from
   `start` to `current`; it has come further exactly if the first answer accepted something.
   */
  ghost predicate Writes(accepted0: Bytes, accepted: Bytes, answers0: seq<WriteResult>, answers: seq<WriteResult>,
                         start: Writing, current: Writing)
  {
    && current.source == start.source && current.InBounds()
    && Offered(accepted0, accepted, start.source, start.written, current.written)
    && Asked(answers0, answers)
    && (|answers| == |answers0| ==> current == start)
    && (|answers| > |answers0| ==> (current.written > start.written <==> Accepts(answers, |answers0|)))
  }

  lemma NoAnswers(answers: seq<WriteResult>)
    ensures AllAccept(answers, |answers|, |answers|)
  {
  }

  lemma NothingWritten(accepted: Bytes, answers: seq<WriteResult>, current: Writing)
    requires current.InBounds()
    ensures Writes(accepted, accepted, answers, answers, current, current)
  {
  }

  /** Offers the rest of `current`. */
  method OfferRest(pty: Pty, current: Writing,
                   ghost accepted0: Bytes, ghost answers0: seq<WriteResult>, ghost start: Writing)
    returns (r: WriteResult)
    requires current.InBounds() && Writes(accepted0, pty.accepted, answers0, pty.answers, start, current)
    requires |pty.answers| > |answers0| ==> current.written > start.written
    modifies pty`accepted, pty`answers
    ensures current.written + Accepted(r) <= |current.source|
    ensures Writes(accepted0, pty.accepted, answers0, pty.answers, start,
                   current.(written := current.written + Accepted(r)))
    ensures pty.answers == old(pty.answers) + [r]
  {
    ghost var accepted, answers := pty.accepted, pty.answers;
    r := pty.Write(current.Remaining());
    OfferedMore(accepted0, accepted, current, start.written, Accepted(r));
    AskedMore(answers0, answers, r);
    assert accepted + current.Remaining()[..0] == accepted;
  }

  datatype WriteEnd = ChunkDone | Stopped | Failed

  /**
   The `'write_one` loop: offer the rest of `current` until it is written, and then make the next chunk
   current; or put `current` back, advanced by exactly the bytes that were accepted.
   */
  method WriteOne(state: State, pty: Pty, current0: Writing) returns (end: WriteEnd)
    requires state.writing.None? && current0.InBounds() && (current0.Finished() ==> current0.source == [])
    modifies state, pty`accepted, pty`answers
    ensures state.Valid()
    ensures end.ChunkDone? ==>
              && current0.source != []
              && Writes(old(pty.accepted), pty.accepted, old(pty.answers), pty.answers, current0,
                        Writing(current0.source, |current0.source|))
              && NextChunk(old(state.writeList), state.writing, state.writeList)
    ensures !end.ChunkDone? ==>
              && state.writeList == old(state.writeList) && state.writing.Some?
              && Writes(old(pty.accepted), pty.accepted, old(pty.answers), pty.answers, current0, state.writing.value)
    ensures Answered(old(pty.answers), pty.answers, end)
  {
    hide Flatten, Writes, NextChunk, State.Valid, AllAccept, Answered;
    var current := current0;
    NothingWritten(pty.accepted, pty.answers, current0);
    NoAnswers(pty.answers);
    while true
      invariant state.writing.None? && state.writeList == old(state.writeList)
      invariant current.source == current0.source && current0.written <= current.written && current.InBounds()
      invariant current.Finished() ==> current.source == []
      invariant Writes(old(pty.accepted), pty.accepted, old(pty.answers), pty.answers, current0, current)
      invariant old(pty.answers) <= pty.answers && AllAccept(pty.answers, |old(pty.answers)|, |pty.answers|)
      invariant |pty.answers| > |old(pty.answers)| ==> current.written > current0.written
      decreases |current.source| - current.written
    {
      ghost var answers := pty.answers;
      var r := OfferRest(pty, current, old(pty.accepted), old(pty.answers), current0);
      AnsweredOne(old(pty.answers), answers, r);
      match r {
        case Wrote(n) =>
          if n == 0 {
            state.SetCurrent(Some(current));
            return Stopped;
          }
          current := current.(written := current.written + n);
          if current.Finished() {
            state.GotoNext();
            return ChunkDone;
          }
        case TryAgain =>
          state.SetCurrent(Some(current));
          return Stopped;
        case Fatal =>
          state.SetCurrent(Some(current));
          return Failed;
      }
    }
  }

  /** The writing side: what has been accepted, how every write was answered, and what is queued. */
  datatype Output = Output(accepted: Bytes, answers: seq<WriteResult>, chunks: seq<Bytes>)

  ghost function OutputOf(state: State, pty: Pty): Output
    reads state, pty`accepted, pty`answers
  {
    Output(pty.accepted, pty.answers, state.Chunks())
  }

  /** The operating system has been offered the chunk in front, until it was written or a write refused. */
  ghost predicate WroteChunk(a: Output, b: Output, end: WriteEnd) {
    && a.chunks != [] && b.chunks == (if end.ChunkDone? then a.chunks[1..] else a.chunks)
    && a.accepted <= b.accepted && Answered(a.answers, b.answers, end)
    && (|b.accepted| > |a.accepted| <==> Accepts(b.answers, |a.answers|))
    && (a.chunks[0] == [] ==> b.accepted == a.accepted && !end.ChunkDone?)
    && (end.ChunkDone? ==> |b.accepted| > |a.accepted|)
  }

  /** One turn of `'write_many`: take the current chunk and write what the operating system accepts of it. */
  method WriteCurrent(state: State, pty: Pty) returns (end: WriteEnd)
    requires state.Valid() && state.writing.Some?
    modifies state, pty`accepted, pty`answers
    ensures state.Valid()
    ensures pty.accepted + state.Unsent() == old(pty.accepted) + old(state.Unsent())
    ensures WroteChunk(old(OutputOf(state, pty)), OutputOf(state, pty), end)
    ensures if end.ChunkDone? then state.NeedsWrite() ==> state.writing.Some? else state.writing.Some?
  {
    hide Flatten, AllAccept;
    ghost var before, queued, total := pty.accepted, state.writeList, pty.accepted + state.Unsent();
    var taken := state.TakeCurrent();
    var current := taken.value;
    end := WriteOne(state, pty, current);
    if end.ChunkDone? {
      NextUnderway(current, queued, before, pty.accepted, total);
      FlattenNothing();
    } else {
      StreamKept(current, state, before, pty.accepted, total);
    }
  }

  /**
   What a call of `pty_write` does. Every write but the last accepts something, and the queue is empty
   afterwards exactly if the last one does too. Chunks leave the queue only from its front, and an empty
   chunk at the front blocks the queue; otherwise the queue moves exactly when the operating system accepts
   a byte of what it is offered first.
   */
  ghost predicate WroteOut(a: Output, b: Output) {
    && a.accepted <= b.accepted && a.answers <= b.answers && IsSuffix(b.chunks, a.chunks)
    && (a.chunks != [] ==> |b.answers| > |a.answers|)
    && (a.chunks != [] && a.chunks[0] == [] ==> b.accepted == a.accepted && b.chunks == a.chunks)
    && (|b.accepted| > |a.accepted| <==> Accepts(b.answers, |a.answers|))
    && AllAccept(b.answers, |a.answers|, |b.answers| - 1)
    && (b.chunks == [] <==> AllAccept(b.answers, |a.answers|, |b.answers|))
  }

  /** The first `done` chunks have been written, and nothing was refused. */
  ghost predicate WrittenSoFar(a: Output, b: Output, done: nat) {
    && done <= |a.chunks| && b.chunks == a.chunks[done..]
    && a.accepted <= b.accepted && a.answers <= b.answers && AllAccept(b.answers, |a.answers|, |b.answers|)
    && (a.chunks != [] && a.chunks[0] == [] ==> done == 0)
    && if done == 0 then b == a else |b.answers| > |a.answers| && |b.accepted| > |a.accepted|
  }

  lemma NothingWrittenYet(a: Output)
    ensures WrittenSoFar(a, a, 0)
  {
  }

  lemma WrittenOne(a: Output, b: Output, c: Output, done: nat, end: WriteEnd)
    requires WrittenSoFar(a, b, done) && WroteChunk(b, c, end)
    ensures if end.ChunkDone? then WrittenSoFar(a, c, done + 1) else WroteOut(a, c)
    ensures WriteFailed(a.answers, c.answers) <==> end.Failed?
  {
    AnsweredMore(a.answers, b.answers, c.answers, end);
    assert b.chunks[0] == a.chunks[done];
    hide AllAccept;
    assert AllAccept(b.answers, |a.answers|, |b.answers|);
    AllAcceptJoin(a.answers, b.answers, c.answers);
  }

  lemma AllAcceptJoin(a: seq<WriteResult>, b: seq<WriteResult>, c: seq<WriteResult>)
    requires a <= b <= c && |b| < |c|
    requires AllAccept(b, |a|, |b|) && AllAccept(c, |b|, |c| - 1)
    ensures AllAccept(c, |a|, |c| - 1)
    ensures |a| < |b| ==> Accepts(c, |a|)
  {
    forall i | |a| <= i < |b|
      ensures Accepts(c, i)
    {
      assert Accepts(b, i);
    }
  }

  lemma WrittenAll(a: Output, b: Output, done: nat)
    requires WrittenSoFar(a, b, done) && b.chunks == []
    ensures WroteOut(a, b) && !WriteFailed(a.answers, b.answers)
  {
    assert |b.answers| > |a.answers| ==> Accepts(b.answers, |a.answers|) && Accepts(b.answers, |b.answers| - 1);
  }

  /**
   `pty_write`: write until everything is sent, the operating system stops accepting, or it fails.
   Whatever happens, accepted bytes followed by unsent bytes is the same stream as before.
   */
  method PtyWrite(state: State, pty: Pty) returns (ok: bool)
    requires state.Valid()
    modifies state, pty`accepted, pty`answers
    ensures state.Valid()
    ensures pty.accepted + state.Unsent() == old(pty.accepted) + old(state.Unsent())
    ensures WroteOut(old(OutputOf(state, pty)), OutputOf(state, pty))
    ensures ok <==> !WriteFailed(old(pty.answers), pty.answers)
    ensures state.NeedsWrite() ==> state.writing.Some?
  {
    hide Flatten, WroteOut, WrittenSoFar, WroteChunk, WriteFailed, State.Unsent, State.Valid;
    ghost var start, done := OutputOf(state, pty), 0;
    state.EnsureNext();
    NothingWrittenYet(start);
    while state.writing.Some?
      invariant state.Valid()
      invariant pty.accepted + state.Unsent() == old(pty.accepted) + old(state.Unsent())
      invariant state.NeedsWrite() ==> state.writing.Some?
      invariant done <= |start.chunks| && WrittenSoFar(start, OutputOf(state, pty), done)
      decreases |start.chunks| - done
    {
      ghost var before := OutputOf(state, pty);
      var end := WriteCurrent(state, pty);
      WrittenOne(start, before, OutputOf(state, pty), done, end);
      if !end.ChunkDone? {
        return end.Stopped?;
      }
      done := done + 1;
      StillLeft(start, OutputOf(state, pty), done);
    }
    WrittenAll(start, OutputOf(state, pty), done);
    ok := true;
  }

  lemma StillLeft(a: Output, b: Output, done: nat)
    requires WrittenSoFar(a, b, done)
    ensures done <= |a.chunks|
  {
  }

  /** `w` is being written: what was accepted, its rest and the queued chunks make up `total`. */
  ghost predicate Underway(w: Writing, queued: seq<Bytes>, accepted: Bytes, total: Bytes) {
    && w.InBounds() && (w.Finished() ==> w.source == [])
    && accepted + (w.Remaining() + Flatten(queued)) == total
  }

  lemma NextUnderway(w: Writing, queued: seq<Bytes>, before: Bytes, after: Bytes, total: Bytes)
    requires Underway(w, queued, before, total) && after == before + w.Remaining()
    ensures if queued == [] then after == total else Underway(Writing(queued[0], 0), queued[1..], after, total)
  {
    assert after + Flatten(queued) == total;
    if queued != [] {
      assert Writing(queued[0], 0).Remaining() == queued[0];
    }
  }

  lemma StreamKept(w: Writing, state: State, before: Bytes, after: Bytes, total: Bytes)
    requires state.Valid() && state.writing.Some? && state.writing.value.source == w.source
    requires Underway(w, state.writeList, before, total) && w.written <= state.writing.value.written
    requires after == before + w.source[w.written..state.writing.value.written]
    ensures after + state.Unsent() == total
  {
    hide Flatten;
    var now := state.writing.value;
    var more := w.source[w.written..now.written];
    assert w.Remaining() == more + now.Remaining();
    Regrouped(before, more, now.Remaining(), Flatten(state.writeList));
  }

  lemma Regrouped(a: Bytes, b: Bytes, c: Bytes, d: Bytes)
    ensures a + b + (c + d) == a + ((b + c) + d)
  {
  }

  // ------------------------------------------------------------------ reading

  class Terminal {
    /** Every byte handed to the parser. */
    var parsed: Bytes

    constructor ()
      ensures parsed == []
    {
      parsed := [];
    }

    /** Parsing needs the terminal locked by the parsing thread. */
    method Advance(lock: FairLock.FairMutex, t: FairProtocol.Thread, bytes: Bytes)
      requires lock.data == Some(t)
      modifies this`parsed
      ensures parsed == old(parsed) + bytes
    {
      parsed := parsed + bytes;
    }
  }

  /** `read(&mut buf[from..])`: at most the room left in the buffer. */
  method ReadInto(pty: Pty, buf: array<byte>, from: nat, outcome: ReadOutcome) returns (end: ReadEnd, filled: nat)
    requires from <= buf.Length == READ_BUFFER_SIZE
    modifies buf, pty`delivered
    ensures filled <= buf.Length && buf[..filled] == Filled(old(buf[..from]), outcome)
    ensures from <= filled && buf[..from] == old(buf[..from]) && pty.delivered == old(pty.delivered) + buf[from..filled]
    ensures end == if outcome.Broken? then ReadFailed else if filled == 0 then CaughtUp else StillReading
  {
    filled := from;
    match outcome {
      case Got(data) =>
        var fitting := Fitting(data, buf.Length - from);
        var got := |fitting|;
        forall i | 0 <= i < got {
          buf[from + i] := fitting[i];
        }
        pty.delivered := pty.delivered + fitting;
        assert buf[from..from + got] == fitting;
        assert buf[..from + got] == old(buf[..from]) + fitting;
        filled := from + got;
        end := if got == 0 && from == 0 then CaughtUp else StillReading;
      case Blocked => end := if from == 0 then CaughtUp else StillReading;
      case Broken => end := ReadFailed;
    }
  }

  /** A call that has to wait for a mutex may not have returned yet. */
  datatype Attempt = Locked | Busy | StillWaiting

  /**
   The reader inside its lease: it holds `next`, has held it since event `from`, and perhaps the terminal.
   Its attempts to lock the terminal have ended as in `tries`.
   */
  ghost predicate UnderLease(
      lock: FairLock.FairMutex, t: FairProtocol.Thread, from: nat, locked: bool, tries: seq<bool>)
    reads lock
  {
    && lock.Valid() && lock.Guards(t) && lock.at.At(t) == FairProtocol.Pos(true, locked, FairProtocol.NoCall)
    && from <= |lock.events| && lock.NextHeld(t, from, |lock.events|)
    && FairLock.Tries(lock.events, from, t) == tries
  }

  /** Others act. */
  method OthersUnderLease(lock: FairLock.FairMutex, t: FairProtocol.Thread, ghost from: nat, ghost locked: bool,
                          ghost tries: seq<bool>)
    requires UnderLease(lock, t, from, locked, tries)
    modifies lock
    ensures UnderLease(lock, t, from, locked, tries) && |lock.events| >= |old(lock.events)|
  {
    ghost var events := lock.events;
    lock.OthersStep(t);
    lock.GuardsHeld(t);
    FairLock.TriesSame(events, lock.events, from, t);
  }

  /** Tries to lock the terminal, and insists when the buffer is `full`. */
  method LockTerminal(lock: FairLock.FairMutex, t: FairProtocol.Thread, full: bool, patience: nat,
                      ghost from: nat, ghost tries: seq<bool>)
    returns (r: Attempt, ghost free: bool)
    requires UnderLease(lock, t, from, false, tries)
    modifies lock
    ensures r.StillWaiting? ==> full && !free && lock.Valid() && lock.GaveUpSince(t, |old(lock.events)|, patience)
    ensures |lock.events| >= |old(lock.events)|
    ensures !r.StillWaiting? ==> UnderLease(lock, t, from, r.Locked?, tries + [free])
    ensures r.Busy? ==> !full && !free
    ensures r.Locked? ==> free || full
    ensures free <==> old(lock.data) == None
  {
    var tried := lock.TryLockUnfair(t);
    free := tried;
    r := if tried then Locked else Busy;
    ghost var events := lock.events;
    assert events[..|events| - 1] == old(lock.events);
    if !tried && full {
      var forced := lock.LockUnfair(t, patience);
      r := if forced then Locked else StillWaiting;
      FairLock.TriesSame(events, lock.events, from, t);
    }
  }

  /** Parses what is in the buffer, if the terminal is locked already, or can be, or has to be. */
  method LockAndParse(terminal: Terminal, lock: FairLock.FairMutex, t: FairProtocol.Thread,
                      buf: array<byte>, unprocessed: nat, locked: bool, patience: nat,
                      ghost from: nat, ghost tries: seq<bool>)
    returns (attempt: Attempt, ghost free: bool)
    requires UnderLease(lock, t, from, locked, tries) && unprocessed <= buf.Length
    modifies lock, terminal
    ensures attempt.StillWaiting? ==> lock.Valid() && lock.GaveUpSince(t, |old(lock.events)|, patience)
    ensures |lock.events| >= |old(lock.events)|
    ensures !attempt.StillWaiting? ==>
              UnderLease(lock, t, from, attempt.Locked?, if locked then tries else tries + [free])
    ensures attempt.Busy? <==> !attempt.StillWaiting? && !locked && !free && unprocessed < READ_BUFFER_SIZE
    ensures terminal.parsed
            == if attempt.Locked? then old(terminal.parsed) + buf[..unprocessed] else old(terminal.parsed)
  {
    attempt, free := Locked, false;
    if !locked {
      attempt, free := LockTerminal(lock, t, unprocessed >= READ_BUFFER_SIZE, patience, from, tries);
    }
    if attempt.Locked? {
      terminal.Advance(lock, t, buf[..unprocessed]);
    }
  }

  /** Drops the guards: the terminal, and then the lease. Nobody overtook the reader unless unleased. */
  method LeaveTerminal(lock: FairLock.FairMutex, t: FairProtocol.Thread, locked: bool,
                       ghost from: nat, ghost tries: seq<bool>)
    requires UnderLease(lock, t, from, locked, tries)
    modifies lock
    ensures lock.Valid() && lock.at.At(t) == FairProtocol.Idle && from <= |lock.events|
    ensures lock.FirstToObtain(t, from) <==> lock.NobodyUnleased(from)
    ensures FairLock.Tries(lock.events, from, t) == tries && |lock.events| >= |old(lock.events)|
  {
    ghost var events := lock.events;
    if locked {
      lock.Unlock(t);
    }
    lock.EndLease(t);
    FairLock.TriesSame(events, lock.events, from, t);
    lock.FirstUnlessUnleased(t, from);
  }

  /**
   With `buffered` not parsed yet, what `p` says was parsed, and then what is buffered, is what has been
   read since the two streams were `delivered0` and `parsed0`.
   */
  ghost predicate Tells(
      p: Progress, delivered0: Bytes, parsed0: Bytes, delivered: Bytes, parsed: Bytes, buffered: Bytes)
  {
    parsed == parsed0 + p.parsed && delivered == delivered0 + p.parsed + buffered
  }

  /** The reads of the script are the first of `outcomes`. */
  ghost predicate Follows(steps: seq<ReadStep>, outcomes: seq<ReadOutcome>) {
    |steps| <= |outcomes| && forall i | 0 <= i < |steps| :: steps[i].outcome == outcomes[i]
  }

  lemma FollowsMore(steps: seq<ReadStep>, outcomes: seq<ReadOutcome>, free: bool)
    requires Follows(steps, outcomes) && |steps| < |outcomes|
    ensures Follows(steps + [ReadStep(outcomes[|steps|], free)], outcomes)
  {
  }

  /** The script accounts for the reads so far and for both streams, with `buffered` not parsed yet. */
  ghost predicate Told(
      steps: seq<ReadStep>, outcomes: seq<ReadOutcome>, end: ReadEnd,
      delivered0: Bytes, parsed0: Bytes, delivered: Bytes, parsed: Bytes, buffered: Bytes)
  {
    && Follows(steps, outcomes) && end == AfterScript(steps).end
    && Tells(AfterScript(steps), delivered0, parsed0, delivered, parsed, buffered)
  }

  lemma ToldNothing(outcomes: seq<ReadOutcome>, delivered: Bytes, parsed: Bytes)
    ensures Told([], outcomes, StillReading, delivered, parsed, delivered, parsed, [])
    ensures AfterScript([]) == START && Attempts([]) == []
  {
  }

  lemma ToldRead(
      steps: seq<ReadStep>, outcomes: seq<ReadOutcome>,
      delivered0: Bytes, parsed0: Bytes, delivered: Bytes, parsed: Bytes, buffered: Bytes, filled: Bytes)
    requires Told(steps, outcomes, StillReading, delivered0, parsed0, delivered, parsed, buffered)
    requires buffered <= filled
    ensures Told(steps, outcomes, StillReading, delivered0, parsed0, delivered + filled[|buffered|..], parsed, filled)
  {
    TellsRead(AfterScript(steps), delivered0, parsed0, delivered, parsed, buffered, filled[|buffered|..]);
    assert filled == buffered + filled[|buffered|..];
  }

  lemma TellsRead(p: Progress, delivered0: Bytes, parsed0: Bytes, delivered: Bytes, parsed: Bytes,
                  buffered: Bytes, more: Bytes)
    requires Tells(p, delivered0, parsed0, delivered, parsed, buffered)
    ensures Tells(p, delivered0, parsed0, delivered + more, parsed, buffered + more)
  {
    assert delivered + more == delivered0 + p.parsed + (buffered + more);
  }

  /**
   The loop of `pty_read`: read into the buffer until the terminal lock is obtained (forced once the buffer
   is full), then parse what was read, and go on until nothing is left or enough has been parsed.
   */
  method ReadLoop(pty: Pty, terminal: Terminal, lock: FairLock.FairMutex, t: FairProtocol.Thread,
                  buf: array<byte>, outcomes: seq<ReadOutcome>, patience: nat, ghost from: nat)
    returns (end: ReadEnd, unprocessed: nat, locked: bool, ghost steps: seq<ReadStep>)
    requires buf.Length == READ_BUFFER_SIZE && UnderLease(lock, t, from, false, [])
    modifies pty`delivered, terminal, buf, lock
    ensures unprocessed <= buf.Length
    ensures if end.StillReading? then lock.Valid() else UnderLease(lock, t, from, locked, Attempts(steps))
    ensures end.StillReading? ==>
              |steps| == |outcomes| || lock.GaveUpSince(t, |old(lock.events)|, patience)
    ensures |lock.events| >= |old(lock.events)|
    ensures Told(steps, outcomes, end, old(pty.delivered), old(terminal.parsed), pty.delivered, terminal.parsed,
                 buf[..unprocessed])
    ensures !end.StillReading? ==> buf[..unprocessed] == AfterScript(steps).buffered
  {
    hide AfterScript, AfterStep, Attempts, UnderLease, Filled, Told, FairLock.FairMutex.Valid;
    hide FairLock.FairMutex.GaveUp;
    unprocessed, end, locked, steps := 0, StillReading, false, [];
    var processed := 0;
    ghost var p, delivered0, parsed0 := START, pty.delivered, terminal.parsed;
    assert buf[..unprocessed] == [];
    ToldNothing(outcomes, delivered0, parsed0);
    for i := 0 to |outcomes|
      invariant UnderLease(lock, t, from, locked, Attempts(steps)) && |steps| == i
      invariant |lock.events| >= |old(lock.events)|
      invariant unprocessed <= buf.Length && processed == |p.parsed| < MAX_LOCKED_READ && end.StillReading?
      invariant AfterScript(steps) == p == Progress(buf[..unprocessed], p.parsed, locked, StillReading)
      invariant Told(steps, outcomes, StillReading, delivered0, parsed0, pty.delivered, terminal.parsed,
                     buf[..unprocessed])
    {
      OthersUnderLease(lock, t, from, locked, Attempts(steps));
      ghost var delivered, parsed, buffered := pty.delivered, terminal.parsed, buf[..unprocessed];
      end, unprocessed := ReadInto(pty, buf, unprocessed, outcomes[i]);
      ghost var filled := buf[..unprocessed];
      ToldRead(steps, outcomes, delivered0, parsed0, delivered, parsed, buffered, filled);
      var attempt := Busy;
      ghost var free := false;
      if end.StillReading? {
        attempt, free := LockAndParse(terminal, lock, t, buf, unprocessed, locked, patience, from, Attempts(steps));
        if attempt.StillWaiting? {
          return;
        }
        if attempt.Locked? {
          locked, processed, unprocessed := true, processed + unprocessed, 0;
          assert buf[..unprocessed] == [];
        }
      }
      Iterated(steps, p, outcomes, filled, free, delivered0, parsed0, pty.delivered, parsed, attempt.Locked?);
      steps := steps + [ReadStep(outcomes[i], free)];
      p := AfterScript(steps);
      if processed >= MAX_LOCKED_READ {
        end := CaughtUp;
      }
      if !end.StillReading? {
        return;
      }
    }
    StillValid(lock, t, from, locked, Attempts(steps));
  }

  lemma StillValid(
      lock: FairLock.FairMutex, t: FairProtocol.Thread, from: nat, locked: bool, tries: seq<bool>)
    requires UnderLease(lock, t, from, locked, tries)
    ensures lock.Valid()
  {
  }

  /** `p'` goes on from `p`, having parsed all that was buffered or nothing of it. */
  lemma TellsOn(p: Progress, p': Progress, delivered0: Bytes, parsed0: Bytes, delivered: Bytes, parsed: Bytes,
                buffered: Bytes, parsed': Bytes, buffered': Bytes)
    requires Tells(p, delivered0, parsed0, delivered, parsed, buffered)
    requires || (p'.parsed == p.parsed && parsed' == parsed && buffered' == buffered)
             || (p'.parsed == p.parsed + buffered && parsed' == parsed + buffered && buffered' == [])
    ensures Tells(p', delivered0, parsed0, delivered, parsed', buffered')
  {
    assert parsed + buffered == parsed0 + (p.parsed + buffered);
    assert delivered == delivered0 + (p.parsed + buffered) + [];
  }

  /**
   `pty_read` by thread `t`, under a lease. `steps` are the reads and the results of the attempts to lock
   that `t` made; the result is what `AfterScript` says of them: a normal return has parsed exactly what was
   read, in order, and a failing read loses what was read exactly when none of it had been parsed. From the
   lease to the return nobody else obtains the terminal exactly if nobody takes it without a lease.
   */
  method PtyRead(pty: Pty, terminal: Terminal, lock: FairLock.FairMutex, t: FairProtocol.Thread,
                 buf: array<byte>, outcomes: seq<ReadOutcome>, patience: nat)
    returns (end: ReadEnd, unprocessed: nat, ghost steps: seq<ReadStep>, ghost leasedAt: nat)
    requires buf.Length == READ_BUFFER_SIZE && lock.Valid() && lock.at.At(t) == FairProtocol.Idle
    modifies pty`delivered, terminal, buf, lock
    ensures unprocessed <= buf.Length && lock.Valid() && |lock.events| >= |old(lock.events)|
    ensures Told(steps, outcomes, end, old(pty.delivered), old(terminal.parsed), pty.delivered, terminal.parsed,
                 buf[..unprocessed])
    ensures !end.StillReading? ==>
              && buf[..unprocessed] == AfterScript(steps).buffered
              && lock.at.At(t) == FairProtocol.Idle && leasedAt <= |lock.events|
              && (lock.FirstToObtain(t, leasedAt) <==> lock.NobodyUnleased(leasedAt))
              && FairLock.Tries(lock.events, leasedAt, t) == Attempts(steps)
    ensures end.StillReading? ==>
              |steps| == |outcomes| || lock.GaveUpSince(t, |old(lock.events)|, patience)
    ensures end.CaughtUp? ==> unprocessed == 0
    ensures |terminal.parsed| - |old(terminal.parsed)| < MAX_LOCKED_READ + READ_BUFFER_SIZE
    ensures end.ReadFailed? ==>
              (unprocessed > 0 <==>
               |pty.delivered| > |old(pty.delivered)| && terminal.parsed == old(terminal.parsed))
  {
    unprocessed, end, steps, leasedAt := 0, StillReading, [], 0;
    assert buf[..unprocessed] == [];
    var leased := lock.Lease(t, patience);
    if !leased {
      return;
    }
    leasedAt := |lock.events|;
    var locked;
    end, unprocessed, locked, steps := ReadLoop(pty, terminal, lock, t, buf, outcomes, patience, leasedAt);
    if !end.StillReading? {
      LeaveTerminal(lock, t, locked, leasedAt, Attempts(steps));
    }
    ReadInv(steps);
    LostExactly(AfterScript(steps), old(pty.delivered), old(terminal.parsed), pty.delivered, terminal.parsed,
                buf[..unprocessed]);
  }

  lemma LostExactly(p: Progress, delivered0: Bytes, parsed0: Bytes, delivered: Bytes, parsed: Bytes, buffered: Bytes)
    requires Tells(p, delivered0, parsed0, delivered, parsed, buffered)
    requires buffered != [] && p.locked ==> p.end.StillReading?
    requires !p.locked ==> p.parsed == []
    ensures |parsed| - |parsed0| == |p.parsed|
    ensures !p.end.StillReading? ==> (buffered != [] <==> |delivered| > |delivered0| && parsed == parsed0)
  {
    assert |delivered| == |delivered0| + |p.parsed| + |buffered| && |parsed| == |parsed0| + |p.parsed|;
    assert p.parsed == [] ==> parsed == parsed0 + [] == parsed0;
  }

  /** One more iteration, case by case: what the script says, and that the streams agree with it. */
  lemma Iterated(steps: seq<ReadStep>, p: Progress, outcomes: seq<ReadOutcome>, filled: Bytes, free: bool,
                 delivered0: Bytes, parsed0: Bytes, delivered: Bytes, parsed: Bytes, parses: bool)
    requires p == AfterScript(steps) && p.end.StillReading? && |steps| < |outcomes|
    requires filled == Filled(p.buffered, outcomes[|steps|])
    requires Told(steps, outcomes, StillReading, delivered0, parsed0, delivered, parsed, filled)
    requires parses <==> !outcomes[|steps|].Broken? && filled != []
                         && (p.locked || free || |filled| >= READ_BUFFER_SIZE)
    ensures var outcome := outcomes[|steps|];
            var steps' := steps + [ReadStep(outcome, free)];
            && AfterScript(steps')
               == (if outcome.Broken? then p.(buffered := filled, end := ReadFailed)
                   else if filled == [] then p.(buffered := filled, end := CaughtUp)
                   else if parses then
                     Progress([], p.parsed + filled, true,
                              if |p.parsed| + |filled| >= MAX_LOCKED_READ then CaughtUp else StillReading)
                   else p.(buffered := filled))
            && Attempts(steps')
               == (if !p.locked && !outcome.Broken? && filled != [] then Attempts(steps) + [free] else Attempts(steps))
            && Told(steps', outcomes, AfterScript(steps').end, delivered0, parsed0, delivered,
                    if parses then parsed + filled else parsed, if parses then [] else filled)
  {
    var outcome := outcomes[|steps|];
    FilledMore(p.buffered, outcome, filled);
    ScriptCases(steps, p, outcome, filled, free);
    FollowsMore(steps, outcomes, free);
    hide AfterScript, AfterStep, Attempts, Filled, Follows, Tells;
    TellsOn(p, AfterScript(steps + [ReadStep(outcome, free)]), delivered0, parsed0, delivered, parsed, filled,
            if parses then parsed + filled else parsed, if parses then [] else filled);
  }

  lemma FilledMore(buffered: Bytes, outcome: ReadOutcome, filled: Bytes)
    requires filled == Filled(buffered, outcome)
    ensures |filled| >= |buffered| && filled == buffered + filled[|buffered|..]
    ensures outcome.Broken? ==> filled == buffered
  {
  }

  lemma ScriptCases(steps: seq<ReadStep>, p: Progress, outcome: ReadOutcome, filled: Bytes, free: bool)
    requires p == AfterScript(steps) && p.end.StillReading? && filled == Filled(p.buffered, outcome)
    ensures AfterScript(steps + [ReadStep(outcome, free)])
            == if outcome.Broken? then p.(end := ReadFailed)
               else if filled == [] then p.(end := CaughtUp)
               else if p.locked || free || |filled| >= READ_BUFFER_SIZE then
                 Progress([], p.parsed + filled, true,
                          if |p.parsed| + |filled| >= MAX_LOCKED_READ then CaughtUp else StillReading)
               else p.(buffered := filled)
    ensures Attempts(steps + [ReadStep(outcome, free)])
            == if !p.locked && !outcome.Broken? && filled != [] then Attempts(steps) + [free] else Attempts(steps)
  {
    ScriptMore(steps, ReadStep(outcome, free));
    AttemptsMore(steps, ReadStep(outcome, free));
  }
}
