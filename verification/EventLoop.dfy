/**
 The thread that moves bytes between the pseudoterminal and the terminal emulator.

 What happens to every event is logged: where the streams and the queue stood before and after it, the reads
 made, and whether the loop went on. The log is tied to the real streams, so that what is said about the
 entries is said about the bytes that were read, parsed and written.
 */
module EventLoop {
  import opened Wrappers
  import opened Reading
  import opened PtyIo
  import FairLock
  import FairProtocol

  // ------------------------------------------------------------------ the channel

  lemma ReceivedOne(before: seq<Msg>, received: seq<Msg>, pending: seq<Msg>)
    requires pending != []
    ensures before + received + [pending[0]] == before + (received + [pending[0]])
    ensures before + received + pending == before + received + [pending[0]] + pending[1..]
    ensures Inputs(received + [pending[0]])
            == Inputs(received) + if pending[0].Input? then [pending[0].bytes] else []
    ensures Resizes(received + [pending[0]])
            == Resizes(received) + ResizeOf(pending[0])
  {
    InputsAppend(received, [pending[0]]);
    assert Inputs([pending[0]]) == if pending[0].Input? then [pending[0].bytes] else [];
    ResizesAppend(received, [pending[0]]);
    assert Resizes([pending[0]]) == ResizeOf(pending[0]);
  }

  /**
   `drain_recv_channel`: queue the inputs received, and apply the resizes, in order, until the channel is
   empty or a shutdown is received. Before the i-th receive the messages `arrivals[i]` are sent by others.
   */
  method DrainRecvChannel(rx: PeekableReceiver, state: State, pty: Pty, arrivals: seq<seq<Msg>>)
    returns (open: bool)
    requires state.Valid() && rx.Valid()
    modifies rx, state`writeList, pty`sizes
    ensures rx.Valid() && old(rx.sent) <= rx.sent && (arrivals == [] ==> rx.sent == old(rx.sent))
    ensures |rx.taken| >= |old(rx.taken)| && rx.taken[..|old(rx.taken)|] == old(rx.taken)
    ensures state.writeList == old(state.writeList) + Inputs(rx.taken[|old(rx.taken)|..])
    ensures pty.sizes == old(pty.sizes) + Resizes(rx.taken[|old(rx.taken)|..])
    ensures open ==> rx.Pending() == [] && Shutdown !in rx.taken[|old(rx.taken)|..]
    ensures !open ==>
              && |rx.taken| > |old(rx.taken)| && rx.taken[|rx.taken| - 1] == Shutdown
              && Shutdown !in rx.taken[|old(rx.taken)|..|rx.taken| - 1]
  {
    hide Inputs, Resizes;
    ghost var before := rx.taken;
    ghost var received: seq<Msg> := [];
    NothingReceived();
    var i := 0;
    while true
      invariant 0 <= i <= |arrivals|
      invariant rx.Valid() && old(rx.sent) <= rx.sent && (arrivals == [] ==> rx.sent == old(rx.sent))
      invariant rx.taken == before + received
      invariant Shutdown !in received
      invariant state.writeList == old(state.writeList) + Inputs(received)
      invariant pty.sizes == old(pty.sizes) + Resizes(received)
      decreases |arrivals| - i, |rx.Pending()|
    {
      if i < |arrivals| {
        rx.Send(arrivals[i]);
        i := i + 1;
      }
      ghost var pending := rx.Pending();
      var msg := rx.Recv();
      if msg.None? {
        assert rx.taken[|before|..] == received;
        return true;
      }
      ReceivedOne(before, received, pending);
      received := received + [msg.value];
      match msg.value {
        case Input(bytes) => state.writeList := state.writeList + [bytes];
        case Resize(columns, lines) => pty.OnResize(columns, lines);
        case Shutdown =>
          assert rx.taken[|before|..] == received;
          return false;
      }
    }
  }

  lemma NothingReceived()
    ensures Inputs([]) == [] && Resizes([]) == []
  {
  }

  datatype PtyEvent =
    | ChildEvent(exited: bool, outcomes: seq<ReadOutcome>)
    | ReadWrite(interrupt: bool, readable: bool, writable: bool, outcomes: seq<ReadOutcome>, hungUp: bool)
    | OtherEvent

  // ------------------------------------------------------------------ the log of events

  /** The writing side, every byte read out of the pseudoterminal, and every byte handed to the parser. */
  datatype Shot = Shot(out: Output, delivered: Bytes, parsed: Bytes)

  const NOTHING := Shot(Output([], [], []), [], [])

  datatype EventEnd = GoesOn | Ends | Blocks

  /** An event: what it found, the reads it made with how they ended and what they left, and what it left behind. */
  datatype Entry = Entry(
    event: PtyEvent, from: Shot, steps: seq<ReadStep>, read: ReadEnd, left: Bytes, to: Shot, end: EventEnd)

  predicate Exits(event: PtyEvent) { event.ChildEvent? && event.exited }

  predicate Readable(event: PtyEvent, drainOnExit: bool) {
    (Exits(event) && drainOnExit) || (event.ReadWrite? && !event.interrupt && event.readable)
  }

  /** Nothing is written after a read that failed. */
  predicate Writable(event: PtyEvent, read: ReadEnd) {
    event.ReadWrite? && !event.interrupt && event.writable && read.CaughtUp?
  }

  /** The reads follow the outcomes of the event, and what they say is what was read and parsed. */
  ghost predicate ReadDone(e: Entry)
    requires !e.event.OtherEvent?
  {
    && Told(e.steps, e.event.outcomes, e.read, e.from.delivered, e.from.parsed, e.to.delivered, e.to.parsed, e.left)
    && (!e.read.StillReading? ==> e.left == AfterScript(e.steps).buffered)
  }

  ghost predicate NothingRead(e: Entry) {
    && e.steps == [] && e.read.CaughtUp? && e.left == []
    && e.to.delivered == e.from.delivered && e.to.parsed == e.from.parsed
  }

  /** The event ends the loop: the child has exited, a read failed without a hang-up, or a write failed. */
  ghost predicate EndsLoop(e: Entry) {
    || Exits(e.event)
    || (e.event.ReadWrite? && e.read.ReadFailed? && !e.event.hungUp)
    || WriteFailed(e.from.out.answers, e.to.out.answers)
  }

  /** The event has been acted on: read if readable, written if writable, and the loop left if it has to be. */
  ghost predicate Handled(e: Entry, drainOnExit: bool) {
    && (if Readable(e.event, drainOnExit) then ReadDone(e) else NothingRead(e))
    && (if Writable(e.event, e.read) then WroteOut(e.from.out, e.to.out) else e.to.out == e.from.out)
    && (e.end.Blocks? <==> e.read.StillReading?)
    && (e.end.Ends? <==> !e.read.StillReading? && EndsLoop(e))
  }

  ghost predicate AllHandled(log: seq<Entry>, drainOnExit: bool) {
    forall i | 0 <= i < |log| :: Handled(log[i], drainOnExit)
  }

  /** Between events chunks are queued, and nothing else happens to the streams. */
  predicate Later(a: Shot, b: Shot) {
    && b.delivered == a.delivered && b.parsed == a.parsed && b.out.accepted == a.out.accepted
    && b.out.answers == a.out.answers && a.out.chunks <= b.out.chunks
  }

  lemma LaterTwice(a: Shot, b: Shot, c: Shot)
    requires Later(a, b) && Later(b, c)
    ensures Later(a, c)
  {
  }

  /** The entries lead from `a` to `b`, one after the other. */
  ghost predicate Linked(log: seq<Entry>, a: Shot, b: Shot) {
    if log == [] then Later(a, b)
    else
      var n := |log| - 1;
      Linked(log[..n], a, log[n].from) && Later(log[n].to, b)
  }

  lemma LinkedLater(log: seq<Entry>, a: Shot, b: Shot, c: Shot)
    requires Linked(log, a, b) && Later(b, c)
    ensures Linked(log, a, c)
  {
    if log == [] {
      LaterTwice(a, b, c);
    } else {
      LaterTwice(log[|log| - 1].to, b, c);
    }
  }

  lemma LinkedMore(log: seq<Entry>, a: Shot, e: Entry)
    requires Linked(log, a, e.from)
    ensures Linked(log + [e], a, e.to)
  {
    assert (log + [e])[..|log|] == log;
  }

  /** Bytes are only accepted, and writes answered, after the earlier ones. */
  predicate OutLater(a: Output, b: Output) {
    a.answers <= b.answers && a.accepted <= b.accepted
  }

  lemma EntryGrows(e: Entry, drainOnExit: bool)
    requires Handled(e, drainOnExit)
    ensures OutLater(e.from.out, e.to.out)
  {
  }

  lemma LinkGrows(a: Shot, b: Shot)
    requires Later(a, b)
    ensures OutLater(a.out, b.out)
  {
  }

  lemma OutTwice(a: Output, b: Output, c: Output)
    requires OutLater(a, b) && OutLater(b, c)
    ensures OutLater(a, c)
  {
  }

  lemma {:induction false} LogGrows(log: seq<Entry>, a: Shot, b: Shot, drainOnExit: bool)
    requires Linked(log, a, b) && AllHandled(log, drainOnExit)
    ensures OutLater(a.out, b.out)
  {
    hide OutLater, Handled, Later;
    if log == [] {
      LinkGrows(a, b);
    } else {
      var n := |log| - 1;
      LogGrows(log[..n], a, log[n].from, drainOnExit);
      EntryGrows(log[n], drainOnExit);
      LinkGrows(log[n].to, b);
      OutTwice(a.out, log[n].from.out, log[n].to.out);
      OutTwice(a.out, log[n].to.out, b.out);
    }
  }

  /** Everything written before an entry is still there at the end, and so are the answers. */
  lemma {:induction false} OutGrows(log: seq<Entry>, a: Shot, b: Shot, k: nat, drainOnExit: bool)
    requires Linked(log, a, b) && AllHandled(log, drainOnExit) && k < |log|
    ensures OutLater(a.out, log[k].from.out) && OutLater(log[k].from.out, log[k].to.out)
    ensures OutLater(log[k].to.out, b.out)
  {
    hide OutLater, Handled, Later;
    var n := |log| - 1;
    EntryGrows(log[n], drainOnExit);
    LinkGrows(log[n].to, b);
    if k < n {
      assert log[..n][k] == log[k];
      OutGrows(log[..n], a, log[n].from, k, drainOnExit);
      OutTwice(log[k].to.out, log[n].from.out, log[n].to.out);
      OutTwice(log[k].to.out, log[n].to.out, b.out);
    } else {
      LogGrows(log[..n], a, log[n].from, drainOnExit);
    }
  }

  /**
   The write that an event made, seen from the answers of the operating system up to now: it was answered, it
   moved bytes exactly if its first answer accepts some, and it emptied the queue exactly if all accept some.
   */
  ghost predicate Served(e: Entry, answers: seq<WriteResult>) {
    && |e.from.out.answers| < |e.to.out.answers| <= |answers|
    && (|e.to.out.accepted| > |e.from.out.accepted| <==> Accepts(answers, |e.from.out.answers|))
    && (e.to.out.chunks == [] <==> AllAccept(answers, |e.from.out.answers|, |e.to.out.answers|))
  }

  /**
   What has to be done about an event. A readable one, and a child's exit when draining, is read by the
   outcomes of its reads; a writable one that finds chunks and no failed read is served. It ends the loop
   exactly if the child has exited, a read failed without a hang-up, or a write failed.
   */
  ghost predicate ActedOn(e: Entry, drainOnExit: bool, answers: seq<WriteResult>) {
    match e.event
    case ChildEvent(exited, outcomes) =>
      && (if exited && drainOnExit then ReadDone(e) else e.to == e.from)
      && e.to.out == e.from.out
      && (e.end.Ends? <==> exited && !(drainOnExit && e.read.StillReading?))
    case ReadWrite(interrupt, readable, writable, outcomes, hungUp) =>
      && (interrupt ==> e.to == e.from && e.end.GoesOn?)
      && (!interrupt && readable ==> ReadDone(e))
      && (!interrupt && writable && (readable ==> e.read.CaughtUp?) && e.from.out.chunks != [] ==> Served(e, answers))
      && (e.end.Ends? <==>
            && !interrupt
            && ((readable && e.read.ReadFailed? && !hungUp)
                || (|e.to.out.answers| > |e.from.out.answers| && e.to.out.answers[|e.to.out.answers| - 1].Fatal?)))
      && (e.end.Blocks? <==> !interrupt && readable && e.read.StillReading?)
    case OtherEvent => e.to == e.from && e.end.GoesOn?
  }

  /** Every logged event has been acted on. */
  lemma EventsAreActedOn(log: seq<Entry>, a: Shot, b: Shot, k: nat, drainOnExit: bool)
    requires Linked(log, a, b) && AllHandled(log, drainOnExit) && k < |log|
    ensures ActedOn(log[k], drainOnExit, b.out.answers)
  {
    OutGrows(log, a, b, k, drainOnExit);
    assert Handled(log[k], drainOnExit);
    hide Handled, Linked, AllHandled;
    HandledIsActedOn(log[k], drainOnExit, b.out.answers);
  }

  lemma HandledIsActedOn(e: Entry, drainOnExit: bool, answers: seq<WriteResult>)
    requires Handled(e, drainOnExit) && e.to.out.answers <= answers
    ensures ActedOn(e, drainOnExit, answers)
  {
    hide Served, WroteOut, ReadDone, Accepts, AllAccept;
    if Writable(e.event, e.read) && e.from.out.chunks != [] {
      WrittenIsServed(e, answers);
    }
  }

  lemma WrittenIsServed(e: Entry, answers: seq<WriteResult>)
    requires WroteOut(e.from.out, e.to.out) && e.from.out.chunks != [] && e.to.out.answers <= answers
    ensures Served(e, answers)
  {
    AnswersKept(e.from.out, e.to.out, answers);
    WroteOutServes(e.from.out, e.to.out);
    hide WroteOut, Accepts, AllAccept;
  }

  lemma WroteOutServes(a: Output, b: Output)
    requires WroteOut(a, b)
    ensures |b.accepted| > |a.accepted| <==> Accepts(b.answers, |a.answers|)
    ensures b.chunks == [] <==> AllAccept(b.answers, |a.answers|, |b.answers|)
  {
  }

  lemma AnswersKept(a: Output, b: Output, answers: seq<WriteResult>)
    requires WroteOut(a, b) && a.chunks != [] && b.answers <= answers
    ensures |a.answers| < |b.answers|
    ensures Accepts(answers, |a.answers|) <==> Accepts(b.answers, |a.answers|)
    ensures AllAccept(answers, |a.answers|, |b.answers|) <==> AllAccept(b.answers, |a.answers|, |b.answers|)
  {
    forall j | 0 <= j < |b.answers|
      ensures Accepts(answers, j) <==> Accepts(b.answers, j)
    {
      assert answers[j] == b.answers[j];
    }
  }

  /** The bytes the logged reads have parsed. */
  function Parsed(log: seq<Entry>): Bytes {
    if log == [] then []
    else Parsed(log[..|log| - 1]) + AfterScript(log[|log| - 1].steps).parsed
  }

  /** The bytes the logged reads have read. */
  function Delivered(log: seq<Entry>): Bytes {
    if log == [] then []
    else
      var e := log[|log| - 1];
      Delivered(log[..|log| - 1]) + (AfterScript(e.steps).parsed + e.left)
  }

  /** Over any number of events, what was read and what was parsed is what the scripts of the reads say. */
  lemma {:induction false} ReadsFollowScripts(log: seq<Entry>, a: Shot, b: Shot, drainOnExit: bool)
    requires Linked(log, a, b) && AllHandled(log, drainOnExit)
    ensures b.parsed == a.parsed + Parsed(log) && b.delivered == a.delivered + Delivered(log)
  {
    hide Handled, AfterScript;
    if log != [] {
      var n := |log| - 1;
      var init, e := log[..n], log[n];
      ReadsFollowScripts(init, a, e.from, drainOnExit);
      OneRead(e, drainOnExit);
      var parsed := AfterScript(e.steps).parsed;
      Grouped(a.parsed, Parsed(init), parsed);
      Grouped(a.delivered, Delivered(init), parsed + e.left);
    }
  }

  lemma Grouped(a: Bytes, b: Bytes, c: Bytes)
    ensures a + b + c == a + (b + c)
  {
  }

  lemma OneRead(e: Entry, drainOnExit: bool)
    requires Handled(e, drainOnExit)
    ensures e.to.parsed == e.from.parsed + AfterScript(e.steps).parsed
    ensures e.to.delivered == e.from.delivered + (AfterScript(e.steps).parsed + e.left)
  {
    var parsed := AfterScript(e.steps).parsed;
    assert e.from.delivered + parsed + e.left == e.from.delivered + (parsed + e.left);
  }

  function EventsIn(log: seq<Entry>): seq<PtyEvent> {
    if log == [] then [] else EventsIn(log[..|log| - 1]) + [log[|log| - 1].event]
  }

  lemma EventsAppend(a: seq<Entry>, b: seq<Entry>)
    ensures EventsIn(a + b) == EventsIn(a) + EventsIn(b)
  {
    if b == [] {
      assert a + b == a;
    } else {
      var n := |b| - 1;
      assert (a + b)[..|a| + n] == a + b[..n] && (a + b)[|a| + n] == b[n];
      EventsAppend(a, b[..n]);
    }
  }

  lemma EventsMore(log: seq<Entry>, e: Entry)
    ensures EventsIn(log + [e]) == EventsIn(log) + [e.event]
  {
    assert (log + [e])[..|log|] == log;
  }

  lemma LogMore(log: seq<Entry>, a: Shot, e: Entry, drainOnExit: bool)
    requires Linked(log, a, e.from) && AllHandled(log, drainOnExit) && Handled(e, drainOnExit)
    ensures Linked(log + [e], a, e.to) && AllHandled(log + [e], drainOnExit)
  {
    hide Handled;
    LinkedMore(log, a, e);
  }

  predicate LastIs(log: seq<Entry>, end: EventEnd) {
    log != [] && log[|log| - 1].end == end
  }

  /** The reads of the last event have used up its outcomes. */
  predicate RanOut(log: seq<Entry>) {
    && log != [] && !log[|log| - 1].event.OtherEvent?
    && |log[|log| - 1].steps| == |log[|log| - 1].event.outcomes|
  }

  predicate AllButLastGoOn(log: seq<Entry>) {
    forall i | 0 <= i < |log| - 1 :: log[i].end.GoesOn?
  }

  // ------------------------------------------------------------------ turns

  /** A wait for events: the messages that arrive meanwhile, and how it ends. */
  datatype PollResult = PollResult(waiting: seq<Msg>, outcome: PollOutcome)

  /** `arrivals` are the messages that arrive while the channel is drained afterwards. */
  datatype PollOutcome = Interrupted | PollFailed | Ready(events: seq<PtyEvent>, arrivals: seq<seq<Msg>>)

  /** If the drains are quiet, exactly what arrived during the first `i` waits has been sent. */
  ghost predicate SentDuring(polls: seq<PollResult>, i: nat, sent0: seq<Msg>, sent: seq<Msg>) {
    i <= |polls| && (QuietDrains(polls) ==> sent == sent0 + Waited(polls[..i]))
  }

  /** The last of the first `i` waits was not interrupted. */
  predicate ReadyBefore(polls: seq<PollResult>, i: nat) {
    0 < i <= |polls| && polls[i - 1].outcome.Ready?
  }

  lemma ReadyAfter(polls: seq<PollResult>, i: nat)
    requires i < |polls|
    ensures ReadyBefore(polls, i + 1) <==> polls[i].outcome.Ready?
  {
  }

  lemma SentNothing(polls: seq<PollResult>, sent0: seq<Msg>)
    ensures SentDuring(polls, 0, sent0, sent0)
  {
    assert sent0 + Waited(polls[..0]) == sent0;
  }

  lemma SentMore(polls: seq<PollResult>, i: nat, sent0: seq<Msg>, sent1: seq<Msg>, sent: seq<Msg>)
    requires i < |polls| && SentDuring(polls, i, sent0, sent1)
    requires (polls[i].outcome.Ready? ==> polls[i].outcome.arrivals == []) ==> sent == sent1 + polls[i].waiting
    ensures SentDuring(polls, i + 1, sent0, sent)
  {
    assert polls[..i + 1][..i] == polls[..i];
    if QuietDrains(polls) {
      assert sent == sent0 + (Waited(polls[..i]) + polls[i].waiting);
    }
  }

  /** Bytes are only ever accepted, and messages only taken and sent, after the earlier ones. */
  ghost predicate Grown(accepted0: Bytes, accepted: Bytes, taken0: seq<Msg>, taken: seq<Msg>,
                        sent0: seq<Msg>, sent: seq<Msg>)
  {
    accepted0 <= accepted && taken0 <= taken && sent0 <= sent
  }

  lemma GrownMore(accepted0: Bytes, accepted1: Bytes, accepted: Bytes, taken0: seq<Msg>, taken1: seq<Msg>,
                  taken: seq<Msg>, sent0: seq<Msg>, sent1: seq<Msg>, sent: seq<Msg>)
    requires Grown(accepted0, accepted1, taken0, taken1, sent0, sent1)
    requires accepted1 <= accepted && taken1 <= taken && sent1 <= sent
    ensures Grown(accepted0, accepted, taken0, taken, sent0, sent)
  {
  }

  /** The messages that arrive during the waits. */
  function Waited(polls: seq<PollResult>): seq<Msg> {
    if polls == [] then [] else Waited(polls[..|polls| - 1]) + polls[|polls| - 1].waiting
  }

  /** No message arrives while the channel is being drained. */
  ghost predicate QuietDrains(polls: seq<PollResult>) {
    forall i | 0 <= i < |polls| :: polls[i].outcome.Ready? ==> polls[i].outcome.arrivals == []
  }

  datatype TurnEnd = NextTurn | LoopEnded | InRead

  function EventsOf(poll: PollResult): seq<PtyEvent> {
    if poll.outcome.Ready? then poll.outcome.events else []
  }

  function EventsOver(polls: seq<PollResult>): seq<PtyEvent> {
    if polls == [] then [] else EventsOver(polls[..|polls| - 1]) + EventsOf(polls[|polls| - 1])
  }

  /**
   The events have been handled in order, up to the one that ends the turn if one does, and the turn ends as
   the last of them says.
   */
  ghost predicate EventsTold(events: seq<PtyEvent>, entries: seq<Entry>, end: TurnEnd) {
    && EventsIn(entries) <= events && AllButLastGoOn(entries)
    && (end.NextTurn? ==> EventsIn(entries) == events)
    && (end.LoopEnded? <==> LastIs(entries, Ends)) && (end.InRead? <==> LastIs(entries, Blocks))
  }

  /** The first `i` events have been handled, and the turn goes on. */
  ghost predicate ToldSoFar(events: seq<PtyEvent>, i: nat, entries: seq<Entry>) {
    && i <= |events| && EventsIn(entries) == events[..i]
    && forall k | 0 <= k < |entries| :: entries[k].end.GoesOn?
  }

  lemma ToldMore(events: seq<PtyEvent>, i: nat, entries: seq<Entry>, e: Entry)
    requires i < |events| && ToldSoFar(events, i, entries) && e.event == events[i]
    ensures if e.end.GoesOn? then ToldSoFar(events, i + 1, entries + [e])
            else EventsTold(events, entries + [e], if e.end.Ends? then LoopEnded else InRead)
  {
    EventsMore(entries, e);
    assert events[..i] + [events[i]] == events[..i + 1];
  }

  lemma ToldAll(events: seq<PtyEvent>, entries: seq<Entry>)
    requires ToldSoFar(events, |events|, entries)
    ensures EventsTold(events, entries, NextTurn)
  {
    assert events[..|events|] == events;
  }

  /** A turn ends the loop exactly if the wait failed, a shutdown was received, or its last event ends it. */
  ghost predicate TurnTold(poll: PollResult, entries: seq<Entry>, end: TurnEnd, shut: bool) {
    if poll.outcome.PollFailed? || shut then entries == [] && end.LoopEnded?
    else EventsTold(EventsOf(poll), entries, end)
  }

  /** The same of the first `turns` waits. */
  ghost predicate TurnsTold(polls: seq<PollResult>, turns: nat, entries: seq<Entry>, end: TurnEnd, shut: bool) {
    && turns <= |polls| && AllButLastGoOn(entries)
    && (forall i | 0 <= i < turns - 1 :: !polls[i].outcome.PollFailed?)
    && EventsIn(entries) <= EventsOver(polls[..turns])
    && (turns > 0 ==> EventsOver(polls[..turns - 1]) <= EventsIn(entries))
    && (end.NextTurn? ==> EventsIn(entries) == EventsOver(polls[..turns]))
    && (end.LoopEnded? <==> (turns > 0 && polls[turns - 1].outcome.PollFailed?) || shut || LastIs(entries, Ends))
    && (end.InRead? <==> LastIs(entries, Blocks))
  }

  /** The same of what has been logged since the log was `log0`. */
  ghost predicate LogTold(
      polls: seq<PollResult>, turns: nat, log0: seq<Entry>, log: seq<Entry>, end: TurnEnd, shut: bool)
  {
    log0 <= log && TurnsTold(polls, turns, log[|log0|..], end, shut)
  }

  lemma NoTurnsTold(polls: seq<PollResult>, log: seq<Entry>)
    ensures LogTold(polls, 0, log, log, NextTurn, false)
  {
    assert log[|log|..] == [];
  }

  lemma LogToldMore(polls: seq<PollResult>, turns: nat, log0: seq<Entry>, before: seq<Entry>, log: seq<Entry>,
                    end: TurnEnd, shut: bool)
    requires turns < |polls| && LogTold(polls, turns, log0, before, NextTurn, false)
    requires before <= log && TurnTold(polls[turns], log[|before|..], end, shut)
    ensures LogTold(polls, turns + 1, log0, log, end, shut)
  {
    TurnsMore(polls, turns, before[|log0|..], log[|before|..], end, shut);
    assert log[|log0|..] == before[|log0|..] + log[|before|..];
  }

  lemma TurnsMore(polls: seq<PollResult>, turns: nat, entries: seq<Entry>, more: seq<Entry>, end: TurnEnd, shut: bool)
    requires turns < |polls| && TurnsTold(polls, turns, entries, NextTurn, false)
    requires TurnTold(polls[turns], more, end, shut)
    ensures TurnsTold(polls, turns + 1, entries + more, end, shut)
  {
    EventsAppend(entries, more);
    EventsInNone();
    assert polls[..turns + 1][..turns] == polls[..turns];
    hide EventsIn, EventsOf;
    assert EventsOver(polls[..turns + 1]) == EventsOver(polls[..turns]) + EventsOf(polls[turns]);
    LastOfBoth(entries, more);
  }

  lemma EventsInNone()
    ensures EventsIn([]) == []
  {
  }

  lemma LastOfBoth(a: seq<Entry>, b: seq<Entry>)
    requires AllButLastGoOn(a) && AllButLastGoOn(b) && !LastIs(a, Ends) && !LastIs(a, Blocks)
    ensures AllButLastGoOn(a + b)
    ensures LastIs(a + b, Ends) <==> LastIs(b, Ends)
    ensures LastIs(a + b, Blocks) <==> LastIs(b, Blocks)
  {
    if b == [] {
      assert a + b == a;
    }
  }

  class EventLoop {
    const rx: PeekableReceiver
    const state: State
    const pty: Pty
    const terminal: Terminal
    const buf: array<byte>
    /** The lock of the terminal, which other threads use too, and the thread that runs the loop. */
    const lock: FairLock.FairMutex
    const reader: FairProtocol.Thread
    /** How often the reader looks at a mutex that is held before a call of it counts as not returning. */
    const patience: nat
    const drainOnExit: bool
    /** `interest.writable` */
    var interestWritable: bool
    /** How many bytes failed reads have lost. */
    ghost var dropped: nat
    /** What has happened to the events so far. */
    ghost var log: seq<Entry>

    constructor (lock: FairLock.FairMutex, reader: FairProtocol.Thread, patience: nat, drainOnExit: bool)
      requires lock.Valid() && lock.at.At(reader) == FairProtocol.Idle
      ensures AtHead() && log == []
      ensures this.lock == lock && this.reader == reader && this.patience == patience && this.drainOnExit == drainOnExit
      ensures fresh(rx) && fresh(state) && fresh(pty) && fresh(terminal) && fresh(buf)
      ensures rx.sent == [] && Now() == NOTHING
    {
      rx := new PeekableReceiver();
      state := new State();
      pty := new Pty();
      terminal := new Terminal();
      buf := new byte[READ_BUFFER_SIZE];
      this.lock, this.reader, this.patience, this.drainOnExit := lock, reader, patience, drainOnExit;
      interestWritable, dropped, log := false, 0, [];
    }

    /** Where the streams and the queue stand. */
    ghost function Now(): Shot
      reads state, pty`accepted, pty`answers, pty`delivered, terminal
    {
      Shot(OutputOf(state, pty), pty.delivered, terminal.parsed)
    }

    /** The log accounts for everything that was written, read and parsed. */
    ghost predicate Logged()
      reads this`log, state, pty`accepted, pty`answers, pty`delivered, terminal
    {
      Linked(log, NOTHING, Now()) && AllHandled(log, drainOnExit)
    }

    /**
     Bytes accepted so far, then bytes unsent, are the inputs received so far in send order; the resizes
     received so far have been applied in order.
     */
    ghost predicate Conserved()
      reads rx, state, pty`accepted, pty`sizes
    {
      var inputs := Inputs(rx.taken);
      && rx.Valid() && state.Valid()
      && pty.accepted + state.Unsent() == Flatten(inputs)
      && IsSuffix(state.Chunks(), inputs)
      && pty.sizes == Resizes(rx.taken)
    }

    /** Every byte read has been parsed, in order, except those dropped when a read failed. */
    ghost predicate ReadConserved()
      reads this`dropped, pty`delivered, terminal
    {
      && |pty.delivered| == |terminal.parsed| + dropped
      && (dropped == 0 ==> pty.delivered == terminal.parsed)
    }

    ghost predicate ReaderIdle()
      reads lock
    {
      lock.Valid() && lock.at.At(reader) == FairProtocol.Idle
    }

    /** The invariant at the head of the loop. */
    ghost predicate AtHead()
      reads this, rx, state, pty, terminal, lock
    {
      && Conserved() && ReadConserved() && Logged()
      && Shutdown !in rx.taken
      && interestWritable == pty.registeredWritable == state.NeedsWrite()
      && buf.Length == READ_BUFFER_SIZE && ReaderIdle()
    }

    /**
     A read call that does not return has used up its script, or waits for a mutex that each of `patience`
     looks since event `from` found held.
     */
    ghost predicate Stuck(ranOut: bool, from: nat)
      reads lock
    {
      ranOut || lock.GaveUpSince(reader, from, patience)
    }

    /** One turn of the event loop, through every path that continues or leaves it. */
    method Turn(poll: PollResult) returns (end: TurnEnd)
      requires AtHead()
      modifies this, rx, state, pty, terminal, buf, lock
      ensures Conserved() && Logged()
      ensures !end.InRead? ==> ReadConserved()
      ensures end.NextTurn? ==> AtHead()
      ensures old(log) <= log && TurnTold(poll, log[|old(log)|..], end, Shutdown in rx.taken)
      ensures end.InRead? ==> Stuck(RanOut(log), |old(lock.events)|)
      ensures |lock.events| >= |old(lock.events)|
      ensures old(pty.accepted) <= pty.accepted && old(rx.taken) <= rx.taken
      ensures old(rx.sent) + poll.waiting <= rx.sent
      ensures (poll.outcome.Ready? ==> poll.outcome.arrivals == []) ==> rx.sent == old(rx.sent) + poll.waiting
      ensures poll.outcome.Ready? && end.NextTurn? ==> rx.Pending() == []
    {
      hide Conserved, ReadConserved, Logged, EventsTold, FairLock.FairMutex.GaveUpSince, PeekableReceiver.Pending;
      hide State.NeedsWrite, FairLock.FairMutex.Valid, State.Chunks;
      NoEvents();
      assert log[|log|..] == [];
      Arrive(poll.waiting);
      match poll.outcome {
        case Interrupted => return NextTurn;
        case PollFailed => return LoopEnded;
        case Ready(_, _) =>
      }
      if poll.outcome.events == [] {
        var idle := NonePending();
        if idle {
          return NextTurn;
        }
      }
      var open := Drain(poll.outcome.arrivals);
      if !open {
        return LoopEnded;
      }
      end := HandleEvents(poll.outcome.events);
      if end.NextTurn? {
        var needsWrite := state.NeedsWrite();
        if needsWrite != interestWritable {
          interestWritable := needsWrite;
          pty.Reregister(interestWritable);
        }
      }
    }

    lemma NoEvents()
      ensures EventsTold([], [], NextTurn)
    {
    }

    /** Messages arrive while the loop waits. */
    method Arrive(msgs: seq<Msg>)
      requires Conserved()
      modifies rx
      ensures Conserved() && rx.taken == old(rx.taken) && rx.sent == old(rx.sent) + msgs
    {
      hide Flatten, Inputs, Resizes, IsSuffix, State.Chunks;
      rx.Send(msgs);
    }

    /** `self.rx.peek().is_none()` */
    method NonePending() returns (idle: bool)
      requires Conserved()
      modifies rx
      ensures Conserved() && rx.taken == old(rx.taken) && rx.sent == old(rx.sent)
      ensures idle <==> rx.Pending() == []
    {
      hide Flatten, Inputs, Resizes, IsSuffix, State.Chunks;
      var msg := rx.Peek();
      idle := msg.None?;
    }

    method Drain(arrivals: seq<seq<Msg>>) returns (open: bool)
      requires Conserved() && Logged() && Shutdown !in rx.taken
      modifies rx, state`writeList, pty`sizes
      ensures Conserved() && Logged() && old(rx.taken) <= rx.taken
      ensures old(rx.sent) <= rx.sent && (arrivals == [] ==> rx.sent == old(rx.sent))
      ensures open ==> rx.Pending() == []
      ensures open <==> Shutdown !in rx.taken
    {
      hide Flatten, Inputs, Resizes, IsSuffix, Linked, AllHandled;
      ghost var before, queued, chunks, now := rx.taken, state.writeList, state.Chunks(), Now();
      open := DrainRecvChannel(rx, state, pty, arrivals);
      ghost var received := rx.taken[|before|..];
      assert rx.taken == before + received;
      InputsAppend(before, received);
      ResizesAppend(before, received);
      FlattenAppend(Inputs(before), Inputs(received));
      FlattenAppend(queued, Inputs(received));
      SuffixAppend(chunks, Inputs(before), Inputs(received));
      assert state.Chunks() == chunks + Inputs(received);
      LinkedLater(log, NOTHING, now, Now());
    }

    /** A readable event: what `pty_read` has done, and the bytes it lost. */
    method Read(outcomes: seq<ReadOutcome>) returns (end: ReadEnd, ghost steps: seq<ReadStep>, ghost left: Bytes)
      requires ReadConserved() && buf.Length == READ_BUFFER_SIZE && ReaderIdle()
      modifies this`dropped, pty`delivered, terminal, buf, lock
      ensures !end.StillReading? ==> ReaderIdle() && ReadConserved() && left == AfterScript(steps).buffered
      ensures Told(steps, outcomes, end, old(pty.delivered), old(terminal.parsed), pty.delivered, terminal.parsed, left)
      ensures end.StillReading? ==> Stuck(|steps| == |outcomes|, |old(lock.events)|)
      ensures |lock.events| >= |old(lock.events)|
    {
      hide Told, AfterScript, Attempts, FairLock.FairMutex.GaveUpSince;
      var unprocessed: nat;
      ghost var leasedAt;
      end, unprocessed, steps, leasedAt := PtyRead(pty, terminal, lock, reader, buf, outcomes, patience);
      left := buf[..unprocessed];
      ReadAmount(steps, outcomes, end, old(pty.delivered), old(terminal.parsed), pty.delivered, terminal.parsed, left);
      dropped := dropped + unprocessed;
    }

    lemma ReadAmount(
        steps: seq<ReadStep>, outcomes: seq<ReadOutcome>, end: ReadEnd,
        delivered0: Bytes, parsed0: Bytes, delivered: Bytes, parsed: Bytes, left: Bytes)
      requires Told(steps, outcomes, end, delivered0, parsed0, delivered, parsed, left)
      ensures |delivered| - |delivered0| == |parsed| - |parsed0| + |left|
      ensures left == [] && delivered0 == parsed0 ==> delivered == parsed
    {
    }

    method Write() returns (ok: bool)
      requires Conserved()
      modifies state, pty`accepted, pty`answers
      ensures Conserved() && old(pty.accepted) <= pty.accepted
      ensures WroteOut(old(OutputOf(state, pty)), OutputOf(state, pty))
      ensures ok <==> !WriteFailed(old(pty.answers), pty.answers)
    {
      ConservedMeans();
      hide Conserved, Flatten, Inputs, Resizes, IsSuffix, WroteOut, WriteFailed, State.Unsent, State.Valid;
      hide PeekableReceiver.Valid, State.Chunks;
      ghost var before := OutputOf(state, pty);
      ok := PtyWrite(state, pty);
      WroteSuffix(before, OutputOf(state, pty));
      SuffixTransitive(state.Chunks(), before.chunks, Inputs(rx.taken));
      ConservedAgain();
    }

    lemma ConservedMeans()
      requires Conserved()
      ensures rx.Valid() && state.Valid() && pty.sizes == Resizes(rx.taken)
      ensures pty.accepted + state.Unsent() == Flatten(Inputs(rx.taken)) && IsSuffix(state.Chunks(), Inputs(rx.taken))
    {
    }

    lemma ConservedAgain()
      requires rx.Valid() && state.Valid() && pty.sizes == Resizes(rx.taken)
      requires pty.accepted + state.Unsent() == Flatten(Inputs(rx.taken)) && IsSuffix(state.Chunks(), Inputs(rx.taken))
      ensures Conserved()
    {
    }

    lemma WroteSuffix(a: Output, b: Output)
      requires WroteOut(a, b)
      ensures IsSuffix(b.chunks, a.chunks) && a.accepted <= b.accepted
    {
    }

    /** One event: the body of the loop over the events. */
    method HandleEvent(event: PtyEvent)
      returns (end: EventEnd, ghost steps: seq<ReadStep>, ghost read: ReadEnd, ghost left: Bytes)
      requires Conserved() && ReadConserved() && buf.Length == READ_BUFFER_SIZE && ReaderIdle()
      modifies this`dropped, state, pty`accepted, pty`answers, pty`delivered, terminal, buf, lock
      ensures Conserved() && old(pty.accepted) <= pty.accepted
      ensures !end.Blocks? ==> ReaderIdle() && ReadConserved()
      ensures Handled(Entry(event, old(Now()), steps, read, left, Now(), end), drainOnExit)
      ensures end.Blocks? ==>
                !event.OtherEvent? && Stuck(|steps| == |event.outcomes|, |old(lock.events)|)
      ensures |lock.events| >= |old(lock.events)|
    {
      hide Told, AfterScript, WroteOut, Conserved, ReadConserved, ReaderIdle, FairLock.FairMutex.GaveUpSince;
      steps, read, left := [], CaughtUp, [];
      match event {
        case ChildEvent(exited, outcomes) =>
          if exited {
            if drainOnExit {
              var r;
              r, steps, left := Read(outcomes);
              read := r;
              if r.StillReading? {
                end := Blocks;
                return;
              }
            }
            end := Ends;
            return;
          }
        case ReadWrite(interrupt, readable, writable, outcomes, hungUp) =>
          if interrupt {
            end := GoesOn;
            return;
          }
          if readable {
            var r;
            r, steps, left := Read(outcomes);
            read := r;
            if r.StillReading? {
              end := Blocks;
              return;
            }
            if r.ReadFailed? {
              end := if hungUp then GoesOn else Ends;
              return;
            }
          }
          if writable {
            var ok := Write();
            if !ok {
              end := Ends;
              return;
            }
          }
        case OtherEvent =>
      }
      end := GoesOn;
    }

    method HandleEvents(events: seq<PtyEvent>) returns (end: TurnEnd)
      requires Conserved() && ReadConserved() && Logged() && buf.Length == READ_BUFFER_SIZE && ReaderIdle()
      modifies this`dropped, this`log, state, pty`accepted, pty`answers, pty`delivered, terminal, buf, lock
      ensures Conserved() && Logged() && old(pty.accepted) <= pty.accepted
      ensures !end.InRead? ==> ReaderIdle() && ReadConserved()
      ensures old(log) <= log && EventsTold(events, log[|old(log)|..], end)
      ensures end.InRead? ==> Stuck(RanOut(log), |old(lock.events)|)
      ensures |lock.events| >= |old(lock.events)|
    {
      hide Conserved, ReadConserved, ReaderIdle, Handled, Linked, AllHandled, EventsTold, ToldSoFar;
      hide FairLock.FairMutex.GaveUp;
      ghost var done: seq<Entry> := [];
      NothingHandled(events);
      for i := 0 to |events|
        invariant Conserved() && ReadConserved() && ReaderIdle() && Logged()
        invariant old(pty.accepted) <= pty.accepted
        invariant log == old(log) + done && ToldSoFar(events, i, done)
        invariant |lock.events| >= |old(lock.events)|
      {
        ghost var from := Now();
        var handled;
        ghost var steps, read, left;
        handled, steps, read, left := HandleEvent(events[i]);
        ghost var e := Entry(events[i], from, steps, read, left, Now(), handled);
        LogMore(log, NOTHING, e, drainOnExit);
        ToldMore(events, i, done, e);
        log, done := log + [e], done + [e];
        if !handled.GoesOn? {
          assert log[|old(log)|..] == done;
          return if handled.Ends? then LoopEnded else InRead;
        }
      }
      ToldAll(events, done);
      assert log[|old(log)|..] == done;
      end := NextTurn;
    }

    lemma NothingHandled(events: seq<PtyEvent>)
      ensures ToldSoFar(events, 0, [])
    {
    }

    /**
     What the first `turns` turns have left behind since the streams, the log and the record of the lock were
     as given, the last of them with result `end`.
     */
    ghost predicate Ran(polls: seq<PollResult>, turns: nat, end: TurnEnd, accepted0: Bytes, taken0: seq<Msg>,
                        sent0: seq<Msg>, log0: seq<Entry>, events0: nat)
      reads this`log, rx, pty`accepted, lock
    {
      && Grown(accepted0, pty.accepted, taken0, rx.taken, sent0, rx.sent)
      && SentDuring(polls, turns, sent0, rx.sent)
      && (end.NextTurn? && ReadyBefore(polls, turns) ==> rx.Pending() == [])
      && LogTold(polls, turns, log0, log, end, Shutdown in rx.taken)
      && (end.InRead? ==> Stuck(RanOut(log), events0)) && |lock.events| >= events0
    }

    lemma NothingRan(polls: seq<PollResult>)
      requires Shutdown !in rx.taken
      ensures Ran(polls, 0, NextTurn, pty.accepted, rx.taken, rx.sent, log, |lock.events|)
    {
      SentNothing(polls, rx.sent);
      NoTurnsTold(polls, log);
    }

    /** The turn after wait number `i`. */
    method NextOf(polls: seq<PollResult>, i: nat, ghost accepted0: Bytes, ghost taken0: seq<Msg>,
                  ghost sent0: seq<Msg>, ghost log0: seq<Entry>, ghost events0: nat)
      returns (end: TurnEnd)
      requires i < |polls| && AtHead() && Ran(polls, i, NextTurn, accepted0, taken0, sent0, log0, events0)
      modifies this, rx, state, pty, terminal, buf, lock
      ensures Conserved() && Logged()
      ensures !end.InRead? ==> ReadConserved()
      ensures end.NextTurn? ==> AtHead()
      ensures Ran(polls, i + 1, end, accepted0, taken0, sent0, log0, events0)
    {
      NotShutAtHead();
      hide AtHead, Conserved, ReadConserved, Logged, Grown, SentDuring, ReadyBefore, PeekableReceiver.Pending;
      hide TurnTold, LogTold, Stuck;
      ghost var events := |lock.events|;
      ReadyAfter(polls, i);
      ghost var accepted, taken, sent, before := pty.accepted, rx.taken, rx.sent, log;
      end := Turn(polls[i]);
      GrownMore(accepted0, accepted, pty.accepted, taken0, taken, rx.taken, sent0, sent, rx.sent);
      SentMore(polls, i, sent0, sent, rx.sent);
      LogToldMore(polls, i, log0, before, log, end, Shutdown in rx.taken);
      if end.InRead? {
        StuckSince(RanOut(log), events0, events);
      }
    }

    lemma StuckSince(ranOut: bool, from: nat, later: nat)
      requires from <= later && Stuck(ranOut, later)
      ensures Stuck(ranOut, from)
    {
    }

    lemma NotShutAtHead()
      requires AtHead()
      ensures Shutdown !in rx.taken
    {
    }

    /** Any number of turns, up to one that leaves the loop. The head invariant holds at every head. */
    method Turns(polls: seq<PollResult>) returns (end: TurnEnd, ghost turns: nat)
      requires AtHead()
      modifies this, rx, state, pty, terminal, buf, lock
      ensures Conserved() && Logged()
      ensures !end.InRead? ==> ReadConserved()
      ensures end.NextTurn? ==> AtHead() && turns == |polls|
      ensures turns == 0 ==> end.NextTurn?
      ensures Ran(polls, turns, end, old(pty.accepted), old(rx.taken), old(rx.sent), old(log), |old(lock.events)|)
    {
      hide *;
      ghost var accepted0, taken0, sent0, log0, events0 := pty.accepted, rx.taken, rx.sent, log, |lock.events|;
      end, turns := NextTurn, 0;
      NotShutAtHead();
      NothingRan(polls);
      for i := 0 to |polls|
        invariant AtHead() && end == NextTurn && turns == i
        invariant Ran(polls, i, end, accepted0, taken0, sent0, log0, events0)
      {
        end := NextOf(polls, i, accepted0, taken0, sent0, log0, events0);
        turns := i + 1;
        if !end.NextTurn? {
          return;
        }
      }
      HeadIsConserved();
    }

    lemma HeadIsConserved()
      requires AtHead()
      ensures Conserved() && ReadConserved() && Logged()
    {
    }

    /**
     What the log says about the real streams: what was read and parsed is what the scripts of the reads say,
     and every event was acted on.
     */
    lemma LogIsReal()
      requires Logged()
      ensures terminal.parsed == Parsed(log) && pty.delivered == Delivered(log)
      ensures forall k | 0 <= k < |log| :: ActedOn(log[k], drainOnExit, pty.answers)
    {
      ReadsFollowScripts(log, NOTHING, Now(), drainOnExit);
      hide Linked, AllHandled, ActedOn;
      forall k | 0 <= k < |log|
        ensures ActedOn(log[k], drainOnExit, pty.answers)
      {
        EventsAreActedOn(log, NOTHING, Now(), k, drainOnExit);
      }
    }

    /**
     Any number of turns. Even after leaving, accepted bytes, unsent bytes and the inputs still in the channel
     are all that was sent, in send order; after a wait that was not interrupted nothing is left in the channel.
     Write interest is registered exactly while bytes are unsent, unless only empty chunks are queued. The
     events of the waits are handled in order up to the one that ends the loop; it ends exactly for a failed
     wait, a shutdown, an exit of the child, a failed read without a hang-up or a failed write.
     */
    method Run(polls: seq<PollResult>) returns (end: TurnEnd, ghost turns: nat)
      requires AtHead()
      modifies this, rx, state, pty, terminal, buf, lock
      ensures Conserved() && Logged()
      ensures !end.InRead? ==> ReadConserved()
      ensures end.NextTurn? ==> AtHead() && turns == |polls|
      ensures old(pty.accepted) <= pty.accepted && old(rx.taken) <= rx.taken && old(rx.sent) <= rx.sent
      ensures QuietDrains(polls) ==> turns <= |polls| && rx.sent == old(rx.sent) + Waited(polls[..turns])
      ensures LogTold(polls, turns, old(log), log, end, Shutdown in rx.taken)
      ensures turns == 0 ==> end.NextTurn?
      ensures end.InRead? ==> Stuck(RanOut(log), |old(lock.events)|)
      ensures terminal.parsed == Parsed(log) && pty.delivered == Delivered(log)
      ensures forall k | 0 <= k < |log| :: ActedOn(log[k], drainOnExit, pty.answers)
      ensures pty.accepted + state.Unsent() + Flatten(Inputs(rx.Pending())) == Flatten(Inputs(rx.sent))
      ensures end.NextTurn? && polls != [] && polls[|polls| - 1].outcome.Ready? ==>
                rx.Pending() == [] && pty.accepted + state.Unsent() == Flatten(Inputs(rx.sent))
      ensures end.NextTurn? ==>
                ((pty.registeredWritable <==> pty.accepted != Flatten(Inputs(rx.taken)))
                 <==> EmptyOrContent(state.Chunks()))
      ensures end.NextTurn? && Input([]) !in rx.taken ==>
                (pty.registeredWritable <==> pty.accepted != Flatten(Inputs(rx.taken)))
    {
      hide LogTold, Flatten, Inputs, Resizes, IsSuffix, AtHead, ReadConserved, Logged, Stuck, ActedOn, Parsed;
      hide Delivered, Conserved;
      end, turns := Turns(polls);
      AllSent();
      LogIsReal();
      if end.NextTurn? {
        InterestWhileUnsent();
      }
    }

    lemma AllSent()
      requires Conserved()
      ensures pty.accepted + state.Unsent() + Flatten(Inputs(rx.Pending())) == Flatten(Inputs(rx.sent))
      ensures rx.Pending() == [] ==> pty.accepted + state.Unsent() == Flatten(Inputs(rx.sent))
    {
      InputsAppend(rx.taken, rx.Pending());
      FlattenAppend(Inputs(rx.taken), Inputs(rx.Pending()));
    }

    lemma InterestWhileUnsent()
      requires AtHead()
      ensures (pty.registeredWritable <==> pty.accepted != Flatten(Inputs(rx.taken)))
              <==> EmptyOrContent(state.Chunks())
      ensures Input([]) !in rx.taken ==> (pty.registeredWritable <==> pty.accepted != Flatten(Inputs(rx.taken)))
    {
      hide Flatten;
      UnsentWhileNeeded(state);
      assert |pty.accepted + state.Unsent()| == |pty.accepted| + |state.Unsent()|;
      assert state.Unsent() == [] ==> pty.accepted + state.Unsent() == pty.accepted;
      if Input([]) !in rx.taken {
        InputsNonEmpty(rx.taken);
        assert state.Chunks() != [] ==> state.Chunks()[0] in Inputs(rx.taken);
      }
    }
  }
}
