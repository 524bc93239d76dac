# Verified models of OxideTerm's hard cores

OxideTerm is a terminal with an AI assistant. This project models the parts of it whose state or arithmetic
decides whether the terminal and the assistant can be trusted, and proves what they are relied upon for.

| part | modules | what is proved |
|---|---|---|
| grid geometry | `GridIndex`, `SemanticSearch`, `Selection`, `ViMode` | moving a point is arithmetic on the linear cell index; selections are the fully covered cells, the whole words or the whole lines; selections follow scrolling text; word motions land at their specified place, from any cell of a wide character |
| the byte pump | `Reading`, `PtyIo`, `EventLoop` | every event is acted on, and the loop ends for the stated reasons only; no byte is lost, repeated or reordered between the channel and the pseudoterminal, or, but for an exactly stated case, between the pseudoterminal and the parser; write interest follows the queue; the reader's lease keeps others off the terminal |
| the fair mutex | `FairProtocol`, `FairDeadlock`, `FairLock` | mutual exclusion, and exactly when there is overtaking or deadlock, over every interleaving of calls by threads that may hold either mutex already |
| background tasks | `BackgroundTasks`, `TaskSystem`, `TaskWorker` | the stop rule on the whole trace of results, final cancellation, a bounded table, termination of every worker |
| chat storage | `ProjectionClock`, `ChatStore`, `ChatIntegrity`, `ChatHistory`, `ChatReading` | row and index tables agree after every save, the row of a message after any run of saves, the newest version surviving exactly while no later commit drops the message, what is saved is read back |
| API keys | `KeyStore`, `ProviderKeys` | one read of the secret store at a time, joiners agree, no waiter is stranded, and exactly when the cache agrees with the store |
| settings values | `StructuredValue` | the early-exit budget check is the node count and the length limits |

**How the pieces fit.** Loops and objects that change in place are methods and classes proved against functions
(`Add` against `Shifted`, `SaveState` against `Saved`, `ApplyExecutionResult` against `AfterApply`, ...); the laws
are lemmas about those functions. Concurrent parts are described twice. A transition relation (`Step`) with an
explicit position for every thread carries the theorems about all runs. The object with the source's methods
(`FairLock.FairMutex`, `ProviderKeys.AiProviderKeyStore`, `TaskWorker.TaskHost`) lets other threads take any number
of steps between any two of its own and keeps a ghost record of the run, whose steps its `Valid()` requires to be
steps of the relation; so the theorems hold of every execution of the methods. A blocking call looks at what it waits
for at most `patience` times; it takes it at the first look that finds it free or finished, and reports that it is
still waiting only after so many looks in vain, each of which is in the record. The event loop keeps a log with an
entry for every event, tied to the real streams; what is proved of the entries holds of the bytes.

**Where the code does not do what one would expect.** Where an entry says *exactly*, *unless* or *except*, the
theorem named is an equivalence; the lemmas named `...Example`, `...Overtakes`, `RelockedData`, `LockUnderLease`,
`StaleSaveRemoves` and `OverlapLeavesStaleKey` are concrete cases in which the expected property fails.

* `Point::sub` is index subtraction unless the column lies a whole row or more beyond the offset; there it keeps the
  line, which shows exactly where the boundary does not hide it (`Sub`, `SubPastRow`, `SubPastRowExample`).
* A simple selection from the right half of a row's last cell to the left half of the next row's first cell selects
  a half-covered cell; everywhere else with both anchors on the grid it is exact (`SimpleSelectionExact`,
  `StraddlingExample`).
* A simple selection whose upper anchor scrolled out of the history loses its first cell exactly when that anchor
  sat on a right half, with two exceptions on the first two cells (`ScrolledOffSelectionExact`, `ScrolledOffExample`).
* A block selection is exact except for one column on two lines with the upper anchor right and the lower one left
  (`BlockSelectionExact`, `BlockExample`).
* Scrolling a region moves the selected cells in it with its lines exactly, also where anchors are cut off, except
  that anchors scrolled down off the screen stay on its last line with their columns (`RotationMovesCells`,
  `FallExample`). Outside the region a selection changes exactly when an anchor scrolls out of the region towards the
  other one, into lines that stay where they are (`RotationKeepsOtherCells`, `LeakExample`).
* A semantic selection contains its upper anchor exactly unless that is on a spacer which only spacers separate from
  the delimiter before it; from there the search for the start of the word skips forward past the anchor
  (`SemanticCoversAnchors`, `LeadingSpacerSkips`).
* A word motion to the far side asks for a cell outside the grid exactly when it starts, going right, on a leading
  spacer of the bottommost line, whose wide character is not below it (`Word`).
* Write interest is exactly the presence of unsent bytes unless nothing but empty chunks is queued
  (`UnsentWhileNeeded`). An empty chunk at the front stops all writing; any other queue moves exactly when the
  operating system accepts a byte of what it is offered first (`PtyWrite`). `Notifier` never sends an empty chunk.
* A failing read loses bytes exactly when the call has read some and parsed none: when something had been read, no
  attempt to lock the terminal had succeeded and the buffer had never filled. All that was read is lost then
  (`PtyRead`, `FailureLosesExactly`, `LossExample`).
* A thread that was promised the data is overtaken exactly by `lock_unfair` and `try_lock_unfair` without a lease,
  which flushing an incomplete character and the renderers' snapshots use (`OvertakingIsUnleased`,
  `LockUnfairOvertakes`, `TryOvertakes`).
* Neither mutex is reentrant. A mutex can never be free again, and a call that waits for it never returns, exactly
  when its holder waits for it itself, or holds the data while its own `lock` still asks for `next`, or waits for the
  other mutex, whose holder waits as well (`DeadExactly`, `WaiterStuckExactly`). That can follow from a state without
  further nested calls exactly when some thread is inside one: it holds `next` and asks for `next`, or holds the data
  and asks for either mutex (`DeadlockFollowsNesting`, `NoDeadlock`, `RelockedData`, `LockUnderLease`).
* A save that commits late with an older stamp still removes messages it was taken without: the version with the
  largest stamp is left exactly when no later commit drops the message (`RowAfterRun`, `NewestSurvives`,
  `StaleSaveRemoves`).
* A saved but unloaded conversation that is new to the database stores a message count nothing backs
  (`SaveKeepsCounts`, `CountsExample`).
* The cache of API keys stays in agreement with the secret store exactly as long as the secret store never changes a
  key while another thread is about to cache a different one; once it has, a stale key can stay in the cache with
  nobody changing it (`CacheAgreesExactly`, `StaleKeyFollowsExactly`, `OverlapLeavesStaleKey`).

## Model

| member | source | states |
|---|---|---|
| GridIndex.OrderIsIndexOrder | crates/alacritty-terminal/src/index.rs:117-128 | on points within a row, point ordering is the ordering of linear cell indices, and equal indices mean equal points |
| GridIndex.GridIsInterval | crates/alacritty-terminal/src/grid/mod.rs:511-545 | the grid, history included, is exactly one interval of cell indices |
| GridIndex.WrappedLine | crates/alacritty-terminal/src/index.rs:151-162 | the two truncating-remainder branches of line wrap-around are one Euclidean remainder counted from the topmost line |
| GridIndex.LineClampBounds | crates/alacritty-terminal/src/index.rs:141-164 | for each boundary a clamped line is on the grid (or screen), and a line already there stays |
| GridIndex.GridClamp | crates/alacritty-terminal/src/index.rs:92-114 | clamping a point is cutting its column to the row and clamping its cell index, for all three boundaries |
| GridIndex.Add | crates/alacritty-terminal/src/index.rs:79-87 | adding n cells is adding n to the cell index and clamping, for every start, even a column past the row |
| GridIndex.Sub | crates/alacritty-terminal/src/index.rs:65-74 | subtracting n cells is subtracting n from the cell index and clamping whenever column < n + columns; what it is otherwise |
| GridIndex.SubPastRow | crates/alacritty-terminal/src/index.rs:65-74 | for a start column a whole row or more beyond the offset, exactly when the result is still index subtraction, for each boundary |
| GridIndex.SubPastRowExample | crates/alacritty-terminal/src/index.rs:65-74 | a start three columns into a two-column row: one cell back stays in its row, a row above index subtraction |
| GridIndex.ClampedInGrid | crates/alacritty-terminal/src/index.rs:92-114 | every move ends in the grid, and with the cursor boundary on the screen |
| GridIndex.WrapRoundTrip | crates/alacritty-terminal/src/index.rs:65-87 | without a boundary, moving n forward and n back returns every grid point |
| GridIndex.WrapComposes | crates/alacritty-terminal/src/index.rs:79-87 | without a boundary, successive moves add up, from any start |
| GridIndex.ClampComposes | crates/alacritty-terminal/src/index.rs:79-87 | with a boundary, moves in one direction add up |
| GridIndex.ClampRoundTrip | crates/alacritty-terminal/src/index.rs:65-87 | with a boundary, a move is undone exactly when it was not cut short or started at the edge it returns to |
| Selection.ToRange | crates/alacritty-terminal/src/selection.rs:271-296 | the range of each kind of selection on the ordered, clamped anchors: in half-cell positions for simple and block ones, whole logical lines for line ones, the search results for semantic ones; none exactly when the selection is empty or above the history |
| Selection.RangeSimple | crates/alacritty-terminal/src/selection.rs:326-359 | the anchor adjustments, with their row wraps, give the first and last covered cell, or the upper cell where the two halves adjoin |
| Selection.RangeBlock | crates/alacritty-terminal/src/selection.rs:361-383 | swapping columns and adjusting sides gives the covered columns, and which columns in the degenerate cases |
| SemanticSearch.InlineSearchLeft | crates/alacritty-terminal/src/term/search.rs:542-563 | ends, to the left, on the nearest delimiter after which the text does not break, or else on the first cell of the text |
| SemanticSearch.InlineSearchRight | crates/alacritty-terminal/src/term/search.rs:566-592 | ends, to the right, on the nearest delimiter, or on the last cell of the text where that comes first |
| SemanticSearch.SemanticSearchLeft | crates/alacritty-terminal/src/term/search.rs:518-530 | the word begins on the first cell behind that delimiter that is not a spacer, or with the text |
| SemanticSearch.SemanticSearchRight | crates/alacritty-terminal/src/term/search.rs:534-539 | the word ends before that delimiter, or with the text |
| SemanticSearch.WordUnique | crates/alacritty-terminal/src/term/search.rs:518-539 | these conditions determine both ends |
| SemanticSearch.WordStartsBefore | crates/alacritty-terminal/src/term/search.rs:518-530 | the word begins at or before the cell searched from, unless only spacers lie between that and the delimiter before it |
| SemanticSearch.WordHasNoDelimiter | crates/alacritty-terminal/src/term/search.rs:518-563 | from its beginning to the cell searched from, a word holds no delimiter and the text does not break; before it come a delimiter and spacers only, or the text begins |
| SemanticSearch.WordEndsBeforeDelimiter | crates/alacritty-terminal/src/term/search.rs:534-592 | the same to the right: no delimiter and no break up to the end, behind which comes a delimiter or the text ends |
| SemanticSearch.LineSearchLeft | crates/alacritty-terminal/src/term/search.rs:594-604 | the first cell of the logical line, which starts where the line above does not wrap |
| SemanticSearch.LineSearchRight | crates/alacritty-terminal/src/term/search.rs:607-617 | the last cell of the logical line, which ends at the first line that does not wrap |
| Selection.LinesRangeTakesWholeLines | crates/alacritty-terminal/src/selection.rs:319-324 | a line selection never contains a part of a logical line only |
| Selection.RangeSemantic | crates/alacritty-terminal/src/selection.rs:298-317 | from bracket to bracket on one cell with a matching bracket, and otherwise from the beginning of the upper anchor's word to the end of the lower one's |
| Selection.SemanticCoversAnchors | crates/alacritty-terminal/src/selection.rs:298-317 | a semantic selection contains its upper anchor, and then both, if and only if it is one bracket or the anchor is not on a spacer that only spacers separate from a delimiter |
| Selection.LeadingSpacerSkips | crates/alacritty-terminal/src/term/search.rs:518-530 | a leading spacer between a delimiter and the wide character it was put before is such a spacer |
| Selection.CoveredRangeSelects | crates/alacritty-terminal/src/selection.rs:51-57 | the range from the first to the last covered cell contains exactly the covered cells |
| Selection.SimpleSelectionExact | crates/alacritty-terminal/src/selection.rs:193-208 | a simple selection on the grid selects exactly the cells covered between the half-cell anchors, and is none exactly when no cell is, if and only if it does not straddle a row end |
| Selection.StraddlingSelectsHalfCell | crates/alacritty-terminal/src/selection.rs:326-359 | in the straddling case the upper cell is selected although nothing is covered |
| Selection.StraddlingExample | crates/alacritty-terminal/src/selection.rs:193-208 | a concrete straddling selection on a 2x2 screen |
| Selection.ScrolledOffSelectionExact | crates/alacritty-terminal/src/selection.rs:279-287 | when the upper anchor has left the history, the selection is everything up to the lower anchor exactly under the stated condition on the anchors |
| Selection.ScrolledOffExample | crates/alacritty-terminal/src/selection.rs:279-287 | a scrolled-off right half on a 2x2 screen for which it fails |
| Selection.BlockSelectionExact | crates/alacritty-terminal/src/selection.rs:209-222 | a block selection selects exactly the covered columns of the spanned lines, and is none exactly when no column is covered, if and only if it is not the excepted case |
| Selection.BlockExample | crates/alacritty-terminal/src/selection.rs:361-383 | one column of a 2x2 screen from right half to left half: nothing of it is selected |
| Selection.DragDirectionIrrelevant | crates/alacritty-terminal/src/selection.rs:271-296 | neither range depends on the direction of the drag |
| Selection.Rotate | crates/alacritty-terminal/src/selection.rs:137-191 | rotation is the stated function of both anchors, which the rows below characterise by the cells it selects |
| Selection.RotationMovesCells | crates/alacritty-terminal/src/selection.rs:137-191 | a cell of the region is covered afterwards exactly if the cell its text comes from was, a new line exactly if the selection reaches across its end of the region, for anchors inside, outside and cut off, for blocks and removed selections, if and only if no anchor shows that it fell off the screen |
| Selection.FallExample | crates/alacritty-terminal/src/selection.rs:154-181 | a selection of the first line and a cell, scrolled down on a 2x2 screen, loses a cell whose text is still there |
| Selection.RotationKeepsOtherCells | crates/alacritty-terminal/src/selection.rs:137-191 | outside the region exactly the same cells are covered as before, if and only if no anchor scrolls out of the region towards the other |
| Selection.LeakExample | crates/alacritty-terminal/src/selection.rs:171-178 | lines 1 and 2 of a 4x2 screen scroll up, and a cell of line 0 is lost |
| Selection.RotationKeepsSelectedCells | crates/alacritty-terminal/src/selection.rs:137-191 | under the exact conditions of the range and of the rotation, the selected cells of the region are those selected before that are still in it |
| Selection.RotateInsideRegion | crates/alacritty-terminal/src/selection.rs:137-191 | with both anchors in a region below the first line, exactly when the selection is removed; otherwise both lines are the shifted lines clamped to the region, in order, and an anchor not cut off keeps its column and side |
| Selection.RotateScreenUp | crates/alacritty-terminal/src/selection.rs:137-191 | scrolling the whole screen up shifts both anchors exactly and never removes |
| Selection.RotateScreenComposes | crates/alacritty-terminal/src/selection.rs:137-191 | scrolling up by a and then b is scrolling up by a + b |
| Selection.ScrollKeepsSelectedCells | crates/alacritty-terminal/src/selection.rs:137-191 | scrolling the screen up within the history: the cells selected afterwards are those selected before, shifted by the same lines |
| Selection.RotateIgnoresDragDirection | crates/alacritty-terminal/src/selection.rs:147-151 | rotation commutes with reversing the drag and leaves selections outside the region alone |
| ViMode.Advance | crates/alacritty-terminal/src/vi_mode.rs:384-390 | one step along the cell index, or none at the edge of the grid |
| ViMode.ExpandWide | crates/alacritty-terminal/src/term/mod.rs:999-1025 | expansion is the stated function, which the rows below characterise by the cells of a wide character |
| ViMode.WideCharExpands | crates/alacritty-terminal/src/term/mod.rs:999-1025 | each cell of a wide character, its leading spacer too, expands right to its last cell and left to its first one |
| ViMode.OrdinaryCellStays | crates/alacritty-terminal/src/term/mod.rs:999-1025 | a cell of no wide character stays |
| ViMode.ExpansionAdvances | crates/alacritty-terminal/src/term/mod.rs:999-1025 | expansion never moves against the direction, and leaves the grid exactly from a leading spacer on the bottommost line |
| ViMode.Word | crates/alacritty-terminal/src/vi_mode.rs:329-367 | the motion ends, in the grid, at the landing place: near side skips blanks then a word, far side skips a word then blanks, each stopping at the edge; and what happens from a leading spacer on the bottommost line |
| ViMode.LandingUnique | crates/alacritty-terminal/src/vi_mode.rs:329-367 | the landing conditions determine the landing place |
| ViMode.MotionIgnoresCell | crates/alacritty-terminal/src/vi_mode.rs:329-367 | all four motions end in the same place from every cell of a wide character |
| ViMode.NearMotionLeavesChar | crates/alacritty-terminal/src/vi_mode.rs:336-351 | a motion to the near side ends beyond every cell of the character it starts on, unless there is none ahead |
| ViMode.BackUndoesForward | crates/alacritty-terminal/src/vi_mode.rs:329-367 | from the first cell of a word, W and then B return to it, through wide characters too |
| PtyIo.PeekableReceiver.Peek | crates/alacritty-terminal/src/event_loop.rs:468-474 | looking ahead shows the oldest pending message and loses or reorders nothing |
| PtyIo.PeekableReceiver.Recv | crates/alacritty-terminal/src/event_loop.rs:476-485 | receiving takes the oldest pending message, a peeked one first |
| PtyIo.UnsentWhileNeeded | crates/alacritty-terminal/src/event_loop.rs:425-428 | a write is needed exactly while bytes are unsent, if and only if the queue is empty or has a non-empty chunk |
| PtyIo.WriteOne | crates/alacritty-terminal/src/event_loop.rs:178-200 | a chunk is written to its end and replaced by the next, or put back advanced by exactly the bytes accepted |
| PtyIo.PtyWrite | crates/alacritty-terminal/src/event_loop.rs:174-203 | for any partial writes and errors, accepted bytes followed by unsent bytes stay the same stream; every write but the last accepts something, and the queue is empty afterwards exactly if the last one does too; an empty front chunk blocks, and any queue moves exactly when the first offer is accepted in part; it fails exactly if the last answer is fatal |
| EventLoop.DrainRecvChannel | crates/alacritty-terminal/src/event_loop.rs:91-101 | whatever arrives meanwhile, the inputs received are queued and the resizes applied in send order, up to the empty channel or a shutdown |
| Reading.ReadInv | crates/alacritty-terminal/src/event_loop.rs:104-171 | whatever is read and whoever holds the lock: nothing stays buffered under the lock or after a normal return, nothing is parsed without it, and the bounds on both |
| Reading.LockedExactly | crates/alacritty-terminal/src/event_loop.rs:121-148 | a call that goes on does not hold the lock exactly when no attempt to take it succeeded and the buffer never filled; then all that was read is buffered |
| Reading.CaughtUpExactly | crates/alacritty-terminal/src/event_loop.rs:119-161 | a call returns normally exactly when a read brings nothing with nothing buffered, or 65535 bytes have been parsed; it fails exactly when a read fails |
| Reading.FailureLosesExactly | crates/alacritty-terminal/src/event_loop.rs:121-145 | a failing read loses bytes if and only if some were read, no attempt to lock succeeded and the buffer never filled; it loses all that was read then |
| Reading.LossExample | crates/alacritty-terminal/src/event_loop.rs:121-145 | one byte read while somebody else holds the terminal, then a failing read: the byte is lost |
| PtyIo.PtyRead | crates/alacritty-terminal/src/event_loop.rs:104-171 | over the fair mutex: parsed bytes followed by buffered bytes are the bytes read, in order, with the script of its reads and of its attempts to lock; a failing read loses bytes if and only if the call has read some and parsed none; it does not return only while its script has run out or each look at a held mutex was in vain; from lease to return nobody else obtains the terminal, if and only if nobody takes it without a lease |
| EventLoop.EventLoop.HandleEvent | crates/alacritty-terminal/src/event_loop.rs:256-307 | an event is read, written or left alone as it says, and goes on, ends the loop or blocks as the results say |
| EventLoop.EventsAreActedOn | crates/alacritty-terminal/src/event_loop.rs:256-307 | of every logged event: a readable one is read by the outcomes of its reads; a writable one with chunks and no failed read is answered, moves bytes exactly if its first answer accepts some, and empties the queue exactly if all do; it ends the loop exactly for a child's exit, a failed read without a hang-up or a failed write |
| EventLoop.ReadsFollowScripts | crates/alacritty-terminal/src/event_loop.rs:104-171 | over any number of events, what was read and what was parsed is what the scripts of the reads say, one after the other |
| EventLoop.EventLoop.Turn | crates/alacritty-terminal/src/event_loop.rs:227-317 | every path that continues re-establishes the head invariant; the events of the wait are logged in order up to the one that ends the turn; the loop is left exactly for a failed wait, a shutdown, or an event that ends it; a turn that was not interrupted empties the channel |
| EventLoop.EventLoop.Turns | crates/alacritty-terminal/src/event_loop.rs:227-317 | the same over any number of turns: the log has the events of all waits in order, and says exactly why the loop was left; bytes and messages only ever come behind the earlier ones; exactly what arrived has been sent |
| EventLoop.EventLoop.Run | crates/alacritty-terminal/src/event_loop.rs:227-317 | over any number of turns, every event reached has been acted on in the real streams; accepted bytes, unsent bytes and pending inputs are all inputs sent, in send order; after an uninterrupted turn none is pending; write interest is registered exactly while bytes are unsent, if and only if the queue is empty or has a non-empty chunk |
| FairProtocol.MutualExclusion | crates/alacritty-terminal/src/sync.rs:14-48 | in every reachable state each mutex has at most one holder |
| FairProtocol.OvertakingIsUnleased | crates/alacritty-terminal/src/sync.rs:40-48 | while a thread holds `next`, another obtains the data by an unleased `lock_unfair` or `try_lock_unfair`, and in no other way |
| FairProtocol.NoOvertaking | crates/alacritty-terminal/src/sync.rs:28-38 | over any stretch in which a thread holds `next`, only that thread obtains the data, if and only if no acquisition is unleased |
| FairProtocol.PromiseKept | crates/alacritty-terminal/src/sync.rs:32-38 | a thread blocked on `data` under `next` keeps its place until it has the data, whatever others do |
| FairProtocol.PromisedThreadIsNext | crates/alacritty-terminal/src/sync.rs:6-9 | until the promised thread has the data nobody else obtains it, if and only if no acquisition is unleased |
| FairProtocol.DataReservedForPromised | crates/alacritty-terminal/src/sync.rs:6-9 | once the holder lets go, the data stays free until the promised thread takes it, if and only if no acquisition is unleased |
| FairProtocol.LockUnfairOvertakes | crates/oxideterm-terminal/src/local_graphics_event_loop.rs:648-661 | a run in which an unleased `lock_unfair` overtakes a promised thread |
| FairProtocol.TryOvertakes | crates/oxideterm-terminal/src/local/pty.rs:957-961 | a run in which an unleased `try_lock_unfair` overtakes a promised thread |
| FairDeadlock.DataHolderCanStep | crates/alacritty-terminal/src/event_loop.rs:116-146 | a holder of the data can step exactly unless it asks for the data again, or for `next` while that is taken |
| FairDeadlock.DeadStays | crates/alacritty-terminal/src/sync.rs:28-48 | a dead mutex stays dead whatever anybody does |
| FairDeadlock.DeadExactly | crates/alacritty-terminal/src/sync.rs:28-48 | a mutex can be free in no state that can follow, if and only if it is dead: its holder waits for it itself, holds the data while its `lock` asks for `next`, or waits for the other mutex, whose holder waits too |
| FairDeadlock.WaiterStuckExactly | crates/alacritty-terminal/src/sync.rs:28-48 | a blocked call never returns, if and only if the mutex it waits for is dead |
| FairDeadlock.DeadlockIsCrossed | crates/alacritty-terminal/src/sync.rs:28-48 | nobody inside the protocol can step exactly when some mutex is held and every holder and every waiting thread waits for a held mutex, perhaps its own |
| FairDeadlock.StandstillIsDead | crates/alacritty-terminal/src/sync.rs:28-48 | when nobody can step, every held mutex is dead |
| FairDeadlock.NoDeadlock | crates/alacritty-terminal/src/sync.rs:28-48 | in a run without nested calls no mutex is ever dead |
| FairDeadlock.DeadlockFollowsNesting | crates/alacritty-terminal/src/sync.rs:28-48 | a dead mutex can follow without further nested calls if and only if some thread is inside one |
| FairDeadlock.RelockedData | crates/alacritty-terminal/src/sync.rs:40-48 | a run in which a holder of the data calls `lock_unfair` and the data is dead |
| FairDeadlock.LockUnderLease | crates/alacritty-terminal/src/sync.rs:28-38 | a run in which a holder of the lease calls `lock` and `next` is dead with the data free |
| FairLock.FairMutex.CanActMeansStep | crates/alacritty-terminal/src/sync.rs:14-19 | the state of the two mutexes lets a thread act exactly when the protocol has a step for it |
| FairLock.FairMutex.Await | crates/alacritty-terminal/src/sync.rs:28-43 | a blocking acquisition takes the mutex at the first look that finds it free; it gives up only after `patience` looks, and alone with a free mutex it never does |
| FairLock.LooksFoundHeld | crates/alacritty-terminal/src/sync.rs:28-43 | each look in vain found the mutex held, at a state of its own |
| FairLock.FairMutex.Lock | crates/alacritty-terminal/src/sync.rs:32-38 | for any caller: returns holding `data` and not `next`; nobody else obtained the data since `next` was taken, if and only if nobody took it without a lease; never returns to a caller that holds either mutex; otherwise a call gives up only after `patience` looks that each found the mutex held |
| FairLock.FairMutex.Lease | crates/alacritty-terminal/src/sync.rs:28-30 | for any caller: returns holding `next`, and the data exactly if it was held before; never returns to a holder of `next`; otherwise a call gives up only after `patience` looks that each found the mutex held |
| FairLock.FairMutex.LockUnfair | crates/alacritty-terminal/src/sync.rs:40-43 | for any caller: returns holding the data; under the lease as the first, if and only if nobody took it without one; never returns to a holder of the data; otherwise a call gives up only after `patience` looks that each found the mutex held |
| FairLock.FairMutex.TryLockUnfair | crates/alacritty-terminal/src/sync.rs:45-48 | for any caller, also one that holds the data: succeeds exactly when nobody holds it |
| StructuredValue.IsBounded | crates/oxideterm-ai/src/orchestrator.rs:891-907 | true exactly when the node count fits the budget and every string and key its limit; then exactly the node count is spent |
| BackgroundTasks.ContainsLiveHandle | crates/oxideterm-ai-tasks/src/validation.rs:92-102 | true exactly when some object at any depth has a live-handle key |
| BackgroundTasks.Validate | crates/oxideterm-ai-tasks/src/validation.rs:46-90 | accepts exactly the specifications that meet every limit; each error names the first requirement that fails |
| BackgroundTasks.BackgroundTaskRuntime.Create | crates/oxideterm-ai-tasks/src/runtime.rs:82-186 | the new table, evicting only an oldest terminal task and only when full; a rejection leaves the table and gives the first applicable error |
| BackgroundTasks.BackgroundTaskRuntime.Cancel | crates/oxideterm-ai-tasks/src/runtime.rs:188-230 | cancels exactly the tasks that are not terminal, and says so |
| BackgroundTasks.BackgroundTaskRuntime.CancelOwner | crates/oxideterm-ai-tasks/src/runtime.rs:232-244 | with no other thread in between, cancels and counts exactly the active tasks of the owner |
| BackgroundTasks.BackgroundTaskRuntime.PrepareExecution | crates/oxideterm-ai-tasks/src/runtime.rs:352-375 | hands out exactly the tasks that are present and uncancelled, with the number of the run |
| BackgroundTasks.BackgroundTaskRuntime.ApplyExecutionResult | crates/oxideterm-ai-tasks/src/runtime.rs:377-450 | the new table, and whether and how long to wait; nothing for a task that is gone or cancelled |
| BackgroundTasks.SubstringIsInfix | crates/oxideterm-ai-tasks/src/runtime.rs:516-516 | a summary contains a text exactly if it is that text with something before and something after it |
| TaskSystem.MatchedIsCondition | crates/oxideterm-ai-tasks/src/runtime.rs:503-527 | the test on the stored fingerprint and failure flag is the condition on the trace of results |
| TaskSystem.InvAlways | crates/oxideterm-ai-tasks/src/runtime.rs:297-450 | in every reachable state the stored flags summarise the trace of results of every task |
| TaskSystem.StopRule | crates/oxideterm-ai-tasks/src/runtime.rs:377-482 | an uncancelled one-shot task has ended exactly after one run, an interval task exactly after `max_runs`, and a conditional one exactly when its condition holds at the last run or after `max_runs`, and at no earlier run; it is `Failed` exactly when that run failed without being what was waited for; its summary is that of the last run |
| TaskSystem.RunsAreCounted | crates/oxideterm-ai-tasks/src/runtime.rs:352-375 | the run count is the number of executor handoffs, at most one for a one-shot task and at most `max_runs` for any other |
| TaskSystem.ChangeIsStamped | crates/oxideterm-ai-tasks/src/runtime.rs:124-150 | a record changes only by its task's own creation, start, result or cancellation and carries that time; the task evicted is one that ended longest ago |
| TaskSystem.WorkerTerminates | crates/oxideterm-ai-tasks/src/runtime.rs:297-350 | a worker takes at most four steps a run and one more |
| TaskSystem.TerminalIsFinal | crates/oxideterm-ai-tasks/src/runtime.rs:352-390 | a terminal task never changes again and is never handed to the executor again, even with a run in flight |
| TaskSystem.CancelledMeansFlag | crates/oxideterm-ai-tasks/src/runtime.rs:188-230 | a task is `Cancelled` exactly when its flag is set |
| TaskSystem.CancelSucceedsOnce | crates/oxideterm-ai-tasks/src/runtime.rs:188-230 | `cancel` returns true at most once per task |
| TaskSystem.LostNotice | crates/oxideterm-ai-tasks/src/runtime.rs:336-347 | the notice of a cancellation that comes while the worker is not listening never arrives |
| TaskSystem.CancelledWorkerStops | crates/oxideterm-ai-tasks/src/runtime.rs:297-350 | noticed or not, the worker of a cancelled task takes at most three more steps, none of them a handoff to the executor |
| TaskSystem.EvictedNeverReappears | crates/oxideterm-ai-tasks/src/runtime.rs:138-150 | an evicted task never comes back |
| TaskSystem.TableIsBounded | crates/oxideterm-ai-tasks/src/runtime.rs:124-165 | at most 128 tasks are kept and at most 32 of one owner are active, in every reachable state |
| TaskWorker.TaskHost.RunTask | crates/oxideterm-ai-tasks/src/runtime.rs:297-350 | the worker loop ends whatever the others do, and then an uncancelled task has made its last run, as defined for its mode, with the verdict of that run |
| TaskWorker.TaskHost.Prepare | crates/oxideterm-ai-tasks/src/runtime.rs:352-375 | the run number handed out is the number of handoffs so far |
| TaskWorker.TaskHost.CancelOwner | crates/oxideterm-ai-tasks/src/runtime.rs:232-244 | beside all other threads: calls `cancel` exactly once for each task the owner had at the start, none of which is active afterwards, and returns how many of these very calls succeeded |
| ProjectionClock.Clock.NextProjectionPersistAt | crates/oxideterm-ai/src/persistence.rs:208-223 | under any interference the stamp is positive, not before the wall clock, and larger than every stamp issued before, short of the i64 maximum; it is the wall clock or one more than the last stamp before it |
| ChatStore.EffectiveNeverDecreases | crates/oxideterm-ai/src/persistence.rs:1266-1283 | whichever row is kept, its effective stamp is not below that of the stored row, legacy rows included |
| ChatStore.CountTurns | crates/oxideterm-ai/src/chat.rs:5-48 | the turn count is the sum over the messages: a summary counts what it says, an anchor what it replaced by the first rule that applies, a user message one |
| ChatStore.PlainTurns | crates/oxideterm-ai/src/chat.rs:42-45 | without summaries and anchors the count is the number of the user's messages |
| ChatStore.SummariesAndAnchorsCount | crates/oxideterm-ai/src/chat.rs:5-41 | a summary adds its count, an anchor without one half of the messages it replaced, rounded up, or nothing |
| ChatStore.CompactionKeepsTurns | crates/oxideterm-ai/src/chat.rs:5-48 | replacing messages by an anchor that counts or keeps them all leaves the turn count as it was |
| ChatStore.AiChatPersistenceStore.DeleteConversationRows | crates/oxideterm-ai/src/persistence.rs:534-567 | removes the conversation's metadata and index rows and every row these index, and nothing else |
| ChatStore.AiChatPersistenceStore.ReplaceConversationMessages | crates/oxideterm-ai/src/persistence.rs:569-625 | removes the rows no longer listed, writes each message unless the stored row wins, and replaces index and count |
| ChatStore.AiChatPersistenceStore.SaveState | crates/oxideterm-ai/src/persistence.rs:229-305 | the tables after a save: dropped conversations removed, in any order, then each conversation of the state saved |
| ChatStore.AiChatPersistenceStore.ReadConversation | crates/oxideterm-ai/src/persistence.rs:165-207 | a stored conversation with its indexed rows in order of time and the counts taken from them |
| ChatIntegrity.SaveRow | crates/oxideterm-ai/src/persistence.rs:569-615 | the row kept for each id after a save, from its row before and its conversation's entry alone |
| ChatIntegrity.SaveKeepsAgreement | crates/oxideterm-ai/src/persistence.rs:229-305 | every indexed id has its row, every row is indexed exactly once under its conversation, and index keys are conversation keys, after every save |
| ChatIntegrity.SaveIndex | crates/oxideterm-ai/src/persistence.rs:246-300 | afterwards there are exactly the conversations of the state, loaded ones with their messages in order, others with their old index |
| ChatIntegrity.MissingAndUnloaded | crates/oxideterm-ai/src/persistence.rs:252-300 | a conversation missing from the state leaves no message row, an unloaded one keeps each of its rows |
| ChatIntegrity.SaveEntries | crates/oxideterm-ai/src/persistence.rs:252-268 | the transcript and diagnostic rows removed are exactly those indexed under dropped conversations |
| ChatIntegrity.SaveLeavesNoOrphans | crates/oxideterm-ai/src/persistence.rs:534-567 | no save leaves a transcript or diagnostic row without its conversation |
| ChatIntegrity.SaveMeta | crates/oxideterm-ai/src/persistence.rs:270-287 | the metadata after a save: its own for loaded and for new conversations; for others the stored message count, the stored turn count if there is one, and the later update |
| ChatIntegrity.SaveKeepsCounts | crates/oxideterm-ai/src/persistence.rs:270-284 | stored message counts stay equal to the number of indexed messages exactly when no unloaded new conversation claims messages |
| ChatIntegrity.CountsExample | crates/oxideterm-ai/src/persistence.rs:270-284 | an unloaded new conversation that claims three messages |
| ChatHistory.RunKeepsAgreement | crates/oxideterm-ai/src/persistence.rs:229-305 | table agreement over any run of saves |
| ChatHistory.StampNeverDecreases | crates/oxideterm-ai/src/persistence.rs:592-615 | over any run of saves that keep a message, its effective stamp never goes down |
| ChatHistory.RowAfterRun | crates/oxideterm-ai/src/persistence.rs:569-615 | the row of a message after any run of saves: the largest-stamped version brought after the last commit that drops the message, merged into the row stored at first if none drops it; absent if nothing is brought after |
| ChatHistory.NewestSurvives | crates/oxideterm-ai/src/persistence.rs:569-615 | the version with the largest stamp is the one left if and only if no later commit drops the message |
| ChatHistory.StaleSaveRemoves | crates/oxideterm-ai/src/persistence.rs:587-591 | a save stamped 1 that commits after the save stamped 2 removes the message of that save |
| ChatHistory.LastWriterWins | crates/oxideterm-ai/src/persistence.rs:592-615 | a message every save brings ends as if only the save with the largest stamp had brought it to the row stored at first |
| ChatHistory.StoredRowStays | crates/oxideterm-ai/src/persistence.rs:1266-1283 | the row stored at first stays exactly if its effective stamp is larger than that of the save |
| ChatHistory.CommitOrderIsIrrelevant | crates/oxideterm-ai/src/persistence.rs:592-615 | saves with distinct stamps none of which drops a message leave the same version of it in every commit order |
| ChatHistory.LastStampedWins | crates/oxideterm-ai/src/persistence.rs:208-227 | of saves stamped by the clock none of which drops a message, only the one that took its stamp last among those that bring it matters |
| ChatReading.ReadInTimeOrder | crates/oxideterm-ai/src/persistence.rs:195-195 | messages are read sorted by time, none lost, ties in index order |
| ChatReading.SaveThenRead | crates/oxideterm-ai/src/persistence.rs:165-207 | a loaded conversation is read back after its save, with metadata, counts and every message, unless a stored version was newer |
| ChatReading.UnloadedReadsTheSame | crates/oxideterm-ai/src/persistence.rs:270-284 | a conversation the save did not load reads as before, with the new title and the later update |
| KeyStore.InvAlways | crates/oxideterm-ai/src/key_store.rs:58-82 | in every reachable state each slot in the map has its one owner and is unfinished until the owner publishes; a slot leaves the map only finished |
| KeyStore.SingleFlight | crates/oxideterm-ai/src/key_store.rs:143-158 | at most one thread reads the secret store for a provider |
| KeyStore.ResultKept | crates/oxideterm-ai/src/key_store.rs:344-352 | a published result is never replaced |
| KeyStore.JoinersAgree | crates/oxideterm-ai/src/key_store.rs:64-81 | everybody who joined a slot returns the owner's result |
| KeyStore.WaiterServed | crates/oxideterm-ai/src/key_store.rs:354-368 | a waiter can wake, or its slot has an owner at most three steps from finishing it |
| KeyStore.OwnerAlwaysSteps | crates/oxideterm-ai/src/key_store.rs:64-76 | an owner can always step, and each step brings its slot closer to finished |
| KeyStore.StepKeepsCoherent | crates/oxideterm-ai/src/key_store.rs:40-82 | a step loses the agreement of cache and secret store exactly when the secret store changes a key while another thread is about to cache a different one |
| KeyStore.CacheAgreesExactly | crates/oxideterm-ai/src/key_store.rs:40-82 | cache and secret store agree throughout a run exactly when no step of it does that |
| KeyStore.StaleKeyFollowsExactly | crates/oxideterm-ai/src/key_store.rs:58-76 | from a state, a stale key with nobody changing it can follow without such a step exactly when the agreement is lost |
| KeyStore.OverlapGoesStale | crates/oxideterm-ai/src/key_store.rs:64-72 | in any state, a store or delete that overlaps a pending cache write of another key can leave a stale key |
| KeyStore.CacheAgreesWithStore | crates/oxideterm-ai/src/key_store.rs:40-82 | while no store or delete of a provider overlaps a read or another change of it, a cached key is the stored one |
| KeyStore.OverlapLeavesStaleKey | crates/oxideterm-ai/src/key_store.rs:64-72 | runs in which a store, or a delete, overlapping one read leaves the old key in the cache |
| ProviderKeys.AiProviderKeyStore.BeginProviderKeyRead | crates/oxideterm-ai/src/key_store.rs:143-158 | joins the registered slot, or registers a new one and owns it, in one step of the protocol |
| ProviderKeys.AiProviderKeyStore.GetProviderKey | crates/oxideterm-ai/src/key_store.rs:58-82 | under any interference, returns the cached key or the result published in the slot it joined; otherwise it has looked at that slot `patience` times in vain |
| ProviderKeys.AiProviderKeyStore.Wait | crates/oxideterm-ai/src/key_store.rs:354-368 | returns only a published result, at the first look that finds one; gives up only after `patience` looks |
| ProviderKeys.LooksInVain | crates/oxideterm-ai/src/key_store.rs:354-368 | each look in vain found the slot without a result |
| ProviderKeys.AiProviderKeyStore.StoreProviderKey | crates/oxideterm-ai/src/key_store.rs:40-56 | on success this call has put the key into the secret store, or taken it out for an empty one, and the cache holds the same; it fails only if the secret store refuses, and has changed neither then |
| ProviderKeys.AiProviderKeyStore.DeleteProviderKey | crates/oxideterm-ai/src/key_store.rs:184-200 | on success this call has taken the key out of the secret store and the cache no longer holds it; it fails only if the secret store refuses, and has changed neither then |

## Left out

- `i32` and `usize` overflow of lines, columns, offsets and turn counts: they are unbounded integers.
- The searches for brackets and regular expressions: the matching bracket of a cell is given.
- Semantic, bracket, screen and first-occupied vi motions, `contains_cell`, and scrolling the display to the cursor.
- Cells of which a wide character's spacer is the only or first one of a row, and cells that play two parts in a wide character; the terminal writes neither.
- What a rotated line or word selection selects: its anchors are followed, and the text between them is not part of the model.
- Real pseudoterminals, pollers, threads and files: reads, writes, poll results and arrivals are nondeterministic or given as finite scripts, so a read call that never returns is a script that runs out.
- The recording of reference tests, synchronized-update timeouts, the exit of the terminal when the child has exited, and the `Wakeup` and `ChildExit` events of the event loop.
- Fairness among threads blocked on one mutex, and so starvation at `next` itself.
- The `shutdown` of the task runtime and its race with `create`, the order of task events, audit records and the wiping of secrets.
- Resolution of JSON pointers (a result carries the pointers that resolve and their values), parsing of arguments (a specification carries the parsed value) and titles.
- Errors and aborted transactions of the database, decoding failures, MessagePack, compression and encodings; the redaction before a save; agent tables; appending transcripts and diagnostics; fields of a conversation besides title, times, messages and counts.
- ChatStore.AiChatPersistenceStore.ReadConversation: does not merge round summaries from the transcript into messages, and a message's content is one value that is stored and read as it is.
- BackgroundTasks.BackgroundTaskRuntime.CancelOwner: has no other threads between its cancellations; `TaskWorker.TaskHost.CancelOwner` has them.
- The keychain and portable stores behind `load_provider_key_from_os` and `store_provider_key_to_os`, account validation, the sync inventory, and the macOS batch path that bypasses single flight.
- Conditions that panic or poison locks.
- ChatIntegrity.SaveKeepsAgreement: assumes that a message id belongs to one conversation for life and that ids within a conversation are distinct, which the callers ensure and the tables do not enforce.
