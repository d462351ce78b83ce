# ioprocess: a verified model

ioprocess keeps slow or hanging file-system calls out of a Python program. A client object starts a
C server as a child process and talks to it over two pipes: requests go one way, responses come back
the other way, each as an 8-byte length and a JSON text. On the client many caller threads share one
event loop; on the server a reader, a handler, a pool of worker threads and a writer share two queues
and one atomic counter. This project models both programs and proves what they promise.

## What is modelled

**The server** (`Server.dfy`, `ServerInvariant.dfy`, `ServerTheorems.dfy`, `ServerAnswers.dfy`,
`ServerProgress.dfy`). A labelled transition system, one label for each atomic step of one thread: pop, decrement-and-test, pool push, worker
start, response push, counter increment, STOP push, pool drain, write. A run is a sequence of labels,
so every theorem is about every interleaving. The thread pool is taken as its documentation has it: at
most `max-threads` tasks at once (0 means no limit), started in the order of the pushes, and freeing it
returns when all are done. What a method computes is a relation in the configuration.

**The client** (`Client.dfy`, `ClientTheorems.dfy`, `ClientOutcomes.dfy`,
`ClientProgress.dfy`). A second transition system: callers between `put`
and ping, wakeup bytes in the event pipe, the loop's poll batch, the active sender, the poll mask of the
request pipe, pending requests, the id counter, close, crash, cleanup and restart.

**Both together** (`EndToEnd.dfy`, `Liveness.dfy`). The two systems joined by the two pipes, each a stream of bytes that
moves in portions and is decoded and parsed at the other end, over any number of crashes and restarts.

**Close and restart** (`Lifecycle.dfy`). Constructor, communication threads and `close` callers around
`_lock`, `_isRunning`, `_commthread` and the child processes.

**The pipes** (`Framing.dfy`, `PipeIo.dfy`). Frames, an abstract channel with short writes and reads,
and the loops of the program at the four ends: `requestReader`, `responseWriter`, `DataSender` and
`ResponseReader`, on a pipe whose every read and write may be short.

**JSON trees** (`DomSpec.dfy`, `DomTree.dfy`, `DomBuilder.dfy`). The event grammar of a JSON document
(section 2 of RFC 8259), the value it denotes, a stack machine with one key register, and its heap
form: node objects, the builder whose open containers are already linked into their parents, disposal
and generation. Ghost trees say which nodes are linked how; `live` records whether a node has been
freed, and freeing needs a live node, so nothing is freed twice.

**Files, logs** (`FileTransfer.dfy`, `Logs.dfy`). The chunked base64 loops of `readfile` and
`writefile` (section 4 of RFC 4648) and the reassembly of the child's log lines.

**Text** (`AsciiText.dfy`, `JsonText.dfy`, `RequestDump.dfy`). The dumped text of a request (escapes of
section 7 of RFC 8259, UTF-8 of section 3 of RFC 3629); a reader of JSON text written from the grammar
of RFC 8259 alone; and that the bytes the client's loop sends are read by it as the call of the caller's
method on the caller's arguments under the caller's id.

`JsonValues.dfy` and `Sequences.dfy` hold what the others share. `dafny verify dfyconfig.toml` checks
everything.

## What the proofs found

- **Logs.** `_processLogs` returns at the first line that does not end in a line feed. A carriage
  return that is neither followed by a line feed nor the last byte ends such a line, so the rest of
  the chunk is dropped; the saved line then blocks every later chunk that does not start with a line
  feed. `Reassembly` gives the exact condition under which no byte is lost, `LoneCRLosesALine` an input.
- **Wakeups.** Within one run of the event loop no wakeup is lost. Across a crash one can be: the byte
  of a command queued while a sender is active is read and dropped, and nothing pings after the
  restart. `WakeupAcrossCrash` is the exact condition, `CrashLosesWakeup` a run, `LostStaysLost` says
  that only a new command or a close helps.
- **Close.** The constructor calls `_run` without `_lock`. If the first child dies and is replaced
  before the constructor assigns `_commthread`, its assignment overwrites the restart's, and a later
  `close(sync=True)` joins the dead thread and can return with a child unreaped. `CloseReapsIff` is the
  exact condition, `CloseCanMissAChild` a run, `CloseReapsAll` the promise without that race.
- **Shutdown.** A close leaves the loop without completing the pending requests
  (`ShutdownAbandonsPending`); only an error exit completes them (`CrashCompletion`, `CrashIsReported`). `ShutdownSettlesIff`
  and `ShutdownServesAllIff` say exactly when a shutdown leaves nobody waiting, `CloseAbandonsCaller` is a
  run in which it does not.
- **Reading.** `exp_readfile` ends only when as many bytes came as the file had when it was opened: on
  a file cut meanwhile it reads at end of file for ever (`ReadFile`, `ReadOfCutFile`).
- **Texts.** The client dumps NaN and the infinities as words that are not JSON, and a pair of surrogates
  split over two characters of a Python string is read as one. `TextReadsIff` and `TextRoundTripIff` say
  exactly which arguments reach the server, and which unchanged.
- **Keys.** Map keys pass through C strings. `RoundTripIff` says a value survives being written and
  built again exactly when no key in it holds a NUL; `NulKeysCollide` is a value that does not.

## Model

| member | source | states |
|---|---|---|
| ServerTheorems.SlotConservation | src/ioprocess.c:498-552 | with `max-queued-requests` zero or more, in every reachable state free slots, admissions minus releases and the reject in progress add up to T + Q + 1; at most T + Q requests are outstanding and the counter is never negative |
| ServerTheorems.CountsAgree | src/ioprocess.c:544-552 | what is counted from the steps alone is what the state holds: pushing, pooled and running requests, and the reject in progress |
| ServerTheorems.ExactRejection | src/ioprocess.c:544-552 | the decrement rejects if and only if `max-queued-requests` is zero or more and exactly T + Q admitted requests hold slots; it admits if and only if the option is negative or fewer do |
| ServerTheorems.NoLimitNoReject | src/ioprocess.c:544-552 | with the option negative no request is ever rejected and the counter keeps its first value |
| ServerTheorems.RejectedIffFull | src/ioprocess.c:544-552 | in every run a request has been rejected if and only if exactly T + Q admitted requests held slots at its own decrement |
| ServerTheorems.DecidedAt | src/ioprocess.c:544-552 | the verdict of a decrement is settled by the slots held there, and later steps keep it |
| ServerAnswers.FullGetsEagain | src/ioprocess.c:395-421 | over a whole run a request whose decrement found all places taken gets exactly one response, EAGAIN; every other one was admitted |
| ServerTheorems.NoAdmitWhileRejecting | src/ioprocess.c:546-548 | between the decrement that rejects and the increment that ends it no request is admitted, whatever the workers do |
| ServerTheorems.RejectionKeepsCapacity | src/ioprocess.c:544-548 | over a whole rejection the counter grows by exactly the releases of the workers meanwhile |
| ServerTheorems.BoundedReordering | src/ioprocess.c:508-552 | when an admitted request is answered at most T - 1 earlier admitted well-formed requests have no answer yet |
| ServerTheorems.SingleThreadArrivalOrder | src/ioprocess.c:508-552 | with one worker thread admitted requests are answered in arrival order, none overtaken |
| ServerTheorems.WholeRunAccounting | src/ioprocess.c:497-596 | when the writer meets STOP every request read was dequeued, each one rejected or with an id and a string methodName has exactly one response written, the others none, and nothing is left in the queue |
| ServerAnswers.RejectedGetsEagain | src/ioprocess.c:395-416 | in every reachable state the answer to a rejected request has error 11 with its text, an empty result and the request's own integer id, or -1 if it has none |
| ServerAnswers.AdmittedGetsOutcome | src/ioprocess.c:360-476 | any other answer is to a request with an id and a string methodName, under its own integer id, and reports an outcome of that method on those arguments, or error 22, naming the method, for an unknown one |
| ServerTheorems.StopIsLast | src/ioprocess.c:562-573 | once STOP is on the response queue it stays the last item in every continuation, and no worker touches the slot counter, a variable of the returned handler, again |
| ServerTheorems.WorkDecreases | src/ioprocess.c:520-573 | every step of every thread but the reader lowers the work left |
| ServerTheorems.ShutdownTerminates | src/ioprocess.c:520-596 | after the reader's STOP no schedule takes more steps than the work left |
| ServerTheorems.ShutdownNeverStuck | src/ioprocess.c:520-596 | until the writer meets STOP some thread can take a step: shutdown has no deadlock |
| ServerProgress.ReaderIff | src/ioprocess.c:652-716 | until it queues STOP, and only until then, the reader can queue any request, and STOP |
| ServerProgress.HandlerWaitsIff | src/ioprocess.c:528-573 | the handler waits if and only if the request queue is empty or, after STOP, an admitted request is still unreleased |
| ServerProgress.PoolStartsIff | src/ioprocess.c:508-552 | counted from the steps alone: the pool starts a task if and only if more were pushed than started and fewer than T run, or T is zero |
| ServerProgress.WorkerNeverWaits | src/ioprocess.c:423-490 | a running task can always go on: to an answer, any outcome its method may have on its arguments and no other, or, without id or method name, to none; then to its release |
| ServerProgress.WriterIff | src/ioprocess.c:586-596 | the writer waits if and only if the response queue is empty |
| ServerProgress.ShutdownCompletes | src/ioprocess.c:520-596 | after the reader's STOP some schedule brings the writer to STOP, if methods return |
| ServerProgress.RunCompletes | src/ioprocess.c:497-596 | and so from every reachable state, the first one included: the accounting of whole runs is about runs that exist |
| ServerInvariant.SlotsStep | src/ioprocess.c:486-548 | every step keeps the slot balance |
| ServerInvariant.PoolStep | src/ioprocess.c:508-552 | every step keeps: at most T tasks run, the pool is in arrival order and each admitted request is in one place |
| ServerInvariant.VerdictStep | src/ioprocess.c:528-561 | every step keeps: each dequeued request is admitted or rejected, never both, or is being decided |
| ServerInvariant.RequestsStep | src/ioprocess.c:528-535 | every step keeps: requests read are those dequeued and those queued, in order, with one STOP at the end |
| ServerInvariant.AnswersStep | src/ioprocess.c:395-489 | every step keeps: each request has an answer queued exactly when its thread got that far, at most one, with the content its own fields call for |
| ServerInvariant.RunInv | src/ioprocess.c:423-573 | all of these hold in every reachable state |
| Framing.LengthRoundTrip | src/ioprocess.c:609-614 | a length of any width decodes to what was encoded |
| Framing.FrameLayout | bindings/python/ioprocess/__init__.py:425-428 | every frame is eight bytes that hold the length of the message, byte i being its i-th digit to the base 256, and then the message |
| Framing.StreamLayout | src/ioprocess.c:609-628 | and a stream is such frames one after the other and nothing else |
| Framing.CompleteOfStream | src/ioprocess.c:652-707 | decoding a stream of frames gives the messages, then whatever follows |
| Framing.CutStream | bindings/python/ioprocess/__init__.py:258-305 | a stream cut anywhere decodes to a prefix of the messages, all but an unfinished last one |
| Framing.FramingRefinement | bindings/python/ioprocess/__init__.py:258-305 | for every schedule of short writes and reads the messages delivered are a prefix of those sent and equal them once the bytes are consumed; no header is read short |
| Framing.ScheduleIff | bindings/python/ioprocess/__init__.py:258-305 | which schedules there are: any first write of at least a header, and writes and reads of any number of the bytes there are |
| Framing.ChannelDrains | bindings/python/ioprocess/__init__.py:258-305 | from every reachable state of the channel some schedule delivers exactly what was sent |
| PipeIo.ReadSize | src/ioprocess.c:655-674 | a header read cut short keeps the old bytes of the size behind the new ones; a failed one leaves them all |
| PipeIo.StartRequest | src/ioprocess.c:653-675 | after a header either a message is open, or nothing more can come of the stream, the stale size notwithstanding |
| PipeIo.ReadChunk | src/ioprocess.c:677-689 | a body read adds its bytes to the open message; an error, end of file or a zero length ends the loop, and then nothing comes of what was taken |
| PipeIo.RequestReader | src/ioprocess.c:652-716 | for every schedule of short and failing reads the loop queues, in order, exactly what the bytes it took decode to, then one STOP; unless a read failed, that is all the stream decodes to |
| PipeIo.AcceptedIsStepwise | src/ioprocess.c:652-707 | the requests among the complete frames are those found header by header, up to the first length that is zero or too long, or body that does not parse |
| PipeIo.Truncation | src/ioprocess.c:652-716 | for a stream of frames cut at any byte these are the frames that end before the cut |
| PipeIo.WriteHeader | src/ioprocess.c:609-614 | the header goes out in one piece or not at all |
| PipeIo.WriteBody | src/ioprocess.c:617-628 | a short or failed body write leaves exactly the rest to be written |
| PipeIo.ResponseWriter | src/ioprocess.c:586-629 | if and only if no write failed the loop reaches STOP, and then the pipe got exactly the frames of the responses before it, each eight bytes of length and the text; otherwise a prefix of them, and the error reported is that of the last call |
| PipeIo.DataSender.Process | bindings/python/ioprocess/__init__.py:263-269 | bytes only move from the sender to the pipe; done is reported if and only if nothing was left, an error if and only if the write failed, and every other call makes progress |
| PipeIo.ResponseReader.StartMessage | bindings/python/ioprocess/__init__.py:281-282 | it succeeds if and only if the read did not fail and there is a whole header of a length above zero |
| PipeIo.ResponseReader.TakeBody | bindings/python/ioprocess/__init__.py:284-295 | bytes read are accounted to the open message, which is complete when its last one came; it tries again on errors 4 and 11 and fails if and only if a read failed with another |
| PipeIo.ResponseReader.Process | bindings/python/ioprocess/__init__.py:280-302 | a message is handed on exactly when its last byte arrives, parsed from exactly its bytes; when the call raises nothing is handed on, and why it raises |
| PipeIo.ResponseReader.ReceivedIsComplete | bindings/python/ioprocess/__init__.py:280-302 | the messages received are exactly what the bytes taken decode to |
| ClientTheorems.SenderCoherence | bindings/python/ioprocess/__init__.py:105-164 | the request pipe is polled for output exactly while a sender is active, so no event of any batch finds the sender missing or the event pipe empty |
| ClientTheorems.FramesInOrder | bindings/python/ioprocess/__init__.py:143-164 | the request pipe carries whole frames and at most one unfinished one, each the dumped call that the id next in order was given to |
| ClientTheorems.WireDecodes | bindings/python/ioprocess/__init__.py:155-164 | what the server can decode is a prefix of the requests framed, all of them when no sender is active |
| ClientTheorems.CrashCompletion | bindings/python/ioprocess/__init__.py:128-207 | when any error exit is over, closed client or not, every request ever given an id has its result set exactly once and the commands without one wait in order; whatever follows, this stays so until the next command is fetched |
| ClientOutcomes.CrashIsReported | bindings/python/ioprocess/__init__.py:165-207 | when an error exit is over every caller that waited when it began is told "ioprocess crashed unexpectedly" under error 100001, and what any other caller was told is unchanged |
| ClientOutcomes.ResponseIsReported | bindings/python/ioprocess/__init__.py:128-141 | a response tells the caller whose pending request has its id its error, or without one its result, and changes nothing for any other caller |
| ClientOutcomes.CleanupEnds | bindings/python/ioprocess/__init__.py:165-207 | every error exit can be brought to its end with nothing pending |
| ClientOutcomes.RestartIff | bindings/python/ioprocess/__init__.py:196-200 | after it the loop starts again if and only if the client was not closed, with a fresh sender, pipe and table, the same queue and wakeup bytes, and the next id |
| ClientOutcomes.ValueOnlyFromServer | bindings/python/ioprocess/__init__.py:458-472 | a caller gets a value only from a response without error, and then that of the response; an error of a response is raised as it is, and a completion by cleanup as a crash |
| ClientOutcomes.ResultStays | bindings/python/ioprocess/__init__.py:458-472 | what a caller is told once it is told for good, across crashes and restarts |
| ClientOutcomes.PingsConserved | bindings/python/ioprocess/__init__.py:143-163 | in every run the bytes in the event pipe are the pings of callers, of closes and of the loop less one for each event read |
| ClientProgress.EventsInOrder | bindings/python/ioprocess/__init__.py:120-163 | the loop looks at the events of a poll one by one, in order, each once |
| ClientProgress.BatchDecreases | bindings/python/ioprocess/__init__.py:120-163 | every step on a batch brings the next poll nearer and no step of another thread moves the loop |
| ClientProgress.LoopNeverStuck | bindings/python/ioprocess/__init__.py:107-163 | in every reachable state the running loop has a step it can take |
| ClientProgress.PollIff | bindings/python/ioprocess/__init__.py:98-109 | a poll can return any selection of the child's pipes, the event pipe if and only if there is a byte in it and the request pipe if and only if a sender is active |
| ClientProgress.SignalsCanBeRead | bindings/python/ioprocess/__init__.py:124-144 | when the loop gets to the error pipe or the event pipe it can read it |
| ClientProgress.ResponsesCanBeRead | bindings/python/ioprocess/__init__.py:128-141 | any response, or none yet, may come of the response pipe when the loop gets to it, and only then |
| ClientProgress.WritesCanBeShort | bindings/python/ioprocess/__init__.py:159-163 | a write moves any part of what the sender has left but not nothing, and with nothing left ends the sender |
| ClientProgress.CallersPing | bindings/python/ioprocess/__init__.py:386-396 | a client is open until it is closed, and each caller pings once, after its command is queued |
| ClientProgress.CallersIff | bindings/python/ioprocess/__init__.py:386-396 | a command can always be queued; a ping succeeds or, after a close, fails, once for each caller; the flag is cleared once, and then a close pings |
| ClientTheorems.SettledBeforeRestart | bindings/python/ioprocess/__init__.py:196-207 | the same holds whenever a restart is due |
| ClientTheorems.SetAtMostOnce | bindings/python/ioprocess/__init__.py:131-207 | in every reachable state no result is set twice and none for a caller without an id |
| ClientTheorems.IdsNeverReused | bindings/python/ioprocess/__init__.py:153-154 | of two requests of a run, whatever crashes and restarts lie between them, the later is registered under the greater id; stated of the pending map, not of the counter |
| ClientTheorems.IdGiven | bindings/python/ioprocess/__init__.py:413-415 | every fetch of a command registers it under exactly one id, the counter plus one |
| ClientTheorems.CompletedIdsDistinct | bindings/python/ioprocess/__init__.py:134-137 | no two completions of a run have the same id |
| ClientTheorems.HistoriesGrow | bindings/python/ioprocess/__init__.py:413-415 | the id counter, the calls and the completions only grow, across restarts too |
| ClientTheorems.ShutdownAbandonsPending | bindings/python/ioprocess/__init__.py:113-118 | after a shutdown exit the requests still pending never get a result |
| ClientTheorems.ShutdownSettlesIff | bindings/python/ioprocess/__init__.py:113-118 | after a shutdown exit, and in every continuation, each caller with an id has its result set once if and only if nothing was pending when the loop checked the flag |
| ClientTheorems.ShutdownServesAllIff | bindings/python/ioprocess/__init__.py:113-118 | each caller so far, those still queued included, has its result set if and only if nothing was pending and nothing queued then |
| ClientTheorems.CloseAbandonsCaller | bindings/python/ioprocess/__init__.py:113-118 | a run that is closed while its first request waits; no continuation ever completes it |
| ClientTheorems.WakeupStep | bindings/python/ioprocess/__init__.py:143-164 | a step of a running loop keeps: a queued command has a wakeup due |
| ClientTheorems.NoLostWakeupWithinRun | bindings/python/ioprocess/__init__.py:143-164 | within one run of the loop a nonempty queue always has a byte, a sender, a fetch, a ping of the loop or a pinging caller behind it |
| ClientTheorems.WakeupAcrossCrash | bindings/python/ioprocess/__init__.py:143-200 | whatever happens between an error exit and the restart short of a new command, this holds afterwards if and only if, at the error, the queue was empty, a byte was in the pipe or a caller had yet to ping |
| ClientTheorems.LostStaysLost | bindings/python/ioprocess/__init__.py:143-164 | a lost wakeup stays lost in every continuation without a new command or a close |
| ClientTheorems.CrashLosesWakeup | bindings/python/ioprocess/__init__.py:144-146 | a run that ends with a queued command and nothing to wake the loop |
| ClientTheorems.IdStep | bindings/python/ioprocess/__init__.py:148-155 | every step keeps: request id i belongs to the i-th call and the calls without id wait in order |
| ClientTheorems.ResultStep | bindings/python/ioprocess/__init__.py:131-207 | every step keeps: a caller with an id is pending or has its result set once |
| ClientTheorems.SenderStep | bindings/python/ioprocess/__init__.py:120-164 | every step keeps the poll mask, the events of the batch and the sender consistent |
| ClientTheorems.RunInv | bindings/python/ioprocess/__init__.py:107-207 | all of these hold in every reachable state |
| EndToEnd.RunParts | bindings/python/ioprocess/__init__.py:107-207 | in the joined system both programs keep their own invariants and the response pipe carries the frames of the answers written, whatever the text layer does |
| EndToEnd.Arrived | bindings/python/ioprocess/__init__.py:280-302 | a frame complete on the response pipe is the text of the answer at its place |
| EndToEnd.ResponseId | src/ioprocess.c:395-476 | the next answer carries the id its request was sent under |
| EndToEnd.ResponseIsFor | src/ioprocess.c:423-476 | and it answers the command sent under that id |
| EndToEnd.RunInv | bindings/python/ioprocess/__init__.py:128-200 | requests read by the server, pending ids and completions match in every state of the joined system, as far as texts that parse parse to what was meant |
| EndToEnd.EndToEndCorrelation | bindings/python/ioprocess/__init__.py:128-158 | in every interleaving over any number of restarts, bytes moving on both pipes in any portions, a result from the server answers that very caller's command, under the id given to it |
| EndToEnd.CallerSeesOwnOutcome | bindings/python/ioprocess/__init__.py:458-472 | what any caller's method raises or returns is error 11 (only with a queue limit), error 22 (only for an unknown method), exactly an outcome of the caller's own method on the caller's own arguments, each as the text carries it, or the crash error 100001 |
| EndToEnd.ResultsSetOnce | bindings/python/ioprocess/__init__.py:131-158 | in the joined system, whatever the text layer does, no result is set twice and ids follow the order of the calls |
| EndToEnd.NoResponseUnexpected | bindings/python/ioprocess/__init__.py:131-140 | no response that can arrive in the joined system carries an id that is not pending |
| EndToEnd.NothingIsLost | bindings/python/ioprocess/__init__.py:128-158 | in every state of the joined system with the loop running, a request the client waits for is on its way to the server, at the server, or its answer is on its way back |
| EndToEnd.AllServedAtRest | bindings/python/ioprocess/__init__.py:128-158 | when nothing is under way in the joined system nothing is pending and every caller with an id has its result set once |
| Liveness.CanBeServed | bindings/python/ioprocess/__init__.py:98-163 | from every reachable state of the joined system, the first one included, with the loop running, the client open and the server reading, some schedule answers every request that has an id: there is no dead end, if texts are accepted and methods return |
| Liveness.NextMove | bindings/python/ioprocess/__init__.py:98-163 | until all is served some step of a thread brings the system nearer to rest, by a measure of queued commands, bytes and requests under way, and events left |
| Liveness.AnyPortionMoves | src/ioprocess.c:617-628 | the response writer may move any part of a frame |
| Lifecycle.RunInv | bindings/python/ioprocess/__init__.py:173-200 | who holds the lock, which child is unreaped and which thread is the newest, in every reachable state |
| Lifecycle.OneChildAtATime | bindings/python/ioprocess/__init__.py:179-200 | at most one child is unreaped, the newest |
| Lifecycle.NoSpawnAfterClose | bindings/python/ioprocess/__init__.py:196-200 | once close has cleared the flag no child is spawned in any continuation |
| Lifecycle.OneCloseClears | bindings/python/ioprocess/__init__.py:626-630 | the flag is set until a call of close clears it, and only one call ever does |
| Lifecycle.CloseReapsIff | bindings/python/ioprocess/__init__.py:626-638 | every way a synchronous close returns leaves all children reaped if and only if, when it clears the flag, `_commthread` is the newest thread or all children are reaped |
| Lifecycle.CloseReapsAll | bindings/python/ioprocess/__init__.py:626-638 | unless the constructor's assignment came after a restart had begun, a synchronous close returns with every child ever spawned reaped |
| Lifecycle.CloseCanMissAChild | bindings/python/ioprocess/__init__.py:331-405 | with that race there is a run in which it does not |
| Lifecycle.CloseWorkDecreases | bindings/python/ioprocess/__init__.py:173-200 | once the flag is cleared every step but a new call of close lowers the work left |
| Lifecycle.CloseTerminates | bindings/python/ioprocess/__init__.py:626-638 | so no schedule without new calls of close goes on for ever |
| Lifecycle.CloseNeverStuck | bindings/python/ioprocess/__init__.py:626-638 | until a close returns some thread or closer can take a step, since it joins the thread without holding the lock |
| Lifecycle.CloseCanReturn | bindings/python/ioprocess/__init__.py:626-638 | from every reachable state a synchronous close that cleared the flag can be played to its return |
| DomSpec.FeedDoc | src/json-dom-parser.c:40-138 | feeding a document's events adds its value where a scalar would have gone, at every depth, although one key register serves all maps |
| DomSpec.BuildsDocument | src/json-dom-parser.c:154-195 | the events of a document build its value, keys cut at NUL, of a repeated key the last |
| DomSpec.CStrNoNul | src/json-dom-parser.c:54 | a key through a C string has no NUL and is unchanged if it had none |
| DomSpec.ListedMeaning | src/json-dom-generator.c:65-77 | a value written out in any order of its fields is read back equal |
| DomSpec.RoundTripIff | src/json-dom-generator.c:38-91 | building from the events of a value, in any order of its fields, gives the value back if and only if it has no NUL in a key |
| DomSpec.NulKeysCollide | src/json-dom-parser.c:54 | an object with two fields whose keys differ only behind a NUL is built back with one |
| DomTree.Free | src/json-dom.c:161-196 | every node of the tree is freed, each exactly once, and no other |
| DomTree.FreeItems | src/json-dom.c:173-183 | the children of an array up to the null at its end |
| DomTree.FreeEntries | src/json-dom.c:169-172 | the values of a map in any order |
| DomTree.Generate | src/json-dom-generator.c:38-91 | the events written are those of a document that lists exactly the tree's value |
| DomTree.GenerateItems | src/json-dom-generator.c:78-88 | the items of an array in order, up to the null at its end |
| DomTree.GenerateEntries | src/json-dom-generator.c:65-77 | every entry of a map once, in whatever order |
| DomTree.PrintableIff | src/json-dom-generator.c:71-73 | all keys of a tree are C strings if and only if its value has no NUL in a key |
| DomTree.LinkWithout | src/json-dom.c:115 | inserting over an existing key links the same as inserting without it |
| DomBuilder.MapInsert | src/json-dom.c:100-116 | the key leads to the node; the tree it displaces is freed, the other children stay |
| DomBuilder.LinkTop | src/json-dom-parser.c:48-60 | linking a node into the open container keeps the stack a path of open containers, and of all nodes made exactly those reachable stay live |
| DomBuilder.CloseTopOk | src/json-dom-parser.c:130-133 | closing a container changes only the view: same nodes, stack without its head |
| DomBuilder.ClosedHolds | src/json-dom-parser.c:197-203 | whatever is open, the node at the bottom of the stack roots one tree of all reachable nodes |
| DomBuilder.Builder.AddValue | src/json-dom-parser.c:40-61 | the first node becomes the bottom of the stack, a later one a child of the open container; the heap invariant is kept |
| DomBuilder.Builder.AddScalar | src/json-dom-parser.c:63-103 | the abstract machine's step for a scalar |
| DomBuilder.Builder.AddContainer | src/json-dom-parser.c:114-122 | the container is linked to its parent and open, its path extends the stack by one |
| DomBuilder.Builder.StartMap | src/json-dom-parser.c:124-127 | the abstract machine's step for an opened map |
| DomBuilder.Builder.StartArray | src/json-dom-parser.c:135-138 | the abstract machine's step for an opened array |
| DomBuilder.Builder.MapKey | src/json-dom-parser.c:105-112 | the one key register is overwritten, nothing else |
| DomBuilder.Builder.EndContainer | src/json-dom-parser.c:130-133 | the abstract machine's step for a closed container |
| DomBuilder.Builder.Callback | src/json-dom-parser.c:140-152 | every parser event takes the heap through the abstract machine's step and keeps the heap invariant |
| DomBuilder.Builder.StackIsLive | src/json-dom-parser.c:40-61 | no freed node, so no displaced value, is ever on the stack |
| DomBuilder.BuildDom | src/json-dom-parser.c:154-212 | accepted text yields a tree of fresh nodes with the document's value, all other nodes freed; rejected text yields null and every node made is freed exactly once |
| DomBuilder.RoundTrip | src/json-dom-generator.c:38-91 | a tree on the heap written out and built again gives an equal tree of new nodes |
| FileTransfer.DecodesEncoded | bindings/python/ioprocess/__init__.py:562-574 | base64 decoding undoes encoding, for all bytes |
| FileTransfer.AlphabetOrder | bindings/python/ioprocess/__init__.py:562-574 | digit v is character v of the alphabet of RFC 4648 |
| FileTransfer.RankIff | bindings/python/ioprocess/__init__.py:562-574 | a character is decoded to its place in the alphabet, padding to zero, and nothing else is decoded |
| FileTransfer.DecodeSkips | src/exported-functions.c:583 | a character outside the alphabet makes no difference to what is decoded, wherever it stands |
| FileTransfer.EncodeConcat | src/exported-functions.c:720-723 | whole groups of three encode independently of what follows |
| FileTransfer.EncodeStep | src/exported-functions.c:720-721 | one step with up to two carried bytes encodes the whole groups, carries the rest and stays inside a buffer of the documented size |
| FileTransfer.EncodeClose | src/exported-functions.c:727-729 | the carried bytes, padded |
| FileTransfer.ReadFile | src/exported-functions.c:679-732 | for every schedule of short reads, and whatever other processes do to the file, the chunks encoded one by one are the encoding of the bytes read, within the buffer and the range of an int; the loop is over without an error if and only if as many bytes came as the file had at first: always on a file left alone, never on one that is shorter; the error reported is that of the read that failed |
| FileTransfer.ReadOfCutFile | src/exported-functions.c:706-724 | a file of two bytes cut to one before it is read is, left alone, never read out |
| FileTransfer.WriteFile | src/exported-functions.c:583-613 | for every schedule of short writes the file holds exactly the decoded data and an fsync has made it durable, on failure a prefix; it fails if and only if a write or the sync failed, with the error of that call |
| FileTransfer.ClientWrite | bindings/python/ioprocess/__init__.py:569-574 | what the caller passes is what the file holds, synced, or the error of the failed call comes back |
| FileTransfer.ClientRead | bindings/python/ioprocess/__init__.py:562-567 | the caller gets the bytes that were read, and those of a file left alone are the file's |
| Logs.LogReader.ProcessLogs | bindings/python/ioprocess/__init__.py:430-438 | one chunk: the lines handled up to the first incomplete one, which is saved |
| Logs.KeepsAllIff | bindings/python/ioprocess/__init__.py:430-438 | a call keeps a prefix of its input, and all of it if and only if it has no lone carriage return |
| Logs.HandlesAsSplit | bindings/python/ioprocess/__init__.py:434-438 | then its lines are those that line feeds delimit |
| Logs.Reassembly | bindings/python/ioprocess/__init__.py:430-456 | for every way to cut a stream into chunks no byte is lost if and only if the stream has no lone carriage return, and then lines and partial line are those of the whole stream |
| Logs.StuckBehindCR | bindings/python/ioprocess/__init__.py:431-438 | a saved line that ends in a carriage return swallows a chunk if and only if it does not start with a line feed |
| Logs.StuckForGood | bindings/python/ioprocess/__init__.py:430-438 | and so every sequence of such chunks, leaving the log as it was |
| Logs.LoneCRLosesALine | bindings/python/ioprocess/__init__.py:434-438 | the bytes "a", CR, "b", LF: nothing is handled, the second line is lost and so are the lines after it |
| AsciiText.DumpsPlain | bindings/python/ioprocess/__init__.py:423 | the dumped text is printable ASCII whatever the arguments |
| AsciiText.DumpedForms | bindings/python/ioprocess/__init__.py:423 | the short escapes, printable characters as they are, and a minus sign for negative numbers alone |
| JsonText.UnescapeIff | bindings/python/ioprocess/__init__.py:423 | reading an escaped string by the rules of section 7 of RFC 8259, not with the server's parser library, gives it back if and only if it holds no surrogate pair split in two characters |
| AsciiText.CountIff | bindings/python/ioprocess/__init__.py:425-426 | counting characters gives the byte count if and only if the text is ASCII |
| JsonText.TextReadsIff | bindings/python/ioprocess/__init__.py:423 | for every value the dumped text is read, by the grammar of RFC 8259, as that value with surrogate pairs joined, if and only if all its doubles are written as JSON has them, which NaN and the infinities are not |
| JsonText.TextRoundTripIff | bindings/python/ioprocess/__init__.py:423 | and as the very same value if and only if moreover no string in it holds a split surrogate pair |
| JsonText.Utf8RoundTrip | bindings/python/ioprocess/__init__.py:426 | every text that has a UTF-8 encoding is read back from it |
| RequestDump.RequestReads | bindings/python/ioprocess/__init__.py:417-423 | for every method name, arguments and id the text of the request is read as an object of three fields, "id" the integer, "methodName" the name and "args" the arguments |
| RequestDump.RequestToBytes | bindings/python/ioprocess/__init__.py:417-428 | for all Unicode arguments the bytes are eight that hold the number of bytes to come, then printable ASCII that is read as just this call; packing fails if and only if the length needs more than 64 bits |
| RequestDump.FetchSendsRequest | bindings/python/ioprocess/__init__.py:153-156 | what the loop hands to the sender for a command is that frame, for the caller's call and the counter plus one |
| RequestDump.FramesAreRequests | bindings/python/ioprocess/__init__.py:153-156 | in every run each frame on the request pipe is read as the call that its id was given to |
| RequestDump.RequestsAreFaithful | bindings/python/ioprocess/__init__.py:417-428 | the server reads every request, from its bytes, as the command that was called under that id |
| RequestDump.TextCorrelation | bindings/python/ioprocess/__init__.py:128-158 | so the end-to-end correlation holds with the real texts of the requests in place of an assumption about them |

## Left out

- Other exported functions (stat, rename, glob, statvfs, `probe_block_size` and the like): thin system calls with no property beyond the kernel's; a method is a relation between its arguments and its outcome.
- The internals of yajl, Python's `json` and GLib: in the joined system a text may be rejected at the other end, but one that parses carries the id, the method name, the error and some form of the arguments or the result, such as with keys cut at a NUL. For requests this is proved of a reader of RFC 8259 text that is not yajl (`TextCorrelation`), for responses it stays an assumption; trees are treated at the level of parser events, doubles are opaque tokens, generator depth limits and number formatting are not modelled.
- RequestReads: for arguments whose doubles are all finite; the text of NaN or an infinity is not JSON, as `TextReadsIff` says. A lone surrogate, which no character of the server's strings can be, is read as a question mark.
- Text a parser accepts is taken to be one document's events, and text it rejects a legal beginning; which texts it accepts is the parser's business.
- A request whose `methodName` is not a string: the program reads the node all the same, its behaviour is undefined, and in the model the worker takes no further step. A wrongly typed `id` gives an arbitrary number.
- Failures of allocation, of the thread pool and of `Popen`; `exp_crash` and any other death of the child are the step by which the loop raises.
- Ids and the sum T + Q + 1 are unbounded integers; the program keeps them in a Python integer, a `long` and a `gint`.
- The request reader's buffer is a sequence of the bytes read, not allocated memory; the nodes of rejected requests, which the program leaks, are values in the server model.
- The byte order of the length is little-endian; the program uses the machine's.
- The event loop of `_communicate` and the four server threads are steps of transition systems on values, so that every interleaving is covered, and not loops on objects; the loops that work on a pipe, a tree, a file or a chunk of log are methods on objects.
- Real time: poll timeouts, callers that time out, `wait_until_ready`, and a reader blocked on a closed descriptor.
- Weak references, `__del__`, thread names, descriptor flags, `taskset` and `valgrind` command lines, and a full event pipe, whose ping is dropped but which holds bytes already.
- `logfunc` and the server's log writer: the same short-write loop again. The level and domain of a log line and its decoding are not modelled, nor is the reset of the partial line by a restart, which is a new `LogReader`.
- Direct I/O alignment, the errors of `open` and `fstat`, and GLib's and Python's treatment of malformed base64 beyond skipping other characters.
- FramingRefinement: from client to server the first write of a frame is assumed to move at least the eight bytes of the header, because src/ioprocess.c:655 does not handle a short one; from server to client the header is a single write, so this is proved in ResponseWriter.
- ResponseWriter: how often a write answers EAGAIN is a finite number of the pipe, so that the loop, which retries at once, ends; the queue is given whole, ending in STOP.
- ReadFile: the loop is followed for a given number of reads, since on a file cut meanwhile it does not end; a file never holds 2^31 bytes or more, where the counter would overflow.
- ShutdownNeverStuck: deadlock freedom is for servers whose methods return and whose requests name methods by strings.
- CloseReapsIff: `close` is called after the constructor has returned, and with `sync=True`.
- NoResponseUnexpected: a response whose request is gone, which the loop would log, cannot occur in the joined system; loss or corruption of bytes in a pipe is not modelled.
