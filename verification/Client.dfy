/**
 * The client as a labelled transition system: caller threads put commands on a
 * queue and write a wakeup byte; one communication thread runs the event loop.
 * One label is one atomic step of one thread.
 */
module ClientLoop {
  import opened JsonValues
  import opened Framing
  import ServerPipeline

  type Response = ServerPipeline.Response

  datatype Command = Command(methodName: string, args: Json)

  /** The text of a request, or nothing where the arguments cannot be dumped. */
  type Dump = (nat, Command) -> Option<Message>

  datatype Fd = ErrPipe | EventPipe | ReadPipe | WritePipe

  /** `rest` are the events of the poll result not looked at yet. */
  datatype Pc =
    | Polling
    | Polled(rest: seq<Fd>)          // poll returned, before the shutdown check
    | Dispatch(rest: seq<Fd>)
    | Fetching(rest: seq<Fd>)        // wakeup byte read, before get_nowait
    | Pinging(rest: seq<Fd>)         // sender cleared, before the ping
    | Cleaning                       // an error left the loop, before _cleanup is over
    | Ended

  /** How a caller's result was set. */
  datatype Source = FromServer(resp: Response) | FromCleanup

  const ERR_IOPROCESS_CRASH := 100001

  /** How _sendCommand ends once the result is set: an OSError, or a value. */
  datatype CallResult = Raised(errno: int, strerror: string) | Got(value: Json)

  function Delivered(source: Source): CallResult {
    match source
    case FromCleanup => Raised(ERR_IOPROCESS_CRASH, "ioprocess crashed unexpectedly")
    case FromServer(resp) => if resp.errcode != 0 then Raised(resp.errcode, resp.errstr) else Got(resp.result)
  }

  datatype Completion = Completion(caller: nat, id: nat, source: Source)

  /**
   * A caller is the number of its _sendCommand call, an index into `calls`.
   * `calls`, `completions`, `frames`, `wire` and `firstId` are histories; the last
   * three are those of the current run of the loop.
   */
  datatype State = State(
    calls: seq<Command>,
    putters: set<nat>,               // callers between put and ping
    queue: seq<nat>,
    eventBytes: nat,
    isRunning: bool,
    reqId: nat,
    pc: Pc,
    pending: map<nat, nat>,
    sender: Option<seq<Byte>>,
    pollOut: bool,
    completions: seq<Completion>,
    firstId: nat,
    frames: seq<Message>,
    wire: seq<Byte>)

  const INIT_STATE := State([], {}, [], 0, true, 0, Polling, map[], None, false, [], 1, [], [])

  predicate Ready(s: State, fd: Fd) {
    match fd
    case ErrPipe => true
    case ReadPipe => true
    case EventPipe => s.eventBytes > 0
    case WritePipe => s.pollOut
  }

  predicate Distinct(fds: seq<Fd>) {
    forall i, j :: 0 <= i < j < |fds| ==> fds[i] != fds[j]
  }

  datatype Label =
    | Put(cmd: Command) | Ping(caller: nat) | PingFails(caller: nat)
    | Close | ClosePing
    | Poll(batch: seq<Fd>) | Check | EndBatch
    | OnErr | OnPartial | OnResponse(resp: Response) | OnEvent | Fetch | OnWrite(k: nat) | LoopPing
    | Raise | CleanOne(id: nat) | CleanEnd | Restart

  /** The event the dispatch loop looks at. */
  predicate At(s: State, fd: Fd) {
    s.pc.Dispatch? && s.pc.rest != [] && s.pc.rest[0] == fd
  }

  predicate Enabled(s: State, l: Label) {
    match l
    // callers
    case Put(_) => true
    case Ping(c) => c in s.putters
    case PingFails(c) => c in s.putters && !s.isRunning
    case Close => s.isRunning
    case ClosePing => !s.isRunning
    // event loop
    case Poll(batch) => s.pc.Polling? && Distinct(batch) && forall i :: 0 <= i < |batch| ==> Ready(s, batch[i])
    case Check => s.pc.Polled?
    case EndBatch => s.pc == Dispatch([])
    case OnErr => At(s, ErrPipe)
    case OnPartial => At(s, ReadPipe)
    case OnResponse(_) => At(s, ReadPipe)
    case OnEvent => At(s, EventPipe) && s.eventBytes > 0
    case Fetch => s.pc.Fetching? && (s.queue != [] ==> s.queue[0] < |s.calls|)
    case OnWrite(k) =>
      At(s, WritePipe) && s.sender.Some? &&
      (if s.sender.value == [] then k == 0 else 0 < k <= |s.sender.value|)
    case LoopPing => s.pc.Pinging?
    case Raise => s.pc.Polling? || s.pc.Dispatch? || s.pc.Pinging?
    case CleanOne(id) => s.pc.Cleaning? && id in s.pending
    case CleanEnd => s.pc.Cleaning? && s.pending == map[]
    case Restart => s.pc.Ended? && s.isRunning
  }

  function Settle(s: State, id: nat, source: Source): State
    requires id in s.pending
  {
    s.(pending := s.pending - {id}, completions := s.completions + [Completion(s.pending[id], id, source)])
  }

  function Apply(dump: Dump, s: State, l: Label): State
    requires Enabled(s, l)
  {
    match l
    case Put(cmd) =>
      var c := |s.calls|;
      s.(calls := s.calls + [cmd], queue := s.queue + [c], putters := s.putters + {c})
    case Ping(c) => s.(putters := s.putters - {c}, eventBytes := s.eventBytes + 1)
    case PingFails(c) => s.(putters := s.putters - {c})
    case Close => s.(isRunning := false)
    case ClosePing => s.(eventBytes := s.eventBytes + 1)
    case Poll(batch) => s.(pc := Polled(batch))
    case Check => s.(pc := if s.isRunning then Dispatch(s.pc.rest) else Ended)
    case EndBatch => s.(pc := Polling)
    case OnErr => s.(pc := Dispatch(s.pc.rest[1..]))
    case OnPartial => s.(pc := Dispatch(s.pc.rest[1..]))
    case OnResponse(resp) =>
      var t := s.(pc := Dispatch(s.pc.rest[1..]));
      // an unknown id is only logged
      if resp.id >= 0 && resp.id as nat in t.pending then Settle(t, resp.id as nat, FromServer(resp)) else t
    case OnEvent =>
      // a byte read while a sender is active is dropped
      var rest := s.pc.rest[1..];
      s.(eventBytes := s.eventBytes - 1, pc := if s.sender.Some? then Dispatch(rest) else Fetching(rest))
    case Fetch =>
      if s.queue == [] then s.(pc := Dispatch(s.pc.rest))
      else
        var c, id := s.queue[0], s.reqId + 1;
        var t := s.(queue := s.queue[1..], reqId := id, pending := s.pending[id := c]);
        (match dump(id, s.calls[c])
         case None => t.(pc := Cleaning)
         case Some(m) =>
           t.(sender := Some(Frame(m)), pollOut := true, frames := s.frames + [m], pc := Dispatch(s.pc.rest)))
    case OnWrite(k) =>
      var rest, data := s.pc.rest[1..], s.sender.value;
      if data == [] then s.(sender := None, pollOut := false, pc := Pinging(rest))
      else s.(sender := Some(data[k..]), wire := s.wire + data[..k], pc := Dispatch(rest))
    case LoopPing => s.(eventBytes := s.eventBytes + 1, pc := Dispatch(s.pc.rest))
    case Raise => s.(pc := Cleaning)
    case CleanOne(id) => Settle(s, id, FromCleanup)
    case CleanEnd => s.(pc := Ended)
    case Restart =>
      s.(pc := Polling, pending := map[], sender := None, pollOut := false,
         firstId := s.reqId + 1, frames := [], wire := [])
  }

  function Run(dump: Dump, ls: seq<Label>): Option<State> {
    if ls == [] then Some(INIT_STATE)
    else
      match Run(dump, ls[..|ls| - 1])
      case None => None
      case Some(s) =>
        var l := ls[|ls| - 1];
        if Enabled(s, l) then Some(Apply(dump, s, l)) else None
  }
}
