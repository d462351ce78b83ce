/**
 * The server process as a labelled transition system: request reader, request
 * handler, worker pool and response writer share two FIFO queues, a thread pool
 * and the atomic slot counter.  One label is one atomic step of one thread.
 */
module ServerPipeline {
  import opened JsonValues

  const EINVAL := 22
  const EAGAIN := 11

  // ---------------------------------------------------------------- requests

  datatype Error = Error(code: int, message: string)

  datatype Outcome = Outcome(result: Option<Json>, err: Option<Error>)

  /** The message sent back for one request. */
  datatype Response = Response(id: int, errcode: int, errstr: string, result: Json)

  /**
   * Command-line options and what the model does not look into: which methods
   * exist, what they may compute, and the bits read through a wrongly typed `id`.
   */
  datatype Config = Config(
    maxThreads: int,
    maxQueued: int,
    known: string -> bool,
    computes: (string, Option<Json>, Outcome) -> bool,
    wildId: Json -> int)

  /** What the option parser lets through. */
  predicate ValidConfig(cfg: Config) {
    cfg.maxThreads >= 0 && (cfg.maxQueued >= 0 ==> cfg.maxThreads > 0)
  }

  predicate Limited(cfg: Config) {
    cfg.maxQueued >= 0
  }

  function Lookup(j: Json, key: string): Option<Json> {
    if j.Obj? && key in j.fields then Some(j.fields[key]) else None
  }

  function IdOf(cfg: Config, node: Json): int {
    if node.Long? then node.l else cfg.wildId(node)
  }

  /**
   * Missing: the request is dropped without an answer.  Undefined: a method name
   * that is not a string is dereferenced all the same, and the worker's behaviour
   * is no longer defined.
   */
  datatype Extracted =
    | Missing
    | Undefined
    | Info(id: int, methodName: string, args: Option<Json>)

  function Extract(cfg: Config, req: Json): Extracted {
    match (Lookup(req, "id"), Lookup(req, "methodName"))
    case (None, _) => Missing
    case (_, None) => Missing
    case (Some(id), Some(m)) =>
      if m.Str? then Info(IdOf(cfg, id), m.s, Lookup(req, "args")) else Undefined
  }

  predicate WellFormed(cfg: Config, req: Json) {
    Extract(cfg, req).Info?
  }

  function RejectId(cfg: Config, req: Json): int {
    match Lookup(req, "id")
    case None => -1
    case Some(id) => IdOf(cfg, id)
  }

  function BuildResponse(id: int, err: Option<Error>, result: Option<Json>): Response {
    Response(id,
             if err.Some? then err.value.code else 0,
             if err.Some? then err.value.message else "SUCCESS",
             if result.Some? then result.value else Obj(map[]))
  }

  function RejectResponse(cfg: Config, req: Json): Response {
    BuildResponse(RejectId(cfg, req), Some(Error(EAGAIN, "Resource temporarily unavailable")), None)
  }

  /** The outcome a worker may report for a method call. */
  predicate MayReport(cfg: Config, methodName: string, args: Option<Json>, o: Outcome) {
    if cfg.known(methodName) then cfg.computes(methodName, args, o)
    else o == Outcome(None, Some(Error(EINVAL, "No such method '" + methodName + "'")))
  }

  /** `resp` is what running the well-formed request `req` may answer. */
  ghost predicate Computed(cfg: Config, req: Json, resp: Response) {
    var info := Extract(cfg, req);
    info.Info? &&
    exists o :: MayReport(cfg, info.methodName, info.args, o) && resp == BuildResponse(info.id, o.err, o.result)
  }

  // ------------------------------------------------------------------- state

  datatype QueuedRequest = Req(req: Json) | StopRequests

  /** Responses carry the arrival number (ticket) of the request they answer. */
  datatype QueuedResponse = Answer(ticket: nat, resp: Response) | StopResponses

  datatype HandlerPc =
    | Idle
    | Deciding            // popped a request, before the decrement
    | Rejecting           // the decrement reached zero, before queueing EAGAIN
    | RejectQueued        // EAGAIN queued, before giving the slot back
    | Pushing             // admitted, before the push to the pool
    | Draining            // popped STOP, waiting for the pool
    | Drained             // pool freed, before queueing STOP
    | Returned

  datatype Phase = Started | Finishing

  /**
   * `enqueued`, `popped`, `admitted`, `rejected` and `taken` are histories; a
   * request's ticket is its index in `popped`.
   */
  datatype State = State(
    enqueued: seq<Json>,
    requestQueue: seq<QueuedRequest>,
    readerDone: bool,
    handler: HandlerPc,
    popped: seq<Json>,
    admitted: set<nat>,
    rejected: set<nat>,
    slots: int,
    pool: seq<nat>,
    workers: map<nat, Phase>,
    responseQueue: seq<QueuedResponse>,
    taken: seq<QueuedResponse>)

  function Init(cfg: Config): State {
    State([], [], false, Idle, [], {}, {}, cfg.maxThreads + cfg.maxQueued + 1, [], map[], [], [])
  }

  /** Every item ever put on the response queue, in order. */
  function Responses(s: State): seq<QueuedResponse> {
    s.taken + s.responseQueue
  }

  predicate WriterStopped(s: State) {
    |s.taken| > 0 && s.taken[|s.taken| - 1].StopResponses?
  }

  /** The request the handler works on is always the last one it popped. */
  predicate Busy(pc: HandlerPc) {
    pc.Deciding? || pc.Rejecting? || pc.RejectQueued? || pc.Pushing?
  }

  // ------------------------------------------------------------------- steps

  datatype Label =
    | Enqueue(req: Json) | EnqueueStop
    | Pop | PopStop | Admit | Reject | QueueReject | EndReject | PoolPush | Drain | QueueStop
    | Start | Respond(n: nat, o: Outcome) | Skip(n: nat) | Release(n: nat)
    | Write

  predicate Enabled(cfg: Config, s: State, l: Label) {
    match l
    // request reader
    case Enqueue(_) => !s.readerDone
    case EnqueueStop => !s.readerDone
    // request handler
    case Pop => s.handler.Idle? && s.requestQueue != [] && s.requestQueue[0].Req?
    case PopStop => s.handler.Idle? && s.requestQueue != [] && s.requestQueue[0].StopRequests?
    case Admit => s.handler.Deciding? && s.popped != [] && (Limited(cfg) ==> s.slots - 1 != 0)
    case Reject => s.handler.Deciding? && s.popped != [] && Limited(cfg) && s.slots - 1 == 0
    case QueueReject => s.handler.Rejecting? && s.popped != []
    case EndReject => s.handler.RejectQueued?
    case PoolPush => s.handler.Pushing? && s.popped != []
    case Drain => s.handler.Draining? && s.pool == [] && s.workers == map[]
    case QueueStop => s.handler.Drained?
    // pool
    case Start => s.pool != [] && (cfg.maxThreads == 0 || |s.workers| < cfg.maxThreads)
    case Respond(n, o) =>
      n in s.workers && s.workers[n].Started? && n < |s.popped| &&
      var info := Extract(cfg, s.popped[n]);
      info.Info? && MayReport(cfg, info.methodName, info.args, o)
    case Skip(n) =>
      n in s.workers && s.workers[n].Started? && n < |s.popped| && Extract(cfg, s.popped[n]).Missing?
    case Release(n) => n in s.workers && s.workers[n].Finishing?
    // response writer
    case Write => !WriterStopped(s) && s.responseQueue != []
  }

  function Apply(cfg: Config, s: State, l: Label): State
    requires Enabled(cfg, s, l)
  {
    match l
    case Enqueue(req) =>
      s.(enqueued := s.enqueued + [req], requestQueue := s.requestQueue + [Req(req)])
    case EnqueueStop =>
      s.(requestQueue := s.requestQueue + [StopRequests], readerDone := true)
    case Pop =>
      s.(handler := Deciding, popped := s.popped + [s.requestQueue[0].req], requestQueue := s.requestQueue[1..])
    case PopStop =>
      s.(handler := Draining, requestQueue := s.requestQueue[1..])
    case Admit =>
      s.(handler := Pushing, slots := if Limited(cfg) then s.slots - 1 else s.slots,
         admitted := s.admitted + {|s.popped| - 1})
    case Reject =>
      s.(handler := Rejecting, slots := s.slots - 1,
         rejected := s.rejected + {|s.popped| - 1})
    case QueueReject =>
      var n := |s.popped| - 1;
      s.(handler := RejectQueued,
         responseQueue := s.responseQueue + [Answer(n, RejectResponse(cfg, s.popped[n]))])
    case EndReject =>
      s.(handler := Idle, slots := s.slots + 1)
    case PoolPush =>
      s.(handler := Idle, pool := s.pool + [|s.popped| - 1])
    case Drain =>
      s.(handler := Drained)
    case QueueStop =>
      s.(handler := Returned, responseQueue := s.responseQueue + [StopResponses])
    case Start =>
      s.(pool := s.pool[1..], workers := s.workers[s.pool[0] := Started])
    case Respond(n, o) =>
      s.(workers := s.workers[n := Finishing],
         responseQueue := s.responseQueue +
           [Answer(n, BuildResponse(Extract(cfg, s.popped[n]).id, o.err, o.result))])
    case Skip(n) =>
      s.(workers := s.workers[n := Finishing])
    case Release(n) =>
      s.(workers := s.workers - {n}, slots := if Limited(cfg) then s.slots + 1 else s.slots)
    case Write =>
      s.(taken := s.taken + [s.responseQueue[0]], responseQueue := s.responseQueue[1..])
  }

  // -------------------------------------------------------------------- runs

  /** The state after the steps `ls`, if every one of them was enabled in turn. */
  function Run(cfg: Config, ls: seq<Label>): Option<State> {
    if ls == [] then Some(Init(cfg))
    else
      match Run(cfg, ls[..|ls| - 1])
      case None => None
      case Some(s) =>
        var l := ls[|ls| - 1];
        if Enabled(cfg, s, l) then Some(Apply(cfg, s, l)) else None
  }
}
