/**
 * Client and server joined by the two pipes, over any number of crashes and
 * restarts of the server: every result a caller gets from the server is the answer
 * to that caller's own command.
 */
module EndToEnd {
  import opened JsonValues
  import opened Framing
  import C = ClientLoop
  import CT = ClientTheorems
  import S = ServerPipeline
  import SI = ServerInvariant

  /**
   * The JSON text layer at both ends.  `carryArgs` and `carryResult` are what becomes
   * of arguments and of a result on their way through the text: a map key, say, is cut
   * at a NUL.
   */
  datatype Codec = Codec(
    dump: C.Dump,
    parse: seq<Byte> -> Option<Json>,
    generate: S.Response -> Message,
    load: seq<Byte> -> Option<S.Response>,
    carryArgs: Json -> Json,
    carryResult: Json -> Json)

  function RequestJson(codec: Codec, id: nat, cmd: C.Command): Json {
    Obj(map["id" := Long(id), "methodName" := Str(cmd.methodName), "args" := codec.carryArgs(cmd.args)])
  }

  function Carried(codec: Codec, resp: S.Response): S.Response {
    resp.(result := codec.carryResult(resp.result))
  }

  /**
   * A text may be rejected at the other end, but where it parses it parses to what was
   * meant: requests for the commands that were called, and responses.
   */
  ghost predicate Faithful(codec: Codec, calls: seq<C.Command>) {
    && (forall id, k :: 0 <= k < |calls| ==> RequestFaithful(codec, id, calls[k]))
    && (forall resp :: ResponseFaithful(codec, resp))
  }

  predicate RequestFaithful(codec: Codec, id: nat, cmd: C.Command) {
    codec.dump(id, cmd).Some? && codec.parse(codec.dump(id, cmd).value).Some? ==>
      codec.parse(codec.dump(id, cmd).value) == Some(RequestJson(codec, id, cmd))
  }

  predicate ResponseFaithful(codec: Codec, resp: S.Response) {
    codec.load(codec.generate(resp)).Some? ==> codec.load(codec.generate(resp)) == Some(Carried(codec, resp))
  }

  lemma FaithfulEarlier(codec: Codec, earlier: seq<C.Command>, calls: seq<C.Command>)
    requires Faithful(codec, calls) && earlier <= calls
    ensures Faithful(codec, earlier)
  {
    forall id, k | 0 <= k < |earlier| ensures RequestFaithful(codec, id, earlier[k]) {
      assert earlier[k] == calls[k];
    }
  }

  /**
   * In this run `rx` requests were read by the server and `tx` responses by the client;
   * `back` are the bytes written on the response pipe, `unsent` what is left of the
   * frame being written.
   */
  datatype Sys = Sys(client: C.State, server: S.State, rx: nat, tx: nat, back: seq<Byte>, unsent: seq<Byte>)

  /** Flow(k): the response writer moves k more bytes to the pipe. */
  datatype Label = Cl(c: C.Label) | Sv(s: S.Label) | Flow(k: nat)

  function Init(cfg: S.Config): Sys {
    Sys(C.INIT_STATE, S.Init(cfg), 0, 0, [], [])
  }

  /**
   * The request reader takes the next frame complete on the request pipe, and the
   * client's response reader the next one complete on the response pipe; each acts on
   * what its own parser makes of the bytes.  The writer takes a response from the queue
   * only when the last one is written out.
   */
  predicate Enabled(cfg: S.Config, codec: Codec, y: Sys, l: Label) {
    match l
    case Cl(c) =>
      C.Enabled(y.client, c) &&
      (c.OnResponse? ==>
         var ms := Complete(y.back);
         y.tx < |ms| && codec.load(ms[y.tx]) == Some(c.resp))
    case Sv(s) =>
      && S.Enabled(cfg, y.server, s)
      && (s.Enqueue? ==>
            var ms := Complete(y.client.wire);
            y.rx < |ms| && codec.parse(ms[y.rx]) == Some(s.req))
      && (s.Write? ==> y.unsent == [])
    case Flow(k) => 0 < k <= |y.unsent|
  }

  /** The frame of a queue item; STOP has none. */
  function ItemFrame(codec: Codec, x: S.QueuedResponse): seq<Byte> {
    if x.Answer? then Frame(codec.generate(x.resp)) else []
  }

  function Apply(cfg: S.Config, codec: Codec, y: Sys, l: Label): Sys
    requires Enabled(cfg, codec, y, l)
  {
    match l
    case Cl(c) =>
      var client := C.Apply(codec.dump, y.client, c);
      if c.Restart? then Sys(client, S.Init(cfg), 0, 0, [], [])
      else y.(client := client, tx := if c.OnResponse? then y.tx + 1 else y.tx)
    case Sv(s) =>
      y.(server := S.Apply(cfg, y.server, s), rx := if s.Enqueue? then y.rx + 1 else y.rx,
         unsent := if s.Write? then ItemFrame(codec, y.server.responseQueue[0]) else y.unsent)
    case Flow(k) =>
      y.(back := y.back + y.unsent[..k], unsent := y.unsent[k..])
  }

  function Run(cfg: S.Config, codec: Codec, ls: seq<Label>): Option<Sys> {
    if ls == [] then Some(Init(cfg))
    else
      match Run(cfg, codec, ls[..|ls| - 1])
      case None => None
      case Some(y) =>
        var l := ls[|ls| - 1];
        if Enabled(cfg, codec, y, l) then Some(Apply(cfg, codec, y, l)) else None
  }

  // ------------------------------------------------------------------ invariant

  /** Request number n of this run is that of caller firstId + n - 1. */
  ghost predicate RequestsMatch(codec: Codec, y: Sys) {
    var c, reqs := y.client, y.server.enqueued;
    && |reqs| == y.rx <= |c.frames|
    && c.firstId >= 1 && c.firstId + |c.frames| - 1 <= |c.calls|
    && (forall n :: 0 <= n < |reqs| ==> reqs[n] == RequestJson(codec, c.firstId + n, c.calls[c.firstId + n - 1]))
  }

  /** The texts of the answers among the items written. */
  function Texts(codec: Codec, taken: seq<S.QueuedResponse>): seq<Message> {
    if taken == [] then []
    else
      var x := taken[|taken| - 1];
      Texts(codec, taken[..|taken| - 1]) + if x.Answer? then [codec.generate(x.resp)] else []
  }

  /** The response pipe carries the frames of the answers taken, the last perhaps in part. */
  ghost predicate BackInv(codec: Codec, y: Sys) {
    y.back + y.unsent == Stream(Texts(codec, y.server.taken))
  }

  /** The client has been handed the answer to request number n. */
  ghost predicate Received(y: Sys, n: nat) {
    exists i :: 0 <= i < y.tx && i < |y.server.taken| && y.server.taken[i].Answer? && y.server.taken[i].ticket == n
  }

  ghost predicate PendingMatch(y: Sys) {
    var c := y.client;
    && y.tx <= |y.server.taken|
    && (forall i :: 0 <= i < y.tx ==> y.server.taken[i].Answer?)
    && (forall id :: id in c.pending ==> c.firstId <= id)
    && (CT.InLoop(c.pc) ==> forall n: nat :: n < |c.frames| ==> (c.firstId + n in c.pending <==> !Received(y, n)))
  }

  /**
   * `resp` answers command `cmd` sent under `id`: EAGAIN, or an outcome of that very
   * call, as it comes out of the text.
   */
  ghost predicate AnswerTo(cfg: S.Config, codec: Codec, id: nat, cmd: C.Command, resp: S.Response) {
    || (cfg.maxQueued >= 0 && resp == Carried(codec, Busy(id)))
    || exists o :: S.MayReport(cfg, cmd.methodName, Some(codec.carryArgs(cmd.args)), o)
                   && resp == Carried(codec, S.BuildResponse(id, o.err, o.result))
  }

  function Busy(id: nat): S.Response {
    S.BuildResponse(id, Some(S.Error(S.EAGAIN, "Resource temporarily unavailable")), None)
  }

  ghost predicate ResultMatches(cfg: S.Config, codec: Codec, calls: seq<C.Command>, x: C.Completion) {
    x.source.FromServer? ==>
      x.caller < |calls| && x.source.resp.id == x.id && AnswerTo(cfg, codec, x.id, calls[x.caller], x.source.resp)
  }

  ghost predicate ResultsMatch(cfg: S.Config, codec: Codec, calls: seq<C.Command>, cs: seq<C.Completion>) {
    forall i :: 0 <= i < |cs| ==> ResultMatches(cfg, codec, calls, cs[i])
  }

  /** What holds whatever the text layer does. */
  ghost predicate PartsInv(cfg: S.Config, codec: Codec, y: Sys) {
    CT.Inv(codec.dump, y.client) && SI.Inv(cfg, y.server) && BackInv(codec, y)
  }

  ghost predicate Inv(cfg: S.Config, codec: Codec, y: Sys) {
    && PartsInv(cfg, codec, y)
    && RequestsMatch(codec, y) && PendingMatch(y)
    && ResultsMatch(cfg, codec, y.client.calls, y.client.completions)
  }

  // ----------------------------------------------------------- the response pipe

  lemma TextsSnoc(codec: Codec, taken: seq<S.QueuedResponse>, x: S.QueuedResponse)
    ensures Texts(codec, taken + [x]) == Texts(codec, taken) + if x.Answer? then [codec.generate(x.resp)] else []
  {
    assert (taken + [x])[..|taken|] == taken;
  }

  /** With STOP at the end at most, text i is that of item i. */
  lemma {:induction false} TextsAt(codec: Codec, taken: seq<S.QueuedResponse>)
    requires forall i :: 0 <= i < |taken| - 1 ==> taken[i].Answer?
    ensures |Texts(codec, taken)| <= |taken|
    ensures (forall i :: 0 <= i < |taken| ==> taken[i].Answer?) ==> |Texts(codec, taken)| == |taken|
    ensures forall i :: 0 <= i < |Texts(codec, taken)| ==>
              taken[i].Answer? && Texts(codec, taken)[i] == codec.generate(taken[i].resp)
  {
    if taken != [] {
      TextsAt(codec, taken[..|taken| - 1]);
    }
  }

  lemma BackWrite(codec: Codec, taken: seq<S.QueuedResponse>, x: S.QueuedResponse, back: seq<Byte>)
    requires back + [] == Stream(Texts(codec, taken))
    ensures back + ItemFrame(codec, x) == Stream(Texts(codec, taken + [x]))
  {
    TextsSnoc(codec, taken, x);
    assert back + [] == back;
    if x.Answer? {
      StreamSnoc(Texts(codec, taken), codec.generate(x.resp));
    } else {
      assert Texts(codec, taken) + [] == Texts(codec, taken);
    }
  }

  lemma BackStep(cfg: S.Config, codec: Codec, y: Sys, l: Label)
    requires BackInv(codec, y) && Enabled(cfg, codec, y, l)
    ensures BackInv(codec, Apply(cfg, codec, y, l))
  {
    match l
    case Cl(c) =>
      assert Texts(codec, []) == [] && Stream([]) == [];
    case Sv(s) =>
      if s.Write? {
        BackWrite(codec, y.server.taken, y.server.responseQueue[0], y.back);
      } else {
        TakenKept(cfg, y.server, s);
      }
    case Flow(k) =>
      FlowSplit(y.back, y.unsent, k);
  }

  lemma TakenKept(cfg: S.Config, s: S.State, l: S.Label)
    requires S.Enabled(cfg, s, l) && !l.Write?
    ensures S.Apply(cfg, s, l).taken == s.taken
  {
  }

  lemma StopAtEnd(cfg: S.Config, s: S.State)
    requires SI.AnswersInv(cfg, s)
    ensures forall i :: 0 <= i < |s.taken| - 1 ==> s.taken[i].Answer?
  {
    forall i | 0 <= i < |s.taken| - 1 ensures s.taken[i].Answer? {
      assert S.Responses(s)[i] == s.taken[i];
    }
  }

  /** A frame complete on the response pipe is the text of the answer at its place. */
  lemma Arrived(cfg: S.Config, codec: Codec, y: Sys, n: nat)
    requires BackInv(codec, y) && SI.AnswersInv(cfg, y.server) && n < |Complete(y.back)|
    ensures n < |y.server.taken| && y.server.taken[n].Answer?
    ensures Complete(y.back)[n] == codec.generate(y.server.taken[n].resp)
  {
    StopAtEnd(cfg, y.server);
    TextsAt(codec, y.server.taken);
    CutStream(Texts(codec, y.server.taken), y.back, y.unsent);
  }

  /** The next response handed to the client is the next one taken, as the text carries it. */
  lemma NextResponse(cfg: S.Config, codec: Codec, y: Sys, resp: S.Response)
    requires BackInv(codec, y) && SI.AnswersInv(cfg, y.server)
    requires Enabled(cfg, codec, y, Cl(C.OnResponse(resp))) && forall r :: ResponseFaithful(codec, r)
    ensures y.tx < |y.server.taken| && y.server.taken[y.tx].Answer?
    ensures resp == Carried(codec, y.server.taken[y.tx].resp)
  {
    Arrived(cfg, codec, y, y.tx);
    assert ResponseFaithful(codec, y.server.taken[y.tx].resp);
  }

  // -------------------------------------------------------------- requests sent

  /** Where the server can parse the next frame, it is the next call. */
  lemma NextRequest(codec: Codec, c: C.State, n: nat)
    requires Faithful(codec, c.calls) && CT.WireInv(c) && CT.FramesInv(codec.dump, c) && n < |Complete(c.wire)|
    ensures n < |c.frames| && c.firstId + n - 1 < |c.calls|
    ensures codec.parse(Complete(c.wire)[n]).Some? ==>
              codec.parse(Complete(c.wire)[n]) == Some(RequestJson(codec, c.firstId + n, c.calls[c.firstId + n - 1]))
  {
    CT.WireDecodes(c);
    assert Complete(c.wire)[n] == c.frames[n];
    assert RequestFaithful(codec, c.firstId + n, c.calls[c.firstId + n - 1]);
  }

  lemma FramesBound(dump: C.Dump, c: C.State)
    requires CT.FramesInv(dump, c) && CT.IdInv(c)
    ensures c.firstId >= 1 && c.firstId + |c.frames| - 1 <= |c.calls|
  {
  }

  lemma RequestsClient(cfg: S.Config, codec: Codec, y: Sys, c: C.Label)
    requires Enabled(cfg, codec, y, Cl(c)) && RequestsMatch(codec, y)
    requires CT.FramesInv(codec.dump, C.Apply(codec.dump, y.client, c)) && CT.IdInv(C.Apply(codec.dump, y.client, c))
    ensures RequestsMatch(codec, Apply(cfg, codec, y, Cl(c)))
  {
    FramesBound(codec.dump, C.Apply(codec.dump, y.client, c));
    if !c.Restart? {
      CT.Grows(codec.dump, y.client, c);
      FramesGrow(codec.dump, y.client, c);
      RequestsStay(codec, y, Apply(cfg, codec, y, Cl(c)));
    }
  }

  lemma RequestsStay(codec: Codec, y: Sys, z: Sys)
    requires RequestsMatch(codec, y) && z.server.enqueued == y.server.enqueued && z.rx == y.rx
    requires y.client.calls <= z.client.calls && y.client.frames <= z.client.frames
    requires z.client.firstId == y.client.firstId && z.client.firstId + |z.client.frames| - 1 <= |z.client.calls|
    ensures RequestsMatch(codec, z)
  {
  }

  lemma RequestsServer(cfg: S.Config, codec: Codec, y: Sys, s: S.Label)
    requires Faithful(codec, y.client.calls) && Enabled(cfg, codec, y, Sv(s)) && RequestsMatch(codec, y)
    requires CT.WireInv(y.client) && CT.FramesInv(codec.dump, y.client)
    ensures RequestsMatch(codec, Apply(cfg, codec, y, Sv(s)))
  {
    if s.Enqueue? {
      NextRequest(codec, y.client, y.rx);
      RequestsEnqueue(cfg, codec, y, s.req);
    } else {
      EnqueuedKept(cfg, y.server, s);
      RequestsStay(codec, y, Apply(cfg, codec, y, Sv(s)));
    }
  }

  lemma RequestsEnqueue(cfg: S.Config, codec: Codec, y: Sys, req: Json)
    requires Enabled(cfg, codec, y, Sv(S.Enqueue(req))) && RequestsMatch(codec, y) && y.rx < |y.client.frames|
    requires req == RequestJson(codec, y.client.firstId + y.rx, y.client.calls[y.client.firstId + y.rx - 1])
    ensures RequestsMatch(codec, Apply(cfg, codec, y, Sv(S.Enqueue(req))))
  {
    RequestRead(codec, y, Apply(cfg, codec, y, Sv(S.Enqueue(req))), req);
  }

  lemma RequestRead(codec: Codec, y: Sys, z: Sys, req: Json)
    requires RequestsMatch(codec, y) && y.rx < |y.client.frames| && z.client == y.client && z.rx == y.rx + 1
    requires z.server.enqueued == y.server.enqueued + [req]
    requires req == RequestJson(codec, y.client.firstId + y.rx, y.client.calls[y.client.firstId + y.rx - 1])
    ensures RequestsMatch(codec, z)
  {
  }

  lemma EnqueuedKept(cfg: S.Config, s: S.State, l: S.Label)
    requires S.Enabled(cfg, s, l) && !l.Enqueue?
    ensures S.Apply(cfg, s, l).enqueued == s.enqueued
  {
  }

  lemma FramesGrow(dump: C.Dump, s: C.State, l: C.Label)
    requires C.Enabled(s, l) && !l.Restart?
    ensures var t := C.Apply(dump, s, l);
      && s.frames <= t.frames && t.firstId == s.firstId
      && (!l.Fetch? ==> t.frames == s.frames)
  {
  }

  lemma RequestsStep(cfg: S.Config, codec: Codec, y: Sys, l: Label)
    requires Faithful(codec, y.client.calls) && Enabled(cfg, codec, y, l) && RequestsMatch(codec, y)
    requires PartsInv(cfg, codec, y) && PartsInv(cfg, codec, Apply(cfg, codec, y, l))
    ensures RequestsMatch(codec, Apply(cfg, codec, y, l))
  {
    match l
    case Cl(c) => RequestsClient(cfg, codec, y, c);
    case Sv(s) => RequestsServer(cfg, codec, y, s);
    case Flow(_) => RequestsStay(codec, y, Apply(cfg, codec, y, l));
  }

  // --------------------------------------------------------- responses received

  /** The next answer taken carries the id that its request was sent under. */
  lemma ResponseId(cfg: S.Config, codec: Codec, y: Sys)
    requires RequestsMatch(codec, y) && SI.RequestsInv(y.server) && SI.AnswersInv(cfg, y.server)
    requires y.tx < |y.server.taken| && y.server.taken[y.tx].Answer?
    ensures var n, c := y.server.taken[y.tx].ticket, y.client;
      && n < |c.frames| && n < |y.server.popped|
      && y.server.popped[n] == RequestJson(codec, c.firstId + n, c.calls[c.firstId + n - 1])
      && y.server.taken[y.tx].resp.id == c.firstId + n
  {
    var a := y.server.taken[y.tx];
    var n, c := a.ticket, y.client;
    assert S.Responses(y.server)[y.tx] == a;
    assert SI.GoodAnswer(cfg, y.server, a);
    assert y.server.popped[n] == y.server.enqueued[n];
    RequestFields(cfg, codec, c.firstId + n, c.calls[c.firstId + n - 1]);
  }

  lemma RequestFields(cfg: S.Config, codec: Codec, id: nat, cmd: C.Command)
    ensures S.Extract(cfg, RequestJson(codec, id, cmd)) == S.Info(id, cmd.methodName, Some(codec.carryArgs(cmd.args)))
    ensures S.RejectId(cfg, RequestJson(codec, id, cmd)) == id
  {
  }

  /** And it answers the command that was sent. */
  lemma ResponseIsFor(cfg: S.Config, codec: Codec, y: Sys)
    requires RequestsMatch(codec, y) && SI.RequestsInv(y.server)
    requires SI.SlotsInv(cfg, y.server) && SI.AnswersInv(cfg, y.server)
    requires y.tx < |y.server.taken| && y.server.taken[y.tx].Answer?
    ensures var n, c, resp := y.server.taken[y.tx].ticket, y.client, y.server.taken[y.tx].resp;
      && n < |c.frames|
      && resp.id == c.firstId + n
      && AnswerTo(cfg, codec, c.firstId + n, c.calls[c.firstId + n - 1], Carried(codec, resp))
  {
    ResponseId(cfg, codec, y);
    var a := y.server.taken[y.tx];
    var n, c := a.ticket, y.client;
    var cmd := c.calls[c.firstId + n - 1];
    assert S.Responses(y.server)[y.tx] == a;
    assert SI.GoodAnswer(cfg, y.server, a);
    GoodIsAnswer(cfg, codec, y.server, a, c.firstId + n, cmd);
  }

  lemma GoodIsAnswer(cfg: S.Config, codec: Codec, s: S.State, a: S.QueuedResponse, id: nat, cmd: C.Command)
    requires a.Answer? && SI.GoodAnswer(cfg, s, a) && SI.SlotsInv(cfg, s)
    requires s.popped[a.ticket] == RequestJson(codec, id, cmd)
    ensures AnswerTo(cfg, codec, id, cmd, Carried(codec, a.resp))
  {
    RequestFields(cfg, codec, id, cmd);
    if a.ticket !in s.rejected {
      var o :| S.MayReport(cfg, cmd.methodName, Some(codec.carryArgs(cmd.args)), o)
        && a.resp == S.BuildResponse(id, o.err, o.result);
      assert Carried(codec, a.resp) == Carried(codec, S.BuildResponse(id, o.err, o.result));
    }
  }

  /** In the joined system no response carries an id the client does not wait for. */
  lemma NoUnknownId(cfg: S.Config, codec: Codec, y: Sys)
    requires RequestsMatch(codec, y) && PendingMatch(y) && SI.RequestsInv(y.server) && SI.AnswersInv(cfg, y.server)
    requires y.tx < |y.server.taken| && y.server.taken[y.tx].Answer? && CT.InLoop(y.client.pc)
    ensures y.server.taken[y.tx].resp.id >= 0
    ensures y.server.taken[y.tx].resp.id as nat in y.client.pending
  {
    ResponseId(cfg, codec, y);
    var n := y.server.taken[y.tx].ticket;
    var rs := S.Responses(y.server);
    assert rs[y.tx] == y.server.taken[y.tx];
    assert forall i :: 0 <= i < y.tx ==> rs[i] == y.server.taken[i];
    assert !Received(y, n);
  }

  /** Every answer written is to a request the client has framed. */
  ghost predicate TicketsKnown(y: Sys) {
    forall i :: 0 <= i < |y.server.taken| && y.server.taken[i].Answer? ==> y.server.taken[i].ticket < |y.client.frames|
  }

  lemma Tickets(cfg: S.Config, codec: Codec, y: Sys)
    requires RequestsMatch(codec, y) && SI.RequestsInv(y.server) && SI.AnswersInv(cfg, y.server)
    ensures TicketsKnown(y)
  {
    forall i | 0 <= i < |y.server.taken| && y.server.taken[i].Answer?
      ensures y.server.taken[i].ticket < |y.client.frames|
    {
      assert S.Responses(y.server)[i] == y.server.taken[i];
      assert SI.GoodAnswer(cfg, y.server, y.server.taken[i]);
    }
  }

  /** A response received settles the request it names, if any waits under its id. */
  lemma Settles(dump: C.Dump, s: C.State, resp: S.Response)
    requires C.Enabled(s, C.OnResponse(resp))
    ensures var t := C.Apply(dump, s, C.OnResponse(resp));
      && t.calls == s.calls && t.frames == s.frames && t.firstId == s.firstId
      && if resp.id >= 0 && resp.id as nat in s.pending then
           && t.pending == s.pending - {resp.id as nat}
           && t.completions == s.completions +
              [C.Completion(s.pending[resp.id as nat], resp.id as nat, C.FromServer(resp))]
         else t.pending == s.pending && t.completions == s.completions
  {
  }

  lemma PendingResponse(cfg: S.Config, codec: Codec, y: Sys, resp: S.Response)
    requires Enabled(cfg, codec, y, Cl(C.OnResponse(resp))) && y.tx < |y.server.taken| && y.server.taken[y.tx].Answer?
    requires resp.id == y.server.taken[y.tx].resp.id
    requires RequestsMatch(codec, y) && PendingMatch(y) && SI.RequestsInv(y.server) && SI.AnswersInv(cfg, y.server)
    ensures PendingMatch(Apply(cfg, codec, y, Cl(C.OnResponse(resp))))
  {
    var z := Apply(cfg, codec, y, Cl(C.OnResponse(resp)));
    ResponseId(cfg, codec, y);
    NoUnknownId(cfg, codec, y);
    Settles(codec.dump, y.client, resp);
    PendingSettled(y, z);
  }

  lemma PendingSettled(y: Sys, z: Sys)
    requires PendingMatch(y) && y.tx < |y.server.taken| && y.server.taken[y.tx].Answer?
    requires z.server == y.server && z.tx == y.tx + 1
    requires z.client.frames == y.client.frames && z.client.firstId == y.client.firstId && CT.InLoop(y.client.pc)
    requires z.client.pending == y.client.pending - {y.client.firstId + y.server.taken[y.tx].ticket}
    ensures PendingMatch(z)
  {
    forall n: nat ensures Received(z, n) <==> Received(y, n) || n == y.server.taken[y.tx].ticket {
      ReceivedMore(y, z, n);
    }
  }

  lemma ReceivedMore(y: Sys, z: Sys, n: nat)
    requires z.server.taken == y.server.taken && z.tx == y.tx + 1 && y.tx < |y.server.taken|
    requires y.server.taken[y.tx].Answer?
    ensures Received(z, n) <==> Received(y, n) || n == y.server.taken[y.tx].ticket
  {
    if Received(z, n) {
      var i :| 0 <= i < z.tx && z.server.taken[i].Answer? && z.server.taken[i].ticket == n;
      assert i < y.tx || i == y.tx;
    }
    assert z.server.taken[y.tx].ticket == y.server.taken[y.tx].ticket;
  }

  lemma PendingFetch(cfg: S.Config, codec: Codec, y: Sys)
    requires Enabled(cfg, codec, y, Cl(C.Fetch))
    requires CT.FramesInv(codec.dump, y.client) && CT.IdInv(y.client)
    requires PendingMatch(y) && TicketsKnown(y)
    ensures PendingMatch(Apply(cfg, codec, y, Cl(C.Fetch)))
  {
    var z := Apply(cfg, codec, y, Cl(C.Fetch));
    if y.client.queue == [] {
      PendingSame(y, z);
    } else {
      CT.FetchTakes(codec.dump, y.client);
      NotYetReceived(y);
      PendingGiven(y, z);
    }
  }

  /** The next request of the run is now pending; it has a frame unless its arguments cannot be dumped. */
  lemma PendingGiven(y: Sys, z: Sys)
    requires PendingMatch(y) && !Received(y, |y.client.frames|) && CT.InLoop(y.client.pc)
    requires z.server == y.server && z.tx == y.tx && z.client.firstId == y.client.firstId
    requires y.client.frames <= z.client.frames
    requires CT.InLoop(z.client.pc) ==> |z.client.frames| == |y.client.frames| + 1
    requires y.client.queue != []
    requires z.client.pending == y.client.pending[y.client.firstId + |y.client.frames| := y.client.queue[0]]
    ensures PendingMatch(z)
  {
    forall n: nat ensures Received(z, n) <==> Received(y, n) {
      ReceivedKept(y, z, n);
    }
  }

  lemma NotYetReceived(y: Sys)
    requires TicketsKnown(y)
    ensures !Received(y, |y.client.frames|)
  {
  }

  lemma ReceivedKept(y: Sys, z: Sys, n: nat)
    requires y.server.taken <= z.server.taken && z.tx == y.tx <= |y.server.taken|
    ensures Received(z, n) <==> Received(y, n)
  {
    assert forall i :: 0 <= i < y.tx ==> z.server.taken[i] == y.server.taken[i];
  }

  lemma PendingRestart(cfg: S.Config, codec: Codec, y: Sys)
    requires Enabled(cfg, codec, y, Cl(C.Restart))
    ensures PendingMatch(Apply(cfg, codec, y, Cl(C.Restart)))
  {
  }

  /** Steps that neither receive a response nor give an id. */
  lemma PendingSame(y: Sys, z: Sys)
    requires PendingMatch(y) && y.server.taken <= z.server.taken && z.tx == y.tx
    requires z.client.frames == y.client.frames && z.client.firstId == y.client.firstId
    requires CT.InLoop(z.client.pc) ==> CT.InLoop(y.client.pc) && z.client.pending == y.client.pending
    requires forall id :: id in z.client.pending ==> id in y.client.pending
    ensures PendingMatch(z)
  {
    forall n: nat ensures Received(z, n) <==> Received(y, n) {
      ReceivedKept(y, z, n);
    }
  }

  lemma PendingClient(dump: C.Dump, s: C.State, l: C.Label)
    requires C.Enabled(s, l) && !l.OnResponse? && !l.Fetch? && !l.Restart?
    ensures var t := C.Apply(dump, s, l);
      && t.frames == s.frames && t.firstId == s.firstId
      && (CT.InLoop(t.pc) ==> CT.InLoop(s.pc) && t.pending == s.pending)
      && (forall id :: id in t.pending ==> id in s.pending)
  {
  }

  lemma TakenGrows(cfg: S.Config, s: S.State, l: S.Label)
    requires S.Enabled(cfg, s, l)
    ensures s.taken <= S.Apply(cfg, s, l).taken
  {
  }

  lemma PendingStep(cfg: S.Config, codec: Codec, y: Sys, l: Label)
    requires Faithful(codec, y.client.calls) && Inv(cfg, codec, y) && Enabled(cfg, codec, y, l)
    ensures PendingMatch(Apply(cfg, codec, y, l))
  {
    var z := Apply(cfg, codec, y, l);
    match l
    case Cl(c) =>
      if c.OnResponse? {
        NextResponse(cfg, codec, y, c.resp);
        PendingResponse(cfg, codec, y, c.resp);
      } else if c.Fetch? {
        Tickets(cfg, codec, y);
        PendingFetch(cfg, codec, y);
      } else if c.Restart? {
        PendingRestart(cfg, codec, y);
      } else {
        PendingClient(codec.dump, y.client, c);
        PendingSame(y, z);
      }
    case Sv(s) =>
      TakenGrows(cfg, y.server, s);
      PendingSame(y, z);
    case Flow(_) =>
      PendingSame(y, z);
  }

  // -------------------------------------------------------------------- results

  lemma ResultsAppend(cfg: S.Config, codec: Codec, calls: seq<C.Command>, cs: seq<C.Completion>, x: C.Completion)
    requires ResultsMatch(cfg, codec, calls, cs) && ResultMatches(cfg, codec, calls, x)
    ensures ResultsMatch(cfg, codec, calls, cs + [x])
  {
  }

  lemma ResultsResponse(cfg: S.Config, codec: Codec, y: Sys, resp: S.Response)
    requires Enabled(cfg, codec, y, Cl(C.OnResponse(resp))) && CT.IdInv(y.client)
    requires y.tx < |y.server.taken| && y.server.taken[y.tx].Answer?
    requires resp == Carried(codec, y.server.taken[y.tx].resp)
    requires RequestsMatch(codec, y) && ResultsMatch(cfg, codec, y.client.calls, y.client.completions)
    requires SI.RequestsInv(y.server) && SI.SlotsInv(cfg, y.server) && SI.AnswersInv(cfg, y.server)
    ensures var t := C.Apply(codec.dump, y.client, C.OnResponse(resp));
      ResultsMatch(cfg, codec, t.calls, t.completions)
  {
    ResponseIsFor(cfg, codec, y);
    ResultsSettle(cfg, codec, y.client, resp, y.client.firstId + y.server.taken[y.tx].ticket);
  }

  lemma ResultsSettle(cfg: S.Config, codec: Codec, s: C.State, resp: S.Response, id: nat)
    requires C.Enabled(s, C.OnResponse(resp)) && CT.IdInv(s) && ResultsMatch(cfg, codec, s.calls, s.completions)
    requires resp.id == id && 1 <= id <= |s.calls| && AnswerTo(cfg, codec, id, s.calls[id - 1], resp)
    ensures var t := C.Apply(codec.dump, s, C.OnResponse(resp));
      ResultsMatch(cfg, codec, t.calls, t.completions)
  {
    Settles(codec.dump, s, resp);
    if id in s.pending {
      ResultsAppend(cfg, codec, s.calls, s.completions, C.Completion(s.pending[id], id, C.FromServer(resp)));
    }
  }

  /** Steps other than receiving a response settle nothing from the server. */
  lemma ResultsKept(dump: C.Dump, s: C.State, l: C.Label)
    requires C.Enabled(s, l) && !l.OnResponse?
    ensures var cs, ct := s.completions, C.Apply(dump, s, l).completions;
      && cs <= ct
      && (forall i :: |cs| <= i < |ct| ==> !ct[i].source.FromServer?)
  {
  }

  lemma ResultsStay(cfg: S.Config, codec: Codec, s: C.State, t: C.State)
    requires ResultsMatch(cfg, codec, s.calls, s.completions) && s.calls <= t.calls && s.completions <= t.completions
    requires forall i :: |s.completions| <= i < |t.completions| ==> !t.completions[i].source.FromServer?
    ensures ResultsMatch(cfg, codec, t.calls, t.completions)
  {
    forall i | 0 <= i < |t.completions| ensures ResultMatches(cfg, codec, t.calls, t.completions[i]) {
      if i < |s.completions| {
        assert ResultMatches(cfg, codec, s.calls, s.completions[i]);
      }
    }
  }

  lemma ResultsStep(cfg: S.Config, codec: Codec, y: Sys, l: Label)
    requires Faithful(codec, y.client.calls) && Inv(cfg, codec, y) && Enabled(cfg, codec, y, l)
    ensures var t := Apply(cfg, codec, y, l).client;
      ResultsMatch(cfg, codec, t.calls, t.completions)
  {
    if l.Cl? {
      if l.c.OnResponse? {
        NextResponse(cfg, codec, y, l.c.resp);
        ResultsResponse(cfg, codec, y, l.c.resp);
      } else {
        CT.Grows(codec.dump, y.client, l.c);
        ResultsKept(codec.dump, y.client, l.c);
        ResultsStay(cfg, codec, y.client, C.Apply(codec.dump, y.client, l.c));
      }
    }
  }

  // ------------------------------------------------------------------- all runs

  lemma PartsStep(cfg: S.Config, codec: Codec, y: Sys, l: Label)
    requires S.ValidConfig(cfg) && PartsInv(cfg, codec, y) && Enabled(cfg, codec, y, l)
    ensures PartsInv(cfg, codec, Apply(cfg, codec, y, l))
  {
    BackStep(cfg, codec, y, l);
    match l
    case Cl(c) =>
      CT.InvStep(codec.dump, y.client, c);
      if c.Restart? {
        SI.RunInv(cfg, []);
      }
    case Sv(s) => SI.InvStep(cfg, y.server, s);
    case Flow(_) =>
  }

  lemma PartsStart(cfg: S.Config, codec: Codec)
    requires S.ValidConfig(cfg)
    ensures PartsInv(cfg, codec, Init(cfg))
  {
    SI.RunInv(cfg, []);
    CT.RunInv(codec.dump, []);
    assert Texts(codec, []) == [] && Stream([]) == [];
  }

  /** Each program by itself keeps its promises in the joined system, whatever the text layer does. */
  lemma {:induction false} RunParts(cfg: S.Config, codec: Codec, ls: seq<Label>)
    requires S.ValidConfig(cfg) && Run(cfg, codec, ls).Some?
    ensures PartsInv(cfg, codec, Run(cfg, codec, ls).value)
  {
    if ls == [] {
      PartsStart(cfg, codec);
    } else {
      RunParts(cfg, codec, ls[..|ls| - 1]);
      PartsStep(cfg, codec, Run(cfg, codec, ls[..|ls| - 1]).value, ls[|ls| - 1]);
    }
  }

  lemma CallsGrow(cfg: S.Config, codec: Codec, y: Sys, l: Label)
    requires Enabled(cfg, codec, y, l)
    ensures y.client.calls <= Apply(cfg, codec, y, l).client.calls
  {
    if l.Cl? {
      CT.Grows(codec.dump, y.client, l.c);
    }
  }

  lemma InvStep(cfg: S.Config, codec: Codec, y: Sys, l: Label)
    requires S.ValidConfig(cfg) && Faithful(codec, y.client.calls) && Inv(cfg, codec, y) && Enabled(cfg, codec, y, l)
    ensures Inv(cfg, codec, Apply(cfg, codec, y, l))
  {
    PartsStep(cfg, codec, y, l);
    RequestsStep(cfg, codec, y, l);
    PendingStep(cfg, codec, y, l);
    ResultsStep(cfg, codec, y, l);
  }

  lemma {:induction false} RunInv(cfg: S.Config, codec: Codec, ls: seq<Label>)
    requires S.ValidConfig(cfg) && Run(cfg, codec, ls).Some?
    requires Faithful(codec, Run(cfg, codec, ls).value.client.calls)
    ensures Inv(cfg, codec, Run(cfg, codec, ls).value)
  {
    if ls == [] {
      PartsStart(cfg, codec);
    } else {
      var y := Run(cfg, codec, ls[..|ls| - 1]).value;
      CallsGrow(cfg, codec, y, ls[|ls| - 1]);
      FaithfulEarlier(codec, y.client.calls, Run(cfg, codec, ls).value.client.calls);
      RunInv(cfg, codec, ls[..|ls| - 1]);
      InvStep(cfg, codec, y, ls[|ls| - 1]);
    }
  }

  // --------------------------------------------------------------- main results

  /**
   * End-to-end correlation.  In every interleaving of callers, event loop, server
   * threads and restarts, bytes moving on either pipe as they will: a result a caller
   * got from the server answers that very caller's command, under the id given to it.
   */
  lemma EndToEndCorrelation(cfg: S.Config, codec: Codec, ls: seq<Label>, i: nat)
    requires S.ValidConfig(cfg) && Run(cfg, codec, ls).Some?
    requires Faithful(codec, Run(cfg, codec, ls).value.client.calls)
    requires i < |Run(cfg, codec, ls).value.client.completions|
    requires Run(cfg, codec, ls).value.client.completions[i].source.FromServer?
    ensures var c := Run(cfg, codec, ls).value.client;
      var x := c.completions[i];
      x.caller < |c.calls| && x.id == x.caller + 1 && x.source.resp.id == x.id
      && AnswerTo(cfg, codec, x.id, c.calls[x.caller], x.source.resp)
  {
    RunInv(cfg, codec, ls);
    Correlated(cfg, codec, Run(cfg, codec, ls).value.client, i);
  }

  lemma Correlated(cfg: S.Config, codec: Codec, c: C.State, i: nat)
    requires ResultsMatch(cfg, codec, c.calls, c.completions) && CT.ResultInv(c)
    requires i < |c.completions| && c.completions[i].source.FromServer?
    ensures var x := c.completions[i];
      x.caller < |c.calls| && x.id == x.caller + 1 && x.source.resp.id == x.id
      && AnswerTo(cfg, codec, x.id, c.calls[x.caller], x.source.resp)
  {
    assert ResultMatches(cfg, codec, c.calls, c.completions[i]);
  }

  /** The outcome of a method as its caller should see it. */
  function Seen(codec: Codec, o: S.Outcome): C.CallResult {
    if o.err.Some? && o.err.value.code != 0 then C.Raised(o.err.value.code, o.err.value.message)
    else C.Got(codec.carryResult(if o.result.Some? then o.result.value else Obj(map[])))
  }

  /** What a caller may see of its command: the queue was full, there is no such method, or its outcome. */
  ghost predicate MaySee(cfg: S.Config, codec: Codec, cmd: C.Command, r: C.CallResult) {
    || (cfg.maxQueued >= 0 && r == C.Raised(11, "Resource temporarily unavailable"))
    || (!cfg.known(cmd.methodName) && r == C.Raised(22, "No such method '" + cmd.methodName + "'"))
    || (cfg.known(cmd.methodName)
        && exists o :: cfg.computes(cmd.methodName, Some(codec.carryArgs(cmd.args)), o) && r == Seen(codec, o))
  }

  /**
   * What _sendCommand raises or returns: for a server's answer the outcome of that very
   * command, and after a crash that the server crashed.
   */
  lemma CallerSeesOwnOutcome(cfg: S.Config, codec: Codec, ls: seq<Label>, i: nat)
    requires S.ValidConfig(cfg) && Run(cfg, codec, ls).Some?
    requires Faithful(codec, Run(cfg, codec, ls).value.client.calls)
    requires i < |Run(cfg, codec, ls).value.client.completions|
    ensures var c := Run(cfg, codec, ls).value.client;
      var x := c.completions[i];
      if x.source.FromServer? then
        x.caller < |c.calls| && MaySee(cfg, codec, c.calls[x.caller], C.Delivered(x.source))
      else
        C.Delivered(x.source) == C.Raised(100001, "ioprocess crashed unexpectedly")
  {
    var c := Run(cfg, codec, ls).value.client;
    var x := c.completions[i];
    if x.source.FromServer? {
      EndToEndCorrelation(cfg, codec, ls, i);
      AnswerSeen(cfg, codec, x.id, c.calls[x.caller], x.source.resp);
    }
  }

  lemma AnswerSeen(cfg: S.Config, codec: Codec, id: nat, cmd: C.Command, resp: S.Response)
    requires AnswerTo(cfg, codec, id, cmd, resp)
    ensures MaySee(cfg, codec, cmd, C.Delivered(C.FromServer(resp)))
  {
    var r := C.Delivered(C.FromServer(resp));
    if !(cfg.maxQueued >= 0 && resp == Carried(codec, Busy(id))) {
      var o :| S.MayReport(cfg, cmd.methodName, Some(codec.carryArgs(cmd.args)), o)
        && resp == Carried(codec, S.BuildResponse(id, o.err, o.result));
      assert r == Seen(codec, o);
    }
  }

  /** No result is set twice, and ids are given out once, in the order of the calls. */
  lemma ResultsSetOnce(cfg: S.Config, codec: Codec, ls: seq<Label>, k: nat)
    requires S.ValidConfig(cfg) && Run(cfg, codec, ls).Some?
    ensures CT.TimesSet(Run(cfg, codec, ls).value.client.completions, k) <= 1
    ensures var c := Run(cfg, codec, ls).value.client;
      k in c.pending ==> 1 <= k <= c.reqId && c.pending[k] == k - 1
  {
    RunParts(cfg, codec, ls);
  }

  /** No response that can arrive is unexpected. */
  lemma NoResponseUnexpected(cfg: S.Config, codec: Codec, ls: seq<Label>, r: S.Response)
    requires S.ValidConfig(cfg) && Run(cfg, codec, ls).Some?
    requires Faithful(codec, Run(cfg, codec, ls).value.client.calls)
    requires Enabled(cfg, codec, Run(cfg, codec, ls).value, Cl(C.OnResponse(r)))
    ensures r.id >= 0 && r.id as nat in Run(cfg, codec, ls).value.client.pending
  {
    RunInv(cfg, codec, ls);
    NextResponse(cfg, codec, Run(cfg, codec, ls).value, r);
    NoUnknownId(cfg, codec, Run(cfg, codec, ls).value);
  }

  /** An answer to request number n is queued, written or arriving, but not handed on yet. */
  ghost predicate OnItsWay(y: Sys, n: nat) {
    var rs := S.Responses(y.server);
    exists i :: y.tx <= i < |rs| && rs[i].Answer? && rs[i].ticket == n
  }

  /** The server has read request number n and still works on it. */
  ghost predicate AtServer(s: S.State, n: nat) {
    || |s.popped| <= n < |s.enqueued|
    || (n + 1 == |s.popped| && (s.handler.Deciding? || s.handler.Rejecting? || s.handler.Pushing?))
    || n in s.pool
    || (n in s.workers && s.workers[n].Started?)
  }

  /** The request with this id, sent in this run, is on its way, at the server, or answered. */
  ghost predicate Accounted(y: Sys, id: nat) {
    var n := id - y.client.firstId;
    0 <= n < |y.client.frames| && (y.rx <= n || AtServer(y.server, n) || OnItsWay(y, n))
  }

  /**
   * Conservation: in every state of the joined system with the loop running, a request
   * the client waits for is either still on its way to the server, or at the server, or
   * its answer is on its way back.
   */
  lemma NothingIsLost(cfg: S.Config, codec: Codec, ls: seq<Label>, id: nat)
    requires S.ValidConfig(cfg) && Run(cfg, codec, ls).Some?
    requires Faithful(codec, Run(cfg, codec, ls).value.client.calls)
    requires CT.InLoop(Run(cfg, codec, ls).value.client.pc) && id in Run(cfg, codec, ls).value.client.pending
    ensures Accounted(Run(cfg, codec, ls).value, id)
  {
    RunInv(cfg, codec, ls);
    Located(cfg, codec, Run(cfg, codec, ls).value, id);
  }

  lemma Located(cfg: S.Config, codec: Codec, y: Sys, id: nat)
    requires Inv(cfg, codec, y) && CT.InLoop(y.client.pc) && id in y.client.pending
    ensures Accounted(y, id)
  {
    PendingFramed(codec, y, id);
    if id - y.client.firstId < y.rx {
      ReadIsSomewhere(cfg, codec, y, id - y.client.firstId);
    }
  }

  lemma PendingFramed(codec: Codec, y: Sys, id: nat)
    requires CT.IdInv(y.client) && CT.FramesInv(codec.dump, y.client) && PendingMatch(y)
    requires CT.InLoop(y.client.pc) && id in y.client.pending
    ensures 0 <= id - y.client.firstId < |y.client.frames| && !Received(y, id - y.client.firstId)
  {
    assert y.client.firstId + (id - y.client.firstId) == id;
  }

  lemma ReadIsSomewhere(cfg: S.Config, codec: Codec, y: Sys, n: nat)
    requires RequestsMatch(codec, y)
    requires SI.RequestsInv(y.server) && SI.VerdictInv(y.server) && SI.AnswersInv(cfg, y.server)
    requires n < y.rx && !Received(y, n) && y.tx <= |y.server.taken|
    ensures AtServer(y.server, n) || OnItsWay(y, n)
  {
    var s := y.server;
    if !AtServer(s, n) {
      assert s.popped[n] == s.enqueued[n];
      RequestFields(cfg, codec, y.client.firstId + n, y.client.calls[y.client.firstId + n - 1]);
      HandledIsAnswered(cfg, s, n);
      AnsweredIsOnItsWay(y, n);
    }
  }

  lemma AnsweredIsOnItsWay(y: Sys, n: nat)
    requires SI.IsAnswered(y.server, n) && !Received(y, n) && y.tx <= |y.server.taken|
    ensures OnItsWay(y, n)
  {
    var rs := S.Responses(y.server);
    var i :| 0 <= i < |rs| && rs[i].Answer? && rs[i].ticket == n;
    assert i < |y.server.taken| ==> rs[i] == y.server.taken[i];
    assert y.tx <= i;
  }

  lemma HandledIsAnswered(cfg: S.Config, s: S.State, n: nat)
    requires SI.VerdictInv(s) && SI.AnswersInv(cfg, s) && n < |s.popped| && S.WellFormed(cfg, s.popped[n])
    requires !AtServer(s, n)
    ensures SI.IsAnswered(s, n)
  {
    assert SI.ShouldBeAnswered(cfg, s, n);
  }

  /** Nothing is under way anywhere: every request sent was read, every answer handed on. */
  ghost predicate AtRest(y: Sys) {
    && CT.InLoop(y.client.pc) && y.rx == |y.client.frames| && y.tx == |S.Responses(y.server)|
    && y.server.handler.Idle? && y.server.requestQueue == [] && y.server.pool == [] && y.server.workers == map[]
  }

  /**
   * So once the joined system has come to rest nobody with an id is left waiting: every
   * such caller has its result set, once.
   */
  lemma AllServedAtRest(cfg: S.Config, codec: Codec, ls: seq<Label>)
    requires S.ValidConfig(cfg) && Run(cfg, codec, ls).Some? && AtRest(Run(cfg, codec, ls).value)
    requires Faithful(codec, Run(cfg, codec, ls).value.client.calls)
    ensures Run(cfg, codec, ls).value.client.pending == map[]
    ensures CT.EachSetOnce(Run(cfg, codec, ls).value.client)
  {
    RunInv(cfg, codec, ls);
    var y := Run(cfg, codec, ls).value;
    NonePendingAtRest(cfg, codec, y);
    AllSet(y.client);
  }

  lemma NonePendingAtRest(cfg: S.Config, codec: Codec, y: Sys)
    requires Inv(cfg, codec, y) && AtRest(y)
    ensures y.client.pending == map[]
  {
    if y.client.pending != map[] {
      var id :| id in y.client.pending;
      Located(cfg, codec, y, id);
      NowhereAtRest(y, id - y.client.firstId);
    }
  }

  lemma AllSet(c: C.State)
    requires CT.ResultInv(c) && c.pending == map[]
    ensures CT.EachSetOnce(c)
  {
  }

  lemma NowhereAtRest(y: Sys, n: nat)
    requires AtRest(y) && SI.RequestsInv(y.server) && n < y.rx
    ensures !AtServer(y.server, n) && !OnItsWay(y, n)
  {
  }
}
