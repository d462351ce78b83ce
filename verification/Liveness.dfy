/** That the joined system has no dead end: whatever has happened, every request sent can still be answered. */
module Liveness {
  import opened JsonValues
  import opened Framing
  import opened EndToEnd
  import opened Sequences
  import C = ClientLoop
  import CT = ClientTheorems
  import CP = ClientProgress
  import S = ServerPipeline
  import SI = ServerInvariant
  import ST = ServerTheorems

  // ----------------------------------------------------------------- hypotheses

  /** All texts are accepted at the other end, as what was meant, and every method call returns. */
  ghost predicate Cooperative(cfg: S.Config, codec: Codec, calls: seq<C.Command>) {
    && Faithful(codec, calls)
    && (forall id, k :: 0 <= k < |calls| ==> RequestAccepted(codec, id, calls[k]))
    && (forall resp :: ResponseAccepted(codec, resp))
    && (forall m, a :: cfg.known(m) ==> ST.HasOutcome(cfg, m, a))
  }

  predicate RequestAccepted(codec: Codec, id: nat, cmd: C.Command) {
    codec.dump(id, cmd).Some? && codec.parse(codec.dump(id, cmd).value).Some?
  }

  predicate ResponseAccepted(codec: Codec, resp: S.Response) {
    codec.load(codec.generate(resp)).Some?
  }

  /** The client's loop runs, the client is open and the server's reader has not given up. */
  predicate Up(y: Sys) {
    CT.InLoop(y.client.pc) && y.client.isRunning && !y.server.readerDone
  }

  ghost predicate Working(cfg: S.Config, codec: Codec, y: Sys) {
    S.ValidConfig(cfg) && Inv(cfg, codec, y) && Up(y) && Cooperative(cfg, codec, y.client.calls)
  }

  // -------------------------------------------------------------------- measure

  /** Writes the sender still needs. */
  function SenderWork(c: C.State): nat {
    if c.sender.Some? then 1 + |c.sender.value| else 0
  }

  /** What is still to be moved between the two programs, or done by the server. */
  function Bulk(y: Sys): nat {
    10 * SenderWork(y.client) + 300 * Minus(|y.client.frames|, y.rx) + 30 * ST.WorkLeft(y.server)
    + 10 * Minus(|y.server.taken|, y.tx) + if y.unsent == [] then 0 else 1
  }

  function Minus(a: nat, b: nat): nat {
    if a >= b then a - b else 0
  }

  /** The batch holds an event that moves something. */
  predicate Useful(y: Sys) {
    var rest := CT.Rest(y.client.pc);
    C.WritePipe in rest || (C.ReadPipe in rest && y.tx < |Complete(y.back)|)
  }

  function Phase(y: Sys): nat {
    CP.BatchWork(y.client) + if Useful(y) then 0 else 5
  }

  /** `z` is nearer to rest than `y`: fewer commands queued, or less to move, or nearer to the next poll. */
  predicate Nearer(y: Sys, z: Sys) {
    || |z.client.queue| < |y.client.queue|
    || (|z.client.queue| == |y.client.queue|
        && (Bulk(z) < Bulk(y) || (Bulk(z) == Bulk(y) && Phase(z) < Phase(y))))
  }

  // --------------------------------------------------------------- client's steps

  /** The step by which the loop goes on with its batch. */
  function ClientMove(codec: Codec, y: Sys): C.Label
    requires !y.client.pc.Polling? && Up(y) && CT.SenderInv(y.client)
    requires forall k :: 0 <= k < |Complete(y.back)| ==> codec.load(Complete(y.back)[k]).Some?
  {
    match y.client.pc
    case Polled(_) => C.Check
    case Fetching(_) => C.Fetch
    case Pinging(_) => C.LoopPing
    case Dispatch(rest) =>
      if rest == [] then C.EndBatch
      else
        match rest[0]
        case ErrPipe => C.OnErr
        case EventPipe => C.OnEvent
        case WritePipe => C.OnWrite(|y.client.sender.value|)
        case ReadPipe =>
          if y.tx < |Complete(y.back)| then C.OnResponse(codec.load(Complete(y.back)[y.tx]).value) else C.OnPartial
  }

  lemma AllArriveReadable(cfg: S.Config, codec: Codec, y: Sys)
    requires Working(cfg, codec, y)
    ensures forall k :: 0 <= k < |Complete(y.back)| ==> codec.load(Complete(y.back)[k]).Some?
  {
    forall k: nat | k < |Complete(y.back)| ensures codec.load(Complete(y.back)[k]).Some? {
      Arrived(cfg, codec, y, k);
      assert ResponseAccepted(codec, y.server.taken[k].resp);
    }
  }

  lemma ClientMoves(cfg: S.Config, codec: Codec, y: Sys) returns (l: Label)
    requires Working(cfg, codec, y) && !y.client.pc.Polling?
    ensures Enabled(cfg, codec, y, l) && Nearer(y, Apply(cfg, codec, y, l)) && Up(Apply(cfg, codec, y, l))
    ensures Apply(cfg, codec, y, l).client.calls == y.client.calls
  {
    AllArriveReadable(cfg, codec, y);
    var c := ClientMove(codec, y);
    l := Cl(c);
    if c.Fetch? {
      FetchMoves(cfg, codec, y);
    } else if c.OnWrite? {
      WriteMoves(cfg, codec, y);
    } else if c.OnResponse? {
      Arrived(cfg, codec, y, y.tx);
      ResponseMoves(cfg, codec, y, c.resp);
    } else {
      IdleMoves(cfg, codec, y, c);
    }
  }

  lemma FetchMoves(cfg: S.Config, codec: Codec, y: Sys)
    requires CT.IdInv(y.client) && Up(y) && y.client.pc.Fetching?
    requires forall id, k :: 0 <= k < |y.client.calls| ==> RequestAccepted(codec, id, y.client.calls[k])
    ensures Enabled(cfg, codec, y, Cl(C.Fetch))
    ensures var z := Apply(cfg, codec, y, Cl(C.Fetch));
      Nearer(y, z) && Up(z) && z.client.calls == y.client.calls
  {
    var s := y.client;
    if s.queue == [] {
      NothingFetched(codec.dump, s);
      NearerByPhase(y, Apply(cfg, codec, y, Cl(C.Fetch)));
    } else {
      assert s.queue[0] == s.reqId;
      assert RequestAccepted(codec, s.reqId + 1, s.calls[s.queue[0]]);
      CT.FetchTakes(codec.dump, s);
      StaysOpen(codec.dump, s, C.Fetch);
    }
  }

  lemma NothingFetched(dump: C.Dump, s: C.State)
    requires s.pc.Fetching? && s.queue == []
    ensures C.Enabled(s, C.Fetch) && C.Apply(dump, s, C.Fetch) == s.(pc := C.Dispatch(s.pc.rest))
  {
  }

  lemma StaysOpen(dump: C.Dump, s: C.State, c: C.Label)
    requires C.Enabled(s, c) && !c.Close? && s.isRunning
    ensures C.Apply(dump, s, c).isRunning
  {
  }

  /** Two states that differ in nothing the bulk counts. */
  predicate SameBulk(y: Sys, z: Sys) {
    && z.client.sender == y.client.sender && z.client.frames == y.client.frames && z.client.queue == y.client.queue
    && z.server == y.server && z.rx == y.rx && z.tx == y.tx && z.back == y.back && z.unsent == y.unsent
  }

  lemma NearerByPhase(y: Sys, z: Sys)
    requires SameBulk(y, z)
    requires CP.BatchWork(z.client) < CP.BatchWork(y.client)
    requires Useful(z) <==> Useful(y)
    ensures Nearer(y, z)
  {
  }

  lemma WriteMoves(cfg: S.Config, codec: Codec, y: Sys)
    requires CT.SenderInv(y.client) && Up(y) && C.At(y.client, C.WritePipe)
    ensures y.client.sender.Some?
    ensures var c := C.OnWrite(|y.client.sender.value|);
      && Enabled(cfg, codec, y, Cl(c))
      && var z := Apply(cfg, codec, y, Cl(c));
         Nearer(y, z) && Up(z) && z.client.calls == y.client.calls
  {
    WriteLessens(codec.dump, y.client);
  }

  lemma WriteLessens(dump: C.Dump, s: C.State)
    requires CT.SenderInv(s) && s.isRunning && C.At(s, C.WritePipe)
    ensures s.sender.Some? && C.Enabled(s, C.OnWrite(|s.sender.value|))
    ensures var t := C.Apply(dump, s, C.OnWrite(|s.sender.value|));
      && SenderWork(t) < SenderWork(s) && CT.InLoop(t.pc) && t.isRunning
      && t.queue == s.queue && t.frames == s.frames && t.calls == s.calls
  {
    var data := s.sender.value;
    assert data[|data|..] == [];
  }

  lemma ResponseMoves(cfg: S.Config, codec: Codec, y: Sys, resp: S.Response)
    requires Up(y) && C.At(y.client, C.ReadPipe) && y.tx < |Complete(y.back)| && y.tx < |y.server.taken|
    requires codec.load(Complete(y.back)[y.tx]) == Some(resp)
    ensures Enabled(cfg, codec, y, Cl(C.OnResponse(resp)))
    ensures var z := Apply(cfg, codec, y, Cl(C.OnResponse(resp)));
      Nearer(y, z) && Up(z) && z.client.calls == y.client.calls
  {
    Settles(codec.dump, y.client, resp);
    ResponseKeeps(codec.dump, y.client, resp);
  }

  lemma ResponseKeeps(dump: C.Dump, s: C.State, resp: S.Response)
    requires C.Enabled(s, C.OnResponse(resp))
    ensures var t := C.Apply(dump, s, C.OnResponse(resp));
      t.queue == s.queue && t.sender == s.sender && t.isRunning == s.isRunning && t.pc.Dispatch?
  {
  }

  /** Events that move nothing, and the steps between them. */
  lemma IdleMoves(cfg: S.Config, codec: Codec, y: Sys, c: C.Label)
    requires CT.SenderInv(y.client) && Up(y) && IsIdle(y.client, c)
    requires c.OnPartial? ==> y.tx >= |Complete(y.back)|
    ensures Enabled(cfg, codec, y, Cl(c))
    ensures var z := Apply(cfg, codec, y, Cl(c));
      Nearer(y, z) && Up(z) && z.client.calls == y.client.calls
  {
    IdleKeeps(codec.dump, y.client, c);
    NearerByPhase(y, Apply(cfg, codec, y, Cl(c)));
  }

  predicate IsIdle(s: C.State, c: C.Label) {
    match s.pc
    case Polled(_) => c == C.Check
    case Pinging(_) => c == C.LoopPing
    case Dispatch(rest) =>
      if rest == [] then c == C.EndBatch
      else
        (match rest[0]
         case ErrPipe => c == C.OnErr
         case EventPipe => c == C.OnEvent
         case ReadPipe => c == C.OnPartial
         case WritePipe => false)
    case _ => false
  }

  lemma IdleKeeps(dump: C.Dump, s: C.State, c: C.Label)
    requires CT.SenderInv(s) && s.isRunning && IsIdle(s, c)
    ensures C.Enabled(s, c)
    ensures var t := C.Apply(dump, s, c);
      && t.queue == s.queue && t.sender == s.sender && t.frames == s.frames && t.calls == s.calls
      && t.isRunning && CT.InLoop(t.pc) && CP.BatchWork(t) < CP.BatchWork(s)
      && (C.WritePipe in CT.Rest(t.pc) <==> C.WritePipe in CT.Rest(s.pc))
      && (!c.OnPartial? ==> (C.ReadPipe in CT.Rest(t.pc) <==> C.ReadPipe in CT.Rest(s.pc)))
  {
    if s.pc.Dispatch? && s.pc.rest != [] {
      assert s.pc.rest == [s.pc.rest[0]] + s.pc.rest[1..];
    }
  }

  // --------------------------------------------------------------- other steps

  lemma FlowMoves(cfg: S.Config, codec: Codec, y: Sys)
    requires Up(y) && y.unsent != []
    ensures var l := Flow(|y.unsent|);
      && Enabled(cfg, codec, y, l) && Nearer(y, Apply(cfg, codec, y, l)) && Up(Apply(cfg, codec, y, l))
      && Apply(cfg, codec, y, l).client == y.client
  {
    assert y.unsent[|y.unsent|..] == [];
  }

  /** A poll that returns the event for which there is something to do. */
  lemma PollMoves(cfg: S.Config, codec: Codec, y: Sys, fd: C.Fd)
    requires Up(y) && y.client.pc.Polling? && CT.SenderInv(y.client)
    requires match fd
             case WritePipe => y.client.sender.Some?
             case ReadPipe => y.tx < |Complete(y.back)|
             case _ => false
    ensures var l := Cl(C.Poll([fd]));
      && Enabled(cfg, codec, y, l) && Nearer(y, Apply(cfg, codec, y, l)) && Up(Apply(cfg, codec, y, l))
      && Apply(cfg, codec, y, l).client.calls == y.client.calls
  {
  }

  /** The server reads the next request. */
  lemma ReadMoves(cfg: S.Config, codec: Codec, y: Sys) returns (l: Label)
    requires Up(y) && CT.WireInv(y.client) && CT.FramesInv(codec.dump, y.client)
    requires forall id, k :: 0 <= k < |y.client.calls| ==> RequestAccepted(codec, id, y.client.calls[k])
    requires y.client.sender.None? && y.rx < |y.client.frames|
    ensures Enabled(cfg, codec, y, l) && Nearer(y, Apply(cfg, codec, y, l)) && Up(Apply(cfg, codec, y, l))
    ensures Apply(cfg, codec, y, l).client == y.client
  {
    CT.WireDecodes(y.client);
    FrameParses(codec, y.client, y.rx);
    var req := codec.parse(y.client.frames[y.rx]).value;
    l := Sv(S.Enqueue(req));
    EnqueueWork(cfg, y.server, req);
  }

  lemma FrameParses(codec: Codec, c: C.State, n: nat)
    requires CT.FramesInv(codec.dump, c) && n < |c.frames|
    requires forall id, k :: 0 <= k < |c.calls| ==> RequestAccepted(codec, id, c.calls[k])
    ensures codec.parse(c.frames[n]).Some?
  {
    var k := c.firstId + n;
    assert codec.dump(k, c.calls[k - 1]) == Some(c.frames[n]);
    assert RequestAccepted(codec, k, c.calls[k - 1]);
  }

  lemma EnqueueWork(cfg: S.Config, s: S.State, req: Json)
    requires !s.readerDone
    ensures var t := S.Apply(cfg, s, S.Enqueue(req));
      ST.WorkLeft(t) == ST.WorkLeft(s) + 8 && t.taken == s.taken && !t.readerDone
  {
    QueueWorkSnoc(s.requestQueue, S.Req(req));
  }

  lemma {:induction false} QueueWorkSnoc(q: seq<S.QueuedRequest>, x: S.QueuedRequest)
    ensures ST.QueueWork(q + [x]) == ST.QueueWork(q) + if x.Req? then 8 else 5
  {
    if q == [] {
      assert [x][1..] == [];
    } else {
      assert (q + [x])[1..] == q[1..] + [x];
      QueueWorkSnoc(q[1..], x);
    }
  }

  /** The server has something to do. */
  predicate ServerBusy(s: S.State) {
    s.requestQueue != [] || !s.handler.Idle? || s.pool != [] || s.workers != map[] || s.responseQueue != []
  }

  lemma ServerStep(cfg: S.Config, s: S.State) returns (l: S.Label)
    requires S.ValidConfig(cfg) && SI.Inv(cfg, s) && !s.readerDone && ServerBusy(s) && ST.CallsReturn(cfg, s)
    ensures S.Enabled(cfg, s, l) && !l.Enqueue? && !l.EnqueueStop?
  {
    if s.responseQueue != [] || s.workers != map[] || s.pool != [] {
      NotStopped(cfg, s);
      l := ST.BusyStep(cfg, s);
    } else {
      l := ST.HandlerMove(cfg, s);
    }
  }

  lemma NotStopped(cfg: S.Config, s: S.State)
    requires SI.AnswersInv(cfg, s) && SI.RequestsInv(s) && !s.readerDone
    ensures !S.WriterStopped(s)
    ensures forall i :: 0 <= i < |s.taken| ==> s.taken[i].Answer?
  {
    forall i | 0 <= i < |s.taken| ensures s.taken[i].Answer? {
      assert S.Responses(s)[i] == s.taken[i];
    }
  }

  lemma PoppedAreCalls(cfg: S.Config, codec: Codec, y: Sys)
    requires RequestsMatch(codec, y) && SI.RequestsInv(y.server)
    requires forall m, a :: cfg.known(m) ==> ST.HasOutcome(cfg, m, a)
    ensures ST.CallsReturn(cfg, y.server)
  {
    forall n: nat | n < |y.server.popped| ensures !S.Extract(cfg, y.server.popped[n]).Undefined? {
      PoppedIsCall(cfg, codec, y, n);
    }
  }

  lemma PoppedIsCall(cfg: S.Config, codec: Codec, y: Sys, n: nat)
    requires RequestsMatch(codec, y) && SI.RequestsInv(y.server) && n < |y.server.popped|
    ensures S.Extract(cfg, y.server.popped[n]).Info?
  {
    assert y.server.popped[n] == y.server.enqueued[n];
    RequestFields(cfg, codec, y.client.firstId + n, y.client.calls[y.client.firstId + n - 1]);
  }

  lemma ServerMoves(cfg: S.Config, codec: Codec, y: Sys) returns (l: Label)
    requires S.ValidConfig(cfg) && SI.Inv(cfg, y.server) && ST.CallsReturn(cfg, y.server)
    requires Up(y) && y.unsent == [] && ServerBusy(y.server)
    ensures Enabled(cfg, codec, y, l) && Nearer(y, Apply(cfg, codec, y, l)) && Up(Apply(cfg, codec, y, l))
    ensures Apply(cfg, codec, y, l).client == y.client
  {
    var sl := ServerStep(cfg, y.server);
    l := Sv(sl);
    ST.WorkDecreases(cfg, y.server, sl);
    TakenByOne(cfg, y.server, sl);
  }

  lemma TakenByOne(cfg: S.Config, s: S.State, l: S.Label)
    requires S.Enabled(cfg, s, l)
    ensures |S.Apply(cfg, s, l).taken| == |s.taken| + if l.Write? then 1 else 0
  {
  }

  // ----------------------------------------------------------------- main result

  /** Nothing is left to move, and the loop is at its poll. */
  predicate Done(y: Sys) {
    && y.client.pc.Polling? && y.unsent == [] && !ServerBusy(y.server) && y.client.sender.None?
    && y.tx == |y.server.taken| && y.rx == |y.client.frames|
  }

  lemma NextMove(cfg: S.Config, codec: Codec, y: Sys) returns (l: Label)
    requires Working(cfg, codec, y) && !Done(y)
    ensures Enabled(cfg, codec, y, l) && Nearer(y, Apply(cfg, codec, y, l)) && Up(Apply(cfg, codec, y, l))
    ensures Apply(cfg, codec, y, l).client.calls == y.client.calls
  {
    if !y.client.pc.Polling? {
      l := ClientMoves(cfg, codec, y);
    } else if y.unsent != [] {
      FlowMoves(cfg, codec, y);
      l := Flow(|y.unsent|);
    } else if ServerBusy(y.server) {
      PoppedAreCalls(cfg, codec, y);
      l := ServerMoves(cfg, codec, y);
    } else if y.client.sender.Some? {
      PollMoves(cfg, codec, y, C.WritePipe);
      l := Cl(C.Poll([C.WritePipe]));
    } else if y.tx < |y.server.taken| {
      AllArrived(cfg, codec, y);
      PollMoves(cfg, codec, y, C.ReadPipe);
      l := Cl(C.Poll([C.ReadPipe]));
    } else {
      l := ReadMoves(cfg, codec, y);
    }
  }

  /** With nothing unsent every answer taken has arrived. */
  lemma AllArrived(cfg: S.Config, codec: Codec, y: Sys)
    requires SI.AnswersInv(cfg, y.server) && SI.RequestsInv(y.server) && !y.server.readerDone
    requires BackInv(codec, y) && y.unsent == []
    ensures |Complete(y.back)| == |y.server.taken|
  {
    NotStopped(cfg, y.server);
    TextsAt(codec, y.server.taken);
    assert y.back + [] == y.back;
    CutStream(Texts(codec, y.server.taken), y.back, []);
  }

  lemma RunSnoc(cfg: S.Config, codec: Codec, ls: seq<Label>, l: Label)
    ensures Run(cfg, codec, ls + [l]) ==
            if Run(cfg, codec, ls).Some? && Enabled(cfg, codec, Run(cfg, codec, ls).value, l)
            then Some(Apply(cfg, codec, Run(cfg, codec, ls).value, l)) else None
  {
    assert (ls + [l])[..|ls|] == ls;
  }

  /** The response writer may move any part of the frame, but not nothing. */
  lemma AnyPortionMoves(cfg: S.Config, codec: Codec, ls: seq<Label>, k: nat)
    requires Run(cfg, codec, ls).Some?
    ensures Run(cfg, codec, ls + [Flow(k)]).Some? <==> 1 <= k <= |Run(cfg, codec, ls).value.unsent|
  {
    RunSnoc(cfg, codec, ls, Flow(k));
  }

  /** `ls` ends with everybody served that has an id, and the calls are still these. */
  ghost predicate Served(cfg: S.Config, codec: Codec, ls: seq<Label>, calls: seq<C.Command>) {
    && Run(cfg, codec, ls).Some?
    && var y := Run(cfg, codec, ls).value;
      Up(y) && AtRest(y) && y.client.calls == calls && y.client.pending == map[] && CT.EachSetOnce(y.client)
  }

  lemma {:induction false} Approach(cfg: S.Config, codec: Codec, ls: seq<Label>) returns (more: seq<Label>)
    requires Run(cfg, codec, ls).Some? && Working(cfg, codec, Run(cfg, codec, ls).value)
    ensures Served(cfg, codec, ls + more, Run(cfg, codec, ls).value.client.calls)
    decreases |Run(cfg, codec, ls).value.client.queue|,
              Bulk(Run(cfg, codec, ls).value), Phase(Run(cfg, codec, ls).value)
  {
    var y := Run(cfg, codec, ls).value;
    if Done(y) {
      more := [];
      assert ls + more == ls;
      AllServedAtRest(cfg, codec, ls);
    } else {
      var l := NextMove(cfg, codec, y);
      RunSnoc(cfg, codec, ls, l);
      InvStep(cfg, codec, y, l);
      var rest := Approach(cfg, codec, ls + [l]);
      more := [l] + rest;
      Assoc(ls, [l], rest);
    }
  }

  /**
   * Whatever has happened so far, errors and restarts included: as long as the loop runs,
   * the client is open and the server still reads, some schedule answers every request
   * that has an id, and each of their callers then has its result set once.
   */
  lemma CanBeServed(cfg: S.Config, codec: Codec, ls: seq<Label>) returns (more: seq<Label>)
    requires S.ValidConfig(cfg) && (ls == [] || Run(cfg, codec, ls).Some?)
    requires Run(cfg, codec, ls).Some? ==>
               Up(Run(cfg, codec, ls).value) && Cooperative(cfg, codec, Run(cfg, codec, ls).value.client.calls)
    ensures Run(cfg, codec, ls).Some?
    ensures Served(cfg, codec, ls + more, Run(cfg, codec, ls).value.client.calls)
  {
    RunInv(cfg, codec, ls);
    more := Approach(cfg, codec, ls);
  }
}
