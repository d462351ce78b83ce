/** What the server's threads can do: who waits for what, and that a run can always be brought to its end. */
module ServerProgress {
  import opened JsonValues
  import opened ServerPipeline
  import opened ServerInvariant
  import opened ServerTheorems
  import opened Sequences

  lemma StepIff(cfg: Config, ls: seq<Label>, l: Label)
    ensures Run(cfg, ls + [l]).Some? <==> Run(cfg, ls).Some? && Enabled(cfg, Run(cfg, ls).value, l)
  {
    RunSnoc(cfg, ls, l);
  }

  /** Until it queues STOP the reader can queue any request, and STOP. */
  lemma ReaderIff(cfg: Config, ls: seq<Label>, req: Json)
    requires Run(cfg, ls).Some?
    ensures Run(cfg, ls + [Enqueue(req)]).Some? <==> EnqueueStop !in ls
    ensures Run(cfg, ls + [EnqueueStop]).Some? <==> EnqueueStop !in ls
  {
    DoneIff(cfg, ls);
    StepIff(cfg, ls, Enqueue(req));
    StepIff(cfg, ls, EnqueueStop);
  }

  lemma {:induction false} DoneIff(cfg: Config, ls: seq<Label>)
    requires Run(cfg, ls).Some?
    ensures Run(cfg, ls).value.readerDone <==> EnqueueStop in ls
  {
    if ls != [] {
      var m := ls[..|ls| - 1];
      DoneIff(cfg, m);
      DoneStep(cfg, Run(cfg, m).value, ls[|ls| - 1]);
      assert ls == m + [ls[|ls| - 1]];
    }
  }

  lemma DoneStep(cfg: Config, s: State, l: Label)
    requires Enabled(cfg, s, l)
    ensures Apply(cfg, s, l).readerDone <==> s.readerDone || l.EnqueueStop?
  {
  }

  /** The handler waits only for an item on the request queue and, once it met STOP, for the last task to end. */
  lemma HandlerWaitsIff(cfg: Config, ls: seq<Label>)
    requires ValidConfig(cfg) && Run(cfg, ls).Some? && !Run(cfg, ls).value.handler.Returned?
    ensures var s := Run(cfg, ls).value;
      (forall l :: HandlerLabel(l) ==> Run(cfg, ls + [l]).None?) <==>
        || (s.handler.Idle? && s.requestQueue == [])
        || (s.handler.Draining? && Outstanding(ls) > 0)
  {
    RunInv(cfg, ls);
    CountsAgree(cfg, ls);
    var s := Run(cfg, ls).value;
    forall l | HandlerLabel(l)
      ensures Run(cfg, ls + [l]).Some? <==> Enabled(cfg, s, l)
    {
      StepIff(cfg, ls, l);
    }
    if (s.handler.Idle? && s.requestQueue == []) || (s.handler.Draining? && Outstanding(ls) > 0) {
      HandlerWaits(cfg, s);
    } else {
      var l := HandlerMove(cfg, s);
      assert HandlerLabel(l) && Run(cfg, ls + [l]).Some?;
    }
  }

  lemma HandlerWaits(cfg: Config, s: State)
    requires (s.handler.Idle? && s.requestQueue == []) || (s.handler.Draining? && |s.pool| + |s.workers| > 0)
    ensures forall l :: HandlerLabel(l) ==> !Enabled(cfg, s, l)
  {
  }

  predicate IsPush(l: Label) { l.PoolPush? }
  predicate IsStart(l: Label) { l.Start? }

  lemma {:induction false} PoolCounts(cfg: Config, ls: seq<Label>)
    requires ValidConfig(cfg) && Run(cfg, ls).Some?
    ensures var s := Run(cfg, ls).value;
      && |s.pool| == Count(IsPush, ls) - Count(IsStart, ls)
      && |s.workers| == Count(IsStart, ls) - Count(IsRelease, ls)
  {
    if ls != [] {
      var m := ls[..|ls| - 1];
      PoolCounts(cfg, m);
      RunPool(cfg, m);
      PoolCountStep(cfg, Run(cfg, m).value, ls[|ls| - 1]);
    }
  }

  lemma PoolCountStep(cfg: Config, s: State, l: Label)
    requires Enabled(cfg, s, l)
    requires forall i :: 0 <= i < |s.pool| ==> s.pool[i] !in s.workers
    ensures var t := Apply(cfg, s, l);
      && |t.pool| == |s.pool| + (if l.PoolPush? then 1 else 0) - (if l.Start? then 1 else 0)
      && |t.workers| == |s.workers| + (if l.Start? then 1 else 0) - (if l.Release? then 1 else 0)
  {
    match l
    case Release(n) => WorkersSize(s.workers, n, Finishing);
    case Start => WorkersSize(s.workers, s.pool[0], Started);
    case Respond(n, _) => WorkersSize(s.workers, n, Finishing);
    case Skip(n) => WorkersSize(s.workers, n, Finishing);
    case _ =>
  }

  /** The pool starts a task exactly when one waits and fewer than T run, or any number if T is zero. */
  lemma PoolStartsIff(cfg: Config, ls: seq<Label>)
    requires ValidConfig(cfg) && Run(cfg, ls).Some?
    ensures Run(cfg, ls + [Start]).Some? <==>
            && Count(IsPush, ls) > Count(IsStart, ls)
            && (cfg.maxThreads == 0 || Count(IsStart, ls) - Count(IsRelease, ls) < cfg.maxThreads)
  {
    PoolCounts(cfg, ls);
    StepIff(cfg, ls, Start);
  }

  lemma RunningIsPopped(cfg: Config, ls: seq<Label>, n: nat)
    requires ValidConfig(cfg) && Run(cfg, ls).Some? && n in Run(cfg, ls).value.workers
    ensures n < |Run(cfg, ls).value.popped|
  {
    RunInv(cfg, ls);
  }

  /** A running task goes on without waiting for anything: it answers or skips its request, then gives back its slot. */
  lemma WorkerNeverWaits(cfg: Config, ls: seq<Label>, n: nat, o: Outcome)
    requires ValidConfig(cfg) && Run(cfg, ls).Some? && n in Run(cfg, ls).value.workers
    ensures var s := Run(cfg, ls).value;
      && n < |s.popped|
      && (s.workers[n].Finishing? <==> Run(cfg, ls + [Release(n)]).Some?)
      && (s.workers[n].Started?
          && !(s.popped[n].Obj? && "id" in s.popped[n].fields && "methodName" in s.popped[n].fields)
          ==> Run(cfg, ls + [Skip(n)]).Some?)
      && (s.workers[n].Started? && NamesCall(s.popped[n]) ==>
            (Run(cfg, ls + [Respond(n, o)]).Some? <==>
               var f := s.popped[n].fields;
               MayReport(cfg, f["methodName"].s, if "args" in f then Some(f["args"]) else None, o)))
  {
    RunningIsPopped(cfg, ls, n);
    StepIff(cfg, ls, Release(n));
    StepIff(cfg, ls, Skip(n));
    StepIff(cfg, ls, Respond(n, o));
  }

  /** The writer waits only for a response. */
  lemma WriterIff(cfg: Config, ls: seq<Label>)
    requires ValidConfig(cfg) && Run(cfg, ls).Some?
    ensures Run(cfg, ls + [Write]).Some? <==> Run(cfg, ls).value.responseQueue != []
  {
    RunInv(cfg, ls);
    StepIff(cfg, ls, Write);
    var s := Run(cfg, ls).value;
    if WriterStopped(s) {
      assert Responses(s)[|s.taken| - 1].StopResponses?;
    }
  }

  // ------------------------------------------------------------------ to the end

  /** Every method call comes back with some outcome, and every request names its method by a string or not at all. */
  ghost predicate AllReturn(cfg: Config, s: State) {
    && (forall n: nat :: n < |s.enqueued| ==> !Extract(cfg, s.enqueued[n]).Undefined?)
    && (forall m, a :: cfg.known(m) ==> HasOutcome(cfg, m, a))
  }

  lemma ReturnsAsRead(cfg: Config, s: State)
    requires RequestsInv(s) && AllReturn(cfg, s)
    ensures CallsReturn(cfg, s)
  {
    forall n: nat | n < |s.popped| ensures !Extract(cfg, s.popped[n]).Undefined? {
      assert s.enqueued[n] == s.popped[n];
    }
  }

  lemma NothingMoreRead(cfg: Config, s: State, l: Label)
    requires Enabled(cfg, s, l) && s.readerDone
    ensures Apply(cfg, s, l).enqueued == s.enqueued && Apply(cfg, s, l).readerDone
  {
  }

  lemma OneStepNearer(cfg: Config, ls: seq<Label>) returns (l: Label)
    requires ValidConfig(cfg) && ShuttingDown(cfg, ls) && AllReturn(cfg, Run(cfg, ls).value)
    requires !WriterStopped(Run(cfg, ls).value)
    ensures ShuttingDown(cfg, ls + [l]) && WorkLeft(Run(cfg, ls + [l]).value) < WorkLeft(Run(cfg, ls).value)
    ensures Run(cfg, ls + [l]).value.enqueued == Run(cfg, ls).value.enqueued
  {
    var s := Run(cfg, ls).value;
    RunInv(cfg, ls);
    ReturnsAsRead(cfg, s);
    l := SomeStepEnabled(cfg, s);
    RunSnoc(cfg, ls, l);
    WorkDecreases(cfg, s, l);
    NothingMoreRead(cfg, s, l);
  }

  /** The run `ls` ends with the writer at STOP, and these are all the requests it read. */
  ghost predicate Complete(cfg: Config, ls: seq<Label>, enqueued: seq<Json>) {
    Run(cfg, ls).Some? && WriterStopped(Run(cfg, ls).value) && Run(cfg, ls).value.enqueued == enqueued
  }

  /** Once the reader is done some schedule brings the writer to STOP. */
  lemma {:induction false} ShutdownCompletes(cfg: Config, ls: seq<Label>) returns (more: seq<Label>)
    requires ValidConfig(cfg) && ShuttingDown(cfg, ls) && AllReturn(cfg, Run(cfg, ls).value)
    ensures Complete(cfg, ls + more, Run(cfg, ls).value.enqueued)
    decreases WorkLeft(Run(cfg, ls).value)
  {
    if WriterStopped(Run(cfg, ls).value) {
      more := [];
      assert ls + more == ls;
    } else {
      var l := OneStepNearer(cfg, ls);
      var rest := ShutdownCompletes(cfg, ls + [l]);
      more := [l] + rest;
      Assoc(ls, [l], rest);
    }
  }

  lemma ReaderStops(cfg: Config, ls: seq<Label>)
    requires Run(cfg, ls).Some? && !Run(cfg, ls).value.readerDone
    ensures ShuttingDown(cfg, ls + [EnqueueStop])
    ensures Run(cfg, ls + [EnqueueStop]).value.enqueued == Run(cfg, ls).value.enqueued
  {
    RunSnoc(cfg, ls, EnqueueStop);
  }

  /** So from every reachable state, the first one included, the server can serve all it was sent and stop. */
  lemma RunCompletes(cfg: Config, ls: seq<Label>) returns (more: seq<Label>)
    requires ValidConfig(cfg) && (ls == [] || Run(cfg, ls).Some?)
    requires Run(cfg, ls).Some? ==> AllReturn(cfg, Run(cfg, ls).value)
    ensures Run(cfg, ls).Some? && Complete(cfg, ls + more, Run(cfg, ls).value.enqueued)
  {
    if Run(cfg, ls).value.readerDone {
      more := ShutdownCompletes(cfg, ls);
    } else {
      ReaderStops(cfg, ls);
      var rest := ShutdownCompletes(cfg, ls + [EnqueueStop]);
      more := [EnqueueStop] + rest;
      Assoc(ls, [EnqueueStop], rest);
    }
  }
}
