/** What every step of the server keeps. */
module ServerInvariant {
  import opened JsonValues
  import opened ServerPipeline
  import opened Sequences

  // --------------------------------------------------------- admission slots

  function PcSlot(pc: HandlerPc): int {
    if pc.Pushing? || pc.Rejecting? || pc.RejectQueued? then 1 else 0
  }

  /** Admitted requests that still hold a slot. */
  function Holding(s: State): int {
    (if s.handler.Pushing? then 1 else 0) + |s.pool| + |s.workers|
  }

  ghost predicate RejectInProgress(s: State) {
    s.handler.Rejecting? || s.handler.RejectQueued?
  }

  ghost predicate SlotsInv(cfg: Config, s: State) {
    && (cfg.maxQueued >= 0 ==>
          && s.slots + PcSlot(s.handler) + |s.pool| + |s.workers| == cfg.maxThreads + cfg.maxQueued + 1
          && s.slots >= 0
          && (!RejectInProgress(s) ==> s.slots >= 1))
    && (cfg.maxQueued < 0 ==>
          s.rejected == {} && !RejectInProgress(s) && s.slots == cfg.maxThreads + cfg.maxQueued + 1)
  }

  // ------------------------------------------------------------- the pool

  /** Requests past the push to the pool. */
  ghost predicate Pushed(s: State, n: nat) {
    n in s.admitted && !(s.handler.Pushing? && n + 1 == |s.popped|)
  }

  ghost predicate PoolInv(cfg: Config, s: State) {
    && (cfg.maxThreads > 0 ==> |s.workers| <= cfg.maxThreads)
    && (forall i, j :: 0 <= i < j < |s.pool| ==> s.pool[i] < s.pool[j])
    && (forall i :: 0 <= i < |s.pool| ==> Pushed(s, s.pool[i]))
    && (forall n :: n in s.workers ==> Pushed(s, n) && n !in s.pool)
    // the pool starts its tasks in order: whatever is not in the pool was started before what is
    && (forall n, i :: Pushed(s, n) && n !in s.pool && 0 <= i < |s.pool| ==> n < s.pool[i])
  }

  ghost predicate VerdictInv(s: State) {
    && s.admitted !! s.rejected
    && (forall n :: n in s.admitted ==> n < |s.popped|)
    && (forall n :: n in s.rejected ==> n < |s.popped|)
    && (Busy(s.handler) ==> s.popped != [])
    && (forall n: nat :: n < |s.popped| ==>
          (n in s.admitted || n in s.rejected || (s.handler.Deciding? && n + 1 == |s.popped|)))
    && (s.handler.Deciding? ==> |s.popped| - 1 !in s.admitted && |s.popped| - 1 !in s.rejected)
    && (s.handler.Pushing? ==> |s.popped| - 1 in s.admitted)
    && (RejectInProgress(s) ==> |s.popped| - 1 in s.rejected)
  }

  // ---------------------------------------------------------- request queue

  function Reqs(q: seq<QueuedRequest>): seq<Json> {
    if q == [] then []
    else (if q[0].Req? then [q[0].req] else []) + Reqs(q[1..])
  }

  ghost predicate Stopping(pc: HandlerPc) {
    pc.Draining? || pc.Drained? || pc.Returned?
  }

  ghost predicate RequestsInv(s: State) {
    && s.enqueued == s.popped + Reqs(s.requestQueue)
    && (forall i :: 0 <= i < |s.requestQueue| - 1 ==> s.requestQueue[i].Req?)
    && (!s.readerDone ==> (forall i :: 0 <= i < |s.requestQueue| ==> s.requestQueue[i].Req?) && !Stopping(s.handler))
    && (s.readerDone && !Stopping(s.handler) ==>
          s.requestQueue != [] && s.requestQueue[|s.requestQueue| - 1].StopRequests?)
    && (Stopping(s.handler) ==> s.requestQueue == [] && s.readerDone)
  }

  // --------------------------------------------------------------- responses

  /** Some queued or written response answers request n. */
  ghost predicate IsAnswered(s: State, n: nat) {
    exists i :: 0 <= i < |Responses(s)| && Responses(s)[i].Answer? && Responses(s)[i].ticket == n
  }

  /** Where the program has got to with request n says whether it was answered. */
  ghost predicate ShouldBeAnswered(cfg: Config, s: State, n: nat)
    requires n < |s.popped|
  {
    if n in s.rejected then !(s.handler.Rejecting? && n + 1 == |s.popped|)
    else
      && Pushed(s, n) && n !in s.pool
      && (n in s.workers ==> s.workers[n].Finishing?)
      && WellFormed(cfg, s.popped[n])
  }

  ghost predicate GoodAnswer(cfg: Config, s: State, a: QueuedResponse)
    requires a.Answer?
  {
    && a.ticket < |s.popped|
    && (a.ticket in s.rejected ==> a.resp == RejectResponse(cfg, s.popped[a.ticket]))
    && (a.ticket !in s.rejected ==> a.ticket in s.admitted && Computed(cfg, s.popped[a.ticket], a.resp))
  }

  ghost predicate OneEach(rs: seq<QueuedResponse>) {
    forall i, j :: 0 <= i < j < |rs| && rs[i].Answer? && rs[j].Answer? ==> rs[i].ticket != rs[j].ticket
  }

  ghost predicate AnswersInv(cfg: Config, s: State) {
    var rs := Responses(s);
    && OneEach(rs)
    && (forall i :: 0 <= i < |rs| && rs[i].Answer? ==> GoodAnswer(cfg, s, rs[i]))
    && (forall n: nat :: n < |s.popped| ==> (IsAnswered(s, n) <==> ShouldBeAnswered(cfg, s, n)))
    && (forall i :: 0 <= i < |rs| && rs[i].StopResponses? ==> i == |rs| - 1 && s.handler.Returned?)
    && (s.handler.Returned? ==> |rs| > 0 && rs[|rs| - 1].StopResponses?)
    && (s.handler.Drained? || s.handler.Returned? ==> s.pool == [] && s.workers == map[])
  }

  ghost predicate Inv(cfg: Config, s: State) {
    SlotsInv(cfg, s) && PoolInv(cfg, s) && VerdictInv(s) && RequestsInv(s) && AnswersInv(cfg, s)
  }

  // -------------------------------------------------------------- preservation

  lemma WorkersSize(w: map<nat, Phase>, n: nat, p: Phase)
    ensures n in w ==> |w[n := p]| == |w| && |w - {n}| == |w| - 1
    ensures n !in w ==> |w[n := p]| == |w| + 1
  {
    assert w[n := p].Keys == w.Keys + {n};
    assert (w - {n}).Keys == w.Keys - {n};
    if n in w {
      assert w.Keys + {n} == w.Keys;
    }
  }

  lemma SlotsStep(cfg: Config, s: State, l: Label)
    requires ValidConfig(cfg) && SlotsInv(cfg, s) && Enabled(cfg, s, l)
    requires forall i :: 0 <= i < |s.pool| ==> s.pool[i] !in s.workers
    ensures SlotsInv(cfg, Apply(cfg, s, l))
  {
    PlacesStep(cfg, s, l);
    if l.Admit? || l.Reject? || l.EndReject? || l.PoolPush? {
      SlotsMoved(cfg, s, l);
    } else {
      SlotsKept(cfg, s, l);
      SlotsBalance(cfg, s, Apply(cfg, s, l), if l.Release? then 1 else 0);
    }
  }

  lemma SlotsBalance(cfg: Config, s: State, t: State, released: nat)
    requires SlotsInv(cfg, s) && t.rejected == s.rejected && PcSlot(t.handler) == PcSlot(s.handler)
    requires RejectInProgress(t) <==> RejectInProgress(s)
    requires |t.pool| + |t.workers| == |s.pool| + |s.workers| - released
    requires t.slots == s.slots + if cfg.maxQueued >= 0 then released else 0
    ensures SlotsInv(cfg, t)
  {
  }

  lemma SlotsMoved(cfg: Config, s: State, l: Label)
    requires ValidConfig(cfg) && SlotsInv(cfg, s) && Enabled(cfg, s, l)
    requires l.Admit? || l.Reject? || l.EndReject? || l.PoolPush?
    ensures SlotsInv(cfg, Apply(cfg, s, l))
  {
  }

  /** Other steps of the handler leave the counter alone; a release gives back the slot of the request that goes. */
  lemma SlotsKept(cfg: Config, s: State, l: Label)
    requires Enabled(cfg, s, l) && !l.Admit? && !l.Reject? && !l.EndReject? && !l.PoolPush?
    ensures var t := Apply(cfg, s, l);
      && t.slots == s.slots + (if l.Release? && cfg.maxQueued >= 0 then 1 else 0)
      && t.rejected == s.rejected && PcSlot(t.handler) == PcSlot(s.handler)
      && (RejectInProgress(t) <==> RejectInProgress(s))
  {
  }

  /** Requests in the pool and with the workers: a push adds one, a release takes one away. */
  lemma PlacesStep(cfg: Config, s: State, l: Label)
    requires Enabled(cfg, s, l)
    requires forall i :: 0 <= i < |s.pool| ==> s.pool[i] !in s.workers
    ensures var t := Apply(cfg, s, l);
      |t.pool| + |t.workers| ==
      |s.pool| + |s.workers| + (if l.PoolPush? then 1 else 0) - (if l.Release? then 1 else 0)
  {
    match l
    case Release(n) => WorkersSize(s.workers, n, Finishing);
    case Start => WorkersSize(s.workers, s.pool[0], Started);
    case Respond(n, _) => WorkersSize(s.workers, n, Finishing);
    case Skip(n) => WorkersSize(s.workers, n, Finishing);
    case _ =>
  }

  lemma WorkersStep(cfg: Config, s: State, l: Label)
    requires ValidConfig(cfg) && Enabled(cfg, s, l)
    requires cfg.maxThreads > 0 ==> |s.workers| <= cfg.maxThreads
    ensures cfg.maxThreads > 0 ==> |Apply(cfg, s, l).workers| <= cfg.maxThreads
  {
    match l
    case Release(n) => WorkersSize(s.workers, n, Finishing);
    case Start => WorkersSize(s.workers, s.pool[0], Started);
    case Respond(n, _) => WorkersSize(s.workers, n, Finishing);
    case Skip(n) => WorkersSize(s.workers, n, Finishing);
    case _ =>
  }

  lemma PoolPushed(cfg: Config, s: State, l: Label, n: nat)
    requires VerdictInv(s) && Enabled(cfg, s, l)
    ensures Pushed(Apply(cfg, s, l), n) <==> Pushed(s, n) || (l.PoolPush? && n + 1 == |s.popped|)
  {
  }

  lemma PoolStep(cfg: Config, s: State, l: Label)
    requires ValidConfig(cfg) && PoolInv(cfg, s) && VerdictInv(s) && Enabled(cfg, s, l)
    ensures PoolInv(cfg, Apply(cfg, s, l))
  {
    WorkersStep(cfg, s, l);
    forall n: nat ensures Pushed(Apply(cfg, s, l), n) <==> Pushed(s, n) || (l.PoolPush? && n + 1 == |s.popped|) {
      PoolPushed(cfg, s, l, n);
    }
    if l.Start? {
      PoolStart(cfg, s);
    } else if l.PoolPush? {
      PoolAppend(cfg, s);
    }
  }

  lemma PoolStart(cfg: Config, s: State)
    requires PoolInv(cfg, s) && Enabled(cfg, s, Start)
    requires cfg.maxThreads > 0 ==> |Apply(cfg, s, Start).workers| <= cfg.maxThreads
    ensures PoolInv(cfg, Apply(cfg, s, Start))
  {
    var t := Apply(cfg, s, Start);
    PoolTail(s.pool);
    forall n, i | Pushed(t, n) && n !in t.pool && 0 <= i < |t.pool| ensures n < t.pool[i] {
      assert Pushed(s, n) && t.pool[i] == s.pool[i + 1];
    }
  }

  lemma PoolTail(pool: seq<nat>)
    requires pool != [] && forall i, j :: 0 <= i < j < |pool| ==> pool[i] < pool[j]
    ensures forall i :: 0 <= i < |pool| - 1 ==> pool[1..][i] == pool[i + 1]
    ensures forall n :: n in pool <==> n == pool[0] || n in pool[1..]
    ensures pool[0] !in pool[1..]
  {
    assert pool == [pool[0]] + pool[1..];
  }

  lemma PoolAppend(cfg: Config, s: State)
    requires PoolInv(cfg, s) && VerdictInv(s) && Enabled(cfg, s, PoolPush)
    ensures PoolInv(cfg, Apply(cfg, s, PoolPush))
  {
    var t := Apply(cfg, s, PoolPush);
    var m := |s.popped| - 1;
    assert m in t.pool by { assert t.pool[|s.pool|] == m; }
    forall n, i | Pushed(t, n) && n !in t.pool && 0 <= i < |t.pool| ensures n < t.pool[i] {
      assert n != m && Pushed(s, n);
      assert forall k :: 0 <= k < |s.pool| ==> t.pool[k] == s.pool[k];
      if i < |s.pool| { assert t.pool[i] == s.pool[i]; }
    }
  }

  lemma VerdictStep(cfg: Config, s: State, l: Label)
    requires ValidConfig(cfg) && VerdictInv(s) && Enabled(cfg, s, l)
    ensures VerdictInv(Apply(cfg, s, l))
  {
    if l.Pop? || l.Admit? || l.Reject? {
      VerdictMoves(cfg, s, l);
    }
  }

  lemma VerdictMoves(cfg: Config, s: State, l: Label)
    requires VerdictInv(s) && Enabled(cfg, s, l) && (l.Pop? || l.Admit? || l.Reject?)
    ensures VerdictInv(Apply(cfg, s, l))
  {
  }

  lemma {:induction false} ReqsAppend(q: seq<QueuedRequest>, x: QueuedRequest)
    ensures Reqs(q + [x]) == Reqs(q) + (if x.Req? then [x.req] else [])
  {
    if q == [] {
      assert [x][1..] == [];
    } else {
      assert (q + [x])[1..] == q[1..] + [x] && (q + [x])[0] == q[0];
      ReqsAppend(q[1..], x);
      Assoc(if q[0].Req? then [q[0].req] else [], Reqs(q[1..]), if x.Req? then [x.req] else []);
    }
  }

  lemma RequestsStep(cfg: Config, s: State, l: Label)
    requires ValidConfig(cfg) && RequestsInv(s) && Enabled(cfg, s, l)
    ensures RequestsInv(Apply(cfg, s, l))
  {
    if l.Enqueue? || l.EnqueueStop? {
      RequestsArrive(cfg, s, l);
    } else if l.Pop? || l.PopStop? {
      RequestsLeave(cfg, s, l);
    }
  }

  lemma RequestsArrive(cfg: Config, s: State, l: Label)
    requires RequestsInv(s) && Enabled(cfg, s, l) && (l.Enqueue? || l.EnqueueStop?)
    ensures RequestsInv(Apply(cfg, s, l))
  {
    var x := if l.Enqueue? then Req(l.req) else StopRequests;
    ReqsAppend(s.requestQueue, x);
    Assoc(s.popped, Reqs(s.requestQueue), if x.Req? then [x.req] else []);
    assert Apply(cfg, s, l).requestQueue == s.requestQueue + [x];
  }

  lemma RequestsLeave(cfg: Config, s: State, l: Label)
    requires RequestsInv(s) && Enabled(cfg, s, l) && (l.Pop? || l.PopStop?)
    ensures RequestsInv(Apply(cfg, s, l))
  {
    var q := s.requestQueue;
    assert Reqs(q) == (if q[0].Req? then [q[0].req] else []) + Reqs(q[1..]);
    if l.Pop? {
      Assoc(s.popped, [q[0].req], Reqs(q[1..]));
    } else {
      assert |q| == 1;
    }
  }

  predicate Quiet(l: Label) {
    !l.QueueReject? && !l.Respond? && !l.QueueStop?
  }

  /** Steps that queue no response leave every request's standing alone. */
  lemma QuietStanding(cfg: Config, s: State, l: Label, n: nat)
    requires PoolInv(cfg, s) && VerdictInv(s) && Enabled(cfg, s, l) && Quiet(l)
    requires n < |Apply(cfg, s, l).popped|
    ensures ShouldBeAnswered(cfg, Apply(cfg, s, l), n) <==> n < |s.popped| && ShouldBeAnswered(cfg, s, n)
  {
    var t := Apply(cfg, s, l);
    PoolPushed(cfg, s, l, n);
    if l.Start? {
      assert s.pool == [s.pool[0]] + t.pool;
      assert n in s.pool <==> n == s.pool[0] || n in t.pool;
    } else if l.PoolPush? {
      assert t.pool[|s.pool|] == |s.popped| - 1;
      assert n in t.pool <==> n in s.pool || n == |s.popped| - 1;
    }
  }

  lemma AnswersQuiet(cfg: Config, s: State, l: Label)
    requires AnswersInv(cfg, s) && PoolInv(cfg, s) && VerdictInv(s) && Enabled(cfg, s, l) && Quiet(l)
    ensures AnswersInv(cfg, Apply(cfg, s, l))
  {
    var t := Apply(cfg, s, l);
    var rs := Responses(s);
    assert Responses(t) == rs;
    forall i | 0 <= i < |rs| && rs[i].Answer? ensures GoodAnswer(cfg, t, rs[i]) {
      QuietGood(cfg, s, l, rs[i]);
    }
    forall n: nat | n < |t.popped| ensures IsAnswered(t, n) <==> ShouldBeAnswered(cfg, t, n) {
      QuietStanding(cfg, s, l, n);
      assert IsAnswered(t, n) <==> IsAnswered(s, n);
    }
  }

  lemma QuietGood(cfg: Config, s: State, l: Label, a: QueuedResponse)
    requires VerdictInv(s) && Enabled(cfg, s, l)
    requires a.Answer? && GoodAnswer(cfg, s, a)
    ensures GoodAnswer(cfg, Apply(cfg, s, l), a)
  {
  }

  /** Queueing the answer to request n changes the standing of n only. */
  lemma PushStanding(cfg: Config, s: State, l: Label, n: nat, m: nat)
    requires PoolInv(cfg, s) && VerdictInv(s) && Enabled(cfg, s, l)
    requires (l.QueueReject? && n + 1 == |s.popped|) || (l.Respond? && l.n == n)
    requires m < |s.popped|
    ensures !ShouldBeAnswered(cfg, s, n)
    ensures ShouldBeAnswered(cfg, Apply(cfg, s, l), m) <==> ShouldBeAnswered(cfg, s, m) || m == n
  {
  }

  lemma PushGood(cfg: Config, s: State, l: Label, n: nat)
    requires PoolInv(cfg, s) && VerdictInv(s) && Enabled(cfg, s, l)
    requires (l.QueueReject? && n + 1 == |s.popped|) || (l.Respond? && l.n == n)
    ensures var t := Apply(cfg, s, l);
      exists resp :: t.responseQueue == s.responseQueue + [Answer(n, resp)] && GoodAnswer(cfg, t, Answer(n, resp))
  {
    var t := Apply(cfg, s, l);
    var x := t.responseQueue[|s.responseQueue|];
    assert t.responseQueue == s.responseQueue + [Answer(n, x.resp)];
    assert GoodAnswer(cfg, t, x);
  }

  /** Steps that queue the answer to request n. */
  lemma AnswersPush(cfg: Config, s: State, l: Label, n: nat)
    requires AnswersInv(cfg, s) && PoolInv(cfg, s) && VerdictInv(s) && Enabled(cfg, s, l)
    requires (l.QueueReject? && n + 1 == |s.popped|) || (l.Respond? && l.n == n)
    ensures AnswersInv(cfg, Apply(cfg, s, l))
  {
    var t := Apply(cfg, s, l);
    var rs, rt := Responses(s), Responses(t);
    PushGood(cfg, s, l, n);
    var resp :| t.responseQueue == s.responseQueue + [Answer(n, resp)] && GoodAnswer(cfg, t, Answer(n, resp));
    var x := Answer(n, resp);
    assert rt == rs + [x];
    PushStanding(cfg, s, l, n, n);
    OthersStayGood(cfg, s, l, n);
    forall m: nat | m < |t.popped|
      ensures IsAnswered(t, m) <==> ShouldBeAnswered(cfg, t, m)
    {
      AnsweredAppend(s, t, x, m);
      PushStanding(cfg, s, l, n, m);
    }
  }

  lemma OthersStayGood(cfg: Config, s: State, l: Label, n: nat)
    requires AnswersInv(cfg, s) && VerdictInv(s) && Enabled(cfg, s, l) && n < |s.popped| && !ShouldBeAnswered(cfg, s, n)
    ensures var rs := Responses(s);
      forall i :: 0 <= i < |rs| && rs[i].Answer? ==> rs[i].ticket != n && GoodAnswer(cfg, Apply(cfg, s, l), rs[i])
  {
    var rs := Responses(s);
    forall i | 0 <= i < |rs| && rs[i].Answer?
      ensures rs[i].ticket != n && GoodAnswer(cfg, Apply(cfg, s, l), rs[i])
    {
      QuietGood(cfg, s, l, rs[i]);
      assert IsAnswered(s, rs[i].ticket);
    }
  }

  lemma AnsweredAppend(s: State, t: State, x: QueuedResponse, n: nat)
    requires Responses(t) == Responses(s) + [x]
    ensures IsAnswered(t, n) <==> IsAnswered(s, n) || (x.Answer? && x.ticket == n)
  {
    var rs, rt := Responses(s), Responses(t);
    if IsAnswered(s, n) {
      var i :| 0 <= i < |rs| && rs[i].Answer? && rs[i].ticket == n;
      assert rt[i] == rs[i];
    }
    assert rt[|rs|] == x;
  }

  lemma AnswersStop(cfg: Config, s: State)
    requires AnswersInv(cfg, s) && Enabled(cfg, s, QueueStop)
    ensures AnswersInv(cfg, Apply(cfg, s, QueueStop))
  {
    var t := Apply(cfg, s, QueueStop);
    assert Responses(t) == Responses(s) + [StopResponses];
    forall n: nat | n < |t.popped|
      ensures IsAnswered(t, n) <==> ShouldBeAnswered(cfg, t, n)
    {
      AnsweredAppend(s, t, StopResponses, n);
    }
  }

  lemma AnswersStep(cfg: Config, s: State, l: Label)
    requires AnswersInv(cfg, s) && PoolInv(cfg, s) && VerdictInv(s) && Enabled(cfg, s, l)
    ensures AnswersInv(cfg, Apply(cfg, s, l))
  {
    if l.QueueReject? {
      AnswersPush(cfg, s, l, |s.popped| - 1);
    } else if l.Respond? {
      AnswersPush(cfg, s, l, l.n);
    } else if l.QueueStop? {
      AnswersStop(cfg, s);
    } else {
      AnswersQuiet(cfg, s, l);
    }
  }

  lemma InvStep(cfg: Config, s: State, l: Label)
    requires ValidConfig(cfg) && Inv(cfg, s) && Enabled(cfg, s, l)
    ensures Inv(cfg, Apply(cfg, s, l))
  {
    SlotsStep(cfg, s, l);
    PoolStep(cfg, s, l);
    VerdictStep(cfg, s, l);
    RequestsStep(cfg, s, l);
    AnswersStep(cfg, s, l);
  }

  lemma {:induction false} RunInv(cfg: Config, ls: seq<Label>)
    requires ValidConfig(cfg) && Run(cfg, ls).Some?
    ensures Inv(cfg, Run(cfg, ls).value)
  {
    if ls != [] {
      RunInv(cfg, ls[..|ls| - 1]);
      InvStep(cfg, Run(cfg, ls[..|ls| - 1]).value, ls[|ls| - 1]);
    }
  }
}
