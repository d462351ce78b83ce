/** What the server promises over whole runs, in every interleaving. */
module ServerTheorems {
  import opened JsonValues
  import opened ServerPipeline
  import opened ServerInvariant

  // ----------------------------------------------------------- counting steps

  predicate IsAdmit(l: Label) { l.Admit? }
  predicate IsRelease(l: Label) { l.Release? }
  predicate IsReject(l: Label) { l.Reject? }
  predicate IsEndReject(l: Label) { l.EndReject? }

  function Count(p: Label -> bool, ls: seq<Label>): nat {
    if ls == [] then 0
    else Count(p, ls[..|ls| - 1]) + if p(ls[|ls| - 1]) then 1 else 0
  }

  lemma {:induction false} CountConcat(p: Label -> bool, a: seq<Label>, b: seq<Label>)
    ensures Count(p, a + b) == Count(p, a) + Count(p, b)
  {
    if b == [] {
      assert a + b == a;
    } else {
      assert (a + b)[..|a + b| - 1] == a + b[..|b| - 1];
      CountConcat(p, a, b[..|b| - 1]);
    }
  }

  lemma {:induction false} RunPrefix(cfg: Config, a: seq<Label>, b: seq<Label>)
    requires Run(cfg, a + b).Some?
    ensures Run(cfg, a).Some?
  {
    if b == [] {
      assert a + b == a;
    } else {
      assert (a + b)[..|a + b| - 1] == a + b[..|b| - 1];
      RunPrefix(cfg, a, b[..|b| - 1]);
    }
  }

  lemma RunSnoc(cfg: Config, ls: seq<Label>, l: Label)
    ensures Run(cfg, ls + [l]) ==
            if Run(cfg, ls).Some? && Enabled(cfg, Run(cfg, ls).value, l)
            then Some(Apply(cfg, Run(cfg, ls).value, l)) else None
  {
    assert (ls + [l])[..|ls + [l]| - 1] == ls;
  }

  /** Requests admitted and not yet released, counted from the steps alone. */
  function Outstanding(ls: seq<Label>): int {
    Count(IsAdmit, ls) - Count(IsRelease, ls)
  }

  function OpenRejects(ls: seq<Label>): int {
    Count(IsReject, ls) - Count(IsEndReject, ls)
  }

  lemma {:induction false} CountsAgree(cfg: Config, ls: seq<Label>)
    requires ValidConfig(cfg) && Run(cfg, ls).Some?
    ensures Holding(Run(cfg, ls).value) == Outstanding(ls)
    ensures OpenRejects(ls) == if RejectInProgress(Run(cfg, ls).value) then 1 else 0
  {
    if ls != [] {
      var before := ls[..|ls| - 1];
      CountsAgree(cfg, before);
      RunInv(cfg, before);
      HoldingStep(cfg, Run(cfg, before).value, ls[|ls| - 1]);
      RejectingStep(cfg, Run(cfg, before).value, ls[|ls| - 1]);
    }
  }

  lemma HoldingStep(cfg: Config, s: State, l: Label)
    requires Enabled(cfg, s, l)
    requires forall i :: 0 <= i < |s.pool| ==> s.pool[i] !in s.workers
    ensures Holding(Apply(cfg, s, l)) ==
            Holding(s) + (if IsAdmit(l) then 1 else 0) - (if IsRelease(l) then 1 else 0)
  {
    PlacesStep(cfg, s, l);
  }

  // --------------------------------------------------------- admission control

  /** Free slots, outstanding requests and the reject in progress always add up. */
  lemma SlotConservation(cfg: Config, ls: seq<Label>)
    requires ValidConfig(cfg) && cfg.maxQueued >= 0 && Run(cfg, ls).Some?
    ensures Run(cfg, ls).value.slots + Outstanding(ls) + OpenRejects(ls) == cfg.maxThreads + cfg.maxQueued + 1
    ensures 0 <= Outstanding(ls) <= cfg.maxThreads + cfg.maxQueued
    ensures 0 <= OpenRejects(ls) <= 1
    ensures Run(cfg, ls).value.slots >= 0
  {
    RunInv(cfg, ls);
    CountsAgree(cfg, ls);
  }

  /** The decrement rejects exactly when all T + Q places are taken, and never with no limit. */
  lemma ExactRejection(cfg: Config, ls: seq<Label>)
    requires ValidConfig(cfg) && Run(cfg, ls).Some? && Run(cfg, ls).value.handler.Deciding?
    ensures Run(cfg, ls + [Reject]).Some? <==>
            cfg.maxQueued >= 0 && Outstanding(ls) == cfg.maxThreads + cfg.maxQueued
    ensures Run(cfg, ls + [Admit]).Some? <==>
            cfg.maxQueued < 0 || Outstanding(ls) < cfg.maxThreads + cfg.maxQueued
  {
    RunInv(cfg, ls);
    CountsAgree(cfg, ls);
    RunSnoc(cfg, ls, Reject);
    RunSnoc(cfg, ls, Admit);
  }

  /** With a negative limit nothing is ever rejected and the counter is left alone. */
  lemma NoLimitNoReject(cfg: Config, ls: seq<Label>)
    requires ValidConfig(cfg) && cfg.maxQueued < 0 && Run(cfg, ls).Some?
    ensures Run(cfg, ls).value.rejected == {} && Run(cfg, ls + [Reject]).None?
    ensures Run(cfg, ls).value.slots == cfg.maxThreads + cfg.maxQueued + 1
  {
    RunInv(cfg, ls);
    RunSnoc(cfg, ls, Reject);
  }

  /** Step k of the run is the atomic decrement for request n. */
  ghost predicate Decides(cfg: Config, ls: seq<Label>, k: nat, n: nat) {
    && k < |ls| && (ls[k].Admit? || ls[k].Reject?)
    && Run(cfg, ls[..k]).Some? && |Run(cfg, ls[..k]).value.popped| == n + 1
  }

  ghost predicate RejectsAt(cfg: Config, ls: seq<Label>, k: nat, n: nat) {
    Decides(cfg, ls, k, n) && ls[k].Reject?
  }

  ghost predicate AdmitsAt(cfg: Config, ls: seq<Label>, k: nat, n: nat) {
    Decides(cfg, ls, k, n) && ls[k].Admit?
  }

  /** Step k decides on request n while exactly T + Q admitted requests hold slots. */
  ghost predicate FullAt(cfg: Config, ls: seq<Label>, k: nat, n: nat) {
    Decides(cfg, ls, k, n) && cfg.maxQueued >= 0 && Outstanding(ls[..k]) == cfg.maxThreads + cfg.maxQueued
  }

  /**
   * In every run a request has been rejected if and only if exactly T + Q admitted
   * requests were holding slots at its own decrement.
   */
  lemma RejectedIffFull(cfg: Config, ls: seq<Label>, n: nat)
    requires ValidConfig(cfg) && Run(cfg, ls).Some?
    ensures n in Run(cfg, ls).value.rejected <==> exists k: nat :: FullAt(cfg, ls, k, n)
  {
    VerdictHasStep(cfg, ls, n);
    forall k: nat | Decides(cfg, ls, k, n)
      ensures RejectsAt(cfg, ls, k, n) <==> FullAt(cfg, ls, k, n)
      ensures FullAt(cfg, ls, k, n) ==> n in Run(cfg, ls).value.rejected
    {
      DecidedAt(cfg, ls, k, n);
    }
  }

  /** A decrement decides once and for all: later steps keep its verdict. */
  lemma DecidedAt(cfg: Config, ls: seq<Label>, k: nat, n: nat)
    requires ValidConfig(cfg) && Run(cfg, ls).Some? && Decides(cfg, ls, k, n)
    ensures ls[k].Reject? <==> cfg.maxQueued >= 0 && Outstanding(ls[..k]) == cfg.maxThreads + cfg.maxQueued
    ensures n in Run(cfg, ls).value.rejected <==> ls[k].Reject?
    ensures n in Run(cfg, ls).value.admitted <==> ls[k].Admit?
  {
    assert ls == ls[..k + 1] + ls[k + 1..] && ls[..k + 1] == ls[..k] + [ls[k]];
    RunPrefix(cfg, ls[..k + 1], ls[k + 1..]);
    RunSnoc(cfg, ls[..k], ls[k]);
    ExactRejection(cfg, ls[..k]);
    RunSnoc(cfg, ls[..k], Reject);
    RunSnoc(cfg, ls[..k], Admit);
    VerdictsStay(cfg, ls[..k + 1], ls[k + 1..]);
    RunVerdicts(cfg, ls);
  }

  lemma RunVerdicts(cfg: Config, ls: seq<Label>)
    requires ValidConfig(cfg) && Run(cfg, ls).Some?
    ensures Run(cfg, ls).value.admitted !! Run(cfg, ls).value.rejected
  {
    RunInv(cfg, ls);
  }

  lemma VerdictGrows(cfg: Config, s: State, l: Label, n: nat)
    requires Enabled(cfg, s, l)
    ensures var t := Apply(cfg, s, l);
      && (n in t.rejected <==> n in s.rejected || (l.Reject? && n + 1 == |s.popped|))
      && (n in t.admitted <==> n in s.admitted || (l.Admit? && n + 1 == |s.popped|))
  {
  }

  lemma {:induction false} VerdictsStay(cfg: Config, ls: seq<Label>, more: seq<Label>)
    requires Run(cfg, ls).Some? && Run(cfg, ls + more).Some?
    ensures Run(cfg, ls).value.rejected <= Run(cfg, ls + more).value.rejected
    ensures Run(cfg, ls).value.admitted <= Run(cfg, ls + more).value.admitted
  {
    if more == [] {
      assert ls + more == ls;
    } else {
      var m, l := more[..|more| - 1], more[|more| - 1];
      LastApart(ls, more);
      RunSnoc(cfg, ls + m, l);
      VerdictsStay(cfg, ls, m);
      forall n: nat ensures n in Run(cfg, ls + m).value.rejected ==> n in Run(cfg, ls + more).value.rejected {
        VerdictGrows(cfg, Run(cfg, ls + m).value, l, n);
      }
      forall n: nat ensures n in Run(cfg, ls + m).value.admitted ==> n in Run(cfg, ls + more).value.admitted {
        VerdictGrows(cfg, Run(cfg, ls + m).value, l, n);
      }
    }
  }

  /** Every verdict was reached at some decrement. */
  lemma {:induction false} VerdictHasStep(cfg: Config, ls: seq<Label>, n: nat)
    requires Run(cfg, ls).Some?
    ensures n in Run(cfg, ls).value.rejected ==> exists k: nat :: RejectsAt(cfg, ls, k, n)
    ensures n in Run(cfg, ls).value.admitted ==> exists k: nat :: AdmitsAt(cfg, ls, k, n)
  {
    if ls != [] {
      var m, l := ls[..|ls| - 1], ls[|ls| - 1];
      VerdictHasStep(cfg, m, n);
      VerdictGrows(cfg, Run(cfg, m).value, l, n);
      forall k: nat | Decides(cfg, m, k, n)
        ensures RejectsAt(cfg, m, k, n) ==> RejectsAt(cfg, ls, k, n)
        ensures AdmitsAt(cfg, m, k, n) ==> AdmitsAt(cfg, ls, k, n)
      {
        assert m[..k] == ls[..k];
      }
      if n + 1 == |Run(cfg, m).value.popped| {
        assert l.Reject? ==> RejectsAt(cfg, ls, |m|, n);
        assert l.Admit? ==> AdmitsAt(cfg, ls, |m|, n);
      }
    }
  }

  lemma {:induction false} NoAdmitWhileRejecting(cfg: Config, before: seq<Label>, during: seq<Label>)
    requires Run(cfg, before + [Reject] + during).Some?
    requires Count(IsEndReject, during) == 0
    ensures RejectInProgress(Run(cfg, before + [Reject] + during).value)
    ensures Count(IsAdmit, during) == 0
  {
    var a := before + [Reject];
    if during == [] {
      assert a + during == a;
      RunSnoc(cfg, before, Reject);
    } else {
      var d, l := during[..|during| - 1], during[|during| - 1];
      LastApart(a, during);
      RunSnoc(cfg, a + d, l);
      NoAdmitWhileRejecting(cfg, before, d);
      RejectingStep(cfg, Run(cfg, a + d).value, l);
    }
  }

  lemma LastApart(a: seq<Label>, b: seq<Label>)
    requires b != []
    ensures a + b == (a + b[..|b| - 1]) + [b[|b| - 1]]
  {
  }

  lemma RejectingStep(cfg: Config, s: State, l: Label)
    requires Enabled(cfg, s, l)
    ensures RejectInProgress(s) && !l.EndReject? ==> RejectInProgress(Apply(cfg, s, l)) && !l.Admit?
    ensures (if RejectInProgress(Apply(cfg, s, l)) then 1 else 0) ==
            (if RejectInProgress(s) then 1 else 0) + (if IsReject(l) then 1 else 0) - (if IsEndReject(l) then 1 else 0)
  {
  }

  /**
   * From the decrement that rejects to the increment that ends the rejection the
   * free slots grow by exactly what the workers released meanwhile.
   */
  lemma RejectionKeepsCapacity(cfg: Config, before: seq<Label>, during: seq<Label>)
    requires ValidConfig(cfg) && Run(cfg, before + [Reject] + during + [EndReject]).Some?
    requires Count(IsEndReject, during) == 0
    ensures Run(cfg, before).Some?
    ensures Run(cfg, before + [Reject] + during + [EndReject]).value.slots ==
            Run(cfg, before).value.slots + Count(IsRelease, during)
  {
    var all := before + [Reject] + during + [EndReject];
    RunPrefix(cfg, before + [Reject] + during, [EndReject]);
    RunPrefix(cfg, before + [Reject], during);
    RunPrefix(cfg, before, [Reject]);
    NoAdmitWhileRejecting(cfg, before, during);
    SplitCount(IsAdmit, before, during);
    SplitCount(IsRelease, before, during);
    IdleAround(cfg, before, during);
    SlotConservation(cfg, before);
    SlotConservation(cfg, all);
  }

  lemma SplitCount(p: Label -> bool, before: seq<Label>, during: seq<Label>)
    requires !p(Reject) && !p(EndReject)
    ensures Count(p, before + [Reject] + during + [EndReject]) == Count(p, before) + Count(p, during)
  {
    CountConcat(p, before, [Reject]);
    CountConcat(p, before + [Reject], during);
    CountConcat(p, before + [Reject] + during, [EndReject]);
    assert [Reject][..0] == [] && [EndReject][..0] == [];
  }

  lemma IdleAround(cfg: Config, before: seq<Label>, during: seq<Label>)
    requires ValidConfig(cfg) && Run(cfg, before + [Reject] + during + [EndReject]).Some?
    requires Run(cfg, before).Some? && Run(cfg, before + [Reject]).Some? && Run(cfg, before + [Reject] + during).Some?
    ensures OpenRejects(before) == 0 && OpenRejects(before + [Reject] + during + [EndReject]) == 0
  {
    RunSnoc(cfg, before, Reject);
    RunSnoc(cfg, before + [Reject] + during, EndReject);
    CountsAgree(cfg, before);
    CountsAgree(cfg, before + [Reject] + during + [EndReject]);
  }

  // ------------------------------------------------------------------ ordering

  /** Well-formed requests admitted before n that have no answer queued yet. */
  ghost function Overtaken(cfg: Config, s: State, n: nat): set<nat> {
    set m: nat | m in s.admitted && m < n && m < |s.popped| && WellFormed(cfg, s.popped[m]) && !IsAnswered(s, m)
  }

  lemma SubsetSize(a: set<nat>, b: set<nat>)
    requires a <= b
    ensures |a| <= |b|
  {
    assert b == a + (b - a);
  }

  /** A response overtakes at most T - 1 earlier requests. */
  lemma BoundedReordering(cfg: Config, ls: seq<Label>, n: nat, o: Outcome)
    requires ValidConfig(cfg) && cfg.maxThreads > 0
    requires Run(cfg, ls + [Respond(n, o)]).Some?
    ensures Run(cfg, ls).Some?
    ensures |Overtaken(cfg, Run(cfg, ls).value, n)| <= cfg.maxThreads - 1
  {
    RunSnoc(cfg, ls, Respond(n, o));
    RunInv(cfg, ls);
    OvertakenAreRunning(cfg, Run(cfg, ls).value, n);
  }

  lemma OvertakenAreRunning(cfg: Config, s: State, n: nat)
    requires PoolInv(cfg, s) && VerdictInv(s) && AnswersInv(cfg, s) && n in s.workers
    ensures Overtaken(cfg, s, n) <= s.workers.Keys - {n}
    ensures |Overtaken(cfg, s, n)| <= |s.workers| - 1
  {
    forall m: nat | m in Overtaken(cfg, s, n) ensures m in s.workers && m != n {
      assert n < |s.popped|;
      assert Pushed(s, m);
      assert Pushed(s, n) && n !in s.pool;
      assert m !in s.pool;
      assert !ShouldBeAnswered(cfg, s, m);
    }
    SubsetSize(Overtaken(cfg, s, n), s.workers.Keys - {n});
  }

  ghost predicate Ascending(s: State) {
    var rs := Responses(s);
    forall i, j :: (0 <= i < j < |rs| && rs[i].Answer? && rs[j].Answer?
                    && rs[i].ticket in s.admitted && rs[j].ticket in s.admitted)
                   ==> rs[i].ticket < rs[j].ticket
  }

  /** Everything admitted before an answered request is answered too. */
  ghost predicate NoneOvertaken(cfg: Config, s: State) {
    forall n: nat :: IsAnswered(s, n) && n in s.admitted ==> Overtaken(cfg, s, n) == {}
  }

  ghost predicate InOrder(cfg: Config, s: State) {
    Ascending(s) && NoneOvertaken(cfg, s)
  }

  /** With a single worker thread, admitted requests are answered in arrival order. */
  lemma {:induction false} SingleThreadArrivalOrder(cfg: Config, ls: seq<Label>)
    requires ValidConfig(cfg) && cfg.maxThreads == 1 && Run(cfg, ls).Some?
    ensures InOrder(cfg, Run(cfg, ls).value)
  {
    if ls != [] {
      var before := ls[..|ls| - 1];
      SingleThreadArrivalOrder(cfg, before);
      RunInv(cfg, before);
      InOrderStep(cfg, Run(cfg, before).value, ls[|ls| - 1]);
    }
  }

  lemma InOrderStep(cfg: Config, s: State, l: Label)
    requires ValidConfig(cfg) && cfg.maxThreads == 1 && Enabled(cfg, s, l)
    requires PoolInv(cfg, s) && VerdictInv(s) && AnswersInv(cfg, s) && InOrder(cfg, s)
    ensures InOrder(cfg, Apply(cfg, s, l))
  {
    if l.Respond? {
      OvertakenAreRunning(cfg, s, l.n);
      assert Overtaken(cfg, s, l.n) == {};
      assert !ShouldBeAnswered(cfg, s, l.n);
      AnswerInOrder(cfg, s, l);
    } else if Quiet(l) {
      forall n: nat | IsAnswered(s, n)
        ensures n < |s.popped| && (s.handler.Deciding? ==> n + 1 < |s.popped|)
      {
        assert n < |s.popped|;
        assert ShouldBeAnswered(cfg, s, n);
      }
      InOrderQuiet(cfg, s, l);
    } else {
      InOrderOther(cfg, s, l);
    }
  }

  lemma InOrderQuiet(cfg: Config, s: State, l: Label)
    requires Enabled(cfg, s, l) && Quiet(l) && InOrder(cfg, s)
    requires forall n: nat :: IsAnswered(s, n) ==> n < |s.popped| && (s.handler.Deciding? ==> n + 1 < |s.popped|)
    ensures InOrder(cfg, Apply(cfg, s, l))
  {
    var t := Apply(cfg, s, l);
    var rs := Responses(s);
    assert Responses(t) == rs;
    forall i | 0 <= i < |rs| && rs[i].Answer? ensures rs[i].ticket in t.admitted ==> rs[i].ticket in s.admitted {
      assert IsAnswered(s, rs[i].ticket);
    }
    forall n: nat | IsAnswered(t, n) && n in t.admitted ensures Overtaken(cfg, t, n) == {} {
      assert IsAnswered(s, n) && n in s.admitted;
      forall m | m in Overtaken(cfg, t, n) ensures m in Overtaken(cfg, s, n) {
        assert m in s.admitted;
        assert !IsAnswered(s, m);
        assert t.popped[m] == s.popped[m];
      }
    }
  }

  lemma InOrderOther(cfg: Config, s: State, l: Label)
    requires Enabled(cfg, s, l) && (l.QueueReject? || l.QueueStop?) && VerdictInv(s) && InOrder(cfg, s)
    ensures InOrder(cfg, Apply(cfg, s, l))
  {
    var t := Apply(cfg, s, l);
    var x := t.responseQueue[|t.responseQueue| - 1];
    assert Responses(t) == Responses(s) + [x];
    forall n: nat | IsAnswered(t, n) && n in t.admitted ensures Overtaken(cfg, t, n) == {} {
      AnsweredAppend(s, t, x, n);
      assert IsAnswered(s, n);
      forall m | m in Overtaken(cfg, t, n) ensures m in Overtaken(cfg, s, n) {
        AnsweredAppend(s, t, x, m);
      }
    }
  }

  lemma AnswerInOrder(cfg: Config, s: State, l: Label)
    requires Enabled(cfg, s, l) && l.Respond? && InOrder(cfg, s)
    requires l.n in s.admitted && !IsAnswered(s, l.n) && Overtaken(cfg, s, l.n) == {}
    ensures InOrder(cfg, Apply(cfg, s, l))
  {
    var t := Apply(cfg, s, l);
    var rs := Responses(s);
    var x := t.responseQueue[|t.responseQueue| - 1];
    assert Responses(t) == rs + [x];
    forall i | 0 <= i < |rs| && rs[i].Answer? && rs[i].ticket in s.admitted ensures rs[i].ticket < l.n {
      assert IsAnswered(s, rs[i].ticket);
      assert l.n !in Overtaken(cfg, s, rs[i].ticket);
    }
    forall n: nat | IsAnswered(t, n) && n in t.admitted ensures Overtaken(cfg, t, n) == {} {
      AnsweredAppend(s, t, x, n);
      forall m | m in Overtaken(cfg, t, n) ensures m in Overtaken(cfg, s, n) {
        AnsweredAppend(s, t, x, m);
      }
    }
  }

  // ---------------------------------------------------------------- accounting

  function AnswersTo(rs: seq<QueuedResponse>, n: nat): nat {
    if rs == [] then 0
    else AnswersTo(rs[..|rs| - 1], n) + if rs[|rs| - 1].Answer? && rs[|rs| - 1].ticket == n then 1 else 0
  }

  lemma {:induction false} CountAnswers(rs: seq<QueuedResponse>, n: nat)
    requires OneEach(rs)
    ensures AnswersTo(rs, n) ==
            if exists i :: 0 <= i < |rs| && rs[i].Answer? && rs[i].ticket == n then 1 else 0
  {
    if rs != [] {
      var r := rs[..|rs| - 1];
      CountAnswers(r, n);
      if exists i :: 0 <= i < |r| && r[i].Answer? && r[i].ticket == n {
        var i :| 0 <= i < |r| && r[i].Answer? && r[i].ticket == n;
        assert rs[i] == r[i];
      }
    }
  }

  /** The request has an `id` and its `methodName` is a string. */
  predicate NamesCall(req: Json) {
    req.Obj? && "id" in req.fields && "methodName" in req.fields && req.fields["methodName"].Str?
  }

  /** Requests the server owes an answer. */
  ghost predicate Answerable(s: State, n: nat)
    requires n < |s.popped|
  {
    n in s.rejected || NamesCall(s.popped[n])
  }

  /**
   * When the writer meets STOP: every request ever received was dequeued; each one
   * that was rejected or carries an id and a method name has exactly one response
   * written, with the right content; there is no other response; STOP comes last.
   */
  lemma WholeRunAccounting(cfg: Config, ls: seq<Label>)
    requires ValidConfig(cfg) && Run(cfg, ls).Some? && WriterStopped(Run(cfg, ls).value)
    ensures var s := Run(cfg, ls).value;
      && s.popped == s.enqueued
      && (forall n: nat :: n < |s.popped| ==> AnswersTo(s.taken, n) == if Answerable(s, n) then 1 else 0)
      && (forall i :: 0 <= i < |s.taken| - 1 ==> s.taken[i].Answer? && GoodAnswer(cfg, s, s.taken[i]))
      && s.responseQueue == []
  {
    RunInv(cfg, ls);
    var s := Run(cfg, ls).value;
    var rs := Responses(s);
    assert rs[|s.taken| - 1].StopResponses?;
    assert rs == s.taken;
    forall n: nat | n < |s.popped|
      ensures AnswersTo(s.taken, n) == if Answerable(s, n) then 1 else 0
    {
      CountAnswers(rs, n);
      assert IsAnswered(s, n) <==> ShouldBeAnswered(cfg, s, n);
    }
  }

  /** Once STOP is on the response queue nothing follows it, and no worker touches the slot counter again. */
  lemma {:induction false} StopIsLast(cfg: Config, ls: seq<Label>, more: seq<Label>)
    requires ValidConfig(cfg) && Run(cfg, ls + more).Some?
    requires Run(cfg, ls).Some? && Run(cfg, ls).value.handler.Returned?
    ensures Responses(Run(cfg, ls + more).value) == Responses(Run(cfg, ls).value)
    ensures Responses(Run(cfg, ls).value) != []
    ensures Responses(Run(cfg, ls).value)[|Responses(Run(cfg, ls).value)| - 1].StopResponses?
    ensures Run(cfg, ls + more).value.slots == Run(cfg, ls).value.slots
    ensures Run(cfg, ls + more).value.handler.Returned?
  {
    RunReturned(cfg, ls);
    if more == [] {
      assert ls + more == ls;
    } else {
      var m := more[..|more| - 1];
      var l := more[|more| - 1];
      assert ls + more == (ls + m) + [l];
      RunSnoc(cfg, ls + m, l);
      StopIsLast(cfg, ls, m);
      RunReturned(cfg, ls + m);
      StepReturned(cfg, Run(cfg, ls + m).value, l);
    }
  }

  lemma RunReturned(cfg: Config, ls: seq<Label>)
    requires ValidConfig(cfg) && Run(cfg, ls).Some? && Run(cfg, ls).value.handler.Returned?
    ensures var s := Run(cfg, ls).value;
      && s.pool == [] && s.workers == map[]
      && Responses(s) != [] && Responses(s)[|Responses(s)| - 1].StopResponses?
  {
    RunInv(cfg, ls);
  }

  lemma StepReturned(cfg: Config, s: State, l: Label)
    requires Enabled(cfg, s, l) && s.handler.Returned? && s.pool == [] && s.workers == map[]
    ensures var t := Apply(cfg, s, l);
      Responses(t) == Responses(s) && t.slots == s.slots && t.handler.Returned?
  {
  }

  // ------------------------------------------------------------------ shutdown

  function PcWork(pc: HandlerPc): nat {
    match pc
    case Idle => 0
    case Deciding => 7
    case Rejecting => 5
    case RejectQueued => 2
    case Pushing => 6
    case Draining => 4
    case Drained => 3
    case Returned => 0
  }

  function QueueWork(q: seq<QueuedRequest>): nat {
    if q == [] then 0 else (if q[0].Req? then 8 else 5) + QueueWork(q[1..])
  }

  function StartedTasks(w: map<nat, Phase>): set<nat> {
    set n | n in w && w[n].Started?
  }

  function PhaseWork(w: map<nat, Phase>): nat {
    3 * |StartedTasks(w)| + |w|
  }

  /** An upper bound on the steps left once the reader has queued STOP. */
  function WorkLeft(s: State): nat {
    QueueWork(s.requestQueue) + PcWork(s.handler) + 5 * |s.pool| + PhaseWork(s.workers) + |s.responseQueue|
  }

  lemma StartedSize(w: map<nat, Phase>, n: nat)
    ensures n !in w ==> PhaseWork(w[n := Started]) == PhaseWork(w) + 4
    ensures n in w && w[n].Started? ==> PhaseWork(w[n := Finishing]) == PhaseWork(w) - 3
    ensures n in w && w[n].Finishing? ==> PhaseWork(w - {n}) == PhaseWork(w) - 1
  {
    WorkersSize(w, n, Started);
    WorkersSize(w, n, Finishing);
    var a := StartedTasks(w);
    if n !in w {
      assert StartedTasks(w[n := Started]) == a + {n};
    } else if w[n].Started? {
      assert StartedTasks(w[n := Finishing]) == a - {n};
    } else {
      assert StartedTasks(w - {n}) == a;
    }
  }

  /** Every step but those of the reader lowers the work left. */
  lemma WorkDecreases(cfg: Config, s: State, l: Label)
    requires Enabled(cfg, s, l) && !l.Enqueue? && !l.EnqueueStop?
    requires forall i :: 0 <= i < |s.pool| ==> s.pool[i] !in s.workers
    ensures WorkLeft(Apply(cfg, s, l)) < WorkLeft(s) && Apply(cfg, s, l).readerDone == s.readerDone
  {
    match l
    case Release(n) => StartedSize(s.workers, n);
    case Start => StartedSize(s.workers, s.pool[0]);
    case Respond(n, _) => StartedSize(s.workers, n);
    case Skip(n) => StartedSize(s.workers, n);
    case _ =>
  }

  /** Every method call comes back with some outcome, and no method name is a non-string. */
  ghost predicate CallsReturn(cfg: Config, s: State) {
    && (forall n: nat :: n < |s.popped| ==> !Extract(cfg, s.popped[n]).Undefined?)
    && (forall m, a :: cfg.known(m) ==> HasOutcome(cfg, m, a))
  }

  ghost predicate HasOutcome(cfg: Config, m: string, a: Option<Json>) {
    exists o :: cfg.computes(m, a, o)
  }

  lemma SomeStepEnabled(cfg: Config, s: State) returns (l: Label)
    requires ValidConfig(cfg) && Inv(cfg, s) && s.readerDone && !WriterStopped(s) && CallsReturn(cfg, s)
    ensures Enabled(cfg, s, l) && !l.Enqueue? && !l.EnqueueStop?
  {
    if s.responseQueue != [] || s.workers != map[] || s.pool != [] {
      l := BusyStep(cfg, s);
    } else {
      assert Responses(s) == s.taken;
      l := HandlerMove(cfg, s);
    }
  }

  /** The step of a thread that has something to do: the writer, a running task, or the pool. */
  lemma BusyStep(cfg: Config, s: State) returns (l: Label)
    requires PoolInv(cfg, s) && VerdictInv(s) && !WriterStopped(s) && CallsReturn(cfg, s)
    requires ValidConfig(cfg) && (s.responseQueue != [] || s.workers != map[] || s.pool != [])
    ensures Enabled(cfg, s, l) && !l.Enqueue? && !l.EnqueueStop?
  {
    if s.responseQueue != [] {
      l := Write;
    } else if s.workers != map[] {
      l := WorkerStep(cfg, s);
    } else {
      l := Start;
    }
  }

  lemma WorkerStep(cfg: Config, s: State) returns (l: Label)
    requires VerdictInv(s) && PoolInv(cfg, s) && CallsReturn(cfg, s) && s.workers != map[]
    ensures Enabled(cfg, s, l) && !l.Enqueue? && !l.EnqueueStop?
  {
    var n :| n in s.workers;
    assert n < |s.popped|;
    if s.workers[n].Finishing? {
      l := Release(n);
    } else if Extract(cfg, s.popped[n]).Missing? {
      l := Skip(n);
    } else {
      var info := Extract(cfg, s.popped[n]);
      if cfg.known(info.methodName) {
        assert HasOutcome(cfg, info.methodName, info.args);
        var o :| cfg.computes(info.methodName, info.args, o);
        l := Respond(n, o);
      } else {
        l := Respond(n, Outcome(None, Some(Error(EINVAL, "No such method '" + info.methodName + "'"))));
      }
    }
  }

  predicate HandlerLabel(l: Label) {
    l.Pop? || l.PopStop? || l.Admit? || l.Reject? || l.QueueReject? || l.EndReject? || l.PoolPush? || l.Drain?
    || l.QueueStop?
  }

  /** The handler's next step, if it has something to take from the queue and nothing to wait for. */
  lemma HandlerMove(cfg: Config, s: State) returns (l: Label)
    requires VerdictInv(s) && !s.handler.Returned?
    requires s.handler.Idle? ==> s.requestQueue != []
    requires s.handler.Draining? ==> s.pool == [] && s.workers == map[]
    ensures HandlerLabel(l) && Enabled(cfg, s, l)
  {
    match s.handler
    case Idle => l := if s.requestQueue[0].Req? then Pop else PopStop;
    case Deciding => l := if Enabled(cfg, s, Reject) then Reject else Admit;
    case Rejecting => l := QueueReject;
    case RejectQueued => l := EndReject;
    case Pushing => l := PoolPush;
    case Draining => l := Drain;
    case Drained => l := QueueStop;
  }

  /**
   * Ordered shutdown always comes to an end: after the reader's STOP no schedule
   * takes more than WorkLeft further steps.
   */
  lemma {:induction false} ShutdownTerminates(cfg: Config, ls: seq<Label>, more: seq<Label>)
    requires ValidConfig(cfg) && ShuttingDown(cfg, ls) && Run(cfg, ls + more).Some?
    ensures ShuttingDown(cfg, ls + more)
    ensures WorkLeft(Run(cfg, ls + more).value) + |more| <= WorkLeft(Run(cfg, ls).value)
  {
    if more == [] {
      assert ls + more == ls;
    } else {
      var m := more[..|more| - 1];
      var l := more[|more| - 1];
      assert ls + more == (ls + m) + [l];
      RunSnoc(cfg, ls + m, l);
      ShutdownTerminates(cfg, ls, m);
      RunPool(cfg, ls + m);
      WorkDecreases(cfg, Run(cfg, ls + m).value, l);
    }
  }

  /** The reader has queued STOP. */
  ghost predicate ShuttingDown(cfg: Config, ls: seq<Label>) {
    Run(cfg, ls).Some? && Run(cfg, ls).value.readerDone
  }

  lemma RunPool(cfg: Config, ls: seq<Label>)
    requires ValidConfig(cfg) && Run(cfg, ls).Some?
    ensures var s := Run(cfg, ls).value;
      forall i :: 0 <= i < |s.pool| ==> s.pool[i] !in s.workers
  {
    RunInv(cfg, ls);
  }

  /** And it never gets stuck on the way: until the writer meets STOP some thread can go on. */
  lemma ShutdownNeverStuck(cfg: Config, ls: seq<Label>)
    requires ValidConfig(cfg) && ShuttingDown(cfg, ls)
    requires CallsReturn(cfg, Run(cfg, ls).value) && !WriterStopped(Run(cfg, ls).value)
    ensures exists l :: Run(cfg, ls + [l]).Some?
  {
    RunInv(cfg, ls);
    var l := SomeStepEnabled(cfg, Run(cfg, ls).value);
    RunSnoc(cfg, ls, l);
    assert Run(cfg, ls + [l]).Some?;
  }
}
