/** What the callers of the client are told, and what wakes its event loop. */
module ClientOutcomes {
  import opened JsonValues
  import opened ClientLoop
  import opened ClientTheorems
  import opened Sequences

  // ------------------------------------------------------------------ results

  /** What _sendCommand raises or returns for caller c, once its result is set. */
  function ResultOf(cs: seq<Completion>, c: nat): Option<CallResult> {
    if cs == [] then None
    else if cs[|cs| - 1].caller == c then Some(Delivered(cs[|cs| - 1].source))
    else ResultOf(cs[..|cs| - 1], c)
  }

  lemma ResultSnoc(cs: seq<Completion>, x: Completion, c: nat)
    ensures ResultOf(cs + [x], c) == if x.caller == c then Some(Delivered(x.source)) else ResultOf(cs, c)
  {
    assert (cs + [x])[..|cs|] == cs;
  }

  lemma {:induction false} NoneIfNeverSet(cs: seq<Completion>, c: nat)
    ensures ResultOf(cs, c).None? <==> TimesSet(cs, c) == 0
  {
    if cs != [] {
      NoneIfNeverSet(cs[..|cs| - 1], c);
    }
  }

  /** Some request in the map was made by caller c. */
  predicate Waits(pending: map<nat, nat>, c: nat) {
    exists id :: id in pending && pending[id] == c
  }

  /** From `b`, where an error has just left the loop, cleanup has got as far as `t`. */
  ghost predicate Telling(b: State, t: State) {
    && t.pc.Cleaning?
    && forall c: nat ::
         && (Waits(t.pending, c) ==> Waits(b.pending, c) && ResultOf(t.completions, c) == None)
         && (Waits(b.pending, c) && !Waits(t.pending, c) ==>
               ResultOf(t.completions, c) == Some(Raised(100001, "ioprocess crashed unexpectedly")))
         && (!Waits(b.pending, c) ==> ResultOf(t.completions, c) == ResultOf(b.completions, c))
  }

  lemma TellingStart(b: State)
    requires IdInv(b) && ResultInv(b) && b.pc.Cleaning?
    ensures Telling(b, b)
  {
    forall c: nat | Waits(b.pending, c) ensures ResultOf(b.completions, c) == None {
      assert c + 1 in b.pending;
      NoneIfNeverSet(b.completions, c);
    }
  }

  lemma TellingOne(b: State, t: State, id: nat)
    requires Telling(b, t) && IdInv(t) && id in t.pending
    ensures Telling(b, Settle(t, id, FromCleanup))
  {
    var u := Settle(t, id, FromCleanup);
    forall c: nat
      ensures ResultOf(u.completions, c) ==
              if t.pending[id] == c then Some(Delivered(FromCleanup)) else ResultOf(t.completions, c)
      ensures Waits(u.pending, c) <==> Waits(t.pending, c) && c != t.pending[id]
    {
      ResultSnoc(t.completions, Completion(t.pending[id], id, FromCleanup), c);
      WaitsLess(t.pending, id, c);
    }
  }

  lemma WaitsLess(pending: map<nat, nat>, id: nat, c: nat)
    requires id in pending && forall i :: i in pending ==> i >= 1 && pending[i] == i - 1
    ensures Waits(pending - {id}, c) <==> Waits(pending, c) && c != pending[id]
  {
    if Waits(pending, c) && c != pending[id] {
      assert c + 1 in pending - {id};
    }
  }

  lemma TellingStep(dump: Dump, b: State, t: State, l: Label)
    requires Telling(b, t) && IdInv(t) && Enabled(t, l) && !l.CleanEnd?
    ensures Telling(b, Apply(dump, t, l))
  {
    if l.CleanOne? {
      TellingOne(b, t, l.id);
    } else {
      Untold(dump, t, l);
    }
  }

  lemma Untold(dump: Dump, t: State, l: Label)
    requires t.pc.Cleaning? && Enabled(t, l) && !l.CleanEnd? && !l.CleanOne?
    ensures var u := Apply(dump, t, l);
      u.pc.Cleaning? && u.pending == t.pending && u.completions == t.completions
  {
  }

  lemma {:induction false} TellingRun(dump: Dump, ls: seq<Label>, more: seq<Label>)
    requires Run(dump, ls).Some? && Run(dump, ls).value.pc.Cleaning?
    requires Run(dump, ls + more).Some? && CleanEnd !in more
    ensures Telling(Run(dump, ls).value, Run(dump, ls + more).value)
  {
    if more == [] {
      assert ls + more == ls;
      RunIds(dump, ls);
      TellingStart(Run(dump, ls).value);
    } else {
      var m, l := more[..|more| - 1], more[|more| - 1];
      assert ls + more == (ls + m) + [l];
      LastStep(dump, ls + m, l);
      TellingRun(dump, ls, m);
      RunIds(dump, ls + m);
      TellingStep(dump, Run(dump, ls).value, Run(dump, ls + m).value, l);
    }
  }

  /**
   * When an error has left the loop after `ls`, then once the exit is over every caller
   * that waited is told that the server crashed, under error 100001, and nobody else is
   * told anything new.
   */
  lemma CrashIsReported(dump: Dump, ls: seq<Label>, more: seq<Label>, c: nat)
    requires Run(dump, ls).Some? && Run(dump, ls).value.pc.Cleaning?
    requires Run(dump, ls + more + [CleanEnd]).Some? && CleanEnd !in more
    ensures ResultOf(Run(dump, ls + more + [CleanEnd]).value.completions, c) ==
            if exists id :: id in Run(dump, ls).value.pending && Run(dump, ls).value.pending[id] == c
            then Some(Raised(100001, "ioprocess crashed unexpectedly"))
            else ResultOf(Run(dump, ls).value.completions, c)
  {
    LastStep(dump, ls + more, CleanEnd);
    TellingRun(dump, ls, more);
    var b, t := Run(dump, ls).value, Run(dump, ls + more).value;
    assert !Waits(t.pending, c);
    assert Waits(b.pending, c) <==> exists id :: id in b.pending && b.pending[id] == c;
  }

  /** A value is only ever returned for a response of the server that reports no error. */
  lemma ValueOnlyFromServer(dump: Dump, ls: seq<Label>, i: nat)
    requires Run(dump, ls).Some? && i < |Run(dump, ls).value.completions|
    ensures var x := Run(dump, ls).value.completions[i];
      && ResultOf(Run(dump, ls).value.completions, x.caller) == Some(Delivered(x.source))
      && match x.source
         case FromCleanup => Delivered(x.source) == Raised(100001, "ioprocess crashed unexpectedly")
         case FromServer(resp) =>
           if resp.errcode == 0 then Delivered(x.source) == Got(resp.result)
           else Delivered(x.source) == Raised(resp.errcode, resp.errstr)
  {
    RunIds(dump, ls);
    var cs := Run(dump, ls).value.completions;
    assert TimesSet(cs, cs[i].caller) <= 1;
    OnlyResult(cs, i);
  }

  lemma {:induction false} OnlyResult(cs: seq<Completion>, i: nat)
    requires i < |cs| && TimesSet(cs, cs[i].caller) <= 1
    ensures ResultOf(cs, cs[i].caller) == Some(Delivered(cs[i].source))
  {
    if i < |cs| - 1 {
      SetTwice(cs, i, |cs| - 1);
      OnlyResult(cs[..|cs| - 1], i);
    }
  }

  /** What a caller has been told once stays what it is told, whatever follows. */
  lemma {:induction false} ResultStays(dump: Dump, ls: seq<Label>, more: seq<Label>, c: nat)
    requires Run(dump, ls).Some? && Run(dump, ls + more).Some?
    requires ResultOf(Run(dump, ls).value.completions, c).Some?
    ensures ResultOf(Run(dump, ls + more).value.completions, c) == ResultOf(Run(dump, ls).value.completions, c)
  {
    HistoriesGrow(dump, ls, more);
    RunIds(dump, ls + more);
    var cs, ct := Run(dump, ls).value.completions, Run(dump, ls + more).value.completions;
    assert TimesSet(ct, c) <= 1;
    NoneIfNeverSet(cs, c);
    Longer(cs, ct, c);
  }

  lemma {:induction false} Longer(cs: seq<Completion>, ct: seq<Completion>, c: nat)
    requires cs <= ct && TimesSet(cs, c) >= 1 && TimesSet(ct, c) <= 1
    ensures ResultOf(ct, c) == ResultOf(cs, c) && TimesSet(ct, c) == 1
  {
    if |cs| == |ct| {
      assert cs == ct;
    } else {
      Longer(cs, ct[..|ct| - 1], c);
    }
  }

  /**
   * A response tells the caller whose request has its id, and nobody else: its error if it
   * has one, its result otherwise.
   */
  lemma ResponseIsReported(dump: Dump, ls: seq<Label>, resp: Response, c: nat)
    requires Run(dump, ls + [OnResponse(resp)]).Some? && Run(dump, ls).Some?
    ensures var s, t := Run(dump, ls).value, Run(dump, ls + [OnResponse(resp)]).value;
      && t.pending.Keys == s.pending.Keys - (set id: nat | id in s.pending && id == resp.id)
      && ResultOf(t.completions, c) ==
         if exists id: nat :: id in s.pending && id == resp.id && s.pending[id] == c
         then Some(if resp.errcode == 0 then Got(resp.result) else Raised(resp.errcode, resp.errstr))
         else ResultOf(s.completions, c)
  {
    LastStep(dump, ls, OnResponse(resp));
    RunIds(dump, ls);
    var s := Run(dump, ls).value;
    if resp.id >= 0 && resp.id as nat in s.pending {
      var id := resp.id as nat;
      ResultSnoc(s.completions, Completion(s.pending[id], id, FromServer(resp)), c);
    }
  }

  /** Every pending request is settled after `ls`, and the exit can be left. */
  ghost predicate CleanupOver(dump: Dump, ls: seq<Label>) {
    Run(dump, ls + [CleanEnd]).Some? && Run(dump, ls + [CleanEnd]).value.pending == map[]
  }

  /** An error exit can always be finished. */
  lemma {:induction false} CleanupEnds(dump: Dump, ls: seq<Label>) returns (more: seq<Label>)
    requires Run(dump, ls).Some? && Run(dump, ls).value.pc.Cleaning?
    ensures CleanEnd !in more && CleanupOver(dump, ls + more)
    decreases |Run(dump, ls).value.pending|
  {
    var s := Run(dump, ls).value;
    if s.pending == map[] {
      more := [];
      assert ls + more == ls;
      LastStep(dump, ls, CleanEnd);
    } else {
      var id :| id in s.pending;
      OneCleaned(dump, ls, id);
      var rest := CleanupEnds(dump, ls + [CleanOne(id)]);
      more := [CleanOne(id)] + rest;
      Assoc(ls, [CleanOne(id)], rest);
    }
  }

  /** And the loop starts again exactly if the client was not closed, with nothing left of the run before. */
  lemma RestartIff(dump: Dump, ls: seq<Label>)
    requires Run(dump, ls).Some? && Run(dump, ls).value.pc.Ended?
    ensures Run(dump, ls + [Restart]).Some? <==> Run(dump, ls).value.isRunning
    ensures Run(dump, ls + [Restart]).Some? ==>
              var s, t := Run(dump, ls).value, Run(dump, ls + [Restart]).value;
              && t.pc.Polling? && t.sender.None? && !t.pollOut && t.pending == map[] && t.frames == [] && t.wire == []
              && t.queue == s.queue && t.eventBytes == s.eventBytes && t.reqId == s.reqId && t.firstId == s.reqId + 1
  {
    LastStep(dump, ls, Restart);
  }

  lemma OneCleaned(dump: Dump, ls: seq<Label>, id: nat)
    requires Run(dump, ls).Some? && Run(dump, ls).value.pc.Cleaning? && id in Run(dump, ls).value.pending
    ensures Run(dump, ls + [CleanOne(id)]).Some? && Run(dump, ls + [CleanOne(id)]).value.pc.Cleaning?
    ensures |Run(dump, ls + [CleanOne(id)]).value.pending| < |Run(dump, ls).value.pending|
  {
    LastStep(dump, ls, CleanOne(id));
    OneLess(Run(dump, ls).value.pending, id);
  }

  lemma OneLess(pending: map<nat, nat>, id: nat)
    requires id in pending
    ensures |pending - {id}| < |pending|
  {
    assert (pending - {id}).Keys == pending.Keys - {id};
  }

  // ------------------------------------------------------------------- wakeups

  function Count(p: Label -> bool, ls: seq<Label>): nat {
    if ls == [] then 0 else Count(p, ls[..|ls| - 1]) + if p(ls[|ls| - 1]) then 1 else 0
  }

  /** Steps that write a byte to the event pipe: a caller's ping, that of a close, the loop's own. */
  predicate Pings(l: Label) {
    l.Ping? || l.ClosePing? || l.LoopPing?
  }

  predicate ReadsByte(l: Label) {
    l.OnEvent?
  }

  /** Every ping is one byte and every event reads one: those in the pipe are the pings not yet read. */
  lemma {:induction false} PingsConserved(dump: Dump, ls: seq<Label>)
    requires Run(dump, ls).Some?
    ensures Run(dump, ls).value.eventBytes + Count(ReadsByte, ls) == Count(Pings, ls)
  {
    if ls != [] {
      PingsConserved(dump, ls[..|ls| - 1]);
      PingStep(dump, Run(dump, ls[..|ls| - 1]).value, ls[|ls| - 1]);
    }
  }

  lemma PingStep(dump: Dump, s: State, l: Label)
    requires Enabled(s, l)
    ensures Apply(dump, s, l).eventBytes + (if ReadsByte(l) then 1 else 0)
            == s.eventBytes + if Pings(l) then 1 else 0
  {
  }
}
