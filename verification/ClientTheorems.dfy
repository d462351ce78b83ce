/** What the client promises over whole runs, in every interleaving. */
module ClientTheorems {
  import opened JsonValues
  import opened Framing
  import opened ClientLoop

  // ------------------------------------------------------- identifiers, results

  /**
   * Callers are numbered in the order of their `put`, so request id i belongs to
   * caller i - 1 and the callers not yet given an id wait in the queue in order.
   */
  ghost predicate IdInv(s: State) {
    && s.reqId + |s.queue| == |s.calls|
    && (forall i :: 0 <= i < |s.queue| ==> s.queue[i] == s.reqId + i)
    && (forall id :: id in s.pending ==> 1 <= id <= s.reqId && s.pending[id] == id - 1)
  }

  /** How often caller c's result was set. */
  function TimesSet(cs: seq<Completion>, c: nat): nat {
    if cs == [] then 0
    else TimesSet(cs[..|cs| - 1], c) + if cs[|cs| - 1].caller == c then 1 else 0
  }

  /** A caller with an id is either pending or has its result set once; others never. */
  ghost predicate ResultInv(s: State) {
    && (forall c: nat :: TimesSet(s.completions, c) == if c < s.reqId && c + 1 !in s.pending then 1 else 0)
    && (forall i :: 0 <= i < |s.completions| ==> s.completions[i].id == s.completions[i].caller + 1)
    && (s.pc.Ended? && s.isRunning ==> s.pending == map[])
  }

  lemma IdStep(dump: Dump, s: State, l: Label)
    requires IdInv(s) && Enabled(s, l)
    ensures IdInv(Apply(dump, s, l))
  {
    if l.Fetch? {
      IdFetch(dump, s);
    } else if l.Put? {
      assert Apply(dump, s, l).queue == s.queue + [|s.calls|];
    } else {
      IdSame(dump, s, l);
    }
  }

  lemma IdSame(dump: Dump, s: State, l: Label)
    requires Enabled(s, l) && !l.Fetch? && !l.Put?
    ensures var t := Apply(dump, s, l);
      && t.reqId == s.reqId && t.queue == s.queue && t.calls == s.calls
      && forall id :: id in t.pending ==> id in s.pending && t.pending[id] == s.pending[id]
  {
  }

  /** A command fetched gets the next id, whether or not its arguments can be dumped. */
  lemma FetchTakes(dump: Dump, s: State)
    requires Enabled(s, Fetch) && s.queue != []
    ensures var t, id := Apply(dump, s, Fetch), s.reqId + 1;
      && t.queue == s.queue[1..] && t.reqId == id && t.calls == s.calls && t.firstId == s.firstId
      && t.pending == s.pending[id := s.queue[0]] && t.completions == s.completions && t.wire == s.wire
      && (match dump(id, s.calls[s.queue[0]])
          case None => t.frames == s.frames && t.sender == s.sender && t.pc == Cleaning
          case Some(m) => t.frames == s.frames + [m] && t.sender == Some(Frame(m)) && t.pc.Dispatch?)
  {
  }

  lemma IdFetch(dump: Dump, s: State)
    requires IdInv(s) && Enabled(s, Fetch)
    ensures IdInv(Apply(dump, s, Fetch))
  {
    if s.queue != [] {
      FetchTakes(dump, s);
    }
  }

  lemma TimesSnoc(cs: seq<Completion>, x: Completion, c: nat)
    ensures TimesSet(cs + [x], c) == TimesSet(cs, c) + if x.caller == c then 1 else 0
  {
    assert (cs + [x])[..|cs + [x]| - 1] == cs;
  }

  lemma SettleResult(s: State, id: nat, source: Source)
    requires IdInv(s) && ResultInv(s) && id in s.pending && !s.pc.Ended?
    ensures ResultInv(Settle(s, id, source))
  {
    var t := Settle(s, id, source);
    forall c: nat
      ensures TimesSet(t.completions, c) == if c < t.reqId && c + 1 !in t.pending then 1 else 0
    {
      TimesSnoc(s.completions, Completion(s.pending[id], id, source), c);
    }
  }

  lemma ResultStep(dump: Dump, s: State, l: Label)
    requires IdInv(s) && ResultInv(s) && Enabled(s, l)
    ensures ResultInv(Apply(dump, s, l))
  {
    match l
    case OnResponse(resp) =>
      var t := s.(pc := Dispatch(s.pc.rest[1..]));
      if resp.id >= 0 && resp.id as nat in t.pending {
        SettleResult(t, resp.id as nat, FromServer(resp));
      }
    case CleanOne(id) => SettleResult(s, id, FromCleanup);
    case Fetch => FetchResult(dump, s);
    case _ =>
  }

  lemma FetchResult(dump: Dump, s: State)
    requires IdInv(s) && ResultInv(s) && Enabled(s, Fetch)
    ensures ResultInv(Apply(dump, s, Fetch))
  {
    if s.queue != [] {
      FetchTakes(dump, s);
    }
  }

  // ------------------------------------------------------------ sender coherence

  /** The events still to be looked at. */
  function Rest(pc: Pc): seq<Fd> {
    match pc
    case Polled(rest) => rest
    case Dispatch(rest) => rest
    case Fetching(rest) => rest
    case Pinging(rest) => rest
    case _ => []
  }

  predicate InLoop(pc: Pc) {
    !pc.Cleaning? && !pc.Ended?
  }

  ghost predicate SenderInv(s: State) {
    var rest := Rest(s.pc);
    && (InLoop(s.pc) ==> (s.pollOut <==> s.sender.Some?))
    && Distinct(rest)
    && (WritePipe in rest ==> s.sender.Some? && !s.pc.Fetching?)
    && (EventPipe in rest ==> s.eventBytes > 0)
    && (s.pc.Fetching? ==> s.sender.None?)
    && (s.pc.Pinging? ==> s.sender.None?)
  }

  lemma RestTail(rest: seq<Fd>)
    requires Distinct(rest) && rest != []
    ensures Distinct(rest[1..]) && rest[0] !in rest[1..]
    ensures forall fd :: fd in rest[1..] ==> fd in rest
  {
  }

  lemma SenderStep(dump: Dump, s: State, l: Label)
    requires SenderInv(s) && Enabled(s, l)
    ensures SenderInv(Apply(dump, s, l))
  {
    if l.OnErr? || l.OnPartial? || l.OnResponse? || l.OnEvent? || l.OnWrite? {
      SenderEvent(dump, s, l);
    } else if l.Poll? {
      assert WritePipe in l.batch ==> s.pollOut;
    } else if l.Fetch? {
      SenderFetch(dump, s);
    }
  }

  /** Looking at an event drops it from the batch. */
  lemma SenderEvent(dump: Dump, s: State, l: Label)
    requires SenderInv(s) && Enabled(s, l)
    requires l.OnErr? || l.OnPartial? || l.OnResponse? || l.OnEvent? || l.OnWrite?
    ensures SenderInv(Apply(dump, s, l))
  {
    RestTail(s.pc.rest);
  }

  lemma SenderFetch(dump: Dump, s: State)
    requires SenderInv(s) && Enabled(s, Fetch)
    ensures SenderInv(Apply(dump, s, Fetch))
  {
  }

  /** What a sender, if any, still has to write. */
  function Unsent(s: State): seq<Byte> {
    if s.sender.Some? then s.sender.value else []
  }

  /** The request pipe carries whole frames in order, and at most one unfinished one. */
  ghost predicate WholeFrames(wire: seq<Byte>, unsent: seq<Byte>, frames: seq<Message>) {
    && wire + unsent == Stream(frames)
    && (unsent != [] ==> frames != [] && |unsent| <= HEADER + |frames[|frames| - 1]|)
  }

  ghost predicate WireInv(s: State) {
    WholeFrames(s.wire, Unsent(s), s.frames)
  }

  /** The frames are the requests of this run, one for each id it gave out. */
  ghost predicate FramesInv(dump: Dump, s: State) {
    && 1 <= s.firstId && s.firstId + |s.frames| <= s.reqId + 1
    && (InLoop(s.pc) ==> s.firstId + |s.frames| == s.reqId + 1)
    && (forall i :: 0 <= i < |s.frames| ==>
          s.firstId + i - 1 < |s.calls| && dump(s.firstId + i, s.calls[s.firstId + i - 1]) == Some(s.frames[i]))
  }

  lemma WholeAgain(wire: seq<Byte>, frames: seq<Message>, m: Message)
    requires WholeFrames(wire, [], frames)
    ensures WholeFrames(wire, Frame(m), frames + [m])
  {
    StreamSnoc(frames, m);
    assert wire + [] == wire;
  }

  lemma WireFetch(dump: Dump, s: State)
    requires WireInv(s) && s.sender.None? && Enabled(s, Fetch)
    ensures WireInv(Apply(dump, s, Fetch))
  {
    if s.queue != [] {
      var r := dump(s.reqId + 1, s.calls[s.queue[0]]);
      if r.Some? {
        FetchTakes(dump, s);
        WholeAgain(s.wire, s.frames, r.value);
      }
    }
  }

  lemma WireWrite(dump: Dump, s: State, k: nat)
    requires WireInv(s) && Enabled(s, OnWrite(k))
    ensures WireInv(Apply(dump, s, OnWrite(k)))
  {
    FlowSplit(s.wire, s.sender.value, k);
  }

  lemma WireSame(dump: Dump, s: State, l: Label)
    requires Enabled(s, l) && !l.Fetch? && !l.OnWrite? && !l.Restart?
    ensures var t := Apply(dump, s, l);
      t.wire == s.wire && t.frames == s.frames && t.sender == s.sender
  {
  }

  lemma WireStep(dump: Dump, s: State, l: Label)
    requires WireInv(s) && Enabled(s, l) && (s.pc.Fetching? ==> s.sender.None?)
    ensures WireInv(Apply(dump, s, l))
  {
    if l.Fetch? {
      WireFetch(dump, s);
    } else if l.OnWrite? {
      WireWrite(dump, s, l.k);
    } else if l.Restart? {
      assert Stream([]) == [];
    } else {
      WireSame(dump, s, l);
    }
  }

  lemma FramesStep(dump: Dump, s: State, l: Label)
    requires IdInv(s) && FramesInv(dump, s) && Enabled(s, l)
    ensures FramesInv(dump, Apply(dump, s, l))
  {
    if l.Fetch? {
      FramesFetch(dump, s);
    }
  }

  lemma OneMoreFrame(dump: Dump, s: State, t: State, m: Message)
    requires FramesInv(dump, s) && InLoop(s.pc) && s.reqId < |s.calls|
    requires dump(s.reqId + 1, s.calls[s.reqId]) == Some(m)
    requires t.frames == s.frames + [m] && t.calls == s.calls && t.firstId == s.firstId && t.reqId == s.reqId + 1
    ensures FramesInv(dump, t)
  {
  }

  lemma FramesFetch(dump: Dump, s: State)
    requires IdInv(s) && FramesInv(dump, s) && Enabled(s, Fetch)
    ensures FramesInv(dump, Apply(dump, s, Fetch))
  {
    if s.queue != [] {
      assert s.queue[0] == s.reqId;
      FetchTakes(dump, s);
      if dump(s.reqId + 1, s.calls[s.reqId]).Some? {
        OneMoreFrame(dump, s, Apply(dump, s, Fetch), dump(s.reqId + 1, s.calls[s.reqId]).value);
      }
    }
  }

  ghost predicate Inv(dump: Dump, s: State) {
    IdInv(s) && ResultInv(s) && SenderInv(s) && WireInv(s) && FramesInv(dump, s)
  }

  lemma InvStep(dump: Dump, s: State, l: Label)
    requires Inv(dump, s) && Enabled(s, l)
    ensures Inv(dump, Apply(dump, s, l))
  {
    IdStep(dump, s, l);
    ResultStep(dump, s, l);
    SenderStep(dump, s, l);
    WireStep(dump, s, l);
    FramesStep(dump, s, l);
  }

  lemma {:induction false} RunInv(dump: Dump, ls: seq<Label>)
    requires Run(dump, ls).Some?
    ensures Inv(dump, Run(dump, ls).value)
  {
    if ls != [] {
      RunInv(dump, ls[..|ls| - 1]);
      InvStep(dump, Run(dump, ls[..|ls| - 1]).value, ls[|ls| - 1]);
    }
  }

  // --------------------------------------------------------------- main results

  /**
   * `writePipe` is polled for output exactly while a sender is active, so no event of
   * any poll result finds the sender missing, nor the event pipe empty.
   */
  lemma SenderCoherence(dump: Dump, ls: seq<Label>)
    requires Run(dump, ls).Some?
    ensures var s := Run(dump, ls).value;
      && (InLoop(s.pc) ==> (s.pollOut <==> s.sender.Some?))
      && (At(s, WritePipe) ==> s.sender.Some?)
      && (At(s, EventPipe) ==> s.eventBytes > 0)
  {
    RunInv(dump, ls);
  }

  /**
   * Frames never interleave: the request pipe carries whole frames in id order,
   * followed by part of at most one more, the sender's.
   */
  lemma FramesInOrder(dump: Dump, ls: seq<Label>)
    requires Run(dump, ls).Some?
    ensures var s := Run(dump, ls).value;
      && s.wire + Unsent(s) == Stream(s.frames)
      && IsStream(s.wire + Unsent(s), s.frames)
      && Complete(s.wire) <= s.frames
      && |Complete(s.wire)| >= |s.frames| - 1
      && (s.sender.None? ==> Complete(s.wire) == s.frames)
      && (forall i :: 0 <= i < |s.frames| ==> FrameOfCall(dump, s, i))
  {
    RunInv(dump, ls);
    WireDecodes(Run(dump, ls).value);
    StreamLayout(Run(dump, ls).value.frames);
  }

  /** Frame i of this run is the dumped call that was given the run's i-th id. */
  ghost predicate FrameOfCall(dump: Dump, s: State, i: nat)
    requires i < |s.frames|
  {
    && 0 <= s.firstId + i - 1 < |s.calls|
    && dump(s.firstId + i, s.calls[s.firstId + i - 1]) == Some(s.frames[i])
  }

  lemma WireDecodes(s: State)
    requires WireInv(s)
    ensures Complete(s.wire) <= s.frames
    ensures |Complete(s.wire)| >= |s.frames| - 1
    ensures Unsent(s) == [] ==> Complete(s.wire) == s.frames
  {
    CutStream(s.frames, s.wire, Unsent(s));
  }

  lemma RunIds(dump: Dump, ls: seq<Label>)
    requires Run(dump, ls).Some?
    ensures IdInv(Run(dump, ls).value) && ResultInv(Run(dump, ls).value)
  {
    RunInv(dump, ls);
  }

  /** The last step of a run, taken apart from the rest. */
  lemma LastStep(dump: Dump, ls: seq<Label>, l: Label)
    ensures Run(dump, ls + [l]) ==
            if Run(dump, ls).Some? && Enabled(Run(dump, ls).value, l)
            then Some(Apply(dump, Run(dump, ls).value, l)) else None
  {
    assert (ls + [l])[..|ls|] == ls;
  }

  /** No result is ever set twice, and none is set for a caller without an id. */
  lemma SetAtMostOnce(dump: Dump, ls: seq<Label>, c: nat)
    requires Run(dump, ls).Some?
    ensures var s := Run(dump, ls).value;
      TimesSet(s.completions, c) <= if c < s.reqId then 1 else 0
  {
    RunInv(dump, ls);
  }

  /** Every caller with an id has its result set, once; the others wait in order. */
  ghost predicate AllSettled(s: State) {
    && (forall c: nat :: TimesSet(s.completions, c) == if c < s.reqId then 1 else 0)
    && s.reqId + |s.queue| == |s.calls|
    && (forall i :: 0 <= i < |s.queue| ==> s.queue[i] == s.reqId + i)
  }

  /**
   * When an error exit of the loop is over, whether or not the client was closed
   * meanwhile, every request that ever got an id has its result set exactly once and
   * the commands without one wait in the queue in order.  Whatever follows, restart
   * or close, this stays so until another command is fetched.
   */
  lemma CrashCompletion(dump: Dump, ls: seq<Label>, more: seq<Label>)
    requires Run(dump, ls + [CleanEnd] + more).Some?
    requires Fetch !in more
    ensures AllSettled(Run(dump, ls + [CleanEnd] + more).value)
  {
    NothingPending(dump, ls, more);
    RunIds(dump, ls + [CleanEnd] + more);
    Settled(Run(dump, ls + [CleanEnd] + more).value);
  }

  /** In particular nobody is left waiting when the loop is about to restart. */
  lemma SettledBeforeRestart(dump: Dump, ls: seq<Label>)
    requires Run(dump, ls + [Restart]).Some?
    ensures AllSettled(Run(dump, ls).value)
  {
    LastStep(dump, ls, Restart);
    RunIds(dump, ls);
    Settled(Run(dump, ls).value);
  }

  lemma Settled(s: State)
    requires IdInv(s) && ResultInv(s) && s.pending == map[]
    ensures AllSettled(s)
  {
  }

  lemma {:induction false} NothingPending(dump: Dump, ls: seq<Label>, more: seq<Label>)
    requires Run(dump, ls + [CleanEnd] + more).Some? && Fetch !in more
    ensures Run(dump, ls + [CleanEnd] + more).value.pending == map[]
  {
    if more == [] {
      assert ls + [CleanEnd] + more == ls + [CleanEnd];
      LastStep(dump, ls, CleanEnd);
    } else {
      var m, l := more[..|more| - 1], more[|more| - 1];
      assert ls + [CleanEnd] + more == (ls + [CleanEnd] + m) + [l];
      assert l in more;
      LastStep(dump, ls + [CleanEnd] + m, l);
      NothingPending(dump, ls, m);
      OnlyFetchAdds(dump, Run(dump, ls + [CleanEnd] + m).value, l);
    }
  }

  lemma OnlyFetchAdds(dump: Dump, s: State, l: Label)
    requires Enabled(s, l) && !l.Fetch? && s.pending == map[]
    ensures Apply(dump, s, l).pending == map[]
  {
  }

  /**
   * Step k of the run is a Fetch that registers its caller as pending under `id`.
   * This speaks of the pending map alone, not of the counter.
   */
  ghost predicate GivesId(dump: Dump, ls: seq<Label>, k: nat, id: nat) {
    && k < |ls| && ls[k].Fetch? && Run(dump, ls[..k]).Some? && Run(dump, ls[..k + 1]).Some?
    && var s, t := Run(dump, ls[..k]).value, Run(dump, ls[..k + 1]).value;
      s.queue != [] && t.pending == s.pending[id := s.queue[0]]
  }

  /** Every Fetch of a command gives exactly one id. */
  lemma IdGiven(dump: Dump, ls: seq<Label>, k: nat, id: nat)
    requires k < |ls| && ls[k].Fetch? && Run(dump, ls[..k + 1]).Some?
    requires Run(dump, ls[..k]).Some? && Run(dump, ls[..k]).value.queue != []
    ensures GivesId(dump, ls, k, id) <==> id == Run(dump, ls[..k]).value.reqId + 1
    ensures Run(dump, ls[..k + 1]).value.reqId == Run(dump, ls[..k]).value.reqId + 1
  {
    var s := Run(dump, ls[..k]).value;
    RunIds(dump, ls[..k]);
    assert ls[..k + 1] == ls[..k] + [Fetch];
    LastStep(dump, ls[..k], Fetch);
    FetchGives(dump, s, id);
  }

  lemma FetchGives(dump: Dump, s: State, id: nat)
    requires IdInv(s) && Enabled(s, Fetch) && s.queue != []
    ensures Apply(dump, s, Fetch).pending == s.pending[id := s.queue[0]] <==> id == s.reqId + 1
    ensures Apply(dump, s, Fetch).reqId == s.reqId + 1
  {
    NewCaller(s);
    FetchTakes(dump, s);
    OnlyKey(s.pending, s.reqId + 1, s.queue[0], id);
  }

  lemma NewCaller(s: State)
    requires IdInv(s) && s.queue != []
    ensures forall id :: id in s.pending ==> s.pending[id] != s.queue[0]
  {
  }

  lemma OnlyKey(m: map<nat, nat>, k: nat, v: nat, id: nat)
    requires forall x :: x in m ==> m[x] != v
    ensures m[k := v] == m[id := v] <==> k == id
  {
    assert k in m[k := v] && m[k := v][k] == v;
    assert k != id && k in m[id := v] ==> m[id := v][k] != v;
  }

  /** Of two requests of a run, whatever crashes lie between them, the later has the greater id. */
  lemma IdsNeverReused(dump: Dump, ls: seq<Label>, i: nat, j: nat, id1: nat, id2: nat)
    requires i < j && GivesId(dump, ls, i, id1) && GivesId(dump, ls, j, id2)
    ensures id1 < id2
  {
    IdGiven(dump, ls, i, id1);
    IdGiven(dump, ls, j, id2);
    GrowsBetween(dump, ls, i + 1, j);
  }

  lemma GrowsBetween(dump: Dump, ls: seq<Label>, i: nat, j: nat)
    requires i <= j <= |ls| && Run(dump, ls[..i]).Some? && Run(dump, ls[..j]).Some?
    ensures Run(dump, ls[..i]).value.reqId <= Run(dump, ls[..j]).value.reqId
  {
    assert ls[..j] == ls[..i] + ls[i..j];
    HistoriesGrow(dump, ls[..i], ls[i..j]);
  }

  /** And no id is completed twice. */
  lemma CompletedIdsDistinct(dump: Dump, ls: seq<Label>, i: nat, j: nat)
    requires Run(dump, ls).Some? && i < j < |Run(dump, ls).value.completions|
    ensures Run(dump, ls).value.completions[i].id != Run(dump, ls).value.completions[j].id
  {
    RunIds(dump, ls);
    var cs := Run(dump, ls).value.completions;
    SetTwice(cs, i, j);
    assert TimesSet(cs, cs[i].caller) <= 1;
  }

  lemma {:induction false} SetOnce(cs: seq<Completion>, i: nat)
    requires i < |cs|
    ensures TimesSet(cs, cs[i].caller) >= 1
  {
    if i < |cs| - 1 {
      SetOnce(cs[..|cs| - 1], i);
    }
  }

  lemma {:induction false} SetTwice(cs: seq<Completion>, i: nat, j: nat)
    requires i < j < |cs|
    ensures cs[i].caller == cs[j].caller ==> TimesSet(cs, cs[i].caller) >= 2
  {
    if j < |cs| - 1 {
      SetTwice(cs[..|cs| - 1], i, j);
    } else {
      SetOnce(cs[..|cs| - 1], i);
    }
  }

  /** The id counter, the calls and the completions only grow, across restarts too. */
  lemma {:induction false} HistoriesGrow(dump: Dump, ls: seq<Label>, more: seq<Label>)
    requires Run(dump, ls).Some? && Run(dump, ls + more).Some?
    ensures Run(dump, ls).value.reqId <= Run(dump, ls + more).value.reqId
    ensures Run(dump, ls).value.calls <= Run(dump, ls + more).value.calls
    ensures Run(dump, ls).value.completions <= Run(dump, ls + more).value.completions
  {
    if more == [] {
      assert ls + more == ls;
    } else {
      var m, l := more[..|more| - 1], more[|more| - 1];
      assert ls + more == (ls + m) + [l];
      LastStep(dump, ls + m, l);
      HistoriesGrow(dump, ls, m);
      Grows(dump, Run(dump, ls + m).value, l);
      GrowsOn(Run(dump, ls).value, Run(dump, ls + m).value, Run(dump, ls + more).value);
    }
  }

  lemma GrowsOn(s: State, t: State, u: State)
    requires s.calls <= t.calls <= u.calls && s.completions <= t.completions <= u.completions
    ensures s.calls <= u.calls && s.completions <= u.completions
  {
  }

  lemma Grows(dump: Dump, s: State, l: Label)
    requires Enabled(s, l)
    ensures s.reqId <= Apply(dump, s, l).reqId
    ensures s.calls <= Apply(dump, s, l).calls
    ensures s.completions <= Apply(dump, s, l).completions
  {
  }

  /**
   * A shutdown through the `_isRunning` check leaves the loop for good: the requests
   * still pending then never get a result.
   */
  lemma {:induction false} ShutdownAbandonsPending(dump: Dump, ls: seq<Label>, more: seq<Label>)
    requires Run(dump, ls).Some? && Run(dump, ls + more).Some?
    requires var s := Run(dump, ls).value; s.pc.Ended? && !s.isRunning
    ensures var s, t := Run(dump, ls).value, Run(dump, ls + more).value;
      && t.completions == s.completions && t.pending == s.pending && t.pc.Ended? && !t.isRunning
    ensures forall c: nat :: c + 1 in Run(dump, ls).value.pending ==>
      TimesSet(Run(dump, ls + more).value.completions, c) == 0
  {
    if more == [] {
      assert ls + more == ls;
    } else {
      var m := more[..|more| - 1];
      assert (ls + more)[..|ls + more| - 1] == ls + m;
      ShutdownAbandonsPending(dump, ls, m);
    }
    RunResults(dump, ls + more);
  }

  lemma RunResults(dump: Dump, ls: seq<Label>)
    requires Run(dump, ls).Some?
    ensures var s := Run(dump, ls).value;
      forall c: nat :: c + 1 in s.pending ==> TimesSet(s.completions, c) == 0
  {
    RunInv(dump, ls);
  }

  /** Every caller with an id has its result set, once. */
  ghost predicate EachSetOnce(s: State) {
    forall c: nat :: c < s.reqId ==> TimesSet(s.completions, c) == 1
  }

  /**
   * Exactly when a shutdown leaves nobody waiting: if the loop finds `_isRunning`
   * cleared, every caller with an id has its result set, then and in every
   * continuation, if and only if no request is pending at that check.
   */
  lemma ShutdownSettlesIff(dump: Dump, ls: seq<Label>)
    requires Run(dump, ls + [Check]).Some? && !Run(dump, ls).value.isRunning
    ensures (forall more :: Run(dump, ls + [Check] + more).Some? ==> EachSetOnce(Run(dump, ls + [Check] + more).value))
            <==> Run(dump, ls).value.pending == map[]
  {
    LastStep(dump, ls, Check);
    var s := Run(dump, ls).value;
    if s.pending == map[] {
      forall more | Run(dump, ls + [Check] + more).Some? ensures EachSetOnce(Run(dump, ls + [Check] + more).value) {
        ShutdownAbandonsPending(dump, ls + [Check], more);
        RunIds(dump, ls + [Check] + more);
      }
    } else {
      var id :| id in s.pending;
      RunIds(dump, ls);
      assert ls + [Check] + [] == ls + [Check];
      assert TimesSet(s.completions, id - 1) == 0;
      assert !EachSetOnce(Run(dump, ls + [Check] + []).value);
    }
  }

  /**
   * And exactly when it leaves no caller at all waiting, the ones still queued
   * included: if and only if nothing is pending and nothing is queued at that check.
   */
  lemma ShutdownServesAllIff(dump: Dump, ls: seq<Label>, more: seq<Label>)
    requires Run(dump, ls + [Check]).Some? && !Run(dump, ls).value.isRunning
    requires Run(dump, ls + [Check] + more).Some?
    ensures (forall c: nat :: c < |Run(dump, ls).value.calls| ==>
               TimesSet(Run(dump, ls + [Check] + more).value.completions, c) == 1)
            <==> Run(dump, ls).value.pending == map[] && Run(dump, ls).value.queue == []
  {
    LastStep(dump, ls, Check);
    ShutdownAbandonsPending(dump, ls + [Check], more);
    RunIds(dump, ls);
    var s := Run(dump, ls).value;
    assert Run(dump, ls + [Check] + more).value.completions == s.completions;
    ServedIff(s);
  }

  lemma ServedIff(s: State)
    requires IdInv(s) && ResultInv(s)
    ensures (forall c: nat :: c < |s.calls| ==> TimesSet(s.completions, c) == 1)
            <==> s.pending == map[] && s.queue == []
  {
    if s.pending != map[] {
      var id :| id in s.pending;
      assert TimesSet(s.completions, id - 1) == 0;
    } else if s.queue != [] {
      assert TimesSet(s.completions, s.reqId) == 0;
    }
  }

  // --------------------------------------------------------------------- wakeups

  /** Something will make the loop look at the queue again. */
  predicate WakeupDue(s: State) {
    s.eventBytes > 0 || s.sender.Some? || s.pc.Fetching? || s.pc.Pinging? || s.putters != {}
  }

  predicate NoLostWakeup(s: State) {
    s.queue == [] || WakeupDue(s)
  }

  predicate LeavesLoop(l: Label) {
    l.Raise? || l.CleanOne? || l.CleanEnd? || l.Restart? || l.PingFails?
  }

  lemma WakeupStep(dump: Dump, s: State, l: Label)
    requires Enabled(s, l) && InLoop(s.pc) && s.isRunning && NoLostWakeup(s) && !LeavesLoop(l)
    ensures var t := Apply(dump, s, l); InLoop(t.pc) ==> NoLostWakeup(t)
  {
  }

  /** The steps `ls` from state s. */
  function From(dump: Dump, s: State, ls: seq<Label>): Option<State> {
    if ls == [] then Some(s)
    else
      match From(dump, s, ls[..|ls| - 1])
      case None => None
      case Some(t) => if Enabled(t, ls[|ls| - 1]) then Some(Apply(dump, t, ls[|ls| - 1])) else None
  }

  lemma {:induction false} RunFrom(dump: Dump, a: seq<Label>, b: seq<Label>)
    requires Run(dump, a).Some?
    ensures Run(dump, a + b) == From(dump, Run(dump, a).value, b)
  {
    if b == [] {
      assert a + b == a;
    } else {
      assert (a + b)[..|a + b| - 1] == a + b[..|b| - 1];
      RunFrom(dump, a, b[..|b| - 1]);
    }
  }

  /** `t` is reached from `s` inside one run of the loop, before any close or error. */
  ghost predicate SameRun(dump: Dump, s: State, ls: seq<Label>) {
    forall k :: 0 <= k <= |ls| ==>
      From(dump, s, ls[..k]).Some? && InLoop(From(dump, s, ls[..k]).value.pc) && From(dump, s, ls[..k]).value.isRunning
  }

  /** Within one run of the loop no wakeup is lost if none was lost at its start. */
  lemma {:induction false} NoLostWakeupWithinRun(dump: Dump, s: State, ls: seq<Label>)
    requires NoLostWakeup(s) && SameRun(dump, s, ls)
    ensures From(dump, s, ls).Some? && NoLostWakeup(From(dump, s, ls).value)
  {
    assert ls[..|ls|] == ls;
    if ls != [] {
      var before := ls[..|ls| - 1];
      forall k | 0 <= k <= |before|
        ensures before[..k] == ls[..k]
      {
      }
      NoLostWakeupWithinRun(dump, s, before);
      var t := From(dump, s, before).value;
      assert !LeavesLoop(ls[|ls| - 1]);
      WakeupStep(dump, t, ls[|ls| - 1]);
    }
  }

  /** What carries a wakeup over a crash: a byte in the event pipe, or a caller yet to ping. */
  predicate WakeupSurvives(s: State) {
    s.queue == [] || s.eventBytes > 0 || s.putters != {}
  }

  predicate CrashLabel(l: Label) {
    !l.Put? && !l.Restart?
  }

  /** Between an error exit and the restart callers may still ping, but nothing reads. */
  lemma {:induction false} WhileDown(dump: Dump, s: State, ls: seq<Label>)
    requires !InLoop(s.pc) && From(dump, s, ls).Some? && From(dump, s, ls).value.isRunning
    requires forall i :: 0 <= i < |ls| ==> CrashLabel(ls[i])
    ensures var t := From(dump, s, ls).value;
      && !InLoop(t.pc) && t.queue == s.queue
      && (WakeupSurvives(t) <==> WakeupSurvives(s))
  {
    if ls != [] {
      DownStep(dump, From(dump, s, ls[..|ls| - 1]).value, ls[|ls| - 1]);
      WhileDown(dump, s, ls[..|ls| - 1]);
    }
  }

  lemma DownStep(dump: Dump, s: State, l: Label)
    requires Enabled(s, l) && CrashLabel(l)
    ensures var t := Apply(dump, s, l);
      && (t.isRunning ==> s.isRunning)
      && (!InLoop(s.pc) && t.isRunning ==>
            !InLoop(t.pc) && t.queue == s.queue && (WakeupSurvives(t) <==> WakeupSurvives(s)))
  {
  }

  /**
   * From an error exit of the loop to the start of its next run, without a new
   * command: the invariant holds after the restart exactly when, at the error, the
   * queue was empty, a byte was in the event pipe or some caller had yet to ping.  An
   * active sender does not carry it over.
   */
  lemma WakeupAcrossCrash(dump: Dump, s: State, ls: seq<Label>)
    requires s.pc.Cleaning? && forall i :: 0 <= i < |ls| ==> CrashLabel(ls[i])
    requires From(dump, s, ls).Some? && Enabled(From(dump, s, ls).value, Restart)
    ensures NoLostWakeup(Apply(dump, From(dump, s, ls).value, Restart)) <==>
            s.queue == [] || s.eventBytes > 0 || s.putters != {}
  {
    WhileDown(dump, s, ls);
  }

  predicate NewCommand(l: Label) {
    l.Put? || l.ClosePing?
  }

  /** A lost wakeup stays lost: without a new command or a close no queued one is ever taken up. */
  lemma {:induction false} LostStaysLost(dump: Dump, s: State, ls: seq<Label>)
    requires !NoLostWakeup(s) && SenderInv(s) && From(dump, s, ls).Some?
    requires forall i :: 0 <= i < |ls| ==> !NewCommand(ls[i])
    ensures var t := From(dump, s, ls).value;
      !NoLostWakeup(t) && SenderInv(t) && t.queue == s.queue && t.reqId == s.reqId
  {
    if ls != [] {
      LostStaysLost(dump, s, ls[..|ls| - 1]);
      SenderStep(dump, From(dump, s, ls[..|ls| - 1]).value, ls[|ls| - 1]);
    }
  }

  /** Caller c's wakeup byte is read; while a sender is active nothing else comes of it. */
  function ReadWakeup(c: nat): seq<Label> {
    [Ping(c), Poll([EventPipe]), Check, OnEvent]
  }

  function CrashedRun(a: Command, b: Command): seq<Label> {
    [Put(a)] + ReadWakeup(0) + [Fetch, EndBatch, Put(b)] + ReadWakeup(1) + [EndBatch]
    + [Raise, CleanOne(1)] + [CleanEnd, Restart]
  }

  lemma {:induction false} Chain(dump: Dump, ls: seq<Label>, ss: seq<State>)
    requires |ss| == |ls| + 1
    requires forall i :: 0 <= i < |ls| ==> Enabled(ss[i], ls[i]) && ss[i + 1] == Apply(dump, ss[i], ls[i])
    ensures From(dump, ss[0], ls) == Some(ss[|ls|])
  {
    if ls != [] {
      Chain(dump, ls[..|ls| - 1], ss[..|ss| - 1]);
    }
  }

  function Sending(calls: seq<Command>, m: Message, putters: set<nat>, queue: seq<nat>): State {
    State(calls, putters, queue, 0, true, 1, Polling, map[1 := 0], Some(Frame(m)), true, [], 1, [m], [])
  }

  /** Reading a wakeup leads to a fetch, or to nothing while a sender is active. */
  lemma WakeupRead(dump: Dump, s: State, c: nat)
    requires s.pc.Polling? && s.isRunning && c in s.putters && s.eventBytes == 0
    ensures From(dump, s, ReadWakeup(c)) ==
            Some(s.(putters := s.putters - {c}, pc := if s.sender.Some? then Dispatch([]) else Fetching([])))
  {
    var s1 := s.(putters := s.putters - {c}, eventBytes := 1);
    var s2 := s1.(pc := Polled([EventPipe]));
    var s3 := s1.(pc := Dispatch([EventPipe]));
    var s4 := s.(putters := s.putters - {c}, pc := if s.sender.Some? then Dispatch([]) else Fetching([]));
    assert Enabled(s1, Poll([EventPipe])) && s2 == Apply(dump, s1, Poll([EventPipe]));
    ByteRead(dump, s3, s4);
    Chain(dump, ReadWakeup(c), [s, s1, s2, s3, s4]);
  }

  lemma ByteRead(dump: Dump, s: State, t: State)
    requires s.pc == Dispatch([EventPipe]) && s.eventBytes == 1
    requires t == s.(eventBytes := 0, pc := if s.sender.Some? then Dispatch([]) else Fetching([]))
    ensures Enabled(s, OnEvent) && Apply(dump, s, OnEvent) == t
  {
    assert [EventPipe][1..] == [];
  }

  lemma FirstWakeup(dump: Dump, a: Command)
    ensures From(dump, Apply(dump, INIT_STATE, Put(a)), ReadWakeup(0)) ==
            Some(State([a], {}, [0], 0, true, 0, Fetching([]), map[], None, false, [], 1, [], []))
  {
    var s := Apply(dump, INIT_STATE, Put(a));
    assert s == State([a], {0}, [0], 0, true, 0, Polling, map[], None, false, [], 1, [], []);
    assert s.putters - {0} == {};
    WakeupRead(dump, s, 0);
  }

  lemma SecondDropped(dump: Dump, a: Command, b: Command, m: Message)
    ensures From(dump, Sending([a, b], m, {1}, [1]), ReadWakeup(1)) ==
            Some(Sending([a, b], m, {}, [1]).(pc := Dispatch([])))
  {
    var s := Sending([a, b], m, {1}, [1]);
    assert s.putters - {1} == {};
    WakeupRead(dump, s, 1);
  }

  lemma FirstTaken(dump: Dump, a: Command, b: Command)
    requires dump(1, a).Some?
    ensures From(dump, State([a], {}, [0], 0, true, 0, Fetching([]), map[], None, false, [], 1, [], []),
                 [Fetch, EndBatch, Put(b)])
            == Some(Sending([a, b], dump(1, a).value, {1}, [1]))
  {
    var s1 := State([a], {}, [0], 0, true, 0, Fetching([]), map[], None, false, [], 1, [], []);
    var s2 := Apply(dump, s1, Fetch);
    var s3 := Apply(dump, s2, EndBatch);
    var s4 := Apply(dump, s3, Put(b));
    var m := dump(1, a).value;
    assert s2 == State([a], {}, [], 0, true, 1, Dispatch([]), map[1 := 0], Some(Frame(m)), true, [], 1, [m], []);
    assert s3 == Sending([a], m, {}, []);
    assert s4 == Sending([a, b], m, {1}, [1]);
    Chain(dump, [Fetch, EndBatch, Put(b)], [s1, s2, s3, s4]);
  }

  function CleanedUp(calls: seq<Command>, m: Message): State {
    State(calls, {}, [1], 0, true, 1, Cleaning, map[], Some(Frame(m)), true,
          [Completion(0, 1, FromCleanup)], 1, [m], [])
  }

  lemma FirstCleaned(dump: Dump, a: Command, b: Command, m: Message)
    ensures From(dump, Sending([a, b], m, {}, [1]), [Raise, CleanOne(1)]) == Some(CleanedUp([a, b], m))
  {
    var s1 := Sending([a, b], m, {}, [1]);
    var s2 := Apply(dump, s1, Raise);
    var s3 := Apply(dump, s2, CleanOne(1));
    assert s3.pending == map[];
    assert s3 == CleanedUp([a, b], m);
    Chain(dump, [Raise, CleanOne(1)], [s1, s2, s3]);
  }

  lemma Restarted(dump: Dump, calls: seq<Command>, m: Message)
    ensures From(dump, CleanedUp(calls, m), [CleanEnd, Restart]).Some?
    ensures var s := From(dump, CleanedUp(calls, m), [CleanEnd, Restart]).value;
      s.isRunning && s.pc.Polling? && s.queue == [1] && !WakeupDue(s)
  {
    var s1 := CleanedUp(calls, m);
    var s2 := Apply(dump, s1, CleanEnd);
    var s3 := Apply(dump, s2, Restart);
    Chain(dump, [CleanEnd, Restart], [s1, s2, s3]);
  }

  /**
   * The loop is interrupted while it sends a first command, after it dropped the
   * wakeup of a second one: after the restart the second waits in the queue with
   * nothing to wake the loop.
   */
  lemma CrashLosesWakeup(dump: Dump, a: Command, b: Command)
    requires dump(1, a).Some?
    ensures Run(dump, CrashedRun(a, b)).Some?
    ensures var s := Run(dump, CrashedRun(a, b)).value;
      s.isRunning && s.pc.Polling? && s.queue == [1] && !WakeupDue(s)
  {
    var m := dump(1, a).value;
    assert [Put(a)][..0] == [];
    var l1 := [Put(a)];
    var l2 := l1 + ReadWakeup(0);
    var l3 := l2 + [Fetch, EndBatch, Put(b)];
    var l4 := l3 + ReadWakeup(1);
    RunFrom(dump, l1, ReadWakeup(0));
    FirstWakeup(dump, a);
    RunFrom(dump, l2, [Fetch, EndBatch, Put(b)]);
    FirstTaken(dump, a, b);
    RunFrom(dump, l3, ReadWakeup(1));
    SecondDropped(dump, a, b, m);
    RunFrom(dump, l4, [EndBatch]);
    OneStep(dump, Sending([a, b], m, {}, [1]).(pc := Dispatch([])), EndBatch);
    RunFrom(dump, l4 + [EndBatch], [Raise, CleanOne(1)]);
    FirstCleaned(dump, a, b, m);
    RunFrom(dump, l4 + [EndBatch] + [Raise, CleanOne(1)], [CleanEnd, Restart]);
    Restarted(dump, [a, b], m);
  }

  const CLOSE_AND_LEAVE := [Close, Poll([]), Check]

  function ClosedRun(a: Command): seq<Label> {
    [Put(a)] + ReadWakeup(0) + [Fetch, EndBatch] + CLOSE_AND_LEAVE
  }

  /** The client is closed while its first request waits for a response: the caller waits for ever. */
  lemma CloseAbandonsCaller(dump: Dump, a: Command, more: seq<Label>)
    requires dump(1, a).Some?
    ensures Run(dump, ClosedRun(a)).Some?
    ensures Run(dump, ClosedRun(a)).value.pc.Ended? && Run(dump, ClosedRun(a)).value.pending == map[1 := 0]
    ensures Run(dump, ClosedRun(a) + more).Some? ==> TimesSet(Run(dump, ClosedRun(a) + more).value.completions, 0) == 0
  {
    assert [Put(a)][..0] == [];
    RunFrom(dump, [Put(a)], ReadWakeup(0));
    FirstWakeup(dump, a);
    RunFrom(dump, [Put(a)] + ReadWakeup(0), [Fetch, EndBatch]);
    FirstSent(dump, a);
    RunFrom(dump, [Put(a)] + ReadWakeup(0) + [Fetch, EndBatch], CLOSE_AND_LEAVE);
    ClosedWhileSending(dump, Sending([a], dump(1, a).value, {}, []));
    if Run(dump, ClosedRun(a) + more).Some? {
      ShutdownAbandonsPending(dump, ClosedRun(a), more);
    }
  }

  lemma FirstSent(dump: Dump, a: Command)
    requires dump(1, a).Some?
    ensures From(dump, State([a], {}, [0], 0, true, 0, Fetching([]), map[], None, false, [], 1, [], []),
                 [Fetch, EndBatch])
            == Some(Sending([a], dump(1, a).value, {}, []))
  {
    var s1 := State([a], {}, [0], 0, true, 0, Fetching([]), map[], None, false, [], 1, [], []);
    var s2 := Apply(dump, s1, Fetch);
    var m := dump(1, a).value;
    assert s2 == State([a], {}, [], 0, true, 1, Dispatch([]), map[1 := 0], Some(Frame(m)), true, [], 1, [m], []);
    Chain(dump, [Fetch, EndBatch], [s1, s2, Apply(dump, s2, EndBatch)]);
  }

  lemma ClosedWhileSending(dump: Dump, s: State)
    requires s.pc.Polling? && s.isRunning
    ensures From(dump, s, CLOSE_AND_LEAVE) == Some(s.(isRunning := false, pc := Ended))
  {
    var s1 := Apply(dump, s, Close);
    var s2 := Apply(dump, s1, Poll([]));
    Chain(dump, CLOSE_AND_LEAVE, [s, s1, s2, Apply(dump, s2, Check)]);
  }

  lemma OneStep(dump: Dump, s: State, l: Label)
    requires Enabled(s, l)
    ensures From(dump, s, [l]) == Some(Apply(dump, s, l))
  {
    assert [l][..0] == [];
  }
}
