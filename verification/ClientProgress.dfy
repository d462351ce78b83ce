/** What the client's threads can do: who waits for what, and that the loop goes on. */
module ClientProgress {
  import opened JsonValues
  import opened ClientLoop
  import opened ClientTheorems
  import opened Sequences

  lemma StepIff(dump: Dump, ls: seq<Label>, l: Label)
    ensures Run(dump, ls + [l]).Some? <==> Run(dump, ls).Some? && Enabled(Run(dump, ls).value, l)
  {
    LastStep(dump, ls, l);
  }

  // ----------------------------------------------------------------- the loop

  /** A step of the communication thread when nothing fails. */
  predicate LoopStep(l: Label) {
    l.Poll? || l.Check? || l.EndBatch? || l.OnErr? || l.OnPartial? || l.OnResponse? || l.OnEvent? || l.Fetch?
    || l.OnWrite? || l.LoopPing?
  }

  /** Steps still to come until the next poll: each event of the batch is looked at once. */
  function BatchWork(s: State): nat {
    match s.pc
    case Polled(rest) => 2 + 2 * |rest|
    case Dispatch(rest) => 1 + 2 * |rest|
    case Fetching(rest) => 2 + 2 * |rest|
    case Pinging(rest) => 2 + 2 * |rest|
    case _ => 0
  }

  /** A step of the loop for the batch it got. */
  predicate BatchStep(l: Label) {
    LoopStep(l) && !l.Poll?
  }

  /** Every step on a batch brings the next poll nearer, and no other thread's step moves it. */
  lemma BatchDecreases(dump: Dump, s: State, l: Label)
    requires Enabled(s, l) && InLoop(s.pc) && InLoop(Apply(dump, s, l).pc)
    ensures BatchStep(l) ==> BatchWork(Apply(dump, s, l)) < BatchWork(s)
    ensures !LoopStep(l) ==> Apply(dump, s, l).pc == s.pc
  {
  }

  /** The events looked at in the steps `ls`. */
  function Looked(ls: seq<Label>): seq<Fd> {
    if ls == [] then [] else Looked(ls[..|ls| - 1]) + Looks(ls[|ls| - 1])
  }

  function Looks(l: Label): seq<Fd> {
    match l
    case OnErr => [ErrPipe]
    case OnPartial => [ReadPipe]
    case OnResponse(_) => [ReadPipe]
    case OnEvent => [EventPipe]
    case OnWrite(_) => [WritePipe]
    case _ => []
  }

  /** Until the next poll or an error the loop looks at the events of its batch one by one, in order. */
  lemma {:induction false} EventsInOrder(dump: Dump, ls: seq<Label>, batch: seq<Fd>, more: seq<Label>)
    requires Run(dump, ls + [Poll(batch)] + more).Some? && InLoop(Run(dump, ls + [Poll(batch)] + more).value.pc)
    requires forall k :: 0 <= k < |more| ==> !more[k].Poll? && !more[k].Restart?
    ensures batch == Looked(more) + Rest(Run(dump, ls + [Poll(batch)] + more).value.pc)
  {
    var start := ls + [Poll(batch)];
    if more == [] {
      assert start + more == start;
      LastStep(dump, ls, Poll(batch));
    } else {
      var m, l := more[..|more| - 1], more[|more| - 1];
      assert start + more == (start + m) + [l];
      LastStep(dump, start + m, l);
      var s := Run(dump, start + m).value;
      LooksAt(dump, s, l);
      EventsInOrder(dump, ls, batch, m);
      Assoc(Looked(m), Looks(l), Rest(Apply(dump, s, l).pc));
    }
  }

  lemma LooksAt(dump: Dump, s: State, l: Label)
    requires Enabled(s, l) && !l.Poll? && !l.Restart? && InLoop(Apply(dump, s, l).pc)
    ensures InLoop(s.pc) && Rest(s.pc) == Looks(l) + Rest(Apply(dump, s, l).pc)
  {
  }

  lemma RunSender(dump: Dump, ls: seq<Label>)
    requires Run(dump, ls).Some?
    ensures SenderInv(Run(dump, ls).value)
  {
    RunInv(dump, ls);
  }

  /** The error pipe and the event pipe can be read whenever the loop gets to them. */
  lemma SignalsCanBeRead(dump: Dump, ls: seq<Label>)
    requires Run(dump, ls).Some?
    ensures At(Run(dump, ls).value, ErrPipe) ==> Run(dump, ls + [OnErr]).Some?
    ensures At(Run(dump, ls).value, EventPipe) ==> Run(dump, ls + [OnEvent]).Some?
  {
    RunSender(dump, ls);
    StepIff(dump, ls, OnErr);
    StepIff(dump, ls, OnEvent);
  }

  /** Any response may come of a read of the response pipe, or none yet. */
  lemma ResponsesCanBeRead(dump: Dump, ls: seq<Label>, resp: Response)
    requires Run(dump, ls).Some?
    ensures At(Run(dump, ls).value, ReadPipe) <==> Run(dump, ls + [OnResponse(resp)]).Some?
    ensures At(Run(dump, ls).value, ReadPipe) <==> Run(dump, ls + [OnPartial]).Some?
  {
    StepIff(dump, ls, OnPartial);
    StepIff(dump, ls, OnResponse(resp));
  }

  /** A write moves any part of what the sender has left, but not nothing. */
  lemma WritesCanBeShort(dump: Dump, ls: seq<Label>, k: nat)
    requires Run(dump, ls).Some? && At(Run(dump, ls).value, WritePipe)
    ensures var sender := Run(dump, ls).value.sender;
      sender.Some? &&
      (Run(dump, ls + [OnWrite(k)]).Some? <==> k <= |sender.value| && (k == 0 <==> sender.value == []))
  {
    RunSender(dump, ls);
    StepIff(dump, ls, OnWrite(k));
  }

  /** The loop is never stuck: after the poll it has a step until it polls again or the client was closed. */
  lemma LoopNeverStuck(dump: Dump, ls: seq<Label>)
    requires Run(dump, ls).Some? && InLoop(Run(dump, ls).value.pc)
    ensures exists l :: LoopStep(l) && Run(dump, ls + [l]).Some?
  {
    RunInv(dump, ls);
    var l := NextStep(dump, Run(dump, ls).value);
    StepIff(dump, ls, l);
    assert LoopStep(l) && Run(dump, ls + [l]).Some?;
  }

  lemma NextStep(dump: Dump, s: State) returns (l: Label)
    requires Inv(dump, s) && InLoop(s.pc)
    ensures LoopStep(l) && Enabled(s, l)
  {
    match s.pc
    case Polling => l := Poll([]);
    case Polled(_) => l := Check;
    case Fetching(_) => l := Fetch;
    case Pinging(_) => l := LoopPing;
    case Dispatch(rest) =>
      if rest == [] {
        l := EndBatch;
      } else {
        match rest[0]
        case ErrPipe => l := OnErr;
        case ReadPipe => l := OnPartial;
        case EventPipe => l := OnEvent;
        case WritePipe => l := OnWrite(if s.sender.value == [] then 0 else 1);
      }
  }

  /**
   * What a poll can return: any selection of the child's two pipes, the event pipe exactly
   * if there is a byte in it, and the request pipe exactly if a sender is active.
   */
  lemma PollIff(dump: Dump, ls: seq<Label>, batch: seq<Fd>)
    requires Run(dump, ls).Some?
    ensures var s := Run(dump, ls).value;
      Run(dump, ls + [Poll(batch)]).Some? <==>
        && s.pc.Polling? && Distinct(batch)
        && (EventPipe in batch ==> s.eventBytes > 0)
        && (WritePipe in batch ==> s.sender.Some?)
  {
    RunSender(dump, ls);
    StepIff(dump, ls, Poll(batch));
    ReadyIff(Run(dump, ls).value, batch);
  }

  lemma ReadyIff(s: State, batch: seq<Fd>)
    ensures (forall i :: 0 <= i < |batch| ==> Ready(s, batch[i])) <==>
            (EventPipe in batch ==> s.eventBytes > 0) && (WritePipe in batch ==> s.pollOut)
  {
    assert forall fd :: fd in batch <==> exists i :: 0 <= i < |batch| && batch[i] == fd;
    forall i | 0 <= i < |batch| ensures batch[i] in batch {
    }
  }

  // ----------------------------------------------------------------- the callers

  /** The pings of caller c, whether or not the pipe was still open. */
  predicate PingOf(l: Label, c: nat) {
    l == Ping(c) || l == PingFails(c)
  }

  ghost predicate Pinged(ls: seq<Label>, c: nat) {
    exists k :: 0 <= k < |ls| && PingOf(ls[k], c)
  }

  /** A client runs until it is closed, and each caller pings once, after its command is queued. */
  lemma {:induction false} CallersPing(dump: Dump, ls: seq<Label>, c: nat)
    requires Run(dump, ls).Some?
    ensures var s := Run(dump, ls).value;
      && (s.isRunning <==> Close !in ls)
      && (c in s.putters <==> c < |s.calls| && !Pinged(ls, c))
      && (Pinged(ls, c) ==> c < |s.calls|)
  {
    if ls != [] {
      var m, l := ls[..|ls| - 1], ls[|ls| - 1];
      CallersPing(dump, m, c);
      assert ls == m + [l];
      PingedSnoc(m, l, c);
      CallerStep(dump, Run(dump, m).value, l, c);
    }
  }

  /** What callers can do, and when. */
  lemma CallersIff(dump: Dump, ls: seq<Label>, c: nat, cmd: Command)
    requires Run(dump, ls).Some?
    ensures Run(dump, ls + [Put(cmd)]).Some?
    ensures Run(dump, ls + [Ping(c)]).Some? <==> c < |Run(dump, ls).value.calls| && !Pinged(ls, c)
    ensures Run(dump, ls + [PingFails(c)]).Some? <==>
            c < |Run(dump, ls).value.calls| && !Pinged(ls, c) && Close in ls
    ensures Run(dump, ls + [Close]).Some? <==> Close !in ls
    ensures Run(dump, ls + [ClosePing]).Some? <==> Close in ls
  {
    CallersPing(dump, ls, c);
    StepIff(dump, ls, Put(cmd));
    StepIff(dump, ls, Ping(c));
    StepIff(dump, ls, PingFails(c));
    StepIff(dump, ls, Close);
    StepIff(dump, ls, ClosePing);
  }

  lemma PingedSnoc(ls: seq<Label>, l: Label, c: nat)
    ensures Pinged(ls + [l], c) <==> Pinged(ls, c) || PingOf(l, c)
  {
    if Pinged(ls, c) {
      var k :| 0 <= k < |ls| && PingOf(ls[k], c);
      assert (ls + [l])[k] == ls[k];
    }
    assert (ls + [l])[|ls|] == l;
  }

  lemma CallerStep(dump: Dump, s: State, l: Label, c: nat)
    requires Enabled(s, l) && (c in s.putters ==> c < |s.calls|)
    ensures var t := Apply(dump, s, l);
      && (t.isRunning <==> s.isRunning && !l.Close?)
      && |t.calls| == |s.calls| + (if l.Put? then 1 else 0)
      && (c in t.putters <==> (c in s.putters && !PingOf(l, c)) || (l.Put? && c == |s.calls|))
      && (PingOf(l, c) ==> c in s.putters)
  {
  }
}
