/**
 * Close against crash and restart: constructor, communication threads and `close`
 * callers share `_lock`, `_isRunning`, `_commthread` and the child processes.
 */
module Lifecycle {
  import opened JsonValues

  datatype Child = Unreaped | ReapedChild

  /** Communication thread k serves child k. */
  datatype ThreadPc =
    | InLoop
    | LeftLoop      // before the child is killed and waited for
    | HasReaped     // before taking the lock
    | HasLock       // before the check of _isRunning
    | Spawned       // new child started, before its thread
    | Launched      // new thread started, before _commthread is assigned
    | Leaving       // before releasing the lock
    | Finishing
    | Finished

  /** The constructor starts the first child and thread without taking the lock. */
  datatype CtorPc = CtorStart | CtorSpawned | CtorLaunched | CtorWaiting | CtorDone

  datatype CloserPc =
    | Entered
    | GotLock
    | TooLate               // found _isRunning cleared, lock still held
    | Clearing              // cleared _isRunning, lock still held
    | Cleared
    | Joining(t: nat)
    | Returned(cleared: bool)

  datatype Owner = Nobody | Comm(k: nat) | Closer(j: nat)

  /** `lateCtor` records that the constructor assigned `_commthread` after a restart had begun. */
  datatype State = State(
    ctor: CtorPc,
    children: seq<Child>,
    threads: seq<ThreadPc>,
    closers: seq<CloserPc>,
    owner: Owner,
    isRunning: bool,
    commthread: Option<nat>,
    lateCtor: bool)

  const INIT := State.State(CtorStart, [], [], [], Nobody, true, None, false)

  datatype Label =
    | SpawnFirst | LaunchFirst | AssignFirst | EndCtor
    | Exit(k: nat) | Reap(k: nat) | Lock(k: nat) | Spawn(k: nat) | Skip(k: nat)
    | Launch(k: nat) | Assign(k: nat) | Unlock(k: nat) | End(k: nat)
    | CallClose | CloseLock(j: nat) | CloseCheck(j: nat) | CloseUnlock(j: nat) | CloseJoin(j: nat) | CloseReturn(j: nat)

  predicate At(s: State, k: nat, pc: ThreadPc) {
    k < |s.threads| && s.threads[k] == pc
  }

  predicate CloserAt(s: State, j: nat, pc: CloserPc) {
    j < |s.closers| && s.closers[j] == pc
  }

  predicate Enabled(s: State, l: Label) {
    match l
    case SpawnFirst => s.ctor.CtorStart?
    case LaunchFirst => s.ctor.CtorSpawned?
    case AssignFirst => s.ctor.CtorLaunched?
    case EndCtor => s.ctor.CtorWaiting?
    // communication threads
    case Exit(k) => At(s, k, InLoop)
    case Reap(k) => At(s, k, LeftLoop) && k < |s.children|
    case Lock(k) => At(s, k, HasReaped) && s.owner.Nobody?
    case Spawn(k) => At(s, k, HasLock) && s.isRunning
    case Skip(k) => At(s, k, HasLock) && !s.isRunning
    case Launch(k) => At(s, k, Spawned)
    case Assign(k) => At(s, k, Launched) && s.threads != []
    case Unlock(k) => At(s, k, Leaving)
    case End(k) => At(s, k, Finishing)
    // close(sync=True)
    case CallClose => s.ctor.CtorDone?
    case CloseLock(j) => CloserAt(s, j, Entered) && s.owner.Nobody?
    case CloseCheck(j) => CloserAt(s, j, GotLock)
    case CloseUnlock(j) => CloserAt(s, j, TooLate) || CloserAt(s, j, Clearing)
    case CloseJoin(j) => CloserAt(s, j, Cleared) && s.commthread.Some?
    case CloseReturn(j) => j < |s.closers| && s.closers[j].Joining? && At(s, s.closers[j].t, Finished)
  }

  function Move(s: State, k: nat, pc: ThreadPc): State
    requires k < |s.threads|
  {
    s.(threads := s.threads[k := pc])
  }

  function MoveCloser(s: State, j: nat, pc: CloserPc): State
    requires j < |s.closers|
  {
    s.(closers := s.closers[j := pc])
  }

  function Apply(s: State, l: Label): State
    requires Enabled(s, l)
  {
    match l
    case SpawnFirst => s.(ctor := CtorSpawned, children := s.children + [Unreaped])
    case LaunchFirst => s.(ctor := CtorLaunched, threads := s.threads + [InLoop])
    case AssignFirst => s.(ctor := CtorWaiting, commthread := Some(0), lateCtor := |s.threads| > 1)
    case EndCtor => s.(ctor := CtorDone)
    case Exit(k) => Move(s, k, LeftLoop)
    case Reap(k) => Move(s, k, HasReaped).(children := s.children[k := ReapedChild])
    case Lock(k) => Move(s, k, HasLock).(owner := Comm(k))
    case Spawn(k) => Move(s, k, Spawned).(children := s.children + [Unreaped])
    case Skip(k) => Move(s, k, Leaving)
    case Launch(k) => Move(s, k, Launched).(threads := s.threads[k := Launched] + [InLoop])
    case Assign(k) => Move(s, k, Leaving).(commthread := Some(|s.threads| - 1))
    case Unlock(k) => Move(s, k, Finishing).(owner := Nobody)
    case End(k) => Move(s, k, Finished)
    case CallClose => s.(closers := s.closers + [Entered])
    case CloseLock(j) => MoveCloser(s, j, GotLock).(owner := Closer(j))
    case CloseCheck(j) =>
      if s.isRunning then MoveCloser(s, j, Clearing).(isRunning := false) else MoveCloser(s, j, TooLate)
    case CloseUnlock(j) =>
      MoveCloser(s, j, if s.closers[j].Clearing? then Cleared else Returned(false)).(owner := Nobody)
    case CloseJoin(j) => MoveCloser(s, j, Joining(s.commthread.value))
    case CloseReturn(j) => MoveCloser(s, j, Returned(true))
  }

  function From(s: State, ls: seq<Label>): Option<State> {
    if ls == [] then Some(s)
    else
      match From(s, ls[..|ls| - 1])
      case None => None
      case Some(t) => if Enabled(t, ls[|ls| - 1]) then Some(Apply(t, ls[|ls| - 1])) else None
  }

  function Run(ls: seq<Label>): Option<State> {
    From(INIT, ls)
  }

  lemma {:induction false} FromConcat(s: State, a: seq<Label>, b: seq<Label>)
    requires From(s, a).Some?
    ensures From(s, a + b) == From(From(s, a).value, b)
  {
    if b == [] {
      assert a + b == a;
    } else {
      assert (a + b)[..|a + b| - 1] == a + b[..|b| - 1];
      FromConcat(s, a, b[..|b| - 1]);
    }
  }

  // ------------------------------------------------------------------ invariant

  predicate HoldsLock(pc: ThreadPc) {
    pc.HasLock? || pc.Spawned? || pc.Launched? || pc.Leaving?
  }

  predicate CloserHoldsLock(pc: CloserPc) {
    pc.GotLock? || pc.TooLate? || pc.Clearing?
  }

  predicate ClearedFlag(pc: CloserPc) {
    pc.Clearing? || pc.Cleared? || pc.Joining? || pc == Returned(true)
  }

  /** Past its restart: an older thread has started its successor. */
  predicate Succeeded(pc: ThreadPc) {
    pc.Launched? || pc.Leaving? || pc.Finishing? || pc.Finished?
  }

  ghost predicate LockInv(s: State) {
    && (s.owner.Comm? ==> s.owner.k < |s.threads|)
    && (s.owner.Closer? ==> s.owner.j < |s.closers|)
    && (forall k: nat :: k < |s.threads| ==> (HoldsLock(s.threads[k]) <==> s.owner == Comm(k)))
    && (forall j: nat :: j < |s.closers| ==> (CloserHoldsLock(s.closers[j]) <==> s.owner == Closer(j)))
  }

  ghost predicate ThreadInv(s: State) {
    var n := |s.threads|;
    && (s.ctor.CtorStart? ==> n == 0 && s.children == [])
    && (s.ctor.CtorSpawned? ==> n == 0 && s.children == [Unreaped])
    && (!s.ctor.CtorStart? && !s.ctor.CtorSpawned? ==>
          n >= 1 && |s.children| == n + if s.threads[n - 1].Spawned? then 1 else 0)
    // a thread's child is unreaped exactly until the thread reaps it
    && (forall k :: 0 <= k < n && k < |s.children| ==>
          (s.children[k].Unreaped? <==> s.threads[k].InLoop? || s.threads[k].LeftLoop?))
    && (|s.children| > n ==> s.children[n].Unreaped?)
    && (forall k :: 0 <= k < n - 1 ==> Succeeded(s.threads[k]))
    && (forall k :: 0 <= k < n && s.threads[k].Launched? ==> k == n - 2)
    && (n > 0 && Succeeded(s.threads[n - 1]) ==> !s.isRunning)
  }

  ghost predicate FlagInv(s: State) {
    && (!s.ctor.CtorDone? ==> s.closers == [] && s.isRunning)
    && (forall j :: 0 <= j < |s.closers| && ClearedFlag(s.closers[j]) ==> !s.isRunning)
    && (forall j :: 0 <= j < |s.closers| && s.closers[j].Joining? ==> s.closers[j].t < |s.threads|)
  }

  ghost predicate CommInv(s: State) {
    && (s.commthread.Some? ==> s.commthread.value < |s.threads|)
    && (s.ctor.CtorWaiting? || s.ctor.CtorDone? ==> s.commthread.Some?)
    // without the constructor's race, _commthread is the newest thread whenever no restart is under way
    && ((s.ctor.CtorWaiting? || s.ctor.CtorDone?) && !s.lateCtor ==>
          || s.commthread == Some(|s.threads| - 1)
          || (|s.threads| >= 2 && s.threads[|s.threads| - 2].Launched?))
  }

  ghost predicate CloseInv(s: State) {
    FlagInv(s) && CommInv(s)
  }

  ghost predicate Inv(s: State) {
    LockInv(s) && ThreadInv(s) && CloseInv(s)
  }

  predicate ThreadLabel(l: Label) {
    l.Exit? || l.Reap? || l.Lock? || l.Spawn? || l.Skip? || l.Launch? || l.Assign? || l.Unlock? || l.End?
  }

  predicate CloserLabel(l: Label) {
    l.CallClose? || l.CloseLock? || l.CloseCheck? || l.CloseUnlock? || l.CloseJoin? || l.CloseReturn?
  }

  lemma LockThreads(s: State, l: Label)
    requires LockInv(s) && Enabled(s, l) && ThreadLabel(l)
    ensures LockInv(Apply(s, l))
  {
  }

  lemma LockClosers(s: State, l: Label)
    requires LockInv(s) && Enabled(s, l) && CloserLabel(l)
    ensures LockInv(Apply(s, l))
  {
  }

  lemma LockStep(s: State, l: Label)
    requires LockInv(s) && Enabled(s, l)
    ensures LockInv(Apply(s, l))
  {
    if ThreadLabel(l) {
      LockThreads(s, l);
    } else if CloserLabel(l) {
      LockClosers(s, l);
    }
  }

  lemma RestartMoves(s: State, l: Label)
    requires LockInv(s) && ThreadInv(s) && Enabled(s, l) && (l.Spawn? || l.Launch? || l.Assign?)
    ensures ThreadInv(Apply(s, l))
  {
  }

  lemma ThreadMoves(s: State, l: Label)
    requires LockInv(s) && ThreadInv(s) && Enabled(s, l) && ThreadLabel(l)
    ensures ThreadInv(Apply(s, l))
  {
    if l.Spawn? || l.Launch? || l.Assign? {
      RestartMoves(s, l);
    }
  }

  lemma OthersMove(s: State, l: Label)
    requires ThreadInv(s) && Enabled(s, l) && !ThreadLabel(l)
    ensures ThreadInv(Apply(s, l))
  {
  }

  lemma ThreadStep(s: State, l: Label)
    requires LockInv(s) && ThreadInv(s) && Enabled(s, l)
    ensures ThreadInv(Apply(s, l))
  {
    if ThreadLabel(l) {
      ThreadMoves(s, l);
    } else {
      OthersMove(s, l);
    }
  }

  lemma FlagStep(s: State, l: Label)
    requires FlagInv(s) && CommInv(s) && Enabled(s, l)
    ensures FlagInv(Apply(s, l))
  {
    if CloserLabel(l) {
      FlagClosers(s, l);
    }
  }

  lemma FlagClosers(s: State, l: Label)
    requires FlagInv(s) && CommInv(s) && Enabled(s, l) && CloserLabel(l)
    ensures FlagInv(Apply(s, l))
  {
  }

  lemma CommThreads(s: State, l: Label)
    requires ThreadInv(s) && CommInv(s) && Enabled(s, l) && ThreadLabel(l)
    ensures CommInv(Apply(s, l))
  {
  }

  lemma CommStep(s: State, l: Label)
    requires ThreadInv(s) && CommInv(s) && Enabled(s, l)
    ensures CommInv(Apply(s, l))
  {
    if ThreadLabel(l) {
      CommThreads(s, l);
    }
  }

  lemma CloseStep(s: State, l: Label)
    requires ThreadInv(s) && CloseInv(s) && Enabled(s, l)
    ensures CloseInv(Apply(s, l))
  {
    FlagStep(s, l);
    CommStep(s, l);
  }

  lemma {:induction false} RunInv(ls: seq<Label>)
    requires Run(ls).Some?
    ensures Inv(Run(ls).value)
  {
    if ls != [] {
      RunInv(ls[..|ls| - 1]);
      var s, l := Run(ls[..|ls| - 1]).value, ls[|ls| - 1];
      LockStep(s, l);
      ThreadStep(s, l);
      CloseStep(s, l);
    }
  }

  // --------------------------------------------------------------- main results

  /** At most one child is unreaped at any time, and it is the newest. */
  lemma OneChildAtATime(ls: seq<Label>)
    requires Run(ls).Some?
    ensures forall k :: 0 <= k < |Run(ls).value.children| - 1 ==> Run(ls).value.children[k].ReapedChild?
  {
    RunInv(ls);
  }

  /** Once `close` has cleared `_isRunning` no child is ever spawned again. */
  lemma {:induction false} NoSpawnAfterClose(ls: seq<Label>, more: seq<Label>)
    requires Run(ls).Some? && !Run(ls).value.isRunning && Run(ls + more).Some?
    ensures |Run(ls + more).value.children| == |Run(ls).value.children| && !Run(ls + more).value.isRunning
  {
    if more == [] {
      assert ls + more == ls;
    } else {
      var m := more[..|more| - 1];
      assert (ls + more)[..|ls + more| - 1] == ls + m;
      NoSpawnAfterClose(ls, m);
      RunInv(ls + m);
      StepAfterClose(Run(ls + m).value, more[|more| - 1]);
    }
  }

  lemma StepAfterClose(s: State, l: Label)
    requires CloseInv(s) && Enabled(s, l) && !s.isRunning
    ensures |Apply(s, l).children| == |s.children| && !Apply(s, l).isRunning
  {
  }

  /** The flag is still set as long as nobody has cleared it, and then exactly one caller of close has. */
  ghost predicate OneCleared(s: State) {
    && (s.isRunning <==> forall j :: 0 <= j < |s.closers| ==> !ClearedFlag(s.closers[j]))
    && (forall i, j :: 0 <= i < j < |s.closers| ==> !ClearedFlag(s.closers[i]) || !ClearedFlag(s.closers[j]))
  }

  lemma {:induction false} OneCloseClears(ls: seq<Label>)
    requires Run(ls).Some?
    ensures OneCleared(Run(ls).value)
  {
    if ls != [] {
      OneCloseClears(ls[..|ls| - 1]);
      OneClearedStep(Run(ls[..|ls| - 1]).value, ls[|ls| - 1]);
    }
  }

  lemma OneClearedStep(s: State, l: Label)
    requires OneCleared(s) && Enabled(s, l)
    ensures OneCleared(Apply(s, l))
  {
    if CloserLabel(l) && !l.CallClose? {
      ClearedByOne(s, l);
    } else if l.CallClose? {
      var t := Apply(s, l);
      assert forall j :: 0 <= j < |s.closers| ==> t.closers[j] == s.closers[j];
      assert !ClearedFlag(t.closers[|s.closers|]);
    } else {
      assert Apply(s, l).closers == s.closers && Apply(s, l).isRunning == s.isRunning;
    }
  }

  lemma ClearedByOne(s: State, l: Label)
    requires OneCleared(s) && Enabled(s, l) && CloserLabel(l) && !l.CallClose?
    ensures OneCleared(Apply(s, l))
  {
    var t := Apply(s, l);
    assert forall i :: 0 <= i < |t.closers| && i != l.j ==> t.closers[i] == s.closers[i];
    assert l.CloseCheck? && s.isRunning <==> ClearedFlag(t.closers[l.j]) && !ClearedFlag(s.closers[l.j]);
    assert ClearedFlag(s.closers[l.j]) ==> ClearedFlag(t.closers[l.j]);
  }

  predicate AllReaped(s: State) {
    forall k :: 0 <= k < |s.children| ==> s.children[k].ReapedChild?
  }

  /** `_commthread` is the thread of the newest child: its name carries `self.pid`. */
  predicate JoinsNewest(s: State) {
    s.commthread == Some(|s.threads| - 1)
  }

  /** What stays true from the moment closer j has cleared the flag. */
  ghost predicate Closing(s: State, j: nat) {
    && j < |s.closers| && ClearedFlag(s.closers[j]) && !s.isRunning && s.ctor.CtorDone?
    && JoinsNewest(s) && |s.children| == |s.threads|
    && (forall k :: 0 <= k < |s.threads| ==> !s.threads[k].Spawned? && !s.threads[k].Launched?)
    && (s.closers[j].Joining? ==> s.closers[j].t == |s.threads| - 1)
    && (s.closers[j] == Returned(true) ==> s.threads[|s.threads| - 1].Finished?)
  }

  lemma ClosingStep(s: State, l: Label, j: nat)
    requires Closing(s, j) && Enabled(s, l)
    ensures Closing(Apply(s, l), j)
  {
  }

  lemma {:induction false} ClosingFrom(s: State, more: seq<Label>, j: nat)
    requires Closing(s, j) && From(s, more).Some?
    ensures Closing(From(s, more).value, j)
  {
    if more != [] {
      ClosingFrom(s, more[..|more| - 1], j);
      ClosingStep(From(s, more[..|more| - 1]).value, more[|more| - 1], j);
    }
  }

  /** Closer j holds the lock and has just cleared `_isRunning`. */
  predicate JustCleared(s: State, j: nat) {
    CloserAt(s, j, Clearing)
  }

  lemma JoiningNewestReaps(ls: seq<Label>, more: seq<Label>, j: nat)
    requires Run(ls).Some? && JustCleared(Run(ls).value, j) && JoinsNewest(Run(ls).value)
    requires Run(ls + more).Some? && CloserAt(Run(ls + more).value, j, Returned(true))
    ensures AllReaped(Run(ls + more).value)
  {
    RunInv(ls);
    StartsClosing(Run(ls).value, j);
    FromConcat(INIT, ls, more);
    ClosingFrom(Run(ls).value, more, j);
    RunInv(ls + more);
    ClosedReaped(Run(ls + more).value, j);
  }

  lemma StartsClosing(s: State, j: nat)
    requires Inv(s) && JustCleared(s, j) && JoinsNewest(s)
    ensures Closing(s, j)
  {
    assert s.owner == Closer(j);
  }

  lemma ClosedReaped(s: State, j: nat)
    requires Inv(s) && Closing(s, j) && CloserAt(s, j, Returned(true))
    ensures AllReaped(s)
  {
  }

  lemma {:induction false} ReapedStays(s: State, more: seq<Label>)
    requires From(s, more).Some? && Inv(s) && AllReaped(s) && !s.isRunning
    ensures AllReaped(From(s, more).value) && CloseInv(From(s, more).value) && !From(s, more).value.isRunning
  {
    if more != [] {
      ReapedStays(s, more[..|more| - 1]);
      CloseStepFrom(s, more[..|more| - 1], more[|more| - 1]);
      StepAfterClose(From(s, more[..|more| - 1]).value, more[|more| - 1]);
    }
  }

  lemma {:induction false} InvFrom(s: State, more: seq<Label>)
    requires From(s, more).Some? && Inv(s)
    ensures Inv(From(s, more).value)
  {
    if more != [] {
      InvFrom(s, more[..|more| - 1]);
      var t, l := From(s, more[..|more| - 1]).value, more[|more| - 1];
      LockStep(t, l);
      ThreadStep(t, l);
      CloseStep(t, l);
    }
  }

  lemma CloseStepFrom(s: State, m: seq<Label>, l: Label)
    requires Inv(s) && From(s, m).Some? && Enabled(From(s, m).value, l)
    ensures CloseInv(Apply(From(s, m).value, l))
  {
    InvFrom(s, m);
    CloseStep(From(s, m).value, l);
  }

  /** The rest of a `close` that joins an older thread. */
  function JoinStale(s: State, j: nat, t: nat): seq<Label>
    requires t < |s.threads|
  {
    [CloseUnlock(j)] + (if s.threads[t].Finishing? then [End(t)] else []) + [CloseJoin(j), CloseReturn(j)]
  }

  lemma OneStep(s: State, l: Label)
    requires Enabled(s, l)
    ensures From(s, [l]) == Some(Apply(s, l))
  {
    assert [l][..0] == [];
  }

  lemma TwoSteps(s: State, a: Label, b: Label)
    requires Enabled(s, a) && Enabled(Apply(s, a), b)
    ensures From(s, [a, b]) == Some(Apply(Apply(s, a), b))
  {
    OneStep(s, a);
    assert [a, b][..1] == [a];
  }

  lemma JoinsFinished(s: State, j: nat, t: nat)
    requires CloserAt(s, j, Cleared) && s.commthread == Some(t) && At(s, t, Finished)
    ensures From(s, [CloseJoin(j), CloseReturn(j)]).Some?
    ensures var u := From(s, [CloseJoin(j), CloseReturn(j)]).value;
      CloserAt(u, j, Returned(true)) && u.children == s.children
  {
    TwoSteps(s, CloseJoin(j), CloseReturn(j));
  }

  /** The joined thread has released the lock before closer j took it. */
  lemma StaleIsOver(s: State, j: nat)
    requires LockInv(s) && ThreadInv(s) && CommInv(s) && JustCleared(s, j) && s.ctor.CtorDone? && !JoinsNewest(s)
    ensures s.commthread.Some? && s.commthread.value < |s.threads|
    ensures s.threads[s.commthread.value].Finishing? || s.threads[s.commthread.value].Finished?
  {
    assert Succeeded(s.threads[s.commthread.value]);
    assert s.owner == Closer(j);
  }

  lemma StaleReturns(s: State, j: nat)
    requires Inv(s) && JustCleared(s, j) && !JoinsNewest(s)
    ensures s.commthread.Some? && s.commthread.value < |s.threads|
    ensures var more := JoinStale(s, j, s.commthread.value);
      && From(s, more).Some?
      && CloserAt(From(s, more).value, j, Returned(true))
      && From(s, more).value.children == s.children
  {
    var t := s.commthread.value;
    StaleIsOver(s, j);
    var s1 := Apply(s, CloseUnlock(j));
    OneStep(s, CloseUnlock(j));
    if s.threads[t].Finishing? {
      var s2 := Apply(s1, End(t));
      OneStep(s1, End(t));
      FromConcat(s, [CloseUnlock(j)], [End(t)]);
      JoinsFinished(s2, j, t);
      FromConcat(s, [CloseUnlock(j)] + [End(t)], [CloseJoin(j), CloseReturn(j)]);
    } else {
      JoinsFinished(s1, j, t);
      assert [CloseUnlock(j)] + [] == [CloseUnlock(j)];
      FromConcat(s, [CloseUnlock(j)], [CloseJoin(j), CloseReturn(j)]);
    }
  }

  /**
   * Exactly when `close(sync=True)` keeps its promise: every way it can go on to
   * return leaves all children reaped, if and only if `_commthread` is the newest
   * thread, or nothing is left to reap anyway, when the flag is cleared.
   */
  lemma CloseReapsIff(ls: seq<Label>, j: nat)
    requires Run(ls).Some? && JustCleared(Run(ls).value, j)
    ensures
      (forall more :: Run(ls + more).Some? && CloserAt(Run(ls + more).value, j, Returned(true))
                      ==> AllReaped(Run(ls + more).value))
      <==> JoinsNewest(Run(ls).value) || AllReaped(Run(ls).value)
  {
    RunInv(ls);
    var s := Run(ls).value;
    if JoinsNewest(s) || AllReaped(s) {
      forall more | Run(ls + more).Some? && CloserAt(Run(ls + more).value, j, Returned(true))
        ensures AllReaped(Run(ls + more).value)
      {
        if JoinsNewest(s) {
          JoiningNewestReaps(ls, more, j);
        } else {
          FromConcat(INIT, ls, more);
          ReapedStays(s, more);
        }
      }
    } else {
      StaleReturns(s, j);
      var more := JoinStale(s, j, s.commthread.value);
      FromConcat(INIT, ls, more);
      assert !AllReaped(Run(ls + more).value);
    }
  }

  /**
   * With the constructor's assignment in time, `close(sync=True)` always returns
   * with every child ever spawned reaped.
   */
  lemma CloseReapsAll(ls: seq<Label>, more: seq<Label>, j: nat)
    requires Run(ls).Some? && JustCleared(Run(ls).value, j) && !Run(ls).value.lateCtor
    requires Run(ls + more).Some? && CloserAt(Run(ls + more).value, j, Returned(true))
    ensures AllReaped(Run(ls + more).value)
  {
    RunInv(ls);
    var s := Run(ls).value;
    assert s.owner == Closer(j);
    JoiningNewestReaps(ls, more, j);
  }

  /** The first child dies at once and is replaced before the constructor assigns `_commthread`. */
  const FIRST_DIES := [SpawnFirst, LaunchFirst, Exit(0), Reap(0)]
  const RESPAWN := [Lock(0), Spawn(0), Launch(0)]
  const HAND_OVER := [Assign(0), Unlock(0)]
  const REPLACE := RESPAWN + HAND_OVER
  const RESTART_IN_CTOR := FIRST_DIES + REPLACE

  const STALE_CLOSE := [AssignFirst, EndCtor, CallClose, CloseLock(0), CloseCheck(0)]

  lemma {:induction false} Chain(ls: seq<Label>, ss: seq<State>)
    requires |ss| == |ls| + 1
    requires forall i :: 0 <= i < |ls| ==> Enabled(ss[i], ls[i]) && ss[i + 1] == Apply(ss[i], ls[i])
    ensures From(ss[0], ls) == Some(ss[|ls|])
  {
    if ls != [] {
      Chain(ls[..|ls| - 1], ss[..|ss| - 1]);
    }
  }

  function Restarted(): State {
    State.State(CtorLaunched, [ReapedChild, Unreaped], [Finishing, InLoop], [], Nobody, true, Some(1), false)
  }

  lemma RestartsInCtor()
    ensures Run(RESTART_IN_CTOR) == Some(Restarted())
  {
    FirstChildDies();
    ReplacedInCtor();
    FromConcat(INIT, FIRST_DIES, REPLACE);
  }

  function Dead(): State {
    State.State(CtorLaunched, [ReapedChild], [HasReaped], [], Nobody, true, None, false)
  }

  lemma FirstChildDies()
    ensures From(INIT, FIRST_DIES) == Some(Dead())
  {
    var s1 := Apply(INIT, SpawnFirst);
    var s2 := Apply(s1, LaunchFirst);
    var s3 := Apply(s2, Exit(0));
    var s4 := Apply(s3, Reap(0));
    assert s4 == Dead();
    Chain(FIRST_DIES, [INIT, s1, s2, s3, s4]);
  }

  function Replaced(): State {
    State.State(CtorLaunched, [ReapedChild, Unreaped], [Launched, InLoop], [], Comm(0), true, None, false)
  }

  lemma ReplacedInCtor()
    ensures From(Dead(), REPLACE) == Some(Restarted())
  {
    Respawned();
    HandedOver();
    FromConcat(Dead(), RESPAWN, HAND_OVER);
  }

  lemma Respawned()
    ensures From(Dead(), RESPAWN) == Some(Replaced())
  {
    var s1 := Apply(Dead(), Lock(0));
    var s2 := Apply(s1, Spawn(0));
    var s3 := Apply(s2, Launch(0));
    assert s3 == Replaced();
    Chain(RESPAWN, [Dead(), s1, s2, s3]);
  }

  lemma HandedOver()
    ensures From(Replaced(), HAND_OVER) == Some(Restarted())
  {
    var s1 := Apply(Replaced(), Assign(0));
    var s2 := Apply(s1, Unlock(0));
    assert s2 == Restarted();
    Chain(HAND_OVER, [Replaced(), s1, s2]);
  }

  /**
   * The constructor's unlocked assignment can overwrite the restart's: `close` then
   * joins the dead thread and can return with a child unreaped.
   */
  lemma CloseCanMissAChild()
    ensures Run(RESTART_IN_CTOR + STALE_CLOSE).Some? && JustCleared(Run(RESTART_IN_CTOR + STALE_CLOSE).value, 0)
    ensures exists more :: Run(RESTART_IN_CTOR + STALE_CLOSE + more).Some?
                           && CloserAt(Run(RESTART_IN_CTOR + STALE_CLOSE + more).value, 0, Returned(true))
                           && !AllReaped(Run(RESTART_IN_CTOR + STALE_CLOSE + more).value)
  {
    RestartsInCtor();
    ClosesStale();
    FromConcat(INIT, RESTART_IN_CTOR, STALE_CLOSE);
    assert !JoinsNewest(Stale()) && Stale().children[1].Unreaped?;
    CloseReapsIff(RESTART_IN_CTOR + STALE_CLOSE, 0);
  }

  function Stale(): State {
    State.State(CtorDone, [ReapedChild, Unreaped], [Finishing, InLoop], [Clearing], Closer(0), false, Some(0), true)
  }

  lemma ClosesStale()
    ensures From(Restarted(), STALE_CLOSE) == Some(Stale())
  {
    var s0 := Restarted();
    var s1 := Apply(s0, AssignFirst);
    var s2 := Apply(s1, EndCtor);
    var s3 := Apply(s2, CallClose);
    var s4 := Apply(s3, CloseLock(0));
    var s5 := Apply(s4, CloseCheck(0));
    assert s5 == Stale();
    Chain(STALE_CLOSE, [s0, s1, s2, s3, s4, s5]);
  }

  // ------------------------------------------------------------ close comes back

  /** Steps a thread can still take once `_isRunning` is cleared; a restart under way brings one more thread. */
  function ThreadWork(pc: ThreadPc): nat {
    match pc
    case InLoop => 6
    case LeftLoop => 5
    case HasReaped => 4
    case HasLock => 3
    case Spawned => 10
    case Launched => 3
    case Leaving => 2
    case Finishing => 1
    case Finished => 0
  }

  function CloserWork(pc: CloserPc): nat {
    match pc
    case Entered => 5
    case GotLock => 4
    case TooLate => 1
    case Clearing => 3
    case Cleared => 2
    case Joining(_) => 1
    case Returned(_) => 0
  }

  function ThreadsWork(ts: seq<ThreadPc>): nat {
    if ts == [] then 0 else ThreadsWork(ts[..|ts| - 1]) + ThreadWork(ts[|ts| - 1])
  }

  function ClosersWork(cs: seq<CloserPc>): nat {
    if cs == [] then 0 else ClosersWork(cs[..|cs| - 1]) + CloserWork(cs[|cs| - 1])
  }

  function WorkLeft(s: State): nat {
    ThreadsWork(s.threads) + ClosersWork(s.closers)
  }

  lemma {:induction false} ThreadsMove(ts: seq<ThreadPc>, k: nat, pc: ThreadPc)
    requires k < |ts|
    ensures ThreadsWork(ts[k := pc]) == ThreadsWork(ts) - ThreadWork(ts[k]) + ThreadWork(pc)
  {
    var init := ts[..|ts| - 1];
    if k == |ts| - 1 {
      assert ts[k := pc][..|ts| - 1] == init;
    } else {
      assert ts[k := pc][..|ts| - 1] == init[k := pc];
      ThreadsMove(init, k, pc);
    }
  }

  lemma {:induction false} ClosersMove(cs: seq<CloserPc>, j: nat, pc: CloserPc)
    requires j < |cs|
    ensures ClosersWork(cs[j := pc]) == ClosersWork(cs) - CloserWork(cs[j]) + CloserWork(pc)
  {
    var init := cs[..|cs| - 1];
    if j == |cs| - 1 {
      assert cs[j := pc][..|cs| - 1] == init;
    } else {
      assert cs[j := pc][..|cs| - 1] == init[j := pc];
      ClosersMove(init, j, pc);
    }
  }

  lemma ThreadsMore(ts: seq<ThreadPc>, pc: ThreadPc)
    ensures ThreadsWork(ts + [pc]) == ThreadsWork(ts) + ThreadWork(pc)
  {
    assert (ts + [pc])[..|ts|] == ts;
  }

  /** Once `_isRunning` is cleared every step but a new call of `close` lowers the work left. */
  lemma CloseWorkDecreases(s: State, l: Label)
    requires Enabled(s, l) && !l.CallClose? && !s.isRunning && s.ctor.CtorDone?
    ensures WorkLeft(Apply(s, l)) < WorkLeft(s)
    ensures !Apply(s, l).isRunning && Apply(s, l).ctor.CtorDone?
  {
    var t := Apply(s, l);
    if ThreadLabel(l) {
      ThreadWorkDecreases(s, l);
    } else {
      ClosersMove(s.closers, l.j, t.closers[l.j]);
    }
  }

  lemma ThreadWorkDecreases(s: State, l: Label)
    requires Enabled(s, l) && ThreadLabel(l) && !s.isRunning
    ensures ThreadsWork(Apply(s, l).threads) < ThreadsWork(s.threads)
    ensures Apply(s, l).closers == s.closers
  {
    var t := Apply(s, l);
    ThreadsMove(s.threads, l.k, t.threads[l.k]);
    if l.Launch? {
      ThreadsMore(s.threads[l.k := Launched], InLoop);
    }
  }

  /** After the flag is cleared no schedule goes on for ever, new calls of `close` apart. */
  lemma {:induction false} CloseTerminates(s: State, more: seq<Label>)
    requires !s.isRunning && s.ctor.CtorDone? && From(s, more).Some? && CallClose !in more
    ensures |more| + WorkLeft(From(s, more).value) <= WorkLeft(s)
    ensures !From(s, more).value.isRunning && From(s, more).value.ctor.CtorDone?
  {
    if more != [] {
      var m, l := more[..|more| - 1], more[|more| - 1];
      assert l in more;
      CloseTerminates(s, m);
      CloseWorkDecreases(From(s, m).value, l);
    }
  }

  /** Who holds the lock can go on. */
  lemma OwnerStep(s: State) returns (l: Label)
    requires LockInv(s) && !s.isRunning && !s.owner.Nobody?
    ensures Enabled(s, l) && !l.CallClose?
  {
    match s.owner
    case Comm(k) =>
      match s.threads[k] {
        case HasLock => l := Skip(k);
        case Spawned => l := Launch(k);
        case Launched => l := Assign(k);
        case _ => l := Unlock(k);
      }
    case Closer(j) =>
      if s.closers[j].GotLock? { l := CloseCheck(j); } else { l := CloseUnlock(j); }
  }

  /** With the lock free a thread that has not finished can go on. */
  lemma ThreadStepFree(s: State, k: nat) returns (l: Label)
    requires LockInv(s) && ThreadInv(s) && s.owner.Nobody? && s.ctor.CtorDone?
    requires k < |s.threads| && !s.threads[k].Finished?
    ensures Enabled(s, l) && !l.CallClose?
  {
    assert !HoldsLock(s.threads[k]);
    match s.threads[k]
    case InLoop => l := Exit(k);
    case LeftLoop => l := Reap(k);
    case HasReaped => l := Lock(k);
    case _ => l := End(k);
  }

  /**
   * Nothing can block a `close` for good: until it returns some thread or closer can go
   * on, since `close` waits for the thread without holding the lock.
   */
  lemma CloseNeverStuck(s: State, j: nat) returns (l: Label)
    requires Inv(s) && !s.isRunning && s.ctor.CtorDone? && j < |s.closers| && !s.closers[j].Returned?
    ensures Enabled(s, l) && !l.CallClose?
  {
    if !s.owner.Nobody? {
      l := OwnerStep(s);
    } else {
      assert !CloserHoldsLock(s.closers[j]);
      if s.closers[j].Entered? {
        l := CloseLock(j);
      } else if s.closers[j].Cleared? {
        l := CloseJoin(j);
      } else if s.threads[s.closers[j].t].Finished? {
        l := CloseReturn(j);
      } else {
        l := ThreadStepFree(s, s.closers[j].t);
      }
    }
  }

  /** The closer that cleared the flag stays the one that did. */
  lemma StaysCloser(s: State, l: Label, j: nat)
    requires Enabled(s, l) && !s.isRunning && j < |s.closers|
    ensures j < |Apply(s, l).closers|
    ensures ClearedFlag(s.closers[j]) ==> ClearedFlag(Apply(s, l).closers[j])
  {
  }

  /** From any state after the flag was cleared the rest of a `close` can be played to its return. */
  lemma {:induction false} ReturnFrom(s: State, j: nat) returns (more: seq<Label>)
    requires Inv(s) && !s.isRunning && s.ctor.CtorDone? && j < |s.closers|
    ensures From(s, more).Some? && j < |From(s, more).value.closers| && From(s, more).value.closers[j].Returned?
    ensures ClearedFlag(s.closers[j]) ==> CloserAt(From(s, more).value, j, Returned(true))
    decreases WorkLeft(s)
  {
    if s.closers[j].Returned? {
      more := [];
    } else {
      var l := CloseNeverStuck(s, j);
      CloseWorkDecreases(s, l);
      StaysCloser(s, l, j);
      OneStep(s, l);
      InvFrom(s, [l]);
      var rest := ReturnFrom(Apply(s, l), j);
      more := [l] + rest;
      FromConcat(s, [l], rest);
    }
  }

  /**
   * In every reachable state a `close(sync=True)` that has cleared the flag can come
   * back, whatever the threads were doing.
   */
  lemma CloseCanReturn(ls: seq<Label>, j: nat)
    requires Run(ls).Some? && j < |Run(ls).value.closers| && ClearedFlag(Run(ls).value.closers[j])
    ensures exists more :: Run(ls + more).Some? && CloserAt(Run(ls + more).value, j, Returned(true))
  {
    RunInv(ls);
    var more := ReturnFrom(Run(ls).value, j);
    FromConcat(INIT, ls, more);
    assert Run(ls + more).Some? && CloserAt(Run(ls + more).value, j, Returned(true));
  }
}
