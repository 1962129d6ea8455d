/** The service lifecycle: any number of threads calling StartOnce, StopOnce, IfStarted and IfNotStopped on one
    StateMachine. Every step below is one atomic action of one thread; a run interleaves them in any order. */
module Lifecycle {
  import opened Options

  datatype State = Unstarted | Started | Starting | StartFailed | Stopping | Stopped | StopFailed

  type Tid = nat

  datatype Guard = IfStarted | IfNotStopped

  /** What a call returned. */
  datatype Result =
    | StartRejected | StartReturned(ok: bool)
    | StopReturned(ok: bool) | AlreadyStopped | CannotStopUnstarted | CannotStop
    | GuardReturned(guard: Guard, ran: bool)

  /** Where a thread is inside a call; `Outside` means it is in none. */
  datatype Pc =
    | Outside
    | StartCas | StartWait | StartHook | StartFinish(ok: bool)
    | StopWait | StopCas | StopReport | StopHook | StopFinish(ok: bool)
    | Unlock(result: Result)
    | GuardWait(guard: Guard) | GuardCheck(guard: Guard) | GuardBody(guard: Guard) | ReadUnlock(result: Result)
    | Panicked

  /** What the hooks did, in order. */
  datatype HookEvent = StartBegan | StartEnded(ok: bool) | StopBegan | StopEnded(ok: bool)

  /** The atomic state, the RWMutex (its writer and its readers), the threads with the result of their last call, and
      the history of the hooks. */
  datatype Sys = Sys(state: State, writer: Option<Tid>, readers: set<Tid>, pcs: map<Tid, Pc>, last: map<Tid, Result>,
                     log: seq<HookEvent>)
  {
    function Pc(t: Tid): Pc {
      if t in pcs then pcs[t] else Outside
    }

    function Goto(t: Tid, pc: Pc): Sys {
      this.(pcs := pcs[t := pc])
    }

    function Return(t: Tid, r: Result): Sys {
      Goto(t, Outside).(last := last[t := r])
    }

    ghost predicate LockFree() {
      writer == None && readers == {}
    }
  }

  ghost predicate Init(s: Sys) {
    s == Sys(Unstarted, None, {}, map[], map[], [])
  }

  predicate Admits(guard: Guard, state: State) {
    match guard
    case IfStarted => state == Started
    case IfNotStopped => state != Stopped
  }

  function StopRefusal(state: State): Result {
    match state
    case Stopped => AlreadyStopped
    case Unstarted => CannotStopUnstarted
    case _ => CannotStop
  }

  /** One atomic action of thread `t`. */
  ghost predicate Step(s: Sys, t: Tid, s': Sys) {
    match s.Pc(t)
    case Outside => s' == s.Goto(t, StartCas) || s' == s.Goto(t, StopWait) || exists g :: s' == s.Goto(t, GuardWait(g))
    // StartOnce
    case StartCas =>
      s' == if s.state == Unstarted then s.Goto(t, StartWait).(state := Starting) else s.Return(t, StartRejected)
    case StartWait =>
      s.LockFree() && s' == s.Goto(t, StartHook).(writer := Some(t), log := s.log + [StartBegan])
    case StartHook =>
      exists ok :: s' == s.Goto(t, StartFinish(ok)).(log := s.log + [StartEnded(ok)])
    case StartFinish(ok) =>
      s' == if s.state == Starting
            then s.Goto(t, Unlock(StartReturned(ok))).(state := if ok then Started else StartFailed)
            else s.Goto(t, Panicked)
    // StopOnce
    case StopWait => s.LockFree() && s' == s.Goto(t, StopCas).(writer := Some(t))
    case StopCas =>
      s' == if s.state == Started then s.Goto(t, StopHook).(state := Stopping, log := s.log + [StopBegan])
            else s.Goto(t, StopReport)
    case StopReport => s' == s.Goto(t, Unlock(StopRefusal(s.state)))
    case StopHook =>
      exists ok :: s' == s.Goto(t, StopFinish(ok)).(log := s.log + [StopEnded(ok)])
    case StopFinish(ok) =>
      s' == if s.state == Stopping
            then s.Goto(t, Unlock(StopReturned(ok))).(state := if ok then Stopped else StopFailed)
            else s.Goto(t, Panicked)
    case Unlock(r) => s' == s.Return(t, r).(writer := None)
    // IfStarted and IfNotStopped
    case GuardWait(g) => s.writer == None && s' == s.Goto(t, GuardCheck(g)).(readers := s.readers + {t})
    case GuardCheck(g) =>
      s' == s.Goto(t, if Admits(g, s.state) then GuardBody(g) else ReadUnlock(GuardReturned(g, false)))
    case GuardBody(g) => s' == s.Goto(t, ReadUnlock(GuardReturned(g, true)))
    case ReadUnlock(r) => s' == s.Return(t, r).(readers := s.readers - {t})
    case Panicked => false
  }

  // ---------- what every step keeps ----------

  predicate HoldsWrite(pc: Pc) {
    pc.StartHook? || pc.StartFinish? || pc.StopCas? || pc.StopReport? || pc.StopHook? || pc.StopFinish? || pc.Unlock?
  }

  predicate HoldsRead(pc: Pc) {
    pc.GuardCheck? || pc.GuardBody? || pc.ReadUnlock?
  }

  /** The thread has won the start but has not yet published its outcome. */
  predicate IsStarting(pc: Pc) {
    pc.StartWait? || pc.StartHook? || pc.StartFinish?
  }

  predicate InHook(pc: Pc) {
    pc.StartHook? || pc.StopHook?
  }

  predicate IsStopping(pc: Pc) {
    pc.StopHook? || pc.StopFinish?
  }

  ghost predicate LockInv(s: Sys) {
    && (forall t: Tid :: HoldsWrite(s.Pc(t)) <==> s.writer == Some(t))
    && (forall t: Tid :: HoldsRead(s.Pc(t)) <==> t in s.readers)
    && (s.writer.Some? ==> s.readers == {})
  }

  ghost predicate OwnerInv(s: Sys) {
    && (forall t :: IsStarting(s.Pc(t)) ==> s.state == Starting)
    && (forall t, u :: IsStarting(s.Pc(t)) && IsStarting(s.Pc(u)) ==> t == u)
    && (forall t :: IsStopping(s.Pc(t)) ==> s.state == Stopping)
    && (s.state == Stopping ==> s.writer.Some? && IsStopping(s.Pc(s.writer.value)))
    && (forall t :: s.Pc(t) != Panicked)
  }

  /** What the history is while a thread is at `pc`. */
  ghost predicate LogAt(pc: Pc, log: seq<HookEvent>) {
    match pc
    case StartWait => log == []
    case StartHook => log == [StartBegan]
    case StartFinish(ok) => log == [StartBegan, StartEnded(ok)]
    case StopHook => log == [StartBegan, StartEnded(true), StopBegan]
    case StopFinish(ok) => log == [StartBegan, StartEnded(true), StopBegan, StopEnded(ok)]
    case _ => true
  }

  /** What the history is in a settled state. */
  ghost predicate LogIn(state: State, log: seq<HookEvent>) {
    match state
    case Unstarted => log == []
    case Started => log == [StartBegan, StartEnded(true)]
    case StartFailed => log == [StartBegan, StartEnded(false)]
    case Stopped => log == [StartBegan, StartEnded(true), StopBegan, StopEnded(true)]
    case StopFailed => log == [StartBegan, StartEnded(true), StopBegan, StopEnded(false)]
    case _ => true
  }

  /** The longest history that can follow from the outcomes of the two hooks. */
  function FullLog(startOk: bool, stopOk: bool): seq<HookEvent> {
    [StartBegan, StartEnded(startOk)] + if startOk then [StopBegan, StopEnded(stopOk)] else []
  }

  ghost predicate LogInv(s: Sys) {
    && LogIn(s.state, s.log)
    && (forall t :: LogAt(s.Pc(t), s.log))
    && exists startOk, stopOk :: s.log <= FullLog(startOk, stopOk)
  }

  ghost predicate BodyInv(s: Sys) {
    forall t :: s.Pc(t).GuardBody? ==> match s.Pc(t).guard
                                       case IfStarted => s.state == Started
                                       case IfNotStopped => s.state != Stopping && s.state != Stopped
  }

  /** What a returned result says about the state, from then on for ever. */
  predicate Truthful(r: Result, state: State) {
    match r
    case StartRejected => state != Unstarted
    case StartReturned(ok) => if ok then state == Started || After(Started, state) else state == StartFailed
    case StopReturned(ok) => state == if ok then Stopped else StopFailed
    case AlreadyStopped => state == Stopped
    case CannotStopUnstarted => true
    case CannotStop => state != Unstarted
    case GuardReturned(g, ran) =>
      match g
      case IfStarted => ran ==> state == Started || After(Started, state)
      case IfNotStopped => !ran ==> state == Stopped
  }

  ghost predicate ResultInv(s: Sys) {
    && (forall t :: s.Pc(t).Unlock? || s.Pc(t).ReadUnlock? ==> Truthful(s.Pc(t).result, s.state))
    && (forall t :: t in s.last ==> Truthful(s.last[t], s.state))
  }

  ghost predicate Inv(s: Sys) {
    LockInv(s) && OwnerInv(s) && LogInv(s) && BodyInv(s) && ResultInv(s)
  }

  lemma InitInv(s: Sys)
    requires Init(s)
    ensures Inv(s)
  {
    assert s.log <= FullLog(true, true);
  }

  /** The other threads stay where they are. */
  lemma OthersStay(s: Sys, t: Tid, s': Sys)
    requires Step(s, t, s')
    ensures forall u :: u != t ==> s'.Pc(u) == s.Pc(u)
  {
  }

  lemma StepLockAt(s: Sys, t: Tid, s': Sys, u: Tid)
    requires LockInv(s) && OwnerInv(s) && Step(s, t, s')
    ensures HoldsWrite(s'.Pc(u)) <==> s'.writer == Some(u)
    ensures HoldsRead(s'.Pc(u)) <==> u in s'.readers
    ensures s'.writer.Some? ==> s'.readers == {}
  {
    OthersStay(s, t, s');
    assert HoldsWrite(s.Pc(t)) <==> s.writer == Some(t);
    assert HoldsRead(s.Pc(t)) <==> t in s.readers;
    assert HoldsWrite(s.Pc(u)) <==> s.writer == Some(u);
    assert HoldsRead(s.Pc(u)) <==> u in s.readers;
  }

  lemma StepLock(s: Sys, t: Tid, s': Sys)
    requires Inv(s) && Step(s, t, s')
    ensures LockInv(s')
  {
    hide Step, Inv;
    FromInv(s);
    forall u: Tid
      ensures HoldsWrite(s'.Pc(u)) <==> s'.writer == Some(u)
      ensures HoldsRead(s'.Pc(u)) <==> u in s'.readers
    {
      StepLockAt(s, t, s', u);
    }
    StepLockAt(s, t, s', t);
  }

  lemma FromInv(s: Sys)
    requires Inv(s)
    ensures LockInv(s) && OwnerInv(s) && LogInv(s) && BodyInv(s) && ResultInv(s)
  {
  }

  lemma StepOwnerAt(s: Sys, t: Tid, s': Sys, u: Tid, v: Tid)
    requires LockInv(s) && OwnerInv(s) && Step(s, t, s')
    ensures IsStarting(s'.Pc(u)) ==> s'.state == Starting
    ensures IsStarting(s'.Pc(u)) && IsStarting(s'.Pc(v)) ==> u == v
    ensures IsStopping(s'.Pc(u)) ==> s'.state == Stopping
    ensures s'.Pc(u) != Panicked
  {
    OthersStay(s, t, s');
  }

  lemma StepOwnerWriter(s: Sys, t: Tid, s': Sys)
    requires LockInv(s) && OwnerInv(s) && Step(s, t, s')
    ensures s'.state == Stopping ==> s'.writer.Some? && IsStopping(s'.Pc(s'.writer.value))
  {
    OthersStay(s, t, s');
  }

  lemma StepOwner(s: Sys, t: Tid, s': Sys)
    requires Inv(s) && Step(s, t, s')
    ensures OwnerInv(s')
  {
    hide Step, Inv;
    FromInv(s);
    StepOwnerWriter(s, t, s');
    forall u: Tid, v: Tid
      ensures IsStarting(s'.Pc(u)) ==> s'.state == Starting
      ensures IsStarting(s'.Pc(u)) && IsStarting(s'.Pc(v)) ==> u == v
      ensures IsStopping(s'.Pc(u)) ==> s'.state == Stopping
      ensures s'.Pc(u) != Panicked
    {
      StepOwnerAt(s, t, s', u, v);
    }
  }

  lemma StepLogIn(s: Sys, t: Tid, s': Sys)
    requires Inv(s) && Step(s, t, s')
    ensures LogIn(s'.state, s'.log)
  {
    hide FullLog;
  }

  lemma StepLogAt(s: Sys, t: Tid, s': Sys, u: Tid)
    requires Inv(s) && Step(s, t, s')
    ensures LogAt(s'.Pc(u), s'.log)
  {
    hide FullLog;
    OthersStay(s, t, s');
    assert LogAt(s.Pc(u), s.log) && LogAt(s.Pc(t), s.log) && LogIn(s.state, s.log);
    assert IsStarting(s.Pc(u)) && IsStarting(s.Pc(t)) ==> u == t;
    assert IsStopping(s.Pc(u)) ==> s.writer == Some(u);
  }

  /** The log a step leaves is the old one or one of the four that the hooks lead to. */
  lemma StepLogCases(s: Sys, t: Tid, s': Sys) returns (ok: bool)
    requires LogIn(s.state, s.log) && LogAt(s.Pc(t), s.log) && Step(s, t, s')
    ensures || s'.log == s.log
            || s'.log == [StartBegan]
            || s'.log == [StartBegan, StartEnded(ok)]
            || s'.log == [StartBegan, StartEnded(true), StopBegan]
            || s'.log == [StartBegan, StartEnded(true), StopBegan, StopEnded(ok)]
  {
    ok := if s'.Pc(t).StartFinish? || s'.Pc(t).StopFinish? then s'.Pc(t).ok else true;
  }

  lemma StepLogPrefix(s: Sys, t: Tid, s': Sys)
    requires LogInv(s) && Step(s, t, s')
    ensures exists startOk, stopOk :: s'.log <= FullLog(startOk, stopOk)
  {
    var ok := StepLogCases(s, t, s');
    hide Step, LogAt, LogIn;
    assert s'.log == s.log || s'.log <= FullLog(ok, true) || s'.log <= FullLog(true, ok);
  }

  lemma StepLog(s: Sys, t: Tid, s': Sys)
    requires Inv(s) && Step(s, t, s')
    ensures LogInv(s')
  {
    StepLogIn(s, t, s');
    StepLogPrefix(s, t, s');
    forall u: Tid
      ensures LogAt(s'.Pc(u), s'.log)
    {
      StepLogAt(s, t, s', u);
    }
  }

  lemma StepBody(s: Sys, t: Tid, s': Sys)
    requires Inv(s) && Step(s, t, s')
    ensures BodyInv(s')
  {
    hide LogInv, ResultInv, Truthful;
    OthersStay(s, t, s');
  }

  lemma TruthfulForward(s: Sys, t: Tid, s': Sys, r: Result)
    requires Step(s, t, s') && Truthful(r, s.state)
    ensures Truthful(r, s'.state)
  {
    assert s'.state == s.state || Edge(s.state, s'.state);
  }

  lemma StepResultAt(s: Sys, t: Tid, s': Sys, u: Tid)
    requires OwnerInv(s) && BodyInv(s) && ResultInv(s) && Step(s, t, s')
    ensures s'.Pc(u).Unlock? || s'.Pc(u).ReadUnlock? ==> Truthful(s'.Pc(u).result, s'.state)
    ensures u in s'.last ==> Truthful(s'.last[u], s'.state)
  {
    OthersStay(s, t, s');
    if s.Pc(u).Unlock? || s.Pc(u).ReadUnlock? {
      TruthfulForward(s, t, s', s.Pc(u).result);
    }
    if u in s.last {
      TruthfulForward(s, t, s', s.last[u]);
    }
  }

  lemma StepResults(s: Sys, t: Tid, s': Sys)
    requires Inv(s) && Step(s, t, s')
    ensures ResultInv(s')
  {
    hide Step, Truthful;
    forall u: Tid
      ensures s'.Pc(u).Unlock? || s'.Pc(u).ReadUnlock? ==> Truthful(s'.Pc(u).result, s'.state)
      ensures u in s'.last ==> Truthful(s'.last[u], s'.state)
    {
      StepResultAt(s, t, s', u);
    }
  }

  lemma StepInv(s: Sys, t: Tid, s': Sys)
    requires Inv(s) && Step(s, t, s')
    ensures Inv(s')
  {
    StepLock(s, t, s');
    StepOwner(s, t, s');
    StepLog(s, t, s');
    StepBody(s, t, s');
    StepResults(s, t, s');
  }

  // ---------- whole runs ----------

  ghost predicate Next(s: Sys, s': Sys) {
    exists t :: Step(s, t, s')
  }

  ghost predicate IsRun(run: seq<Sys>) {
    |run| > 0 && Init(run[0]) && forall i :: 0 <= i < |run| - 1 ==> Next(run[i], run[i + 1])
  }

  lemma {:induction false} RunInv(run: seq<Sys>, i: nat)
    requires IsRun(run) && i < |run|
    ensures Inv(run[i])
  {
    if i == 0 {
      InitInv(run[0]);
    } else {
      RunInv(run, i - 1);
      assert Next(run[i - 1], run[i]);
      var t :| Step(run[i - 1], t, run[i]);
      StepInv(run[i - 1], t, run[i]);
    }
  }

  /** The declared state graph. */
  predicate Edge(a: State, b: State) {
    || (a == Unstarted && b == Starting)
    || (a == Starting && (b == Started || b == StartFailed))
    || (a == Started && b == Stopping)
    || (a == Stopping && (b == Stopped || b == StopFailed))
  }

  /** `b` comes strictly after `a` along the declared graph. */
  predicate After(a: State, b: State) {
    match a
    case Unstarted => b != Unstarted
    case Starting => b != Unstarted && b != Starting
    case Started => b == Stopping || b == Stopped || b == StopFailed
    case Stopping => b == Stopped || b == StopFailed
    case _ => false
  }

  /** "After" is what one edge or more lead to, and no state comes after itself. */
  lemma AfterMeaning(a: State, c: State)
    ensures After(a, c) <==> Edge(a, c) || exists b :: Edge(a, b) && After(b, c)
    ensures !After(a, a) && !(After(a, c) && After(c, a))
  {
    assert Edge(Unstarted, Starting) && Edge(Starting, Started) && Edge(Starting, StartFailed) && Edge(Started, Stopping);
    assert Edge(Stopping, Stopped) && Edge(Stopping, StopFailed);
  }

  lemma StepForward(s: Sys, t: Tid, s': Sys)
    requires Step(s, t, s')
    ensures s'.state == s.state || Edge(s.state, s'.state)
    ensures s.log <= s'.log
  {
  }

  /** In every interleaving the state only moves forward along the declared graph, and history only grows. */
  lemma {:induction false} RunForward(run: seq<Sys>, i: nat, j: nat)
    requires IsRun(run) && i <= j < |run|
    ensures run[i].state == run[j].state || After(run[i].state, run[j].state)
    ensures run[i].log <= run[j].log
    decreases j - i
  {
    hide Step;
    if i < j {
      RunForward(run, i, j - 1);
      assert Next(run[j - 1], run[j]);
      var t :| Step(run[j - 1], t, run[j]);
      StepForward(run[j - 1], t, run[j]);
    }
  }

  ghost predicate AtMostOnce(log: seq<HookEvent>, e: HookEvent) {
    forall i, j :: 0 <= i < |log| && 0 <= j < |log| && log[i] == e && log[j] == e ==> i == j
  }

  /** In every state of every interleaving: each hook began at most once, a stop hook began only after a start hook
      returned nil, no two hooks overlap (every hook has ended before the next begins), at most one thread is in a
      hook, and neither "unreachable state" panic was reached. */
  lemma LifecycleSafety(run: seq<Sys>, i: nat)
    requires IsRun(run) && i < |run|
    ensures var log := run[i].log;
            && AtMostOnce(log, StartBegan) && AtMostOnce(log, StopBegan)
            && (exists startOk, stopOk :: log <= FullLog(startOk, stopOk))
            && (StopBegan in log ==> |log| >= 3 && log[..3] == [StartBegan, StartEnded(true), StopBegan])
    ensures forall t, u :: InHook(run[i].Pc(t)) && InHook(run[i].Pc(u)) ==> t == u
    ensures forall t :: run[i].Pc(t) != Panicked
  {
    RunInv(run, i);
  }

  /** While an IfStarted body runs the state is Started; while an IfNotStopped body runs it is neither Stopping nor
      Stopped; and no body overlaps a start or stop hook. */
  lemma GuardedBodies(run: seq<Sys>, i: nat, t: Tid)
    requires IsRun(run) && i < |run| && run[i].Pc(t).GuardBody?
    ensures run[i].Pc(t).guard == IfStarted ==> run[i].state == Started
    ensures run[i].Pc(t).guard == IfNotStopped ==> run[i].state != Stopping && run[i].state != Stopped
    ensures forall u :: !InHook(run[i].Pc(u))
  {
    RunInv(run, i);
    assert t in run[i].readers;
  }

  /** A result once returned stays true of the state in every later state of the run. */
  lemma ResultsStayTrue(run: seq<Sys>, i: nat, j: nat, t: Tid)
    requires IsRun(run) && i <= j < |run| && t in run[i].last
    ensures Truthful(run[i].last[t], run[j].state)
  {
    RunInv(run, i);
    RunForward(run, i, j);
  }

  /** Which call in progress can step, exactly: the two that wait for the write lock need it free of everybody, the one
      that waits for a read lock needs it free of a writer, and every other one never waits. */
  lemma WhoCanStep(s: Sys, t: Tid)
    requires Busy(s.Pc(t))
    ensures (exists s' :: Step(s, t, s')) <==>
              match s.Pc(t)
              case StartWait => s.writer == None && s.readers == {}
              case StopWait => s.writer == None && s.readers == {}
              case GuardWait(_) => s.writer == None
              case _ => true
  {
    if HoldsWrite(s.Pc(t)) || HoldsRead(s.Pc(t)) {
      var s' := Successor(s, t);
    } else {
      match s.Pc(t)
      case StartCas => StartIsDecidedAtOnce(s, t);
      case StartWait => assert s.LockFree() ==> Step(s, t, Successor(s, t));
      case StopWait => assert s.LockFree() ==> Step(s, t, Successor(s, t));
      case GuardWait(g) =>
        assert s.writer == None ==> Step(s, t, s.Goto(t, GuardCheck(g)).(readers := s.readers + {t}));
      case _ =>
    }
  }

  /** A second StartOnce returns at once, in a single step and whoever holds the lock; a first one is on its way. */
  lemma StartIsDecidedAtOnce(s: Sys, t: Tid)
    requires s.Pc(t) == StartCas
    ensures exists s' :: Step(s, t, s')
    ensures s.state != Unstarted ==>
              forall s' :: Step(s, t, s') ==>
                s'.Pc(t) == Outside && t in s'.last && s'.last[t] == StartRejected
                && s'.state == s.state && s'.writer == s.writer && s'.readers == s.readers && s'.log == s.log
    ensures s.state == Unstarted ==> forall s' :: Step(s, t, s') ==> s'.state == Starting && s'.Pc(t) == StartWait
  {
    assert Step(s, t, if s.state == Unstarted then s.Goto(t, StartWait).(state := Starting) else s.Return(t, StartRejected));
  }

  predicate Busy(pc: Pc) {
    pc != Outside && pc != Panicked
  }

  /** No deadlock: while some call is in progress, some call in progress can take a step. */
  lemma NoDeadlock(run: seq<Sys>, i: nat, t: Tid)
    requires IsRun(run) && i < |run| && run[i].Pc(t) != Outside
    ensures exists u, s' :: Busy(run[i].Pc(u)) && Step(run[i], u, s')
  {
    RunInv(run, i);
    var s := run[i];
    var u := if s.writer.Some? then s.writer.value else if s.readers != {} then Pick(s.readers) else t;
    var s' := Successor(s, u);
    assert Busy(s.Pc(u)) && Step(s, u, s');
  }

  ghost function Pick(ts: set<Tid>): (t: Tid)
    requires ts != {}
    ensures t in ts
  {
    var t :| t in ts; t
  }

  /** A step of a thread that holds the lock, or of any busy thread when the lock is free. */
  ghost function Successor(s: Sys, t: Tid): (s': Sys)
    requires Busy(s.Pc(t)) && (HoldsWrite(s.Pc(t)) || HoldsRead(s.Pc(t)) || s.LockFree())
    ensures Step(s, t, s')
  {
    match s.Pc(t)
    case StartCas => if s.state == Unstarted then s.Goto(t, StartWait).(state := Starting) else s.Return(t, StartRejected)
    case StartWait => s.Goto(t, StartHook).(writer := Some(t), log := s.log + [StartBegan])
    case StartHook => s.Goto(t, StartFinish(true)).(log := s.log + [StartEnded(true)])
    case StartFinish(ok) =>
      if s.state == Starting then s.Goto(t, Unlock(StartReturned(ok))).(state := if ok then Started else StartFailed)
      else s.Goto(t, Panicked)
    case StopWait => s.Goto(t, StopCas).(writer := Some(t))
    case StopCas =>
      if s.state == Started then s.Goto(t, StopHook).(state := Stopping, log := s.log + [StopBegan]) else s.Goto(t, StopReport)
    case StopReport => s.Goto(t, Unlock(StopRefusal(s.state)))
    case StopHook => s.Goto(t, StopFinish(true)).(log := s.log + [StopEnded(true)])
    case StopFinish(ok) =>
      if s.state == Stopping then s.Goto(t, Unlock(StopReturned(ok))).(state := if ok then Stopped else StopFailed)
      else s.Goto(t, Panicked)
    case Unlock(r) => s.Return(t, r).(writer := None)
    case GuardWait(g) => s.Goto(t, GuardCheck(g)).(readers := s.readers + {t})
    case GuardCheck(g) => s.Goto(t, if Admits(g, s.state) then GuardBody(g) else ReadUnlock(GuardReturned(g, false)))
    case GuardBody(g) => s.Goto(t, ReadUnlock(GuardReturned(g, true)))
    case ReadUnlock(r) => s.Return(t, r).(readers := s.readers - {t})
    case _ => s
  }
}
