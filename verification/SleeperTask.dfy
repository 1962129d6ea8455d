/** SleeperTask: the one-slot wake-up channel, the worker loop and Stop, on top of the lifecycle. A step is one atomic
    action of a calling thread (inside its hook or guarded body, or a lifecycle step) or of a worker loop. */
module SleeperTask {
  import opened Options
  import opened Lifecycle

  datatype LoopPc = Selecting | Working | Exited

  /** An accepted wake-up, a worker taking the token and starting Work, and Work returning. */
  datatype Event = Woken | Dequeued | WorkReturned

  /** `acted`: threads inside a hook or guarded body that have performed its channel operation.
      `fault`: a channel was closed twice. */
  datatype Task = Task(life: Sys, acted: set<Tid>, token: bool, stopClosed: bool, doneClosed: bool, fault: bool,
                       loops: map<nat, LoopPc>, log: seq<Event>)

  ghost predicate TaskInit(s: Task) {
    Init(s.life) && s == Task(s.life, {}, false, false, false, false, map[], [])
  }

  /** The start hook of the constructor launches a worker loop. */
  ghost predicate Spawn(s: Task, t: Tid, s': Task) {
    s.life.Pc(t) == StartHook && t !in s.acted &&
    exists id: nat :: id !in s.loops && s' == s.(loops := s.loops[id := Selecting], acted := s.acted + {t})
  }

  /** The stop hook closes chStop. */
  ghost predicate CloseStop(s: Task, t: Tid, s': Task) {
    s.life.Pc(t) == StopHook && t !in s.acted &&
    s' == s.(stopClosed := true, fault := s.fault || s.stopClosed, acted := s.acted + {t})
  }

  /** WakeUp's non-blocking send: a full slot keeps its token. */
  ghost predicate Send(s: Task, t: Tid, s': Task) {
    s.life.Pc(t) == GuardBody(IfStarted) && t !in s.acted &&
    s' == s.(token := true, log := s.log + [Woken], acted := s.acted + {t})
  }

  /** When a hook or body may end: the start hook returns nil once it has spawned the loop; the stop hook returns nil
      once chDone is closed, or an error at any time after closing chStop (the timeout). */
  ghost predicate MayEnd(s: Task, t: Tid, pc': Pc) {
    match s.life.Pc(t)
    case StartHook => t in s.acted && pc' == StartFinish(true)
    case StopHook => t in s.acted && (pc' == StopFinish(true) ==> s.doneClosed)
    case GuardBody(IfStarted) => t in s.acted
    case _ => true
  }

  ghost predicate Call(s: Task, t: Tid, s': Task) {
    && Step(s.life, t, s'.life)
    && MayEnd(s, t, s'.life.Pc(t))
    && s' == s.(life := s'.life, acted := s.acted - {t})
  }

  /** The worker loop's select, and Work returning. When both channels are ready, select takes either. */
  ghost predicate Loop(s: Task, id: nat, s': Task) {
    id in s.loops &&
    match s.loops[id]
    case Selecting =>
      || (s.token && s' == s.(token := false, loops := s.loops[id := Working], log := s.log + [Dequeued]))
      || (s.stopClosed && s' == s.(loops := s.loops[id := Exited], doneClosed := true, fault := s.fault || s.doneClosed))
    case Working => s' == s.(loops := s.loops[id := Selecting], log := s.log + [WorkReturned])
    case Exited => false
  }

  ghost predicate TaskNext(s: Task, s': Task) {
    || (exists t :: Spawn(s, t, s'))
    || (exists t :: CloseStop(s, t, s'))
    || (exists t :: Send(s, t, s'))
    || (exists t :: Call(s, t, s'))
    || (exists id :: Loop(s, id, s'))
  }

  // ---------- the history ----------

  /** Some accepted wake-up has no later dequeue. */
  predicate Pending(log: seq<Event>) {
    log != [] && match log[|log| - 1]
                 case Woken => true
                 case Dequeued => false
                 case WorkReturned => Pending(log[..|log| - 1])
  }

  /** A Work call has started and not returned. */
  predicate InWork(log: seq<Event>) {
    log != [] && match log[|log| - 1]
                 case Woken => InWork(log[..|log| - 1])
                 case Dequeued => true
                 case WorkReturned => false
  }

  /** No Work call starts inside another one. */
  predicate WorkAlternates(log: seq<Event>) {
    log == [] || (WorkAlternates(log[..|log| - 1]) && (log[|log| - 1] == Dequeued ==> !InWork(log[..|log| - 1])))
  }

  function Count(log: seq<Event>, e: Event): nat {
    if log == [] then 0 else Count(log[..|log| - 1], e) + if log[|log| - 1] == e then 1 else 0
  }

  ghost predicate Unserved(log: seq<Event>, i: nat) {
    i < |log| && log[i] == Woken && forall j :: i < j < |log| ==> log[j] != Dequeued
  }

  lemma {:induction false} PendingMeansUnserved(log: seq<Event>)
    ensures Pending(log) <==> exists i :: Unserved(log, i)
  {
    if log != [] {
      var front, last := log[..|log| - 1], log[|log| - 1];
      PendingMeansUnserved(front);
      if last == Woken {
        assert Unserved(log, |log| - 1);
      } else if last == WorkReturned {
        if i :| Unserved(front, i) {
          assert Unserved(log, i);
        }
        if i :| Unserved(log, i) {
          assert Unserved(front, i);
        }
      }
    }
  }

  lemma HistorySnoc(log: seq<Event>, e: Event)
    ensures Pending(log + [e]) <==> e == Woken || (e == WorkReturned && Pending(log))
    ensures InWork(log + [e]) <==> e == Dequeued || (e == Woken && InWork(log))
    ensures WorkAlternates(log + [e]) <==> WorkAlternates(log) && (e == Dequeued ==> !InWork(log))
    ensures forall x :: Count(log + [e], x) == Count(log, x) + if e == x then 1 else 0
  {
    assert (log + [e])[..|log|] == log;
  }

  // ---------- what every step keeps ----------

  predicate Begun(state: State) {
    state == Stopping || state == Stopped || state == StopFailed
  }

  /** At most one loop; none before the start hook has spawned it, one from then on. */
  ghost predicate LoopInv(s: Task) {
    && (forall a, b :: a in s.loops && b in s.loops ==> a == b)
    && (s.life.state == Unstarted ==> s.loops == map[])
    && (forall t :: s.life.Pc(t) == StartWait || (s.life.Pc(t) == StartHook && t !in s.acted) ==> s.loops == map[])
    && (forall t :: s.life.Pc(t).StartFinish? || (s.life.Pc(t) == StartHook && t in s.acted) ==> s.loops != map[])
    && (s.life.state == Started || Begun(s.life.state) ==> s.loops != map[])
    && (forall t :: s.life.Pc(t) != StartFinish(false)) && s.life.state != StartFailed
  }

  /** chStop is closed once, by the stop hook; chDone is closed once, by the loop's exit. */
  ghost predicate ChannelInv(s: Task) {
    && (s.stopClosed ==> Begun(s.life.state))
    && (forall t :: s.life.Pc(t) == StopHook ==> (s.stopClosed <==> t in s.acted))
    && (forall t :: s.life.Pc(t).StopFinish? ==> s.stopClosed)
    && (forall t :: s.life.Pc(t) == StopFinish(true) ==> s.doneClosed)
    && (s.life.state == Stopped || s.life.state == StopFailed ==> s.stopClosed)
    && (s.life.state == Stopped ==> s.doneClosed)
    && (forall id :: id in s.loops && s.loops[id] == Exited ==> s.stopClosed && s.doneClosed)
    && (s.doneClosed ==> exists id :: id in s.loops && s.loops[id] == Exited)
    && !s.fault
  }

  ghost predicate ActedInv(s: Task) {
    forall t :: t in s.acted ==> s.life.Pc(t) == StartHook || s.life.Pc(t) == StopHook || s.life.Pc(t) == GuardBody(IfStarted)
  }

  ghost predicate HistoryInv(s: Task) {
    && (s.token <==> Pending(s.log))
    && (InWork(s.log) <==> exists id :: id in s.loops && s.loops[id] == Working)
    && WorkAlternates(s.log)
    && Count(s.log, Dequeued) + (if s.token then 1 else 0) <= Count(s.log, Woken)
  }

  ghost predicate TaskInv(s: Task) {
    Inv(s.life) && LoopInv(s) && ChannelInv(s) && ActedInv(s) && HistoryInv(s)
  }

  lemma TaskInitInv(s: Task)
    requires TaskInit(s)
    ensures TaskInv(s)
  {
    InitInv(s.life);
  }

  lemma SpawnInv(s: Task, t: Tid, s': Task)
    requires TaskInv(s) && Spawn(s, t, s')
    ensures TaskInv(s')
  {
    hide LogInv, ResultInv, LockInv, Pending, InWork, WorkAlternates, Count;
    var id: nat :| id !in s.loops && s' == s.(loops := s.loops[id := Selecting], acted := s.acted + {t});
    assert IsStarting(s.life.Pc(t));
  }

  lemma CloseStopInv(s: Task, t: Tid, s': Task)
    requires TaskInv(s) && CloseStop(s, t, s')
    ensures TaskInv(s')
  {
    hide LogInv, ResultInv, Pending, InWork, WorkAlternates, Count;
    assert IsStopping(s.life.Pc(t)) && HoldsWrite(s.life.Pc(t));
    assert forall u: Tid :: s.life.Pc(u) == StopHook ==> HoldsWrite(s.life.Pc(u));
  }

  lemma SendInv(s: Task, t: Tid, s': Task)
    requires TaskInv(s) && Send(s, t, s')
    ensures TaskInv(s')
  {
    hide LogInv, ResultInv, LockInv, OwnerInv, Pending, InWork, WorkAlternates, Count;
    HistorySnoc(s.log, Woken);
  }

  lemma CallActed(s: Task, t: Tid, s': Task)
    requires ActedInv(s) && Call(s, t, s')
    ensures ActedInv(s')
  {
    OthersStay(s.life, t, s'.life);
  }

  lemma CallLoopsAt(s: Task, t: Tid, s': Task, u: Tid)
    requires LoopInv(s) && Call(s, t, s')
    ensures var pc := s'.life.Pc(u);
            && (pc == StartWait || (pc == StartHook && u !in s'.acted) ==> s'.loops == map[])
            && (pc.StartFinish? || (pc == StartHook && u in s'.acted) ==> s'.loops != map[])
            && pc != StartFinish(false)
  {
    OthersStay(s.life, t, s'.life);
  }

  lemma CallLoopsState(s: Task, t: Tid, s': Task)
    requires LoopInv(s) && Call(s, t, s')
    ensures s'.life.state == Unstarted ==> s'.loops == map[]
    ensures s'.life.state == Started || Begun(s'.life.state) ==> s'.loops != map[]
    ensures s'.life.state != StartFailed
  {
  }

  lemma CallLoops(s: Task, t: Tid, s': Task)
    requires TaskInv(s) && Call(s, t, s')
    ensures LoopInv(s') && ActedInv(s')
  {
    hide Step, MayEnd, ResultInv, LogInv, LockInv, OwnerInv, BodyInv, HistoryInv, ChannelInv, ActedInv;
    CallActed(s, t, s');
    CallLoopsState(s, t, s');
    forall u: Tid
      ensures var pc := s'.life.Pc(u);
              && (pc == StartWait || (pc == StartHook && u !in s'.acted) ==> s'.loops == map[])
              && (pc.StartFinish? || (pc == StartHook && u in s'.acted) ==> s'.loops != map[])
              && pc != StartFinish(false)
    {
      CallLoopsAt(s, t, s', u);
    }
  }

  lemma CallChannelsAt(s: Task, t: Tid, s': Task, u: Tid)
    requires LockInv(s.life) && OwnerInv(s.life) && ChannelInv(s) && Call(s, t, s')
    ensures s'.life.Pc(u) == StopHook ==> (s'.stopClosed <==> u in s'.acted)
    ensures s'.life.Pc(u).StopFinish? ==> s'.stopClosed
    ensures s'.life.Pc(u) == StopFinish(true) ==> s'.doneClosed
  {
    OthersStay(s.life, t, s'.life);
  }

  lemma CallChannels(s: Task, t: Tid, s': Task)
    requires TaskInv(s) && Call(s, t, s')
    ensures ChannelInv(s')
  {
    hide ResultInv, LogInv, HistoryInv, LoopInv, ActedInv, BodyInv;
    forall u: Tid
      ensures s'.life.Pc(u) == StopHook ==> (s'.stopClosed <==> u in s'.acted)
      ensures s'.life.Pc(u).StopFinish? ==> s'.stopClosed
      ensures s'.life.Pc(u) == StopFinish(true) ==> s'.doneClosed
    {
      CallChannelsAt(s, t, s', u);
    }
  }

  lemma CallInv(s: Task, t: Tid, s': Task)
    requires TaskInv(s) && Call(s, t, s')
    ensures TaskInv(s')
  {
    StepInv(s.life, t, s'.life);
    CallLoops(s, t, s');
    CallChannels(s, t, s');
  }

  lemma LoopStepInv(s: Task, id: nat, s': Task)
    requires TaskInv(s) && Loop(s, id, s')
    ensures TaskInv(s')
  {
    hide LogInv, ResultInv, LockInv, OwnerInv, Pending, InWork, WorkAlternates, Count;
    if s'.log != s.log {
      HistorySnoc(s.log, s'.log[|s.log|]);
    }
    assert s'.loops[id] != s.loops[id];
  }

  lemma TaskNextInv(s: Task, s': Task)
    requires TaskInv(s) && TaskNext(s, s')
    ensures TaskInv(s')
  {
    hide TaskInv, Spawn, CloseStop, Send, Call, Loop;
    if t :| Spawn(s, t, s') {
      SpawnInv(s, t, s');
    } else if t :| CloseStop(s, t, s') {
      CloseStopInv(s, t, s');
    } else if t :| Send(s, t, s') {
      SendInv(s, t, s');
    } else if t :| Call(s, t, s') {
      CallInv(s, t, s');
    } else {
      var id :| Loop(s, id, s');
      LoopStepInv(s, id, s');
    }
  }

  // ---------- whole runs ----------

  ghost predicate IsTaskRun(run: seq<Task>) {
    |run| > 0 && TaskInit(run[0]) && forall i :: 0 <= i < |run| - 1 ==> TaskNext(run[i], run[i + 1])
  }

  lemma {:induction false} TaskRunInv(run: seq<Task>, i: nat)
    requires IsTaskRun(run) && i < |run|
    ensures TaskInv(run[i])
  {
    hide TaskInv, TaskNext;
    if i == 0 {
      TaskInitInv(run[0]);
    } else {
      TaskRunInv(run, i - 1);
      TaskNextInv(run[i - 1], run[i]);
    }
  }

  /** No lost wake-up: in every reachable state, some accepted wake-up is still without a later dequeue exactly when the
      slot holds a token; and while started, a worker loop that has not exited is there to take it. */
  lemma NoLostWakeUp(run: seq<Task>, i: nat)
    requires IsTaskRun(run) && i < |run|
    ensures (exists k :: Unserved(run[i].log, k)) <==> run[i].token
    ensures run[i].life.state == Started ==> exists id :: id in run[i].loops && run[i].loops[id] != Exited
  {
    hide Inv, TaskNext;
    TaskRunInv(run, i);
    PendingMeansUnserved(run[i].log);
    var s := run[i];
    if s.life.state == Started {
      var id :| id in s.loops;
      assert s.loops[id] != Exited;
    }
  }

  /** Work calls never overlap, and Work starts never outnumber accepted wake-ups. */
  lemma WorkIsSerial(run: seq<Task>, i: nat)
    requires IsTaskRun(run) && i < |run|
    ensures WorkAlternates(run[i].log)
    ensures forall a, b :: a in run[i].loops && b in run[i].loops && run[i].loops[a] == run[i].loops[b] == Working ==> a == b
    ensures Count(run[i].log, Dequeued) <= Count(run[i].log, Woken)
  {
    hide Inv, TaskNext;
    TaskRunInv(run, i);
  }

  /** Neither channel is ever closed twice, and a task whose Stop returned nil has a worker loop that exited. */
  lemma StopIsClean(run: seq<Task>, i: nat)
    requires IsTaskRun(run) && i < |run|
    ensures !run[i].fault
    ensures run[i].life.state == Stopped
        ==> run[i].loops != map[] && forall id :: id in run[i].loops ==> run[i].loops[id] == Exited
  {
    hide Inv, TaskNext;
    TaskRunInv(run, i);
  }

  lemma CallAfterStop(s: Task, t: Tid, s': Task)
    requires Call(s, t, s') && Begun(s.life.state)
    ensures Begun(s'.life.state) && s'.log == s.log && s'.token == s.token && s'.doneClosed == s.doneClosed
  {
    StepForward(s.life, t, s'.life);
  }

  lemma StepAfterStop(s: Task, s': Task)
    requires TaskInv(s) && TaskNext(s, s') && Begun(s.life.state)
    ensures Begun(s'.life.state)
    ensures s'.token ==> s.token
    ensures s.log <= s'.log && Woken !in s'.log[|s.log|..]
    ensures s.doneClosed ==> s'.doneClosed && s'.log == s.log && s'.token == s.token
  {
    hide LogInv, ResultInv, LockInv, HistoryInv, Call;
    if t :| Call(s, t, s') {
      CallAfterStop(s, t, s');
    }
  }

  /** Once stopping has begun no wake-up is accepted and no token is added; once the loop has exited, nothing happens. */
  lemma {:induction false} NothingAfterStop(run: seq<Task>, i: nat, j: nat)
    requires IsTaskRun(run) && i <= j < |run| && Begun(run[i].life.state)
    ensures Begun(run[j].life.state)
    ensures run[j].token ==> run[i].token
    ensures run[i].log <= run[j].log && Woken !in run[j].log[|run[i].log|..]
    ensures run[i].doneClosed ==> run[j].doneClosed && run[j].log == run[i].log && run[j].token == run[i].token
    decreases j - i
  {
    hide TaskInv, TaskNext;
    if i < j {
      NothingAfterStop(run, i, j - 1);
      TaskRunInv(run, j - 1);
      StepAfterStop(run[j - 1], run[j]);
      var a, b, c := run[i].log, run[j - 1].log, run[j].log;
      assert c[|a|..] == b[|a|..] + c[|b|..];
    }
  }

  // ---------- what stopping does to accepted wake-ups ----------

  ghost function Last(run: seq<Task>): Task
    requires run != []
  {
    run[|run| - 1]
  }

  ghost predicate Continues(run: seq<Task>, longer: seq<Task>) {
    IsTaskRun(longer) && run <= longer
  }

  ghost predicate AllServed(s: Task) {
    forall k :: !Unserved(s.log, k)
  }

  /** Some accepted wake-up is not served, however the run goes on. */
  ghost predicate DropsForEver(run: seq<Task>) {
    forall longer :: Continues(run, longer) ==> !AllServed(Last(longer))
  }

  lemma Extend(run: seq<Task>, s': Task)
    requires IsTaskRun(run) && TaskNext(Last(run), s')
    ensures Continues(run, run + [s'])
  {
    hide TaskNext, TaskInit;
    var longer := run + [s'];
    forall i | 0 <= i < |longer| - 1
      ensures TaskNext(longer[i], longer[i + 1])
    {
      if i < |run| - 1 {
        assert longer[i] == run[i] && longer[i + 1] == run[i + 1];
      }
    }
  }

  /** Once stopping has begun, chStop is closed or the stop hook is about to close it. */
  lemma StopCanClose(run: seq<Task>) returns (longer: seq<Task>)
    requires IsTaskRun(run) && Begun(Last(run).life.state)
    ensures Continues(run, longer) && Last(longer).stopClosed
    ensures Last(longer).token == Last(run).token && Last(longer).doneClosed == Last(run).doneClosed
  {
    hide Step, Pending, InWork, Count, WorkAlternates;
    var s := Last(run);
    TaskRunInv(run, |run| - 1);
    longer := run;
    if !s.stopClosed {
      var t := s.life.writer.value;
      assert IsStopping(s.life.Pc(t));
      var closed := s.(stopClosed := true, fault := s.fault || s.stopClosed, acted := s.acted + {t});
      assert CloseStop(s, t, closed);
      Extend(run, closed);
      longer := run + [closed];
    }
  }

  /** A loop that may exit next: Work has returned, if it was running. */
  lemma LoopCanSelect(run: seq<Task>) returns (longer: seq<Task>, id: nat)
    requires IsTaskRun(run) && Last(run).stopClosed && !Last(run).doneClosed
    ensures Continues(run, longer) && Last(longer).token == Last(run).token && Last(longer).stopClosed
    ensures id in Last(longer).loops && Last(longer).loops[id] == Selecting && !Last(longer).doneClosed
  {
    hide Step, Inv, Pending, InWork, Count, WorkAlternates;
    var s := Last(run);
    TaskRunInv(run, |run| - 1);
    id :| id in s.loops;
    longer := run;
    if s.loops[id] == Working {
      var next := s.(loops := s.loops[id := Selecting], log := s.log + [WorkReturned]);
      assert Loop(s, id, next);
      Extend(run, next);
      longer := run + [next];
    }
  }

  /** With chStop closed the loop can exit without looking at the slot. */
  lemma LoopCanExit(run: seq<Task>) returns (longer: seq<Task>)
    requires IsTaskRun(run) && Last(run).stopClosed
    ensures Continues(run, longer) && Last(longer).doneClosed && Last(longer).token == Last(run).token
  {
    hide TaskNext, TaskInit;
    longer := run;
    if !Last(run).doneClosed {
      var id;
      longer, id := LoopCanSelect(run);
      var s := Last(longer);
      var exited := s.(loops := s.loops[id := Exited], doneClosed := true, fault := s.fault || s.doneClosed);
      assert Loop(s, id, exited);
      assert TaskNext(s, exited) by { LoopIsNext(s, id, exited); }
      Extend(longer, exited);
      longer := longer + [exited];
    }
  }

  lemma LoopIsNext(s: Task, id: nat, s': Task)
    requires Loop(s, id, s')
    ensures TaskNext(s, s')
  {
  }

  /** After the exit of the loop the slot decides, for ever. */
  lemma DecidedAtExit(run: seq<Task>, longer: seq<Task>)
    requires IsTaskRun(run) && Last(run).doneClosed && Continues(run, longer)
    ensures AllServed(Last(longer)) <==> !Last(run).token
  {
    hide TaskNext, Inv, TaskInit;
    var i, j := |run| - 1, |longer| - 1;
    TaskRunInv(run, i);
    assert longer[i] == run[i] && Begun(run[i].life.state);
    NothingAfterStop(longer, i, j);
    NoLostWakeUp(longer, j);
  }

  /** Without a token once stopping has begun, nothing is ever unserved. */
  lemma ServedFromThenOn(run: seq<Task>, longer: seq<Task>)
    requires IsTaskRun(run) && Begun(Last(run).life.state) && !Last(run).token && Continues(run, longer)
    ensures AllServed(Last(longer))
  {
    hide TaskNext, TaskInit;
    assert longer[|run| - 1] == Last(run);
    NothingAfterStop(longer, |run| - 1, |longer| - 1);
    NoLostWakeUp(longer, |longer| - 1);
  }

  /** The promise "Work is called at least once for every WakeUp", decided at any moment from when stopping begins. With
      the slot empty, every accepted wake-up has been served and stays so in every continuation. With a token in the
      slot, some continuation drops it for ever. */
  lemma ServedExactlyWhenSlotEmpty(run: seq<Task>)
    requires IsTaskRun(run) && Begun(Last(run).life.state)
    ensures !Last(run).token <==> forall longer :: Continues(run, longer) ==> AllServed(Last(longer))
    ensures Last(run).token <==> exists longer :: Continues(run, longer) && DropsForEver(longer)
  {
    assert run != [];
    hide Begun, AllServed, TaskNext, TaskInit;
    if Last(run).token {
      var closed := StopCanClose(run);
      var exited := LoopCanExit(closed);
      forall longer | Continues(exited, longer)
        ensures !AllServed(Last(longer))
      {
        DecidedAtExit(exited, longer);
      }
      assert Continues(run, exited) && DropsForEver(exited);
      assert Continues(exited, exited);
    } else {
      forall longer | Continues(run, longer)
        ensures AllServed(Last(longer))
      {
        ServedFromThenOn(run, longer);
      }
      forall longer | Continues(run, longer)
        ensures !DropsForEver(longer)
      {
        assert Continues(longer, longer);
      }
    }
  }

  // ---------- what the task can still do ----------

  /** The loop can come back to its select, with a running Work call returned first. */
  lemma LoopCanReturn(run: seq<Task>, id: nat) returns (longer: seq<Task>)
    requires IsTaskRun(run) && id in Last(run).loops && Last(run).loops[id] != Exited
    ensures Continues(run, longer)
    ensures Last(longer) == Last(run).(loops := Last(run).loops[id := Selecting], log := Last(longer).log)
    ensures Count(Last(longer).log, Dequeued) == Count(Last(run).log, Dequeued)
    ensures Count(Last(longer).log, Woken) == Count(Last(run).log, Woken)
  {
    var s := Last(run);
    if s.loops[id] == Working {
      var next := s.(loops := s.loops[id := Selecting], log := s.log + [WorkReturned]);
      hide TaskInit, Count, IsTaskRun;
      assert TaskNext(s, next) by { assert Loop(s, id, next); LoopIsNext(s, id, next); }
      HistorySnoc(s.log, WorkReturned);
      hide TaskNext;
      Extend(run, next);
      longer := run + [next];
    } else {
      longer := run;
      assert s.loops == s.loops[id := Selecting];
    }
  }

  /** The loop at its select can take the token and start Work. */
  lemma LoopCanTake(run: seq<Task>, id: nat) returns (longer: seq<Task>)
    requires IsTaskRun(run) && id in Last(run).loops && Last(run).loops[id] == Selecting && Last(run).token
    ensures Continues(run, longer)
    ensures var s := Last(run);
            Last(longer) == s.(token := false, loops := s.loops[id := Working], log := s.log + [Dequeued])
  {
    var s := Last(run);
    var next := s.(token := false, loops := s.loops[id := Working], log := s.log + [Dequeued]);
    assert TaskNext(s, next) by { assert Loop(s, id, next); LoopIsNext(s, id, next); }
    hide TaskNext, TaskInit;
    Extend(run, next);
    longer := run + [next];
  }

  /** From every reachable state with a token and a loop that has not exited, whether it waits or is inside Work, the token
      can be taken and served: one more Work call starts and returns, the slot is empty, no wake-up is unserved. */
  lemma TokenCanBeServed(run: seq<Task>, id: nat) returns (longer: seq<Task>)
    requires IsTaskRun(run) && Last(run).token && id in Last(run).loops && Last(run).loops[id] != Exited
    ensures Continues(run, longer)
    ensures Count(Last(longer).log, Dequeued) == Count(Last(run).log, Dequeued) + 1
    ensures Count(Last(longer).log, Woken) == Count(Last(run).log, Woken)
    ensures !Last(longer).token && AllServed(Last(longer)) && !InWork(Last(longer).log)
    ensures Last(longer).loops == Last(run).loops[id := Selecting]
  {
    hide Loop, TaskNext, TaskInit, Count, Pending, InWork, WorkAlternates, Unserved, Inv;
    var waiting := LoopCanReturn(run, id);
    var taken := LoopCanTake(waiting, id);
    HistorySnoc(Last(waiting).log, Dequeued);
    longer := LoopCanReturn(taken, id);
    TaskRunInv(longer, |longer| - 1);
    NoLostWakeUp(longer, |longer| - 1);
    var s := Last(longer);
    assert id in s.loops && LoopInv(s);
    assert forall x :: x in s.loops ==> x == id;
  }

  /** Once stopping has begun, an accepted wake-up that waits in the slot can still be served exactly while the loop has
      not closed chDone. */
  lemma ServableExactlyWhileOpen(run: seq<Task>)
    requires IsTaskRun(run) && Begun(Last(run).life.state) && Last(run).token
    ensures (exists longer :: Continues(run, longer) && AllServed(Last(longer))) <==> !Last(run).doneClosed
  {
    hide TaskNext, TaskInit, AllServed, Inv;
    var s := Last(run);
    if s.doneClosed {
      forall longer | Continues(run, longer)
        ensures !AllServed(Last(longer))
      {
        DecidedAtExit(run, longer);
      }
    } else {
      TaskRunInv(run, |run| - 1);
      var id :| id in s.loops;
      assert s.loops[id] != Exited;
      var longer := TokenCanBeServed(run, id);
      assert Continues(run, longer) && AllServed(Last(longer));
    }
  }

  /** WakeUp does not block: inside its guarded body the send is possible whatever the slot and the loop are doing. It is
      accepted, and leaves a token. */
  lemma WakeUpNeverBlocks(run: seq<Task>, t: Tid) returns (longer: seq<Task>)
    requires IsTaskRun(run) && Last(run).life.Pc(t) == GuardBody(IfStarted) && t !in Last(run).acted
    ensures Continues(run, longer) && Last(longer).token && Last(longer).log == Last(run).log + [Woken]
    ensures Last(longer).life == Last(run).life && Last(longer).loops == Last(run).loops
  {
    var s := Last(run);
    var sent := s.(token := true, log := s.log + [Woken], acted := s.acted + {t});
    assert TaskNext(s, sent) by { assert Send(s, t, sent); }
    hide TaskNext, TaskInit;
    Extend(run, sent);
    longer := run + [sent];
  }

  // ---------- a run that drops a wake-up ----------

  ghost predicate Reachable(s: Task) {
    exists run :: IsTaskRun(run) && Last(run) == s
  }

  lemma Reach(s: Task, s': Task)
    requires Reachable(s) && TaskNext(s, s')
    ensures Reachable(s')
  {
    hide TaskNext, TaskInit;
    var run :| IsTaskRun(run) && Last(run) == s;
    Extend(run, s');
    assert Last(run + [s']) == s';
  }

  /** A call step to a given lifecycle state. */
  lemma ReachCall(s: Task, t: Tid, life: Sys) returns (s': Task)
    requires Reachable(s) && Step(s.life, t, life) && MayEnd(s, t, life.Pc(t))
    ensures Reachable(s') && s' == s.(life := life, acted := s.acted - {t})
  {
    s' := s.(life := life, acted := s.acted - {t});
    assert Call(s, t, s');
    Reach(s, s');
  }

  lemma ReachStarting() returns (s: Task)
    ensures Reachable(s) && s.life.writer == Some(0) && s.life.readers == {} && s.life.state == Starting
    ensures s.life.pcs.Keys == {0} && s.life.Pc(0) == StartHook
    ensures s == Task(s.life, {}, false, false, false, false, map[], [])
  {
    s := Task(Sys(Unstarted, None, {}, map[], map[], []), {}, false, false, false, false, map[], []);
    assert Reachable(s) by { assert IsTaskRun([s]); }
    hide Reachable;
    s := ReachCall(s, 0, s.life.Goto(0, StartCas));
    s := ReachCall(s, 0, s.life.Goto(0, StartWait).(state := Starting));
    s := ReachCall(s, 0, s.life.Goto(0, StartHook).(writer := Some(0), log := s.life.log + [StartBegan]));
  }

  lemma ReachStarted() returns (s: Task)
    ensures Reachable(s) && s.life.LockFree() && s.life.state == Started && s.life.pcs.Keys == {0} && s.life.Pc(0) == Outside
    ensures s == Task(s.life, {}, false, false, false, false, map[0 := Selecting], [])
  {
    hide Reachable;
    s := ReachStarting();
    var spawned := s.(loops := s.loops[0 := Selecting], acted := s.acted + {0});
    assert Spawn(s, 0, spawned) by { assert 0 !in s.loops; }
    Reach(s, spawned);
    s := ReachCall(spawned, 0, spawned.life.Goto(0, StartFinish(true)).(log := spawned.life.log + [StartEnded(true)]));
    s := ReachCall(s, 0, s.life.Goto(0, Unlock(StartReturned(true))).(state := Started));
    s := ReachCall(s, 0, s.life.Return(0, StartReturned(true)).(writer := None));
  }

  lemma ReachWaking() returns (s: Task)
    ensures Reachable(s) && s.life.writer == None && s.life.readers == {1} && s.life.state == Started
    ensures s.life.pcs.Keys == {0, 1} && s.life.Pc(1) == GuardBody(IfStarted)
    ensures s == Task(s.life, {}, false, false, false, false, map[0 := Selecting], [])
  {
    hide Reachable;
    s := ReachStarted();
    s := ReachCall(s, 1, s.life.Goto(1, GuardWait(IfStarted)));
    s := ReachCall(s, 1, s.life.Goto(1, GuardCheck(IfStarted)).(readers := s.life.readers + {1}));
    s := ReachCall(s, 1, s.life.Goto(1, GuardBody(IfStarted)));
  }

  lemma ReachWoken() returns (s: Task)
    ensures Reachable(s) && s.life.LockFree() && s.life.state == Started && s.life.pcs.Keys == {0, 1}
    ensures s == Task(s.life, {}, true, false, false, false, map[0 := Selecting], [Woken])
  {
    hide Reachable;
    s := ReachWaking();
    var sent := s.(token := true, log := s.log + [Woken], acted := s.acted + {1});
    assert Send(s, 1, sent);
    Reach(s, sent);
    s := ReachCall(sent, 1, sent.life.Goto(1, ReadUnlock(GuardReturned(IfStarted, true))));
    s := ReachCall(s, 1, s.life.Return(1, GuardReturned(IfStarted, true)).(readers := s.life.readers - {1}));
  }

  lemma ReachStopping() returns (s: Task)
    ensures Reachable(s) && s.life.writer == Some(2) && s.life.readers == {} && s.life.state == Stopping
    ensures s.life.pcs.Keys == {0, 1, 2} && s.life.Pc(2) == StopHook
    ensures s == Task(s.life, {}, true, false, false, false, map[0 := Selecting], [Woken])
  {
    hide Reachable;
    s := ReachWoken();
    s := ReachCall(s, 2, s.life.Goto(2, StopWait));
    s := ReachCall(s, 2, s.life.Goto(2, StopCas).(writer := Some(2)));
    s := ReachCall(s, 2, s.life.Goto(2, StopHook).(state := Stopping, log := s.life.log + [StopBegan]));
  }

  /** Stop may win the worker's select against a waiting token: the accepted wake-up is then never served. */
  lemma StopCanDropWakeUp() returns (s: Task)
    ensures Reachable(s) && s.life.state == Stopped && Unserved(s.log, 0) && Count(s.log, Dequeued) == 0
  {
    hide Reachable;
    s := ReachStopping();
    var closed := s.(stopClosed := true, acted := s.acted + {2});
    assert CloseStop(s, 2, closed);
    Reach(s, closed);
    var exited := closed.(loops := closed.loops[0 := Exited], doneClosed := true);
    assert Loop(closed, 0, exited);
    Reach(closed, exited);
    s := ReachCall(exited, 2, exited.life.Goto(2, StopFinish(true)).(log := exited.life.log + [StopEnded(true)]));
    s := ReachCall(s, 2, s.life.Goto(2, Unlock(StopReturned(true))).(state := Stopped));
  }

  /** Stop may give up while a Work call is still running: its error is returned and the state is StopFailed. */
  lemma StopCanTimeOut() returns (s: Task)
    ensures Reachable(s) && s.life.state == StopFailed && InWork(s.log) && !s.doneClosed
  {
    hide Reachable;
    s := ReachStopping();
    var closed := s.(stopClosed := true, acted := s.acted + {2});
    assert CloseStop(s, 2, closed);
    Reach(s, closed);
    var working := closed.(token := false, loops := closed.loops[0 := Working], log := closed.log + [Dequeued]);
    assert Loop(closed, 0, working);
    Reach(closed, working);
    s := ReachCall(working, 2, working.life.Goto(2, StopFinish(false)).(log := working.life.log + [StopEnded(false)]));
    s := ReachCall(s, 2, s.life.Goto(2, Unlock(StopReturned(false))).(state := StopFailed));
  }
}
