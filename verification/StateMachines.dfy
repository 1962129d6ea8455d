/** The StateMachine object itself: the bodies of its methods, run without interruption. Every atomic action they take
    is recorded, so the object's history is a run of the lifecycle and everything proved of runs holds of the object. */
module StateMachines {
  import opened Options
  import opened Lifecycle

  class StateMachine {
    var state: State
    ghost var trace: seq<Sys>

    /** The recorded actions are a run that ends in this object's state. */
    ghost predicate Recorded()
      reads this
    {
      IsRun(trace) && Now().state == state
    }

    /** No call is in progress. */
    ghost predicate Valid()
      reads this
    {
      Recorded() && Now().LockFree() && forall t :: Now().Pc(t) == Outside
    }

    /** Only thread `t` is inside a call, at `pc`. */
    ghost predicate At(t: Tid, pc: Pc)
      reads this`trace
    {
      trace != [] && IsRun(trace) && Now().Pc(t) == pc && forall u :: u != t ==> Now().Pc(u) == Outside
    }

    ghost function Now(): Sys
      reads this`trace
      requires trace != []
    {
      trace[|trace| - 1]
    }

    lemma Enter(t: Tid)
      requires Valid()
      ensures trace != [] && At(t, Outside) && Now().Pc(t) == Outside && Now().LockFree() && Now().state == state
    {
    }

    lemma Leave(t: Tid)
      requires At(t, Outside)
      requires trace != [] && Now().LockFree() && Now().state == state
      ensures Valid()
    {
    }

    constructor ()
      ensures Valid() && state == Unstarted && Now().last == map[] && Now().log == []
    {
      state := Unstarted;
      trace := [Sys(Unstarted, None, {}, map[], map[], [])];
    }

    ghost method Record(t: Tid, next: Sys)
      requires trace != [] && At(t, Now().Pc(t)) && Step(Now(), t, next)
      modifies this`trace
      ensures trace == old(trace) + [next] && Now() == next && At(t, next.Pc(t))
    {
      hide Step;
      OthersStay(Now(), t, next);
      assert Next(Now(), next);
      trace := trace + [next];
    }

    method CompareAndSwap(expected: State, next: State) returns (success: bool)
      modifies this`state
      ensures success == (old(state) == expected)
      ensures state == if success then next else old(state)
    {
      success := state == expected;
      if success {
        state := next;
      }
    }

    lemma AtPc(t: Tid, pc: Pc)
      requires At(t, pc)
      ensures Now().Pc(t) == pc
    {
    }

    /** Releases the write lock. */
    ghost method Unlocked(t: Tid, r: Result)
      requires At(t, Unlock(r)) && trace != [] && Now().readers == {} && Now().state == state
      modifies this`trace
      ensures Valid() && old(trace) <= trace && Now().last == old(Now().last)[t := r] && Now().log == old(Now().log)
    {
      AtPc(t, Unlock(r));
      hide Valid, At, IsRun;
      Record(t, Now().Return(t, r).(writer := None));
      Leave(t);
    }

    /** The part of `StartOnce` after it has won the compare-and-swap. */
    method RunStartHook(t: Tid, hookOk: bool) returns (r: Result)
      requires At(t, StartCas) && trace != [] && Now().LockFree()
      requires Now().state == Unstarted && state == Starting
      modifies this
      ensures Valid() && old(trace) <= trace && r == StartReturned(hookOk) && state == if hookOk then Started else StartFailed
      ensures Now().last == old(Now().last)[t := r] && Now().log == old(Now().log) + [StartBegan, StartEnded(hookOk)]
    {
      AtPc(t, StartCas);
      hide Valid, At, IsRun;
      Record(t, Now().Goto(t, StartWait).(state := Starting));
      Record(t, Now().Goto(t, StartHook).(writer := Some(t), log := Now().log + [StartBegan]));
      Record(t, Now().Goto(t, StartFinish(hookOk)).(log := Now().log + [StartEnded(hookOk)]));
      var success := CompareAndSwap(Starting, if hookOk then Started else StartFailed);
      assert success;
      r := StartReturned(hookOk);
      Record(t, Now().Goto(t, Unlock(r)).(state := state));
      Unlocked(t, r);
    }

    /** `StartOnce` by thread `t`, whose hook returns nil exactly when `hookOk`. */
    method StartOnce(t: Tid, hookOk: bool) returns (r: Result)
      requires Valid()
      modifies this
      ensures Valid() && old(trace) <= trace && Now().last == old(Now().last)[t := r]
      ensures r == if old(state) == Unstarted then StartReturned(hookOk) else StartRejected
      ensures state == if old(state) != Unstarted then old(state) else if hookOk then Started else StartFailed
      ensures Now().log == old(Now().log) + if old(state) == Unstarted then [StartBegan, StartEnded(hookOk)] else []
    {
      Enter(t);
      hide Valid, At, IsRun;
      Record(t, Now().Goto(t, StartCas));
      var success := CompareAndSwap(Unstarted, Starting);
      if !success {
        Record(t, Now().Return(t, StartRejected));
        Leave(t);
        return StartRejected;
      }
      r := RunStartHook(t, hookOk);
    }

    /** The refused branch of `StopOnce`, lock held. */
    method RefuseStop(t: Tid) returns (r: Result)
      requires At(t, StopCas) && trace != [] && Now().writer == Some(t) && Now().readers == {}
      requires Now().state == state != Started
      modifies this`trace
      ensures Valid() && old(trace) <= trace
      ensures Now().last == old(Now().last)[t := r] && Now().log == old(Now().log)
      ensures r == match state case Stopped => AlreadyStopped case Unstarted => CannotStopUnstarted case _ => CannotStop
    {
      AtPc(t, StopCas);
      hide Valid, At, IsRun;
      Record(t, Now().Goto(t, StopReport));
      match state {
        case Stopped => r := AlreadyStopped;
        case Unstarted => r := CannotStopUnstarted;
        case _ => r := CannotStop;
      }
      Record(t, Now().Goto(t, Unlock(r)));
      Unlocked(t, r);
    }

    /** The accepted branch of `StopOnce`, lock held and the state already set to Stopping. */
    method RunStopHook(t: Tid, hookOk: bool) returns (r: Result)
      requires At(t, StopCas) && trace != [] && Now().writer == Some(t) && Now().readers == {}
      requires Now().state == Started && state == Stopping
      modifies this
      ensures Valid() && old(trace) <= trace && r == StopReturned(hookOk) && state == if hookOk then Stopped else StopFailed
      ensures Now().last == old(Now().last)[t := r] && Now().log == old(Now().log) + [StopBegan, StopEnded(hookOk)]
    {
      AtPc(t, StopCas);
      hide Valid, At, IsRun;
      Record(t, Now().Goto(t, StopHook).(state := Stopping, log := Now().log + [StopBegan]));
      Record(t, Now().Goto(t, StopFinish(hookOk)).(log := Now().log + [StopEnded(hookOk)]));
      var success := CompareAndSwap(Stopping, if hookOk then Stopped else StopFailed);
      assert success;
      r := StopReturned(hookOk);
      Record(t, Now().Goto(t, Unlock(r)).(state := state));
      Unlocked(t, r);
    }

    /** `StopOnce` by thread `t`, whose hook returns nil exactly when `hookOk`. */
    method StopOnce(t: Tid, hookOk: bool) returns (r: Result)
      requires Valid()
      modifies this
      ensures Valid() && old(trace) <= trace && Now().last == old(Now().last)[t := r]
      ensures r == match old(state)
                   case Started => StopReturned(hookOk)
                   case Stopped => AlreadyStopped
                   case Unstarted => CannotStopUnstarted
                   case _ => CannotStop
      ensures state == if old(state) != Started then old(state) else if hookOk then Stopped else StopFailed
      ensures Now().log == old(Now().log) + if old(state) == Started then [StopBegan, StopEnded(hookOk)] else []
    {
      Enter(t);
      hide Valid, At, IsRun;
      Record(t, Now().Goto(t, StopWait));
      Record(t, Now().Goto(t, StopCas).(writer := Some(t)));
      var success := CompareAndSwap(Started, Stopping);
      if !success {
        r := RefuseStop(t);
        return;
      }
      r := RunStopHook(t, hookOk);
    }

    /** Releases the read lock. */
    ghost method ReadUnlocked(t: Tid, r: Result)
      requires At(t, ReadUnlock(r)) && trace != [] && Now().readers == {t} && Now().writer == None && Now().state == state
      modifies this`trace
      ensures Valid() && old(trace) <= trace && Now().last == old(Now().last)[t := r] && Now().log == old(Now().log)
    {
      AtPc(t, ReadUnlock(r));
      hide Valid, At, IsRun;
      Record(t, Now().Return(t, r).(readers := Now().readers - {t}));
      Leave(t);
    }

    /** Takes the read lock and looks at the state: whether the body may run. */
    ghost method ReadLocked(t: Tid, guard: Guard)
      requires Valid()
      modifies this`trace
      ensures At(t, GuardCheck(guard)) && trace != [] && Now().Pc(t) == GuardCheck(guard)
      ensures Now().readers == {t} && Now().writer == None && Now().state == state
      ensures old(trace) <= trace && Now().last == old(Now().last) && Now().log == old(Now().log)
    {
      Enter(t);
      hide Valid, At, IsRun;
      Record(t, Now().Goto(t, GuardWait(guard)));
      Record(t, Now().Goto(t, GuardCheck(guard)).(readers := Now().readers + {t}));
    }

    /** `IfStarted` and `IfNotStopped` by thread `t`: whether the body ran. */
    method RunIf(t: Tid, guard: Guard) returns (ran: bool)
      requires Valid()
      modifies this`trace
      ensures Valid() && old(trace) <= trace && Now().last == old(Now().last)[t := GuardReturned(guard, ran)]
      ensures guard == IfStarted ==> ran == (state == Started)
      ensures guard == IfNotStopped ==> ran == (state != Stopped)
      ensures Now().log == old(Now().log)
    {
      hide Valid, At, IsRun;
      ReadLocked(t, guard);
      ran := if guard == IfStarted then state == Started else state != Stopped;
      if ran {
        Record(t, Now().Goto(t, GuardBody(guard)));
      }
      Record(t, Now().Goto(t, ReadUnlock(GuardReturned(guard, ran))));
      ReadUnlocked(t, GuardReturned(guard, ran));
    }
  }

  /** The object's history obeys the lifecycle: what a call once returned stays true of the state. */
  lemma ObjectKeepsResults(m: StateMachine, i: nat, t: Tid)
    requires m.Valid() && i < |m.trace| && t in m.trace[i].last
    ensures Truthful(m.trace[i].last[t], m.state)
  {
    ResultsStayTrue(m.trace, i, |m.trace| - 1, t);
  }
}
