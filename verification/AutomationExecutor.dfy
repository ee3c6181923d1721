/**
 * The executor's loops and the control calls as the service runs them.
 *
 * Each method keeps, as ghost state, the state of the step machine it has reached.  Between any two of
 * its critical sections the others may move: Interfere promises only that they take steps of the
 * machine.  So every execution of these methods, under any interference, is a run of the step machine,
 * and what AutomationLaws proves about all runs holds for them.
 */
module AutomationExecutor {
  import opened Common
  import opened AutomationRun
  import opened AutomationEngine
  import opened AutomationLaws

  datatype Waited = Proceed | Cancelled | StillBlocked

  class Execution {
    const control: RunControl
    var started: seq<nat>     // actions handed to the action executor
    var finished: seq<nat>    // actions that came back without error
    const total: nat
    /** How often the channel is closed in this execution; any finite execution has such a number. */
    ghost const resumes: nat
    ghost var machine: System

    ghost predicate Sync()
      reads this, control, control.run
    {
      && Reaches(Initial(total), machine)
      && machine.core.control == control.View()
      && machine.core.control.run.total == total
      && machine.work == Work(started, finished)
    }

    constructor (control: RunControl, total: nat, ghost resumes: nat)
      requires control.View() == Initial(total).core.control
      ensures this.control == control && this.total == total && this.resumes == resumes
      ensures Sync() && machine == Initial(total)
    {
      this.control, this.total, this.resumes := control, total, resumes;
      started, finished := [], [];
      machine := Initial(total);
      new;
      ReachesItself(Initial(total));
    }

    /** Whatever the callers do between two steps of the executor; only this contract is used. */
    method CallersMove()
      requires Sync() && control.channel <= resumes
      modifies this`machine, control, control.run
      ensures Sync() && Reaches(old(machine), machine)
      ensures machine.executor == old(machine.executor) && machine.registered == old(machine.registered)
      ensures old(control.channel) <= control.channel <= resumes
    {
      ReachesItself(machine);
    }

    /** Whatever the executor and the other callers do between two steps of one caller. */
    method OthersMove(id: nat)
      requires Sync() && id in machine.callers
      modifies this, control, control.run
      ensures Sync() && Reaches(old(machine), machine)
      ensures id in machine.callers && machine.callers[id] == old(machine.callers[id])
    {
      ReachesItself(machine);
    }

    /** The machine's executor takes the step that the code has just taken. */
    ghost method Executed(now: nat, ok: bool)
      requires Reaches(Initial(total), machine)
      modifies this`machine
      ensures machine == ExecutorStep(old(machine), now, ok) && Reaches(Initial(total), machine)
    {
      ReachesFurther(Initial(total), machine, Event.Execute(now, ok));
      machine := ExecutorStep(machine, now, ok);
    }

    ghost method Called(id: nat, now: nat, ok: bool)
      requires Reaches(Initial(total), machine) && id in machine.callers
      modifies this`machine
      ensures machine == CallerStep(old(machine), id, now, ok) && Reaches(Initial(total), machine)
      ensures Reaches(old(machine), machine)
    {
      ReachesItself(machine);
      ReachesFurther(machine, machine, Event.Advance(id, now, ok));
      ReachesFurther(Initial(total), machine, Event.Advance(id, now, ok));
      machine := CallerStep(machine, id, now, ok);
    }

    // -------------------------------------------------------------- the executor

    /** The critical section of a transition. */
    method MoveRun(next: Status) returns (outcome: Outcome)
      requires Sync() && control.channel <= resumes && ExecutorTarget(machine.executor) == Some(next)
      modifies this`machine, control, control.run
      ensures Sync() && control.channel <= resumes && machine.registered == old(machine.registered)
      ensures machine.executor == match (old(machine.executor), outcome)
                case (Starting, AlreadyThere) => if total > 0 then Checking(0) else Finishing
                case (Starting, Changed) => StartSaving
                case (Starting, Illegal) => Done(true)
                case (FailTransition, Changed) => FailSaving
                case (Stopping, Changed) => StopSaving
                case (_, Changed) => FinishSaving
                case _ => Releasing
    {
      hide Reaches;
      var now: nat := *;
      outcome := control.TransitionRun(next, now);
      Executed(now, true);
    }

    /** The save that follows it, outside the lock. */
    method SaveRun() returns (saveOk: bool)
      requires Sync() && control.channel <= resumes
      requires var pc := machine.executor; pc.StartSaving? || pc.FailSaving? || pc.StopSaving? || pc.FinishSaving?
      modifies this`machine, control, control.run
      ensures Sync() && control.channel <= resumes && machine.registered == old(machine.registered)
      ensures machine.executor ==
                if !old(machine.executor).StartSaving? then Releasing
                else if saveOk then (if total > 0 then Checking(0) else Finishing)
                else Done(true)
    {
      hide Reaches;
      CallersMove();
      saveOk := *;
      Executed(0, saveOk);
    }

    /** Moves the run and saves it; ok exactly when the executor may go on as after a successful transition. */
    method TransitionRun(next: Status) returns (ok: bool)
      requires Sync() && control.channel <= resumes && ExecutorTarget(machine.executor) == Some(next)
      modifies this`machine, control, control.run
      ensures Sync() && control.channel <= resumes && machine.registered == old(machine.registered)
      ensures machine.executor ==
                if !old(machine.executor).Starting? then Releasing
                else if ok then (if total > 0 then Checking(0) else Finishing)
                else Done(true)
    {
      hide Sync;
      var outcome := MoveRun(next);
      if outcome != Changed {
        return outcome == AlreadyThere;
      }
      ok := SaveRun();
    }

    /**
     * Waits while the run is paused.  StillBlocked means that after all the callers ever did neither
     * the channel was closed nor the context cancelled.
     */
    method Wait(i: nat) returns (result: Waited)
      requires Sync() && machine.executor == Checking(i) && control.channel <= resumes
      modifies this`machine, control, control.run
      ensures Sync() && machine.registered == old(machine.registered) && control.channel <= resumes
      ensures match result
              case Proceed => machine.executor == Launching(i)
              case Cancelled => machine.executor == Stopping
              case StillBlocked =>
                machine.executor == Blocked(i, control.channel) && !control.cancelled
    {
      hide Reaches;
      while true
        invariant Sync() && machine.executor == Checking(i) && machine.registered == old(machine.registered)
        invariant control.channel <= resumes
        decreases resumes - control.channel
      {
        CallersMove();
        var paused, resume := control.paused, control.channel;
        Executed(0, true);
        if !paused {
          CallersMove();
          var cancelled := control.cancelled;
          Executed(0, true);
          return if cancelled then Cancelled else Proceed;
        }
        CallersMove();
        var preferCancel: bool := *;
        if control.cancelled && (preferCancel || resume >= control.channel) {
          Executed(0, false);
          return Cancelled;
        }
        if resume >= control.channel {
          return StillBlocked;
        }
        Executed(0, true);
      }
    }

    method RecordProgress(i: nat)
      requires Sync() && control.channel <= resumes && machine.executor == Recording(i)
      modifies this`machine, control, control.run
      ensures Sync() && control.channel <= resumes
      ensures machine.registered == old(machine.registered) && machine.executor == RecordSaving(i)
    {
      hide Reaches;
      control.UpdateProgress(i + 1);
      Executed(0, true);
    }

    method SaveProgress(i: nat) returns (saveOk: bool)
      requires Sync() && control.channel <= resumes && machine.executor == RecordSaving(i)
      modifies this`machine, control, control.run
      ensures Sync() && control.channel <= resumes && machine.registered == old(machine.registered)
      ensures machine.executor == if !saveOk then Releasing else if i + 1 < total then Checking(i + 1) else Finishing
    {
      hide Reaches;
      CallersMove();
      saveOk := *;
      Executed(0, saveOk);
    }

    method UpdateProgress(i: nat) returns (ok: bool)
      requires Sync() && control.channel <= resumes && machine.executor == Recording(i)
      modifies this`machine, control, control.run
      ensures Sync() && control.channel <= resumes && machine.registered == old(machine.registered)
      ensures machine.executor == if !ok then Releasing else if i + 1 < total then Checking(i + 1) else Finishing
    {
      hide Sync;
      CallersMove();
      RecordProgress(i);
      ok := SaveProgress(i);
    }

    /** The action is handed to the action executor and comes back. */
    method PerformAction(i: nat) returns (actionOk: bool)
      requires Sync() && control.channel <= resumes && machine.executor == Launching(i)
      modifies this, control, control.run
      ensures Sync() && control.channel <= resumes && machine.registered == old(machine.registered)
      ensures machine.executor == if actionOk then Recording(i) else ActionErred(i)
    {
      hide Reaches;
      started := started + [i];
      Executed(0, true);
      CallersMove();
      actionOk := *;
      if actionOk {
        finished := finished + [i];
      }
      Executed(0, actionOk);
    }

    /** A failed action of a cancelled run counts as a stop. */
    method WasCancelled(i: nat) returns (cancelled: bool)
      requires Sync() && control.channel <= resumes && machine.executor == ActionErred(i)
      modifies this`machine, control, control.run
      ensures Sync() && control.channel <= resumes && machine.registered == old(machine.registered)
      ensures machine.executor == if cancelled then Stopping else Failing
    {
      hide Reaches;
      CallersMove();
      cancelled := control.cancelled;
      Executed(0, true);
    }

    method RecordFailure()
      requires Sync() && control.channel <= resumes && machine.executor == Failing
      modifies this`machine, control, control.run
      ensures Sync() && control.channel <= resumes
      ensures machine.registered == old(machine.registered) && machine.executor == FailTransition
    {
      hide Reaches;
      CallersMove();
      control.MarkActionFailed();
      Executed(0, true);
    }

    /** The deferred removal of the control. */
    method Release()
      requires Sync() && control.channel <= resumes && machine.executor == Releasing
      modifies this`machine, control, control.run
      ensures Sync() && control.channel <= resumes && machine.executor == Done(false) && !machine.registered
    {
      hide Reaches;
      CallersMove();
      Executed(0, true);
    }

    /** One round of the loop after its wait. */
    method ExecuteAction(i: nat, waited: Waited) returns (running: bool)
      requires Sync() && control.channel <= resumes && machine.registered && i < total
      requires (waited == Proceed && machine.executor == Launching(i)) || (waited == Cancelled
          && machine.executor == Stopping)
      modifies this, control, control.run
      ensures Sync() && control.channel <= resumes && machine.registered
      ensures machine.executor == if !running then Releasing else if i + 1 < total then Checking(i + 1) else Finishing
    {
      hide Sync, ExecutorTarget;
      Targets();
      if waited.Cancelled? {
        var _ := TransitionRun(Stopped);
        return false;
      }
      var actionOk := PerformAction(i);
      if !actionOk {
        var cancelled := WasCancelled(i);
        if cancelled {
          var _ := TransitionRun(Stopped);
          return false;
        }
        RecordFailure();
        var _ := TransitionRun(Failed);
        return false;
      }
      running := UpdateProgress(i);
    }

    /** The execution goroutine; released tells whether the deferred removal of the control ran. */
    method Execute() returns (released: bool)
      requires Sync() && control.channel <= resumes && machine.executor == Starting && machine.registered
      modifies this, control, control.run
      ensures Sync() && control.channel <= resumes
      ensures machine.executor.Blocked? || machine.executor.Done?
      ensures machine.executor.Done? ==> machine.executor == Done(!released) && machine.registered == !released
      ensures machine.executor.Blocked? ==>
                !released && machine.registered && machine.executor.on == control.channel && !control.cancelled
    {
      hide Sync, ExecutorTarget;
      Targets();
      released := false;
      var ok := TransitionRun(Running);
      if !ok {
        return;
      }
      var i := 0;
      var running := true;
      while i < total && running
        invariant i <= total
        invariant Sync() && control.channel <= resumes && machine.registered
        invariant machine.executor == if !running then Releasing else if i < total then Checking(i) else Finishing
      {
        var waited := Wait(i);
        if waited.StillBlocked? {
          return;
        }
        running := ExecuteAction(i, waited);
        i := i + 1;
      }
      if running {
        ok := TransitionRun(Succeeded);
      }
      Release();
      released := true;
    }

    // -------------------------------------------------------------- control calls

    /** The status change of a call; the call is at pc and goes on as the machine's caller does. */
    method CallTransition(id: nat, next: Status) returns (outcome: Outcome)
      requires Sync() && id in machine.callers && CallerTarget(machine.callers[id]) == Some(next)
      modifies this, control, control.run
      ensures Sync() && Reaches(old(machine), machine) && id in machine.callers
      ensures machine.callers[id] ==
                match (old(machine.callers[id]), outcome)
                case (PauseTransition, Changed) => PauseSaving
                case (PauseTransition, Illegal) => PauseRollback
                case (ResumeTransition, Changed) => ResumeSaving
                case (StopTransition, AlreadyThere) => StopCancel
                case (StopTransition, Changed) => StopSavingCall
                case (_, AlreadyThere) => Returned(true)
                case _ => Returned(false)
      ensures outcome != Illegal ==> next in machine.core.history
    {
      OthersMove(id);
      StatusIsRecorded(total, machine);
      var now: nat := *;
      ghost var before := machine;
      outcome := control.TransitionRun(next, now);
      Called(id, now, true);
      ReachesOnward(old(machine), before, machine);
    }

    /** The save that follows it. */
    method CallSave(id: nat) returns (saveOk: bool)
      requires Sync() && id in machine.callers && CallerSaves(machine.callers[id])
      modifies this, control, control.run
      ensures Sync() && Reaches(old(machine), machine) && id in machine.callers
      ensures machine.callers[id] ==
                match old(machine.callers[id])
                case PauseSaving => if saveOk then Returned(true) else PauseRollback
                case StopSavingCall => if saveOk then StopCancel else Returned(false)
                case _ => Returned(saveOk)
    {
      OthersMove(id);
      ghost var before := machine;
      saveOk := *;
      Called(id, 0, saveOk);
      ReachesOnward(old(machine), before, machine);
    }

    method RaiseFlag(id: nat) returns (entered: bool)
      requires Sync() && id in machine.callers && machine.callers[id] == PauseEntry
      modifies this, control, control.run
      ensures Sync() && Reaches(old(machine), machine) && id in machine.callers
      ensures machine.callers[id] == (if entered then PauseTransition else Returned(true)) && control.paused
    {
      OthersMove(id);
      ghost var before := machine;
      entered := control.Pause();
      Called(id, 0, true);
      ReachesOnward(old(machine), before, machine);
    }

    /** The flag is cleared; the channel stays as it is. */
    method RollBack(id: nat)
      requires Sync() && id in machine.callers && machine.callers[id] == PauseRollback
      modifies this, control, control.run
      ensures Sync() && Reaches(old(machine), machine) && id in machine.callers
      ensures machine.callers[id] == Returned(false) && !control.paused
    {
      OthersMove(id);
      ghost var before := machine;
      control.RollBackPause();
      Called(id, 0, true);
      ReachesOnward(old(machine), before, machine);
    }

    method ClearFlag(id: nat) returns (entered: bool)
      requires Sync() && id in machine.callers && machine.callers[id] == ResumeEntry
      modifies this, control, control.run
      ensures Sync() && Reaches(old(machine), machine) && id in machine.callers
      ensures machine.callers[id] == (if entered then ResumeTransition else Returned(true)) && !control.paused
    {
      OthersMove(id);
      ghost var before := machine;
      entered := control.Resume();
      Called(id, 0, true);
      ReachesOnward(old(machine), before, machine);
    }

    method CancelRun(id: nat)
      requires Sync() && id in machine.callers && machine.callers[id] == StopCancel
      modifies this, control, control.run
      ensures Sync() && Reaches(old(machine), machine) && id in machine.callers
      ensures machine.callers[id] == Returned(true) && control.cancelled
    {
      OthersMove(id);
      ghost var before := machine;
      control.Cancel();
      Called(id, 0, true);
      ReachesOnward(old(machine), before, machine);
    }

    /** Succeeds if the flag was up already or the run got paused; a failed call leaves the flag down. */
    method PauseRun(id: nat) returns (ok: bool)
      requires Sync() && id in machine.callers && machine.callers[id] == PauseEntry
      modifies this, control, control.run
      ensures Sync() && Reaches(old(machine), machine)
      ensures id in machine.callers && machine.callers[id] == Returned(ok)
      ensures if ok then control.paused || Paused in machine.core.history else !control.paused
    {
      hide Sync, Reaches;
      CallerTargets();
      ghost var s0 := machine;
      var entered := RaiseFlag(id);
      if !entered {
        return true;
      }
      ghost var s1 := machine;
      var outcome := CallTransition(id, Paused);
      ghost var s2 := machine;
      ReachesOnward(s0, s1, s2);
      ok := outcome != Illegal;
      if outcome == Changed {
        ok := CallSave(id);
        ReachesGrowsHistory(s2, machine, Paused);
        ReachesOnward(s0, s2, machine);
      }
      if !ok {
        ghost var s3 := machine;
        RollBack(id);
        ReachesOnward(s0, s3, machine);
      }
    }

    /** Succeeds if the flag was down already or the run runs again and that is saved. */
    method ResumeRun(id: nat) returns (ok: bool)
      requires Sync() && id in machine.callers && machine.callers[id] == ResumeEntry
      modifies this, control, control.run
      ensures Sync() && Reaches(old(machine), machine)
      ensures id in machine.callers && machine.callers[id] == Returned(ok)
      ensures ok ==> !control.paused || Running in machine.core.history
    {
      hide Sync, Reaches;
      CallerTargets();
      ghost var s0 := machine;
      var entered := ClearFlag(id);
      if !entered {
        return true;
      }
      ghost var s1 := machine;
      var outcome := CallTransition(id, Running);
      ghost var s2 := machine;
      ReachesOnward(s0, s1, s2);
      ok := outcome != Illegal;
      if outcome == Changed {
        ok := CallSave(id);
        ReachesGrowsHistory(s2, machine, Running);
        ReachesOnward(s0, s2, machine);
      }
    }

    /** Succeeds if the run is stopped and that is saved, and then it is cancelled. */
    method StopRun(id: nat) returns (ok: bool)
      requires Sync() && id in machine.callers && machine.callers[id] == StopTransition
      modifies this, control, control.run
      ensures Sync() && Reaches(old(machine), machine)
      ensures id in machine.callers && machine.callers[id] == Returned(ok)
      ensures ok ==> control.cancelled && Stopped in machine.core.history
    {
      hide Sync, Reaches;
      CallerTargets();
      ghost var s0 := machine;
      var outcome := CallTransition(id, Stopped);
      ok := outcome != Illegal;
      ghost var s1 := machine;
      if outcome == Changed {
        ok := CallSave(id);
        ReachesGrowsHistory(s1, machine, Stopped);
        ReachesOnward(s0, s1, machine);
      }
      if ok {
        ghost var s2 := machine;
        CancelRun(id);
        ReachesGrowsHistory(s2, machine, Stopped);
        ReachesOnward(s0, s2, machine);
      }
    }
  }

  /** The current status is in the history. */
  lemma StatusIsRecorded(total: nat, s: System)
    requires Reaches(Initial(total), s)
    ensures s.core.control.run.status in s.core.history
  {
    hide Upto, Initial, Behave;
    var events :| s == Behave(Initial(total), events);
    EveryRunIsSafe(total, events);
  }

  lemma CallerTargets()
    ensures CallerTarget(PauseTransition) == Some(Paused) && CallerTarget(ResumeTransition) == Some(Running)
    ensures CallerTarget(StopTransition) == Some(Stopped)
    ensures CallerSaves(PauseSaving) && CallerSaves(ResumeSaving) && CallerSaves(StopSavingCall)
  {
  }

  /** What is proved of all runs holds of the goroutine's own fields, whoever interferes. */
  lemma ExecutionIsSafe(e: Execution)
    requires e.Sync()
    ensures e.started == Upto(|e.started|) && |e.started| <= e.total
    ensures e.finished == Upto(|e.finished|) && |e.finished| <= |e.started| <= |e.finished| + 1
    ensures e.control.run.completedSteps <= |e.finished| <= e.control.run.completedSteps + 1
    ensures e.control.run.finishedAt.Some? <==> Terminal(e.control.run.status)
    ensures e.control.run.status == Succeeded ==>
              e.started == Upto(e.total) && e.finished == Upto(e.total)
              && e.control.run.completedSteps == e.total
  {
    hide Upto, Initial, Behave;
    var events :| e.machine == Behave(Initial(e.total), events);
    EveryRunIsSafe(e.total, events);
  }

  lemma Targets()
    ensures ExecutorTarget(Starting) == Some(Running) && ExecutorTarget(Finishing) == Some(Succeeded)
    ensures ExecutorTarget(Stopping) == Some(Stopped) && ExecutorTarget(FailTransition) == Some(Failed)
  {
  }
}
