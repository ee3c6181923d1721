/** One automation run: its status table, and the control block its executor and its callers share. */
module AutomationRun {
  import opened Common

  datatype Status = Queued | Running | Paused | Succeeded | Failed | Stopped | Skipped

  predicate Allowed(from: Status, to: Status) {
    match from
    case Queued => to in {Running, Stopped, Skipped}
    case Running => to in {Paused, Succeeded, Failed, Stopped}
    case Paused => to in {Running, Failed, Stopped}
    case _ => false
  }

  predicate Terminal(status: Status) {
    status in {Succeeded, Failed, Stopped, Skipped}
  }

  /** A terminal status is one the table does not leave. */
  lemma TerminalHasNoSuccessor(status: Status)
    ensures Terminal(status) <==> forall next :: !Allowed(status, next)
  {
    assert Allowed(Queued, Running) && Allowed(Running, Paused) && Allowed(Paused, Running);
  }

  datatype RunState = RunState(
    status: Status, completed: nat, total: nat, actionFailed: bool,
    startedAt: Option<nat>, finishedAt: Option<nat>)

  function Moved(run: RunState, next: Status, now: nat): RunState {
    run.(status := next,
         startedAt := if next == Running && run.startedAt.None? then Some(now) else run.startedAt,
         finishedAt := if Terminal(next) then Some(now) else run.finishedAt)
  }

  /** What the executor, the callers and the context share; channel c is closed iff c < channel. */
  datatype Control = Control(paused: bool, channel: nat, cancelled: bool, run: RunState)

  datatype Outcome = AlreadyThere | Illegal | Changed

  function TransitionOutcome(control: Control, next: Status): Outcome {
    if control.run.status == next then AlreadyThere
    else if Allowed(control.run.status, next) then Changed
    else Illegal
  }

  function AfterTransition(control: Control, next: Status, now: nat): Control {
    if TransitionOutcome(control, next) == Changed then control.(run := Moved(control.run, next, now)) else control
  }

  function AfterResume(control: Control): Control {
    if control.paused then control.(paused := false, channel := control.channel + 1) else control
  }

  class Run {
    var status: Status
    var completedSteps: nat
    var totalSteps: nat
    var actionFailed: bool
    var startedAt: Option<nat>
    var finishedAt: Option<nat>

    constructor (steps: nat)
      ensures View() == RunState(Queued, 0, steps, false, None, None)
    {
      status, completedSteps, totalSteps, actionFailed := Queued, 0, steps, false;
      startedAt, finishedAt := None, None;
    }

    ghost function View(): RunState
      reads this
    {
      RunState(status, completedSteps, totalSteps, actionFailed, startedAt, finishedAt)
    }

    method Transition(next: Status, now: nat) returns (ok: bool)
      modifies this
      ensures ok <==> Allowed(old(status), next)
      ensures View() == if ok then Moved(old(View()), next, now) else old(View())
    {
      if !Allowed(status, next) {
        return false;
      }
      status := next;
      if next == Running && startedAt.None? {
        startedAt := Some(now);
      }
      if next == Succeeded || next == Failed || next == Stopped || next == Skipped {
        finishedAt := Some(now);
      }
      ok := true;
    }
  }

  /** The control block; every method is one critical section of its mutex. */
  class RunControl {
    const run: Run
    var paused: bool
    var channel: nat
    var cancelled: bool

    constructor (run: Run)
      ensures this.run == run && View() == Control(false, 0, false, run.View())
    {
      this.run := run;
      paused, channel, cancelled := false, 0, false;
    }

    ghost function View(): Control
      reads this, run
    {
      Control(paused, channel, cancelled, run.View())
    }

    method TransitionRun(next: Status, now: nat) returns (outcome: Outcome)
      modifies run
      ensures outcome == TransitionOutcome(old(View()), next)
      ensures View() == AfterTransition(old(View()), next, now)
    {
      if run.status == next {
        return AlreadyThere;
      }
      var ok := run.Transition(next, now);
      outcome := if ok then Changed else Illegal;
    }

    method UpdateProgress(completed: nat)
      modifies run
      ensures View() == old(View()).(run := old(View()).run.(completed := completed))
    {
      run.completedSteps := completed;
    }

    method MarkActionFailed()
      modifies run
      ensures View() == old(View()).(run := old(View()).run.(actionFailed := true))
    {
      run.actionFailed := true;
    }

    method Pause() returns (entered: bool)
      modifies this`paused
      ensures entered <==> !old(paused)
      ensures View() == old(View()).(paused := true)
    {
      entered := !paused;
      paused := true;
    }

    method RollBackPause()
      modifies this`paused
      ensures View() == old(View()).(paused := false)
    {
      paused := false;
    }

    /** Closing the channel wakes everyone blocked on it; a fresh one takes its place. */
    method Resume() returns (entered: bool)
      modifies this`paused, this`channel
      ensures entered <==> old(paused)
      ensures View() == AfterResume(old(View()))
    {
      entered := paused;
      if paused {
        paused := false;
        channel := channel + 1;
      }
    }

    method Cancel()
      modifies this`cancelled
      ensures View() == old(View()).(cancelled := true)
    {
      cancelled := true;
    }
  }
}
