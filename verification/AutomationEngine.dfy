/**
 * The executor of one run racing any number of pause, resume and stop callers.
 *
 * Every step is one critical section, one repository write, one action boundary or one channel
 * operation.  An event names who moves and what the environment answers; a run of the system is an
 * arbitrary sequence of events, so a statement about all runs covers every interleaving.
 */
module AutomationEngine {
  import opened Common
  import opened AutomationRun

  datatype Executor =
    | NotStarted                    // the initial record is being saved
    | Starting | StartSaving        // transition to Running
    | Checking(i: nat)              // wait: read the pause flag and the channel
    | Blocked(i: nat, on: nat)      // wait: select on cancellation and channel
    | Unpaused(i: nat)              // wait: about to ask for cancellation
    | Launching(i: nat)             // wait returned nil
    | Executing(i: nat)
    | Recording(i: nat) | RecordSaving(i: nat)
    | ActionErred(i: nat)           // the action failed; was the run cancelled?
    | Failing | FailTransition | FailSaving
    | Stopping | StopSaving
    | Finishing | FinishSaving
    | Releasing                     // deferred removal of the control
    | Done(early: bool)             // early: returned before the removal was deferred

  datatype Caller =
    | PauseEntry | PauseTransition | PauseSaving | PauseRollback
    | ResumeEntry | ResumeTransition | ResumeSaving
    | StopTransition | StopSavingCall | StopCancel
    | Returned(ok: bool)            // ok: the call reported no error

  /** The shared control block and the statuses it has gone through. */
  datatype Core = Core(control: Control, history: seq<Status>)

  /** The actions started and the actions that returned without error, in order. */
  datatype Work = Work(started: seq<nat>, finished: seq<nat>)

  /** saveFailed and pausedQueued record whether a save failed and whether a pause met a queued run. */
  datatype System = System(
    core: Core, executor: Executor, work: Work, callers: map<nat, Caller>,
    registered: bool, saveFailed: bool, pausedQueued: bool)

  datatype Event =
    | Enter(id: nat, call: Caller)
    | Advance(id: nat, now: nat, ok: bool)
    | Execute(now: nat, ok: bool)

  function Initial(total: nat): System {
    System(Core(Control(false, 0, false, RunState(Queued, 0, total, false, None, None)), [Queued]),
           NotStarted, Work([], []), map[], true, false, false)
  }

  /** The critical section of transitionRun; the history grows when the status changes. */
  function Transit(core: Core, next: Status, now: nat): Core {
    Core(AfterTransition(core.control, next, now),
         if TransitionOutcome(core.control, next) == Changed then core.history + [next] else core.history)
  }

  /** Where the caller of transitionRun goes on. */
  function Branch<T>(core: Core, next: Status, done: T, saving: T, refused: T): T {
    match TransitionOutcome(core.control, next)
    case AlreadyThere => done
    case Changed => saving
    case Illegal => refused
  }

  // ---------------------------------------------------------------- executor

  function NextAction(core: Core, i: nat): Executor {
    if i < core.control.run.total then Checking(i) else Finishing
  }

  /** The status the executor is about to move the run to. */
  function ExecutorTarget(pc: Executor): Option<Status> {
    match pc
    case Starting => Some(Running)
    case FailTransition => Some(Failed)
    case Stopping => Some(Stopped)
    case Finishing => Some(Succeeded)
    case _ => None
  }

  function ExecutorCore(core: Core, pc: Executor, now: nat, ok: bool): Core {
    if ExecutorTarget(pc).Some? then Transit(core, ExecutorTarget(pc).value, now)
    else match pc
      case NotStarted => if ok then core else core.(control := core.control.(cancelled := true))
      case Recording(i) => core.(control := core.control.(run := core.control.run.(completed := i + 1)))
      case Failing => core.(control := core.control.(run := core.control.run.(actionFailed := true)))
      case _ => core
  }

  function ExecutorNext(core: Core, pc: Executor, ok: bool): Executor {
    match pc
    case NotStarted => if ok then Starting else Done(false)
    case Starting => Branch(core, Running, NextAction(core, 0), StartSaving, Done(true))
    case StartSaving => if ok then NextAction(core, 0) else Done(true)
    case Checking(i) => if core.control.paused then Blocked(i, core.control.channel) else Unpaused(i)
    case Blocked(i, on) =>
      if ok && on < core.control.channel then Checking(i)
      else if !ok && core.control.cancelled then Stopping
      else pc
    case Unpaused(i) => if core.control.cancelled then Stopping else Launching(i)
    case Launching(i) => Executing(i)
    case Executing(i) => if ok then Recording(i) else ActionErred(i)
    case Recording(i) => RecordSaving(i)
    case RecordSaving(i) => if ok then NextAction(core, i + 1) else Releasing
    case ActionErred(_) => if core.control.cancelled then Stopping else Failing
    case Failing => FailTransition
    case FailTransition => Branch(core, Failed, Releasing, FailSaving, Releasing)
    case Stopping => Branch(core, Stopped, Releasing, StopSaving, Releasing)
    case Finishing => Branch(core, Succeeded, Releasing, FinishSaving, Releasing)
    case FailSaving => Releasing
    case StopSaving => Releasing
    case FinishSaving => Releasing
    case Releasing => Done(false)
    case Done(_) => pc
  }

  function ExecutorWork(work: Work, pc: Executor, ok: bool): Work {
    match pc
    case Launching(i) => work.(started := work.started + [i])
    case Executing(i) => if ok then work.(finished := work.finished + [i]) else work
    case _ => work
  }

  predicate ExecutorSaves(pc: Executor) {
    pc.NotStarted? || pc.StartSaving? || pc.RecordSaving? || pc.FailSaving? || pc.StopSaving? || pc.FinishSaving?
  }

  function ExecutorStep(s: System, now: nat, ok: bool): System {
    System(
      ExecutorCore(s.core, s.executor, now, ok),
      ExecutorNext(s.core, s.executor, ok),
      ExecutorWork(s.work, s.executor, ok),
      s.callers,
      s.registered && !s.executor.Releasing? && !(s.executor.NotStarted? && !ok),
      s.saveFailed || (ExecutorSaves(s.executor) && !ok),
      s.pausedQueued)
  }

  // ---------------------------------------------------------------- callers

  function CallerTarget(pc: Caller): Option<Status> {
    match pc
    case PauseTransition => Some(Paused)
    case ResumeTransition => Some(Running)
    case StopTransition => Some(Stopped)
    case _ => None
  }

  function CallerCore(core: Core, pc: Caller, now: nat): Core {
    if CallerTarget(pc).Some? then Transit(core, CallerTarget(pc).value, now)
    else match pc
      case PauseEntry => core.(control := core.control.(paused := true))
      case PauseRollback => core.(control := core.control.(paused := false))
      case ResumeEntry => core.(control := AfterResume(core.control))
      case StopCancel => core.(control := core.control.(cancelled := true))
      case _ => core
  }

  function CallerNext(core: Core, pc: Caller, ok: bool): Caller {
    match pc
    case PauseEntry => if core.control.paused then Returned(true) else PauseTransition
    case PauseTransition => Branch(core, Paused, Returned(true), PauseSaving, PauseRollback)
    case PauseSaving => if ok then Returned(true) else PauseRollback
    case PauseRollback => Returned(false)
    case ResumeEntry => if core.control.paused then ResumeTransition else Returned(true)
    case ResumeTransition => Branch(core, Running, Returned(true), ResumeSaving, Returned(false))
    case ResumeSaving => Returned(ok)
    case StopTransition => Branch(core, Stopped, StopCancel, StopSavingCall, Returned(false))
    case StopSavingCall => if ok then StopCancel else Returned(false)
    case StopCancel => Returned(true)
    case Returned(_) => pc
  }

  predicate CallerSaves(pc: Caller) {
    pc in {PauseSaving, ResumeSaving, StopSavingCall}
  }

  function CallerStep(s: System, id: nat, now: nat, ok: bool): System
    requires id in s.callers
  {
    var pc := s.callers[id];
    System(
      CallerCore(s.core, pc, now),
      s.executor,
      s.work,
      s.callers[id := CallerNext(s.core, pc, ok)],
      s.registered,
      s.saveFailed || (CallerSaves(pc) && !ok),
      s.pausedQueued || (pc.PauseTransition? && s.core.control.run.status == Queued))
  }

  /** A call finds the control only while it is registered. */
  function Step(s: System, e: Event): System {
    match e
    case Enter(id, call) =>
      if s.registered && id !in s.callers && call in {PauseEntry, ResumeEntry, StopTransition}
      then s.(callers := s.callers[id := call]) else s
    case Advance(id, now, ok) => if id in s.callers then CallerStep(s, id, now, ok) else s
    case Execute(now, ok) => ExecutorStep(s, now, ok)
  }

  function Behave(s: System, events: seq<Event>): System
    decreases |events|
  {
    if events == [] then s else Behave(Step(s, events[0]), events[1..])
  }
}
