/** What every interleaving of one automation run keeps. */
module AutomationLaws {
  import opened Common
  import opened AutomationRun
  import opened AutomationEngine

  // ---------------------------------------------------------------- status history

  /** The recorded statuses form a path in the transition table. */
  ghost predicate Path(history: seq<Status>) {
    |history| > 0 && history[0] == Queued
    && forall k | 0 <= k < |history| - 1 :: Allowed(history[k], history[k + 1])
  }

  ghost predicate HistoryOk(core: Core) {
    && Path(core.history)
    && core.history[|core.history| - 1] == core.control.run.status
    && (core.control.run.finishedAt.Some? <==> Terminal(core.control.run.status))
    && (core.control.run.startedAt.Some? <==> Running in core.history)
  }

  lemma TransitKeepsHistory(core: Core, next: Status, now: nat)
    requires HistoryOk(core)
    ensures HistoryOk(Transit(core, next, now))
  {
    if TransitionOutcome(core.control, next) == Changed {
      TerminalHasNoSuccessor(core.control.run.status);
    }
  }

  lemma ExecutorKeepsHistory(core: Core, pc: Executor, now: nat, ok: bool)
    requires HistoryOk(core)
    ensures HistoryOk(ExecutorCore(core, pc, now, ok))
  {
    hide Transit, Path;
    if ExecutorTarget(pc).Some? {
      TransitKeepsHistory(core, ExecutorTarget(pc).value, now);
    }
  }

  lemma CallerKeepsHistory(core: Core, pc: Caller, now: nat)
    requires HistoryOk(core)
    ensures HistoryOk(CallerCore(core, pc, now))
  {
    hide Transit, Path;
    if CallerTarget(pc).Some? {
      TransitKeepsHistory(core, CallerTarget(pc).value, now);
    }
  }

  // ---------------------------------------------------------------- progress

  function Upto(n: nat): seq<nat> {
    seq(n, i => i)
  }

  lemma UptoGrows(n: nat)
    ensures Upto(n) + [n] == Upto(n + 1)
  {
  }

  /** Actions started, finished and recorded at each point of the executor. */
  ghost predicate CountsAt(pc: Executor, started: nat, finished: nat, completed: nat, total: nat) {
    match pc
    case NotStarted => started == finished == completed == 0
    case Starting => started == finished == completed == 0
    case StartSaving => started == finished == completed == 0
    case Checking(i) => started == finished == completed == i < total
    case Blocked(i, _) => started == finished == completed == i < total
    case Unpaused(i) => started == finished == completed == i < total
    case Launching(i) => started == finished == completed == i < total
    case Executing(i) => finished == completed == i < started == i + 1 <= total
    case Recording(i) => completed == i < started == finished == i + 1 <= total
    case RecordSaving(i) => started == finished == completed == i + 1 <= total
    case ActionErred(i) => finished == completed == i < started == i + 1 <= total
    case Finishing => started == finished == completed == total
    case FinishSaving => started == finished == completed == total
    case _ => completed == finished <= started <= finished + 1 && started <= total
  }

  ghost predicate WorkOk(s: System) {
    && s.work.started == Upto(|s.work.started|)
    && s.work.finished == Upto(|s.work.finished|)
    && CountsAt(s.executor, |s.work.started|, |s.work.finished|, s.core.control.run.completed, s.core.control.run.total)
  }

  /** Which statuses are possible where; a resume call can start a queued run before its executor does. */
  ghost predicate StatusAt(pc: Executor, status: Status, started: nat, finished: nat, total: nat) {
    && status != Skipped
    && (status == Queued ==> (pc.NotStarted? || pc.Starting? || pc == Done(false)) && started == 0)
    && (status == Succeeded ==> (pc.FinishSaving? || pc.Releasing? || pc == Done(false)) && finished == total)
    && (status == Failed ==> pc.FailSaving? || pc.Releasing? || pc == Done(false))
  }

  ghost predicate StatusOk(s: System) {
    StatusAt(s.executor, s.core.control.run.status, |s.work.started|, |s.work.finished|, s.core.control.run.total)
  }

  lemma TransitKeepsCounts(core: Core, next: Status, now: nat)
    ensures Transit(core, next, now).control.run.total == core.control.run.total
    ensures Transit(core, next, now).control.run.completed == core.control.run.completed
    ensures Transit(core, next, now).control.run.status
            == if Allowed(core.control.run.status, next) then next else core.control.run.status
    ensures Transit(core, next, now).control.(run := core.control.run) == core.control
  {
  }

  lemma ExecutorKeepsCounts(core: Core, pc: Executor, now: nat, ok: bool)
    ensures var run := ExecutorCore(core, pc, now, ok).control.run;
            && run.total == core.control.run.total
            && run.completed == (if pc.Recording? then pc.i + 1 else core.control.run.completed)
            && run.status == (if ExecutorTarget(pc).Some? && Allowed(core.control.run.status, ExecutorTarget(pc).value)
                              then ExecutorTarget(pc).value else core.control.run.status)
  {
    hide Transit;
    if ExecutorTarget(pc).Some? {
      TransitKeepsCounts(core, ExecutorTarget(pc).value, now);
    }
  }

  lemma CallerKeepsCounts(core: Core, pc: Caller, now: nat)
    ensures var run := CallerCore(core, pc, now).control.run;
            && run.total == core.control.run.total
            && run.completed == core.control.run.completed
            && run.status == (if CallerTarget(pc).Some? && Allowed(core.control.run.status, CallerTarget(pc).value)
                              then CallerTarget(pc).value else core.control.run.status)
  {
    hide Transit;
    if CallerTarget(pc).Some? {
      TransitKeepsCounts(core, CallerTarget(pc).value, now);
    }
  }

  /** The counters move with the program counter. */
  lemma CountsMove(core: Core, pc: Executor, ok: bool, work: Work, total: nat)
    requires total == core.control.run.total
    requires CountsAt(pc, |work.started|, |work.finished|, core.control.run.completed, total)
    ensures var next := ExecutorWork(work, pc, ok);
            CountsAt(ExecutorNext(core, pc, ok), |next.started|, |next.finished|,
                     if pc.Recording? then pc.i + 1 else core.control.run.completed, total)
  {
    hide TransitionOutcome;
  }

  lemma ExecutorKeepsWork(s: System, now: nat, ok: bool)
    requires WorkOk(s)
    ensures WorkOk(ExecutorStep(s, now, ok))
  {
    hide ExecutorCore, ExecutorNext, Upto;
    CountsMove(s.core, s.executor, ok, s.work, s.core.control.run.total);
    ExecutorKeepsCounts(s.core, s.executor, now, ok);
    UptoGrows(|s.work.started|);
    UptoGrows(|s.work.finished|);
  }

  lemma ExecutorKeepsStatus(s: System, now: nat, ok: bool)
    requires WorkOk(s) && StatusOk(s)
    ensures StatusOk(ExecutorStep(s, now, ok))
  {
    hide ExecutorCore, Upto;
    ExecutorKeepsCounts(s.core, s.executor, now, ok);
  }

  lemma CallerKeepsWork(s: System, id: nat, now: nat, ok: bool)
    requires id in s.callers && WorkOk(s) && StatusOk(s)
    ensures WorkOk(CallerStep(s, id, now, ok)) && StatusOk(CallerStep(s, id, now, ok))
  {
    hide CallerCore, CallerNext, Upto, CountsAt;
    CallerKeepsCounts(s.core, s.callers[id], now);
  }

  ghost predicate Safe(s: System) {
    HistoryOk(s.core) && WorkOk(s) && StatusOk(s)
  }

  lemma StepKeepsSafe(s: System, e: Event)
    requires Safe(s)
    ensures Safe(Step(s, e))
  {
    hide ExecutorCore, ExecutorNext, ExecutorWork, CallerCore, CallerNext, HistoryOk, CountsAt, StatusAt, Upto;
    match e
    case Enter(_, _) =>
    case Advance(id, now, ok) =>
      if id in s.callers {
        CallerKeepsHistory(s.core, s.callers[id], now);
        CallerKeepsWork(s, id, now, ok);
      }
    case Execute(now, ok) =>
      ExecutorKeepsHistory(s.core, s.executor, now, ok);
      ExecutorKeepsWork(s, now, ok);
      ExecutorKeepsStatus(s, now, ok);
  }

  lemma InitiallySafe(total: nat)
    ensures Safe(Initial(total))
  {
  }

  lemma {:induction false} RunKeepsSafe(s: System, events: seq<Event>)
    requires Safe(s)
    ensures Safe(Behave(s, events))
    decreases |events|
  {
    hide Safe, Step;
    if events == [] {
    } else {
      StepKeepsSafe(s, events[0]);
      RunKeepsSafe(Step(s, events[0]), events[1..]);
    }
  }

  /**
   * Safety of every interleaving: a legal status path, in-order prefixes of actions, bounded counters,
   * and a run that succeeded only if every action returned without error exactly once.
   */
  lemma EveryRunIsSafe(total: nat, events: seq<Event>)
    ensures var s := Behave(Initial(total), events);
            && Path(s.core.history)
            && s.core.history[|s.core.history| - 1] == s.core.control.run.status
            && (s.core.control.run.finishedAt.Some? <==> Terminal(s.core.control.run.status))
            && s.work.started == Upto(|s.work.started|) && |s.work.started| <= total
            && s.work.finished == Upto(|s.work.finished|)
                && |s.work.finished| <= |s.work.started| <= |s.work.finished| + 1
            && s.core.control.run.completed <= |s.work.finished| <= s.core.control.run.completed + 1
            && (s.core.control.run.status == Succeeded ==>
                  s.work.finished == Upto(total) && s.work.started == Upto(total)
                      && s.core.control.run.completed == total)
  {
    hide Upto;
    InitiallySafe(total);
    RunKeepsSafe(Initial(total), events);
    RunKeepsTotal(Initial(total), events);
  }

  lemma {:induction false} RunKeepsTotal(s: System, events: seq<Event>)
    ensures Behave(s, events).core.control.run.total == s.core.control.run.total
    decreases |events|
  {
    hide ExecutorCore, ExecutorNext, ExecutorWork, CallerCore, CallerNext;
    if events == [] {
    } else {
      StepMoves(s, events[0]);
      RunKeepsTotal(Step(s, events[0]), events[1..]);
    }
  }

  /** The run record's monotone parts over one step. */
  lemma StepMoves(s: System, e: Event)
    ensures var run, next := s.core.control.run, Step(s, e).core.control.run;
            && next.total == run.total
            && (WorkOk(s) ==> run.completed <= next.completed)
            && (Terminal(run.status) ==>
                  next.status == run.status && next.finishedAt == run.finishedAt && next.startedAt == run.startedAt)
            && (run.startedAt.Some? ==> next.startedAt == run.startedAt)
  {
    hide ExecutorCore, ExecutorNext, ExecutorWork, CallerCore, CallerNext, Upto;
    match e
    case Enter(_, _) =>
    case Advance(id, now, ok) =>
      if id in s.callers {
        CallerKeepsCounts(s.core, s.callers[id], now);
        CallerKeepsTimes(s.core, s.callers[id], now);
      }
    case Execute(now, ok) =>
      ExecutorKeepsCounts(s.core, s.executor, now, ok);
      ExecutorKeepsTimes(s.core, s.executor, now, ok);
  }

  lemma ExecutorKeepsTimes(core: Core, pc: Executor, now: nat, ok: bool)
    ensures var run, next := core.control.run, ExecutorCore(core, pc, now, ok).control.run;
            && (run.startedAt.Some? ==> next.startedAt == run.startedAt)
            && (Terminal(run.status) ==>
                  next.status == run.status && next.finishedAt == run.finishedAt && next.startedAt == run.startedAt)
  {
  }

  lemma CallerKeepsTimes(core: Core, pc: Caller, now: nat)
    ensures var run, next := core.control.run, CallerCore(core, pc, now).control.run;
            && (run.startedAt.Some? ==> next.startedAt == run.startedAt)
            && (Terminal(run.status) ==>
                  next.status == run.status && next.finishedAt == run.finishedAt && next.startedAt == run.startedAt)
  {
  }

  /** Terminal statuses absorb, time stamps are set once, the progress counter never goes back. */
  lemma {:induction false} RunsOnlyAdvance(s: System, events: seq<Event>)
    requires Safe(s)
    ensures var run, last := s.core.control.run, Behave(s, events).core.control.run;
            && run.completed <= last.completed
            && (run.startedAt.Some? ==> last.startedAt == run.startedAt)
            && (Terminal(run.status) ==> last.status == run.status && last.finishedAt == run.finishedAt)
    decreases |events|
  {
    hide Safe, Step;
    if events == [] {
    } else {
      StepKeepsSafe(s, events[0]);
      assert WorkOk(s) by { SafeParts(s); }
      StepMoves(s, events[0]);
      RunsOnlyAdvance(Step(s, events[0]), events[1..]);
    }
  }

  lemma SafeParts(s: System)
    requires Safe(s)
    ensures WorkOk(s) && StatusOk(s) && HistoryOk(s.core)
  {
  }

  // ---------------------------------------------------------------- time stamps

  function TimeOf(e: Event): nat {
    if e.Enter? then 0 else e.now
  }

  lemma TransitStamps(core: Core, next: Status, now: nat)
    requires HistoryOk(core)
    ensures var run, after := core.control.run, Transit(core, next, now).control.run;
            && after.startedAt ==
               (if run.startedAt.None? && run.status != Running && after.status == Running
                then Some(now) else run.startedAt)
            && after.finishedAt ==
               (if run.status !in {Succeeded, Failed, Stopped, Skipped}
                   && after.status in {Succeeded, Failed, Stopped, Skipped}
                then Some(now) else run.finishedAt)
  {
  }

  /** Any step stamps the run with its own time when it starts or ends the run, and never else. */
  lemma StepStamps(s: System, e: Event)
    requires Safe(s)
    ensures var run, after := s.core.control.run, Step(s, e).core.control.run;
            && after.startedAt ==
               (if run.startedAt.None? && run.status != Running && after.status == Running
                then Some(TimeOf(e)) else run.startedAt)
            && after.finishedAt ==
               (if run.status !in {Succeeded, Failed, Stopped, Skipped}
                   && after.status in {Succeeded, Failed, Stopped, Skipped}
                then Some(TimeOf(e)) else run.finishedAt)
  {
    hide Transit, Path, CountsAt, StatusAt, Upto, ExecutorNext, ExecutorWork, CallerNext;
    match e
    case Enter(_, _) =>
    case Advance(id, now, _) =>
      if id in s.callers && CallerTarget(s.callers[id]).Some? {
        TransitStamps(s.core, CallerTarget(s.callers[id]).value, now);
      }
    case Execute(now, _) =>
      if ExecutorTarget(s.executor).Some? {
        TransitStamps(s.core, ExecutorTarget(s.executor).value, now);
      }
  }

  /** The run's status after the first k events. */
  function StatusAfter(total: nat, events: seq<Event>, k: nat): Status
    requires k <= |events|
  {
    Behave(Initial(total), events[..k]).core.control.run.status
  }

  /** Event k is the first that makes the run Running. */
  predicate Starts(total: nat, events: seq<Event>, k: nat)
    requires k < |events|
  {
    StatusAfter(total, events, k + 1) == Running && forall j: nat | j <= k :: StatusAfter(total, events, j) != Running
  }

  /** Event k takes the run from a status it can leave to one it cannot. */
  predicate Finishes(total: nat, events: seq<Event>, k: nat)
    requires k < |events|
  {
    && StatusAfter(total, events, k) !in {Succeeded, Failed, Stopped, Skipped}
    && StatusAfter(total, events, k + 1) in {Succeeded, Failed, Stopped, Skipped}
  }

  ghost predicate StampedStart(total: nat, events: seq<Event>, n: nat)
    requires n <= |events|
  {
    var startedAt := Behave(Initial(total), events[..n]).core.control.run.startedAt;
    && (startedAt.None? <==> forall k: nat | k <= n :: StatusAfter(total, events, k) != Running)
    && (forall k: nat | k < n && Starts(total, events, k) :: startedAt == Some(TimeOf(events[k])))
    && (startedAt.Some? ==> exists k: nat | k < n :: Starts(total, events, k))
  }

  ghost predicate StampedEnd(total: nat, events: seq<Event>, n: nat)
    requires n <= |events|
  {
    var finishedAt := Behave(Initial(total), events[..n]).core.control.run.finishedAt;
    && (forall k: nat | k < n && Finishes(total, events, k) :: finishedAt == Some(TimeOf(events[k])))
    && (finishedAt.Some? ==> exists k: nat | k < n :: Finishes(total, events, k))
  }

  lemma StampedFirst(total: nat, events: seq<Event>)
    ensures StampedStart(total, events, 0) && StampedEnd(total, events, 0)
  {
    assert events[..0] == [];
  }

  lemma AfterOneMore(total: nat, events: seq<Event>, n: nat)
    requires n < |events|
    ensures Behave(Initial(total), events[..n + 1]) == Step(Behave(Initial(total), events[..n]), events[n])
    ensures Safe(Behave(Initial(total), events[..n]))
  {
    hide Step, Safe, Initial;
    assert events[..n + 1] == events[..n] + [events[n]];
    BehaveConcat(Initial(total), events[..n], [events[n]]);
    var s := Behave(Initial(total), events[..n]);
    assert [events[n]][1..] == [];
    assert Behave(s, [events[n]]) == Behave(Step(s, events[n]), []);
    InitiallySafe(total);
    RunKeepsSafe(Initial(total), events[..n]);
  }

  lemma StampedStartStep(total: nat, events: seq<Event>, n: nat)
    requires n < |events| && StampedStart(total, events, n)
    ensures StampedStart(total, events, n + 1)
  {
    hide Step, Behave, Initial, WorkOk, StatusOk, Path;
    AfterOneMore(total, events, n);
    var s := Behave(Initial(total), events[..n]);
    StepStamps(s, events[n]);
    StepMoves(s, events[n]);
    assert StatusAfter(total, events, n) == s.core.control.run.status;
    assert StatusAfter(total, events, n + 1) == Step(s, events[n]).core.control.run.status;
    if s.core.control.run.startedAt.None? && StatusAfter(total, events, n + 1) == Running {
      assert Starts(total, events, n);
    }
  }

  lemma StampedEndStep(total: nat, events: seq<Event>, n: nat)
    requires n < |events| && StampedEnd(total, events, n)
    ensures StampedEnd(total, events, n + 1)
  {
    hide Step, Behave, Initial, WorkOk, StatusOk, Path;
    AfterOneMore(total, events, n);
    var s := Behave(Initial(total), events[..n]);
    StepStamps(s, events[n]);
    assert StatusAfter(total, events, n) == s.core.control.run.status;
    assert StatusAfter(total, events, n + 1) == Step(s, events[n]).core.control.run.status;
    assert Finishes(total, events, n) ==> s.core.control.run.finishedAt.None?;
  }

  /**
   * In every run the start time is that of the event that first made it Running, the end time that of the
   * event that ended it, and there is none without such an event.
   */
  lemma {:induction false} TimesAreExact(total: nat, events: seq<Event>, n: nat)
    requires n <= |events|
    ensures StampedStart(total, events, n) && StampedEnd(total, events, n)
  {
    hide StampedStart, StampedEnd;
    if n == 0 {
      StampedFirst(total, events);
    } else {
      TimesAreExact(total, events, n - 1);
      StampedStartStep(total, events, n - 1);
      StampedEndStep(total, events, n - 1);
    }
  }

  // ---------------------------------------------------------------- calls that nobody interferes with

  /** The next n steps of one call, all at one time and with saves that all work or all fail. */
  function Alone(s: System, id: nat, now: nat, saved: bool, n: nat): System
    decreases n
  {
    if n == 0 then s else Alone(Step(s, Advance(id, now, saved)), id, now, saved, n - 1)
  }

  /** The same of the shared block and the call's own position. */
  function CallAlone(core: Core, pc: Caller, now: nat, saved: bool, n: nat): (Core, Caller)
    decreases n
  {
    if n == 0 then (core, pc)
    else CallAlone(CallerCore(core, pc, now), CallerNext(core, pc, saved), now, saved, n - 1)
  }

  lemma {:induction false} AloneParts(s: System, id: nat, now: nat, saved: bool, n: nat)
    requires id in s.callers
    ensures var t := Alone(s, id, now, saved, n);
            && id in t.callers && (t.core, t.callers[id]) == CallAlone(s.core, s.callers[id], now, saved, n)
            && t.executor == s.executor && t.work == s.work && t.registered == s.registered
    decreases n
  {
    hide CallerCore, CallerNext;
    if n == 0 {
    } else {
      AloneParts(Step(s, Advance(id, now, saved)), id, now, saved, n - 1);
    }
  }

  lemma {:induction false} ReturnedStays(core: Core, answer: bool, now: nat, saved: bool, n: nat)
    ensures CallAlone(core, Returned(answer), now, saved, n) == (core, Returned(answer))
  {
    if n == 0 {
    } else {
      ReturnedStays(core, answer, now, saved, n - 1);
    }
  }

  /** What is left of a call: the run and the flags it changed, and its answer. */
  ghost predicate Left(s: System, t: System, id: nat, control: Control, answer: bool) {
    && t.core.control == control && t.executor == s.executor && t.work == s.work && t.registered == s.registered
    && id in t.callers && t.callers[id] == Returned(answer)
  }

  /** Once a pause has raised the flag. */
  lemma PauseTransits(core: Core, now: nat, saved: bool)
    ensures var (c, p) := CallAlone(core, PauseTransition, now, saved, 3);
            match core.control.run.status
            case Paused => c.control == core.control && p == Returned(true)
            case Running =>
              && c.control == core.control.(run := core.control.run.(status := Paused),
                                            paused := core.control.paused && saved)
              && p == Returned(saved)
            case _ => c.control == core.control.(paused := false) && p == Returned(false)
  {
    hide Path;
    var next := CallerCore(core, PauseTransition, now);
    forall n: nat, c: Core, answer: bool {
      ReturnedStays(c, answer, now, saved, n);
    }
    assert next.control == if core.control.run.status.Running?
                           then core.control.(run := core.control.run.(status := Paused)) else core.control;
  }

  /**
   * A pause call alone: on a running run it raises the flag and records the status, and a failed save takes
   * the flag back but not the status; it is repeated without effect, and refused for every other run.
   */
  lemma PauseAlone(s: System, id: nat, now: nat, saved: bool)
    requires id in s.callers && s.callers[id] == PauseEntry
    ensures var control, t := s.core.control, Alone(s, id, now, saved, 4);
            var paused := control.run.(status := Paused);
            if control.paused then Left(s, t, id, control, true)
            else
              match control.run.status
              case Paused => Left(s, t, id, control.(paused := true), true)
              case Running => Left(s, t, id, control.(run := paused, paused := saved), saved)
              case _ => Left(s, t, id, control, false)
  {
    hide Alone;
    AloneParts(s, id, now, saved, 4);
    ReturnedStays(s.core, true, now, saved, 3);
    PauseTransits(CallerCore(s.core, PauseEntry, now), now, saved);
  }

  /** Once a resume has closed the channel. */
  lemma ResumeTransits(core: Core, now: nat, saved: bool)
    ensures var (c, p) := CallAlone(core, ResumeTransition, now, saved, 3);
            var startedAt := if core.control.run.startedAt.None? then Some(now) else core.control.run.startedAt;
            var running := core.control.(run := core.control.run.(status := Running, startedAt := startedAt));
            match core.control.run.status
            case Running => c.control == core.control && p == Returned(true)
            case Queued => c.control == running && p == Returned(saved)
            case Paused => c.control == running && p == Returned(saved)
            case _ => c.control == core.control && p == Returned(false)
  {
    hide Path;
    forall n: nat, c: Core, answer: bool {
      ReturnedStays(c, answer, now, saved, n);
    }
  }

  /** A resume call alone: it closes the channel of a paused run and opens the next, and lets the run go on. */
  lemma ResumeAlone(s: System, id: nat, now: nat, saved: bool)
    requires id in s.callers && s.callers[id] == ResumeEntry
    ensures var control, t := s.core.control, Alone(s, id, now, saved, 4);
            var open := control.(paused := false, channel := control.channel + 1);
            var startedAt := if control.run.startedAt.None? then Some(now) else control.run.startedAt;
            var running := open.(run := control.run.(status := Running, startedAt := startedAt));
            if !control.paused then Left(s, t, id, control, true)
            else
              match control.run.status
              case Running => Left(s, t, id, open, true)
              case Queued => Left(s, t, id, running, saved)
              case Paused => Left(s, t, id, running, saved)
              case _ => Left(s, t, id, open, false)
  {
    hide Alone;
    AloneParts(s, id, now, saved, 4);
    ReturnedStays(CallerCore(s.core, ResumeEntry, now), true, now, saved, 3);
    ResumeTransits(CallerCore(s.core, ResumeEntry, now), now, saved);
  }

  /** A stop call alone: it stops every run that has not ended, and cancels it once that is saved. */
  lemma StopAlone(s: System, id: nat, now: nat, saved: bool)
    requires id in s.callers && s.callers[id] == StopTransition
    ensures var control, t := s.core.control, Alone(s, id, now, saved, 4);
            var stopped := control.run.(status := Stopped, finishedAt := Some(now));
            match control.run.status
            case Stopped => Left(s, t, id, control.(cancelled := true), true)
            case Succeeded => Left(s, t, id, control, false)
            case Failed => Left(s, t, id, control, false)
            case Skipped => Left(s, t, id, control, false)
            case _ => Left(s, t, id, control.(run := stopped, cancelled := control.cancelled || saved), saved)
  {
    hide Alone, Path;
    AloneParts(s, id, now, saved, 4);
    forall n: nat, c: Core, answer: bool {
      ReturnedStays(c, answer, now, saved, n);
    }
  }

  // ---------------------------------------------------------------- where the executor can go

  /** A blocked executor goes on exactly if its channel is closed or the run is cancelled: to look again, or to stop. */
  lemma BlockedGoesOnIff(s: System, now: nat, ok: bool)
    requires s.executor.Blocked?
    ensures var closed, cancelled := s.executor.on < s.core.control.channel, s.core.control.cancelled;
            && (closed ==> ExecutorStep(s, now, true).executor == Checking(s.executor.i))
            && (cancelled ==> ExecutorStep(s, now, false).executor == Stopping)
            && (ExecutorStep(s, now, ok).executor != s.executor ==> if ok then closed else cancelled)
  {
  }

  /** What a failed save does: before the start it ends everything, at the start it leaves early, later it leaves. */
  lemma SaveFails(s: System, now: nat)
    ensures var t := ExecutorStep(s, now, false);
            match s.executor
            case NotStarted =>
              && t.executor == Done(false) && !t.registered && t.saveFailed
              && t.core.control == s.core.control.(cancelled := true)
            case StartSaving =>
              t.executor == Done(true) && t.registered == s.registered && t.core == s.core && t.saveFailed
            case RecordSaving(_) => t.executor == Releasing && t.core == s.core && t.saveFailed
            case FailSaving => t.executor == Releasing && t.core == s.core && t.saveFailed
            case StopSaving => t.executor == Releasing && t.core == s.core && t.saveFailed
            case FinishSaving => t.executor == Releasing && t.core == s.core && t.saveFailed
            case _ => t.saveFailed == s.saveFailed
  {
  }

  /** An action that fails ends a cancelled run as stopped, and any other as failed with the failure recorded. */
  lemma ActionFails(s: System, now: nat, i: nat)
    requires s.executor == Executing(i)
    ensures var erred := ExecutorStep(s, now, false);
            var judged := ExecutorStep(erred, now, true);
            && erred.core == s.core && erred.work == s.work
            && judged.executor == (if s.core.control.cancelled then Stopping else Failing)
            && (!s.core.control.cancelled ==>
                  var recorded := ExecutorStep(judged, now, true);
                  recorded.executor == FailTransition && recorded.core.control.run.actionFailed)
  {
  }

  /** The executor's four transitions: what it aims at, and where it goes when the table allows it, or when not. */
  lemma ExecutorAims(s: System, now: nat)
    ensures var t, status := ExecutorStep(s, now, true), s.core.control.run.status;
            && (s.executor.Starting? ==>
                  t.executor == if status == Running
                                then (if s.core.control.run.total > 0 then Checking(0) else Finishing)
                                else if status in {Queued, Paused} then StartSaving else Done(true))
            && (s.executor.FailTransition? ==>
                  t.executor == if status in {Running, Paused} then FailSaving else Releasing)
            && (s.executor.Stopping? ==>
                  t.executor == if status in {Queued, Running, Paused} then StopSaving else Releasing)
            && (s.executor.Finishing? ==> t.executor == if status == Running then FinishSaving else Releasing)
  {
  }

  // ---------------------------------------------------------------- stopping

  /** An executor past its last cancellation check may start one more action. */
  function MayLaunch(pc: Executor): nat {
    if pc.Launching? then 1 else 0
  }

  lemma StepAfterCancel(s: System, e: Event)
    requires s.core.control.cancelled
    ensures Step(s, e).core.control.cancelled
    ensures |Step(s, e).work.started| + MayLaunch(Step(s, e).executor) <= |s.work.started| + MayLaunch(s.executor)
  {
    hide TransitionOutcome, Moved;
  }

  /** Once cancelled, a run starts at most one further action, and none if it was not about to. */
  lemma {:induction false} StopIsBounded(s: System, events: seq<Event>)
    requires s.core.control.cancelled
    ensures |Behave(s, events).work.started| <= |s.work.started| + MayLaunch(s.executor)
    decreases |events|
  {
    hide Step;
    if events == [] {
    } else {
      StepAfterCancel(s, events[0]);
      StopIsBounded(Step(s, events[0]), events[1..]);
    }
  }

  // ---------------------------------------------------------------- waking up

  /** Some stop call has stopped the run and has yet to cancel it. */
  ghost predicate StopPending(callers: map<nat, Caller>) {
    exists id | id in callers :: callers[id] == StopSavingCall || callers[id] == StopCancel
  }

  /** The executor waits on the current channel. */
  predicate Waits(s: System) {
    s.executor.Blocked? && s.executor.on == s.core.control.channel
  }

  /** It waits although nobody holds the run paused, and nobody has cancelled it or is about to. */
  ghost predicate Lost(s: System) {
    Waits(s) && !s.core.control.paused && !s.core.control.cancelled && !StopPending(s.callers)
  }

  predicate ChannelOk(s: System) {
    s.executor.Blocked? ==> s.executor.on <= s.core.control.channel
  }

  lemma StepKeepsChannel(s: System, e: Event)
    requires ChannelOk(s)
    ensures ChannelOk(Step(s, e))
  {
    hide TransitionOutcome, Moved;
  }

  /**
   * The step leaves a waiting executor to itself: a refused pause clears the flag without closing the
   * channel, or a stop that could not be saved gives up cancelling while the flag is down.
   */
  ghost predicate AbandonsWait(s: System, e: Event) {
    && e.Advance? && e.id in s.callers && Waits(s) && !s.core.control.cancelled
    && !StopPending(s.callers - {e.id})
    && (|| s.callers[e.id] == PauseRollback
        || (s.callers[e.id] == StopSavingCall && !e.ok && !s.core.control.paused))
  }

  lemma {:induction false} RunKeepsChannel(s: System, events: seq<Event>)
    requires ChannelOk(s)
    ensures ChannelOk(Behave(s, events))
    decreases |events|
  {
    hide ChannelOk, Step;
    if events == [] {
    } else {
      StepKeepsChannel(s, events[0]);
      RunKeepsChannel(Step(s, events[0]), events[1..]);
    }
  }

  /** What one step of a call does to the calls about to cancel. */
  lemma StopPendingStep(callers: map<nat, Caller>, id: nat, next: Caller)
    requires id in callers
    ensures StopPending(callers) <==>
              StopPending(callers - {id}) || callers[id] == StopSavingCall || callers[id] == StopCancel
    ensures StopPending(callers[id := next]) <==>
              StopPending(callers - {id}) || next == StopSavingCall || next == StopCancel
  {
    var rest := callers - {id};
    assert forall k | k in rest :: k in callers && callers[k] == rest[k] && callers[id := next][k] == rest[k];
    assert id in callers[id := next];
    forall k | k in callers && k != id
      ensures k in rest
    {
    }
  }

  lemma StopPendingEnter(callers: map<nat, Caller>, id: nat, call: Caller)
    requires id !in callers && call in {PauseEntry, ResumeEntry, StopTransition}
    ensures StopPending(callers[id := call]) <==> StopPending(callers)
  {
    assert forall k | k in callers :: callers[id := call][k] == callers[k];
  }

  lemma WakeupLostStep(s: System, e: Event)
    requires ChannelOk(s) && !Lost(s)
    ensures Lost(Step(s, e)) <==> AbandonsWait(s, e)
  {
    hide Moved, StopPending;
    match e
    case Enter(id, call) =>
      if s.registered && id !in s.callers && call in {PauseEntry, ResumeEntry, StopTransition} {
        StopPendingEnter(s.callers, id, call);
      }
    case Advance(id, now, ok) =>
      if id in s.callers {
        StopPendingStep(s.callers, id, CallerNext(s.core, s.callers[id], ok));
      }
    case Execute(now, ok) =>
      ExecutorKeepsCounts(s.core, s.executor, now, ok);
  }

  /**
   * In every run, failing saves and refused pauses included, a step loses the wakeup exactly if it
   * abandons the wait like that; every other step keeps it.
   */
  lemma WakeupLostIff(total: nat, events: seq<Event>, e: Event)
    ensures var s := Behave(Initial(total), events);
            !Lost(s) ==> (Lost(Step(s, e)) <==> AbandonsWait(s, e))
  {
    hide Behave, Step, Lost, AbandonsWait, ChannelOk;
    assert ChannelOk(Initial(total)) by { InitiallyCalm(total); CalmHasChannel(Initial(total)); }
    RunKeepsChannel(Initial(total), events);
    if !Lost(Behave(Initial(total), events)) {
      WakeupLostStep(Behave(Initial(total), events), e);
    }
  }

  lemma CalmHasChannel(s: System)
    requires Calm(s)
    ensures ChannelOk(s)
  {
  }

  /** The steps that end such a wait: a new pause raises the flag again, a stop goes on to save and cancel. */
  predicate EndsLostWait(s: System, e: Event) {
    && e.Advance? && e.id in s.callers
    && match s.callers[e.id]
       case PauseEntry => true
       case StopTransition => Allowed(s.core.control.run.status, Stopped) || s.core.control.run.status == Stopped
       case _ => false
  }

  /** Nothing else does, in particular no resume and no step of the executor. */
  lemma LostEndsIff(s: System, e: Event)
    requires Lost(s)
    ensures !Lost(Step(s, e)) <==> EndsLostWait(s, e)
  {
    hide Moved, StopPending;
    match e
    case Enter(id, call) =>
      if s.registered && id !in s.callers && call in {PauseEntry, ResumeEntry, StopTransition} {
        StopPendingEnter(s.callers, id, call);
      }
    case Advance(id, now, ok) =>
      if id in s.callers {
        StopPendingStep(s.callers, id, CallerNext(s.core, s.callers[id], ok));
      }
    case Execute(now, ok) =>
      ExecutorKeepsCounts(s.core, s.executor, now, ok);
  }

  ghost predicate RollbackOnlyAfterEnd(callers: map<nat, Caller>, status: Status) {
    forall id | id in callers && callers[id] == PauseRollback :: Terminal(status)
  }

  /** While every save works and no pause meets a queued run. */
  ghost predicate Calm(s: System) {
    var control := s.core.control;
    && ChannelOk(s)
    && RollbackOnlyAfterEnd(s.callers, control.run.status)
    && (control.run.status == Stopped ==> control.cancelled || StopPending(s.callers))
    && (s.executor.Stopping? ==> control.cancelled)
    && (s.executor.Blocked? && s.executor.on == control.channel ==> control.paused || Terminal(control.run.status))
  }

  lemma ExecutorKeepsCalm(s: System, now: nat, ok: bool)
    requires Calm(s)
    ensures Calm(ExecutorStep(s, now, ok))
  {
    hide StopPending, Moved;
    ExecutorKeepsCounts(s.core, s.executor, now, ok);
    TerminalHasNoSuccessor(s.core.control.run.status);
  }

  lemma CallerCallersCalm(s: System, id: nat, now: nat, ok: bool)
    requires id in s.callers && Calm(s)
    requires var t := CallerStep(s, id, now, ok); !t.saveFailed && !t.pausedQueued
    ensures var t := CallerStep(s, id, now, ok);
            && RollbackOnlyAfterEnd(t.callers, t.core.control.run.status)
            && (t.core.control.run.status == Stopped ==> t.core.control.cancelled || StopPending(t.callers))
  {
    hide Moved;
    var t := CallerStep(s, id, now, ok);
    CallerKeepsCounts(s.core, s.callers[id], now);
    if StopPending(s.callers) {
      var w :| w in s.callers && (s.callers[w] == StopSavingCall || s.callers[w] == StopCancel);
      assert w in t.callers;
    }
    assert id in t.callers;
  }

  lemma CallerKeepsCalm(s: System, id: nat, now: nat, ok: bool)
    requires id in s.callers && Calm(s)
    requires var t := CallerStep(s, id, now, ok); !t.saveFailed && !t.pausedQueued
    ensures Calm(CallerStep(s, id, now, ok))
  {
    hide StopPending, Moved;
    CallerCallersCalm(s, id, now, ok);
    CallerKeepsCounts(s.core, s.callers[id], now);
    TerminalHasNoSuccessor(s.core.control.run.status);
  }

  lemma StepKeepsCalm(s: System, e: Event)
    requires !s.saveFailed && !s.pausedQueued ==> Calm(s)
    ensures !Step(s, e).saveFailed && !Step(s, e).pausedQueued ==> Calm(Step(s, e))
  {
    hide ExecutorCore, ExecutorNext, ExecutorWork, CallerCore, CallerNext;
    if !Step(s, e).saveFailed && !Step(s, e).pausedQueued {
      match e
      case Enter(id, call) =>
        if StopPending(s.callers) {
          var w :| w in s.callers && (s.callers[w] == StopSavingCall || s.callers[w] == StopCancel);
          assert w in Step(s, e).callers;
        }
      case Advance(id, now, ok) => if id in s.callers { CallerKeepsCalm(s, id, now, ok); }
      case Execute(now, ok) => ExecutorKeepsCalm(s, now, ok);
    }
  }

  lemma {:induction false} RunKeepsCalm(s: System, events: seq<Event>)
    requires !s.saveFailed && !s.pausedQueued ==> Calm(s)
    ensures var t := Behave(s, events); !t.saveFailed && !t.pausedQueued ==> Calm(t)
    decreases |events|
  {
    hide Calm, Step;
    if events == [] {
    } else {
      StepKeepsCalm(s, events[0]);
      RunKeepsCalm(Step(s, events[0]), events[1..]);
    }
  }

  /**
   * No lost wakeup, as long as saves work and no pause is tried on a queued run: a blocked executor is on
   * the current channel with the pause flag set, or its channel is closed, or the run is stopped and the
   * cancellation is done or on its way.
   */
  lemma NoLostWakeup(total: nat, events: seq<Event>)
    ensures var s := Behave(Initial(total), events);
            var control := s.core.control;
            !s.saveFailed && !s.pausedQueued && s.executor.Blocked? ==>
              || (s.executor.on == control.channel && control.paused)
              || s.executor.on < control.channel
              || (control.run.status == Stopped && (control.cancelled || StopPending(s.callers)))
  {
    hide Initial, Path, CountsAt, Upto;
    assert Calm(Initial(total)) by { InitiallyCalm(total); }
    InitiallySafe(total);
    RunKeepsCalm(Initial(total), events);
    RunKeepsSafe(Initial(total), events);
  }

  lemma InitiallyCalm(total: nat)
    ensures Calm(Initial(total))
  {
  }

  lemma {:induction false} BehaveConcat(s: System, events: seq<Event>, more: seq<Event>)
    ensures Behave(s, events + more) == Behave(Behave(s, events), more)
    decreases |events|
  {
    hide Step;
    if events == [] {
      assert events + more == more;
    } else {
      assert (events + more)[1..] == events[1..] + more;
      BehaveConcat(Step(s, events[0]), events[1..], more);
    }
  }

  lemma BehaveFour(s: System, a: Event, b: Event, c: Event, d: Event)
    ensures Behave(s, [a, b, c, d]) == Step(Step(Step(Step(s, a), b), c), d)
  {
    hide Step;
    assert [a, b, c, d][1..] == [b, c, d] && [b, c, d][1..] == [c, d] && [c, d][1..] == [d];
    assert Behave(s, [a, b, c, d]) == Behave(Step(s, a), [b, c, d]);
    assert Behave(Step(s, a), [b, c, d]) == Behave(Step(Step(s, a), b), [c, d]);
    assert Behave(Step(Step(s, a), b), [c, d]) == Behave(Step(Step(Step(s, a), b), c), [d]);
    assert [d][1..] == [];
  }

  /** A pause call reaches a queued run and is refused; its rollback is still to come. */
  const QUEUED_PAUSE := [Enter(7, PauseEntry), Advance(7, 0, true), Advance(7, 0, true), Execute(0, true)]

  function RefusedPause(): System {
    System(Core(Control(true, 0, false, RunState(Queued, 0, 1, false, None, None)), [Queued]),
           Starting, Work([], []), map[7 := PauseRollback], true, false, true)
  }

  lemma QueuedPauseIsRefused()
    ensures Behave(Initial(1), QUEUED_PAUSE) == RefusedPause()
  {
    var s := Initial(1);
    BehaveFour(s, QUEUED_PAUSE[0], QUEUED_PAUSE[1], QUEUED_PAUSE[2], QUEUED_PAUSE[3]);
    var s1 := Step(s, QUEUED_PAUSE[0]);
    assert s1 == s.(callers := map[7 := PauseEntry]);
    var s2 := Step(s1, QUEUED_PAUSE[1]);
    assert s2.callers == map[7 := PauseTransition] && s2.core.control.paused;
    var s3 := Step(s2, QUEUED_PAUSE[2]);
    assert s3.callers == map[7 := PauseRollback] && s3.core == s2.core;
  }

  /** The executor starts and blocks, then the rollback arrives. */
  const START_THEN_ROLL_BACK := [Execute(0, true), Execute(0, true), Execute(0, true), Advance(7, 0, true)]

  lemma RefusedPauseLosesWakeup()
    ensures Lost(Behave(RefusedPause(), START_THEN_ROLL_BACK))
    ensures !Behave(RefusedPause(), START_THEN_ROLL_BACK).saveFailed
    ensures Behave(RefusedPause(), START_THEN_ROLL_BACK).pausedQueued
  {
    var s := RefusedPause();
    BehaveFour(s, START_THEN_ROLL_BACK[0], START_THEN_ROLL_BACK[1], START_THEN_ROLL_BACK[2], START_THEN_ROLL_BACK[3]);
    var s1 := Step(s, START_THEN_ROLL_BACK[0]);
    assert s1.executor == StartSaving && s1.core.control.run.status == Running && s1.callers == s.callers;
    var s2 := Step(s1, START_THEN_ROLL_BACK[1]);
    assert s2.executor == Checking(0) && s2.core == s1.core && s2.callers == s.callers;
    var s3 := Step(s2, START_THEN_ROLL_BACK[2]);
    assert s3.executor == Blocked(0, 0) && s3.core == s1.core && s3.callers == s.callers;
  }

  /** With a pause of a queued run the wakeup can be lost although every save succeeds. */
  lemma QueuedPauseLosesWakeup()
    ensures var s := Behave(Initial(1), QUEUED_PAUSE + START_THEN_ROLL_BACK);
            Lost(s) && !s.saveFailed && s.pausedQueued
  {
    hide Behave, Step;
    QueuedPauseIsRefused();
    RefusedPauseLosesWakeup();
    BehaveConcat(Initial(1), QUEUED_PAUSE, START_THEN_ROLL_BACK);
  }

  ghost predicate OnlyResumes(callers: map<nat, Caller>) {
    forall id | id in callers :: callers[id] == ResumeEntry || callers[id].Returned?
  }

  predicate ResumesOrExecutes(e: Event) {
    e.Enter? ==> e.call == ResumeEntry
  }

  lemma LostIgnoresResumeStep(s: System, e: Event)
    requires Lost(s) && OnlyResumes(s.callers) && ResumesOrExecutes(e)
    ensures Lost(Step(s, e)) && OnlyResumes(Step(s, e).callers)
    ensures Step(s, e).executor == s.executor && Step(s, e).work == s.work
  {
  }

  /** A lost executor stays where it is, and resuming it does nothing. */
  lemma {:induction false} LostIgnoresResume(s: System, events: seq<Event>)
    requires Lost(s) && OnlyResumes(s.callers)
    requires forall k | 0 <= k < |events| :: ResumesOrExecutes(events[k])
    ensures Lost(Behave(s, events)) && Behave(s, events).executor == s.executor && Behave(s, events).work == s.work
    decreases |events|
  {
    hide Lost, OnlyResumes, ResumesOrExecutes, Step;
    if events == [] {
    } else {
      LostIgnoresResumeStep(s, events[0]);
      LostIgnoresResume(Step(s, events[0]), events[1..]);
    }
  }

  // ---------------------------------------------------------------- ending

  /** How the executor can have come to an end while every save worked. */
  ghost predicate EndOk(s: System) {
    var status, all := s.core.control.run.status, |s.work.finished| == s.core.control.run.total;
    match s.executor
    case FailSaving => s.registered && Terminal(status)
    case StopSaving => s.registered && Terminal(status)
    case Releasing => s.registered && (Terminal(status) || all)
    case Done(early) =>
      && s.registered == early
      && (if early then status == Stopped && s.work.started == [] else Terminal(status) || all)
    case _ => s.registered
  }

  lemma ExecutorKeepsEnd(s: System, now: nat, ok: bool)
    requires EndOk(s) && WorkOk(s) && StatusOk(s) && !ExecutorStep(s, now, ok).saveFailed
    ensures EndOk(ExecutorStep(s, now, ok))
  {
    hide Moved, Upto;
    ExecutorKeepsCounts(s.core, s.executor, now, ok);
    assert s.executor.Starting? ==> s.work.started == [];
  }

  lemma StepKeepsEnd(s: System, e: Event)
    requires !s.saveFailed ==> EndOk(s)
    requires WorkOk(s) && StatusOk(s)
    ensures !Step(s, e).saveFailed ==> EndOk(Step(s, e))
  {
    hide ExecutorCore, ExecutorNext, ExecutorWork, CallerCore, CallerNext, CountsAt, StatusAt, Upto;
    if !Step(s, e).saveFailed {
      StepMoves(s, e);
      if e.Execute? {
        ExecutorKeepsEnd(s, e.now, e.ok);
      }
    }
  }

  lemma {:induction false} RunKeepsEnd(s: System, events: seq<Event>)
    requires Safe(s) && (!s.saveFailed ==> EndOk(s))
    ensures !Behave(s, events).saveFailed ==> EndOk(Behave(s, events))
    decreases |events|
  {
    hide Safe, Step, EndOk;
    if events == [] {
    } else {
      SafeParts(s);
      StepKeepsSafe(s, events[0]);
      StepKeepsEnd(s, events[0]);
      RunKeepsEnd(Step(s, events[0]), events[1..]);
    }
  }

  /**
   * When the executor is done and every save worked, the run has ended or all its actions have, and its
   * control is freed unless the run was stopped before its first action.
   */
  lemma DoneIsSettled(total: nat, events: seq<Event>)
    ensures var s := Behave(Initial(total), events);
            s.executor.Done? && !s.saveFailed ==>
              && (Terminal(s.core.control.run.status) || s.work.finished == Upto(total))
              && (s.registered <==> s.executor.early)
              && (s.registered ==> s.core.control.run.status == Stopped && s.work.started == [])
  {
    hide Path, Upto;
    var s := Initial(total);
    InitiallySafe(total);
    RunKeepsSafe(s, events);
    RunKeepsEnd(s, events);
    RunKeepsTotal(s, events);
    SafeParts(Behave(s, events));
  }

  /** The executor's very first transition is refused, or its save fails. */
  predicate Leaks(s: System, ok: bool) {
    (s.executor.Starting? && s.core.control.run.status == Stopped) || (s.executor.StartSaving? && !ok)
  }

  /** In every run a step leaves the control registered for good exactly there. */
  lemma LeaksIff(total: nat, events: seq<Event>, now: nat, ok: bool)
    ensures var s := Behave(Initial(total), events);
            !s.executor.Done? ==>
              (ExecutorStep(s, now, ok).executor.Done? && ExecutorStep(s, now, ok).registered <==> Leaks(s, ok))
  {
    hide Behave, Path, Upto, Initial;
    InitiallySafe(total);
    RunKeepsSafe(Initial(total), events);
    SafeParts(Behave(Initial(total), events));
    RegisteredUntilReleased(total, events);
  }

  /** Until it is done the executor's control is registered. */
  ghost predicate RegisteredOk(s: System) {
    if s.executor.Done? then s.executor.early ==> s.registered else s.registered
  }

  lemma {:induction false} RunKeepsRegistered(s: System, events: seq<Event>)
    requires RegisteredOk(s)
    ensures RegisteredOk(Behave(s, events))
    decreases |events|
  {
    hide ExecutorCore, ExecutorWork, CallerCore, CallerNext;
    if events == [] {
    } else {
      RunKeepsRegistered(Step(s, events[0]), events[1..]);
    }
  }

  lemma RegisteredUntilReleased(total: nat, events: seq<Event>)
    ensures RegisteredOk(Behave(Initial(total), events))
  {
    hide Behave;
    RunKeepsRegistered(Initial(total), events);
  }

  /** Once the executor is done, nothing removes its control. */
  lemma {:induction false} DoneStays(s: System, events: seq<Event>)
    requires s.executor.Done?
    ensures Behave(s, events).executor == s.executor && Behave(s, events).registered == s.registered
    decreases |events|
  {
    hide ExecutorCore, CallerCore, CallerNext;
    if events == [] {
    } else {
      DoneStays(Step(s, events[0]), events[1..]);
    }
  }

  /** A stop call reaches a queued run; then the executor starts. */
  const STOP_THEN_START := [Enter(1, StopTransition), Advance(1, 0, true), Execute(0, true), Execute(0, true)]

  /** A run stopped before its first action leaks its control although every save succeeds. */
  lemma StopBeforeStartLeaks(total: nat)
    ensures var s := Behave(Initial(total), STOP_THEN_START);
            s.executor == Done(true) && s.registered && !s.saveFailed && s.core.control.run.status == Stopped
  {
    var s := Initial(total);
    BehaveFour(s, STOP_THEN_START[0], STOP_THEN_START[1], STOP_THEN_START[2], STOP_THEN_START[3]);
    var s1 := Step(s, STOP_THEN_START[0]);
    assert s1 == s.(callers := map[1 := StopTransition]);
    var s2 := Step(s1, STOP_THEN_START[1]);
    assert s2.core.control.run.status == Stopped && s2.executor == NotStarted && s2.registered && !s2.saveFailed;
    var s3 := Step(s2, STOP_THEN_START[2]);
    assert s3.executor == Starting && s3.core == s2.core && s3.registered && !s3.saveFailed;
  }

  /** A run whose actions are all done ends in its last transition exactly if it is not paused then. */
  lemma FinishEndsIff(total: nat, events: seq<Event>, now: nat, ok: bool)
    ensures var s := Behave(Initial(total), events);
            s.executor.Finishing? ==>
              && s.work.finished == Upto(total)
              && (Terminal(ExecutorStep(s, now, ok).core.control.run.status) <==> s.core.control.run.status != Paused)
              && (ExecutorStep(s, now, ok).core.control.run.status == Succeeded <==>
                  s.core.control.run.status == Running)
  {
    hide Behave, Path, Upto, Initial;
    var s := Behave(Initial(total), events);
    InitiallySafe(total);
    RunKeepsSafe(Initial(total), events);
    RunKeepsTotal(Initial(total), events);
    assert Initial(total).core.control.run.total == total by { InitialTotal(total); }
    SafeParts(s);
    ExecutorKeepsCounts(s.core, s.executor, now, ok);
  }

  lemma InitialTotal(total: nat)
    ensures Initial(total).core.control.run.total == total
  {
  }

  // ---------------------------------------------------------------- reachability

  ghost predicate Reaches(s: System, t: System) {
    exists events :: t == Behave(s, events)
  }

  lemma ReachesItself(s: System)
    ensures Reaches(s, s)
  {
    assert s == Behave(s, []);
  }

  lemma ReachesFurther(s: System, t: System, e: Event)
    requires Reaches(s, t)
    ensures Reaches(s, Step(t, e))
  {
    hide Step;
    var events :| t == Behave(s, events);
    BehaveConcat(s, events, [e]);
    assert Behave(t, [e]) == Behave(Step(t, e), [e][1..]);
    assert Step(t, e) == Behave(s, events + [e]);
  }

  lemma ReachesOnward(s: System, t: System, u: System)
    requires Reaches(s, t) && Reaches(t, u)
    ensures Reaches(s, u)
  {
    var events :| t == Behave(s, events);
    var more :| u == Behave(t, more);
    BehaveConcat(s, events, more);
    assert u == Behave(s, events + more);
  }

  lemma StepGrowsHistory(s: System, e: Event, status: Status)
    requires status in s.core.history
    ensures status in Step(s, e).core.history
  {
    hide AfterTransition;
  }

  lemma {:induction false} RunGrowsHistory(s: System, events: seq<Event>, status: Status)
    requires status in s.core.history
    ensures status in Behave(s, events).core.history
    decreases |events|
  {
    hide Step;
    if events == [] {
    } else {
      StepGrowsHistory(s, events[0], status);
      RunGrowsHistory(Step(s, events[0]), events[1..], status);
    }
  }

  /** A status once recorded stays in the history. */
  lemma ReachesGrowsHistory(s: System, t: System, status: Status)
    requires Reaches(s, t) && status in s.core.history
    ensures status in t.core.history
  {
    var events :| t == Behave(s, events);
    RunGrowsHistory(s, events, status);
  }

  // ---------------------------------------------------------------- a run paused during its last action

  /** The executor is at pc, nobody has called, and everything has gone well. */
  ghost predicate Undisturbed(s: System, total: nat, pc: Executor, started: nat, finished: nat) {
    && s.executor == pc && s.callers == map[] && s.registered && !s.saveFailed && !s.pausedQueued
    && s.core.control.run.status == Running && s.core.control.run.total == total
    && !s.core.control.paused && !s.core.control.cancelled
    && s.work == Work(Upto(started), Upto(finished))
  }

  lemma RunStarts(total: nat) returns (s: System)
    requires total > 0
    ensures Reaches(Initial(total), s) && Undisturbed(s, total, Checking(0), 0, 0)
  {
    hide Reaches;
    var init := Initial(total);
    ReachesItself(init);
    s := Step(init, Execute(0, true));
    ReachesFurther(init, init, Execute(0, true));
    ReachesFurther(init, s, Execute(0, true));
    s := Step(s, Execute(0, true));
    ReachesFurther(init, s, Execute(0, true));
    s := Step(s, Execute(0, true));
  }

  /** From the check before action i to the action itself. */
  lemma ActionStarts(init: System, s: System, total: nat, i: nat) returns (t: System)
    requires Reaches(init, s) && i < total && Undisturbed(s, total, Checking(i), i, i)
    ensures Reaches(init, t) && Undisturbed(t, total, Executing(i), i + 1, i)
  {
    hide Reaches, Upto;
    UptoGrows(i);
    ReachesFurther(init, s, Execute(0, true));
    t := Step(s, Execute(0, true));
    ReachesFurther(init, t, Execute(0, true));
    t := Step(t, Execute(0, true));
    ReachesFurther(init, t, Execute(0, true));
    t := Step(t, Execute(0, true));
  }

  /** From action i to the check before the next one. */
  lemma ActionEnds(init: System, s: System, total: nat, i: nat) returns (t: System)
    requires Reaches(init, s) && i + 1 < total && Undisturbed(s, total, Executing(i), i + 1, i)
    ensures Reaches(init, t) && Undisturbed(t, total, Checking(i + 1), i + 1, i + 1)
  {
    hide Reaches, Upto;
    UptoGrows(i);
    ReachesFurther(init, s, Execute(0, true));
    t := Step(s, Execute(0, true));
    ReachesFurther(init, t, Execute(0, true));
    t := Step(t, Execute(0, true));
    ReachesFurther(init, t, Execute(0, true));
    t := Step(t, Execute(0, true));
  }

  lemma {:induction false} ActionIsReached(total: nat, i: nat) returns (s: System)
    requires i < total
    ensures Reaches(Initial(total), s) && Undisturbed(s, total, Executing(i), i + 1, i)
  {
    hide Reaches, Undisturbed, Initial;
    if i == 0 {
      s := RunStarts(total);
    } else {
      s := ActionIsReached(total, i - 1);
      s := ActionEnds(Initial(total), s, total, i - 1);
    }
    s := ActionStarts(Initial(total), s, total, i);
  }

  /** A pause call goes through while action i executes. */
  lemma ActionIsPaused(init: System, s: System, total: nat, i: nat) returns (t: System)
    requires Reaches(init, s) && Undisturbed(s, total, Executing(i), i + 1, i)
    ensures Reaches(init, t) && t.core.control.run.status == Paused && t.core.control.run.total == total
    ensures t.executor == s.executor && t.work == s.work && !t.saveFailed && !t.pausedQueued
    ensures t.callers == map[7 := Returned(true)]
  {
    hide Reaches, Upto;
    ReachesFurther(init, s, Enter(7, PauseEntry));
    t := Step(s, Enter(7, PauseEntry));
    assert t.callers == map[7 := PauseEntry];
    ReachesFurther(init, t, Advance(7, 0, true));
    t := Step(t, Advance(7, 0, true));
    assert t.callers == map[7 := PauseTransition] && t.core.control.run == s.core.control.run;
    ReachesFurther(init, t, Advance(7, 0, true));
    t := Step(t, Advance(7, 0, true));
    assert t.callers == map[7 := PauseSaving] && t.core.control.run.status == Paused;
    ReachesFurther(init, t, Advance(7, 0, true));
    t := Step(t, Advance(7, 0, true));
  }

  /** The last action of a paused run returns. */
  lemma PausedActionEnds(init: System, s: System, total: nat, i: nat) returns (t: System)
    requires Reaches(init, s) && i + 1 == total && s.executor == Executing(i) && s.work.finished == Upto(i)
    requires s.core.control.run.status == Paused && s.core.control.run.total == total
    requires !s.saveFailed && !s.pausedQueued
    ensures Reaches(init, t) && Stranded(t, total)
  {
    hide Reaches, Upto;
    UptoGrows(i);
    ReachesFurther(init, s, Execute(0, true));
    t := Step(s, Execute(0, true));
    assert t.executor == Recording(i) && t.core == s.core && t.work.finished == Upto(total);
    ReachesFurther(init, t, Execute(0, true));
    t := Step(t, Execute(0, true));
    t := PausedRecordEnds(init, t, total, i);
  }

  /** The progress of the last action is saved, and the last transition is refused. */
  lemma PausedRecordEnds(init: System, s: System, total: nat, i: nat) returns (t: System)
    requires Reaches(init, s) && i + 1 == total && s.executor == RecordSaving(i) && s.work.finished == Upto(total)
    requires s.core.control.run.status == Paused && s.core.control.run.total == total
    requires !s.saveFailed && !s.pausedQueued
    ensures Reaches(init, t) && Stranded(t, total)
  {
    hide Reaches, Upto;
    ReachesFurther(init, s, Execute(0, true));
    t := Step(s, Execute(0, true));
    assert t.executor == Finishing && t.core.control.run.status == Paused;
    ReachesFurther(init, t, Execute(0, true));
    t := Step(t, Execute(0, true));
  }

  /** All actions are done, no save failed, the executor is about to leave, and the run is paused. */
  ghost predicate Stranded(s: System, total: nat) {
    && s.executor == Releasing && s.core.control.run.status == Paused
    && s.work.finished == Upto(total) && !s.saveFailed && !s.pausedQueued
  }

  /** Whatever the number of actions, some run is paused during the last one and left like that. */
  lemma PauseDuringLastActionStrands(total: nat)
    requires total > 0
    ensures exists events :: Stranded(Behave(Initial(total), events), total)
  {
    hide Initial, Undisturbed, Stranded, Behave;
    var s := ActionIsReached(total, total - 1);
    var executing := s;
    s := ActionIsPaused(Initial(total), s, total, total - 1);
    assert executing.executor == Executing(total - 1) && executing.work.finished == Upto(total - 1) by {
      UndisturbedParts(executing, total, Executing(total - 1), total, total - 1);
    }
    s := PausedActionEnds(Initial(total), s, total, total - 1);
    var events :| s == Behave(Initial(total), events);
    assert Stranded(Behave(Initial(total), events), total);
  }

  lemma UndisturbedParts(s: System, total: nat, pc: Executor, started: nat, finished: nat)
    requires Undisturbed(s, total, pc, started, finished)
    ensures s.executor == pc && s.work.finished == Upto(finished)
  {
  }

  // ---------------------------------------------------------------- a stop that could not be saved

  ghost predicate AllReturned(callers: map<nat, Caller>) {
    forall id | id in callers :: callers[id].Returned?
  }

  /** The stop is recorded, but the call is still saving it. */
  lemma StopIsRecorded(init: System, s: System, total: nat) returns (t: System)
    requires Reaches(init, s) && total > 0 && Undisturbed(s, total, Checking(0), 0, 0)
    ensures Reaches(init, t) && t.core.control == s.core.control.(run := t.core.control.run)
    ensures t.core.control.run.status == Stopped && t.core.control.run.total == total
    ensures t.executor == s.executor && t.work == s.work && t.registered && !t.pausedQueued
    ensures t.callers == map[2 := StopSavingCall]
  {
    hide Reaches, Upto;
    ReachesFurther(init, s, Enter(2, StopTransition));
    t := Step(s, Enter(2, StopTransition));
    assert t.callers == map[2 := StopTransition];
    ReachesFurther(init, t, Advance(2, 0, true));
    t := Step(t, Advance(2, 0, true));
  }

  /** A pause call raises the flag of the stopped run, and its executor blocks. */
  lemma StoppedRunBlocks(init: System, s: System, total: nat) returns (t: System)
    requires Reaches(init, s) && s.executor == Checking(0) && s.registered && !s.pausedQueued
    requires s.core.control.run.status == Stopped && !s.core.control.paused && !s.core.control.cancelled
    requires s.callers == map[2 := StopSavingCall]
    ensures Reaches(init, t) && Waits(t) && !t.pausedQueued
    ensures t.core.control == s.core.control.(paused := true)
    ensures t.callers == map[2 := StopSavingCall, 1 := PauseTransition]
  {
    hide Reaches;
    ReachesFurther(init, s, Enter(1, PauseEntry));
    t := Step(s, Enter(1, PauseEntry));
    assert t.callers == map[2 := StopSavingCall, 1 := PauseEntry];
    ReachesFurther(init, t, Advance(1, 0, true));
    t := Step(t, Advance(1, 0, true));
    assert t.callers == map[2 := StopSavingCall, 1 := PauseTransition];
    ReachesFurther(init, t, Execute(0, true));
    t := Step(t, Execute(0, true));
  }

  /** The pause is refused and rolled back, and then saving the stop fails. */
  lemma BothCallsFail(init: System, s: System) returns (t: System)
    requires Reaches(init, s) && Waits(s) && !s.pausedQueued
    requires s.core.control.run.status == Stopped && !s.core.control.cancelled
    requires s.callers == map[2 := StopSavingCall, 1 := PauseTransition]
    ensures Reaches(init, t) && Lost(t) && AllReturned(t.callers) && !t.pausedQueued
    ensures t.core.control.run.status == Stopped
  {
    hide Reaches;
    ReachesFurther(init, s, Advance(1, 0, true));
    t := Step(s, Advance(1, 0, true));
    assert t.callers == map[2 := StopSavingCall, 1 := PauseRollback];
    ReachesFurther(init, t, Advance(1, 0, true));
    t := Step(t, Advance(1, 0, true));
    assert t.callers == map[2 := StopSavingCall, 1 := Returned(false)];
    ReachesFurther(init, t, Advance(2, 0, false));
    t := Step(t, Advance(2, 0, false));
    assert t.callers == map[2 := Returned(false), 1 := Returned(false)];
  }

  /** The second way to lose the wakeup: no pause meets a queued run, but a stop cannot be saved. */
  lemma FailedStopLosesWakeup(total: nat)
    requires total > 0
    ensures exists events ::
              var s := Behave(Initial(total), events);
              Lost(s) && AllReturned(s.callers) && !s.pausedQueued && s.core.control.run.status == Stopped
  {
    hide Initial, Lost, AllReturned, Behave, Waits;
    var s := RunStarts(total);
    s := StopIsRecorded(Initial(total), s, total);
    s := StoppedRunBlocks(Initial(total), s, total);
    s := BothCallsFail(Initial(total), s);
    var events :| s == Behave(Initial(total), events);
  }

  /** The executor's steps to the start of its next action, if there is one and nothing holds it up. */
  function StepsBeforeCheck(control: Control, pc: Executor): nat {
    match pc
    case Checking(_) => 3
    case Blocked(_, on) => if on < control.channel then 4 else 0
    case StartSaving => if control.run.total > 0 then 4 else 0
    case RecordSaving(i) => if i + 1 < control.run.total then 4 else 0
    case Recording(i) => if i + 1 < control.run.total then 5 else 0
    case Executing(i) => if i + 1 < control.run.total then 6 else 0
    case _ => 0
  }

  /** The same, or 0 if the run is held up: once past its check for a pause or a cancellation, it is not. */
  function StepsToAction(s: System): nat {
    var control := s.core.control;
    if s.executor.Launching? then 1
    else if s.executor.Unpaused? then if control.cancelled then 0 else 2
    else if control.paused || control.cancelled then 0
    else StepsBeforeCheck(control, s.executor)
  }

  predicate OnlyExecutes(events: seq<Event>) {
    forall k | 0 <= k < |events| :: events[k].Execute?
  }

  lemma StoppedStep(s: System, now: nat, ok: bool)
    requires Safe(s) && s.core.control.run.status == Stopped && StepsToAction(s) == 0
    ensures var t := ExecutorStep(s, now, ok);
            t.core.control.run.status == Stopped && StepsToAction(t) == 0 && t.work.started == s.work.started
  {
    hide Moved, Path, Upto;
    ExecutorKeepsCounts(s.core, s.executor, now, ok);
  }

  lemma {:induction false} StoppedStays(s: System, events: seq<Event>)
    requires Safe(s) && s.core.control.run.status == Stopped && StepsToAction(s) == 0 && OnlyExecutes(events)
    ensures Behave(s, events).work.started == s.work.started
    decreases |events|
  {
    hide Safe, StepsToAction, ExecutorStep;
    if events == [] {
    } else {
      StepKeepsSafe(s, events[0]);
      StoppedStep(s, events[0].now, events[0].ok);
      StoppedStays(Step(s, events[0]), events[1..]);
    }
  }

  lemma CloserToAction(s: System)
    requires Safe(s) && StepsToAction(s) > 0
    ensures var t := ExecutorStep(s, 0, true);
            if StepsToAction(s) == 1 then |t.work.started| == |s.work.started| + 1
            else t.work.started == s.work.started && StepsToAction(t) == StepsToAction(s) - 1
  {
    hide Path, Upto;
    ExecutorKeepsCounts(s.core, s.executor, 0, true);
  }

  lemma {:induction false} ActionFollows(s: System) returns (events: seq<Event>)
    requires Safe(s) && StepsToAction(s) > 0
    ensures OnlyExecutes(events) && |Behave(s, events).work.started| == |s.work.started| + 1
    decreases StepsToAction(s)
  {
    hide Safe, StepsToAction, ExecutorStep;
    var e := Execute(0, true);
    CloserToAction(s);
    if StepsToAction(s) == 1 {
      events := [e];
      assert Behave(s, [e]) == Behave(Step(s, e), [e][1..]);
    } else {
      StepKeepsSafe(s, e);
      var further := ActionFollows(Step(s, e));
      events := [e] + further;
      assert events[1..] == further;
    }
  }

  /**
   * In every run, a Stopped run whose callers do nothing more can start another action exactly if the
   * executor has passed its check, or the run is neither cancelled nor paused and an action is left: being
   * Stopped alone holds nothing up.
   */
  lemma StoppedRunGoesOnIff(total: nat, events: seq<Event>)
    ensures var s := Behave(Initial(total), events);
            s.core.control.run.status == Stopped ==>
              ((exists more :: OnlyExecutes(more) && |Behave(s, more).work.started| > |s.work.started|)
               <==> StepsToAction(s) > 0)
  {
    hide Initial, Safe, StepsToAction, Behave;
    var s := Behave(Initial(total), events);
    InitiallySafe(total);
    RunKeepsSafe(Initial(total), events);
    if s.core.control.run.status == Stopped {
      if StepsToAction(s) > 0 {
        var more := ActionFollows(s);
      } else {
        forall more | OnlyExecutes(more)
          ensures Behave(s, more).work.started == s.work.started
        {
          StoppedStays(s, more);
        }
      }
    }
  }

  /** A stop whose save fails leaves the run Stopped, and its executor goes on: all callers have returned. */
  lemma UnsavedStopGoesOn(total: nat)
    requires total > 0
    ensures exists events ::
              var s := Behave(Initial(total), events);
              s.core.control.run.status == Stopped && AllReturned(s.callers) && StepsToAction(s) > 0
  {
    hide Initial, Behave, Reaches, AllReturned;
    var s := RunStarts(total);
    s := StopIsRecorded(Initial(total), s, total);
    ReachesFurther(Initial(total), s, Advance(2, 0, false));
    var t := Step(s, Advance(2, 0, false));
    assert t.callers == map[2 := Returned(false)];
    assert AllReturned(t.callers) by { OneReturned(); }
    var events := RunBehind(Initial(total), t);
  }

  lemma OneReturned()
    ensures AllReturned(map[2 := Returned(false)])
  {
  }

  lemma RunBehind(s: System, t: System) returns (events: seq<Event>)
    requires Reaches(s, t)
    ensures t == Behave(s, events)
  {
    events :| t == Behave(s, events);
  }
}
