/** Starting runs: the control map and the "skip" concurrency policy. */
module AutomationService {
  import opened Common

  const SKIP := "skip"

  /** What a registered control was started for, and under which policy. */
  datatype Started = Started(taskID: string, policy: string)

  /** The part of a run identifier before its first colon. */
  function ActiveTask(runID: string): string {
    if runID == "" then ""
    else if runID[0] == ':' then ""
    else if ':' in runID then [runID[0]] + ActiveTask(runID[1..])
    else ""
  }

  method ActiveTaskScan(runID: string) returns (task: string)
    ensures task == ActiveTask(runID)
  {
    var index := 0;
    while index < |runID|
      invariant 0 <= index <= |runID|
      invariant ':' !in runID[..index]
    {
      if runID[index] == ':' {
        FirstColon(runID, index);
        return runID[..index];
      }
      index := index + 1;
    }
    assert runID[..index] == runID;
    NoColon(runID);
    task := "";
  }

  lemma {:induction false} FirstColon(runID: string, index: nat)
    requires index < |runID| && runID[index] == ':' && ':' !in runID[..index]
    ensures ActiveTask(runID) == runID[..index]
  {
    if index == 0 {
    } else {
      assert runID[..index] == [runID[0]] + runID[1..][..index - 1];
      FirstColon(runID[1..], index - 1);
    }
  }

  lemma NoColon(runID: string)
    requires ':' !in runID
    ensures ActiveTask(runID) == ""
  {
  }

  /** A run identifier yields its task back exactly when the task identifier holds no colon. */
  lemma ActiveTaskIff(taskID: string, run: string)
    ensures ActiveTask(taskID + ":" + run) == taskID <==> ':' !in taskID
  {
    var runID := taskID + ":" + run;
    if ':' in taskID {
      var i := FindColon(taskID);
      assert runID[..i] == taskID[..i];
      FirstColon(runID, i);
    } else {
      assert runID[..|taskID|] == taskID;
      FirstColon(runID, |taskID|);
    }
  }

  lemma {:induction false} FindColon(s: string) returns (i: nat)
    requires ':' in s
    ensures i < |s| && s[i] == ':' && ':' !in s[..i]
  {
    if s[0] == ':' {
      i := 0;
    } else {
      i := FindColon(s[1..]);
      assert s[..i + 1] == [s[0]] + s[1..][..i];
      i := i + 1;
    }
  }

  predicate Busy(controls: map<string, Started>, taskID: string) {
    exists runID | runID in controls :: runID != "" && ActiveTask(runID) == taskID
  }

  /** The critical sections of the control map: a start registers, a failed save or a finished run releases. */
  datatype Event =
    | Start(taskID: string, policy: string, identifier: string)
    | Release(runID: string)

  function RunID(taskID: string, identifier: string): string {
    taskID + ":" + identifier
  }

  predicate Refused(controls: map<string, Started>, taskID: string, policy: string) {
    policy == SKIP && Busy(controls, taskID)
  }

  /** The control map after one event; identifiers are random, so a used one cannot come again. */
  function Apply(controls: map<string, Started>, e: Event): map<string, Started> {
    match e
    case Start(taskID, policy, identifier) =>
      if Refused(controls, taskID, policy) || RunID(taskID, identifier) in controls then controls
      else controls[RunID(taskID, identifier) := Started(taskID, policy)]
    case Release(runID) => controls - {runID}
  }

  function ApplyAll(controls: map<string, Started>, events: seq<Event>): map<string, Started>
    decreases |events|
  {
    if events == [] then controls else ApplyAll(Apply(controls, events[0]), events[1..])
  }

  lemma {:induction false} ActiveTaskPrefix(runID: string, taskID: string)
    ensures taskID != "" ==> (ActiveTask(runID) == taskID <==> ':' !in taskID && taskID + ":" <= runID)
    ensures ActiveTask(runID) == "" <==> ':' !in runID || runID[0] == ':'
  {
    if runID != "" && runID[0] != ':' {
      if taskID != "" {
        ActiveTaskPrefix(runID[1..], taskID[1..]);
        assert taskID == [taskID[0]] + taskID[1..];
        assert ':' in runID ==> ':' in runID[1..];
        assert taskID + ":" <= runID ==> runID[|taskID|] == ':';
        assert taskID + ":" <= runID <==> taskID[0] == runID[0] && taskID[1..] + ":" <= runID[1..];
      } else {
        ActiveTaskPrefix(runID[1..], "");
      }
    }
  }

  /**
   * A start is refused exactly under the skip policy and if the identifier of some active run begins with
   * the task's, which has no colon, and a colon; for a task without identifier a run whose identifier has
   * no colon, or one in front, counts.
   */
  lemma RefusedIff(controls: map<string, Started>, taskID: string, policy: string)
    ensures Refused(controls, taskID, policy) <==>
              && policy == "skip"
              && exists runID | runID in controls ::
                  if taskID != "" then ':' !in taskID && taskID + ":" <= runID
                  else runID != "" && (':' !in runID || runID[0] == ':')
  {
    hide ActiveTask;
    forall runID | runID in controls
      ensures runID != "" && ActiveTask(runID) == taskID <==>
                if taskID != "" then ':' !in taskID && taskID + ":" <= runID
                else runID != "" && (':' !in runID || runID[0] == ':')
    {
      ActiveTaskPrefix(runID, taskID);
    }
  }

  lemma {:induction false} ApplyAllAppend(controls: map<string, Started>, events: seq<Event>, more: seq<Event>)
    ensures ApplyAll(controls, events + more) == ApplyAll(ApplyAll(controls, events), more)
    decreases |events|
  {
    hide Apply;
    if events == [] {
      assert events + more == more;
    } else {
      assert (events + more)[1..] == events[1..] + more;
      ApplyAllAppend(Apply(controls, events[0]), events[1..], more);
    }
  }

  lemma ApplyAllOne(controls: map<string, Started>, e: Event)
    ensures ApplyAll(controls, [e]) == Apply(controls, e)
  {
    hide Apply;
    assert ApplyAll(Apply(controls, e), []) == Apply(controls, e);
  }

  class Service {
    var controls: map<string, Started>

    constructor ()
      ensures controls == map[]
    {
      controls := map[];
    }

    /** Starts and releases of other runs while this one is being saved; nobody else releases it. */
    method OthersMove(runID: string) returns (ghost others: seq<Event>)
      modifies this
      ensures controls == ApplyAll(old(controls), others)
      ensures forall k | 0 <= k < |others| :: others[k] != Event.Release(runID)
    {
      others := [];
    }

    /** The first critical section: a refusal, or the registration. */
    method Register(taskID: string, policy: string, identifier: string) returns (refused: bool)
      requires RunID(taskID, identifier) !in controls
      modifies this
      ensures refused == Refused(old(controls), taskID, policy)
      ensures controls == Apply(old(controls), Start(taskID, policy, identifier))
    {
      if policy == SKIP {
        var pending := controls.Keys;
        while pending != {}
          invariant pending <= controls.Keys
          invariant forall id | id in controls.Keys - pending :: id == "" || ActiveTask(id) != taskID
          invariant controls == old(controls)
          decreases pending
        {
          var runID :| runID in pending;
          var task := ActiveTaskScan(runID);
          if |runID| > 0 && task == taskID {
            return true;
          }
          pending := pending - {runID};
        }
      }
      controls := controls[RunID(taskID, identifier) := Started(taskID, policy)];
      refused := false;
    }

    /** The save runs outside the lock, so others start and end runs between registration and withdrawal. */
    method Run(taskID: string, policy: string, identifier: string, saveOk: bool)
      returns (r: Result<string, string>, ghost others: seq<Event>)
      requires RunID(taskID, identifier) !in controls
      modifies this
      ensures forall k | 0 <= k < |others| :: others[k] != Event.Release(RunID(taskID, identifier))
      ensures r == if Refused(old(controls), taskID, policy) then Failure("AUTOMATION_CONCURRENCY_SKIPPED")
                   else if !saveOk then Failure("AUTOMATION_RUN_SAVE_FAILED")
                   else Success(RunID(taskID, identifier))
      ensures if Refused(old(controls), taskID, policy) then controls == old(controls)
              else controls == ApplyAll(old(controls), StartedRun(taskID, policy, identifier, saveOk, others))
    {
      hide Apply, ApplyAll, Refused;
      var runID := RunID(taskID, identifier);
      others := [];
      var refused := Register(taskID, policy, identifier);
      if refused {
        RefusedChangesNothing(old(controls), taskID, policy, identifier);
        return Failure("AUTOMATION_CONCURRENCY_SKIPPED"), [];
      }
      others := OthersMove(runID);
      if !saveOk {
        Release(runID);
        r := Failure("AUTOMATION_RUN_SAVE_FAILED");
      } else {
        r := Success(runID);
      }
      StartedRunApplied(old(controls), taskID, policy, identifier, saveOk, others);
    }

    method Release(runID: string)
      modifies this
      ensures controls == Apply(old(controls), Event.Release(runID))
    {
      controls := controls - {runID};
    }
  }

  /** What a start that is not refused adds to the history of the control map, with what others did meanwhile. */
  function StartedRun(
      taskID: string, policy: string, identifier: string, saveOk: bool, others: seq<Event>): seq<Event>
  {
    [Start(taskID, policy, identifier)] + others + if saveOk then [] else [Event.Release(RunID(taskID, identifier))]
  }

  lemma RefusedChangesNothing(controls: map<string, Started>, taskID: string, policy: string, identifier: string)
    requires Refused(controls, taskID, policy)
    ensures Apply(controls, Start(taskID, policy, identifier)) == controls
  {
  }

  lemma StartedRunApplied(
      controls: map<string, Started>, taskID: string, policy: string, identifier: string, saveOk: bool,
      others: seq<Event>)
    ensures var during := ApplyAll(Apply(controls, Start(taskID, policy, identifier)), others);
            ApplyAll(controls, StartedRun(taskID, policy, identifier, saveOk, others))
            == if saveOk then during else Apply(during, Event.Release(RunID(taskID, identifier)))
  {
    hide Apply, ApplyAll;
    var start, release := Start(taskID, policy, identifier), Event.Release(RunID(taskID, identifier));
    ApplyAllOne(controls, start);
    ApplyAllAppend(controls, [start], others);
    if saveOk {
      assert [start] + others + [] == [start] + others;
    } else {
      ApplyAllAppend(controls, [start] + others, [release]);
      ApplyAllOne(ApplyAll(controls, [start] + others), release);
    }
  }

  /** Entries carry their task's identifier, and no colon-free task has two runs started under skip. */
  ghost predicate Exclusive(controls: map<string, Started>) {
    && (forall id | id in controls :: exists run {:trigger RunID(controls[id].taskID, run)} ::
        id == RunID(controls[id].taskID, run))
    && (forall a, b | a in controls && b in controls && a != b && controls[a].taskID == controls[b].taskID
          && ':' !in controls[a].taskID :: controls[a].policy != SKIP || controls[b].policy != SKIP)
  }

  lemma ApplyKeepsExclusive(controls: map<string, Started>, e: Event)
    requires Exclusive(controls)
    ensures Exclusive(Apply(controls, e))
  {
    hide ActiveTask;
    var after := Apply(controls, e);
    if e.Start? && RunID(e.taskID, e.identifier) !in controls && e.policy == SKIP {
      forall id | id in controls && controls[id].taskID == e.taskID && ':' !in e.taskID
        ensures Busy(controls, e.taskID)
      {
        var run :| id == RunID(controls[id].taskID, run);
        ActiveTaskIff(e.taskID, run);
        assert id != "";
      }
    }
  }

  /** Over every sequence of starts and releases at most one active run of a task was started under skip. */
  lemma {:induction false} SkipIsExclusive(controls: map<string, Started>, events: seq<Event>)
    requires Exclusive(controls)
    ensures Exclusive(ApplyAll(controls, events))
    decreases |events|
  {
    hide Exclusive, Apply;
    if events == [] {
    } else {
      ApplyKeepsExclusive(controls, events[0]);
      SkipIsExclusive(Apply(controls, events[0]), events[1..]);
    }
  }

  lemma {:induction false} ActiveTaskHasNoColon(runID: string)
    ensures ':' !in ActiveTask(runID)
  {
    if runID != "" && runID[0] != ':' && ':' in runID {
      ActiveTaskHasNoColon(runID[1..]);
    }
  }

  /** An active run keeps a skip start of its own task out exactly when the task identifier holds no colon. */
  lemma SkipEnforcedIff(controls: map<string, Started>, taskID: string, run: string)
    requires RunID(taskID, run) in controls
    ensures Busy(controls, taskID) <==> ':' !in taskID
  {
    ActiveTaskIff(taskID, run);
    assert RunID(taskID, run) != "";
    forall runID | runID in controls
      ensures ':' in taskID ==> ActiveTask(runID) != taskID
    {
      ActiveTaskHasNoColon(runID);
    }
  }

  /**
   * A control nobody releases makes every later skip start of its task be refused, whatever else is
   * started and released, if the task identifier holds no colon.
   */
  lemma {:induction false} UnreleasedBlocksSkip(
      controls: map<string, Started>, events: seq<Event>, taskID: string, run: string)
    requires RunID(taskID, run) in controls && ':' !in taskID
    requires forall k | 0 <= k < |events| :: events[k] != Event.Release(RunID(taskID, run))
    ensures var after := ApplyAll(controls, events);
            && RunID(taskID, run) in after
            && forall identifier :: Apply(after, Start(taskID, SKIP, identifier)) == after
    decreases |events|
  {
    hide RunID;
    if events == [] {
      SkipEnforcedIff(controls, taskID, run);
    } else {
      UnreleasedBlocksSkip(Apply(controls, events[0]), events[1..], taskID, run);
    }
  }

  /**
   * A start whose save is going to fail keeps skip starts of its colon-free task out while it is being saved,
   * so that in the end neither of the two runs exists.
   */
  lemma FailedStartRefuses(controls: map<string, Started>, taskID: string, policy: string, own: string, other: string)
    requires ':' !in taskID && RunID(taskID, own) !in controls && !Refused(controls, taskID, policy)
    ensures ApplyAll(controls, StartedRun(taskID, policy, own, false, [Start(taskID, SKIP, other)])) == controls
  {
    hide Refused;
    var registered := Apply(controls, Start(taskID, policy, own));
    SkipEnforcedIff(registered, taskID, own);
    RefusedChangesNothing(registered, taskID, SKIP, other);
    ApplyAllOne(registered, Start(taskID, SKIP, other));
    StartedRunApplied(controls, taskID, policy, own, false, [Start(taskID, SKIP, other)]);
  }
}
