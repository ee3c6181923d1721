/**
 * Matching command responses with the calls that wait for them.
 *
 * A call registers a one-slot mailbox under its request identifier, sends, and waits; the reader of any
 * connection may deliver at any moment.  Every event is one critical section of the pending table or one
 * operation on a mailbox.
 */
module CommandCorrelation {
  import opened Common

  datatype Response = Response(requestId: string, body: string)

  datatype Phase =
    | Registered                     // mailbox registered, command about to be sent
    | Waiting
    | SendFailed | TimedOut          // about to withdraw the registration
    | Answered(response: Response)
    | Failed

  datatype Call = Call(requestId: string, phase: Phase, mailbox: Option<Response>)

  datatype System = System(calls: map<nat, Call>, pending: map<string, nat>)

  datatype Event =
    | Begin(call: nat, requestId: string)
    | Send(call: nat, ok: bool)
    | Deliver(response: Response)
    | Receive(call: nat)
    | Timeout(call: nat)
    | Withdraw(call: nat)

  const IDLE := System(map[], map[])

  predicate InFlight(c: Call) {
    c.phase.Registered? || c.phase.Waiting? || c.phase.SendFailed? || c.phase.TimedOut?
  }

  /** Request identifiers of calls in flight are pairwise distinct: the callers' side of the contract. */
  predicate Unused(s: System, requestId: string) {
    forall k | k in s.calls && InFlight(s.calls[k]) :: s.calls[k].requestId != requestId
  }

  predicate Enabled(s: System, e: Event) {
    match e
    case Begin(k, id) => k !in s.calls && Unused(s, id)
    case Send(k, _) => k in s.calls && s.calls[k].phase.Registered?
    case Deliver(_) => true
    case Receive(k) => k in s.calls && s.calls[k].phase.Waiting? && s.calls[k].mailbox.Some?
    case Timeout(k) => k in s.calls && s.calls[k].phase.Waiting? && s.calls[k].mailbox.None?
    case Withdraw(k) => k in s.calls && (s.calls[k].phase.SendFailed? || s.calls[k].phase.TimedOut?)
  }

  function SetPhase(s: System, k: nat, phase: Phase): System
    requires k in s.calls
  {
    s.(calls := s.calls[k := s.calls[k].(phase := phase)])
  }

  /** The table entry is taken out and its mailbox filled in one critical section. */
  function Delivered(s: System, response: Response): System {
    if response.requestId !in s.pending then s
    else
      var k := s.pending[response.requestId];
      System(
        if k in s.calls then s.calls[k := s.calls[k].(mailbox := Some(response))] else s.calls,
        s.pending - {response.requestId})
  }

  /** One event, whether or not the identifier of a new call is unused. */
  function Step(s: System, e: Event): System
    requires e.Begin? || e.Deliver? || e.call in s.calls
  {
    match e
    case Begin(k, id) => System(s.calls[k := Call(id, Registered, None)], s.pending[id := k])
    case Send(k, ok) => SetPhase(s, k, if ok then Waiting else SendFailed)
    case Deliver(response) => Delivered(s, response)
    case Receive(k) =>
      if s.calls[k].mailbox.Some? then SetPhase(s, k, Answered(s.calls[k].mailbox.value)) else s
    case Timeout(k) => SetPhase(s, k, TimedOut)
    case Withdraw(k) => SetPhase(s, k, Failed).(pending := s.pending - {s.calls[k].requestId})
  }

  /** Events that are not enabled do not happen. */
  function Try(s: System, e: Event): System {
    if Enabled(s, e) then Step(s, e) else s
  }

  function Run(s: System, events: seq<Event>): System
    decreases |events|
  {
    if events == [] then s else Run(Try(s, events[0]), events[1..])
  }

  ghost predicate EntriesAwaited(s: System) {
    forall id | id in s.pending ::
      && s.pending[id] in s.calls
      && s.calls[s.pending[id]].requestId == id
      && InFlight(s.calls[s.pending[id]])
      && s.calls[s.pending[id]].mailbox.None?
  }

  ghost predicate CallsRegistered(s: System) {
    forall k | k in s.calls && InFlight(s.calls[k]) && s.calls[k].mailbox.None? ::
      s.calls[k].requestId in s.pending && s.pending[s.calls[k].requestId] == k
  }

  ghost predicate RightMail(s: System) {
    forall k | k in s.calls ::
      && (s.calls[k].mailbox.Some? ==> s.calls[k].mailbox.value.requestId == s.calls[k].requestId)
      && (s.calls[k].phase.Answered? ==> s.calls[k].mailbox == Some(s.calls[k].phase.response))
  }

  ghost predicate DistinctCalls(s: System) {
    forall j, k | j in s.calls && k in s.calls && j != k && InFlight(s.calls[j]) && InFlight(s.calls[k]) ::
      s.calls[j].requestId != s.calls[k].requestId
  }

  ghost predicate Ok(s: System) {
    EntriesAwaited(s) && CallsRegistered(s) && RightMail(s) && DistinctCalls(s)
  }

  lemma BeginKeepsOk(s: System, e: Event)
    requires Ok(s) && Enabled(s, e) && e.Begin?
    ensures Ok(Step(s, e))
  {
  }

  lemma DeliverKeepsOk(s: System, response: Response)
    requires Ok(s)
    ensures Ok(Delivered(s, response))
  {
  }

  lemma CallKeepsOk(s: System, e: Event)
    requires Ok(s) && Enabled(s, e) && !e.Begin? && !e.Deliver?
    ensures Ok(Step(s, e))
  {
  }

  lemma TryKeepsOk(s: System, e: Event)
    requires Ok(s)
    ensures Ok(Try(s, e))
  {
    hide Ok, Delivered, SetPhase;
    if Enabled(s, e) {
      if e.Begin? {
        BeginKeepsOk(s, e);
      } else if e.Deliver? {
        DeliverKeepsOk(s, e.response);
      } else {
        CallKeepsOk(s, e);
      }
    }
  }

  lemma {:induction false} RunKeepsOk(s: System, events: seq<Event>)
    requires Ok(s)
    ensures Ok(Run(s, events))
    decreases |events|
  {
    hide Ok, Try;
    if events == [] {
    } else {
      TryKeepsOk(s, events[0]);
      RunKeepsOk(Try(s, events[0]), events[1..]);
    }
  }

  lemma IdleOk()
    ensures Ok(IDLE)
  {
  }

  /** Every answered call holds a response to its own request, and no table entry outlives its call. */
  lemma ResponsesBelong(events: seq<Event>, k: nat)
    requires k in Run(IDLE, events).calls
    ensures var s := Run(IDLE, events);
            && (s.calls[k].phase.Answered? ==> s.calls[k].phase.response.requestId == s.calls[k].requestId)
            && (!InFlight(s.calls[k]) ==> forall id | id in s.pending :: s.pending[id] != k)
            && (Unused(s, s.calls[k].requestId) ==> s.calls[k].requestId !in s.pending)
  {
    hide Run;
    IdleOk();
    RunKeepsOk(IDLE, events);
  }

  /** A delivery reaches exactly the unanswered call in flight under its identifier; a late one reaches nobody. */
  lemma DeliveryIsExact(events: seq<Event>, response: Response, k: nat)
    requires k in Run(IDLE, events).calls
    ensures var s := Run(IDLE, events);
            var t := Step(s, Deliver(response));
            && k in t.calls
            && t.calls[k].phase == s.calls[k].phase && t.calls[k].requestId == s.calls[k].requestId
            && (t.calls[k].mailbox != s.calls[k].mailbox
                <==> InFlight(s.calls[k]) && s.calls[k].mailbox.None? && s.calls[k].requestId == response.requestId)
            && (t.calls[k].mailbox != s.calls[k].mailbox ==> t.calls[k].mailbox == Some(response))
            && (Unused(s, response.requestId) ==> t == s)
  {
    hide Run;
    IdleOk();
    RunKeepsOk(IDLE, events);
  }

  lemma TryKeepsMail(s: System, e: Event, k: nat)
    requires Ok(s) && k in s.calls
    ensures var t := Try(s, e);
            && k in t.calls && t.calls[k].requestId == s.calls[k].requestId
            && (s.calls[k].mailbox.Some? ==> t.calls[k].mailbox == s.calls[k].mailbox)
            && (!InFlight(s.calls[k]) ==> t.calls[k].phase == s.calls[k].phase)
  {
  }

  /** A mailbox is filled at most once, and an answer is final. */
  lemma {:induction false} MailIsFinal(s: System, events: seq<Event>, k: nat)
    requires Ok(s) && k in s.calls
    ensures var t := Run(s, events);
            && k in t.calls && t.calls[k].requestId == s.calls[k].requestId
            && (s.calls[k].mailbox.Some? ==> t.calls[k].mailbox == s.calls[k].mailbox)
            && (!InFlight(s.calls[k]) ==> t.calls[k].phase == s.calls[k].phase)
    decreases |events|
  {
    hide Ok, Try;
    if events == [] {
    } else {
      TryKeepsOk(s, events[0]);
      TryKeepsMail(s, events[0], k);
      MailIsFinal(Try(s, events[0]), events[1..], k);
    }
  }

  // ---------------------------------------------------------------- how a call can go

  lemma RunFour(s: System, a: Event, b: Event, c: Event, d: Event)
    ensures Run(s, [a, b, c, d]) == Try(Try(Try(Try(s, a), b), c), d)
  {
    hide Try;
    assert [a, b, c, d][1..] == [b, c, d] && [b, c, d][1..] == [c, d] && [c, d][1..] == [d] && [d][1..] == [];
    assert Run(s, [a, b, c, d]) == Run(Try(s, a), [b, c, d]);
    assert Run(Try(s, a), [b, c, d]) == Run(Try(Try(s, a), b), [c, d]);
    assert Run(Try(Try(s, a), b), [c, d]) == Run(Try(Try(Try(s, a), b), c), [d]);
    assert Run(Try(Try(Try(s, a), b), c), [d]) == Run(Try(Try(Try(Try(s, a), b), c), d), []);
  }

  lemma CallBegins(s: System, k: nat, id: string)
    requires Ok(s) && k !in s.calls && Unused(s, id)
    ensures id !in s.pending
    ensures Try(s, Begin(k, id)) == System(s.calls[k := Call(id, Registered, None)], s.pending[id := k])
  {
  }

  /** A call whose response comes before or after it is sent is answered with it, and its registration is gone. */
  lemma ResponseAnswers(s: System, k: nat, response: Response)
    requires Ok(s) && k !in s.calls && Unused(s, response.requestId)
    ensures var id := response.requestId;
            var answered := System(s.calls[k := Call(id, Answered(response), Some(response))], s.pending);
            && Run(s, [Begin(k, id), Send(k, true), Deliver(response), Receive(k)]) == answered
            && Run(s, [Begin(k, id), Deliver(response), Send(k, true), Receive(k)]) == answered
  {
    hide Ok, Try, Run;
    var id := response.requestId;
    RunFour(s, Begin(k, id), Send(k, true), Deliver(response), Receive(k));
    RunFour(s, Begin(k, id), Deliver(response), Send(k, true), Receive(k));
    CallBegins(s, k, id);
    LaterAnswer(Try(s, Begin(k, id)), k, response);
    EarlyAnswer(Try(s, Begin(k, id)), k, response);
    assert s.pending[id := k] - {id} == s.pending;
  }

  lemma LaterAnswer(s: System, k: nat, response: Response)
    requires k in s.calls && s.calls[k] == Call(response.requestId, Registered, None)
    requires response.requestId in s.pending && s.pending[response.requestId] == k
    ensures Try(Try(Try(s, Send(k, true)), Deliver(response)), Receive(k))
            == System(s.calls[k := Call(response.requestId, Answered(response), Some(response))],
                      s.pending - {response.requestId})
  {
  }

  lemma EarlyAnswer(s: System, k: nat, response: Response)
    requires k in s.calls && s.calls[k] == Call(response.requestId, Registered, None)
    requires response.requestId in s.pending && s.pending[response.requestId] == k
    ensures Try(Try(Try(s, Deliver(response)), Send(k, true)), Receive(k))
            == System(s.calls[k := Call(response.requestId, Answered(response), Some(response))],
                      s.pending - {response.requestId})
  {
  }

  /** A call that cannot be sent, or to which nothing comes in time, fails and takes its registration back. */
  lemma SilenceFails(s: System, k: nat, id: string)
    requires Ok(s) && k !in s.calls && Unused(s, id)
    ensures var failed := System(s.calls[k := Call(id, Failed, None)], s.pending);
            && Run(s, [Begin(k, id), Send(k, false), Withdraw(k), Receive(k)]) == failed
            && Run(s, [Begin(k, id), Send(k, true), Timeout(k), Withdraw(k)]) == failed
  {
    hide Ok, Try, Run;
    RunFour(s, Begin(k, id), Send(k, false), Withdraw(k), Receive(k));
    RunFour(s, Begin(k, id), Send(k, true), Timeout(k), Withdraw(k));
    CallBegins(s, k, id);
    NoAnswer(Try(s, Begin(k, id)), k);
    assert s.pending[id := k] - {id} == s.pending;
  }

  lemma NoAnswer(s: System, k: nat)
    requires k in s.calls && s.calls[k].phase.Registered? && s.calls[k].mailbox.None?
    ensures var failed := System(
              s.calls[k := s.calls[k].(phase := Failed)], s.pending - {s.calls[k].requestId});
            && Try(Try(Try(s, Send(k, false)), Withdraw(k)), Receive(k)) == failed
            && Try(Try(Try(s, Send(k, true)), Timeout(k)), Withdraw(k)) == failed
  {
  }

  /** A wait ends by its mailbox: with the response if one is there, and only otherwise in time. */
  lemma MailEndsTheWait(s: System, k: nat)
    requires k in s.calls && s.calls[k].phase.Waiting?
    ensures Try(s, Receive(k)) == s <==> s.calls[k].mailbox.None?
    ensures Try(s, Timeout(k)) == s <==> s.calls[k].mailbox.Some?
  {
  }

  /** Two calls under one identifier: the first one's failure withdraws the second one's registration. */
  lemma SharedIdentifierLosesResponse(body: string)
    ensures var s := Step(Step(IDLE, Begin(1, "x")), Begin(2, "x"));
            var t := Step(Step(Step(s, Send(1, false)), Withdraw(1)), Send(2, true));
            Step(t, Deliver(Response("x", body))) == t && t.calls[2].phase == Waiting && t.calls[2].mailbox == None
  {
  }

  /** The pending table as the transport keeps it. */
  class PendingTable {
    var pending: map<string, nat>

    constructor ()
      ensures pending == map[]
    {
      pending := map[];
    }

    method Register(requestId: string, waiter: nat)
      modifies this
      ensures pending == old(pending)[requestId := waiter]
    {
      pending := pending[requestId := waiter];
    }

    /** The waiter of a response; the identifier is the payload's, else the trace's, else empty. */
    method Complete(payloadId: Option<string>, traceId: Option<string>) returns (waiter: Option<nat>)
      modifies this
      ensures var id := ResponseId(payloadId, traceId);
              && waiter == (if id in old(pending) then Some(old(pending)[id]) else None)
              && pending == old(pending) - {id}
    {
      var requestId := if payloadId.Some? then payloadId.value else if traceId.Some? then traceId.value else "";
      if requestId in pending {
        waiter := Some(pending[requestId]);
        pending := pending - {requestId};
      } else {
        waiter := None;
        assert pending - {requestId} == pending;
      }
    }

    method Withdraw(requestId: string)
      modifies this
      ensures pending == old(pending) - {requestId}
    {
      pending := pending - {requestId};
    }
  }

  function ResponseId(payloadId: Option<string>, traceId: Option<string>): string {
    match (payloadId, traceId)
    case (Some(id), _) => id
    case (None, Some(id)) => id
    case (None, None) => ""
  }

  /** The payload's identifier goes before the trace's, whatever that is. */
  lemma PayloadGoesFirst(own: string, trace: string)
    ensures forall any :: ResponseId(Some(own), any) == own
    ensures ResponseId(None, Some(trace)) == trace && ResponseId(None, None) == ""
  {
  }

  /**
   * Sending a command and delivering a response, as the transport's threads run them.  Each method keeps,
   * as ghost state, the state of the event model it has reached; between two of its steps the others may
   * move, of which OthersMove promises only that they take events of the model.
   */
  class Exchange {
    const table: PendingTable
    var mail: map<nat, Response>      // the mailboxes that hold a response
    ghost var machine: System

    ghost predicate Sync()
      reads this, table
    {
      && Ok(machine) && machine.pending == table.pending
      && (forall k | k in mail :: k in machine.calls)
      && (forall k | k in machine.calls :: machine.calls[k].mailbox == if k in mail then Some(mail[k]) else None)
    }

    constructor ()
      ensures Sync() && machine == IDLE && fresh(table)
    {
      table := new PendingTable();
      mail := map[];
      machine := IDLE;
      new;
      IdleOk();
    }

    ghost method Happened(e: Event)
      requires Ok(machine) && Enabled(machine, e)
      modifies this`machine
      ensures machine == Step(old(machine), e) && Ok(machine)
    {
      TryKeepsOk(machine, e);
      machine := Step(machine, e);
    }

    /** Whatever the other calls and the readers do; a response for k may arrive. */
    method OthersMove(k: nat)
      requires Sync() && k in machine.calls
      modifies this, table
      ensures Sync() && exists events :: machine == Run(old(machine), events)
      ensures k in machine.calls && machine.calls[k].phase == old(machine.calls[k].phase)
      ensures machine.calls[k].requestId == old(machine.calls[k].requestId)
    {
      assert machine == Run(machine, []);
    }

    /** A response fills the mailbox of the call registered under its identifier, or nobody's. */
    method DeliverResponse(response: Response)
      requires Sync()
      modifies this, table
      ensures Sync() && machine == Step(old(machine), Deliver(response))
      ensures mail == if response.requestId in old(table.pending)
                      then old(mail)[old(table.pending)[response.requestId] := response] else old(mail)
      ensures table.pending == old(table.pending) - {response.requestId}
    {
      var waiter := table.Complete(Some(response.requestId), None);
      if waiter.Some? {
        mail := mail[waiter.value := response];
      }
      Happened(Deliver(response));
    }

    /** The registration is taken back after a failed send or a timeout. */
    method GiveUp(k: nat, requestId: string)
      requires Sync() && k in machine.calls && machine.calls[k].requestId == requestId
      requires machine.calls[k].phase.SendFailed? || machine.calls[k].phase.TimedOut?
      modifies this, table
      ensures Sync() && k in machine.calls && machine.calls[k].phase == Failed
      ensures machine.calls[k].requestId == requestId
    {
      OthersMove(k);
      table.Withdraw(requestId);
      Happened(Event.Withdraw(k));
    }

    method Begin(k: nat, requestId: string)
      requires Sync() && k !in machine.calls && Unused(machine, requestId)
      modifies this, table
      ensures Sync() && k in machine.calls
      ensures machine.calls[k].phase == Registered && machine.calls[k].requestId == requestId
    {
      table.Register(requestId, k);
      Happened(Event.Begin(k, requestId));
    }

    /** The command is handed to the connection. */
    method SendOff(k: nat, requestId: string) returns (sent: bool)
      requires Sync() && k in machine.calls
      requires machine.calls[k].phase == Registered && machine.calls[k].requestId == requestId
      modifies this, table
      ensures Sync() && k in machine.calls
      ensures machine.calls[k].phase == (if sent then Waiting else SendFailed)
      ensures machine.calls[k].requestId == requestId
    {
      OthersMove(k);
      sent := *;
      Happened(Send(k, sent));
    }

    /** The wait ends with the response that is there by then, or without one. */
    method Await(k: nat, requestId: string) returns (r: Option<Response>)
      requires Sync() && k in machine.calls
      requires machine.calls[k].phase == Waiting && machine.calls[k].requestId == requestId
      modifies this, table
      ensures Sync() && k in machine.calls
      ensures machine.calls[k].phase == (if r.Some? then Answered(r.value) else TimedOut)
      ensures machine.calls[k].requestId == requestId
    {
      OthersMove(k);
      if k in mail {
        r := Some(mail[k]);
        Happened(Receive(k));
      } else {
        r := None;
        Happened(Timeout(k));
      }
    }

    /** A call under an identifier nobody else has in flight: its own response or a failure, and no entry left. */
    method SendCommand(k: nat, requestId: string) returns (r: Option<Response>)
      requires Sync() && k !in machine.calls && Unused(machine, requestId)
      modifies this, table
      ensures Sync() && k in machine.calls
      ensures machine.calls[k].phase == if r.Some? then Answered(r.value) else Failed
      ensures r.Some? ==> r.value.requestId == requestId
      ensures forall id | id in table.pending :: table.pending[id] != k
    {
      hide Sync, Ok, Unused;
      Begin(k, requestId);
      var sent := SendOff(k, requestId);
      r := None;
      if sent {
        r := Await(k, requestId);
      }
      if r.None? {
        GiveUp(k, requestId);
      }
      Settled(k);
    }

    /** A call that is over has its own answer, if any, and no entry. */
    lemma Settled(k: nat)
      requires Sync() && k in machine.calls && (machine.calls[k].phase.Answered? || machine.calls[k].phase.Failed?)
      ensures machine.calls[k].phase.Answered? ==>
                machine.calls[k].phase.response.requestId == machine.calls[k].requestId
      ensures forall id | id in table.pending :: table.pending[id] != k
    {
    }
  }
}
