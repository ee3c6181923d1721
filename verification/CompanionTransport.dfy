/** Accepting one envelope of a live connection: correlation, sessions, registry and routing together. */
module CompanionTransport {
  import opened Common
  import opened CompanionRegistry
  import opened CompanionSessions
  import opened CompanionSessionLaws
  import opened CompanionIngress
  import opened CompanionRouting
  import opened CommandCorrelation

  datatype Verdict = Rejected(code: string) | Accepted(device: Option<string>)

  predicate IsResponse(e: Envelope) {
    e.kind.CommandResponse? || e.kind.Error?
  }

  /** Each device that has a session is published as the session has it; the others stay. */
  ghost predicate Published(sessions: Sessions, before: seq<Device>, after: seq<Device>) {
    forall id :: Lookup(after, id) == if id in sessions then Some(sessions[id]) else Lookup(before, id)
  }

  class Transport {
    const ingress: Ingress
    const live: LiveTransport
    const waiting: PendingTable

    ghost predicate Valid()
      reads this, ingress, ingress.manager, live, live.registry
    {
      Faithful(ingress.manager.catalog, ingress.manager.sessions) && DistinctIds(live.registry.devices)
    }

    constructor (catalog: seq<Capability>)
      ensures Valid() && ingress.manager.catalog == catalog && ingress.Current() == State(map[], 0)
      ensures live.sessions == map[] && live.registry.devices == [] && waiting.pending == map[]
      ensures fresh(ingress) && fresh(ingress.manager) && fresh(live) && fresh(live.registry) && fresh(waiting)
    {
      var registry := new Registry();
      ingress := new Ingress(catalog);
      live := new LiveTransport(registry);
      waiting := new PendingTable();
    }

    method PublishSessions()
      requires Valid()
      modifies live.registry
      ensures Valid() && Published(ingress.manager.sessions, old(live.registry.devices), live.registry.devices)
    {
      var sessions := ingress.manager.sessions;
      var left := sessions.Keys;
      while left != {}
        invariant left <= sessions.Keys
        invariant DistinctIds(live.registry.devices)
        invariant forall id ::
          Lookup(live.registry.devices, id)
          == if id in sessions && id !in left then Some(sessions[id]) else Lookup(old(live.registry.devices), id)
        decreases left
      {
        hide DistinctIds, Lookup, Upserted;
        var d :| d in left;
        var before := live.registry.devices;
        live.registry.Upsert(sessions[d]);
        UpsertKeepsDistinct(before, sessions[d]);
        forall id {
          UpsertIsUpdate(before, sessions[d], id);
        }
        left := left - {d};
      }
    }

    /**
     * open: whether the connection still takes replies.  A response completes at most one waiter and
     * touches nothing else.  A hello that names a device takes over its routing, even when the session
     * manager refused the hello.  Heartbeats are not answered.
     */
    method Accept(connection: nat, e: Envelope, storeError: Option<string>, open: bool)
        returns (verdict: Verdict, waiter: Option<nat>, sent: Option<Reply>)
      requires Valid()
      modifies ingress, ingress.manager, live, live.registry, waiting
      ensures Valid()
      ensures ValidateEnvelope(e).Some? || e.kind in {CommandResponse, Error} ==>
                ingress.Current() == old(ingress.Current()) && live.sessions == old(live.sessions)
                && live.registry.devices == old(live.registry.devices) && sent == None
      ensures ValidateEnvelope(e).Some? ==>
                verdict == Rejected(ValidateEnvelope(e).value) && waiter == None
                    && waiting.pending == old(waiting.pending)
      ensures ValidateEnvelope(e).None? && e.kind in {CommandResponse, Error} ==>
                var id := ResponseId(e.requestId, e.traceId);
                && verdict == Accepted(None)
                && waiter == (if id in old(waiting.pending) then Some(old(waiting.pending)[id]) else None)
                && waiting.pending == old(waiting.pending) - {id}
      ensures ValidateEnvelope(e).None? && e.kind !in {CommandResponse, Error} ==>
                var outcome := Dispatch(ingress.manager.catalog, old(ingress.Current()), e, storeError);
                && ingress.Current() == outcome.state
                && Published(outcome.state.sessions, old(live.registry.devices), live.registry.devices)
                && live.sessions == (if e.kind.Hello? && e.deviceId.Some?
                                     then old(live.sessions)[e.deviceId.value := connection] else old(live.sessions))
                && waiter == None && waiting.pending == old(waiting.pending)
                && sent == (if open && !e.kind.Heartbeat? then Some(ReplyOf(e, outcome)) else None)
                && verdict == (if open || e.kind.Heartbeat? then Accepted(e.deviceId)
                    else Rejected("COMPANION_QUIC_CONTROL_CLOSED"))
    {
      hide Faithful, DistinctIds, Dispatch, Lookup;
      waiter, sent := None, None;
      var invalid := ValidateEnvelope(e);
      if invalid.Some? {
        verdict := Rejected(invalid.value);
        return;
      }
      if IsResponse(e) {
        waiter := waiting.Complete(e.requestId, e.traceId);
        verdict := Accepted(None);
        return;
      }
      DispatchKeepsFaithful(ingress.manager.catalog, ingress.Current(), e, storeError);
      var reply := ingress.HandleEnvelope(e, storeError);
      PublishSessions();
      if e.kind.Hello? {
        live.InsertHandle(connection, e.deviceId);
      }
      if e.kind.Heartbeat? {
        verdict := Accepted(e.deviceId);
      } else if open {
        sent := Some(reply);
        verdict := Accepted(e.deviceId);
      } else {
        verdict := Rejected("COMPANION_QUIC_CONTROL_CLOSED");
      }
    }
  }

  lemma DispatchKeepsFaithful(catalog: seq<Capability>, state: State, e: Envelope, storeError: Option<string>)
    requires Faithful(catalog, state.sessions)
    ensures Faithful(catalog, Dispatch(catalog, state, e, storeError).state.sessions)
  {
    hide Faithful, Handle;
    HandleKeepsFaithful(catalog, state.sessions, e);
  }
}
