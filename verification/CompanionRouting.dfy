/**
 * Who receives the commands for a device.
 *
 * A hello makes its connection the owner of a device; an ending connection first collects the devices
 * it owns and then releases them one by one, each release in one critical section.  Hellos of other
 * connections may come in between.  The program serves all connections from one thread, which allows
 * fewer interleavings than this.
 */
module CompanionRouting {
  import opened Common
  import opened CompanionRegistry

  datatype Event =
    | Hello(connection: nat, device: string)     // the handle is inserted
    | Collect(connection: nat)                   // disconnect_connection lists what it owns
    | Release(connection: nat, device: string)   // disconnect

  datatype Phase = Open | Cleaning(pending: set<string>) | Closed

  /** sessions: the owner of each device; phases: connections that began to clean up. */
  datatype Routing = Routing(sessions: map<string, nat>, phases: map<nat, Phase>)

  const IDLE := Routing(map[], map[])

  function PhaseOf(r: Routing, connection: nat): Phase {
    if connection in r.phases then r.phases[connection] else Open
  }

  function Owned(sessions: map<string, nat>, connection: nat): set<string> {
    set d | d in sessions && sessions[d] == connection
  }

  function Released(sessions: map<string, nat>, connection: nat, device: string): map<string, nat> {
    if device in sessions && sessions[device] == connection then sessions - {device} else sessions
  }

  function CloseWhenDone(pending: set<string>): Phase {
    if pending == {} then Closed else Cleaning(pending)
  }

  /** Hellos come from open connections only; a connection that collected releases what it collected. */
  predicate Enabled(r: Routing, e: Event) {
    match e
    case Hello(c, _) => PhaseOf(r, c).Open?
    case Collect(c) => PhaseOf(r, c).Open?
    case Release(c, d) => PhaseOf(r, c).Open? || (PhaseOf(r, c).Cleaning? && d in PhaseOf(r, c).pending)
  }

  function Step(r: Routing, e: Event): Routing {
    match e
    case Hello(c, d) => r.(sessions := r.sessions[d := c])
    case Collect(c) => r.(phases := r.phases[c := CloseWhenDone(Owned(r.sessions, c))])
    case Release(c, d) =>
      Routing(
        Released(r.sessions, c, d),
        if PhaseOf(r, c).Cleaning? then r.phases[c := CloseWhenDone(PhaseOf(r, c).pending - {d})] else r.phases)
  }

  /** The state after a history; events that are not enabled do not happen. */
  function After(history: seq<Event>): Routing {
    if history == [] then IDLE
    else
      var r := After(history[..|history| - 1]);
      if Enabled(r, history[|history| - 1]) then Step(r, history[|history| - 1]) else r
  }

  /** Every event was enabled when it happened. */
  predicate Feasible(history: seq<Event>) {
    history == [] ||
    (Feasible(history[..|history| - 1]) && Enabled(After(history[..|history| - 1]), history[|history| - 1]))
  }

  /** The hello at i made c the owner of d, and neither another hello for d nor its release followed. */
  ghost predicate OwnsSince(history: seq<Event>, i: nat, c: nat, d: string)
    requires i < |history|
  {
    && history[i] == Hello(c, d)
    && forall j | i < j < |history| :: !(history[j].Hello? && history[j].device == d) && history[j] != Release(c, d)
  }

  /** c carried the most recent hello for d and has not released d since. */
  ghost predicate Owns(history: seq<Event>, c: nat, d: string) {
    exists i: nat | i < |history| :: OwnsSince(history, i, c, d)
  }

  lemma OwnsSinceStep(history: seq<Event>, e: Event, i: nat, c: nat, d: string)
    requires i < |history|
    ensures OwnsSince(history + [e], i, c, d) <==>
              OwnsSince(history, i, c, d) && !(e.Hello? && e.device == d) && e != Release(c, d)
  {
    var longer := history + [e];
    assert longer[|history|] == e;
    assert forall j | 0 <= j < |history| :: longer[j] == history[j];
  }

  lemma OwnsStep(history: seq<Event>, e: Event, c: nat, d: string)
    ensures Owns(history + [e], c, d) <==>
              e == Hello(c, d) || (Owns(history, c, d) && !(e.Hello? && e.device == d) && e != Release(c, d))
  {
    var longer := history + [e];
    forall i: nat | i < |history|
      ensures OwnsSince(longer, i, c, d) <==>
                OwnsSince(history, i, c, d) && !(e.Hello? && e.device == d) && e != Release(c, d)
    {
      OwnsSinceStep(history, e, i, c, d);
    }
    assert OwnsSince(longer, |history|, c, d) <==> e == Hello(c, d);
  }

  predicate Has(r: Routing, c: nat, d: string) {
    d in r.sessions && r.sessions[d] == c
  }

  lemma HasStep(r: Routing, e: Event, c: nat, d: string)
    ensures Has(Step(r, e), c, d) <==>
              e == Hello(c, d) || (Has(r, c, d) && !(e.Hello? && e.device == d) && e != Release(c, d))
  {
  }

  lemma LastStep(history: seq<Event>, front: seq<Event>, last: Event)
    requires history == front + [last] && Feasible(history)
    ensures Feasible(front) && After(history) == Step(After(front), last)
  {
    assert history[..|history| - 1] == front;
  }

  /** Exact ownership, over every interleaving of hellos and releases. */
  lemma {:induction false} RoutingIsExact(history: seq<Event>, c: nat, d: string)
    requires Feasible(history)
    ensures d in After(history).sessions && After(history).sessions[d] == c <==> Owns(history, c, d)
    decreases |history|
  {
    hide Owns, Step, After, Feasible;
    if history == [] {
      NothingAtFirst(c, d);
    } else {
      var front, last := history[..|history| - 1], history[|history| - 1];
      assert history == front + [last];
      LastStep(history, front, last);
      RoutingIsExact(front, c, d);
      HasStep(After(front), last, c, d);
      OwnsStep(front, last, c, d);
    }
  }

  lemma NothingAtFirst(c: nat, d: string)
    ensures !Owns([], c, d) && After([]) == IDLE
  {
  }

  /** The connection that cleans up still has something to release, or it is closed. */
  ghost predicate NothingDangles(r: Routing) {
    forall c | c in r.phases :: r.phases[c].Cleaning? ==> r.phases[c].pending != {}
  }

  lemma {:induction false} NeverDangles(history: seq<Event>)
    ensures NothingDangles(After(history))
  {
    hide Owned, Released;
    if history == [] {
    } else {
      NeverDangles(history[..|history| - 1]);
    }
  }

  /** From any state a cleanup can always be finished by its own releases, one for each device collected. */
  lemma {:induction false} CleanupCompletes(history: seq<Event>, c: nat) returns (releases: seq<Event>)
    requires PhaseOf(After(history), c).Cleaning?
    ensures forall i | 0 <= i < |releases| :: releases[i].Release? && releases[i].connection == c
    ensures Feasible(history) ==> Feasible(history + releases)
    ensures |releases| == |PhaseOf(After(history), c).pending|
    ensures PhaseOf(After(history + releases), c) == Closed
    decreases |PhaseOf(After(history), c).pending|
  {
    hide Released, Owned;
    NeverDangles(history);
    var pending := PhaseOf(After(history), c).pending;
    var d :| d in pending;
    var longer := history + [Release(c, d)];
    assert longer[..|longer| - 1] == history;
    if pending - {d} == {} {
      releases := [Release(c, d)];
      assert pending == {d};
    } else {
      var more := CleanupCompletes(longer, c);
      releases := [Release(c, d)] + more;
      assert longer + more == history + releases;
    }
  }

  /** A cleaning connection owns nothing it has not collected; a closed one owns nothing. */
  ghost predicate Covered(r: Routing) {
    forall c | c in r.phases :: !r.phases[c].Open? &&
      Owned(r.sessions, c) <= if r.phases[c].Cleaning? then r.phases[c].pending else {}
  }

  lemma StepKeepsCovered(r: Routing, e: Event)
    requires Covered(r) && Enabled(r, e)
    ensures Covered(Step(r, e))
  {
  }

  lemma {:induction false} AlwaysCovered(history: seq<Event>)
    ensures Covered(After(history))
  {
    hide Covered, Enabled, Step;
    if history == [] {
      assert Covered(IDLE) by { IdleCovered(); }
    } else {
      var front := history[..|history| - 1];
      AlwaysCovered(front);
      if Enabled(After(front), history[|history| - 1]) {
        StepKeepsCovered(After(front), history[|history| - 1]);
      }
    }
  }

  lemma IdleCovered()
    ensures Covered(IDLE)
  {
  }

  /** After its cleanup no handle names a connection, whatever happened in between. */
  lemma ClosedOwnsNothing(history: seq<Event>, c: nat, d: string)
    requires PhaseOf(After(history), c).Closed? && d in After(history).sessions
    ensures After(history).sessions[d] != c
  {
    AlwaysCovered(history);
    assert d !in Owned(After(history).sessions, c);
  }

  /** The live transport's handle table and the registry it shares with the rest of the Core. */
  class LiveTransport {
    var sessions: map<string, nat>
    const registry: Registry

    constructor (registry: Registry)
      ensures this.registry == registry && sessions == map[]
    {
      this.registry := registry;
      sessions := map[];
    }

    /** The ownership step of accepting a hello; an envelope without a device inserts nothing. */
    method InsertHandle(connection: nat, device: Option<string>)
      modifies this
      ensures sessions == if device.Some? then old(sessions)[device.value := connection] else old(sessions)
    {
      if device.Some? {
        sessions := sessions[device.value := connection];
      }
    }

    /** A superseded connection leaves the newer handle and its registry entry alone. */
    method Disconnect(connection: nat, device: Option<string>)
      modifies this, registry
      ensures old(DistinctIds(registry.devices)) ==> DistinctIds(registry.devices)
      ensures var mine := device.Some? && device.value in old(sessions) && old(sessions)[device.value] == connection;
              && sessions == (if device.Some? then Released(old(sessions), connection, device.value) else old(sessions))
              && registry.devices == (if mine then Removed(old(registry.devices), {device.value})
                  else old(registry.devices))
    {
      if device.None? {
        return;
      }
      if device.value in sessions && sessions[device.value] == connection {
        sessions := sessions - {device.value};
        if DistinctIds(registry.devices) {
          RemoveKeepsDistinct(registry.devices, {device.value});
        }
        registry.Remove(device.value);
      }
    }

    /** Without interference the connection's devices, and only those, disappear from both tables. */
    method DisconnectConnection(connection: nat)
      modifies this, registry
      ensures old(DistinctIds(registry.devices)) ==> DistinctIds(registry.devices)
      ensures sessions == old(sessions) - Owned(old(sessions), connection)
      ensures registry.devices == Removed(old(registry.devices), Owned(old(sessions), connection))
    {
      var owned := Owned(sessions, connection);
      var pending := owned;
      RemoveNothing(registry.devices);
      assert owned - pending == {};
      while pending != {}
        invariant pending <= owned
        invariant sessions == old(sessions) - (owned - pending)
        invariant registry.devices == Removed(old(registry.devices), owned - pending)
        invariant old(DistinctIds(registry.devices)) ==> DistinctIds(registry.devices)
        decreases pending
      {
        var device :| device in pending;
        RemoveTwice(old(registry.devices), owned - pending, {device});
        assert owned - pending + {device} == owned - (pending - {device});
        Disconnect(connection, Some(device));
        pending := pending - {device};
      }
      assert owned - pending == owned;
    }
  }
}
