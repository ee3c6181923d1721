/**
 * When the rest of the Core sees a Companion device.
 *
 * All connections are served by one thread, so accepting a message and cleaning up after a connection are
 * one step each.  Every accepted message publishes all sessions there ever were; only the cleanup of the
 * owning connection takes a device off the list again.  The list is seen as a map; ShowsPublished and
 * ShowsRemoved tie that view to the shared vector.
 */
module CompanionPresence {
  import opened Common
  import opened Text
  import opened CompanionRegistry
  import opened CompanionSessions
  import opened CompanionIngress
  import opened CompanionRouting
  import T = CompanionTransport

  datatype Event =
    | Message(connection: nat, envelope: Envelope, storeError: Option<string>)
    | Leave(connection: nat, device: string)    // disconnect
    | Close(connection: nat)                    // disconnect_connection

  /** The ingress, the owner of each device, and what the registry lists. */
  datatype System = System(ingress: CompanionIngress.State, handles: map<string, nat>, listed: map<string, Device>)

  const NOBODY := System(CompanionIngress.State(map[], 0), map[], map[])

  /** The message passes the envelope check and is no response. */
  predicate Publishes(e: Event) {
    e.Message? && ValidateEnvelope(e.envelope).None? && !T.IsResponse(e.envelope)
  }

  /** The message makes its connection the owner of d. */
  predicate Gives(e: Event, d: string) {
    Publishes(e) && e.envelope.kind.Hello? && e.envelope.deviceId == Some(d)
  }

  /** The cleanup takes d off the list and away from its owner. */
  predicate Removes(s: System, e: Event, d: string) {
    && !e.Message? && d in s.handles && s.handles[d] == e.connection
    && (e.Close? || e.device == d)
  }

  function Received(catalog: seq<Capability>, s: System, e: Event): System
    requires e.Message?
  {
    var ingress := Dispatch(catalog, s.ingress, e.envelope, e.storeError).state;
    System(
      ingress,
      if e.envelope.kind.Hello? && e.envelope.deviceId.Some?
      then s.handles[e.envelope.deviceId.value := e.connection] else s.handles,
      s.listed + ingress.sessions)
  }

  function Step(catalog: seq<Capability>, s: System, e: Event): System {
    match e
    case Message(_, _, _) => if Publishes(e) then Received(catalog, s, e) else s
    case Leave(c, d) =>
      s.(handles := Released(s.handles, c, d), listed := if Removes(s, e, d) then s.listed - {d} else s.listed)
    case Close(c) =>
      s.(handles := s.handles - Owned(s.handles, c), listed := s.listed - Owned(s.handles, c))
  }

  /** The state after the first n events. */
  function After(catalog: seq<Capability>, h: seq<Event>, n: nat): System
    requires n <= |h|
  {
    if n == 0 then NOBODY else Step(catalog, After(catalog, h, n - 1), h[n - 1])
  }

  // ---------------------------------------------------------------- the vector behind the map

  ghost predicate Shows(devices: seq<Device>, listed: map<string, Device>) {
    forall id :: Lookup(devices, id) == if id in listed then Some(listed[id]) else None
  }

  /** Publishing sessions to the vector is merging them into the map. */
  lemma ShowsPublished(before: seq<Device>, after: seq<Device>, listed: map<string, Device>, sessions: Sessions)
    requires Shows(before, listed) && T.Published(sessions, before, after)
    ensures Shows(after, listed + sessions)
  {
    hide Lookup;
  }

  /** Removing devices from the vector is taking them out of the map. */
  lemma ShowsRemoved(devices: seq<Device>, listed: map<string, Device>, ids: set<string>)
    requires Shows(devices, listed)
    ensures Shows(Removed(devices, ids), listed - ids)
  {
    hide Lookup, Removed;
    forall id
      ensures Lookup(Removed(devices, ids), id) == if id in listed - ids then Some((listed - ids)[id]) else None
    {
      RemoveIsDelete(devices, ids, id);
    }
  }

  // ---------------------------------------------------------------- one event

  /** Sessions are never forgotten, and only published messages touch them. */
  lemma SessionsStay(catalog: seq<Capability>, s: System, e: Event)
    ensures s.ingress.sessions.Keys <= Step(catalog, s, e).ingress.sessions.Keys
    ensures !Publishes(e) ==> Step(catalog, s, e).ingress == s.ingress
  {
    hide Resolve, ResolveStates, Named, ValidateEnvelope, FindCapability, OperationsAllowed;
  }

  /** What one event does to the listing of d. */
  lemma ListedStep(catalog: seq<Capability>, s: System, e: Event, d: string)
    ensures var t := Step(catalog, s, e);
            && (d in t.listed <==>
                  (Publishes(e) && d in t.ingress.sessions) || (d in s.listed && !Removes(s, e, d)))
            && (Publishes(e) && d in t.ingress.sessions ==> t.listed[d] == t.ingress.sessions[d])
            && (d in t.listed && !(Publishes(e) && d in t.ingress.sessions) ==> t.listed[d] == s.listed[d])
  {
    hide Dispatch, ValidateEnvelope, T.IsResponse;
  }

  /** What one event does to the handle of d. */
  lemma HandleStep(catalog: seq<Capability>, s: System, e: Event, d: string)
    ensures d in Step(catalog, s, e).handles <==> Gives(e, d) || (d in s.handles && !Removes(s, e, d))
  {
    hide Dispatch, ValidateEnvelope, T.IsResponse;
  }

  // ---------------------------------------------------------------- presence

  /** Some cleanup removed d after event i and before n. */
  ghost predicate RemovedSince(catalog: seq<Capability>, h: seq<Event>, i: nat, n: nat, d: string)
    requires i < n <= |h|
  {
    exists j: nat | i < j < n :: Removes(After(catalog, h, j), h[j], d)
  }

  lemma RemovedSinceStep(catalog: seq<Capability>, h: seq<Event>, i: nat, n: nat, d: string)
    requires i < n < |h|
    ensures RemovedSince(catalog, h, i, n + 1, d) <==>
              RemovedSince(catalog, h, i, n, d) || Removes(After(catalog, h, n), h[n], d)
  {
    hide After, Removes;
  }

  /** Event i was the last accepted message before n. */
  ghost predicate LastAccepted(h: seq<Event>, i: nat, n: nat)
    requires i < n <= |h|
  {
    Publishes(h[i]) && forall j | i < j < n :: !Publishes(h[j])
  }

  lemma {:induction false} SessionSinceAcceptance(
      catalog: seq<Capability>, h: seq<Event>, n: nat, d: string) returns (i: nat)
    requires n <= |h| && d in After(catalog, h, n).ingress.sessions
    ensures i < n && LastAccepted(h, i, n)
  {
    hide Step, Publishes;
    assert n > 0;
    SessionsStay(catalog, After(catalog, h, n - 1), h[n - 1]);
    if Publishes(h[n - 1]) {
      i := n - 1;
    } else {
      i := SessionSinceAcceptance(catalog, h, n - 1, d);
    }
  }

  lemma {:induction false} ListedUnlessRemoved(catalog: seq<Capability>, h: seq<Event>, i: nat, n: nat, d: string)
    requires i < n <= |h| && LastAccepted(h, i, n) && d in After(catalog, h, n).ingress.sessions
    ensures d in After(catalog, h, n).listed <==> !RemovedSince(catalog, h, i, n, d)
  {
    hide Step, Publishes, Removes;
    ListedStep(catalog, After(catalog, h, n - 1), h[n - 1], d);
    if i == n - 1 {
    } else {
      SessionsStay(catalog, After(catalog, h, n - 1), h[n - 1]);
      ListedUnlessRemoved(catalog, h, i, n - 1, d);
      RemovedSinceStep(catalog, h, i, n - 1, d);
    }
  }

  lemma {:induction false} ListedIsCurrent(catalog: seq<Capability>, h: seq<Event>, n: nat, d: string)
    requires n <= |h| && d in After(catalog, h, n).listed
    ensures d in After(catalog, h, n).ingress.sessions
    ensures After(catalog, h, n).listed[d] == After(catalog, h, n).ingress.sessions[d]
  {
    hide Step, Publishes, Removes;
    assert n > 0;
    ListedStep(catalog, After(catalog, h, n - 1), h[n - 1], d);
    SessionsStay(catalog, After(catalog, h, n - 1), h[n - 1]);
    if d in After(catalog, h, n - 1).listed {
      ListedIsCurrent(catalog, h, n - 1, d);
    }
  }

  /**
   * Over every history a device is listed exactly when it has a session and no cleanup removed it after
   * the last accepted message, whoever sent that; and it is listed as its session is now.
   */
  lemma PresenceIsExact(catalog: seq<Capability>, h: seq<Event>, n: nat, d: string)
    requires n <= |h|
    ensures var s := After(catalog, h, n);
            && (d in s.listed <==>
                  && d in s.ingress.sessions
                  && exists i: nat | i < n :: LastAccepted(h, i, n) && !RemovedSince(catalog, h, i, n, d))
            && (d in s.listed ==> s.listed[d] == s.ingress.sessions[d])
  {
    hide After, LastAccepted, RemovedSince;
    var s := After(catalog, h, n);
    if d in s.listed {
      ListedIsCurrent(catalog, h, n, d);
    }
    if d in s.ingress.sessions {
      var last := SessionSinceAcceptance(catalog, h, n, d);
      forall i: nat | i < n && LastAccepted(h, i, n)
        ensures d in s.listed <==> !RemovedSince(catalog, h, i, n, d)
      {
        ListedUnlessRemoved(catalog, h, i, n, d);
      }
    }
  }

  /** Some hello gave d a handle, and no cleanup removed it since. */
  ghost predicate Held(catalog: seq<Capability>, h: seq<Event>, n: nat, d: string)
    requires n <= |h|
  {
    exists i: nat | i < n :: Gives(h[i], d) && !RemovedSince(catalog, h, i, n, d)
  }

  lemma HeldStep(catalog: seq<Capability>, h: seq<Event>, n: nat, d: string)
    requires n < |h|
    ensures Held(catalog, h, n + 1, d) <==>
              Gives(h[n], d) || (Held(catalog, h, n, d) && !Removes(After(catalog, h, n), h[n], d))
  {
    hide After, Gives, Removes;
    forall i: nat | i < n
      ensures RemovedSince(catalog, h, i, n + 1, d) <==>
                RemovedSince(catalog, h, i, n, d) || Removes(After(catalog, h, n), h[n], d)
    {
      RemovedSinceStep(catalog, h, i, n, d);
    }
    assert !RemovedSince(catalog, h, n, n + 1, d);
    if Held(catalog, h, n, d) && !Removes(After(catalog, h, n), h[n], d) {
      var i: nat :| i < n && Gives(h[i], d) && !RemovedSince(catalog, h, i, n, d);
      assert Gives(h[i], d) && !RemovedSince(catalog, h, i, n + 1, d);
    }
    if Held(catalog, h, n + 1, d) && !Gives(h[n], d) {
      var i: nat :| i < n + 1 && Gives(h[i], d) && !RemovedSince(catalog, h, i, n + 1, d);
      assert !RemovedSince(catalog, h, i, n, d);
    }
  }

  lemma {:induction false} HandleIsHeld(catalog: seq<Capability>, h: seq<Event>, n: nat, d: string)
    requires n <= |h|
    ensures d in After(catalog, h, n).handles <==> Held(catalog, h, n, d)
  {
    hide Step, Held, Gives, Removes;
    if n == 0 {
      NothingHeld(catalog, h, d);
    } else {
      HandleIsHeld(catalog, h, n - 1, d);
      HeldStep(catalog, h, n - 1, d);
      HandleStep(catalog, After(catalog, h, n - 1), h[n - 1], d);
    }
  }

  lemma NothingHeld(catalog: seq<Capability>, h: seq<Event>, d: string)
    ensures !Held(catalog, h, 0, d)
  {
  }

  /**
   * A listed device has no handle, so that no command can reach it, exactly when every hello that gave it
   * one was cleaned up, and yet a message was accepted after the last cleanup.
   */
  lemma ListedWithoutHandle(catalog: seq<Capability>, h: seq<Event>, n: nat, d: string)
    requires n <= |h|
    ensures var s := After(catalog, h, n);
            d in s.listed && d !in s.handles <==>
              && d in s.ingress.sessions
              && (exists i: nat | i < n :: LastAccepted(h, i, n) && !RemovedSince(catalog, h, i, n, d))
              && (forall i: nat | i < n && Gives(h[i], d) :: RemovedSince(catalog, h, i, n, d))
  {
    hide After, LastAccepted, RemovedSince, Gives;
    PresenceIsExact(catalog, h, n, d);
    HandleIsHeld(catalog, h, n, d);
  }

  // ---------------------------------------------------------------- a device that reappears

  function HelloFrom(d: string): Envelope {
    Envelope(
      PROTOCOL, PROTOCOL_VERSION, "hello", None, Some(d), Control, Kind.Hello,
      Some(HelloPayload("1", d, d, 33, [PROTOCOL_VERSION])), None, None, None)
  }

  /** A device connects and leaves; another one connects. */
  function ComesAndGoes(d: string, other: string): seq<Event> {
    [Message(1, HelloFrom(d), None), Close(1), Message(2, HelloFrom(other), None)]
  }

  lemma HelloIsAccepted(catalog: seq<Capability>, s: System, c: nat, d: string)
    ensures var e := Message(c, HelloFrom(d), None);
            && Publishes(e)
            && Step(catalog, s, e).handles == s.handles[d := c]
            && Step(catalog, s, e).ingress.sessions == s.ingress.sessions[d := Greeted(HelloFrom(d).hello.value)]
            && Step(catalog, s, e).listed == s.listed + Step(catalog, s, e).ingress.sessions
  {
    var id := HelloFrom(d).messageId;
    assert id[0] == 'h' && 'h' in id;
    assert 1 in HelloFrom(d).hello.value.versions;
  }

  /** From nobody: a device that has left is listed again, without a handle, when another device connects. */
  lemma GoneDeviceReappears(catalog: seq<Capability>, d: string, other: string)
    requires d != other
    ensures var h := ComesAndGoes(d, other);
            && d in After(catalog, h, 1).listed && d in After(catalog, h, 1).handles
            && d !in After(catalog, h, 2).listed
            && d in After(catalog, h, 3).listed && d !in After(catalog, h, 3).handles
  {
    hide Publishes, Received, HelloFrom;
    var h := ComesAndGoes(d, other);
    HelloIsAccepted(catalog, NOBODY, 1, d);
    var s1 := Step(catalog, NOBODY, h[0]);
    assert After(catalog, h, 1) == s1 by { assert After(catalog, h, 0) == NOBODY; }
    var s2 := Step(catalog, s1, h[1]);
    assert d in Owned(s1.handles, 1);
    assert After(catalog, h, 2) == s2;
    HelloIsAccepted(catalog, s2, 2, other);
    assert After(catalog, h, 3) == Step(catalog, s2, h[2]);
  }

  // ---------------------------------------------------------------- a hello that is refused

  /** The session manager turns the hello down. */
  predicate Refused(catalog: seq<Capability>, s: System, e: Event)
    requires e.Message?
  {
    Dispatch(catalog, s.ingress, e.envelope, e.storeError).reply.Failure?
  }

  /** A hello naming d is refused exactly if it does not parse, is for another device, or lacks the version. */
  lemma HelloRefusedIff(catalog: seq<Capability>, s: System, e: Event, d: string)
    requires Gives(e, d)
    ensures var hello := e.envelope.hello;
            Refused(catalog, s, e) <==>
              || hello.None?
              || (!IsBlank(d) && hello.value.deviceId != d)
              || PROTOCOL_VERSION !in hello.value.versions
  {
    hide IsBlank, ValidateEnvelope;
  }

  /**
   * Refused or not, a hello naming d makes its connection the owner of d; the ingress changes exactly if
   * the hello is accepted and brings a new session.
   */
  lemma HelloTakesOver(catalog: seq<Capability>, s: System, e: Event, d: string)
    requires Gives(e, d)
    ensures var t := Step(catalog, s, e);
            && d in t.handles && t.handles[d] == e.connection
            && (Refused(catalog, s, e) ==> t.ingress == s.ingress)
            && (!Refused(catalog, s, e) ==>
                  t.ingress.sessions
                  == s.ingress.sessions[e.envelope.hello.value.deviceId := Greeted(e.envelope.hello.value)])
  {
    hide IsBlank, ValidateEnvelope;
  }

  function BareHello(d: string): Envelope {
    HelloFrom(d).(hello := None)
  }

  lemma BareHelloGives(c: nat, d: string)
    ensures Gives(Message(c, BareHello(d), None), d)
  {
    var id := BareHello(d).messageId;
    assert id[0] == 'h' && 'h' in id;
  }

  /** From nobody: a second connection names the device without a hello payload and receives its commands. */
  lemma RefusedHelloTakesOver(catalog: seq<Capability>, d: string)
    ensures var h := [Message(1, HelloFrom(d), None), Message(2, BareHello(d), None)];
            var before, after := After(catalog, h, 1), After(catalog, h, 2);
            && d in before.handles && before.handles[d] == 1
            && d in after.handles && after.handles[d] == 2
            && Refused(catalog, before, h[1]) && after.ingress == before.ingress
  {
    hide Received, HelloFrom, Publishes, Refused, Dispatch;
    var h := [Message(1, HelloFrom(d), None), Message(2, BareHello(d), None)];
    HelloIsAccepted(catalog, NOBODY, 1, d);
    var before := Step(catalog, NOBODY, h[0]);
    assert After(catalog, h, 1) == before by { assert After(catalog, h, 0) == NOBODY; }
    assert After(catalog, h, 2) == Step(catalog, before, h[1]);
    BareHelloGives(2, d);
    HelloRefusedIff(catalog, before, h[1], d);
    HelloTakesOver(catalog, before, h[1], d);
  }
}
