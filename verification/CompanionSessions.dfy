/**
 * Companion sessions as the Core keeps them: hello, capability list, permission state, heartbeat.
 *
 * The Core is the authority for what a capability is; Android only announces identifiers.  The catalog
 * is a parameter of the model, so everything below holds for every catalog.
 */
module CompanionSessions {
  import opened Common
  import opened Text
  import opened CompanionRegistry

  const PROTOCOL := "adbcontrol-companion-quic"
  const PROTOCOL_VERSION: nat := 1

  datatype Kind =
    | Hello | HelloAck | Heartbeat | CapabilityList | PermissionList | CommandRequest | CommandResponse
    | StreamOpen | StreamChunk | StreamClose | Error

  datatype Channel = Control | Data | Media

  datatype HelloPayload = HelloPayload(
    appVersion: string, deviceId: string, deviceName: string, androidSdk: nat, versions: seq<nat>)

  datatype Announced = Announced(id: string, operations: seq<string>)

  datatype AnnouncedState = AnnouncedState(
    capabilityId: string, granted: bool, missingPermissions: seq<string>,
    missingSpecialGrants: seq<string>, userConsentRequired: bool)

  /** The last fields are what the payload parses to, if it parses, for the kinds that need it. */
  datatype Envelope = Envelope(
    protocol: string, version: nat, messageId: string, traceId: Option<string>, deviceId: Option<string>,
    channel: Channel, kind: Kind,
    hello: Option<HelloPayload>, capabilities: Option<seq<Announced>>, states: Option<seq<AnnouncedState>>,
    requestId: Option<string>)

  datatype Reply = Reply(
    messageId: string, traceId: Option<string>, deviceId: Option<string>, kind: Kind, errorCode: string)

  type Sessions = map<string, Device>

  /** The new session table and the answer. */
  datatype Answer = Answer(sessions: Sessions, reply: Result<Reply, string>)

  function ValidateEnvelope(e: Envelope): Option<string> {
    if e.protocol != PROTOCOL then Some("COMPANION_PROTOCOL_MISMATCH")
    else if e.version != PROTOCOL_VERSION then Some("COMPANION_PROTOCOL_VERSION_UNSUPPORTED")
    else if IsBlank(e.messageId) then Some("COMPANION_MESSAGE_ID_MISSING")
    else None
  }

  function Named(id: Option<string>): Option<string> {
    if id.Some? && !IsBlank(id.value) then id else None
  }

  function FindCapability(catalog: seq<Capability>, id: string): (r: Option<Capability>)
    ensures r.Some? ==> r.value in catalog && r.value.id == id
    ensures r.None? ==> forall c | c in catalog :: c.id != id
  {
    if catalog == [] then None
    else if catalog[0].id == id then Some(catalog[0])
    else FindCapability(catalog[1..], id)
  }

  predicate OperationsAllowed(operations: seq<string>, capability: Capability) {
    forall o | o in operations :: o in capability.operations
  }

  /** The catalog entries behind the first n announcements, or the first complaint. */
  function Resolve(catalog: seq<Capability>, announced: seq<Announced>, n: nat): Result<seq<Capability>, string>
    requires n <= |announced|
  {
    if n == 0 then Success([])
    else
      var before := Resolve(catalog, announced, n - 1);
      var found := FindCapability(catalog, announced[n - 1].id);
      if before.Failure? then before
      else if found.None? then Failure("COMPANION_CAPABILITY_UNKNOWN")
      else if !OperationsAllowed(announced[n - 1].operations, found.value)
      then Failure("COMPANION_CAPABILITY_OPERATION_INVALID")
      else Success(before.value + [found.value])
  }

  /** Special permissions the device does not miss. */
  function Granted(required: seq<string>, missing: seq<string>): (r: seq<string>)
    ensures forall g :: g in r <==> g in required && g !in missing
  {
    if required == [] then []
    else if required[0] in missing then Granted(required[1..], missing)
    else [required[0]] + Granted(required[1..], missing)
  }

  function StateOf(capability: Capability, a: AnnouncedState): PermissionState {
    PermissionState(
      a.capabilityId, a.granted, capability.androidPermissions, a.missingPermissions,
      Granted(capability.specialPermissions, a.missingSpecialGrants), a.missingSpecialGrants, a.userConsentRequired)
  }

  function ResolveStates(
      catalog: seq<Capability>, announced: seq<AnnouncedState>, n: nat): Result<seq<PermissionState>, string>
    requires n <= |announced|
  {
    if n == 0 then Success([])
    else
      var before := ResolveStates(catalog, announced, n - 1);
      var found := FindCapability(catalog, announced[n - 1].capabilityId);
      if before.Failure? then before
      else if found.None? then Failure("COMPANION_PERMISSION_CAPABILITY_UNKNOWN")
      else Success(before.value + [StateOf(found.value, announced[n - 1])])
  }

  function Greeted(hello: HelloPayload): Device {
    Device(hello.deviceId, hello.deviceName, hello.appVersion, hello.androidSdk, Handshaking, [], [])
  }

  function WithCapabilities(session: Device, capabilities: seq<Capability>): Device {
    session.(capabilities := capabilities,
             connectionState := if session.permissionStates != [] then Ready else session.connectionState)
  }

  function WithStates(session: Device, states: seq<PermissionState>): Device {
    session.(permissionStates := states,
             connectionState := if session.capabilities != [] then Ready else session.connectionState)
  }

  function HandleHello(sessions: Sessions, e: Envelope): Answer {
    if e.hello.None? then Answer(sessions, Failure("COMPANION_HELLO_INVALID"))
    else
      var hello := e.hello.value;
      if Named(e.deviceId).Some? && e.deviceId.value != hello.deviceId
      then Answer(sessions, Failure("COMPANION_HELLO_DEVICE_ID_MISMATCH"))
      else if PROTOCOL_VERSION !in hello.versions
      then Answer(sessions, Failure("COMPANION_PROTOCOL_VERSION_UNSUPPORTED"))
      else Answer(
        sessions[hello.deviceId := Greeted(hello)],
        Success(Reply("hello-ack-" + hello.deviceId, e.traceId, Some(hello.deviceId), HelloAck, "")))
  }

  function HandleCapabilities(catalog: seq<Capability>, sessions: Sessions, e: Envelope): Answer {
    var device := Named(e.deviceId);
    if device.None? then Answer(sessions, Failure("COMPANION_DEVICE_ID_MISSING"))
    else if e.capabilities.None? then Answer(sessions, Failure("COMPANION_CAPABILITY_SCHEMA_INVALID"))
    else
      var resolved := Resolve(catalog, e.capabilities.value, |e.capabilities.value|);
      if resolved.Failure? then Answer(sessions, Failure(resolved.error))
      else if device.value !in sessions then Answer(sessions, Failure("COMPANION_SESSION_NOT_CONNECTED"))
      else Answer(
        sessions[device.value := WithCapabilities(sessions[device.value], resolved.value)],
        Success(Reply("ack-" + e.messageId, e.traceId, device, CommandResponse, "")))
  }

  function HandleStates(catalog: seq<Capability>, sessions: Sessions, e: Envelope): Answer {
    var device := Named(e.deviceId);
    if device.None? then Answer(sessions, Failure("COMPANION_DEVICE_ID_MISSING"))
    else if e.states.None? then Answer(sessions, Failure("COMPANION_PERMISSION_STATE_INVALID"))
    else
      var resolved := ResolveStates(catalog, e.states.value, |e.states.value|);
      if resolved.Failure? then Answer(sessions, Failure(resolved.error))
      else if device.value !in sessions then Answer(sessions, Failure("COMPANION_SESSION_NOT_CONNECTED"))
      else Answer(
        sessions[device.value := WithStates(sessions[device.value], resolved.value)],
        Success(Reply("ack-" + e.messageId, e.traceId, device, CommandResponse, "")))
  }

  function HandleHeartbeat(sessions: Sessions, e: Envelope): Answer {
    var device := Named(e.deviceId);
    if device.None? then Answer(sessions, Failure("COMPANION_DEVICE_ID_MISSING"))
    else if device.value !in sessions then Answer(sessions, Failure("COMPANION_SESSION_NOT_CONNECTED"))
    else Answer(sessions, Success(Reply("heartbeat-ack-" + e.messageId, e.traceId, device, Heartbeat, "")))
  }

  function Handle(catalog: seq<Capability>, sessions: Sessions, e: Envelope): Answer {
    var invalid := ValidateEnvelope(e);
    if invalid.Some? then Answer(sessions, Failure(invalid.value))
    else
      match e.kind
      case Hello => HandleHello(sessions, e)
      case CapabilityList => HandleCapabilities(catalog, sessions, e)
      case PermissionList => HandleStates(catalog, sessions, e)
      case Heartbeat => HandleHeartbeat(sessions, e)
      case _ => Answer(sessions, Failure("COMPANION_SESSION_MESSAGE_UNSUPPORTED"))
  }

  class SessionManager {
    const catalog: seq<Capability>
    var sessions: Sessions

    constructor (catalog: seq<Capability>)
      ensures this.catalog == catalog && sessions == map[]
    {
      this.catalog := catalog;
      sessions := map[];
    }

    method ResolveAnnounced(announced: seq<Announced>) returns (r: Result<seq<Capability>, string>)
      ensures r == Resolve(catalog, announced, |announced|)
    {
      var capabilities := [];
      var n := 0;
      while n < |announced|
        invariant 0 <= n <= |announced|
        invariant Resolve(catalog, announced, n) == Success(capabilities)
      {
        var found := FindCapability(catalog, announced[n].id);
        if found.None? {
          ResolveFails(catalog, announced, n + 1, |announced|);
          return Failure("COMPANION_CAPABILITY_UNKNOWN");
        }
        if !OperationsAllowed(announced[n].operations, found.value) {
          ResolveFails(catalog, announced, n + 1, |announced|);
          return Failure("COMPANION_CAPABILITY_OPERATION_INVALID");
        }
        capabilities := capabilities + [found.value];
        n := n + 1;
      }
      r := Success(capabilities);
    }

    method ResolveAnnouncedStates(announced: seq<AnnouncedState>) returns (r: Result<seq<PermissionState>, string>)
      ensures r == ResolveStates(catalog, announced, |announced|)
    {
      var states := [];
      var n := 0;
      while n < |announced|
        invariant 0 <= n <= |announced|
        invariant ResolveStates(catalog, announced, n) == Success(states)
      {
        var found := FindCapability(catalog, announced[n].capabilityId);
        if found.None? {
          ResolveStatesFails(catalog, announced, n + 1, |announced|);
          return Failure("COMPANION_PERMISSION_CAPABILITY_UNKNOWN");
        }
        states := states + [StateOf(found.value, announced[n])];
        n := n + 1;
      }
      r := Success(states);
    }

    method CapabilityListReceived(e: Envelope) returns (r: Result<Reply, string>)
      modifies this
      ensures Answer(sessions, r) == HandleCapabilities(catalog, old(sessions), e)
    {
      var device := Named(e.deviceId);
      if device.None? {
        return Failure("COMPANION_DEVICE_ID_MISSING");
      }
      if e.capabilities.None? {
        return Failure("COMPANION_CAPABILITY_SCHEMA_INVALID");
      }
      var resolved := ResolveAnnounced(e.capabilities.value);
      if resolved.Failure? {
        return Failure(resolved.error);
      }
      if device.value !in sessions {
        return Failure("COMPANION_SESSION_NOT_CONNECTED");
      }
      var session := sessions[device.value];
      session := session.(capabilities := resolved.value);
      if session.permissionStates != [] {
        session := session.(connectionState := Ready);
      }
      sessions := sessions[device.value := session];
      r := Success(Reply("ack-" + e.messageId, e.traceId, device, CommandResponse, ""));
    }

    method PermissionStateReceived(e: Envelope) returns (r: Result<Reply, string>)
      modifies this
      ensures Answer(sessions, r) == HandleStates(catalog, old(sessions), e)
    {
      var device := Named(e.deviceId);
      if device.None? {
        return Failure("COMPANION_DEVICE_ID_MISSING");
      }
      if e.states.None? {
        return Failure("COMPANION_PERMISSION_STATE_INVALID");
      }
      var resolved := ResolveAnnouncedStates(e.states.value);
      if resolved.Failure? {
        return Failure(resolved.error);
      }
      if device.value !in sessions {
        return Failure("COMPANION_SESSION_NOT_CONNECTED");
      }
      var session := sessions[device.value];
      session := session.(permissionStates := resolved.value);
      if session.capabilities != [] {
        session := session.(connectionState := Ready);
      }
      sessions := sessions[device.value := session];
      r := Success(Reply("ack-" + e.messageId, e.traceId, device, CommandResponse, ""));
    }

    method HandleEnvelope(e: Envelope) returns (r: Result<Reply, string>)
      modifies this
      ensures Answer(sessions, r) == Handle(catalog, old(sessions), e)
    {
      var invalid := ValidateEnvelope(e);
      if invalid.Some? {
        return Failure(invalid.value);
      }
      match e.kind
      case Hello =>
        var answer := HandleHello(sessions, e);
        sessions := answer.sessions;
        r := answer.reply;
      case CapabilityList => r := CapabilityListReceived(e);
      case PermissionList => r := PermissionStateReceived(e);
      case Heartbeat => r := HandleHeartbeat(sessions, e).reply;
      case _ => r := Failure("COMPANION_SESSION_MESSAGE_UNSUPPORTED");
    }
  }

  lemma {:induction false} ResolveFails(catalog: seq<Capability>, announced: seq<Announced>, n: nat, k: nat)
    requires n <= k <= |announced| && Resolve(catalog, announced, n).Failure?
    ensures Resolve(catalog, announced, k) == Resolve(catalog, announced, n)
  {
    if n == k {
    } else {
      ResolveFails(catalog, announced, n, k - 1);
    }
  }

  lemma {:induction false} ResolveStatesFails(catalog: seq<Capability>, announced: seq<AnnouncedState>, n: nat, k: nat)
    requires n <= k <= |announced| && ResolveStates(catalog, announced, n).Failure?
    ensures ResolveStates(catalog, announced, k) == ResolveStates(catalog, announced, n)
  {
    if n == k {
    } else {
      ResolveStatesFails(catalog, announced, n, k - 1);
    }
  }

  // ---------------------------------------------------------------- one message

  /** The device a message speaks for. */
  function Target(e: Envelope): Option<string> {
    if e.kind.Hello? then if e.hello.Some? then Some(e.hello.value.deviceId) else None
    else Named(e.deviceId)
  }

  /** A rejected message, a heartbeat, or a message for another device changes nothing. */
  lemma OthersUntouched(catalog: seq<Capability>, sessions: Sessions, e: Envelope, d: string)
    requires Handle(catalog, sessions, e).reply.Failure? || e.kind.Heartbeat? || Target(e) != Some(d)
    ensures var after := Handle(catalog, sessions, e).sessions;
            (d in after <==> d in sessions) && (d in sessions ==> after[d] == sessions[d])
  {
  }

  /** Position k holds the first catalog entry with this identifier. */
  ghost predicate FirstWith(catalog: seq<Capability>, id: string, k: nat) {
    k < |catalog| && catalog[k].id == id && forall j | 0 <= j < k :: catalog[j].id != id
  }

  lemma {:induction false} FirstIsFound(catalog: seq<Capability>, id: string, k: nat)
    requires FirstWith(catalog, id, k)
    ensures FindCapability(catalog, id) == Some(catalog[k])
  {
    if k == 0 {
    } else {
      assert catalog[0].id != id;
      FirstIsFound(catalog[1..], id, k - 1);
    }
  }

  lemma {:induction false} FoundIsFirst(catalog: seq<Capability>, id: string) returns (k: nat)
    requires FindCapability(catalog, id).Some?
    ensures FirstWith(catalog, id, k) && FindCapability(catalog, id) == Some(catalog[k])
  {
    if catalog[0].id == id {
      k := 0;
    } else {
      k := FoundIsFirst(catalog[1..], id);
      k := k + 1;
    }
  }

  lemma FoundIff(catalog: seq<Capability>, id: string)
    ensures FindCapability(catalog, id).Some? <==> exists k | 0 <= k < |catalog| :: catalog[k].id == id
  {
    if FindCapability(catalog, id).Some? {
      var k := FoundIsFirst(catalog, id);
    }
  }

  predicate Has(c: Capability, operation: string) {
    exists m | 0 <= m < |c.operations| :: c.operations[m] == operation
  }

  /** Every announced operation is one of the entry's. */
  ghost predicate Within(a: Announced, c: Capability) {
    forall i | 0 <= i < |a.operations| :: Has(c, a.operations[i])
  }

  lemma WithinIff(a: Announced, c: Capability)
    ensures Within(a, c) <==> OperationsAllowed(a.operations, c)
  {
    if Within(a, c) {
      forall o | o in a.operations
        ensures o in c.operations
      {
        var i :| 0 <= i < |a.operations| && a.operations[i] == o;
      }
    }
    if OperationsAllowed(a.operations, c) {
      forall i | 0 <= i < |a.operations|
        ensures Has(c, a.operations[i])
      {
        assert a.operations[i] in c.operations;
      }
    }
  }

  /** The first catalog entry with the announced identifier has every announced operation. */
  ghost predicate Covered(catalog: seq<Capability>, a: Announced) {
    exists k: nat :: FirstWith(catalog, a.id, k) && Within(a, catalog[k])
  }

  lemma CoveredIff(catalog: seq<Capability>, a: Announced)
    ensures Covered(catalog, a) <==>
              FindCapability(catalog, a.id).Some?
              && OperationsAllowed(a.operations, FindCapability(catalog, a.id).value)
  {
    hide Within, FindCapability, OperationsAllowed;
    if Covered(catalog, a) {
      var k: nat :| FirstWith(catalog, a.id, k) && Within(a, catalog[k]);
      FirstIsFound(catalog, a.id, k);
      WithinIff(a, catalog[k]);
    }
    if FindCapability(catalog, a.id).Some? {
      var k := FoundIsFirst(catalog, a.id);
      WithinIff(a, catalog[k]);
    }
  }

  function Offence(catalog: seq<Capability>, a: Announced): string {
    if exists k | 0 <= k < |catalog| :: catalog[k].id == a.id
    then "COMPANION_CAPABILITY_OPERATION_INVALID" else "COMPANION_CAPABILITY_UNKNOWN"
  }

  /** The first announcement that is not covered decides what is complained about. */
  lemma {:induction false} ResolveRefuses(catalog: seq<Capability>, announced: seq<Announced>, n: nat)
    requires n <= |announced| && Resolve(catalog, announced, n).Failure?
    ensures exists i | 0 <= i < n ::
              && !Covered(catalog, announced[i])
              && (forall j | 0 <= j < i :: Covered(catalog, announced[j]))
              && Resolve(catalog, announced, n).error == Offence(catalog, announced[i])
  {
    hide OperationsAllowed, Covered, FindCapability;
    if Resolve(catalog, announced, n - 1).Failure? {
      ResolveRefuses(catalog, announced, n - 1);
    } else {
      ResolveMeaning(catalog, announced, n - 1);
      CoveredIff(catalog, announced[n - 1]);
      FoundIff(catalog, announced[n - 1].id);
    }
  }

  /**
   * An announcement is accepted exactly when the first catalog entry of every announced identifier has all
   * the announced operations, and resolves to those entries.
   */
  lemma {:induction false} ResolveMeaning(catalog: seq<Capability>, announced: seq<Announced>, n: nat)
    requires n <= |announced|
    ensures var r := Resolve(catalog, announced, n);
            && (r.Success? <==> forall i | 0 <= i < n :: Covered(catalog, announced[i]))
            && (r.Success? ==>
                  |r.value| == n
                  && forall i | 0 <= i < n ::
                      exists k: nat :: FirstWith(catalog, announced[i].id, k) && r.value[i] == catalog[k])
  {
    hide OperationsAllowed, Covered, FindCapability, FirstWith;
    if n == 0 {
    } else {
      ResolveMeaning(catalog, announced, n - 1);
      CoveredIff(catalog, announced[n - 1]);
      if FindCapability(catalog, announced[n - 1].id).Some? {
        var k := FoundIsFirst(catalog, announced[n - 1].id);
      }
    }
  }

  /** A permission entry repeats the requirements of its first catalog entry; granted is what is not missing. */
  ghost predicate Authoritative(catalog: seq<Capability>, state: PermissionState) {
    exists k: nat ::
      && FirstWith(catalog, state.capabilityId, k)
      && state.androidPermissions == catalog[k].androidPermissions
      && state.specialGrants == Except(catalog[k].specialPermissions, state.missingSpecialGrants)
  }

  /** The members of a list that are not in another one, in order. */
  function Except(whole: seq<string>, missing: seq<string>): (r: seq<string>)
    ensures forall g :: g in r <==> g in whole && !exists i | 0 <= i < |missing| :: missing[i] == g
  {
    if whole == [] then []
    else
      var last := whole[|whole| - 1];
      var front := whole[..|whole| - 1];
      assert whole == front + [last];
      Except(front, missing) + if last in missing then [] else [last]
  }

  lemma {:induction false} GrantedAppend(front: seq<string>, last: string, missing: seq<string>)
    ensures Granted(front + [last], missing) == Granted(front, missing) + Granted([last], missing)
  {
    if front == [] {
      assert front + [last] == [last];
    } else {
      assert (front + [last])[1..] == front[1..] + [last];
      GrantedAppend(front[1..], last, missing);
    }
  }

  lemma {:induction false} GrantedIsExcept(whole: seq<string>, missing: seq<string>)
    ensures Granted(whole, missing) == Except(whole, missing)
  {
    if whole == [] {
    } else {
      var front, last := whole[..|whole| - 1], whole[|whole| - 1];
      assert whole == front + [last];
      GrantedAppend(front, last, missing);
      GrantedIsExcept(front, missing);
    }
  }

  /** What Android itself decides about a capability is kept as announced. */
  predicate Repeats(state: PermissionState, a: AnnouncedState) {
    && state.capabilityId == a.capabilityId && state.granted == a.granted
    && state.missingPermissions == a.missingPermissions && state.missingSpecialGrants == a.missingSpecialGrants
    && state.userConsentRequired == a.userConsentRequired
  }

  lemma StateOfIsAuthoritative(catalog: seq<Capability>, a: AnnouncedState)
    requires FindCapability(catalog, a.capabilityId).Some?
    ensures Authoritative(catalog, StateOf(FindCapability(catalog, a.capabilityId).value, a))
  {
    var k := FoundIsFirst(catalog, a.capabilityId);
    GrantedIsExcept(catalog[k].specialPermissions, a.missingSpecialGrants);
  }

  /** States are accepted exactly when every capability is in the catalog. */
  lemma {:induction false} ResolveStatesMeaning(catalog: seq<Capability>, announced: seq<AnnouncedState>, n: nat)
    requires n <= |announced|
    ensures var r := ResolveStates(catalog, announced, n);
            && (r.Success? <==>
                  forall i | 0 <= i < n :: exists k | 0 <= k < |catalog| :: catalog[k].id == announced[i].capabilityId)
            && (r.Success? ==>
                  |r.value| == n
                  && forall i | 0 <= i < n :: Authoritative(catalog, r.value[i]) && Repeats(r.value[i], announced[i]))
            && (r.Failure? ==> r.error == "COMPANION_PERMISSION_CAPABILITY_UNKNOWN")
  {
    hide Authoritative, FindCapability, Granted;
    if n == 0 {
    } else {
      ResolveStatesMeaning(catalog, announced, n - 1);
      FoundIff(catalog, announced[n - 1].capabilityId);
      if FindCapability(catalog, announced[n - 1].capabilityId).Some? {
        StateOfIsAuthoritative(catalog, announced[n - 1]);
      }
    }
  }

  // ---------------------------------------------------------------- answers in full

  /** A message of this protocol, with an identifier. */
  predicate WellFormed(e: Envelope) {
    && e.protocol == "adbcontrol-companion-quic" && e.version == 1
    && exists i | 0 <= i < |e.messageId| :: !IsSpace(e.messageId[i])
  }

  predicate Speaks(e: Envelope) {
    e.deviceId.Some? && exists i | 0 <= i < |e.deviceId.value| :: !IsSpace(e.deviceId.value[i])
  }

  /** Messages of another protocol, without an identifier, or of a kind that is not for sessions are refused. */
  lemma MalformedIsRefused(catalog: seq<Capability>, sessions: Sessions, e: Envelope)
    ensures var answer := Handle(catalog, sessions, e);
            !WellFormed(e) || e.kind !in {Hello, CapabilityList, PermissionList, Heartbeat} ==>
              answer == Answer(sessions, Failure(
                if e.protocol != "adbcontrol-companion-quic" then "COMPANION_PROTOCOL_MISMATCH"
                else if e.version != 1 then "COMPANION_PROTOCOL_VERSION_UNSUPPORTED"
                else if !WellFormed(e) then "COMPANION_MESSAGE_ID_MISSING"
                else "COMPANION_SESSION_MESSAGE_UNSUPPORTED"))
  {
    hide IsSpace, HandleHello, HandleCapabilities, HandleStates, HandleHeartbeat;
    BlankIff(e.messageId);
  }

  /** A hello starts its device's session anew, empty and handshaking, and is acknowledged by device. */
  lemma HelloAnswered(catalog: seq<Capability>, sessions: Sessions, e: Envelope)
    requires WellFormed(e) && e.kind.Hello?
    ensures var answer := Handle(catalog, sessions, e);
            if e.hello.None? then answer == Answer(sessions, Failure("COMPANION_HELLO_INVALID"))
            else
              var hello := e.hello.value;
              if Speaks(e) && e.deviceId.value != hello.deviceId
              then answer == Answer(sessions, Failure("COMPANION_HELLO_DEVICE_ID_MISMATCH"))
              else if forall i | 0 <= i < |hello.versions| :: hello.versions[i] != 1
              then answer == Answer(sessions, Failure("COMPANION_PROTOCOL_VERSION_UNSUPPORTED"))
              else
                && answer.reply == Success(
                     Reply("hello-ack-" + hello.deviceId, e.traceId, Some(hello.deviceId), HelloAck, ""))
                && answer.sessions == sessions[hello.deviceId := Device(
                     hello.deviceId, hello.deviceName, hello.appVersion, hello.androidSdk, Handshaking, [], [])]
  {
    hide IsSpace;
    BlankIff(e.messageId);
    if e.deviceId.Some? {
      BlankIff(e.deviceId.value);
    }
    assert e.hello.Some? && 1 in e.hello.value.versions ==>
        exists i | 0 <= i < |e.hello.value.versions| :: e.hello.value.versions[i] == 1;
  }

  /** A capability list replaces its device's list, and makes the session ready if states are there. */
  lemma CapabilitiesAnswered(catalog: seq<Capability>, sessions: Sessions, e: Envelope)
    requires WellFormed(e) && e.kind.CapabilityList?
    ensures var answer := Handle(catalog, sessions, e);
            if !Speaks(e) then answer == Answer(sessions, Failure("COMPANION_DEVICE_ID_MISSING"))
            else if e.capabilities.None? then answer == Answer(sessions, Failure("COMPANION_CAPABILITY_SCHEMA_INVALID"))
            else
              var d, list := e.deviceId.value, e.capabilities.value;
              var resolved := Resolve(catalog, list, |list|);
              if resolved.Failure? then answer == Answer(sessions, Failure(resolved.error))
              else if d !in sessions then answer == Answer(sessions, Failure("COMPANION_SESSION_NOT_CONNECTED"))
              else
                var s := sessions[d];
                && answer.reply == Success(Reply("ack-" + e.messageId, e.traceId, Some(d), CommandResponse, ""))
                && answer.sessions == sessions[d := Device(
                     s.deviceId, s.displayName, s.appVersion, s.androidSdk,
                     if |s.permissionStates| > 0 then Ready else s.connectionState,
                     resolved.value, s.permissionStates)]
  {
    hide IsSpace, Resolve;
    BlankIff(e.messageId);
    if e.deviceId.Some? {
      BlankIff(e.deviceId.value);
    }
  }

  /** The same for permission states. */
  lemma StatesAnswered(catalog: seq<Capability>, sessions: Sessions, e: Envelope)
    requires WellFormed(e) && e.kind.PermissionList?
    ensures var answer := Handle(catalog, sessions, e);
            if !Speaks(e) then answer == Answer(sessions, Failure("COMPANION_DEVICE_ID_MISSING"))
            else if e.states.None? then answer == Answer(sessions, Failure("COMPANION_PERMISSION_STATE_INVALID"))
            else
              var d, list := e.deviceId.value, e.states.value;
              var resolved := ResolveStates(catalog, list, |list|);
              if resolved.Failure? then answer == Answer(sessions, Failure(resolved.error))
              else if d !in sessions then answer == Answer(sessions, Failure("COMPANION_SESSION_NOT_CONNECTED"))
              else
                var s := sessions[d];
                && answer.reply == Success(Reply("ack-" + e.messageId, e.traceId, Some(d), CommandResponse, ""))
                && answer.sessions == sessions[d := Device(
                     s.deviceId, s.displayName, s.appVersion, s.androidSdk,
                     if |s.capabilities| > 0 then Ready else s.connectionState,
                     s.capabilities, resolved.value)]
  {
    hide IsSpace, ResolveStates;
    BlankIff(e.messageId);
    if e.deviceId.Some? {
      BlankIff(e.deviceId.value);
    }
  }

  /** A heartbeat is acknowledged for a connected device, and leaves no trace. */
  lemma HeartbeatAnswered(catalog: seq<Capability>, sessions: Sessions, e: Envelope)
    requires WellFormed(e) && e.kind.Heartbeat?
    ensures Handle(catalog, sessions, e) == Answer(
              sessions,
              if !Speaks(e) then Failure("COMPANION_DEVICE_ID_MISSING")
              else if e.deviceId.value !in sessions then Failure("COMPANION_SESSION_NOT_CONNECTED")
              else Success(Reply("heartbeat-ack-" + e.messageId, e.traceId, e.deviceId, Heartbeat, "")))
  {
    hide IsSpace;
    BlankIff(e.messageId);
    if e.deviceId.Some? {
      BlankIff(e.deviceId.value);
    }
  }
}
