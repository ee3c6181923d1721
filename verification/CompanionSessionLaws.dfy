/** What holds of a Companion session after any sequence of messages. */
module CompanionSessionLaws {
  import opened Common
  import opened CompanionRegistry
  import opened CompanionSessions

  function After(catalog: seq<Capability>, messages: seq<Envelope>): Sessions {
    if messages == [] then map[]
    else Handle(catalog, After(catalog, messages[..|messages| - 1]), messages[|messages| - 1]).sessions
  }

  // ---------------------------------------------------------------- stored contents

  ghost predicate Faithful(catalog: seq<Capability>, sessions: Sessions) {
    forall d | d in sessions ::
      && sessions[d].deviceId == d
      && (forall c | c in sessions[d].capabilities :: c in catalog)
      && (forall s | s in sessions[d].permissionStates :: Authoritative(catalog, s))
      && (sessions[d].capabilities != [] && sessions[d].permissionStates != [] ==> sessions[d].connectionState == Ready)
  }

  lemma ResolvedAreEntries(catalog: seq<Capability>, announced: seq<Announced>)
    ensures var r := Resolve(catalog, announced, |announced|);
            r.Success? ==> forall c | c in r.value :: c in catalog
  {
    hide Resolve, Covered;
    ResolveMeaning(catalog, announced, |announced|);
  }

  lemma StatesAreAuthoritative(catalog: seq<Capability>, announced: seq<AnnouncedState>)
    ensures var r := ResolveStates(catalog, announced, |announced|);
            r.Success? ==> forall s | s in r.value :: Authoritative(catalog, s)
  {
    hide ResolveStates, Authoritative;
    ResolveStatesMeaning(catalog, announced, |announced|);
  }

  lemma HandleKeepsFaithful(catalog: seq<Capability>, sessions: Sessions, e: Envelope)
    requires Faithful(catalog, sessions)
    ensures Faithful(catalog, Handle(catalog, sessions, e).sessions)
  {
    hide Authoritative, Resolve, ResolveStates, Named, ValidateEnvelope;
    if e.capabilities.Some? {
      ResolvedAreEntries(catalog, e.capabilities.value);
    }
    if e.states.Some? {
      StatesAreAuthoritative(catalog, e.states.value);
    }
  }

  /**
   * Whatever arrives, a session is filed under its own device, holds catalog entries verbatim and
   * permission entries with the catalog's requirements, and two non-empty lists make it Ready.
   */
  lemma {:induction false} SessionsAreFaithful(catalog: seq<Capability>, messages: seq<Envelope>)
    ensures Faithful(catalog, After(catalog, messages))
  {
    hide Faithful, Handle;
    if messages == [] {
      EmptyIsFaithful(catalog);
    } else {
      SessionsAreFaithful(catalog, messages[..|messages| - 1]);
      HandleKeepsFaithful(catalog, After(catalog, messages[..|messages| - 1]), messages[|messages| - 1]);
    }
  }

  lemma EmptyIsFaithful(catalog: seq<Capability>)
    ensures Faithful(catalog, map[])
  {
  }

  // ---------------------------------------------------------------- when a session is Ready

  datatype List = Capabilities | States

  /** What one message did to one device. */
  datatype Effect = Nothing | Greeting | Listed(kind: List, nonEmpty: bool)

  function EffectOf(catalog: seq<Capability>, sessions: Sessions, e: Envelope, d: string): Effect {
    if Handle(catalog, sessions, e).reply.Failure? || Target(e) != Some(d) then Nothing
    else
      match e.kind
      case Hello => Greeting
      case CapabilityList => Listed(Capabilities, e.capabilities.Some? && e.capabilities.value != [])
      case PermissionList => Listed(States, e.states.Some? && e.states.value != [])
      case _ => Nothing
  }

  function Effects(catalog: seq<Capability>, messages: seq<Envelope>, d: string): (r: seq<Effect>)
    ensures |r| == |messages|
  {
    if messages == [] then []
    else
      var front := messages[..|messages| - 1];
      Effects(catalog, front, d) + [EffectOf(catalog, After(catalog, front), messages[|messages| - 1], d)]
  }

  /** The latest list of this kind since the last greeting is there and not empty. */
  ghost predicate Announces(effects: seq<Effect>, kind: List) {
    exists i | 0 <= i < |effects| ::
      && effects[i] == Listed(kind, true)
      && forall j | i < j < |effects| :: effects[j] != Greeting && !(effects[j].Listed? && effects[j].kind == kind)
  }

  /** A list at i is not empty and still the latest of its kind when a list of the other kind arrives at j. */
  ghost predicate Pair(effects: seq<Effect>, i: nat, j: nat)
    requires i < j < |effects|
  {
    && effects[i].Listed? && effects[i].nonEmpty
    && effects[j].Listed? && effects[j].kind != effects[i].kind
    && (forall k | i < k < j :: !(effects[k].Listed? && effects[k].kind == effects[i].kind))
    && (forall k | i < k < |effects| :: effects[k] != Greeting)
  }

  /** Some list arrived while the latest list of the other kind was not empty, and no greeting came since. */
  ghost predicate BothSeen(effects: seq<Effect>) {
    exists i: nat, j: nat | i < j < |effects| :: Pair(effects, i, j)
  }

  lemma AnnouncesStep(effects: seq<Effect>, e: Effect, kind: List)
    ensures Announces(effects + [e], kind) <==>
              e == Listed(kind, true)
              || (Announces(effects, kind) && e != Greeting && !(e.Listed? && e.kind == kind))
  {
    var longer := effects + [e];
    assert forall i | 0 <= i < |effects| :: longer[i] == effects[i];
    assert longer[|effects|] == e;
    if e == Listed(kind, true) {
      assert longer[|effects|] == Listed(kind, true);
    } else if Announces(longer, kind) {
      var i :| 0 <= i < |longer| && longer[i] == Listed(kind, true)
        && forall j | i < j < |longer| :: longer[j] != Greeting && !(longer[j].Listed? && longer[j].kind == kind);
      assert effects[i] == Listed(kind, true);
      assert forall j | i < j < |effects| :: longer[j] == effects[j];
    } else if Announces(effects, kind) {
      var i :| 0 <= i < |effects| && effects[i] == Listed(kind, true)
        && forall j | i < j < |effects| :: effects[j] != Greeting && !(effects[j].Listed? && effects[j].kind == kind);
      assert longer[i] == Listed(kind, true);
    }
  }

  function Other(kind: List): List {
    if kind == Capabilities then States else Capabilities
  }

  lemma BothSeenGrows(effects: seq<Effect>, e: Effect)
    requires e != Greeting
    requires BothSeen(effects) || (e.Listed? && Announces(effects, Other(e.kind)))
    ensures BothSeen(effects + [e])
  {
    var longer := effects + [e];
    assert forall i | 0 <= i < |effects| :: longer[i] == effects[i];
    assert longer[|effects|] == e;
    if BothSeen(effects) {
      var i: nat, j: nat :| i < j < |effects| && Pair(effects, i, j);
      assert Pair(longer, i, j);
    } else {
      var i :| 0 <= i < |effects| && effects[i] == Listed(Other(e.kind), true)
        && forall j | i < j < |effects| ::
            effects[j] != Greeting && !(effects[j].Listed? && effects[j].kind == Other(e.kind));
      assert Pair(longer, i, |effects|);
    }
  }

  lemma BothSeenShrinks(effects: seq<Effect>, e: Effect)
    requires BothSeen(effects + [e])
    ensures e != Greeting && (BothSeen(effects) || (e.Listed? && Announces(effects, Other(e.kind))))
  {
    var longer := effects + [e];
    assert forall i | 0 <= i < |effects| :: longer[i] == effects[i];
    assert longer[|effects|] == e;
    var i: nat, j: nat :| i < j < |longer| && Pair(longer, i, j);
    if j < |effects| {
      assert Pair(effects, i, j);
    } else {
      assert effects[i] == Listed(Other(e.kind), true);
      assert forall k | i < k < |effects| :: effects[k] == longer[k];
    }
  }

  lemma CapabilitiesEffect(catalog: seq<Capability>, sessions: Sessions, e: Envelope)
    requires HandleCapabilities(catalog, sessions, e).reply.Success?
    ensures Named(e.deviceId).Some? && e.capabilities.Some?
    ensures var d := Named(e.deviceId).value;
            var after := HandleCapabilities(catalog, sessions, e).sessions;
            && d in sessions && d in after && after[d].permissionStates == sessions[d].permissionStates
            && (after[d].capabilities != [] <==> e.capabilities.value != [])
            && after[d].connectionState == if sessions[d].permissionStates != [] then Ready
                else sessions[d].connectionState
  {
    hide Resolve, Named, OperationsAllowed, FindCapability;
    ResolveMeaning(catalog, e.capabilities.value, |e.capabilities.value|);
  }

  lemma StatesEffect(catalog: seq<Capability>, sessions: Sessions, e: Envelope)
    requires HandleStates(catalog, sessions, e).reply.Success?
    ensures Named(e.deviceId).Some? && e.states.Some?
    ensures var d := Named(e.deviceId).value;
            var after := HandleStates(catalog, sessions, e).sessions;
            && d in sessions && d in after && after[d].capabilities == sessions[d].capabilities
            && (after[d].permissionStates != [] <==> e.states.value != [])
            && after[d].connectionState == if sessions[d].capabilities != [] then Ready else sessions[d].connectionState
  {
    hide ResolveStates, Named, Authoritative, FindCapability;
    ResolveStatesMeaning(catalog, e.states.value, |e.states.value|);
  }

  /** One message, seen through its effect on the device. */
  lemma HandleEffect(catalog: seq<Capability>, sessions: Sessions, e: Envelope, d: string)
    ensures var after := Handle(catalog, sessions, e).sessions;
            match EffectOf(catalog, sessions, e, d)
            case Nothing => (d in after <==> d in sessions) && (d in sessions ==> after[d] == sessions[d])
            case Greeting =>
              d in after && after[d].connectionState == Handshaking && after[d].capabilities == []
                  && after[d].permissionStates == []
            case Listed(Capabilities, nonEmpty) =>
              && d in sessions && d in after && after[d].permissionStates == sessions[d].permissionStates
              && (after[d].capabilities != [] <==> nonEmpty)
              && after[d].connectionState == if sessions[d].permissionStates != [] then Ready
                  else sessions[d].connectionState
            case Listed(States, nonEmpty) =>
              && d in sessions && d in after && after[d].capabilities == sessions[d].capabilities
              && (after[d].permissionStates != [] <==> nonEmpty)
              && after[d].connectionState == if sessions[d].capabilities != [] then Ready
                  else sessions[d].connectionState
  {
    hide Named, HandleCapabilities, HandleStates, ValidateEnvelope;
    if EffectOf(catalog, sessions, e, d) == Nothing {
      OthersUntouched(catalog, sessions, e, d);
    } else if e.kind.CapabilityList? {
      CapabilitiesEffect(catalog, sessions, e);
    } else if e.kind.PermissionList? {
      StatesEffect(catalog, sessions, e);
    }
  }

  /** How the lists and the state of one device relate to the messages so far. */
  ghost predicate Matches(sessions: Sessions, effects: seq<Effect>, d: string) {
    && (Announces(effects, Capabilities) <==> d in sessions && sessions[d].capabilities != [])
    && (Announces(effects, States) <==> d in sessions && sessions[d].permissionStates != [])
    && (BothSeen(effects) <==> d in sessions && sessions[d].connectionState == Ready)
  }

  lemma MatchesStep(catalog: seq<Capability>, sessions: Sessions, effects: seq<Effect>, e: Envelope, d: string)
    requires Matches(sessions, effects, d)
    ensures Matches(Handle(catalog, sessions, e).sessions, effects + [EffectOf(catalog, sessions, e, d)], d)
  {
    hide Announces, BothSeen, EffectOf, Handle;
    var effect := EffectOf(catalog, sessions, e, d);
    HandleEffect(catalog, sessions, e, d);
    AnnouncesStep(effects, effect, Capabilities);
    AnnouncesStep(effects, effect, States);
    if effect != Greeting && (BothSeen(effects) || (effect.Listed? && Announces(effects, Other(effect.kind)))) {
      BothSeenGrows(effects, effect);
    }
    if BothSeen(effects + [effect]) {
      BothSeenShrinks(effects, effect);
    }
  }

  /**
   * A device is Ready exactly when, since its last accepted hello, a list of one kind was accepted while
   * the latest accepted list of the other kind was not empty; its lists are non-empty exactly when the
   * latest accepted announcements since that hello are.
   */
  lemma {:induction false} ReadyIsExact(catalog: seq<Capability>, messages: seq<Envelope>, d: string)
    ensures Matches(After(catalog, messages), Effects(catalog, messages, d), d)
  {
    hide Matches, Handle, EffectOf;
    if messages == [] {
      NothingMatches(d);
    } else {
      var front := messages[..|messages| - 1];
      ReadyIsExact(catalog, front, d);
      MatchesStep(catalog, After(catalog, front), Effects(catalog, front, d), messages[|messages| - 1], d);
    }
  }

  lemma NothingMatches(d: string)
    ensures Matches(map[], [], d)
  {
  }

  /** Ready needs both kinds since the last hello, and two empty announcements are never enough. */
  lemma ReadyNeedsBoth(catalog: seq<Capability>, messages: seq<Envelope>, d: string)
    requires d in After(catalog, messages) && After(catalog, messages)[d].connectionState == Ready
    ensures var effects := Effects(catalog, messages, d);
            exists i, j | 0 <= i < |effects| && 0 <= j < |effects| ::
              && effects[i].Listed? && effects[i].kind == Capabilities
              && effects[j].Listed? && effects[j].kind == States
              && (effects[i].nonEmpty || effects[j].nonEmpty)
              && forall k | 0 <= k < |effects| && (i < k || j < k) :: effects[k] != Greeting
  {
    hide After, Effects;
    ReadyIsExact(catalog, messages, d);
    var effects := Effects(catalog, messages, d);
    var i: nat, j: nat :| i < j < |effects| && Pair(effects, i, j);
    if effects[i].kind == Capabilities {
      assert effects[i].Listed? && effects[j].Listed? && effects[j].kind == States;
    } else {
      assert effects[j].Listed? && effects[j].kind == Capabilities && effects[i].Listed?;
    }
  }
}
