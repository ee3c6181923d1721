/** The single entry of Companion messages: dispatch by kind, and errors that become replies. */
module CompanionIngress {
  import opened Common
  import opened Text
  import opened CompanionRegistry
  import opened CompanionSessions
  import opened CompanionSessionLaws

  datatype State = State(sessions: Sessions, chunks: nat)

  datatype Outcome = Outcome(state: State, reply: Result<Reply, string>)

  function Ack(e: Envelope): Reply {
    Reply("ingress-ack-" + e.messageId, e.traceId, e.deviceId, CommandResponse, "")
  }

  function ErrorReply(e: Envelope, code: string): Reply {
    Reply("ingress-error-" + e.messageId, e.traceId, e.deviceId, Error, code)
  }

  predicate IsSessionKind(kind: Kind) {
    kind.Hello? || kind.CapabilityList? || kind.PermissionList? || kind.Heartbeat?
  }

  predicate IsMediaKind(kind: Kind) {
    kind.StreamOpen? || kind.StreamChunk? || kind.StreamClose?
  }

  /** storeError: what the optional media store answers if it is asked. */
  function HandleMedia(state: State, e: Envelope, storeError: Option<string>): Outcome {
    if e.channel != Media then Outcome(state, Failure("COMPANION_MEDIA_CHANNEL_INVALID"))
    else if e.kind != StreamChunk then Outcome(state, Success(Ack(e)))
    else
      Outcome(state.(chunks := state.chunks + 1), if storeError.Some? then Failure(storeError.value)
          else Success(Ack(e)))
  }

  function Dispatch(catalog: seq<Capability>, state: State, e: Envelope, storeError: Option<string>): Outcome {
    if ValidateEnvelope(e).Some? then Outcome(state, Failure(ValidateEnvelope(e).value))
    else
      match e.kind
      case StreamOpen | StreamChunk | StreamClose => HandleMedia(state, e, storeError)
      case CommandResponse | Error => Outcome(state, Success(Ack(e)))
      case HelloAck | CommandRequest => Outcome(state, Failure("COMPANION_INGRESS_MESSAGE_UNSUPPORTED"))
      case _ =>
        var answer := Handle(catalog, state.sessions, e);
        Outcome(state.(sessions := answer.sessions), answer.reply)
  }

  function ReplyOf(e: Envelope, outcome: Outcome): Reply {
    match outcome.reply
    case Success(reply) => reply
    case Failure(code) => ErrorReply(e, code)
  }

  class Ingress {
    const manager: SessionManager
    var chunks: nat

    constructor (catalog: seq<Capability>)
      ensures fresh(manager) && manager.catalog == catalog && Current() == State(map[], 0)
    {
      manager := new SessionManager(catalog);
      chunks := 0;
    }

    function Current(): State
      reads this, manager
    {
      State(manager.sessions, chunks)
    }

    method DispatchEnvelope(e: Envelope, storeError: Option<string>) returns (r: Result<Reply, string>)
      modifies this, manager
      ensures Outcome(Current(), r) == Dispatch(manager.catalog, old(Current()), e, storeError)
    {
      var invalid := ValidateEnvelope(e);
      if invalid.Some? {
        return Failure(invalid.value);
      }
      if IsSessionKind(e.kind) {
        r := manager.HandleEnvelope(e);
      } else if IsMediaKind(e.kind) {
        if e.channel != Media {
          return Failure("COMPANION_MEDIA_CHANNEL_INVALID");
        }
        if e.kind == StreamChunk {
          chunks := chunks + 1;
          if storeError.Some? {
            return Failure(storeError.value);
          }
        }
        r := Success(Ack(e));
      } else if e.kind.CommandResponse? || e.kind.Error? {
        r := Success(Ack(e));
      } else {
        r := Failure("COMPANION_INGRESS_MESSAGE_UNSUPPORTED");
      }
    }

    /** Never fails: an error becomes a reply that names the message it answers. */
    method HandleEnvelope(e: Envelope, storeError: Option<string>) returns (reply: Reply)
      modifies this, manager
      ensures Current() == Dispatch(manager.catalog, old(Current()), e, storeError).state
      ensures reply == ReplyOf(e, Dispatch(manager.catalog, old(Current()), e, storeError))
    {
      var r := DispatchEnvelope(e, storeError);
      reply := match r case Success(answer) => answer case Failure(code) => ErrorReply(e, code);
    }
  }

  /** What the ingress does with every well-formed message that is not for the sessions. */
  lemma IngressAnswered(catalog: seq<Capability>, state: State, e: Envelope, storeError: Option<string>)
    requires WellFormed(e)
    ensures var outcome := Dispatch(catalog, state, e, storeError);
            var ack := Reply("ingress-ack-" + e.messageId, e.traceId, e.deviceId, CommandResponse, "");
            match e.kind
            case HelloAck => outcome == Outcome(state, Failure("COMPANION_INGRESS_MESSAGE_UNSUPPORTED"))
            case CommandRequest => outcome == Outcome(state, Failure("COMPANION_INGRESS_MESSAGE_UNSUPPORTED"))
            case CommandResponse => outcome == Outcome(state, Success(ack))
            case Error => outcome == Outcome(state, Success(ack))
            case StreamOpen =>
              outcome == Outcome(state, if e.channel.Media? then Success(ack)
                                        else Failure("COMPANION_MEDIA_CHANNEL_INVALID"))
            case StreamClose =>
              outcome == Outcome(state, if e.channel.Media? then Success(ack)
                                        else Failure("COMPANION_MEDIA_CHANNEL_INVALID"))
            case StreamChunk =>
              outcome == if !e.channel.Media? then Outcome(state, Failure("COMPANION_MEDIA_CHANNEL_INVALID"))
                         else Outcome(State(state.sessions, state.chunks + 1),
                                      if storeError.Some? then Failure(storeError.value) else Success(ack))
            case _ =>
              var answer := Handle(catalog, state.sessions, e);
              outcome == Outcome(State(answer.sessions, state.chunks), answer.reply)
  {
    hide IsSpace, Handle;
    BlankIff(e.messageId);
  }

  /** Every message that is not well-formed is refused like one for the sessions. */
  lemma IngressRefuses(catalog: seq<Capability>, state: State, e: Envelope, storeError: Option<string>)
    requires !WellFormed(e)
    ensures Dispatch(catalog, state, e, storeError) == Outcome(state, Handle(catalog, state.sessions, e).reply)
  {
    hide IsSpace, HandleHello, HandleCapabilities, HandleStates, HandleHeartbeat;
    BlankIff(e.messageId);
  }

  lemma ValidIff(e: Envelope)
    ensures ValidateEnvelope(e).None? <==> WellFormed(e)
  {
    BlankIff(e.messageId);
  }

  /** The sessions' answer to a message is no error reply, and a refused message leaves them as they were. */
  lemma SessionReplies(catalog: seq<Capability>, sessions: Sessions, e: Envelope)
    ensures var answer := Handle(catalog, sessions, e);
            && (answer.reply.Success? ==> answer.reply.value.kind != Error)
            && (answer.reply.Failure? ==> answer.sessions == sessions)
            && (ValidateEnvelope(e).Some? ==> answer.reply.Failure?)
  {
    hide Resolve, ResolveStates, Named, ValidateEnvelope;
  }

  /** The reply is an error exactly for a failed message, and an error leaves the sessions as they were. */
  lemma ErrorsAreReplies(catalog: seq<Capability>, state: State, e: Envelope, storeError: Option<string>)
    ensures var outcome := Dispatch(catalog, state, e, storeError);
            var reply := ReplyOf(e, outcome);
            && (reply.kind == Error <==> outcome.reply.Failure?)
            && (reply.kind == Error ==>
                  && outcome.state.sessions == state.sessions
                  && reply.traceId == e.traceId && reply.deviceId == e.deviceId
                  && reply.messageId == "ingress-error-" + e.messageId && reply.errorCode == outcome.reply.error)
            && (outcome.reply.Failure? <==>
                  || ValidateEnvelope(e).Some?
                  || (IsSessionKind(e.kind) && Handle(catalog, state.sessions, e).reply.Failure?)
                  || (IsMediaKind(e.kind) && e.channel != Media)
                  || (e.kind.StreamChunk? && storeError.Some?)
                  || e.kind.HelloAck? || e.kind.CommandRequest?)
  {
    hide Dispatch, Handle, WellFormed, ValidateEnvelope, IsBlank;
    ValidIff(e);
    SessionReplies(catalog, state.sessions, e);
    if WellFormed(e) {
      IngressAnswered(catalog, state, e, storeError);
    } else {
      IngressRefuses(catalog, state, e, storeError);
    }
  }

  function AfterAll(catalog: seq<Capability>, messages: seq<Envelope>, stores: seq<Option<string>>): State
    requires |stores| == |messages|
  {
    if messages == [] then State(map[], 0)
    else
      var last := |messages| - 1;
      Dispatch(catalog, AfterAll(catalog, messages[..last], stores[..last]), messages[last], stores[last]).state
  }

  predicate IsChunk(e: Envelope) {
    ValidateEnvelope(e) == None && e.kind == StreamChunk && e.channel == Media
  }

  function ChunkCount(messages: seq<Envelope>): nat {
    if messages == [] then 0
    else ChunkCount(messages[..|messages| - 1]) + if IsChunk(messages[|messages| - 1]) then 1 else 0
  }

  /** Media and responses never touch a session; every valid chunk is counted, stored or not. */
  lemma {:induction false} IngressKeepsSessionsApart(
    catalog: seq<Capability>, messages: seq<Envelope>, stores: seq<Option<string>>)
    requires |stores| == |messages|
    ensures AfterAll(catalog, messages, stores) == State(After(catalog, messages), ChunkCount(messages))
  {
    hide HandleHello, HandleCapabilities, HandleStates, HandleHeartbeat, ValidateEnvelope;
    if messages == [] {
    } else {
      IngressKeepsSessionsApart(catalog, messages[..|messages| - 1], stores[..|messages| - 1]);
    }
  }
}
