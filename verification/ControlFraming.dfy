/**
 * The ACQ1 control stream: a five-byte preface, then frames of a big-endian 32-bit length and a payload.
 *
 * The Core's reader and both writers (the Core's and the phone's) are modelled; they do not agree on what
 * they refuse.
 */
module ControlFraming {
  import opened Common

  newtype byte = x: int | 0 <= x < 256

  type Message = seq<byte>

  const PREFACE: seq<byte> := [65, 67, 81, 49, 1]   // "ACQ1", control stream
  const MAX_MESSAGE: nat := 4 * 1024 * 1024

  /** How reading ends: nothing but a partial length left, a refused length, or a partial payload. */
  datatype End = Closed | LengthInvalid | ReadFailed

  datatype Decoded = Decoded(messages: seq<Message>, end: End, rest: seq<byte>)

  datatype Stream = PrefaceReadFailed | PrefaceInvalid | Frames(decoded: Decoded)

  predicate Sendable(m: Message) {
    1 <= |m| <= 4_194_304
  }

  predicate AllSendable(messages: seq<Message>) {
    forall i | 0 <= i < |messages| :: Sendable(messages[i])
  }

  predicate NoneTooLong(messages: seq<Message>) {
    forall i | 0 <= i < |messages| :: |messages[i]| <= 4_194_304
  }

  // ---------------------------------------------------------------- lengths

  /** The length is cast to 32 bits. */
  function LengthBytes(n: nat): (r: seq<byte>)
    ensures |r| == 4
  {
    [(n / 0x100_0000 % 0x100) as byte, (n / 0x1_0000 % 0x100) as byte, (n / 0x100 % 0x100) as byte, (n % 0x100) as byte]
  }

  function LengthOf(s: seq<byte>): (n: nat)
    requires |s| >= 4
    ensures n < 0x1_0000_0000
  {
    s[0] as int * 0x100_0000 + s[1] as int * 0x1_0000 + s[2] as int * 0x100 + s[3] as int
  }

  lemma LengthWrittenThenRead(n: nat, tail: seq<byte>)
    requires n < 0x1_0000_0000
    ensures LengthOf(LengthBytes(n) + tail) == n
  {
    assert n / 0x100 == n / 0x1_0000 * 0x100 + n / 0x100 % 0x100;
    assert n / 0x1_0000 == n / 0x100_0000 * 0x100 + n / 0x1_0000 % 0x100;
  }

  lemma LengthReadThenWritten(s: seq<byte>)
    requires |s| >= 4
    ensures LengthBytes(LengthOf(s)) == s[..4]
  {
    var n := LengthOf(s);
    var a, b, c, d := s[0] as int, s[1] as int, s[2] as int, s[3] as int;
    var high := a * 0x100 + b;
    var upper := high * 0x100 + c;
    assert n == upper * 0x100 + d;
    assert n / 0x100 == upper && n % 0x100 == d;
    assert n / 0x1_0000 == high && upper % 0x100 == c;
    assert n / 0x100_0000 == a && high % 0x100 == b;
  }

  /** The most significant byte goes first, and a length that needs a fifth byte loses it. */
  lemma BigEndian(lost: nat, a: byte, b: byte, c: byte, d: byte, tail: seq<byte>)
    ensures var n := ((a as int * 256 + b as int) * 256 + c as int) * 256 + d as int;
            LengthOf([a, b, c, d] + tail) == n && LengthBytes(lost * 0x1_0000_0000 + n) == [a, b, c, d]
  {
    var n := LengthOf([a, b, c, d]);
    LengthReadThenWritten([a, b, c, d]);
    LengthWraps(lost, n);
  }

  lemma {:induction false} WholesCancel(k: nat, n: nat, d: nat)
    requires d > 0
    ensures (k * d + n) / d == k + n / d
  {
    var q, r := n / d, n % d;
    assert k * d + n == (k + q) * d + r;
    QuotientIs(k + q, r, d);
  }

  lemma QuotientIs(q: nat, r: nat, d: nat)
    requires r < d
    ensures (q * d + r) / d == q
  {
    var n := q * d + r;
    var p := n / d;
    assert p * d <= n < p * d + d;
    assert p < q ==> (p + 1) * d <= q * d;
    assert q < p ==> (q + 1) * d <= p * d;
  }

  lemma LengthWraps(lost: nat, n: nat)
    ensures LengthBytes(lost * 0x1_0000_0000 + n) == LengthBytes(n)
  {
    WholesCancel(lost * 0x100_0000, n, 0x100);
    WholesCancel(lost * 0x1_0000, n, 0x1_0000);
    WholesCancel(lost * 0x100, n, 0x100_0000);
    LowByte(lost * 0x100_0000, n);
    LowByte(lost * 0x1_0000, n / 0x100);
    LowByte(lost * 0x100, n / 0x1_0000);
    LowByte(lost, n / 0x100_0000);
  }

  lemma LowByte(k: nat, n: nat)
    ensures (k * 0x100 + n) % 0x100 == n % 0x100
  {
  }

  // ---------------------------------------------------------------- frames

  function Frame(m: Message): seq<byte> {
    LengthBytes(|m|) + m
  }

  function Encode(messages: seq<Message>): seq<byte> {
    if messages == [] then [] else Frame(messages[0]) + Encode(messages[1..])
  }

  /** The first frame of a stream and what follows it. */
  function Next(s: seq<byte>): (r: Result<(Message, seq<byte>), End>)
    ensures r.Success? ==> |r.value.1| < |s|
  {
    if |s| < 4 then Failure(Closed)
    else
      var n := LengthOf(s);
      if n == 0 || n > MAX_MESSAGE then Failure(LengthInvalid)
      else if |s| < 4 + n then Failure(ReadFailed)
      else Success((s[4..4 + n], s[4 + n..]))
  }

  function Decode(s: seq<byte>): Decoded
    decreases |s|
  {
    match Next(s)
    case Failure(end) => Decoded([], end, s)
    case Success((m, tail)) =>
      var d := Decode(tail);
      Decoded([m] + d.messages, d.end, d.rest)
  }

  function Read(s: seq<byte>): Stream {
    if |s| < |PREFACE| then PrefaceReadFailed
    else if s[..|PREFACE|] != PREFACE then PrefaceInvalid
    else Frames(Decode(s[|PREFACE|..]))
  }

  /** What the Core's writer puts on the stream: it stops at the first message it refuses. */
  function CoreSends(messages: seq<Message>): (r: seq<Message>)
    ensures AllSendable(r)
  {
    if messages == [] || !Sendable(messages[0]) then [] else [messages[0]] + CoreSends(messages[1..])
  }

  /** What the phone's writer puts on the stream: it skips what is too long, and sends what is empty. */
  function PhoneSends(messages: seq<Message>): (r: seq<Message>)
    ensures NoneTooLong(r) && ([] in r <==> [] in messages)
  {
    if messages == [] then []
    else if |messages[0]| > MAX_MESSAGE then PhoneSends(messages[1..])
    else [messages[0]] + PhoneSends(messages[1..])
  }

  /** What a failed read leaves on the stream: all that was asked for and there has been taken off. */
  function AfterFailure(s: seq<byte>, end: End): seq<byte> {
    match end
    case Closed => []
    case LengthInvalid => if |s| < 4 then [] else s[4..]
    case ReadFailed => []
  }

  class Incoming {
    var bytes: seq<byte>

    constructor (bytes: seq<byte>)
      ensures this.bytes == bytes
    {
      this.bytes := bytes;
    }

    /** Takes n bytes off the stream, or, if there are fewer, all of them. */
    method ReadExact(n: nat) returns (r: Option<seq<byte>>)
      modifies this
      ensures if |old(bytes)| < n then r == None && bytes == []
              else r == Some(old(bytes)[..n]) && bytes == old(bytes)[n..]
    {
      if |bytes| < n {
        bytes := [];
        return None;
      }
      r := Some(bytes[..n]);
      bytes := bytes[n..];
    }

    /** One frame is taken off the stream; a failed read takes off what it got. */
    method ReadControlFrame() returns (r: Result<Message, End>)
      modifies this
      ensures match Next(old(bytes))
              case Success((m, tail)) => r == Success(m) && bytes == tail
              case Failure(end) => r == Failure(end) && bytes == AfterFailure(old(bytes), end)
    {
      ghost var whole := bytes;
      var prefix := ReadExact(4);
      if prefix.None? {
        return Failure(Closed);
      }
      var length := LengthOf(prefix.value);
      if length == 0 || length > MAX_MESSAGE {
        return Failure(LengthInvalid);
      }
      var payload := ReadExact(length);
      if payload.None? {
        return Failure(ReadFailed);
      }
      assert whole[4..][..length] == whole[4..4 + length] && whole[4..][length..] == whole[4 + length..];
      r := Success(payload.value);
    }

    /** The control loop, with the frames it hands on and the bytes at which the last read failed. */
    method HandleControlStream() returns (stream: Stream)
      modifies this
      ensures stream == Read(old(bytes))
      ensures match stream
              case PrefaceReadFailed => bytes == []
              case PrefaceInvalid => bytes == old(bytes)[|PREFACE|..]
              case Frames(decoded) => bytes == AfterFailure(decoded.rest, decoded.end)
    {
      var preface := ReadExact(|PREFACE|);
      if preface.None? {
        return PrefaceReadFailed;
      }
      if preface.value != PREFACE {
        return PrefaceInvalid;
      }
      var messages: seq<Message> := [];
      var whole, unread := bytes, bytes;
      var frame := ReadControlFrame();
      while frame.Success?
        invariant match frame
                  case Success(m) =>
                    Decode(whole)
                        == Decoded(messages + [m] + Decode(bytes).messages, Decode(bytes).end, Decode(bytes).rest)
                  case Failure(end) =>
                    Decode(whole) == Decoded(messages, end, unread) && bytes == AfterFailure(unread, end)
        decreases frame.Success?, |bytes|
      {
        messages := messages + [frame.value];
        unread := bytes;
        frame := ReadControlFrame();
      }
      stream := Frames(Decoded(messages, frame.error, unread));
    }
  }

  class Outgoing {
    var bytes: seq<byte>

    constructor ()
      ensures bytes == []
    {
      bytes := [];
    }

    method WriteControlFrame(m: Message) returns (ok: bool)
      modifies this
      ensures ok == Sendable(m)
      ensures bytes == if Sendable(m) then old(bytes) + Frame(m) else old(bytes)
    {
      if |m| == 0 || |m| > MAX_MESSAGE {
        return false;
      }
      bytes := bytes + LengthBytes(|m|);
      bytes := bytes + m;
      ok := true;
    }

    method CoreWriter(messages: seq<Message>)
      modifies this
      ensures bytes == old(bytes) + Encode(CoreSends(messages))
    {
      hide Frame, CoreSends, Encode;
      NothingToSend();
      var i := 0;
      while i < |messages|
        invariant 0 <= i <= |messages|
        invariant old(bytes) + Encode(CoreSends(messages)) == bytes + Encode(CoreSends(messages[i..]))
      {
        CoreSendsNext(messages[i..]);
        assert messages[i..][1..] == messages[i + 1..];
        var ok := WriteControlFrame(messages[i]);
        if !ok {
          return;
        }
        i := i + 1;
      }
      assert messages[i..] == [];
    }

    method PhoneWriter(messages: seq<Message>)
      modifies this
      ensures bytes == old(bytes) + Encode(PhoneSends(messages))
    {
      hide PhoneSends, Encode;
      NothingToSend();
      var i := 0;
      while i < |messages|
        invariant 0 <= i <= |messages|
        invariant old(bytes) + Encode(PhoneSends(messages)) == bytes + Encode(PhoneSends(messages[i..]))
      {
        PhoneSendsNext(messages[i..]);
        assert messages[i..][1..] == messages[i + 1..];
        if |messages[i]| <= MAX_MESSAGE {
          bytes := bytes + LengthBytes(|messages[i]|);
          bytes := bytes + messages[i];
        }
        i := i + 1;
      }
      assert messages[i..] == [];
    }
  }

  lemma NothingToSend()
    ensures Encode(CoreSends([])) == [] && Encode(PhoneSends([])) == []
  {
  }

  lemma CoreSendsNext(messages: seq<Message>)
    requires messages != []
    ensures Encode(CoreSends(messages)) ==
              if Sendable(messages[0]) then Frame(messages[0]) + Encode(CoreSends(messages[1..])) else []
  {
    hide Frame;
    assert ([messages[0]] + CoreSends(messages[1..]))[1..] == CoreSends(messages[1..]);
  }

  lemma PhoneSendsNext(messages: seq<Message>)
    requires messages != []
    ensures Encode(PhoneSends(messages)) ==
              (if |messages[0]| <= MAX_MESSAGE then Frame(messages[0]) else []) + Encode(PhoneSends(messages[1..]))
  {
    assert ([messages[0]] + PhoneSends(messages[1..]))[1..] == PhoneSends(messages[1..]);
  }

  // ---------------------------------------------------------------- decoding what was encoded

  lemma NextOfFrame(m: Message, tail: seq<byte>)
    requires |m| <= MAX_MESSAGE
    ensures Next(Frame(m) + tail) == if m == [] then Failure(LengthInvalid) else Success((m, tail))
  {
    hide LengthOf, LengthBytes;
    LengthWrittenThenRead(|m|, m + tail);
    assert Frame(m) + tail == LengthBytes(|m|) + (m + tail);
  }

  lemma DecodeFrame(m: Message, tail: seq<byte>)
    requires Sendable(m)
    ensures Decode(Frame(m) + tail) == Decoded([m] + Decode(tail).messages, Decode(tail).end, Decode(tail).rest)
  {
    hide Next, Frame;
    NextOfFrame(m, tail);
  }

  /** Sendable messages in front of any stream are read first, unchanged. */
  lemma {:induction false} DecodeAppend(messages: seq<Message>, tail: seq<byte>)
    requires AllSendable(messages)
    ensures var d := Decode(tail);
            Decode(Encode(messages) + tail) == Decoded(messages + d.messages, d.end, d.rest)
  {
    hide Decode, Frame, Sendable;
    var d := Decode(tail);
    if messages == [] {
      assert Encode(messages) + tail == tail;
      assert messages + d.messages == d.messages;
    } else {
      var further := Encode(messages[1..]) + tail;
      assert Encode(messages) + tail == Frame(messages[0]) + further;
      DecodeFrame(messages[0], further);
      DecodeAppend(messages[1..], tail);
      assert [messages[0]] + (messages[1..] + d.messages) == messages + d.messages;
    }
  }

  /** Reading back gives exactly the messages, with nothing left over. */
  lemma RoundTrip(messages: seq<Message>)
    requires AllSendable(messages)
    ensures Read([65, 67, 81, 49, 1] + Encode(messages)) == Frames(Decoded(messages, Closed, []))
  {
    hide Encode;
    DecodeAppend(messages, []);
    assert Encode(messages) + [] == Encode(messages);
    assert (PREFACE + Encode(messages))[|PREFACE|..] == Encode(messages);
  }

  /** Frames are read exactly after the five bytes of the preface, "ACQ1" and 1. */
  lemma PrefaceIff(s: seq<byte>)
    ensures Read(s) ==
              if |s| < 5 then PrefaceReadFailed
              else if [s[0], s[1], s[2], s[3], s[4]] == [65, 67, 81, 49, 1] then Frames(Decode(s[5..]))
              else PrefaceInvalid
  {
    assert |s| >= 5 ==> s[..5] == [s[0], s[1], s[2], s[3], s[4]];
  }

  /** A failed read keeps at most the four bytes of a refused length, and otherwise everything that was there. */
  lemma FailureTakes(s: seq<byte>)
    requires Next(s).Failure?
    ensures AfterFailure(s, Next(s).error) == if |s| >= 4 && !(1 <= LengthOf(s) <= 4_194_304) then s[4..] else []
  {
  }

  /** A frame that was read is what a writer would have written. */
  lemma FrameOfNext(s: seq<byte>)
    requires Next(s).Success?
    ensures Sendable(Next(s).value.0) && s == Frame(Next(s).value.0) + Next(s).value.1
  {
    hide LengthOf, LengthBytes;
    LengthReadThenWritten(s);
  }

  /** Every stream is its decoded messages, encoded again, and a rest at which no frame can be read. */
  lemma {:induction false} EncodeDecoded(s: seq<byte>)
    ensures var d := Decode(s);
            && AllSendable(d.messages)
            && Encode(d.messages) + d.rest == s
            && Next(d.rest) == Failure(d.end)
    decreases |s|
  {
    hide Next, Frame, Sendable;
    if Next(s).Success? {
      var m, tail := Next(s).value.0, Next(s).value.1;
      EncodeDecoded(tail);
      FrameOfNext(s);
      var d := Decode(tail);
      assert ([m] + d.messages)[1..] == d.messages;
      assert Frame(m) + Encode(d.messages) + d.rest == Frame(m) + (Encode(d.messages) + d.rest);
    }
  }

  lemma NextOfPartialFrame(m: Message, t: nat)
    requires Sendable(m) && t < |Frame(m)|
    ensures Next(Frame(m)[..t]) == Failure(if t < 4 then Closed else ReadFailed)
  {
    hide LengthOf, LengthBytes;
    if t >= 4 {
      LengthWrittenThenRead(|m|, m[..t - 4]);
      assert Frame(m)[..t] == LengthBytes(|m|) + m[..t - 4];
    }
  }

  /** A stream cut anywhere yields the messages that fit whole, and never looks malformed. */
  lemma {:induction false} Truncated(messages: seq<Message>, t: nat)
    requires AllSendable(messages) && t <= |Encode(messages)|
    ensures var d := Decode(Encode(messages)[..t]);
            && d.end != LengthInvalid
            && IsPrefix(d.messages, messages)
            && |Encode(d.messages)| + |d.rest| == t
            && (|d.messages| < |messages| ==> |d.rest| < |Frame(messages[|d.messages|])|)
  {
    hide Next, Frame;
    var s := Encode(messages);
    if messages == [] {
      NextOfNothing();
    } else if t < |Frame(messages[0])| {
      assert s[..t] == Frame(messages[0])[..t];
      NextOfPartialFrame(messages[0], t);
    } else {
      var first := Frame(messages[0]);
      var cut := Encode(messages[1..])[..t - |first|];
      Truncated(messages[1..], t - |first|);
      assert s[..t] == first + cut;
      NextOfFrame(messages[0], cut);
      assert ([messages[0]] + Decode(cut).messages)[1..] == Decode(cut).messages;
    }
  }

  // ---------------------------------------------------------------- the two writers

  function UpToEmpty(messages: seq<Message>): seq<Message> {
    if messages == [] || messages[0] == [] then [] else [messages[0]] + UpToEmpty(messages[1..])
  }

  /** The phone's stream is read up to its first empty message, at which the Core gives up. */
  lemma {:induction false} PhoneStreamDecoded(sent: seq<Message>)
    requires NoneTooLong(sent)
    ensures Decode(Encode(sent)).messages == UpToEmpty(sent)
    ensures Decode(Encode(sent)).end == if [] in sent then LengthInvalid else Closed
  {
    hide Next, Frame;
    if sent == [] {
      assert Next([]) == Failure(Closed) by { NextOfNothing(); }
    } else {
      NextOfFrame(sent[0], Encode(sent[1..]));
      if sent[0] != [] {
        PhoneStreamDecoded(sent[1..]);
      }
    }
  }

  lemma NextOfNothing()
    ensures Next([]) == Failure(Closed)
  {
  }

  lemma {:induction false} UpToEmptyIsAll(sent: seq<Message>)
    ensures UpToEmpty(sent) == sent <==> [] !in sent
  {
    if sent != [] && sent[0] != [] {
      UpToEmptyIsAll(sent[1..]);
      assert ([sent[0]] + UpToEmpty(sent[1..]))[1..] == UpToEmpty(sent[1..]);
    }
  }

  /**
   * The Core receives everything the phone sends exactly when the phone never sends an empty message; the
   * phone drops what is too long, but not what the Core refuses to read.
   */
  lemma PhoneToCore(messages: seq<Message>)
    ensures var received := Read(PREFACE + Encode(PhoneSends(messages)));
            && received.Frames?
            && (received.decoded.messages == PhoneSends(messages) <==> [] !in messages)
            && (received.decoded.end == Closed <==> [] !in messages)
  {
    hide Decode, Encode;
    var sent := PhoneSends(messages);
    PhoneStreamDecoded(sent);
    UpToEmptyIsAll(sent);
    assert (PREFACE + Encode(sent))[|PREFACE|..] == Encode(sent);
  }

  /** The phone's reader, the same loop, receives exactly what the Core's writer sent. */
  lemma CoreToPhone(messages: seq<Message>)
    ensures Decode(Encode(CoreSends(messages))) == Decoded(CoreSends(messages), Closed, [])
    ensures CoreSends(messages) == messages <==> AllSendable(messages)
  {
    hide Encode;
    DecodeAppend(CoreSends(messages), []);
    assert Encode(CoreSends(messages)) + [] == Encode(CoreSends(messages));
    CoreSendsAll(messages);
  }

  lemma {:induction false} CoreSendsAll(messages: seq<Message>)
    ensures CoreSends(messages) == messages <==> AllSendable(messages)
  {
    if messages != [] && Sendable(messages[0]) {
      CoreSendsAll(messages[1..]);
      assert ([messages[0]] + CoreSends(messages[1..]))[1..] == CoreSends(messages[1..]);
    }
  }

  // ---------------------------------------------------------------- heartbeats during a read

  function Flatten(segments: seq<seq<byte>>): seq<byte> {
    if segments == [] then [] else segments[0] + Flatten(segments[1..])
  }

  /**
   * What the Core's control loop hands on when a heartbeat interrupts its reading after each segment but
   * the last: the bytes of an unfinished frame were taken off the stream and are dropped with the read.
   */
  function Interrupted(segments: seq<seq<byte>>): seq<Message> {
    if segments == [] then []
    else
      var d := Decode(segments[0]);
      if d.end == LengthInvalid then d.messages else d.messages + Interrupted(segments[1..])
  }

  lemma {:induction false} EncodeAppend(a: seq<Message>, b: seq<Message>)
    ensures Encode(a + b) == Encode(a) + Encode(b)
  {
    hide Frame;
    if a == [] {
      assert a + b == b;
    } else {
      EncodeAppend(a[1..], b);
      assert (a + b)[1..] == a[1..] + b;
      assert Frame(a[0]) + (Encode(a[1..]) + Encode(b)) == Frame(a[0]) + Encode(a[1..]) + Encode(b);
    }
  }

  ghost predicate AtFrameBoundaries(segments: seq<seq<byte>>) {
    forall i | 0 <= i < |segments| :: Decode(segments[i]).rest == []
  }

  /** Every byte of an unfinished frame is missing from what is handed on. */
  lemma {:induction false} InterruptedLength(segments: seq<seq<byte>>)
    ensures AllSendable(Interrupted(segments))
    ensures |Encode(Interrupted(segments))| <= |Flatten(segments)|
    ensures |Encode(Interrupted(segments))| == |Flatten(segments)| ==> AtFrameBoundaries(segments)
    ensures AtFrameBoundaries(segments) ==> Encode(Interrupted(segments)) == Flatten(segments)
  {
    hide Decode, Frame, Encode, Next, Sendable;
    if segments == [] {
      NothingToSend();
    } else {
      var d := Decode(segments[0]);
      EncodeDecoded(segments[0]);
      NextOfNothing();
      InterruptedLength(segments[1..]);
      EncodeAppend(d.messages, Interrupted(segments[1..]));
      assert forall i | 1 <= i < |segments| :: segments[i] == segments[1..][i - 1];
      assert forall i | 0 <= i < |segments| - 1 :: segments[1..][i] == segments[i + 1];
      assert Encode(d.messages) + [] == Encode(d.messages);
    }
  }

  /** A refused length ends the loop: whatever would come after it is not read. */
  lemma InterruptedStops(first: seq<byte>, more: seq<seq<byte>>)
    ensures Interrupted([first] + more)
            == Decode(first).messages + if Decode(first).end.LengthInvalid? then [] else Interrupted(more)
  {
    hide Decode;
    assert ([first] + more)[1..] == more;
    assert Decode(first).messages + [] == Decode(first).messages;
  }

  /**
   * The messages come through unchanged exactly when every heartbeat fires between two frames; one that
   * fires inside a frame loses the bytes already read.
   */
  lemma HeartbeatsKeepFraming(messages: seq<Message>, segments: seq<seq<byte>>)
    requires AllSendable(messages) && Flatten(segments) == Encode(messages)
    ensures Interrupted(segments) == messages <==> AtFrameBoundaries(segments)
  {
    hide AtFrameBoundaries, Flatten, Interrupted, Encode;
    InterruptedLength(segments);
    RoundTrip(messages);
    RoundTrip(Interrupted(segments));
  }
}
