/**
 * One end of a node connection: the states of the handshake and of the established connection, as
 * functions on values. `Connection.NodeConnection` is the object whose methods compute them.
 */
module Endpoint {
  import opened ByteCodec
  import opened Lexer
  import opened WriteQueue
  import opened HandshakeFrames

  /** What a node brings to a connection. */
  datatype Identity = Identity(name: Bytes, cookie: Bytes, challenge: uint32)

  type Hash = Bytes -> Bytes

  /** A number as text, as `lexical_cast` writes it. */
  function Decimal(n: nat): Bytes {
    if n < 10 then [48 + n] else Decimal(n / 10) + [48 + n % 10]
  }

  /** The number a text of decimal digits stands for. */
  function NumberOf(text: Bytes): int {
    if text == [] then 0 else 10 * NumberOf(text[..|text| - 1]) + (text[|text| - 1] as int - 48)
  }

  /** It is the decimal text: digits only, no leading zero but for 0 itself, most significant digit first. */
  lemma {:induction false} DecimalIsText(n: nat)
    ensures Decimal(n) != [] && NumberOf(Decimal(n)) == n
    ensures forall i | 0 <= i < |Decimal(n)| :: 48 <= Decimal(n)[i] <= 57
    ensures n > 0 ==> Decimal(n)[0] != 48
  {
    if n >= 10 {
      DecimalIsText(n / 10);
      var d, last := Decimal(n / 10), (48 + n % 10) as byte;
      assert Decimal(n) == d + [last] && (d + [last])[..|d|] == d;
    } else {
      var text := Decimal(n);
      assert text[..0] == [];
    }
  }

  /** The digest of a challenge: the hash of the cookie followed by the challenge as text. */
  function Digest(hash: Hash, challenge: uint32, cookie: Bytes): Bytes {
    hash(cookie + Decimal(challenge))
  }

  datatype Phase =
    | ConnectedTcp
    | WaitingForStatus
    | ReceivingChallenge
    | SendingChallengeReply
    | ReceivingChallengeAck
    | SendingStatus
    | WaitingForChallengeReply
    | SendingChallengeAck
    | Up

  datatype WriteCallback = Ignore | HandshakeSent | ChallengeWritten | ReplySent | ChallengeAckWritten

  /**
   * `reading` says that a read is outstanding; its callback is the one of the current phase.
   * `received` is the lexer the next read feeds. `sent` and `handled` record the messages handed to
   * and taken from an established connection, and `outcome` the handshake signal.
   */
  datatype Endpoint = Endpoint(
    phase: Phase,
    reading: bool,
    received: Header,
    handshakeMsgs: Lexed,
    connectedMsgs: Lexed,
    writer: Writer<WriteCallback>,
    peerName: Option<Bytes>,
    outcome: Option<bool>,
    sent: seq<Bytes>,
    handled: seq<Bytes>)

  function Fresh(): Endpoint {
    Endpoint(ConnectedTcp, false, Handshake, Lexed([], []), Lexed([], []), EmptyWriter(), None, None, [], [])
  }

  function Write(e: Endpoint, msg: Bytes, callback: WriteCallback): Endpoint {
    e.(writer := Trigger(e.writer, msg, callback))
  }

  function StartAsA(self: Identity): Endpoint {
    Write(Fresh(), NameFrame(self.name), HandshakeSent)
  }

  function StartAsB(): Endpoint {
    Fresh().(reading := true)
  }

  function ReportFailure(e: Endpoint): Endpoint {
    e.(phase := ConnectedTcp, outcome := Some(false))
  }

  function MakeTransitionToConnected(e: Endpoint): Endpoint {
    e.(phase := Up, received := Connected, outcome := Some(true), reading := true)
  }

  // ---------- Read callbacks, on a handshake message already taken from the lexer ----------
  // An exception from a parser leaves the state in place with no read outstanding.

  function NameRead(self: Identity, e: Endpoint, msg: Bytes): Endpoint {
    match ParseName(msg)
    case Fail => e
    case Ok(sentName, _) =>
      if SupportedVersion(sentName) then
        var e := e.(peerName := Some(sentName.name), phase := SendingStatus);
        var e := Write(e, StatusFrame(STATUS_OK), Ignore);
        Write(e, ChallengeFrame(self.challenge, self.name), ChallengeWritten)
      else ReportFailure(e)
  }

  function ChallengeRead(hash: Hash, self: Identity, e: Endpoint, msg: Bytes): Endpoint {
    match ParseChallenge(msg)
    case Fail => e
    case Ok(challenge, _) =>
      var e := e.(phase := SendingChallengeReply);
      Write(e, ReplyFrame(self.challenge, Digest(hash, challenge, self.cookie)), ReplySent)
  }

  /** A challenge that arrived together with the status is taken from the lexer at once. */
  function StatusRead(hash: Hash, self: Identity, e: Endpoint, msg: Bytes): Endpoint {
    match ParseStatus(msg)
    case Fail => e
    case Ok(status, _) =>
      if status == STATUS_OK || status == STATUS_OK_SIMULTANEOUS then
        var e := e.(phase := ReceivingChallenge);
        if e.handshakeMsgs.msgs != [] then
          ChallengeRead(hash, self, e.(handshakeMsgs := Lexed(e.handshakeMsgs.msgs[1..], e.handshakeMsgs.rest)),
                        e.handshakeMsgs.msgs[0])
        else e.(reading := true)
      else ReportFailure(e)
  }

  function ReplyReceived(hash: Hash, self: Identity, e: Endpoint, msg: Bytes): Endpoint {
    match ParseReply(msg)
    case Fail => e
    case Ok(reply, _) =>
      if reply.digest == Digest(hash, self.challenge, self.cookie) then
        var e := e.(phase := SendingChallengeAck);
        Write(e, AckFrame(Digest(hash, reply.challenge, self.cookie)), ChallengeAckWritten)
      else ReportFailure(e)
  }

  function ChallengeAckRead(hash: Hash, self: Identity, e: Endpoint, msg: Bytes): Endpoint {
    match ParseAck(msg)
    case Fail => e
    case Ok(digest, _) =>
      if digest == Digest(hash, self.challenge, self.cookie) then MakeTransitionToConnected(e) else e
  }

  const TICK: Bytes := [0, 0, 0, 0]

  /** Sending on a connection; before it is established the request is dropped. */
  function Send(e: Endpoint, msg: Bytes): Endpoint {
    if e.phase.Up? then Write(e.(sent := e.sent + [msg]), msg, Ignore) else e
  }

  /** A tick is answered; every other message goes to the dispatcher. One message per read. */
  function MsgReceived(e: Endpoint, msg: Bytes): Endpoint {
    var e := e.(handled := e.handled + [msg], reading := true);
    if msg == TICK then Send(e, TICK) else e
  }

  /** The handshake state's read callback, on the message it took from the lexer. */
  function HandshakeCallback(hash: Hash, self: Identity, e: Endpoint, msg: Bytes): Endpoint {
    match e.phase
    case ConnectedTcp => NameRead(self, e, msg)
    case WaitingForStatus => StatusRead(hash, self, e, msg)
    case ReceivingChallenge => ChallengeRead(hash, self, e, msg)
    case WaitingForChallengeReply => ReplyReceived(hash, self, e, msg)
    case ReceivingChallengeAck => ChallengeAckRead(hash, self, e, msg)
    case _ => e
  }

  /** The callback of the outstanding read; the current lexer holds at least one message. */
  function ReadCallback(hash: Hash, self: Identity, e: Endpoint): Endpoint
    requires CurrentMsgs(e).msgs != []
  {
    var l := CurrentMsgs(e);
    var msg := l.msgs[0];
    var l := Lexed(l.msgs[1..], l.rest);
    if e.received.Connected? then MsgReceived(e.(reading := false, connectedMsgs := l), msg)
    else HandshakeCallback(hash, self, e.(reading := false, handshakeMsgs := l), msg)
  }

  function AddBytes(h: Header, l: Lexed, chunk: Bytes): Lexed {
    var r := Lex(h, l.rest + chunk);
    Lexed(l.msgs + r.msgs, r.rest)
  }

  function Feed(e: Endpoint, chunk: Bytes): Endpoint {
    if e.received.Connected? then e.(connectedMsgs := AddBytes(Connected, e.connectedMsgs, chunk))
    else e.(handshakeMsgs := AddBytes(Handshake, e.handshakeMsgs, chunk))
  }

  function CurrentMsgs(e: Endpoint): Lexed {
    if e.received.Connected? then e.connectedMsgs else e.handshakeMsgs
  }

  /** `checked_read`: feed the lexer, then run the callback or read on. */
  function CheckedRead(hash: Hash, self: Identity, e: Endpoint, chunk: Bytes): Endpoint {
    var e := Feed(e, chunk);
    if CurrentMsgs(e).msgs != [] then ReadCallback(hash, self, e) else e
  }

  // ---------- Write callbacks ----------

  function WriteDone(e: Endpoint, callback: WriteCallback): Endpoint {
    match callback
    case Ignore => e
    case HandshakeSent => e.(phase := WaitingForStatus, reading := true)
    case ChallengeWritten => e.(phase := WaitingForChallengeReply, reading := true)
    case ReplySent => e.(phase := ReceivingChallengeAck, reading := true)
    case ChallengeAckWritten => MakeTransitionToConnected(e)
  }

  /** `checked_write` */
  function CheckedWrite(e: Endpoint): Endpoint
    requires e.writer.queue != []
  {
    WriteDone(e.(writer := Written(e.writer)), e.writer.queue[0].callback)
  }
}
