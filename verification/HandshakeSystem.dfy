/**
 * Two connections and the two byte channels between them, as one transition system: originator A,
 * acceptor B, any interleaving of socket transfers, completions and reads, any fragmentation.
 */
module HandshakeSystem {
  import opened ByteCodec
  import opened Lexer
  import opened WriteQueue
  import opened HandshakeFrames
  import opened Endpoint

  const READ_BUFFER_SIZE := 128

  datatype Setup = Setup(hash: Hash, a: Identity, b: Identity)

  /** The hash yields 16 bytes, and neither name overflows the 16-bit length field of its frame. */
  ghost predicate WellSetUp(c: Setup) {
    && (forall x :: |c.hash(x)| == DIGEST_LENGTH)
    && |c.a.name| <= 0x1_0000 - 8
    && |c.b.name| <= 0x1_0000 - 12
  }

  datatype System = System(a: Endpoint, b: Endpoint, ab: Bytes, ba: Bytes)

  function Initial(c: Setup): System {
    System(StartAsA(c.a), StartAsB(), [], [])
  }

  datatype Side = A | B

  datatype Action =
    | Transfer(side: Side, k: nat)      // the socket takes k bytes of the side's outstanding write
    | Completion(side: Side)            // the side's outstanding write has been taken whole
    | Arrival(side: Side, k: nat)       // the side's outstanding read returns k bytes
    | Request(side: Side, msg: Bytes)   // the application sends on the side's connection

  /** The end on one side. */
  function End(s: System, side: Side): Endpoint {
    if side == A then s.a else s.b
  }

  predicate CanTransfer(e: Endpoint, k: nat) {
    1 <= k && e.writer.inFlight.Some? && e.writer.sent + k <= |e.writer.inFlight.value|
  }

  predicate CanRead(e: Endpoint, incoming: Bytes, k: nat) {
    && e.reading && 1 <= k <= READ_BUFFER_SIZE && k <= |incoming|
    && !Diverges(e.received, CurrentMsgs(e).rest + incoming[..k])
  }

  predicate CanFinishWrite(e: Endpoint) {
    CanComplete(e.writer) && e.writer.queue != []
  }

  function Taken(e: Endpoint, k: nat): Bytes
    requires CanTransfer(e, k)
  {
    e.writer.inFlight.value[e.writer.sent..e.writer.sent + k]
  }

  function ArrivedAtA(c: Setup, s: System, k: nat): System
    requires k <= |s.ba|
  {
    s.(a := CheckedRead(c.hash, c.a, s.a, s.ba[..k]), ba := s.ba[k..])
  }

  function ArrivedAtB(c: Setup, s: System, k: nat): System
    requires k <= |s.ab|
  {
    s.(b := CheckedRead(c.hash, c.b, s.b, s.ab[..k]), ab := s.ab[k..])
  }

  /** The effect of an action; None when it cannot happen. */
  function Next(c: Setup, s: System, act: Action): Option<System> {
    match act
    case Transfer(A, k) =>
      if CanTransfer(s.a, k) then Some(s.(a := s.a.(writer := Transmit(s.a.writer, k)), ab := s.ab + Taken(s.a, k)))
      else None
    case Transfer(B, k) =>
      if CanTransfer(s.b, k) then Some(s.(b := s.b.(writer := Transmit(s.b.writer, k)), ba := s.ba + Taken(s.b, k)))
      else None
    case Completion(A) => if CanFinishWrite(s.a) then Some(s.(a := CheckedWrite(s.a))) else None
    case Completion(B) => if CanFinishWrite(s.b) then Some(s.(b := CheckedWrite(s.b))) else None
    case Arrival(A, k) =>
      if CanRead(s.a, s.ba, k) then Some(ArrivedAtA(c, s, k)) else None
    case Arrival(B, k) =>
      if CanRead(s.b, s.ab, k) then Some(ArrivedAtB(c, s, k)) else None
    case Request(A, msg) => Some(s.(a := Send(s.a, msg)))
    case Request(B, msg) => Some(s.(b := Send(s.b, msg)))
  }

  /** The state after a run, or None when some action of it cannot happen. */
  function Execute(c: Setup, run: seq<Action>): Option<System> {
    if run == [] then Some(Initial(c))
    else
      match Execute(c, run[..|run| - 1])
      case None => None
      case Some(s) => Next(c, s, run[|run| - 1])
  }

  // ---------- The five frames ----------

  function F1(c: Setup): Bytes { NameFrame(c.a.name) }

  function F2(): Bytes { StatusFrame(STATUS_OK) }

  function F3(c: Setup): Bytes { ChallengeFrame(c.b.challenge, c.b.name) }

  function F4(c: Setup): Bytes { ReplyFrame(c.a.challenge, Digest(c.hash, c.b.challenge, c.a.cookie)) }

  function F5(c: Setup): Bytes { AckFrame(Digest(c.hash, c.a.challenge, c.b.cookie)) }

  /** A's answer to B's challenge is the one B computes for itself. */
  predicate AgreeOnB(c: Setup) {
    Digest(c.hash, c.b.challenge, c.a.cookie) == Digest(c.hash, c.b.challenge, c.b.cookie)
  }

  /** B's answer to A's challenge is the one A computes for itself. */
  predicate AgreeOnA(c: Setup) {
    Digest(c.hash, c.a.challenge, c.b.cookie) == Digest(c.hash, c.a.challenge, c.a.cookie)
  }

  // ---------- How far an end has come ----------

  /** The length of the frame an end waits for. */
  function Awaited(c: Setup, e: Endpoint): nat {
    match e.phase
    case ConnectedTcp => |F1(c)|
    case WaitingForStatus => |F2()|
    case ReceivingChallenge => |F3(c)|
    case WaitingForChallengeReply => |F4(c)|
    case ReceivingChallengeAck => |F5(c)|
    case _ => 0
  }

  /** Phases still to go, for either role. */
  function Rank(p: Phase, isA: bool): nat {
    match p
    case ConnectedTcp => if isA then 5 else 4
    case WaitingForStatus => 4
    case ReceivingChallenge => 3
    case SendingChallengeReply => 2
    case ReceivingChallengeAck => 1
    case SendingStatus => 3
    case WaitingForChallengeReply => 2
    case SendingChallengeAck => 1
    case Up => 0
  }

  /** A handshake read gets closer to the end of the awaited frame, reaches a later phase, or gives up. */
  predicate ReadOutcome(c: Setup, isA: bool, e: Endpoint, chunk: Bytes, e': Endpoint) {
    || (&& e' == e.(handshakeMsgs := Lexed([], e.handshakeMsgs.rest + chunk))
        && |e.handshakeMsgs.rest| + |chunk| < Awaited(c, e))
    || Rank(e'.phase, isA) < Rank(e.phase, isA)
    || (!e'.reading && (e'.phase == e.phase || (!isA && e'.phase.ConnectedTcp?)))
  }

  // ---------- The invariant ----------

  predicate Early(a: Endpoint) { a.phase.ConnectedTcp? || a.phase.WaitingForStatus? }

  predicate Replied(a: Endpoint) { a.phase.SendingChallengeReply? || a.phase.ReceivingChallengeAck? }

  predicate Greeted(b: Endpoint) { b.phase.SendingStatus? || b.phase.WaitingForChallengeReply? }

  predicate Accepted(b: Endpoint) { b.phase.SendingChallengeAck? || b.phase.Up? }

  ghost predicate OnlyIgnore(w: Writer<WriteCallback>) {
    forall i | 0 <= i < |w.queue| :: w.queue[i].callback == Ignore
  }

  /** The local state of A in each phase. */
  ghost predicate LocalA(c: Setup, a: Endpoint) {
    && OneInFlight(a.writer)
    && (a.received.Connected? <==> a.phase.Up?)
    && (!a.phase.Up? ==> a.sent == [])
    && (!a.phase.Up? && a.reading ==> |a.handshakeMsgs.rest| < Awaited(c, a))
    && (!a.phase.Up? && (a.phase.ReceivingChallengeAck? ==> a.reading) ==> a.handshakeMsgs.msgs == [])
    && match a.phase
       case ConnectedTcp => !a.reading && a.writer.queue == [Entry(F1(c), HandshakeSent)] && a.handshakeMsgs.rest == []
       case WaitingForStatus => a.reading && a.writer.queue == []
       case ReceivingChallenge => a.writer.queue == []
       case SendingChallengeReply =>
         !a.reading && a.writer.queue == [Entry(F4(c), ReplySent)] && a.handshakeMsgs.rest == []
       case ReceivingChallengeAck => a.writer.queue == []
       case Up => a.reading && OnlyIgnore(a.writer)
       case _ => false
  }

  /** The local state of B in each phase. */
  ghost predicate LocalB(c: Setup, b: Endpoint) {
    && OneInFlight(b.writer)
    && (b.received.Connected? <==> b.phase.Up?)
    && b.handshakeMsgs.msgs == []
    && (!b.phase.Up? && b.reading ==> |b.handshakeMsgs.rest| < Awaited(c, b))
    && (!b.phase.Up? ==> b.sent == [] && b.handled == [] && b.connectedMsgs == Lexed([], []))
    && match b.phase
       case ConnectedTcp => b.writer.queue == []
       case SendingStatus =>
         && !b.reading && b.handshakeMsgs.rest == []
         && (|| b.writer.queue == [Entry(F2(), Ignore), Entry(F3(c), ChallengeWritten)]
             || b.writer.queue == [Entry(F3(c), ChallengeWritten)])
       case WaitingForChallengeReply => b.reading && b.writer.queue == []
       case SendingChallengeAck =>
         !b.reading && b.handshakeMsgs.rest == [] && b.writer.queue == [Entry(F5(c), ChallengeAckWritten)]
       case Up =>
         b.reading && b.handshakeMsgs.rest == [] && OnlyIgnore(b.writer) && |Unsent(b.writer)| <= |Concat(b.sent)|
       case _ => false
  }

  /** Which phases the two ends can be in together, and what that says about the digests. */
  ghost predicate Phases(c: Setup, a: Endpoint, b: Endpoint) {
    && (b.phase.ConnectedTcp? ==>
          if b.reading then Early(a) else (Early(a) && c.a.name == []) || (Replied(a) && !AgreeOnB(c)))
    && (Greeted(b) ==> !a.phase.Up?)
    && (Accepted(b) ==> (Replied(a) || a.phase.Up?) && AgreeOnB(c))
    && (a.phase.ReceivingChallenge? ==> Greeted(b) && (a.reading || c.b.name == []))
    && (a.phase.ReceivingChallengeAck? && !a.reading ==> Accepted(b) && !AgreeOnA(c))
    && (a.phase.Up? ==> Accepted(b) && AgreeOnA(c))
    && (Greeted(b) || Accepted(b) ==> c.a.name != [])
    && (Replied(a) || a.phase.Up? ==> c.b.name != [])
  }

  /** The handshake bytes on their way to B: in its lexer, in the channel, and not yet taken from A. */
  ghost function ToB(s: System): Bytes
    requires OneInFlight(s.a.writer)
  {
    s.b.handshakeMsgs.rest + s.ab + Unsent(s.a.writer)
  }

  ghost function ToA(s: System): Bytes
    requires OneInFlight(s.b.writer)
  {
    s.a.handshakeMsgs.rest + s.ba + Unsent(s.b.writer)
  }

  /** Everything on its way from A to B once B accepts, and everything B's connected side has got. */
  ghost function FromA(s: System): Bytes
    requires OneInFlight(s.a.writer)
  {
    Concat(s.b.handled) + Concat(s.b.connectedMsgs.msgs) + s.b.connectedMsgs.rest + s.ab + Unsent(s.a.writer)
  }

  ghost predicate PipeToB(c: Setup, s: System)
    requires OneInFlight(s.a.writer)
  {
    && (s.b.phase.ConnectedTcp? && s.b.reading ==> ToB(s) == F1(c))
    && (Greeted(s.b) ==> ToB(s) == if Replied(s.a) then F4(c) else [])
    && (Accepted(s.b) ==> FromA(s) == Concat(s.a.sent))
  }

  ghost predicate PipeToA(c: Setup, s: System)
    requires OneInFlight(s.b.writer)
  {
    && (Early(s.a) ==> ToA(s) == if Greeted(s.b) then F2() + F3(c) else [])
    && (s.a.phase.ReceivingChallenge? ==> ToA(s) == if s.a.reading then F3(c) else [])
    && (s.a.phase.SendingChallengeReply? || (s.a.phase.ReceivingChallengeAck? && s.a.reading) ==>
          ToA(s) == if Accepted(s.b) then F5(c) + Concat(s.b.sent) else [])
    && (s.a.phase.Up? && s.b.phase.SendingChallengeAck? ==> Unsent(s.b.writer) == [])
  }

  ghost predicate Invariant(c: Setup, s: System) {
    && LocalA(c, s.a)
    && LocalB(c, s.b)
    && Phases(c, s.a, s.b)
    && PipeToB(c, s)
    && PipeToA(c, s)
  }

  lemma FramesNonEmpty(c: Setup)
    ensures |F1(c)| > 0 && |F2()| > 0 && |F3(c)| > 0 && |F4(c)| > 0 && |F5(c)| > 0
  {
    hide Digest;
  }

  lemma InitialInvariant(c: Setup)
    ensures Invariant(c, Initial(c))
  {
    hide NameFrame;
    var s := Initial(c);
    FramesNonEmpty(c);
    TriggerUnsent(EmptyWriter<WriteCallback>(), F1(c), HandshakeSent);
    assert ToB(s) == F1(c);
    assert s.a.writer.queue == [Entry(F1(c), HandshakeSent)];
  }
}
