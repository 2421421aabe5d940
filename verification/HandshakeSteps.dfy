/** Every action of the handshake system keeps its invariant. */
module HandshakeSteps {
  import opened ByteCodec
  import opened Lexer
  import opened WriteQueue
  import opened HandshakeFrames
  import opened Endpoint
  import opened HandshakeSystem

  // ---------- Transfers ----------

  lemma TransferFlowsA(c: Setup, s: System, k: nat)
    requires OneInFlight(s.a.writer) && CanTransfer(s.a, k)
    ensures var s' := Next(c, s, Transfer(A, k)).value;
            OneInFlight(s'.a.writer) && ToB(s') == ToB(s) && FromA(s') == FromA(s)
  {
    hide Unsent, Concat;
    var s' := Next(c, s, Transfer(A, k)).value;
    TransmitUnsent(s.a.writer, k);
    Handover(s.ab, Unsent(s.a.writer), k);
    Assoc2(s.b.handshakeMsgs.rest, s.ab, Unsent(s.a.writer));
    Assoc2(s.b.handshakeMsgs.rest, s'.ab, Unsent(s'.a.writer));
    var got := Concat(s.b.handled) + Concat(s.b.connectedMsgs.msgs) + s.b.connectedMsgs.rest;
    Assoc2(got, s.ab, Unsent(s.a.writer));
    Assoc2(got, s'.ab, Unsent(s'.a.writer));
  }

  lemma TransferA(c: Setup, s: System, k: nat)
    requires Invariant(c, s) && CanTransfer(s.a, k)
    ensures Invariant(c, Next(c, s, Transfer(A, k)).value)
  {
    hide Unsent, F1, F2, F3, F4, F5, AgreeOnA, AgreeOnB, Concat, Messages, ToB, FromA, ToA, Phases, LocalB;
    TransferFlowsA(c, s, k);
    BInFlight(c, s);
    PhasesIgnoreWriters(c, s.a, s.b, Transmit(s.a.writer, k), s.b.writer);
    assert ToA(Next(c, s, Transfer(A, k)).value) == ToA(s) by { SameToA(s, Next(c, s, Transfer(A, k)).value); }
  }

  lemma SameToA(s: System, s': System)
    requires OneInFlight(s.b.writer) && s'.b == s.b && s'.ba == s.ba && s'.a.handshakeMsgs == s.a.handshakeMsgs
    ensures ToA(s') == ToA(s)
  {
  }

  lemma SameToB(s: System, s': System)
    requires OneInFlight(s.a.writer) && s'.a == s.a && s'.ab == s.ab && s'.b.handshakeMsgs == s.b.handshakeMsgs
    requires s'.b.handled == s.b.handled && s'.b.connectedMsgs == s.b.connectedMsgs
    ensures ToB(s') == ToB(s) && FromA(s') == FromA(s)
  {
  }

  lemma PhasesIgnoreWriters(c: Setup, a: Endpoint, b: Endpoint, v: Writer<WriteCallback>, w: Writer<WriteCallback>)
    requires Phases(c, a, b)
    ensures Phases(c, a.(writer := v), b.(writer := w))
  {
  }

  lemma TransferB(c: Setup, s: System, k: nat)
    requires Invariant(c, s) && CanTransfer(s.b, k)
    ensures Invariant(c, Next(c, s, Transfer(B, k)).value)
  {
    hide Unsent, F1, F2, F3, F4, F5, AgreeOnA, AgreeOnB, Concat, Messages, ToB, FromA, Phases, LocalA;
    var s' := Next(c, s, Transfer(B, k)).value;
    AInFlight(c, s);
    TransmitUnsent(s.b.writer, k);
    Handover(s.ba, Unsent(s.b.writer), k);
    assert ToA(s') == ToA(s) by {
      Assoc2(s.a.handshakeMsgs.rest, s.ba, Unsent(s.b.writer));
      Assoc2(s.a.handshakeMsgs.rest, s'.ba, Unsent(s'.b.writer));
    }
    PhasesIgnoreWriters(c, s.a, s.b, s.a.writer, Transmit(s.b.writer, k));
    SameToB(s, s');
  }

  lemma Handover(channel: Bytes, unsent: Bytes, k: nat)
    requires k <= |unsent|
    ensures (channel + unsent[..k]) + unsent[k..] == channel + unsent
  {
  }

  // ---------- Completions ----------

  lemma SameUnsentToB(s: System, s': System)
    requires OneInFlight(s.a.writer) && OneInFlight(s'.a.writer) && Unsent(s'.a.writer) == Unsent(s.a.writer)
    requires s'.b == s.b && s'.ab == s.ab
    ensures ToB(s') == ToB(s) && FromA(s') == FromA(s)
  {
  }

  lemma SameUnsentToA(s: System, s': System)
    requires OneInFlight(s.b.writer) && OneInFlight(s'.b.writer) && Unsent(s'.b.writer) == Unsent(s.b.writer)
    requires s'.a == s.a && s'.ba == s.ba
    ensures ToA(s') == ToA(s)
  {
  }

  lemma CompletionA(c: Setup, s: System)
    requires Invariant(c, s) && CanFinishWrite(s.a)
    ensures Invariant(c, Next(c, s, Completion(A)).value)
  {
    hide Unsent, F1, F2, F3, F4, F5, AgreeOnA, AgreeOnB, Concat, LocalB, ToA, ToB, FromA, Messages;
    var s' := Next(c, s, Completion(A)).value;
    FramesNonEmpty(c);
    WrittenUnsent(s.a.writer);
    BInFlight(c, s);
    SameUnsentToB(s, s');
    SameToA(s, s');
  }

  lemma AInFlight(c: Setup, s: System)
    requires LocalA(c, s.a)
    ensures OneInFlight(s.a.writer)
  {
  }

  lemma BInFlight(c: Setup, s: System)
    requires LocalB(c, s.b)
    ensures OneInFlight(s.b.writer)
  {
  }

  lemma CompletionB(c: Setup, s: System)
    requires Invariant(c, s) && CanFinishWrite(s.b)
    ensures Invariant(c, Next(c, s, Completion(B)).value)
  {
    hide Invariant, Next;
    if s.b.phase.Up? {
      CompletionBUp(c, s);
    } else if s.b.phase.SendingChallengeAck? {
      CompletionBAck(c, s);
    } else {
      CompletionBStatus(c, s);
    }
  }

  lemma CompletionBUp(c: Setup, s: System)
    requires Invariant(c, s) && CanFinishWrite(s.b) && s.b.phase.Up?
    ensures Invariant(c, Next(c, s, Completion(B)).value)
  {
    hide Unsent, F1, F2, F3, F4, F5, AgreeOnA, AgreeOnB, Concat, LocalA, ToA, ToB, FromA, Messages;
    var s' := Next(c, s, Completion(B)).value;
    FramesNonEmpty(c);
    WrittenUnsent(s.b.writer);
    AInFlight(c, s);
    SameUnsentToA(s, s');
    SameToB(s, s');
  }

  /** The hand-over: the acknowledgement is written and B starts reading with the connected lexer. */
  lemma CompletionBAck(c: Setup, s: System)
    requires Invariant(c, s) && CanFinishWrite(s.b) && s.b.phase.SendingChallengeAck?
    ensures Invariant(c, Next(c, s, Completion(B)).value)
  {
    hide Unsent, F1, F2, F3, F4, F5, AgreeOnA, AgreeOnB, Concat, LocalA, ToA, ToB, FromA, Messages;
    var s' := Next(c, s, Completion(B)).value;
    FramesNonEmpty(c);
    WrittenUnsent(s.b.writer);
    AInFlight(c, s);
    SameUnsentToA(s, s');
    SameToB(s, s');
    EmptyUnsent(s'.b.writer);
  }

  lemma CompletionBStatus(c: Setup, s: System)
    requires Invariant(c, s) && CanFinishWrite(s.b) && !Accepted(s.b)
    ensures Invariant(c, Next(c, s, Completion(B)).value)
  {
    hide Unsent, F1, F2, F3, F4, F5, AgreeOnA, AgreeOnB, Concat, LocalA, ToA, ToB, FromA, Messages;
    var s' := Next(c, s, Completion(B)).value;
    FramesNonEmpty(c);
    WrittenUnsent(s.b.writer);
    AInFlight(c, s);
    SameUnsentToA(s, s');
    SameToB(s, s');
  }

  // ---------- Requests ----------

  lemma RequestA(c: Setup, s: System, msg: Bytes)
    requires Invariant(c, s)
    ensures Invariant(c, Next(c, s, Request(A, msg)).value)
  {
    hide Unsent, F1, F2, F3, F4, F5, AgreeOnA, AgreeOnB, Concat;
    if s.a.phase.Up? {
      TriggerUnsent(s.a.writer, msg, Ignore);
      ConcatAppend(s.a.sent, msg);
      Assoc2(Concat(s.b.handled) + Concat(s.b.connectedMsgs.msgs) + s.b.connectedMsgs.rest + s.ab,
             Unsent(s.a.writer), msg);
    }
  }

  lemma RequestB(c: Setup, s: System, msg: Bytes)
    requires Invariant(c, s)
    ensures Invariant(c, Next(c, s, Request(B, msg)).value)
  {
    hide Unsent, F1, F2, F3, F4, F5, AgreeOnA, AgreeOnB, Concat;
    if s.b.phase.Up? {
      TriggerUnsent(s.b.writer, msg, Ignore);
      ConcatAppend(s.b.sent, msg);
      Assoc2(s.a.handshakeMsgs.rest + s.ba, Unsent(s.b.writer), msg);
      Assoc2(F5(c), Concat(s.b.sent), msg);
    }
  }

  // ---------- Arrivals ----------

  /** Reading on into a frame: it is queued when its last byte arrives, and kept incomplete before. */
  lemma ReadInto(h: Header, rest: Bytes, chunk: Bytes, f: Bytes)
    requires IsFrame(h, f) && rest + chunk <= f
    ensures AddBytes(h, Lexed([], rest), chunk) == if rest + chunk == f then Lexed([f], []) else Lexed([], rest + chunk)
  {
    hide IsFrame;
    if rest + chunk == f {
      LexFrame(h, f, []);
      assert f + [] == f;
      LexEmpty(h);
    } else {
      LexPartial(h, rest + chunk, f);
    }
  }

  lemma PartialOutcome(c: Setup, isA: bool, e: Endpoint, chunk: Bytes)
    requires |e.handshakeMsgs.rest| + |chunk| < Awaited(c, e)
    ensures ReadOutcome(c, isA, e, chunk, e.(handshakeMsgs := Lexed([], e.handshakeMsgs.rest + chunk)))
  {
  }

  lemma LaterOutcome(c: Setup, isA: bool, e: Endpoint, chunk: Bytes, e': Endpoint)
    requires Rank(e'.phase, isA) < Rank(e.phase, isA)
             || (!e'.reading && (e'.phase == e.phase || (!isA && e'.phase.ConnectedTcp?)))
    ensures ReadOutcome(c, isA, e, chunk, e')
  {
  }

  /** Splitting off what a read of `k` bytes takes. */
  lemma Advance(rest: Bytes, channel: Bytes, unsent: Bytes, k: nat)
    requires k <= |channel|
    ensures (rest + channel[..k]) + channel[k..] + unsent == rest + channel + unsent
    ensures rest + channel[..k] <= rest + channel + unsent
    ensures rest + channel[..k] == rest + channel + unsent ==> channel[k..] == [] && unsent == []
  {
    assert channel == channel[..k] + channel[k..];
    assert |rest + channel + unsent| == |rest| + k + |channel[k..]| + |unsent|;
  }

  lemma CheckedReadMessage(hash: Hash, self: Identity, e: Endpoint, chunk: Bytes, f: Bytes, more: Lexed)
    requires e.received.Handshake? && AddBytes(Handshake, e.handshakeMsgs, chunk) == Lexed([f] + more.msgs, more.rest)
    ensures CheckedRead(hash, self, e, chunk) ==
            HandshakeCallback(hash, self, e.(reading := false, handshakeMsgs := more), f)
  {
    hide HandshakeCallback;
    assert ([f] + more.msgs)[1..] == more.msgs;
  }

  lemma CheckedReadPartial(hash: Hash, self: Identity, e: Endpoint, chunk: Bytes, rest: Bytes)
    requires e.received.Handshake? && AddBytes(Handshake, e.handshakeMsgs, chunk) == Lexed([], rest)
    ensures CheckedRead(hash, self, e, chunk) == e.(handshakeMsgs := Lexed([], rest))
  {
    hide HandshakeCallback;
  }

  /** What each end does with the frame it waits for. */
  lemma FrameFacts(c: Setup)
    requires WellSetUp(c)
    ensures IsFrame(Handshake, F1(c)) && IsFrame(Handshake, F2()) && IsFrame(Handshake, F3(c))
    ensures IsFrame(Handshake, F4(c)) && IsFrame(Handshake, F5(c))
    ensures ParseName(F1(c)).Ok? <==> c.a.name != []
    ensures c.a.name != [] ==> ParseName(F1(c)).value.name == c.a.name && SupportedVersion(ParseName(F1(c)).value)
    ensures ParseStatus(F2()) == Ok(STATUS_OK, [])
    ensures ParseChallenge(F3(c)) == if c.b.name == [] then Fail else Ok(c.b.challenge, [])
    ensures ParseReply(F4(c)) == Ok(ChallengeReply(c.a.challenge, Digest(c.hash, c.b.challenge, c.a.cookie)), [])
    ensures ParseAck(F5(c)) == Ok(Digest(c.hash, c.a.challenge, c.b.cookie), [])
  {
    hide NameFrame, StatusFrame, ChallengeFrame, ReplyFrame, AckFrame, IsFrame;
    hide ParseName, ParseStatus, ParseChallenge, ParseReply, ParseAck, SupportedVersion;
    NameOn(c.a.name);
    StatusOn(STATUS_OK);
    ChallengeOn(c.b.challenge, c.b.name);
    ReplyOn(c.a.challenge, Digest(c.hash, c.b.challenge, c.a.cookie));
    AckOn(Digest(c.hash, c.a.challenge, c.b.cookie));
  }

  lemma FramesAreFrames(c: Setup)
    requires WellSetUp(c)
    ensures IsFrame(Handshake, F1(c)) && IsFrame(Handshake, F2()) && IsFrame(Handshake, F3(c))
    ensures IsFrame(Handshake, F4(c)) && IsFrame(Handshake, F5(c))
  {
    hide F1, F2, F3, F4, F5, IsFrame, ParseName, ParseStatus, ParseChallenge;
    hide ParseReply, ParseAck, SupportedVersion, Digest, WellSetUp;
    FrameFacts(c);
  }

  lemma NameReadResult(c: Setup, b: Endpoint)
    requires WellSetUp(c) && b.phase.ConnectedTcp?
    ensures HandshakeCallback(c.hash, c.b, b, F1(c)) ==
            if c.a.name == [] then b
            else b.(peerName := Some(c.a.name), phase := SendingStatus,
                    writer := Trigger(Trigger(b.writer, F2(), Ignore), F3(c), ChallengeWritten))
  {
    hide F1, F4, F5, IsFrame, ParseName, ParseStatus, ParseChallenge, ParseReply, ParseAck, SupportedVersion, WellSetUp;
    hide StatusFrame, ChallengeFrame;
    FrameFacts(c);
  }

  lemma ChallengeReadResult(c: Setup, a: Endpoint)
    requires WellSetUp(c) && a.phase.ReceivingChallenge?
    ensures HandshakeCallback(c.hash, c.a, a, F3(c)) == ChallengeRead(c.hash, c.a, a, F3(c))
    ensures ChallengeRead(c.hash, c.a, a, F3(c)) ==
            if c.b.name == [] then a
            else a.(phase := SendingChallengeReply, writer := Trigger(a.writer, F4(c), ReplySent))
  {
    hide F1, F2, F3, F5, IsFrame, ParseName, ParseStatus, ParseChallenge;
    hide ParseReply, ParseAck, SupportedVersion, WellSetUp;
    hide ReplyFrame, Digest;
    FrameFacts(c);
  }

  lemma ReplyReceivedResult(c: Setup, b: Endpoint)
    requires WellSetUp(c) && b.phase.WaitingForChallengeReply?
    ensures HandshakeCallback(c.hash, c.b, b, F4(c)) ==
            if AgreeOnB(c) then b.(phase := SendingChallengeAck,
                                   writer := Trigger(b.writer, F5(c), ChallengeAckWritten))
            else ReportFailure(b)
  {
    hide F1, F2, F3, F4, IsFrame, ParseName, ParseStatus, ParseChallenge;
    hide ParseReply, ParseAck, SupportedVersion, WellSetUp;
    hide AckFrame, Digest;
    FrameFacts(c);
  }

  lemma ChallengeAckReadResult(c: Setup, a: Endpoint)
    requires WellSetUp(c) && a.phase.ReceivingChallengeAck?
    ensures HandshakeCallback(c.hash, c.a, a, F5(c)) == if AgreeOnA(c) then MakeTransitionToConnected(a) else a
  {
    hide F1, F2, F3, F4, F5, IsFrame, ParseName, ParseStatus;
    hide ParseChallenge, ParseReply, ParseAck, SupportedVersion, WellSetUp;
    hide Digest;
    FrameFacts(c);
  }

  // B reading: the state after the read, then the invariant of that state.

  /** B's read did not complete the frame it waits for. */
  function PartialAtB(s: System, k: nat): System
    requires k <= |s.ab|
  {
    s.(b := s.b.(handshakeMsgs := Lexed([], s.b.handshakeMsgs.rest + s.ab[..k])), ab := s.ab[k..])
  }

  lemma PartialAtBKeeps(c: Setup, s: System, k: nat)
    requires Invariant(c, s) && s.b.reading && !s.b.phase.Up? && k <= |s.ab|
    requires |s.b.handshakeMsgs.rest| + k < Awaited(c, s.b)
    ensures Invariant(c, PartialAtB(s, k))
  {
    hide Unsent, F1, F2, F3, F4, F5, AgreeOnA, AgreeOnB, Concat;
    Advance(s.b.handshakeMsgs.rest, s.ab, Unsent(s.a.writer), k);
  }

  /** B's read completed the frame, and it was the last of what A had sent. */
  function ConsumedAtB(s: System, b: Endpoint): System {
    s.(b := b, ab := [])
  }

  lemma NameConsumed(c: Setup, s: System)
    requires Invariant(c, s) && s.b.phase.ConnectedTcp? && s.b.reading && Unsent(s.a.writer) == []
    ensures Invariant(c, ConsumedAtB(s, AfterName(c, s.b)))
  {
    hide F1, F2, F3, F4, F5, AgreeOnA, AgreeOnB, Concat, Messages, LocalA;
    AInFlight(c, s);
    var w1 := Trigger(s.b.writer, F2(), Ignore);
    TriggerUnsent(s.b.writer, F2(), Ignore);
    TriggerUnsent(w1, F3(c), ChallengeWritten);
    EmptyUnsent(s.b.writer);
    assert Trigger(w1, F3(c), ChallengeWritten).queue == [Entry(F2(), Ignore), Entry(F3(c), ChallengeWritten)];
    hide Unsent;
  }

  function AfterName(c: Setup, b: Endpoint): Endpoint {
    var b := b.(reading := false, handshakeMsgs := Lexed([], []));
    if c.a.name == [] then b
    else b.(peerName := Some(c.a.name), phase := SendingStatus,
            writer := Trigger(Trigger(b.writer, F2(), Ignore), F3(c), ChallengeWritten))
  }

  lemma NothingSentYet(c: Setup, s: System)
    requires LocalA(c, s.a) && !s.a.phase.Up?
    ensures s.a.sent == []
  {
  }

  lemma ReplyConsumed(c: Setup, s: System)
    requires Invariant(c, s) && s.b.phase.WaitingForChallengeReply? && Replied(s.a) && Unsent(s.a.writer) == []
    ensures Invariant(c, ConsumedAtB(s, AfterReply(c, s.b)))
  {
    hide F1, F2, F3, F4, F5, AgreeOnA, AgreeOnB, Messages, LocalA;
    TriggerUnsent(s.b.writer, F5(c), ChallengeAckWritten);
    EmptyUnsent(s.b.writer);
    AInFlight(c, s);
    NothingSentYet(c, s);
    hide Unsent;
  }

  function AfterReply(c: Setup, b: Endpoint): Endpoint {
    var b := b.(reading := false, handshakeMsgs := Lexed([], []));
    if AgreeOnB(c) then b.(phase := SendingChallengeAck, writer := Trigger(b.writer, F5(c), ChallengeAckWritten))
    else ReportFailure(b)
  }

  /** B waits for a frame of A's, and nothing but that frame is on its way. */
  lemma AwaitedAtB(c: Setup, s: System)
    requires Invariant(c, s) && s.b.reading && !s.b.phase.Up?
    ensures s.b.received.Handshake? && s.b.handshakeMsgs.msgs == [] && OneInFlight(s.a.writer)
    ensures s.b.phase.ConnectedTcp? || s.b.phase.WaitingForChallengeReply?
    ensures var flow := s.b.handshakeMsgs.rest + s.ab + Unsent(s.a.writer);
            if s.b.phase.ConnectedTcp? then flow == F1(c) else if Replied(s.a) then flow == F4(c) else flow == []
  {
    hide Unsent, F1, F2, F3, F4, F5, AgreeOnA, AgreeOnB, PipeToA, FromA;
  }

  /** A waits for a frame of B's; the challenge may follow the status, and B's first messages the acknowledgement. */
  lemma AwaitedAtA(c: Setup, s: System)
    requires Invariant(c, s) && s.a.reading && !s.a.phase.Up?
    ensures s.a.received.Handshake? && s.a.handshakeMsgs.msgs == [] && OneInFlight(s.b.writer)
    ensures s.a.phase.WaitingForStatus? || s.a.phase.ReceivingChallenge? || s.a.phase.ReceivingChallengeAck?
    ensures var flow := s.a.handshakeMsgs.rest + s.ba + Unsent(s.b.writer);
            match s.a.phase
            case WaitingForStatus => flow == if Greeted(s.b) then F2() + F3(c) else []
            case ReceivingChallenge => Greeted(s.b) && flow == F3(c)
            case _ => flow == if Accepted(s.b) then F5(c) + Concat(s.b.sent) else []
    ensures s.b.phase.SendingChallengeAck? ==> s.b.sent == []
  {
    hide Unsent, F1, F2, F3, F4, F5, AgreeOnA, AgreeOnB, PipeToB;
  }

  lemma ArrivalBName(c: Setup, s: System, k: nat)
    requires WellSetUp(c) && Invariant(c, s) && CanRead(s.b, s.ab, k) && s.b.phase.ConnectedTcp?
    ensures Invariant(c, ArrivedAtB(c, s, k))
    ensures var s' := ArrivedAtB(c, s, k);
            s'.a == s.a && ReadOutcome(c, false, s.b, s.ab[..k], s'.b)
    ensures ArrivedAtB(c, s, k) == PartialAtB(s, k) || ArrivedAtB(c, s, k) == ConsumedAtB(s, AfterName(c, s.b))
  {
    hide Unsent, F1, F2, F3, F4, F5, AgreeOnA, AgreeOnB, Concat, AddBytes;
    hide Messages, Invariant, IsFrame, OneInFlight, ReadOutcome;
    hide CheckedRead, HandshakeCallback, WellSetUp;
    FramesAreFrames(c);
    AwaitedAtB(c, s);
    var rest, chunk := s.b.handshakeMsgs.rest, s.ab[..k];
    Advance(rest, s.ab, Unsent(s.a.writer), k);
    assert rest + chunk <= F1(c);
    ReadInto(Handshake, rest, chunk, F1(c));
    var s' := ArrivedAtB(c, s, k);
    if rest + chunk == F1(c) {
      CheckedReadMessage(c.hash, c.b, s.b, chunk, F1(c), Lexed([], []));
      NameReadResult(c, s.b.(reading := false, handshakeMsgs := Lexed([], [])));
      assert s' == ConsumedAtB(s, AfterName(c, s.b));
      LaterOutcome(c, false, s.b, chunk, s'.b);
      NameConsumed(c, s);
    } else {
      CheckedReadPartial(c.hash, c.b, s.b, chunk, rest + chunk);
      assert s' == PartialAtB(s, k);
      PartialOutcome(c, false, s.b, chunk);
      PartialAtBKeeps(c, s, k);
    }
  }

  lemma EmptyUnsent(w: Writer<WriteCallback>)
    requires OneInFlight(w) && w.queue == []
    ensures Unsent(w) == []
  {
  }

  lemma ArrivalBReply(c: Setup, s: System, k: nat)
    requires WellSetUp(c) && Invariant(c, s) && CanRead(s.b, s.ab, k) && s.b.phase.WaitingForChallengeReply?
    ensures Invariant(c, ArrivedAtB(c, s, k))
    ensures var s' := ArrivedAtB(c, s, k);
            s'.a == s.a && ReadOutcome(c, false, s.b, s.ab[..k], s'.b)
    ensures ArrivedAtB(c, s, k) == PartialAtB(s, k) || ArrivedAtB(c, s, k) == ConsumedAtB(s, AfterReply(c, s.b))
  {
    hide Unsent, F1, F2, F3, F4, F5, AgreeOnA, AgreeOnB, Concat, AddBytes;
    hide Messages, Invariant, IsFrame, OneInFlight, ReadOutcome;
    hide CheckedRead, HandshakeCallback, WellSetUp;
    FramesAreFrames(c);
    AwaitedAtB(c, s);
    var rest, chunk := s.b.handshakeMsgs.rest, s.ab[..k];
    Advance(rest, s.ab, Unsent(s.a.writer), k);
    assert rest + chunk <= F4(c);
    ReadInto(Handshake, rest, chunk, F4(c));
    var s' := ArrivedAtB(c, s, k);
    if rest + chunk == F4(c) {
      CheckedReadMessage(c.hash, c.b, s.b, chunk, F4(c), Lexed([], []));
      ReplyReceivedResult(c, s.b.(reading := false, handshakeMsgs := Lexed([], [])));
      assert s' == ConsumedAtB(s, AfterReply(c, s.b));
      LaterOutcome(c, false, s.b, chunk, s'.b);
      ReplyConsumed(c, s);
    } else {
      CheckedReadPartial(c.hash, c.b, s.b, chunk, rest + chunk);
      assert s' == PartialAtB(s, k);
      PartialOutcome(c, false, s.b, chunk);
      PartialAtBKeeps(c, s, k);
    }
  }

  // B established: bytes move into the connected lexer, then one message is handled.

  lemma FedKeeps(c: Setup, s: System, k: nat)
    requires Invariant(c, s) && s.b.phase.Up? && k <= |s.ab|
    ensures Invariant(c, s.(b := Feed(s.b, s.ab[..k]), ab := s.ab[k..]))
  {
    hide Unsent, F1, F2, F3, F4, F5, AgreeOnA, AgreeOnB, Concat, Lex;
    var l := s.b.connectedMsgs;
    var r := Lex(Connected, l.rest + s.ab[..k]);
    LexConserves(Connected, l.rest + s.ab[..k]);
    ConcatSplit(l.msgs, r.msgs);
    FeedFlow(Concat(s.b.handled), Concat(l.msgs), l.rest, s.ab, Unsent(s.a.writer), k, Concat(r.msgs), r.rest);
  }

  lemma FeedFlow(x: Bytes, y: Bytes, rest: Bytes, channel: Bytes, unsent: Bytes, k: nat, y': Bytes, rest': Bytes)
    requires k <= |channel| && y' + rest' == rest + channel[..k]
    ensures x + (y + y') + rest' + channel[k..] + unsent == x + y + rest + channel + unsent
  {
    assert x + (y + y') + rest' == x + y + (y' + rest');
    assert x + y + (rest + channel[..k]) + channel[k..] == x + y + rest + (channel[..k] + channel[k..]);
    assert channel[..k] + channel[k..] == channel;
  }

  /** The first queued message goes to the dispatcher. */
  function Popped(b: Endpoint): Endpoint
    requires b.connectedMsgs.msgs != []
  {
    b.(connectedMsgs := Lexed(b.connectedMsgs.msgs[1..], b.connectedMsgs.rest),
       handled := b.handled + [b.connectedMsgs.msgs[0]])
  }

  lemma PoppedKeeps(c: Setup, s: System)
    requires Invariant(c, s) && s.b.phase.Up? && s.b.connectedMsgs.msgs != []
    ensures Invariant(c, s.(b := Popped(s.b)))
  {
    hide Unsent, F1, F2, F3, F4, F5, AgreeOnA, AgreeOnB, Concat;
    var ms := s.b.connectedMsgs.msgs;
    ConcatAppend(s.b.handled, ms[0]);
    ConcatPrepend(ms[0], ms[1..]);
    assert ms == [ms[0]] + ms[1..];
    Assoc2(Concat(s.b.handled), ms[0], Concat(ms[1..]));
  }

  lemma ArrivalBUp(c: Setup, s: System, k: nat)
    requires Invariant(c, s) && CanRead(s.b, s.ab, k) && s.b.phase.Up?
    ensures Invariant(c, ArrivedAtB(c, s, k))
  {
    hide Unsent, F1, F2, F3, F4, F5, Concat, AddBytes, PipeToA, PipeToB, Phases;
    var s1 := s.(b := Feed(s.b, s.ab[..k]), ab := s.ab[k..]);
    FedKeeps(c, s, k);
    if s1.b.connectedMsgs.msgs != [] {
      PoppedKeeps(c, s1);
      RequestB(c, s1.(b := Popped(s1.b)), TICK);
      assert Popped(s1.b).(reading := true) == Popped(s1.b);
    }
  }

  // A reading.

  lemma ArrivalAUp(c: Setup, s: System, k: nat)
    requires Invariant(c, s) && CanRead(s.a, s.ba, k) && s.a.phase.Up?
    ensures Invariant(c, ArrivedAtA(c, s, k))
  {
    hide Unsent, F1, F2, F3, F4, F5, Concat, AddBytes, AgreeOnA, AgreeOnB;
    var a := Feed(s.a, s.ba[..k]);
    var s1 := s.(a := a, ba := s.ba[k..]);
    if a.connectedMsgs.msgs != [] {
      var s2 := s1.(a := Popped(a));
      assert Invariant(c, s2);
      RequestA(c, s2, TICK);
      assert Popped(a).(reading := true) == Popped(a);
    }
  }

  /** A's read did not complete the frame it waits for. */
  function PartialAtA(s: System, k: nat): System
    requires k <= |s.ba|
  {
    s.(a := s.a.(handshakeMsgs := Lexed([], s.a.handshakeMsgs.rest + s.ba[..k])), ba := s.ba[k..])
  }

  lemma PartialAtAKeeps(c: Setup, s: System, k: nat)
    requires Invariant(c, s) && s.a.reading && !s.a.phase.Up? && k <= |s.ba|
    requires |s.a.handshakeMsgs.rest| + k < Awaited(c, s.a)
    ensures Invariant(c, PartialAtA(s, k))
  {
    hide Unsent, F1, F2, F3, F4, F5, AgreeOnA, AgreeOnB, Concat;
    Advance(s.a.handshakeMsgs.rest, s.ba, Unsent(s.b.writer), k);
  }

  /** A has the status and the first bytes of the challenge. */
  function StatusAtA(s: System, k: nat, q: Bytes): System
    requires k <= |s.ba|
  {
    s.(a := s.a.(phase := ReceivingChallenge, reading := true, handshakeMsgs := Lexed([], q)), ba := s.ba[k..])
  }

  lemma StatusConsumed(c: Setup, s: System, k: nat, q: Bytes)
    requires Invariant(c, s) && s.a.phase.WaitingForStatus? && Greeted(s.b) && k <= |s.ba|
    requires q + s.ba[k..] + Unsent(s.b.writer) == F3(c) && q != F3(c)
    ensures Invariant(c, StatusAtA(s, k, q))
  {
    hide Unsent, F1, F2, F3, F4, F5, AgreeOnA, AgreeOnB, Concat;
  }

  /** A has the whole challenge, and nothing more is on its way. */
  function AfterChallenge(c: Setup, a: Endpoint): Endpoint {
    var a := a.(phase := ReceivingChallenge, reading := false, handshakeMsgs := Lexed([], []));
    if c.b.name == [] then a else a.(phase := SendingChallengeReply, writer := Trigger(a.writer, F4(c), ReplySent))
  }

  lemma ChallengeConsumed(c: Setup, s: System)
    requires Invariant(c, s) && (s.a.phase.WaitingForStatus? || s.a.phase.ReceivingChallenge?) && Greeted(s.b)
    requires Unsent(s.b.writer) == []
    ensures Invariant(c, s.(a := AfterChallenge(c, s.a), ba := []))
  {
    hide F1, F2, F3, F4, F5, AgreeOnA, AgreeOnB, Concat, Messages, LocalB, FromA;
    TriggerUnsent(s.a.writer, F4(c), ReplySent);
    EmptyUnsent(s.a.writer);
    BInFlight(c, s);
    FramesNonEmpty(c);
    hide Unsent;
  }

  /** Reading on through a whole frame and into the bytes after it. */
  lemma ReadThrough(h: Header, rest: Bytes, chunk: Bytes, f: Bytes, q: Bytes)
    requires IsFrame(h, f) && rest + chunk == f + q
    ensures AddBytes(h, Lexed([], rest), chunk) == Lexed([f] + Lex(h, q).msgs, Lex(h, q).rest)
  {
    hide IsFrame, Lex;
    LexFrame(h, f, q);
  }

  lemma ArrivalAChallenge(c: Setup, s: System, k: nat)
    requires WellSetUp(c) && Invariant(c, s) && CanRead(s.a, s.ba, k) && s.a.phase.ReceivingChallenge?
    ensures Invariant(c, ArrivedAtA(c, s, k))
    ensures var s' := ArrivedAtA(c, s, k);
            s'.b == s.b && ReadOutcome(c, true, s.a, s.ba[..k], s'.a)
  {
    hide Unsent, F1, F2, F3, F4, F5, AgreeOnA, AgreeOnB, Concat, AddBytes;
    hide Messages, Invariant, IsFrame, OneInFlight, ReadOutcome;
    hide CheckedRead, HandshakeCallback, WellSetUp;
    FramesAreFrames(c);
    AwaitedAtA(c, s);
    var rest, chunk := s.a.handshakeMsgs.rest, s.ba[..k];
    Advance(rest, s.ba, Unsent(s.b.writer), k);
    ReadInto(Handshake, rest, chunk, F3(c));
    var s' := ArrivedAtA(c, s, k);
    if rest + chunk == F3(c) {
      CheckedReadMessage(c.hash, c.a, s.a, chunk, F3(c), Lexed([], []));
      ChallengeReadResult(c, s.a.(reading := false, handshakeMsgs := Lexed([], [])));
      assert s' == s.(a := AfterChallenge(c, s.a), ba := []);
      LaterOutcome(c, true, s.a, chunk, s'.a);
      ChallengeConsumed(c, s);
    } else {
      CheckedReadPartial(c.hash, c.a, s.a, chunk, rest + chunk);
      assert s' == PartialAtA(s, k);
      PartialOutcome(c, true, s.a, chunk);
      PartialAtAKeeps(c, s, k);
    }
  }

  /** Where a read inside two frames stops: before the end of the first one, or `q` into the second. */
  lemma PrefixOfTwo(p: Bytes, tail: Bytes, f: Bytes, g: Bytes)
    requires p + tail == f + g
    ensures |p| < |f| ==> p < f
    ensures |f| <= |p| ==> p == f + p[|f|..] && p[|f|..] + tail == g && p[|f|..] <= g
  {
    if |p| < |f| {
      assert p == (f + g)[..|p|] == f[..|p|];
    } else {
      assert p[..|f|] == (p + tail)[..|f|] == f;
      assert p[|f|..] + tail == (p + tail)[|f|..] == g;
    }
  }

  lemma ArrivalAStatus(c: Setup, s: System, k: nat)
    requires WellSetUp(c) && Invariant(c, s) && CanRead(s.a, s.ba, k) && s.a.phase.WaitingForStatus?
    ensures Invariant(c, ArrivedAtA(c, s, k))
    ensures var s' := ArrivedAtA(c, s, k);
            s'.b == s.b && ReadOutcome(c, true, s.a, s.ba[..k], s'.a)
  {
    hide Unsent, F1, F2, F3, F4, F5, AgreeOnA, AgreeOnB, Concat, AddBytes;
    hide Messages, Invariant, IsFrame, OneInFlight, ReadOutcome;
    hide Lex;
    hide CheckedRead, HandshakeCallback, WellSetUp;
    FramesAreFrames(c);
    AwaitedAtA(c, s);
    var rest, chunk, unsent := s.a.handshakeMsgs.rest, s.ba[..k], Unsent(s.b.writer);
    var p := rest + chunk;
    Advance(rest, s.ba, unsent, k);
    assert Greeted(s.b);
    Assoc2(p, s.ba[k..], unsent);
    PrefixOfTwo(p, s.ba[k..] + unsent, F2(), F3(c));
    var s' := ArrivedAtA(c, s, k);
    if |p| < |F2()| {
      ReadInto(Handshake, rest, chunk, F2());
      CheckedReadPartial(c.hash, c.a, s.a, chunk, rest + chunk);
      assert s' == PartialAtA(s, k);
      PartialOutcome(c, true, s.a, chunk);
      PartialAtAKeeps(c, s, k);
    } else {
      var q := p[|F2()|..];
      ReadThrough(Handshake, rest, chunk, F2(), q);
      CheckedReadMessage(c.hash, c.a, s.a, chunk, F2(), Lex(Handshake, q));
      StatusReadResult(c, s.a, q);
      Assoc2(q, s.ba[k..], unsent);
      if q == F3(c) {
        assert s.ba[k..] == [] && unsent == [];
        assert s' == s.(a := AfterChallenge(c, s.a), ba := []);
        LaterOutcome(c, true, s.a, chunk, s'.a);
        ChallengeConsumed(c, s);
      } else {
        assert s' == StatusAtA(s, k, q);
        LaterOutcome(c, true, s.a, chunk, s'.a);
        StatusConsumed(c, s, k, q);
      }
    }
  }

  /** The status, with the part `q` of the challenge that was read together with it. */
  lemma StatusReadResult(c: Setup, a: Endpoint, q: Bytes)
    requires WellSetUp(c) && a.phase.WaitingForStatus? && q <= F3(c)
    ensures HandshakeCallback(c.hash, c.a, a.(reading := false, handshakeMsgs := Lex(Handshake, q)), F2()) ==
            if q == F3(c) then AfterChallenge(c, a)
            else a.(phase := ReceivingChallenge, reading := true, handshakeMsgs := Lexed([], q))
  {
    hide F2, F3, F4, ParseStatus, ChallengeRead, Lex, IsFrame;
    FrameFacts(c);
    var e := a.(reading := false, handshakeMsgs := Lex(Handshake, q));
    if q == F3(c) {
      LexFrame(Handshake, F3(c), []);
      assert F3(c) + [] == F3(c);
      LexEmpty(Handshake);
      assert Lex(Handshake, q) == Lexed([F3(c)], []);
      assert [F3(c)][1..] == [];
      ChallengeReadResult(c, e.(phase := ReceivingChallenge, handshakeMsgs := Lexed([], [])));
    } else {
      LexPartial(Handshake, q, F3(c));
    }
  }

  /** A has the acknowledgement; what was read after it stays in the handshake lexer. */
  function AfterAck(c: Setup, a: Endpoint, more: Lexed): Endpoint {
    var a := a.(reading := false, handshakeMsgs := more);
    if AgreeOnA(c) then MakeTransitionToConnected(a) else a
  }

  lemma AckConsumed(c: Setup, s: System, k: nat, more: Lexed)
    requires Invariant(c, s) && s.a.phase.ReceivingChallengeAck? && Accepted(s.b) && k <= |s.ba|
    requires s.b.phase.SendingChallengeAck? ==> Unsent(s.b.writer) == []
    ensures Invariant(c, s.(a := AfterAck(c, s.a, more), ba := s.ba[k..]))
  {
    hide Unsent, F1, F2, F3, F4, F5, AgreeOnA, AgreeOnB, Concat;
  }

  lemma ArrivalAAck(c: Setup, s: System, k: nat)
    requires WellSetUp(c) && Invariant(c, s) && CanRead(s.a, s.ba, k) && s.a.phase.ReceivingChallengeAck?
    ensures Invariant(c, ArrivedAtA(c, s, k))
    ensures var s' := ArrivedAtA(c, s, k);
            s'.b == s.b && ReadOutcome(c, true, s.a, s.ba[..k], s'.a)
    ensures var p := s.a.handshakeMsgs.rest + s.ba[..k];
            if |p| < |F5(c)| then ArrivedAtA(c, s, k) == PartialAtA(s, k)
            else var q := p[|F5(c)|..];
              && ArrivedAtA(c, s, k) == s.(a := AfterAck(c, s.a, Lex(Handshake, q)), ba := s.ba[k..])
              && Accepted(s.b) && OneInFlight(s.b.writer)
              && q + (s.ba[k..] + Unsent(s.b.writer)) == Concat(s.b.sent)
  {
    hide Unsent, F1, F2, F3, F4, F5, AgreeOnA, AgreeOnB, AddBytes;
    hide Messages, Invariant, IsFrame, OneInFlight, ReadOutcome;
    hide Lex;
    hide CheckedRead, HandshakeCallback, WellSetUp;
    FramesAreFrames(c);
    AwaitedAtA(c, s);
    var rest, chunk, unsent := s.a.handshakeMsgs.rest, s.ba[..k], Unsent(s.b.writer);
    var p := rest + chunk;
    Advance(rest, s.ba, unsent, k);
    assert Accepted(s.b);
    Assoc2(p, s.ba[k..], unsent);
    PrefixOfTwo(p, s.ba[k..] + unsent, F5(c), Concat(s.b.sent));
    var s' := ArrivedAtA(c, s, k);
    if |p| < |F5(c)| {
      ReadInto(Handshake, rest, chunk, F5(c));
      CheckedReadPartial(c.hash, c.a, s.a, chunk, rest + chunk);
      assert s' == PartialAtA(s, k);
      PartialOutcome(c, true, s.a, chunk);
      PartialAtAKeeps(c, s, k);
    } else {
      var q := p[|F5(c)|..];
      ReadThrough(Handshake, rest, chunk, F5(c), q);
      CheckedReadMessage(c.hash, c.a, s.a, chunk, F5(c), Lex(Handshake, q));
      ChallengeAckReadResult(c, s.a.(reading := false, handshakeMsgs := Lex(Handshake, q)));
      assert s.b.phase.SendingChallengeAck? ==> unsent == [];
      assert s' == s.(a := AfterAck(c, s.a, Lex(Handshake, q)), ba := s.ba[k..]);
      LaterOutcome(c, true, s.a, chunk, s'.a);
      AckConsumed(c, s, k, Lex(Handshake, q));
    }
  }

  // ---------- Every action ----------

  lemma ArrivalKeeps(c: Setup, s: System, side: Side, k: nat)
    requires WellSetUp(c) && Invariant(c, s) && Next(c, s, Arrival(side, k)).Some?
    ensures Invariant(c, Next(c, s, Arrival(side, k)).value)
  {
    hide PipeToA, PipeToB, CheckedRead, OneInFlight, F1, F3, F4, F5, F2;
    if side == A {
      match s.a.phase
      case WaitingForStatus => ArrivalAStatus(c, s, k);
      case ReceivingChallenge => ArrivalAChallenge(c, s, k);
      case ReceivingChallengeAck => ArrivalAAck(c, s, k);
      case Up => ArrivalAUp(c, s, k);
    } else {
      match s.b.phase
      case ConnectedTcp => ArrivalBName(c, s, k);
      case WaitingForChallengeReply => ArrivalBReply(c, s, k);
      case Up => ArrivalBUp(c, s, k);
    }
  }

  lemma ActionKeepsInvariant(c: Setup, s: System, act: Action)
    requires WellSetUp(c) && Invariant(c, s) && Next(c, s, act).Some?
    ensures Invariant(c, Next(c, s, act).value)
  {
    hide Invariant;
    match act
    case Transfer(A, k) => TransferA(c, s, k);
    case Transfer(B, k) => TransferB(c, s, k);
    case Completion(A) => CompletionA(c, s);
    case Completion(B) => CompletionB(c, s);
    case Arrival(side, k) => ArrivalKeeps(c, s, side, k);
    case Request(A, msg) => RequestA(c, s, msg);
    case Request(B, msg) => RequestB(c, s, msg);
  }

  lemma {:induction false} EveryRunKeepsInvariant(c: Setup, run: seq<Action>)
    requires WellSetUp(c) && Execute(c, run).Some?
    ensures Invariant(c, Execute(c, run).value)
  {
    hide Invariant, Next;
    if run == [] {
      InitialInvariant(c);
    } else {
      var init := run[..|run| - 1];
      EveryRunKeepsInvariant(c, init);
      ActionKeepsInvariant(c, Execute(c, init).value, run[|run| - 1]);
    }
  }
}
