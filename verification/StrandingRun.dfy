/**
 * A run in which the first message of B is lost at A: it is read together with the acknowledgement.
 * The handshake goes through step by step, with every frame read in one piece.
 */
module StrandingRun {
  import opened ByteCodec
  import opened Lexer
  import opened WriteQueue
  import opened HandshakeFrames
  import opened Endpoint
  import opened HandshakeSystem
  import opened HandshakeSteps
  import opened HandshakeProgress
  import opened HandOverAtA

  /** The handshake can succeed, and every read fits the read buffer. */
  ghost predicate Short(c: Setup) {
    CanSucceed(c) && |c.a.name| <= 119 && |c.b.name| <= 110
  }

  predicate FitsBehindAck(msg: Bytes) {
    1 <= |msg| <= 109
  }

  lemma FrameLengths(c: Setup)
    requires WellSetUp(c)
    ensures |F1(c)| == |c.a.name| + 9 && |F2()| == 5 && |F3(c)| == |c.b.name| + 13 && |F4(c)| == 23 && |F5(c)| == 19
  {
    hide Be16, Be32, Decimal;
  }

  // ---------- The states on the way ----------

  function Writing(es: seq<Entry<WriteCallback>>): Writer<WriteCallback>
    requires es != []
  {
    Writer(es, Some(es[0].msg), 0)
  }

  function NamedB(c: Setup): Endpoint {
    Fresh().(peerName := Some(c.a.name))
  }

  function ConnectedB(c: Setup): Endpoint {
    NamedB(c).(phase := Up, received := Connected, outcome := Some(true), reading := true)
  }

  function NameSent(c: Setup): System {
    System(Fresh().(phase := WaitingForStatus, reading := true), StartAsB(), F1(c), [])
  }

  function NameTaken(c: Setup): System {
    System(Fresh().(phase := WaitingForStatus, reading := true),
           NamedB(c).(phase := SendingStatus,
                      writer := Writing([Entry(F2(), Ignore), Entry(F3(c), ChallengeWritten)])), [], [])
  }

  function ChallengeSent(c: Setup): System {
    System(Fresh().(phase := WaitingForStatus, reading := true),
           NamedB(c).(phase := WaitingForChallengeReply, reading := true), [], F2() + F3(c))
  }

  function ChallengeTaken(c: Setup): System {
    System(Fresh().(phase := SendingChallengeReply, writer := Writing([Entry(F4(c), ReplySent)])),
           NamedB(c).(phase := WaitingForChallengeReply, reading := true), [], [])
  }

  function ReplySentOff(c: Setup): System {
    System(Fresh().(phase := ReceivingChallengeAck, reading := true),
           NamedB(c).(phase := WaitingForChallengeReply, reading := true), F4(c), [])
  }

  function ReplyTaken(c: Setup): System {
    System(Fresh().(phase := ReceivingChallengeAck, reading := true),
           NamedB(c).(phase := SendingChallengeAck, writer := Writing([Entry(F5(c), ChallengeAckWritten)])), [], [])
  }

  function AckSent(c: Setup): System {
    System(Fresh().(phase := ReceivingChallengeAck, reading := true), ConnectedB(c), [], F5(c))
  }

  function MessageSent(c: Setup, msg: Bytes): System {
    System(Fresh().(phase := ReceivingChallengeAck, reading := true),
           ConnectedB(c).(sent := [msg], writer := Writer([Entry(msg, Ignore)], Some(msg), |msg|)), [], F5(c) + msg)
  }

  function MessageStranded(c: Setup, msg: Bytes): System {
    MessageSent(c, msg).(ba := [], a := MakeTransitionToConnected(
      Fresh().(phase := ReceivingChallengeAck, handshakeMsgs := Lex(Handshake, msg))))
  }

  // ---------- Single steps ----------

  function Two(c: Setup, s: System, x: Action, y: Action): Option<System> {
    match Next(c, s, x)
    case None => None
    case Some(s) => Next(c, s, y)
  }

  /** A's only outstanding write goes out whole. */
  lemma SendsA(c: Setup, s: System, f: Bytes, callback: WriteCallback)
    requires f != [] && s.a.writer == Writing([Entry(f, callback)])
    ensures Two(c, s, Transfer(A, |f|), Completion(A)) ==
            Some(s.(a := WriteDone(s.a.(writer := EmptyWriter()), callback), ab := s.ab + f))
  {
    assert f[0..|f|] == f;
  }

  /** B's first outstanding write goes out whole, and the next one is handed over. */
  lemma SendsB(c: Setup, s: System, f: Bytes, callback: WriteCallback, es: seq<Entry<WriteCallback>>)
    requires f != [] && s.b.writer == Writing([Entry(f, callback)] + es)
    ensures Two(c, s, Transfer(B, |f|), Completion(B)) ==
            Some(s.(b := WriteDone(s.b.(writer := if es == [] then EmptyWriter() else Writing(es)), callback),
                    ba := s.ba + f))
  {
    assert f[0..|f|] == f;
    assert ([Entry(f, callback)] + es)[1..] == es;
  }

  /** B reads the one frame in its channel. */
  lemma ReadsB(c: Setup, s: System, f: Bytes)
    requires IsFrame(Handshake, f) && |f| <= READ_BUFFER_SIZE && s.ab == f
    requires s.b.reading && s.b.received.Handshake? && s.b.handshakeMsgs == Lexed([], [])
    ensures Next(c, s, Arrival(B, |f|)) ==
            Some(s.(b := HandshakeCallback(c.hash, c.b, s.b.(reading := false), f), ab := []))
  {
    hide HandshakeCallback, Diverges, AddBytes, CheckedRead;
    assert f[..|f|] == f && f[|f|..] == [] && [] + f == f;
    HandshakeNeverDiverges([] + f);
    ReadInto(Handshake, [], f, f);
    assert [f] + [] == [f];
    CheckedReadMessage(c.hash, c.b, s.b, f, f, Lexed([], []));
  }

  /** A reads a frame together with what follows it in its channel. */
  lemma ReadsA(c: Setup, s: System, f: Bytes, q: Bytes)
    requires IsFrame(Handshake, f) && 1 <= |f| && |f| + |q| <= READ_BUFFER_SIZE && s.ba == f + q
    requires s.a.reading && s.a.received.Handshake? && s.a.handshakeMsgs == Lexed([], [])
    ensures Next(c, s, Arrival(A, |f| + |q|)) ==
            Some(s.(a := HandshakeCallback(c.hash, c.a, s.a.(reading := false, handshakeMsgs := Lex(Handshake, q)), f),
                    ba := []))
  {
    hide HandshakeCallback, CheckedRead, CanRead, Lex, IsFrame;
    var chunk := f + q;
    assert s.ba[..|f| + |q|] == chunk && s.ba[|f| + |q|..] == [];
    CanReadAll(s);
    ReadsFrame(c, s.a, f, q);
  }

  lemma CanReadAll(s: System)
    requires s.a.reading && s.a.received.Handshake? && 1 <= |s.ba| <= READ_BUFFER_SIZE
    ensures CanRead(s.a, s.ba, |s.ba|)
  {
    HandshakeNeverDiverges(s.a.handshakeMsgs.rest + s.ba[..|s.ba|]);
  }

  lemma ReadsFrame(c: Setup, a: Endpoint, f: Bytes, q: Bytes)
    requires IsFrame(Handshake, f) && a.received.Handshake? && a.handshakeMsgs == Lexed([], [])
    ensures CheckedRead(c.hash, c.a, a, f + q) ==
            HandshakeCallback(c.hash, c.a, a.(reading := false, handshakeMsgs := Lex(Handshake, q)), f)
  {
    hide HandshakeCallback, AddBytes, CheckedRead, Lex, IsFrame;
    assert [] + (f + q) == f + q;
    ReadThrough(Handshake, [], f + q, f, q);
    CheckedReadMessage(c.hash, c.a, a, f + q, f, Lex(Handshake, q));
  }

  // ---------- The way ----------

  lemma SendName(c: Setup)
    ensures Two(c, Initial(c), Transfer(A, |F1(c)|), Completion(A)) == Some(NameSent(c))
  {
    hide F1, F2, F3, F4, F5, Two;
    FramesNonEmpty(c);
    assert Initial(c).a.writer == Writing([Entry(F1(c), HandshakeSent)]) by { FirstWrite(c); }
    SendsA(c, Initial(c), F1(c), HandshakeSent);
    assert [] + F1(c) == F1(c);
  }

  lemma FirstWrite(c: Setup)
    ensures Initial(c).a == Fresh().(writer := Writing([Entry(F1(c), HandshakeSent)]))
  {
    hide NameFrame;
    assert [] + [Entry(F1(c), HandshakeSent)] == [Entry(F1(c), HandshakeSent)];
  }

  lemma TakeName(c: Setup)
    requires Short(c)
    ensures Next(c, NameSent(c), Arrival(B, |F1(c)|)) == Some(NameTaken(c))
  {
    hide F1, F2, F3, F4, F5, Next, HandshakeCallback, IsFrame, WellSetUp;
    FramesAreFrames(c);
    FrameLengths(c);
    ReadsB(c, NameSent(c), F1(c));
    NameReadResult(c, StartAsB().(reading := false));
    var es := [Entry(F2(), Ignore), Entry(F3(c), ChallengeWritten)];
    assert [] + [es[0]] == [es[0]] && [es[0]] + [es[1]] == es;
  }

  lemma SendStatus(c: Setup, s: System)
    requires s == NameTaken(c)
    ensures var es := [Entry(F3(c), ChallengeWritten)];
            Two(c, s, Transfer(B, |F2()|), Completion(B)) == Some(s.(b := s.b.(writer := Writing(es)), ba := F2()))
  {
    hide F1, F2, F3, F4, F5, Two;
    FramesNonEmpty(c);
    var es := [Entry(F3(c), ChallengeWritten)];
    assert [Entry(F2(), Ignore)] + es == [Entry(F2(), Ignore), Entry(F3(c), ChallengeWritten)];
    SendsB(c, s, F2(), Ignore, es);
    assert [] + F2() == F2();
  }

  lemma SendChallenge(c: Setup, s: System)
    requires s == NameTaken(c).(b := NameTaken(c).b.(writer := Writing([Entry(F3(c), ChallengeWritten)])), ba := F2())
    ensures Two(c, s, Transfer(B, |F3(c)|), Completion(B)) == Some(ChallengeSent(c))
  {
    hide F1, F2, F3, F4, F5, Two;
    FramesNonEmpty(c);
    assert [Entry(F3(c), ChallengeWritten)] + [] == [Entry(F3(c), ChallengeWritten)];
    SendsB(c, s, F3(c), ChallengeWritten, []);
  }

  lemma TakeChallenge(c: Setup)
    requires Short(c)
    ensures Next(c, ChallengeSent(c), Arrival(A, |F2()| + |F3(c)|)) == Some(ChallengeTaken(c))
  {
    hide F1, F2, F3, F4, F5, Next, HandshakeCallback, IsFrame, WellSetUp, Lex;
    FramesAreFrames(c);
    FrameLengths(c);
    ReadsA(c, ChallengeSent(c), F2(), F3(c));
    StatusReadResult(c, ChallengeSent(c).a, F3(c));
    assert [] + [Entry(F4(c), ReplySent)] == [Entry(F4(c), ReplySent)];
  }

  lemma SendReply(c: Setup)
    ensures Two(c, ChallengeTaken(c), Transfer(A, |F4(c)|), Completion(A)) == Some(ReplySentOff(c))
  {
    hide F1, F2, F3, F4, F5, Two;
    FramesNonEmpty(c);
    SendsA(c, ChallengeTaken(c), F4(c), ReplySent);
    assert [] + F4(c) == F4(c);
  }

  lemma TakeReply(c: Setup)
    requires Short(c)
    ensures Next(c, ReplySentOff(c), Arrival(B, |F4(c)|)) == Some(ReplyTaken(c))
  {
    hide F1, F2, F3, F4, F5, Next, HandshakeCallback, IsFrame, WellSetUp, AgreeOnA, AgreeOnB;
    FramesAreFrames(c);
    FrameLengths(c);
    ReadsB(c, ReplySentOff(c), F4(c));
    ReplyReceivedResult(c, ReplySentOff(c).b.(reading := false));
    assert [] + [Entry(F5(c), ChallengeAckWritten)] == [Entry(F5(c), ChallengeAckWritten)];
  }

  lemma SendAck(c: Setup)
    ensures Two(c, ReplyTaken(c), Transfer(B, |F5(c)|), Completion(B)) == Some(AckSent(c))
  {
    hide F1, F2, F3, F4, F5, Two;
    FramesNonEmpty(c);
    assert [Entry(F5(c), ChallengeAckWritten)] + [] == [Entry(F5(c), ChallengeAckWritten)];
    SendsB(c, ReplyTaken(c), F5(c), ChallengeAckWritten, []);
    assert [] + F5(c) == F5(c);
  }

  lemma SendMessage(c: Setup, msg: Bytes)
    requires msg != []
    ensures Two(c, AckSent(c), Request(B, msg), Transfer(B, |msg|)) == Some(MessageSent(c, msg))
  {
    hide F1, F2, F3, F4, F5;
    assert [] + [msg] == [msg] && [] + [Entry(msg, Ignore)] == [Entry(msg, Ignore)] && msg[0..|msg|] == msg;
  }

  lemma TakeAckAndMessage(c: Setup, msg: Bytes)
    requires Short(c) && FitsBehindAck(msg)
    ensures Next(c, MessageSent(c, msg), Arrival(A, |F5(c)| + |msg|)) == Some(MessageStranded(c, msg))
  {
    hide F1, F2, F3, F4, F5, Next, HandshakeCallback, IsFrame, WellSetUp, AgreeOnA, AgreeOnB, Lex;
    FramesAreFrames(c);
    FrameLengths(c);
    var s := MessageSent(c, msg);
    ReadsA(c, s, F5(c), msg);
    ChallengeAckReadResult(c, s.a.(reading := false, handshakeMsgs := Lex(Handshake, msg)));
  }

  // ---------- The run ----------

  function TheRun(c: Setup, msg: Bytes): seq<Action> {
    [Transfer(A, |F1(c)|), Completion(A), Arrival(B, |F1(c)|),
     Transfer(B, |F2()|), Completion(B), Transfer(B, |F3(c)|), Completion(B), Arrival(A, |F2()| + |F3(c)|),
     Transfer(A, |F4(c)|), Completion(A), Arrival(B, |F4(c)|),
     Transfer(B, |F5(c)|), Completion(B), Request(B, msg), Transfer(B, |msg|), Arrival(A, |F5(c)| + |msg|)]
  }

  lemma OneMore(c: Setup, run: seq<Action>, n: nat, s: System)
    requires n < |run| && Execute(c, run[..n]) == Some(s)
    ensures Execute(c, run[..n + 1]) == Next(c, s, run[n])
  {
    hide Next;
    assert run[..n + 1][..n] == run[..n];
  }

  lemma TwoMore(c: Setup, run: seq<Action>, n: nat, s: System)
    requires n + 1 < |run| && Execute(c, run[..n]) == Some(s) && Two(c, s, run[n], run[n + 1]).Some?
    ensures Execute(c, run[..n + 2]) == Two(c, s, run[n], run[n + 1])
  {
    hide Next, Execute;
    OneMore(c, run, n, s);
    OneMore(c, run, n + 1, Next(c, s, run[n]).value);
  }

  lemma FirstHalf(c: Setup, run: seq<Action>, msg: Bytes)
    requires Short(c) && run == TheRun(c, msg)
    ensures Execute(c, run[..8]) == Some(ChallengeTaken(c))
  {
    hide F1, F2, F3, F4, F5, Next, Two, WellSetUp, NameTaken, ChallengeSent;
    hide ChallengeTaken, NameSent, Initial, AgreeOnA, AgreeOnB;
    assert Execute(c, run[..0]) == Some(Initial(c));
    SendName(c);
    TwoMore(c, run, 0, Initial(c));
    TakeName(c);
    OneMore(c, run, 2, NameSent(c));
    SendStatus(c, NameTaken(c));
    TwoMore(c, run, 3, NameTaken(c));
    var s := Two(c, NameTaken(c), run[3], run[4]).value;
    SendChallenge(c, s);
    TwoMore(c, run, 5, s);
    TakeChallenge(c);
    OneMore(c, run, 7, ChallengeSent(c));
  }

  lemma WholeRun(c: Setup, run: seq<Action>, msg: Bytes)
    requires Short(c) && FitsBehindAck(msg) && run == TheRun(c, msg)
    ensures Execute(c, run) == Some(MessageStranded(c, msg))
  {
    hide F1, F2, F3, F4, F5, Next, Two, Execute, WellSetUp, AgreeOnA, AgreeOnB;
    hide ChallengeTaken, ReplySentOff, ReplyTaken, AckSent, MessageSent, MessageStranded;
    FirstHalf(c, run, msg);
    SendReply(c);
    TwoMore(c, run, 8, ChallengeTaken(c));
    TakeReply(c);
    OneMore(c, run, 10, ReplySentOff(c));
    SendAck(c);
    TwoMore(c, run, 11, ReplyTaken(c));
    SendMessage(c, msg);
    TwoMore(c, run, 13, AckSent(c));
    TakeAckAndMessage(c, msg);
    OneMore(c, run, 15, MessageSent(c, msg));
    assert run[..16] == run;
  }

  /**
   * For every short setup and every short message there is a run that leaves the message behind: both
   * ends are connected, B's stream is the message, and no continuation ever brings it to A's connection.
   */
  lemma MessageIsStranded(c: Setup, msg: Bytes, more: seq<Action>)
    requires Short(c) && FitsBehindAck(msg)
    ensures var s := Execute(c, TheRun(c, msg));
            && s.Some? && s.value.a.phase.Up? && s.value.b.phase.Up? && s.value.b.sent == [msg]
            && s.value.ba == [] && Stranded(s.value.a) == msg
    ensures var s := Execute(c, TheRun(c, msg) + more);
            s.Some? ==> Stranded(s.value.a) == msg && OneInFlight(s.value.b.writer)
                        && msg + FromB(s.value) == Concat(s.value.b.sent)
  {
    hide TheRun, Execute, Lex, Concat, OneInFlight, F1, F2, F3, F4, F5, FromB, Next;
    WholeRun(c, TheRun(c, msg), msg);
    LexConserves(Handshake, msg);
    if Execute(c, TheRun(c, msg) + more).Some? {
      StrandedForGood(c, TheRun(c, msg), more);
      StreamOfB(c, TheRun(c, msg) + more);
    }
  }

  /** Such a setup: one-letter names, no cookie, and a constant hash. */
  lemma SomeSetupIsShort()
    ensures exists c :: Short(c)
  {
    var c := Setup(_ => seq(DIGEST_LENGTH, _ => 0), Identity([97], [], 1), Identity([98], [], 2));
    assert Short(c);
  }
}
