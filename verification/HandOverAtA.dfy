/**
 * The hand-over between lexers at A. Bytes of B's first messages that A reads together with the
 * acknowledgement stay in A's handshake lexer for good; everything after them reaches the connection.
 */
module HandOverAtA {
  import opened ByteCodec
  import opened Lexer
  import opened WriteQueue
  import opened HandshakeFrames
  import opened Endpoint
  import opened HandshakeSystem
  import opened HandshakeSteps

  // ---------- The read that connects A ----------

  /** The bytes left behind in A's handshake lexer. */
  function Stranded(a: Endpoint): Bytes {
    Concat(a.handshakeMsgs.msgs) + a.handshakeMsgs.rest
  }

  lemma NothingLexed(h: Header, q: Bytes)
    ensures Lex(h, q) == Lexed([], []) <==> q == []
  {
    hide Lex, Concat;
    LexEmpty(h);
    LexConserves(h, q);
    ConcatEmpty();
  }

  /** One read of A while it waits for the acknowledgement, by the state before it. */
  lemma AckRead(c: Setup, s: System, k: nat)
    requires WellSetUp(c) && Invariant(c, s) && s.a.phase.ReceivingChallengeAck? && CanRead(s.a, s.ba, k)
    ensures var s' := ArrivedAtA(c, s, k); var got := |s.a.handshakeMsgs.rest| + k;
            && s'.b == s.b
            && (s'.a.phase.Up? <==> AgreeOnA(c) && |F5(c)| <= got)
            && (s'.a.phase.Up? ==>
                  && (s'.a.handshakeMsgs == Lexed([], []) <==> got == |F5(c)|)
                  && |Stranded(s'.a)| == got - |F5(c)|
                  && OneInFlight(s.b.writer)
                  && Stranded(s'.a) + (s'.ba + Unsent(s'.b.writer)) == Concat(s'.b.sent))
  {
    hide Unsent, F5, AgreeOnA, Invariant, OneInFlight, Lex, Concat, CheckedRead, WellSetUp;
    ArrivalAAck(c, s, k);
    var p := s.a.handshakeMsgs.rest + s.ba[..k];
    if |F5(c)| <= |p| {
      var q := p[|F5(c)|..];
      NothingLexed(Handshake, q);
      LexConserves(Handshake, q);
    }
  }

  /** Nothing but such a read connects A. */
  lemma OnlyTheAckConnectsA(c: Setup, s: System, act: Action)
    requires WellSetUp(c) && Invariant(c, s) && !s.a.phase.Up?
    requires Next(c, s, act).Some? && Next(c, s, act).value.a.phase.Up?
    ensures act.Arrival? && act.side == A && s.a.phase.ReceivingChallengeAck?
  {
    hide Unsent, F1, F2, F3, F4, F5, AgreeOnA, AgreeOnB, Lex, PipeToA, PipeToB, Phases, LocalB;
    hide ParseChallenge, ParseStatus, ParseAck, ParseName, ParseReply;
    hide ReplyFrame, StatusFrame, ChallengeFrame, AckFrame, Digest, Trigger;
    assert LocalA(c, s.a);
  }

  /**
   * In every run: a read connects A exactly when the digests agree and it reaches the end of the
   * acknowledgement, and the switch is clean exactly when it ends there. Otherwise the bytes of B's
   * messages that were read beyond it are in the handshake lexer.
   */
  lemma StrandedAtA(c: Setup, run: seq<Action>, k: nat)
    requires WellSetUp(c) && Execute(c, run).Some? && Execute(c, run).value.a.phase.ReceivingChallengeAck?
    requires var s := Execute(c, run).value; CanRead(s.a, s.ba, k)
    ensures var s := Execute(c, run).value; var s' := Next(c, s, Arrival(A, k)).value;
            var got := |s.a.handshakeMsgs.rest| + k;
            && (s'.a.phase.Up? <==> AgreeOnA(c) && |F5(c)| <= got)
            && (s'.a.phase.Up? ==>
                  && (s'.a.handshakeMsgs == Lexed([], []) <==> got == |F5(c)|)
                  && |Stranded(s'.a)| == got - |F5(c)|
                  && OneInFlight(s.b.writer)
                  && Stranded(s'.a) + (s'.ba + Unsent(s'.b.writer)) == Concat(s'.b.sent))
  {
    hide Execute, Unsent, F5, AgreeOnA, Invariant, OneInFlight, Concat, CheckedRead, WellSetUp, Stranded;
    EveryRunKeepsInvariant(c, run);
    AckRead(c, Execute(c, run).value, k);
  }

  // ---------- Left behind for good ----------

  /** No action changes the handshake lexer of a connected A. */
  lemma LexerIsFrozen(c: Setup, s: System, act: Action)
    requires Invariant(c, s) && s.a.phase.Up? && Next(c, s, act).Some?
    ensures var s' := Next(c, s, act).value; s'.a.phase.Up? && s'.a.handshakeMsgs == s.a.handshakeMsgs
  {
    hide Unsent, F1, F2, F3, F4, F5, AddBytes, HandshakeCallback, PipeToA, PipeToB, Phases, LocalB, Trigger, Written;
    assert LocalA(c, s.a);
  }

  /** However a run goes on, what was left behind stays there. */
  lemma {:induction false} StrandedForGood(c: Setup, run: seq<Action>, more: seq<Action>)
    requires WellSetUp(c) && Execute(c, run).Some? && Execute(c, run).value.a.phase.Up? && Execute(c, run + more).Some?
    ensures var s' := Execute(c, run + more).value;
            s'.a.phase.Up? && s'.a.handshakeMsgs == Execute(c, run).value.a.handshakeMsgs
    decreases |more|
  {
    hide Invariant, Next, WellSetUp;
    if more == [] {
      assert run + more == run;
    } else {
      var init, act := more[..|more| - 1], more[|more| - 1];
      assert (run + more)[..|run + more| - 1] == run + init;
      StrandedForGood(c, run, init);
      EveryRunKeepsInvariant(c, run + init);
      LexerIsFrozen(c, Execute(c, run + init).value, act);
    }
  }

  // ---------- What reaches A's connection ----------

  /** Everything that has reached A's connection or is still on its way to it. */
  ghost function FromB(s: System): Bytes
    requires OneInFlight(s.b.writer)
  {
    Concat(s.a.handled) + Concat(s.a.connectedMsgs.msgs) + s.a.connectedMsgs.rest + s.ba + Unsent(s.b.writer)
  }

  /** Before A is connected nothing has reached its connection; then B's stream is what was left behind and the rest. */
  ghost predicate Reverse(s: System) {
    && (!s.a.phase.Up? ==> s.a.handled == [] && s.a.connectedMsgs == Lexed([], []))
    && (s.a.phase.Up? ==> OneInFlight(s.b.writer) && Stranded(s.a) + FromB(s) == Concat(s.b.sent))
  }

  lemma BWritesForward(c: Setup, s: System)
    requires Invariant(c, s)
    ensures OneInFlight(s.b.writer)
  {
    hide LocalA, Phases, PipeToA, PipeToB;
    BInFlight(c, s);
  }

  lemma ReverseTransfer(c: Setup, s: System, k: nat)
    requires Invariant(c, s) && Reverse(s) && CanTransfer(s.b, k)
    ensures Reverse(Next(c, s, Transfer(B, k)).value)
  {
    hide Unsent, Concat, Invariant, Stranded;
    BWritesForward(c, s);
    var s' := Next(c, s, Transfer(B, k)).value;
    TransmitUnsent(s.b.writer, k);
    Handover(s.ba, Unsent(s.b.writer), k);
    var got := Concat(s.a.handled) + Concat(s.a.connectedMsgs.msgs) + s.a.connectedMsgs.rest;
    Assoc2(got, s.ba, Unsent(s.b.writer));
    Assoc2(got, s'.ba, Unsent(s'.b.writer));
  }

  lemma ReverseCompletion(c: Setup, s: System)
    requires Invariant(c, s) && Reverse(s) && CanFinishWrite(s.b)
    ensures Reverse(Next(c, s, Completion(B)).value)
  {
    hide Unsent, Concat, Invariant, Stranded;
    BWritesForward(c, s);
    WrittenUnsent(s.b.writer);
  }

  /** Whatever B sends joins its stream. */
  lemma ReverseSend(s: System, msg: Bytes)
    requires Reverse(s) && OneInFlight(s.b.writer)
    ensures Reverse(s.(b := Send(s.b, msg)))
  {
    hide Unsent, Concat, Stranded;
    if s.b.phase.Up? {
      TriggerUnsent(s.b.writer, msg, Ignore);
      ConcatAppend(s.b.sent, msg);
      if s.a.phase.Up? {
        var got := Concat(s.a.handled) + Concat(s.a.connectedMsgs.msgs) + s.a.connectedMsgs.rest + s.ba;
        Assoc2(got, Unsent(s.b.writer), msg);
        Assoc2(Stranded(s.a), FromB(s), msg);
      }
    }
  }

  lemma SameReverse(s: System, s': System)
    requires Reverse(s) && s'.ba == s.ba && s'.b.sent == s.b.sent && s'.b.writer == s.b.writer
    requires s'.a.phase.Up? == s.a.phase.Up? && s'.a.handled == s.a.handled && s'.a.connectedMsgs == s.a.connectedMsgs
    requires s'.a.handshakeMsgs == s.a.handshakeMsgs
    ensures Reverse(s')
  {
  }

  lemma ReverseReadAtB(c: Setup, s: System, k: nat)
    requires Invariant(c, s) && Reverse(s) && CanRead(s.b, s.ab, k)
    ensures Reverse(ArrivedAtB(c, s, k))
  {
    hide Unsent, Concat, Stranded, F1, F2, F3, F4, F5, PipeToA, PipeToB, AddBytes, Trigger, LocalA, FromB, OneInFlight;
    hide HandshakeCallback;
    BInFlight(c, s);
    if s.b.phase.Up? {
      var b := Feed(s.b, s.ab[..k]);
      var s1 := s.(b := b, ab := s.ab[k..]);
      SameReverse(s, s1);
      if b.connectedMsgs.msgs != [] {
        var s2 := s1.(b := Popped(b));
        SameReverse(s1, s2);
        ReverseSend(s2, TICK);
        assert Popped(b).(reading := true) == Popped(b);
      }
    } else {
      assert !s.a.phase.Up?;
    }
  }

  lemma ReverseReadAtA(c: Setup, s: System, k: nat)
    requires Invariant(c, s) && Reverse(s) && CanRead(s.a, s.ba, k) && s.a.phase.Up?
    ensures Reverse(ArrivedAtA(c, s, k))
  {
    hide Unsent, Concat, Stranded, F1, F2, F3, F4, F5, PipeToA, PipeToB;
    hide AddBytes, Trigger, Phases, LocalB, OneInFlight, FromB;
    hide Reverse;
    var a := Feed(s.a, s.ba[..k]);
    var s1 := s.(a := a, ba := s.ba[k..]);
    ReverseFed(s, k);
    if a.connectedMsgs.msgs != [] {
      var s2 := s1.(a := Popped(a));
      ReversePopped(s1);
      SameReverse(s2, s2.(a := Send(s2.a, TICK)));
      assert Popped(a).(reading := true) == Popped(a);
    }
  }

  lemma ReverseFed(s: System, k: nat)
    requires Reverse(s) && s.a.phase.Up? && s.a.received.Connected? && k <= |s.ba|
    ensures Reverse(s.(a := Feed(s.a, s.ba[..k]), ba := s.ba[k..]))
  {
    hide Unsent, Concat, Lex, OneInFlight;
    var l := s.a.connectedMsgs;
    var r := Lex(Connected, l.rest + s.ba[..k]);
    LexConserves(Connected, l.rest + s.ba[..k]);
    ConcatSplit(l.msgs, r.msgs);
    FeedFlow(Concat(s.a.handled), Concat(l.msgs), l.rest, s.ba, Unsent(s.b.writer), k, Concat(r.msgs), r.rest);
  }

  lemma ReversePopped(s: System)
    requires Reverse(s) && s.a.phase.Up? && s.a.connectedMsgs.msgs != []
    ensures Reverse(s.(a := Popped(s.a)))
  {
    hide Unsent, Concat, OneInFlight;
    var ms := s.a.connectedMsgs.msgs;
    ConcatAppend(s.a.handled, ms[0]);
    ConcatPrepend(ms[0], ms[1..]);
    assert ms == [ms[0]] + ms[1..];
    Assoc2(Concat(s.a.handled), ms[0], Concat(ms[1..]));
  }

  /** While it is not connected, A's reads leave the connection's lexer and record alone. */
  lemma HandshakeReadAtA(c: Setup, s: System, k: nat)
    requires Invariant(c, s) && CanRead(s.a, s.ba, k) && !s.a.phase.Up?
    ensures var a' := ArrivedAtA(c, s, k).a; a'.handled == s.a.handled && a'.connectedMsgs == s.a.connectedMsgs
  {
    hide Unsent, F1, F2, F3, F4, F5, AgreeOnA, AgreeOnB, Lex, PipeToA, PipeToB, Phases, LocalB, AddBytes, Trigger;
    hide ParseChallenge, ParseStatus, ParseAck, ParseName, ParseReply;
    hide ReplyFrame, StatusFrame, ChallengeFrame, AckFrame, Digest;
    assert LocalA(c, s.a);
  }

  /** The read that connects A. */
  lemma ReverseConnects(c: Setup, s: System, k: nat)
    requires WellSetUp(c) && Invariant(c, s) && Reverse(s) && CanRead(s.a, s.ba, k) && !s.a.phase.Up?
    ensures Reverse(ArrivedAtA(c, s, k))
  {
    hide Unsent, Concat, Stranded, F5, Invariant, OneInFlight, CheckedRead, WellSetUp, AgreeOnA;
    HandshakeReadAtA(c, s, k);
    var s' := ArrivedAtA(c, s, k);
    if s'.a.phase.Up? {
      OnlyTheAckConnectsA(c, s, Arrival(A, k));
      AckRead(c, s, k);
      ConcatEmpty();
      assert FromB(s') == [] + [] + [] + s'.ba + Unsent(s'.b.writer) == s'.ba + Unsent(s'.b.writer);
    }
  }

  lemma ActionKeepsReverse(c: Setup, s: System, act: Action)
    requires WellSetUp(c) && Invariant(c, s) && Reverse(s) && Next(c, s, act).Some?
    ensures Reverse(Next(c, s, act).value)
  {
    hide Invariant, Reverse, CheckedRead, WellSetUp, OneInFlight, Trigger, Written, CheckedWrite;
    match act
    case Transfer(A, k) => SameReverse(s, Next(c, s, act).value);
    case Transfer(B, k) => ReverseTransfer(c, s, k);
    case Completion(A) => ReverseWriteDoneAtA(c, s);
    case Completion(B) => ReverseCompletion(c, s);
    case Arrival(A, k) =>
      if s.a.phase.Up? {
        ReverseReadAtA(c, s, k);
      } else {
        ReverseConnects(c, s, k);
      }
    case Arrival(B, k) => ReverseReadAtB(c, s, k);
    case Request(A, msg) => SameReverse(s, Next(c, s, act).value);
    case Request(B, msg) =>
      BWritesForward(c, s);
      ReverseSend(s, msg);
  }

  lemma ReverseWriteDoneAtA(c: Setup, s: System)
    requires Invariant(c, s) && Reverse(s) && CanFinishWrite(s.a)
    ensures Reverse(Next(c, s, Completion(A)).value)
  {
    hide Unsent, F1, F2, F3, F4, F5, Reverse, PipeToA, PipeToB, Phases, LocalB, Written;
    assert LocalA(c, s.a);
    SameReverse(s, Next(c, s, Completion(A)).value);
  }

  /**
   * In every run in which A is connected: B's stream is what was left behind at the switch, then what
   * A handled, has queued, or will still get, byte for byte.
   */
  lemma {:induction false} StreamOfB(c: Setup, run: seq<Action>)
    requires WellSetUp(c) && Execute(c, run).Some?
    ensures Reverse(Execute(c, run).value)
  {
    hide Invariant, Next, WellSetUp, Reverse;
    if run == [] {
      ReverseAtFirst(c);
    } else {
      var init := run[..|run| - 1];
      StreamOfB(c, init);
      EveryRunKeepsInvariant(c, init);
      ActionKeepsReverse(c, Execute(c, init).value, run[|run| - 1]);
    }
  }

  lemma ReverseAtFirst(c: Setup)
    ensures Reverse(Initial(c))
  {
  }
}
