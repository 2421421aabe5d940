/** What holds in every run of the handshake system: agreement, and the hand-over between lexers at B. */
module HandshakeTheorems {
  import opened ByteCodec
  import opened Lexer
  import opened WriteQueue
  import opened HandshakeFrames
  import opened Endpoint
  import opened HandshakeSystem
  import opened HandshakeSteps

  // ---------- Agreement ----------

  /**
   * B accepts only a digest equal to its own, and A is connected only after B has accepted and
   * has handed its whole acknowledgement, with the right digest, to the socket.
   */
  lemma Agreement(c: Setup, run: seq<Action>)
    requires WellSetUp(c) && Execute(c, run).Some?
    ensures var s := Execute(c, run).value;
            && (Accepted(s.b) ==> AgreeOnB(c))
            && (s.a.phase.Up? ==> Accepted(s.b) && AgreeOnA(c))
            && (s.a.phase.Up? && !s.b.phase.Up? ==>
                  OneInFlight(s.b.writer) && s.b.writer.queue == [Entry(F5(c), ChallengeAckWritten)]
                  && Unsent(s.b.writer) == [])
  {
    hide Next, Unsent, F1, F2, F3, F4, F5, AgreeOnA, AgreeOnB, PipeToB;
    EveryRunKeepsInvariant(c, run);
  }

  /** Unless the hash collides on the two inputs compared, accepting means that the cookies are the same. */
  lemma AcceptedMeansSameCookie(c: Setup, run: seq<Action>)
    requires WellSetUp(c) && Execute(c, run).Some? && Accepted(Execute(c, run).value.b)
    requires var x, y := c.a.cookie + Decimal(c.b.challenge), c.b.cookie + Decimal(c.b.challenge);
             c.hash(x) == c.hash(y) ==> x == y
    ensures c.a.cookie == c.b.cookie
  {
    hide Execute, Decimal;
    Agreement(c, run);
    SuffixCancels(c.a.cookie, c.b.cookie, Decimal(c.b.challenge));
  }

  lemma SuffixCancels(x: Bytes, y: Bytes, s: Bytes)
    requires x + s == y + s
    ensures x == y
  {
    assert |x + s| == |y + s|;
    assert x == (x + s)[..|x|] == (y + s)[..|y|] == y;
  }

  // ---------- The hand-over between lexers ----------

  /**
   * When B switches to the connected lexer, its handshake lexer holds no message and no partial
   * bytes, and everything A has sent on the connection so far is still on its way.
   */
  lemma HandOverAtB(c: Setup, run: seq<Action>)
    requires WellSetUp(c) && run != [] && Execute(c, run).Some?
    requires !Execute(c, run[..|run| - 1]).value.b.phase.Up? && Execute(c, run).value.b.phase.Up?
    ensures var s := Execute(c, run[..|run| - 1]).value; var s' := Execute(c, run).value;
            && s.b.handshakeMsgs == s'.b.handshakeMsgs == s'.b.connectedMsgs == Lexed([], [])
            && OneInFlight(s'.a.writer) && s'.ab + Unsent(s'.a.writer) == Concat(s'.a.sent)
  {
    hide Unsent, Next, Invariant, OneInFlight;
    var s := Execute(c, run[..|run| - 1]).value;
    EveryRunKeepsInvariant(c, run[..|run| - 1]);
    OnlyTheAckConnectsB(c, s, run[|run| - 1]);
    ReadyForHandOver(c, s);
  }

  lemma ReadyForHandOver(c: Setup, s: System)
    requires Invariant(c, s) && s.b.phase.SendingChallengeAck?
    ensures s.b.handshakeMsgs == s.b.connectedMsgs == Lexed([], [])
    ensures OneInFlight(s.a.writer) && s.ab + Unsent(s.a.writer) == Concat(s.a.sent)
  {
    hide Unsent, F1, F2, F3, F4, F5, AgreeOnA, AgreeOnB, PipeToA, Phases, LocalA, ToB;
    AInFlight(c, s);
    assert FromA(s) == [] + [] + [] + s.ab + Unsent(s.a.writer);
  }

  /** B becomes connected only by completing the write of its acknowledgement. */
  lemma OnlyTheAckConnectsB(c: Setup, s: System, act: Action)
    requires WellSetUp(c) && Invariant(c, s) && Next(c, s, act).Some?
    requires !s.b.phase.Up? && Next(c, s, act).value.b.phase.Up?
    ensures act == Completion(B) && s.b.phase.SendingChallengeAck?
    ensures var s' := Next(c, s, act).value;
            s'.b.handshakeMsgs == s.b.handshakeMsgs && s'.b.connectedMsgs == s.b.connectedMsgs
            && s'.a == s.a && s'.ab == s.ab
            && s'.b.handled == s.b.handled
  {
    hide Unsent, F1, F2, F3, F4, F5, AgreeOnA, AgreeOnB, Lex, PipeToA, PipeToB, Phases;
    hide ParseName, ParseReply, ChallengeFrame, StatusFrame, AckFrame;
  }

  /** Once B accepts, what A has sent is what B handled, has queued, or will still get, byte for byte. */
  lemma NothingSentToBIsLost(c: Setup, run: seq<Action>)
    requires WellSetUp(c) && Execute(c, run).Some? && Accepted(Execute(c, run).value.b)
    ensures var s := Execute(c, run).value;
            && OneInFlight(s.a.writer)
            && Concat(s.b.handled) + Concat(s.b.connectedMsgs.msgs) + s.b.connectedMsgs.rest + s.ab + Unsent(s.a.writer)
               == Concat(s.a.sent)
  {
    hide Next, Unsent, F1, F2, F3, F4, F5, Concat, PipeToA, LocalB;
    EveryRunKeepsInvariant(c, run);
  }
}
