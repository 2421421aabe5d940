/** What the two ends tell their clients: the handshake signal and the peer's name. */
module HandshakeSignals {
  import opened ByteCodec
  import opened Lexer
  import opened WriteQueue
  import opened HandshakeFrames
  import opened Endpoint
  import opened HandshakeSystem
  import opened HandshakeSteps

  /**
   * Success is signalled exactly by connected ends. Failure is signalled exactly by a B that gave up
   * on a wrong digest; A, and a B that got an unreadable name, signal nothing. B knows A's name.
   */
  ghost predicate Signals(c: Setup, s: System) {
    && s.a.outcome == (if s.a.phase.Up? then Some(true) else None)
    && s.b.outcome == (if s.b.phase.Up? then Some(true)
                       else if s.b.phase.ConnectedTcp? && !s.b.reading && c.a.name != [] then Some(false)
                       else None)
    && (Greeted(s.b) || Accepted(s.b) ==> s.b.peerName == Some(c.a.name))
  }

  lemma ReadAtA(c: Setup, s: System, k: nat)
    requires WellSetUp(c) && Invariant(c, s) && Signals(c, s) && Next(c, s, Arrival(A, k)).Some?
    ensures Signals(c, Next(c, s, Arrival(A, k)).value)
  {
    hide Unsent, F1, F2, F3, F4, F5, PipeToA, PipeToB, LocalB, AddBytes, Trigger, Phases;
    hide ParseStatus, ParseChallenge, ParseAck, ParseName, ParseReply, Digest, ReplyFrame, StatusFrame, ChallengeFrame;
    ActionKeepsInvariant(c, s, Arrival(A, k));
    assert LocalA(c, s.a) && LocalA(c, Next(c, s, Arrival(A, k)).value.a);
  }

  lemma ReadAtB(c: Setup, s: System, k: nat)
    requires WellSetUp(c) && Invariant(c, s) && Signals(c, s) && Next(c, s, Arrival(B, k)).Some?
    ensures Signals(c, Next(c, s, Arrival(B, k)).value)
  {
    hide Invariant, CheckedRead, WellSetUp, Digest, AgreeOnB, Trigger;
    if s.b.phase.Up? {
      ReadAtConnectedB(c, s, k);
    } else {
      AwaitedAtB(c, s);
      if s.b.phase.ConnectedTcp? {
        ArrivalBName(c, s, k);
      } else {
        ReplyMeansName(c, s);
        ArrivalBReply(c, s, k);
      }
    }
  }

  lemma ReplyMeansName(c: Setup, s: System)
    requires Invariant(c, s) && Greeted(s.b)
    ensures c.a.name != []
  {
    hide Unsent, F1, F2, F3, F4, F5, PipeToA, PipeToB, LocalA, LocalB;
  }

  lemma ReadAtConnectedB(c: Setup, s: System, k: nat)
    requires Invariant(c, s) && Signals(c, s) && Next(c, s, Arrival(B, k)).Some? && s.b.phase.Up?
    ensures Signals(c, Next(c, s, Arrival(B, k)).value)
  {
    hide Unsent, F1, F2, F3, F4, F5, PipeToA, PipeToB, LocalA, AddBytes, Trigger, Phases, HandshakeCallback;
    assert LocalB(c, s.b);
  }

  lemma WriteDoneAtA(c: Setup, s: System)
    requires Invariant(c, s) && Signals(c, s) && Next(c, s, Completion(A)).Some?
    ensures Signals(c, Next(c, s, Completion(A)).value)
  {
    hide Unsent, F1, F2, F3, F4, F5, PipeToA, PipeToB, LocalB, Written, Phases;
    assert LocalA(c, s.a);
  }

  lemma WriteDoneAtB(c: Setup, s: System)
    requires Invariant(c, s) && Signals(c, s) && Next(c, s, Completion(B)).Some?
    ensures Signals(c, Next(c, s, Completion(B)).value)
  {
    hide Unsent, F1, F2, F3, F4, F5, PipeToA, PipeToB, LocalA, Written, Phases;
    assert LocalB(c, s.b);
  }

  lemma ActionKeepsSignals(c: Setup, s: System, act: Action)
    requires WellSetUp(c) && Invariant(c, s) && Signals(c, s) && Next(c, s, act).Some?
    ensures Signals(c, Next(c, s, act).value)
  {
    hide Invariant, CheckedRead, CheckedWrite, Trigger, WellSetUp;
    match act
    case Arrival(A, k) => ReadAtA(c, s, k);
    case Arrival(B, k) => ReadAtB(c, s, k);
    case Completion(A) => WriteDoneAtA(c, s);
    case Completion(B) => WriteDoneAtB(c, s);
    case _ =>
  }

  /** In every run the signals and the name are right. */
  lemma {:induction false} EveryRunSignalsRight(c: Setup, run: seq<Action>)
    requires WellSetUp(c) && Execute(c, run).Some?
    ensures Signals(c, Execute(c, run).value)
  {
    hide Invariant, Next, WellSetUp;
    if run != [] {
      var init := run[..|run| - 1];
      EveryRunSignalsRight(c, init);
      EveryRunKeepsInvariant(c, init);
      ActionKeepsSignals(c, Execute(c, init).value, run[|run| - 1]);
    }
  }
}
