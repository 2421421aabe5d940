/**
 * Progress of the handshake: while the two ends are not both connected, some end that is not yet
 * connected can act, and every such action uses up part of a fixed budget.
 */
module HandshakeProgress {
  import opened ByteCodec
  import opened Lexer
  import opened WriteQueue
  import opened HandshakeFrames
  import opened Endpoint
  import opened HandshakeSystem
  import opened HandshakeSteps

  /** Names that are not empty and digests that agree in both directions. */
  ghost predicate CanSucceed(c: Setup) {
    WellSetUp(c) && c.a.name != [] && c.b.name != [] && AgreeOnA(c) && AgreeOnB(c)
  }

  lemma SameCookieCanSucceed(c: Setup)
    requires WellSetUp(c) && c.a.name != [] && c.b.name != [] && c.a.cookie == c.b.cookie
    ensures CanSucceed(c)
  {
  }

  /** An action of an end that is not connected yet. A request to such an end is dropped. */
  predicate IsHandshakeAction(s: System, act: Action) {
    !act.Request? && !End(s, act.side).phase.Up?
  }

  ghost function StillToRead(c: Setup, e: Endpoint): nat {
    if |e.handshakeMsgs.rest| < Awaited(c, e) then Awaited(c, e) - |e.handshakeMsgs.rest| else 0
  }

  /** Work left inside the current phase: bytes to hand over, writes to complete, bytes to read. */
  ghost function Inner(c: Setup, e: Endpoint): nat
    requires OneInFlight(e.writer)
  {
    if e.phase.Up? then 0 else |Unsent(e.writer)| + |e.writer.queue| + StillToRead(c, e)
  }

  function FrameBytes(c: Setup): nat {
    |F1(c)| + |F2()| + |F3(c)| + |F4(c)| + |F5(c)|
  }

  /** More than the work that can be left inside two phases. */
  function PhaseBudget(c: Setup): nat {
    3 * FrameBytes(c) + 4
  }

  function Times(p: nat, k: nat): nat {
    p * k
  }

  function PhasesLeft(s: System): nat {
    Rank(s.a.phase, true) + Rank(s.b.phase, false)
  }

  ghost function Budget(c: Setup, s: System): nat
    requires OneInFlight(s.a.writer) && OneInFlight(s.b.writer)
  {
    Times(PhasesLeft(s), PhaseBudget(c)) + Inner(c, s.a) + Inner(c, s.b)
  }

  lemma UnsentBound(w: Writer<WriteCallback>)
    requires OneInFlight(w)
    ensures |Unsent(w)| <= |Messages(w.queue)|
    ensures |w.queue| == 0 ==> |Messages(w.queue)| == 0
    ensures |w.queue| == 1 ==> |Messages(w.queue)| == |w.queue[0].msg|
    ensures |w.queue| == 2 ==> |Messages(w.queue)| == |w.queue[0].msg| + |w.queue[1].msg|
  {
    if |w.queue| == 2 {
      assert w.queue[1..] == [w.queue[1]];
      assert Messages(w.queue[1..]) == w.queue[1].msg + Messages(w.queue[1..][1..]);
    }
  }

  lemma InnerBoundA(c: Setup, a: Endpoint)
    requires LocalA(c, a)
    ensures Inner(c, a) <= 2 * FrameBytes(c) + 1
  {
    hide Unsent, Messages, F1, F2, F3, F4, F5;
    UnsentBound(a.writer);
  }

  lemma InnerBoundB(c: Setup, b: Endpoint)
    requires LocalB(c, b)
    ensures Inner(c, b) <= FrameBytes(c) + 2
  {
    hide Unsent, Messages, F1, F2, F3, F4, F5;
    UnsentBound(b.writer);
  }

  lemma BothInFlight(c: Setup, s: System)
    requires Invariant(c, s)
    ensures OneInFlight(s.a.writer) && OneInFlight(s.b.writer)
  {
  }

  /** Fewer phases left, or as many phases and less work inside them, is a smaller budget. */
  lemma BudgetDrops(c: Setup, s: System, s': System)
    requires Invariant(c, s) && Invariant(c, s')
    requires PhasesLeft(s') < PhasesLeft(s) ||
             (PhasesLeft(s') == PhasesLeft(s) && Inner(c, s'.a) + Inner(c, s'.b) < Inner(c, s.a) + Inner(c, s.b))
    ensures Budget(c, s') < Budget(c, s)
  {
    hide LocalA, LocalB, Phases, PipeToA, PipeToB, Inner, PhasesLeft, OneInFlight, Times;
    BothInFlight(c, s);
    BothInFlight(c, s');
    InnerBoundA(c, s'.a);
    InnerBoundB(c, s'.b);
    MoreIsMore(PhasesLeft(s'), PhasesLeft(s), PhaseBudget(c),
               Inner(c, s'.a) + Inner(c, s'.b), Inner(c, s.a) + Inner(c, s.b));
  }

  lemma MoreIsMore(p': nat, p: nat, k: nat, x': nat, x: nat)
    requires p' < p || (p' == p && x' < x)
    requires x' < k
    ensures Times(p', k) + x' < Times(p, k) + x
  {
    if p' < p {
      assert (p' + 1) * k <= p * k;
    }
  }

  // ---------- Every handshake action uses up budget ----------

  lemma TransferDrops(c: Setup, s: System, side: Side, k: nat)
    requires CanSucceed(c) && Invariant(c, s) && Next(c, s, Transfer(side, k)).Some? && !End(s, side).phase.Up?
    ensures var s' := Next(c, s, Transfer(side, k)).value; Invariant(c, s') && Budget(c, s') < Budget(c, s)
  {
    hide Unsent, F1, F2, F3, F4, F5, Invariant, Budget, Messages;
    var s' := Next(c, s, Transfer(side, k)).value;
    ActionKeepsInvariant(c, s, Transfer(side, k));
    BothInFlight(c, s);
    TransmitUnsent(End(s, side).writer, k);
    BothInFlight(c, s');
    BudgetDrops(c, s, s');
  }

  lemma CompletionDropsA(c: Setup, s: System)
    requires CanSucceed(c) && Invariant(c, s) && Next(c, s, Completion(A)).Some? && !s.a.phase.Up?
    ensures var s' := Next(c, s, Completion(A)).value; Invariant(c, s') && Budget(c, s') < Budget(c, s)
  {
    hide Unsent, F1, F2, F3, F4, F5, Inner, PipeToA, PipeToB, Phases, Budget;
    ActionKeepsInvariant(c, s, Completion(A));
    BudgetDrops(c, s, Next(c, s, Completion(A)).value);
  }

  lemma CompletionDropsB(c: Setup, s: System)
    requires CanSucceed(c) && Invariant(c, s) && Next(c, s, Completion(B)).Some? && !s.b.phase.Up?
    ensures var s' := Next(c, s, Completion(B)).value; Invariant(c, s') && Budget(c, s') < Budget(c, s)
  {
    hide Unsent, F1, F2, F3, F4, F5, PipeToA, PipeToB, Phases, Budget, Messages;
    ActionKeepsInvariant(c, s, Completion(B));
    WrittenUnsent(s.b.writer);
    BudgetDrops(c, s, Next(c, s, Completion(B)).value);
  }

  /** With agreeing digests and names present, no end gives up. */
  lemma NobodyGivesUp(c: Setup, s: System)
    requires CanSucceed(c) && Invariant(c, s)
    ensures s.a.phase.WaitingForStatus? || s.a.phase.ReceivingChallenge? || s.a.phase.ReceivingChallengeAck?
            ==> s.a.reading
    ensures s.b.phase.ConnectedTcp? || s.b.phase.WaitingForChallengeReply? ==> s.b.reading
  {
    hide Unsent, F1, F2, F3, F4, F5, AgreeOnA, AgreeOnB, PipeToA, PipeToB;
  }

  /** A handshake read that does not give up changes phase or gets closer to the awaited bytes. */
  lemma ReadDrops(c: Setup, isA: bool, e: Endpoint, chunk: Bytes, e': Endpoint)
    requires !e.phase.Up? && OneInFlight(e.writer) && OneInFlight(e'.writer) && chunk != []
    requires ReadOutcome(c, isA, e, chunk, e')
    requires e'.phase == e.phase || (!isA && e'.phase.ConnectedTcp?) ==> e'.reading
    ensures Rank(e'.phase, isA) < Rank(e.phase, isA) || (e'.phase == e.phase && Inner(c, e') < Inner(c, e))
  {
    hide Unsent, F1, F2, F3, F4, F5;
  }

  lemma ArrivalDropsA(c: Setup, s: System, k: nat)
    requires CanSucceed(c) && Invariant(c, s) && Next(c, s, Arrival(A, k)).Some? && !s.a.phase.Up?
    ensures var s' := Next(c, s, Arrival(A, k)).value; Invariant(c, s') && Budget(c, s') < Budget(c, s)
  {
    hide Unsent, F1, F2, F3, F4, F5, Awaited, AgreeOnA, AgreeOnB, PipeToA;
    hide PipeToB, Phases, CheckedRead, Inner, Budget, ReadOutcome;
    var s' := Next(c, s, Arrival(A, k)).value;
    match s.a.phase {
      case WaitingForStatus => ArrivalAStatus(c, s, k);
      case ReceivingChallenge => ArrivalAChallenge(c, s, k);
      case ReceivingChallengeAck => ArrivalAAck(c, s, k);
    }
    NobodyGivesUp(c, s');
    ReadDrops(c, true, s.a, s.ba[..k], s'.a);
    BudgetDrops(c, s, s');
  }

  lemma ArrivalDropsB(c: Setup, s: System, k: nat)
    requires CanSucceed(c) && Invariant(c, s) && Next(c, s, Arrival(B, k)).Some? && !s.b.phase.Up?
    ensures var s' := Next(c, s, Arrival(B, k)).value; Invariant(c, s') && Budget(c, s') < Budget(c, s)
  {
    hide Unsent, F1, F2, F3, F4, F5, Awaited, AgreeOnA, AgreeOnB, PipeToA;
    hide PipeToB, Phases, CheckedRead, Inner, Budget, ReadOutcome;
    var s' := Next(c, s, Arrival(B, k)).value;
    match s.b.phase {
      case ConnectedTcp => ArrivalBName(c, s, k);
      case WaitingForChallengeReply => ArrivalBReply(c, s, k);
    }
    NobodyGivesUp(c, s');
    ReadDrops(c, false, s.b, s.ab[..k], s'.b);
    BudgetDrops(c, s, s');
  }

  /** A handshake action uses up budget; every other action leaves it alone. */
  lemma ActionSpendsBudget(c: Setup, s: System, act: Action)
    requires CanSucceed(c) && Invariant(c, s) && Next(c, s, act).Some?
    ensures var s' := Next(c, s, act).value;
            Invariant(c, s') && if IsHandshakeAction(s, act) then Budget(c, s') < Budget(c, s)
                                else Budget(c, s') == Budget(c, s)
  {
    hide Invariant, Budget, Next, CanSucceed;
    if IsHandshakeAction(s, act) {
      match act
      case Transfer(side, k) => TransferDrops(c, s, side, k);
      case Completion(A) => CompletionDropsA(c, s);
      case Completion(B) => CompletionDropsB(c, s);
      case Arrival(A, k) => ArrivalDropsA(c, s, k);
      case Arrival(B, k) => ArrivalDropsB(c, s, k);
    } else {
      OtherActionsAreFree(c, s, act);
    }
  }

  lemma OtherActionsAreFree(c: Setup, s: System, act: Action)
    requires CanSucceed(c) && Invariant(c, s) && Next(c, s, act).Some? && !IsHandshakeAction(s, act)
    ensures var s' := Next(c, s, act).value; Invariant(c, s') && Budget(c, s') == Budget(c, s)
  {
    hide Unsent, F1, F2, F3, F4, F5, Awaited, Invariant, AddBytes, HandshakeCallback, PhaseBudget;
    var s' := Next(c, s, act).value;
    ActionKeepsInvariant(c, s, act);
    BothInFlight(c, s);
    BothInFlight(c, s');
    if !act.Request? {
      ConnectedStaysConnected(c, s, act);
    }
  }

  lemma ConnectedStaysConnected(c: Setup, s: System, act: Action)
    requires Invariant(c, s) && Next(c, s, act).Some? && !act.Request? && End(s, act.side).phase.Up?
    ensures var s' := Next(c, s, act).value;
            End(s', act.side).phase.Up? && (if act.side == A then s'.b == s.b else s'.a == s.a)
  {
    hide Unsent, F1, F2, F3, F4, F5, AddBytes, HandshakeCallback, PipeToA, PipeToB, Phases;
  }

  // ---------- Some handshake action is possible ----------

  lemma CanMoveWrite(c: Setup, s: System, side: Side)
    requires Invariant(c, s) && End(s, side).writer.queue != []
    ensures Next(c, s, Transfer(side, 1)).Some? || Next(c, s, Completion(side)).Some?
  {
    hide F1, F2, F3, F4, F5, PipeToA, PipeToB, Phases, CheckedWrite;
  }

  lemma HandshakeNeverDiverges(b: Bytes)
    ensures !Diverges(Handshake, b)
    decreases |b|
  {
    if |b| >= 2 && 2 + FromBe16(b[..2]) <= |b| {
      HandshakeNeverDiverges(b[2 + FromBe16(b[..2])..]);
    }
  }

  lemma CanReadOne(c: Setup, s: System, side: Side)
    requires Invariant(c, s) && End(s, side).reading && !End(s, side).phase.Up?
    requires (if side == A then s.ba else s.ab) != []
    ensures Next(c, s, Arrival(side, 1)).Some?
  {
    hide F1, F2, F3, F4, F5, PipeToA, PipeToB, Phases, CheckedRead;
    var incoming := if side == A then s.ba else s.ab;
    HandshakeNeverDiverges(End(s, side).handshakeMsgs.rest + incoming[..1]);
  }

  /** No reachable state is stuck before both ends are connected. */
  lemma SomeHandshakeActionIsPossible(c: Setup, s: System)
    requires CanSucceed(c) && Invariant(c, s) && !(s.a.phase.Up? && s.b.phase.Up?)
    ensures exists act :: IsHandshakeAction(s, act) && Next(c, s, act).Some?
  {
    hide Next, Invariant, CanSucceed;
    if !s.b.phase.Up? && s.b.writer.queue != [] {
      CanMoveWrite(c, s, B);
      assert IsHandshakeAction(s, Transfer(B, 1)) && IsHandshakeAction(s, Completion(B));
    } else if !s.a.phase.Up? && s.a.writer.queue != [] {
      CanMoveWrite(c, s, A);
      assert IsHandshakeAction(s, Transfer(A, 1)) && IsHandshakeAction(s, Completion(A));
    } else {
      BytesAreWaiting(c, s);
      var side := if !s.a.phase.Up? && s.a.reading && s.ba != [] then A else B;
      CanReadOne(c, s, side);
      assert IsHandshakeAction(s, Arrival(side, 1));
    }
  }

  /** B waits for a frame whose last byte it has not read. */
  lemma BytesForB(c: Setup, s: System)
    requires Invariant(c, s) && s.a.writer.queue == [] && s.b.reading
    requires s.b.phase.ConnectedTcp? || (s.b.phase.WaitingForChallengeReply? && Replied(s.a))
    ensures s.ab != []
  {
    hide Unsent, F1, F2, F3, F4, F5, AgreeOnA, AgreeOnB, PipeToA, FromA, Phases;
    EmptyUnsent(s.a.writer);
  }

  /** A waits for a frame whose last byte it has not read, and B has handed it over whole. */
  lemma BytesForA(c: Setup, s: System)
    requires Invariant(c, s) && s.a.reading && !s.a.phase.Up?
    requires (s.a.phase.WaitingForStatus? && Greeted(s.b) && s.b.writer.queue == [])
          || (s.a.phase.ReceivingChallenge? && s.b.writer.queue == [])
          || (s.a.phase.ReceivingChallengeAck? && s.b.phase.Up?)
    ensures s.ba != []
  {
    hide Unsent, F1, F2, F3, F4, F5, AgreeOnA, AgreeOnB, PipeToB, Concat;
    if s.b.phase.Up? {
      assert |ToA(s)| == |s.a.handshakeMsgs.rest| + |s.ba| + |Unsent(s.b.writer)|;
    } else {
      EmptyUnsent(s.b.writer);
    }
  }

  /** With nothing left to write, the end that waits has bytes in its channel. */
  lemma BytesAreWaiting(c: Setup, s: System)
    requires CanSucceed(c) && Invariant(c, s) && !(s.a.phase.Up? && s.b.phase.Up?)
    requires (s.b.phase.Up? || s.b.writer.queue == []) && (s.a.phase.Up? || s.a.writer.queue == [])
    ensures (!s.a.phase.Up? && s.a.reading && s.ba != []) || (!s.b.phase.Up? && s.b.reading && s.ab != [])
  {
    hide Invariant, CanSucceed;
    NobodyGivesUp(c, s);
    WaitingPhases(c, s);
    if s.b.phase.ConnectedTcp? || (s.b.phase.WaitingForChallengeReply? && Replied(s.a)) {
      BytesForB(c, s);
    } else {
      BytesForA(c, s);
    }
  }

  lemma WaitingPhases(c: Setup, s: System)
    requires CanSucceed(c) && Invariant(c, s) && !(s.a.phase.Up? && s.b.phase.Up?)
    requires (s.b.phase.Up? || s.b.writer.queue == []) && (s.a.phase.Up? || s.a.writer.queue == [])
    ensures s.b.phase.ConnectedTcp? || s.b.phase.WaitingForChallengeReply? || s.b.phase.Up?
    ensures s.a.phase.WaitingForStatus? || s.a.phase.ReceivingChallenge? || s.a.phase.ReceivingChallengeAck?
    ensures s.b.phase.ConnectedTcp? || s.b.phase.Up? || (s.b.phase.WaitingForChallengeReply? && Replied(s.a))
            || s.a.phase.WaitingForStatus? || s.a.phase.ReceivingChallenge?
    ensures s.b.phase.Up? ==> s.a.phase.ReceivingChallengeAck?
  {
    hide Unsent, F1, F2, F3, F4, F5, AgreeOnA, AgreeOnB, PipeToA, PipeToB;
  }

  // ---------- Whole runs ----------

  /** The number of handshake actions in a run. */
  function HandshakeActions(c: Setup, run: seq<Action>): nat
    requires Execute(c, run).Some?
  {
    if run == [] then 0
    else
      var init := run[..|run| - 1];
      HandshakeActions(c, init) + if IsHandshakeAction(Execute(c, init).value, run[|run| - 1]) then 1 else 0
  }

  lemma {:induction false} RunSpendsBudget(c: Setup, run: seq<Action>)
    requires CanSucceed(c) && Execute(c, run).Some?
    ensures Invariant(c, Initial(c)) && Invariant(c, Execute(c, run).value)
    ensures HandshakeActions(c, run) + Budget(c, Execute(c, run).value) <= Budget(c, Initial(c))
  {
    hide Invariant, Next, Budget, CanSucceed, IsHandshakeAction;
    InitialInvariant(c);
    if run != [] {
      var init := run[..|run| - 1];
      RunSpendsBudget(c, init);
      ActionSpendsBudget(c, Execute(c, init).value, run[|run| - 1]);
    }
  }

  /**
   * Progress: however bytes are fragmented and completions ordered, a run holds at most a fixed
   * number of handshake actions, and until both ends are connected another one is possible.
   */
  lemma HandshakeCompletes(c: Setup, run: seq<Action>)
    requires CanSucceed(c) && Execute(c, run).Some?
    ensures Invariant(c, Initial(c)) && HandshakeActions(c, run) <= Budget(c, Initial(c))
    ensures var s := Execute(c, run).value;
            (s.a.phase.Up? && s.b.phase.Up?) || exists act :: IsHandshakeAction(s, act) && Next(c, s, act).Some?
  {
    hide Invariant, Next, Budget, CanSucceed, IsHandshakeAction, Execute, HandshakeActions;
    RunSpendsBudget(c, run);
    var s := Execute(c, run).value;
    if !(s.a.phase.Up? && s.b.phase.Up?) {
      SomeHandshakeActionIsPossible(c, s);
    }
  }

  /** The condition is exact: a run in which both ends get connected has names and agreeing digests. */
  lemma ConnectedOnlyIfItCanSucceed(c: Setup, run: seq<Action>)
    requires WellSetUp(c) && Execute(c, run).Some?
    requires var s := Execute(c, run).value; s.a.phase.Up? && s.b.phase.Up?
    ensures CanSucceed(c)
  {
    hide Next, Unsent, F1, F2, F3, F4, F5, AgreeOnA, AgreeOnB, PipeToA, PipeToB, LocalA, LocalB;
    EveryRunKeepsInvariant(c, run);
  }
}
