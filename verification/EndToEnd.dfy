/**
 * From requested operation to dispatched operation, over every run of the two connected nodes: the
 * handshake, the write queue, the fragmented channel, the lexer and the dispatcher together.
 */
module EndToEnd {
  import opened ByteCodec
  import opened Lexer
  import opened WriteQueue
  import opened Endpoint
  import opened HandshakeSystem
  import opened HandshakeSteps
  import opened HandOverAtA
  import HandshakeTheorems
  import CM = ControlMessages

  // ---------- Which frames of a stream have arrived whole ----------

  function WholeFrames(fs: seq<Bytes>, k: nat): (n: nat)
    ensures n <= |fs|
  {
    if fs == [] || k < |fs[0]| then 0 else 1 + WholeFrames(fs[1..], k - |fs[0]|)
  }

  /** The first `k` bytes of a stream of frames lex into the frames that have arrived whole. */
  lemma {:induction false} LexPrefix(h: Header, fs: seq<Bytes>, p: Bytes, q: Bytes)
    requires AllFrames(h, fs) && p + q == Concat(fs)
    ensures Lex(h, p).msgs == fs[..WholeFrames(fs, |p|)] && !Diverges(h, p)
  {
    hide Lex, Diverges, IsFrame;
    if fs == [] {
      assert p == [];
      LexEmpty(h);
      EmptyConverges(h);
    } else if |p| < |fs[0]| {
      StartOfFrame(fs, p, q);
      LexPartial(h, p, fs[0]);
    } else {
      var p' := p[|fs[0]|..];
      RestOfStream(fs, p, q);
      LexPrefix(h, fs[1..], p', q);
      LexFrame(h, fs[0], p');
      assert [fs[0]] + fs[1..][..WholeFrames(fs[1..], |p'|)] == fs[..WholeFrames(fs, |p|)];
    }
  }

  lemma EmptyConverges(h: Header)
    ensures !Diverges(h, [])
  {
  }

  lemma StartOfFrame(fs: seq<Bytes>, p: Bytes, q: Bytes)
    requires fs != [] && p + q == Concat(fs) && |p| < |fs[0]|
    ensures p < fs[0]
  {
    assert p == (p + q)[..|p|] == Concat(fs)[..|p|] == fs[0][..|p|];
  }

  lemma RestOfStream(fs: seq<Bytes>, p: Bytes, q: Bytes)
    requires fs != [] && p + q == Concat(fs) && |fs[0]| <= |p|
    ensures p == fs[0] + p[|fs[0]|..] && p[|fs[0]|..] + q == Concat(fs[1..])
  {
    assert fs[0] == Concat(fs)[..|fs[0]|] == (p + q)[..|fs[0]|] == p[..|fs[0]|];
    assert p[|fs[0]|..] + q == (p + q)[|fs[0]|..] == Concat(fs)[|fs[0]|..];
  }

  lemma {:induction false} AllArrived(fs: seq<Bytes>)
    ensures WholeFrames(fs, |Concat(fs)|) == |fs|
  {
    if fs != [] {
      AllArrived(fs[1..]);
    }
  }

  // ---------- What the application asks for ----------

  datatype Item = Tock | Operation(op: CM.Op) | Garbled

  /** What a receiver makes of a message. */
  function ItemOf(msg: Bytes): Item {
    if msg == TICK then Tock
    else
      match CM.Dispatch(false, msg)
      case Handled(op) => Operation(op)
      case _ => Garbled
  }

  function Items(msgs: seq<Bytes>): seq<Item> {
    seq(|msgs|, i requires 0 <= i < |msgs| => ItemOf(msgs[i]))
  }

  /** Arguments that fit the format, and a message whose size fits its length field. */
  predicate Sendable(op: CM.Op) {
    CM.InRange(op) && |CM.Built(op)| < 0x1_0000_0000
  }

  predicate Proper(item: Item) {
    item.Tock? || (item.Operation? && Sendable(item.op))
  }

  function FrameOf(item: Item): Bytes {
    match item
    case Tock => TICK
    case Operation(op) => CM.Built(op)
    case Garbled => []
  }

  function Frames(items: seq<Item>): seq<Bytes> {
    seq(|items|, i requires 0 <= i < |items| => FrameOf(items[i]))
  }

  predicate AllProper(items: seq<Item>) {
    forall i | 0 <= i < |items| :: Proper(items[i])
  }

  lemma TickIsFrame()
    ensures IsFrame(Connected, TICK)
  {
  }

  lemma ProperSurvives(item: Item)
    requires Proper(item)
    ensures IsFrame(Connected, FrameOf(item)) && ItemOf(FrameOf(item)) == item
  {
    hide CM.Built, CM.Dispatch, CM.InRange, IsFrame;
    if item.Tock? {
      TickIsFrame();
    } else {
      CM.BuiltIsFrame(item.op);
      CM.DispatchUndoesBuild(false, item.op);
    }
  }

  lemma FramesSurvive(items: seq<Item>)
    requires AllProper(items)
    ensures AllFrames(Connected, Frames(items)) && Items(Frames(items)) == items
  {
    hide FrameOf, ItemOf, Proper, IsFrame;
    forall i | 0 <= i < |items| ensures IsFrame(Connected, FrameOf(items[i])) && ItemOf(FrameOf(items[i])) == items[i] {
      ProperSurvives(items[i]);
    }
  }

  /** A step of a run, seen from one side: its application asks for an operation, or anything else happens. */
  datatype Step = Ask(op: CM.Op) | Other(act: Action)

  /** The side's application uses the connection only through the six operations. */
  predicate IsStep(side: Side, st: Step) {
    match st
    case Ask(op) => Sendable(op)
    case Other(act) => !(act.Request? && act.side == side)
  }

  predicate IsPlan(side: Side, plan: seq<Step>) {
    forall i | 0 <= i < |plan| :: IsStep(side, plan[i])
  }

  function ActionOf(side: Side, st: Step): Action {
    match st
    case Ask(op) => Request(side, CM.Built(op))
    case Other(act) => act
  }

  function Run(side: Side, plan: seq<Step>): (run: seq<Action>)
    ensures |run| == |plan|
  {
    if plan == [] then [] else Run(side, plan[..|plan| - 1]) + [ActionOf(side, plan[|plan| - 1])]
  }

  function ChannelTo(s: System, side: Side): Bytes {
    if side == A then s.ba else s.ab
  }

  /** The read makes the side take a tick from its connection. */
  predicate TakesTick(side: Side, s: System, act: Action) {
    && act.Arrival? && act.side == side && End(s, side).phase.Up? && act.k <= |ChannelTo(s, side)|
    && var msgs := AddBytes(Connected, End(s, side).connectedMsgs, ChannelTo(s, side)[..act.k]).msgs;
       msgs != [] && msgs[0] == TICK
  }

  /** What a step puts on the side's connection: an operation asked for while connected, or the answer to a tick. */
  function Puts(side: Side, s: System, st: Step): seq<Item> {
    match st
    case Ask(op) => if End(s, side).phase.Up? then [Operation(op)] else []
    case Other(act) => if TakesTick(side, s, act) then [Tock] else []
  }

  /** Everything put on the side's connection in a run, in order. */
  function Asked(side: Side, c: Setup, plan: seq<Step>): seq<Item>
    requires Execute(c, Run(side, plan)).Some?
  {
    if plan == [] then []
    else
      var init := plan[..|plan| - 1];
      assert Run(side, plan)[..|plan| - 1] == Run(side, init);
      Asked(side, c, init) + Puts(side, Execute(c, Run(side, init)).value, plan[|plan| - 1])
  }

  // ---------- What a step does to a side's record of sent messages ----------

  lemma SentByReadAtA(c: Setup, s: System, k: nat)
    requires Invariant(c, s) && CanRead(s.a, s.ba, k)
    ensures ArrivedAtA(c, s, k).a.sent == s.a.sent + if TakesTick(A, s, Arrival(A, k)) then [TICK] else []
  {
    hide Lex, Unsent, F1, F2, F3, F4, F5, PipeToA, PipeToB, Phases, LocalB, AddBytes, Trigger, Digest;
    hide HandshakeFrames.ParseStatus, HandshakeFrames.ParseChallenge, HandshakeFrames.ParseAck;
    hide HandshakeFrames.ParseName, HandshakeFrames.ParseReply;
    hide HandshakeFrames.ReplyFrame, HandshakeFrames.StatusFrame, HandshakeFrames.ChallengeFrame;
    assert LocalA(c, s.a);
  }

  lemma SentByReadAtB(c: Setup, s: System, k: nat)
    requires Invariant(c, s) && CanRead(s.b, s.ab, k)
    ensures ArrivedAtB(c, s, k).b.sent == s.b.sent + if TakesTick(B, s, Arrival(B, k)) then [TICK] else []
  {
    hide Lex, Unsent, F1, F2, F3, F4, F5, PipeToA, PipeToB, Phases, LocalA, AddBytes, Trigger, Digest;
    hide HandshakeFrames.ParseStatus, HandshakeFrames.ParseChallenge, HandshakeFrames.ParseAck;
    hide HandshakeFrames.ParseName, HandshakeFrames.ParseReply, HandshakeFrames.SupportedVersion;
    hide HandshakeFrames.AckFrame, HandshakeFrames.StatusFrame, HandshakeFrames.ChallengeFrame;
    assert LocalB(c, s.b);
  }

  lemma SentByStep(side: Side, c: Setup, s: System, st: Step)
    requires Invariant(c, s) && IsStep(side, st) && Next(c, s, ActionOf(side, st)).Some?
    ensures End(Next(c, s, ActionOf(side, st)).value, side).sent == End(s, side).sent + Frames(Puts(side, s, st))
  {
    hide Invariant, CheckedRead, TakesTick, CM.Built, Trigger, Written, Sendable;
    NoFrames();
    if st.Other? {
      TicksArrive(side, s, st.act);
      if st.act.Arrival? && st.act.side == side {
        if side == A {
          SentByReadAtA(c, s, st.act.k);
        } else {
          SentByReadAtB(c, s, st.act.k);
        }
      }
    }
  }

  lemma TicksArrive(side: Side, s: System, act: Action)
    ensures TakesTick(side, s, act) ==> act.Arrival? && act.side == side
  {
    hide AddBytes;
  }

  lemma FramesAppend(xs: seq<Item>, ys: seq<Item>)
    ensures Frames(xs + ys) == Frames(xs) + Frames(ys)
  {
    hide FrameOf;
  }

  lemma {:induction false} SentIsAsked(side: Side, c: Setup, plan: seq<Step>)
    requires WellSetUp(c) && IsPlan(side, plan) && Execute(c, Run(side, plan)).Some?
    ensures End(Execute(c, Run(side, plan)).value, side).sent == Frames(Asked(side, c, plan))
    ensures AllProper(Asked(side, c, plan))
  {
    hide Invariant, Next, Frames, WellSetUp, Execute, Run, Asked, Puts, AllProper, IsStep;
    if plan == [] {
      NothingAsked(side, c);
    } else {
      var init, last := plan[..|plan| - 1], plan[|plan| - 1];
      LastStep(side, c, plan);
      SentIsAsked(side, c, init);
      var s := Execute(c, Run(side, init)).value;
      EveryRunKeepsInvariant(c, Run(side, init));
      SentByStep(side, c, s, last);
      FramesAppend(Asked(side, c, init), Puts(side, s, last));
      PutsProper(side, s, last, Asked(side, c, init));
    }
  }

  lemma NothingAsked(side: Side, c: Setup)
    ensures Execute(c, Run(side, [])).Some? && End(Execute(c, Run(side, [])).value, side).sent == []
    ensures Asked(side, c, []) == [] && Frames([]) == [] && AllProper([])
  {
  }

  lemma LastStep(side: Side, c: Setup, plan: seq<Step>)
    requires plan != [] && Execute(c, Run(side, plan)).Some?
    ensures var init, last := plan[..|plan| - 1], plan[|plan| - 1];
            && Execute(c, Run(side, init)).Some?
            && Execute(c, Run(side, plan)) == Next(c, Execute(c, Run(side, init)).value, ActionOf(side, last))
            && Asked(side, c, plan) == Asked(side, c, init) + Puts(side, Execute(c, Run(side, init)).value, last)
  {
    hide Next, Puts, ActionOf;
    assert Run(side, plan)[..|plan| - 1] == Run(side, plan[..|plan| - 1]);
  }

  lemma PutsProper(side: Side, s: System, st: Step, items: seq<Item>)
    requires IsStep(side, st) && AllProper(items)
    ensures AllProper(items + Puts(side, s, st))
  {
    hide TakesTick, Sendable;
  }

  lemma NoFrames()
    ensures Frames([]) == []
  {
  }

  // ---------- What has arrived at an end ----------

  /** The messages an end has taken or queued, in order of arrival. */
  function Taken(e: Endpoint): seq<Bytes> {
    e.handled + e.connectedMsgs.msgs
  }

  /** All the bytes an end's connected lexer has been fed. */
  function Arrived(e: Endpoint): Bytes {
    Concat(Taken(e)) + e.connectedMsgs.rest
  }

  /** The messages and the leftover of an end are those of the uncut stream. */
  ghost predicate LexedWhole(e: Endpoint) {
    Lex(Connected, Arrived(e)) == Lexed(Taken(e), e.connectedMsgs.rest)
  }

  lemma FeedingKeepsLexed(e: Endpoint, chunk: Bytes)
    requires LexedWhole(e) && e.received.Connected?
    ensures LexedWhole(Feed(e, chunk))
  {
    hide Lex, Concat;
    var e' := Feed(e, chunk);
    var more := Lex(Connected, e.connectedMsgs.rest + chunk);
    LexSplit(Connected, Arrived(e), chunk);
    LexConserves(Connected, e.connectedMsgs.rest + chunk);
    assert Taken(e') == Taken(e) + more.msgs;
    ConcatSplit(Taken(e), more.msgs);
    Assoc2(Concat(Taken(e)), Concat(more.msgs), more.rest);
    Assoc2(Concat(Taken(e)), e.connectedMsgs.rest, chunk);
    assert Arrived(e') == Arrived(e) + chunk;
  }

  lemma TakingKeepsTaken(hash: Hash, self: Identity, e: Endpoint)
    requires e.received.Connected? && e.connectedMsgs.msgs != []
    ensures var e' := ReadCallback(hash, self, e);
            Taken(e') == Taken(e) && e'.connectedMsgs.rest == e.connectedMsgs.rest
  {
    hide Trigger;
    var msgs := e.connectedMsgs.msgs;
    assert e.handled + [msgs[0]] + msgs[1..] == e.handled + msgs;
  }

  /** A read on an established connection. */
  lemma ReadKeepsLexed(hash: Hash, self: Identity, e: Endpoint, chunk: Bytes)
    requires LexedWhole(e) && e.received.Connected?
    ensures LexedWhole(CheckedRead(hash, self, e, chunk))
  {
    hide Lex, Concat, LexedWhole, ReadCallback;
    FeedingKeepsLexed(e, chunk);
    var e1 := Feed(e, chunk);
    if e1.connectedMsgs.msgs != [] {
      TakingKeepsTaken(hash, self, e1);
      SameLexed(e1, ReadCallback(hash, self, e1));
    }
  }

  lemma SameLexed(e: Endpoint, e': Endpoint)
    requires LexedWhole(e) && Taken(e') == Taken(e) && e'.connectedMsgs.rest == e.connectedMsgs.rest
    ensures LexedWhole(e')
  {
  }

  lemma EmptyLexed(e: Endpoint)
    requires e.handled == [] && e.connectedMsgs == Lexed([], [])
    ensures LexedWhole(e)
  {
    assert Arrived(e) == [];
    LexEmpty(Connected);
  }

  /** Reads of the handshake leave B's connected lexer alone. */
  lemma HandshakeReadAtB(c: Setup, s: System, k: nat)
    requires Invariant(c, s) && CanRead(s.b, s.ab, k) && !s.b.phase.Up?
    ensures var b' := ArrivedAtB(c, s, k).b; b'.handled == s.b.handled && b'.connectedMsgs == s.b.connectedMsgs
  {
    hide Lex, Unsent, F1, F2, F3, F4, F5, PipeToA, PipeToB, Phases, LocalA, AddBytes, Trigger, Digest;
    hide HandshakeFrames.ParseStatus, HandshakeFrames.ParseChallenge, HandshakeFrames.ParseAck;
    hide HandshakeFrames.ParseName, HandshakeFrames.ParseReply, HandshakeFrames.SupportedVersion;
    hide HandshakeFrames.AckFrame, HandshakeFrames.StatusFrame, HandshakeFrames.ChallengeFrame;
    assert LocalB(c, s.b);
  }

  lemma LexerOfPhase(c: Setup, s: System)
    requires Invariant(c, s)
    ensures (s.a.received.Connected? <==> s.a.phase.Up?) && (s.b.received.Connected? <==> s.b.phase.Up?)
  {
    hide Phases, PipeToA, PipeToB, Unsent, OneInFlight, F1, F2, F3, F4, F5;
  }

  lemma ArrivalKeepsLexed(c: Setup, s: System, side: Side, k: nat)
    requires Invariant(c, s) && LexedWhole(s.a) && LexedWhole(s.b) && Next(c, s, Arrival(side, k)).Some?
    ensures var s' := Next(c, s, Arrival(side, k)).value; LexedWhole(s'.a) && LexedWhole(s'.b)
  {
    hide LexedWhole, Invariant, CheckedRead;
    LexerOfPhase(c, s);
    var s' := Next(c, s, Arrival(side, k)).value;
    if End(s, side).phase.Up? {
      if side == A {
        ReadKeepsLexed(c.hash, c.a, s.a, s.ba[..k]);
      } else {
        ReadKeepsLexed(c.hash, c.b, s.b, s.ab[..k]);
      }
    } else if side == A {
      HandshakeReadAtA(c, s, k);
      SameLexed(s.a, s'.a);
    } else {
      HandshakeReadAtB(c, s, k);
      SameLexed(s.b, s'.b);
    }
  }

  lemma StepKeepsLexed(c: Setup, s: System, act: Action)
    requires Invariant(c, s) && LexedWhole(s.a) && LexedWhole(s.b) && Next(c, s, act).Some?
    ensures var s' := Next(c, s, act).value; LexedWhole(s'.a) && LexedWhole(s'.b)
  {
    hide Invariant, CheckedRead, LexedWhole, Trigger, Written;
    if act.Arrival? {
      ArrivalKeepsLexed(c, s, act.side, act.k);
    } else {
      SameLexed(s.a, Next(c, s, act).value.a);
      SameLexed(s.b, Next(c, s, act).value.b);
    }
  }

  lemma {:induction false} EveryRunLexesWhole(c: Setup, run: seq<Action>)
    requires WellSetUp(c) && Execute(c, run).Some?
    ensures LexedWhole(Execute(c, run).value.a) && LexedWhole(Execute(c, run).value.b)
  {
    hide Invariant, Next, LexedWhole, WellSetUp;
    if run == [] {
      EmptyLexed(Initial(c).a);
      EmptyLexed(Initial(c).b);
    } else {
      var init := run[..|run| - 1];
      EveryRunLexesWhole(c, init);
      EveryRunKeepsInvariant(c, init);
      StepKeepsLexed(c, Execute(c, init).value, run[|run| - 1]);
    }
  }

  // ---------- From A to B ----------

  /** Once B accepts, what has arrived, what is in the channel and what A has not sent yet make up A's stream. */
  lemma StreamOfA(c: Setup, run: seq<Action>)
    requires WellSetUp(c) && Execute(c, run).Some? && Accepted(Execute(c, run).value.b)
    ensures var s := Execute(c, run).value;
            OneInFlight(s.a.writer) && Arrived(s.b) + (s.ab + Unsent(s.a.writer)) == Concat(s.a.sent)
  {
    hide Execute, Unsent, Concat, OneInFlight, Accepted;
    HandshakeTheorems.NothingSentToBIsLost(c, run);
    var s := Execute(c, run).value;
    ConcatSplit(s.b.handled, s.b.connectedMsgs.msgs);
    Assoc2(Arrived(s.b), s.ab, Unsent(s.a.writer));
  }

  lemma ItemsSplit(xs: seq<Bytes>, ys: seq<Bytes>)
    ensures Items(xs + ys) == Items(xs) + Items(ys)
  {
    hide ItemOf;
  }

  lemma ItemsOfPart(items: seq<Item>, m: nat, n: nat)
    requires AllProper(items) && m <= |items| && n <= |items| - m
    ensures |Frames(items)| == |items| && Items(Frames(items)[m..][..n]) == items[m..][..n]
  {
    hide ItemOf, FrameOf, Proper;
    FramesSurvive(items);
    assert Items(Frames(items)[m..][..n]) == Items(Frames(items))[m..][..n];
  }

  /** An end that has lexed the stream of frames from the m-th on holds the items that have arrived whole. */
  lemma TakenItems(e: Endpoint, items: seq<Item>, m: nat, q: Bytes)
    requires LexedWhole(e) && AllProper(items) && m <= |items|
    requires |Frames(items)| == |items| && Arrived(e) + q == Concat(Frames(items)[m..])
    ensures Items(e.handled) + Items(e.connectedMsgs.msgs)
            == items[m..][..WholeFrames(Frames(items)[m..], |Arrived(e)|)]
  {
    hide Concat, Frames, Items, Lex, Diverges, AllProper, WholeFrames, Arrived, IsFrame;
    FramesSurvive(items);
    LexPrefix(Connected, Frames(items)[m..], Arrived(e), q);
    ItemsSplit(e.handled, e.connectedMsgs.msgs);
    ItemsOfPart(items, m, WholeFrames(Frames(items)[m..], |Arrived(e)|));
  }

  /**
   * The operations B has dispatched, followed by those waiting in its lexer, are exactly the
   * operations asked for at A whose frames have arrived whole, in the order they were asked for.
   */
  lemma OperationsArriveInOrder(c: Setup, plan: seq<Step>)
    requires WellSetUp(c) && IsPlan(A, plan) && Execute(c, Run(A, plan)).Some?
    requires Accepted(Execute(c, Run(A, plan)).value.b)
    ensures var s := Execute(c, Run(A, plan)).value; var asked := Asked(A, c, plan);
            && |Frames(asked)| == |asked|
            && OneInFlight(s.a.writer) && Arrived(s.b) + (s.ab + Unsent(s.a.writer)) == Concat(Frames(asked))
            && Items(s.b.handled) + Items(s.b.connectedMsgs.msgs)
               == asked[..WholeFrames(Frames(asked), |Arrived(s.b)|)]
  {
    hide Execute, Run, IsPlan, Asked, Unsent, Concat, OneInFlight, Accepted, Frames, Items, Lex, LexedWhole, AllProper;
    hide WholeFrames, Arrived, WellSetUp;
    var s := Execute(c, Run(A, plan)).value;
    var asked := Asked(A, c, plan);
    SentIsAsked(A, c, plan);
    StreamOfA(c, Run(A, plan));
    EveryRunLexesWhole(c, Run(A, plan));
    ItemsOfPart(asked, 0, 0);
    assert Frames(asked)[0..] == Frames(asked) && asked[0..] == asked;
    TakenItems(s.b, asked, 0, s.ab + Unsent(s.a.writer));
  }

  /** When nothing is left to send or to read, everything asked for has been dispatched or is queued. */
  lemma NothingIsLost(c: Setup, plan: seq<Step>)
    requires WellSetUp(c) && IsPlan(A, plan) && Execute(c, Run(A, plan)).Some?
    requires Accepted(Execute(c, Run(A, plan)).value.b)
    requires var s := Execute(c, Run(A, plan)).value; s.ab == [] && s.a.writer.queue == []
    ensures var s := Execute(c, Run(A, plan)).value;
            Items(s.b.handled) + Items(s.b.connectedMsgs.msgs) == Asked(A, c, plan)
  {
    hide Execute, Run, IsPlan, Asked, Concat, OneInFlight, Accepted, Frames, Items, WholeFrames, Arrived, WellSetUp;
    var s := Execute(c, Run(A, plan)).value;
    var asked := Asked(A, c, plan);
    OperationsArriveInOrder(c, plan);
    EmptyUnsent(s.a.writer);
    assert Arrived(s.b) + ([] + []) == Arrived(s.b);
    AllArrived(Frames(asked));
    assert asked[..|asked|] == asked;
  }

  /** On such runs the lexer's recursion ends, whatever part of the channel the next read returns. */
  lemma NextReadEnds(c: Setup, plan: seq<Step>, k: nat)
    requires WellSetUp(c) && IsPlan(A, plan) && Execute(c, Run(A, plan)).Some?
    requires Accepted(Execute(c, Run(A, plan)).value.b) && k <= |Execute(c, Run(A, plan)).value.ab|
    ensures var s := Execute(c, Run(A, plan)).value; !Diverges(Connected, s.b.connectedMsgs.rest + s.ab[..k])
  {
    hide Execute, Run, IsPlan, Asked, Unsent, Concat, OneInFlight, Accepted, Frames, Lex, Diverges, AllProper;
    hide WholeFrames, WellSetUp;
    var s := Execute(c, Run(A, plan)).value;
    var fs := s.a.sent;
    SentIsAsked(A, c, plan);
    FramesSurvive(Asked(A, c, plan));
    StreamOfA(c, Run(A, plan));
    EveryRunLexesWhole(c, Run(A, plan));
    LexPrefix(Connected, fs, Arrived(s.b), s.ab + Unsent(s.a.writer));
    var n := WholeFrames(fs, |Arrived(s.b)|);
    var p, q := s.b.connectedMsgs.rest + s.ab[..k], s.ab[k..] + Unsent(s.a.writer);
    RestOfFrames(fs, n, s.b.connectedMsgs.rest, s.ab, Unsent(s.a.writer), k);
    LexPrefix(Connected, fs[n..], p, q);
  }

  lemma RestOfFrames(fs: seq<Bytes>, n: nat, rest: Bytes, channel: Bytes, unsent: Bytes, k: nat)
    requires n <= |fs| && k <= |channel| && Concat(fs[..n]) + rest + (channel + unsent) == Concat(fs)
    ensures (rest + channel[..k]) + (channel[k..] + unsent) == Concat(fs[n..])
  {
    hide Concat;
    ConcatSplit(fs[..n], fs[n..]);
    assert fs[..n] + fs[n..] == fs;
    assert channel == channel[..k] + channel[k..];
    Assoc3(rest, channel[..k], channel[k..], unsent);
    Assoc2(rest, channel[..k], channel[k..] + unsent);
    Assoc2(channel[..k], channel[k..], unsent);
    Assoc2(Concat(fs[..n]), rest, channel + unsent);
    CancelPrefix(Concat(fs[..n]), rest + (channel + unsent), Concat(fs[n..]));
  }

  lemma CancelPrefix(p: Bytes, x: Bytes, y: Bytes)
    requires p + x == p + y
    ensures x == y
  {
    assert x == (p + x)[|p|..] == (p + y)[|p|..] == y;
  }

  // ---------- From B to A ----------

  /**
   * What A's connection reads: B's stream from where the bytes left behind at the switch end. Its
   * messages and leftover are those of lexing that stream, wherever it starts.
   */
  lemma ConnectionOfAReads(c: Setup, plan: seq<Step>)
    requires WellSetUp(c) && IsPlan(B, plan) && Execute(c, Run(B, plan)).Some?
    requires Execute(c, Run(B, plan)).value.a.phase.Up?
    ensures var s := Execute(c, Run(B, plan)).value; var stream := Concat(Frames(Asked(B, c, plan)));
            && OneInFlight(s.b.writer)
            && Stranded(s.a) + (Arrived(s.a) + (s.ba + Unsent(s.b.writer))) == stream
            && Lexed(s.a.handled + s.a.connectedMsgs.msgs, s.a.connectedMsgs.rest) == Lex(Connected, Arrived(s.a))
  {
    hide Execute, Run, IsPlan, Asked, Unsent, Concat, OneInFlight, Frames, Lex, AllProper, WellSetUp, Stranded;
    var s := Execute(c, Run(B, plan)).value;
    SentIsAsked(B, c, plan);
    StreamOfB(c, Run(B, plan));
    EveryRunLexesWhole(c, Run(B, plan));
    ConcatSplit(s.a.handled, s.a.connectedMsgs.msgs);
    Assoc2(Arrived(s.a), s.ba, Unsent(s.b.writer));
  }

  /**
   * When the bytes left behind are the first `m` messages of B - none, after a clean switch - the
   * operations dispatched at A and those in its lexer are those asked for at B after them, whole
   * frames only, in order. The first `m` are lost.
   */
  lemma OperationsArriveAtA(c: Setup, plan: seq<Step>, m: nat)
    requires WellSetUp(c) && IsPlan(B, plan) && Execute(c, Run(B, plan)).Some?
    requires Execute(c, Run(B, plan)).value.a.phase.Up?
    requires var fs := Frames(Asked(B, c, plan));
             m <= |fs| && Stranded(Execute(c, Run(B, plan)).value.a) == Concat(fs[..m])
    ensures var s := Execute(c, Run(B, plan)).value; var asked := Asked(B, c, plan); var fs := Frames(asked);
            && |fs| == |asked|
            && Items(s.a.handled) + Items(s.a.connectedMsgs.msgs) == asked[m..][..WholeFrames(fs[m..], |Arrived(s.a)|)]
  {
    hide Execute, Run, IsPlan, Asked, Unsent, Concat, OneInFlight, Frames, Items, Lex, LexedWhole, AllProper;
    hide WholeFrames, Arrived, WellSetUp, Stranded;
    var s := Execute(c, Run(B, plan)).value;
    var asked := Asked(B, c, plan);
    var fs := Frames(asked);
    SentIsAsked(B, c, plan);
    EveryRunLexesWhole(c, Run(B, plan));
    ItemsOfPart(asked, 0, 0);
    ConnectionOfAReads(c, plan);
    var q := s.ba + Unsent(s.b.writer);
    ConcatSplit(fs[..m], fs[m..]);
    assert fs[..m] + fs[m..] == fs;
    CancelPrefix(Concat(fs[..m]), Arrived(s.a) + q, Concat(fs[m..]));
    TakenItems(s.a, asked, m, q);
  }

  /** After a clean switch nothing is missing. */
  lemma CleanSwitchLosesNothing(c: Setup, plan: seq<Step>)
    requires WellSetUp(c) && IsPlan(B, plan) && Execute(c, Run(B, plan)).Some?
    requires var s := Execute(c, Run(B, plan)).value; s.a.phase.Up? && s.a.handshakeMsgs == Lexed([], [])
    ensures var s := Execute(c, Run(B, plan)).value; var asked := Asked(B, c, plan); var fs := Frames(asked);
            && |fs| == |asked|
            && Items(s.a.handled) + Items(s.a.connectedMsgs.msgs) == asked[..WholeFrames(fs, |Arrived(s.a)|)]
  {
    hide Execute, Run, IsPlan, Asked, Concat, Frames, Items, WholeFrames, Arrived, WellSetUp;
    ConcatEmpty();
    var asked := Asked(B, c, plan);
    assert Frames(asked)[..0] == [];
    OperationsArriveAtA(c, plan, 0);
    assert Frames(asked)[0..] == Frames(asked) && asked[0..] == asked;
  }
}
