/**
 * A mailbox shared by the I/O context (messages and broken links arrive), the timer, and any number
 * of receivers. Every section under the mailbox's lock is one step.
 */
module Mailbox {
  import opened ByteCodec
  import opened Terms

  datatype BrokenLink = BrokenLink(reason: Bytes, from: Pid)

  /** `waiting` counts the receivers blocked on the condition variable. */
  datatype Box = Box(received: seq<Bytes>, broken: seq<BrokenLink>, ready: bool, waiting: nat)

  function EmptyBox(): Box {
    Box([], [], false, 0)
  }

  /** How a receive ends: with a message, or by an exception. */
  datatype Report = Returned(msg: Bytes) | LinkBroken(link: BrokenLink) | TimedOut

  function Incoming(b: Box, msg: Bytes): Box {
    b.(received := [msg] + b.received, ready := true)
  }

  function Broke(b: Box, link: BrokenLink): Box {
    b.(broken := b.broken + [link], ready := true)
  }

  /** A timer that was cancelled too late reports nothing. */
  function Timer(b: Box, aborted: bool): Box {
    if aborted then b else b.(ready := true)
  }

  /** A receiver that enters goes on at once when a message is queued or something was signalled. */
  predicate GoesOn(b: Box) {
    b.received != [] || b.ready
  }

  function Pick(b: Box): (Box, Report) {
    var b := b.(ready := false);
    if b.broken != [] then (b.(broken := b.broken[1..]), LinkBroken(b.broken[0]))
    else if b.received == [] then (b, TimedOut)
    else (b.(received := b.received[1..]), Returned(b.received[0]))
  }

  class ActualMailbox {
    var receivedMsgs: seq<Bytes>
    var brokenLinks: seq<BrokenLink>
    var messageReady: bool
    var waiting: nat

    ghost function View(): Box
      reads this
    {
      Box(receivedMsgs, brokenLinks, messageReady, waiting)
    }

    constructor ()
      ensures View() == EmptyBox()
    {
      receivedMsgs, brokenLinks, messageReady, waiting := [], [], false, 0;
    }

    method OnIncoming(msg: Bytes)
      modifies this
      ensures View() == Incoming(old(View()), msg)
    {
      receivedMsgs := [msg] + receivedMsgs;
      messageReady := true;
    }

    method OnLinkBroken(reason: Bytes, pid: Pid)
      modifies this
      ensures View() == Broke(old(View()), BrokenLink(reason, pid))
    {
      brokenLinks := brokenLinks + [BrokenLink(reason, pid)];
      messageReady := true;
    }

    method ReceiveTmo(aborted: bool)
      modifies this
      ensures View() == Timer(old(View()), aborted)
    {
      if aborted {
        return;
      }
      messageReady := true;
    }

    /** The receiver's first section: pick at once, or start to wait. */
    method Receive() returns (report: Option<Report>)
      modifies this
      ensures old(GoesOn(View())) ==> (View(), report) == (Pick(old(View())).0, Some(Pick(old(View())).1))
      ensures !old(GoesOn(View())) ==> report == None && View() == old(View()).(waiting := old(waiting) + 1)
    {
      if receivedMsgs == [] && !messageReady {
        waiting := waiting + 1;
        return None;
      }
      var r := PickFirstMsg();
      report := Some(r);
    }

    /** A waiting receiver wakes up; it goes on only when something was signalled. */
    method WakeUp() returns (report: Option<Report>)
      requires waiting > 0
      modifies this
      ensures !old(messageReady) ==> report == None && View() == old(View())
      ensures old(messageReady) ==>
                var p := Pick(old(View()).(waiting := old(waiting) - 1)); (View(), report) == (p.0, Some(p.1))
    {
      if !messageReady {
        return None;
      }
      waiting := waiting - 1;
      var r := PickFirstMsg();
      report := Some(r);
    }

    method PickFirstMsg() returns (report: Report)
      modifies this
      ensures (View(), report) == Pick(old(View()))
    {
      messageReady := false;
      if brokenLinks != [] {
        report := ReportBrokenLink();
        return;
      }
      if receivedMsgs == [] {
        return TimedOut;
      }
      report := Returned(receivedMsgs[0]);
      receivedMsgs := receivedMsgs[1..];
    }

    method ReportBrokenLink() returns (report: Report)
      requires brokenLinks != []
      modifies this`brokenLinks
      ensures report == LinkBroken(old(brokenLinks)[0]) && brokenLinks == old(brokenLinks)[1..]
    {
      report := LinkBroken(brokenLinks[0]);
      brokenLinks := brokenLinks[1..];
    }
  }

  // ---------- Runs ----------

  datatype Event =
    | Arrive(msg: Bytes)
    | Break(link: BrokenLink)
    | Expire(aborted: bool)
    | Enter            // a receiver calls receive
    | Wake             // a waiting receiver is woken, rightly or spuriously

  /** The mailbox and what its receivers have reported, in order. */
  datatype State = State(box: Box, reports: seq<Report>)

  function PickInto(s: State, b: Box): State {
    var (b', r) := Pick(b);
    State(b', s.reports + [r])
  }

  predicate Picks(s: State, e: Event) {
    (e.Enter? && GoesOn(s.box)) || (e.Wake? && s.box.waiting > 0 && s.box.ready)
  }

  function Next(s: State, e: Event): State {
    match e
    case Arrive(msg) => s.(box := Incoming(s.box, msg))
    case Break(link) => s.(box := Broke(s.box, link))
    case Expire(aborted) => s.(box := Timer(s.box, aborted))
    case Enter =>
      if GoesOn(s.box) then PickInto(s, s.box) else s.(box := s.box.(waiting := s.box.waiting + 1))
    case Wake =>
      if s.box.waiting > 0 && s.box.ready then PickInto(s, s.box.(waiting := s.box.waiting - 1)) else s
  }

  function After(es: seq<Event>): State {
    if es == [] then State(EmptyBox(), []) else Next(After(es[..|es| - 1]), es[|es| - 1])
  }

  // ---------- What a run is given and what it reports ----------

  function Messages(es: seq<Event>): seq<Bytes> {
    if es == [] then []
    else
      var init := Messages(es[..|es| - 1]);
      if es[|es| - 1].Arrive? then init + [es[|es| - 1].msg] else init
  }

  function Breaks(es: seq<Event>): seq<BrokenLink> {
    if es == [] then []
    else
      var init := Breaks(es[..|es| - 1]);
      if es[|es| - 1].Break? then init + [es[|es| - 1].link] else init
  }

  function ReturnedMsgs(rs: seq<Report>): seq<Bytes> {
    if rs == [] then []
    else
      var init := ReturnedMsgs(rs[..|rs| - 1]);
      if rs[|rs| - 1].Returned? then init + [rs[|rs| - 1].msg] else init
  }

  function ReportedLinks(rs: seq<Report>): seq<BrokenLink> {
    if rs == [] then []
    else
      var init := ReportedLinks(rs[..|rs| - 1]);
      if rs[|rs| - 1].LinkBroken? then init + [rs[|rs| - 1].link] else init
  }

  /** A timer expired since the last pick. */
  predicate TimerSincePick(es: seq<Event>) {
    if es == [] then false
    else
      var init, e := es[..|es| - 1], es[|es| - 1];
      if e == Expire(false) then true
      else if Picks(After(init), e) then false
      else TimerSincePick(init)
  }

  // ---------- Conservation and order ----------

  lemma MultisetStep(given: seq<Bytes>, returned: seq<Bytes>, received: seq<Bytes>)
    requires multiset(given) == multiset(returned) + multiset(received)
    ensures received != [] ==> multiset(given) == multiset(returned + [received[0]]) + multiset(received[1..])
    ensures forall m :: multiset(given + [m]) == multiset(returned) + multiset([m] + received)
  {
    if received != [] {
      assert received == [received[0]] + received[1..];
    }
  }

  lemma ReportsStep(rs: seq<Report>, r: Report)
    ensures ReturnedMsgs(rs + [r]) == if r.Returned? then ReturnedMsgs(rs) + [r.msg] else ReturnedMsgs(rs)
    ensures ReportedLinks(rs + [r]) == if r.LinkBroken? then ReportedLinks(rs) + [r.link] else ReportedLinks(rs)
  {
    assert (rs + [r])[..|rs|] == rs;
  }

  ghost predicate Conserves(s: State, given: seq<Bytes>, breaks: seq<BrokenLink>) {
    && multiset(given) == multiset(ReturnedMsgs(s.reports)) + multiset(s.box.received)
    && breaks == ReportedLinks(s.reports) + s.box.broken
  }

  lemma PickConserves(s: State, b: Box, given: seq<Bytes>, breaks: seq<BrokenLink>)
    requires Conserves(s, given, breaks) && b.received == s.box.received && b.broken == s.box.broken
    ensures Conserves(PickInto(s, b), given, breaks)
  {
    hide ReturnedMsgs, ReportedLinks;
    ReportsStep(s.reports, Pick(b).1);
    MultisetStep(given, ReturnedMsgs(s.reports), b.received);
    if b.broken != [] {
      assert b.broken == [b.broken[0]] + b.broken[1..];
    }
  }

  /** The messages and links given, with those of one more event. */
  function Given(given: seq<Bytes>, e: Event): seq<Bytes> {
    if e.Arrive? then given + [e.msg] else given
  }

  function Broken(breaks: seq<BrokenLink>, e: Event): seq<BrokenLink> {
    if e.Break? then breaks + [e.link] else breaks
  }

  lemma EventConserves(s: State, e: Event, given: seq<Bytes>, breaks: seq<BrokenLink>)
    requires Conserves(s, given, breaks)
    ensures Conserves(Next(s, e), Given(given, e), Broken(breaks, e))
  {
    hide ReturnedMsgs, ReportedLinks;
    if Picks(s, e) {
      PickConserves(s, if e.Wake? then s.box.(waiting := s.box.waiting - 1) else s.box, given, breaks);
    } else {
      MultisetStep(given, ReturnedMsgs(s.reports), s.box.received);
    }
  }

  /** No message is lost, duplicated or invented, and broken links are reported oldest first, once each. */
  lemma {:induction false} EveryRunConserves(es: seq<Event>)
    ensures Conserves(After(es), Messages(es), Breaks(es))
  {
    hide Next, Conserves;
    if es == [] {
      EmptyConserves();
    } else {
      var init, e := es[..|es| - 1], es[|es| - 1];
      EveryRunConserves(init);
      EventConserves(After(init), e, Messages(init), Breaks(init));
    }
  }

  lemma EmptyConserves()
    ensures Conserves(State(EmptyBox(), []), [], [])
  {
  }

  // ---------- When each kind of report is made ----------

  /** A signal that no timer explains has left a message or a broken link behind. */
  lemma {:induction false} SignalHasACause(es: seq<Event>)
    ensures var b := After(es).box; b.ready && !TimerSincePick(es) ==> b.received != [] || b.broken != []
  {
    if es != [] {
      SignalHasACause(es[..|es| - 1]);
    }
  }

  /**
   * Every pick of every run: a pending broken link is reported before any message, the message is
   * the newest one queued, and a time-out means that a timer expired since the previous pick.
   */
  lemma PickIsRight(es: seq<Event>, e: Event)
    requires Picks(After(es), e)
    ensures var b := After(es).box; var r := After(es + [e]).reports;
            && r != [] && r[..|r| - 1] == After(es).reports
            && match r[|r| - 1]
               case LinkBroken(link) => b.broken != [] && link == b.broken[0]
               case Returned(msg) => b.broken == [] && b.received != [] && msg == b.received[0]
               case TimedOut => b.broken == [] && b.received == [] && TimerSincePick(es)
  {
    SignalHasACause(es);
    assert (es + [e])[..|es|] == es;
  }

  // ---------- Time-outs ----------

  /**
   * In every run that leaves nothing pending, an expired timer makes the receiver that enters next, or
   * one that is blocked, time out; and without a timer it goes on waiting.
   */
  lemma ExpiredTimerTimesOut(es: seq<Event>)
    requires After(es).box.received == [] && After(es).box.broken == []
    ensures After(es + [Expire(false)] + [Enter]).reports == After(es).reports + [TimedOut]
    ensures After(es).box.waiting > 0 ==>
              var s := After(es + [Expire(false)] + [Wake]);
              s.reports == After(es).reports + [TimedOut] && s.box.waiting == After(es).box.waiting - 1
    ensures !After(es).box.ready ==>
              && After(es + [Expire(true)] + [Enter]).reports == After(es).reports
              && After(es + [Expire(true)] + [Wake]).reports == After(es).reports
  {
    hide After;
    AfterOneMore(es, Expire(false));
    AfterOneMore(es + [Expire(false)], Enter);
    AfterOneMore(es + [Expire(false)], Wake);
    AfterOneMore(es, Expire(true));
    AfterOneMore(es + [Expire(true)], Enter);
    AfterOneMore(es + [Expire(true)], Wake);
  }

  /** In every run with no link pending, a message that arrives is what a receiver gets next, entering or blocked. */
  lemma ArrivalIsReceived(es: seq<Event>, m: Bytes)
    requires After(es).box.broken == []
    ensures After(es + [Arrive(m)] + [Enter]).reports == After(es).reports + [Returned(m)]
    ensures After(es).box.waiting > 0 ==> After(es + [Arrive(m)] + [Wake]).reports == After(es).reports + [Returned(m)]
  {
    hide After;
    AfterOneMore(es, Arrive(m));
    AfterOneMore(es + [Arrive(m)], Enter);
    AfterOneMore(es + [Arrive(m)], Wake);
  }

  /** In every run a broken link wakes the next receiver, which reports the oldest one pending. */
  lemma BreakIsReported(es: seq<Event>, x: BrokenLink)
    ensures var oldest := (After(es).box.broken + [x])[0];
            && After(es + [Break(x)] + [Enter]).reports == After(es).reports + [LinkBroken(oldest)]
            && (After(es).box.waiting > 0 ==>
                  After(es + [Break(x)] + [Wake]).reports == After(es).reports + [LinkBroken(oldest)])
  {
    hide After;
    AfterOneMore(es, Break(x));
    AfterOneMore(es + [Break(x)], Enter);
    AfterOneMore(es + [Break(x)], Wake);
  }

  // ---------- Last in, first out ----------

  function Arrivals(msgs: seq<Bytes>): seq<Event> {
    if msgs == [] then [] else Arrivals(msgs[..|msgs| - 1]) + [Arrive(msgs[|msgs| - 1])]
  }

  function Enters(n: nat): seq<Event> {
    if n == 0 then [] else Enters(n - 1) + [Enter]
  }

  function Reversed(msgs: seq<Bytes>): (r: seq<Bytes>)
    ensures |r| == |msgs|
  {
    if msgs == [] then [] else [msgs[|msgs| - 1]] + Reversed(msgs[..|msgs| - 1])
  }

  lemma {:induction false} ArrivalsStack(es: seq<Event>, msgs: seq<Bytes>)
    ensures var s := After(es); var s' := After(es + Arrivals(msgs));
            s'.reports == s.reports && s'.box.received == Reversed(msgs) + s.box.received
            && s'.box.broken == s.box.broken
  {
    if msgs == [] {
      assert es + Arrivals(msgs) == es;
    } else {
      var init, m := msgs[..|msgs| - 1], msgs[|msgs| - 1];
      ArrivalsStack(es, init);
      assert es + Arrivals(msgs) == es + Arrivals(init) + [Arrive(m)];
      AfterOneMore(es + Arrivals(init), Arrive(m));
    }
  }

  lemma {:induction false} EntersTake(es: seq<Event>, n: nat)
    requires var b := After(es).box; b.broken == [] && n <= |b.received|
    ensures var s := After(es); var s' := After(es + Enters(n));
            && s'.box.received == s.box.received[n..] && s'.box.broken == []
            && ReturnedMsgs(s'.reports) == ReturnedMsgs(s.reports) + s.box.received[..n]
  {
    hide ReturnedMsgs, After, Next;
    var received := After(es).box.received;
    if n == 0 {
      assert es + Enters(n) == es;
      assert ReturnedMsgs(After(es).reports) + received[..0] == ReturnedMsgs(After(es).reports);
    } else {
      EntersTake(es, n - 1);
      var s := After(es + Enters(n - 1));
      assert es + Enters(n) == es + Enters(n - 1) + [Enter];
      AfterOneMore(es + Enters(n - 1), Enter);
      EnterTakes(s);
      assert received[n - 1..][0] == received[n - 1] && received[n - 1..][1..] == received[n..];
      assert received[..n] == received[..n - 1] + [received[n - 1]];
    }
  }

  lemma AfterOneMore(es: seq<Event>, e: Event)
    ensures After(es + [e]) == Next(After(es), e)
  {
    assert (es + [e])[..|es|] == es;
  }

  lemma EnterTakes(s: State)
    requires s.box.broken == [] && s.box.received != []
    ensures var s' := Next(s, Enter);
            && s'.box.received == s.box.received[1..] && s'.box.broken == []
            && ReturnedMsgs(s'.reports) == ReturnedMsgs(s.reports) + [s.box.received[0]]
  {
    hide ReturnedMsgs;
    ReportsStep(s.reports, Pick(s.box).1);
  }

  /** Messages that arrive one after the other are handed out in the opposite order. */
  lemma LastInFirstOut(es: seq<Event>, msgs: seq<Bytes>)
    requires After(es).box.broken == []
    ensures var s := After(es); var s' := After(es + Arrivals(msgs) + Enters(|msgs|));
            ReturnedMsgs(s'.reports) == ReturnedMsgs(s.reports) + Reversed(msgs) && s'.box.received == s.box.received
  {
    hide ReturnedMsgs, Reversed, After;
    ArrivalsStack(es, msgs);
    EntersTake(es + Arrivals(msgs), |msgs|);
    var received := After(es).box.received;
    assert (Reversed(msgs) + received)[..|msgs|] == Reversed(msgs) && (Reversed(msgs) + received)[|msgs|..] == received;
  }

  // ---------- Receivers that wait although something is pending ----------
  // A receiver that enters goes on when a message is queued; one that is blocked looks at `ready` alone.

  /** Some receiver, entering or blocked, waits although a broken link is pending. */
  predicate Overlooked(b: Box) {
    b.broken != [] && !b.ready && (b.received == [] || b.waiting > 0)
  }

  /** A blocked receiver sleeps although a message is queued. */
  predicate SleptThrough(b: Box) {
    b.received != [] && !b.ready && b.waiting > 0
  }

  lemma OverlookedMeansSomeoneWaits(b: Box)
    ensures Overlooked(b) <==> b.broken != [] && (!GoesOn(b) || (b.waiting > 0 && !b.ready))
  {
  }

  /** A pick would report one of several links, and some receiver would not look for the next. */
  predicate LeavesLink(b: Box) {
    |b.broken| >= 2 && (b.received == [] || b.waiting > 0)
  }

  /** A pick would not take the last message, and a receiver is blocked. */
  predicate LeavesMessage(b: Box) {
    b.waiting > 0 && |b.received| >= (if b.broken != [] then 1 else 2)
  }

  /** A pick leaves a link overlooked exactly when it reports one of several and a receiver will not look. */
  lemma OverlookedExactlyWhen(b: Box)
    ensures Overlooked(Pick(b).0) <==> LeavesLink(b)
  {
  }

  /** A pick leaves a message slept through exactly when it does not take the last one and a receiver is blocked. */
  lemma SleptThroughExactlyWhen(b: Box)
    ensures SleptThrough(Pick(b).0) <==> LeavesMessage(b)
  {
  }

  /** The mailbox as the pick of a receiver finds it: a receiver that wakes up no longer counts as blocked. */
  function PickedFrom(s: State, e: Event): Box
    requires Picks(s, e)
  {
    if e.Wake? then s.box.(waiting := s.box.waiting - 1) else s.box
  }

  predicate Signals(e: Event) {
    e.Arrive? || e.Break? || e == Expire(false)
  }

  /** `left` held at the last pick, and nothing was signalled since. */
  predicate SinceLastPick(left: Box -> bool, es: seq<Event>) {
    if es == [] then false
    else
      var init, e := es[..|es| - 1], es[|es| - 1];
      if Picks(After(init), e) then left(PickedFrom(After(init), e))
      else !Signals(e) && SinceLastPick(left, init)
  }

  lemma EventAndWaiting(s: State, e: Event)
    ensures Overlooked(Next(s, e).box) <==>
            if Picks(s, e) then LeavesLink(PickedFrom(s, e)) else !Signals(e) && Overlooked(s.box)
    ensures SleptThrough(Next(s, e).box) <==>
            if Picks(s, e) then LeavesMessage(PickedFrom(s, e)) else !Signals(e) && SleptThrough(s.box)
  {
  }

  lemma NobodyWaitsAtFirst()
    ensures !Overlooked(EmptyBox()) && !SleptThrough(EmptyBox())
  {
  }

  /**
   * Over every run: some receiver waits with a broken link pending if and only if the last pick
   * reported one of several while no message was queued or another receiver was blocked, and nothing
   * was signalled since.
   */
  lemma {:induction false} OverlookedInRunsExactlyWhen(es: seq<Event>)
    ensures Overlooked(After(es).box) <==> SinceLastPick(LeavesLink, es)
  {
    hide Next, Picks, Signals, PickedFrom, Overlooked, LeavesLink;
    if es == [] {
      NobodyWaitsAtFirst();
    } else {
      OverlookedInRunsExactlyWhen(es[..|es| - 1]);
      EventAndWaiting(After(es[..|es| - 1]), es[|es| - 1]);
    }
  }

  /**
   * Over every run: a blocked receiver sleeps with a message queued if and only if the last pick left
   * one behind while a receiver was blocked, and nothing was signalled since.
   */
  lemma {:induction false} SleptThroughInRunsExactlyWhen(es: seq<Event>)
    ensures SleptThrough(After(es).box) <==> SinceLastPick(LeavesMessage, es)
  {
    hide Next, Picks, Signals, PickedFrom, SleptThrough, LeavesMessage;
    if es == [] {
      NobodyWaitsAtFirst();
    } else {
      SleptThroughInRunsExactlyWhen(es[..|es| - 1]);
      EventAndWaiting(After(es[..|es| - 1]), es[|es| - 1]);
    }
  }

  /** Any signal ends both. */
  lemma SignalsEndWaiting(es: seq<Event>, e: Event)
    requires Signals(e)
    ensures var b := After(es + [e]).box; !Overlooked(b) && !SleptThrough(b)
  {
    AfterOneMore(es, e);
  }

  // ---------- Runs that end so ----------

  lemma SecondBrokenLinkIsOverlooked(x: BrokenLink, y: BrokenLink)
    ensures After([Break(x), Break(y), Enter]).reports == [LinkBroken(x)]
    ensures Overlooked(After([Break(x), Break(y), Enter]).box)
  {
    var es := [Break(x), Break(y), Enter];
    assert es[..2] == [Break(x), Break(y)] && es[..2][..1] == [Break(x)] && es[..2][..1][..0] == [];
    assert After([Break(x)]).box == Broke(EmptyBox(), x);
    assert After(es[..2]).box == Broke(Broke(EmptyBox(), x), y);
  }

  /** A blocked receiver overlooks the second link even though a message is queued. */
  lemma BlockedReceiverOverlooksLink(x: BrokenLink, y: BrokenLink, m: Bytes)
    ensures After([Enter, Break(x), Break(y), Arrive(m), Enter]).box == Box([m], [y], false, 1)
    ensures After([Enter, Break(x), Break(y), Arrive(m), Enter, Wake]).box == Box([m], [y], false, 1)
    ensures Overlooked(Box([m], [y], false, 1))
  {
    hide After;
    OneEvent(Enter);
    AfterOneMore([Enter], Break(x));
    AfterOneMore([Enter, Break(x)], Break(y));
    AfterOneMore([Enter, Break(x), Break(y)], Arrive(m));
    AfterOneMore([Enter, Break(x), Break(y), Arrive(m)], Enter);
    AfterOneMore([Enter, Break(x), Break(y), Arrive(m), Enter], Wake);
    assert [Enter] + [Break(x)] == [Enter, Break(x)];
    assert [Enter, Break(x)] + [Break(y)] == [Enter, Break(x), Break(y)];
    assert [Enter, Break(x), Break(y)] + [Arrive(m)] == [Enter, Break(x), Break(y), Arrive(m)];
    assert [Enter, Break(x), Break(y), Arrive(m)] + [Enter] == [Enter, Break(x), Break(y), Arrive(m), Enter];
    assert [Enter, Break(x), Break(y), Arrive(m), Enter] + [Wake] ==
           [Enter, Break(x), Break(y), Arrive(m), Enter, Wake];
    assert After([Enter, Break(x), Break(y), Arrive(m)]).box == Box([m], [x, y], true, 1);
  }

  lemma OneEvent(e: Event)
    ensures After([e]) == Next(State(EmptyBox(), []), e)
  {
    assert [e][..0] == [];
  }

  /** Two arrivals, one wake-up that takes: the other receiver sleeps on. */
  lemma BlockedReceiverSleepsThroughMessage(m: Bytes, n: Bytes)
    ensures After([Enter, Enter, Arrive(m), Arrive(n), Wake]).box == Box([m], [], false, 1)
    ensures After([Enter, Enter, Arrive(m), Arrive(n), Wake, Wake]).box == Box([m], [], false, 1)
    ensures SleptThrough(Box([m], [], false, 1))
  {
    hide After;
    OneEvent(Enter);
    AfterOneMore([Enter], Enter);
    AfterOneMore([Enter, Enter], Arrive(m));
    AfterOneMore([Enter, Enter, Arrive(m)], Arrive(n));
    AfterOneMore([Enter, Enter, Arrive(m), Arrive(n)], Wake);
    AfterOneMore([Enter, Enter, Arrive(m), Arrive(n), Wake], Wake);
    assert [Enter] + [Enter] == [Enter, Enter];
    assert [Enter, Enter] + [Arrive(m)] == [Enter, Enter, Arrive(m)];
    assert [Enter, Enter, Arrive(m)] + [Arrive(n)] == [Enter, Enter, Arrive(m), Arrive(n)];
    assert [Enter, Enter, Arrive(m), Arrive(n)] + [Wake] == [Enter, Enter, Arrive(m), Arrive(n), Wake];
    assert [Enter, Enter, Arrive(m), Arrive(n), Wake] + [Wake] == [Enter, Enter, Arrive(m), Arrive(n), Wake, Wake];
    assert After([Enter, Enter, Arrive(m), Arrive(n)]).box == Box([n, m], [], true, 2);
  }
}
