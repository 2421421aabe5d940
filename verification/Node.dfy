/** The node's link bookkeeping: linking through local and remote policies, and the exit fan-out on close. */
module Node {
  import opened ByteCodec
  import opened Terms
  import L = Linker
  import M = Mailbox
  import CM = ControlMessages

  /** A distributed operation handed to the connection with a node. */
  datatype Request = Request(destination: Bytes, op: CM.Op)

  datatype NodeState = NodeState(
    name: Bytes,
    mailboxes: map<Pid, M.Box>,
    registered: map<Bytes, Pid>,
    links: seq<L.Pair>,
    requests: seq<Request>)

  /** `reachable` are the nodes a connection can be had to; a request to any other node throws. */
  type Peers = set<Bytes>

  // ---------- What the operations do; None when they throw, and then nothing has changed ----------

  predicate IsLocal(n: NodeState, p: Pid) {
    p.node == n.name
  }

  function Ask(n: NodeState, reachable: Peers, destination: Bytes, op: CM.Op): Option<NodeState> {
    if destination in reachable then Some(n.(requests := n.requests + [Request(destination, op)])) else None
  }

  function IncomingLink(n: NodeState, from: Pid, to: Pid): NodeState {
    n.(links := L.Linked(n.links, from, to))
  }

  function IncomingUnlink(n: NodeState, from: Pid, to: Pid): NodeState {
    n.(links := L.Without(n.links, from, to))
  }

  /** An exit reaches a mailbox: it gets a broken-link record, and the link is removed. */
  function IncomingExit(n: NodeState, from: Pid, to: Pid, reason: Bytes): Option<NodeState> {
    if to !in n.mailboxes then None
    else
      var n := n.(mailboxes := n.mailboxes[to := M.Broke(n.mailboxes[to], M.BrokenLink(reason, from))]);
      Some(IncomingUnlink(n, from, to))
  }

  /** A message reaches a mailbox by pid; an unknown pid throws. */
  function Receive(n: NodeState, to: Pid, msg: Bytes): Option<NodeState> {
    if to !in n.mailboxes then None
    else Some(n.(mailboxes := n.mailboxes[to := M.Incoming(n.mailboxes[to], msg)]))
  }

  /** A message reaches a mailbox by its registered name. */
  function ReceiveByName(n: NodeState, name: Bytes, msg: Bytes): Option<NodeState> {
    if name !in n.registered then None else Receive(n, n.registered[name], msg)
  }

  /** What a dispatched operation makes the node do. */
  function Perform(n: NodeState, op: CM.Op): Option<NodeState> {
    match op
    case Send(to, payload) => Receive(n, to, payload)
    case RegSend(_, name, payload) => ReceiveByName(n, name, payload)
    case Link(from, to) => Some(IncomingLink(n, from, to))
    case Unlink(from, to) => Some(IncomingUnlink(n, from, to))
    case Exit(from, to, reason) => IncomingExit(n, from, to, reason)
    case Exit2(from, to, reason) => IncomingExit(n, from, to, reason)
  }

  /** Remote: the request goes out first, and the link is entered only when that did not throw. */
  function Link(n: NodeState, reachable: Peers, local: Pid, remote: Pid): Option<NodeState> {
    if IsLocal(n, remote) then Some(IncomingLink(n, local, remote))
    else
      match Ask(n, reachable, remote.node, CM.Link(local, remote))
      case None => None
      case Some(n) => Some(IncomingLink(n, local, remote))
  }

  /** Remote: the link is gone even when the request throws. */
  function Unlink(n: NodeState, reachable: Peers, local: Pid, remote: Pid): (NodeState, bool) {
    var n := IncomingUnlink(n, local, remote);
    if IsLocal(n, remote) then (n, true)
    else
      match Ask(n, reachable, remote.node, CM.Unlink(local, remote))
      case None => (n, false)
      case Some(n) => (n, true)
  }

  function RequestExit2(n: NodeState, reachable: Peers, from: Pid, to: Pid, reason: Bytes): Option<NodeState> {
    if IsLocal(n, to) then IncomingExit(n, from, to, reason)
    else Ask(n, reachable, to.node, CM.Exit2(from, to, reason))
  }

  /** Every partner is told in turn; an exception ends the loop. */
  function FanOut(n: NodeState, reachable: Peers, from: Pid, partners: seq<Pid>, reason: Bytes): (NodeState, bool)
    decreases |partners|
  {
    if partners == [] then (n, true)
    else
      match RequestExit2(n, reachable, from, partners[0], reason)
      case None => (n, false)
      case Some(n) => FanOut(n, reachable, from, partners[1..], reason)
  }

  function CloseMailbox(n: NodeState, reachable: Peers, id: Pid, name: Bytes, reason: Bytes): (NodeState, bool) {
    var partners := L.Partners(n.links, id);
    var (n, ok) := FanOut(n.(links := L.Keep(n.links, id)), reachable, id, partners, reason);
    if ok then (n.(mailboxes := n.mailboxes - {id}, registered := n.registered - {name}), true) else (n, false)
  }

  class ActualNode {
    const nodeName: Bytes
    const mailboxLinker: L.Linker
    var mailboxes: map<Pid, M.Box>
    var registered: map<Bytes, Pid>
    var requests: seq<Request>

    ghost function View(): NodeState
      reads this, mailboxLinker
    {
      NodeState(nodeName, mailboxes, registered, mailboxLinker.establishedLinks, requests)
    }

    constructor (name: Bytes)
      ensures View() == NodeState(name, map[], map[], [], []) && fresh(mailboxLinker)
    {
      nodeName := name;
      mailboxLinker := new L.Linker();
      mailboxes, registered, requests := map[], map[], [];
    }

    method SendRequest(reachable: Peers, destination: Bytes, op: CM.Op) returns (ok: bool)
      modifies this`requests
      ensures Ask(old(View()), reachable, destination, op) == if ok then Some(View()) else None
      ensures !ok ==> View() == old(View())
    {
      ok := destination in reachable;
      if ok {
        requests := requests + [Request(destination, op)];
      }
    }

    method LinkTo(reachable: Peers, local: Pid, remote: Pid) returns (ok: bool)
      modifies this, mailboxLinker
      ensures Link(old(View()), reachable, local, remote) == if ok then Some(View()) else None
      ensures !ok ==> View() == old(View())
    {
      ok := true;
      if remote.node != nodeName {
        ok := SendRequest(reachable, remote.node, CM.Link(local, remote));
      }
      if ok {
        mailboxLinker.Link(local, remote);
      }
    }

    method UnlinkFrom(reachable: Peers, local: Pid, remote: Pid) returns (ok: bool)
      modifies this, mailboxLinker
      ensures (View(), ok) == Unlink(old(View()), reachable, local, remote)
    {
      ok := true;
      mailboxLinker.Unlink(local, remote);
      if remote.node != nodeName {
        ok := SendRequest(reachable, remote.node, CM.Unlink(local, remote));
      }
    }

    method TakeExit(from: Pid, to: Pid, reason: Bytes) returns (ok: bool)
      modifies this, mailboxLinker
      ensures IncomingExit(old(View()), from, to, reason) == if ok then Some(View()) else None
      ensures !ok ==> View() == old(View())
    {
      ok := to in mailboxes;
      if ok {
        mailboxes := mailboxes[to := M.Broke(mailboxes[to], M.BrokenLink(reason, from))];
        mailboxLinker.Unlink(from, to);
      }
    }

    method TakeMessage(to: Pid, msg: Bytes) returns (ok: bool)
      modifies this`mailboxes
      ensures Receive(old(View()), to, msg) == if ok then Some(View()) else None
      ensures !ok ==> View() == old(View())
    {
      ok := to in mailboxes;
      if ok {
        mailboxes := mailboxes[to := M.Incoming(mailboxes[to], msg)];
      }
    }

    /** What the connection does with a dispatched operation. */
    method PerformOp(op: CM.Op) returns (ok: bool)
      modifies this, mailboxLinker
      ensures Perform(old(View()), op) == if ok then Some(View()) else None
      ensures !ok ==> View() == old(View())
    {
      match op
      case Send(to, payload) => ok := TakeMessage(to, payload);
      case RegSend(_, name, payload) =>
        ok := name in registered;
        if ok {
          ok := TakeMessage(registered[name], payload);
        }
      case Link(from, to) =>
        ok := true;
        mailboxLinker.Link(from, to);
      case Unlink(from, to) =>
        ok := true;
        mailboxLinker.Unlink(from, to);
      case Exit(from, to, reason) => ok := TakeExit(from, to, reason);
      case Exit2(from, to, reason) => ok := TakeExit(from, to, reason);
    }

    method SendExit2(reachable: Peers, from: Pid, to: Pid, reason: Bytes) returns (ok: bool)
      modifies this, mailboxLinker
      ensures RequestExit2(old(View()), reachable, from, to, reason) == if ok then Some(View()) else None
      ensures !ok ==> View() == old(View())
    {
      if to.node != nodeName {
        ok := SendRequest(reachable, to.node, CM.Exit2(from, to, reason));
      } else {
        ok := TakeExit(from, to, reason);
      }
    }

    /** The links go first, under the linker's lock; the partners are told afterwards. */
    method OnBrokenLinks(reachable: Peers, dying: Pid, reason: Bytes) returns (ok: bool)
      modifies this, mailboxLinker
      ensures (View(), ok) == FanOut(old(View()).(links := L.Keep(old(View()).links, dying)), reachable, dying,
                                     L.Partners(old(View()).links, dying), reason)
    {
      hide L.Keep, L.Partners, RequestExit2;
      var closed := mailboxLinker.RemoveLinksFrom(dying);
      ghost var start := View();
      ok := true;
      var i := 0;
      assert closed[0..] == closed;
      while ok && i < |closed|
        invariant 0 <= i <= |closed|
        invariant FanOut(start, reachable, dying, closed, reason) ==
                  if ok then FanOut(View(), reachable, dying, closed[i..], reason) else (View(), false)
        decreases ok, |closed| - i
      {
        assert closed[i..][1..] == closed[i + 1..];
        ok := SendExit2(reachable, dying, closed[i], reason);
        i := i + 1;
      }
    }

    method Close(reachable: Peers, id: Pid, name: Bytes, reason: Bytes) returns (ok: bool)
      modifies this, mailboxLinker
      ensures (View(), ok) == CloseMailbox(old(View()), reachable, id, name, reason)
    {
      hide L.Keep, L.Partners, FanOut;
      ok := OnBrokenLinks(reachable, id, reason);
      if ok {
        mailboxes := mailboxes - {id};
        registered := registered - {name};
      }
    }
  }

  // ---------- What dispatched operations and requests amount to ----------

  /** `m` is `n` but for the mailbox of `p`. */
  ghost predicate OnlyMailboxChanges(n: NodeState, m: NodeState, p: Pid) {
    && m.name == n.name && m.registered == n.registered && m.links == n.links && m.requests == n.requests
    && m.mailboxes.Keys == n.mailboxes.Keys
    && forall q | q in n.mailboxes && q != p :: m.mailboxes[q] == n.mailboxes[q]
  }

  /** A message to a pid is delivered exactly when the mailbox is known: in front, signalled, and to no one else. */
  lemma SendDelivers(n: NodeState, to: Pid, msg: Bytes)
    ensures var m := Perform(n, CM.Send(to, msg));
            && (m.Some? <==> to in n.mailboxes)
            && (m.Some? ==>
                  && OnlyMailboxChanges(n, m.value, to)
                  && m.value.mailboxes[to].received == [msg] + n.mailboxes[to].received
                  && m.value.mailboxes[to].ready
                  && m.value.mailboxes[to].broken == n.mailboxes[to].broken
                  && m.value.mailboxes[to].waiting == n.mailboxes[to].waiting)
  {
  }

  /** A message to a name is delivered exactly when it is registered for a known mailbox, as if sent to its pid. */
  lemma RegSendDelivers(n: NodeState, from: Pid, name: Bytes, msg: Bytes)
    ensures var m := Perform(n, CM.RegSend(from, name, msg));
            && (m.Some? <==> name in n.registered && n.registered[name] in n.mailboxes)
            && (m.Some? ==> m == Perform(n, CM.Send(n.registered[name], msg)))
  {
  }

  /** `m` is `n` but for its links and requests. */
  predicate OnlyLinksChange(n: NodeState, m: NodeState) {
    m.name == n.name && m.registered == n.registered && m.mailboxes == n.mailboxes
  }

  /** A link enters the relation exactly when the other process is local or can be asked, and it is asked once. */
  lemma LinkIsEntered(n: NodeState, reachable: Peers, local: Pid, remote: Pid)
    requires L.NoRepeats(n.links)
    ensures var m := Link(n, reachable, local, remote);
            && (m.Some? <==> remote.node == n.name || remote.node in reachable)
            && (m.Some? ==>
                  && OnlyLinksChange(n, m.value)
                  && L.Relation(m.value.links) == L.Relation(n.links) + {{local, remote}}
                  && m.value.requests == n.requests + if remote.node == n.name then []
                                                      else [Request(remote.node, CM.Link(local, remote))])
  {
    hide L.NoRepeats, L.Relation, L.Linked;
    L.LinkRefines(n.links, local, remote);
  }

  /** A link leaves the relation whatever happens; the other node is asked when it can be. */
  lemma LinkIsRemoved(n: NodeState, reachable: Peers, local: Pid, remote: Pid)
    requires L.NoRepeats(n.links)
    ensures var (m, ok) := Unlink(n, reachable, local, remote);
            && (ok <==> remote.node == n.name || remote.node in reachable)
            && OnlyLinksChange(n, m)
            && L.Relation(m.links) == L.Relation(n.links) - {{local, remote}}
            && m.requests == n.requests + if remote.node == n.name || !ok then []
                                          else [Request(remote.node, CM.Unlink(local, remote))]
  {
    hide L.NoRepeats, L.Relation, L.Without;
    L.UnlinkRefines(n.links, local, remote);
  }

  /** What the other node does with the four operations on links. */
  lemma LinkOperationsArePerformed(n: NodeState, from: Pid, to: Pid, reason: Bytes)
    requires L.NoRepeats(n.links)
    ensures var m := Perform(n, CM.Link(from, to));
            m.Some? && OnlyLinksChange(n, m.value) && m.value.requests == n.requests
            && L.Relation(m.value.links) == L.Relation(n.links) + {{from, to}}
    ensures var m := Perform(n, CM.Unlink(from, to));
            m.Some? && OnlyLinksChange(n, m.value) && m.value.requests == n.requests
            && L.Relation(m.value.links) == L.Relation(n.links) - {{from, to}}
    ensures Perform(n, CM.Exit(from, to, reason)) == Perform(n, CM.Exit2(from, to, reason))
    ensures var m := Perform(n, CM.Exit(from, to, reason));
            && (m.Some? <==> to in n.mailboxes)
            && (m.Some? ==>
                  && OnlyMailboxChanges(n.(links := m.value.links), m.value, to)
                  && m.value.mailboxes[to].broken == n.mailboxes[to].broken + [M.BrokenLink(reason, from)]
                  && m.value.mailboxes[to].ready && m.value.mailboxes[to].received == n.mailboxes[to].received
                  && L.Relation(m.value.links) == L.Relation(n.links) - {{from, to}})
  {
    hide L.NoRepeats, L.Relation, L.Linked, L.Without;
    L.LinkRefines(n.links, from, to);
    L.UnlinkRefines(n.links, from, to);
  }

  // ---------- The fan-out ----------

  /** A local partner must be a known mailbox, a remote one must be on a node that can be reached. */
  predicate CanBeTold(n: NodeState, reachable: Peers, q: Pid) {
    if IsLocal(n, q) then q in n.mailboxes else q.node in reachable
  }

  /** The partners told before the first that cannot be. */
  function Told(n: NodeState, reachable: Peers, partners: seq<Pid>): seq<Pid> {
    if partners == [] || !CanBeTold(n, reachable, partners[0]) then []
    else [partners[0]] + Told(n, reachable, partners[1..])
  }

  /** One EXIT2 request for each remote process told, in order. */
  function Exit2Requests(name: Bytes, from: Pid, told: seq<Pid>, reason: Bytes): seq<Request> {
    if told == [] then []
    else if told[0].node == name then Exit2Requests(name, from, told[1..], reason)
    else [Request(told[0].node, CM.Exit2(from, told[0], reason))] + Exit2Requests(name, from, told[1..], reason)
  }

  /** The mailbox of `q` once the processes in `told` have been told. */
  function BoxAfter(n: NodeState, from: Pid, told: seq<Pid>, reason: Bytes, q: Pid): M.Box
    requires q in n.mailboxes
  {
    if IsLocal(n, q) && q in told then M.Broke(n.mailboxes[q], M.BrokenLink(reason, from)) else n.mailboxes[q]
  }

  /** The unlink inside `incoming_exit` finds nothing to remove, since the closing process has no links left. */
  lemma {:induction false} ReentrantUnlinkChangesNothing(links: seq<L.Pair>, p: Pid, q: Pid)
    ensures L.Without(L.Keep(links, p), p, q) == L.Keep(links, p)
  {
    hide L.Keep;
    forall x ensures x in L.Keep(links, p) ==> !L.Mentions(x, p) {
      L.InKeep(links, p, x);
    }
    RemoveAbsent(L.Keep(links, p), (p, q));
    RemoveAbsent(L.Keep(links, p), (q, p));
  }

  lemma {:induction false} RemoveAbsent(links: seq<L.Pair>, e: L.Pair)
    requires e !in links
    ensures L.Remove(links, e) == links
  {
    if links != [] {
      RemoveAbsent(links[1..], e);
    }
  }

  /** `m` is `n` after the processes in `told` have been told, and nothing else. */
  ghost predicate AfterTelling(n: NodeState, m: NodeState, from: Pid, told: seq<Pid>, reason: Bytes) {
    && m.name == n.name && m.registered == n.registered && m.links == n.links
    && m.requests == n.requests + Exit2Requests(n.name, from, told, reason)
    && m.mailboxes.Keys == n.mailboxes.Keys
    && forall q | q in n.mailboxes :: m.mailboxes[q] == BoxAfter(n, from, told, reason, q)
  }

  lemma ToldDependsOnKeys(n: NodeState, m: NodeState, reachable: Peers, partners: seq<Pid>)
    requires m.name == n.name && m.mailboxes.Keys == n.mailboxes.Keys
    ensures Told(m, reachable, partners) == Told(n, reachable, partners)
  {
    if partners != [] {
      ToldDependsOnKeys(n, m, reachable, partners[1..]);
    }
  }

  lemma {:induction false} InTold(n: NodeState, reachable: Peers, partners: seq<Pid>, q: Pid)
    requires q in Told(n, reachable, partners)
    ensures q in partners
  {
    if q != partners[0] {
      InTold(n, reachable, partners[1..], q);
    }
  }

  /** Telling one partner. */
  lemma TellOne(n: NodeState, reachable: Peers, links: seq<L.Pair>, from: Pid, q: Pid, reason: Bytes)
    requires n.links == L.Keep(links, from)
    ensures var r := RequestExit2(n, reachable, from, q, reason);
            if CanBeTold(n, reachable, q) then r.Some? && AfterTelling(n, r.value, from, [q], reason) else r.None?
  {
    hide L.Keep, L.Without, Exit2Requests;
    ReentrantUnlinkChangesNothing(links, from, q);
    OneRequest(n.name, from, q, reason);
    assert n.requests + [] == n.requests;
  }

  lemma OneRequest(name: Bytes, from: Pid, q: Pid, reason: Bytes)
    ensures Exit2Requests(name, from, [q], reason) ==
            if q.node == name then [] else [Request(q.node, CM.Exit2(from, q, reason))]
  {
    assert [q][1..] == [];
  }

  lemma MoreRequests(name: Bytes, from: Pid, q: Pid, told: seq<Pid>, reason: Bytes)
    ensures Exit2Requests(name, from, [q] + told, reason) ==
            Exit2Requests(name, from, [q], reason) + Exit2Requests(name, from, told, reason)
  {
    OneRequest(name, from, q, reason);
    assert ([q] + told)[1..] == told;
  }

  lemma TellingComposes(n: NodeState, m: NodeState, k: NodeState, from: Pid, q: Pid, told: seq<Pid>, reason: Bytes)
    requires AfterTelling(n, m, from, [q], reason) && AfterTelling(m, k, from, told, reason) && q !in told
    ensures AfterTelling(n, k, from, [q] + told, reason)
  {
    hide Exit2Requests;
    MoreRequests(n.name, from, q, told, reason);
    var one, more := Exit2Requests(n.name, from, [q], reason), Exit2Requests(n.name, from, told, reason);
    assert n.requests + one + more == n.requests + (one + more);
  }

  lemma {:induction false} FanOutTells(n: NodeState, reachable: Peers, links: seq<L.Pair>, from: Pid,
                                       partners: seq<Pid>, reason: Bytes)
    requires n.links == L.Keep(links, from) && L.Distinct(partners)
    ensures var (m, ok) := FanOut(n, reachable, from, partners, reason); var told := Told(n, reachable, partners);
            && (ok <==> told == partners)
            && AfterTelling(n, m, from, told, reason)
    decreases |partners|
  {
    hide L.Keep, RequestExit2, AfterTelling, CanBeTold;
    if partners == [] {
      TellNobody(n, from, reason);
    } else {
      TellOne(n, reachable, links, from, partners[0], reason);
      if CanBeTold(n, reachable, partners[0]) {
        var m := RequestExit2(n, reachable, from, partners[0], reason).value;
        SameKeys(n, m, from, [partners[0]], reason);
        FanOutTells(m, reachable, links, from, partners[1..], reason);
        ToldDependsOnKeys(n, m, reachable, partners[1..]);
        var told := Told(n, reachable, partners[1..]);
        if partners[0] in told {
          InTold(n, reachable, partners[1..], partners[0]);
          assert false;
        }
        TellingComposes(n, m, FanOut(n, reachable, from, partners, reason).0, from, partners[0], told, reason);
        assert [partners[0]] + told == partners <==> told == partners[1..];
      } else {
        TellNobody(n, from, reason);
      }
    }
  }

  lemma TellNobody(n: NodeState, from: Pid, reason: Bytes)
    ensures AfterTelling(n, n, from, [], reason)
  {
  }

  lemma SameKeys(n: NodeState, m: NodeState, from: Pid, told: seq<Pid>, reason: Bytes)
    requires AfterTelling(n, m, from, told, reason)
    ensures m.name == n.name && m.mailboxes.Keys == n.mailboxes.Keys && m.links == n.links
  {
  }

  /** Closing succeeds exactly when every linked process can be told. */
  lemma CloseSucceedsExactlyWhen(n: NodeState, reachable: Peers, id: Pid, name: Bytes, reason: Bytes)
    requires L.NoRepeats(n.links)
    ensures CloseMailbox(n, reachable, id, name, reason).1 <==>
            forall q | {id, q} in L.Relation(n.links) :: CanBeTold(n, reachable, q)
  {
    hide L.NoRepeats, L.Relation, L.Keep, L.Partners, CanBeTold, AfterTelling, FanOut;
    var partners := L.Partners(n.links, id);
    var m := n.(links := L.Keep(n.links, id));
    L.PartnersExactlyOnce(n.links, id);
    FanOutTells(m, reachable, n.links, id, partners, reason);
    ToldDependsOnKeys(n, m, reachable, partners);
    ToldAllExactlyWhen(n, reachable, partners);
  }

  lemma {:induction false} ToldAllExactlyWhen(n: NodeState, reachable: Peers, partners: seq<Pid>)
    ensures Told(n, reachable, partners) == partners <==> forall q | q in partners :: CanBeTold(n, reachable, q)
  {
    hide CanBeTold;
    if partners != [] {
      ToldAllExactlyWhen(n, reachable, partners[1..]);
      assert partners == [partners[0]] + partners[1..];
      if CanBeTold(n, reachable, partners[0]) {
        assert [partners[0]] + Told(n, reachable, partners[1..]) == partners
               <==> Told(n, reachable, partners[1..]) == partners[1..];
      }
    }
  }

  /**
   * A successful close: every linked local mailbox gets exactly one broken-link record and every
   * linked remote process exactly one EXIT2 request, each with the right reason and sender; no link
   * mentions the closed process any more, the other links stay, and the mailbox is gone.
   */
  lemma ExitFanOut(n: NodeState, reachable: Peers, id: Pid, name: Bytes, reason: Bytes)
    requires L.NoRepeats(n.links) && CloseMailbox(n, reachable, id, name, reason).1
    ensures var m := CloseMailbox(n, reachable, id, name, reason).0; var linked := L.Partners(n.links, id);
            && L.Distinct(linked) && (forall q :: q in linked <==> {id, q} in L.Relation(n.links))
            && m.mailboxes.Keys == n.mailboxes.Keys - {id}
            && (forall q | q in m.mailboxes :: m.mailboxes[q] == BoxAfter(n, id, linked, reason, q))
            && m.requests == n.requests + Exit2Requests(n.name, id, linked, reason)
            && m.registered == n.registered - {name}
            && L.NoRepeats(m.links) && L.Relation(m.links) == set x | x in L.Relation(n.links) && id !in x
  {
    hide L.NoRepeats, L.Relation, L.Keep, L.Partners, L.Distinct, CanBeTold, FanOut, Exit2Requests, Told;
    var partners := L.Partners(n.links, id);
    var m := n.(links := L.Keep(n.links, id));
    L.PartnersExactlyOnce(n.links, id);
    L.BreakRefines(n.links, id);
    FanOutTells(m, reachable, n.links, id, partners, reason);
  }

  /**
   * A close that throws: the links of the process are gone and the partners before the first one
   * that cannot be told have been told, but the mailbox is still registered.
   */
  lemma CloseThatThrows(n: NodeState, reachable: Peers, id: Pid, name: Bytes, reason: Bytes)
    requires L.NoRepeats(n.links) && !CloseMailbox(n, reachable, id, name, reason).1
    ensures var m := CloseMailbox(n, reachable, id, name, reason).0;
            var told := Told(n, reachable, L.Partners(n.links, id));
            && told < L.Partners(n.links, id)
            && AfterTelling(n.(links := L.Keep(n.links, id)), m, id, told, reason)
  {
    hide L.NoRepeats, L.Relation, L.Keep, L.Partners, L.Distinct, CanBeTold, FanOut, AfterTelling;
    var partners := L.Partners(n.links, id);
    var m := n.(links := L.Keep(n.links, id));
    L.PartnersExactlyOnce(n.links, id);
    FanOutTells(m, reachable, n.links, id, partners, reason);
    ToldDependsOnKeys(n, m, reachable, partners);
    ToldIsPrefix(n, reachable, partners);
  }

  /** Closing again then always succeeds, and tells no one: the partners that were not told never hear. */
  lemma SecondCloseTellsNobody(n: NodeState, reachable: Peers, id: Pid, name: Bytes, reason: Bytes,
                               reachable': Peers, name': Bytes, reason': Bytes)
    requires L.NoRepeats(n.links) && !CloseMailbox(n, reachable, id, name, reason).1
    ensures var m := CloseMailbox(n, reachable, id, name, reason).0;
            CloseMailbox(m, reachable', id, name', reason') ==
            (m.(mailboxes := m.mailboxes - {id}, registered := m.registered - {name'}), true)
  {
    hide CloseMailbox, L.NoRepeats, L.Keep, L.Partners;
    var m := CloseMailbox(n, reachable, id, name, reason).0;
    CloseLinks(n, reachable, id, name, reason);
    assert L.Partners(m.links, id) == [] && L.Keep(m.links, id) == m.links by { NobodyLeft(n.links, id); }
    CloseUnlinked(m, reachable', id, name', reason');
  }

  lemma {:induction false} NobodyLeft(links: seq<L.Pair>, p: Pid)
    ensures L.Partners(L.Keep(links, p), p) == [] && L.Keep(L.Keep(links, p), p) == L.Keep(links, p)
  {
    if links != [] {
      NobodyLeft(links[1..], p);
      var kept := L.Keep(links[1..], p);
      assert ([links[0]] + kept)[1..] == kept;
    }
  }

  lemma CloseUnlinked(n: NodeState, reachable: Peers, id: Pid, name: Bytes, reason: Bytes)
    requires L.Partners(n.links, id) == [] && L.Keep(n.links, id) == n.links
    ensures CloseMailbox(n, reachable, id, name, reason) ==
            (n.(mailboxes := n.mailboxes - {id}, registered := n.registered - {name}), true)
  {
    hide L.Keep, L.Partners;
  }

  lemma {:induction false} ToldIsPrefix(n: NodeState, reachable: Peers, partners: seq<Pid>)
    ensures Told(n, reachable, partners) <= partners
  {
    if partners != [] {
      ToldIsPrefix(n, reachable, partners[1..]);
    }
  }

  /** A request for each remote partner and for no one else. */
  lemma {:induction false} RequestsExactlyOnce(name: Bytes, from: Pid, told: seq<Pid>, reason: Bytes, q: Pid)
    requires L.Distinct(told)
    ensures multiset(Exit2Requests(name, from, told, reason))[Request(q.node, CM.Exit2(from, q, reason))] ==
            if q in told && q.node != name then 1 else 0
  {
    if told != [] {
      var rest := Exit2Requests(name, from, told[1..], reason);
      RequestsExactlyOnce(name, from, told[1..], reason, q);
      if told[0].node != name {
        var r := Request(told[0].node, CM.Exit2(from, told[0], reason));
        assert multiset([r] + rest) == multiset{r} + multiset(rest);
      }
    }
  }

  lemma RequestIsMade(name: Bytes, from: Pid, told: seq<Pid>, reason: Bytes, q: Pid)
    requires L.Distinct(told) && q in told && q.node != name
    ensures Request(q.node, CM.Exit2(from, q, reason)) in Exit2Requests(name, from, told, reason)
  {
    RequestsExactlyOnce(name, from, told, reason, q);
  }

  /**
   * Across the wire: the closing node asks for one EXIT2 to every linked remote process; built, sent
   * and dispatched, it gives that process's mailbox a broken-link record and removes the peer's link.
   */
  lemma RemotePartnerHears(n: NodeState, reachable: Peers, id: Pid, name: Bytes, reason: Bytes, q: Pid, peer: NodeState)
    requires L.NoRepeats(n.links) && CloseMailbox(n, reachable, id, name, reason).1
    requires {id, q} in L.Relation(n.links) && !IsLocal(n, q) && CM.InRange(CM.Exit2(id, q, reason))
    requires q in peer.mailboxes && L.NoRepeats(peer.links)
    ensures var op := CM.Exit2(id, q, reason); var peer' := Perform(peer, op);
            && Request(q.node, op) in CloseMailbox(n, reachable, id, name, reason).0.requests
            && CM.Dispatch(false, CM.Built(op)) == CM.Handled(op)
            && peer'.Some?
            && peer'.value.mailboxes == peer.mailboxes[q := M.Broke(peer.mailboxes[q], M.BrokenLink(reason, id))]
            && L.Relation(peer'.value.links) == L.Relation(peer.links) - {{id, q}}
  {
    hide L.NoRepeats, L.Relation, L.Partners, L.Distinct, L.Without, CloseMailbox, Exit2Requests, BoxAfter;
    hide CM.Dispatch, CM.Built, CM.InRange;
    ExitFanOut(n, reachable, id, name, reason);
    RequestIsMade(n.name, id, L.Partners(n.links, id), reason, q);
    CM.DispatchUndoesBuild(false, CM.Exit2(id, q, reason));
    L.UnlinkRefines(peer.links, id, q);
  }

  // ---------- Whole runs of a node ----------

  datatype Op =
    | DoCreate(id: Pid, registeredName: Option<Bytes>)
    | DoLink(local: Pid, remote: Pid)
    | DoUnlink(local: Pid, remote: Pid)
    | DoReceive(id: Pid, event: M.Event)   // a receiver enters or wakes up, or its timer expires
    | Got(dispatched: CM.Op)
    | DoClose(id: Pid, name: Bytes, reason: Bytes)

  /** `map::insert` keeps an entry that is already there. */
  function Create(n: NodeState, id: Pid, name: Option<Bytes>): NodeState {
    var n := if id in n.mailboxes then n else n.(mailboxes := n.mailboxes[id := M.EmptyBox()]);
    if name.None? || name.value in n.registered then n else n.(registered := n.registered[name.value := id])
  }

  /** A receiver's step on its own mailbox, and what it reports. */
  function Receiver(n: NodeState, id: Pid, e: M.Event): (NodeState, seq<M.Report>) {
    if id in n.mailboxes && (e.Enter? || e.Wake? || e.Expire?) then
      var s := M.Next(M.State(n.mailboxes[id], []), e);
      (n.(mailboxes := n.mailboxes[id := s.box]), s.reports)
    else (n, [])
  }

  function Next(n: NodeState, reachable: Peers, op: Op): NodeState {
    match op
    case DoCreate(id, name) => Create(n, id, name)
    case DoLink(local, remote) => (match Link(n, reachable, local, remote) case None => n case Some(m) => m)
    case DoUnlink(local, remote) => Unlink(n, reachable, local, remote).0
    case DoReceive(id, e) => Receiver(n, id, e).0
    case Got(op) => (match Perform(n, op) case None => n case Some(m) => m)
    case DoClose(id, name, reason) => CloseMailbox(n, reachable, id, name, reason).0
  }

  /** Each operation meets the network as it then is. */
  function After(name: Bytes, run: seq<(Peers, Op)>): NodeState {
    if run == [] then NodeState(name, map[], map[], [], [])
    else Next(After(name, run[..|run| - 1]), run[|run| - 1].0, run[|run| - 1].1)
  }

  lemma CloseLinks(n: NodeState, reachable: Peers, id: Pid, name: Bytes, reason: Bytes)
    requires L.NoRepeats(n.links)
    ensures CloseMailbox(n, reachable, id, name, reason).0.links == L.Keep(n.links, id)
  {
    hide L.NoRepeats, L.Relation, L.Keep, L.Partners, L.Distinct, CanBeTold, FanOut, Told, Exit2Requests;
    L.PartnersExactlyOnce(n.links, id);
    FanOutTells(n.(links := L.Keep(n.links, id)), reachable, n.links, id, L.Partners(n.links, id), reason);
  }

  lemma PerformKeepsLinksProper(n: NodeState, op: CM.Op)
    requires L.NoRepeats(n.links)
    ensures Perform(n, op).Some? ==> L.NoRepeats(Perform(n, op).value.links)
  {
    hide L.NoRepeats, L.Without, L.Linked;
    match op
    case Link(p, q) => L.LinkRefines(n.links, p, q);
    case Unlink(p, q) => L.UnlinkRefines(n.links, p, q);
    case Exit(p, q, _) => L.UnlinkRefines(n.links, p, q);
    case Exit2(p, q, _) => L.UnlinkRefines(n.links, p, q);
    case _ =>
  }

  /** In every run, whatever throws, the links stand for a set of unordered pairs: the fan-out theorems always apply. */
  lemma {:induction false} EveryRunKeepsLinksProper(name: Bytes, run: seq<(Peers, Op)>)
    ensures L.NoRepeats(After(name, run).links)
  {
    hide L.NoRepeats, L.Keep, L.Without, L.Linked, CloseMailbox;
    if run == [] {
      L.EmptyRefines();
    } else {
      var n := After(name, run[..|run| - 1]);
      EveryRunKeepsLinksProper(name, run[..|run| - 1]);
      match run[|run| - 1].1
      case DoCreate(_, _) =>
      case DoReceive(_, _) =>
      case DoLink(p, q) => L.LinkRefines(n.links, p, q);
      case DoUnlink(p, q) => L.UnlinkRefines(n.links, p, q);
      case Got(op) => PerformKeepsLinksProper(n, op);
      case DoClose(id, boxName, reason) =>
        CloseLinks(n, run[|run| - 1].0, id, boxName, reason);
        L.BreakRefines(n.links, id);
    }
  }

  /**
   * A run that gets there: a mailbox links to a local process that does not exist, which no one
   * checks. Closing it throws and leaves it registered; closing it again removes it.
   */
  lemma UnknownPartnerMakesCloseThrow(node: Bytes, reachable: Peers, p: Pid, q: Pid, reason: Bytes)
    requires p != q && q.node == node
    ensures var run := [(reachable, DoCreate(p, None)), (reachable, DoLink(p, q))]; var n := After(node, run);
            && !CloseMailbox(n, reachable, p, [], reason).1
            && var m := CloseMailbox(n, reachable, p, [], reason).0;
               && p in m.mailboxes && m.links == []
               && CloseMailbox(m, reachable, p, [], reason).1
               && p !in CloseMailbox(m, reachable, p, [], reason).0.mailboxes
  {
    hide CloseMailbox, L.NoRepeats, L.Relation, After;
    var run := [(reachable, DoCreate(p, None)), (reachable, DoLink(p, q))];
    var n := After(node, run);
    assert n.mailboxes == map[p := M.EmptyBox()] && n.name == node && n.links == [(p, q)] by {
      LinkedToUnknown(node, reachable, p, q);
    }
    EveryRunKeepsLinksProper(node, run);
    L.InRelation(n.links, (p, q));
    L.UnorderedIs(p, q);
    CloseSucceedsExactlyWhen(n, reachable, p, [], reason);
    CloseThatThrows(n, reachable, p, [], reason);
    SecondCloseTellsNobody(n, reachable, p, [], reason, reachable, [], reason);
    assert L.Keep([(p, q)], p) == [];
  }

  lemma LinkedToUnknown(node: Bytes, reachable: Peers, p: Pid, q: Pid)
    requires q.node == node
    ensures var n := After(node, [(reachable, DoCreate(p, None)), (reachable, DoLink(p, q))]);
            n.mailboxes == map[p := M.EmptyBox()] && n.name == node && n.links == [(p, q)]
  {
    var first, run := [(reachable, DoCreate(p, None))], [(reachable, DoCreate(p, None)), (reachable, DoLink(p, q))];
    assert first[..0] == [] && run[..1] == first;
    assert After(node, first).links == [];
    assert L.Linked([], p, q) == [(p, q)];
  }

  lemma AfterOneMore(node: Bytes, run: seq<(Peers, Op)>, step: (Peers, Op))
    ensures After(node, run + [step]) == Next(After(node, run), step.0, step.1)
  {
    hide Next;
    assert (run + [step])[..|run|] == run;
  }

  /**
   * From bytes to receiver, in every run of a node: a built message for a known mailbox with no broken
   * link pending is dispatched and delivered, and the receiver that enters next gets exactly its payload.
   */
  lemma DeliveredMessageIsReceived(node: Bytes, run: seq<(Peers, Op)>, peers: Peers, op: CM.Op, to: Pid)
    requires CM.InRange(op) && (op.Send? || op.RegSend?)
    requires var n := After(node, run);
             && (op.Send? ==> to == op.to)
             && (op.RegSend? ==> op.name in n.registered && to == n.registered[op.name])
             && to in n.mailboxes && n.mailboxes[to].broken == []
    ensures CM.Dispatch(false, CM.Built(op)) == CM.Handled(op)
    ensures var n := After(node, run); var n' := After(node, run + [(peers, Got(op))]);
            && OnlyMailboxChanges(n, n', to)
            && Receiver(n', to, M.Enter).1 == [M.Returned(op.payload)]
            && Receiver(n', to, M.Enter).0.mailboxes[to].received == n.mailboxes[to].received
  {
    hide After, CM.Dispatch, CM.Built, CM.InRange;
    CM.DispatchUndoesBuild(false, op);
    AfterOneMore(node, run, (peers, Got(op)));
    var box := After(node, run).mailboxes[to];
    assert ([op.payload] + box.received)[1..] == box.received;
  }

  /** A new mailbox is empty and gets its name unless that is taken; nothing that is there changes. */
  lemma CreateAdds(n: NodeState, id: Pid, name: Option<Bytes>)
    ensures var m := Create(n, id, name);
            && m.mailboxes.Keys == n.mailboxes.Keys + {id}
            && m.mailboxes[id] == (if id in n.mailboxes then n.mailboxes[id] else M.Box([], [], false, 0))
            && (forall q | q in n.mailboxes :: m.mailboxes[q] == n.mailboxes[q])
            && (forall x | x in n.registered :: x in m.registered && m.registered[x] == n.registered[x])
            && m.registered.Keys == n.registered.Keys + (if name.Some? then {name.value} else {})
            && (name.Some? && name.value !in n.registered ==> m.registered[name.value] == id)
            && m.links == n.links && m.requests == n.requests && m.name == n.name
  {
  }
}
