/**
 * The connection object: state objects that replace one another, two lexers of which one receives,
 * and the write queue. Every callback is proved to compute the function of the same name on values.
 */
module Connection {
  import opened ByteCodec
  import opened Lexer
  import opened WriteQueue
  import opened HandshakeFrames
  import E = Endpoint

  /** The states that register a read; the three sending states wait for a write. */
  predicate RegistersRead(p: E.Phase) {
    !p.SendingStatus? && !p.SendingChallengeReply? && !p.SendingChallengeAck?
  }

  class NodeConnection {
    const hash: E.Hash
    const nodeName: Bytes
    const cookie: Bytes
    const handshakeMsgs: MsgLexer
    const connectedMsgs: MsgLexer
    const tcp: AsyncTcpIp<E.WriteCallback>
    var ownChallenge: uint32
    var state: E.Phase
    var receivedMsgs: MsgLexer      // the lexer the next read feeds
    var reading: bool
    var peerName: Option<Bytes>
    var handshakeSuccess: Option<bool>
    var sent: seq<Bytes>
    var handled: seq<Bytes>

    ghost predicate Valid()
      reads this
    {
      && handshakeMsgs.header == Handshake && connectedMsgs.header == Connected
      && (receivedMsgs == handshakeMsgs || receivedMsgs == connectedMsgs)
    }

    ghost function Self(): E.Identity
      reads this
    {
      E.Identity(nodeName, cookie, ownChallenge)
    }

    ghost function View(): E.Endpoint
      reads this, handshakeMsgs, connectedMsgs, tcp, receivedMsgs
    {
      E.Endpoint(state, reading, receivedMsgs.header, Lexed(handshakeMsgs.msgs, handshakeMsgs.incomplete),
                 Lexed(connectedMsgs.msgs, connectedMsgs.incomplete),
                 tcp.View(), peerName, handshakeSuccess, sent, handled)
    }

    /** The state a handshake callback works on once it has taken the first message. */
    ghost function Popped(): E.Endpoint
      requires handshakeMsgs.msgs != []
      reads this, handshakeMsgs, connectedMsgs, tcp, receivedMsgs
    {
      View().(handshakeMsgs := Lexed(handshakeMsgs.msgs[1..], handshakeMsgs.incomplete))
    }

    constructor (hash: E.Hash, nodeName: Bytes, cookie: Bytes)
      ensures Valid() && View() == E.Fresh()
      ensures this.hash == hash && this.nodeName == nodeName && this.cookie == cookie
      ensures fresh(handshakeMsgs) && fresh(connectedMsgs) && fresh(tcp)
    {
      this.hash, this.nodeName, this.cookie := hash, nodeName, cookie;
      handshakeMsgs := new MsgLexer(Handshake);
      connectedMsgs := new MsgLexer(Connected);
      tcp := new AsyncTcpIp<E.WriteCallback>();
      ownChallenge := 0;
      state := E.ConnectedTcp;
      receivedMsgs := handshakeMsgs;
      reading := false;
      peerName, handshakeSuccess, sent, handled := None, None, [], [];
    }

    method StartHandshakeAsA(challenge: uint32)
      requires Valid() && View() == E.Fresh()
      modifies this, tcp
      ensures Valid() && ownChallenge == challenge && View() == E.StartAsA(Self())
    {
      hide NameFrame, Trigger;
      ownChallenge := challenge;
      TriggerWrite(NameFrame(nodeName), E.HandshakeSent);
    }

    method StartHandshakeAsB(challenge: uint32)
      requires Valid() && View() == E.Fresh()
      modifies this
      ensures Valid() && ownChallenge == challenge && View() == E.StartAsB()
    {
      ownChallenge := challenge;
      TriggerRead();
    }

    method TriggerRead()
      modifies this`reading
      ensures View() == old(View()).(reading := true)
    {
      reading := true;
    }

    method TriggerWrite(msg: Bytes, callback: E.WriteCallback)
      modifies tcp
      ensures View() == E.Write(old(View()), msg, callback)
    {
      tcp.TriggerWrite(msg, callback);
    }

    method ReportFailure()
      modifies this`state, this`handshakeSuccess
      ensures View() == E.ReportFailure(old(View()))
    {
      state := E.ConnectedTcp;
      handshakeSuccess := Some(false);
    }

    /** `handshake_complete` switches lexers between the change of state and the first read. */
    method MakeTransitionToConnected()
      requires Valid()
      modifies this`state, this`receivedMsgs, this`handshakeSuccess, this`reading
      ensures Valid() && View() == E.MakeTransitionToConnected(old(View()))
    {
      state := E.Up;
      receivedMsgs := connectedMsgs;
      handshakeSuccess := Some(true);
      TriggerRead();
    }

    method NameRead()
      requires Valid() && handshakeMsgs.msgs != []
      modifies this, handshakeMsgs, tcp
      ensures Valid() && Self() == old(Self())
      ensures View() == E.NameRead(Self(), old(Popped()), old(handshakeMsgs.msgs)[0])
    {
      hide ParseName, ChallengeFrame, StatusFrame, SupportedVersion, Trigger;
      var msg := handshakeMsgs.NextMessage();
      match ParseName(msg.value)
      case Fail =>
      case Ok(sentName, _) =>
        if SupportedVersion(sentName) {
          peerName := Some(sentName.name);
          state := E.SendingStatus;
          TriggerWrite(StatusFrame(STATUS_OK), E.Ignore);
          TriggerWrite(ChallengeFrame(ownChallenge, nodeName), E.ChallengeWritten);
        } else {
          ReportFailure();
        }
    }

    method ChallengeRead()
      requires Valid() && handshakeMsgs.msgs != []
      modifies this, handshakeMsgs, tcp
      ensures Valid() && Self() == old(Self())
      ensures View() == E.ChallengeRead(hash, Self(), old(Popped()), old(handshakeMsgs.msgs)[0])
    {
      hide ParseChallenge, ReplyFrame, E.Digest, Trigger;
      var msg := handshakeMsgs.NextMessage();
      match ParseChallenge(msg.value)
      case Fail =>
      case Ok(challenge, _) =>
        state := E.SendingChallengeReply;
        TriggerWrite(ReplyFrame(ownChallenge, E.Digest(hash, challenge, cookie)), E.ReplySent);
    }

    method StatusRead()
      requires Valid() && handshakeMsgs.msgs != []
      modifies this, handshakeMsgs, tcp
      ensures Valid() && Self() == old(Self())
      ensures View() == E.StatusRead(hash, Self(), old(Popped()), old(handshakeMsgs.msgs)[0])
    {
      hide ParseStatus, E.ChallengeRead;
      var msg := handshakeMsgs.NextMessage();
      match ParseStatus(msg.value)
      case Fail =>
      case Ok(status, _) =>
        if status == STATUS_OK || status == STATUS_OK_SIMULTANEOUS {
          state := E.ReceivingChallenge;
          if handshakeMsgs.msgs != [] {
            ChallengeRead();
          } else {
            TriggerRead();
          }
        } else {
          ReportFailure();
        }
    }

    method ReplyReceived()
      requires Valid() && handshakeMsgs.msgs != []
      modifies this, handshakeMsgs, tcp
      ensures Valid() && Self() == old(Self())
      ensures View() == E.ReplyReceived(hash, Self(), old(Popped()), old(handshakeMsgs.msgs)[0])
    {
      hide ParseReply, AckFrame, E.Digest, Trigger;
      var msg := handshakeMsgs.NextMessage();
      match ParseReply(msg.value)
      case Fail =>
      case Ok(reply, _) =>
        var expected := E.Digest(hash, ownChallenge, cookie);
        if reply.digest == expected {
          state := E.SendingChallengeAck;
          TriggerWrite(AckFrame(E.Digest(hash, reply.challenge, cookie)), E.ChallengeAckWritten);
        } else {
          ReportFailure();
        }
    }

    method ChallengeAckRead()
      requires Valid() && handshakeMsgs.msgs != []
      modifies this, handshakeMsgs
      ensures Valid() && Self() == old(Self())
      ensures View() == E.ChallengeAckRead(hash, Self(), old(Popped()), old(handshakeMsgs.msgs)[0])
    {
      hide ParseAck, E.Digest;
      var msg := handshakeMsgs.NextMessage();
      match ParseAck(msg.value)
      case Fail =>
      case Ok(digest, _) =>
        if digest == E.Digest(hash, ownChallenge, cookie) {
          MakeTransitionToConnected();
        }
    }

    /** A request on an established connection. */
    method Send(msg: Bytes)
      modifies this`sent, tcp
      ensures View() == E.Send(old(View()), msg)
    {
      hide Trigger;
      if state.Up? {
        sent := sent + [msg];
        TriggerWrite(msg, E.Ignore);
      }
    }

    method MsgReceived()
      requires Valid() && connectedMsgs.msgs != []
      modifies this, connectedMsgs, tcp
      ensures Valid() && Self() == old(Self())
      ensures View() == E.MsgReceived(
                old(View()).(connectedMsgs := Lexed(old(connectedMsgs.msgs)[1..], old(connectedMsgs.incomplete))),
                old(connectedMsgs.msgs)[0])
    {
      hide E.Send;
      var msg := connectedMsgs.NextMessage();
      handled := handled + [msg.value];
      reading := true;
      if msg.value == E.TICK {
        Send(E.TICK);
      }
    }

    /** The completion handler of a read; the callback is the one the current state registered. */
    method CheckedRead(chunk: Bytes)
      requires Valid() && reading && RegistersRead(state) && (receivedMsgs == connectedMsgs <==> state.Up?)
      requires !Diverges(receivedMsgs.header, receivedMsgs.incomplete + chunk)
      modifies this, handshakeMsgs, connectedMsgs, tcp
      ensures Valid() && Self() == old(Self())
      ensures View() == E.CheckedRead(hash, Self(), old(View()), chunk)
    {
      hide Lex, Diverges, E.NameRead, E.StatusRead, E.ChallengeRead, E.ReplyReceived, E.ChallengeAckRead, E.MsgReceived;
      var complete := receivedMsgs.Add(chunk);
      assert View() == E.Feed(old(View()), chunk);
      if complete {
        RunReadCallback();
      } else {
        TriggerRead();
      }
    }

    method RunReadCallback()
      requires Valid() && receivedMsgs.msgs != []
      requires RegistersRead(state) && (receivedMsgs == connectedMsgs <==> state.Up?)
      modifies this, handshakeMsgs, connectedMsgs, tcp
      ensures Valid() && Self() == old(Self())
      ensures View() == E.ReadCallback(hash, Self(), old(View()))
    {
      hide E.NameRead, E.StatusRead, E.ChallengeRead, E.ReplyReceived, E.ChallengeAckRead, E.MsgReceived;
      reading := false;
      match state
      case ConnectedTcp => NameRead();
      case WaitingForStatus => StatusRead();
      case ReceivingChallenge => ChallengeRead();
      case WaitingForChallengeReply => ReplyReceived();
      case ReceivingChallengeAck => ChallengeAckRead();
      case Up => MsgReceived();
    }

    /** The completion handler of a write: the queue moves on first, then the callback runs. */
    method CheckedWrite()
      requires Valid() && OneInFlight(tcp.View()) && CanComplete(tcp.View())
      modifies this, tcp
      ensures Valid() && Self() == old(Self()) && OneInFlight(tcp.View())
      ensures View() == E.CheckedWrite(old(View()))
    {
      hide Written, OneInFlight;
      var callback := tcp.CheckedWrite();
      match callback
      case Ignore =>
      case HandshakeSent =>
        state := E.WaitingForStatus;
        TriggerRead();
      case ChallengeWritten =>
        state := E.WaitingForChallengeReply;
        TriggerRead();
      case ReplySent =>
        state := E.ReceivingChallengeAck;
        TriggerRead();
      case ChallengeAckWritten => MakeTransitionToConnected();
    }
  }
}
