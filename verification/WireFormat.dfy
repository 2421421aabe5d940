/**
 * The wire formats in numerals: what every generator writes and every parser reads, byte by byte,
 * without the named constants and word functions the rest of the model is built from.
 */
module WireFormat {
  import opened ByteCodec
  import opened Parsing
  import opened Terms
  import opened TermCodec
  import opened Lexer
  import WriteQueue
  import HF = HandshakeFrames
  import E = Endpoint
  import CM = ControlMessages

  // ---------- Words, high-order byte first ----------

  lemma TwoBytes(n: nat)
    requires n < 65536
    ensures Be16(n) == [n / 256, n % 256]
  {
  }

  /** A 32-bit number, high-order byte first. */
  function Quad(n: nat): (r: Bytes)
    requires n < 4294967296
    ensures |r| == 4
  {
    [n / 16777216, n / 65536 % 256, n / 256 % 256, n % 256]
  }

  /** The number in four bytes, high-order byte first. */
  function Value4(b: Bytes): (n: nat)
    requires |b| == 4
    ensures n < 4294967296
  {
    (b[0] as int) * 16777216 + (b[1] as int) * 65536 + (b[2] as int) * 256 + (b[3] as int)
  }

  lemma FourBytes(n: nat)
    requires n < 4294967296
    ensures Be32(n) == Quad(n)
  {
    var h, l := n / 65536, n % 65536;
    assert n == h * 65536 + l;
    assert h / 256 == n / 16777216 && h / 256 % 256 == h / 256;
  }

  lemma FourBytesRead(b: Bytes)
    requires |b| == 4
    ensures FromBe32(b) == Value4(b)
  {
  }

  // ---------- The external term format ----------

  lemma IntLayout(v: int32)
    ensures EncodeLeaf(Int(v)) ==
            if 0 <= v <= 255 then [97, v] else [98] + Quad(if v < 0 then v + 4294967296 else v)
  {
    hide Be32, Quad;
    var n := if v < 0 then v + 4294967296 else v;
    assert v % 4294967296 == n;
    FourBytes(n);
  }

  lemma AtomLayout(name: Bytes)
    requires |name| < 65536
    ensures EncodeLeaf(Atom(name)) == [100, |name| / 256, |name| % 256] + name
  {
    hide Be16;
    TwoBytes(|name|);
    assert [100 as byte] + [|name| / 256, |name| % 256] == [100, |name| / 256, |name| % 256];
  }

  lemma PidLayout(p: Pid)
    requires |p.node| < 65536 && p.creation < 256
    ensures EncodeLeaf(PidLeaf(p)) ==
            [103] + ([100, |p.node| / 256, |p.node| % 256] + p.node) + Quad(p.id) + Quad(p.serial) + [p.creation]
  {
    hide Be16, Be32, Quad;
    AtomLayout(p.node);
    FourBytes(p.id);
    FourBytes(p.serial);
  }

  lemma RefLayout(r: Ref)
    requires |r.node| < 65536 && r.creation < 256 && |r.id| % 4 == 0 && |r.id| / 4 < 65536
    ensures EncodeLeaf(RefLeaf(r)) ==
            [114, |r.id| / 4 / 256, |r.id| / 4 % 256] + ([100, |r.node| / 256, |r.node| % 256] + r.node)
            + [r.creation] + r.id
  {
    hide Be16;
    AtomLayout(r.node);
    var n := |r.id| / 4;
    TwoBytes(n);
    assert [114 as byte] + [n / 256, n % 256] == [114, n / 256, n % 256];
  }

  lemma BinLayout(padding: int, value: Bytes)
    requires 0 <= padding < 256 && |value| < 4294967296
    ensures EncodeLeaf(Bin(padding, value)) ==
            if padding == 0 then [109] + Quad(|value|) + value else [77] + Quad(|value|) + [padding] + value
  {
    hide Be32, Quad;
    FourBytes(|value|);
  }

  lemma StrLayout(chars: Bytes)
    requires |chars| < 65536
    ensures EncodeLeaf(Str(chars)) == [107, |chars| / 256, |chars| % 256] + chars
  {
    hide Be16;
    TwoBytes(|chars|);
    assert [107 as byte] + [|chars| / 256, |chars| % 256] == [107, |chars| / 256, |chars| % 256];
  }

  /** A float is its text of 31 bytes. */
  lemma FloatLayout(text: Bytes)
    ensures EncodeLeaf(Float(text)) == [99] + text
    ensures LeafFits(Float(text)) <==> |text| == 31
  {
  }

  lemma TupleLayout(es: seq<Term>)
    requires |es| < 256
    ensures Encode(Tuple(es)) == [104, |es|] + Concat(Encodings(es))
  {
    hide EncodeAll;
    InOrder(es);
  }

  lemma ListLayout(es: seq<Term>)
    requires |es| < 4294967296
    ensures Encode(List(es)) == [108] + Quad(|es|) + Concat(Encodings(es)) + [106]
  {
    hide Be32, Quad, EncodeAll;
    FourBytes(|es|);
    InOrder(es);
  }

  function Encodings(es: seq<Term>): (r: seq<Bytes>) {
    seq(|es|, i requires 0 <= i < |es| => Encode(es[i]))
  }

  lemma {:induction false} InOrder(es: seq<Term>)
    ensures EncodeAll(es) == Concat(Encodings(es))
  {
    hide Encode;
    if es != [] {
      InOrder(es[1..]);
      assert Encodings(es)[1..] == Encodings(es[1..]);
    }
  }

  // ---------- The length fields the lexer reads ----------

  lemma LengthFields(b: Bytes)
    ensures ReadMsgSize(Handshake, b) ==
            if |b| < 2 then None else Some(2 + (b[0] as int) * 256 + (b[1] as int))
    ensures ReadMsgSize(Connected, b) ==
            if |b| < 4 then None else Some((4 + Value4(b[..4])) % 4294967296)
  {
    hide FromBe32, Value4;
    if |b| >= 4 {
      FourBytesRead(b[..4]);
    }
  }

  // ---------- The handshake ----------

  // Version 5 and capabilities 0x504 are fixed.

  lemma FixedWords()
    ensures Be16(HF.SUPPORTED_VERSION) == [0, 5] && Be32(HF.CAPABILITIES) == [0, 0, 5, 4]
  {
  }

  lemma NameLayout(name: Bytes)
    requires |name| + 7 < 65536
    ensures HF.NameFrame(name) == [(|name| + 7) / 256, (|name| + 7) % 256, 110, 0, 5, 0, 0, 5, 4] + name
  {
    hide Be16, Be32;
    FixedWords();
    TwoBytes(|name| + 7);
  }

  lemma ChallengeLayout(challenge: uint32, name: Bytes)
    requires |name| + 11 < 65536
    ensures HF.ChallengeFrame(challenge, name) ==
            [(|name| + 11) / 256, (|name| + 11) % 256, 110, 0, 5, 0, 0, 5, 4] + Quad(challenge) + name
  {
    hide Be16, Be32, Quad;
    FixedWords();
    TwoBytes(|name| + 11);
    FourBytes(challenge);
  }

  lemma ReplyLayout(challenge: uint32, digest: Bytes)
    ensures HF.ReplyFrame(challenge, digest) == [0, 21, 114] + Quad(challenge) + digest
  {
    hide Be32, Quad;
    FourBytes(challenge);
  }

  lemma StatusLayout(status: Bytes)
    requires |status| + 1 < 65536
    ensures HF.StatusFrame(status) == [(|status| + 1) / 256, (|status| + 1) % 256, 115] + status
  {
    hide Be16;
    TwoBytes(|status| + 1);
  }

  lemma AckLayout(digest: Bytes)
    ensures HF.AckFrame(digest) == [0, 17, 97] + digest
  {
  }

  function Text(s: string): (r: Bytes)
    requires forall i | 0 <= i < |s| :: s[i] < 128 as char
    ensures |r| == |s|
  {
    seq(|s|, i requires 0 <= i < |s| => s[i] as int)
  }

  lemma StatusTexts()
    ensures HF.STATUS_OK == Text("ok") && HF.STATUS_OK_SIMULTANEOUS == Text("ok_simultaneous")
    ensures E.TICK == [0, 0, 0, 0]
  {
  }

  // What each parser accepts, on every byte sequence; the name and status parsers ignore the length field.

  lemma NameReadBack(b: Bytes)
    ensures HF.ParseName(b).Ok? <==> |b| >= 10 && b[2] == 110
    ensures HF.ParseName(b).Ok? ==>
              var v := Value4(b[5..9]);
              HF.ParseName(b) == Ok(HF.SentName((b[3] as int) * 256 + (b[4] as int),
                                                if v < 2147483648 then v else v - 4294967296, b[9..]), [])
  {
    hide FromBe32, Value4;
    if |b| >= 9 {
      assert b[2..][1..] == b[3..] && b[3..][..2] == b[3..5] && b[3..][2..] == b[5..];
      assert b[5..][..4] == b[5..9] && b[5..][4..] == b[9..];
      FourBytesRead(b[5..9]);
    }
  }

  lemma StatusReadBack(b: Bytes)
    ensures HF.ParseStatus(b) == if |b| >= 4 && b[2] == 115 then Ok(b[3..], []) else Fail
  {
    if |b| >= 3 {
      assert b[2..][1..] == b[3..];
    }
  }

  lemma ChallengeReadBack(b: Bytes)
    ensures HF.ParseChallenge(b) == if |b| >= 14 && b[2] == 110 then Ok(Value4(b[9..13]), []) else Fail
  {
    hide FromBe32, Value4;
    if |b| >= 13 {
      assert b[2..][1..] == b[3..] && b[3..][2..] == b[5..] && b[5..][4..] == b[9..];
      assert b[9..][..4] == b[9..13] && b[9..][4..] == b[13..];
      FourBytesRead(b[9..13]);
    }
  }

  lemma ReplyReadBack(b: Bytes)
    ensures HF.ParseReply(b) == if |b| >= 23 && b[..3] == [0, 21, 114]
                                then Ok(HF.ChallengeReply(Value4(b[3..7]), b[7..23]), b[23..]) else Fail
  {
    hide FromBe32, Value4;
    if |b| >= 7 {
      assert b[2..][1..] == b[3..] && b[3..][..4] == b[3..7] && b[3..][4..] == b[7..];
      FourBytesRead(b[3..7]);
      if |b| >= 23 {
        assert b[7..][..16] == b[7..23] && b[7..][16..] == b[23..];
      }
    }
    assert |b| >= 3 ==> (b[..3] == [0, 21, 114] <==> b[0] == 0 && b[1] == 21 && b[2] == 114);
  }

  lemma AckReadBack(b: Bytes)
    ensures HF.ParseAck(b) == if |b| >= 19 && b[..3] == [0, 17, 97] then Ok(b[3..19], b[19..]) else Fail
  {
    if |b| >= 3 {
      assert b[2..][1..] == b[3..];
      if |b| >= 19 {
        assert b[3..][..16] == b[3..19] && b[3..][16..] == b[19..];
      }
    }
    assert |b| >= 3 ==> (b[..3] == [0, 17, 97] <==> b[0] == 0 && b[1] == 17 && b[2] == 97);
  }

  /** B greets exactly a readable name with a version of at most 5 and a second word, read as signed, of at least 5. */
  lemma GreetsExactlyWhen(self: E.Identity, e: E.Endpoint, msg: Bytes)
    requires e.phase.ConnectedTcp?
    ensures var readable := |msg| >= 10 && msg[2] == 110; var e' := E.NameRead(self, e, msg);
            && (!readable ==> e' == e)
            && (readable ==>
                  var v := Value4(msg[5..9]);
                  if (msg[3] as int) * 256 + (msg[4] as int) <= 5 <= v && v < 2147483648 then
                    e'.phase == E.SendingStatus && e'.peerName == Some(msg[9..]) && e'.outcome == e.outcome
                  else e'.phase == E.ConnectedTcp && e'.outcome == Some(false) && e'.writer == e.writer)
  {
    hide HF.ParseName, Value4, HF.StatusFrame, HF.ChallengeFrame, WriteQueue.Trigger;
    NameReadBack(msg);
  }

  /** A goes on exactly on the statuses "ok" and "ok_simultaneous". */
  lemma GoesOnExactlyWhen(hash: E.Hash, self: E.Identity, e: E.Endpoint, msg: Bytes)
    requires e.phase.WaitingForStatus? && e.handshakeMsgs.msgs == []
    ensures var readable := |msg| >= 4 && msg[2] == 115; var e' := E.StatusRead(hash, self, e, msg);
            && (!readable ==> e' == e)
            && (readable ==>
                  if msg[3..] == Text("ok") || msg[3..] == Text("ok_simultaneous") then
                    e'.phase == E.ReceivingChallenge && e'.reading && e'.outcome == e.outcome
                  else e'.phase == E.ConnectedTcp && e'.outcome == Some(false))
  {
    hide HF.ParseStatus, Text, E.ChallengeRead;
    StatusReadBack(msg);
    StatusTexts();
  }

  /** A replies exactly to a readable challenge, with its own challenge and the digest of the one it got. */
  lemma RepliesExactlyWhen(hash: E.Hash, self: E.Identity, e: E.Endpoint, msg: Bytes)
    requires e.phase.ReceivingChallenge?
    ensures E.ChallengeRead(hash, self, e, msg) ==
            if |msg| >= 14 && msg[2] == 110 then
              var reply := [0, 21, 114] + Quad(self.challenge) + E.Digest(hash, Value4(msg[9..13]), self.cookie);
              e.(phase := E.SendingChallengeReply, writer := WriteQueue.Trigger(e.writer, reply, E.ReplySent))
            else e
  {
    hide HF.ParseChallenge, HF.ReplyFrame, Value4, Quad, E.Digest, WriteQueue.Trigger;
    ChallengeReadBack(msg);
    if |msg| >= 14 {
      ReplyLayout(self.challenge, E.Digest(hash, Value4(msg[9..13]), self.cookie));
    }
  }

  /** B acknowledges exactly a readable reply with the right digest; a readable one with another digest fails. */
  lemma AcknowledgesExactlyWhen(hash: E.Hash, self: E.Identity, e: E.Endpoint, msg: Bytes)
    requires e.phase.WaitingForChallengeReply?
    ensures E.ReplyReceived(hash, self, e, msg) ==
            if |msg| >= 23 && msg[..3] == [0, 21, 114] then
              if msg[7..23] == E.Digest(hash, self.challenge, self.cookie) then
                var ack := [0, 17, 97] + E.Digest(hash, Value4(msg[3..7]), self.cookie);
                e.(phase := E.SendingChallengeAck, writer := WriteQueue.Trigger(e.writer, ack, E.ChallengeAckWritten))
              else e.(phase := E.ConnectedTcp, outcome := Some(false))
            else e
  {
    hide HF.ParseReply, HF.AckFrame, Value4, E.Digest, WriteQueue.Trigger;
    ReplyReadBack(msg);
    if |msg| >= 23 {
      AckLayout(E.Digest(hash, Value4(msg[3..7]), self.cookie));
    }
  }

  /** A connects exactly on a readable acknowledgement with the right digest. */
  lemma ConnectsExactlyWhen(hash: E.Hash, self: E.Identity, e: E.Endpoint, msg: Bytes)
    requires e.phase.ReceivingChallengeAck?
    ensures E.ChallengeAckRead(hash, self, e, msg) ==
            if |msg| >= 19 && msg[..3] == [0, 17, 97] && msg[3..19] == E.Digest(hash, self.challenge, self.cookie) then
              e.(phase := E.Up, received := Connected, outcome := Some(true), reading := true)
            else e
  {
    hide HF.ParseAck, E.Digest;
    AckReadBack(msg);
  }

  // ---------- Control messages ----------

  /** The control tuples, with the pids and atoms laid out as above; the cookie is the empty atom. */
  lemma ControlTuples(from: Pid, to: Pid, name: Bytes, payload: Bytes)
    ensures CM.ControlTuple(CM.Send(to, payload)) == [104, 3, 97, 2, 100, 0, 0] + EncodeLeaf(PidLeaf(to))
    ensures CM.ControlTuple(CM.RegSend(from, name, payload)) ==
            [104, 4, 97, 6] + EncodeLeaf(PidLeaf(from)) + [100, 0, 0] + EncodeLeaf(Atom(name))
    ensures CM.ControlTuple(CM.Link(from, to)) == [104, 3, 97, 1] + EncodeLeaf(PidLeaf(from)) + EncodeLeaf(PidLeaf(to))
    ensures CM.ControlTuple(CM.Unlink(from, to)) ==
            [104, 3, 97, 4] + EncodeLeaf(PidLeaf(from)) + EncodeLeaf(PidLeaf(to))
    ensures CM.ControlTuple(CM.Exit(from, to, name)) ==
            [104, 4, 97, 3] + EncodeLeaf(PidLeaf(from)) + EncodeLeaf(PidLeaf(to)) + EncodeLeaf(Atom(name))
    ensures CM.ControlTuple(CM.Exit2(from, to, name)) ==
            [104, 4, 97, 8] + EncodeLeaf(PidLeaf(from)) + EncodeLeaf(PidLeaf(to)) + EncodeLeaf(Atom(name))
  {
    hide EncodeLeaf, CM.ControlTuple;
    SmallInts();
    ThreeTuple(CM.Send(to, payload), Int(2), Atom([]), PidLeaf(to));
    FourTuple(CM.RegSend(from, name, payload), Int(6), PidLeaf(from), Atom([]), Atom(name));
    ThreeTuple(CM.Link(from, to), Int(1), PidLeaf(from), PidLeaf(to));
    ThreeTuple(CM.Unlink(from, to), Int(4), PidLeaf(from), PidLeaf(to));
    FourTuple(CM.Exit(from, to, name), Int(3), PidLeaf(from), PidLeaf(to), Atom(name));
    FourTuple(CM.Exit2(from, to, name), Int(8), PidLeaf(from), PidLeaf(to), Atom(name));
  }

  lemma SmallInts()
    ensures forall v: int32 | 0 <= v <= 255 :: EncodeLeaf(Int(v)) == [97, v]
    ensures EncodeLeaf(Atom([])) == [100, 0, 0]
  {
  }

  lemma ThreeTuple(op: CM.Op, x: Leaf, y: Leaf, z: Leaf)
    requires CM.Elements(op) == [x, y, z]
    ensures CM.ControlTuple(op) == [104, 3] + EncodeLeaf(x) + EncodeLeaf(y) + EncodeLeaf(z)
  {
    hide EncodeLeaf, CM.Elements;
    var ls := [x, y, z];
    assert ls[0..] == ls && ls[3..] == [];
    CM.ScalarsStep(ls, 0);
    CM.ScalarsStep(ls, 1);
    CM.ScalarsStep(ls, 2);
  }

  lemma FourTuple(op: CM.Op, w: Leaf, x: Leaf, y: Leaf, z: Leaf)
    requires CM.Elements(op) == [w, x, y, z]
    ensures CM.ControlTuple(op) == [104, 4] + EncodeLeaf(w) + EncodeLeaf(x) + EncodeLeaf(y) + EncodeLeaf(z)
  {
    hide EncodeLeaf, CM.Elements;
    var ls := [w, x, y, z];
    assert ls[0..] == ls && ls[4..] == [];
    CM.ScalarsStep(ls, 0);
    CM.ScalarsStep(ls, 1);
    CM.ScalarsStep(ls, 2);
    CM.ScalarsStep(ls, 3);
  }

  /** A whole message: its size, 112, 131, the control tuple, and for sends 131 and the payload. */
  lemma MessageLayout(op: CM.Op)
    requires |CM.Built(op)| < 4294967296
    ensures var tail := if op.Send? || op.RegSend? then [131] + op.payload else [];
            CM.Built(op) == Quad(2 + |CM.ControlTuple(op)| + |tail|) + [112, 131] + CM.ControlTuple(op) + tail
  {
    hide CM.ControlTuple, Be32, Quad;
    FourBytes(|CM.Body(op)|);
  }

  /** The header is accepted exactly when it reads any four bytes, 112 and 131 as an unsigned byte. */
  lemma HeaderExactly(signedChar: bool, msg: Bytes)
    ensures CM.ParseHeader(signedChar, msg) ==
            if |msg| < 5 || msg[4] != 112 then CM.Bad(CM.Rejected(CM.InvalidHeader))
            else if |msg| == 5 then CM.Bad(CM.PastEnd)
            else if msg[5] != 131 || signedChar then CM.Bad(CM.Rejected(CM.ErroneousVersion))
            else CM.Good(msg[6..])
  {
    hide FromBe32;
    if |msg| >= 5 {
      assert msg[4..][1..] == msg[5..];
      if |msg| >= 6 {
        assert msg[5..][1..] == msg[6..];
      }
    }
  }
}
