/** Rebuilding length-prefixed messages from a byte stream that is cut and merged arbitrarily. */
module Lexer {
  import opened ByteCodec

  /** The two message formats differ in the width of the length field. */
  datatype Header = Handshake | Connected

  function HeaderSize(h: Header): nat {
    if h.Handshake? then 2 else 4
  }

  /** Length field plus header; for connected nodes the sum is computed in 32 bits and may wrap. */
  function ReadMsgSize(h: Header, b: Bytes): Option<nat> {
    if |b| < HeaderSize(h) then None
    else if h.Handshake? then Some(2 + FromBe16(b[..2]))
    else Some((4 + FromBe32(b[..4])) % 0x1_0000_0000)
  }

  datatype Lexed = Lexed(msgs: seq<Bytes>, rest: Bytes)

  /** The messages at the front of a stream and the bytes left over. */
  function Lex(h: Header, b: Bytes): (r: Lexed)
    ensures |r.rest| <= |b|
    decreases |b|
  {
    match ReadMsgSize(h, b)
    case None => Lexed([], b)
    case Some(n) =>
      if n == 0 || |b| < n then Lexed([], b)
      else
        var r := Lex(h, b[n..]);
        Lexed([b[..n]] + r.msgs, r.rest)
  }

  /** Some message starts with a length field that makes header plus length wrap to 0. */
  predicate Diverges(h: Header, b: Bytes)
    decreases |b|
  {
    match ReadMsgSize(h, b)
    case None => false
    case Some(n) => n == 0 || (n <= |b| && Diverges(h, b[n..]))
  }

  /** One whole message: its length field says how long it is. */
  predicate IsFrame(h: Header, f: Bytes) {
    ReadMsgSize(h, f) == Some(|f|) && f != []
  }

  class MsgLexer {
    const header: Header
    var incomplete: Bytes
    var msgs: seq<Bytes>

    constructor (h: Header)
      ensures header == h && incomplete == [] && msgs == []
    {
      header := h;
      incomplete := [];
      msgs := [];
    }

    /** The new bytes join the incomplete ones; every message they complete is queued in order. */
    method Add(msg: Bytes) returns (complete: bool)
      requires !Diverges(header, incomplete + msg)
      modifies this
      ensures var r := Lex(header, old(incomplete) + msg);
              incomplete == r.rest && msgs == old(msgs) + r.msgs
      ensures complete <==> msgs != []
    {
      if incomplete != [] {
        incomplete := incomplete + msg;
      } else {
        assert incomplete + msg == msg;
        incomplete := msg;
      }
      HandleNewCondition();
      complete := msgs != [];
    }

    method NextMessage() returns (m: Option<Bytes>)
      modifies this`msgs
      ensures old(msgs) == [] ==> m == None && msgs == []
      ensures old(msgs) != [] ==> m == Some(old(msgs)[0]) && msgs == old(msgs)[1..]
    {
      m := None;
      if msgs != [] {
        m := Some(msgs[0]);
        msgs := msgs[1..];
      }
    }

    method HandleNewCondition()
      requires !Diverges(header, incomplete)
      modifies this
      ensures var r := Lex(header, old(incomplete));
              incomplete == r.rest && msgs == old(msgs) + r.msgs
      decreases |incomplete|
    {
      var size := ReadMsgSize(header, incomplete);
      if size.Some? {
        var left := |incomplete|;
        if left == size.value {
          assert incomplete[..left] == incomplete && incomplete[left..] == [];
          assert Lex(header, []) == Lexed([], []);
          msgs := msgs + [incomplete];
          incomplete := [];
        } else if left > size.value {
          ExtractMsg(size.value);
          StripIncomplete(size.value);
          HandleNewCondition();
        }
      }
    }

    method ExtractMsg(size: nat)
      requires size < |incomplete|
      modifies this`msgs
      ensures msgs == old(msgs) + [incomplete[..size]]
    {
      msgs := msgs + [incomplete[..size]];
    }

    method StripIncomplete(start: nat)
      requires start < |incomplete|
      modifies this`incomplete
      ensures incomplete == old(incomplete)[start..]
    {
      incomplete := incomplete[start..];
    }
  }

  // ---------- Conservation ----------

  lemma LexStep(h: Header, b: Bytes, n: nat)
    requires ReadMsgSize(h, b) == Some(n) && 0 < n <= |b|
    ensures Lex(h, b).msgs == [b[..n]] + Lex(h, b[n..]).msgs && Lex(h, b).rest == Lex(h, b[n..]).rest
  {
  }

  lemma LexStop(h: Header, b: Bytes)
    requires var size := ReadMsgSize(h, b); size.None? || size.value == 0 || |b| < size.value
    ensures Lex(h, b) == Lexed([], b)
  {
  }

  /** Nothing is lost, added or reordered. */
  lemma {:induction false} LexConserves(h: Header, b: Bytes)
    ensures Concat(Lex(h, b).msgs) + Lex(h, b).rest == b
    decreases |b|
  {
    hide ReadMsgSize, Concat, Lex;
    var size := ReadMsgSize(h, b);
    if size.Some? && 0 < size.value <= |b| {
      var n := size.value;
      LexStep(h, b, n);
      LexConserves(h, b[n..]);
      var r := Lex(h, b[n..]);
      ConcatPrepend(b[..n], r.msgs);
      Assoc2(b[..n], Concat(r.msgs), r.rest);
    } else {
      LexStop(h, b);
      ConcatEmpty();
    }
  }

  /** No whole message is left behind, and the leftover is lexed no further. */
  lemma {:induction false} LeftoverIsPartial(h: Header, b: Bytes)
    requires !Diverges(h, b)
    ensures var rest := Lex(h, b).rest; var size := ReadMsgSize(h, rest);
            (size.Some? ==> |rest| < size.value) && Lex(h, rest) == Lexed([], rest) && !Diverges(h, rest)
    decreases |b|
  {
    hide ReadMsgSize;
    var size := ReadMsgSize(h, b);
    if size.Some? && size.value <= |b| {
      LeftoverIsPartial(h, b[size.value..]);
    }
  }

  // ---------- Chunk invariance ----------

  lemma SizeStable(h: Header, a: Bytes, b: Bytes)
    requires ReadMsgSize(h, a).Some?
    ensures ReadMsgSize(h, a + b) == ReadMsgSize(h, a)
  {
    assert (a + b)[..2] == a[..2];
    if h.Connected? {
      assert (a + b)[..4] == a[..4];
    }
  }

  /** Lexing a stream in two pieces gives what lexing it whole gives. */
  lemma {:induction false} LexSplit(h: Header, a: Bytes, b: Bytes)
    ensures var r := Lex(h, a); var r' := Lex(h, r.rest + b);
            Lex(h, a + b) == Lexed(r.msgs + r'.msgs, r'.rest)
    decreases |a|
  {
    hide ReadMsgSize;
    var size := ReadMsgSize(h, a);
    if size.Some? && 0 < size.value <= |a| {
      var n := size.value;
      SizeStable(h, a, b);
      LexSplit(h, a[n..], b);
      assert (a + b)[..n] == a[..n] && (a + b)[n..] == a[n..] + b;
      var r := Lex(h, a[n..]);
      var r' := Lex(h, r.rest + b);
      assert ([a[..n]] + r.msgs) + r'.msgs == [a[..n]] + (r.msgs + r'.msgs);
    } else {
      assert [] + Lex(h, a + b).msgs == Lex(h, a + b).msgs;
    }
  }

  /** What successive calls of `Add` leave in a lexer that starts out empty. */
  function LexChunks(h: Header, chunks: seq<Bytes>): Lexed {
    if chunks == [] then Lexed([], [])
    else
      var r := LexChunks(h, chunks[..|chunks| - 1]);
      var r' := Lex(h, r.rest + chunks[|chunks| - 1]);
      Lexed(r.msgs + r'.msgs, r'.rest)
  }

  lemma LexEmpty(h: Header)
    ensures Lex(h, []) == Lexed([], [])
  {
  }

  /** However a stream is cut, the messages and the leftover are those of the uncut stream. */
  lemma {:induction false} ChunkingIsIrrelevant(h: Header, chunks: seq<Bytes>)
    ensures LexChunks(h, chunks) == Lex(h, Concat(chunks))
  {
    hide Lex, Concat;
    if chunks != [] {
      var init, last := chunks[..|chunks| - 1], chunks[|chunks| - 1];
      ChunkingIsIrrelevant(h, init);
      ConcatAppend(init, last);
      assert chunks == init + [last];
      LexSplit(h, Concat(init), last);
    } else {
      ConcatEmpty();
      LexEmpty(h);
    }
  }

  // ---------- Streams of whole messages ----------

  lemma LexFrame(h: Header, f: Bytes, s: Bytes)
    requires IsFrame(h, f)
    ensures Lex(h, f + s) == Lexed([f] + Lex(h, s).msgs, Lex(h, s).rest)
    ensures Diverges(h, f + s) <==> Diverges(h, s)
  {
    hide ReadMsgSize;
    SizeStable(h, f, s);
    assert (f + s)[..|f|] == f && (f + s)[|f|..] == s;
  }

  predicate AllFrames(h: Header, fs: seq<Bytes>) {
    forall i | 0 <= i < |fs| :: IsFrame(h, fs[i])
  }

  lemma {:induction false} LexFrames(h: Header, fs: seq<Bytes>, s: Bytes)
    requires AllFrames(h, fs)
    ensures Lex(h, Concat(fs) + s) == Lexed(fs + Lex(h, s).msgs, Lex(h, s).rest)
    ensures Diverges(h, Concat(fs) + s) <==> Diverges(h, s)
  {
    hide ReadMsgSize, IsFrame;
    if fs == [] {
      assert Concat(fs) + s == s && fs + Lex(h, s).msgs == Lex(h, s).msgs;
    } else {
      LexFrames(h, fs[1..], s);
      assert Concat(fs) + s == fs[0] + (Concat(fs[1..]) + s);
      LexFrame(h, fs[0], Concat(fs[1..]) + s);
      assert fs + Lex(h, s).msgs == [fs[0]] + (fs[1..] + Lex(h, s).msgs);
    }
  }

  /** A message that has not arrived whole stays in the lexer. */
  lemma LexPartial(h: Header, p: Bytes, f: Bytes)
    requires IsFrame(h, f) && p < f
    ensures Lex(h, p) == Lexed([], p) && !Diverges(h, p)
  {
    hide ReadMsgSize;
    if ReadMsgSize(h, p).Some? {
      assert f == p + f[|p|..];
      SizeStable(h, p, f[|p|..]);
    }
  }

  // ---------- Termination of the recursion ----------

  datatype LexState = LexState(incomplete: Bytes, msgs: seq<Bytes>)

  /** One activation of `handle_new_condition`: the state it hands to its recursive call, or None when it returns. */
  function Activate(h: Header, s: LexState): Option<LexState> {
    match ReadMsgSize(h, s.incomplete)
    case None => None
    case Some(n) =>
      if |s.incomplete| > n then Some(LexState(s.incomplete[n..], s.msgs + [s.incomplete[..n]])) else None
  }

  /** The state handed to the k-th nested call, or None when an earlier one returned. */
  function NestedCall(h: Header, s: LexState, k: nat): Option<LexState>
    decreases k
  {
    if k == 0 then Some(s)
    else
      match Activate(h, s)
      case None => None
      case Some(s') => NestedCall(h, s', k - 1)
  }

  lemma {:induction false} ReturnsAfter(h: Header, s: LexState, k: nat)
    requires !Diverges(h, s.incomplete) && |s.incomplete| < k
    ensures NestedCall(h, s, k) == None
    decreases |s.incomplete|
  {
    hide ReadMsgSize;
    if Activate(h, s).Some? {
      ReturnsAfter(h, Activate(h, s).value, k - 1);
    }
  }

  lemma {:induction false} NeverReturns(h: Header, s: LexState, k: nat)
    requires Diverges(h, s.incomplete)
    ensures NestedCall(h, s, k).Some? && Diverges(h, NestedCall(h, s, k).value.incomplete)
    decreases k
  {
    hide ReadMsgSize;
    if k > 0 {
      var n := ReadMsgSize(h, s.incomplete).value;
      assert n < |s.incomplete| by {
        HeaderFits(h, s.incomplete);
        if n == |s.incomplete| {
          assert s.incomplete[n..] == [];
          HeaderFits(h, []);
        }
      }
      if n == 0 {
        assert s.incomplete[0..] == s.incomplete;
      }
      NeverReturns(h, Activate(h, s).value, k - 1);
    }
  }

  lemma HeaderFits(h: Header, b: Bytes)
    ensures ReadMsgSize(h, b).Some? ==> |b| >= 2
  {
  }

  /** The recursion ends if and only if no message's header plus length wraps to 0. */
  lemma RecursionEndsExactlyWhen(h: Header, s: LexState)
    ensures (exists k: nat :: NestedCall(h, s, k) == None) <==> !Diverges(h, s.incomplete)
  {
    hide NestedCall;
    if Diverges(h, s.incomplete) {
      forall k: nat ensures NestedCall(h, s, k) != None {
        NeverReturns(h, s, k);
      }
    } else {
      ReturnsAfter(h, s, |s.incomplete| + 1);
    }
  }

  /** The length field 0xFFFFFFFC is the one that wraps to 0, and only for connected nodes. */
  lemma WrapsToZeroExactlyWhen(h: Header, b: Bytes)
    ensures ReadMsgSize(h, b) == Some(0) <==> h.Connected? && |b| >= 4 && FromBe32(b[..4]) == 0xFFFF_FFFC
  {
    hide FromBe32, FromBe16;
    if h.Connected? && |b| >= 4 {
      var n: nat := FromBe32(b[..4]);
      assert (4 + n) % 0x1_0000_0000 == if 4 + n < 0x1_0000_0000 then 4 + n else 4 + n - 0x1_0000_0000;
    }
  }
}
