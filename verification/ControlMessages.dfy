/** Distributed operations: six builders, and the chain of handlers that must undo them. */
module ControlMessages {
  import opened ByteCodec
  import opened Parsing
  import opened Terms
  import opened LeafCodec
  import opened Lexer
  import opened Matching
  import Endpoint

  const PASS_THROUGH: byte := 112
  const MAGIC_VERSION: byte := 131

  const CTRL_LINK: int32 := 1
  const CTRL_SEND: int32 := 2
  const CTRL_EXIT: int32 := 3
  const CTRL_UNLINK: int32 := 4
  const CTRL_REG_SEND: int32 := 6
  const CTRL_EXIT2: int32 := 8

  datatype Op =
    | Send(to: Pid, payload: Bytes)
    | RegSend(from: Pid, name: Bytes, payload: Bytes)
    | Link(from: Pid, to: Pid)
    | Unlink(from: Pid, to: Pid)
    | Exit(from: Pid, to: Pid, reason: Bytes)
    | Exit2(from: Pid, to: Pid, reason: Bytes)

  // ---------- Building ----------

  /** The elements of the control tuple; the cookie is always the empty atom. */
  function Elements(op: Op): seq<Leaf> {
    match op
    case Send(to, _) => [Int(CTRL_SEND), Atom([]), PidLeaf(to)]
    case RegSend(from, name, _) => [Int(CTRL_REG_SEND), PidLeaf(from), Atom([]), Atom(name)]
    case Link(from, to) => [Int(CTRL_LINK), PidLeaf(from), PidLeaf(to)]
    case Unlink(from, to) => [Int(CTRL_UNLINK), PidLeaf(from), PidLeaf(to)]
    case Exit(from, to, reason) => [Int(CTRL_EXIT), PidLeaf(from), PidLeaf(to), Atom(reason)]
    case Exit2(from, to, reason) => [Int(CTRL_EXIT2), PidLeaf(from), PidLeaf(to), Atom(reason)]
  }

  function Scalars(ls: seq<Leaf>): (ts: seq<Term>)
    ensures |ts| == |ls|
  {
    if ls == [] then [] else [Scalar(ls[0])] + Scalars(ls[1..])
  }

  /** What follows the control tuple: sends carry a payload with a version byte of its own. */
  function Trailer(op: Op): Bytes {
    match op
    case Send(_, payload) => [MAGIC_VERSION] + payload
    case RegSend(_, _, payload) => [MAGIC_VERSION] + payload
    case _ => []
  }

  function ControlTuple(op: Op): Bytes {
    Encode(Tuple(Scalars(Elements(op))))
  }

  function Body(op: Op): Bytes {
    [PASS_THROUGH, MAGIC_VERSION] + (ControlTuple(op) + Trailer(op))
  }

  /** A whole message: the size of the body in four bytes, then the body. */
  function Built(op: Op): Bytes {
    Be32(|Body(op)|) + Body(op)
  }

  method AddMessageHeader(msg: Bytes) returns (out: Bytes)
    ensures out == msg + [PASS_THROUGH, MAGIC_VERSION]
  {
    out := msg + [PASS_THROUGH];
    out := out + [MAGIC_VERSION];
  }

  /** `e_tuple::serialize`: the head, then each element in turn. */
  method SerializeTuple(msg: Bytes, ls: seq<Leaf>) returns (out: Bytes)
    ensures out == msg + Encode(Tuple(Scalars(ls)))
  {
    hide EncodeLeaf;
    out := msg + [SMALL_TUPLE, |ls| % 0x100];
    for i := 0 to |ls|
      invariant out + EncodeAll(Scalars(ls[i..])) == msg + Encode(Tuple(Scalars(ls)))
    {
      ScalarsStep(ls, i);
      out := out + EncodeLeaf(ls[i]);
    }
    assert EncodeAll(Scalars(ls[|ls|..])) == [];
  }

  lemma ScalarsStep(ls: seq<Leaf>, i: nat)
    requires i < |ls|
    ensures EncodeAll(Scalars(ls[i..])) == EncodeLeaf(ls[i]) + EncodeAll(Scalars(ls[i + 1..]))
  {
    hide EncodeLeaf;
    assert ls[i..][1..] == ls[i + 1..];
    assert Scalars(ls[i..])[1..] == Scalars(ls[i + 1..]);
  }

  /** The size goes over the four bytes reserved for it. */
  method FillInMessageSize(msg: Bytes) returns (out: Bytes)
    requires |msg| >= 4
    ensures out == Be32(|msg| - 4) + msg[4..]
  {
    out := Be32(|msg| - 4) + msg[4..];
  }

  method AppendPayload(msg: Bytes, payload: Bytes) returns (out: Bytes)
    ensures out == msg + ([MAGIC_VERSION] + payload)
  {
    out := msg + [MAGIC_VERSION];
    out := out + payload;
  }

  /** The six `build_*_msg` functions. */
  method Build(op: Op) returns (msg: Bytes)
    ensures msg == Built(op)
  {
    hide EncodeLeaf, Encode, Be32, Elements, Scalars;
    var reserved: Bytes := [0, 0, 0, 0];
    msg := AddMessageHeader(reserved);
    msg := SerializeTuple(msg, Elements(op));
    if op.Send? || op.RegSend? {
      msg := AppendPayload(msg, op.payload);
    }
    assert msg == reserved + [PASS_THROUGH, MAGIC_VERSION] + ControlTuple(op) + Trailer(op);
    Assoc3(reserved, [PASS_THROUGH, MAGIC_VERSION], ControlTuple(op), Trailer(op));
    assert msg == reserved + Body(op);
    msg := FillInMessageSize(msg);
  }

  // ---------- Dispatching ----------

  datatype Problem = InvalidHeader | ErroneousVersion | UnsupportedOperation

  /** PastEnd: the version check reads the byte after the last one. */
  datatype Outcome = Handled(op: Op) | Rejected(problem: Problem) | PastEnd

  datatype Checked = Good(rest: Bytes) | Bad(outcome: Outcome)

  /** The version is compared as a plain `char`. */
  function CheckTermVersion(signedChar: bool, b: Bytes): Checked {
    if b == [] then Bad(PastEnd)
    else if CharValue(signedChar, b[0]) != MAGIC_VERSION as int then Bad(Rejected(ErroneousVersion))
    else Good(b[1..])
  }

  datatype Handler = SendHandler | RegSendHandler | LinkHandler | UnlinkHandler | ExitHandler | Exit2Handler

  const CHAIN: seq<Handler> := [SendHandler, RegSendHandler, LinkHandler, UnlinkHandler, ExitHandler, Exit2Handler]

  function CodeOf(h: Handler): int32 {
    match h
    case SendHandler => CTRL_SEND
    case RegSendHandler => CTRL_REG_SEND
    case LinkHandler => CTRL_LINK
    case UnlinkHandler => CTRL_UNLINK
    case ExitHandler => CTRL_EXIT
    case Exit2Handler => CTRL_EXIT2
  }

  function ArgPatterns(h: Handler): seq<Pattern> {
    match h
    case SendHandler => [Wild(KAtom), Bind(KPid)]
    case RegSendHandler => [Bind(KPid), Wild(KAtom), Bind(KAtom)]
    case LinkHandler => [Bind(KPid), Bind(KPid)]
    case UnlinkHandler => [Bind(KPid), Bind(KPid)]
    case ExitHandler => [Bind(KPid), Bind(KPid), Bind(KAtom)]
    case Exit2Handler => [Bind(KPid), Bind(KPid), Bind(KAtom)]
  }

  function PatternOf(h: Handler): Pattern {
    TupleOf([Val(Int(CodeOf(h)))] + ArgPatterns(h))
  }

  const DEFAULT_PID := Pid([], 0, 0, 0)

  /** The variable a pattern fills; it keeps its default when the pattern does not reach it. */
  function PidAt(xs: seq<Binding>, i: nat): Pid {
    if i < |xs| && xs[i].Bound? && xs[i].leaf.PidLeaf? then xs[i].leaf.pid else DEFAULT_PID
  }

  function NameAt(xs: seq<Binding>, i: nat): Bytes {
    if i < |xs| && xs[i].Bound? && xs[i].leaf.Atom? then xs[i].leaf.name else []
  }

  function WithPayload(signedChar: bool, b: Bytes, f: Bytes -> Op): Outcome {
    match CheckTermVersion(signedChar, b)
    case Good(payload) => Handled(f(payload))
    case Bad(o) => o
  }

  /** What a handler does once its pattern has matched. */
  function Act(signedChar: bool, h: Handler, xs: seq<Binding>, rest: Bytes): Outcome {
    match h
    case SendHandler => WithPayload(signedChar, rest, p => Send(PidAt(xs, 1), p))
    case RegSendHandler => WithPayload(signedChar, rest, p => RegSend(PidAt(xs, 0), NameAt(xs, 2), p))
    case LinkHandler => Handled(Link(PidAt(xs, 0), PidAt(xs, 1)))
    case UnlinkHandler => Handled(Unlink(PidAt(xs, 0), PidAt(xs, 1)))
    case ExitHandler => Handled(Exit(PidAt(xs, 0), PidAt(xs, 1), NameAt(xs, 2)))
    case Exit2Handler => Handled(Exit2(PidAt(xs, 0), PidAt(xs, 1), NameAt(xs, 2)))
  }

  /** Each handler starts from the remembered position; the first one that matches acts. */
  function DispatchChain(signedChar: bool, hs: seq<Handler>, b: Bytes): Outcome {
    if hs == [] then Rejected(UnsupportedOperation)
    else
      match Match(signedChar, PatternOf(hs[0]), b)
      case Ok(xs, rest) => Act(signedChar, hs[0], xs, rest)
      case Fail => DispatchChain(signedChar, hs[1..], b)
  }

  function ParseHeader(signedChar: bool, msg: Bytes): Checked {
    match Parse32(msg)
    case Fail => Bad(Rejected(InvalidHeader))
    case Ok(_, b) =>
      match ParseTag(PASS_THROUGH, b)
      case Fail => Bad(Rejected(InvalidHeader))
      case Ok(_, b) => CheckTermVersion(signedChar, b)
  }

  function Dispatch(signedChar: bool, msg: Bytes): Outcome {
    match ParseHeader(signedChar, msg)
    case Bad(o) => o
    case Good(b) => DispatchChain(signedChar, CHAIN, b)
  }

  // ---------- The round trip ----------

  function HandlerOf(op: Op): Handler {
    match op
    case Send(_, _) => SendHandler
    case RegSend(_, _, _) => RegSendHandler
    case Link(_, _) => LinkHandler
    case Unlink(_, _) => UnlinkHandler
    case Exit(_, _, _) => ExitHandler
    case Exit2(_, _, _) => Exit2Handler
  }

  /** Every argument fits the width the format gives it; payloads may be any bytes. */
  predicate InRange(op: Op) {
    match op
    case Send(to, _) => PidFits(to)
    case RegSend(from, name, _) => PidFits(from) && |name| < 0x1_0000
    case Link(from, to) => PidFits(from) && PidFits(to)
    case Unlink(from, to) => PidFits(from) && PidFits(to)
    case Exit(from, to, reason) => PidFits(from) && PidFits(to) && |reason| < 0x1_0000
    case Exit2(from, to, reason) => PidFits(from) && PidFits(to) && |reason| < 0x1_0000
  }

  /** One pattern of a tuple against one leaf: what it binds, or None when it does not match. */
  function Bound1(p: Pattern, l: Leaf): Option<seq<Binding>> {
    match p
    case Val(v) => if v == l then Some([]) else None
    case Bind(k) => if KindOf(l) == k then Some([Bound(l)]) else None
    case Wild(k) => if KindOf(l) == k then Some([Saved(EncodeLeaf(l))]) else None
    case _ => None
  }

  predicate Simple(p: Pattern) {
    (p.Val? && !p.leaf.Str?) || p.Bind? || p.Wild?
  }

  function BoundAll(ps: seq<Pattern>, ls: seq<Leaf>): Option<seq<Binding>>
    requires |ps| == |ls|
  {
    if ps == [] then Some([])
    else
      match Bound1(ps[0], ls[0])
      case None => None
      case Some(x) =>
        match BoundAll(ps[1..], ls[1..])
        case None => None
        case Some(xs) => Some(x + xs)
  }

  lemma MatchOne(signedChar: bool, p: Pattern, l: Leaf, s: Bytes)
    requires Simple(p) && LeafFits(l) && (Bound1(p, l).Some? || (p.Val? && KindOf(p.leaf) == KindOf(l)))
    ensures Match(signedChar, p, EncodeLeaf(l) + s) ==
            match Bound1(p, l) case None => Fail case Some(xs) => Ok(xs, s)
  {
    hide ParseLeaf, EncodeLeaf, MatchStrValue;
    LeafOn(l, EncodeLeaf(l), s);
    assert Consumed(EncodeLeaf(l) + s, s) == EncodeLeaf(l);
  }

  lemma {:induction false} MatchEach(signedChar: bool, ps: seq<Pattern>, ls: seq<Leaf>, s: Bytes)
    requires |ps| == |ls| && BoundAll(ps, ls).Some?
    requires (forall p | p in ps :: Simple(p)) && (forall l | l in ls :: LeafFits(l))
    ensures MatchAll(signedChar, ps, EncodeAll(Scalars(ls)) + s) == Ok(BoundAll(ps, ls).value, s)
  {
    hide Match, EncodeLeaf, LeafFits, Bound1, Simple;
    if ps == [] {
      assert EncodeAll(Scalars(ls)) + s == s;
    } else {
      ScalarsStep(ls, 0);
      assert ls[0..] == ls;
      var s' := EncodeAll(Scalars(ls[1..])) + s;
      Assoc2(EncodeLeaf(ls[0]), EncodeAll(Scalars(ls[1..])), s);
      MatchOne(signedChar, ps[0], ls[0], s');
      MatchEach(signedChar, ps[1..], ls[1..], s);
    }
  }

  lemma MatchTuple(signedChar: bool, ps: seq<Pattern>, ls: seq<Leaf>, s: Bytes)
    requires |ls| < 0x100
    ensures Match(signedChar, TupleOf(ps), Encode(Tuple(Scalars(ls))) + s) ==
            if |ls| == |ps| then MatchAll(signedChar, ps, EncodeAll(Scalars(ls)) + s) else Fail
  {
    hide EncodeAll, MatchAll, Scalars, ParseTag, ParseByte;
    var all := EncodeAll(Scalars(ls));
    assert Encode(Tuple(Scalars(ls))) + s == [SMALL_TUPLE] + ([|ls| as byte] + (all + s));
    TagOn(SMALL_TUPLE, [|ls| as byte] + (all + s));
    ByteOn(|ls|, all + s);
  }

  lemma CodesDiffer(h: Handler, op: Op)
    ensures |Elements(op)| < 0x100 && Elements(op)[0] == Int(CodeOf(HandlerOf(op)))
    ensures CodeOf(h) == CodeOf(HandlerOf(op)) ==> h == HandlerOf(op)
  {
  }

  /** Every other handler fails on the control tuple of an operation. */
  lemma OtherHandlersFail(signedChar: bool, h: Handler, op: Op, s: Bytes)
    requires h != HandlerOf(op)
    ensures Match(signedChar, PatternOf(h), ControlTuple(op) + s).Fail?
  {
    hide EncodeLeaf, Elements, ArgPatterns, CodeOf, Match, Encode;
    CodesDiffer(h, op);
    var ps := [Val(Int(CodeOf(h)))] + ArgPatterns(h);
    var ls := Elements(op);
    MatchTuple(signedChar, ps, ls, s);
    if |ps| == |ls| {
      ScalarsStep(ls, 0);
      assert ls[0..] == ls;
      Assoc2(EncodeLeaf(ls[0]), EncodeAll(Scalars(ls[1..])), s);
      MatchOne(signedChar, ps[0], ls[0], EncodeAll(Scalars(ls[1..])) + s);
    }
  }

  /** What the matching handler's variables hold. */
  function Bindings(op: Op): seq<Binding> {
    match op
    case Send(to, _) => [Saved(EncodeLeaf(Atom([]))), Bound(PidLeaf(to))]
    case RegSend(from, name, _) => [Bound(PidLeaf(from)), Saved(EncodeLeaf(Atom([]))), Bound(Atom(name))]
    case Link(from, to) => [Bound(PidLeaf(from)), Bound(PidLeaf(to))]
    case Unlink(from, to) => [Bound(PidLeaf(from)), Bound(PidLeaf(to))]
    case Exit(from, to, reason) => [Bound(PidLeaf(from)), Bound(PidLeaf(to)), Bound(Atom(reason))]
    case Exit2(from, to, reason) => [Bound(PidLeaf(from)), Bound(PidLeaf(to)), Bound(Atom(reason))]
  }

  lemma BoundCons(p: Pattern, ps: seq<Pattern>, l: Leaf, ls: seq<Leaf>)
    requires |ps| == |ls| && Bound1(p, l).Some? && BoundAll(ps, ls).Some?
    ensures BoundAll([p] + ps, [l] + ls) == Some(Bound1(p, l).value + BoundAll(ps, ls).value)
  {
    assert ([p] + ps)[1..] == ps && ([l] + ls)[1..] == ls;
  }

  lemma BoundTwo(p: Pattern, q: Pattern, k: Leaf, l: Leaf)
    requires Bound1(p, k).Some? && Bound1(q, l).Some?
    ensures BoundAll([p, q], [k, l]) == Some(Bound1(p, k).value + Bound1(q, l).value)
  {
    hide Bound1;
    BoundCons(q, [], l, []);
    assert [q] + [] == [q] && [l] + [] == [l] && Bound1(q, l).value + [] == Bound1(q, l).value;
    BoundCons(p, [q], k, [l]);
    assert [p] + [q] == [p, q] && [k] + [l] == [k, l];
  }

  lemma BoundThree(p: Pattern, q: Pattern, r: Pattern, k: Leaf, l: Leaf, m: Leaf)
    requires Bound1(p, k).Some? && Bound1(q, l).Some? && Bound1(r, m).Some?
    ensures BoundAll([p, q, r], [k, l, m]) == Some(Bound1(p, k).value + (Bound1(q, l).value + Bound1(r, m).value))
  {
    hide Bound1;
    BoundTwo(q, r, l, m);
    BoundCons(p, [q, r], k, [l, m]);
    assert [p] + [q, r] == [p, q, r] && [k] + [l, m] == [k, l, m];
  }

  lemma BindingsOf(op: Op)
    ensures |Elements(op)| == 1 + |ArgPatterns(HandlerOf(op))|
    ensures BoundAll(ArgPatterns(HandlerOf(op)), Elements(op)[1..]) == Some(Bindings(op))
  {
    hide EncodeLeaf, BoundAll;
    match op
    case Send(to, _) =>
      assert Elements(op)[1..] == [Atom([]), PidLeaf(to)];
      BoundTwo(Wild(KAtom), Bind(KPid), Atom([]), PidLeaf(to));
      assert [Saved(EncodeLeaf(Atom([])))] + [Bound(PidLeaf(to))] == Bindings(op);
    case RegSend(from, name, _) =>
      assert Elements(op)[1..] == [PidLeaf(from), Atom([]), Atom(name)];
      BoundThree(Bind(KPid), Wild(KAtom), Bind(KAtom), PidLeaf(from), Atom([]), Atom(name));
      assert [Bound(PidLeaf(from))] + ([Saved(EncodeLeaf(Atom([])))] + [Bound(Atom(name))]) == Bindings(op);
    case Link(from, to) => TwoPids(op, from, to);
    case Unlink(from, to) => TwoPids(op, from, to);
    case Exit(from, to, reason) => TwoPidsAndReason(op, from, to, reason);
    case Exit2(from, to, reason) => TwoPidsAndReason(op, from, to, reason);
  }

  lemma TwoPids(op: Op, from: Pid, to: Pid)
    requires op == Link(from, to) || op == Unlink(from, to)
    ensures BoundAll([Bind(KPid), Bind(KPid)], Elements(op)[1..]) == Some(Bindings(op))
  {
    hide BoundAll;
    assert Elements(op)[1..] == [PidLeaf(from), PidLeaf(to)];
    BoundTwo(Bind(KPid), Bind(KPid), PidLeaf(from), PidLeaf(to));
    assert [Bound(PidLeaf(from))] + [Bound(PidLeaf(to))] == Bindings(op);
  }

  lemma TwoPidsAndReason(op: Op, from: Pid, to: Pid, reason: Bytes)
    requires op == Exit(from, to, reason) || op == Exit2(from, to, reason)
    ensures BoundAll([Bind(KPid), Bind(KPid), Bind(KAtom)], Elements(op)[1..]) == Some(Bindings(op))
  {
    hide BoundAll;
    assert Elements(op)[1..] == [PidLeaf(from), PidLeaf(to), Atom(reason)];
    BoundThree(Bind(KPid), Bind(KPid), Bind(KAtom), PidLeaf(from), PidLeaf(to), Atom(reason));
    assert [Bound(PidLeaf(from))] + ([Bound(PidLeaf(to))] + [Bound(Atom(reason))]) == Bindings(op);
  }

  lemma PatternsAreSimple(h: Handler)
    ensures forall p | p in [Val(Int(CodeOf(h)))] + ArgPatterns(h) :: Simple(p)
  {
  }

  lemma ElementsFit(op: Op)
    requires InRange(op)
    ensures forall l | l in Elements(op) :: LeafFits(l)
  {
    hide PidFits;
  }

  lemma RightHandlerMatches(signedChar: bool, op: Op, s: Bytes)
    requires InRange(op)
    ensures Match(signedChar, PatternOf(HandlerOf(op)), ControlTuple(op) + s) == Ok(Bindings(op), s)
  {
    hide EncodeLeaf, Elements, ArgPatterns, CodeOf, Match, Encode, BoundAll, MatchAll, InRange, Bindings, Simple;
    var h := HandlerOf(op);
    var ls, args := Elements(op), ArgPatterns(h);
    var ps := [Val(Int(CodeOf(h)))] + args;
    CodesDiffer(h, op);
    BindingsOf(op);
    assert ls == [ls[0]] + ls[1..];
    BoundCons(ps[0], args, ls[0], ls[1..]);
    assert [] + Bindings(op) == Bindings(op);
    PatternsAreSimple(h);
    ElementsFit(op);
    MatchTuple(signedChar, ps, ls, s);
    MatchEach(signedChar, ps, ls, s);
  }

  lemma ActRecovers(op: Op)
    ensures Act(false, HandlerOf(op), Bindings(op), Trailer(op)) == Handled(op)
  {
    hide EncodeLeaf;
    if op.Send? || op.RegSend? {
      assert Trailer(op)[1..] == op.payload;
    }
  }

  /** Wherever its handler stands in a chain, an operation is handled once, by that handler, with its own arguments. */
  lemma {:induction false} AnyChainHandles(hs: seq<Handler>, op: Op)
    requires InRange(op) && HandlerOf(op) in hs
    ensures DispatchChain(false, hs, ControlTuple(op) + Trailer(op)) == Handled(op)
  {
    hide Match, PatternOf, ControlTuple, Trailer, HandlerOf, Act, InRange, Bindings;
    if hs[0] == HandlerOf(op) {
      RightHandlerMatches(false, op, Trailer(op));
      ActRecovers(op);
    } else {
      OtherHandlersFail(false, hs[0], op, Trailer(op));
      AnyChainHandles(hs[1..], op);
    }
  }

  lemma HeaderOfBuilt(signedChar: bool, op: Op)
    ensures ParseHeader(signedChar, Built(op)) ==
            if signedChar then Bad(Rejected(ErroneousVersion)) else Good(ControlTuple(op) + Trailer(op))
  {
    hide Be32, Parse32, ParseTag, ControlTuple, Trailer;
    var r := ControlTuple(op) + Trailer(op);
    Word32On(|Body(op)|, Body(op));
    assert Body(op) == [PASS_THROUGH] + ([MAGIC_VERSION] + r);
    TagOn(PASS_THROUGH, [MAGIC_VERSION] + r);
    assert ([MAGIC_VERSION] + r)[1..] == r;
  }

  /** Whatever is handled, its arguments came out of the grammars, so they fit. */
  lemma HandledFits(signedChar: bool, h: Handler, b: Bytes)
    requires Match(signedChar, PatternOf(h), b).Ok?
    ensures var m := Match(signedChar, PatternOf(h), b); var o := Act(signedChar, h, m.value, m.rest);
            o.Handled? ==> InRange(o.op)
  {
    hide Match, BindingFits, PidFits, PidAt, NameAt;
    var xs := Match(signedChar, PatternOf(h), b).value;
    PatternsAreSimple(h);
    BindingsFit(signedChar, [Val(Int(CodeOf(h)))] + ArgPatterns(h), b);
    VariableFits(xs, 0);
    VariableFits(xs, 1);
    VariableFits(xs, 2);
  }

  lemma VariableFits(xs: seq<Binding>, i: nat)
    requires forall x | x in xs :: BindingFits(x)
    ensures PidFits(PidAt(xs, i)) && |NameAt(xs, i)| < 0x1_0000
  {
    if i < |xs| {
      assert BindingFits(xs[i]);
    }
  }

  predicate BindingFits(x: Binding) {
    x.Bound? ==> LeafFits(x.leaf)
  }

  lemma BindingsFit(signedChar: bool, ps: seq<Pattern>, b: Bytes)
    requires Match(signedChar, TupleOf(ps), b).Ok? && forall p | p in ps :: Simple(p)
    ensures forall x | x in Match(signedChar, TupleOf(ps), b).value :: BindingFits(x)
  {
    hide MatchAll, BindingFits;
    EachBindingFits(signedChar, ps, b[2..]);
    assert b[1..][1..] == b[2..];
  }

  lemma {:induction false} EachBindingFits(signedChar: bool, ps: seq<Pattern>, b: Bytes)
    requires forall p | p in ps :: Simple(p)
    ensures MatchAll(signedChar, ps, b).Ok? ==> forall x | x in MatchAll(signedChar, ps, b).value :: BindingFits(x)
    decreases ps
  {
    hide Match, BindingFits, Simple;
    if ps != [] {
      var r := Match(signedChar, ps[0], b);
      if r.Ok? {
        OneBindingFits(signedChar, ps[0], b);
        EachBindingFits(signedChar, ps[1..], r.rest);
      }
    }
  }

  lemma OneBindingFits(signedChar: bool, p: Pattern, b: Bytes)
    requires Simple(p) && Match(signedChar, p, b).Ok?
    ensures forall x | x in Match(signedChar, p, b).value :: BindingFits(x)
  {
    hide LeafFits, ParseLeaf, MatchStrValue;
  }

  lemma {:induction false} ChainHandlesFitting(signedChar: bool, hs: seq<Handler>, b: Bytes)
    ensures var o := DispatchChain(signedChar, hs, b); o.Handled? ==> InRange(o.op)
  {
    hide Match, PatternOf, Act, InRange;
    if hs != [] {
      if Match(signedChar, PatternOf(hs[0]), b).Ok? {
        HandledFits(signedChar, hs[0], b);
      } else {
        ChainHandlesFitting(signedChar, hs[1..], b);
      }
    }
  }

  /** Dispatching undoes building exactly when bytes are compared unsigned and every argument fits. */
  lemma DispatchUndoesBuild(signedChar: bool, op: Op)
    ensures Dispatch(signedChar, Built(op)) == Handled(op) <==> !signedChar && InRange(op)
    ensures signedChar ==> Dispatch(signedChar, Built(op)) == Rejected(ErroneousVersion)
  {
    hide ParseHeader, Built, DispatchChain, InRange, ControlTuple, Trailer;
    HeaderOfBuilt(signedChar, op);
    if !signedChar {
      var b := ControlTuple(op) + Trailer(op);
      ChainHandlesFitting(false, CHAIN, b);
      if InRange(op) {
        AnyChainHandles(CHAIN, op);
      }
    }
  }

  lemma BuiltIsInjective(op: Op, op': Op)
    requires InRange(op) && InRange(op') && Built(op) == Built(op')
    ensures op == op'
  {
    hide Dispatch, Built, InRange;
    DispatchUndoesBuild(false, op);
    DispatchUndoesBuild(false, op');
  }

  // ---------- Built messages on the wire ----------

  /** A built message frames itself exactly when its size, header included, fits 32 bits; it is never the tick. */
  lemma BuiltIsFrame(op: Op)
    ensures IsFrame(Connected, Built(op)) <==> |Built(op)| < 0x1_0000_0000
    ensures Built(op) != Endpoint.TICK
  {
    hide Be32, FromBe32, Body;
    var n := |Body(op)|;
    assert n >= 2 by { BodyNonEmpty(op); }
    assert Built(op)[..4] == Be32(n);
    Be32RoundTrip(n);
    if n + 4 < 0x1_0000_0000 {
      assert (4 + n) % 0x1_0000_0000 == 4 + n;
    }
  }

  lemma BodyNonEmpty(op: Op)
    ensures |Body(op)| >= 2
  {
  }
}
