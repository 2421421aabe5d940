/**
 * What the dispatcher makes of an arbitrary message. The chain of handlers matches the bytes over and
 * over; it is proved equal to decoding the control tuple once and looking at it.
 */
module Dispatching {
  import opened ByteCodec
  import opened Parsing
  import opened Terms
  import opened TermCodec
  import opened Matching
  import opened ControlMessages
  import WireFormat

  // ---------- The reference: decode once, then look ----------

  predicate IsCode(t: Term, code: int) {
    t.Scalar? && t.leaf.Int? && t.leaf.v == code
  }

  predicate IsPid(t: Term) {
    t.Scalar? && t.leaf.PidLeaf?
  }

  predicate IsAtom(t: Term) {
    t.Scalar? && t.leaf.Atom?
  }

  /** The version byte in front of a payload: missing, wrong, or right. */
  function AfterVersion(b: Bytes, op: Bytes -> Op): Outcome {
    if b == [] then PastEnd
    else if b[0] != 131 then Rejected(ErroneousVersion)
    else Handled(op(b[1..]))
  }

  /** The operation a control tuple stands for, with the bytes that follow it. */
  function Understood(es: seq<Term>, rest: Bytes): Outcome {
    if |es| == 3 && IsCode(es[0], 2) && IsAtom(es[1]) && IsPid(es[2]) then
      AfterVersion(rest, payload => Send(es[2].leaf.pid, payload))
    else if |es| == 4 && IsCode(es[0], 6) && IsPid(es[1]) && IsAtom(es[2]) && IsAtom(es[3]) then
      AfterVersion(rest, payload => RegSend(es[1].leaf.pid, es[3].leaf.name, payload))
    else if |es| == 3 && IsCode(es[0], 1) && IsPid(es[1]) && IsPid(es[2]) then
      Handled(Link(es[1].leaf.pid, es[2].leaf.pid))
    else if |es| == 3 && IsCode(es[0], 4) && IsPid(es[1]) && IsPid(es[2]) then
      Handled(Unlink(es[1].leaf.pid, es[2].leaf.pid))
    else if |es| == 4 && IsCode(es[0], 3) && IsPid(es[1]) && IsPid(es[2]) && IsAtom(es[3]) then
      Handled(Exit(es[1].leaf.pid, es[2].leaf.pid, es[3].leaf.name))
    else if |es| == 4 && IsCode(es[0], 8) && IsPid(es[1]) && IsPid(es[2]) && IsAtom(es[3]) then
      Handled(Exit2(es[1].leaf.pid, es[2].leaf.pid, es[3].leaf.name))
    else Rejected(UnsupportedOperation)
  }

  // ---------- One handler ----------

  /** One pattern of a handler accepts one element. */
  predicate FitsOne(p: Pattern, t: Term) {
    match p
    case Val(l) => t == Scalar(l)
    case Bind(k) => IsLeafOf(k, t)
    case Wild(k) => IsLeafOf(k, t)
    case _ => false
  }

  predicate FitsEach(ps: seq<Pattern>, ts: seq<Term>) {
    |ps| == |ts| && forall i | 0 <= i < |ps| :: FitsOne(ps[i], ts[i])
  }

  /** No value patterns: exactly one binding for each pattern. */
  predicate Variables(ps: seq<Pattern>) {
    forall i | 0 <= i < |ps| :: ps[i].Bind? || ps[i].Wild?
  }

  /** The variables hold the elements; a wildcard holds some bytes. */
  predicate Holds(ps: seq<Pattern>, xs: seq<Binding>, ts: seq<Term>) {
    && |xs| == |ps| == |ts|
    && forall i | 0 <= i < |ps| :: if ps[i].Bind? then ts[i].Scalar? && xs[i] == Bound(ts[i].leaf) else xs[i].Saved?
  }

  lemma {:induction false} VariablesMatch(ps: seq<Pattern>, b: Bytes)
    requires Variables(ps)
    ensures var m := MatchAll(false, ps, b); var d := DecodeAll(false, |ps|, b);
            if d.Ok? && FitsEach(ps, d.value) then m.Ok? && m.rest == d.rest && Holds(ps, m.value, d.value)
            else m.Fail?
    decreases |ps|
  {
    hide Match, Decode, IsLeafOf, Fits;
    if ps != [] {
      assert ps[0].Bind? || ps[0].Wild?;
      OneVariable(ps[0], b);
      var h := Decode(false, b);
      if h.Ok? {
        VariablesMatch(ps[1..], h.rest);
        var d := DecodeAll(false, |ps| - 1, h.rest);
        if d.Ok? {
          FitsCons(ps, h.value, d.value);
          if FitsOne(ps[0], h.value) && FitsEach(ps[1..], d.value) {
            HoldsCons(ps, Match(false, ps[0], b).value, h.value, MatchAll(false, ps[1..], h.rest).value, d.value);
          }
        }
      }
    }
  }

  lemma FitsCons(ps: seq<Pattern>, t: Term, ts: seq<Term>)
    requires ps != []
    ensures FitsEach(ps, [t] + ts) <==> FitsOne(ps[0], t) && FitsEach(ps[1..], ts)
  {
    hide FitsOne;
    var all := [t] + ts;
    if FitsEach(ps, all) {
      assert FitsOne(ps[0], all[0]);
      forall i | 0 <= i < |ps| - 1 ensures FitsOne(ps[1..][i], ts[i]) {
        assert FitsOne(ps[i + 1], all[i + 1]);
      }
    }
  }

  lemma HoldsCons(ps: seq<Pattern>, x: seq<Binding>, t: Term, xs: seq<Binding>, ts: seq<Term>)
    requires ps != [] && |x| == 1 && Holds(ps[1..], xs, ts)
    requires if ps[0].Bind? then t.Scalar? && x[0] == Bound(t.leaf) else x[0].Saved?
    ensures Holds(ps, x + xs, [t] + ts)
  {
    forall i | 0 < i < |ps| ensures ps[i] == ps[1..][i - 1] && (x + xs)[i] == xs[i - 1] && ([t] + ts)[i] == ts[i - 1] {
    }
  }

  lemma OneVariable(p: Pattern, b: Bytes)
    requires p.Bind? || p.Wild?
    ensures var m := Match(false, p, b); var d := Decode(false, b);
            if d.Ok? && FitsOne(p, d.value) then
              && m.Ok? && m.rest == d.rest && |m.value| == 1
              && if p.Bind? then d.value.Scalar? && m.value[0] == Bound(d.value.leaf) else m.value[0].Saved?
            else m.Fail?
  {
    hide ParseLeaf, Decode;
    LeafIsDecode(p.kind, b);
  }

  lemma CodeMatches(code: int32, b: Bytes)
    ensures var m := Match(false, Val(Int(code)), b); var d := Decode(false, b);
            if d.Ok? && IsCode(d.value, code) then m == Ok([], d.rest) else m.Fail?
  {
    hide ParseLeaf, Decode;
    LeafIsDecode(KInt, b);
  }

  /** A handler's pattern matches exactly when the bytes decode to a tuple of its code and of arguments it accepts. */
  lemma HandlerMatches(h: Handler, b: Bytes)
    ensures var m := Match(false, PatternOf(h), b); var d := Decode(false, b);
            if d.Ok? && d.value.Tuple? && d.value.elems != [] && IsCode(d.value.elems[0], CodeOf(h))
               && FitsEach(ArgPatterns(h), d.value.elems[1..])
            then m.Ok? && m.rest == d.rest && Holds(ArgPatterns(h), m.value, d.value.elems[1..])
            else m.Fail?
  {
    hide Match, Decode, ArgPatterns, CodeOf, MatchAll, DecodeAll, FitsEach, Holds;
    if |b| >= 2 && b[0] == SMALL_TUPLE {
      var n, rest := b[1], b[2..];
      var ps := [Val(Int(CodeOf(h)))] + ArgPatterns(h);
      assert b == [SMALL_TUPLE, n] + rest;
      DecodeTuple(false, n, rest);
      TuplePattern(false, ps, n, rest);
      TupleOfCode(h, n, rest);
    } else {
      NotATuple(h, b);
    }
  }

  lemma NotATuple(h: Handler, b: Bytes)
    requires |b| < 2 || b[0] != SMALL_TUPLE
    ensures Match(false, PatternOf(h), b).Fail?
    ensures Decode(false, b).Ok? ==> !Decode(false, b).value.Tuple?
  {
    hide Match, ArgPatterns, CodeOf, Decode;
    if Match(false, PatternOf(h), b).Ok? {
      TupleHead(false, [Val(Int(CodeOf(h)))] + ArgPatterns(h), b);
    }
    DecodedTupleHead(b);
  }

  lemma DecodedTupleHead(b: Bytes)
    ensures Decode(false, b).Ok? && Decode(false, b).value.Tuple? ==> |b| >= 2 && b[0] == SMALL_TUPLE
  {
    hide DecodeAll, ParseLeaf, KindOfTag, Parse32;
  }

  lemma TupleOfCode(h: Handler, n: byte, b: Bytes)
    ensures var args := ArgPatterns(h); var m := MatchAll(false, [Val(Int(CodeOf(h)))] + args, b);
            var d := DecodeAll(false, n, b);
            if d.Ok? && d.value != [] && IsCode(d.value[0], CodeOf(h)) && FitsEach(args, d.value[1..])
            then n == 1 + |args| && m.Ok? && m.rest == d.rest && Holds(args, m.value, d.value[1..])
            else n != 1 + |args| || m.Fail?
  {
    hide Match, Decode, ArgPatterns, CodeOf, Holds, FitsOne;
    var args := ArgPatterns(h);
    var ps := [Val(Int(CodeOf(h)))] + args;
    assert ps[1..] == args;
    if n == 1 + |args| {
      CodeMatches(CodeOf(h), b);
      var t := Decode(false, b);
      if t.Ok? && IsCode(t.value, CodeOf(h)) {
        assert Variables(args) by { ArgsAreVariables(h); }
        VariablesMatch(args, t.rest);
        var d := DecodeAll(false, |args|, t.rest);
        if d.Ok? {
          assert ([t.value] + d.value)[1..] == d.value;
          if MatchAll(false, args, t.rest).Ok? {
            assert [] + MatchAll(false, args, t.rest).value == MatchAll(false, args, t.rest).value;
          }
        }
      }
    }
  }

  lemma ArgsAreVariables(h: Handler)
    ensures Variables(ArgPatterns(h))
  {
  }

  // ---------- The chain ----------

  predicate Fitting(h: Handler, es: seq<Term>) {
    es != [] && IsCode(es[0], CodeOf(h)) && FitsEach(ArgPatterns(h), es[1..])
  }

  /** The same in numerals. */
  lemma FittingIs(h: Handler, es: seq<Term>)
    ensures Fitting(h, es) <==>
            match h
            case SendHandler => |es| == 3 && IsCode(es[0], 2) && IsAtom(es[1]) && IsPid(es[2])
            case RegSendHandler => |es| == 4 && IsCode(es[0], 6) && IsPid(es[1]) && IsAtom(es[2]) && IsAtom(es[3])
            case LinkHandler => |es| == 3 && IsCode(es[0], 1) && IsPid(es[1]) && IsPid(es[2])
            case UnlinkHandler => |es| == 3 && IsCode(es[0], 4) && IsPid(es[1]) && IsPid(es[2])
            case ExitHandler => |es| == 4 && IsCode(es[0], 3) && IsPid(es[1]) && IsPid(es[2]) && IsAtom(es[3])
            case Exit2Handler => |es| == 4 && IsCode(es[0], 8) && IsPid(es[1]) && IsPid(es[2]) && IsAtom(es[3])
  {
    hide IsCode;
    if es != [] {
      var ps := ArgPatterns(h);
      FitsAsSeen(ps, es);
      forall t ensures (IsLeafOf(KPid, t) <==> IsPid(t)) && (IsLeafOf(KAtom, t) <==> IsAtom(t)) {
      }
    }
  }

  /** Two or three arguments, one by one. */
  lemma FitsAsSeen(ps: seq<Pattern>, es: seq<Term>)
    requires 2 <= |ps| <= 3 && es != []
    ensures FitsEach(ps, es[1..]) <==>
            && |es| == 1 + |ps| && FitsOne(ps[0], es[1]) && FitsOne(ps[1], es[2])
            && (|ps| == 3 ==> FitsOne(ps[2], es[3]))
  {
    hide FitsOne;
    var ts := es[1..];
    if |es| == 1 + |ps| {
      assert ts[0] == es[1] && ts[1] == es[2] && (|ps| == 3 ==> ts[2] == es[3]);
    }
  }

  /** What a handler does is what the tuple stands for. */
  lemma ActIsUnderstood(h: Handler, xs: seq<Binding>, es: seq<Term>, rest: Bytes)
    requires Fitting(h, es) && Holds(ArgPatterns(h), xs, es[1..])
    ensures Act(false, h, xs, rest) == Understood(es, rest)
  {
    hide Fitting, FitsEach;
    FittingIs(h, es);
    var ps, ts := ArgPatterns(h), es[1..];
    assert ts[0] == es[1] && ts[1] == es[2] && (|ps| == 3 ==> ts[2] == es[3]);
    assert ps[0].Bind? ==> xs[0] == Bound(es[1].leaf);
    assert ps[1].Bind? ==> xs[1] == Bound(es[2].leaf);
    assert |ps| == 3 && ps[2].Bind? ==> xs[2] == Bound(es[3].leaf);
  }

  lemma {:induction false} ChainIsUnderstood(hs: seq<Handler>, b: Bytes)
    ensures var d := Decode(false, b);
            DispatchChain(false, hs, b) ==
            if d.Ok? && d.value.Tuple? && exists h | h in hs :: Fitting(h, d.value.elems)
            then Understood(d.value.elems, d.rest) else Rejected(UnsupportedOperation)
    decreases |hs|
  {
    hide Match, Decode, PatternOf, Act, Understood, FitsEach, IsCode, Holds, ArgPatterns, CodeOf;
    if hs != [] {
      HandlerMatches(hs[0], b);
      ChainIsUnderstood(hs[1..], b);
      var d := Decode(false, b);
      if d.Ok? && d.value.Tuple? {
        var es := d.value.elems;
        if Fitting(hs[0], es) {
          ActIsUnderstood(hs[0], Match(false, PatternOf(hs[0]), b).value, es, d.rest);
        } else {
          assert (exists h | h in hs :: Fitting(h, es)) <==> (exists h | h in hs[1..] :: Fitting(h, es)) by {
            SkipsFirst(hs, es);
          }
        }
      }
    }
  }

  lemma SkipsFirst(hs: seq<Handler>, es: seq<Term>)
    requires hs != [] && !Fitting(hs[0], es)
    ensures (exists h | h in hs :: Fitting(h, es)) <==> (exists h | h in hs[1..] :: Fitting(h, es))
  {
    hide Fitting;
    assert hs == [hs[0]] + hs[1..];
  }

  lemma NobodyFits(es: seq<Term>, rest: Bytes)
    requires forall h | h in CHAIN :: !Fitting(h, es)
    ensures Understood(es, rest) == Rejected(UnsupportedOperation)
  {
    hide Fitting;
    forall h: Handler ensures h in CHAIN {
      AllInChain(h);
    }
    FittingIs(SendHandler, es);
    FittingIs(RegSendHandler, es);
    FittingIs(LinkHandler, es);
    FittingIs(UnlinkHandler, es);
    FittingIs(ExitHandler, es);
    FittingIs(Exit2Handler, es);
  }

  lemma AllInChain(h: Handler)
    ensures h in CHAIN
  {
    assert CHAIN[0] == SendHandler && CHAIN[1] == RegSendHandler && CHAIN[2] == LinkHandler;
    assert CHAIN[3] == UnlinkHandler && CHAIN[4] == ExitHandler && CHAIN[5] == Exit2Handler;
  }

  /**
   * On every message, with bytes compared unsigned: four bytes of size, 112, 131, and then what the
   * decoded control tuple stands for. Anything else is rejected, or read past its end.
   */
  lemma DispatchIsDecodeThenLook(msg: Bytes)
    ensures Dispatch(false, msg) ==
            if |msg| < 5 || msg[4] != 112 then Rejected(InvalidHeader)
            else if |msg| == 5 then PastEnd
            else if msg[5] != 131 then Rejected(ErroneousVersion)
            else var d := Decode(false, msg[6..]);
                 if d.Ok? && d.value.Tuple? then Understood(d.value.elems, d.rest) else Rejected(UnsupportedOperation)
  {
    hide ParseHeader, DispatchChain, Decode, Understood, Fitting;
    WireFormat.HeaderExactly(false, msg);
    if |msg| >= 6 {
      ChainIsUnderstood(CHAIN, msg[6..]);
      var d := Decode(false, msg[6..]);
      if d.Ok? && d.value.Tuple? && forall h | h in CHAIN :: !Fitting(h, d.value.elems) {
        NobodyFits(d.value.elems, d.rest);
      }
    }
  }
}
