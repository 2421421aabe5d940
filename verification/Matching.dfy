/**
 * Pattern matching. `match` parses and compares in one pass over the bytes; it is proved equal to
 * decoding first and comparing the decoded term with the pattern afterwards.
 */
module Matching {
  import opened ByteCodec
  import opened Parsing
  import opened Terms
  import opened LeafCodec
  import opened TermCodec

  datatype Pattern =
    | Val(leaf: Leaf)                // int_(3), atom("ok"), pid(p), ...
    | Bind(kind: Kind)               // int_(&x), atom(&s), pid(&p), ...
    | Wild(kind: Kind)               // int_(any()), atom(any()), ...
    | Any                            // any()
    | TupleOf(elems: seq<Pattern>)   // make_e_tuple(...)
    | ListOf(elems: seq<Pattern>)    // make_list of patterns
    | ListBind(kind: Kind)           // make_list(&xs)
    | IntListBind                    // make_list(&ints): also reads the packed string form

  /** What a successful match hands back, in the order of the pattern. */
  datatype Binding = Bound(leaf: Leaf) | BoundList(leaves: seq<Leaf>) | Saved(raw: Bytes)

  /** The value an integer made from a `char` has, for either signedness of `char`. */
  function CharValue(signedChar: bool, c: byte): int {
    if signedChar && c >= 0x80 then c - 0x100 else c
  }

  // ---------- match, as coded ----------

  /**
   * The value pattern for a string looks for an element that does match and fails when it finds
   * one, so it succeeds when every character differs from (or is missing at) its position.
   */
  function MatchStrValue(signedChar: bool, chars: Bytes, b: Bytes): (r: Parsed<()>)
    ensures r.Ok? ==> |r.rest| < |b|
  {
    var (_, b) :- ParseTag(STRING_EXT, b);
    var (n, b) :- Parse16(b);
    if |chars| != n then Fail else NoneEqual(signedChar, chars, b)
  }

  function NoneEqual(signedChar: bool, chars: Bytes, b: Bytes): (r: Parsed<()>)
    ensures r.Ok? ==> |r.rest| <= |b|
  {
    if chars == [] then Ok((), b)
    else if b == [] then NoneEqual(signedChar, chars[1..], b)
    else if CharValue(signedChar, chars[0]) == b[0] then Fail
    else NoneEqual(signedChar, chars[1..], b[1..])
  }

  /** `n` leaves of one kind, as the assigning list matcher reads them. */
  function ParseLeaves(k: Kind, n: nat, b: Bytes): (r: Parsed<seq<Leaf>>)
    ensures r.Ok? ==> |r.rest| <= |b| && |r.value| == n
    decreases n
  {
    if n == 0 then Ok([], b)
    else
      var (l, b) :- ParseLeaf(k, b);
      var (ls, b) :- ParseLeaves(k, n - 1, b);
      Ok([l] + ls, b)
  }

  function MatchListBind(k: Kind, b: Bytes): (r: Parsed<seq<Leaf>>)
    ensures r.Ok? ==> |r.rest| < |b|
  {
    var (_, b) :- ParseTag(LIST, b);
    var (n, b) :- Parse32(b);
    var (ls, b) :- ParseLeaves(k, n, b);
    var (_, b) :- ParseTag(NIL_EXT, b);
    Ok(ls, b)
  }

  function AsInts(chars: Bytes): (r: seq<Leaf>)
    ensures |r| == |chars|
  {
    if chars == [] then [] else [Int(chars[0])] + AsInts(chars[1..])
  }

  function MatchIntListBind(b: Bytes): (r: Parsed<seq<Leaf>>)
    ensures r.Ok? ==> |r.rest| < |b|
  {
    if b != [] && b[0] == STRING_EXT then
      var (chars, b) :- ParseStr(b);
      Ok(AsInts(chars), b)
    else
      MatchListBind(KInt, b)
  }

  function Match(signedChar: bool, p: Pattern, b: Bytes): (r: Parsed<seq<Binding>>)
    ensures r.Ok? ==> |r.rest| <= |b|
    decreases p, 1
  {
    match p
    case Val(l) =>
      if l.Str? then
        var (_, b) :- MatchStrValue(signedChar, l.chars, b);
        Ok([], b)
      else
        var (l', b) :- ParseLeaf(KindOf(l), b);
        if l == l' then Ok([], b) else Fail
    case Bind(k) =>
      var (l, b) :- ParseLeaf(k, b);
      Ok([Bound(l)], b)
    case Wild(k) =>
      var (_, rest) :- ParseLeaf(k, b);
      Ok([Saved(Consumed(b, rest))], rest)
    case Any =>
      var (_, rest) :- AnyRead(b);
      Ok([Saved(Consumed(b, rest))], rest)
    case TupleOf(ps) =>
      var (_, b) :- ParseTag(SMALL_TUPLE, b);
      var (n, b) :- ParseByte(b);
      if n == |ps| then MatchAll(signedChar, ps, b) else Fail
    case ListOf(ps) =>
      var (_, b) :- ParseTag(LIST, b);
      var (n, b) :- Parse32(b);
      if n == |ps| then
        var (bs, b) :- MatchAll(signedChar, ps, b);
        Ok(bs, if b != [] && b[0] == NIL_EXT then b[1..] else b)
      else Fail
    case ListBind(k) =>
      var (ls, b) :- MatchListBind(k, b);
      Ok([BoundList(ls)], b)
    case IntListBind =>
      var (ls, b) :- MatchIntListBind(b);
      Ok([BoundList(ls)], b)
  }

  function MatchAll(signedChar: bool, ps: seq<Pattern>, b: Bytes): (r: Parsed<seq<Binding>>)
    ensures r.Ok? ==> |r.rest| <= |b|
    decreases ps, 0
  {
    if ps == [] then Ok([], b)
    else
      var (x, b) :- Match(signedChar, ps[0], b);
      var (xs, b) :- MatchAll(signedChar, ps[1..], b);
      Ok(x + xs, b)
  }

  // ---------- Comparing a decoded term with a pattern ----------

  /** No list patterns, no string values, no float values (those compare decimal text as doubles). */
  predicate Plain(p: Pattern) {
    match p
    case Val(l) => !l.Str? && !l.Float?
    case Bind(k) => k != KFloat
    case Wild(_) => true
    case Any => true
    case TupleOf(ps) => forall q | q in ps :: Plain(q)
    case _ => false
  }

  /** Structural comparison: the subterms that the variables and wildcards of `p` stand for. */
  function Accept(p: Pattern, t: Term): Option<seq<Term>>
    requires Plain(p)
    decreases p, 1
  {
    match p
    case Val(l) => if t == Scalar(l) then Some([]) else None
    case Bind(k) => if t.Scalar? && KindOf(t.leaf) == k then Some([t]) else None
    case Wild(k) => if t.Scalar? && KindOf(t.leaf) == k then Some([t]) else None
    case Any => Some([t])
    case TupleOf(ps) => if t.Tuple? && |t.elems| == |ps| then AcceptAll(ps, t.elems) else None
  }

  function AcceptAll(ps: seq<Pattern>, ts: seq<Term>): Option<seq<Term>>
    requires |ps| == |ts| && forall q | q in ps :: Plain(q)
    decreases ps, 0
  {
    if ps == [] then Some([])
    else
      match Accept(ps[0], ts[0])
      case None => None
      case Some(x) =>
        match AcceptAll(ps[1..], ts[1..])
        case None => None
        case Some(xs) => Some(x + xs)
  }

  /** A bound value is the subterm; saved bytes decode to the subterm and nothing else. */
  predicate Denotes(x: Binding, t: Term) {
    match x
    case Bound(l) => t == Scalar(l)
    case Saved(raw) => Decode(false, raw) == Ok(t, [])
    case BoundList(_) => false
  }

  predicate DenoteAll(xs: seq<Binding>, ts: seq<Term>) {
    |xs| == |ts| && forall i | 0 <= i < |xs| :: Denotes(xs[i], ts[i])
  }

  /** The fused result `m` agrees with decoding to `d` and then comparing with `p`. */
  predicate Agrees(m: Parsed<seq<Binding>>, p: Pattern, d: Parsed<Term>)
    requires Plain(p)
  {
    if d.Ok? && Accept(p, d.value).Some? then
      m.Ok? && m.rest == d.rest && DenoteAll(m.value, Accept(p, d.value).value)
    else
      m.Fail?
  }

  predicate AgreesAll(m: Parsed<seq<Binding>>, ps: seq<Pattern>, d: Parsed<seq<Term>>)
    requires forall q | q in ps :: Plain(q)
    requires d.Ok? ==> |d.value| == |ps|
  {
    if d.Ok? && AcceptAll(ps, d.value).Some? then
      m.Ok? && m.rest == d.rest && DenoteAll(m.value, AcceptAll(ps, d.value).value)
    else
      m.Fail?
  }

  lemma SavedDecodes(b: Bytes)
    requires Decode(false, b).Ok?
    ensures Decode(false, Consumed(b, Decode(false, b).rest)) == Ok(Decode(false, b).value, [])
  {
    hide Decode;
    var u := Consumed(b, Decode(false, b).rest);
    DecodeLocal(false, b, []);
    assert u + [] == u;
  }

  lemma LeafIsDecode(k: Kind, b: Bytes)
    ensures ParseLeaf(k, b).Ok? <==>
            Decode(false, b).Ok? && Decode(false, b).value.Scalar? && KindOf(Decode(false, b).value.leaf) == k
    ensures ParseLeaf(k, b).Ok? ==> Decode(false, b) == Ok(Scalar(ParseLeaf(k, b).value), ParseLeaf(k, b).rest)
  {
    hide ParseLeaf, ParseByte, Parse32, DecodeAll, Fits;
    TagsOfContainers();
  }

  /**
   * Matching fused with parsing is decoding followed by comparing, on every byte sequence: the
   * same verdict, the same stopping place, and the same subterms bound.
   */
  lemma {:induction false} MatchIsDecodeThenCompare(signedChar: bool, p: Pattern, b: Bytes)
    requires Plain(p)
    ensures Agrees(Match(signedChar, p, b), p, Decode(false, b))
    decreases p, 1
  {
    hide ParseLeaf, AnyRead, Decode, MatchAll, AcceptAll, ParseByte;
    match p
    case Val(l) => LeafIsDecode(KindOf(l), b);
    case Bind(k) => LeafIsDecode(k, b);
    case Wild(k) =>
      LeafIsDecode(k, b);
      if ParseLeaf(k, b).Ok? {
        SavedDecodes(b);
      }
    case Any =>
      AnyReadIsDecode(b);
      if AnyRead(b).Ok? {
        SavedDecodes(b);
      }
    case TupleOf(ps) => MatchTupleIsDecode(signedChar, ps, b);
  }

  lemma {:induction false} MatchTupleIsDecode(signedChar: bool, ps: seq<Pattern>, b: Bytes)
    requires forall q | q in ps :: Plain(q)
    ensures Agrees(Match(signedChar, TupleOf(ps), b), TupleOf(ps), Decode(false, b))
    decreases ps, 1
  {
    hide ParseLeaf, MatchAll, AcceptAll, DecodeAll, Denotes, Fits, Parse32;
    if |b| >= 2 && b[0] == SMALL_TUPLE {
      assert b[1..][1..] == b[2..];
      if b[1] == |ps| {
        MatchAllIsDecode(signedChar, ps, b[2..]);
      }
    }
  }

  lemma {:induction false} MatchAllIsDecode(signedChar: bool, ps: seq<Pattern>, b: Bytes)
    requires forall q | q in ps :: Plain(q)
    ensures AgreesAll(MatchAll(signedChar, ps, b), ps, DecodeAll(false, |ps|, b))
    decreases ps, 0
  {
    hide Match, Accept, Decode, Denotes, Plain, Fits;
    if ps != [] {
      MatchIsDecodeThenCompare(signedChar, ps[0], b);
      var d := Decode(false, b);
      if d.Ok? {
        MatchAllIsDecode(signedChar, ps[1..], d.rest);
        var es := DecodeAll(false, |ps| - 1, d.rest);
        if es.Ok? {
          assert ([d.value] + es.value)[1..] == es.value;
        }
      }
    }
  }

  /** A plain pattern looks only at the bytes it consumes. */
  lemma {:induction false} MatchLocal(signedChar: bool, p: Pattern, b: Bytes, s: Bytes)
    requires Plain(p) && Match(signedChar, p, b).Ok?
    ensures var r := Match(signedChar, p, b);
            b == Consumed(b, r.rest) + r.rest && Match(signedChar, p, Consumed(b, r.rest) + s) == Ok(r.value, s)
    decreases p, 1
  {
    hide ParseLeaf, AnyRead, MatchAll, ParseByte, ParseTag;
    match p
    case Val(l) => LeafLocal(KindOf(l), b, s);
    case Bind(k) => LeafLocal(k, b, s);
    case Wild(k) =>
      LeafLocal(k, b, s);
      ConsumedAgain(b, ParseLeaf(k, b).rest, s);
    case Any =>
      AnyReadLocal(b, s);
      ConsumedAgain(b, AnyRead(b).rest, s);
    case TupleOf(ps) => TuplePatternLocal(signedChar, ps, b, s);
  }

  lemma ConsumedAgain(b: Bytes, rest: Bytes, s: Bytes)
    requires |rest| <= |b|
    ensures Consumed(Consumed(b, rest) + s, s) == Consumed(b, rest)
  {
  }

  lemma AnyReadLocal(b: Bytes, s: Bytes)
    requires AnyRead(b).Ok?
    ensures b == Consumed(b, AnyRead(b).rest) + AnyRead(b).rest
    ensures AnyRead(Consumed(b, AnyRead(b).rest) + s) == Ok((), s)
  {
    hide AnyRead, Decode;
    AnyReadIsDecode(b);
    DecodeLocal(false, b, s);
    AnyReadIsDecode(Consumed(b, AnyRead(b).rest) + s);
    assert AnyRead(Consumed(b, AnyRead(b).rest) + s).value == ();
  }

  lemma TuplePattern(signedChar: bool, ps: seq<Pattern>, n: byte, b: Bytes)
    ensures Match(signedChar, TupleOf(ps), [SMALL_TUPLE, n] + b) ==
            if n == |ps| then MatchAll(signedChar, ps, b) else Fail
  {
    hide MatchAll, ParseTag, ParseByte;
    assert [SMALL_TUPLE, n] + b == [SMALL_TUPLE] + ([n] + b);
    TagOn(SMALL_TUPLE, [n] + b);
    ByteOn(n, b);
  }

  lemma {:induction false} TuplePatternLocal(signedChar: bool, ps: seq<Pattern>, b: Bytes, s: Bytes)
    requires (forall q | q in ps :: Plain(q)) && Match(signedChar, TupleOf(ps), b).Ok?
    ensures var r := Match(signedChar, TupleOf(ps), b);
            && b == Consumed(b, r.rest) + r.rest
            && Match(signedChar, TupleOf(ps), Consumed(b, r.rest) + s) == Ok(r.value, s)
    decreases ps, 1
  {
    hide Match, MatchAll, Plain;
    assert |b| >= 2 && b[0] == SMALL_TUPLE by { TupleHead(signedChar, ps, b); }
    var n, rest := b[1], b[2..];
    assert b == [SMALL_TUPLE, n] + rest;
    TuplePattern(signedChar, ps, n, rest);
    MatchAllLocal(signedChar, ps, rest, s);
    var r := Match(signedChar, TupleOf(ps), b).rest;
    var w := Consumed(rest, r);
    Assoc2([SMALL_TUPLE, n], w, r);
    Assoc2([SMALL_TUPLE, n], w, s);
    assert Consumed(b, r) == [SMALL_TUPLE, n] + w;
    TuplePattern(signedChar, ps, n, w + s);
  }

  lemma TupleHead(signedChar: bool, ps: seq<Pattern>, b: Bytes)
    requires Match(signedChar, TupleOf(ps), b).Ok?
    ensures |b| >= 2 && b[0] == SMALL_TUPLE
  {
    hide MatchAll;
  }

  lemma {:induction false} MatchAllLocal(signedChar: bool, ps: seq<Pattern>, b: Bytes, s: Bytes)
    requires (forall q | q in ps :: Plain(q)) && MatchAll(signedChar, ps, b).Ok?
    ensures var r := MatchAll(signedChar, ps, b);
            b == Consumed(b, r.rest) + r.rest && MatchAll(signedChar, ps, Consumed(b, r.rest) + s) == Ok(r.value, s)
    decreases ps, 0
  {
    hide Match, Plain;
    var r := MatchAll(signedChar, ps, b);
    if ps == [] {
      assert Consumed(b, r.rest) + s == s;
    } else {
      var h := Match(signedChar, ps[0], b);
      MatchAllLocal(signedChar, ps[1..], h.rest, s);
      var w := Consumed(h.rest, r.rest);
      MatchLocal(signedChar, ps[0], b, w + s);
      var u := Consumed(b, h.rest);
      Assoc2(u, w, r.rest);
      Assoc2(u, w, s);
      assert Consumed(b, r.rest) == u + w;
    }
  }

  /**
   * The bytes a wildcard saved match every plain pattern exactly as the original position does: the
   * same verdict, the same values bound, and nothing left over.
   */
  lemma RematchingSavedBytes(signedChar: bool, p: Pattern, b: Bytes)
    requires Plain(p) && AnyRead(b).Ok?
    ensures var saved := Consumed(b, AnyRead(b).rest); var m := Match(signedChar, p, b);
            && Match(signedChar, p, saved) == (if m.Ok? then Ok(m.value, []) else Fail)
            && (m.Ok? ==> m.rest == AnyRead(b).rest)
  {
    hide Match, Accept, Decode, AnyRead, Plain, Denotes;
    var saved := Consumed(b, AnyRead(b).rest);
    AnyReadIsDecode(b);
    SavedDecodes(b);
    MatchIsDecodeThenCompare(signedChar, p, b);
    MatchIsDecodeThenCompare(signedChar, p, saved);
    if Match(signedChar, p, b).Ok? {
      MatchLocal(signedChar, p, b, []);
      assert saved + [] == saved;
    }
  }

  // ---------- Against the decoder that demands every nil ----------

  /** No wildcard of unknown kind. */
  predicate AnyFree(p: Pattern) {
    match p
    case Any => false
    case TupleOf(ps) => forall q | q in ps :: AnyFree(q)
    case _ => true
  }

  /** Without such a wildcard, only terms without lists are accepted. */
  lemma {:induction false} AcceptedIsListFree(p: Pattern, t: Term)
    requires Plain(p) && AnyFree(p) && Accept(p, t).Some?
    ensures ListFree(t)
    decreases p, 1
  {
    hide AcceptAll;
    if p.TupleOf? && t.Tuple? {
      AllAcceptedAreListFree(p.elems, t.elems);
    }
  }

  lemma {:induction false} AllAcceptedAreListFree(ps: seq<Pattern>, ts: seq<Term>)
    requires |ps| == |ts| && (forall q | q in ps :: Plain(q) && AnyFree(q)) && AcceptAll(ps, ts).Some?
    ensures forall t | t in ts :: ListFree(t)
    decreases ps, 0
  {
    hide Accept, Plain, AnyFree, ListFree;
    if ps != [] {
      AcceptedIsListFree(ps[0], ts[0]);
      AllAcceptedAreListFree(ps[1..], ts[1..]);
    }
  }

  /**
   * The same theorem against the decoder that demands a nil after every list: for every byte
   * sequence when the pattern has no wildcard of unknown kind, and for every plain pattern when no
   * list is involved.
   */
  lemma MatchIsClosedDecodeThenCompare(signedChar: bool, p: Pattern, b: Bytes)
    requires Plain(p)
    requires AnyFree(p) || ((Decode(true, b).Ok? ==> ListFree(Decode(true, b).value))
                            && (Decode(false, b).Ok? ==> ListFree(Decode(false, b).value)))
    ensures Agrees(Match(signedChar, p, b), p, Decode(true, b))
  {
    hide Match, Accept, Decode, Plain, AnyFree, ListFree, DenoteAll;
    MatchIsDecodeThenCompare(signedChar, p, b);
    DecodersAgree(b);
    var open, closed := Decode(false, b), Decode(true, b);
    if AnyFree(p) {
      if open.Ok? && Accept(p, open.value).Some? {
        AcceptedIsListFree(p, open.value);
      }
      if closed.Ok? && Accept(p, closed.value).Some? {
        AcceptedIsListFree(p, closed.value);
      }
    }
  }

  // ---------- Matching encodings ----------

  /** On the encoding of a list-free term, matching is comparing the term with the pattern. */
  lemma MatchEncoded(signedChar: bool, p: Pattern, t: Term, s: Bytes)
    requires Plain(p) && Fits(t) && ListFree(t)
    ensures Agrees(Match(signedChar, p, Encode(t) + s), p, Ok(t, s))
  {
    hide Match, Accept, Decode, Encode, Plain, Denotes, Fits, ListFree;
    MatchIsDecodeThenCompare(signedChar, p, Encode(t) + s);
    DecodeEncoded(false, t, s);
  }

  /** The pattern with a variable at every leaf of `t`. */
  function Skeleton(t: Term): Pattern
    decreases t, 1
  {
    match t
    case Scalar(l) => Bind(KindOf(l))
    case Tuple(es) => TupleOf(SkeletonAll(es))
    case List(es) => ListOf(SkeletonAll(es))
  }

  function SkeletonAll(ts: seq<Term>): (ps: seq<Pattern>)
    ensures |ps| == |ts|
    decreases ts, 0
  {
    if ts == [] then [] else [Skeleton(ts[0])] + SkeletonAll(ts[1..])
  }

  /** The leaves of a term from left to right, as the assigning patterns hand them back. */
  function Leaves(t: Term): seq<Binding>
    decreases t, 1
  {
    match t
    case Scalar(l) => [Bound(l)]
    case Tuple(es) => LeavesAll(es)
    case List(es) => LeavesAll(es)
  }

  function LeavesAll(ts: seq<Term>): seq<Binding>
    decreases ts, 0
  {
    if ts == [] then [] else Leaves(ts[0]) + LeavesAll(ts[1..])
  }

  /** Serialize, then match with a variable at every leaf: every leaf comes back, and exactly the suffix is left. */
  lemma {:induction false} SkeletonRecoversLeaves(signedChar: bool, t: Term, s: Bytes)
    requires Fits(t)
    ensures Match(signedChar, Skeleton(t), Encode(t) + s) == Ok(Leaves(t), s)
    decreases t, 1
  {
    hide EncodeLeaf, ParseLeaf, Be32, ParseByte, Parse32, ParseTag, EncodeAll, SkeletonAll, LeavesAll, MatchAll;
    match t
    case Scalar(l) => LeafOn(l, EncodeLeaf(l), s);
    case Tuple(es) =>
      var r := [|es| as byte] + (EncodeAll(es) + s);
      assert Encode(t) + s == [SMALL_TUPLE] + r;
      TagOn(SMALL_TUPLE, r);
      ByteOn(|es|, EncodeAll(es) + s);
      SkeletonAllRecoversLeaves(signedChar, es, s);
    case List(es) =>
      var s' := [NIL_EXT] + s;
      Assoc4([LIST], Be32(|es|), EncodeAll(es), [NIL_EXT], s);
      TagOn(LIST, Be32(|es|) + (EncodeAll(es) + s'));
      Word32On(|es|, EncodeAll(es) + s');
      SkeletonAllRecoversLeaves(signedChar, es, s');
      assert s'[1..] == s;
  }

  lemma {:induction false} SkeletonAllRecoversLeaves(signedChar: bool, ts: seq<Term>, s: Bytes)
    requires forall t | t in ts :: Fits(t)
    ensures MatchAll(signedChar, SkeletonAll(ts), EncodeAll(ts) + s) == Ok(LeavesAll(ts), s)
    decreases ts, 0
  {
    hide Match, Encode, Skeleton, Leaves, Fits;
    if ts == [] {
      assert EncodeAll(ts) + s == s;
    } else {
      var s' := EncodeAll(ts[1..]) + s;
      assert EncodeAll(ts) + s == Encode(ts[0]) + s';
      SkeletonRecoversLeaves(signedChar, ts[0], s');
      SkeletonAllRecoversLeaves(signedChar, ts[1..], s);
      assert SkeletonAll(ts)[1..] == SkeletonAll(ts[1..]);
    }
  }

  /** A list pattern accepts a list whose closing nil is missing, and takes the nil when it is there. */
  lemma NilIsOptional(signedChar: bool, es: seq<Term>, s: Bytes)
    requires Fits(List(es))
    ensures Match(signedChar, Skeleton(List(es)), [LIST] + (Be32(|es|) + (EncodeAll(es) + s))) ==
            Ok(LeavesAll(es), if s != [] && s[0] == NIL_EXT then s[1..] else s)
  {
    hide Be32, ParseByte, Parse32, ParseTag, EncodeAll, SkeletonAll, LeavesAll, MatchAll;
    TagOn(LIST, Be32(|es|) + (EncodeAll(es) + s));
    Word32On(|es|, EncodeAll(es) + s);
    SkeletonAllRecoversLeaves(signedChar, es, s);
  }

  /** What a list pattern decodes: the head must announce as many elements as the pattern has. */
  function DecodeElements(ps: seq<Pattern>, b: Bytes): (r: Parsed<seq<Term>>)
    ensures r.Ok? ==> |r.value| == |ps|
  {
    if |b| >= 5 && b[0] == LIST && FromBe32(b[1..5]) == |ps| then DecodeAll(false, |ps|, b[5..]) else Fail
  }

  function SkipNil(b: Bytes): Bytes {
    if b != [] && b[0] == NIL_EXT then b[1..] else b
  }

  /**
   * A list of plain patterns, on every byte sequence: it matches exactly when the head announces its
   * own length and that many terms follow which the patterns accept, one by one.
   */
  lemma ListPatternIsDecodeThenCompare(signedChar: bool, ps: seq<Pattern>, b: Bytes)
    requires forall q | q in ps :: Plain(q)
    ensures var m := Match(signedChar, ListOf(ps), b); var d := DecodeElements(ps, b);
            if d.Ok? && AcceptAll(ps, d.value).Some? then
              m.Ok? && m.rest == SkipNil(d.rest) && DenoteAll(m.value, AcceptAll(ps, d.value).value)
            else m.Fail?
  {
    hide MatchAll, AcceptAll, DecodeAll, Denotes, Plain, FromBe32;
    if |b| >= 5 && b[0] == LIST {
      assert b[1..][..4] == b[1..5] && b[1..][4..] == b[5..];
      if FromBe32(b[1..5]) == |ps| {
        MatchAllIsDecode(signedChar, ps, b[5..]);
      }
    }
  }

  /** On the encoding of a list: same length, and every element accepted. */
  lemma ListPatternOnEncoded(signedChar: bool, ps: seq<Pattern>, es: seq<Term>, s: Bytes)
    requires (forall q | q in ps :: Plain(q)) && Fits(List(es)) && forall e | e in es :: ListFree(e)
    ensures var m := Match(signedChar, ListOf(ps), Encode(List(es)) + s);
            if |ps| == |es| && AcceptAll(ps, es).Some? then
              m.Ok? && m.rest == s && DenoteAll(m.value, AcceptAll(ps, es).value)
            else m.Fail?
  {
    hide Match, AcceptAll, DecodeAll, Denotes, Plain, FromBe32, Be32, EncodeAll;
    var s' := [NIL_EXT] + s;
    var b := Encode(List(es)) + s;
    Assoc4([LIST], Be32(|es|), EncodeAll(es), [NIL_EXT], s);
    assert b[0] == LIST && b[1..5] == Be32(|es|) && b[5..] == EncodeAll(es) + s';
    Be32RoundTrip(|es|);
    DecodeAllEncoded(false, es, s');
    assert s'[1..] == s;
    ListPatternIsDecodeThenCompare(signedChar, ps, b);
  }

  // ---------- Lists bound to a variable ----------

  predicate IsLeafOf(k: Kind, t: Term) {
    t.Scalar? && KindOf(t.leaf) == k
  }

  function LeafSeq(k: Kind, ts: seq<Term>): (r: seq<Leaf>)
    requires forall t | t in ts :: IsLeafOf(k, t)
    ensures |r| == |ts|
  {
    if ts == [] then [] else assert IsLeafOf(k, ts[0]); [ts[0].leaf] + LeafSeq(k, ts[1..])
  }

  lemma LeafParserOnTerm(k: Kind, t: Term, s: Bytes)
    requires Fits(t)
    ensures ParseLeaf(k, Encode(t) + s) == if IsLeafOf(k, t) then Ok(t.leaf, s) else Fail
  {
    hide ParseLeaf, EncodeLeaf, EncodeAll, KindOfTag, Be32;
    TagsOfContainers();
    if t.Scalar? {
      LeafOn(t.leaf, EncodeLeaf(t.leaf), s);
      var b := EncodeLeaf(t.leaf) + s;
      if ParseLeaf(k, b).Ok? {
        assert KindOfTag(b[0]) == Some(k) && KindOfTag(b[0]) == Some(KindOf(t.leaf));
      }
    }
  }

  lemma {:induction false} LeafParsersOnTerms(k: Kind, ts: seq<Term>, s: Bytes)
    requires forall t | t in ts :: Fits(t)
    ensures ParseLeaves(k, |ts|, EncodeAll(ts) + s) ==
            if forall t | t in ts :: IsLeafOf(k, t) then Ok(LeafSeq(k, ts), s) else Fail
  {
    hide ParseLeaf, Encode, Fits, IsLeafOf;
    if ts == [] {
      assert EncodeAll(ts) + s == s;
    } else {
      var s' := EncodeAll(ts[1..]) + s;
      assert EncodeAll(ts) + s == Encode(ts[0]) + s';
      LeafParserOnTerm(k, ts[0], s');
      LeafParsersOnTerms(k, ts[1..], s);
    }
  }

  /**
   * A list variable binds the elements of an encoded list exactly when all of them are leaves of its
   * kind and the closing nil is there.
   */
  lemma ListBindExactlyWhen(signedChar: bool, k: Kind, ts: seq<Term>, s: Bytes)
    requires Fits(List(ts))
    ensures Match(signedChar, ListBind(k), [LIST] + (Be32(|ts|) + (EncodeAll(ts) + s))) ==
            if (forall t | t in ts :: IsLeafOf(k, t)) && s != [] && s[0] == NIL_EXT
            then Ok([BoundList(LeafSeq(k, ts))], s[1..]) else Fail
  {
    hide Be32, Parse32, ParseLeaves, EncodeAll, IsLeafOf, LeafSeq;
    TagOn(LIST, Be32(|ts|) + (EncodeAll(ts) + s));
    Word32On(|ts|, EncodeAll(ts) + s);
    LeafParsersOnTerms(k, ts, s);
  }

  // ---------- Strings and packed lists ----------

  /** Every character is read back as a negative integer. */
  predicate AllMisread(signedChar: bool, chars: Bytes) {
    forall i | 0 <= i < |chars| :: CharValue(signedChar, chars[i]) < 0
  }

  lemma {:induction false} NoneEqualItself(signedChar: bool, chars: Bytes, s: Bytes)
    ensures NoneEqual(signedChar, chars, chars + s).Ok? <==> AllMisread(signedChar, chars)
  {
    if chars != [] {
      assert (chars + s)[0] == chars[0] && (chars + s)[1..] == chars[1..] + s;
      NoneEqualItself(signedChar, chars[1..], s);
    }
  }

  /**
   * A string used as a value pattern accepts its own encoding exactly when every character is
   * misread as negative: never for a non-empty string when `char` is unsigned.
   */
  lemma StringValueAcceptsItself(signedChar: bool, chars: Bytes, s: Bytes)
    requires |chars| < 0x1_0000
    ensures MatchStrValue(signedChar, chars, EncodeLeaf(Str(chars)) + s).Ok? <==> AllMisread(signedChar, chars)
  {
    hide ParseTag, Parse16, Be16, NoneEqual;
    var r := Be16(|chars|) + (chars + s);
    Assoc3([STRING_EXT], Be16(|chars|), chars, s);
    TagOn(STRING_EXT, r);
    Word16On(|chars|, chars + s);
    NoneEqualItself(signedChar, chars, s);
  }

  /**
   * A string value on every byte sequence: it matches exactly when the head announces its length and
   * no byte that is there equals the character at its place.
   */
  lemma StringValueExactlyWhen(signedChar: bool, chars: Bytes, b: Bytes)
    ensures var m := MatchStrValue(signedChar, chars, b);
            if |b| >= 3 && b[0] == STRING_EXT && FromBe16(b[1..3]) == |chars|
               && AllDiffer(signedChar, chars, b[3..]) then
              m == Ok((), b[3..][if |chars| <= |b| - 3 then |chars| else |b| - 3..])
            else m.Fail?
  {
    hide FromBe16, NoneEqual, AllDiffer;
    if |b| >= 3 && b[0] == STRING_EXT {
      assert b[1..][..2] == b[1..3] && b[1..][2..] == b[3..];
      NoneEqualExactlyWhen(signedChar, chars, b[3..]);
    }
  }

  predicate AllDiffer(signedChar: bool, chars: Bytes, b: Bytes) {
    forall i | 0 <= i < |chars| && i < |b| :: CharValue(signedChar, chars[i]) != b[i]
  }

  lemma {:induction false} NoneEqualExactlyWhen(signedChar: bool, chars: Bytes, b: Bytes)
    ensures NoneEqual(signedChar, chars, b) ==
            if AllDiffer(signedChar, chars, b) then Ok((), b[if |chars| <= |b| then |chars| else |b|..]) else Fail
  {
    if chars != [] {
      if b == [] {
        NoneEqualExactlyWhen(signedChar, chars[1..], b);
      } else {
        NoneEqualExactlyWhen(signedChar, chars[1..], b[1..]);
        assert AllDiffer(signedChar, chars, b) <==>
               CharValue(signedChar, chars[0]) != b[0] && AllDiffer(signedChar, chars[1..], b[1..]) by {
          DifferSplits(signedChar, chars, b);
        }
      }
    }
  }

  lemma DifferSplits(signedChar: bool, chars: Bytes, b: Bytes)
    requires chars != [] && b != []
    ensures AllDiffer(signedChar, chars, b) <==>
            CharValue(signedChar, chars[0]) != b[0] && AllDiffer(signedChar, chars[1..], b[1..])
  {
    hide CharValue;
    if CharValue(signedChar, chars[0]) != b[0] && AllDiffer(signedChar, chars[1..], b[1..]) {
      forall i | 0 <= i < |chars| && i < |b| ensures CharValue(signedChar, chars[i]) != b[i] {
        if i > 0 {
          assert chars[1..][i - 1] == chars[i] && b[1..][i - 1] == b[i];
        }
      }
    }
    if AllDiffer(signedChar, chars, b) {
      forall i | 0 <= i < |chars[1..]| && i < |b[1..]| ensures CharValue(signedChar, chars[1..][i]) != b[1..][i] {
        assert chars[1..][i] == chars[i + 1] && b[1..][i] == b[i + 1];
      }
    }
  }

  lemma StringValueRejectsItself()
    ensures Match(false, Val(Str([104, 105])), EncodeLeaf(Str([104, 105]))).Fail?
  {
    hide EncodeLeaf, MatchStrValue;
    var e := EncodeLeaf(Str([104, 105]));
    StringValueAcceptsItself(false, [104, 105], []);
    assert e + [] == e;
    assert [104 as byte, 105][0] == 104;
  }

  function Ints(chars: Bytes): seq<Term> {
    if chars == [] then [] else [Scalar(Int(chars[0]))] + Ints(chars[1..])
  }

  lemma {:induction false} IntsParse(chars: Bytes, s: Bytes)
    ensures |Ints(chars)| == |chars|
    ensures ParseLeaves(KInt, |chars|, EncodeAll(Ints(chars)) + s) == Ok(AsInts(chars), s)
  {
    hide EncodeLeaf, ParseLeaf;
    if chars == [] {
      assert EncodeAll(Ints(chars)) + s == s;
    } else {
      var s' := EncodeAll(Ints(chars[1..])) + s;
      assert Ints(chars)[1..] == Ints(chars[1..]);
      assert EncodeAll(Ints(chars)) + s == EncodeLeaf(Int(chars[0])) + s';
      LeafOn(Int(chars[0]), EncodeLeaf(Int(chars[0])), s');
      IntsParse(chars[1..], s);
    }
  }

  /** A list of small integers binds to the same values whether it arrives as a list or packed as a string. */
  lemma PackedListBindsTheSame(signedChar: bool, chars: Bytes, s: Bytes)
    requires |chars| < 0x1_0000
    ensures Match(signedChar, IntListBind, Encode(List(Ints(chars))) + s) == Ok([BoundList(AsInts(chars))], s)
    ensures Match(signedChar, IntListBind, EncodeLeaf(Str(chars)) + s) == Ok([BoundList(AsInts(chars))], s)
  {
    hide ParseTag, ParseStr, Parse32, Be32, Be16, ParseLeaves, EncodeAll, AsInts, Ints;
    IntsParse(chars, [NIL_EXT] + s);
    var e := EncodeAll(Ints(chars));
    Assoc4([LIST], Be32(|chars|), e, [NIL_EXT], s);
    TagOn(LIST, Be32(|chars|) + (e + ([NIL_EXT] + s)));
    Word32On(|chars|, e + ([NIL_EXT] + s));
    TagOn(NIL_EXT, s);
    StrOn(chars, s);
    assert (EncodeLeaf(Str(chars)) + s)[0] == STRING_EXT;
  }
}
