/** Round trips of whole terms, and how far the wildcard reads into an encoding. */
module TermCodec {
  import opened ByteCodec
  import opened Parsing
  import opened Terms
  import opened LeafCodec

  /** Decoding an encoding, whatever bytes follow it. */
  lemma {:induction false} DecodeEncoded(closed: bool, t: Term, s: Bytes)
    requires Fits(t) && (closed || ListFree(t))
    ensures Decode(closed, Encode(t) + s) == Ok(t, s)
    decreases t, 1
  {
    hide EncodeLeaf, ParseLeaf, KindOfTag, Be32, ParseByte, Parse32, ParseTag, EncodeAll, DecodeAll;
    var b := Encode(t) + s;
    match t
    case Scalar(l) =>
      LeafOn(l, EncodeLeaf(l), s);
      assert KindOfTag(SMALL_TUPLE) == None == KindOfTag(LIST) by { TagsOfContainers(); }
    case Tuple(es) =>
      assert b == [SMALL_TUPLE] + ([|es| as byte] + (EncodeAll(es) + s));
      assert b[1..] == [|es| as byte] + (EncodeAll(es) + s);
      ByteOn(|es|, EncodeAll(es) + s);
      DecodeAllEncoded(closed, es, s);
    case List(es) =>
      Assoc4([LIST], Be32(|es|), EncodeAll(es), [NIL_EXT], s);
      assert b[1..] == Be32(|es|) + (EncodeAll(es) + ([NIL_EXT] + s));
      Word32On(|es|, EncodeAll(es) + ([NIL_EXT] + s));
      DecodeAllEncoded(closed, es, [NIL_EXT] + s);
      TagOn(NIL_EXT, s);
  }

  lemma {:induction false} DecodeAllEncoded(closed: bool, es: seq<Term>, s: Bytes)
    requires forall e | e in es :: Fits(e) && (closed || ListFree(e))
    ensures DecodeAll(closed, |es|, EncodeAll(es) + s) == Ok(es, s)
    decreases es, 0
  {
    hide Encode, Decode, Fits, ListFree;
    if es == [] {
      assert EncodeAll(es) + s == s;
    } else {
      assert EncodeAll(es) + s == Encode(es[0]) + (EncodeAll(es[1..]) + s);
      DecodeEncoded(closed, es[0], EncodeAll(es[1..]) + s);
      DecodeAllEncoded(closed, es[1..], s);
      assert es == [es[0]] + es[1..];
    }
  }

  lemma TagsOfContainers()
    ensures KindOfTag(SMALL_TUPLE) == None && KindOfTag(LIST) == None && KindOfTag(NIL_EXT) == None
  {
  }

  /** A term survives the trip exactly when every field fits the width the format gives it. */
  lemma RoundTripExactlyWhenFits(t: Term, s: Bytes)
    ensures Decode(true, Encode(t) + s) == Ok(t, s) <==> Fits(t)
  {
    hide Encode, Decode;
    if Fits(t) {
      DecodeEncoded(true, t, s);
    }
  }

  /** Encodings are injective and none is a proper prefix of another. */
  lemma EncodingIsPrefixFree(t: Term, s: Bytes, t': Term, s': Bytes)
    requires Fits(t) && Fits(t') && Encode(t) + s == Encode(t') + s'
    ensures t == t' && s == s'
  {
    hide Encode, Decode, Fits;
    DecodeEncoded(true, t, s);
    DecodeEncoded(true, t', s');
  }

  /** The decoder looks only at the bytes it consumes. */
  lemma {:induction false} DecodeLocal(closed: bool, b: Bytes, s: Bytes)
    requires Decode(closed, b).Ok?
    ensures var r := Decode(closed, b);
            b == Consumed(b, r.rest) + r.rest && Decode(closed, Consumed(b, r.rest) + s) == Ok(r.value, s)
    decreases |b|, 0
  {
    hide Decode;
    if b != [] && b[0] == SMALL_TUPLE {
      TupleLocal(closed, b, s);
    } else if b != [] && b[0] == LIST {
      ListLocal(closed, b, s);
    } else {
      ScalarLocal(closed, b, s);
    }
  }

  lemma ScalarLocal(closed: bool, b: Bytes, s: Bytes)
    requires Decode(closed, b).Ok? && b[0] != SMALL_TUPLE && b[0] != LIST
    ensures var r := Decode(closed, b);
            b == Consumed(b, r.rest) + r.rest && Decode(closed, Consumed(b, r.rest) + s) == Ok(r.value, s)
  {
    hide ParseLeaf, Parse32, DecodeAll, KindOfTag, Fits;
    LeafLocal(KindOfTag(b[0]).value, b, s);
    assert (Consumed(b, Decode(closed, b).rest) + s)[0] == b[0];
  }

  lemma DecodeTuple(closed: bool, n: byte, b: Bytes)
    ensures Decode(closed, [SMALL_TUPLE, n] + b) ==
            match DecodeAll(closed, n, b) case Fail => Fail case Ok(es, rest) => Ok(Tuple(es), rest)
  {
    hide ParseLeaf, Parse32, DecodeAll, KindOfTag, Fits;
    assert ([SMALL_TUPLE, n] + b)[1..] == [n] + b;
    ByteOn(n, b);
  }

  lemma {:induction false} TupleLocal(closed: bool, b: Bytes, s: Bytes)
    requires b != [] && b[0] == SMALL_TUPLE && Decode(closed, b).Ok?
    ensures var r := Decode(closed, b);
            b == Consumed(b, r.rest) + r.rest && Decode(closed, Consumed(b, r.rest) + s) == Ok(r.value, s)
    decreases |b|, -1
  {
    hide Decode, DecodeAll, Fits;
    assert |b| >= 2 by { TupleHasLength(closed, b); }
    var n, rest := b[1], b[2..];
    assert b == [SMALL_TUPLE, n] + rest;
    DecodeTuple(closed, n, rest);
    DecodeAllLocal(closed, n, rest, s);
    var r := Decode(closed, b).rest;
    var w := Consumed(rest, r);
    Assoc2([SMALL_TUPLE, n], w, r);
    Assoc2([SMALL_TUPLE, n], w, s);
    assert Consumed(b, r) == [SMALL_TUPLE, n] + w;
    DecodeTuple(closed, n, w + s);
  }

  lemma TupleHasLength(closed: bool, b: Bytes)
    requires b != [] && b[0] == SMALL_TUPLE && Decode(closed, b).Ok?
    ensures |b| >= 2
  {
    hide DecodeAll, ParseLeaf, Parse32, KindOfTag;
  }

  lemma {:induction false} ListLocal(closed: bool, b: Bytes, s: Bytes)
    requires b != [] && b[0] == LIST && Decode(closed, b).Ok?
    ensures var r := Decode(closed, b);
            b == Consumed(b, r.rest) + r.rest && Decode(closed, Consumed(b, r.rest) + s) == Ok(r.value, s)
    decreases |b|, -1
  {
    hide ParseLeaf, Parse32, Be32, DecodeAll, KindOfTag, ParseTag, Fits;
    var r := Decode(closed, b);
    var n := Parse32(b[1..]);
    var tail := if closed then [NIL_EXT] else [];
    Word32From(b[1..]);
    DecodeAllLocal(closed, n.value, n.rest, tail + s);
    var d := DecodeAll(closed, n.value, n.rest);
    var w := Consumed(n.rest, d.rest);
    if closed {
      TagFrom(NIL_EXT, d.rest);
    }
    assert d.rest == tail + r.rest;
    assert b == [LIST] + b[1..];
    Assoc4([LIST], Be32(n.value), w, tail, r.rest);
    Assoc4([LIST], Be32(n.value), w, tail, s);
    var u := [LIST] + Be32(n.value) + w + tail;
    assert b == u + r.rest;
    assert u == Consumed(b, r.rest);
    assert (u + s)[1..] == Be32(n.value) + (w + (tail + s));
    Word32On(n.value, w + (tail + s));
    TagOn(NIL_EXT, s);
  }

  lemma {:induction false} DecodeAllLocal(closed: bool, n: nat, b: Bytes, s: Bytes)
    requires DecodeAll(closed, n, b).Ok?
    ensures var r := DecodeAll(closed, n, b);
            b == Consumed(b, r.rest) + r.rest && DecodeAll(closed, n, Consumed(b, r.rest) + s) == Ok(r.value, s)
    decreases |b|, n
  {
    hide Decode, Fits;
    var r := DecodeAll(closed, n, b);
    if n == 0 {
      assert Consumed(b, r.rest) + s == s;
    } else {
      var h := Decode(closed, b);
      DecodeAllLocal(closed, n - 1, h.rest, s);
      var w := Consumed(h.rest, r.rest);
      DecodeLocal(closed, b, w + s);
      var u := Consumed(b, h.rest);
      Assoc2(u, w, r.rest);
      Assoc2(u, w, s);
      assert Consumed(b, r.rest) == u + w;
    }
  }

  // ---------- The grammar of terms ----------

  /**
   * The byte sequences the format allows for a term that fits: as `Encode` writes it, except that a
   * small integer may also stand in its four-byte form.
   */
  predicate IsLayout(t: Term, u: Bytes)
    decreases t, 1
  {
    match t
    case Scalar(l) => u == EncodeLeaf(l) || u == LongForm(l)
    case Tuple(es) => |u| >= 2 && u[0] == SMALL_TUPLE && u[1] == |es| && AreLayouts(es, u[2..])
    case List(es) =>
      && |u| >= 6 && u[0] == LIST && u[1..5] == Be32(|es|) && u[|u| - 1] == NIL_EXT
      && AreLayouts(es, u[5..|u| - 1])
  }

  /** A layout of each element, one after the other. */
  predicate AreLayouts(es: seq<Term>, u: Bytes)
    decreases es, 0
  {
    if es == [] then u == []
    else exists k | 0 <= k <= |u| :: IsLayout(es[0], u[..k]) && AreLayouts(es[1..], u[k..])
  }

  lemma {:induction false} DecodeLayout(t: Term, u: Bytes, s: Bytes)
    requires Fits(t) && IsLayout(t, u)
    ensures Decode(true, u + s) == Ok(t, s)
    decreases t, 1
  {
    hide EncodeLeaf, LongForm, ParseLeaf, Decode, AreLayouts, Be32, DecodeAll;
    match t
    case Scalar(l) => DecodeLeafLayout(l, u, s);
    case Tuple(es) =>
      DecodeLayouts(es, u[2..], s);
      assert u + s == [SMALL_TUPLE, |es| as byte] + (u[2..] + s);
      DecodeTuple(true, |es|, u[2..] + s);
    case List(es) =>
      var w := u[5..|u| - 1];
      assert u == [LIST] + u[1..5] + w + [NIL_EXT];
      Assoc4([LIST], Be32(|es|), w, [NIL_EXT], s);
      DecodeLayouts(es, w, [NIL_EXT] + s);
      DecodeClosedList(|es|, w + ([NIL_EXT] + s), es, s);
  }

  lemma DecodeLeafLayout(l: Leaf, u: Bytes, s: Bytes)
    requires LeafFits(l) && (u == EncodeLeaf(l) || u == LongForm(l))
    ensures Decode(true, u + s) == Ok(Scalar(l), s)
  {
    hide EncodeLeaf, LongForm, ParseLeaf, KindOfTag, DecodeAll, Parse32, ParseByte, ParseTag;
    LeafOn(l, u, s);
    TagsOfContainers();
  }

  lemma DecodeClosedList(n: nat, b: Bytes, es: seq<Term>, s: Bytes)
    requires n < 0x1_0000_0000 && DecodeAll(true, n, b) == Ok(es, [NIL_EXT] + s)
    ensures Decode(true, [LIST] + (Be32(n) + b)) == Ok(List(es), s)
  {
    hide ParseLeaf, KindOfTag, DecodeAll, Parse32, ParseByte, ParseTag, Be32;
    assert ([LIST] + (Be32(n) + b))[1..] == Be32(n) + b;
    Word32On(n, b);
    TagOn(NIL_EXT, s);
  }

  lemma {:induction false} DecodeLayouts(es: seq<Term>, u: Bytes, s: Bytes)
    requires (forall e | e in es :: Fits(e)) && AreLayouts(es, u)
    ensures DecodeAll(true, |es|, u + s) == Ok(es, s)
    decreases es, 0
  {
    hide Decode, IsLayout, Fits;
    if es == [] {
      assert u + s == s;
    } else {
      hide DecodeAll;
      var k :| 0 <= k <= |u| && IsLayout(es[0], u[..k]) && AreLayouts(es[1..], u[k..]);
      hide AreLayouts;
      DecodeLayout(es[0], u[..k], u[k..] + s);
      DecodeLayouts(es[1..], u[k..], s);
      assert u + s == u[..k] + (u[k..] + s);
      DecodeOneMore(true, u + s, es[0], u[k..] + s, es[1..], s);
      assert [es[0]] + es[1..] == es;
    }
  }

  lemma DecodeOneMore(closed: bool, b: Bytes, e: Term, rest: Bytes, es: seq<Term>, s: Bytes)
    requires Decode(closed, b) == Ok(e, rest) && DecodeAll(closed, |es|, rest) == Ok(es, s)
    ensures DecodeAll(closed, |es| + 1, b) == Ok([e] + es, s)
  {
    hide Decode, Fits;
  }

  lemma {:induction false} DecodedLayout(b: Bytes)
    requires Decode(true, b).Ok?
    ensures var r := Decode(true, b); b == Consumed(b, r.rest) + r.rest && IsLayout(r.value, Consumed(b, r.rest))
    decreases |b|, 0
  {
    hide Decode, IsLayout;
    if b != [] && b[0] == SMALL_TUPLE {
      DecodedTupleLayout(b);
    } else if b != [] && b[0] == LIST {
      DecodedListLayout(b);
    } else {
      DecodedLeafLayout(b);
    }
  }

  lemma DecodedLeafLayout(b: Bytes)
    requires Decode(true, b).Ok? && b[0] != SMALL_TUPLE && b[0] != LIST
    ensures var r := Decode(true, b); b == Consumed(b, r.rest) + r.rest && IsLayout(r.value, Consumed(b, r.rest))
  {
    hide EncodeLeaf, LongForm, ParseLeaf, KindOfTag, DecodeAll, Parse32, ParseByte, ParseTag;
    var k := KindOfTag(b[0]).value;
    var r := ParseLeaf(k, b);
    LeafFrom(k, b);
    if b == EncodeLeaf(r.value) + r.rest {
      assert Consumed(b, r.rest) == EncodeLeaf(r.value);
    } else {
      assert Consumed(b, r.rest) == LongForm(r.value);
    }
  }

  lemma {:induction false} DecodedTupleLayout(b: Bytes)
    requires b != [] && b[0] == SMALL_TUPLE && Decode(true, b).Ok?
    ensures var r := Decode(true, b); b == Consumed(b, r.rest) + r.rest && IsLayout(r.value, Consumed(b, r.rest))
    decreases |b|, -1
  {
    hide Decode, DecodeAll, AreLayouts;
    TupleHasLength(true, b);
    var n, rest := b[1], b[2..];
    assert b == [SMALL_TUPLE, n] + rest;
    DecodeTuple(true, n, rest);
    DecodedLayouts(n, rest);
    var r := Decode(true, b).rest;
    var w := Consumed(rest, r);
    var u := [SMALL_TUPLE, n] + w;
    Assoc2([SMALL_TUPLE, n], w, r);
    assert Consumed(b, r) == u && u[2..] == w;
  }

  lemma {:induction false} DecodedListLayout(b: Bytes)
    requires b != [] && b[0] == LIST && Decode(true, b).Ok?
    ensures var r := Decode(true, b); b == Consumed(b, r.rest) + r.rest && IsLayout(r.value, Consumed(b, r.rest))
    decreases |b|, -1
  {
    hide ParseLeaf, Parse32, Be32, DecodeAll, KindOfTag, ParseTag, Fits, AreLayouts;
    var r := Decode(true, b);
    var n := Parse32(b[1..]);
    Word32From(b[1..]);
    DecodedLayouts(n.value, n.rest);
    var d := DecodeAll(true, n.value, n.rest);
    var w := Consumed(n.rest, d.rest);
    TagFrom(NIL_EXT, d.rest);
    assert b == [LIST] + b[1..];
    Assoc4([LIST], Be32(n.value), w, [NIL_EXT], r.rest);
    var u := [LIST] + Be32(n.value) + w + [NIL_EXT];
    assert b == u + r.rest;
    assert u == Consumed(b, r.rest);
    assert u[1..5] == Be32(n.value) && u[5..|u| - 1] == w;
  }

  lemma {:induction false} DecodedLayouts(n: nat, b: Bytes)
    requires DecodeAll(true, n, b).Ok?
    ensures var r := DecodeAll(true, n, b);
            b == Consumed(b, r.rest) + r.rest && AreLayouts(r.value, Consumed(b, r.rest))
    decreases |b|, n
  {
    hide Decode, Fits, IsLayout;
    if n != 0 {
      var r := DecodeAll(true, n, b);
      var h := Decode(true, b);
      DecodedLayout(b);
      DecodedLayouts(n - 1, h.rest);
      var u, w := Consumed(b, h.rest), Consumed(h.rest, r.rest);
      Assoc2(u, w, r.rest);
      var v := Consumed(b, r.rest);
      assert v == u + w && v[..|u|] == u && v[|u|..] == w;
      assert r.value[1..] == DecodeAll(true, n - 1, h.rest).value;
    }
  }

  /** The decoder reads `t` and leaves `s` if and only if `t` fits and the bytes are a layout of `t` followed by `s`. */
  lemma TermGrammarIsExact(t: Term, b: Bytes, s: Bytes)
    ensures Decode(true, b) == Ok(t, s) <==>
            Fits(t) && |s| <= |b| && b == Consumed(b, s) + s && IsLayout(t, Consumed(b, s))
  {
    hide Decode, Fits, IsLayout;
    if Decode(true, b) == Ok(t, s) {
      DecodedLayout(b);
    }
    if Fits(t) && |s| <= |b| && b == Consumed(b, s) + s && IsLayout(t, Consumed(b, s)) {
      DecodeLayout(t, Consumed(b, s), s);
    }
  }

  // ---------- With and without the closing nil ----------

  /** The two decoders agree whenever either of them yields a term without lists. */
  lemma {:induction false} DecodersAgree(b: Bytes)
    ensures Decode(true, b).Ok? && ListFree(Decode(true, b).value) ==> Decode(false, b) == Decode(true, b)
    ensures Decode(false, b).Ok? && ListFree(Decode(false, b).value) ==> Decode(true, b) == Decode(false, b)
    decreases |b|, 0
  {
    hide ParseLeaf, Parse32, ParseByte, DecodeAll, KindOfTag, Fits, ParseTag;
    if b != [] && b[0] == SMALL_TUPLE && ParseByte(b[1..]).Ok? {
      var n := ParseByte(b[1..]);
      DecodersAgreeOnAll(n.value, n.rest);
    }
  }

  lemma {:induction false} DecodersAgreeOnAll(n: nat, b: Bytes)
    ensures DecodeAll(true, n, b).Ok? && (forall e | e in DecodeAll(true, n, b).value :: ListFree(e))
            ==> DecodeAll(false, n, b) == DecodeAll(true, n, b)
    ensures DecodeAll(false, n, b).Ok? && (forall e | e in DecodeAll(false, n, b).value :: ListFree(e))
            ==> DecodeAll(true, n, b) == DecodeAll(false, n, b)
    decreases |b|, n
  {
    hide Decode, Fits, ListFree;
    if n != 0 {
      DecodersAgree(b);
      DecodersAgreeAfter(true, n, b);
      DecodersAgreeAfter(false, n, b);
    }
  }

  lemma {:induction false} DecodersAgreeAfter(closed: bool, n: nat, b: Bytes)
    requires n > 0
    ensures DecodeAll(closed, n, b).Ok? && (forall e | e in DecodeAll(closed, n, b).value :: ListFree(e))
            ==> DecodeAll(!closed, n, b) == DecodeAll(closed, n, b)
    decreases |b|, n, 0
  {
    hide Decode, Fits, ListFree;
    var d := Decode(closed, b);
    if DecodeAll(closed, n, b).Ok? && forall e | e in DecodeAll(closed, n, b).value :: ListFree(e) {
      var es := DecodeAll(closed, n - 1, d.rest).value;
      assert DecodeAll(closed, n, b).value == [d.value] + es;
      assert d.value in [d.value] + es && forall e | e in es :: e in [d.value] + es;
      DecodersAgree(b);
      DecodersAgreeOnAll(n - 1, d.rest);
    }
  }

  // ---------- The wildcard ----------

  /** How `any` moves the iterator: tuple and list heads, then the elements; a list's nil stays unread. */
  function AnyRead(b: Bytes): (r: Parsed<()>)
    ensures r.Ok? ==> |r.rest| < |b|
    decreases |b|, 0
  {
    if b == [] then Fail
    else if b[0] == SMALL_TUPLE then
      var (n, b) :- ParseByte(b[1..]);
      AnyReadAll(n, b)
    else if b[0] == LIST then
      var (n, b) :- Parse32(b[1..]);
      AnyReadAll(n, b)
    else
      match KindOfTag(b[0])
      case None => Fail
      case Some(k) => (var (_, b) :- ParseLeaf(k, b); Ok((), b))
  }

  function AnyReadAll(n: nat, b: Bytes): (r: Parsed<()>)
    ensures r.Ok? ==> |r.rest| <= |b|
    decreases |b|, n
  {
    if n == 0 then Ok((), b)
    else
      var (_, b) :- AnyRead(b);
      AnyReadAll(n - 1, b)
  }

  /** The wildcard accepts exactly what the decoder for unclosed lists accepts, and stops where it stops. */
  lemma {:induction false} AnyReadIsDecode(b: Bytes)
    ensures AnyRead(b).Ok? <==> Decode(false, b).Ok?
    ensures AnyRead(b).Ok? ==> AnyRead(b).rest == Decode(false, b).rest
    decreases |b|, 0
  {
    hide ParseLeaf, Parse32, ParseByte, DecodeAll, AnyReadAll, KindOfTag, Fits;
    if b != [] && b[0] == SMALL_TUPLE && ParseByte(b[1..]).Ok? {
      AnyReadAllIsDecode(ParseByte(b[1..]).value, ParseByte(b[1..]).rest);
    } else if b != [] && b[0] == LIST && Parse32(b[1..]).Ok? {
      AnyReadAllIsDecode(Parse32(b[1..]).value, Parse32(b[1..]).rest);
    }
  }

  lemma {:induction false} AnyReadAllIsDecode(n: nat, b: Bytes)
    ensures AnyReadAll(n, b).Ok? <==> DecodeAll(false, n, b).Ok?
    ensures AnyReadAll(n, b).Ok? ==> AnyReadAll(n, b).rest == DecodeAll(false, n, b).rest
    decreases |b|, n
  {
    hide Decode, AnyRead, Fits;
    if n != 0 {
      AnyReadIsDecode(b);
      if AnyRead(b).Ok? {
        AnyReadAllIsDecode(n - 1, AnyRead(b).rest);
      }
    }
  }

  /**
   * How many closing nils the wildcard leaves unread at the end of a term's encoding; None when
   * the match fails because an unread nil stands where the next element should start.
   */
  function UnreadNils(t: Term): Option<nat>
    decreases t, 1
  {
    match t
    case Scalar(_) => Some(0)
    case Tuple(es) => UnreadNilsAll(es)
    case List(es) => (match UnreadNilsAll(es) case None => None case Some(d) => Some(d + 1))
  }

  function UnreadNilsAll(es: seq<Term>): Option<nat>
    decreases es, 0
  {
    if es == [] then Some(0)
    else
      match UnreadNils(es[0])
      case None => None
      case Some(d) => if |es| == 1 then Some(d) else if d == 0 then UnreadNilsAll(es[1..]) else None
  }

  function Nils(d: nat): (r: Bytes)
    ensures |r| == d
  {
    if d == 0 then [] else [NIL_EXT] + Nils(d - 1)
  }

  lemma {:induction false} NilsAppend(d: nat)
    ensures Nils(d) + [NIL_EXT] == Nils(d + 1)
  {
    if d > 0 {
      NilsAppend(d - 1);
      assert Nils(d) + [NIL_EXT] == [NIL_EXT] + (Nils(d - 1) + [NIL_EXT]);
    }
  }

  lemma AnyFailsOnNil(b: Bytes)
    requires b != [] && b[0] == NIL_EXT
    ensures AnyRead(b).Fail?
  {
  }

  /** What the wildcard does on the encoding of any term that fits, lists included. */
  lemma {:induction false} AnyReadEncoded(t: Term, s: Bytes)
    requires Fits(t)
    ensures AnyRead(Encode(t) + s) == match UnreadNils(t) case None => Fail case Some(d) => Ok((), Nils(d) + s)
    decreases t, 1
  {
    hide EncodeLeaf, ParseLeaf, KindOfTag, Be32, ParseByte, Parse32, EncodeAll, AnyReadAll, UnreadNilsAll;
    var b := Encode(t) + s;
    match t
    case Scalar(l) =>
      LeafOn(l, EncodeLeaf(l), s);
      TagsOfContainers();
      assert Nils(0) + s == s;
    case Tuple(es) =>
      assert b == [SMALL_TUPLE] + ([|es| as byte] + (EncodeAll(es) + s));
      assert b[1..] == [|es| as byte] + (EncodeAll(es) + s);
      ByteOn(|es|, EncodeAll(es) + s);
      AnyReadAllEncoded(es, s);
    case List(es) =>
      var s' := [NIL_EXT] + s;
      Assoc4([LIST], Be32(|es|), EncodeAll(es), [NIL_EXT], s);
      assert b[1..] == Be32(|es|) + (EncodeAll(es) + s');
      Word32On(|es|, EncodeAll(es) + s');
      AnyReadAllEncoded(es, s');
      if UnreadNilsAll(es).Some? {
        var d := UnreadNilsAll(es).value;
        NilsAppend(d);
        assert Nils(d) + s' == (Nils(d) + [NIL_EXT]) + s;
      }
  }

  lemma {:induction false} AnyReadAllEncoded(es: seq<Term>, s: Bytes)
    requires forall e | e in es :: Fits(e)
    ensures AnyReadAll(|es|, EncodeAll(es) + s) ==
            match UnreadNilsAll(es) case None => Fail case Some(d) => Ok((), Nils(d) + s)
    decreases es, 0
  {
    hide Encode, Fits, UnreadNils, AnyRead;
    if es == [] {
      assert EncodeAll(es) + s == s == Nils(0) + s;
    } else {
      var s' := EncodeAll(es[1..]) + s;
      assert EncodeAll(es) + s == Encode(es[0]) + s';
      AnyReadEncoded(es[0], s');
      AnyReadAllEncoded(es[1..], s);
      if |es| == 1 {
        assert s' == s;
      } else if UnreadNils(es[0]).Some? {
        var d := UnreadNils(es[0]).value;
        if d == 0 {
          assert Nils(d) + s' == s';
        } else {
          AnyFailsOnNil(Nils(d) + s');
        }
      }
    }
  }

  lemma {:induction false} ListFreeLeavesNoNil(t: Term)
    ensures ListFree(t) <==> UnreadNils(t) == Some(0)
    decreases t, 1
  {
    if t.Tuple? {
      ListFreeAllLeavesNoNil(t.elems);
    }
  }

  lemma {:induction false} ListFreeAllLeavesNoNil(es: seq<Term>)
    ensures (forall e | e in es :: ListFree(e)) <==> UnreadNilsAll(es) == Some(0)
    decreases es, 0
  {
    hide ListFree, UnreadNils;
    if es != [] {
      ListFreeLeavesNoNil(es[0]);
      ListFreeAllLeavesNoNil(es[1..]);
      assert forall e :: e in es <==> e == es[0] || e in es[1..];
    }
  }

  /** The wildcard takes exactly one whole encoding if and only if the term holds no list. */
  lemma AnyTakesWholeTermExactlyWhenListFree(t: Term, s: Bytes)
    requires Fits(t)
    ensures AnyRead(Encode(t) + s) == Ok((), s) <==> ListFree(t)
  {
    hide Encode, AnyRead, UnreadNils, ListFree, Fits;
    AnyReadEncoded(t, s);
    ListFreeLeavesNoNil(t);
    if UnreadNils(t).Some? {
      assert |Nils(UnreadNils(t).value) + s| == UnreadNils(t).value + |s|;
      assert Nils(0) + s == s;
    }
  }
}
