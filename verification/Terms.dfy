/** Erlang terms and their external format: what `serialize` writes and what the grammars read back. */
module Terms {
  import opened ByteCodec
  import opened Parsing

  const BIT_BINARY_EXT: byte := 77
  const SMALL_INTEGER: byte := 97
  const INTEGER: byte := 98
  const FLOAT_EXT: byte := 99
  const ATOM_EXT: byte := 100
  const PID: byte := 103
  const SMALL_TUPLE: byte := 104
  const NIL_EXT: byte := 106
  const STRING_EXT: byte := 107
  const LIST: byte := 108
  const BINARY_EXT: byte := 109
  const NEW_REFERENCE_EXT: byte := 114

  const FLOAT_DIGITS := 31

  datatype Pid = Pid(node: Bytes, id: uint32, serial: uint32, creation: uint32)

  datatype Ref = Ref(node: Bytes, creation: uint32, id: Bytes)

  datatype Leaf =
    | Int(v: int32)
    | Atom(name: Bytes)
    | PidLeaf(pid: Pid)
    | RefLeaf(ref: Ref)
    | Bin(padding: int, value: Bytes)   // a bit-string when padding is not 0
    | Str(chars: Bytes)
    | Float(text: Bytes)                // the decimal text that goes on the wire

  datatype Kind = KInt | KAtom | KPid | KRef | KBin | KStr | KFloat

  datatype Term =
    | Scalar(leaf: Leaf)
    | Tuple(elems: seq<Term>)
    | List(elems: seq<Term>)

  function KindOf(l: Leaf): Kind {
    match l
    case Int(_) => KInt
    case Atom(_) => KAtom
    case PidLeaf(_) => KPid
    case RefLeaf(_) => KRef
    case Bin(_, _) => KBin
    case Str(_) => KStr
    case Float(_) => KFloat
  }

  function KindOfTag(tag: byte): Option<Kind> {
    if tag == SMALL_INTEGER || tag == INTEGER then Some(KInt)
    else if tag == ATOM_EXT then Some(KAtom)
    else if tag == PID then Some(KPid)
    else if tag == NEW_REFERENCE_EXT then Some(KRef)
    else if tag == BINARY_EXT || tag == BIT_BINARY_EXT then Some(KBin)
    else if tag == STRING_EXT then Some(KStr)
    else if tag == FLOAT_EXT then Some(KFloat)
    else None
  }

  // ---------- What fits the format ----------

  predicate PidFits(p: Pid) {
    |p.node| < 0x1_0000 && p.creation < 0x100
  }

  predicate RefFits(r: Ref) {
    |r.node| < 0x1_0000 && r.creation < 0x100 && |r.id| % 4 == 0 && |r.id| / 4 < 0x1_0000
  }

  predicate LeafFits(l: Leaf) {
    match l
    case Int(_) => true
    case Atom(name) => |name| < 0x1_0000
    case PidLeaf(p) => PidFits(p)
    case RefLeaf(r) => RefFits(r)
    case Bin(padding, value) => 0 <= padding < 0x100 && |value| < 0x1_0000_0000
    case Str(chars) => |chars| < 0x1_0000
    case Float(text) => |text| == FLOAT_DIGITS
  }

  /** Every field fits the width the format gives it. */
  predicate Fits(t: Term) {
    match t
    case Scalar(l) => LeafFits(l)
    case Tuple(es) => |es| < 0x100 && forall e | e in es :: Fits(e)
    case List(es) => |es| < 0x1_0000_0000 && forall e | e in es :: Fits(e)
  }

  predicate ListFree(t: Term) {
    match t
    case Scalar(_) => true
    case Tuple(es) => forall e | e in es :: ListFree(e)
    case List(_) => false
  }

  // ---------- Generators ----------

  function EncodeAtom(name: Bytes): Bytes {
    [ATOM_EXT] + Be16(|name|) + name
  }

  function EncodePid(p: Pid): Bytes {
    [PID] + EncodeAtom(p.node) + Be32(p.id) + Be32(p.serial) + [p.creation % 0x100]
  }

  function EncodeRef(r: Ref): Bytes {
    [NEW_REFERENCE_EXT] + Be16(|r.id| / 4) + EncodeAtom(r.node) + [r.creation % 0x100] + r.id
  }

  function EncodeLeaf(l: Leaf): Bytes {
    match l
    case Int(v) => if 0 <= v <= 255 then [SMALL_INTEGER, v] else [INTEGER] + Be32(v % 0x1_0000_0000)
    case Atom(name) => EncodeAtom(name)
    case PidLeaf(p) => EncodePid(p)
    case RefLeaf(r) => EncodeRef(r)
    case Bin(padding, value) =>
      if 0 < padding then [BIT_BINARY_EXT] + Be32(|value|) + [padding % 0x100] + value
      else [BINARY_EXT] + Be32(|value|) + value
    case Str(chars) => [STRING_EXT] + Be16(|chars|) + chars
    case Float(text) => [FLOAT_EXT] + text
  }

  function Encode(t: Term): Bytes
    decreases t, 1
  {
    match t
    case Scalar(l) => EncodeLeaf(l)
    case Tuple(es) => [SMALL_TUPLE, |es| % 0x100] + EncodeAll(es)
    case List(es) => [LIST] + Be32(|es|) + EncodeAll(es) + [NIL_EXT]
  }

  function EncodeAll(es: seq<Term>): Bytes
    decreases es, 0
  {
    if es == [] then [] else Encode(es[0]) + EncodeAll(es[1..])
  }

  // ---------- Parsers ----------

  function ParseAtom(b: Bytes): (r: Parsed<Bytes>)
    ensures r.Ok? ==> |r.rest| < |b| && |r.value| < 0x1_0000 && b[0] == ATOM_EXT
  {
    var (_, b) :- ParseTag(ATOM_EXT, b);
    var (n, b) :- Parse16(b);
    ParseRepeat(n, b)
  }

  function ParsePidNumbers(node: Bytes, b: Bytes): (r: Parsed<Pid>)
    requires |node| < 0x1_0000
    ensures r.Ok? ==> |r.rest| < |b| && PidFits(r.value)
  {
    var (id, b) :- Parse32(b);
    var (serial, b) :- Parse32(b);
    var (creation, b) :- ParseByte(b);
    Ok(Pid(node, id, serial, creation), b)
  }

  function ParsePid(b: Bytes): (r: Parsed<Pid>)
    ensures r.Ok? ==> |r.rest| < |b| && PidFits(r.value) && b[0] == PID
  {
    var (_, b) :- ParseTag(PID, b);
    var (node, b) :- ParseAtom(b);
    ParsePidNumbers(node, b)
  }

  function ParseRefBody(n: uint16, b: Bytes): (r: Parsed<Ref>)
    ensures r.Ok? ==> |r.rest| < |b| && RefFits(r.value)
  {
    var (node, b) :- ParseAtom(b);
    var (creation, b) :- ParseByte(b);
    var (id, b) :- ParseRepeat(n * 4, b);
    Ok(Ref(node, creation, id), b)
  }

  function ParseRef(b: Bytes): (r: Parsed<Ref>)
    ensures r.Ok? ==> |r.rest| < |b| && RefFits(r.value) && b[0] == NEW_REFERENCE_EXT
  {
    var (_, b) :- ParseTag(NEW_REFERENCE_EXT, b);
    var (n, b) :- Parse16(b);
    ParseRefBody(n, b)
  }

  /** Both integer formats; the four-byte one is read as two's complement. */
  function ParseInt(b: Bytes): (r: Parsed<int32>)
    ensures r.Ok? ==> |r.rest| < |b| && (b[0] == SMALL_INTEGER || b[0] == INTEGER)
  {
    if b != [] && b[0] == SMALL_INTEGER then
      var (v, b) :- ParseByte(b[1..]);
      Ok(v, b)
    else
      var (_, b) :- ParseTag(INTEGER, b);
      var (v, b) :- Parse32(b);
      Ok(if v < 0x8000_0000 then v else v - 0x1_0000_0000, b)
  }

  function ParseBitString(b: Bytes): (r: Parsed<Leaf>)
    ensures r.Ok? ==> |r.rest| < |b| && LeafFits(r.value) && r.value.Bin? && b[0] == BIT_BINARY_EXT
  {
    var (_, b) :- ParseTag(BIT_BINARY_EXT, b);
    var (n, b) :- Parse32(b);
    var (padding, b) :- ParseByte(b);
    var (value, b) :- ParseRepeat(n, b);
    Ok(Bin(padding, value), b)
  }

  /** A plain binary, or else a bit-string. */
  function ParseBin(b: Bytes): (r: Parsed<Leaf>)
    ensures r.Ok? ==> |r.rest| < |b| && LeafFits(r.value) && r.value.Bin?
                      && (b[0] == BINARY_EXT || b[0] == BIT_BINARY_EXT)
  {
    if b != [] && b[0] == BINARY_EXT then
      var (n, b) :- Parse32(b[1..]);
      var (value, b) :- ParseRepeat(n, b);
      Ok(Bin(0, value), b)
    else
      ParseBitString(b)
  }

  function ParseStr(b: Bytes): (r: Parsed<Bytes>)
    ensures r.Ok? ==> |r.rest| < |b| && |r.value| < 0x1_0000 && b[0] == STRING_EXT
  {
    var (_, b) :- ParseTag(STRING_EXT, b);
    var (n, b) :- Parse16(b);
    ParseRepeat(n, b)
  }

  function ParseFloat(b: Bytes): (r: Parsed<Bytes>)
    ensures r.Ok? ==> |r.rest| < |b| && |r.value| == FLOAT_DIGITS && b[0] == FLOAT_EXT
  {
    var (_, b) :- ParseTag(FLOAT_EXT, b);
    ParseRepeat(FLOAT_DIGITS, b)
  }

  /** The grammar for one kind of leaf; whatever it reads fits the format and is of that kind. */
  function ParseLeaf(k: Kind, b: Bytes): (r: Parsed<Leaf>)
    ensures r.Ok? ==> |r.rest| < |b|
    ensures r.Ok? ==> LeafFits(r.value) && KindOf(r.value) == k && KindOfTag(b[0]) == Some(k)
  {
    hide ParseInt, ParseAtom, ParsePid, ParseRef, ParseBin, ParseStr, ParseFloat, PidFits, RefFits;
    match k
    case KInt => (match ParseInt(b) case Fail => Fail case Ok(v, rest) => Ok(Int(v), rest))
    case KAtom => (match ParseAtom(b) case Fail => Fail case Ok(v, rest) => Ok(Atom(v), rest))
    case KPid => (match ParsePid(b) case Fail => Fail case Ok(v, rest) => Ok(PidLeaf(v), rest))
    case KRef => (match ParseRef(b) case Fail => Fail case Ok(v, rest) => Ok(RefLeaf(v), rest))
    case KBin => ParseBin(b)
    case KStr => (match ParseStr(b) case Fail => Fail case Ok(v, rest) => Ok(Str(v), rest))
    case KFloat => (match ParseFloat(b) case Fail => Fail case Ok(v, rest) => Ok(Float(v), rest))
  }

  /**
   * A plain decoder, kept apart from the matchers. With `closed` a list must end in nil, as the
   * assigning list matcher demands; without it the nil is left unread, as the wildcard does.
   */
  function Decode(closed: bool, b: Bytes): (r: Parsed<Term>)
    ensures r.Ok? ==> |r.rest| < |b| && Fits(r.value)
    decreases |b|, 0
  {
    if b == [] then Fail
    else if b[0] == SMALL_TUPLE then
      var (n, b) :- ParseByte(b[1..]);
      var (es, b) :- DecodeAll(closed, n, b);
      Ok(Tuple(es), b)
    else if b[0] == LIST then
      var (n, b) :- Parse32(b[1..]);
      var (es, b) :- DecodeAll(closed, n, b);
      if closed then
        var (_, b) :- ParseTag(NIL_EXT, b);
        Ok(List(es), b)
      else
        Ok(List(es), b)
    else
      match KindOfTag(b[0])
      case None => Fail
      case Some(k) => (var (l, b) :- ParseLeaf(k, b); Ok(Scalar(l), b))
  }

  function DecodeAll(closed: bool, n: nat, b: Bytes): (r: Parsed<seq<Term>>)
    ensures r.Ok? ==> |r.rest| <= |b| && |r.value| == n && forall e | e in r.value :: Fits(e)
    decreases |b|, n
  {
    if n == 0 then Ok([], b)
    else
      var (e, b) :- Decode(closed, b);
      var (es, b) :- DecodeAll(closed, n - 1, b);
      Ok([e] + es, b)
  }
}
