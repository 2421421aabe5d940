/** The leaf grammars are the exact inverses of the leaf generators. */
module LeafCodec {
  import opened ByteCodec
  import opened Parsing
  import opened Terms

  // ---------- Generator, then parser ----------

  lemma AtomOn(name: Bytes, s: Bytes)
    requires |name| < 0x1_0000
    ensures ParseAtom(EncodeAtom(name) + s) == Ok(name, s)
  {
    hide Be16, ParseTag, ParseByte, Parse16, Parse32, ParseRepeat;
    var r := Be16(|name|) + (name + s);
    Assoc3([ATOM_EXT], Be16(|name|), name, s);
    TagOn(ATOM_EXT, r);
    Word16On(|name|, name + s);
    RepeatOn(name, s);
  }

  lemma PidNumbersOn(node: Bytes, id: uint32, serial: uint32, creation: byte, s: Bytes)
    requires |node| < 0x1_0000
    ensures ParsePidNumbers(node, Be32(id) + (Be32(serial) + ([creation] + s))) ==
            Ok(Pid(node, id, serial, creation), s)
  {
    hide Be32, ParseTag, ParseByte, Parse16, Parse32, ParseRepeat;
    Word32On(id, Be32(serial) + ([creation] + s));
    Word32On(serial, [creation] + s);
    ByteOn(creation, s);
  }

  lemma PidOn(p: Pid, s: Bytes)
    requires PidFits(p)
    ensures ParsePid(EncodePid(p) + s) == Ok(p, s)
  {
    hide Be32, EncodeAtom, ParseAtom, ParsePidNumbers, ParseTag, ParseByte, Parse16, Parse32, ParseRepeat;
    var r := Be32(p.id) + (Be32(p.serial) + ([p.creation as byte] + s));
    Assoc5([PID], EncodeAtom(p.node), Be32(p.id), Be32(p.serial), [p.creation % 0x100], s);
    TagOn(PID, EncodeAtom(p.node) + r);
    AtomOn(p.node, r);
    PidNumbersOn(p.node, p.id, p.serial, p.creation, s);
  }

  lemma RefBodyOn(n: uint16, node: Bytes, creation: byte, id: Bytes, s: Bytes)
    requires |node| < 0x1_0000 && |id| == 4 * n
    ensures ParseRefBody(n, EncodeAtom(node) + ([creation] + (id + s))) == Ok(Ref(node, creation, id), s)
  {
    hide EncodeAtom, ParseAtom, ParseTag, ParseByte, Parse16, Parse32, ParseRepeat;
    AtomOn(node, [creation] + (id + s));
    ByteOn(creation, id + s);
    RepeatOn(id, s);
  }

  lemma RefOn(ref: Ref, s: Bytes)
    requires RefFits(ref)
    ensures ParseRef(EncodeRef(ref) + s) == Ok(ref, s)
  {
    hide Be16, EncodeAtom, ParseAtom, ParseRefBody, ParseTag, ParseByte, Parse16, Parse32, ParseRepeat;
    var n := |ref.id| / 4;
    var r := EncodeAtom(ref.node) + ([ref.creation as byte] + (ref.id + s));
    Assoc5([NEW_REFERENCE_EXT], Be16(n), EncodeAtom(ref.node), [ref.creation % 0x100], ref.id, s);
    TagOn(NEW_REFERENCE_EXT, Be16(n) + r);
    Word16On(n, r);
    RefBodyOn(n, ref.node, ref.creation, ref.id, s);
  }

  /** The second layout the grammars accept: four-byte integers and bit-strings, whatever the value. */
  function LongForm(l: Leaf): Bytes {
    match l
    case Int(v) => [INTEGER] + Be32(v % 0x1_0000_0000)
    case Bin(padding, value) => [BIT_BINARY_EXT] + Be32(|value|) + [padding % 0x100] + value
    case _ => EncodeLeaf(l)
  }

  lemma LongIntOn(v: int32, s: Bytes)
    ensures ParseInt(LongForm(Int(v)) + s) == Ok(v, s)
  {
    hide Be32, ParseTag, ParseByte, Parse16, Parse32, ParseRepeat;
    var w := Be32(v % 0x1_0000_0000);
    assert LongForm(Int(v)) + s == [INTEGER] + (w + s);
    TagOn(INTEGER, w + s);
    Word32On(v % 0x1_0000_0000, s);
  }

  lemma BitStringOn(padding: byte, value: Bytes, s: Bytes)
    requires |value| < 0x1_0000_0000
    ensures ParseBin(LongForm(Bin(padding, value)) + s) == Ok(Bin(padding, value), s)
  {
    hide Be32, ParseTag, ParseByte, Parse16, Parse32, ParseRepeat;
    var r := [padding] + (value + s);
    Assoc4([BIT_BINARY_EXT], Be32(|value|), [padding % 0x100], value, s);
    TagOn(BIT_BINARY_EXT, Be32(|value|) + r);
    Word32On(|value|, r);
    ByteOn(padding, value + s);
    RepeatOn(value, s);
    assert LongForm(Bin(padding, value)) + s == [BIT_BINARY_EXT] + (Be32(|value|) + r);
  }

  lemma BinaryOn(value: Bytes, s: Bytes)
    requires |value| < 0x1_0000_0000
    ensures ParseBin(EncodeLeaf(Bin(0, value)) + s) == Ok(Bin(0, value), s)
  {
    hide Be32, Parse32, ParseRepeat;
    var b := EncodeLeaf(Bin(0, value)) + s;
    var r := Be32(|value|) + (value + s);
    Assoc3([BINARY_EXT], Be32(|value|), value, s);
    assert b[1..] == r;
    Word32On(|value|, value + s);
    RepeatOn(value, s);
  }

  lemma StrOn(chars: Bytes, s: Bytes)
    requires |chars| < 0x1_0000
    ensures ParseStr(EncodeLeaf(Str(chars)) + s) == Ok(chars, s)
  {
    hide Be16, ParseTag, ParseByte, Parse16, Parse32, ParseRepeat;
    var r := Be16(|chars|) + (chars + s);
    Assoc3([STRING_EXT], Be16(|chars|), chars, s);
    TagOn(STRING_EXT, r);
    Word16On(|chars|, chars + s);
    RepeatOn(chars, s);
  }

  lemma FloatOn(text: Bytes, s: Bytes)
    requires |text| == FLOAT_DIGITS
    ensures ParseFloat(EncodeLeaf(Float(text)) + s) == Ok(text, s)
  {
    hide ParseTag, ParseByte, Parse16, Parse32, ParseRepeat;
    assert EncodeLeaf(Float(text)) + s == [FLOAT_EXT] + (text + s);
    TagOn(FLOAT_EXT, text + s);
    RepeatOn(text, s);
  }

  /** Both layouts of a leaf that fits parse back to the leaf, whatever follows. */
  lemma LeafOn(l: Leaf, u: Bytes, s: Bytes)
    requires LeafFits(l)
    requires u == EncodeLeaf(l) || u == LongForm(l)
    ensures ParseLeaf(KindOf(l), u + s) == Ok(l, s)
  {
    hide EncodeAtom, EncodePid, EncodeRef, ParseAtom, ParsePid, ParseRef, ParseBin, ParseStr;
    hide ParseFloat, Be16, Be32, Parse32;
    match l
    case Int(v) =>
      LongIntOn(v, s);
      if u != LongForm(l) {
        assert (u + s)[1..] == [v as byte] + s;
        ByteOn(v, s);
      }
    case Atom(name) => AtomOn(name, s);
    case PidLeaf(p) => PidOn(p, s);
    case RefLeaf(ref) => RefOn(ref, s);
    case Bin(padding, value) =>
      BitStringOn(padding, value, s);
      if u != LongForm(l) {
        BinaryOn(value, s);
      }
    case Str(chars) => StrOn(chars, s);
    case Float(text) => FloatOn(text, s);
  }

  // ---------- Parser, then generator ----------

  lemma AtomFrom(b: Bytes)
    requires ParseAtom(b).Ok?
    ensures b == EncodeAtom(ParseAtom(b).value) + ParseAtom(b).rest
  {
    hide Be16;
    TagFrom(ATOM_EXT, b);
    var r := b[1..];
    Word16From(r);
    var v := ParseAtom(b);
    assert r[2..] == v.value + v.rest;
    Assoc3([ATOM_EXT], Be16(|v.value|), v.value, v.rest);
  }

  lemma PidNumbersFrom(node: Bytes, b: Bytes)
    requires |node| < 0x1_0000 && ParsePidNumbers(node, b).Ok?
    ensures var r := ParsePidNumbers(node, b); var p := r.value;
            p.node == node && b == Be32(p.id) + Be32(p.serial) + [p.creation % 0x100] + r.rest
  {
    hide Be32;
    Word32From(b);
    Word32From(b[4..]);
    ByteFrom(b[4..][4..]);
    var r := ParsePidNumbers(node, b);
    Assoc3(Be32(r.value.id), Be32(r.value.serial), [r.value.creation % 0x100], r.rest);
  }

  lemma PidFrom(b: Bytes)
    requires ParsePid(b).Ok?
    ensures b == EncodePid(ParsePid(b).value) + ParsePid(b).rest
  {
    hide EncodeAtom, ParseAtom, ParsePidNumbers, Be32;
    TagFrom(PID, b);
    AtomFrom(b[1..]);
    var a := ParseAtom(b[1..]);
    PidNumbersFrom(a.value, a.rest);
    var r := ParsePid(b);
    Assoc3(Be32(r.value.id), Be32(r.value.serial), [r.value.creation % 0x100], r.rest);
    Assoc5([PID], EncodeAtom(a.value), Be32(r.value.id), Be32(r.value.serial), [r.value.creation % 0x100], r.rest);
  }

  lemma RefBodyFrom(n: uint16, b: Bytes)
    requires ParseRefBody(n, b).Ok?
    ensures var r := ParseRefBody(n, b); var ref := r.value;
            |ref.id| == 4 * n && b == EncodeAtom(ref.node) + [ref.creation % 0x100] + ref.id + r.rest
  {
    hide EncodeAtom, ParseAtom, ParseRepeat;
    AtomFrom(b);
    var a := ParseAtom(b);
    ByteFrom(a.rest);
    var r := ParseRefBody(n, b);
    RepeatFrom(4 * n, ParseByte(a.rest).rest);
    Assoc3(EncodeAtom(a.value), [r.value.creation % 0x100], r.value.id, r.rest);
  }

  lemma RefFrom(b: Bytes)
    requires ParseRef(b).Ok?
    ensures b == EncodeRef(ParseRef(b).value) + ParseRef(b).rest
  {
    hide EncodeAtom, ParseRefBody, Be16, Parse16;
    TagFrom(NEW_REFERENCE_EXT, b);
    Word16From(b[1..]);
    var n := Parse16(b[1..]);
    RefBodyFrom(n.value, n.rest);
    var r := ParseRef(b);
    Assoc3(EncodeAtom(r.value.node), [r.value.creation % 0x100], r.value.id, r.rest);
    Assoc5([NEW_REFERENCE_EXT], Be16(n.value), EncodeAtom(r.value.node), [r.value.creation % 0x100],
           r.value.id, r.rest);
  }

  lemma IntFrom(b: Bytes)
    requires ParseInt(b).Ok?
    ensures var r := ParseInt(b); b == EncodeLeaf(Int(r.value)) + r.rest || b == LongForm(Int(r.value)) + r.rest
  {
    hide Be32;
    var r := ParseInt(b);
    if b[0] == SMALL_INTEGER {
      ByteFrom(b[1..]);
      assert b == [SMALL_INTEGER] + b[1..];
    } else {
      TagFrom(INTEGER, b);
      Word32From(b[1..]);
      assert Parse32(b[1..]).value == r.value % 0x1_0000_0000;
    }
  }

  lemma BitStringFrom(b: Bytes)
    requires ParseBitString(b).Ok?
    ensures b == LongForm(ParseBitString(b).value) + ParseBitString(b).rest
  {
    hide Be32, ParseRepeat;
    TagFrom(BIT_BINARY_EXT, b);
    Word32From(b[1..]);
    var n := Parse32(b[1..]);
    ByteFrom(n.rest);
    var p := ParseByte(n.rest);
    RepeatFrom(n.value, p.rest);
    var r := ParseBitString(b);
    Assoc4([BIT_BINARY_EXT], Be32(n.value), [p.value], r.value.value, r.rest);
  }

  lemma BinFrom(b: Bytes)
    requires ParseBin(b).Ok?
    ensures var r := ParseBin(b); b == EncodeLeaf(r.value) + r.rest || b == LongForm(r.value) + r.rest
  {
    hide Be32, ParseBitString, ParseRepeat;
    if b[0] == BINARY_EXT {
      Word32From(b[1..]);
      var n := Parse32(b[1..]);
      RepeatFrom(n.value, n.rest);
      var r := ParseBin(b);
      TagFrom(BINARY_EXT, b);
      Assoc3([BINARY_EXT], Be32(n.value), r.value.value, r.rest);
    } else {
      BitStringFrom(b);
    }
  }

  lemma StrFrom(b: Bytes)
    requires ParseStr(b).Ok?
    ensures b == EncodeLeaf(Str(ParseStr(b).value)) + ParseStr(b).rest
  {
    hide Be16;
    TagFrom(STRING_EXT, b);
    var r := b[1..];
    Word16From(r);
    var v := ParseStr(b);
    assert r[2..] == v.value + v.rest;
    Assoc3([STRING_EXT], Be16(|v.value|), v.value, v.rest);
  }

  lemma FloatFrom(b: Bytes)
    requires ParseFloat(b).Ok?
    ensures b == EncodeLeaf(Float(ParseFloat(b).value)) + ParseFloat(b).rest
  {
    TagFrom(FLOAT_EXT, b);
    assert b[1..] == ParseFloat(b).value + ParseFloat(b).rest;
  }

  /** Whatever a leaf grammar accepts is one of the two layouts of the leaf it returns. */
  lemma LeafFrom(k: Kind, b: Bytes)
    requires ParseLeaf(k, b).Ok?
    ensures var r := ParseLeaf(k, b); b == EncodeLeaf(r.value) + r.rest || b == LongForm(r.value) + r.rest
  {
    hide EncodeAtom, EncodePid, EncodeRef, ParseAtom, ParsePid, ParseRef, ParseBin, ParseStr, ParseFloat, ParseInt;
    match k
    case KInt => IntFrom(b);
    case KAtom => AtomFrom(b);
    case KPid => PidFrom(b);
    case KRef => RefFrom(b);
    case KBin => BinFrom(b);
    case KStr => StrFrom(b);
    case KFloat => FloatFrom(b);
  }

  /** A leaf grammar looks only at the bytes it consumes. */
  lemma LeafLocal(k: Kind, b: Bytes, s: Bytes)
    requires ParseLeaf(k, b).Ok?
    ensures var r := ParseLeaf(k, b);
            b == Consumed(b, r.rest) + r.rest && ParseLeaf(k, Consumed(b, r.rest) + s) == Ok(r.value, s)
  {
    hide EncodeLeaf, LongForm, ParseLeaf;
    LeafFrom(k, b);
    var r := ParseLeaf(k, b);
    if b == EncodeLeaf(r.value) + r.rest {
      assert Consumed(b, r.rest) == EncodeLeaf(r.value);
      LeafOn(r.value, EncodeLeaf(r.value), s);
    } else {
      assert Consumed(b, r.rest) == LongForm(r.value);
      LeafOn(r.value, LongForm(r.value), s);
    }
  }

  /**
   * A leaf grammar accepts exactly the layouts of the leaves that fit: it is the inverse, as a
   * relation, of the generator extended with the second layout.
   */
  lemma LeafGrammarIsExact(k: Kind, l: Leaf, b: Bytes, s: Bytes)
    ensures ParseLeaf(k, b) == Ok(l, s) <==>
            LeafFits(l) && KindOf(l) == k && (b == EncodeLeaf(l) + s || b == LongForm(l) + s)
  {
    hide EncodeLeaf, LongForm, ParseLeaf;
    if ParseLeaf(k, b) == Ok(l, s) {
      LeafFrom(k, b);
    }
    if LeafFits(l) && KindOf(l) == k {
      LeafOn(l, EncodeLeaf(l), s);
      LeafOn(l, LongForm(l), s);
    }
  }
}
