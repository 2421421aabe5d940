/** The primitive parsers the grammars are made of, and their relation to the primitive generators. */
module Parsing {
  import opened ByteCodec

  function ParseByte(b: Bytes): (r: Parsed<byte>)
    ensures r.Ok? ==> |r.rest| < |b|
  {
    if b == [] then Fail else Ok(b[0], b[1..])
  }

  function ParseTag(tag: byte, b: Bytes): (r: Parsed<()>)
    ensures r.Ok? ==> |r.rest| < |b| && b[0] == tag
  {
    if b != [] && b[0] == tag then Ok((), b[1..]) else Fail
  }

  function Parse16(b: Bytes): (r: Parsed<uint16>)
    ensures r.Ok? ==> |r.rest| < |b|
  {
    if |b| < 2 then Fail else Ok(FromBe16(b[..2]), b[2..])
  }

  function Parse32(b: Bytes): (r: Parsed<uint32>)
    ensures r.Ok? ==> |r.rest| < |b|
  {
    if |b| < 4 then Fail else Ok(FromBe32(b[..4]), b[4..])
  }

  /** `repeat(n)[byte_]` */
  function ParseRepeat(n: nat, b: Bytes): (r: Parsed<Bytes>)
    ensures r.Ok? ==> |r.value| == n && |r.rest| <= |b|
  {
    if |b| < n then Fail else Ok(b[..n], b[n..])
  }

  // ---------- Each parser on the output of its generator ----------

  lemma TagOn(tag: byte, s: Bytes)
    ensures ParseTag(tag, [tag] + s) == Ok((), s)
  {
    assert ([tag] + s)[1..] == s;
  }

  lemma ByteOn(x: byte, s: Bytes)
    ensures ParseByte([x] + s) == Ok(x, s)
  {
    assert ([x] + s)[1..] == s;
  }

  lemma Word16On(n: nat, s: Bytes)
    ensures Parse16(Be16(n) + s) == Ok(n % 0x1_0000, s)
  {
    Be16RoundTrip(n);
    assert (Be16(n) + s)[..2] == Be16(n) && (Be16(n) + s)[2..] == s;
  }

  lemma Word32On(n: nat, s: Bytes)
    ensures Parse32(Be32(n) + s) == Ok(n % 0x1_0000_0000, s)
  {
    Be32RoundTrip(n);
    assert (Be32(n) + s)[..4] == Be32(n) && (Be32(n) + s)[4..] == s;
  }

  lemma RepeatOn(v: Bytes, s: Bytes)
    ensures ParseRepeat(|v|, v + s) == Ok(v, s)
  {
    assert (v + s)[..|v|] == v && (v + s)[|v|..] == s;
  }

  // ---------- What each parser accepted, generated again ----------

  lemma TagFrom(tag: byte, b: Bytes)
    requires ParseTag(tag, b).Ok?
    ensures b == [tag] + ParseTag(tag, b).rest
  {
  }

  lemma ByteFrom(b: Bytes)
    requires ParseByte(b).Ok?
    ensures b == [ParseByte(b).value] + ParseByte(b).rest
  {
  }

  lemma RepeatFrom(n: nat, b: Bytes)
    requires ParseRepeat(n, b).Ok?
    ensures b == ParseRepeat(n, b).value + ParseRepeat(n, b).rest
  {
  }

  lemma Word16From(b: Bytes)
    requires Parse16(b).Ok?
    ensures b == Be16(Parse16(b).value) + Parse16(b).rest
  {
    FromBe16RoundTrip(b[..2]);
  }

  lemma Word32From(b: Bytes)
    requires Parse32(b).Ok?
    ensures b == Be32(Parse32(b).value) + Parse32(b).rest
  {
    FromBe32RoundTrip(b[..4]);
  }
}
