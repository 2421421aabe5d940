/**
 * Streaming MD5 (RFC 1321): block buffering, the 64-bit bit count kept in two words, and padding.
 * The 64-step compression of one block is a parameter.
 */
module Md5 {
  import opened ByteCodec
  import Endpoint

  const WORD := 0x1_0000_0000
  const BLOCK := 64

  datatype Words = Words(a: uint32, b: uint32, c: uint32, d: uint32)

  type Compress = (Words, Bytes) -> Words

  const INIT := Words(0x67452301, 0xefcdab89, 0x98badcfe, 0x10325476)

  // ---------- What the stream computes ----------

  /** The chaining value after all full blocks of `s`. */
  function Absorb(f: Compress, w: Words, s: Bytes): Words
    decreases |s|
  {
    if |s| < BLOCK then w else Absorb(f, f(w, s[..BLOCK]), s[BLOCK..])
  }

  /** The bytes after the last full block. */
  function Tail(s: Bytes): (r: Bytes)
    ensures |r| == |s| % BLOCK
  {
    s[|s| - |s| % BLOCK..]
  }

  function CountLow(n: nat): uint32 {
    8 * n % WORD
  }

  function CountHigh(n: nat): uint32 {
    8 * n / WORD % WORD
  }

  /** The word shifted right by `k` bytes, cut to a byte. */
  function ByteOf(w: uint32, k: nat): byte
    requires k < 4
  {
    if k == 0 then w % 0x100
    else if k == 1 then w / 0x100 % 0x100
    else if k == 2 then w / 0x1_0000 % 0x100
    else w / 0x100_0000 % 0x100
  }

  /** Low-order byte first. */
  function Le32(w: uint32): (r: Bytes)
    ensures |r| == 4
  {
    [ByteOf(w, 0), ByteOf(w, 1), ByteOf(w, 2), ByteOf(w, 3)]
  }

  /** Read back, low-order byte first: the words survive. */
  lemma Le32RoundTrip(w: uint32)
    ensures var b := Le32(w);
            b[0] as int + 0x100 * (b[1] as int) + 0x1_0000 * (b[2] as int) + 0x100_0000 * (b[3] as int) == w
  {
    var h := w / 0x1_0000;
    assert w == h * 0x1_0000 + w % 0x1_0000;
    assert w / 0x100_0000 == h / 0x100;
  }

  /** The loop that writes words out byte by byte. */
  method WriteWords(words: seq<uint32>) returns (out: Bytes)
    ensures |out| == 4 * |words|
    ensures forall j | 0 <= j < |words| :: out[4 * j..4 * j + 4] == Le32(words[j])
  {
    hide ByteOf;
    out := [];
    for i := 0 to 4 * |words|
      invariant |out| == i
      invariant forall j | 0 <= j < i :: out[j] == ByteOf(words[j / 4], j % 4)
    {
      out := out + [ByteOf(words[i / 4], i % 4)];
    }
    forall j | 0 <= j < |words| ensures out[4 * j..4 * j + 4] == Le32(words[j]) {
      assert out[4 * j] == ByteOf(words[j], 0) && out[4 * j + 1] == ByteOf(words[j], 1);
      assert out[4 * j + 2] == ByteOf(words[j], 2) && out[4 * j + 3] == ByteOf(words[j], 3);
    }
  }

  function Zeros(n: nat): (r: Bytes)
    ensures |r| == n
  {
    seq(n, _ => 0)
  }

  /** The length in bits modulo 2^64, low-order word first. */
  function BitLength(n: nat): (r: Bytes)
    ensures |r| == 8
  {
    Le32(CountLow(n)) + Le32(CountHigh(n))
  }

  function ZeroCount(n: nat): nat {
    (55 - n) % BLOCK
  }

  /** The message padded as in sections 3.1 and 3.2 of RFC 1321. */
  function Padded(msg: Bytes): Bytes {
    msg + ([0x80] + Zeros(ZeroCount(|msg|))) + BitLength(|msg|)
  }

  /** The padding is the least that reaches 56 modulo 64, and the padded message ends on a block boundary. */
  lemma PaddingIsMinimal(msg: Bytes, z: nat)
    ensures (|msg| + 1 + ZeroCount(|msg|)) % BLOCK == 56
    ensures (|msg| + 1 + z) % BLOCK == 56 ==> ZeroCount(|msg|) <= z
    ensures |Padded(msg)| % BLOCK == 0
  {
    hide BitLength, Zeros, ZeroCount;
    ReachesFiftySix(|msg|, z);
    var n := |msg| + 1 + ZeroCount(|msg|);
    assert |Padded(msg)| == n + 8;
    assert n + 8 == (n / BLOCK + 1) * BLOCK;
  }

  lemma ReachesFiftySix(n: nat, z: nat)
    ensures (n + 1 + ZeroCount(n)) % BLOCK == 56
    ensures (n + 1 + z) % BLOCK == 56 ==> ZeroCount(n) <= z
  {
    var q, r := n / BLOCK, n % BLOCK;
    var k := if r <= 55 then 55 - r else 119 - r;
    assert 55 - n == (if r <= 55 then -q else -q - 1) * BLOCK + k;
    assert ZeroCount(n) == k;
    assert n + 1 + k == (if r <= 55 then q else q + 1) * BLOCK + 56;
    if z < k {
      assert n + 1 + z == q * BLOCK + (r + 1 + z);
      if r + 1 + z >= BLOCK {
        assert n + 1 + z == (q + 1) * BLOCK + (r + 1 + z - BLOCK);
      }
    }
  }

  /**
   * The padded message byte by byte: the message, 0x80, zeros, and in the last eight bytes the length
   * in bits modulo 2^64, low-order byte first.
   */
  lemma PaddedBytes(msg: Bytes)
    ensures var p := Padded(msg); var n := |p| - 8;
            && |msg| < n && p[..|msg|] == msg && p[|msg|] == 128
            && (forall i | |msg| < i < n :: p[i] == 0)
            && Value8(p[n..]) == 8 * |msg| % 18446744073709551616
  {
    hide BitLength, ZeroCount, Value8;
    var p, z := Padded(msg), ZeroCount(|msg|);
    assert |p| - 8 == |msg| + 1 + z && p[|p| - 8..] == BitLength(|msg|);
    LengthBytes(|msg|);
  }

  /** Eight bytes, low-order first: byte i has the weight 256^i. */
  function Value8(b: Bytes): int
    requires |b| == 8
  {
    b[0] as int + 256 * (b[1] as int) + 65536 * (b[2] as int) + 16777216 * (b[3] as int)
    + 4294967296 * (b[4] as int) + 1099511627776 * (b[5] as int)
    + 281474976710656 * (b[6] as int) + 72057594037927936 * (b[7] as int)
  }

  lemma LengthBytes(n: nat)
    ensures Value8(BitLength(n)) == 8 * n % 18446744073709551616
  {
    hide Le32, CountLow, CountHigh;
    var low, high := Le32(CountLow(n)), Le32(CountHigh(n));
    Le32RoundTrip(CountLow(n));
    Le32RoundTrip(CountHigh(n));
    var b := BitLength(n);
    assert b[0] == low[0] && b[1] == low[1] && b[2] == low[2] && b[3] == low[3];
    assert b[4] == high[0] && b[5] == high[1] && b[6] == high[2] && b[7] == high[3];
    CountsTogether(n);
  }

  /** The two count words together hold the bit length modulo 2^64. */
  lemma CountsTogether(n: nat)
    ensures CountLow(n) + 4294967296 * CountHigh(n) == 8 * n % 18446744073709551616
  {
    var x := 8 * n;
    var q, l := x / WORD, x % WORD;
    var t, h := q / WORD, q % WORD;
    assert x == t * 18446744073709551616 + (h * WORD + l);
    assert 0 <= h * WORD + l < 18446744073709551616;
  }

  /** The initial chaining words of section 3.3 of RFC 1321. */
  lemma InitialWords()
    ensures INIT == Words(1732584193, 4023233417, 2562383102, 271733878)
  {
  }

  /** The digest: the four chaining words, low-order byte first (section 3.5 of RFC 1321). */
  function DigestOf(w: Words): (r: Bytes)
    ensures |r| == 16
  {
    Le32(w.a) + Le32(w.b) + Le32(w.c) + Le32(w.d)
  }

  /** Byte i of the digest belongs to word i / 4 and has the weight 256^(i % 4) in it. */
  lemma DigestBytes(w: Words)
    ensures var d := DigestOf(w);
            && d[0] as int + 256 * (d[1] as int) + 65536 * (d[2] as int) + 16777216 * (d[3] as int) == w.a
            && d[4] as int + 256 * (d[5] as int) + 65536 * (d[6] as int) + 16777216 * (d[7] as int) == w.b
            && d[8] as int + 256 * (d[9] as int) + 65536 * (d[10] as int) + 16777216 * (d[11] as int) == w.c
            && d[12] as int + 256 * (d[13] as int) + 65536 * (d[14] as int) + 16777216 * (d[15] as int) == w.d
  {
    hide Le32;
    Le32RoundTrip(w.a);
    Le32RoundTrip(w.b);
    Le32RoundTrip(w.c);
    Le32RoundTrip(w.d);
  }

  function Hash(f: Compress, msg: Bytes): (r: Bytes)
    ensures |r| == 16
  {
    DigestOf(Absorb(f, INIT, Padded(msg)))
  }

  // ---------- Laws of absorption ----------

  /** Full blocks absorbed first and the rest afterwards give the whole. */
  lemma {:induction false} AbsorbSplit(f: Compress, w: Words, a: Bytes, b: Bytes)
    requires |a| % BLOCK == 0
    ensures Absorb(f, w, a + b) == Absorb(f, Absorb(f, w, a), b)
    decreases |a|
  {
    if a == [] {
      assert a + b == b;
    } else {
      assert (a + b)[..BLOCK] == a[..BLOCK] && (a + b)[BLOCK..] == a[BLOCK..] + b;
      AbsorbSplit(f, f(w, a[..BLOCK]), a[BLOCK..], b);
    }
  }

  /** Block after block, first block first. */
  function Fold(f: Compress, w: Words, blocks: seq<Bytes>): Words {
    if blocks == [] then w else f(Fold(f, w, blocks[..|blocks| - 1]), blocks[|blocks| - 1])
  }

  /** Absorbing is folding the compression over the blocks, and a tail shorter than a block does not matter. */
  lemma {:induction false} AbsorbIsFold(f: Compress, w: Words, blocks: seq<Bytes>, tail: Bytes)
    requires (forall b | b in blocks :: |b| == 64) && |tail| < 64
    ensures Absorb(f, w, Concat(blocks) + tail) == Fold(f, w, blocks) && |Concat(blocks)| == 64 * |blocks|
    decreases |blocks|
  {
    hide Concat, Absorb;
    if blocks == [] {
      ConcatEmpty();
      assert Concat(blocks) + tail == tail;
      AbsorbShort(f, w, tail);
    } else {
      var init, last := blocks[..|blocks| - 1], blocks[|blocks| - 1];
      assert blocks == init + [last];
      AbsorbIsFold(f, w, init, []);
      ConcatAppend(init, last);
      assert Concat(init) + [] == Concat(init);
      Assoc2(Concat(init), last, tail);
      AbsorbSplit(f, w, Concat(init), last + tail);
      FirstBlock(f, Absorb(f, w, Concat(init)), last + tail);
      assert (last + tail)[..64] == last && (last + tail)[64..] == tail;
      AbsorbShort(f, Fold(f, w, blocks), tail);
    }
  }

  /** Appending to a message: its full blocks stay absorbed, and its tail joins the new bytes. */
  lemma AbsorbAppend(f: Compress, w: Words, msg: Bytes, data: Bytes)
    ensures Absorb(f, w, msg + data) == Absorb(f, Absorb(f, w, msg), Tail(msg) + data)
    ensures Tail(msg + data) == Tail(Tail(msg) + data)
  {
    hide Absorb;
    var full := msg[..|msg| - |msg| % BLOCK];
    assert msg == full + Tail(msg);
    AbsorbSplit(f, w, full, Tail(msg));
    AbsorbShort(f, Absorb(f, w, full), Tail(msg));
    assert msg + data == full + (Tail(msg) + data);
    AbsorbSplit(f, w, full, Tail(msg) + data);
    TailOfConcat(full, Tail(msg) + data);
  }

  lemma AbsorbShort(f: Compress, w: Words, s: Bytes)
    requires |s| < BLOCK
    ensures Absorb(f, w, s) == w
  {
  }

  lemma TailOfConcat(a: Bytes, b: Bytes)
    requires |a| % BLOCK == 0
    ensures Tail(a + b) == Tail(b)
  {
    assert |a + b| % BLOCK == |b| % BLOCK;
    var n := |b| - |b| % BLOCK;
    assert (a + b)[|a| + n..] == b[n..];
  }

  // ---------- The bit count ----------

  /** Two-word addition with carry is addition modulo 2^64. */
  lemma CountAdds(len: nat, n: nat)
    ensures CountLow(len + n) == (CountLow(len) + CountLow(n)) % WORD
    ensures var low := CountLow(len + n); var carry := if low < CountLow(n) then 1 else 0;
            CountHigh(len + n) == (CountHigh(len) + n / 0x2000_0000 % WORD + carry) % WORD
  {
    var x, y := 8 * len, 8 * n;
    assert 8 * (len + n) == x + y;
    var xl, yl, xh, yh := x % WORD, y % WORD, x / WORD, y / WORD;
    assert yh == n / 0x2000_0000;
    var carry := if xl + yl >= WORD then 1 else 0;
    assert x + y == (xh + yh + carry) * WORD + (xl + yl - carry * WORD);
    assert (x + y) / WORD == xh + yh + carry && (x + y) % WORD == xl + yl - carry * WORD;
    assert (xl + yl) % WORD == xl + yl - carry * WORD;
    ModSum(xh, yh, carry);
  }

  lemma ModSum(x: nat, y: nat, z: nat)
    ensures (x + y + z) % WORD == (x % WORD + y % WORD + z) % WORD
  {
    assert x + y + z == (x / WORD + y / WORD) * WORD + (x % WORD + y % WORD + z);
    ModDrop(x / WORD + y / WORD, x % WORD + y % WORD + z);
  }

  lemma ModDrop(q: nat, r: nat)
    ensures (q * WORD + r) % WORD == r % WORD
  {
    assert q * WORD + r == (q + r / WORD) * WORD + r % WORD;
  }

  /** The buffer offset is read off the low count word. */
  lemma OffsetFromCount(n: nat)
    ensures CountLow(n) / 8 % BLOCK == n % BLOCK
    ensures (55 - CountLow(n) / 8) % BLOCK == ZeroCount(n)
  {
    var q, r := n / 0x2000_0000, n % 0x2000_0000;
    assert 8 * n == q * WORD + 8 * r;
    assert CountLow(n) == 8 * r;
    assert n == BLOCK * (0x80_0000 * q) + r;
    SameModBlock(0x80_0000 * q, r);
  }

  lemma SameModBlock(k: nat, r: nat)
    ensures (BLOCK * k + r) % BLOCK == r % BLOCK
    ensures (55 - (BLOCK * k + r)) % BLOCK == (55 - r) % BLOCK
  {
    var x, y := r / BLOCK, (55 - r) / BLOCK;
    assert BLOCK * k + r == (k + x) * BLOCK + r % BLOCK;
    assert 55 - (BLOCK * k + r) == (y - k) * BLOCK + (55 - r) % BLOCK;
  }

  // ---------- The stream object ----------

  class Md5State {
    const process: Compress
    var count0: uint32
    var count1: uint32
    var abcd: Words
    const buf: array<byte>
    ghost var message: Bytes   // everything appended so far

    ghost predicate Valid()
      reads this, buf
    {
      && buf.Length == BLOCK
      && count0 == CountLow(|message|) && count1 == CountHigh(|message|)
      && abcd == Absorb(process, INIT, message)
      && buf[..|message| % BLOCK] == Tail(message)
    }

    /** `md5_init` */
    constructor (f: Compress)
      ensures Valid() && process == f && message == [] && fresh(buf)
    {
      process := f;
      count0, count1 := 0, 0;
      abcd := INIT;
      buf := new byte[BLOCK];
      message := [];
    }

    /** `memcpy` into the buffer. */
    method CopyIn(at: nat, bytes: Bytes)
      requires at + |bytes| <= buf.Length
      modifies buf
      ensures buf[..at + |bytes|] == old(buf[..at]) + bytes
    {
      forall i | 0 <= i < |bytes| {
        buf[at + i] := bytes[i];
      }
    }

    method UpdateCount(nbytes: nat)
      requires 0 < nbytes < 0x8000_0000
      requires count0 == CountLow(|message|) && count1 == CountHigh(|message|)
      modifies this`count0, this`count1
      ensures count0 == CountLow(|message| + nbytes) && count1 == CountHigh(|message| + nbytes)
    {
      hide CountLow, CountHigh;
      CountAdds(|message|, nbytes);
      var nbits: uint32 := 8 * nbytes % WORD;
      LowOf(nbytes);
      ModInner(count1 + nbytes / 0x2000_0000);
      count1 := (count1 + nbytes / 0x2000_0000) % WORD;
      count0 := (count0 + nbits) % WORD;
      if count0 < nbits {
        count1 := (count1 + 1) % WORD;
      }
    }

    /** The loop over full blocks. */
    method ProcessBlocks(data: Bytes) returns (rest: Bytes)
      modifies this`abcd
      ensures abcd == Absorb(process, old(abcd), data) && rest == Tail(data)
    {
      hide Absorb, Tail;
      rest := data;
      assert rest == data[0..];
      while |rest| >= BLOCK
        invariant Absorb(process, abcd, rest) == Absorb(process, old(abcd), data)
        invariant Tail(rest) == Tail(data)
        decreases |rest|
      {
        FirstBlock(process, abcd, rest);
        abcd := process(abcd, rest[..BLOCK]);
        rest := rest[BLOCK..];
      }
      AbsorbShort(process, abcd, rest);
      TailShort(rest);
    }

    /** `md5_append`; the offset plus the length is computed as an `int`. */
    method Append(data: Bytes)
      requires Valid() && |message| % BLOCK + |data| < 0x8000_0000
      modifies this, buf
      ensures Valid() && message == old(message) + data
    {
      hide Absorb, Tail, CountLow, CountHigh;
      if |data| <= 0 {
        assert message + data == message;
        return;
      }
      OffsetFromCount(|message|);
      AbsorbAppend(process, INIT, message, data);
      var offset := count0 / 8 % BLOCK;
      UpdateCount(|data|);
      ghost var held := Tail(message);
      message := message + data;
      var p := data;
      if offset != 0 {
        var copy := if offset + |data| > 64 then 64 - offset else |data|;
        CopyIn(offset, p[..copy]);
        if offset + copy < 64 {
          assert data[..copy] == data;
          TailShort(held + data);
          AbsorbShort(process, abcd, held + data);
          LengthOfTail(message);
          return;
        }
        BlockOf(process, abcd, held, data, copy);
        assert buf[..] == buf[..64];
        abcd := process(abcd, buf[..]);
        p := p[copy..];
      } else {
        assert held + data == data by { LengthOfTail(old(message)); }
      }
      var left := ProcessBlocks(p);
      LengthOfTail(p);
      LengthOfTail(message);
      if |left| != 0 {
        CopyIn(0, left);
      }
    }

    /** `md5_finish`: save the length, pad, append the length, and write out the chaining words. */
    method Finish() returns (digest: Bytes)
      requires Valid()
      modifies this, buf
      ensures digest == Hash(process, old(message))
    {
      hide Absorb, Tail, CountLow, CountHigh, Le32, Zeros, ZeroCount, DigestOf;
      ghost var msg := message;
      var counts := [count0, count1];
      var length := WriteWords(counts);
      TwoWords(counts, length);
      OffsetFromCount(|message|);
      var zeros: nat := (55 - count0 / 8) % BLOCK;
      Append([0x80] + Zeros(zeros));
      Append(length);
      var words := [abcd.a, abcd.b, abcd.c, abcd.d];
      digest := WriteWords(words);
      FourWords(words, digest);
    }
  }

  lemma TwoWords(words: seq<uint32>, out: Bytes)
    requires |words| == 2 && |out| == 8 && forall j | 0 <= j < 2 :: out[4 * j..4 * j + 4] == Le32(words[j])
    ensures out == Le32(words[0]) + Le32(words[1])
  {
    hide Le32;
    assert out == out[..4] + out[4..8];
  }

  lemma FourWords(words: seq<uint32>, out: Bytes)
    requires |words| == 4 && |out| == 16 && forall j | 0 <= j < 4 :: out[4 * j..4 * j + 4] == Le32(words[j])
    ensures out == DigestOf(Words(words[0], words[1], words[2], words[3]))
  {
    hide Le32;
    assert out == out[..4] + out[4..8] + out[8..12] + out[12..16];
    assert out[..4] == Le32(words[0]) && out[4..8] == Le32(words[1]);
    assert out[8..12] == Le32(words[2]) && out[12..16] == Le32(words[3]);
  }

  lemma LowOf(n: nat)
    ensures CountLow(n) == 8 * n % WORD
    ensures n < 0x8000_0000 ==> n / 0x2000_0000 % WORD == n / 0x2000_0000
  {
  }

  lemma ModInner(x: nat)
    ensures (x % WORD + 1) % WORD == (x + 1) % WORD && (x + 0) % WORD == x % WORD
  {
    ModSum(x, 0, 1);
  }

  lemma LengthOfTail(s: Bytes)
    ensures |Tail(s)| == |s| % BLOCK
  {
  }

  lemma TailShort(s: Bytes)
    requires |s| < BLOCK
    ensures Tail(s) == s
  {
  }

  lemma FirstBlock(f: Compress, w: Words, s: Bytes)
    requires |s| >= BLOCK
    ensures Absorb(f, w, s) == Absorb(f, f(w, s[..BLOCK]), s[BLOCK..])
    ensures Tail(s) == Tail(s[BLOCK..])
  {
    assert s == s[..BLOCK] + s[BLOCK..];
    TailOfConcat(s[..BLOCK], s[BLOCK..]);
  }

  /** The held bytes and the first of the new ones make up a block. */
  lemma BlockOf(f: Compress, w: Words, held: Bytes, data: Bytes, copy: nat)
    requires copy <= |data| && |held| + copy == BLOCK
    ensures Absorb(f, w, held + data) == Absorb(f, f(w, held + data[..copy]), data[copy..])
    ensures Tail(held + data) == Tail(data[copy..])
  {
    hide Absorb, Tail;
    var s := held + data;
    assert s[..BLOCK] == held + data[..copy] && s[BLOCK..] == data[copy..];
    FirstBlock(f, w, s);
  }

  /** The hash the handshake uses. */
  function HashWith(f: Compress): Endpoint.Hash {
    x => Hash(f, x)
  }

  lemma DigestOfChallenge(f: Compress, challenge: uint32, cookie: Bytes)
    ensures Endpoint.Digest(HashWith(f), challenge, cookie) == Hash(f, cookie + Endpoint.Decimal(challenge))
  {
    hide Hash, Endpoint.Decimal;
  }

  /** The part of a text whose size, cut to an `int`, `md5_append` is told about. */
  function ToldTo(text: Bytes): (r: Bytes)
    ensures |text| < 0x8000_0000 ==> r == text
  {
    var size := |text| % WORD;
    if size < 0x8000_0000 then text[..size] else []
  }

  /** `calculate_digest`; a text of 2^31 bytes or more is hashed only in part. */
  method CalculateDigest(process: Compress, challenge: uint32, cookie: Bytes) returns (digest: Bytes)
    ensures digest == Hash(process, ToldTo(cookie + Endpoint.Decimal(challenge)))
    ensures |cookie + Endpoint.Decimal(challenge)| < 0x8000_0000 ==>
              digest == Endpoint.Digest(HashWith(process), challenge, cookie)
  {
    hide Hash, HashWith, Endpoint.Decimal, Endpoint.Digest, Absorb, Tail, CountLow, CountHigh;
    var cs := cookie + Endpoint.Decimal(challenge);
    var told := ToldTo(cs);
    var state := new Md5State(process);
    state.Append(told);
    assert [] + told == told;
    digest := state.Finish();
    DigestOfChallenge(process, challenge, cookie);
  }
}
