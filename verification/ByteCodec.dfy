/** Bytes, fixed-width integers, and the big-endian words used by every wire format of the library. */
module ByteCodec {

  type byte = b: int | 0 <= b < 256
  type Bytes = seq<byte>
  type uint16 = n: int | 0 <= n < 0x1_0000
  type uint32 = n: int | 0 <= n < 0x1_0000_0000
  type int32 = n: int | -0x8000_0000 <= n < 0x8000_0000

  datatype Option<+T> = None | Some(value: T)

  /** What a parser leaves behind: the parsed attribute and the bytes it did not consume. */
  datatype Parsed<+T> = Fail | Ok(value: T, rest: Bytes) {
    predicate IsFailure() {
      Fail?
    }

    function PropagateFailure<U>(): Parsed<U>
      requires Fail?
    {
      Fail
    }

    function Extract(): (T, Bytes)
      requires Ok?
    {
      (value, rest)
    }
  }

  /** Generators truncate their attribute to the width of the word. */
  function Be16(n: nat): (r: Bytes)
    ensures |r| == 2
  {
    [n / 0x100 % 0x100, n % 0x100]
  }

  function Be32(n: nat): (r: Bytes)
    ensures |r| == 4
  {
    Be16(n / 0x1_0000) + Be16(n)
  }

  function FromBe16(b: Bytes): uint16
    requires |b| == 2
  {
    (b[0] as int) * 0x100 + b[1]
  }

  function FromBe32(b: Bytes): uint32
    requires |b| == 4
  {
    (FromBe16(b[..2]) as int) * 0x1_0000 + FromBe16(b[2..])
  }

  lemma Be16RoundTrip(n: nat)
    ensures FromBe16(Be16(n)) == n % 0x1_0000
  {
  }

  lemma Split32(n: nat)
    ensures n % 0x1_0000_0000 == n / 0x1_0000 % 0x1_0000 * 0x1_0000 + n % 0x1_0000
  {
    var h := n / 0x1_0000;
    assert n == h / 0x1_0000 * 0x1_0000_0000 + (h % 0x1_0000 * 0x1_0000 + n % 0x1_0000);
  }

  lemma Be32RoundTrip(n: nat)
    ensures FromBe32(Be32(n)) == n % 0x1_0000_0000
  {
    hide Be16, FromBe16;
    Be16RoundTrip(n / 0x1_0000);
    Be16RoundTrip(n);
    Split32(n);
    assert Be32(n)[..2] == Be16(n / 0x1_0000) && Be32(n)[2..] == Be16(n);
  }

  lemma FromBe16RoundTrip(b: Bytes)
    requires |b| == 2
    ensures Be16(FromBe16(b)) == b
  {
  }

  lemma Be16Mod(n: nat)
    ensures Be16(n) == Be16(n % 0x1_0000)
  {
    var q, m := n / 0x1_0000, n % 0x1_0000;
    assert n == 0x100 * (0x100 * q) + m;
    assert n / 0x100 == 0x100 * q + m / 0x100 && n % 0x100 == m % 0x100;
    assert (0x100 * q + m / 0x100) % 0x100 == m / 0x100 % 0x100;
  }

  lemma FromBe32RoundTrip(b: Bytes)
    requires |b| == 4
    ensures Be32(FromBe32(b)) == b
  {
    hide Be16, FromBe16;
    FromBe16RoundTrip(b[..2]);
    FromBe16RoundTrip(b[2..]);
    var n: nat := FromBe32(b);
    assert n / 0x1_0000 == FromBe16(b[..2]) && n % 0x1_0000 == FromBe16(b[2..]);
    Be16Mod(n);
  }

  /** The bytes a parser that started at `b` and stopped at `rest` has consumed. */
  function Consumed(b: Bytes, rest: Bytes): Bytes
    requires |rest| <= |b|
  {
    b[..|b| - |rest|]
  }

  // Regrouping, stated over plain sequences so that callers need not unfold what they regroup.

  lemma Assoc2(a: Bytes, b: Bytes, s: Bytes)
    ensures a + b + s == a + (b + s)
  {
  }

  lemma Assoc3(a: Bytes, b: Bytes, c: Bytes, s: Bytes)
    ensures a + b + c + s == a + (b + (c + s))
  {
  }

  lemma Assoc4(a: Bytes, b: Bytes, c: Bytes, d: Bytes, s: Bytes)
    ensures a + b + c + d + s == a + (b + (c + (d + s)))
  {
  }

  lemma Assoc5(a: Bytes, b: Bytes, c: Bytes, d: Bytes, e: Bytes, s: Bytes)
    ensures a + b + c + d + e + s == a + (b + (c + (d + (e + s))))
  {
    Assoc4(a, b, c, d, e + s);
    assert a + b + c + d + e + s == a + b + c + d + (e + s);
  }

  function Concat(parts: seq<Bytes>): Bytes {
    if parts == [] then [] else parts[0] + Concat(parts[1..])
  }

  lemma {:induction false} ConcatSplit(a: seq<Bytes>, b: seq<Bytes>)
    ensures Concat(a + b) == Concat(a) + Concat(b)
  {
    if a == [] {
      assert a + b == b;
    } else {
      assert (a + b)[1..] == a[1..] + b;
      ConcatSplit(a[1..], b);
    }
  }

  lemma ConcatEmpty()
    ensures Concat([]) == []
  {
  }

  lemma ConcatPrepend(a: Bytes, b: seq<Bytes>)
    ensures Concat([a] + b) == a + Concat(b)
  {
    assert ([a] + b)[1..] == b;
  }

  lemma ConcatAppend(a: seq<Bytes>, b: Bytes)
    ensures Concat(a + [b]) == Concat(a) + b
  {
    ConcatSplit(a, [b]);
  }
}
