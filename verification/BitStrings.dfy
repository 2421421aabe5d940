/** Bit-strings: the constructor clears the unused bits, so that equal bit-strings have equal bytes. */
module BitStrings {
  import opened ByteCodec
  import opened Terms

  function Power(padding: nat): (r: nat)
    requires padding <= 7
    ensures 1 <= r <= 128
  {
    if padding == 0 then 1
    else if padding == 1 then 2
    else if padding == 2 then 4
    else if padding == 3 then 8
    else if padding == 4 then 16
    else if padding == 5 then 32
    else if padding == 6 then 64
    else 128
  }

  lemma PowersOfTwo(padding: nat)
    requires padding <= 7
    ensures Power(padding) == [1, 2, 4, 8, 16, 32, 64, 128][padding]
    ensures padding < 7 ==> Power(padding + 1) == 2 * Power(padding)
  {
  }

  /** A byte with its lowest `padding` bits cleared. */
  function Cleared(b: byte, padding: nat): (r: byte)
    requires padding <= 7
  {
    b - b % Power(padding)
  }

  /** The bits of a bit-string: all bytes but the last, and the used bits of the last. */
  function UsedBits(value: Bytes, padding: nat): (Bytes, Option<int>)
    requires padding <= 7
  {
    if value == [] then ([], None)
    else (value[..|value| - 1], Some(value[|value| - 1] as int / Power(padding)))
  }

  /** The constructor: None when it throws. */
  method MakeBitString(data: Bytes, unused: int) returns (bits: Option<Leaf>)
    ensures bits.None? <==> unused < 0 || unused > 7 || (unused != 0 && data == [])
    ensures bits.Some? ==> bits.value.Bin? && bits.value.padding == unused && |bits.value.value| == |data|
    ensures bits.Some? ==> UsedBits(bits.value.value, unused) == UsedBits(data, unused)
    ensures bits.Some? && data != [] ==> bits.value.value[|data| - 1] as int % Power(unused) == 0
  {
    if unused < 0 || 7 < unused {
      return None;
    }
    if unused != 0 && data == [] {
      return None;
    }
    var value := data;
    if value != [] {
      var last := |value| - 1;
      ClearedBits(value[last], unused);
      value := value[last := Cleared(value[last], unused)];
    }
    bits := Some(Bin(unused, value));
  }

  lemma ClearedBits(b: byte, padding: nat)
    requires padding <= 7
    ensures Cleared(b, padding) as int / Power(padding) == b as int / Power(padding)
    ensures Cleared(b, padding) as int % Power(padding) == 0
  {
  }

  /** Bytes as the constructor leaves them. */
  predicate Normalised(value: Bytes, padding: nat)
    requires padding <= 7
  {
    value != [] ==> value[|value| - 1] as int % Power(padding) == 0
  }

  /** Normalised bit-strings are equal as terms exactly when they have the same padding and the same bits. */
  lemma EqualExactlyWhenSameBits(v: Bytes, p: nat, w: Bytes, q: nat)
    requires p <= 7 && q <= 7 && Normalised(v, p) && Normalised(w, q)
    ensures Bin(p, v) == Bin(q, w) <==> p == q && UsedBits(v, p) == UsedBits(w, q)
  {
    if p == q && UsedBits(v, p) == UsedBits(w, q) && v != [] {
      SameByte(v[|v| - 1], w[|w| - 1], p);
      assert v == v[..|v| - 1] + [v[|v| - 1]] && w == w[..|w| - 1] + [w[|w| - 1]];
    }
  }

  lemma SameByte(a: byte, b: byte, padding: nat)
    requires padding <= 7 && a as int / Power(padding) == b as int / Power(padding)
    requires a as int % Power(padding) == 0 && b as int % Power(padding) == 0
    ensures a == b
  {
  }
}
