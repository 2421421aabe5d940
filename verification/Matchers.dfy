/** The matchers that work by moving an iterator through the buffer and filling a destination. */
module Matchers {
  import opened ByteCodec
  import opened Parsing
  import opened Terms
  import opened TermCodec
  import opened Matching

  /** `erl::any`: the bytes of every matched part are appended, and the whole is handed to the client. */
  class AnyMatcher {
    var matchedRawBytes: Bytes
    var toAssign: Option<Bytes>

    constructor ()
      ensures matchedRawBytes == [] && toAssign == None
    {
      matchedRawBytes := [];
      toAssign := None;
    }

    method SaveMatchedBytes(part: Bytes)
      modifies this`matchedRawBytes
      ensures matchedRawBytes == old(matchedRawBytes) + part
    {
      matchedRawBytes := matchedRawBytes + part;
    }

    /**
     * On success the iterator stands where the wildcard's reading ends, and the saved bytes are
     * exactly the bytes it moved over.
     */
    method Match(buf: Bytes, f: nat) returns (ok: bool, f': nat)
      requires f <= |buf|
      modifies this
      ensures f <= f' <= |buf|
      ensures ok <==> AnyRead(buf[f..]).Ok?
      ensures ok ==> f < f' && buf[f'..] == AnyRead(buf[f..]).rest
      ensures ok ==> matchedRawBytes == old(matchedRawBytes) + buf[f..f']
      ensures toAssign == Some(matchedRawBytes)
      decreases |buf| - f, 2
    {
      ok, f' := MatchDynamically(buf, f);
      toAssign := Some(matchedRawBytes);
    }

    method MatchDynamically(buf: Bytes, f: nat) returns (ok: bool, f': nat)
      requires f <= |buf|
      modifies this
      ensures f <= f' <= |buf|
      ensures ok <==> AnyRead(buf[f..]).Ok?
      ensures ok ==> f < f' && buf[f'..] == AnyRead(buf[f..]).rest
      ensures ok ==> matchedRawBytes == old(matchedRawBytes) + buf[f..f']
      decreases |buf| - f, 1
    {
      hide ParseLeaf, AnyReadAll, FromBe32, KindOfTag;
      ok, f' := false, f;
      if f < |buf| {
        ghost var b := buf[f..];
        if buf[f] == SMALL_TUPLE {
          if f + 2 <= |buf| {
            assert b[1..] == buf[f + 1..] && buf[f + 1..][1..] == buf[f + 2..];
            ok, f' := MatchElements(buf, f, f + 2, buf[f + 1]);
          }
        } else if buf[f] == LIST {
          if f + 5 <= |buf| {
            assert b[1..][..4] == buf[f + 1..f + 5] && b[1..][4..] == buf[f + 5..];
            ok, f' := MatchElements(buf, f, f + 5, FromBe32(buf[f + 1..f + 5]));
          }
        } else {
          var k := KindOfTag(buf[f]);
          if k.Some? {
            ok, f' := MatchLeaf(k.value, buf, f);
          }
        }
      }
    }

    /** The leaf arms: a grammar that succeeds saves what it consumed. */
    method MatchLeaf(k: Kind, buf: Bytes, f: nat) returns (ok: bool, f': nat)
      requires f <= |buf|
      modifies this`matchedRawBytes
      ensures f <= f' <= |buf|
      ensures ok <==> ParseLeaf(k, buf[f..]).Ok?
      ensures ok ==> f < f' && buf[f'..] == ParseLeaf(k, buf[f..]).rest
      ensures ok ==> matchedRawBytes == old(matchedRawBytes) + buf[f..f']
    {
      hide ParseLeaf;
      var r := ParseLeaf(k, buf[f..]);
      ok, f' := r.Ok?, f;
      if ok {
        RestIsSuffix(k, buf, f);
        f' := |buf| - |r.rest|;
        SaveMatchedBytes(buf[f..f']);
      }
    }

    /** The tuple and list arms: save the head, then match `n` elements with this same wildcard. */
    method MatchElements(buf: Bytes, start: nat, f: nat, n: nat) returns (ok: bool, f': nat)
      requires start < f <= |buf|
      modifies this
      ensures f <= f' <= |buf|
      ensures ok <==> AnyReadAll(n, buf[f..]).Ok?
      ensures ok ==> buf[f'..] == AnyReadAll(n, buf[f..]).rest
      ensures ok ==> matchedRawBytes == old(matchedRawBytes) + buf[start..f']
      decreases |buf| - start, 0
    {
      hide AnyRead;
      SaveMatchedBytes(buf[start..f]);
      ok, f' := true, f;
      var i := 0;
      while ok && i < n
        invariant f <= f' <= |buf| && 0 <= i <= n
        invariant ok ==> AnyReadAll(n, buf[f..]) == AnyReadAll(n - i, buf[f'..])
        invariant !ok ==> AnyReadAll(n, buf[f..]).Fail?
        invariant ok ==> matchedRawBytes == old(matchedRawBytes) + buf[start..f']
        decreases ok, n - i
      {
        var g := f';
        ok, f' := Match(buf, g);
        i := i + 1;
        assert ok ==> buf[start..f'] == buf[start..g] + buf[g..f'];
      }
    }
  }

  ghost function Prepend(done: seq<Leaf>, r: Parsed<seq<Leaf>>): Parsed<seq<Leaf>> {
    match r
    case Fail => Fail
    case Ok(ls, rest) => Ok(done + ls, rest)
  }

  lemma PushOne(done: seq<Leaf>, k: Kind, n: nat, b: Bytes)
    requires n > 0
    ensures var r := ParseLeaf(k, b);
            Prepend(done, ParseLeaves(k, n, b)) ==
            if r.Ok? then Prepend(done + [r.value], ParseLeaves(k, n - 1, r.rest)) else Fail
  {
    hide ParseLeaf;
    var r := ParseLeaf(k, b);
    if r.Ok? && ParseLeaves(k, n - 1, r.rest).Ok? {
      var ls := ParseLeaves(k, n - 1, r.rest).value;
      assert done + ([r.value] + ls) == (done + [r.value]) + ls;
    }
  }

  /** The push loop of the assigning list matcher. */
  method PushLeaves(k: Kind, n: nat, buf: Bytes, f: nat) returns (ok: bool, f': nat, dest: seq<Leaf>)
    requires f <= |buf|
    ensures f <= f' <= |buf|
    ensures ok <==> ParseLeaves(k, n, buf[f..]).Ok?
    ensures ok ==> ParseLeaves(k, n, buf[f..]) == Ok(dest, buf[f'..])
  {
    hide ParseLeaf, ParseLeaves;
    ok, f', dest := true, f, [];
    ghost var whole := ParseLeaves(k, n, buf[f..]);
    assert whole == Prepend([], whole) by { assert whole.Ok? ==> [] + whole.value == whole.value; }
    var i := 0;
    while ok && i < n
      invariant f <= f' <= |buf| && 0 <= i <= n
      invariant whole == if ok then Prepend(dest, ParseLeaves(k, n - i, buf[f'..])) else Fail
      decreases ok, n - i
    {
      PushOne(dest, k, n - i, buf[f'..]);
      var r := ParseLeaf(k, buf[f'..]);
      ok := r.Ok?;
      if ok {
        RestIsSuffix(k, buf, f');
        dest := dest + [r.value];
        f' := |buf| - |r.rest|;
      }
      i := i + 1;
    }
    assert ok ==> whole == Ok(dest, buf[f'..]) by { NoLeaves(k, dest, buf[f'..]); }
  }

  lemma NoLeaves(k: Kind, done: seq<Leaf>, b: Bytes)
    ensures Prepend(done, ParseLeaves(k, 0, b)) == Ok(done, b)
  {
    assert done + [] == done;
  }

  lemma RestIsSuffix(k: Kind, buf: Bytes, f: nat)
    requires f <= |buf| && ParseLeaf(k, buf[f..]).Ok?
    ensures var r := ParseLeaf(k, buf[f..]); |r.rest| < |buf| - f && r.rest == buf[|buf| - |r.rest|..]
  {
    hide ParseLeaf;
    LeafCodec.LeafLocal(k, buf[f..], []);
    var r := ParseLeaf(k, buf[f..]).rest;
    assert buf[f..][|buf| - f - |r|..] == buf[|buf| - |r|..];
  }

  /** The assigning list matcher: elements are pushed one by one, then the nil is demanded. */
  method AssignMatchList(k: Kind, buf: Bytes, f: nat) returns (ok: bool, f': nat, dest: seq<Leaf>)
    requires f <= |buf|
    ensures f <= f' <= |buf|
    ensures ok <==> MatchListBind(k, buf[f..]).Ok?
    ensures ok ==> MatchListBind(k, buf[f..]) == Ok(dest, buf[f'..])
  {
    hide ParseLeaves, FromBe32;
    ok, f', dest := false, f, [];
    if f + 5 <= |buf| && buf[f] == LIST {
      assert buf[f..][1..][..4] == buf[f + 1..f + 5] && buf[f..][1..][4..] == buf[f + 5..];
      ok, f', dest := PushLeaves(k, FromBe32(buf[f + 1..f + 5]), buf, f + 5);
      if ok {
        ok := f' < |buf| && buf[f'] == NIL_EXT;
        if ok {
          assert buf[f'..][1..] == buf[f' + 1..];
          f' := f' + 1;
        }
      }
    }
  }

  /** The assigning string matcher: bytes without tags are pushed one by one. */
  method AssignMatchString(buf: Bytes, f: nat) returns (ok: bool, f': nat, dest: Bytes)
    requires f <= |buf|
    ensures f <= f' <= |buf|
    ensures ok <==> ParseStr(buf[f..]).Ok?
    ensures ok ==> ParseStr(buf[f..]) == Ok(dest, buf[f'..])
  {
    hide FromBe16;
    ok, f', dest := false, f, [];
    if f + 3 <= |buf| && buf[f] == STRING_EXT {
      assert buf[f..][1..][..2] == buf[f + 1..f + 3] && buf[f..][1..][2..] == buf[f + 3..];
      var n: nat := FromBe16(buf[f + 1..f + 3]);
      ok, f' := true, f + 3;
      var i := 0;
      while ok && i < n
        invariant 0 <= i <= n
        invariant ok ==> f' == f + 3 + i <= |buf| && dest == buf[f + 3..f']
        invariant !ok ==> |buf| < f + 3 + n && f <= f' <= |buf|
        decreases ok, n - i
      {
        ok := f' < |buf|;
        if ok {
          dest := dest + [buf[f']];
          f' := f' + 1;
        }
        i := i + 1;
      }
      if ok {
        assert buf[f + 3..][..n] == buf[f + 3..f'] && buf[f + 3..][n..] == buf[f'..];
      }
    }
  }
}
