/** Bidirectional links between processes, kept as a list of ordered pairs that stands for a set of unordered ones. */
module Linker {
  import opened ByteCodec
  import opened Terms

  type Pair = (Pid, Pid)

  function Mirror(e: Pair): Pair {
    (e.1, e.0)
  }

  predicate Mentions(e: Pair, p: Pid) {
    e.0 == p || e.1 == p
  }

  /** `list::remove`: every element equal to `e` goes, the others keep their order. */
  function Remove(links: seq<Pair>, e: Pair): seq<Pair> {
    if links == [] then []
    else if links[0] == e then Remove(links[1..], e)
    else [links[0]] + Remove(links[1..], e)
  }

  function Without(links: seq<Pair>, p: Pid, q: Pid): seq<Pair> {
    Remove(Remove(links, (p, q)), (q, p))
  }

  function Linked(links: seq<Pair>, p: Pid, q: Pid): seq<Pair> {
    Without(links, p, q) + [(p, q)]
  }

  /** The links that do not mention `p`, in order. */
  function Keep(links: seq<Pair>, p: Pid): seq<Pair> {
    if links == [] then []
    else if Mentions(links[0], p) then Keep(links[1..], p)
    else [links[0]] + Keep(links[1..], p)
  }

  function Partner(e: Pair, p: Pid): Pid {
    if e.0 == p then e.1 else e.0
  }

  /** The other ends of the links that mention `p`, in order. */
  function Partners(links: seq<Pair>, p: Pid): seq<Pid> {
    if links == [] then []
    else if Mentions(links[0], p) then [Partner(links[0], p)] + Partners(links[1..], p)
    else Partners(links[1..], p)
  }

  class Linker {
    var establishedLinks: seq<Pair>

    constructor ()
      ensures establishedLinks == []
    {
      establishedLinks := [];
    }

    method Link(from: Pid, to: Pid)
      modifies this
      ensures establishedLinks == Linked(old(establishedLinks), from, to)
    {
      RemoveLinkBetween(from, to);
      establishedLinks := establishedLinks + [(from, to)];
    }

    method Unlink(from: Pid, to: Pid)
      modifies this
      ensures establishedLinks == Without(old(establishedLinks), from, to)
    {
      RemoveLinkBetween(from, to);
    }

    method RemoveLinkBetween(p: Pid, q: Pid)
      modifies this
      ensures establishedLinks == Without(old(establishedLinks), p, q)
    {
      establishedLinks := Remove(establishedLinks, (p, q));
      establishedLinks := Remove(establishedLinks, (q, p));
    }

    /** One pass with an iterator; erasing moves the iterator to the next element. */
    method RemoveLinksFrom(dying: Pid) returns (removed: seq<Pid>)
      modifies this
      ensures removed == Partners(old(establishedLinks), dying)
      ensures establishedLinks == Keep(old(establishedLinks), dying)
    {
      removed := [];
      var i := 0;
      while i < |establishedLinks|
        invariant 0 <= i <= |establishedLinks|
        invariant removed + Partners(establishedLinks[i..], dying) == Partners(old(establishedLinks), dying)
        invariant establishedLinks[..i] + Keep(establishedLinks[i..], dying) == Keep(old(establishedLinks), dying)
        decreases |establishedLinks| - i
      {
        var e := establishedLinks[i];
        var rest := establishedLinks[i + 1..];
        assert establishedLinks[i..][1..] == rest;
        if dying == e.0 {
          removed := removed + [e.1];
          establishedLinks := establishedLinks[..i] + rest;
          assert establishedLinks[i..] == rest;
        } else if dying == e.1 {
          removed := removed + [e.0];
          establishedLinks := establishedLinks[..i] + rest;
          assert establishedLinks[i..] == rest;
        } else {
          assert establishedLinks[..i + 1] == establishedLinks[..i] + [e];
          i := i + 1;
        }
      }
      assert establishedLinks[..i] == establishedLinks && establishedLinks[i..] == [];
    }
  }

  // ---------- The relation a list stands for ----------

  /** No pair stands in the list twice, nor together with its mirror. */
  ghost predicate NoRepeats(links: seq<Pair>) {
    forall i, j | 0 <= i < j < |links| :: links[i] != links[j] && links[i] != Mirror(links[j])
  }

  function Unordered(e: Pair): set<Pid> {
    {e.0, e.1}
  }

  /** The unordered pairs. */
  ghost function Relation(links: seq<Pair>): set<set<Pid>> {
    set e | e in links :: Unordered(e)
  }

  lemma SameUnordered(d: Pair, e: Pair)
    ensures Unordered(d) == Unordered(e) <==> d == e || d == Mirror(e)
  {
    if Unordered(d) == Unordered(e) {
      assert d.0 in Unordered(e) && d.1 in Unordered(e) && e.0 in Unordered(d) && e.1 in Unordered(d);
    }
  }

  lemma {:induction false} InRemove(links: seq<Pair>, e: Pair, x: Pair)
    ensures x in Remove(links, e) <==> x in links && x != e
  {
    if links != [] {
      InRemove(links[1..], e, x);
    }
  }

  lemma {:induction false} RemoveKeepsNoRepeats(links: seq<Pair>, e: Pair)
    requires NoRepeats(links)
    ensures NoRepeats(Remove(links, e))
  {
    if links != [] {
      var rest := links[1..];
      RemoveKeepsNoRepeats(rest, e);
      HeadIsNew(links);
      InRemove(rest, e, links[0]);
      InRemove(rest, e, Mirror(links[0]));
      if links[0] != e {
        Prepend(links[0], Remove(rest, e));
      }
    }
  }

  lemma HeadIsNew(links: seq<Pair>)
    requires NoRepeats(links) && links != []
    ensures links[0] !in links[1..] && Mirror(links[0]) !in links[1..]
  {
    forall j | 0 <= j < |links| - 1 ensures links[1..][j] != links[0] && links[1..][j] != Mirror(links[0]) {
      assert links[1..][j] == links[j + 1];
    }
  }

  lemma Prepend(e: Pair, links: seq<Pair>)
    requires NoRepeats(links) && e !in links && Mirror(e) !in links
    ensures NoRepeats([e] + links)
  {
    var all := [e] + links;
    forall i, j | 0 <= i < j < |all| ensures all[i] != all[j] && all[i] != Mirror(all[j]) {
      assert all[j] == links[j - 1] && links[j - 1] in links;
      if i > 0 {
        assert all[i] == links[i - 1];
      }
    }
  }

  lemma Append(links: seq<Pair>, e: Pair)
    requires NoRepeats(links) && e !in links && Mirror(e) !in links
    ensures NoRepeats(links + [e])
  {
    forall i | 0 <= i < |links| ensures links[i] != e && links[i] != Mirror(e) {
      assert links[i] in links;
    }
  }

  lemma InRelation(links: seq<Pair>, e: Pair)
    ensures Unordered(e) in Relation(links) <==> e in links || Mirror(e) in links
  {
    hide Unordered;
    if Unordered(e) in Relation(links) {
      var d :| d in links && Unordered(d) == Unordered(e);
      SameUnordered(d, e);
    }
    SameUnordered(Mirror(e), e);
  }

  // ---------- Each operation on the list is the operation on the relation ----------

  lemma InWithout(links: seq<Pair>, p: Pid, q: Pid, x: Pair)
    ensures x in Without(links, p, q) <==> x in links && Unordered(x) != Unordered((p, q))
  {
    hide Unordered;
    InRemove(links, (p, q), x);
    InRemove(Remove(links, (p, q)), (q, p), x);
    SameUnordered(x, (p, q));
  }

  lemma UnlinkRefines(links: seq<Pair>, p: Pid, q: Pid)
    requires NoRepeats(links)
    ensures NoRepeats(Without(links, p, q)) && Relation(Without(links, p, q)) == Relation(links) - {{p, q}}
  {
    hide NoRepeats, Without, Unordered;
    assert NoRepeats(Without(links, p, q)) by { WithoutKeepsNoRepeats(links, p, q); }
    assert Unordered((p, q)) == {p, q} by { UnorderedIs(p, q); }
    forall x ensures x in Without(links, p, q) <==> x in links && Unordered(x) != {p, q} {
      InWithout(links, p, q, x);
    }
  }

  lemma UnorderedIs(p: Pid, q: Pid)
    ensures Unordered((p, q)) == {p, q}
  {
  }

  lemma WithoutKeepsNoRepeats(links: seq<Pair>, p: Pid, q: Pid)
    requires NoRepeats(links)
    ensures NoRepeats(Without(links, p, q))
  {
    hide NoRepeats, Remove;
    RemoveKeepsNoRepeats(links, (p, q));
    RemoveKeepsNoRepeats(Remove(links, (p, q)), (q, p));
  }

  lemma LinkRefines(links: seq<Pair>, p: Pid, q: Pid)
    requires NoRepeats(links)
    ensures NoRepeats(Linked(links, p, q)) && Relation(Linked(links, p, q)) == Relation(links) + {{p, q}}
  {
    hide NoRepeats, Without, Unordered;
    UnlinkRefines(links, p, q);
    UnorderedIs(p, q);
    SameUnordered((q, p), (p, q));
    InWithout(links, p, q, (p, q));
    InWithout(links, p, q, (q, p));
    Append(Without(links, p, q), (p, q));
    RelationOfAppend(Without(links, p, q), (p, q));
  }

  lemma RelationOfAppend(links: seq<Pair>, e: Pair)
    ensures Relation(links + [e]) == Relation(links) + {Unordered(e)}
  {
    hide Unordered;
    forall x ensures x in links + [e] <==> x in links || x == e {
    }
    assert e in links + [e];
  }

  lemma {:induction false} InKeep(links: seq<Pair>, p: Pid, x: Pair)
    ensures x in Keep(links, p) <==> x in links && !Mentions(x, p)
  {
    if links != [] {
      InKeep(links[1..], p, x);
    }
  }

  lemma {:induction false} KeepKeepsNoRepeats(links: seq<Pair>, p: Pid)
    requires NoRepeats(links)
    ensures NoRepeats(Keep(links, p))
  {
    if links != [] {
      var rest := links[1..];
      KeepKeepsNoRepeats(rest, p);
      HeadIsNew(links);
      InKeep(rest, p, links[0]);
      InKeep(rest, p, Mirror(links[0]));
      if !Mentions(links[0], p) {
        Prepend(links[0], Keep(rest, p));
      }
    }
  }

  lemma BreakRefines(links: seq<Pair>, p: Pid)
    requires NoRepeats(links)
    ensures NoRepeats(Keep(links, p)) && Relation(Keep(links, p)) == set x | x in Relation(links) && p !in x
  {
    hide NoRepeats, Keep;
    KeepKeepsNoRepeats(links, p);
    forall e ensures e in Keep(links, p) <==> e in links && p !in Unordered(e) {
      InKeep(links, p, e);
    }
  }

  // ---------- Who is told ----------

  ghost predicate Distinct(ps: seq<Pid>) {
    forall i, j | 0 <= i < j < |ps| :: ps[i] != ps[j]
  }

  lemma {:induction false} InPartners(links: seq<Pair>, p: Pid, q: Pid)
    ensures q in Partners(links, p) <==> (p, q) in links || (q, p) in links
  {
    if links != [] {
      InPartners(links[1..], p, q);
    }
  }

  /** Every process linked to `p` is among its partners, and exactly once. */
  lemma {:induction false} PartnersExactlyOnce(links: seq<Pair>, p: Pid)
    requires NoRepeats(links)
    ensures Distinct(Partners(links, p))
    ensures forall q :: q in Partners(links, p) <==> {p, q} in Relation(links)
  {
    hide Unordered, Relation;
    forall q ensures q in Partners(links, p) <==> {p, q} in Relation(links) {
      InPartners(links, p, q);
      InRelation(links, (p, q));
      UnorderedIs(p, q);
    }
    if links != [] {
      var rest := links[1..];
      PartnersExactlyOnce(rest, p);
      if Mentions(links[0], p) {
        var q := Partner(links[0], p);
        HeadIsNew(links);
        InPartners(rest, p, q);
        assert Distinct([q] + Partners(rest, p));
      }
    }
  }

  /** Both results go through the list from front to back: nothing is reordered. */
  lemma {:induction false} OrderIsKept(a: seq<Pair>, b: seq<Pair>, p: Pid)
    ensures Keep(a + b, p) == Keep(a, p) + Keep(b, p) && Partners(a + b, p) == Partners(a, p) + Partners(b, p)
  {
    if a == [] {
      assert a + b == b;
    } else {
      assert (a + b)[1..] == a[1..] + b;
      OrderIsKept(a[1..], b, p);
    }
  }

  lemma {:induction false} RemoveKeepsOrder(a: seq<Pair>, b: seq<Pair>, e: Pair)
    ensures Remove(a + b, e) == Remove(a, e) + Remove(b, e)
  {
    if a == [] {
      assert a + b == b;
    } else {
      assert (a + b)[1..] == a[1..] + b;
      RemoveKeepsOrder(a[1..], b, e);
    }
  }

  /** A new link comes last, after the links with other pairs in their order; a single link goes in either direction. */
  lemma NewLinkIsLast(a: seq<Pair>, b: seq<Pair>, x: Pid, y: Pid, p: Pid, q: Pid)
    ensures Linked(a + b, p, q) == Without(a, p, q) + Without(b, p, q) + [(p, q)]
    ensures Without([(x, y)], p, q) == if (x == p && y == q) || (x == q && y == p) then [] else [(x, y)]
  {
    RemoveKeepsOrder(a, b, (p, q));
    RemoveKeepsOrder(Remove(a, (p, q)), Remove(b, (p, q)), (q, p));
    RemoveOne((x, y), (p, q));
    RemoveOne((x, y), (q, p));
  }

  lemma RemoveOne(d: Pair, e: Pair)
    ensures Remove([d], e) == if d == e then [] else [d]
  {
    assert [d][1..] == [];
  }

  /** What happens to a single link. */
  lemma OneLink(x: Pid, y: Pid, p: Pid)
    ensures Keep([(x, y)], p) == (if x == p || y == p then [] else [(x, y)])
    ensures Partners([(x, y)], p) == (if x == p then [y] else if y == p then [x] else [])
  {
  }

  // ---------- Whole runs ----------

  datatype LinkOp = Link(from: Pid, to: Pid) | Unlink(from: Pid, to: Pid) | Break(dying: Pid)

  function Apply(links: seq<Pair>, op: LinkOp): seq<Pair> {
    match op
    case Link(from, to) => Linked(links, from, to)
    case Unlink(from, to) => Without(links, from, to)
    case Break(dying) => Keep(links, dying)
  }

  function After(ops: seq<LinkOp>): seq<Pair> {
    if ops == [] then [] else Apply(After(ops[..|ops| - 1]), ops[|ops| - 1])
  }

  /** The same operations on a symmetric relation. */
  ghost function Meaning(ops: seq<LinkOp>): set<set<Pid>> {
    if ops == [] then {}
    else
      var r := Meaning(ops[..|ops| - 1]);
      match ops[|ops| - 1]
      case Link(from, to) => r + {{from, to}}
      case Unlink(from, to) => r - {{from, to}}
      case Break(dying) => set x | x in r && dying !in x
  }

  lemma {:induction false} SizesAgree(links: seq<Pair>)
    requires NoRepeats(links)
    ensures |Relation(links)| == |links|
  {
    hide Unordered;
    if links != [] {
      var init, e := links[..|links| - 1], links[|links| - 1];
      assert links == init + [e];
      SizesAgree(init);
      RelationOfAppend(init, e);
      InRelation(init, e);
      forall x | x in init ensures x != e && x != Mirror(e) {
      }
    } else {
      assert Relation(links) == {};
    }
  }

  /** Over every run the list holds each unordered pair of the relation once and nothing else. */
  lemma {:induction false} EveryRunRefines(ops: seq<LinkOp>)
    ensures NoRepeats(After(ops)) && Relation(After(ops)) == Meaning(ops) && |After(ops)| == |Meaning(ops)|
  {
    hide NoRepeats, Relation, Linked, Without, Keep;
    if ops == [] {
      EmptyRefines();
    } else {
      var init := ops[..|ops| - 1];
      EveryRunRefines(init);
      match ops[|ops| - 1]
      case Link(from, to) => LinkRefines(After(init), from, to);
      case Unlink(from, to) => UnlinkRefines(After(init), from, to);
      case Break(dying) => BreakRefines(After(init), dying);
    }
    SizesAgree(After(ops));
  }

  lemma EmptyRefines()
    ensures NoRepeats([]) && Relation([]) == {}
  {
  }
}
