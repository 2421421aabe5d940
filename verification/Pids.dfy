/** Allocation of process identifiers: a mixed-radix counter, and the order used for the mailbox map. */
module Pids {
  import opened ByteCodec
  import opened Terms

  const MAX_PID_ID: uint32 := 0x7fff
  const MAX_SERIAL: uint32 := 0x1fff
  const PERIOD := 0x1000_0000

  /** The counter fields after `k` pids have been made, as digits of k + 1. */
  function IdAt(k: nat): uint32 {
    (k + 1) % PERIOD % 0x8000
  }

  function SerialAt(k: nat): uint32 {
    (k + 1) % PERIOD / 0x8000
  }

  /** The k-th pid a node makes, counted from 0. */
  function NthPid(node: Bytes, creation: uint32, k: nat): Pid {
    Pid(node, IdAt(k), SerialAt(k), creation)
  }

  class PidMaker {
    const nodeName: Bytes
    const creation: uint32
    var pidId: uint32
    var serial: uint32
    ghost var made: nat

    ghost predicate Valid()
      reads this
    {
      pidId == IdAt(made) && serial == SerialAt(made)
    }

    constructor (nodeName: Bytes, creation: uint32)
      ensures Valid() && made == 0 && this.nodeName == nodeName && this.creation == creation
    {
      this.nodeName, this.creation := nodeName, creation;
      pidId, serial, made := 1, 0, 0;
    }

    method MakePid() returns (p: Pid)
      requires Valid()
      modifies this
      ensures Valid() && made == old(made) + 1
      ensures p == NthPid(nodeName, creation, old(made))
    {
      p := Pid(nodeName, pidId, serial, creation);
      UpdatePidFields();
    }

    method UpdatePidFields()
      requires Valid()
      modifies this
      ensures Valid() && made == old(made) + 1
    {
      hide IdAt, SerialAt;
      DigitsStep(made);
      var id := pidId + 1;
      if id > MAX_PID_ID {
        pidId := 0;
        serial := if serial + 1 > MAX_SERIAL then 0 else serial + 1;
      } else {
        pidId := id;
      }
      made := made + 1;
    }
  }

  /** Counting up by one, digit by digit, with both wrap-arounds. */
  lemma DigitsStep(k: nat)
    ensures IdAt(k) <= MAX_PID_ID && SerialAt(k) <= MAX_SERIAL
    ensures IdAt(k + 1) == if IdAt(k) == MAX_PID_ID then 0 else IdAt(k) + 1
    ensures SerialAt(k + 1) == if IdAt(k) < MAX_PID_ID then SerialAt(k)
                               else if SerialAt(k) == MAX_SERIAL then 0 else SerialAt(k) + 1
  {
    var n := (k + 1) % PERIOD;
    assert (k + 2) % PERIOD == if n + 1 == PERIOD then 0 else n + 1 by { NextResidue(k + 1); }
    assert n == n / 0x8000 * 0x8000 + n % 0x8000;
    if n % 0x8000 == 0x7fff {
      assert n + 1 == (n / 0x8000 + 1) * 0x8000;
    }
  }

  lemma NextResidue(m: nat)
    ensures (m + 1) % PERIOD == if m % PERIOD + 1 == PERIOD then 0 else m % PERIOD + 1
  {
    var q, r := m / PERIOD, m % PERIOD;
    assert m + 1 == q * PERIOD + (r + 1);
    if r + 1 == PERIOD {
      assert m + 1 == (q + 1) * PERIOD;
    }
  }

  // ---------- Freshness ----------

  /** The two digits determine the residue. */
  lemma SameDigits(j: nat, k: nat)
    ensures IdAt(j) == IdAt(k) && SerialAt(j) == SerialAt(k) <==> (j + 1) % PERIOD == (k + 1) % PERIOD
  {
    var m, n := (j + 1) % PERIOD, (k + 1) % PERIOD;
    assert m == m / 0x8000 * 0x8000 + m % 0x8000 && n == n / 0x8000 * 0x8000 + n % 0x8000;
  }

  lemma SameResidue(j: nat, k: nat)
    requires j <= k
    ensures (j + 1) % PERIOD == (k + 1) % PERIOD <==> (k - j) % PERIOD == 0
  {
    var q, r, d := (j + 1) / PERIOD, (j + 1) % PERIOD, k - j;
    var x, y := d / PERIOD, d % PERIOD;
    assert j + 1 == q * PERIOD + r && d == x * PERIOD + y;
    assert k + 1 == (q + x) * PERIOD + (r + y);
    if r + y < PERIOD {
      assert (k + 1) % PERIOD == r + y;
    } else {
      assert k + 1 == (q + x + 1) * PERIOD + (r + y - PERIOD);
      assert (k + 1) % PERIOD == r + y - PERIOD;
    }
  }

  /** Two pids of a node are the same exactly when a whole number of periods lies between them. */
  lemma PidsRepeatExactlyWhen(node: Bytes, creation: uint32, j: nat, k: nat)
    requires j <= k
    ensures NthPid(node, creation, j) == NthPid(node, creation, k) <==> (k - j) % PERIOD == 0
  {
    hide IdAt, SerialAt;
    SameDigits(j, k);
    SameResidue(j, k);
  }

  /** Any 2^28 consecutive pids are distinct. */
  lemma ConsecutivePidsDiffer(node: Bytes, creation: uint32, j: nat, k: nat)
    requires j < k < j + PERIOD
    ensures NthPid(node, creation, j) != NthPid(node, creation, k)
  {
    hide NthPid;
    PidsRepeatExactlyWhen(node, creation, j, k);
  }

  // ---------- The order ----------

  /** `operator<` on pids. */
  predicate Less(p: Pid, q: Pid) {
    p.id < q.id || p.serial < q.serial
  }

  lemma FirstPids(k: nat)
    requires k < 0x8000
    ensures if k < 0x7fff then IdAt(k) == k + 1 && SerialAt(k) == 0 else IdAt(k) == 0 && SerialAt(k) == 1
  {
  }

  /** On the first 0x7fff pids the order is the order in which they were made. */
  lemma OrderOfFirstPids(node: Bytes, creation: uint32, j: nat, k: nat)
    requires j < 0x7fff && k < 0x7fff
    ensures Less(NthPid(node, creation, j), NthPid(node, creation, k)) <==> j < k
  {
    hide IdAt, SerialAt;
    FirstPids(j);
    FirstPids(k);
  }

  /** Two pids are each less than the other exactly when ids and serials are ordered oppositely. */
  lemma LessBothWaysExactlyWhen(p: Pid, q: Pid)
    ensures Less(p, q) && Less(q, p) <==> (p.id < q.id && q.serial < p.serial) || (q.id < p.id && p.serial < q.serial)
  {
  }

  ghost predicate StrictTotalOrder(node: Bytes, creation: uint32, n: nat) {
    && (forall j | 0 <= j < n :: !Less(NthPid(node, creation, j), NthPid(node, creation, j)))
    && (forall j, k | 0 <= j < k < n ::
          Less(NthPid(node, creation, j), NthPid(node, creation, k))
          != Less(NthPid(node, creation, k), NthPid(node, creation, j)))
    && (forall i, j, k | 0 <= i < n && 0 <= j < n && 0 <= k < n ::
          Less(NthPid(node, creation, i), NthPid(node, creation, j))
          && Less(NthPid(node, creation, j), NthPid(node, creation, k))
          ==> Less(NthPid(node, creation, i), NthPid(node, creation, k)))
  }

  /** The order is a strict total order on the first n pids exactly when their serials are all 0. */
  lemma StrictTotalOrderExactlyWhen(node: Bytes, creation: uint32, n: nat)
    ensures StrictTotalOrder(node, creation, n) <==> n <= 0x7fff
  {
    hide NthPid, Less;
    if n <= 0x7fff {
      forall j, k | 0 <= j < n && 0 <= k < n
        ensures Less(NthPid(node, creation, j), NthPid(node, creation, k)) <==> j < k
      {
        OrderOfFirstPids(node, creation, j, k);
      }
    } else {
      LessBothWays(node, creation);
      assert 0 <= 0 < 0x7fff < n;
    }
  }

  lemma LessBothWays(node: Bytes, creation: uint32)
    ensures Less(NthPid(node, creation, 0), NthPid(node, creation, 0x7fff))
    ensures Less(NthPid(node, creation, 0x7fff), NthPid(node, creation, 0))
  {
    hide IdAt, SerialAt;
    FirstPids(0);
    FirstPids(0x7fff);
  }
}
