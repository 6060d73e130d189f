/**
 * Which accepted packets the transmit side loses, over every run: the packing loop throws away exactly the
 * packets that cannot be carried under the grant it runs on, and a close discards what is queued.
 */
module TxLoss {
  import opened Bytes
  import opened Wrappers
  import opened BlockRuns
  import opened TxPass
  import opened TxSchedule

  // ---- subsequences ----

  /** a can be had from b by leaving elements out. */
  predicate Subsequence<T(==)>(a: seq<T>, b: seq<T>)
    decreases |b|
  {
    a == [] || (b != [] && ((a[0] == b[0] && Subsequence(a[1..], b[1..])) || Subsequence(a, b[1..])))
  }

  lemma {:induction false} SubsequenceSelf<T>(a: seq<T>)
    ensures Subsequence(a, a)
    decreases |a|
  {
    if a != [] {
      SubsequenceSelf(a[1..]);
    }
  }

  lemma {:induction false} SubsequenceTransitive<T>(a: seq<T>, b: seq<T>, c: seq<T>)
    requires Subsequence(a, b) && Subsequence(b, c)
    ensures Subsequence(a, c)
    decreases |b| + |c|
  {
    if a != [] {
      if Subsequence(b, c[1..]) {
        SubsequenceTransitive(a, b, c[1..]);
      } else if a[0] == b[0] && Subsequence(a[1..], b[1..]) {
        SubsequenceTransitive(a[1..], b[1..], c[1..]);
      } else {
        SubsequenceTransitive(a, b[1..], c[1..]);
      }
    }
  }

  lemma {:induction false} SubsequenceBehind<T>(p: seq<T>, a: seq<T>, b: seq<T>)
    requires Subsequence(a, b)
    ensures Subsequence(p + a, p + b)
    decreases |p|
  {
    if p == [] {
      assert p + a == a && p + b == b;
    } else {
      SubsequenceBehind(p[1..], a, b);
      assert (p + a)[1..] == p[1..] + a && (p + b)[1..] == p[1..] + b;
    }
  }

  lemma {:induction false} SubsequenceBefore<T>(a: seq<T>, b: seq<T>, z: seq<T>)
    requires Subsequence(a, b)
    ensures Subsequence(a + z, b + z)
    decreases |b|
  {
    if a == [] {
      assert a + z == z;
      SubsequenceTail(b, z);
    } else if a[0] == b[0] && Subsequence(a[1..], b[1..]) {
      SubsequenceBefore(a[1..], b[1..], z);
      assert (a + z)[1..] == a[1..] + z && (b + z)[1..] == b[1..] + z;
    } else {
      SubsequenceBefore(a, b[1..], z);
      assert (b + z)[1..] == b[1..] + z;
    }
  }

  lemma {:induction false} SubsequenceTail<T>(b: seq<T>, z: seq<T>)
    ensures Subsequence(z, b + z)
    decreases |b|
  {
    if b == [] {
      assert b + z == z;
      SubsequenceSelf(z);
    } else {
      SubsequenceTail(b[1..], z);
      assert (b + z)[1..] == b[1..] + z;
    }
  }

  lemma SubsequenceHead<T>(a: seq<T>, z: seq<T>)
    ensures Subsequence(a, a + z)
  {
    SubsequenceBehind(a, [], z);
    assert a + [] == a;
  }

  lemma {:induction false} SubsequenceShorter<T>(a: seq<T>, b: seq<T>)
    requires Subsequence(a, b)
    ensures |a| <= |b| && (|a| == |b| ==> a == b)
    decreases |b|
  {
    if a != [] {
      if a[0] == b[0] && Subsequence(a[1..], b[1..]) {
        SubsequenceShorter(a[1..], b[1..]);
        assert a == [a[0]] + a[1..] && b == [b[0]] + b[1..];
      } else {
        SubsequenceShorter(a, b[1..]);
      }
    }
  }

  lemma {:induction false} SubsequenceMembers<T>(a: seq<T>, b: seq<T>, x: T)
    requires Subsequence(a, b) && x in a
    ensures x in b
    decreases |b|
  {
    if a[0] == b[0] && Subsequence(a[1..], b[1..]) {
      if x != a[0] {
        SubsequenceMembers(a[1..], b[1..], x);
      }
    } else {
      SubsequenceMembers(a, b[1..], x);
    }
  }

  lemma {:induction false} CarriedIsSubsequence(kind: byte, q: seq<seq<byte>>, grant: nat)
    ensures Subsequence(Carried(kind, q, grant), q)
    decreases |q|
  {
    if q != [] {
      CarriedIsSubsequence(kind, q[1..], grant);
      var rest := Carried(kind, q[1..], grant);
      assert ([q[0]] + rest)[1..] == rest && [] + rest == rest;
    }
  }

  // ---- one pass ----

  /** The queued packets a data pass goes through. */
  function ConsumedBy(t: Tx): seq<seq<byte>> {
    if !t.HasCredit() || t.Throttled() then [] else t.dataQ[..Reach(TYPE_IP, t.dataQ, t.wr, 0)]
  }

  /** A pass loses a packet: one it goes through cannot be carried under its grant. */
  predicate PassLoses(t: Tx) {
    exists i :: 0 <= i < |ConsumedBy(t)| && !Carriable(TYPE_IP, ConsumedBy(t)[i], t.wr)
  }

  /** A pass takes the carriable ones of the packets it goes through and leaves the others queued. */
  lemma PassTakes(t: Tx)
    ensures t.dataQ == ConsumedBy(t) + TxPassOf(t).tx.dataQ
    ensures TakenBy(t) == Carried(TYPE_IP, ConsumedBy(t), t.wr)
  {
    CommandsLeaveData(SendData(t).tx);
    PackLeavesSuffix(TYPE_IP, t.dataQ, t.wr, []);
    PackTakesCarriable(TYPE_IP, t.dataQ, t.wr, []);
    PackReaches(TYPE_IP, t.dataQ, t.wr, []);
    hide Reach, Pack, SendCmd, Carried;
    assert SendData(t).tx.dataQ
        == if !t.HasCredit() || t.Throttled() then t.dataQ else Pack(TYPE_IP, t.dataQ, t.wr, []).rest;
    assert Carried(TYPE_IP, [], t.wr) == [] by {
      CarriedNone(t.wr);
    }
  }

  lemma CarriedNone(grant: nat)
    ensures Carried(TYPE_IP, [], grant) == []
  {
  }

  lemma CommandsLeaveData(t: Tx)
    ensures SendCmd(t).tx.dataQ == t.dataQ
  {
    hide Pack;
  }

  // ---- every run ----

  /** The packets accepted and neither on the wire nor queued any more. */
  function Lost(s: Sys): int {
    |s.accepted| - |s.packed| - |s.tx.dataQ|
  }

  /** A step loses a packet: its pass goes through one that cannot be carried, or a close finds some queued. */
  predicate Loses(s: Sys, e: Event) {
    if e.DrainData? then s.tx.dataQ != [] else PassOf(s, e).Some? && PassLoses(PassOf(s, e).value)
  }

  predicate LossFree(s: Sys, es: seq<Event>) {
    es == [] || (LossFree(s, es[..|es| - 1]) && !Loses(Exec(s, es[..|es| - 1]), es[|es| - 1]))
  }

  /** What is packed or queued is a subsequence of what was accepted. */
  predicate InTurn(s: Sys) {
    Subsequence(s.packed + s.tx.dataQ, s.accepted)
  }

  lemma RunPassLoss(s: Sys)
    ensures Lost(RunPass(s)) >= Lost(s)
    ensures Lost(RunPass(s)) == Lost(s) <==> !PassLoses(s.tx)
  {
    PassTakes(s.tx);
    CarriedAllIff(TYPE_IP, ConsumedBy(s.tx), s.tx.wr);
    hide TxPassOf, TakenBy, ConsumedBy, Carried, Carriable;
  }

  lemma RunPassInTurn(s: Sys)
    requires InTurn(s)
    ensures InTurn(RunPass(s))
  {
    var c, rest, taken := ConsumedBy(s.tx), TxPassOf(s.tx).tx.dataQ, TakenBy(s.tx);
    PassTakes(s.tx);
    CarriedIsSubsequence(TYPE_IP, c, s.tx.wr);
    hide TxPassOf, TakenBy, ConsumedBy, Carried, Subsequence;
    SubsequenceBefore(taken, c, rest);
    SubsequenceBehind(s.packed, taken + rest, c + rest);
    SubsequenceTransitive(s.packed + (taken + rest), s.packed + s.tx.dataQ, s.accepted);
    JoinThree(s.packed, taken, rest);
  }

  /** What the pass of a step does to the packets is what the pass alone does. */
  lemma StepRunsItsPass(s: Sys, e: Event)
    requires PassOf(s, e).Some?
    ensures var r, t := RunPass(s.(tx := PassOf(s, e).value)), Apply(s, e);
            t.packed == r.packed && t.tx.dataQ == r.tx.dataQ && t.accepted == r.accepted == s.accepted
    ensures PassOf(s, e).value.dataQ == s.tx.dataQ
  {
    hide TxPassOf, TakenBy;
  }

  lemma StepLoss(s: Sys, e: Event)
    ensures Lost(Apply(s, e)) >= Lost(s)
    ensures Lost(Apply(s, e)) == Lost(s) <==> !Loses(s, e)
  {
    if PassOf(s, e).Some? {
      StepRunsItsPass(s, e);
      RunPassLoss(s.(tx := PassOf(s, e).value));
      hide RunPass, PassLoses, Apply;
      assert Loses(s, e) <==> PassLoses(PassOf(s, e).value);
    }
    hide RunPass, PassLoses;
  }

  lemma StepInTurn(s: Sys, e: Event)
    requires InTurn(s)
    ensures InTurn(Apply(s, e))
  {
    hide RunPass, TakeGrant, Subsequence;
    if PassOf(s, e).Some? {
      StepRunsItsPass(s, e);
      RunPassInTurn(s.(tx := PassOf(s, e).value));
    } else if e.Xmit? {
      SubsequenceBefore(s.packed + s.tx.dataQ, s.accepted, [e.skb]);
      JoinThree(s.packed, s.tx.dataQ, [e.skb]);
    } else if e.DrainData? {
      SubsequenceHead(s.packed, s.tx.dataQ);
      SubsequenceTransitive(s.packed, s.packed + s.tx.dataQ, s.accepted);
      assert s.packed + [] == s.packed;
    }
  }

  lemma {:induction false} RunLoss(window: nat, es: seq<Event>)
    ensures Lost(Exec(Boot(window), es)) >= 0
    ensures Lost(Exec(Boot(window), es)) == 0 <==> LossFree(Boot(window), es)
    ensures InTurn(Exec(Boot(window), es))
    decreases |es|
  {
    if es == [] {
      SubsequenceSelf(Boot(window).accepted);
      return;
    }
    var n := |es| - 1;
    var s := Exec(Boot(window), es[..n]);
    hide Apply, Lost, Loses, InTurn, Boot;
    RunLoss(window, es[..n]);
    StepLoss(s, es[n]);
    StepInTurn(s, es[n]);
  }

  /**
   * Over every run of any grants, acknowledgements and closes: what is on the wire and then what is queued is what
   * was accepted with some packets left out, and none is left out if and only if no pass went through a packet
   * its grant cannot carry and no close found a packet queued.
   */
  lemma {:induction false} NothingLostIff(window: nat, es: seq<Event>)
    ensures var s := Exec(Boot(window), es);
            && Subsequence(s.packed + s.tx.dataQ, s.accepted)
            && (s.accepted == s.packed + s.tx.dataQ <==> LossFree(Boot(window), es))
  {
    var s := Exec(Boot(window), es);
    RunLoss(window, es);
    hide Exec, LossFree, Subsequence;
    SubsequenceShorter(s.packed + s.tx.dataQ, s.accepted);
  }

  // ---- runs that lose nothing ----

  /** Every packet offered can be carried under every grant of the run, and the interface is not closed. */
  predicate Roomy(es: seq<Event>) {
    && (forall i :: 0 <= i < |es| ==> !es[i].CancelWork?)
    && (forall i, j :: 0 <= i < |es| && 0 <= j < |es| && es[i].Xmit? && es[j].Irq? && es[j].grant.Some?
                       && es[j].grant.value > 0 ==>
          Carriable(TYPE_IP, es[i].skb, es[j].grant.value * BLOCK))
  }

  /** The queue holds packets the run offered, and the grant is one it gave. */
  predicate FromRun(s: Sys, es: seq<Event>) {
    && s.close == Idle
    && (forall p :: p in s.tx.dataQ ==> exists i :: 0 <= i < |es| && es[i].Xmit? && es[i].skb == p)
    && (s.tx.wr > 0 ==> exists j :: 0 <= j < |es| && es[j].Irq? && es[j].grant.Some?
                                    && es[j].grant.value * BLOCK == s.tx.wr)
    && (s.tx.rd == 0 || s.tx.rd == s.tx.wr)
  }

  lemma RoomyPassLosesNothing(t: Tx, s: Sys, es: seq<Event>)
    requires Roomy(es) && FromRun(s, es) && s.tx == t
    ensures !PassLoses(t)
  {
    PassTakes(t);
    forall i | 0 <= i < |ConsumedBy(t)|
      ensures Carriable(TYPE_IP, ConsumedBy(t)[i], t.wr)
    {
      assert ConsumedBy(t)[i] == t.dataQ[i] && t.dataQ[i] in s.tx.dataQ;
      assert t.HasCredit() && t.wr > 0;
      var k :| 0 <= k < |es| && es[k].Xmit? && es[k].skb == t.dataQ[i];
      var j :| 0 <= j < |es| && es[j].Irq? && es[j].grant.Some? && es[j].grant.value * BLOCK == s.tx.wr;
      assert Carriable(TYPE_IP, es[k].skb, es[j].grant.value * BLOCK);
    }
  }

  lemma PassFromRun(s: Sys, es: seq<Event>)
    requires FromRun(s, es)
    ensures FromRun(RunPass(s), es)
  {
    PassTakes(s.tx);
    PassConsumesOrDrains(s.tx);
    var c, rest := ConsumedBy(s.tx), TxPassOf(s.tx).tx.dataQ;
    hide TxPassOf, TakenBy, ConsumedBy;
    forall p | p in rest
      ensures p in s.tx.dataQ
    {
      assert p in c + rest;
    }
  }

  lemma GrantFromRun(s: Sys, es: seq<Event>, j: nat)
    requires FromRun(s, es) && j < |es| && es[j].Irq? && es[j].grant.Some?
    ensures var g := TakeGrant(s, es[j].grant.value);
            FromRun(g.(tx := g.tx.(unacked := ApplyAcks(s.tx.unacked, es[j].acks))), es)
  {
  }

  lemma RoomyStep(s: Sys, es: seq<Event>, j: nat)
    requires Roomy(es) && FromRun(s, es) && j < |es| && Enabled(s, es[j])
    ensures FromRun(Apply(s, es[j]), es) && !Loses(s, es[j])
  {
    var e := es[j];
    hide RunPass, PassLoses;
    if e.Irq? && PassOf(s, e).Some? {
      GrantFromRun(s, es, j);
      var g := TakeGrant(s, e.grant.value);
      var t := g.(tx := g.tx.(unacked := ApplyAcks(s.tx.unacked, e.acks)));
      RoomyPassLosesNothing(t.tx, t, es);
      PassFromRun(t, es);
    } else if e.WorkerPass? {
      var t := s.(workPending := false);
      RoomyPassLosesNothing(t.tx, t, es);
      PassFromRun(t, es);
    }
  }

  lemma {:induction false} RoomyPrefix(window: nat, es: seq<Event>, k: nat)
    requires Roomy(es) && Legal(Boot(window), es) && k <= |es|
    ensures Legal(Boot(window), es[..k]) && LossFree(Boot(window), es[..k]) && FromRun(Exec(Boot(window), es[..k]), es)
  {
    LegalPrefix(Boot(window), es, k);
    if k == 0 {
      return;
    }
    hide Apply, Loses, FromRun, Roomy, Boot;
    RoomyPrefix(window, es, k - 1);
    assert es[..k][..k - 1] == es[..k - 1];
    RoomyStep(Exec(Boot(window), es[..k - 1]), es, k - 1);
  }

  lemma {:induction false} LegalPrefix(s: Sys, es: seq<Event>, k: nat)
    requires Legal(s, es) && k <= |es|
    ensures Legal(s, es[..k])
    decreases |es|
  {
    if k < |es| {
      LegalPrefix(s, es[..|es| - 1], k);
      assert es[..|es| - 1][..k] == es[..k];
    } else {
      assert es[..k] == es;
    }
  }

  /** With room for every packet under every grant, every accepted packet is on the wire or still queued. */
  lemma {:induction false} RoomyRunsLoseNothing(window: nat, es: seq<Event>)
    requires Roomy(es) && Legal(Boot(window), es)
    ensures var s := Exec(Boot(window), es); s.accepted == s.packed + s.tx.dataQ
  {
    RoomyPrefix(window, es, |es|);
    assert es[..|es|] == es;
    NothingLostIff(window, es);
  }
}
