/**
 * The command messages over every run: which reach the wire, in what order, and which a pass or a close throws away.
 */
module TxCommands {
  import opened Wrappers
  import opened Bytes
  import opened BlockRuns
  import opened TxPass
  import opened TxSchedule
  import opened TxLoss

  // ---- one pass ----

  /** The messages a pass goes through: with credit left by the data, as far as they fit behind one another. */
  function CmdsConsumed(t: Tx): seq<seq<byte>> {
    if !SendData(t).tx.HasCredit() then [] else t.cmdQ[..Reach(TYPE_CMD, t.cmdQ, t.wr, 0)]
  }

  /** Those of them the grant can carry. */
  function CmdsTaken(t: Tx): seq<seq<byte>> {
    Carried(TYPE_CMD, CmdsConsumed(t), t.wr)
  }

  lemma DataLeavesCommands(t: Tx)
    ensures SendData(t).tx.cmdQ == t.cmdQ && SendData(t).tx.wr == t.wr
    ensures !t.HasCredit() ==> !SendData(t).tx.HasCredit()
  {
  }

  lemma {:induction false} FramesOfCommands(ps: seq<seq<byte>>)
    ensures Frames(TYPE_CMD, ps) == ps
  {
    if ps != [] {
      FramesOfCommands(ps[1..]);
    }
  }

  lemma {:induction false} NoCommandsInData(t: Tx)
    ensures Payloads(TYPE_CMD, SendData(t).sent) == []
  {
    DataPassCarries(t);
    PackFitsStaging(TYPE_IP, t.dataQ, t.wr, []);
    hide Pack, Payloads;
    NoPayloads(TYPE_CMD, SendData(t).sent);
  }

  /** A command pass sends the messages it takes, end to end, and nothing else of the command class but a keepalive. */
  lemma {:induction false} CommandPassSends(d: Tx)
    requires d.HasCredit()
    ensures Payloads(TYPE_CMD, SendCmd(d).sent) == Concat(Pack(TYPE_CMD, d.cmdQ, d.wr, []).taken)
  {
    var f := Pack(TYPE_CMD, d.cmdQ, d.wr, []);
    PackContents(TYPE_CMD, d.cmdQ, d.wr, []);
    FramesOfCommands(f.taken);
    PayloadsSplit(TYPE_CMD, f.sent, [Packed(TYPE_CMD, f.batch)]);
    PayloadOfFlush(TYPE_CMD, f.batch);
    assert [] + Concat(f.taken) == Concat(f.taken);
    assert Payloads(TYPE_CMD, f.sent) + [] == Payloads(TYPE_CMD, f.sent);
    hide Pack, Payloads, Concat, Frames;
  }

  /** A pass takes the carriable ones of the messages it goes through, sends them in order, and leaves the others. */
  lemma {:induction false} PassSendsCommands(t: Tx)
    ensures t.cmdQ == CmdsConsumed(t) + TxPassOf(t).tx.cmdQ
    ensures Payloads(TYPE_CMD, TxPassOf(t).sent) == Concat(CmdsTaken(t))
  {
    var d := SendData(t);
    DataLeavesCommands(t);
    NoCommandsInData(t);
    PayloadsSplit(TYPE_CMD, d.sent, SendCmd(d.tx).sent);
    assert [] + Payloads(TYPE_CMD, SendCmd(d.tx).sent) == Payloads(TYPE_CMD, SendCmd(d.tx).sent);
    if d.tx.HasCredit() {
      PackLeavesSuffix(TYPE_CMD, t.cmdQ, t.wr, []);
      PackTakesCarriable(TYPE_CMD, t.cmdQ, t.wr, []);
      PackReaches(TYPE_CMD, t.cmdQ, t.wr, []);
      CommandPassSends(d.tx);
    } else {
      NoneCarried(t.wr);
    }
    hide Pack, Payloads, Concat, Carried, Reach, SendData;
  }

  lemma NoneCarried(grant: nat)
    ensures Carried(TYPE_CMD, [], grant) == [] && Concat(Carried(TYPE_CMD, [], grant)) == []
    ensures Payloads(TYPE_CMD, []) == []
  {
  }

  // ---- every run ----

  /** The messages written over a run. */
  function Written(es: seq<Event>): seq<seq<byte>> {
    if es == [] then []
    else Written(es[..|es| - 1]) + if es[|es| - 1].WriteCmd? then [es[|es| - 1].msg] else []
  }

  function StepTakes(s: Sys, e: Event): seq<seq<byte>> {
    if PassOf(s, e).Some? then CmdsTaken(PassOf(s, e).value) else []
  }

  /** The messages the passes of a run took. */
  function Taken(s: Sys, es: seq<Event>): seq<seq<byte>> {
    if es == [] then [] else Taken(s, es[..|es| - 1]) + StepTakes(Exec(s, es[..|es| - 1]), es[|es| - 1])
  }

  /** A step loses a message: its pass goes through one that cannot be carried, or a close finds some queued. */
  predicate LosesCommand(s: Sys, e: Event) {
    if e.PurgeCmd? then s.tx.cmdQ != []
    else
      PassOf(s, e).Some? &&
      var t := PassOf(s, e).value;
      exists i :: 0 <= i < |CmdsConsumed(t)| && !Carriable(TYPE_CMD, CmdsConsumed(t)[i], t.wr)
  }

  predicate KeepsCommands(s: Sys, es: seq<Event>) {
    es == [] || (KeepsCommands(s, es[..|es| - 1]) && !LosesCommand(Exec(s, es[..|es| - 1]), es[|es| - 1]))
  }

  /** A step's effect on the command queue and on the command bytes of the wire. */
  lemma {:induction false} StepCommands(s: Sys, e: Event)
    ensures Payloads(TYPE_CMD, Apply(s, e).wire) == Payloads(TYPE_CMD, s.wire) + Concat(StepTakes(s, e))
    ensures var q := Apply(s, e).tx.cmdQ;
            && (PassOf(s, e).Some? ==> s.tx.cmdQ == CmdsConsumed(PassOf(s, e).value) + q)
            && (e.WriteCmd? ==> q == s.tx.cmdQ + [e.msg])
            && (e.PurgeCmd? ==> q == [])
            && (PassOf(s, e).None? && !e.WriteCmd? && !e.PurgeCmd? ==> q == s.tx.cmdQ)
  {
    if PassOf(s, e).Some? {
      var t := PassOf(s, e).value;
      PassSendsCommands(t);
      assert Apply(s, e).wire == s.wire + TxPassOf(t).sent && t.cmdQ == s.tx.cmdQ;
      PayloadsSplit(TYPE_CMD, s.wire, TxPassOf(t).sent);
    } else {
      NoneCarried(0);
      assert Payloads(TYPE_CMD, s.wire) + [] == Payloads(TYPE_CMD, s.wire);
    }
    hide TxPassOf, CmdsTaken, CmdsConsumed, Payloads;
  }

  /** What a step takes and leaves queued, against what was queued and what it wrote. */
  lemma {:induction false} StepInTurn(s: Sys, e: Event, taken: seq<seq<byte>>, written: seq<seq<byte>>)
    requires Subsequence(taken + s.tx.cmdQ, written)
    ensures var t, q := taken + StepTakes(s, e), Apply(s, e).tx.cmdQ;
            Subsequence(t + q, written + if e.WriteCmd? then [e.msg] else [])
  {
    var q := Apply(s, e).tx.cmdQ;
    StepCommands(s, e);
    hide Subsequence, CmdsConsumed, Apply, Payloads, Concat, Carried;
    if PassOf(s, e).Some? {
      var t := PassOf(s, e).value;
      var c := CmdsConsumed(t);
      CarriedIsSubsequence(TYPE_CMD, c, t.wr);
      SubsequenceBefore(CmdsTaken(t), c, q);
      SubsequenceBehind(taken, CmdsTaken(t) + q, c + q);
      SubsequenceTransitive(taken + (CmdsTaken(t) + q), taken + s.tx.cmdQ, written);
      JoinThree(taken, CmdsTaken(t), q);
      assert written + [] == written;
    } else if e.WriteCmd? {
      SubsequenceBefore(taken + s.tx.cmdQ, written, [e.msg]);
      JoinThree(taken, s.tx.cmdQ, [e.msg]);
      assert taken + [] == taken;
    } else if e.PurgeCmd? {
      SubsequenceHead(taken, s.tx.cmdQ);
      SubsequenceTransitive(taken, taken + s.tx.cmdQ, written);
      assert taken + [] == taken && written + [] == written;
    } else {
      assert taken + [] == taken && written + [] == written;
    }
  }

  /** How many messages a step loses, and when none. */
  lemma {:induction false} StepLosesIff(s: Sys, e: Event)
    ensures var left := |StepTakes(s, e)| + |Apply(s, e).tx.cmdQ|;
            var before := |s.tx.cmdQ| + if e.WriteCmd? then 1 else 0;
            left <= before && (left == before <==> !LosesCommand(s, e))
  {
    StepCommands(s, e);
    if PassOf(s, e).Some? {
      var t := PassOf(s, e).value;
      CarriedAllIff(TYPE_CMD, CmdsConsumed(t), t.wr);
    }
    hide Apply, CmdsConsumed, Carried, Carriable, Payloads, Concat;
  }

  /** The messages taken, on the wire, written and kept, as they stand after a run. */
  predicate Accounted(s: Sys, taken: seq<seq<byte>>, written: seq<seq<byte>>, kept: bool) {
    && Payloads(TYPE_CMD, s.wire) == Concat(taken)
    && Subsequence(taken + s.tx.cmdQ, written)
    && |taken| + |s.tx.cmdQ| <= |written| && (|taken| + |s.tx.cmdQ| == |written| <==> kept)
  }

  lemma {:induction false} StepAccounts(s: Sys, e: Event, taken: seq<seq<byte>>, written: seq<seq<byte>>, kept: bool)
    requires Accounted(s, taken, written, kept)
    ensures Accounted(Apply(s, e), taken + StepTakes(s, e), written + (if e.WriteCmd? then [e.msg] else []),
                      kept && !LosesCommand(s, e))
  {
    StepCommands(s, e);
    StepInTurn(s, e, taken, written);
    StepLosesIff(s, e);
    ConcatSplit(taken, StepTakes(s, e));
    hide Apply, StepTakes, LosesCommand, Payloads, Concat, Subsequence;
  }

  lemma {:induction false} RunAccounts(window: nat, es: seq<Event>)
    ensures Accounted(Exec(Boot(window), es), Taken(Boot(window), es), Written(es), KeepsCommands(Boot(window), es))
    decreases |es|
  {
    if es == [] {
      assert Subsequence([] + Boot(window).tx.cmdQ, []);
      return;
    }
    var n := |es| - 1;
    hide Apply, StepTakes, LosesCommand, Accounted, Boot;
    RunAccounts(window, es[..n]);
    StepAccounts(Exec(Boot(window), es[..n]), es[n], Taken(Boot(window), es[..n]), Written(es[..n]),
                 KeepsCommands(Boot(window), es[..n]));
  }

  /**
   * Over every run: the command bytes on the wire are the messages taken, end to end; those and then the queue are
   * the messages written with some left out, and none is left out if and only if no pass went through a message its
   * grant cannot carry and no close found one queued.
   */
  lemma {:induction false} CommandsKeepTheirOrder(window: nat, es: seq<Event>)
    ensures var s, taken := Exec(Boot(window), es), Taken(Boot(window), es);
            && Payloads(TYPE_CMD, s.wire) == Concat(taken)
            && Subsequence(taken + s.tx.cmdQ, Written(es))
            && (Written(es) == taken + s.tx.cmdQ <==> KeepsCommands(Boot(window), es))
  {
    RunAccounts(window, es);
    hide Exec, Taken, Written, KeepsCommands, Subsequence, Payloads, Concat;
    SubsequenceShorter(Taken(Boot(window), es) + Exec(Boot(window), es).tx.cmdQ, Written(es));
  }
}
