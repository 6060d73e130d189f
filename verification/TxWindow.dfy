/**
 * The acknowledgement window: what a data pass adds to the unacknowledged count, when a pass may send data, and what
 * the count is over every run.
 */
module TxWindow {
  import opened Wrappers
  import opened Bytes
  import opened IpHeader
  import opened BlockRuns
  import opened TxPass
  import opened RxLink
  import opened TxSchedule

  /** A 32-bit counter's value. */
  function Wrap(n: nat): (r: nat)
    ensures r < U32 && (n < U32 ==> r == n)
  {
    n % U32
  }

  // ---- one pass ----

  /** The payload of the transfer that closed a data pass: its last one, if the pass consumed the credit. */
  function ClosingBytes(t: Tx): nat {
    var d := SendData(t);
    if t.HasCredit() && !d.tx.HasCredit() && d.sent != [] then |d.sent[|d.sent| - 1].payload| else 0
  }

  /** A pass adds the bytes of the transfer that closed it, and a command pass adds nothing. */
  lemma {:induction false} PassAddsClosing(t: Tx)
    ensures TxPassOf(t).tx.unacked == if ClosingBytes(t) == 0 then t.unacked else Wrap(t.unacked + ClosingBytes(t))
    ensures ClosingBytes(t) + LINK_TRAILER_LEN <= STAGING
    ensures ClosingBytes(t) > 0 ==> t.window == 0 || t.unacked <= t.window
  {
    PackFitsStaging(TYPE_IP, t.dataQ, t.wr, []);
    var f := Pack(TYPE_IP, t.dataQ, t.wr, []);
    hide Pack;
    if t.HasCredit() && !t.Throttled() && f.batch != [] {
      assert (f.sent + [Packed(TYPE_IP, f.batch)])[|f.sent|] == Packed(TYPE_IP, f.batch);
    }
  }

  /** With a grant the staging buffer can hold, the closing transfer is all the data a pass sends. */
  lemma {:induction false} ClosingIsAll(t: Tx)
    requires t.wr <= STAGING
    ensures |Payloads(TYPE_IP, TxPassOf(t).sent)| == ClosingBytes(t)
  {
    PackWithinGrant(TYPE_IP, t.dataQ, t.wr, []);
    CmdPassCarries(SendData(t).tx);
    var f, d, c := Pack(TYPE_IP, t.dataQ, t.wr, []), SendData(t).sent, SendCmd(SendData(t).tx).sent;
    assert Payloads(TYPE_IP, c) == [];
    PayloadsSplit(TYPE_IP, d, c);
    PayloadOfFlush(TYPE_IP, f.batch);
    assert [] + Closing(TYPE_IP, f.batch) == Closing(TYPE_IP, f.batch);
    hide Pack, Payloads;
  }

  /** What a pass sends first, when it starts with credit and a packet it can carry. */
  lemma {:induction false} FirstCarriableIsTaken(t: Tx)
    requires t.HasCredit() && !t.Throttled() && t.dataQ != [] && Carriable(TYPE_IP, t.dataQ[0], t.wr)
    ensures TakenBy(t) != [] && TakenBy(t)[0] == t.dataQ[0]
  {
    var c := Compress(t.dataQ[0]);
    assert [] + c == c;
    hide Compress, WireSize;
  }

  /**
   * The gate, in both directions: a pass with credit whose first queued packet can be carried sends tunnel bytes if
   * and only if the window is off or no more than the window is unacknowledged.
   */
  lemma {:induction false} SendsIffWindowOpen(t: Tx)
    requires t.HasCredit() && t.dataQ != [] && Carriable(TYPE_IP, t.dataQ[0], t.wr)
    ensures Payloads(TYPE_IP, TxPassOf(t).sent) != [] <==> t.window == 0 || t.unacked <= t.window
  {
    var d, c := SendData(t).sent, SendCmd(SendData(t).tx).sent;
    PayloadsSplit(TYPE_IP, d, c);
    DataPassCarries(t);
    CmdPassCarries(SendData(t).tx);
    if t.Throttled() {
      assert d == [];
    } else {
      FirstCarriableIsTaken(t);
      var taken := TakenBy(t);
      var rest := taken[1..];
      assert taken == [taken[0]] + rest && forall x :: x in rest ==> x in taken;
      FramesCons(TYPE_IP, taken[0], rest);
    }
  }

  /** A pass that starts with more than the window unacknowledged sends no tunnel bytes at all. */
  lemma {:induction false} ThrottledSendsNothing(t: Tx)
    requires t.window != 0 && t.unacked > t.window
    ensures Payloads(TYPE_IP, TxPassOf(t).sent) == [] && TxPassOf(t).tx.unacked == t.unacked
    ensures TxPassOf(t).tx.dataQ == t.dataQ
  {
    CmdPassCarries(SendData(t).tx);
    assert [] + SendCmd(SendData(t).tx).sent == SendCmd(SendData(t).tx).sent;
    hide Pack, Payloads;
  }

  // ---- every run ----

  /** What moves the count: bytes sent, or a report of how many are pending. */
  datatype Move = Sent(bytes: nat) | Acked(pending: nat)

  function Reports(acks: seq<nat>): seq<Move> {
    seq(|acks|, i requires 0 <= i < |acks| => Acked(acks[i]))
  }

  /** The bytes of the transfer that closed the step's data pass. */
  function StepBytes(s: Sys, e: Event): nat {
    if PassOf(s, e).Some? then ClosingBytes(PassOf(s, e).value) else 0
  }

  function Moves(s: Sys, e: Event): seq<Move> {
    (if e.Irq? then Reports(e.acks) else []) + [Sent(StepBytes(s, e))]
  }

  /** The reports received and the bytes sent over a run, in order. */
  function History(s: Sys, es: seq<Event>): seq<Move> {
    if es == [] then []
    else History(s, es[..|es| - 1]) + Moves(Exec(s, es[..|es| - 1]), es[|es| - 1])
  }

  function Moved(u: nat, m: Move): nat {
    match m
    case Sent(n) => if n == 0 then u else Wrap(u + n)
    case Acked(k) => if k < u then k else u
  }

  /** A 32-bit counter that adds what is sent and comes down to what is reported pending. */
  function CountAfter(u: nat, ms: seq<Move>): nat {
    if ms == [] then u else Moved(CountAfter(u, ms[..|ms| - 1]), ms[|ms| - 1])
  }

  lemma {:induction false} CountSplit(u: nat, a: seq<Move>, b: seq<Move>)
    ensures CountAfter(u, a + b) == CountAfter(CountAfter(u, a), b)
    decreases |b|
  {
    if b == [] {
      assert a + b == a;
    } else {
      assert (a + b)[..|a + b| - 1] == a + b[..|b| - 1];
      CountSplit(u, a, b[..|b| - 1]);
    }
  }

  lemma {:induction false} ReportsCount(u: nat, acks: seq<nat>)
    ensures CountAfter(u, Reports(acks)) == ApplyAcks(u, acks)
    decreases |acks|
  {
    if acks != [] {
      var first := [Acked(acks[0])];
      assert Reports(acks) == first + Reports(acks[1..]);
      CountSplit(u, first, Reports(acks[1..]));
      assert first[..0] == [];
      assert CountAfter(u, first) == Moved(CountAfter(u, first[..0]), first[0]) == AckWindow(u, acks[0]);
      ReportsCount(AckWindow(u, acks[0]), acks[1..]);
    }
  }

  lemma CountOne(u: nat, m: Move)
    ensures CountAfter(u, [m]) == Moved(u, m)
  {
    assert [m][..0] == [];
  }

  lemma {:induction false} StepMoves(s: Sys, e: Event)
    ensures Apply(s, e).tx.unacked == CountAfter(s.tx.unacked, Moves(s, e))
  {
    hide *;
    var u := s.tx.unacked;
    StepParts(s, e);
    if e.Irq? {
      CountSplit(u, Reports(e.acks), [Sent(StepBytes(s, e))]);
      ReportsCount(u, e.acks);
      CountOne(ApplyAcks(u, e.acks), Sent(StepBytes(s, e)));
    } else {
      CountOne(u, Sent(StepBytes(s, e)));
    }
  }

  /** The count after a step: the reports first, then what the pass adds. */
  lemma StepParts(s: Sys, e: Event)
    ensures var u := if e.Irq? then ApplyAcks(s.tx.unacked, e.acks) else s.tx.unacked;
            Apply(s, e).tx.unacked == Moved(u, Sent(StepBytes(s, e)))
    ensures Moves(s, e) == if e.Irq? then Reports(e.acks) + [Sent(StepBytes(s, e))] else [Sent(StepBytes(s, e))]
  {
    if PassOf(s, e).Some? {
      PassAddsClosing(PassOf(s, e).value);
    }
    hide TxPassOf, ClosingBytes, ApplyAcks, Reports, Wrap;
  }

  /**
   * Over every run from every state the unacknowledged count is what a 32-bit counter makes of the closing transfers
   * sent and the reports received, in the order they came.
   */
  lemma {:induction false} CountIsItsHistory(s: Sys, es: seq<Event>)
    ensures Exec(s, es).tx.unacked == CountAfter(s.tx.unacked, History(s, es))
    decreases |es|
  {
    if es != [] {
      var n := |es| - 1;
      CountIsItsHistory(s, es[..n]);
      StepMoves(Exec(s, es[..n]), es[n]);
      CountSplit(s.tx.unacked, History(s, es[..n]), Moves(Exec(s, es[..n]), es[n]));
      hide Apply, CountAfter, Moves;
    }
  }

  // ---- without a report ----

  predicate NoReports(es: seq<Event>) {
    forall i :: 0 <= i < |es| && es[i].Irq? ==> es[i].acks == []
  }

  /** The bytes of all transfers that closed a data pass. */
  function SentBytes(s: Sys, es: seq<Event>): nat {
    if es == [] then 0 else SentBytes(s, es[..|es| - 1]) + StepBytes(Exec(s, es[..|es| - 1]), es[|es| - 1])
  }

  lemma ModuloAdds(u: nat, m: nat, n: nat)
    ensures Wrap(Wrap(u + m) + n) == Wrap(u + m + n)
  {
  }

  lemma StepWithoutReport(s: Sys, e: Event)
    requires e.Irq? ==> e.acks == []
    ensures var n := StepBytes(s, e);
            Apply(s, e).tx.unacked == if n == 0 then s.tx.unacked else Wrap(s.tx.unacked + n)
  {
    StepMoves(s, e);
    CountOne(s.tx.unacked, Sent(StepBytes(s, e)));
    assert e.Irq? ==> Reports(e.acks) == [];
    assert [] + [Sent(StepBytes(s, e))] == [Sent(StepBytes(s, e))];
    hide Apply, StepBytes, CountAfter;
  }

  /** From any point on, until the next report, the count is its value there plus what closed data passes since. */
  lemma {:induction false} CountWithoutReport(s: Sys, es: seq<Event>)
    requires s.tx.unacked < U32 && NoReports(es)
    ensures Exec(s, es).tx.unacked == Wrap(s.tx.unacked + SentBytes(s, es))
    decreases |es|
  {
    hide *;
    if es == [] {
      RunNone(s);
      return;
    }
    var n := |es| - 1;
    RunSnoc(s, es);
    NoReportsBefore(es);
    CountWithoutReport(s, es[..n]);
    StepWithoutReport(Exec(s, es[..n]), es[n]);
    ModuloAdds(s.tx.unacked, SentBytes(s, es[..n]), StepBytes(Exec(s, es[..n]), es[n]));
  }

  lemma RunNone(s: Sys)
    ensures Exec(s, []) == s && SentBytes(s, []) == 0
  {
  }

  lemma NoReportsBefore(es: seq<Event>)
    requires es != [] && NoReports(es)
    ensures NoReports(es[..|es| - 1]) && (es[|es| - 1].Irq? ==> es[|es| - 1].acks == [])
  {
  }

  lemma RunSnoc(s: Sys, es: seq<Event>)
    requires es != []
    ensures var before, e := Exec(s, es[..|es| - 1]), es[|es| - 1];
            Exec(s, es) == Apply(before, e) && SentBytes(s, es) == SentBytes(s, es[..|es| - 1]) + StepBytes(before, e)
  {
  }

  /** The wire's share of a step, under grants the staging buffer can hold. */
  lemma {:induction false} StepBytesAreOnTheWire(s: Sys, e: Event)
    requires s.tx.wr <= STAGING && (e.Irq? && e.grant.Some? ==> e.grant.value * BLOCK <= STAGING)
    ensures |Payloads(TYPE_IP, Apply(s, e).wire)| == |Payloads(TYPE_IP, s.wire)| + StepBytes(s, e)
  {
    if PassOf(s, e).Some? {
      var t := PassOf(s, e).value;
      ClosingIsAll(t);
      assert Apply(s, e).wire == s.wire + TxPassOf(t).sent;
      PayloadsSplit(TYPE_IP, s.wire, TxPassOf(t).sent);
    }
    hide TxPassOf, ClosingBytes, Payloads, ApplyAcks;
  }

  lemma {:induction false} SentBytesAreOnTheWire(window: nat, es: seq<Event>)
    requires Legal(Boot(window), es) && SmallGrants(es)
    ensures |Payloads(TYPE_IP, Exec(Boot(window), es).wire)| == SentBytes(Boot(window), es)
    decreases |es|
  {
    if es != [] {
      var n := |es| - 1;
      SentBytesAreOnTheWire(window, es[..n]);
      WireWithinGrants(window, es[..n]);
      StepBytesAreOnTheWire(Exec(Boot(window), es[..n]), es[n]);
      hide Apply, StepBytes, Payloads;
    }
  }

  /** The tunnel bytes sent over a run. */
  function TunnelBytes(window: nat, es: seq<Event>): nat {
    |Payloads(TYPE_IP, Exec(Boot(window), es).wire)|
  }

  /**
   * Until the first report, under grants the staging buffer can hold, the count is the number of tunnel bytes on the
   * wire modulo 2^32; with a window that leaves room below 2^32 it is that number, and never more than the window
   * and one staging buffer.
   */
  lemma {:induction false} CountIsTunnelBytes(window: nat, es: seq<Event>)
    requires Legal(Boot(window), es) && SmallGrants(es) && NoReports(es)
    ensures Exec(Boot(window), es).tx.unacked == Wrap(TunnelBytes(window, es))
    ensures 0 < window <= U32 - STAGING ==> Exec(Boot(window), es).tx.unacked == TunnelBytes(window, es)
    decreases |es|
  {
    SentBytesAreOnTheWire(window, es);
    CountWithoutReport(Boot(window), es);
    if es != [] && 0 < window <= U32 - STAGING {
      var n := |es| - 1;
      var s := Exec(Boot(window), es[..n]);
      CountIsTunnelBytes(window, es[..n]);
      SentBytesAreOnTheWire(window, es[..n]);
      NoStrandedGrant(window, es[..n]);
      StepStaysBelow(s, es[n]);
      hide Apply, StepBytes, Payloads, Inv, Wrap;
      assert es[n].Irq? ==> es[n].acks == [];
      StepWithoutReport(s, es[n]);
    }
  }

  lemma StepStaysBelow(s: Sys, e: Event)
    requires e.Irq? ==> e.acks == []
    requires 0 < s.tx.window <= U32 - STAGING && s.tx.unacked <= s.tx.window + STAGING - LINK_TRAILER_LEN
    ensures s.tx.unacked + StepBytes(s, e) < U32
  {
    if PassOf(s, e).Some? {
      PassAddsClosing(PassOf(s, e).value);
    }
    hide TxPassOf, ClosingBytes;
  }

  /** Once more than the window has been sent unacknowledged, no step sends tunnel bytes until a report comes. */
  lemma {:induction false} NothingSentBeyondWindow(window: nat, es: seq<Event>, e: Event)
    requires Legal(Boot(window), es) && SmallGrants(es) && NoReports(es) && (e.Irq? ==> e.acks == [])
    requires 0 < window <= U32 - STAGING && TunnelBytes(window, es) > window
    ensures var s := Exec(Boot(window), es); Payloads(TYPE_IP, Apply(s, e).wire) == Payloads(TYPE_IP, s.wire)
  {
    var s := Exec(Boot(window), es);
    CountIsTunnelBytes(window, es);
    NoStrandedGrant(window, es);
    hide Exec, Inv, Legal;
    if PassOf(s, e).Some? {
      var t := PassOf(s, e).value;
      ThrottledSendsNothing(t);
      assert Apply(s, e).wire == s.wire + TxPassOf(t).sent;
      PayloadsSplit(TYPE_IP, s.wire, TxPassOf(t).sent);
      assert Payloads(TYPE_IP, s.wire) + [] == Payloads(TYPE_IP, s.wire);
    }
    hide TxPassOf, Payloads;
  }
}
