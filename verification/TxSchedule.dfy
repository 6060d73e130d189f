/**
 * The transmit side under every interleaving of interrupts, worker passes, enqueues and interface closes. The
 * SDIO host claim makes an interrupt and a worker pass atomic with respect to each other; an enqueue and its
 * queue_work, and the three steps of a close, are separate.
 */
module TxSchedule {
  import opened Wrappers
  import opened Bytes
  import opened IpHeader
  import opened BlockRuns
  import opened TxPass
  import opened RxLink

  /** How far artosyn_sdio_net_close has got: not running, work cancelled, data queue drained. */
  datatype Close = Idle | Cancelled | Drained

  datatype Sys = Sys(tx: Tx, kicks: nat, workPending: bool, close: Close,
                     accepted: seq<seq<byte>>, wire: seq<Packed>, packed: seq<seq<byte>>, granted: nat, grants: nat)

  datatype Event =
    | Irq(grant: Option<byte>, acks: seq<nat>)
    | WorkerPass
    | Xmit(skb: seq<byte>)
    | WriteCmd(msg: seq<byte>)
    | QueueWork
    | CancelWork
    | DrainData
    | PurgeCmd

  function Boot(window: nat): Sys {
    Sys(Tx(0, 0, [], [], 0, window, 0), 0, false, Idle, [], [], [], 0, 0)
  }

  predicate Enabled(s: Sys, e: Event) {
    match e
    case WorkerPass => s.workPending
    case QueueWork => s.kicks > 0
    case WriteCmd(msg) => msg != []
    case CancelWork => s.close == Idle
    case DrainData => s.close == Cancelled
    case PurgeCmd => s.close == Drained
    case _ => true
  }

  function ApplyAcks(unacked: nat, acks: seq<nat>): (r: nat)
    ensures r <= unacked
  {
    if acks == [] then unacked else ApplyAcks(AckWindow(unacked, acks[0]), acks[1..])
  }

  /** The packets a data pass packs. */
  function TakenBy(t: Tx): seq<seq<byte>> {
    if !t.HasCredit() || t.Throttled() then [] else Pack(TYPE_IP, t.dataQ, t.wr, []).taken
  }

  function RunPass(s: Sys): Sys {
    var p := TxPassOf(s.tx);
    s.(tx := p.tx, wire := s.wire + p.sent, packed := s.packed + TakenBy(s.tx))
  }

  function TakeGrant(s: Sys, blocks: byte): Sys {
    s.(tx := s.tx.(rd := 0, wr := blocks * BLOCK), granted := s.granted + blocks * BLOCK,
       grants := s.grants + if blocks == 0 then 0 else 1)
  }

  predicate Queueable(t: Tx, skb: seq<byte>) {
    |skb| >= IP_HDR && skb[0] / 16 == 4 && t.inflight < INFLIGHT_CAP
  }

  function Apply(s: Sys, e: Event): Sys {
    match e
    case Irq(grant, acks) =>
      var taken := grant.Some? && !s.tx.HasCredit();
      var s1 := if taken then TakeGrant(s, grant.value) else s;
      var s2 := s1.(tx := s1.tx.(unacked := ApplyAcks(s1.tx.unacked, acks)));
      if taken then RunPass(s2) else s2
    case WorkerPass => RunPass(s.(workPending := false))
    case Xmit(skb) =>
      if Queueable(s.tx, skb) then
        s.(tx := s.tx.(dataQ := s.tx.dataQ + [skb], inflight := s.tx.inflight + 1), kicks := s.kicks + 1,
            accepted := s.accepted + [skb])
      else s
    case WriteCmd(msg) => s.(tx := s.tx.(cmdQ := s.tx.cmdQ + [msg]), kicks := s.kicks + 1)
    case QueueWork => s.(kicks := if s.kicks > 0 then s.kicks - 1 else 0, workPending := true)
    case CancelWork => s.(workPending := false, close := Cancelled)
    case DrainData =>
      s.(tx := s.tx.(dataQ := [], inflight := Dec(s.tx.inflight, |s.tx.dataQ|)), close := Drained)
    case PurgeCmd => s.(tx := s.tx.(cmdQ := []), close := Idle)
  }

  /** The state a step's pass starts from, if it runs one. */
  function PassOf(s: Sys, e: Event): Option<Tx> {
    match e
    case Irq(grant, acks) =>
      if grant.Some? && !s.tx.HasCredit() then
        Some(TakeGrant(s, grant.value).tx.(unacked := ApplyAcks(s.tx.unacked, acks)))
      else None
    case WorkerPass => Some(s.tx)
    case _ => None
  }

  /** A pass is coming: the work item is queued, or an enqueuer is about to queue it. */
  predicate PassComing(s: Sys) {
    s.workPending || s.kicks > 0
  }

  predicate Inv(s: Sys) {
    && (s.tx.rd == 0 || s.tx.rd == s.tx.wr)
    && s.tx.wr % BLOCK == 0
    && (s.tx.HasCredit() && s.tx.dataQ != [] && s.close != Cancelled ==> PassComing(s))
    && (s.tx.HasCredit() && s.tx.cmdQ != [] && s.close == Idle ==> PassComing(s))
    && s.tx.inflight == |s.tx.dataQ| <= INFLIGHT_CAP
    && (s.tx.window != 0 ==> s.tx.unacked <= s.tx.window + STAGING - LINK_TRAILER_LEN)
  }

  lemma {:induction false} PassKeepsInv(s: Sys)
    requires s.tx.rd == 0 || s.tx.rd == s.tx.wr
    requires s.tx.wr % BLOCK == 0 && s.tx.inflight == |s.tx.dataQ| <= INFLIGHT_CAP
    requires s.tx.window != 0 ==> s.tx.unacked <= s.tx.window + STAGING - LINK_TRAILER_LEN
    ensures Inv(RunPass(s))
  {
    PassConsumesOrDrains(s.tx);
    InflightConserved(s.tx);
    if s.tx.window != 0 {
      WindowOvershoot(s.tx);
    }
    PassKeepsWindow(s.tx);
  }

  lemma PassKeepsWindow(t: Tx)
    ensures TxPassOf(t).tx.window == t.window
  {
  }

  lemma {:induction false} StepKeepsInv(s: Sys, e: Event)
    requires Inv(s) && Enabled(s, e)
    ensures Inv(Apply(s, e))
  {
    match e {
      case Irq(grant, acks) =>
        if grant.Some? && !s.tx.HasCredit() {
          var s1 := TakeGrant(s, grant.value);
          PassKeepsInv(s1.(tx := s1.tx.(unacked := ApplyAcks(s1.tx.unacked, acks))));
        }
      case WorkerPass => PassKeepsInv(s.(workPending := false));
      case _ =>
    }
  }

  /** A run of the driver: events applied in order, each enabled where it happens. */
  function Exec(s: Sys, es: seq<Event>): Sys {
    if es == [] then s else Apply(Exec(s, es[..|es| - 1]), es[|es| - 1])
  }

  predicate Legal(s: Sys, es: seq<Event>) {
    es == [] || (Legal(s, es[..|es| - 1]) && Enabled(Exec(s, es[..|es| - 1]), es[|es| - 1]))
  }

  /**
   * No stranded grant, over every run: the read accumulator is zero or the write accumulator, credit with work
   * queued means a pass is coming (outside a close in progress), the in-flight count is the data queue's length
   * and within its cap, and the unacknowledged window overshoots by at most one staging buffer.
   */
  lemma {:induction false} NoStrandedGrant(window: nat, es: seq<Event>)
    requires Legal(Boot(window), es)
    ensures Inv(Exec(Boot(window), es)) && Exec(Boot(window), es).tx.window == window
  {
    if es != [] {
      var s := Exec(Boot(window), es[..|es| - 1]);
      NoStrandedGrant(window, es[..|es| - 1]);
      StepKeepsInv(s, es[|es| - 1]);
      PassKeepsWindow(s.tx);
      if es[|es| - 1].Irq? && es[|es| - 1].grant.Some? {
        var s1 := TakeGrant(s, es[|es| - 1].grant.value);
        PassKeepsWindow(s1.tx.(unacked := ApplyAcks(s1.tx.unacked, es[|es| - 1].acks)));
      }
    }
  }

  /**
   * A close in any run: no worker pass is pending after the work is cancelled, no packet is queued or in flight after
   * the drain and no command after the purge; none of the three touches the wire or the credit.
   */
  lemma {:induction false} CloseDiscards(window: nat, es: seq<Event>, e: Event)
    requires Legal(Boot(window), es) && Enabled(Exec(Boot(window), es), e)
    ensures var s := Exec(Boot(window), es);
            var t := Apply(s, e);
            && (e.CancelWork? ==> !Enabled(t, WorkerPass) && t.tx == s.tx)
            && (e.DrainData? ==> t.tx == s.tx.(dataQ := [], inflight := 0))
            && (e.PurgeCmd? ==> t.tx == s.tx.(cmdQ := []))
            && (e.CancelWork? || e.DrainData? || e.PurgeCmd? ==> t.wire == s.wire && t.packed == s.packed)
  {
    NoStrandedGrant(window, es);
    hide TxPassOf, TakenBy, ApplyAcks;
  }

  /** What a step takes from outside: a grant when none is open, a packet within the cap, a command, nothing else. */
  lemma {:induction false} StepAdmits(s: Sys, e: Event)
    ensures e.Irq? && e.grant.Some? ==>
              Apply(s, e).tx.wr == if s.tx.rd == s.tx.wr then 512 * e.grant.value else s.tx.wr
    ensures !(e.Irq? && e.grant.Some?) ==> Apply(s, e).tx.wr == s.tx.wr
    ensures e.Xmit? ==>
              var t, taken := Apply(s, e), |e.skb| >= 20 && e.skb[0] / 16 == 4 && s.tx.inflight < 1024;
              && t.accepted == (if taken then s.accepted + [e.skb] else s.accepted)
              && t.tx.dataQ == if taken then s.tx.dataQ + [e.skb] else s.tx.dataQ
    ensures e.WriteCmd? ==> Apply(s, e).tx.cmdQ == s.tx.cmdQ + [e.msg]
    ensures !e.Xmit? ==> Apply(s, e).accepted == s.accepted
  {
    var t := if e.Irq? && e.grant.Some? then TakeGrant(s, e.grant.value) else s;
    PassConsumesOrDrains(s.tx);
    if e.Irq? {
      PassConsumesOrDrains(t.tx.(unacked := ApplyAcks(s.tx.unacked, e.acks)));
    }
    hide TxPassOf, TakenBy, ApplyAcks;
  }

  // ---- bytes on the wire against bytes granted ----

  function WireBytes(sent: seq<Packed>): nat {
    if sent == [] then 0 else WireBytes(sent[..|sent| - 1]) + WireSize(|sent[|sent| - 1].payload|)
  }

  predicate SmallGrants(es: seq<Event>) {
    forall i :: 0 <= i < |es| && es[i].Irq? && es[i].grant.Some? ==> es[i].grant.value * BLOCK <= STAGING
  }

  /** Bytes and transfers on the wire, plus the credit still open, never exceed what was granted. */
  predicate WithinGrants(s: Sys) {
    && s.tx.wr <= STAGING
    && WireBytes(s.wire) + (if s.tx.HasCredit() then s.tx.wr else 0) <= s.granted
    && |s.wire| + (if s.tx.HasCredit() then 1 else 0) <= s.grants
  }

  lemma PassWithinGrants(s: Sys)
    requires WithinGrants(s) && s.tx.wr % BLOCK == 0 && (s.tx.rd == 0 || s.tx.rd == s.tx.wr)
    ensures WithinGrants(RunPass(s))
  {
    PassConsumesOrDrains(s.tx);
    if s.tx.HasCredit() {
      OneTransferPerGrant(s.tx);
      var sent := TxPassOf(s.tx).sent;
      if sent == [] {
        assert s.wire + sent == s.wire;
      } else {
        assert (s.wire + sent)[..|s.wire|] == s.wire && sent == [sent[0]];
      }
    } else {
      assert s.wire + [] == s.wire;
    }
  }

  /** With grants the staging buffer can hold, every run stays within its grants: at most one transfer per grant. */
  lemma {:induction false} WireWithinGrants(window: nat, es: seq<Event>)
    requires Legal(Boot(window), es) && SmallGrants(es)
    ensures WithinGrants(Exec(Boot(window), es))
  {
    if es != [] {
      var s, e := Exec(Boot(window), es[..|es| - 1]), es[|es| - 1];
      WireWithinGrants(window, es[..|es| - 1]);
      NoStrandedGrant(window, es[..|es| - 1]);
      match e {
        case Irq(grant, acks) =>
          if grant.Some? && !s.tx.HasCredit() {
            assert grant.value * BLOCK <= STAGING;
            var s1 := TakeGrant(s, grant.value);
            PassWithinGrants(s1.(tx := s1.tx.(unacked := ApplyAcks(s1.tx.unacked, acks))));
          }
        case WorkerPass => PassWithinGrants(s.(workPending := false));
        case _ =>
      }
    }
  }

  // ---- what the wire carries ----

  /** The tunnel bytes of these transfers are these packets' compressed forms, in order, and every transfer fits. */
  predicate Carries(sent: seq<Packed>, ps: seq<seq<byte>>) {
    && (forall p :: p in ps ==> !Unsupported(TYPE_IP, p))
    && Payloads(TYPE_IP, sent) == Concat(Frames(TYPE_IP, ps))
    && (forall i :: 0 <= i < |sent| ==> sent[i].kind in {TYPE_IP, TYPE_CMD} && Fits(|sent[i].payload|))
  }

  /** The tunnel bytes on the wire are the packed packets' compressed forms, in the order they were packed. */
  predicate WireCarries(s: Sys) {
    Carries(s.wire, s.packed)
  }

  lemma CarriesMore(a: seq<Packed>, ps: seq<seq<byte>>, b: seq<Packed>, qs: seq<seq<byte>>)
    requires Carries(a, ps) && Carries(b, qs)
    ensures Carries(a + b, ps + qs)
  {
    FramesSplit(TYPE_IP, ps, qs);
    hide Payloads, Frames, Concat, Unsupported, Fits;
    PayloadsSplit(TYPE_IP, a, b);
    ConcatSplit(Frames(TYPE_IP, ps), Frames(TYPE_IP, qs));
  }

  lemma {:induction false} FramesSplit(kind: byte, a: seq<seq<byte>>, b: seq<seq<byte>>)
    requires forall p :: p in a + b ==> !Unsupported(kind, p)
    ensures (forall p :: p in a ==> !Unsupported(kind, p)) && (forall p :: p in b ==> !Unsupported(kind, p))
    ensures Frames(kind, a + b) == Frames(kind, a) + Frames(kind, b)
  {
    assert forall p :: p in a || p in b ==> p in a + b;
    if a == [] {
      assert a + b == b;
    } else {
      assert (a + b)[1..] == a[1..] + b && (a + b)[0] == a[0];
      FramesSplit(kind, a[1..], b);
    }
  }

  lemma {:induction false} NoPayloads(kind: byte, sent: seq<Packed>)
    requires forall i :: 0 <= i < |sent| ==> sent[i].kind != kind
    ensures Payloads(kind, sent) == []
  {
    if sent != [] {
      NoPayloads(kind, sent[1..]);
    }
  }

  /** A data pass sends exactly the frames of the packets it takes. */
  lemma DataPassCarries(t: Tx)
    ensures Carries(SendData(t).sent, TakenBy(t))
  {
    if t.HasCredit() && !t.Throttled() {
      var f := Pack(TYPE_IP, t.dataQ, t.wr, []);
      PackContents(TYPE_IP, t.dataQ, t.wr, []);
      PackFitsStaging(TYPE_IP, t.dataQ, t.wr, []);
      PayloadsSplit(TYPE_IP, f.sent, Closing(TYPE_IP, f.batch));
      PayloadOfFlush(TYPE_IP, f.batch);
      assert [] + Concat(Frames(TYPE_IP, f.taken)) == Concat(Frames(TYPE_IP, f.taken));
    }
  }

  /** A command pass sends no tunnel bytes. */
  lemma CmdPassCarries(t: Tx)
    ensures Carries(SendCmd(t).sent, [])
  {
    if t.HasCredit() {
      PackFitsStaging(TYPE_CMD, t.cmdQ, t.wr, []);
    }
    NoPayloads(TYPE_IP, SendCmd(t).sent);
  }

  lemma PassCarries(s: Sys)
    requires WireCarries(s)
    ensures WireCarries(RunPass(s))
  {
    hide Carries, SendData, SendCmd, TakenBy;
    var d, c, taken := SendData(s.tx).sent, SendCmd(SendData(s.tx).tx).sent, TakenBy(s.tx);
    DataPassCarries(s.tx);
    CmdPassCarries(SendData(s.tx).tx);
    CarriesMore(d, taken, c, []);
    assert taken + [] == taken;
    CarriesMore(s.wire, s.packed, d + c, taken);
  }

  lemma {:induction false} RunCarries(window: nat, es: seq<Event>)
    requires Legal(Boot(window), es)
    ensures WireCarries(Exec(Boot(window), es))
  {
    if es != [] {
      var s, e := Exec(Boot(window), es[..|es| - 1]), es[|es| - 1];
      RunCarries(window, es[..|es| - 1]);
      match e {
        case Irq(grant, acks) =>
          if grant.Some? && !s.tx.HasCredit() {
            var s1 := TakeGrant(s, grant.value);
            PassCarries(s1.(tx := s1.tx.(unacked := ApplyAcks(s1.tx.unacked, acks))));
          }
        case WorkerPass => PassCarries(s.(workPending := false));
        case _ =>
      }
    }
  }
}
