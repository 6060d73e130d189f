/**
 * What one transmit pass does: artosyn_sdio_send_data then artosyn_sdio_send_cmd, under a credit grant and an
 * unacknowledged-bytes window (modules/artosyn_sdio.c).
 */
module TxPass {
  import opened Bytes
  import opened IpHeader
  import opened BlockRuns

  const U32 := 0x1_0000_0000
  const INFLIGHT_CAP := 1024

  /** The transmit-side state a pass reads and writes. */
  datatype Tx = Tx(rd: nat, wr: nat, dataQ: seq<seq<byte>>, cmdQ: seq<seq<byte>>, unacked: nat, window: nat,
                   inflight: nat) {
    predicate HasCredit() {
      rd != wr
    }

    /** More is pending an acknowledgement than the window allows. */
    predicate Throttled() {
      window != 0 && unacked > window
    }
  }

  /** A packet the packing loop throws away outright: only 0x45 IPv4 headers can be compressed. */
  predicate Unsupported(kind: byte, p: seq<byte>) {
    kind == TYPE_IP && (|p| < IP_HDR || p[0] != 0x45)
  }

  /** The bytes a queued packet contributes to a transfer. */
  function Frame(kind: byte, p: seq<byte>): seq<byte>
    requires !Unsupported(kind, p)
  {
    if kind == TYPE_IP then Compress(p) else p
  }

  function WireSize(n: nat): (r: nat)
    ensures n + LINK_TRAILER_LEN <= r && r % BLOCK == 0 && r >= BLOCK
  {
    BlockUp(n + LINK_TRAILER_LEN)
  }

  /** What a packing loop leaves: transfers flushed on the way, the open batch, the queue left, the packets packed. */
  datatype Fill = Fill(sent: seq<Packed>, batch: seq<byte>, rest: seq<seq<byte>>, taken: seq<seq<byte>>) {
    function After(sent0: seq<Packed>, taken0: seq<seq<byte>>): Fill {
      Fill(sent0 + sent, batch, rest, taken0 + taken)
    }
  }

  /** The packing loop shared by both directions, from an already open batch. */
  function Pack(kind: byte, q: seq<seq<byte>>, grant: nat, batch: seq<byte>): (f: Fill)
    ensures |f.rest| <= |q|
    decreases |q|
  {
    if q == [] then Fill([], batch, [], [])
    else if Unsupported(kind, q[0]) then Pack(kind, q[1..], grant, batch)
    else
      var c := Frame(kind, q[0]);
      if WireSize(|batch| + |c|) > grant then
        if batch != [] then Fill([], batch, q, []) else Pack(kind, q[1..], grant, batch)
      else
        var full := batch != [] && |batch| + |c| + LINK_TRAILER_LEN > STAGING;
        var flushed := if full then [Packed(kind, batch)] else [];
        var open := if full then [] else batch;
        if |c| + LINK_TRAILER_LEN > STAGING then Pack(kind, q[1..], grant, open).After(flushed, [])
        else Pack(kind, q[1..], grant, open + c).After(flushed, [q[0]])
  }

  /** atomic_dec_if_positive, k times. */
  function Dec(n: nat, k: nat): nat {
    if n >= k then n - k else 0
  }

  function Closing(kind: byte, batch: seq<byte>): seq<Packed> {
    if batch == [] then [] else [Packed(kind, batch)]
  }

  datatype Pass = Pass(tx: Tx, sent: seq<Packed>)

  /** artosyn_sdio_send_data. */
  function SendData(t: Tx): Pass {
    if !t.HasCredit() || t.Throttled() then Pass(t, [])
    else
      var f := Pack(TYPE_IP, t.dataQ, t.wr, []);
      var queue := t.(dataQ := f.rest, inflight := Dec(t.inflight, |t.dataQ| - |f.rest|));
      Pass(if f.batch == [] then queue else queue.(rd := t.wr, unacked := (t.unacked + |f.batch|) % U32),
           f.sent + Closing(TYPE_IP, f.batch))
  }

  /** artosyn_sdio_send_cmd: an empty 0xDD keepalive consumes a grant that throttled data left behind. */
  function SendCmd(t: Tx): Pass {
    if !t.HasCredit() then Pass(t, [])
    else
      var f := Pack(TYPE_CMD, t.cmdQ, t.wr, []);
      var queue := t.(cmdQ := f.rest);
      if f.batch != [] then Pass(queue.(rd := t.wr), f.sent + [Packed(TYPE_CMD, f.batch)])
      else if t.dataQ != [] then Pass(queue.(rd := t.wr), f.sent + [Packed(TYPE_CMD, [])])
      else Pass(queue, f.sent)
  }

  /** One worker pass, or the transmit half of an interrupt: data first, then commands. */
  function TxPassOf(t: Tx): Pass {
    var d := SendData(t);
    var c := SendCmd(d.tx);
    Pass(c.tx, d.sent + c.sent)
  }

  // ---- what packing does ----

  /** The loop leaves a suffix of the queue; with nothing packed it has gone through all of it. */
  lemma {:induction false} PackLeavesSuffix(kind: byte, q: seq<seq<byte>>, grant: nat, batch: seq<byte>)
    ensures var f := Pack(kind, q, grant, batch);
            |f.rest| <= |q| && f.rest == q[|q| - |f.rest|..] && (f.batch == [] ==> f.rest == [])
    decreases |q|
  {
    hide Compress, BlockUp, Frame, WireSize, Unsupported;
    if q != [] && !Unsupported(kind, q[0]) {
      var c := Frame(kind, q[0]);
      if WireSize(|batch| + |c|) <= grant {
        var open := if batch != [] && |batch| + |c| + LINK_TRAILER_LEN > STAGING then [] else batch;
        PackLeavesSuffix(kind, q[1..], grant, if |c| + LINK_TRAILER_LEN > STAGING then open else open + c);
      } else if batch == [] {
        PackLeavesSuffix(kind, q[1..], grant, batch);
      }
    } else if q != [] {
      PackLeavesSuffix(kind, q[1..], grant, batch);
    }
  }

  predicate Fits(n: nat) {
    n + LINK_TRAILER_LEN <= STAGING
  }

  /** Every transfer fits the staging buffer, so its length field and trailer are exact. */
  lemma {:induction false} PackFitsStaging(kind: byte, q: seq<seq<byte>>, grant: nat, batch: seq<byte>)
    requires Fits(|batch|)
    ensures var f := Pack(kind, q, grant, batch);
            Fits(|f.batch|) && forall i :: 0 <= i < |f.sent| ==> f.sent[i].kind == kind && Fits(|f.sent[i].payload|)
    decreases |q|
  {
    if q != [] && !Unsupported(kind, q[0]) {
      var c := Frame(kind, q[0]);
      if WireSize(|batch| + |c|) <= grant {
        var open := if batch != [] && |batch| + |c| + LINK_TRAILER_LEN > STAGING then [] else batch;
        PackFitsStaging(kind, q[1..], grant, if |c| + LINK_TRAILER_LEN > STAGING then open else open + c);
      } else if batch == [] {
        PackFitsStaging(kind, q[1..], grant, batch);
      }
    } else if q != [] {
      PackFitsStaging(kind, q[1..], grant, batch);
    }
  }

  /** Under a grant the staging buffer can hold, nothing is flushed on the way and the batch fits the grant. */
  lemma {:induction false} PackWithinGrant(kind: byte, q: seq<seq<byte>>, grant: nat, batch: seq<byte>)
    requires grant <= STAGING && (batch == [] || WireSize(|batch|) <= grant)
    ensures var f := Pack(kind, q, grant, batch); f.sent == [] && (f.batch == [] || WireSize(|f.batch|) <= grant)
    decreases |q|
  {
    if q != [] && !Unsupported(kind, q[0]) {
      var c := Frame(kind, q[0]);
      if WireSize(|batch| + |c|) <= grant {
        assert |batch + c| + LINK_TRAILER_LEN <= STAGING;
        PackWithinGrant(kind, q[1..], grant, batch + c);
      } else if batch == [] {
        PackWithinGrant(kind, q[1..], grant, batch);
      }
    } else if q != [] {
      PackWithinGrant(kind, q[1..], grant, batch);
    }
  }

  /** A send pass ends with the grant consumed or with both queues empty: no grant is stranded. */
  lemma {:induction false} PassConsumesOrDrains(t: Tx)
    ensures var u := TxPassOf(t).tx;
            !u.HasCredit() || (u.dataQ == [] && u.cmdQ == [])
    ensures TxPassOf(t).tx.wr == t.wr && (TxPassOf(t).tx.rd == t.rd || TxPassOf(t).tx.rd == t.wr)
  {
    PackLeavesSuffix(TYPE_IP, t.dataQ, t.wr, []);
    var d := SendData(t).tx;
    PackLeavesSuffix(TYPE_CMD, d.cmdQ, d.wr, []);
  }

  /** A grant of at most the staging buffer causes at most one transfer, no larger than the grant. */
  lemma {:induction false} OneTransferPerGrant(t: Tx)
    requires t.HasCredit() && BLOCK <= t.wr <= STAGING
    ensures var p := TxPassOf(t);
            && |p.sent| <= 1
            && (p.sent != [] ==> !p.tx.HasCredit() && WireSize(|p.sent[0].payload|) <= t.wr)
  {
    PackWithinGrant(TYPE_IP, t.dataQ, t.wr, []);
    var d := SendData(t).tx;
    if d.HasCredit() {
      PackWithinGrant(TYPE_CMD, d.cmdQ, d.wr, []);
    }
  }

  /** A packet of the given length that the loop can compress. */
  function PacketOf(len: nat): (p: seq<byte>)
    requires len > 0
    ensures |p| == len && p[0] == 0x45
  {
    [0x45] + seq(len - 1, i => 0)
  }

  /** So many packets of the link's default MTU, and one of 200 bytes. */
  function FullQueue(k: nat): (q: seq<seq<byte>>)
    ensures q != []
  {
    if k == 0 then [PacketOf(200)] else [PacketOf(4096)] + FullQueue(k - 1)
  }

  lemma StagingBlocks(grant: nat)
    requires grant > STAGING && grant % BLOCK == 0
    ensures forall n: nat :: n + LINK_TRAILER_LEN <= 66048 ==> WireSize(n) <= grant
  {
    forall n: nat | n + LINK_TRAILER_LEN <= 66048
      ensures WireSize(n) <= grant
    {
      WireSizeMonotone(n, 66044);
      assert WireSize(66044) == 66048;
    }
  }

  /** Sixteen full packets fill the staging buffer, and the small one flushes them. */
  lemma {:induction false} FullQueueFlushes(grant: nat, k: nat, batch: seq<byte>)
    requires grant > STAGING && grant % BLOCK == 0 && k <= 16 && |batch| == (16 - k) * 4088
    ensures var f := Pack(TYPE_IP, FullQueue(k), grant, batch); |f.sent| == 1 && f.batch != []
    decreases k
  {
    var q := FullQueue(k);
    var c := Compress(q[0]);
    StagingBlocks(grant);
    if k == 0 {
      assert q[1..] == [];
      LastOfQueue(grant, c);
      PackOverflows(q, grant, batch);
    } else {
      assert q[1..] == FullQueue(k - 1) && |c| == 4088;
      FullQueueFlushes(grant, k - 1, batch + c);
      PackTakesOne(q, grant, batch);
    }
  }

  lemma LastOfQueue(grant: nat, batch: seq<byte>)
    ensures Pack(TYPE_IP, [], grant, batch) == Fill([], batch, [], [])
  {
  }

  lemma PackTakesOne(q: seq<seq<byte>>, grant: nat, batch: seq<byte>)
    requires q != [] && !Unsupported(TYPE_IP, q[0])
    requires var c := Compress(q[0]); WireSize(|batch| + |c|) <= grant && Fits(|batch| + |c|)
    ensures var c := Compress(q[0]);
            Pack(TYPE_IP, q, grant, batch) == Pack(TYPE_IP, q[1..], grant, batch + c).After([], [q[0]])
  {
    hide WireSize, Compress;
  }

  lemma PackOverflows(q: seq<seq<byte>>, grant: nat, batch: seq<byte>)
    requires q != [] && !Unsupported(TYPE_IP, q[0]) && batch != []
    requires var c := Compress(q[0]); WireSize(|batch| + |c|) <= grant && !Fits(|batch| + |c|) && Fits(|c|)
    ensures var c := Compress(q[0]);
            Pack(TYPE_IP, q, grant, batch)
            == Pack(TYPE_IP, q[1..], grant, c).After([Packed(TYPE_IP, batch)], [q[0]])
  {
    hide WireSize, Compress;
    assert [] + Compress(q[0]) == Compress(q[0]);
  }

  /** The bound on the grant is exact: above it some queue makes one grant cause two transfers. */
  lemma {:induction false} SingleTransferIffGrantFitsStaging(grant: nat)
    requires grant >= BLOCK && grant % BLOCK == 0
    ensures (forall t: Tx :: t.HasCredit() && t.wr == grant ==> |TxPassOf(t).sent| <= 1) <==> grant <= STAGING
  {
    if grant <= STAGING {
      forall t: Tx | t.HasCredit() && t.wr == grant
        ensures |TxPassOf(t).sent| <= 1
      {
        OneTransferPerGrant(t);
      }
    } else {
      var t := Tx(0, grant, FullQueue(16), [], 0, 0, 17);
      FullQueueFlushes(grant, 16, []);
      assert |SendData(t).sent| == 2;
      assert t.HasCredit() && |TxPassOf(t).sent| >= 2;
    }
  }

  /** One pass can push the window past its limit by at most one staging buffer. */
  lemma {:induction false} WindowOvershoot(t: Tx)
    requires t.window != 0 && t.unacked <= t.window + STAGING - LINK_TRAILER_LEN
    ensures TxPassOf(t).tx.unacked <= t.window + STAGING - LINK_TRAILER_LEN && TxPassOf(t).tx.window == t.window
  {
    PackFitsStaging(TYPE_IP, t.dataQ, t.wr, []);
  }

  /** A pass with nothing queued sends nothing and keeps its credit. */
  lemma {:induction false} IdlePassSendsNothing(t: Tx)
    requires t.dataQ == [] && t.cmdQ == []
    ensures TxPassOf(t).sent == [] && TxPassOf(t).tx.rd == t.rd
  {
  }

  /** Data held back by the window, with no command to send, costs the grant one empty command transfer. */
  lemma {:induction false} HeldBackDataSendsKeepalive(t: Tx)
    requires t.HasCredit() && t.window != 0 && t.unacked > t.window && t.dataQ != [] && t.cmdQ == []
    ensures TxPassOf(t).sent == [Packed(TYPE_CMD, [])] && TxPassOf(t).tx.rd == t.wr && TxPassOf(t).tx.dataQ == t.dataQ
  {
    assert SendCmd(t).sent == [] + [Packed(TYPE_CMD, [])];
  }

  /** The in-flight count is the data queue's length before a pass and after it. */
  lemma {:induction false} InflightConserved(t: Tx)
    requires t.inflight == |t.dataQ|
    ensures TxPassOf(t).tx.inflight == |TxPassOf(t).tx.dataQ| <= |t.dataQ|
  {
    PackLeavesSuffix(TYPE_IP, t.dataQ, t.wr, []);
  }

  // ---- what reaches the wire ----

  function Frames(kind: byte, ps: seq<seq<byte>>): seq<seq<byte>>
    requires forall p :: p in ps ==> !Unsupported(kind, p)
  {
    if ps == [] then [] else [Frame(kind, ps[0])] + Frames(kind, ps[1..])
  }

  function Payloads(kind: byte, sent: seq<Packed>): seq<byte> {
    if sent == [] then []
    else (if sent[0].kind == kind then sent[0].payload else []) + Payloads(kind, sent[1..])
  }

  lemma {:induction false} PayloadsSplit(kind: byte, a: seq<Packed>, b: seq<Packed>)
    ensures Payloads(kind, a + b) == Payloads(kind, a) + Payloads(kind, b)
  {
    if a == [] {
      assert a + b == b;
    } else {
      PayloadsSplit(kind, a[1..], b);
      assert (a + b)[1..] == a[1..] + b && (a + b)[0] == a[0];
      var x, y, z := if a[0].kind == kind then a[0].payload else [], Payloads(kind, a[1..]), Payloads(kind, b);
      hide Payloads;
      assert x + (y + z) == x + y + z;
    }
  }

  lemma Regroup(p: seq<byte>, s: seq<byte>, b: seq<byte>, open: seq<byte>, c: seq<byte>, z: seq<byte>)
    requires s + b == open + c + z
    ensures p + s + b == p + open + (c + z)
  {
    assert p + s + b == p + (s + b);
    assert p + (open + c + z) == p + open + (c + z);
  }

  lemma {:induction false} FramesCons(kind: byte, p: seq<byte>, ps: seq<seq<byte>>)
    requires !Unsupported(kind, p) && forall x :: x in ps ==> !Unsupported(kind, x)
    ensures (forall x :: x in [p] + ps ==> !Unsupported(kind, x))
            && Concat(Frames(kind, [p] + ps)) == Frame(kind, p) + Concat(Frames(kind, ps))
  {
    assert ([p] + ps)[1..] == ps;
    var fr := Frames(kind, ps);
    assert ([Frame(kind, p)] + fr)[1..] == fr;
  }

  predicate ContentsMatch(kind: byte, f: Fill, batch: seq<byte>) {
    && (forall p :: p in f.taken ==> !Unsupported(kind, p))
    && Payloads(kind, f.sent) + f.batch == batch + Concat(Frames(kind, f.taken))
  }

  /** Packing goes on after an optional flush, having packed nothing more. */
  lemma {:induction false} ContentsAfterFlush(kind: byte, f: Fill, flushed: seq<Packed>, open: seq<byte>)
    requires ContentsMatch(kind, f, open)
    ensures ContentsMatch(kind, f.After(flushed, []), Payloads(kind, flushed) + open)
  {
    PayloadsSplit(kind, flushed, f.sent);
    NothingInFront(f.taken);
    hide Payloads, Frames, Concat;
    var z := Concat(Frames(kind, f.taken));
    JoinThree(Payloads(kind, flushed), Payloads(kind, f.sent), f.batch);
    JoinThree(Payloads(kind, flushed), open, z);
  }

  lemma NothingInFront<T>(s: seq<T>)
    ensures [] + s == s
  {
  }

  /** Packing goes on after an optional flush, having packed p. */
  lemma {:induction false} ContentsAfterTaking(kind: byte, f: Fill, flushed: seq<Packed>, open: seq<byte>, p: seq<byte>)
    requires !Unsupported(kind, p) && ContentsMatch(kind, f, open + Frame(kind, p))
    ensures ContentsMatch(kind, f.After(flushed, [p]), Payloads(kind, flushed) + open)
  {
    PayloadsSplit(kind, flushed, f.sent);
    FramesCons(kind, p, f.taken);
    Regroup(Payloads(kind, flushed), Payloads(kind, f.sent), f.batch, open, Frame(kind, p),
            Concat(Frames(kind, f.taken)));
  }

  lemma PayloadOfFlush(kind: byte, batch: seq<byte>)
    ensures Payloads(kind, [Packed(kind, batch)]) == batch && Payloads(kind, []) == []
  {
    assert Payloads(kind, [Packed(kind, batch)]) == batch + Payloads(kind, [Packed(kind, batch)][1..]);
  }

  /** The bytes on the wire are the open batch and then the packed packets' frames, in order. */
  lemma {:induction false} PackContents(kind: byte, q: seq<seq<byte>>, grant: nat, batch: seq<byte>)
    ensures ContentsMatch(kind, Pack(kind, q, grant, batch), batch)
    decreases |q|
  {
    if q == [] || (!Unsupported(kind, q[0]) && WireSize(|batch| + |Frame(kind, q[0])|) > grant && batch != []) {
      assert batch + [] == batch;
    } else if Unsupported(kind, q[0]) || WireSize(|batch| + |Frame(kind, q[0])|) > grant {
      PackContents(kind, q[1..], grant, batch);
    } else {
      var c := Frame(kind, q[0]);
      var full := batch != [] && |batch| + |c| + LINK_TRAILER_LEN > STAGING;
      var open := if full then [] else batch;
      var flushed := if full then [Packed(kind, batch)] else [];
      PayloadOfFlush(kind, batch);
      assert Payloads(kind, flushed) + open == batch;
      if |c| + LINK_TRAILER_LEN > STAGING {
        PackContents(kind, q[1..], grant, open);
        ContentsAfterFlush(kind, Pack(kind, q[1..], grant, open), flushed, open);
      } else {
        PackContents(kind, q[1..], grant, open + c);
        ContentsAfterTaking(kind, Pack(kind, q[1..], grant, open + c), flushed, open, q[0]);
      }
    }
  }

  /** A packet the pass can carry: supported, within the grant on its own, and not larger than the staging buffer. */
  predicate Carriable(kind: byte, p: seq<byte>, grant: nat) {
    !Unsupported(kind, p) && WireSize(|Frame(kind, p)|) <= grant && Fits(|Frame(kind, p)|)
  }

  /** Which packets a pass can carry, in numbers: IPv4 without options, eight bytes less, a trailer, whole blocks. */
  lemma {:induction false} CarriableIff(p: seq<byte>, grant: nat)
    ensures Carriable(TYPE_IP, p, grant) <==>
            |p| >= 20 && p[0] == 0x45 && (|p| - 8 + 4 + 511) / 512 * 512 <= grant && |p| - 8 + 4 <= 65536
    ensures Carriable(TYPE_CMD, p, grant) <==> (|p| + 4 + 511) / 512 * 512 <= grant && |p| + 4 <= 65536
  {
  }

  /** The carriable packets among q, in order. */
  function Carried(kind: byte, q: seq<seq<byte>>, grant: nat): (r: seq<seq<byte>>)
    ensures |r| <= |q|
  {
    if q == [] then []
    else (if Carriable(kind, q[0], grant) then [q[0]] else []) + Carried(kind, q[1..], grant)
  }

  lemma WireSizeMonotone(m: nat, n: nat)
    requires m <= n
    ensures WireSize(m) <= WireSize(n)
  {
  }

  /** The part of a queue a loop that leaves n packets has gone through. */
  function Consumed(q: seq<seq<byte>>, n: nat): seq<seq<byte>>
    requires n <= |q|
  {
    q[..|q| - n]
  }

  /** The open batch's size once a frame of n bytes has been fitted under the grant. */
  function Staged(used: nat, n: nat): nat {
    var open := if used > 0 && used + n + LINK_TRAILER_LEN > STAGING then 0 else used;
    if Fits(n) then open + n else open
  }

  /** How many packets of a queue the loop goes through before one no longer fits behind what is already staged. */
  function Reach(kind: byte, q: seq<seq<byte>>, grant: nat, used: nat): (n: nat)
    ensures n <= |q|
    decreases |q|
  {
    if q == [] then 0
    else if Unsupported(kind, q[0]) then 1 + Reach(kind, q[1..], grant, used)
    else
      var n := |Frame(kind, q[0])|;
      if WireSize(used + n) <= grant then 1 + Reach(kind, q[1..], grant, Staged(used, n))
      else if used == 0 then 1 + Reach(kind, q[1..], grant, 0)
      else 0
  }

  lemma {:induction false} PackReaches(kind: byte, q: seq<seq<byte>>, grant: nat, batch: seq<byte>)
    ensures |q| - |Pack(kind, q, grant, batch).rest| == Reach(kind, q, grant, |batch|)
    decreases |q|
  {
    hide Compress, BlockUp, Frame, WireSize, Unsupported;
    if q == [] {
      return;
    }
    if Unsupported(kind, q[0]) {
      PackReaches(kind, q[1..], grant, batch);
    } else {
      var c := Frame(kind, q[0]);
      if WireSize(|batch| + |c|) <= grant {
        var open := if batch != [] && |batch| + |c| + LINK_TRAILER_LEN > STAGING then [] else batch;
        PackReaches(kind, q[1..], grant, if |c| + LINK_TRAILER_LEN > STAGING then open else open + c);
      } else if batch == [] {
        PackReaches(kind, q[1..], grant, batch);
      }
    }
  }

  lemma {:induction false} CarriedCons(kind: byte, q: seq<seq<byte>>, n: nat, grant: nat)
    requires q != [] && n <= |q| - 1
    ensures Carried(kind, Consumed(q, n), grant)
            == (if Carriable(kind, q[0], grant) then [q[0]] else []) + Carried(kind, Consumed(q[1..], n), grant)
  {
    assert Consumed(q, n)[1..] == Consumed(q[1..], n);
  }

  /** Of the packets the loop goes through, exactly the carriable ones are packed, in order. */
  lemma {:induction false} PackTakesCarriable(kind: byte, q: seq<seq<byte>>, grant: nat, batch: seq<byte>)
    ensures var f := Pack(kind, q, grant, batch);
            |f.rest| <= |q| && f.taken == Carried(kind, Consumed(q, |f.rest|), grant)
    decreases |q|
  {
    if q == [] {
      return;
    }
    var f := Pack(kind, q, grant, batch);
    hide Compress, BlockUp;
    if Unsupported(kind, q[0]) {
      PackTakesCarriable(kind, q[1..], grant, batch);
      CarriedCons(kind, q, |f.rest|, grant);
    } else {
      var c := Frame(kind, q[0]);
      WireSizeMonotone(|c|, |batch| + |c|);
      if WireSize(|batch| + |c|) > grant {
        if batch == [] {
          PackTakesCarriable(kind, q[1..], grant, batch);
          CarriedCons(kind, q, |f.rest|, grant);
        } else {
          assert Consumed(q, |q|) == [];
        }
      } else {
        var open := if batch != [] && |batch| + |c| + LINK_TRAILER_LEN > STAGING then [] else batch;
        PackTakesCarriable(kind, q[1..], grant, if |c| + LINK_TRAILER_LEN > STAGING then open else open + c);
        CarriedCons(kind, q, |f.rest|, grant);
      }
    }
  }

  lemma {:induction false} CarriedAllIff(kind: byte, q: seq<seq<byte>>, grant: nat)
    ensures |Carried(kind, q, grant)| == |q| <==> forall i :: 0 <= i < |q| ==> Carriable(kind, q[i], grant)
    ensures |Carried(kind, q, grant)| == |q| ==> Carried(kind, q, grant) == q
  {
    if q != [] {
      CarriedAllIff(kind, q[1..], grant);
      assert forall i :: 0 <= i < |q| - 1 ==> q[1..][i] == q[i + 1];
      assert (forall i :: 0 <= i < |q| ==> Carriable(kind, q[i], grant)) <==>
        Carriable(kind, q[0], grant) && forall i :: 0 <= i < |q| - 1 ==> Carriable(kind, q[1..][i], grant);
    }
  }

  /** Every packet is packed or left queued, in order, if and only if all the loop went through were carriable. */
  lemma {:induction false} PackKeepsCarriable(kind: byte, q: seq<seq<byte>>, grant: nat, batch: seq<byte>)
    ensures var f := Pack(kind, q, grant, batch);
            |f.rest| <= |q| &&
            (f.taken + f.rest == q <==> forall i :: 0 <= i < |q| - |f.rest| ==> Carriable(kind, q[i], grant))
  {
    hide Pack, Carried, Carriable;
    var f := Pack(kind, q, grant, batch);
    PackLeavesSuffix(kind, q, grant, batch);
    PackTakesCarriable(kind, q, grant, batch);
    var c := Consumed(q, |f.rest|);
    CarriedAllIff(kind, c, grant);
    assert q == c + f.rest;
    assert forall i :: 0 <= i < |c| ==> c[i] == q[i];
    if f.taken + f.rest == q {
      assert |f.taken| == |c|;
    }
  }
}
