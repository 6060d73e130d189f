/** The transmit half of the link driver: queues, credit, staging buffer (modules/artosyn_sdio.c). */
module TxLink {
  import opened Bytes
  import opened IpHeader
  import opened BlockRuns
  import opened TxPass

  class Transmitter {
    var txReadAcc: nat
    var txWriteAcc: nat
    var dataTxq: seq<seq<byte>>
    var cmdTxq: seq<seq<byte>>
    var unackedBytes: nat
    var unackedMax: nat
    var inflight: nat
    var txBuf: array<byte>

    /** Every transfer written to the chip's FIFO, and what each one means. */
    var fifo: seq<seq<byte>>
    ghost var log: seq<Packed>

    ghost predicate Valid()
      reads this
    {
      txBuf.Length == STAGING && AllEncode(log, fifo)
    }

    ghost function State(): Tx
      reads this
    {
      Tx(txReadAcc, txWriteAcc, dataTxq, cmdTxq, unackedBytes, unackedMax, inflight)
    }

    constructor (window: nat)
      ensures Valid() && fresh(txBuf) && State() == Tx(0, 0, [], [], 0, window, 0) && fifo == []
    {
      txReadAcc, txWriteAcc, dataTxq, cmdTxq := 0, 0, [], [];
      unackedBytes, unackedMax, inflight := 0, window, 0;
      txBuf := new byte[STAGING](_ => 0);
      fifo, log := [], [];
    }

    /** artosyn_tx_flush: trailer in the last four bytes of the block run, then out. */
    method Flush(used: nat, kind: byte)
      requires Valid() && Fits(used) && kind in {TYPE_IP, TYPE_CMD, TYPE_ACK}
      modifies this`fifo, this`log, txBuf
      ensures Valid() && log == old(log) + [Packed(kind, old(txBuf[..used]))]
      ensures |fifo| == |old(fifo)| + 1 && old(fifo) <= fifo
    {
      ghost var payload := txBuf[..used];
      hide BlockUp, Encodes;
      var blk := WireSize(used);
      txBuf[blk - 4] := 0x00;
      txBuf[blk - 3] := kind;
      txBuf[blk - 2] := used % 256;
      txBuf[blk - 1] := used / 256 % 256;
      ghost var img := txBuf[..blk];
      assert img[..used] == payload;
      TrailerEncodes(Packed(kind, payload), img);
      fifo := fifo + [txBuf[..blk]];
      log := log + [Packed(kind, payload)];
    }

    /** The part both packing loops share: flush a batch the frame would overflow, then stage the frame if it fits. */
    method Stage(kind: byte, used0: nat, c: seq<byte>) returns (used: nat)
      requires Valid() && Fits(used0) && kind in {TYPE_IP, TYPE_CMD, TYPE_ACK}
      modifies this`fifo, this`log, txBuf
      ensures Valid() && Fits(used) && old(fifo) <= fifo
      ensures var batch := old(txBuf[..used0]);
              var full := batch != [] && |batch| + |c| + LINK_TRAILER_LEN > STAGING;
              && log == old(log) + (if full then [Packed(kind, batch)] else [])
              && txBuf[..used] == (if full then [] else batch) + (if Fits(|c|) then c else [])
    {
      used := used0;
      if used > 0 && used + |c| + LINK_TRAILER_LEN > STAGING {
        Flush(used, kind);
        used := 0;
      }
      if |c| + LINK_TRAILER_LEN <= STAGING {
        forall k | used <= k < used + |c| {
          txBuf[k] := c[k - used];
        }
        used := used + |c|;
      }
    }

    /** Takes the first packet off the queue and gives its in-flight count back. */
    method DropHead()
      requires Valid() && dataTxq != []
      modifies this`dataTxq, this`inflight
      ensures Valid() && dataTxq == old(dataTxq[1..]) && inflight == Dec(old(inflight), 1)
    {
      dataTxq := dataTxq[1..];
      inflight := Dec(inflight, 1);
    }

    /** Compresses a packet's header in place and stages the frame. */
    method StageFrame(used0: nat, skb: seq<byte>) returns (used: nat)
      requires Valid() && Fits(used0) && !Unsupported(TYPE_IP, skb)
      modifies this`fifo, this`log, txBuf
      ensures Valid() && Fits(used) && old(fifo) <= fifo
      ensures var batch, c := old(txBuf[..used0]), Compress(skb);
              var full := batch != [] && |batch| + |c| + LINK_TRAILER_LEN > STAGING;
              && log == old(log) + (if full then [Packed(TYPE_IP, batch)] else [])
              && txBuf[..used] == (if full then [] else batch) + (if Fits(|c|) then c else [])
    {
      var d := new byte[|skb|](i requires 0 <= i < |skb| => skb[i]);
      assert d[..] == skb;
      hide Compress, Encodes;
      BuildIpHead(d);
      used := Stage(TYPE_IP, used0, d[IP_HEAD_SHRINK..]);
    }

    method SendData()
      requires Valid()
      modifies this`txReadAcc, this`dataTxq, this`unackedBytes, this`inflight, this`fifo, this`log, txBuf
      ensures Valid() && State() == TxPass.SendData(old(State())).tx
      ensures log == old(log) + TxPass.SendData(old(State())).sent && old(fifo) <= fifo
    {
      ghost var t := State();
      if txWriteAcc == txReadAcc {
        return;
      }
      if unackedMax != 0 && unackedBytes > unackedMax {
        return;
      }
      var used := PackData();
      if used > 0 {
        assert txBuf[..used] != [];
        Flush(used, TYPE_IP);
        txReadAcc := txWriteAcc;
        unackedBytes := (unackedBytes + used) % U32;
      }
    }

    /** The bulk packing loop. */
    method PackData() returns (used: nat)
      requires Valid()
      modifies this`dataTxq, this`inflight, this`fifo, this`log, txBuf
      ensures Valid() && Fits(used) && old(fifo) <= fifo
      ensures var f := Pack(TYPE_IP, old(dataTxq), txWriteAcc, []);
              && dataTxq == f.rest && txBuf[..used] == f.batch && log == old(log) + f.sent
              && inflight == Dec(old(inflight), |old(dataTxq)| - |f.rest|)
    {
      hide Compress, BlockUp, Encodes, Pack;
      used := 0;
      ghost var q, n, sent, taken := dataTxq, inflight, [], [];
      ghost var whole := Pack(TYPE_IP, q, txWriteAcc, []);
      AfterNothing(whole);
      assert txBuf[..0] == [];
      while dataTxq != []
        invariant Valid() && Fits(used) && |dataTxq| <= |q| && old(fifo) <= fifo
        invariant whole == Pack(TYPE_IP, dataTxq, txWriteAcc, txBuf[..used]).After(sent, taken)
        invariant log == old(log) + sent && inflight == Dec(n, |q| - |dataTxq|)
        decreases |dataTxq|
      {
        var skb := dataTxq[0];
        ghost var batch := txBuf[..used];
        if |skb| < IP_HDR || skb[0] != 0x45 {
          PackDrops(TYPE_IP, dataTxq, txWriteAcc, batch, sent, taken);
          DropHead();
        } else if WireSize(used + |skb| - IP_HEAD_SHRINK) > txWriteAcc {
          if used > 0 {
            PackStops(TYPE_IP, dataTxq, txWriteAcc, batch, sent, taken);
            return;
          }
          PackDrops(TYPE_IP, dataTxq, txWriteAcc, batch, sent, taken);
          DropHead();
        } else {
          PackStages(TYPE_IP, dataTxq, txWriteAcc, batch, sent, taken);
          ghost var log0 := log;
          used := StageFrame(used, skb);
          DropHead();
          sent := sent + log[|log0|..];
          taken := if Fits(|Compress(skb)|) then taken + [skb] else taken;
        }
      }
      PackOfNone(TYPE_IP, txWriteAcc, txBuf[..used], sent, taken);
    }

    method SendCmd()
      requires Valid()
      modifies this`txReadAcc, this`cmdTxq, this`fifo, this`log, txBuf
      ensures Valid() && State() == TxPass.SendCmd(old(State())).tx
      ensures log == old(log) + TxPass.SendCmd(old(State())).sent && old(fifo) <= fifo
    {
      if txWriteAcc == txReadAcc {
        return;
      }
      var used := PackCmd();
      if used > 0 {
        assert txBuf[..used] != [];
        Flush(used, TYPE_CMD);
        txReadAcc := txWriteAcc;
      } else if dataTxq != [] && txWriteAcc != txReadAcc {
        assert txBuf[..0] == [];
        Flush(0, TYPE_CMD);
        txReadAcc := txWriteAcc;
      }
    }

    /** The command packing loop. */
    method PackCmd() returns (used: nat)
      requires Valid()
      modifies this`cmdTxq, this`fifo, this`log, txBuf
      ensures Valid() && Fits(used) && old(fifo) <= fifo
      ensures var f := Pack(TYPE_CMD, old(cmdTxq), txWriteAcc, []);
              cmdTxq == f.rest && txBuf[..used] == f.batch && log == old(log) + f.sent
    {
      hide BlockUp, Encodes, Pack;
      used := 0;
      ghost var q, sent, taken := cmdTxq, [], [];
      ghost var whole := Pack(TYPE_CMD, q, txWriteAcc, []);
      AfterNothing(whole);
      assert txBuf[..0] == [];
      while cmdTxq != []
        invariant Valid() && Fits(used) && old(fifo) <= fifo
        invariant whole == Pack(TYPE_CMD, cmdTxq, txWriteAcc, txBuf[..used]).After(sent, taken)
        invariant log == old(log) + sent
        decreases |cmdTxq|
      {
        var skb := cmdTxq[0];
        ghost var batch := txBuf[..used];
        if WireSize(used + |skb|) > txWriteAcc {
          if used > 0 {
            PackStops(TYPE_CMD, cmdTxq, txWriteAcc, batch, sent, taken);
            return;
          }
          PackDrops(TYPE_CMD, cmdTxq, txWriteAcc, batch, sent, taken);
          cmdTxq := cmdTxq[1..];
        } else {
          PackStages(TYPE_CMD, cmdTxq, txWriteAcc, batch, sent, taken);
          ghost var log0 := log;
          used := Stage(TYPE_CMD, used, skb);
          cmdTxq := cmdTxq[1..];
          sent := sent + log[|log0|..];
          taken := if Fits(|skb|) then taken + [skb] else taken;
        }
      }
      PackOfNone(TYPE_CMD, txWriteAcc, txBuf[..used], sent, taken);
    }

    /** artosyn_sdio_eth_worker, and the transmit half of the interrupt. */
    method Worker()
      requires Valid()
      modifies this`txReadAcc, this`dataTxq, this`cmdTxq, this`unackedBytes, this`inflight, this`fifo, this`log, txBuf
      ensures Valid() && State() == TxPassOf(old(State())).tx && log == old(log) + TxPassOf(old(State())).sent
      ensures old(fifo) <= fifo
    {
      SendData();
      SendCmd();
    }

    /** The EVT_TX leg of the interrupt: a grant is taken only when the previous one has been consumed. */
    method Grant(blocks: byte) returns (taken: bool)
      requires Valid()
      modifies this`txReadAcc, this`txWriteAcc
      ensures Valid() && taken == (old(txReadAcc) == old(txWriteAcc))
      ensures State() == if taken then old(State()).(rd := 0, wr := blocks * BLOCK) else old(State())
    {
      var cnt: nat := blocks * BLOCK;
      taken := txReadAcc == txWriteAcc;
      if taken {
        txReadAcc := 0;
        txWriteAcc := cnt;
      }
    }

    /** artosyn_sdio_net_start_xmit up to the point where the worker is queued. */
    method StartXmit(skb: seq<byte>) returns (queued: bool)
      requires Valid()
      modifies this`dataTxq, this`inflight
      ensures Valid()
      ensures queued == (|skb| >= IP_HDR && skb[0] / 16 == 4 && old(inflight) < INFLIGHT_CAP)
      ensures State() == if queued then old(State()).(dataQ := old(dataTxq) + [skb], inflight := old(inflight) + 1)
                         else old(State())
    {
      queued := false;
      if |skb| < IP_HDR || skb[0] / 16 != 4 {
        return;
      }
      inflight := inflight + 1;
      if inflight > INFLIGHT_CAP {
        inflight := inflight - 1;
        return;
      }
      dataTxq := dataTxq + [skb];
      queued := true;
    }

    /** artosyn_sdio_net_close's drain: every queued packet gives its in-flight count back. */
    method Drain()
      requires Valid()
      modifies this`dataTxq, this`cmdTxq, this`inflight
      ensures Valid()
      ensures State() == old(State()).(dataQ := [], cmdQ := [], inflight := Dec(old(inflight), |old(dataTxq)|))
    {
      ghost var n, len := inflight, |dataTxq|;
      while dataTxq != []
        invariant |dataTxq| <= len && inflight == Dec(n, len - |dataTxq|)
        invariant Valid() && State() == old(State()).(dataQ := dataTxq, inflight := inflight)
        decreases |dataTxq|
      {
        dataTxq := dataTxq[1..];
        inflight := Dec(inflight, 1);
      }
      cmdTxq := [];
    }
  }

  lemma TrailerEncodes(p: Packed, img: seq<byte>)
    requires Fits(|p.payload|) && |img| == WireSize(|p.payload|) && img[..|p.payload|] == p.payload
    requires img[|img| - 4] == 0 && img[|img| - 3] == p.kind
    requires img[|img| - 2] == |p.payload| % 256 && img[|img| - 1] == |p.payload| / 256 % 256
    ensures Encodes(p, img)
  {
    hide BlockUp;
  }

  lemma AfterNothing(f: Fill)
    ensures f.After([], []) == f
  {
    assert [] + f.sent == f.sent && [] + f.taken == f.taken;
  }

  lemma AfterAfter(f: Fill, s: seq<Packed>, t: seq<seq<byte>>, s': seq<Packed>, t': seq<seq<byte>>)
    ensures f.After(s', t').After(s, t) == f.After(s + s', t + t')
  {
    assert s + (s' + f.sent) == s + s' + f.sent;
    assert t + (t' + f.taken) == t + t' + f.taken;
  }

  // ---- one step of the packing loop, with what has already been sent and packed kept in front ----

  lemma PackOfNone(kind: byte, grant: nat, batch: seq<byte>, sent: seq<Packed>, taken: seq<seq<byte>>)
    ensures Pack(kind, [], grant, batch).After(sent, taken) == Fill(sent, batch, [], taken)
  {
    assert sent + [] == sent && taken + [] == taken;
  }

  lemma PackDrops(kind: byte, q: seq<seq<byte>>, grant: nat, batch: seq<byte>, sent: seq<Packed>,
                  taken: seq<seq<byte>>)
    requires q != [] && (Unsupported(kind, q[0]) || (WireSize(|batch| + |Frame(kind, q[0])|) > grant && batch == []))
    ensures Pack(kind, q, grant, batch).After(sent, taken) == Pack(kind, q[1..], grant, batch).After(sent, taken)
  {
  }

  lemma PackStops(kind: byte, q: seq<seq<byte>>, grant: nat, batch: seq<byte>, sent: seq<Packed>,
                  taken: seq<seq<byte>>)
    requires q != [] && !Unsupported(kind, q[0])
    requires WireSize(|batch| + |Frame(kind, q[0])|) > grant && batch != []
    ensures Pack(kind, q, grant, batch).After(sent, taken) == Fill(sent, batch, q, taken)
  {
    assert sent + [] == sent && taken + [] == taken;
  }

  lemma PackStages(kind: byte, q: seq<seq<byte>>, grant: nat, batch: seq<byte>, sent: seq<Packed>,
                   taken: seq<seq<byte>>)
    requires q != [] && !Unsupported(kind, q[0]) && WireSize(|batch| + |Frame(kind, q[0])|) <= grant
    ensures var f, c := Pack(kind, q, grant, batch).After(sent, taken), Frame(kind, q[0]);
            var full := batch != [] && |batch| + |c| + LINK_TRAILER_LEN > STAGING;
            var flushed := if full then [Packed(kind, batch)] else [];
            var open := (if full then [] else batch) + if Fits(|c|) then c else [];
            f == Pack(kind, q[1..], grant, open).After(sent + flushed, if Fits(|c|) then taken + [q[0]] else taken)
  {
    var c := Frame(kind, q[0]);
    var full := batch != [] && |batch| + |c| + LINK_TRAILER_LEN > STAGING;
    var flushed := if full then [Packed(kind, batch)] else [];
    var open := if full then [] else batch;
    assert taken + [] == taken && open + [] == open;
    if Fits(|c|) {
      AfterAfter(Pack(kind, q[1..], grant, open + c), sent, taken, flushed, [q[0]]);
    } else {
      AfterAfter(Pack(kind, q[1..], grant, open), sent, taken, flushed, []);
    }
  }
}
