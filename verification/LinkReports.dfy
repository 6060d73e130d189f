/**
 * What one read does besides the tunnel: the window converges to the counts the chip wrote, the command messages join
 * the queue in order, and the frame error counter moves transfer by transfer.
 */
module LinkReports {
  import opened Wrappers
  import opened Bytes
  import opened RxStream
  import opened BlockRuns
  import opened RxLink
  import opened TxSchedule
  import opened LinkEndToEnd

  // ---- the count as the chip writes it ----

  /** A 32-bit number, most significant byte first. */
  function BigEndian(n: nat): (b: seq<byte>)
    ensures |b| == 4
  {
    [n / 0x100_0000 % 0x100, n / 0x1_0000 % 0x100, n / 0x100 % 0x100, n % 0x100]
  }

  /** An ACK image that reports so many bytes pending: the count in the four bytes before the trailer. */
  predicate Reports(img: seq<byte>, pending: nat) {
    && |img| >= 2 * LINK_TRAILER_LEN && pending < 0x1_0000_0000
    && img[|img| - 2 * LINK_TRAILER_LEN..|img| - LINK_TRAILER_LEN] == BigEndian(pending)
  }

  /** The receiver reads the very count that was written. */
  lemma {:induction false} ReportIsRead(img: seq<byte>, pending: nat)
    requires Reports(img, pending)
    ensures AckWord(img) == pending
  {
    var w := img[|img| - 8..|img| - 4];
    assert w[0] == img[|img| - 8] && w[1] == img[|img| - 7] && w[2] == img[|img| - 6] && w[3] == img[|img| - 5];
    hide Reports;
    FourBytes(pending);
  }

  lemma FourBytes(n: nat)
    requires n < 0x1_0000_0000
    ensures var b := BigEndian(n); Word(b[0], b[1]) * 0x10000 + Word(b[2], b[3]) == n
  {
    var p, q, r := n / 0x100, n / 0x1_0000, n / 0x100_0000;
    assert n == 0x100 * p + n % 0x100;
    assert p == 0x100 * q + p % 0x100;
    assert q == 0x100 * r + q % 0x100 && r < 0x100;
  }

  // ---- what a read is to the window, the command queue and the counter ----

  /** Each ACK among the transfers reports the count given for it. */
  predicate AllReport(sent: seq<Packed>, imgs: seq<seq<byte>>, counts: seq<nat>) {
    && |counts| == |sent| == |imgs|
    && forall i :: 0 <= i < |sent| && sent[i].kind == TYPE_ACK ==> Reports(imgs[i], counts[i])
  }

  /** The counts of the ACKs among the transfers, in stream order. */
  function AcksOf(sent: seq<Packed>, counts: seq<nat>): seq<nat>
    requires |counts| == |sent|
  {
    if sent == [] then []
    else
      var n := |sent| - 1;
      AcksOf(sent[..n], counts[..n]) + if sent[n].kind == TYPE_ACK then [counts[n]] else []
  }

  /** The command messages among the transfers, in stream order. */
  function CommandsOf(sent: seq<Packed>): seq<seq<byte>> {
    if sent == [] then []
    else CommandsOf(sent[..|sent| - 1]) + if sent[|sent| - 1].kind == TYPE_CMD then [sent[|sent| - 1].payload] else []
  }

  function AdmitAll(q: seq<seq<byte>>, cap: nat, msgs: seq<seq<byte>>): seq<seq<byte>>
    requires cap > 0
  {
    if msgs == [] then q else Admit(AdmitAll(q, cap, msgs[..|msgs| - 1]), cap, msgs[|msgs| - 1])
  }

  /** How many of the transfers move the frame error counter. */
  function TicksOf(c: Carry, chunks: seq<seq<byte>>): nat
    requires c.Valid()
  {
    if chunks == [] then 0
    else
      var before := chunks[..|chunks| - 1];
      TicksOf(c, before) + if Ticks(FeedAll(c, before).carry, chunks[|chunks| - 1]) then 1 else 0
  }

  /** A read's effect on everything but the tunnel: reports, commands and counter. */
  predicate Effects(e: RxEnv, st0: RxState, st: RxState, acks: seq<nat>, cmds: seq<seq<byte>>, chunks: seq<seq<byte>>)
    requires e.Valid() && st0.carry.Valid()
  {
    && st.unacked == ApplyAcks(st0.unacked, acks)
    && st.cmdRxq == AdmitAll(st0.cmdRxq, if e.readers > 0 then 1024 else 64, cmds)
    && st.errors == st0.errors + (if e.isUp then TicksOf(st0.carry, chunks) else 0)
    && st.carry == if e.isUp then FeedAll(st0.carry, chunks).carry else st0.carry
  }

  lemma {:induction false} ApplyAcksSnoc(u: nat, acks: seq<nat>, k: nat)
    ensures ApplyAcks(u, acks + [k]) == AckWindow(ApplyAcks(u, acks), k)
    decreases |acks|
  {
    var all := acks + [k];
    if acks == [] {
      assert all[0] == k && all[1..] == [];
    } else {
      assert all[0] == acks[0] && all[1..] == acks[1..] + [k];
      ApplyAcksSnoc(AckWindow(u, acks[0]), acks[1..], k);
    }
  }

  lemma AdmitAllSnoc(q: seq<seq<byte>>, cap: nat, msgs: seq<seq<byte>>, msg: seq<byte>)
    requires cap > 0
    ensures AdmitAll(q, cap, msgs + [msg]) == Admit(AdmitAll(q, cap, msgs), cap, msg)
  {
    assert (msgs + [msg])[..|msgs|] == msgs;
  }

  lemma TicksSnoc(c: Carry, chunks: seq<seq<byte>>, b: seq<byte>)
    requires c.Valid()
    ensures TicksOf(c, chunks + [b]) == TicksOf(c, chunks) + if Ticks(FeedAll(c, chunks).carry, b) then 1 else 0
    ensures FeedAll(c, chunks + [b]).carry == Feed(FeedAll(c, chunks).carry, b).carry
  {
    assert (chunks + [b])[..|chunks|] == chunks;
    FeedAllSnoc(c, chunks, b);
  }

  lemma NoEffects(e: RxEnv, st: RxState)
    requires e.Valid() && st.carry.Valid()
    ensures Effects(e, st, st, [], [], [])
  {
    FeedAllNone(st.carry);
  }

  /** One run more. */
  lemma OneRun(e: RxEnv, st0: RxState, st: RxState, p: Piece, k: nat, acks: seq<nat>, cmds: seq<seq<byte>>,
               chunks: seq<seq<byte>>)
    requires e.Valid() && st0.carry.Valid() && st.carry.Valid() && Effects(e, st0, st, acks, cmds, chunks)
    requires p.kind == TYPE_ACK ==> Reports(p.image, k)
    ensures Effects(e, st0, DispatchOne(e, st, p),
                    if p.kind == TYPE_ACK then acks + [k] else acks,
                    if p.kind == TYPE_CMD then cmds + [p.payload] else cmds,
                    if p.kind == TYPE_IP then chunks + [p.payload] else chunks)
  {
    hide Feed, FeedAll, Ticks, Admit, AdmitAll, AckWord, AckWindow, ApplyAcks, TicksOf, Restored, Carry.Valid;
    hide Reports, AckWord;
    if p.kind == TYPE_ACK {
      ReportIsRead(p.image, k);
      ApplyAcksSnoc(st0.unacked, acks, k);
      ReportIsLong(p.image, k);
    } else if p.kind == TYPE_CMD {
      AdmitAllSnoc(st0.cmdRxq, if e.readers > 0 then 1024 else 64, cmds, p.payload);
    } else if p.kind == TYPE_IP {
      TicksSnoc(st0.carry, chunks, p.payload);
    }
  }

  lemma ReportIsLong(img: seq<byte>, k: nat)
    requires Reports(img, k)
    ensures |img| >= 8
  {
  }

  /** The pieces are the transfers, images included. */
  predicate PiecesAre(sent: seq<Packed>, imgs: seq<seq<byte>>, pieces: seq<Piece>) {
    |pieces| == |sent| == |imgs| &&
    forall i :: 0 <= i < |sent| ==> pieces[i] == Piece(sent[i].kind, sent[i].payload, imgs[i])
  }

  lemma {:induction false} DispatchEffects(e: RxEnv, st: RxState, sent: seq<Packed>, imgs: seq<seq<byte>>,
                                           counts: seq<nat>, pieces: seq<Piece>)
    requires e.Valid() && st.carry.Valid() && AllReport(sent, imgs, counts) && PiecesAre(sent, imgs, pieces)
    ensures Effects(e, st, Dispatch(e, st, pieces), AcksOf(sent, counts), CommandsOf(sent), IpChunks(sent))
    decreases |sent|
  {
    if sent == [] {
      NoEffects(e, st);
      return;
    }
    var n := |sent| - 1;
    var before := Dispatch(e, st, pieces[..n]);
    RunsSnoc(sent, counts);
    assert AllReport(sent[..n], imgs[..n], counts[..n]) && PiecesAre(sent[..n], imgs[..n], pieces[..n]);
    assert Dispatch(e, st, pieces) == DispatchOne(e, before, pieces[n]);
    assert pieces[n].kind == TYPE_ACK ==> Reports(pieces[n].image, counts[n]);
    assert pieces[n].kind == sent[n].kind && pieces[n].payload == sent[n].payload;
    hide *;
    DispatchEffects(e, st, sent[..n], imgs[..n], counts[..n], pieces[..n]);
    OneRun(e, st, before, pieces[n], counts[n], AcksOf(sent[..n], counts[..n]), CommandsOf(sent[..n]),
           IpChunks(sent[..n]));
  }

  lemma RunsSnoc(sent: seq<Packed>, counts: seq<nat>)
    requires sent != [] && |counts| == |sent|
    ensures var n := |sent| - 1;
            var last, a, c, y := sent[n], AcksOf(sent[..n], counts[..n]), CommandsOf(sent[..n]), IpChunks(sent[..n]);
            && AcksOf(sent, counts) == (if last.kind == TYPE_ACK then a + [counts[n]] else a)
            && CommandsOf(sent) == (if last.kind == TYPE_CMD then c + [last.payload] else c)
            && IpChunks(sent) == if last.kind == TYPE_IP then y + [last.payload] else y
  {
  }

  /**
   * One read of at most 64 merged transfers: the window has taken in exactly the counts the chip wrote, the command
   * queue exactly the messages sent, in order, and the counter the transfers that skipped bytes.
   */
  lemma {:induction false} ReceiveEffects(e: RxEnv, st: RxState, sent: seq<Packed>, imgs: seq<seq<byte>>,
                                          counts: seq<nat>)
    requires e.Valid() && st.carry.Valid() && AllEncode(sent, imgs) && |sent| <= MAX_RUNS
    requires AllReport(sent, imgs, counts)
    ensures Effects(e, st, Receive(e, st, Concat(imgs)), AcksOf(sent, counts), CommandsOf(sent), IpChunks(sent))
  {
    var buf := Concat(imgs);
    if sent == [] {
      assert imgs == [] && buf == [];
      NoEffects(e, st);
      return;
    }
    PiecesOfRead(sent, imgs, 0);
    RunsTileTheRead(buf);
    var pieces := PiecesOfBuffer(buf);
    assert |pieces| == |RunsOf(buf)|;
    forall i | 0 <= i < |sent|
      ensures pieces[i] == Piece(sent[i].kind, sent[i].payload, imgs[i])
    {
      PiecesOfRead(sent, imgs, i);
      assert pieces[i] == PieceOf(buf, RunsOf(buf)[i]);
    }
    hide Dispatch, Effects, IpChunks, Concat, RunsOf, PiecesOf, AllReport, AcksOf, CommandsOf;
    DispatchEffects(e, st, sent, imgs, counts, pieces);
  }

  // ---- what that amounts to ----

  /** Taking in reports leaves the least of the old count and all that was reported. */
  lemma {:induction false} ReportsTakeTheLeast(u: nat, acks: seq<nat>)
    ensures var r := ApplyAcks(u, acks); r <= u && (forall k :: k in acks ==> r <= k) && (r == u || r in acks)
    decreases |acks|
  {
    if acks != [] {
      ReportsTakeTheLeast(AckWindow(u, acks[0]), acks[1..]);
      assert acks == [acks[0]] + acks[1..];
    }
  }

  /**
   * A read leaves the unacknowledged count at the least of its old value and every count the chip wrote into the
   * read's ACKs, which is what an interrupt with those reports does to the sender.
   */
  lemma {:induction false} WindowAfterRead(e: RxEnv, st: RxState, sent: seq<Packed>, imgs: seq<seq<byte>>,
                                           counts: seq<nat>, s: Sys)
    requires e.Valid() && st.carry.Valid() && AllEncode(sent, imgs) && |sent| <= MAX_RUNS
    requires AllReport(sent, imgs, counts)
    ensures var r := Receive(e, st, Concat(imgs)).unacked;
            && r <= st.unacked && (forall i :: 0 <= i < |sent| && sent[i].kind == TYPE_ACK ==> r <= counts[i])
            && (r == st.unacked || exists i :: 0 <= i < |sent| && sent[i].kind == TYPE_ACK && r == counts[i])
            && (s.tx.unacked == st.unacked ==> Apply(s, Irq(None, AcksOf(sent, counts))).tx.unacked == r)
  {
    ReceiveEffects(e, st, sent, imgs, counts);
    ReportsTakeTheLeast(st.unacked, AcksOf(sent, counts));
    AcksAreTheCounts(sent, counts);
    hide Receive, ApplyAcks, AcksOf, FeedAll, TicksOf, AdmitAll, AllEncode, AllReport, Concat;
  }

  lemma {:induction false} AcksAreTheCounts(sent: seq<Packed>, counts: seq<nat>)
    requires |counts| == |sent|
    ensures forall i :: 0 <= i < |sent| && sent[i].kind == TYPE_ACK ==> counts[i] in AcksOf(sent, counts)
    ensures forall k :: k in AcksOf(sent, counts) ==>
              exists i :: 0 <= i < |sent| && sent[i].kind == TYPE_ACK && k == counts[i]
    decreases |sent|
  {
    if sent != [] {
      var n := |sent| - 1;
      AcksAreTheCounts(sent[..n], counts[..n]);
      assert forall i :: 0 <= i < n ==> sent[..n][i] == sent[i] && counts[..n][i] == counts[i];
      forall k | k in AcksOf(sent[..n], counts[..n])
        ensures exists i :: 0 <= i < |sent| && sent[i].kind == TYPE_ACK && k == counts[i]
      {
        var i :| 0 <= i < n && sent[..n][i].kind == TYPE_ACK && k == counts[..n][i];
        assert sent[i].kind == TYPE_ACK && k == counts[i];
      }
    }
  }

  /** The command queue after a read: the old queue and then the messages sent, the newest of them up to the cap. */
  lemma {:induction false} CommandsAfterRead(q: seq<seq<byte>>, cap: nat, msgs: seq<seq<byte>>)
    requires cap > 0 && |q| <= cap
    ensures var r, all := AdmitAll(q, cap, msgs), q + msgs;
            |r| == (if |all| <= cap then |all| else cap) && r == all[|all| - |r|..]
    decreases |msgs|
  {
    hide *;
    if msgs == [] {
      AdmitNone(q, cap);
      return;
    }
    var n := |msgs| - 1;
    var before := AdmitAll(q, cap, msgs[..n]);
    CommandsAfterRead(q, cap, msgs[..n]);
    AdmitLast(q, cap, msgs);
    JoinThree(q, msgs[..n], [msgs[n]]);
    assert msgs == msgs[..n] + [msgs[n]];
    NewestAreKept(before, cap, msgs[n]);
    KeepsNewest(q + msgs[..n], before, msgs[n], Admit(before, cap, msgs[n]));
  }

  lemma AdmitNone(q: seq<seq<byte>>, cap: nat)
    requires cap > 0
    ensures AdmitAll(q, cap, []) == q == q + [] && (q + [])[0..] == q
  {
  }

  lemma AdmitLast(q: seq<seq<byte>>, cap: nat, msgs: seq<seq<byte>>)
    requires cap > 0 && msgs != []
    ensures var n := |msgs| - 1;
            AdmitAll(q, cap, msgs) == Admit(AdmitAll(q, cap, msgs[..n]), cap, msgs[n])
  {
  }

  lemma KeepsNewest(all: seq<seq<byte>>, q: seq<seq<byte>>, msg: seq<byte>, r: seq<seq<byte>>)
    requires |q| <= |all| && q == all[|all| - |q|..] && |r| <= |q| + 1 && r == (q + [msg])[|q| + 1 - |r|..]
    ensures r == (all + [msg])[|all| + 1 - |r|..]
  {
    DropThenAppend(all, |all| - |q|, msg);
    DropTwice(all + [msg], |all| - |q|, |q| + 1 - |r|);
  }

  lemma DropTwice<T>(s: seq<T>, a: nat, b: nat)
    requires a + b <= |s|
    ensures s[a..][b..] == s[a + b..]
  {
  }

  /** Over a stream the counter moves once for each transfer that holds a gap byte and ends outside every frame. */
  lemma {:induction false} CounterOverStream(items: seq<Item>, chunks: seq<seq<byte>>)
    requires AllValid(items) && Concat(chunks) <= Stream(items)
    ensures TicksOf(NOTHING, chunks) == MovesOf(items, chunks)
    decreases |chunks|
  {
    if chunks != [] {
      var n := |chunks| - 1;
      assert chunks == chunks[..n] + [chunks[n]];
      ConcatSnoc(chunks[..n], chunks[n]);
      PrefixOfPrefix(Concat(chunks[..n]), chunks[n], Stream(items));
      CounterOverStream(items, chunks[..n]);
      CounterMovesIff(items, chunks[..n], chunks[n]);
      hide Ticks, FeedAll, Stream, HoldsGap, InsideFrame, Concat;
    }
  }

  lemma PrefixOfPrefix(a: seq<byte>, b: seq<byte>, w: seq<byte>)
    requires a + b <= w
    ensures a <= w
  {
  }

  function MovesOf(items: seq<Item>, chunks: seq<seq<byte>>): nat {
    if chunks == [] then 0
    else
      var before, b := chunks[..|chunks| - 1], chunks[|chunks| - 1];
      var n := |Concat(before)|;
      MovesOf(items, before) + if HoldsGap(items, n, n + |b|) && !InsideFrame(items, n + |b|) then 1 else 0
  }
}
