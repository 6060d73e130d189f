/**
 * The link end to end: what one driver packs under any run of grants, acknowledgements and throttling is what a
 * peer with the same prefix hands up, however the bytes were regrouped into transfers and reads on the way.
 */
module LinkEndToEnd {
  import opened Bytes
  import opened IpHeader
  import opened RxStream
  import opened BlockRuns
  import opened RxLink
  import opened TxPass
  import opened TxSchedule
  import opened TxLoss

  // ---- one read ----

  /** The tunnel payloads among a run of transfers, one chunk each. */
  function IpChunks(sent: seq<Packed>): seq<seq<byte>> {
    if sent == [] then []
    else IpChunks(sent[..|sent| - 1]) + (if sent[|sent| - 1].kind == TYPE_IP then [sent[|sent| - 1].payload] else [])
  }

  lemma {:induction false} FeedAllSnoc(c: Carry, chunks: seq<seq<byte>>, b: seq<byte>)
    requires c.Valid()
    ensures var s := FeedAll(c, chunks);
            FeedAll(c, chunks + [b]) == Feed(s.carry, b).Before(s.frames, s.junk)
    decreases |chunks|
  {
    if chunks == [] {
      FeedAllCons(c, [b]);
      FeedAllNone(Feed(c, b).carry);
      BeforeAlone(Feed(c, b));
      assert chunks + [b] == [b] && [b][1..] == [];
    } else {
      var s, all := Feed(c, chunks[0]), chunks + [b];
      assert all[1..] == chunks[1..] + [b] && all[0] == chunks[0];
      FeedAllCons(c, chunks);
      FeedAllCons(c, all);
      hide FeedAll, Feed, Step.Before, Carry.Valid;
      FeedAllSnoc(s.carry, chunks[1..], b);
      var t := FeedAll(s.carry, chunks[1..]);
      BeforeBefore(Feed(t.carry, b), s.frames, s.junk, t.frames, t.junk);
      BeforeParts(t, s.frames, s.junk);
    }
  }

  lemma FeedAllNone(c: Carry)
    requires c.Valid()
    ensures FeedAll(c, []) == Step(c, [], 0)
  {
  }

  lemma BeforeAlone(s: Step)
    ensures Step(s.carry, [], 0).Before(s.frames, s.junk) == s.Before([], 0)
  {
  }

  /** st0 grew into st by feeding these chunks to the parser and handing up what it completed. */
  predicate Fed(e: RxEnv, st0: RxState, st: RxState, chunks: seq<seq<byte>>)
    requires e.Valid() && st0.carry.Valid()
  {
    var s := FeedAll(st0.carry, chunks);
    st.carry == s.carry && st.delivered == st0.delivered + Restored(e.prefix, s.frames)
  }

  lemma FedNone(e: RxEnv, st: RxState)
    requires e.Valid() && st.carry.Valid()
    ensures Fed(e, st, st, [])
  {
    FeedAllNone(st.carry);
    RestoredNone(e.prefix);
  }

  lemma FedOne(e: RxEnv, st0: RxState, st: RxState, chunks: seq<seq<byte>>, p: Piece)
    requires e.Valid() && e.isUp && st0.carry.Valid() && st.carry.Valid() && Fed(e, st0, st, chunks)
    ensures Fed(e, st0, DispatchOne(e, st, p), chunks + if p.kind == TYPE_IP then [p.payload] else [])
  {
    hide FeedAll, Feed, Restored, Carry.Valid, Ticks, Admit, AckWindow, AckWord;
    if p.kind == TYPE_IP {
      var s, t := FeedAll(st0.carry, chunks), Feed(st.carry, p.payload);
      FeedAllSnoc(st0.carry, chunks, p.payload);
      RestoredSplit(e.prefix, s.frames, t.frames);
    } else {
      assert chunks + [] == chunks;
    }
  }

  predicate PiecesMatch(sent: seq<Packed>, pieces: seq<Piece>) {
    |pieces| == |sent| &&
    forall i :: 0 <= i < |sent| ==> pieces[i].kind == sent[i].kind && pieces[i].payload == sent[i].payload
  }

  lemma {:induction false} DispatchFeeds(e: RxEnv, st: RxState, sent: seq<Packed>, pieces: seq<Piece>)
    requires e.Valid() && e.isUp && st.carry.Valid() && PiecesMatch(sent, pieces)
    ensures Fed(e, st, Dispatch(e, st, pieces), IpChunks(sent))
    decreases |sent|
  {
    if sent == [] {
      FedNone(e, st);
    } else {
      var n := |sent| - 1;
      hide Feed, FeedAll, Restored, Fed, DispatchOne, Carry.Valid;
      DispatchFeeds(e, st, sent[..n], pieces[..n]);
      FedOne(e, st, Dispatch(e, st, pieces[..n]), IpChunks(sent[..n]), pieces[n]);
    }
  }

  /** A read of at most 64 merged transfers feeds the parser exactly their tunnel payloads, in order. */
  lemma {:induction false} ReceiveFeeds(e: RxEnv, st: RxState, sent: seq<Packed>, imgs: seq<seq<byte>>)
    requires e.Valid() && e.isUp && st.carry.Valid() && AllEncode(sent, imgs) && |sent| <= MAX_RUNS
    ensures Fed(e, st, Receive(e, st, Concat(imgs)), IpChunks(sent))
  {
    var buf := Concat(imgs);
    if sent == [] {
      assert imgs == [] && buf == [];
      FedNone(e, st);
    } else {
      PiecesOfRead(sent, imgs, 0);
      RunsTileTheRead(buf);
      var pieces := PiecesOfBuffer(buf);
      assert |pieces| == |RunsOf(buf)|;
      forall i | 0 <= i < |sent|
        ensures pieces[i].kind == sent[i].kind && pieces[i].payload == sent[i].payload
      {
        PiecesOfRead(sent, imgs, i);
        assert pieces[i] == PieceOf(buf, RunsOf(buf)[i]);
      }
      hide Dispatch, Fed, IpChunks, Concat, RunsOf, PiecesOf;
      DispatchFeeds(e, st, sent, pieces);
    }
  }

  // ---- any number of reads ----

  /** One read: the transfers merged into it and their wire images. */
  datatype Read = Read(sent: seq<Packed>, imgs: seq<seq<byte>>) {
    predicate Valid() {
      AllEncode(sent, imgs) && |sent| <= MAX_RUNS
    }
  }

  predicate AllReads(rs: seq<Read>) {
    forall i :: 0 <= i < |rs| ==> rs[i].Valid()
  }

  function Sents(rs: seq<Read>): seq<Packed> {
    if rs == [] then [] else Sents(rs[..|rs| - 1]) + rs[|rs| - 1].sent
  }

  function ReceiveAll(e: RxEnv, st: RxState, rs: seq<Read>): (r: RxState)
    requires e.Valid() && st.carry.Valid()
    ensures r.carry.Valid()
  {
    if rs == [] then st
    else Receive(e, ReceiveAll(e, st, rs[..|rs| - 1]), Concat(rs[|rs| - 1].imgs))
  }

  lemma {:induction false} FeedAllSplit(c: Carry, a: seq<seq<byte>>, b: seq<seq<byte>>)
    requires c.Valid()
    ensures var s := FeedAll(c, a); FeedAll(c, a + b) == FeedAll(s.carry, b).Before(s.frames, s.junk)
    decreases |b|
  {
    var s := FeedAll(c, a);
    if b == [] {
      assert a + b == a;
      FeedAllNone(s.carry);
      assert s.frames + [] == s.frames;
    } else {
      var n := |b| - 1;
      assert a + b == (a + b[..n]) + [b[n]] && b == b[..n] + [b[n]];
      hide FeedAll, Feed, Step.Before, Carry.Valid;
      FeedAllSplit(c, a, b[..n]);
      FeedAllSnoc(c, a + b[..n], b[n]);
      FeedAllSnoc(s.carry, b[..n], b[n]);
      var t := FeedAll(s.carry, b[..n]);
      BeforeParts(t, s.frames, s.junk);
      BeforeBefore(Feed(t.carry, b[n]), s.frames, s.junk, t.frames, t.junk);
    }
  }

  lemma FedTwice(e: RxEnv, st0: RxState, st1: RxState, st2: RxState, a: seq<seq<byte>>, b: seq<seq<byte>>)
    requires e.Valid() && st0.carry.Valid() && st1.carry.Valid() && Fed(e, st0, st1, a) && Fed(e, st1, st2, b)
    ensures Fed(e, st0, st2, a + b)
  {
    FeedAllSplit(st0.carry, a, b);
    var s, t := FeedAll(st0.carry, a), FeedAll(st1.carry, b);
    BeforeParts(t, s.frames, s.junk);
    hide FeedAll, Restored, Carry.Valid, Step.Before;
    RestoredSplit(e.prefix, s.frames, t.frames);
    JoinThree(st0.delivered, Restored(e.prefix, s.frames), Restored(e.prefix, t.frames));
  }

  lemma {:induction false} IpChunksSplit(a: seq<Packed>, b: seq<Packed>)
    ensures IpChunks(a + b) == IpChunks(a) + IpChunks(b)
    decreases |b|
  {
    if b == [] {
      assert a + b == a;
    } else {
      var n := |b| - 1;
      assert (a + b)[..|a + b| - 1] == a + b[..n];
      IpChunksSplit(a, b[..n]);
    }
  }

  lemma ReceiveAllSnoc(e: RxEnv, st: RxState, rs: seq<Read>)
    requires e.Valid() && st.carry.Valid() && rs != []
    ensures var n := |rs| - 1;
            && ReceiveAll(e, st, rs) == Receive(e, ReceiveAll(e, st, rs[..n]), Concat(rs[n].imgs))
            && Sents(rs) == Sents(rs[..n]) + rs[n].sent
  {
  }

  /** The parse over any sequence of reads is the parse of their tunnel payloads. */
  lemma {:induction false} ReceiveAllFeeds(e: RxEnv, st: RxState, rs: seq<Read>)
    requires e.Valid() && e.isUp && st.carry.Valid() && AllReads(rs)
    ensures Fed(e, st, ReceiveAll(e, st, rs), IpChunks(Sents(rs)))
    decreases |rs|
  {
    if rs == [] {
      FedNone(e, st);
    } else {
      var n := |rs| - 1;
      var before, last := ReceiveAll(e, st, rs[..n]), rs[n];
      assert last.Valid() && AllReads(rs[..n]);
      ReceiveFeeds(e, before, last.sent, last.imgs);
      ReceiveAllSnoc(e, st, rs);
      hide *;
      ReceiveAllFeeds(e, st, rs[..n]);
      IpChunksSplit(Sents(rs[..n]), last.sent);
      FedTwice(e, st, before, ReceiveAll(e, st, rs), IpChunks(Sents(rs[..n])), IpChunks(last.sent));
    }
  }

  lemma {:induction false} ChunksArePayloads(sent: seq<Packed>)
    ensures Concat(IpChunks(sent)) == Payloads(TYPE_IP, sent)
    decreases |sent|
  {
    if sent != [] {
      var n := |sent| - 1;
      var last := sent[n];
      assert sent == sent[..n] + [last];
      ChunksArePayloads(sent[..n]);
      PayloadsSplit(TYPE_IP, sent[..n], [last]);
      ConcatSplit(IpChunks(sent[..n]), if last.kind == TYPE_IP then [last.payload] else []);
      ConcatOne(last.payload);
      PayloadOfOne(last);
    }
  }

  lemma PayloadOfOne(p: Packed)
    ensures Payloads(TYPE_IP, [p]) == if p.kind == TYPE_IP then p.payload else []
  {
    assert [p][1..] == [] && p.payload + [] == p.payload;
  }

  // ---- from the packets packed to the packets handed up ----

  /** A packet the tunnel is for: carried protocol, honest total length, addresses under the link prefix. */
  predicate WellFormed(pfx: seq<byte>, p: seq<byte>) {
    && 20 < |p| <= 4352
    && p[0] == 0x45 && p[9] in {17, 6, 1, 2}
    && Word(p[2], p[3]) == |p|
    && p[12..15] == pfx && p[16..19] == pfx
  }

  predicate AllWellFormed(pfx: seq<byte>, ps: seq<seq<byte>>) {
    forall p :: p in ps ==> WellFormed(pfx, p)
  }

  function Items(pfx: seq<byte>, ps: seq<seq<byte>>): (r: seq<Item>)
    requires AllWellFormed(pfx, ps)
    ensures |r| == |ps| && forall i :: 0 <= i < |ps| ==> |ps[i]| >= IP_HDR && r[i] == Item([], Compress(ps[i]))
  {
    if ps == [] then [] else assert WellFormed(pfx, ps[0]); [Item([], Compress(ps[0]))] + Items(pfx, ps[1..])
  }

  lemma CompressedIsPlausible(pfx: seq<byte>, p: seq<byte>)
    requires WellFormed(pfx, p)
    ensures !Unsupported(TYPE_IP, p) && Frame(TYPE_IP, p) == Compress(p) && Item([], Compress(p)).Valid()
  {
    var c := Compress(p);
    assert c[0] == p[0] && c[1] == p[9] && c[4] == p[2] && c[5] == p[3];
  }

  lemma {:induction false} ItemsCons(pfx: seq<byte>, p: seq<byte>, tail: seq<seq<byte>>)
    requires WellFormed(pfx, p) && AllWellFormed(pfx, tail) && Item([], Compress(p)).Valid()
    requires AllValid(Items(pfx, tail))
    ensures AllWellFormed(pfx, [p] + tail) && AllValid(Items(pfx, [p] + tail))
    ensures Stream(Items(pfx, [p] + tail)) == Compress(p) + Stream(Items(pfx, tail))
  {
    var ps := [p] + tail;
    assert ps[0] == p && ps[1..] == tail;
    var items := Items(pfx, ps);
    assert items == [Item([], Compress(p))] + Items(pfx, tail);
    assert items[1..] == Items(pfx, tail);
    assert [] + Compress(p) == Compress(p);
  }

  lemma {:induction false} ItemsStream(pfx: seq<byte>, ps: seq<seq<byte>>)
    requires AllWellFormed(pfx, ps)
    ensures AllValid(Items(pfx, ps)) && (forall p :: p in ps ==> !Unsupported(TYPE_IP, p))
    ensures Stream(Items(pfx, ps)) == Concat(Frames(TYPE_IP, ps))
    decreases |ps|
  {
    if ps != [] {
      var p, tail := ps[0], ps[1..];
      assert WellFormed(pfx, p);
      CompressedIsPlausible(pfx, p);
      ItemsStream(pfx, tail);
      ItemsCons(pfx, p, tail);
      FramesCons(TYPE_IP, p, tail);
      assert ps == [p] + tail;
    }
  }

  /** The frames wholly within the first n bytes are the first few compressed packets; within all bytes, all. */
  lemma {:induction false} WithinItems(pfx: seq<byte>, ps: seq<seq<byte>>, n: nat)
    requires AllWellFormed(pfx, ps)
    ensures var f := FramesWithin(Items(pfx, ps), n);
            |f| <= |ps| && (forall i :: 0 <= i < |f| ==> |ps[i]| >= IP_HDR && f[i] == Compress(ps[i]))
            && (n >= |Stream(Items(pfx, ps))| ==> |f| == |ps|)
    decreases |ps|
  {
    if ps != [] {
      var items, tail := Items(pfx, ps), ps[1..];
      assert items[0] == Item([], Compress(ps[0])) && items[1..] == Items(pfx, tail);
      var k := |Compress(ps[0])|;
      if n >= k {
        WithinItems(pfx, tail, n - k);
        var f := FramesWithin(items[1..], n - k);
        assert FramesWithin(items, n) == [Compress(ps[0])] + f;
        forall i | 0 <= i < |f| + 1
          ensures ([Compress(ps[0])] + f)[i] == Compress(ps[i])
        {
          if i > 0 {
            assert f[i - 1] == Compress(tail[i - 1]);
          }
        }
      }
    }
  }

  lemma {:induction false} AllBytesAreFrameBytes(pfx: seq<byte>, ps: seq<seq<byte>>)
    requires AllWellFormed(pfx, ps)
    ensures var items := Items(pfx, ps);
            Concat(FramesWithin(items, |Stream(items)|)) == Stream(items) == FrameBytes(items, |Stream(items)|)
    decreases |ps|
  {
    if ps != [] {
      var items, tail := Items(pfx, ps), ps[1..];
      assert items[0] == Item([], Compress(ps[0])) && items[1..] == Items(pfx, tail);
      AllBytesAreFrameBytes(pfx, tail);
      var c, n := Compress(ps[0]), |Stream(items[1..])|;
      assert [] + c + Stream(items[1..]) == c + Stream(items[1..]);
      assert |Stream(items)| == |c| + n;
      ConcatCons(c, FramesWithin(items[1..], n));
    }
  }

  /** Each packet handed up is the packet packed at that place; nothing else was handed up. */
  predicate InOrder(ps: seq<seq<byte>>, delivered: seq<seq<byte>>) {
    |delivered| <= |ps| && forall i :: 0 <= i < |delivered| ==> ArrivesAs(ps[i], delivered[i])
  }

  lemma RestoredInOrder(pfx: seq<byte>, ps: seq<seq<byte>>, frames: seq<seq<byte>>)
    requires |pfx| == 3 && AllWellFormed(pfx, ps) && |frames| <= |ps|
    requires forall i :: 0 <= i < |frames| ==> |ps[i]| >= IP_HDR && frames[i] == Compress(ps[i])
    ensures InOrder(ps, Restored(pfx, frames))
  {
    var r := Restored(pfx, frames);
    forall i | 0 <= i < |frames|
      ensures ArrivesAs(ps[i], r[i])
    {
      assert WellFormed(pfx, ps[i]);
      CompressRestore(pfx, ps[i]);
    }
  }

  /** The peer's fresh receiver, with its interface up. */
  function Fresh(): (st: RxState)
    ensures st.carry.Valid()
  {
    RxState(NOTHING, [], 0, [], 0)
  }

  /** Reading any part of the tunnel bytes of ps, cut and interleaved with other traffic in any way. */
  lemma {:induction false} TunnelDelivers(e: RxEnv, ps: seq<seq<byte>>, rs: seq<Read>)
    requires e.Valid() && e.isUp && AllReads(rs) && AllWellFormed(e.prefix, ps)
    requires Payloads(TYPE_IP, Sents(rs)) <= Stream(Items(e.prefix, ps))
    ensures var st := ReceiveAll(e, Fresh(), rs);
            && InOrder(ps, st.delivered)
            && (Payloads(TYPE_IP, Sents(rs)) == Stream(Items(e.prefix, ps)) ==>
                  |st.delivered| == |ps| && st.carry == NOTHING)
  {
    var items, chunks := Items(e.prefix, ps), IpChunks(Sents(rs));
    ReceiveAllFeeds(e, Fresh(), rs);
    ChunksArePayloads(Sents(rs));
    ItemsStream(e.prefix, ps);
    StreamDelivered(items, chunks);
    var s, n := FeedAll(NOTHING, chunks), |Concat(chunks)|;
    WithinItems(e.prefix, ps, n);
    AllBytesAreFrameBytes(e.prefix, ps);
    RestoredInOrder(e.prefix, ps, s.frames);
    assert [] + Restored(e.prefix, s.frames) == Restored(e.prefix, s.frames);
    ParkedBytes(s.carry);
    hide FeedAll, ReceiveAll, Concat, Stream, FramesWithin, FrameBytes, Restored, InOrder, Items, Carry.Pending;
    if Payloads(TYPE_IP, Sents(rs)) == Stream(items) {
      assert |Concat(s.frames) + s.carry.Pending()| == |Concat(s.frames)|;
    }
  }

  // ---- over every run of the sender ----

  /** Every packet offered is one the tunnel is for, or of a kind the packing loop throws away. */
  predicate Tunnelled(pfx: seq<byte>, es: seq<Event>) {
    forall i :: 0 <= i < |es| && es[i].Xmit? ==> Unsupported(TYPE_IP, es[i].skb) || WellFormed(pfx, es[i].skb)
  }

  /** A well-formed packet fits any grant of nine blocks; eight carry it exactly up to 4100 bytes. */
  lemma WellFormedFits(pfx: seq<byte>, p: seq<byte>, blocks: nat)
    requires WellFormed(pfx, p)
    ensures blocks >= 9 ==> Carriable(TYPE_IP, p, blocks * BLOCK)
    ensures Carriable(TYPE_IP, p, 8 * BLOCK) <==> |p| <= 4100
  {
    CompressedIsPlausible(pfx, p);
    var r := WireSize(|p| - IP_HEAD_SHRINK);
    assert r < |p| - IP_HEAD_SHRINK + LINK_TRAILER_LEN + BLOCK && r % BLOCK == 0;
  }

  lemma StepAccepts(s: Sys, e: Event)
    ensures var t := Apply(s, e);
            t.accepted == s.accepted || (e.Xmit? && t.accepted == s.accepted + [e.skb])
  {
    hide TxPassOf, TakenBy;
  }

  lemma {:induction false} AcceptedWasOffered(s: Sys, es: seq<Event>, p: seq<byte>)
    requires p in Exec(s, es).accepted && p !in s.accepted
    ensures exists i :: 0 <= i < |es| && es[i] == Xmit(p)
    decreases |es|
  {
    var n := |es| - 1;
    var t := Exec(s, es[..n]);
    StepAccepts(t, es[n]);
    hide Apply;
    if p in t.accepted {
      AcceptedWasOffered(s, es[..n], p);
      var i :| 0 <= i < n && es[..n][i] == Xmit(p);
      assert es[i] == Xmit(p);
    }
  }

  lemma {:induction false} PackedIsWellFormed(pfx: seq<byte>, window: nat, es: seq<Event>)
    requires Legal(Boot(window), es) && Tunnelled(pfx, es)
    ensures AllWellFormed(pfx, Exec(Boot(window), es).packed)
  {
    var s := Exec(Boot(window), es);
    NothingLostIff(window, es);
    RunCarries(window, es);
    forall p | p in s.packed
      ensures WellFormed(pfx, p)
    {
      assert p in s.packed + s.tx.dataQ;
      SubsequenceMembers(s.packed + s.tx.dataQ, s.accepted, p);
      AcceptedWasOffered(Boot(window), es, p);
      var i :| 0 <= i < |es| && es[i] == Xmit(p);
      assert es[i].Xmit?;
    }
  }

  /**
   * End to end, over every run of any grants, acknowledgements and closes: what is on the wire and then what is
   * queued is what was accepted with some packets left out, none exactly when no pass met a packet its grant
   * cannot carry and no close found one queued. Whatever of the wire's tunnel bytes a peer with the same prefix
   * has read, in reads of up to 64 transfers cut anywhere, it has handed up the first packed packets in order,
   * each equal to the original except for type of service, lifetime and a checksum that verifies; when it has
   * read them all, it has handed up every packed packet and nothing is parked.
   */
  lemma {:induction false} EndToEnd(e: RxEnv, window: nat, es: seq<Event>, rs: seq<Read>)
    requires e.Valid() && e.isUp && AllReads(rs)
    requires Legal(Boot(window), es) && Tunnelled(e.prefix, es)
    requires Payloads(TYPE_IP, Sents(rs)) <= Payloads(TYPE_IP, Exec(Boot(window), es).wire)
    ensures var s, st := Exec(Boot(window), es), ReceiveAll(e, Fresh(), rs);
            && Subsequence(s.packed + s.tx.dataQ, s.accepted)
            && (s.accepted == s.packed + s.tx.dataQ <==> LossFree(Boot(window), es))
            && InOrder(s.packed, st.delivered)
            && (Payloads(TYPE_IP, Sents(rs)) == Payloads(TYPE_IP, s.wire) ==>
                  |st.delivered| == |s.packed| && st.carry == NOTHING)
  {
    var s := Exec(Boot(window), es);
    RunCarries(window, es);
    NothingLostIff(window, es);
    PackedIsWellFormed(e.prefix, window, es);
    ItemsStream(e.prefix, s.packed);
    TunnelDelivers(e, s.packed, rs);
    hide Exec, ReceiveAll, Payloads, Stream, ArrivesAs, Legal, Items, Frames, Concat, LossFree, Subsequence;
  }
}
