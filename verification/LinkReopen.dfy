/**
 * The tunnel when the receiving interface goes down and up between reads. What arrives while it is down is dropped,
 * but a frame or header parked before is kept, and is continued with whatever arrives first once it is up again
 * (modules/artosyn_sdio.c).
 */
module LinkReopen {
  import opened Bytes
  import opened IpHeader
  import opened RxStream
  import opened BlockRuns
  import opened RxLink
  import opened TxLoss
  import opened LinkEndToEnd

  // ---- where a stream is cut ----

  /** What of a frame lies before offset n, when n is strictly inside one. */
  function PartAt(items: seq<Item>, n: nat): seq<byte> {
    if items == [] || n <= |items[0].gap| then []
    else if n < |items[0].gap| + |items[0].frame| then items[0].frame[..n - |items[0].gap|]
    else PartAt(items[1..], n - |items[0].gap| - |items[0].frame|)
  }

  lemma {:induction false} PartIsNone(items: seq<Item>, n: nat)
    requires AllValid(items)
    ensures PartAt(items, n) == [] <==> !InsideFrame(items, n)
    decreases |items|
  {
    if items != [] {
      assert items[0].Valid() && AllValid(items[1..]);
      if n >= |items[0].gap| + |items[0].frame| {
        PartIsNone(items[1..], n - |items[0].gap| - |items[0].frame|);
      }
    }
  }

  lemma {:induction false} FrameBytesEndInPart(items: seq<Item>, n: nat)
    requires AllValid(items)
    ensures FrameBytes(items, n) == Concat(FramesWithin(items, n)) + PartAt(items, n)
    decreases |items|
  {
    if items == [] {
      return;
    }
    var g, f := items[0].gap, items[0].frame;
    assert items[0].Valid() && AllValid(items[1..]);
    WithinCons(items, n);
    PartCons(items, n);
    hide FrameBytes, FramesWithin, PartAt, Item.Valid;
    if n >= |g| + |f| {
      var m := n - |g| - |f|;
      FrameBytesEndInPart(items[1..], m);
      ConcatCons(f, FramesWithin(items[1..], m));
      JoinThree(f, Concat(FramesWithin(items[1..], m)), PartAt(items[1..], m));
    }
  }

  lemma PartCons(items: seq<Item>, n: nat)
    requires items != [] && |items[0].frame| > 0
    ensures var g, f := items[0].gap, items[0].frame;
            && (n <= |g| ==> PartAt(items, n) == [])
            && (|g| < n < |g| + |f| ==> PartAt(items, n) == f[..n - |g|])
            && (n >= |g| + |f| ==> PartAt(items, n) == PartAt(items[1..], n - |g| - |f|))
  {
  }

  /** The parse of the first n bytes has delivered the frames within them and parked the part of a frame they end in. */
  lemma {:induction false} ScanAt(items: seq<Item>, n: nat)
    requires AllValid(items) && n <= |Stream(items)|
    ensures var s := Scan(Stream(items)[..n]);
            && s.frames == FramesWithin(items, n) && s.carry.Pending() == PartAt(items, n)
            && s.junk == n - |FrameBytes(items, n)|
  {
    var s := Scan(Stream(items)[..n]);
    ScanOfStream(items, n);
    ScanSkipsGaps(items, n);
    FrameBytesEndInPart(items, n);
    var c := Concat(s.frames);
    hide Scan, Stream, FramesWithin, FrameBytes, PartAt, Concat, Carry.Pending;
    SameAfter(c, s.carry.Pending(), PartAt(items, n));
  }

  predicate Gapless(items: seq<Item>) {
    forall i :: 0 <= i < |items| ==> items[i].gap == []
  }

  lemma {:induction false} GaplessFrameBytes(items: seq<Item>, n: nat)
    requires Gapless(items) && n <= |Stream(items)|
    ensures |FrameBytes(items, n)| == n
    decreases |items|
  {
    if items != [] && n >= |items[0].frame| && n > 0 {
      assert Gapless(items[1..]);
      GaplessFrameBytes(items[1..], n - |items[0].frame|);
    }
  }

  // ---- resuming a parse after a loss ----

  /** Resuming where the parse stopped goes on as one parse of the stream. */
  lemma {:induction false} ResumesInPlace(items: seq<Item>, n: nat, chunks: seq<seq<byte>>, m: nat)
    requires AllValid(items) && n + |Concat(chunks)| == m <= |Stream(items)| && Concat(chunks) == Stream(items)[n..m]
    ensures var s := FeedAll(Scan(Stream(items)[..n]).carry, chunks);
            && s.carry == Scan(Stream(items)[..m]).carry
            && FramesWithin(items, m) == FramesWithin(items, n) + s.frames
            && (Gapless(items) ==> s.junk == 0)
  {
    hide *;
    ScanResumed(items, n, chunks, m);
    ScanAt(items, n);
    ScanAt(items, m);
    GaplessSkipsNothing(items, n);
    GaplessSkipsNothing(items, m);
  }

  lemma {:induction false} ScanResumed(items: seq<Item>, n: nat, chunks: seq<seq<byte>>, m: nat)
    requires AllValid(items) && n + |Concat(chunks)| == m <= |Stream(items)| && Concat(chunks) == Stream(items)[n..m]
    ensures var t, u := Scan(Stream(items)[..n]), Scan(Stream(items)[..m]);
            var s := FeedAll(t.carry, chunks);
            u.carry == s.carry && u.frames == t.frames + s.frames && u.junk == t.junk + s.junk
  {
    hide *;
    var w, y := Stream(items), Concat(chunks);
    var t := Scan(w[..n]);
    StreamCutsAreClean(items, n, chunks);
    ChunkingInvariance(t.carry, chunks);
    ScanAppend(w[..n], y);
    TakeMore(w, n, y);
    BeforeParts(Scan(t.carry.Pending() + y), t.frames, t.junk);
  }

  lemma GaplessSkipsNothing(items: seq<Item>, n: nat)
    requires AllValid(items) && n <= |Stream(items)|
    ensures Gapless(items) ==> Scan(Stream(items)[..n]).junk == 0
  {
    hide *;
    ScanAt(items, n);
    if Gapless(items) {
      GaplessFrameBytes(items, n);
    }
  }

  lemma DropSkips(c: Carry, buf: seq<byte>)
    requires c.Valid()
    ensures Drops(c, buf) ==> Feed(c, buf).junk > 0
  {
    if Drops(c, buf) {
      FeedOfDrop(c, buf);
    }
  }

  /** Without a skipped byte nothing parked was dropped. */
  lemma {:induction false} NoJunkIsClean(c: Carry, chunks: seq<seq<byte>>)
    requires c.Valid() && FeedAll(c, chunks).junk == 0
    ensures Clean(c, chunks)
    decreases |chunks|
  {
    if chunks != [] {
      FeedAllCons(c, chunks);
      CleanCons(c, chunks);
      DropSkips(c, chunks[0]);
      NoJunkIsClean(Feed(c, chunks[0]).carry, chunks[1..]);
    }
  }

  lemma {:induction false} ScanKeepsAll(buf: seq<byte>)
    requires Scan(buf).junk == 0
    ensures Concat(Scan(buf).frames) + Scan(buf).carry.Pending() == buf
    decreases |buf|
  {
    if Skips(buf) {
      ScanSkip(buf);
    } else if StartsFrame(buf) {
      var n := Need(buf);
      ScanKeepsAll(buf[n..]);
      ConcatCons(buf[..n], Scan(buf[n..]).frames);
      JoinThree(buf[..n], Concat(Scan(buf[n..]).frames), Scan(buf[n..]).carry.Pending());
    } else {
      PartIsPending(buf);
      assert Concat(Scan(buf).frames) == [];
    }
  }

  /** Without a skipped byte, what is delivered and then what is parked is what was parked and then what arrived. */
  lemma {:induction false} NoJunkKeepsAll(c: Carry, chunks: seq<seq<byte>>)
    requires c.Valid() && FeedAll(c, chunks).junk == 0
    ensures var s := FeedAll(c, chunks); Concat(s.frames) + s.carry.Pending() == c.Pending() + Concat(chunks)
  {
    hide *;
    NoJunkIsClean(c, chunks);
    ChunkingInvariance(c, chunks);
    ScanKeepsAll(c.Pending() + Concat(chunks));
  }

  /**
   * The exact condition for going on after a loss: a receiver that has heard the stream up to n, resumed at m with any
   * transfers, does what one that missed nothing does, in frames, parked bytes and skipped bytes, if and only
   * if the part of a frame before n is the part of a frame before m.
   */
  lemma {:induction false} ResumesIffSamePart(items: seq<Item>, n: nat, m: nat, chunks: seq<seq<byte>>)
    requires AllValid(items) && Gapless(items) && n <= |Stream(items)| && m + |Concat(chunks)| <= |Stream(items)|
    requires Concat(chunks) == Stream(items)[m..m + |Concat(chunks)|]
    ensures FeedAll(Scan(Stream(items)[..n]).carry, chunks) == FeedAll(Scan(Stream(items)[..m]).carry, chunks)
       <==> PartAt(items, n) == PartAt(items, m)
  {
    var c, d := Scan(Stream(items)[..n]).carry, Scan(Stream(items)[..m]).carry;
    hide *;
    ScanAt(items, n);
    ScanAt(items, m);
    ResumesInPlace(items, m, chunks, m + |Concat(chunks)|);
    if c.Pending() == d.Pending() {
      PendingIsParked(c);
      PendingIsParked(d);
    } else if FeedAll(c, chunks) == FeedAll(d, chunks) {
      NoJunkKeepsAll(c, chunks);
      NoJunkKeepsAll(d, chunks);
      SameBefore(c.Pending(), d.Pending(), Concat(chunks));
    }
  }

  // ---- reads with the interface up or down ----

  /** One read, and whether the interface was up for it. */
  datatype Visit = Visit(up: bool, read: Read)

  predicate AllVisits(vs: seq<Visit>) {
    forall i :: 0 <= i < |vs| ==> vs[i].read.Valid()
  }

  /** The tunnel bytes that arrived, heard or not. */
  function Tunnel(vs: seq<Visit>): seq<byte> {
    if vs == [] then [] else Tunnel(vs[..|vs| - 1]) + Concat(IpChunks(vs[|vs| - 1].read.sent))
  }

  function Attend(e: RxEnv, vs: seq<Visit>): (r: RxState)
    requires e.Valid()
    ensures r.carry.Valid()
  {
    if vs == [] then Fresh()
    else
      var v := vs[|vs| - 1];
      Receive(e.(isUp := v.up), Attend(e, vs[..|vs| - 1]), Concat(v.read.imgs))
  }

  lemma {:induction false} DispatchDown(e: RxEnv, st: RxState, pieces: seq<Piece>)
    requires e.Valid() && !e.isUp && st.carry.Valid()
    ensures Dispatch(e, st, pieces).carry == st.carry && Dispatch(e, st, pieces).delivered == st.delivered
    decreases |pieces|
  {
    if pieces != [] {
      DispatchDown(e, st, pieces[..|pieces| - 1]);
    }
  }

  /** A read changes nothing in the tunnel while the interface is down, and feeds the parser while it is up. */
  lemma {:induction false} VisitFeeds(e: RxEnv, vs: seq<Visit>)
    requires e.Valid() && AllVisits(vs) && vs != []
    ensures var before, after, v := Attend(e, vs[..|vs| - 1]), Attend(e, vs), vs[|vs| - 1];
            var s := FeedAll(before.carry, IpChunks(v.read.sent));
            && after.carry == (if v.up then s.carry else before.carry)
            && after.delivered == if v.up then before.delivered + Restored(e.prefix, s.frames) else before.delivered
  {
    var before, v := Attend(e, vs[..|vs| - 1]), vs[|vs| - 1];
    assert v.read.Valid();
    var buf := Concat(v.read.imgs);
    if v.up {
      ReceiveFeeds(e.(isUp := true), before, v.read.sent, v.read.imgs);
    } else if |buf| >= LINK_TRAILER_LEN {
      DispatchDown(e.(isUp := false), before, PiecesOfBuffer(buf));
    }
    hide Dispatch, FeedAll, Restored, IpChunks, Concat, PiecesOfBuffer;
  }

  /** The offset up to which the tunnel bytes had arrived when the interface was last up for a read. */
  function LastHeard(vs: seq<Visit>): (n: nat)
    ensures n <= |Tunnel(vs)|
  {
    if vs == [] then 0 else if vs[|vs| - 1].up then |Tunnel(vs)| else LastHeard(vs[..|vs| - 1])
  }

  /** Whenever the interface comes up again, the part of a frame heard last is the part that arrived last. */
  predicate Smooth(items: seq<Item>, vs: seq<Visit>) {
    vs == [] ||
    var before := vs[..|vs| - 1];
    && Smooth(items, before)
    && (vs[|vs| - 1].up ==> PartAt(items, LastHeard(before)) == PartAt(items, |Tunnel(before)|))
  }

  /** Every read the interface is up for does to the parser what it does to one that has missed nothing. */
  predicate InStep(e: RxEnv, items: seq<Item>, vs: seq<Visit>)
    requires e.Valid() && Tunnel(vs) <= Stream(items)
  {
    vs == [] ||
    var before, v := vs[..|vs| - 1], vs[|vs| - 1];
    && InStep(e, items, before)
    && (v.up ==>
          FeedAll(Attend(e, before).carry, IpChunks(v.read.sent))
          == FeedAll(Scan(Stream(items)[..|Tunnel(before)|]).carry, IpChunks(v.read.sent)))
  }

  /** The frames whose last byte arrived while the interface was up. */
  function HeardFrames(items: seq<Item>, vs: seq<Visit>): seq<seq<byte>> {
    if vs == [] then []
    else
      var before := vs[..|vs| - 1];
      var a, b := FramesWithin(items, |Tunnel(before)|), FramesWithin(items, |Tunnel(vs)|);
      HeardFrames(items, before) + if vs[|vs| - 1].up && |a| <= |b| then b[|a|..] else []
  }

  lemma TunnelSnoc(vs: seq<Visit>, w: seq<byte>)
    requires vs != [] && Tunnel(vs) <= w
    ensures var n, y := |Tunnel(vs[..|vs| - 1])|, Concat(IpChunks(vs[|vs| - 1].read.sent));
            Tunnel(vs[..|vs| - 1]) <= w && n + |y| == |Tunnel(vs)| <= |w| && y == w[n..|Tunnel(vs)|]
  {
    hide *;
    TunnelGrows(vs);
    PrefixParts(Tunnel(vs[..|vs| - 1]), Concat(IpChunks(vs[|vs| - 1].read.sent)), w);
  }

  lemma TunnelGrows(vs: seq<Visit>)
    requires vs != []
    ensures Tunnel(vs) == Tunnel(vs[..|vs| - 1]) + Concat(IpChunks(vs[|vs| - 1].read.sent))
  {
  }

  lemma PrefixParts(t: seq<byte>, y: seq<byte>, w: seq<byte>)
    requires t + y <= w
    ensures t <= w && |t| + |y| == |t + y| <= |w| && y == w[|t|..|t + y|]
  {
    assert (t + y)[|t|..] == y && w[..|t + y|] == t + y;
  }

  /** A receiver in step has parked what it last heard a part of, and handed up the frames it heard the end of. */
  predicate InPlace(e: RxEnv, items: seq<Item>, vs: seq<Visit>)
    requires e.Valid() && Tunnel(vs) <= Stream(items)
  {
    var st := Attend(e, vs);
    && st.carry == Scan(Stream(items)[..LastHeard(vs)]).carry
    && st.delivered == Restored(e.prefix, HeardFrames(items, vs))
  }

  lemma NothingHeard(e: RxEnv, items: seq<Item>)
    requires e.Valid()
    ensures Tunnel([]) <= Stream(items) && InPlace(e, items, [])
  {
    assert Stream(items)[..0] == [] && Scan([]).carry == NOTHING;
    RestoredNone(e.prefix);
  }

  /** What one more read adds, for a receiver that has missed nothing. */
  lemma NextRead(items: seq<Item>, vs: seq<Visit>)
    requires AllValid(items) && vs != [] && Tunnel(vs) <= Stream(items)
    ensures Tunnel(vs[..|vs| - 1]) <= Stream(items)
    ensures var before, v := vs[..|vs| - 1], vs[|vs| - 1];
            var s := FeedAll(Scan(Stream(items)[..|Tunnel(before)|]).carry, IpChunks(v.read.sent));
            && s.carry == Scan(Stream(items)[..|Tunnel(vs)|]).carry
            && FramesWithin(items, |Tunnel(vs)|) == FramesWithin(items, |Tunnel(before)|) + s.frames
            && HeardFrames(items, vs)
               == (if v.up then HeardFrames(items, before) + s.frames else HeardFrames(items, before))
            && LastHeard(vs) == if v.up then |Tunnel(vs)| else LastHeard(before)
  {
    hide *;
    var n, chunks := |Tunnel(vs[..|vs| - 1])|, IpChunks(vs[|vs| - 1].read.sent);
    TunnelSnoc(vs, Stream(items));
    ResumesInPlace(items, n, chunks, |Tunnel(vs)|);
    HeardSnoc(items, vs, FeedAll(Scan(Stream(items)[..n]).carry, chunks).frames);
  }

  lemma StepHeard(e: RxEnv, items: seq<Item>, vs: seq<Visit>)
    requires e.Valid() && AllValid(items) && AllVisits(vs) && vs != [] && Tunnel(vs) <= Stream(items)
    requires Tunnel(vs[..|vs| - 1]) <= Stream(items) && InPlace(e, items, vs[..|vs| - 1]) && InStep(e, items, vs)
    ensures InPlace(e, items, vs)
  {
    assert |e.prefix| == 3;
    hide *;
    var before, v := vs[..|vs| - 1], vs[|vs| - 1];
    NextRead(items, vs);
    PlaceOf(e, items, before);
    VisitFeeds(e, vs);
    InStepMeans(e, items, vs);
    PlaceOf(e, items, vs);
    if v.up {
      var s := FeedAll(Attend(e, before).carry, IpChunks(v.read.sent));
      RestoredSplit(e.prefix, HeardFrames(items, before), s.frames);
    }
  }

  lemma PlaceOf(e: RxEnv, items: seq<Item>, vs: seq<Visit>)
    requires e.Valid() && Tunnel(vs) <= Stream(items)
    ensures InPlace(e, items, vs) <==>
            && Attend(e, vs).carry == Scan(Stream(items)[..LastHeard(vs)]).carry
            && Attend(e, vs).delivered == Restored(e.prefix, HeardFrames(items, vs))
  {
    hide Attend, Scan, Stream, LastHeard, Restored, HeardFrames, Tunnel;
  }

  lemma InStepMeans(e: RxEnv, items: seq<Item>, vs: seq<Visit>)
    requires e.Valid() && vs != [] && Tunnel(vs) <= Stream(items) && Tunnel(vs[..|vs| - 1]) <= Stream(items)
    ensures var before, v := vs[..|vs| - 1], vs[|vs| - 1];
            InStep(e, items, vs) <==>
            && InStep(e, items, before)
            && (v.up ==> FeedAll(Attend(e, before).carry, IpChunks(v.read.sent))
                         == FeedAll(Scan(Stream(items)[..|Tunnel(before)|]).carry, IpChunks(v.read.sent)))
  {
    hide FeedAll, Attend, Scan, Stream, Tunnel, IpChunks;
  }

  lemma SmoothMeans(items: seq<Item>, vs: seq<Visit>)
    requires vs != []
    ensures var before := vs[..|vs| - 1];
            Smooth(items, vs) <==>
            Smooth(items, before)
            && (vs[|vs| - 1].up ==> PartAt(items, LastHeard(before)) == PartAt(items, |Tunnel(before)|))
  {
    hide PartAt, LastHeard, Tunnel;
  }

  lemma HeardSnoc(items: seq<Item>, vs: seq<Visit>, frames: seq<seq<byte>>)
    requires vs != []
    requires FramesWithin(items, |Tunnel(vs)|) == FramesWithin(items, |Tunnel(vs[..|vs| - 1])|) + frames
    ensures var before, v := vs[..|vs| - 1], vs[|vs| - 1];
            && HeardFrames(items, vs)
               == (if v.up then HeardFrames(items, before) + frames else HeardFrames(items, before))
            && LastHeard(vs) == if v.up then |Tunnel(vs)| else LastHeard(before)
  {
    var a := FramesWithin(items, |Tunnel(vs[..|vs| - 1])|);
    hide FramesWithin, Tunnel;
    assert (a + frames)[|a|..] == frames;
  }

  lemma InStepSnoc(e: RxEnv, items: seq<Item>, vs: seq<Visit>)
    requires e.Valid() && AllValid(items) && Gapless(items) && vs != [] && Tunnel(vs) <= Stream(items)
    requires Tunnel(vs[..|vs| - 1]) <= Stream(items) && InPlace(e, items, vs[..|vs| - 1])
    requires InStep(e, items, vs[..|vs| - 1]) && Smooth(items, vs[..|vs| - 1])
    ensures InStep(e, items, vs) <==> Smooth(items, vs)
  {
    hide *;
    var before, v := vs[..|vs| - 1], vs[|vs| - 1];
    TunnelSnoc(vs, Stream(items));
    PlaceOf(e, items, before);
    InStepMeans(e, items, vs);
    SmoothMeans(items, vs);
    ResumesIffSamePart(items, LastHeard(before), |Tunnel(before)|, IpChunks(v.read.sent));
  }

  /** Whatever it missed, a receiver is in step over a run of reads exactly when the run is smooth. */
  lemma {:induction false} InStepIffSmooth(e: RxEnv, items: seq<Item>, vs: seq<Visit>)
    requires e.Valid() && AllValid(items) && Gapless(items) && AllVisits(vs) && Tunnel(vs) <= Stream(items)
    ensures InStep(e, items, vs) <==> Smooth(items, vs)
    ensures InStep(e, items, vs) ==> InPlace(e, items, vs)
    decreases |vs|
  {
    if vs == [] {
      NothingHeard(e, items);
      return;
    }
    hide *;
    var before := vs[..|vs| - 1];
    TunnelSnoc(vs, Stream(items));
    VisitsBefore(vs);
    InStepIffSmooth(e, items, before);
    InStepMeans(e, items, vs);
    SmoothMeans(items, vs);
    if InStep(e, items, before) {
      InStepSnoc(e, items, vs);
      if InStep(e, items, vs) {
        StepHeard(e, items, vs);
      }
    }
  }

  lemma VisitsBefore(vs: seq<Visit>)
    requires AllVisits(vs) && vs != []
    ensures AllVisits(vs[..|vs| - 1])
  {
  }

  // ---- runs that lose whole frames only ----

  /** No read the interface is down for loses tunnel bytes from inside a frame or up to inside one. */
  predicate WholeFramesLost(items: seq<Item>, vs: seq<Visit>) {
    vs == [] ||
    var n, m := |Tunnel(vs[..|vs| - 1])|, |Tunnel(vs)|;
    && WholeFramesLost(items, vs[..|vs| - 1])
    && (vs[|vs| - 1].up || n == m || (!InsideFrame(items, n) && !InsideFrame(items, m)))
  }

  /** Then the run is smooth, and so in step. */
  lemma {:induction false} WholeFramesLostIsSmooth(items: seq<Item>, vs: seq<Visit>)
    requires AllValid(items) && WholeFramesLost(items, vs)
    ensures Smooth(items, vs) && PartAt(items, LastHeard(vs)) == PartAt(items, |Tunnel(vs)|)
    decreases |vs|
  {
    if vs != [] {
      WholeFramesLostIsSmooth(items, vs[..|vs| - 1]);
      PartIsNone(items, |Tunnel(vs[..|vs| - 1])|);
      PartIsNone(items, |Tunnel(vs)|);
      hide PartAt, InsideFrame, AllValid;
    }
  }

  lemma {:induction false} HeardIsSubsequence(items: seq<Item>, vs: seq<Visit>)
    requires AllValid(items) && Tunnel(vs) <= Stream(items)
    ensures Subsequence(HeardFrames(items, vs), FramesWithin(items, |Tunnel(vs)|))
    decreases |vs|
  {
    if vs == [] {
      return;
    }
    hide *;
    var before, v := vs[..|vs| - 1], vs[|vs| - 1];
    NextRead(items, vs);
    HeardIsSubsequence(items, before);
    var s := FeedAll(Scan(Stream(items)[..|Tunnel(before)|]).carry, IpChunks(v.read.sent));
    var a, heard := FramesWithin(items, |Tunnel(before)|), HeardFrames(items, before);
    if v.up {
      SubsequenceBefore(heard, a, s.frames);
    } else {
      SubsequenceHead(a, s.frames);
      SubsequenceTransitive(heard, a, a + s.frames);
    }
  }

  /** What was handed up are some of the packets, in order, each as it may arrive. */
  predicate SomeInOrder(ps: seq<seq<byte>>, delivered: seq<seq<byte>>)
    decreases |ps|
  {
    delivered == [] ||
    (ps != [] && ((ArrivesAs(ps[0], delivered[0]) && SomeInOrder(ps[1..], delivered[1..]))
                  || SomeInOrder(ps[1..], delivered)))
  }

  lemma {:induction false} RestoredSome(pfx: seq<byte>, ps: seq<seq<byte>>, n: nat, fs: seq<seq<byte>>)
    requires |pfx| == 3 && AllWellFormed(pfx, ps) && Subsequence(fs, FramesWithin(Items(pfx, ps), n))
    ensures SomeInOrder(ps, Restored(pfx, fs))
    decreases |ps|
  {
    if fs == [] {
      return;
    }
    var items, p := Items(pfx, ps), ps[0];
    assert WellFormed(pfx, p) && items[0] == Item([], Compress(p)) && items[1..] == Items(pfx, ps[1..]);
    var m := n - |Compress(p)|;
    var within := FramesWithin(items, n);
    assert within == [Compress(p)] + FramesWithin(items[1..], m);
    assert within[1..] == FramesWithin(items[1..], m);
    hide FramesWithin, Items;
    if fs[0] == Compress(p) && Subsequence(fs[1..], within[1..]) {
      RestoredSome(pfx, ps[1..], m, fs[1..]);
      CompressRestore(pfx, p);
      RestoredCons(pfx, fs);
    } else {
      RestoredSome(pfx, ps[1..], m, fs);
    }
  }

  lemma RestoredCons(pfx: seq<byte>, fs: seq<seq<byte>>)
    requires |pfx| == 3 && fs != []
    ensures Restored(pfx, fs)[0] == RestoreOne(pfx, fs[0]) && Restored(pfx, fs)[1..] == Restored(pfx, fs[1..])
  {
  }

  lemma {:induction false} TunnelItems(pfx: seq<byte>, ps: seq<seq<byte>>)
    requires AllWellFormed(pfx, ps)
    ensures AllValid(Items(pfx, ps)) && Gapless(Items(pfx, ps))
  {
    ItemsStream(pfx, ps);
  }

  /**
   * Down and up between reads, any number of times: a receiver does with every read it is up for what one that missed
   * nothing does if and only if, each time it comes up, the part of a frame it heard last is the part that arrived
   * last; and then it has handed up exactly the packets whose end it was up for, in order.
   */
  lemma {:induction false} ReopenInOrderIff(e: RxEnv, ps: seq<seq<byte>>, vs: seq<Visit>)
    requires e.Valid() && AllWellFormed(e.prefix, ps) && AllVisits(vs) && Tunnel(vs) <= Stream(Items(e.prefix, ps))
    ensures var items, delivered := Items(e.prefix, ps), Attend(e, vs).delivered;
            && (InStep(e, items, vs) <==> Smooth(items, vs))
            && (Smooth(items, vs) ==>
                  delivered == Restored(e.prefix, HeardFrames(items, vs)) && SomeInOrder(ps, delivered))
            && (WholeFramesLost(items, vs) ==> Smooth(items, vs))
  {
    var items := Items(e.prefix, ps);
    TunnelItems(e.prefix, ps);
    InStepIffSmooth(e, items, vs);
    HeardIsSubsequence(items, vs);
    RestoredSome(e.prefix, ps, |Tunnel(vs)|, HeardFrames(items, vs));
    if WholeFramesLost(items, vs) {
      WholeFramesLostIsSmooth(items, vs);
    }
    hide Attend, Items, Restored, HeardFrames, InStep, Smooth, SomeInOrder, Tunnel, Stream, Scan, LastHeard;
  }

  /** A frame of 13 bytes and one of 14. */
  const SHORT: seq<byte> := [0x45, 17, 0, 0, 0, 21, 0, 0, 0, 0, 1, 2, 7]
  const LONG: seq<byte> := [0x45, 6, 0, 0, 0, 22, 0, 0, 0, 0, 1, 2, 8, 9]

  /** Missing the last byte of one frame hands up its first twelve bytes with the next frame's marker behind them. */
  lemma {:induction false} MissedByteSplices()
    ensures var items := [Item([], SHORT), Item([], LONG)];
            AllValid(items) && PartAt(items, 12) == SHORT[..12] && PartAt(items, 13) == []
    ensures var c := Feed(NOTHING, SHORT[..12]).carry; Feed(c, LONG).frames == [SHORT[..12] + [0x45]]
  {
    ShortIsParked();
    NoFrameInside();
    hide Scan, Feed;
    assert LONG[..1] == [0x45];
    assert [Item([], SHORT), Item([], LONG)][1..] == [Item([], LONG)];
    ContinuesWith(SHORT[..12], LONG);
  }

  lemma ShortIsParked()
    ensures Carry([], SHORT[..12], 1).Valid() && Feed(NOTHING, SHORT[..12]).carry == Carry([], SHORT[..12], 1)
  {
    assert Plausible(SHORT[..12]) && Need(SHORT[..12]) == 13;
  }

  lemma ContinuesWith(f: seq<byte>, buf: seq<byte>)
    requires Carry([], f, 1).Valid() && buf != [] && Scan(buf[1..]).frames == []
    ensures Feed(Carry([], f, 1), buf).frames == [f + buf[..1]]
  {
    hide Scan;
  }

  lemma NoFrameInside()
    ensures Scan(LONG[1..]).frames == []
  {
    assert LONG[1..] == [6, 0, 0, 0, 22, 0, 0, 0, 0, 1, 2, 8, 9];
    NoMarker(LONG[1..]);
  }

  lemma {:induction false} NoMarker(buf: seq<byte>)
    requires MARKER !in buf
    ensures Scan(buf).frames == []
  {
    assert buf + [] == buf;
    SkipGap(buf, []);
  }
}
