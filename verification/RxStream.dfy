/**
 * The incremental tunnel parser, artosyn_rx_ip_stream (modules/artosyn_sdio.c): frames may be cut by
 * transfer boundaries anywhere, inside a body or inside the 12-byte header.
 */
module RxStream {
  import opened Bytes
  import opened IpHeader

  const MARKER := 0x45
  const IP_FRAME_MAX := 4352

  function TotalLength(p: seq<byte>): nat
    requires |p| >= IP_COMPRESSED_HDR
  {
    Word(p[4], p[5])
  }

  /** artosyn_ip_hdr_plausible: IGMP, ICMP, TCP or UDP, and a sane total length. */
  predicate Plausible(p: seq<byte>)
    requires |p| >= IP_COMPRESSED_HDR
  {
    p[0] == MARKER && p[1] in {17, 6, 1, 2} && IP_HDR < TotalLength(p) <= IP_FRAME_MAX
  }

  /** Size on the wire: compressed header plus body. */
  function Need(p: seq<byte>): nat
    requires |p| >= IP_COMPRESSED_HDR && Plausible(p)
  {
    IP_COMPRESSED_HDR + (TotalLength(p) - IP_HDR)
  }

  /** What is parked between transfers: a split header, or a frame (empty = none) and the bytes it lacks. */
  datatype Carry = Carry(hdr: seq<byte>, partial: seq<byte>, left: nat) {
    predicate Valid() {
      && |hdr| < IP_COMPRESSED_HDR
      && (hdr != [] ==> hdr[0] == MARKER && partial == [])
      && (partial == [] <==> left == 0)
      && (partial != [] ==> |partial| >= IP_COMPRESSED_HDR && Plausible(partial) && |partial| + left == Need(partial))
    }

    function Pending(): seq<byte> {
      hdr + partial
    }
  }

  const NOTHING := Carry([], [], 0)

  /** The effect of parsing some bytes: what is parked, the frames completed, the bytes skipped. */
  datatype Step = Step(carry: Carry, frames: seq<seq<byte>>, junk: nat) {
    function Before(frames0: seq<seq<byte>>, junk0: nat): Step {
      Step(carry, frames0 + frames, junk0 + junk)
    }
  }

  /** The main loop: parsing from a position with nothing parked. */
  function Scan(buf: seq<byte>): (s: Step)
    ensures s.carry.Valid()
  {
    if buf == [] then Step(NOTHING, [], 0)
    else if buf[0] != MARKER then Scan(buf[1..]).Before([], 1)
    else if |buf| < IP_COMPRESSED_HDR then Step(Carry(buf, [], 0), [], 0)
    else if !Plausible(buf) then Scan(buf[1..]).Before([], 1)
    else if Need(buf) > |buf| then Step(Carry([], buf, Need(buf) - |buf|), [], 0)
    else Scan(buf[Need(buf)..]).Before([buf[..Need(buf)]], 0)
  }

  /** Continuing a parked frame. */
  function FeedBody(partial: seq<byte>, left: nat, buf: seq<byte>): (s: Step)
    requires left > 0 && Carry([], partial, left).Valid()
    ensures s.carry.Valid()
  {
    if left > |buf| then Step(Carry([], partial + buf, left - |buf|), [], 0)
    else Scan(buf[left..]).Before([partial + buf[..left]], 0)
  }

  /** One transfer, as the code treats it: an implausible split header is dropped as a whole. */
  function Feed(c: Carry, buf: seq<byte>): (s: Step)
    requires c.Valid()
    ensures s.carry.Valid()
  {
    if c.hdr != [] then
      if |c.hdr| + |buf| < IP_COMPRESSED_HDR then Step(Carry(c.hdr + buf, [], 0), [], 0)
      else
        var take := IP_COMPRESSED_HDR - |c.hdr|;
        var h := c.hdr + buf[..take];
        if Plausible(h) then FeedBody(h, Need(h) - IP_COMPRESSED_HDR, buf[take..])
        else Scan(buf[take..]).Before([], IP_COMPRESSED_HDR)
    else if c.partial != [] then FeedBody(c.partial, c.left, buf)
    else Scan(buf)
  }

  /** A run of transfers. */
  function FeedAll(c: Carry, chunks: seq<seq<byte>>): (s: Step)
    requires c.Valid()
    ensures s.carry.Valid()
    decreases |chunks|
  {
    if chunks == [] then Step(c, [], 0)
    else
      var s := Feed(c, chunks[0]);
      FeedAll(s.carry, chunks[1..]).Before(s.frames, s.junk)
  }

  // ---- the parse of a stream does not depend on where it is cut ----

  lemma BeforeBefore(s: Step, f: seq<seq<byte>>, j: nat, f': seq<seq<byte>>, j': nat)
    ensures s.Before(f', j').Before(f, j) == s.Before(f + f', j + j')
  {
    assert f + (f' + s.frames) == f + f' + s.frames;
  }

  /** The main loop skips this byte. */
  predicate Skips(buf: seq<byte>) {
    buf != [] && (buf[0] != MARKER || (|buf| >= IP_COMPRESSED_HDR && !Plausible(buf)))
  }

  /** The main loop finds a whole frame here. */
  predicate StartsFrame(buf: seq<byte>) {
    |buf| >= IP_COMPRESSED_HDR && Plausible(buf) && Need(buf) <= |buf|
  }

  lemma {:induction false} ScanFrame(f: seq<byte>, rest: seq<byte>)
    requires |f| >= IP_COMPRESSED_HDR && Plausible(f) && Need(f) == |f|
    ensures Scan(f + rest) == Scan(rest).Before([f], 0)
  {
    var b := f + rest;
    assert Plausible(b) && Need(b) == |f|;
    assert b[..|f|] == f && b[|f|..] == rest;
  }

  /** Scanning is a monoid action: what is parked after x stands for everything of x still unparsed. */
  lemma {:induction false} ScanAppend(x: seq<byte>, y: seq<byte>)
    ensures Scan(x + y) == Scan(Scan(x).carry.Pending() + y).Before(Scan(x).frames, Scan(x).junk)
  {
    if Skips(x) {
      ScanAppend(x[1..], y);
      AppendSkip(x, y);
    } else if StartsFrame(x) {
      var n := Need(x);
      SplitFrame(x, y);
      hide *;
      ScanAppend(x[n..], y);
      AppendFrame(x[..n], x[n..], y);
    } else {
      PartIsPending(x);
      hide *;
      BeforeNothing(Scan(x + y));
    }
  }

  lemma SplitFrame(x: seq<byte>, y: seq<byte>)
    requires StartsFrame(x)
    ensures var n := Need(x); |x[..n]| == n >= IP_COMPRESSED_HDR && Plausible(x[..n]) && Need(x[..n]) == n
    ensures var n := Need(x); x == x[..n] + x[n..] && x + y == x[..n] + (x[n..] + y)
  {
  }

  lemma BeforeNothing(s: Step)
    ensures s.Before([], 0) == s
  {
    assert [] + s.frames == s.frames;
  }

  /** What neither skips nor starts a whole frame is parked as it is. */
  lemma {:induction false} PartIsPending(x: seq<byte>)
    requires !Skips(x) && !StartsFrame(x)
    ensures Scan(x).carry.Pending() == x && Scan(x).frames == [] && Scan(x).junk == 0
  {
    if x == [] {
      assert NOTHING.Pending() == [];
    } else if |x| < IP_COMPRESSED_HDR {
      assert Carry(x, [], 0).Pending() == x;
    } else {
      assert Carry([], x, Need(x) - |x|).Pending() == x;
    }
  }

  lemma {:induction false} ScanSkip(b: seq<byte>)
    requires Skips(b)
    ensures Scan(b) == Scan(b[1..]).Before([], 1)
  {
  }

  lemma SkipsMore(x: seq<byte>, y: seq<byte>)
    requires Skips(x)
    ensures Skips(x + y)
  {
  }

  lemma AfterSkip(t: Step, u: Step)
    ensures u.Before(t.frames, t.junk).Before([], 1) == u.Before(t.Before([], 1).frames, t.Before([], 1).junk)
  {
    BeforeBefore(u, [], 1, t.frames, t.junk);
  }

  lemma {:induction false} AppendSkip(x: seq<byte>, y: seq<byte>)
    requires Skips(x)
    requires var t := Scan(x[1..]); Scan(x[1..] + y) == Scan(t.carry.Pending() + y).Before(t.frames, t.junk)
    ensures Scan(x + y) == Scan(Scan(x).carry.Pending() + y).Before(Scan(x).frames, Scan(x).junk)
  {
    var t := Scan(x[1..]);
    assert (x + y)[1..] == x[1..] + y;
    SkipsMore(x, y);
    ScanSkip(x);
    ScanSkip(x + y);
    AfterSkip(t, Scan(t.carry.Pending() + y));
  }

  lemma {:induction false} AppendFrame(f: seq<byte>, rest: seq<byte>, y: seq<byte>)
    requires |f| >= IP_COMPRESSED_HDR && Plausible(f) && Need(f) == |f|
    requires var t := Scan(rest); Scan(rest + y) == Scan(t.carry.Pending() + y).Before(t.frames, t.junk)
    ensures var s := Scan(f + rest); Scan(f + (rest + y)) == Scan(s.carry.Pending() + y).Before(s.frames, s.junk)
  {
    var t := Scan(rest);
    ScanFrame(f, rest);
    ScanFrame(f, rest + y);
    BeforeBefore(Scan(t.carry.Pending() + y), [f], 0, t.frames, t.junk);
  }

  /**
   * The discarded tail of an implausible split header hides nothing: wherever it holds a marker, the main
   * loop would have had a whole header to look at and would have rejected it.
   */
  predicate CleanTail(h: seq<byte>, rest: seq<byte>)
    requires |h| == IP_COMPRESSED_HDR
  {
    forall j :: 1 <= j < IP_COMPRESSED_HDR && h[j] == MARKER ==>
      |(h + rest)[j..]| >= IP_COMPRESSED_HDR && !Plausible((h + rest)[j..])
  }

  /** The transfer completes a parked header that is not plausible, the only branch whose outcome depends on the cut. */
  predicate Drops(c: Carry, buf: seq<byte>)
    requires c.Valid()
  {
    c.hdr != [] && |c.hdr| + |buf| >= IP_COMPRESSED_HDR && !Plausible(c.hdr + buf[..IP_COMPRESSED_HDR - |c.hdr|])
  }

  /** A header dropped by this transfer has a clean tail, all that comes later considered. */
  predicate CleanDrop(c: Carry, buf: seq<byte>, later: seq<byte>)
    requires c.Valid()
  {
    Drops(c, buf) ==>
      var take := IP_COMPRESSED_HDR - |c.hdr|;
      CleanTail(c.hdr + buf[..take], buf[take..] + later)
  }

  lemma {:induction false} SkipTail(h: seq<byte>, rest: seq<byte>, j: nat)
    requires |h| == IP_COMPRESSED_HDR && 1 <= j <= IP_COMPRESSED_HDR && CleanTail(h, rest)
    ensures Scan((h + rest)[j..]) == Scan(rest).Before([], IP_COMPRESSED_HDR - j)
    decreases IP_COMPRESSED_HDR - j
  {
    if j == IP_COMPRESSED_HDR {
      assert (h + rest)[j..] == rest;
    } else {
      SkipTail(h, rest, j + 1);
      assert (h + rest)[j..][1..] == (h + rest)[j + 1..];
    }
  }

  /** A completed split header, plausible or with a clean tail. */
  lemma {:induction false} HeaderIsScan(h: seq<byte>, rest: seq<byte>)
    requires |h| == IP_COMPRESSED_HDR && h[0] == MARKER && (Plausible(h) || CleanTail(h, rest))
    ensures Scan(h + rest) == if Plausible(h) then FeedBody(h, Need(h) - IP_COMPRESSED_HDR, rest)
                              else Scan(rest).Before([], IP_COMPRESSED_HDR)
  {
    if Plausible(h) {
      BodyIsScan(h, Need(h) - IP_COMPRESSED_HDR, rest);
    } else {
      SkipTail(h, rest, 1);
    }
  }

  lemma {:induction false} FeedHeaderIsScan(c: Carry, buf: seq<byte>)
    requires c.Valid() && c.hdr != [] && CleanDrop(c, buf, []) && |c.hdr| + |buf| >= IP_COMPRESSED_HDR
    ensures Feed(c, buf) == Scan(c.hdr + buf)
  {
    var take := IP_COMPRESSED_HDR - |c.hdr|;
    FeedOfHeader(c, buf);
    hide *;
    HeaderIsScan(c.hdr + buf[..take], buf[take..]);
  }

  /** A transfer that completes a parked header, seen from the completed header. */
  lemma FeedOfHeader(c: Carry, buf: seq<byte>)
    requires c.Valid() && c.hdr != [] && |c.hdr| + |buf| >= IP_COMPRESSED_HDR
    ensures var take := IP_COMPRESSED_HDR - |c.hdr|;
            var h, rest := c.hdr + buf[..take], buf[take..];
            && |h| == IP_COMPRESSED_HDR && h[0] == MARKER && c.hdr + buf == h + rest
            && (CleanDrop(c, buf, []) ==> Plausible(h) || CleanTail(h, rest))
            && Feed(c, buf) == if Plausible(h) then FeedBody(h, Need(h) - IP_COMPRESSED_HDR, rest)
                               else Scan(rest).Before([], IP_COMPRESSED_HDR)
  {
    hide Scan, FeedBody, CleanTail;
    assert buf[IP_COMPRESSED_HDR - |c.hdr|..] + [] == buf[IP_COMPRESSED_HDR - |c.hdr|..];
  }

  /** Unless it drops a header, a transfer does what an uncut parse of the pending bytes and its own would do. */
  lemma {:induction false} FeedIsScan(c: Carry, buf: seq<byte>)
    requires c.Valid() && CleanDrop(c, buf, [])
    ensures Feed(c, buf) == Scan(c.Pending() + buf)
  {
    if c.hdr != [] {
      assert c.Pending() + buf == c.hdr + buf;
      if |c.hdr + buf| >= IP_COMPRESSED_HDR {
        FeedHeaderIsScan(c, buf);
      }
    } else if c.partial != [] {
      assert c.Pending() == c.partial;
      BodyIsScan(c.partial, c.left, buf);
    } else {
      assert c.Pending() + buf == buf;
    }
  }

  lemma {:induction false} BodyIsScan(partial: seq<byte>, left: nat, buf: seq<byte>)
    requires left > 0 && Carry([], partial, left).Valid()
    ensures FeedBody(partial, left, buf) == Scan(partial + buf)
  {
    var all := partial + buf;
    assert Plausible(all) && Need(all) == |partial| + left;
    if left <= |buf| {
      assert all[Need(all)..] == buf[left..];
      assert all[..Need(all)] == partial + buf[..left];
    }
  }

  /** No transfer of the run drops a header whose tail could hold a frame start. */
  predicate Clean(c: Carry, chunks: seq<seq<byte>>)
    requires c.Valid()
    decreases |chunks|
  {
    chunks == [] ||
    (CleanDrop(c, chunks[0], Concat(chunks[1..])) && Clean(Feed(c, chunks[0]).carry, chunks[1..]))
  }

  lemma NothingIsClean(c: Carry)
    requires c.Valid()
    ensures Clean(c, [])
  {
  }

  lemma CleanCons(c: Carry, chunks: seq<seq<byte>>)
    requires c.Valid() && chunks != []
    ensures Clean(c, chunks) <==>
            CleanDrop(c, chunks[0], Concat(chunks[1..])) && Clean(Feed(c, chunks[0]).carry, chunks[1..])
  {
  }

  lemma FeedOfDrop(c: Carry, buf: seq<byte>)
    requires c.Valid() && Drops(c, buf)
    ensures |c.hdr| < IP_COMPRESSED_HDR <= |c.hdr| + |buf|
    ensures Feed(c, buf) == Scan(buf[IP_COMPRESSED_HDR - |c.hdr|..]).Before([], IP_COMPRESSED_HDR)
  {
  }

  /** The bytes a dropped header was made of, what follows it, and what comes later. */
  lemma AroundDrop(c: Carry, buf: seq<byte>, later: seq<byte>)
    requires c.Valid() && Drops(c, buf)
    ensures var take := IP_COMPRESSED_HDR - |c.hdr|;
            var h := c.hdr + buf[..take];
            && |h| == IP_COMPRESSED_HDR && h[0] == MARKER && !Plausible(h)
            && c.Pending() + (buf + later) == h + (buf[take..] + later)
  {
    assert c.Pending() == c.hdr;
    assert buf == buf[..IP_COMPRESSED_HDR - |c.hdr|] + buf[IP_COMPRESSED_HDR - |c.hdr|..];
  }

  /** Parsing a dropped header, its transfer and what comes later in one go skips the header just as well. */
  lemma {:induction false} CleanDropIsScan(c: Carry, buf: seq<byte>, later: seq<byte>)
    requires c.Valid() && Drops(c, buf) && CleanDrop(c, buf, later)
    ensures var s := Feed(c, buf);
            Scan(c.Pending() + (buf + later)) == Scan(s.carry.Pending() + later).Before(s.frames, s.junk)
  {
    var take := IP_COMPRESSED_HDR - |c.hdr|;
    var h, rest := c.hdr + buf[..take], buf[take..];
    AroundDrop(c, buf, later);
    FeedOfDrop(c, buf);
    assert CleanTail(h, rest + later);
    hide *;
    HeaderIsScan(h, rest + later);
    ScanAppend(rest, later);
    BeforeDropped(Scan(Scan(rest).carry.Pending() + later), Scan(rest));
  }

  lemma BeforeDropped(u: Step, t: Step)
    ensures var s := t.Before([], IP_COMPRESSED_HDR);
            s.carry == t.carry && u.Before(t.frames, t.junk).Before([], IP_COMPRESSED_HDR) == u.Before(s.frames, s.junk)
  {
    BeforeBefore(u, [], IP_COMPRESSED_HDR, t.frames, t.junk);
  }

  lemma NoDropIsScan(c: Carry, buf: seq<byte>, later: seq<byte>)
    requires c.Valid() && !Drops(c, buf)
    ensures var s := Feed(c, buf);
            Scan(c.Pending() + (buf + later)) == Scan(s.carry.Pending() + later).Before(s.frames, s.junk)
  {
    hide *;
    NoDropIsClean(c, buf, []);
    FeedIsScan(c, buf);
    ScanAppend(c.Pending() + buf, later);
    JoinThree(c.Pending(), buf, later);
  }

  /** Any stream, cut anywhere but at a header whose dropped tail hides something, parses as if in one transfer. */
  lemma {:induction false} ChunkingInvariance(c: Carry, chunks: seq<seq<byte>>)
    requires c.Valid() && Clean(c, chunks)
    ensures FeedAll(c, chunks) == Scan(c.Pending() + Concat(chunks))
    decreases |chunks|
  {
    if chunks == [] {
      ChunkingOfNone(c);
      return;
    }
    var s, rest := Feed(c, chunks[0]), Concat(chunks[1..]);
    hide *;
    CleanCons(c, chunks);
    FeedAllCons(c, chunks);
    ConcatFirst(chunks);
    if Drops(c, chunks[0]) {
      CleanDropIsScan(c, chunks[0], rest);
    } else {
      NoDropIsScan(c, chunks[0], rest);
    }
    ChunkingInvariance(s.carry, chunks[1..]);
  }

  lemma ChunkingOfNone(c: Carry)
    requires c.Valid()
    ensures FeedAll(c, []) == Scan(c.Pending() + Concat([]))
  {
    PendingIsParked(c);
    assert c.Pending() + Concat([]) == c.Pending();
  }

  lemma ConcatFirst(chunks: seq<seq<byte>>)
    requires chunks != []
    ensures Concat(chunks) == chunks[0] + Concat(chunks[1..])
  {
  }

  lemma FeedAllCons(c: Carry, chunks: seq<seq<byte>>)
    requires c.Valid() && chunks != []
    ensures var s := Feed(c, chunks[0]); FeedAll(c, chunks) == FeedAll(s.carry, chunks[1..]).Before(s.frames, s.junk)
  {
  }

  lemma PendingIsParked(c: Carry)
    requires c.Valid()
    ensures Scan(c.Pending()) == Step(c, [], 0)
  {
    if c.hdr != [] {
      assert c.Pending() == c.hdr;
    } else {
      assert c.Pending() == c.partial;
    }
  }

  /** The stream offsets at which a parse accepts a frame start (completed or parked), base being buf's own offset. */
  function Starts(base: nat, buf: seq<byte>): (r: seq<nat>)
    ensures forall k :: k in r ==> k >= base
    decreases |buf|
  {
    if buf == [] then []
    else if buf[0] != MARKER then Starts(base + 1, buf[1..])
    else if |buf| < IP_COMPRESSED_HDR then [base]
    else if !Plausible(buf) then Starts(base + 1, buf[1..])
    else if Need(buf) > |buf| then [base]
    else [base] + Starts(base + Need(buf), buf[Need(buf)..])
  }

  /**
   * The exact condition: dropping an implausible split header whole finds the same frame starts as the uncut
   * parse if and only if its tail is clean.
   */
  lemma {:induction false} SplitHeaderExact(base: nat, h: seq<byte>, rest: seq<byte>)
    requires |h| == IP_COMPRESSED_HDR && h[0] == MARKER && !Plausible(h)
    ensures Starts(base, h + rest) == Starts(base + IP_COMPRESSED_HDR, rest) <==> CleanTail(h, rest)
  {
    assert (h + rest)[0..] == h + rest;
    assert Starts(base, h + rest) == Starts(base + 1, (h + rest)[1..]);
    StartsInTail(base, h, rest, 1);
  }

  lemma {:induction false} StartsInTail(base: nat, h: seq<byte>, rest: seq<byte>, j: nat)
    requires |h| == IP_COMPRESSED_HDR && 1 <= j <= IP_COMPRESSED_HDR
    ensures Starts(base + j, (h + rest)[j..]) == Starts(base + IP_COMPRESSED_HDR, rest) <==>
            forall i :: j <= i < IP_COMPRESSED_HDR && h[i] == MARKER ==>
              |(h + rest)[i..]| >= IP_COMPRESSED_HDR && !Plausible((h + rest)[i..])
    decreases IP_COMPRESSED_HDR - j
  {
    var b := (h + rest)[j..];
    if j == IP_COMPRESSED_HDR {
      assert b == rest;
    } else if b[0] != MARKER || (|b| >= IP_COMPRESSED_HDR && !Plausible(b)) {
      StartsInTail(base, h, rest, j + 1);
      assert b[1..] == (h + rest)[j + 1..];
    } else {
      assert base + j in Starts(base + j, b);
      assert base + j !in Starts(base + IP_COMPRESSED_HDR, rest);
      assert h[j] == MARKER;
    }
  }

  /** The starts a parse of buf completes, and those only. */
  function Completed(base: nat, buf: seq<byte>): (r: seq<nat>)
    ensures forall k :: k in r ==> k >= base
    decreases |buf|
  {
    if Skips(buf) then Completed(base + 1, buf[1..])
    else if StartsFrame(buf) then [base] + Completed(base + Need(buf), buf[Need(buf)..])
    else []
  }

  /** The start of the frame or header parked after buf, if any, parked being its length. */
  function Parked(end: nat, parked: nat): seq<nat>
    requires parked <= end
  {
    if parked == 0 then [] else [end - parked]
  }

  /** The starts of the frames a transfer completes, base being the offset of the first pending byte. */
  function FedCompleted(base: nat, c: Carry, buf: seq<byte>): (r: seq<nat>)
    requires c.Valid()
    ensures forall k :: k in r ==> k >= base
  {
    if c.hdr != [] then
      if |c.hdr| + |buf| < IP_COMPRESSED_HDR then []
      else
        var take := IP_COMPRESSED_HDR - |c.hdr|;
        var h := c.hdr + buf[..take];
        if Plausible(h) then BodyCompleted(base, IP_COMPRESSED_HDR, Need(h) - IP_COMPRESSED_HDR, buf[take..])
        else Completed(base + IP_COMPRESSED_HDR, buf[take..])
    else if c.partial != [] then BodyCompleted(base, |c.partial|, c.left, buf)
    else Completed(base, buf)
  }

  function BodyCompleted(base: nat, got: nat, left: nat, buf: seq<byte>): (r: seq<nat>)
    ensures forall k :: k in r ==> k >= base
  {
    if left > |buf| then [] else [base] + Completed(base + got + left, buf[left..])
  }

  /** The offsets at which a run of transfers accepts a frame start: completed on the way, or parked at the end. */
  function FedStarts(base: nat, c: Carry, chunks: seq<seq<byte>>): (r: seq<nat>)
    requires c.Valid()
    ensures forall k :: k in r ==> k >= base
    decreases |chunks|
  {
    if chunks == [] then Parked(base + |c.Pending()|, |c.Pending()|)
    else
      NextIs(base, c, chunks[0]);
      EveryByteAccounted(c, chunks[0]);
      FedCompleted(base, c, chunks[0])
      + FedStarts(Next(base, c, chunks[0]), Feed(c, chunks[0]).carry, chunks[1..])
  }

  /** What is parked after x stands, in place, for everything of x that is not completed or skipped. */
  lemma {:induction false} StartsAppend(base: nat, x: seq<byte>, y: seq<byte>)
    ensures var p := Scan(x).carry.Pending();
            |p| <= |x| && Starts(base, x + y) == Completed(base, x) + Starts(base + |x| - |p|, p + y)
    decreases |x|
  {
    hide *;
    ScanAccounts(x);
    if Skips(x) {
      StartsSkip(base, x, y);
      StartsAppend(base + 1, x[1..], y);
    } else if StartsFrame(x) {
      var n := StartsWithFrame(base, x, y);
      StartsAppend(base + n, x[n..], y);
      var p := Scan(x[n..]).carry.Pending();
      JoinThree([base], Completed(base + n, x[n..]), Starts(base + |x| - |p|, p + y));
    } else {
      StartsInPart(base, x, y);
    }
  }

  lemma StartsInPart(base: nat, x: seq<byte>, y: seq<byte>)
    requires !Skips(x) && !StartsFrame(x)
    ensures Scan(x).carry.Pending() == x && Starts(base, x + y) == Completed(base, x) + Starts(base, x + y)
  {
    PartIsPending(x);
  }

  lemma StartsSkip(base: nat, x: seq<byte>, y: seq<byte>)
    requires Skips(x)
    ensures x != [] && Scan(x).carry == Scan(x[1..]).carry
    ensures Starts(base, x + y) == Starts(base + 1, x[1..] + y) && Completed(base, x) == Completed(base + 1, x[1..])
  {
    assert (x + y)[1..] == x[1..] + y;
    SkipsMore(x, y);
  }

  lemma StartsWithFrame(base: nat, x: seq<byte>, y: seq<byte>) returns (n: nat)
    requires StartsFrame(x)
    ensures 0 < n <= |x| && Scan(x).carry == Scan(x[n..]).carry
    ensures Starts(base, x + y) == [base] + Starts(base + n, x[n..] + y)
    ensures Completed(base, x) == [base] + Completed(base + n, x[n..])
  {
    n := Need(x);
    assert (x + y)[Need(x)..] == x[Need(x)..] + y;
  }

  lemma BodyCompletedIs(base: nat, partial: seq<byte>, left: nat, buf: seq<byte>)
    requires left > 0 && Carry([], partial, left).Valid()
    ensures BodyCompleted(base, |partial|, left, buf) == Completed(base, partial + buf)
  {
    var all := partial + buf;
    assert Plausible(all) && Need(all) == |partial| + left;
    if left <= |buf| {
      assert all[Need(all)..] == buf[left..];
    }
  }

  lemma HeaderCompletedIs(base: nat, c: Carry, buf: seq<byte>)
    requires c.Valid() && c.hdr != [] && |c.hdr| + |buf| >= IP_COMPRESSED_HDR && !Drops(c, buf)
    ensures FedCompleted(base, c, buf) == Completed(base, c.hdr + buf)
  {
    var take := IP_COMPRESSED_HDR - |c.hdr|;
    var h, rest := c.hdr + buf[..take], buf[take..];
    assert c.hdr + buf == h + rest;
    hide Completed;
    BodyCompletedIs(base, h, Need(h) - IP_COMPRESSED_HDR, rest);
  }

  lemma FedCompletedIs(base: nat, c: Carry, buf: seq<byte>)
    requires c.Valid() && !Drops(c, buf)
    ensures FedCompleted(base, c, buf) == Completed(base, c.Pending() + buf)
  {
    if c.hdr != [] {
      assert c.Pending() == c.hdr;
      if |c.hdr| + |buf| >= IP_COMPRESSED_HDR {
        HeaderCompletedIs(base, c, buf);
      }
    } else if c.partial != [] {
      assert c.Pending() == c.partial;
      BodyCompletedIs(base, c.partial, c.left, buf);
    } else {
      assert c.Pending() + buf == buf;
    }
  }

  /** Where what is parked after a transfer begins. */
  function Next(base: nat, c: Carry, buf: seq<byte>): nat
    requires c.Valid()
  {
    EveryByteAccounted(c, buf);
    base + |c.Pending()| + |buf| - |Feed(c, buf).carry.Pending()|
  }

  lemma NoDropStarts(base: nat, c: Carry, buf: seq<byte>, later: seq<byte>)
    requires c.Valid() && !Drops(c, buf)
    ensures Starts(base, c.Pending() + (buf + later))
         == FedCompleted(base, c, buf) + Starts(Next(base, c, buf), Feed(c, buf).carry.Pending() + later)
  {
    hide *;
    NextIs(base, c, buf);
    NoDropIsClean(c, buf, []);
    FeedIsScan(c, buf);
    FedCompletedIs(base, c, buf);
    StartsAppend(base, c.Pending() + buf, later);
    JoinThree(c.Pending(), buf, later);
  }

  lemma NextIs(base: nat, c: Carry, buf: seq<byte>)
    requires c.Valid()
    ensures Next(base, c, buf) == base + |c.Pending()| + |buf| - |Feed(c, buf).carry.Pending()|
    ensures Drops(c, buf) ==> Next(base, c, buf) >= base + IP_COMPRESSED_HDR
  {
    EveryByteAccounted(c, buf);
  }

  lemma CompletedOfDrop(base: nat, c: Carry, buf: seq<byte>)
    requires c.Valid() && Drops(c, buf)
    ensures |c.hdr| < IP_COMPRESSED_HDR <= |c.hdr| + |buf| && |c.Pending()| == |c.hdr|
    ensures FedCompleted(base, c, buf)
         == Completed(base + IP_COMPRESSED_HDR, buf[IP_COMPRESSED_HDR - |c.hdr|..])
  {
  }

  lemma DropStarts(base: nat, c: Carry, buf: seq<byte>, later: seq<byte>)
    requires c.Valid() && Drops(c, buf)
    ensures Starts(base + IP_COMPRESSED_HDR, buf[IP_COMPRESSED_HDR - |c.hdr|..] + later)
         == FedCompleted(base, c, buf) + Starts(Next(base, c, buf), Feed(c, buf).carry.Pending() + later)
    ensures forall k :: k in FedCompleted(base, c, buf) ==> k >= base + IP_COMPRESSED_HDR
  {
    hide *;
    CompletedOfDrop(base, c, buf);
    var rest := buf[IP_COMPRESSED_HDR - |c.hdr|..];
    NextIs(base, c, buf);
    FeedOfDrop(c, buf);
    StartsAppend(base + IP_COMPRESSED_HDR, rest, later);
    BeforeParts(Scan(rest), [], IP_COMPRESSED_HDR);
  }

  /** A tail that is not clean holds a start that the drop passes over. */
  lemma {:induction false} HiddenStart(base: nat, h: seq<byte>, rest: seq<byte>, j: nat) returns (k: nat)
    requires |h| == IP_COMPRESSED_HDR && 1 <= j <= IP_COMPRESSED_HDR
    requires exists i :: j <= i < IP_COMPRESSED_HDR && h[i] == MARKER &&
               !(|(h + rest)[i..]| >= IP_COMPRESSED_HDR && !Plausible((h + rest)[i..]))
    ensures k in Starts(base + j, (h + rest)[j..]) && k < base + IP_COMPRESSED_HDR
    decreases IP_COMPRESSED_HDR - j
  {
    var b := (h + rest)[j..];
    if b[0] != MARKER || (|b| >= IP_COMPRESSED_HDR && !Plausible(b)) {
      k := HiddenStart(base, h, rest, j + 1);
      assert b[1..] == (h + rest)[j + 1..];
    } else {
      k := base + j;
    }
  }

  lemma DirtyDropHides(base: nat, c: Carry, buf: seq<byte>, later: seq<byte>) returns (k: nat)
    requires c.Valid() && !CleanDrop(c, buf, later)
    ensures k in Starts(base, c.Pending() + (buf + later)) && k < base + IP_COMPRESSED_HDR
  {
    var take := IP_COMPRESSED_HDR - |c.hdr|;
    var h, rest := c.hdr + buf[..take], buf[take..] + later;
    AroundDrop(c, buf, later);
    assert !CleanTail(h, rest);
    k := HiddenStart(base, h, rest, 1);
    assert Starts(base, h + rest) == Starts(base + 1, (h + rest)[1..]);
  }

  lemma CleanDropStarts(base: nat, c: Carry, buf: seq<byte>, later: seq<byte>)
    requires c.Valid() && Drops(c, buf) && CleanDrop(c, buf, later)
    ensures Starts(base, c.Pending() + (buf + later))
         == FedCompleted(base, c, buf) + Starts(Next(base, c, buf), Feed(c, buf).carry.Pending() + later)
  {
    var take := IP_COMPRESSED_HDR - |c.hdr|;
    var h, rest := c.hdr + buf[..take], buf[take..] + later;
    AroundDrop(c, buf, later);
    assert CleanTail(h, rest);
    hide *;
    SplitHeaderExact(base, h, rest);
    DropStarts(base, c, buf, later);
  }

  lemma FedStartsCons(base: nat, c: Carry, chunks: seq<seq<byte>>)
    requires c.Valid() && chunks != []
    ensures FedStarts(base, c, chunks) ==
            FedCompleted(base, c, chunks[0])
            + FedStarts(Next(base, c, chunks[0]), Feed(c, chunks[0]).carry, chunks[1..])
  {
  }

  lemma FedStartsNone(base: nat, c: Carry)
    requires c.Valid()
    ensures FedStarts(base, c, []) == Starts(base, c.Pending() + Concat([]))
  {
    assert c.Pending() + Concat([]) == c.Pending();
    if c.hdr != [] {
      assert c.Pending() == c.hdr;
    } else {
      assert c.Pending() == c.partial;
    }
  }

  /** A start the run passes over is not among those it accepts. */
  lemma DirtyDropDiffers(base: nat, c: Carry, chunks: seq<seq<byte>>)
    requires c.Valid() && chunks != [] && !CleanDrop(c, chunks[0], Concat(chunks[1..]))
    ensures FedStarts(base, c, chunks) != Starts(base, c.Pending() + Concat(chunks))
  {
    var later := Concat(chunks[1..]);
    assert Drops(c, chunks[0]);
    hide *;
    ConcatFirst(chunks);
    var k := DirtyDropHides(base, c, chunks[0], later);
    FedStartsCons(base, c, chunks);
    DropStarts(base, c, chunks[0], later);
    NextIs(base, c, chunks[0]);
    assert k !in FedStarts(base, c, chunks);
  }

  /**
   * The exact condition over runs of transfers: for arbitrary bytes and cuts, the frame starts accepted are those
   * of the uncut parse, at the same offsets, if and only if no dropped header's tail holds one.
   */
  lemma {:induction false} SameStartsIffClean(base: nat, c: Carry, chunks: seq<seq<byte>>)
    requires c.Valid()
    ensures FedStarts(base, c, chunks) == Starts(base, c.Pending() + Concat(chunks)) <==> Clean(c, chunks)
    decreases |chunks|
  {
    if chunks == [] {
      FedStartsNone(base, c);
      return;
    }
    hide *;
    CleanCons(c, chunks);
    var b, k, later := chunks[0], Feed(c, chunks[0]).carry, Concat(chunks[1..]);
    if !CleanDrop(c, b, later) {
      DirtyDropDiffers(base, c, chunks);
      return;
    }
    if Drops(c, b) {
      CleanDropStarts(base, c, b, later);
    } else {
      NoDropStarts(base, c, b, later);
    }
    ConcatFirst(chunks);
    FedStartsCons(base, c, chunks);
    SameStartsIffClean(Next(base, c, b), k, chunks[1..]);
    SameAfter(FedCompleted(base, c, b), FedStarts(Next(base, c, b), k, chunks[1..]),
              Starts(Next(base, c, b), k.Pending() + later));
  }

  const SHORTEST_FRAME: seq<byte> := [0x45, 17, 0, 0, 0, 21, 0, 0, 0, 0, 1, 2, 0]

  lemma StrayMarkerUncut()
    ensures Scan([MARKER] + SHORTEST_FRAME).frames == [SHORTEST_FRAME]
  {
    var f := SHORTEST_FRAME;
    var all: seq<byte> := [MARKER] + f;
    assert all[1..] == f && f[Need(f)..] == [] && f[..Need(f)] == f;
  }

  lemma StrayMarkerCut()
    ensures var c := Feed(NOTHING, [MARKER]).carry;
            Feed(NOTHING, [MARKER]).frames == [] && Feed(c, SHORTEST_FRAME).frames == []
  {
    var f := SHORTEST_FRAME;
    var c := Feed(NOTHING, [MARKER]).carry;
    assert c.hdr == [MARKER];
    assert f[11..] == [2, 0] && f[11..][1..] == [0] && [0][1..] == [];
    assert Scan(f[11..]).frames == [];
  }

  /** A bad cut loses a frame: a stray marker byte ahead of a frame, cut between the two. */
  lemma StrayMarkerCutLosesFrame()
    ensures Scan([MARKER] + SHORTEST_FRAME).frames == [SHORTEST_FRAME]
    ensures FeedAll(NOTHING, [[MARKER], SHORTEST_FRAME]).frames == []
  {
    StrayMarkerUncut();
    StrayMarkerCut();
    var chunks: seq<seq<byte>> := [[MARKER], SHORTEST_FRAME];
    assert chunks[1..] == [SHORTEST_FRAME] && chunks[1..][1..] == [];
    hide Scan, Feed, SHORTEST_FRAME;
    FeedAllCons(NOTHING, chunks);
    FeedAllCons(Feed(NOTHING, [MARKER]).carry, chunks[1..]);
  }

  // ---- the skipped-byte counter ----

  /** rx_frame_errors moves only when the parser reaches the end of a transfer with nothing parked. */
  predicate Ticks(c: Carry, buf: seq<byte>)
    requires c.Valid()
  {
    Feed(c, buf).junk > 0 && Feed(c, buf).carry == NOTHING
  }

  lemma {:induction false} ScanAccounts(buf: seq<byte>)
    ensures var s := Scan(buf); |buf| == |Concat(s.frames)| + |s.carry.Pending()| + s.junk
    decreases |buf|
  {
    if Skips(buf) {
      ScanAccounts(buf[1..]);
      assert [] + Scan(buf[1..]).frames == Scan(buf[1..]).frames;
    } else if StartsFrame(buf) {
      var n := Need(buf);
      ScanAccounts(buf[n..]);
      ConcatCons(buf[..n], Scan(buf[n..]).frames);
    } else {
      PartIsPending(buf);
    }
  }

  lemma ConcatCons(f: seq<byte>, r: seq<seq<byte>>)
    ensures Concat([f] + r) == f + Concat(r)
  {
    assert ([f] + r)[1..] == r;
  }

  lemma BodyAccounts(partial: seq<byte>, left: nat, buf: seq<byte>)
    requires left > 0 && Carry([], partial, left).Valid()
    ensures var s := FeedBody(partial, left, buf);
            |partial| + |buf| == |Concat(s.frames)| + |s.carry.Pending()| + s.junk
  {
    if left <= |buf| {
      ScanAccounts(buf[left..]);
      ConcatCons(partial + buf[..left], Scan(buf[left..]).frames);
    }
  }

  /** For arbitrary bytes, every byte of a transfer is delivered, parked or counted as skipped. */
  lemma {:induction false} EveryByteAccounted(c: Carry, buf: seq<byte>)
    requires c.Valid()
    ensures var s := Feed(c, buf);
            |c.Pending()| + |buf| == |Concat(s.frames)| + |s.carry.Pending()| + s.junk
  {
    if c.hdr != [] {
      if |c.hdr| + |buf| >= IP_COMPRESSED_HDR {
        var take := IP_COMPRESSED_HDR - |c.hdr|;
        var h := c.hdr + buf[..take];
        if Plausible(h) {
          BodyAccounts(h, Need(h) - IP_COMPRESSED_HDR, buf[take..]);
        } else {
          ScanAccounts(buf[take..]);
          assert [] + Scan(buf[take..]).frames == Scan(buf[take..]).frames;
        }
      }
    } else if c.partial != [] {
      BodyAccounts(c.partial, c.left, buf);
    } else {
      ScanAccounts(buf);
    }
  }

  /** A transfer that loses a byte and parks the next without the counter moving. */
  lemma SilentDesync()
    ensures !Ticks(NOTHING, [0, MARKER]) && Feed(NOTHING, [0, MARKER]).junk == 1
  {
    var b: seq<byte> := [0, MARKER];
    assert b[1..] == [MARKER];
    assert Scan(b[1..]).carry.hdr == [MARKER];
  }

  predicate Whole(f: seq<byte>) {
    |f| >= IP_COMPRESSED_HDR && Plausible(f) && Need(f) == |f|
  }

  lemma {:induction false} ScannedFramesAreWhole(buf: seq<byte>)
    ensures forall f :: f in Scan(buf).frames ==> Whole(f)
    decreases |buf|
  {
    if Skips(buf) {
      ScannedFramesAreWhole(buf[1..]);
    } else if StartsFrame(buf) {
      ScannedFramesAreWhole(buf[Need(buf)..]);
    }
  }

  lemma {:induction false} ContinuedFramesAreWhole(partial: seq<byte>, left: nat, buf: seq<byte>)
    requires left > 0 && Carry([], partial, left).Valid()
    ensures forall f :: f in FeedBody(partial, left, buf).frames ==> Whole(f)
  {
    if left <= |buf| {
      ScannedFramesAreWhole(buf[left..]);
      assert Whole(partial + buf[..left]);
    }
  }

  /** For arbitrary bytes over any parked state, whatever is delivered is one plausible frame of its declared size. */
  lemma {:induction false} DeliveredFramesAreWhole(c: Carry, buf: seq<byte>)
    requires c.Valid()
    ensures forall f :: f in Feed(c, buf).frames ==>
              && |f| > 12 && f[0] == 0x45 && f[1] in {1, 2, 6, 17}
              && 20 < 256 * f[4] + f[5] <= 4352 && |f| == 256 * f[4] + f[5] - 8
  {
    if c.hdr != [] {
      if |c.hdr| + |buf| >= IP_COMPRESSED_HDR {
        var take := IP_COMPRESSED_HDR - |c.hdr|;
        var h := c.hdr + buf[..take];
        if Plausible(h) {
          ContinuedFramesAreWhole(h, Need(h) - IP_COMPRESSED_HDR, buf[take..]);
        } else {
          ScannedFramesAreWhole(buf[take..]);
        }
      }
    } else if c.partial != [] {
      ContinuedFramesAreWhole(c.partial, c.left, buf);
    } else {
      ScannedFramesAreWhole(buf);
    }
  }

  // ---- streams of well-formed frames ----

  /** Bytes that hold no marker, then one whole frame. */
  datatype Item = Item(gap: seq<byte>, frame: seq<byte>) {
    predicate Valid() {
      MARKER !in gap && |frame| >= IP_COMPRESSED_HDR && Plausible(frame) && |frame| == Need(frame)
    }
  }

  function Stream(items: seq<Item>): seq<byte> {
    if items == [] then [] else items[0].gap + items[0].frame + Stream(items[1..])
  }

  /** The frames that lie wholly within the first n bytes of the stream. */
  function FramesWithin(items: seq<Item>, n: nat): seq<seq<byte>> {
    if items == [] || n < |items[0].gap| + |items[0].frame| then []
    else [items[0].frame] + FramesWithin(items[1..], n - |items[0].gap| - |items[0].frame|)
  }

  /** The frame bytes, as opposed to gap bytes, among the first n bytes of the stream. */
  function FrameBytes(items: seq<Item>, n: nat): seq<byte> {
    if items == [] || n <= |items[0].gap| then []
    else if n < |items[0].gap| + |items[0].frame| then items[0].frame[..n - |items[0].gap|]
    else items[0].frame + FrameBytes(items[1..], n - |items[0].gap| - |items[0].frame|)
  }

  predicate AllValid(items: seq<Item>) {
    forall i :: 0 <= i < |items| ==> items[i].Valid()
  }

  lemma {:induction false} SkipGap(gap: seq<byte>, rest: seq<byte>)
    requires MARKER !in gap
    ensures Scan(gap + rest) == Scan(rest).Before([], |gap|)
  {
    if gap == [] {
      assert gap + rest == rest;
    } else {
      SkipGap(gap[1..], rest);
      assert (gap + rest)[1..] == gap[1..] + rest;
    }
  }

  /** Where the first n bytes of a stream end, seen from its first item. */
  lemma {:induction false} StreamCut(items: seq<Item>, n: nat)
    requires items != [] && n <= |Stream(items)|
    ensures var g, f, w := items[0].gap, items[0].frame, Stream(items);
            && (n <= |g| ==> w[..n] == g[..n] + [])
            && (|g| < n < |g| + |f| ==> w[..n] == g + f[..n - |g|])
            && (n >= |g| + |f| ==> w[..n] == g + (f + Stream(items[1..])[..n - |g| - |f|]))
  {
    TakeOfThree(items[0].gap, items[0].frame, Stream(items[1..]), n);
  }

  lemma TakeOfThree(g: seq<byte>, f: seq<byte>, tail: seq<byte>, n: nat)
    requires n <= |g| + |f| + |tail|
    ensures n <= |g| ==> (g + f + tail)[..n] == g[..n] + []
    ensures |g| < n < |g| + |f| ==> (g + f + tail)[..n] == g + f[..n - |g|]
    ensures n >= |g| + |f| ==> (g + f + tail)[..n] == g + (f + tail[..n - |g| - |f|])
  {
  }

  /** A proper part of a frame is parked as it is. */
  lemma {:induction false} ScanOfPart(f: seq<byte>, k: nat)
    requires |f| >= IP_COMPRESSED_HDR && Plausible(f) && |f| == Need(f) && 0 < k < |f|
    ensures Scan(f[..k]).frames == [] && Scan(f[..k]).carry.Pending() == f[..k]
    ensures Scan(f[..k]).carry.hdr == if k < IP_COMPRESSED_HDR then f[..k] else []
  {
    if k >= IP_COMPRESSED_HDR {
      assert Plausible(f[..k]) && Need(f[..k]) == |f|;
    }
  }

  /** The parse delivered these frames, and delivered and parked bytes together are these. */
  predicate Accounts(s: Step, frames: seq<seq<byte>>, bytes: seq<byte>) {
    s.frames == frames && Concat(frames) + s.carry.Pending() == bytes
  }

  /** The three places a cut can fall, relative to one gap and frame. */
  lemma {:induction false} ScanInGap(g: seq<byte>, n: nat)
    requires MARKER !in g && n <= |g|
    ensures Accounts(Scan(g[..n] + []), [], []) && Scan(g[..n] + []).carry.hdr == []
  {
    SkipGap(g[..n], []);
  }

  lemma {:induction false} ScanInFrame(i: Item, k: nat)
    requires i.Valid() && 0 < k < |i.frame|
    ensures var s := Scan(i.gap + i.frame[..k]);
            Accounts(s, [], i.frame[..k]) && s.carry.hdr == if k < IP_COMPRESSED_HDR then i.frame[..k] else []
  {
    SkipGap(i.gap, i.frame[..k]);
    ScanOfPart(i.frame, k);
  }

  lemma {:induction false} ScanPastFrame(i: Item, rest: seq<byte>)
    requires i.Valid()
    ensures var s, t := Scan(i.gap + (i.frame + rest)), Scan(rest);
            s.frames == [i.frame] + t.frames && s.carry == t.carry
  {
    SkipGap(i.gap, i.frame + rest);
    ScanFrame(i.frame, rest);
  }

  lemma {:induction false} AccountsPastFrame(i: Item, rest: seq<byte>, frames: seq<seq<byte>>, bytes: seq<byte>)
    requires i.Valid() && Accounts(Scan(rest), frames, bytes)
    ensures Accounts(Scan(i.gap + (i.frame + rest)), [i.frame] + frames, i.frame + bytes)
  {
    ScanPastFrame(i, rest);
    hide Scan, Concat, Carry.Pending, Item.Valid;
    ConcatSplit([i.frame], frames);
    ConcatOne(i.frame);
    JoinThree(i.frame, Concat(frames), Scan(rest).carry.Pending());
  }

  lemma StreamCons(items: seq<Item>)
    requires items != [] && AllValid(items)
    ensures items[0].Valid() && |items[0].frame| > 0 && AllValid(items[1..])
    ensures Stream(items) == items[0].gap + items[0].frame + Stream(items[1..])
  {
  }

  lemma NothingAccounts(n: nat)
    ensures |Stream([])| == 0 && (n == 0 ==> Stream([])[..n] == [])
    ensures Accounts(Scan([]), FramesWithin([], n), FrameBytes([], n))
  {
  }

  /** The parse of the first n bytes: exactly the frames within them, and every frame byte accounted for. */
  lemma {:induction false} ScanOfStream(items: seq<Item>, n: nat)
    requires AllValid(items) && n <= |Stream(items)|
    ensures Accounts(Scan(Stream(items)[..n]), FramesWithin(items, n), FrameBytes(items, n))
    decreases |items|
  {
    hide *;
    if items == [] {
      NothingAccounts(n);
      return;
    }
    var i := items[0];
    StreamCons(items);
    StreamCut(items, n);
    WithinCons(items, n);
    if n <= |i.gap| {
      ScanInGap(i.gap, n);
    } else if n < |i.gap| + |i.frame| {
      ScanInFrame(i, n - |i.gap|);
    } else {
      var m := n - |i.gap| - |i.frame|;
      ScanOfStream(items[1..], m);
      AccountsPastFrame(i, Stream(items[1..])[..m], FramesWithin(items[1..], m), FrameBytes(items[1..], m));
    }
  }

  lemma WithinCons(items: seq<Item>, n: nat)
    requires items != [] && |items[0].frame| > 0
    ensures var g, f := items[0].gap, items[0].frame;
            && (n < |g| + |f| ==> FramesWithin(items, n) == [])
            && (n <= |g| ==> FrameBytes(items, n) == [])
            && (|g| < n < |g| + |f| ==> FrameBytes(items, n) == f[..n - |g|])
            && (n >= |g| + |f| ==>
                  && FramesWithin(items, n) == [f] + FramesWithin(items[1..], n - |g| - |f|)
                  && FrameBytes(items, n) == f + FrameBytes(items[1..], n - |g| - |f|))
  {
  }

  /** The parked header k bytes long is the beginning of a frame of the stream. */
  predicate HeaderAt(w: seq<byte>, n: nat, hdr: seq<byte>) {
    hdr != [] ==>
      && |hdr| <= n <= |w| && n - |hdr| + IP_COMPRESSED_HDR <= |w|
      && hdr == w[n - |hdr|..n]
      && Plausible(w[n - |hdr|..n - |hdr| + IP_COMPRESSED_HDR])
  }

  lemma HeaderAtShift(pre: seq<byte>, w: seq<byte>, n: nat, hdr: seq<byte>)
    requires HeaderAt(w, n, hdr)
    ensures HeaderAt(pre + w, |pre| + n, hdr)
  {
    if hdr != [] {
      var a := n - |hdr|;
      assert (pre + w)[|pre| + a..|pre| + n] == w[a..n];
      assert (pre + w)[|pre| + a..|pre| + a + IP_COMPRESSED_HDR] == w[a..a + IP_COMPRESSED_HDR];
    }
  }

  /** The cut falls before the first frame's end. */
  lemma {:induction false} HeaderInFirst(i: Item, tail: seq<byte>, n: nat)
    requires i.Valid() && n < |i.gap| + |i.frame|
    ensures var w := i.gap + i.frame + tail; n <= |w| && HeaderAt(w, n, Scan(w[..n]).carry.hdr)
  {
    TakeOfThree(i.gap, i.frame, tail, n);
    hide Scan, HeaderAt, Item.Valid;
    if n <= |i.gap| {
      ScanInGap(i.gap, n);
      HeaderAtNone(i.gap + i.frame + tail, n);
    } else {
      ScanInFrame(i, n - |i.gap|);
      HeaderOfPart(i, tail, n - |i.gap|);
    }
  }

  /** The cut falls m bytes after the first frame. */
  lemma {:induction false} HeaderPastFirst(i: Item, tail: seq<byte>, m: nat)
    requires i.Valid() && m <= |tail| && HeaderAt(tail, m, Scan(tail[..m]).carry.hdr)
    ensures var w, n := i.gap + i.frame + tail, |i.gap| + |i.frame| + m;
            n <= |w| && HeaderAt(w, n, Scan(w[..n]).carry.hdr)
  {
    hide *;
    TakeOfThree(i.gap, i.frame, tail, |i.gap| + |i.frame| + m);
    ScanPastFrame(i, tail[..m]);
    HeaderAtShift(i.gap + i.frame, tail, m, Scan(tail[..m]).carry.hdr);
  }

  /** A header parked while reading such a stream is always the beginning of one of its frames. */
  lemma {:induction false} ParkedHeaderIsFrameStart(items: seq<Item>, n: nat)
    requires AllValid(items) && n <= |Stream(items)|
    ensures HeaderAt(Stream(items), n, Scan(Stream(items)[..n]).carry.hdr)
    decreases |items|
  {
    hide *;
    if items == [] {
      NothingParked(n);
      return;
    }
    var i, tail := items[0], Stream(items[1..]);
    StreamCons(items);
    if n < |i.gap| + |i.frame| {
      HeaderInFirst(i, tail, n);
    } else {
      var m := n - |i.gap| - |i.frame|;
      ParkedHeaderIsFrameStart(items[1..], m);
      HeaderPastFirst(i, tail, m);
    }
  }

  lemma NothingParked(n: nat)
    ensures |Stream([])| == 0 && (n == 0 ==> Stream([])[..n] == [] && HeaderAt(Stream([]), n, Scan([]).carry.hdr))
  {
  }

  lemma HeaderAtNone(w: seq<byte>, n: nat)
    ensures HeaderAt(w, n, [])
  {
  }

  lemma HeaderOfPart(i: Item, tail: seq<byte>, k: nat)
    requires i.Valid() && 0 < k < |i.frame|
    ensures HeaderAt(i.gap + i.frame + tail, |i.gap| + k, if k < IP_COMPRESSED_HDR then i.frame[..k] else [])
  {
    var w, s, f := i.gap + i.frame + tail, |i.gap|, i.frame;
    assert w[s..s + IP_COMPRESSED_HDR] == f[..IP_COMPRESSED_HDR];
    if k < IP_COMPRESSED_HDR {
      assert w[s..s + k] == f[..k];
    }
  }

  lemma NoDropAtHeader(w: seq<byte>, n: nat, c: Carry, b: seq<byte>)
    requires c.Valid() && HeaderAt(w, n, c.hdr) && n + |b| <= |w| && b == w[n..n + |b|]
    ensures !Drops(c, b)
  {
    if c.hdr != [] && |c.hdr| + |b| >= IP_COMPRESSED_HDR {
      SliceAround(w, n, |c.hdr|, b, IP_COMPRESSED_HDR - |c.hdr|);
    }
  }

  lemma SliceAround(w: seq<byte>, n: nat, k: nat, b: seq<byte>, t: nat)
    requires k <= n && n + |b| <= |w| && b == w[n..n + |b|] && t <= |b|
    ensures w[n - k..n] + b[..t] == w[n - k..n + t]
  {
    assert b[..t] == w[n..n + t];
  }

  /** So no transfer of such a stream drops a header. */
  lemma {:induction false} StreamCutsAreClean(items: seq<Item>, n: nat, chunks: seq<seq<byte>>)
    requires AllValid(items) && n + |Concat(chunks)| <= |Stream(items)|
    requires Concat(chunks) == Stream(items)[n..n + |Concat(chunks)|]
    ensures Clean(Scan(Stream(items)[..n]).carry, chunks)
    decreases |chunks|
  {
    hide *;
    if chunks == [] {
      NothingIsClean(Scan(Stream(items)[..n]).carry);
      return;
    }
    var w, b, rest := Stream(items), chunks[0], Concat(chunks[1..]);
    ConcatFirst(chunks);
    SliceSplit(w, n, b, rest);
    CleanCons(Scan(w[..n]).carry, chunks);
    FirstTransferDropsNothing(items, n, b);
    NoDropIsClean(Scan(w[..n]).carry, b, rest);
    StreamCutsAreClean(items, n + |b|, chunks[1..]);
  }

  lemma {:induction false} FirstTransferDropsNothing(items: seq<Item>, n: nat, b: seq<byte>)
    requires AllValid(items) && n + |b| <= |Stream(items)| && b == Stream(items)[n..n + |b|]
    ensures var before, after := Scan(Stream(items)[..n]), Scan(Stream(items)[..n + |b|]);
            var s := Feed(before.carry, b);
            !Drops(before.carry, b) && after.carry == s.carry && after.junk == before.junk + s.junk
  {
    hide *;
    var w := Stream(items);
    var c := Scan(w[..n]).carry;
    TakeMore(w, n, b);
    ParkedHeaderIsFrameStart(items, n);
    NoDropAtHeader(w, n, c, b);
    NoDropIsClean(c, b, []);
    FeedIsScan(c, b);
    ScanAppend(w[..n], b);
    BeforeParts(Scan(c.Pending() + b), Scan(w[..n]).frames, Scan(w[..n]).junk);
  }

  lemma TakeMore(w: seq<byte>, n: nat, b: seq<byte>)
    requires n + |b| <= |w| && b == w[n..n + |b|]
    ensures w[..n] + b == w[..n + |b|]
  {
  }

  lemma NoDropIsClean(c: Carry, buf: seq<byte>, later: seq<byte>)
    requires c.Valid() && !Drops(c, buf)
    ensures CleanDrop(c, buf, later)
  {
  }

  lemma SliceSplit(w: seq<byte>, n: nat, b: seq<byte>, rest: seq<byte>)
    requires n + |b + rest| <= |w| && b + rest == w[n..n + |b + rest|]
    ensures b == w[n..n + |b|] && rest == w[n + |b|..n + |b| + |rest|]
  {
    assert (b + rest)[..|b|] == b && (b + rest)[|b|..] == rest;
  }

  /**
   * Chunking invariance for streams of plausible frames with marker-free gaps: whatever the transfers (empty
   * ones and cuts inside headers included), exactly the frames received so far have been delivered, and
   * delivered, parked and carried bytes together are all the frame bytes received.
   */
  lemma {:induction false} StreamDelivered(items: seq<Item>, chunks: seq<seq<byte>>)
    requires AllValid(items) && Concat(chunks) <= Stream(items)
    ensures var s, n := FeedAll(NOTHING, chunks), |Concat(chunks)|;
            && s.frames == FramesWithin(items, n)
            && Concat(s.frames) + s.carry.Pending() == FrameBytes(items, n)
            && (s.carry.hdr == [] || s.carry.partial == [])
  {
    var n := |Concat(chunks)|;
    assert Stream(items)[..0] == [];
    assert Concat(chunks) == Stream(items)[0..n] == Stream(items)[..n];
    StreamCutsAreClean(items, 0, chunks);
    ChunkingInvariance(NOTHING, chunks);
    assert NOTHING.Pending() + Concat(chunks) == Stream(items)[..n];
    ScanOfStream(items, n);
  }

  // ---- when the counter moves, told from the stream ----

  /** Byte k of the stream lies in a gap. */
  predicate GapAt(items: seq<Item>, k: nat) {
    items != [] &&
    (k < |items[0].gap| ||
     (k >= |items[0].gap| + |items[0].frame| && GapAt(items[1..], k - |items[0].gap| - |items[0].frame|)))
  }

  /** Some byte from n up to m lies in a gap. */
  predicate HoldsGap(items: seq<Item>, n: nat, m: nat) {
    exists k :: n <= k < m && GapAt(items, k)
  }

  /** A frame has begun before offset m and ends after it. */
  predicate InsideFrame(items: seq<Item>, m: nat) {
    items != [] &&
    (|items[0].gap| < m < |items[0].gap| + |items[0].frame| ||
     (m >= |items[0].gap| + |items[0].frame| && InsideFrame(items[1..], m - |items[0].gap| - |items[0].frame|)))
  }

  /** One more byte is one more frame byte, unless it is a gap byte. */
  lemma {:induction false} FrameBytesGrow(items: seq<Item>, k: nat)
    requires k < |Stream(items)|
    ensures |FrameBytes(items, k + 1)| == |FrameBytes(items, k)| + if GapAt(items, k) then 0 else 1
    decreases |items|
  {
    var g, f := items[0].gap, items[0].frame;
    if k >= |g| + |f| {
      FrameBytesGrow(items[1..], k - |g| - |f|);
    }
  }

  lemma {:induction false} GapBytesBetween(items: seq<Item>, n: nat, m: nat)
    requires n <= m <= |Stream(items)|
    ensures |FrameBytes(items, m)| - |FrameBytes(items, n)| <= m - n
    ensures |FrameBytes(items, m)| - |FrameBytes(items, n)| < m - n <==> HoldsGap(items, n, m)
    decreases m
  {
    if n < m {
      GapBytesBetween(items, n, m - 1);
      FrameBytesGrow(items, m - 1);
      assert HoldsGap(items, n, m) <==> HoldsGap(items, n, m - 1) || GapAt(items, m - 1);
    }
  }

  /** Every frame byte so far belongs to a whole frame, except inside a frame. */
  lemma {:induction false} WholeUnlessInside(items: seq<Item>, n: nat)
    requires AllValid(items) && n <= |Stream(items)|
    ensures |FrameBytes(items, n)| >= |Concat(FramesWithin(items, n))|
    ensures |FrameBytes(items, n)| > |Concat(FramesWithin(items, n))| <==> InsideFrame(items, n)
    decreases |items|
  {
    if items != [] {
      var g, f := items[0].gap, items[0].frame;
      assert items[0].Valid() && AllValid(items[1..]);
      WithinCons(items, n);
      hide FramesWithin, FrameBytes, Item.Valid;
      if n >= |g| + |f| {
        var m := n - |g| - |f|;
        WholeUnlessInside(items[1..], m);
        ConcatCons(f, FramesWithin(items[1..], m));
      }
    }
  }

  /** Parsing the first n bytes skips the gap bytes and parks something exactly inside a frame. */
  lemma {:induction false} ScanSkipsGaps(items: seq<Item>, n: nat)
    requires AllValid(items) && n <= |Stream(items)|
    ensures var s := Scan(Stream(items)[..n]);
            s.junk == n - |FrameBytes(items, n)| && (s.carry == NOTHING <==> !InsideFrame(items, n))
  {
    var s := Scan(Stream(items)[..n]);
    ScanOfStream(items, n);
    ScanAccounts(Stream(items)[..n]);
    WholeUnlessInside(items, n);
    ParkedBytes(s.carry);
    hide Scan, Stream, FrameBytes, FramesWithin, Concat, InsideFrame, Carry.Pending, Carry.Valid;
    assert |Concat(s.frames) + s.carry.Pending()| == |Concat(s.frames)| + |s.carry.Pending()|;
  }

  lemma ParkedBytes(c: Carry)
    requires c.Valid()
    ensures |c.Pending()| == 0 <==> c == NOTHING
  {
    assert |c.Pending()| == |c.hdr| + |c.partial|;
  }

  lemma {:induction false} TransferSkipsGaps(items: seq<Item>, n: nat, b: seq<byte>)
    requires AllValid(items) && n + |b| <= |Stream(items)| && b == Stream(items)[n..n + |b|]
    ensures var s := Feed(Scan(Stream(items)[..n]).carry, b);
            && s.junk == |b| - (|FrameBytes(items, n + |b|)| - |FrameBytes(items, n)|)
            && (s.carry == NOTHING <==> !InsideFrame(items, n + |b|))
  {
    hide *;
    ScanSkipsGaps(items, n);
    ScanSkipsGaps(items, n + |b|);
    FirstTransferDropsNothing(items, n, b);
  }

  lemma BeforeParts(s: Step, f: seq<seq<byte>>, j: nat)
    ensures s.Before(f, j) == Step(s.carry, f + s.frames, j + s.junk)
  {
  }

  /**
   * The exact condition under which a transfer of such a stream moves the counter, whatever transfers came before:
   * it holds a gap byte and does not end inside a frame.
   */
  lemma {:induction false} CounterMovesIff(items: seq<Item>, chunks: seq<seq<byte>>, b: seq<byte>)
    requires AllValid(items) && Concat(chunks) + b <= Stream(items)
    ensures var n := |Concat(chunks)|;
            Ticks(FeedAll(NOTHING, chunks).carry, b) <==>
            HoldsGap(items, n, n + |b|) && !InsideFrame(items, n + |b|)
  {
    var w, n := Stream(items), |Concat(chunks)|;
    ParsedSoFar(items, chunks, b);
    TransferSkipsGaps(items, n, b);
    GapBytesBetween(items, n, n + |b|);
    hide Feed, FeedAll, Scan, Concat, Stream, HoldsGap, InsideFrame, FrameBytes;
  }

  lemma {:induction false} ParsedSoFar(items: seq<Item>, chunks: seq<seq<byte>>, b: seq<byte>)
    requires AllValid(items) && Concat(chunks) + b <= Stream(items)
    ensures var w, n := Stream(items), |Concat(chunks)|;
            n + |b| <= |w| && b == w[n..n + |b|] && FeedAll(NOTHING, chunks) == Scan(w[..n])
  {
    var w, n := Stream(items), |Concat(chunks)|;
    assert w[..0] == [] && Concat(chunks) == w[0..n] == w[..n];
    assert NOTHING.Pending() + Concat(chunks) == w[..n];
    assert (Concat(chunks) + b)[n..] == b;
    hide Scan, Concat, Stream, FeedAll;
    StreamCutsAreClean(items, 0, chunks);
    ParsesNothing();
    ChunkingInvariance(NOTHING, chunks);
  }

  lemma ParsesNothing()
    ensures Scan([]).carry == NOTHING
  {
  }
}
