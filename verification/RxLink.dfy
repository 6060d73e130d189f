/** The receive bottom half, artosyn_sdio_recv: run recovery, then dispatch by traffic class. */
module RxLink {
  import opened Bytes
  import opened IpHeader
  import opened RxStream
  import opened BlockRuns

  const CMD_RXQ_MAX_IDLE := 64
  const CMD_RXQ_MAX_READER := 1024

  function RestoreOne(pfx: seq<byte>, frame: seq<byte>): seq<byte>
    requires |pfx| == 3
  {
    if |frame| >= IP_COMPRESSED_HDR then Restore(pfx, frame) else frame
  }

  /** The packets handed up for a run of completed frames. */
  function Restored(pfx: seq<byte>, frames: seq<seq<byte>>): (r: seq<seq<byte>>)
    requires |pfx| == 3
    ensures |r| == |frames|
  {
    seq(|frames|, i requires 0 <= i < |frames| => RestoreOne(pfx, frames[i]))
  }

  lemma RestoredSplit(pfx: seq<byte>, a: seq<seq<byte>>, b: seq<seq<byte>>)
    requires |pfx| == 3
    ensures Restored(pfx, a + b) == Restored(pfx, a) + Restored(pfx, b)
  {
    hide RestoreOne;
  }

  /** The chip reports how much is still pending; the window converges to it and never grows. */
  function AckWindow(unacked: nat, acked: nat): (r: nat)
    ensures r <= unacked && r <= acked && r in {unacked, acked}
  {
    if unacked > acked then acked else unacked
  }

  /** The big-endian count in the four bytes before the trailer. */
  function AckWord(image: seq<byte>): (w: nat)
    requires |image| >= 8
  {
    var n := |image|;
    Word(image[n - 8], image[n - 7]) * 0x10000 + Word(image[n - 6], image[n - 5])
  }

  /** Admitting one message to the command queue: the oldest go until there is room below the cap. */
  function Admit(q: seq<seq<byte>>, cap: nat, msg: seq<byte>): (r: seq<seq<byte>>)
    requires cap > 0
    ensures |r| == if |q| < cap then |q| + 1 else cap
  {
    (if |q| >= cap then q[|q| - (cap - 1)..] else q) + [msg]
  }

  /** The messages kept are the newest ones, in the order they arrived. */
  lemma NewestAreKept(q: seq<seq<byte>>, cap: nat, msg: seq<byte>)
    requires cap > 0
    ensures var r := Admit(q, cap, msg); r == (q + [msg])[|q| + 1 - |r|..]
  {
    if |q| >= cap {
      DropThenAppend(q, |q| - (cap - 1), msg);
    }
  }

  lemma DropThenAppend(q: seq<seq<byte>>, k: nat, msg: seq<byte>)
    requires k <= |q|
    ensures (q + [msg])[k..] == q[k..] + [msg]
  {
  }

  /** What a read can change. */
  datatype RxState = RxState(carry: Carry, delivered: seq<seq<byte>>, errors: nat, cmdRxq: seq<seq<byte>>, unacked: nat)

  /** What a read depends on but does not change: is the interface up, the link prefix, are there readers. */
  datatype RxEnv = RxEnv(isUp: bool, prefix: seq<byte>, readers: nat) {
    predicate Valid() {
      |prefix| == 3
    }

    function Cap(): nat {
      if readers > 0 then CMD_RXQ_MAX_READER else CMD_RXQ_MAX_IDLE
    }
  }

  function DispatchOne(e: RxEnv, st: RxState, p: Piece): (r: RxState)
    requires e.Valid() && st.carry.Valid()
    ensures r.carry.Valid()
  {
    if p.kind == TYPE_IP then
      if e.isUp then
        var s := Feed(st.carry, p.payload);
        st.(carry := s.carry, delivered := st.delivered + Restored(e.prefix, s.frames),
            errors := st.errors + if Ticks(st.carry, p.payload) then 1 else 0)
      else st
    else if p.kind == TYPE_CMD then st.(cmdRxq := Admit(st.cmdRxq, e.Cap(), p.payload))
    else if p.kind == TYPE_ACK && |p.image| >= 8 then st.(unacked := AckWindow(st.unacked, AckWord(p.image)))
    else st
  }

  function Dispatch(e: RxEnv, st: RxState, pieces: seq<Piece>): (r: RxState)
    requires e.Valid() && st.carry.Valid()
    ensures r.carry.Valid()
    decreases |pieces|
  {
    if pieces == [] then st
    else DispatchOne(e, Dispatch(e, st, pieces[..|pieces| - 1]), pieces[|pieces| - 1])
  }

  function PiecesOf(buf: seq<byte>, runs: seq<Run>): (r: seq<Piece>)
    requires forall x :: x in runs ==> x.start + x.size <= |buf| && x.payload <= x.size
    ensures |r| == |runs| && forall i :: 0 <= i < |runs| ==> r[i] == PieceOf(buf, runs[i])
  {
    if runs == [] then []
    else PiecesOf(buf, runs[..|runs| - 1]) + [PieceOf(buf, runs[|runs| - 1])]
  }

  function PiecesOfBuffer(buf: seq<byte>): seq<Piece>
    requires |buf| >= LINK_TRAILER_LEN
  {
    RunsTileTheRead(buf);
    PiecesOf(buf, RunsOf(buf))
  }

  function Receive(e: RxEnv, st: RxState, buf: seq<byte>): (r: RxState)
    requires e.Valid() && st.carry.Valid()
    ensures r.carry.Valid()
  {
    if |buf| < LINK_TRAILER_LEN then st else Dispatch(e, st, PiecesOfBuffer(buf))
  }

  /** The receiving half of the link's per-interface state. */
  class Receiver {
    var isUp: bool
    var prefix: seq<byte>
    var readers: nat

    var hdrCarry: array<byte>
    var hdrCarryLen: nat
    var partial: seq<byte>
    var partialLeft: nat

    var delivered: seq<seq<byte>>
    var frameErrors: nat
    var cmdRxq: seq<seq<byte>>
    var unackedBytes: nat

    ghost function CarryNow(): Carry
      reads this, hdrCarry
      requires hdrCarryLen <= hdrCarry.Length
    {
      Carry(hdrCarry[..hdrCarryLen], partial, partialLeft)
    }

    ghost predicate Valid()
      reads this, hdrCarry
    {
      && hdrCarry.Length == IP_COMPRESSED_HDR && hdrCarryLen < IP_COMPRESSED_HDR && |prefix| == 3
      && CarryNow().Valid()
    }

    ghost function Env(): RxEnv
      reads this
    {
      RxEnv(isUp, prefix, readers)
    }

    ghost function State(): RxState
      reads this, hdrCarry
      requires Valid()
    {
      RxState(CarryNow(), delivered, frameErrors, cmdRxq, unackedBytes)
    }

    constructor (prefix: seq<byte>)
      requires |prefix| == 3
      ensures Valid() && fresh(hdrCarry)
      ensures Env() == RxEnv(false, prefix, 0) && State() == RxState(NOTHING, [], 0, [], 0)
    {
      this.prefix := prefix;
      isUp, readers := false, 0;
      hdrCarry := new byte[IP_COMPRESSED_HDR](_ => 0);
      hdrCarryLen, partial, partialLeft := 0, [], 0;
      delivered, frameErrors, cmdRxq, unackedBytes := [], 0, [], 0;
    }

    /** artosyn_rx_finish_ip: the packet is rebuilt in its own buffer and handed up. */
    method FinishIp(frame: seq<byte>)
      requires |prefix| == 3 && |frame| >= IP_COMPRESSED_HDR
      modifies this`delivered
      ensures delivered == old(delivered) + Restored(prefix, [frame])
    {
      var d := new byte[|frame| + IP_HEAD_SHRINK](i requires 0 <= i < |frame| + IP_HEAD_SHRINK =>
        if i < IP_HEAD_SHRINK then 0 else frame[i - IP_HEAD_SHRINK]);
      assert d[IP_HEAD_SHRINK..] == frame;
      RestoreIpHead(prefix, d);
      delivered := delivered + [d[..]];
    }

    /** memcpy into the header buffer. */
    method ParkHeader(src: seq<byte>)
      requires hdrCarryLen + |src| <= hdrCarry.Length
      modifies this`hdrCarryLen, hdrCarry
      ensures hdrCarryLen == old(hdrCarryLen) + |src|
      ensures hdrCarry[..hdrCarryLen] == old(hdrCarry[..hdrCarryLen]) + src
    {
      var at := hdrCarryLen;
      forall k | at <= k < at + |src| {
        hdrCarry[k] := src[k - at];
      }
      hdrCarryLen := at + |src|;
    }

    /** A completed header h leaves the buffer: it opens a frame, or all 12 bytes are dropped. */
    method AcceptHeader(h: seq<byte>) returns (junk: nat)
      requires |h| == IP_COMPRESSED_HDR && partial == [] && partialLeft == 0 && hdrCarry.Length == IP_COMPRESSED_HDR
      modifies this`hdrCarryLen, this`partial, this`partialLeft
      ensures hdrCarryLen == 0 && CarryNow() == HeaderOpens(h)
      ensures junk == if Plausible(h) then 0 else IP_COMPRESSED_HDR
    {
      hdrCarryLen, junk := 0, 0;
      if Plausible(h) {
        partial := h;
        partialLeft := Need(h) - IP_COMPRESSED_HDR;
      } else {
        junk := IP_COMPRESSED_HDR;
      }
    }

    /** The parked header stays incomplete: the whole transfer joins it. */
    method ShortHeader(b: seq<byte>)
      requires Valid() && 0 < hdrCarryLen && hdrCarryLen + |b| < IP_COMPRESSED_HDR
      modifies this`hdrCarryLen, hdrCarry
      ensures Valid() && CarryNow().Pending() != [] && Feed(old(CarryNow()), b) == Step(CarryNow(), [], 0)
    {
      FeedShortHeader(CarryNow(), b);
      hide Feed, Plausible, Need, Step.Before, Carry.Pending;
      ParkHeader(b);
      HeaderIsPending(CarryNow());
    }

    /** The parked header is completed by the transfer's first bytes. */
    method WholeHeader(b: seq<byte>) returns (off: nat, junk: nat)
      requires Valid() && 0 < hdrCarryLen && hdrCarryLen + |b| >= IP_COMPRESSED_HDR
      modifies this`hdrCarryLen, this`partial, this`partialLeft, hdrCarry
      ensures Valid() && hdrCarryLen == 0 && off <= |b|
      ensures Feed(old(CarryNow()), b) == Feed(CarryNow(), b[off..]).Before([], junk)
    {
      ghost var c := CarryNow();
      assert c.hdr != [] && partial == [] && partialLeft == 0;
      off := IP_COMPRESSED_HDR - hdrCarryLen;
      ghost var h := c.hdr + b[..off];
      FeedWholeHeader(c, b, off, h);
      hide Feed, Plausible, Step.Before, Carry.Pending, Carry.Valid, HeaderOpens;
      ParkHeader(b[..off]);
      assert hdrCarry[..hdrCarryLen] == h && hdrCarryLen == IP_COMPRESSED_HDR;
      junk := AcceptHeader(hdrCarry[..hdrCarryLen]);
    }

    /** First leg of a transfer: complete a header parked by the previous one. */
    method ResumeHeader(b: seq<byte>) returns (done: bool, off: nat, junk: nat)
      requires Valid()
      modifies this`hdrCarryLen, this`partial, this`partialLeft, hdrCarry
      ensures Valid() && off <= |b|
      ensures var c := old(CarryNow());
              if done then Feed(c, b) == Step(CarryNow(), [], 0) && CarryNow().Pending() != []
              else hdrCarryLen == 0 && Feed(c, b) == Feed(CarryNow(), b[off..]).Before([], junk)
    {
      done, off, junk := false, 0, 0;
      if hdrCarryLen == 0 {
        assert b[0..] == b;
        hide Feed, Step.Before;
        BeforeNothing(Feed(CarryNow(), b));
      } else if hdrCarryLen + |b| < IP_COMPRESSED_HDR {
        ShortHeader(b);
        done := true;
      } else {
        off, junk := WholeHeader(b);
      }
    }

    /** Second leg: complete a frame parked by the previous transfer. */
    method ResumeBody(b: seq<byte>) returns (done: bool, off: nat, ghost frames: seq<seq<byte>>)
      requires Valid() && hdrCarryLen == 0
      modifies this`partial, this`partialLeft, this`delivered
      ensures Valid() && off <= |b| && delivered == old(delivered) + Restored(prefix, frames)
      ensures var c := old(CarryNow());
              if done then Feed(c, b) == Step(CarryNow(), [], 0) && CarryNow().Pending() != [] && frames == []
              else CarryNow() == NOTHING && Feed(c, b) == Scan(b[off..]).Before(frames, 0)
    {
      done, off, frames := false, 0, [];
      assert CarryNow().hdr == [];
      if partial != [] {
        off := if partialLeft <= |b| then partialLeft else |b|;
        partial := partial + b[..off];
        partialLeft := partialLeft - off;
        if partialLeft > 0 {
          assert b[..off] == b;
          assert CarryNow().hdr == [];
          done := true;
          return;
        }
        FinishIp(partial);
        frames := [partial];
        partial := [];
      } else {
        assert b[0..] == b;
        BeforeNothing(Scan(b));
      }
      assert CarryNow().hdr == [];
    }

    /** Parks what neither skips nor holds a whole frame: a split header or the beginning of a frame. */
    method ParkRest(p: seq<byte>)
      requires Valid() && CarryNow() == NOTHING && p != [] && !Skips(p) && !StartsFrame(p)
      modifies this`hdrCarryLen, this`partial, this`partialLeft, hdrCarry
      ensures Valid() && CarryNow() != NOTHING && Scan(p) == Step(CarryNow(), [], 0)
    {
      if |p| < IP_COMPRESSED_HDR {
        ParkHeader(p);
        assert CarryNow() == Carry(p, [], 0);
      } else {
        partial := p;
        partialLeft := Need(p) - |p|;
        assert CarryNow() == Carry([], p, Need(p) - |p|);
      }
    }

    /** Third leg: the main loop over the rest of the transfer. */
    method ScanRest(b: seq<byte>) returns (junk: nat, parked: bool)
      requires Valid() && CarryNow() == NOTHING
      modifies this`hdrCarryLen, this`partial, this`partialLeft, this`delivered, hdrCarry
      ensures Valid() && CarryNow() == Scan(b).carry && junk == Scan(b).junk
      ensures delivered == old(delivered) + Restored(prefix, Scan(b).frames)
      ensures parked <==> Scan(b).carry != NOTHING
    {
      ghost var frames := [];
      var p := b;
      junk, parked := 0, false;
      BeforeNothing(Scan(b));
      assert CarryNow().hdr == [];
      hide Scan, Step.Before, Restored, Carry.Pending, Carry.Valid, Plausible, Need, Skips, StartsFrame;
      RestoredNone(prefix);
      while p != []
        invariant hdrCarryLen == 0 && partial == [] && partialLeft == 0
        invariant Scan(b) == Scan(p).Before(frames, junk)
        invariant delivered == old(delivered) + Restored(prefix, frames)
        decreases |p|
      {
        if Skips(p) {
          StepSkip(p, frames, junk);
          p, junk := p[1..], junk + 1;
        } else if !StartsFrame(p) {
          NothingIsValid();
          ParkRest(p);
          ScanEnds(p, CarryNow(), frames, junk);
          parked := true;
          return;
        } else {
          var need := TakeFrame(p);
          StepFrame(p, frames, junk);
          RestoredSplit(prefix, frames, [p[..need]]);
          frames := frames + [p[..need]];
          p := p[need..];
        }
      }
      NothingIsValid();
      ScanNone();
      ScanEnds(p, NOTHING, frames, junk);
    }

    /** A whole frame at p goes up. */
    method TakeFrame(p: seq<byte>) returns (need: nat)
      requires |prefix| == 3 && StartsFrame(p)
      modifies this`delivered
      ensures IP_COMPRESSED_HDR < need <= |p| && need == Need(p)
      ensures delivered == old(delivered) + Restored(prefix, [p[..need]])
    {
      need := Need(p);
      FinishIp(p[..need]);
    }

    /** The last two legs: with no header parked, continue a frame if there is one and then scan. */
    method AfterHeader(b: seq<byte>) returns (junk: nat, parked: bool)
      requires Valid() && hdrCarryLen == 0
      modifies this`hdrCarryLen, this`partial, this`partialLeft, this`delivered, hdrCarry
      ensures Valid()
      ensures var s := Feed(old(CarryNow()), b);
              && CarryNow() == s.carry && junk == s.junk && (parked <==> s.carry != NOTHING)
              && delivered == old(delivered) + Restored(prefix, s.frames)
    {
      var done, off;
      ghost var frames;
      done, off, frames := ResumeBody(b);
      junk, parked := 0, done;
      if done {
        return;
      }
      ghost var tail := Scan(b[off..]);
      hide Scan, Feed, Carry.Valid;
      junk, parked := ScanRest(b[off..]);
      RestoredSplit(prefix, frames, tail.frames);
    }

    /** artosyn_rx_ip_stream over one transfer's payload. */
    method IpStream(b: seq<byte>)
      requires Valid()
      modifies this`hdrCarryLen, this`partial, this`partialLeft, this`delivered, this`frameErrors, hdrCarry
      ensures Valid()
      ensures var c := old(CarryNow());
              && CarryNow() == Feed(c, b).carry
              && delivered == old(delivered) + Restored(prefix, Feed(c, b).frames)
              && frameErrors == old(frameErrors) + if Ticks(c, b) then 1 else 0
    {
      var done, off, junk := ResumeHeader(b);
      if done {
        assert CarryNow() != NOTHING && delivered + [] == delivered;
        return;
      }
      ghost var s := Feed(CarryNow(), b[off..]);
      hide Feed, Carry.Valid;
      var more, parked := AfterHeader(b[off..]);
      assert [] + s.frames == s.frames;
      if !parked && junk + more > 0 {
        frameErrors := frameErrors + 1;
      }
    }

    /** A command message: the oldest are dropped until it fits below the cap. */
    method AdmitCommand(msg: seq<byte>)
      modifies this`cmdRxq
      ensures cmdRxq == Admit(old(cmdRxq), Env().Cap(), msg)
    {
      var cap := if readers > 0 then CMD_RXQ_MAX_READER else CMD_RXQ_MAX_IDLE;
      var q := cmdRxq;
      while |q| >= cap
        invariant |q| <= |cmdRxq| && q == cmdRxq[|cmdRxq| - |q|..]
        invariant |cmdRxq| >= cap ==> |q| >= cap - 1
        invariant |cmdRxq| < cap ==> q == cmdRxq
      {
        q := q[1..];
      }
      cmdRxq := q + [msg];
    }

    /** An ACK: the window converges to the count in the last four bytes before the trailer. */
    method Converge(image: seq<byte>)
      requires |image| >= 8
      modifies this`unackedBytes
      ensures unackedBytes == AckWindow(old(unackedBytes), AckWord(image))
    {
      hide Word;
      var n := |image|;
      var acked := Word(image[n - 8], image[n - 7]) * 0x10000 + Word(image[n - 6], image[n - 5]);
      if unackedBytes > acked {
        unackedBytes := acked;
      }
    }

    /** One run, dispatched by its traffic class. */
    method DispatchRun(buf: seq<byte>, r: Run)
      requires Valid() && r.start + r.size <= |buf| && r.payload + LINK_TRAILER_LEN <= r.size
      modifies this`hdrCarryLen, this`partial, this`partialLeft, this`delivered, this`frameErrors, this`cmdRxq,
               this`unackedBytes, hdrCarry
      ensures Valid() && State() == DispatchOne(Env(), old(State()), PieceOf(buf, r))
    {
      hide Feed, Restored, Carry.Valid, Ticks, AckWord, AckWindow, Admit, RxEnv.Cap;
      if r.kind == TYPE_IP {
        if isUp {
          IpStream(buf[r.start..r.start + r.payload]);
        }
      } else if r.kind == TYPE_CMD {
        AdmitCommand(buf[r.start..r.start + r.payload]);
      } else if r.kind == TYPE_ACK && r.size >= 8 {
        Converge(buf[r.start..r.start + r.size]);
      }
    }

    /** The recovered runs, dispatched in stream order. */
    method DispatchRuns(buf: seq<byte>, runs: seq<Run>)
      requires Valid()
      requires forall r :: r in runs ==> r.start + r.size <= |buf| && r.payload + LINK_TRAILER_LEN <= r.size
      modifies this`hdrCarryLen, this`partial, this`partialLeft, this`delivered, this`frameErrors, this`cmdRxq,
               this`unackedBytes, hdrCarry
      ensures Valid() && State() == Dispatch(Env(), old(State()), PiecesOf(buf, runs))
    {
      ghost var e, st, pieces := Env(), State(), PiecesOf(buf, runs);
      ghost var now := st;
      var i: nat := 0;
      assert pieces[..0] == [] && now == Dispatch(e, st, []);
      hide DispatchOne, Dispatch, Carry.Valid, PieceOf;
      while i < |runs|
        invariant i <= |runs| && Valid() && Env() == e && State() == now
        invariant now == Dispatch(e, st, pieces[..i])
      {
        assert runs[i] in runs;
        DispatchSnoc(e, st, pieces, i);
        now := DispatchOne(e, now, pieces[i]);
        DispatchRun(buf, runs[i]);
        i := i + 1;
      }
      assert pieces[..i] == pieces;
    }

    /** artosyn_sdio_recv once the bytes are in rx_buf. */
    method Recv(buf: seq<byte>)
      requires Valid()
      modifies this`hdrCarryLen, this`partial, this`partialLeft, this`delivered, this`frameErrors, this`cmdRxq,
               this`unackedBytes, hdrCarry
      ensures Valid() && State() == Receive(Env(), old(State()), buf)
    {
      hide Dispatch, RunsOf, PiecesOf;
      if |buf| >= LINK_TRAILER_LEN {
        ReceiveIsDispatch(Env(), State(), buf);
        var runs := RecoverRuns(buf);
        DispatchRuns(buf, runs);
      }
    }
  }

  lemma ReceiveIsDispatch(e: RxEnv, st: RxState, buf: seq<byte>)
    requires e.Valid() && st.carry.Valid() && |buf| >= LINK_TRAILER_LEN
    ensures (forall x :: x in RunsOf(buf) ==> x.start + x.size <= |buf| && x.payload <= x.size)
            && Receive(e, st, buf) == Dispatch(e, st, PiecesOf(buf, RunsOf(buf)))
  {
    RunsTileTheRead(buf);
    hide RunsOf, Dispatch, PiecesOf;
  }

  lemma DispatchSnoc(e: RxEnv, st: RxState, pieces: seq<Piece>, i: nat)
    requires e.Valid() && st.carry.Valid() && i < |pieces|
    ensures Dispatch(e, st, pieces[..i + 1]) == DispatchOne(e, Dispatch(e, st, pieces[..i]), pieces[i])
  {
    assert pieces[..i + 1][..i] == pieces[..i];
  }

  lemma HeaderIsPending(c: Carry)
    requires c.Valid() && c.hdr != []
    ensures c.Pending() != []
  {
    assert |c.Pending()| >= |c.hdr|;
  }

  /** What a completed header leaves parked: the frame it opens, or nothing. */
  function HeaderOpens(h: seq<byte>): (c: Carry)
    requires |h| == IP_COMPRESSED_HDR
  {
    if Plausible(h) then Carry([], h, Need(h) - IP_COMPRESSED_HDR) else NOTHING
  }

  lemma FeedShortHeader(c: Carry, b: seq<byte>)
    requires c.Valid() && c.hdr != [] && |c.hdr| + |b| < IP_COMPRESSED_HDR
    ensures Carry(c.hdr + b, [], 0).Valid() && Feed(c, b) == Step(Carry(c.hdr + b, [], 0), [], 0)
  {
  }

  lemma FeedWholeHeader(c: Carry, b: seq<byte>, take: nat, h: seq<byte>)
    requires c.Valid() && c.hdr != [] && take <= |b| && |h| == IP_COMPRESSED_HDR && h == c.hdr + b[..take]
    ensures HeaderOpens(h).Valid()
    ensures Feed(c, b) == Feed(HeaderOpens(h), b[take..]).Before([], if Plausible(h) then 0 else IP_COMPRESSED_HDR)
  {
    BeforeNothing(Feed(c, b));
  }

  lemma NothingIsValid()
    ensures NOTHING.Valid()
  {
  }

  lemma ScanNone()
    ensures Scan([]) == Step(NOTHING, [], 0)
  {
  }

  lemma {:induction false} StepSkip(p: seq<byte>, frames: seq<seq<byte>>, junk: nat)
    requires Skips(p)
    ensures p != [] && Scan(p).Before(frames, junk) == Scan(p[1..]).Before(frames, junk + 1)
  {
    BeforeBefore(Scan(p[1..]), frames, junk, [], 1);
    assert frames + [] == frames;
  }

  lemma {:induction false} StepFrame(p: seq<byte>, frames: seq<seq<byte>>, junk: nat)
    requires StartsFrame(p)
    ensures Scan(p).Before(frames, junk) == Scan(p[Need(p)..]).Before(frames + [p[..Need(p)]], junk)
  {
    BeforeBefore(Scan(p[Need(p)..]), frames, junk, [p[..Need(p)]], 0);
  }

  lemma ScanEnds(p: seq<byte>, c: Carry, frames: seq<seq<byte>>, junk: nat)
    requires Scan(p) == Step(c, [], 0)
    ensures Scan(p).Before(frames, junk) == Step(c, frames, junk)
  {
    assert frames + [] == frames;
  }

  lemma RestoredNone(pfx: seq<byte>)
    requires |pfx| == 3
    ensures Restored(pfx, []) == []
  {
  }
}
