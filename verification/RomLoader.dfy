/** The firmware uploader's framing, sdio_rom_send (modules/artosyn_sdio.c). */
module RomLoader {
  import opened Bytes

  const HDR := 12
  const PAYLOAD_MAX := 4084
  const BLK_PAYLOAD := 500
  const SCRATCH := 4096
  const MAGIC := 0x4453
  const U16 := 0x1_0000
  const U32 := 0x1_0000_0000
  const U64 := 0x1_0000_0000_0000_0000

  /** One frame of a segment: where its payload starts, how much it carries, its length field and its wire size. */
  datatype Cut = Cut(off: nat, chunk: nat, field: nat, wire: nat)

  /** The cut the loop makes off bytes into a segment of len bytes. */
  function CutAt(len: nat, off: nat): (c: Cut)
    requires off <= len
    ensures off + c.chunk <= len && HDR + c.chunk <= c.wire <= SCRATCH && c.field < U16
    ensures len > off ==> c.chunk > 0
  {
    var remaining := len - off;
    if len == 0 then Cut(off, 0, 0, HDR)
    else if off == 0 && remaining < BLK_PAYLOAD then Cut(off, remaining, remaining + HDR, HDR + remaining + HDR)
    else if remaining >= PAYLOAD_MAX then Cut(off, PAYLOAD_MAX, PAYLOAD_MAX, HDR + PAYLOAD_MAX)
    else if remaining >= BLK_PAYLOAD then Cut(off, BLK_PAYLOAD, BLK_PAYLOAD, HDR + BLK_PAYLOAD)
    else Cut(off, remaining, remaining, HDR + remaining)
  }

  /** The cuts from off on: at least one, so an empty segment is still a frame. */
  function Cuts(len: nat, off: nat): (cs: seq<Cut>)
    requires off < len || off == len == 0
    ensures cs != []
    decreases len - off
  {
    var c := CutAt(len, off);
    [c] + if off + c.chunk < len then Cuts(len, off + c.chunk) else []
  }

  // ---- bytes of a frame ----

  /** The k low bytes of n, lowest first. */
  function Le(n: nat, k: nat): (r: seq<byte>)
    ensures |r| == k
  {
    if k == 0 then [] else [n % 256] + Le(n / 256, k - 1)
  }

  function LeValue(b: seq<byte>): nat {
    if b == [] then 0 else b[0] + 256 * LeValue(b[1..])
  }

  function Pow256(k: nat): (p: nat)
    ensures p > 0
  {
    if k == 0 then 1 else 256 * Pow256(k - 1)
  }

  lemma {:induction false} LeRoundTrip(n: nat, k: nat)
    requires n < Pow256(k)
    ensures LeValue(Le(n, k)) == n
  {
    if k > 0 {
      assert n / 256 < Pow256(k - 1);
      LeRoundTrip(n / 256, k - 1);
      assert Le(n, k)[1..] == Le(n / 256, k - 1);
    }
  }

  lemma FieldWidths()
    ensures Pow256(2) == U16 && Pow256(8) == U64
  {
    assert Pow256(4) == 256 * Pow256(3) == U32;
    assert Pow256(6) == 256 * Pow256(5);
    assert Pow256(8) == 256 * Pow256(7);
  }

  function Zeros(n: nat): (z: seq<byte>)
    ensures |z| == n && forall i :: 0 <= i < n ==> z[i] == 0
  {
    seq(n, i => 0)
  }

  lemma ZerosSlice(z: seq<byte>, n: nat, k: nat)
    requires k <= n <= |z| && z[..n] == Zeros(n)
    ensures z[k..n] == Zeros(n - k)
  {
    assert forall i :: k <= i < n ==> z[i] == z[..n][i];
  }

  /** Magic, length field and 64-bit address. */
  function Header(dst: nat, c: Cut): (h: seq<byte>)
    ensures |h| == HDR
  {
    Le(MAGIC, 2) + Le(c.field, 2) + Le((dst + c.off) % U64, 8)
  }

  /** The frame a cut becomes. */
  function Image(dst: nat, payload: seq<byte>, c: Cut): (f: seq<byte>)
    requires c.off + c.chunk <= |payload| && HDR + c.chunk <= c.wire
    ensures |f| == c.wire
  {
    Header(dst, c) + payload[c.off..c.off + c.chunk] + Zeros(c.wire - HDR - c.chunk)
  }

  /** How the ROM reads a frame back. */
  datatype Parsed = Parsed(magic: nat, field: nat, addr: nat, data: seq<byte>)

  function Parse(f: seq<byte>): Parsed
    requires |f| >= HDR
  {
    Parsed(LeValue(f[0..2]), LeValue(f[2..4]), LeValue(f[4..12]), f[HDR..])
  }

  lemma HeadSlices(a: seq<byte>, b: seq<byte>, d: seq<byte>, rest: seq<byte>)
    requires |a| == |b| == 2 && |d| == 8
    ensures var f := a + b + d + rest; f[0..2] == a && f[2..4] == b && f[4..12] == d && f[HDR..] == rest
  {
  }

  lemma ParseImage(dst: nat, payload: seq<byte>, c: Cut)
    requires c.off + c.chunk <= |payload| && HDR + c.chunk <= c.wire && c.field < U16
    ensures Parse(Image(dst, payload, c)) == Parsed(MAGIC, c.field, (dst + c.off) % U64,
                                                    payload[c.off..c.off + c.chunk] + Zeros(c.wire - HDR - c.chunk))
  {
    FieldWidths();
    LeRoundTrip(MAGIC, 2);
    LeRoundTrip(c.field, 2);
    LeRoundTrip((dst + c.off) % U64, 8);
    var e := payload[c.off..c.off + c.chunk] + Zeros(c.wire - HDR - c.chunk);
    ImageIs(dst, payload, c);
    HeadSlices(Le(MAGIC, 2), Le(c.field, 2), Le((dst + c.off) % U64, 8), e);
    hide Le, Zeros, LeValue, Image;
  }

  lemma ImageIs(dst: nat, payload: seq<byte>, c: Cut)
    requires c.off + c.chunk <= |payload| && HDR + c.chunk <= c.wire && c.field < U16
    ensures Image(dst, payload, c) == Le(MAGIC, 2) + Le(c.field, 2) + Le((dst + c.off) % U64, 8)
                                      + (payload[c.off..c.off + c.chunk] + Zeros(c.wire - HDR - c.chunk))
  {
    hide Le, Zeros;
  }

  // ---- the upload loop ----

  function Images(dst: nat, payload: seq<byte>, off: nat): (r: seq<seq<byte>>)
    requires off < |payload| || off == |payload| == 0
    ensures r != []
    decreases |payload| - off
  {
    var c := CutAt(|payload|, off);
    [Image(dst, payload, c)] + if off + c.chunk < |payload| then Images(dst, payload, off + c.chunk) else []
  }

  /** The frames of an upload are those done and those from off on. */
  predicate Upto(dst: nat, payload: seq<byte>, whole: seq<seq<byte>>, done: seq<seq<byte>>, off: nat) {
    (off < |payload| || off == |payload| == 0) && whole == done + Images(dst, payload, off)
  }

  lemma NothingSent(dst: nat, payload: seq<byte>)
    ensures Upto(dst, payload, Images(dst, payload, 0), [], 0)
  {
  }

  /** Sending the frame at off. */
  lemma OneMoreSent(dst: nat, payload: seq<byte>, whole: seq<seq<byte>>, done: seq<seq<byte>>, off: nat)
    requires off <= |payload| && Upto(dst, payload, whole, done, off)
    ensures |done| < |whole| && whole[..|done|] == done
    ensures var c := CutAt(|payload|, off);
            var more := done + [Image(dst, payload, c)];
            if off + c.chunk < |payload| then Upto(dst, payload, whole, more, off + c.chunk) else whole == more
  {
    var c := CutAt(|payload|, off);
    var rest := if off + c.chunk < |payload| then Images(dst, payload, off + c.chunk) else [];
    assert Images(dst, payload, off) == [Image(dst, payload, c)] + rest;
    hide Images, Image, CutAt;
    JoinThree(done, [Image(dst, payload, c)], rest);
  }

  lemma LeStep(n: nat, k: nat)
    ensures Le(n, k) == if k == 0 then [] else [n % 256] + Le(n / 256, k - 1)
  {
  }

  /** The payload goes over the zeros behind the header. */
  lemma JoinImage(f: seq<byte>, head: seq<byte>, wire: nat, body: seq<byte>)
    requires |head| == HDR && HDR + |body| <= wire <= |f| && f[..wire] == head + Zeros(wire - HDR)
    ensures (f[..HDR] + body + f[HDR + |body|..])[..wire] == head + body + Zeros(wire - HDR - |body|)
  {
    var z := f[HDR..];
    assert f[..wire][..HDR] == head && z[..wire - HDR] == f[..wire][HDR..] == Zeros(wire - HDR);
    ZerosSlice(z, wire - HDR, |body|);
    assert f[HDR + |body|..] == z[|body|..];
  }

  class Loader {
    const fwBuf: array<byte>
    var fifo: seq<seq<byte>>

    constructor ()
      ensures fwBuf.Length == SCRATCH && fresh(fwBuf) && fifo == []
    {
      fwBuf := new byte[SCRATCH](_ => 0);
      fifo := [];
    }

    /** put_unaligned_le16 and put_unaligned_le64. */
    method PutLe(at: nat, n: nat, k: nat)
      requires at + k <= fwBuf.Length
      modifies fwBuf
      ensures fwBuf[..at] == old(fwBuf[..at]) && fwBuf[at..at + k] == Le(n, k)
      ensures fwBuf[at + k..] == old(fwBuf[at + k..])
    {
      hide Le;
      var i, m: nat := 0, n;
      ghost var whole := Le(n, k);
      while i < k
        invariant i <= k && whole == fwBuf[at..at + i] + Le(m, k - i)
        invariant fwBuf[..at] == old(fwBuf[..at]) && fwBuf[at + i..] == old(fwBuf[at + i..])
      {
        ghost var done := fwBuf[at..at + i];
        LeStep(m, k - i);
        fwBuf[at + i] := m % 256;
        assert fwBuf[at..at + i + 1] == done + [m % 256];
        m, i := m / 256, i + 1;
      }
      LeStep(m, 0);
    }

    /** Clears the frame and writes its header. */
    method PutHeader(dst: nat, c: Cut)
      requires fwBuf.Length == SCRATCH && HDR <= c.wire <= SCRATCH
      modifies fwBuf
      ensures fwBuf[..c.wire] == Header(dst, c) + Zeros(c.wire - HDR)
    {
      hide Le;
      forall k | 0 <= k < c.wire {
        fwBuf[k] := 0;
      }
      ghost var z := fwBuf[HDR..];
      assert z[..c.wire - HDR] == Zeros(c.wire - HDR);
      PutLe(0, MAGIC, 2);
      assert fwBuf[2..][HDR - 2..] == z;
      PutLe(2, c.field, 2);
      ghost var head := fwBuf[..4];
      assert head == Le(MAGIC, 2) + Le(c.field, 2) && fwBuf[4..][HDR - 4..] == z;
      PutLe(4, (dst + c.off) % U64, 8);
      assert fwBuf[..HDR] == head + fwBuf[4..HDR] && fwBuf[HDR..] == z;
      assert fwBuf[..c.wire] == fwBuf[..HDR] + fwBuf[HDR..][..c.wire - HDR];
    }

    /** Copies a slice of the segment behind the header. */
    method PutPayload(payload: seq<byte>, at: nat, n: nat)
      requires at + n <= |payload| && HDR + n <= fwBuf.Length
      modifies fwBuf
      ensures var f := old(fwBuf[..]); fwBuf[..] == f[..HDR] + payload[at..at + n] + f[HDR + n..]
    {
      ghost var f := fwBuf[..];
      forall k | HDR <= k < HDR + n {
        fwBuf[k] := payload[at + k - HDR];
      }
      ghost var got, body := fwBuf[HDR..HDR + n], payload[at..at + n];
      forall i | 0 <= i < n
        ensures got[i] == body[i]
      {
        assert fwBuf[HDR + i] == payload[at + i];
      }
      assert got == body;
      assert fwBuf[..] == fwBuf[..HDR] + fwBuf[HDR..HDR + n] + fwBuf[HDR + n..];
    }

    /** Builds one frame in the scratch buffer. */
    method Build(dst: nat, payload: seq<byte>, c: Cut)
      requires fwBuf.Length == SCRATCH
      requires c.off + c.chunk <= |payload| && HDR + c.chunk <= c.wire <= SCRATCH
      modifies fwBuf
      ensures fwBuf[..c.wire] == Image(dst, payload, c)
    {
      hide Le, Zeros;
      PutHeader(dst, c);
      ghost var f := fwBuf[..];
      assert f[..c.wire] == fwBuf[..c.wire];
      JoinImage(f, Header(dst, c), c.wire, payload[c.off..c.off + c.chunk]);
      PutPayload(payload, c.off, c.chunk);
      assert fwBuf[..c.wire] == fwBuf[..][..c.wire];
    }

    /** Builds one frame and writes it, if the bus still takes one. */
    method WriteFrame(dst: nat, payload: seq<byte>, c: Cut, taken: bool) returns (ok: bool)
      requires fwBuf.Length == SCRATCH
      requires c.off + c.chunk <= |payload| && HDR + c.chunk <= c.wire <= SCRATCH
      modifies this`fifo, fwBuf
      ensures ok == taken && fifo == if ok then old(fifo) + [Image(dst, payload, c)] else old(fifo)
    {
      Build(dst, payload, c);
      ok := taken;
      if ok {
        fifo := fifo + [fwBuf[..c.wire]];
      }
    }

    /** The frame-sizing cascade. */
    static method NextCut(len: nat, off: nat) returns (chunk: nat, field: nat, wire: nat)
      requires off <= len
      ensures Cut(off, chunk, field, wire) == CutAt(len, off)
    {
      var remaining := len - off;
      if len == 0 {
        chunk, field, wire := 0, 0, HDR;
      } else if off == 0 && remaining < BLK_PAYLOAD {
        chunk, field, wire := remaining, remaining + HDR, HDR + remaining + HDR;
      } else if remaining >= PAYLOAD_MAX {
        chunk, field, wire := PAYLOAD_MAX, PAYLOAD_MAX, HDR + PAYLOAD_MAX;
      } else if remaining >= BLK_PAYLOAD {
        chunk, field, wire := BLK_PAYLOAD, BLK_PAYLOAD, HDR + BLK_PAYLOAD;
      } else {
        chunk, field, wire := remaining, remaining, HDR + remaining;
      }
    }

    /** One turn of the upload loop. */
    method SendNext(dst: nat, payload: seq<byte>, off: nat, taken: bool,
                    ghost before: seq<seq<byte>>, ghost whole: seq<seq<byte>>, ghost done: seq<seq<byte>>)
      returns (ok: bool, next: nat, ghost more: seq<seq<byte>>)
      requires fwBuf.Length == SCRATCH && off <= |payload| && Upto(dst, payload, whole, done, off)
      requires fifo == before + done
      modifies this`fifo, fwBuf
      ensures ok == taken && fifo == before + (if ok then more else done)
      ensures |done| < |whole| && whole[..|done|] == done && |more| == |done| + 1
      ensures if next < |payload| then off < next && Upto(dst, payload, whole, more, next) else whole == more
    {
      hide *;
      OneMoreSent(dst, payload, whole, done, off);
      var chunk, field, wire := NextCut(|payload|, off);
      ghost var img := Image(dst, payload, Cut(off, chunk, field, wire));
      ok := WriteFrame(dst, payload, Cut(off, chunk, field, wire), taken);
      JoinThree(before, done, [img]);
      next, more := off + chunk, done + [img];
    }

    /** sdio_rom_send; bus is how many frames the bus takes before a write fails. */
    method Send(dst: nat, payload: seq<byte>, bus: nat) returns (ok: bool)
      requires fwBuf.Length == SCRATCH && dst < U64 && |payload| < U32
      modifies this`fifo, fwBuf
      ensures ok <==> |Images(dst, payload, 0)| <= bus
      ensures fifo == old(fifo) + if ok then Images(dst, payload, 0) else Images(dst, payload, 0)[..bus]
    {
      hide *;
      var len: nat, off: nat, sent: nat := |payload|, 0, 0;
      ghost var before, whole, done := fifo, Images(dst, payload, 0), [];
      NothingSent(dst, payload);
      assert before + [] == before;
      while true
        invariant off <= len && Upto(dst, payload, whole, done, off) && |done| == sent <= bus
        invariant fifo == before + done
        decreases len - off
      {
        var written, next;
        ghost var more;
        written, next, more := SendNext(dst, payload, off, sent < bus, before, whole, done);
        if !written {
          return false;
        }
        sent, off, done := sent + 1, next, more;
        if off >= len {
          return true;
        }
      }
    }
  }

  // ---- what the framing amounts to ----

  lemma {:induction false} ImagesAreCuts(dst: nat, payload: seq<byte>, off: nat)
    requires off < |payload| || off == |payload| == 0
    ensures var cs, fs := Cuts(|payload|, off), Images(dst, payload, off);
            && |fs| == |cs|
            && (forall i :: 0 <= i < |cs| ==> cs[i].off + cs[i].chunk <= |payload| && cs[i].field < U16
                                              && HDR + cs[i].chunk <= cs[i].wire <= SCRATCH
                                              && fs[i] == Image(dst, payload, cs[i]))
    decreases |payload| - off
  {
    hide CutAt, Image;
    var c := CutAt(|payload|, off);
    CutStartsAt(|payload|, off);
    if off + c.chunk < |payload| {
      ImagesAreCuts(dst, payload, off + c.chunk);
    }
  }

  /** Every cut lies in a segment of this length. */
  predicate Within(cs: seq<Cut>, len: nat) {
    forall i :: 0 <= i < |cs| ==> cs[i].off + cs[i].chunk <= len
  }

  /** The part of the segment a run of cuts carries. */
  function Carried(payload: seq<byte>, cs: seq<Cut>): seq<byte>
    requires Within(cs, |payload|)
  {
    if cs == [] then [] else payload[cs[0].off..cs[0].off + cs[0].chunk] + Carried(payload, cs[1..])
  }

  lemma SliceJoin(s: seq<byte>, a: nat, m: nat)
    requires a <= m <= |s|
    ensures s[a..m] + s[m..] == s[a..]
  {
  }

  /** The cuts carry the rest of the segment: nothing repeated, skipped or reordered. */
  lemma {:induction false} CutsCarryTheSegment(payload: seq<byte>, off: nat)
    requires off < |payload| || off == |payload| == 0
    ensures Within(Cuts(|payload|, off), |payload|) && Carried(payload, Cuts(|payload|, off)) == payload[off..]
    decreases |payload| - off
  {
    hide *;
    var n := off + CutAt(|payload|, off).chunk;
    CutsStep(|payload|, off);
    if n < |payload| {
      CutsCarryTheSegment(payload, n);
    } else {
      CarriedNone(payload);
    }
    CarriedStep(payload, CutAt(|payload|, off), CutsFrom(|payload|, n));
  }

  lemma CutStartsAt(len: nat, off: nat)
    requires off <= len
    ensures CutAt(len, off).off == off
  {
  }

  /** The cuts from off on, none at the end. */
  function CutsFrom(len: nat, off: nat): seq<Cut> {
    if off < len then Cuts(len, off) else []
  }

  /** A cut in front of cuts that carry everything behind it. */
  lemma CarriedStep(payload: seq<byte>, c: Cut, rest: seq<Cut>)
    requires c.off + c.chunk <= |payload| && Within(rest, |payload|)
    requires Carried(payload, rest) == payload[c.off + c.chunk..]
    ensures Within([c] + rest, |payload|) && Carried(payload, [c] + rest) == payload[c.off..]
  {
    hide Carried, Within;
    CarriedCons(payload, c, rest);
    SliceJoin(payload, c.off, c.off + c.chunk);
  }

  lemma CutsStep(len: nat, off: nat)
    requires off < len || off == len == 0
    ensures var c := CutAt(len, off);
            && c.off == off && Cuts(len, off) == [c] + CutsFrom(len, off + c.chunk)
            && CutsFrom(len, off + c.chunk) == if off + c.chunk < len then Cuts(len, off + c.chunk) else []
  {
  }

  lemma CarriedNone(payload: seq<byte>)
    ensures Within([], |payload|) && Carried(payload, []) == [] == payload[|payload|..]
  {
  }

  lemma CarriedCons(payload: seq<byte>, c: Cut, rest: seq<Cut>)
    requires c.off + c.chunk <= |payload| && Within(rest, |payload|)
    ensures Within([c] + rest, |payload|)
    ensures Carried(payload, [c] + rest) == payload[c.off..c.off + c.chunk] + Carried(payload, rest)
  {
    assert ([c] + rest)[1..] == rest;
  }

  /** Every cut starts where the bytes before it end. */
  lemma {:induction false} CutsAreContiguous(len: nat, off: nat, i: nat)
    requires (off < len || off == len == 0) && i < |Cuts(len, off)|
    ensures var cs := Cuts(len, off);
            cs[i].off == if i == 0 then off else cs[i - 1].off + cs[i - 1].chunk
    decreases len - off
  {
    var c := CutAt(len, off);
    if i > 0 {
      assert off + c.chunk < len;
      assert Cuts(len, off)[1..] == Cuts(len, off + c.chunk);
      CutsAreContiguous(len, off + c.chunk, i - 1);
    }
  }

  /** n cuts of chunk bytes each, as full frames, from off on. */
  function FullCuts(off: nat, chunk: nat, n: nat): (cs: seq<Cut>)
    ensures |cs| == n
    decreases n
  {
    if n == 0 then [] else [Cut(off, chunk, chunk, HDR + chunk)] + FullCuts(off + chunk, chunk, n - 1)
  }

  /** The i-th of them starts i chunks further on. */
  lemma {:induction false} FullCutAt(off: nat, chunk: nat, n: nat, i: nat)
    requires i < n
    ensures FullCuts(off, chunk, n)[i] == Cut(off + i * chunk, chunk, chunk, HDR + chunk)
    decreases i
  {
    if i > 0 {
      FullCutAt(off + chunk, chunk, n - 1, i - 1);
      assert i * chunk == (i - 1) * chunk + chunk;
    }
  }

  function Tail(off: nat, t: nat): seq<Cut> {
    if t == 0 then [] else [Cut(off, t, t, HDR + t)]
  }

  lemma {:induction false} BlockCuts(len: nat, off: nat, n: nat, t: nat)
    requires 0 < off < len && len - off == n * BLK_PAYLOAD + t < PAYLOAD_MAX && t < BLK_PAYLOAD
    ensures Cuts(len, off) == FullCuts(off, BLK_PAYLOAD, n) + Tail(len - t, t)
    decreases n
  {
    if n > 0 && len - off > BLK_PAYLOAD {
      BlockCuts(len, off + BLK_PAYLOAD, n - 1, t);
    }
  }

  /** The rest of a segment below one scratch buffer: 512-byte frames and at most one shorter tail. */
  function SmallCuts(len: nat, r: nat): seq<Cut>
    requires r <= len
  {
    FullCuts(len - r, BLK_PAYLOAD, r / BLK_PAYLOAD) + Tail(len - r % BLK_PAYLOAD, r % BLK_PAYLOAD)
  }

  lemma {:induction false} FirstBlockCut(len: nat)
    requires BLK_PAYLOAD <= len < PAYLOAD_MAX
    ensures Cuts(len, 0) == SmallCuts(len, len)
  {
    var n, t := len / BLK_PAYLOAD, len % BLK_PAYLOAD;
    if len > BLK_PAYLOAD {
      BlockCuts(len, BLK_PAYLOAD, n - 1, t);
    }
  }

  lemma {:induction false} FullScratchCut(len: nat, off: nat)
    requires off < len && len - off >= PAYLOAD_MAX
    ensures Cuts(len, off) == [Cut(off, PAYLOAD_MAX, PAYLOAD_MAX, HDR + PAYLOAD_MAX)]
                              + if len - off > PAYLOAD_MAX then Cuts(len, off + PAYLOAD_MAX) else []
  {
  }

  lemma {:induction false} FullCutsCons(off: nat, chunk: nat, n: nat)
    ensures FullCuts(off, chunk, 0) == []
    ensures FullCuts(off, chunk, n + 1) == [Cut(off, chunk, chunk, HDR + chunk)] + FullCuts(off + chunk, chunk, n)
  {
  }

  lemma NoSmallCuts(len: nat)
    ensures SmallCuts(len, 0) == []
  {
  }

  /** The end of a segment that fits one scratch buffer. */
  lemma {:induction false} SegmentEnd(len: nat, off: nat, r: nat)
    requires off < len && (off == 0 ==> len >= BLK_PAYLOAD) && len - off == r < PAYLOAD_MAX
    ensures Cuts(len, off) == SmallCuts(len, r)
  {
    if off > 0 {
      BlockCuts(len, off, r / BLK_PAYLOAD, r % BLK_PAYLOAD);
    } else {
      FirstBlockCut(len);
    }
  }

  lemma {:induction false} SegmentCuts(len: nat, off: nat, n: nat, r: nat)
    requires off < len && (off == 0 ==> len >= BLK_PAYLOAD) && len - off == n * PAYLOAD_MAX + r && r < PAYLOAD_MAX
    ensures Cuts(len, off) == FullCuts(off, PAYLOAD_MAX, n) + SmallCuts(len, r)
    decreases n
  {
    FullCutsCons(off, PAYLOAD_MAX, 0);
    FullCutsCons(off + PAYLOAD_MAX, PAYLOAD_MAX, 0);
    NoSmallCuts(len);
    hide *;
    if n == 0 {
      SegmentEnd(len, off, r);
    } else {
      FullScratchCut(len, off);
      FullCutsCons(off, PAYLOAD_MAX, n - 1);
      if n > 1 || r > 0 {
        SegmentCuts(len, off + PAYLOAD_MAX, n - 1, r);
        JoinThree([Cut(off, PAYLOAD_MAX, PAYLOAD_MAX, HDR + PAYLOAD_MAX)],
                  FullCuts(off + PAYLOAD_MAX, PAYLOAD_MAX, n - 1), SmallCuts(len, r));
      }
    }
  }

  /**
   * The shape of an upload, in closed form: a segment of 500 bytes or more is 4096-byte frames, then 512-byte
   * frames, then at most one shorter tail; a smaller one is a single frame with 12 trailing zeros; an empty one
   * is the bare header that boots the firmware.
   */
  lemma {:induction false} UploadShape(len: nat)
    ensures len >= BLK_PAYLOAD ==>
              Cuts(len, 0) == FullCuts(0, PAYLOAD_MAX, len / PAYLOAD_MAX) + SmallCuts(len, len % PAYLOAD_MAX)
    ensures 0 < len < BLK_PAYLOAD ==> Cuts(len, 0) == [Cut(0, len, len + HDR, HDR + len + HDR)]
    ensures len == 0 ==> Cuts(len, 0) == [Cut(0, 0, 0, HDR)]
  {
    if len >= BLK_PAYLOAD {
      SegmentCuts(len, 0, len / PAYLOAD_MAX, len % PAYLOAD_MAX);
    }
  }

  /** A frame goes out as whole 512-byte blocks or in byte mode below one block; nothing else is exact. */
  predicate BlockOrByteMode(c: Cut) {
    c.wire % 512 == 0 || c.wire < 512
  }

  lemma {:induction false} FullCutsMode(off: nat, chunk: nat, n: nat)
    requires (HDR + chunk) % 512 == 0
    ensures forall c :: c in FullCuts(off, chunk, n) ==> BlockOrByteMode(c)
    decreases n
  {
    if n > 0 {
      FullCutsMode(off + chunk, chunk, n - 1);
    }
  }

  lemma SmallCutsMode(len: nat, r: nat)
    requires r <= len
    ensures forall c :: c in SmallCuts(len, r) ==> BlockOrByteMode(c)
  {
    FullCutsMode(len - r, BLK_PAYLOAD, r / BLK_PAYLOAD);
  }

  lemma SegmentCutMode(len: nat)
    requires len >= BLK_PAYLOAD
    ensures forall c :: c in Cuts(len, 0) ==> BlockOrByteMode(c)
  {
    UploadShape(len);
    FullCutsMode(0, PAYLOAD_MAX, len / PAYLOAD_MAX);
    SmallCutsMode(len, len % PAYLOAD_MAX);
    hide *;
  }

  /** Only a tiny segment of more than 488 bytes breaks the rule: its trailing zeros push it past one block. */
  lemma {:induction false} FramesAreBlockOrByteMode(len: nat)
    ensures (forall i :: 0 <= i < |Cuts(len, 0)| ==> BlockOrByteMode(Cuts(len, 0)[i])) <==> !(488 < len < BLK_PAYLOAD)
  {
    UploadShape(len);
    if 0 < len < BLK_PAYLOAD {
      assert Cuts(len, 0)[0].wire == len + 24;
    } else if len >= BLK_PAYLOAD {
      SegmentCutMode(len);
    }
  }

  /** What the ROM reads out of an upload: frame i names its own address, and the payloads make up the segment. */
  lemma {:induction false} UploadReadsBack(dst: nat, payload: seq<byte>, i: nat)
    requires i < |Cuts(|payload|, 0)|
    ensures var cs, fs := Cuts(|payload|, 0), Images(dst, payload, 0);
            && |fs| == |cs| && HDR <= |fs[i]| <= SCRATCH
            && cs[i].off + cs[i].chunk <= |payload| && HDR + cs[i].chunk <= cs[i].wire
            && Parse(fs[i]).magic == MAGIC && Parse(fs[i]).field == cs[i].field
            && Parse(fs[i]).addr == (dst + cs[i].off) % U64
            && Parse(fs[i]).data == payload[cs[i].off..cs[i].off + cs[i].chunk] + Zeros(cs[i].wire - HDR - cs[i].chunk)
  {
    ImagesAreCuts(dst, payload, 0);
    ParseImage(dst, payload, Cuts(|payload|, 0)[i]);
  }
}
