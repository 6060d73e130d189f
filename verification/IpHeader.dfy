/** The tunnel's IPv4 header compression and its inverse (modules/artosyn_sdio.c). */
module IpHeader {
  import opened Bytes

  const IP_HDR := 20
  const IP_COMPRESSED_HDR := 12
  const IP_HEAD_SHRINK := 8

  /** What is left of a packet once its header has been shrunk and 8 bytes pulled. */
  function Compress(p: seq<byte>): (c: seq<byte>)
    requires |p| >= IP_HDR
    ensures |c| == |p| - IP_HEAD_SHRINK
  {
    [p[0], p[9], p[10], p[11], p[2], p[3], p[4], p[5], p[6], p[7], p[15], p[19]] + p[IP_HDR..]
  }

  /** artosyn_sdio_build_ip_head: the fields move inside the packet's own buffer. */
  method BuildIpHead(d: array<byte>)
    requires d.Length >= IP_HDR
    modifies d
    ensures d[IP_HEAD_SHRINK..] == Compress(old(d[..]))
  {
    ghost var o := d[..];
    d[18] := d[15];
    d[17] := d[7];
    d[16] := d[6];
    d[15] := d[5];
    d[14] := d[4];
    d[13] := d[3];
    d[12] := d[2];
    d[8] := d[0];
    Shrunk(o, d[IP_HEAD_SHRINK..]);
  }

  lemma Shrunk(o: seq<byte>, r: seq<byte>)
    requires |o| >= IP_HDR && |r| == |o| - IP_HEAD_SHRINK
    requires r[0] == o[0] && r[1] == o[9] && r[2] == o[10] && r[3] == o[11] && r[4] == o[2] && r[5] == o[3]
    requires r[6] == o[4] && r[7] == o[5] && r[8] == o[6] && r[9] == o[7] && r[10] == o[15] && r[11] == o[19]
    requires forall i :: IP_COMPRESSED_HDR <= i < |r| ==> r[i] == o[i + IP_HEAD_SHRINK]
    ensures r == Compress(o)
  {
  }

  /** The sum of a header's big-endian 16-bit words (RFC 1071, section 1). */
  function WordSum(h: seq<byte>): nat {
    if |h| < 2 then 0 else Word(h[0], h[1]) + WordSum(h[2..])
  }

  /** Folds carries back in until the sum fits 16 bits. */
  function Fold(s: nat): (f: nat)
    ensures f < 0x10000
    ensures f % 0xffff == s % 0xffff
    ensures s > 0 ==> f > 0
  {
    if s < 0x10000 then s else Fold(s % 0x10000 + s / 0x10000)
  }

  function Checksum(h: seq<byte>): (c: nat)
    ensures c < 0x10000
  {
    0xffff - Fold(WordSum(h))
  }

  /** A receiver's test: the one's complement sum over the whole header is all ones. */
  predicate ChecksumVerifies(h: seq<byte>) {
    Fold(WordSum(h)) == 0xffff
  }

  function WithChecksum(h: seq<byte>, c: nat): (r: seq<byte>)
    requires |h| == IP_HDR && c < 0x10000
    ensures |r| == IP_HDR
  {
    h[10 := c / 256][11 := c % 256]
  }

  lemma WordSumOfHeader(h: seq<byte>)
    requires |h| == IP_HDR
    ensures WordSum(h) == Word(h[0], h[1]) + Word(h[2], h[3]) + Word(h[4], h[5]) + Word(h[6], h[7]) + Word(h[8], h[9])
                          + Word(h[10], h[11]) + Word(h[12], h[13]) + Word(h[14], h[15]) + Word(h[16], h[17])
                          + Word(h[18], h[19])
  {
    WordSumStep(h, 0); WordSumStep(h, 2); WordSumStep(h, 4); WordSumStep(h, 6); WordSumStep(h, 8);
    WordSumStep(h, 10); WordSumStep(h, 12); WordSumStep(h, 14); WordSumStep(h, 16); WordSumStep(h, 18);
    assert h[0..] == h;
  }

  lemma WordSumStep(h: seq<byte>, i: nat)
    requires i + 2 <= |h|
    ensures WordSum(h[i..]) == Word(h[i], h[i + 1]) + WordSum(h[i + 2..])
  {
    assert h[i..][2..] == h[i + 2..];
  }

  /** A sum plus its complement folds to all ones, unless nothing was summed. */
  lemma {:induction false} FoldOfComplement(s: nat)
    requires s > 0
    ensures Fold(s + (0xffff - Fold(s))) == 0xffff
  {
    var f := Fold(s);
    hide Fold;
    var t := s + (0xffff - f);
    MultipleOfOnes(s, f);
    assert Fold(t) % 0xffff == 0 && Fold(t) > 0;
  }

  lemma MultipleOfOnes(s: nat, f: nat)
    requires f <= 0xffff && s % 0xffff == f % 0xffff
    ensures (s + (0xffff - f)) % 0xffff == 0
  {
    var q, g := s / 0xffff, f / 0xffff;
    assert s + (0xffff - f) == 0xffff * (q - g + 1);
  }

  /** A checksum computed over a header whose checksum field is zero makes that header verify. */
  lemma ComputedChecksumVerifies(h: seq<byte>)
    requires |h| == IP_HDR && h[0] > 0 && h[10] == 0 && h[11] == 0
    ensures ChecksumVerifies(WithChecksum(h, Checksum(h)))
  {
    var c := Checksum(h);
    WordSumOfHeader(h);
    WordSumOfHeader(WithChecksum(h, c));
    assert WordSum(WithChecksum(h, c)) == WordSum(h) + c;
    FoldOfComplement(WordSum(h));
  }

  /** The rebuilt header before its checksum is filled in; pfx is the link's network prefix. */
  function BareHeader(pfx: seq<byte>, c: seq<byte>): (h: seq<byte>)
    requires |pfx| == 3 && |c| >= IP_COMPRESSED_HDR
    ensures |h| == IP_HDR
  {
    [0x45, 0, c[4], c[5], c[6], c[7], c[8], c[9], 0x40, c[1], 0, 0]
    + pfx + [c[10]] + pfx + [c[11]]
  }

  function Restore(pfx: seq<byte>, c: seq<byte>): (p: seq<byte>)
    requires |pfx| == 3 && |c| >= IP_COMPRESSED_HDR
    ensures |p| == |c| + IP_HEAD_SHRINK
  {
    var h := BareHeader(pfx, c);
    WithChecksum(h, Checksum(h)) + c[IP_COMPRESSED_HDR..]
  }

  /** Spreads the compressed fields over the 20-byte header, its checksum field cleared. */
  method OpenHead(pfx: seq<byte>, d: array<byte>)
    requires |pfx| == 3 && d.Length >= IP_HDR
    modifies d
    ensures d[..IP_HDR] == BareHeader(pfx, old(d[IP_HEAD_SHRINK..]))
    ensures d[IP_HDR..] == old(d[IP_HDR..])
  {
    ghost var c := d[IP_HEAD_SHRINK..];
    d[0] := 0x45;
    d[1] := 0;
    d[2] := d[12];
    d[3] := d[13];
    d[4] := d[14];
    d[5] := d[15];
    d[6] := d[16];
    d[7] := d[17];
    d[8] := 0x40;
    d[10] := 0;
    d[11] := 0;
    d[12] := pfx[0];
    d[13] := pfx[1];
    d[14] := pfx[2];
    d[15] := d[18];
    d[16] := pfx[0];
    d[17] := pfx[1];
    d[18] := pfx[2];
    hide BareHeader;
    Rebuilt(pfx, c, d[..IP_HDR]);
  }

  /** artosyn_sdio_restore_ip_head: d[8..] holds the compressed frame, d[..8] is the re-opened headroom. */
  method RestoreIpHead(pfx: seq<byte>, d: array<byte>)
    requires |pfx| == 3 && d.Length >= IP_HDR
    modifies d
    ensures d[..] == Restore(pfx, old(d[IP_HEAD_SHRINK..]))
  {
    ghost var c := d[IP_HEAD_SHRINK..];
    assert d[IP_HDR..] == c[IP_COMPRESSED_HDR..];
    OpenHead(pfx, d);
    ghost var h := d[..IP_HDR];
    hide BareHeader, Checksum;
    var check := Checksum(d[..IP_HDR]);
    d[10] := check / 256;
    d[11] := check % 256;
    assert d[..IP_HDR] == WithChecksum(h, check);
    assert d[..] == d[..IP_HDR] + d[IP_HDR..];
  }

  lemma Rebuilt(pfx: seq<byte>, c: seq<byte>, h: seq<byte>)
    requires |pfx| == 3 && |c| >= IP_COMPRESSED_HDR && |h| == IP_HDR
    requires h[0] == 0x45 && h[1] == 0 && h[2] == c[4] && h[3] == c[5] && h[4] == c[6] && h[5] == c[7] && h[6] == c[8]
    requires h[7] == c[9] && h[8] == 0x40 && h[9] == c[1] && h[10] == 0 && h[11] == 0
    requires h[12] == h[16] == pfx[0] && h[13] == h[17] == pfx[1] && h[14] == h[18] == pfx[2]
    requires h[15] == c[10] && h[19] == c[11]
    ensures h == BareHeader(pfx, c)
  {
  }

  /** What the far side may hand up for p: everything but type of service, lifetime and checksum is p's. */
  predicate ArrivesAs(p: seq<byte>, r: seq<byte>) {
    && |p| == |r| >= IP_HDR
    && r[1] == 0 && r[8] == 64 && ChecksumVerifies(r[..IP_HDR])
    && forall i :: 0 <= i < |p| && i !in {1, 8, 10, 11} ==> r[i] == p[i]
  }

  /** Compression followed by restoration is the identity up to the three rewritten fields. */
  lemma CompressRestore(pfx: seq<byte>, p: seq<byte>)
    requires |pfx| == 3 && |p| >= IP_HDR && p[0] == 0x45
    requires p[12..15] == pfx && p[16..19] == pfx
    ensures ArrivesAs(p, Restore(pfx, Compress(p)))
  {
    var c := Compress(p);
    var h := BareHeader(pfx, c);
    var r := Restore(pfx, c);
    ComputedChecksumVerifies(h);
    assert r[..IP_HDR] == WithChecksum(h, Checksum(h));
    assert c[IP_COMPRESSED_HDR..] == p[IP_HDR..];
    assert pfx[0] == p[12] == p[16] && pfx[1] == p[13] == p[17] && pfx[2] == p[14] == p[18];
    forall i | 0 <= i < |p| && i !in {1, 8, 10, 11}
      ensures r[i] == p[i]
    {
      if i >= IP_HDR {
        assert r[i] == c[IP_COMPRESSED_HDR..][i - IP_HDR];
      }
    }
  }

  /** The two ends must agree on the prefix: the link rebuilds addresses, it does not carry them. */
  lemma RestoreKeepsOnlyTheLastOctet(pfx: seq<byte>, p: seq<byte>)
    requires |pfx| == 3 && |p| >= IP_HDR && p[0] == 0x45
    ensures ArrivesAs(p, Restore(pfx, Compress(p))) <==> p[12..15] == pfx && p[16..19] == pfx
  {
    var r := Restore(pfx, Compress(p));
    assert r[12..15] == pfx && r[16..19] == pfx;
    if ArrivesAs(p, r) {
      assert p[12..15] == r[12..15] && p[16..19] == r[16..19];
    } else if p[12..15] == pfx && p[16..19] == pfx {
      CompressRestore(pfx, p);
    }
  }
}
