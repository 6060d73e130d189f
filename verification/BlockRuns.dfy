/**
 * Block runs: each transfer is payload, padding and a 4-byte trailer filling whole 512-byte blocks. One read
 * can merge several runs; artosyn_sdio_recv recovers them by walking the trailers back from the end.
 */
module BlockRuns {
  import opened Bytes

  const BLOCK := 512
  const LINK_TRAILER_LEN := 4
  const STAGING := 65536
  const MAX_RUNS := 64

  const TYPE_IP: byte := 0xCC
  const TYPE_CMD: byte := 0xDD
  const TYPE_ACK: byte := 0xEE

  /** The kernel's ALIGN to a whole number of blocks. */
  function BlockUp(n: nat): (r: nat)
    ensures n <= r < n + BLOCK && r % BLOCK == 0
  {
    (n + BLOCK - 1) / BLOCK * BLOCK
  }

  /** One transfer in the abstract: its traffic class and what was packed into it. */
  datatype Packed = Packed(kind: byte, payload: seq<byte>)

  /** img is how artosyn_tx_flush puts p on the wire; the padding is whatever the staging buffer held. */
  predicate Encodes(p: Packed, img: seq<byte>) {
    && |p.payload| + LINK_TRAILER_LEN <= STAGING
    && |img| == BlockUp(|p.payload| + LINK_TRAILER_LEN)
    && img[..|p.payload|] == p.payload
    && img[|img| - 4] == 0 && img[|img| - 3] == p.kind
    && img[|img| - 2] == |p.payload| % 256 && img[|img| - 1] == |p.payload| / 256
  }

  /** Where a recovered run lies in the read. */
  datatype Run = Run(start: nat, size: nat, payload: nat, kind: byte)

  function PayloadField(buf: seq<byte>, pos: nat): (n: nat)
    requires LINK_TRAILER_LEN <= pos <= |buf|
    ensures n < STAGING
  {
    Word(buf[pos - 1], buf[pos - 2])
  }

  function RunSize(buf: seq<byte>, pos: nat): nat
    requires LINK_TRAILER_LEN <= pos <= |buf|
  {
    BlockUp(PayloadField(buf, pos) + LINK_TRAILER_LEN)
  }

  /** The trailer ending at pos is one the walk accepts. */
  predicate TrailerAt(buf: seq<byte>, pos: nat)
    requires LINK_TRAILER_LEN <= pos <= |buf|
  {
    buf[pos - 4] == 0 && RunSize(buf, pos) <= pos && buf[pos - 3] in {TYPE_IP, TYPE_CMD, TYPE_ACK}
  }

  datatype Walk = Walk(pos: nat, runs: seq<Run>)

  function RunAt(buf: seq<byte>, pos: nat): Run
    requires LINK_TRAILER_LEN <= pos <= |buf| && TrailerAt(buf, pos)
  {
    Run(pos - RunSize(buf, pos), RunSize(buf, pos), PayloadField(buf, pos), buf[pos - 3])
  }

  /** The backward walk from pos with n runs already found; runs in stream order. */
  function WalkBack(buf: seq<byte>, pos: nat, n: nat): Walk
    requires pos <= |buf|
    decreases pos
  {
    if pos >= BLOCK && n < MAX_RUNS && TrailerAt(buf, pos) then
      var w := WalkBack(buf, pos - RunSize(buf, pos), n + 1);
      Walk(w.pos, w.runs + [RunAt(buf, pos)])
    else Walk(pos, [])
  }

  /** The fallback: the whole read as one run, its payload clipped to what precedes the last trailer. */
  function LegacyRun(buf: seq<byte>): Run
    requires |buf| >= LINK_TRAILER_LEN
  {
    var pl := PayloadField(buf, |buf|);
    Run(0, |buf|, if pl > |buf| - LINK_TRAILER_LEN then |buf| - LINK_TRAILER_LEN else pl, buf[|buf| - 3])
  }

  function RunsOf(buf: seq<byte>): seq<Run>
    requires |buf| >= LINK_TRAILER_LEN
  {
    var w := WalkBack(buf, |buf|, 0);
    if w.pos != 0 || w.runs == [] then [LegacyRun(buf)] else w.runs
  }

  /** The runs lie end to end from a to b, each with room for its payload and trailer. */
  predicate Tiles(runs: seq<Run>, a: nat, b: nat) {
    if runs == [] then a == b
    else
      && runs[0].start == a
      && runs[0].payload + LINK_TRAILER_LEN <= runs[0].size
      && Tiles(runs[1..], a + runs[0].size, b)
  }

  lemma {:induction false} TilesSnoc(runs: seq<Run>, a: nat, b: nat, r: Run)
    requires Tiles(runs, a, b) && r.start == b && r.payload + LINK_TRAILER_LEN <= r.size
    ensures Tiles(runs + [r], a, b + r.size)
  {
    if runs != [] {
      TilesSnoc(runs[1..], a + runs[0].size, b, r);
      assert (runs + [r])[1..] == runs[1..] + [r];
    }
  }

  lemma {:induction false} TilesInside(runs: seq<Run>, a: nat, b: nat, i: nat)
    requires Tiles(runs, a, b) && i < |runs|
    ensures a <= runs[i].start && runs[i].start + runs[i].size <= b
    ensures runs[i].payload + LINK_TRAILER_LEN <= runs[i].size
  {
    TilesOrdered(runs, a, b);
    if i > 0 {
      TilesInside(runs[1..], a + runs[0].size, b, i - 1);
    } else {
      TilesOrdered(runs[1..], a + runs[0].size, b);
    }
  }

  lemma {:induction false} TilesOrdered(runs: seq<Run>, a: nat, b: nat)
    requires Tiles(runs, a, b)
    ensures a <= b
  {
    if runs != [] {
      TilesOrdered(runs[1..], a + runs[0].size, b);
    }
  }

  lemma {:induction false} WalkTiles(buf: seq<byte>, pos: nat, n: nat)
    requires pos <= |buf|
    ensures WalkBack(buf, pos, n).pos <= pos
    ensures Tiles(WalkBack(buf, pos, n).runs, WalkBack(buf, pos, n).pos, pos)
    decreases pos
  {
    if pos >= BLOCK && n < MAX_RUNS && TrailerAt(buf, pos) {
      var rest := pos - RunSize(buf, pos);
      WalkTiles(buf, rest, n + 1);
      TilesSnoc(WalkBack(buf, rest, n + 1).runs, WalkBack(buf, rest, n + 1).pos, rest, RunAt(buf, pos));
    }
  }

  /** For arbitrary bytes: the runs tile the read, and no dispatched slice leaves its run. */
  lemma {:induction false} RunsTileTheRead(buf: seq<byte>)
    requires |buf| >= LINK_TRAILER_LEN
    ensures RunsOf(buf) != [] && Tiles(RunsOf(buf), 0, |buf|)
    ensures forall r :: r in RunsOf(buf) ==> r.start + r.size <= |buf| && r.payload + LINK_TRAILER_LEN <= r.size
  {
    WalkTiles(buf, |buf|, 0);
    var runs := RunsOf(buf);
    assert Tiles(runs, 0, |buf|) by {
      if runs == [LegacyRun(buf)] {
        assert runs[1..] == [];
      }
    }
    forall r | r in runs
      ensures r.start + r.size <= |buf| && r.payload + LINK_TRAILER_LEN <= r.size
    {
      var i :| 0 <= i < |runs| && runs[i] == r;
      TilesInside(runs, 0, |buf|, i);
    }
  }

  /** The walk as the driver runs it: runs found back to front, at most 64. */
  method WalkTrailers(buf: seq<byte>) returns (pos: nat, runs: seq<Run>)
    requires LINK_TRAILER_LEN <= |buf|
    ensures Walk(pos, runs) == WalkBack(buf, |buf|, 0)
  {
    hide BlockUp, WalkBack, Word, RunAt;
    pos := |buf|;
    runs := [];
    WalkSoFar(buf, |buf|, 0, []);
    while pos >= BLOCK && |runs| < MAX_RUNS
      invariant pos <= |buf|
      invariant WalkBack(buf, |buf|, 0) == Walk(WalkBack(buf, pos, |runs|).pos, WalkBack(buf, pos, |runs|).runs + runs)
    {
      var kind := buf[pos - 3];
      var pl: nat := Word(buf[pos - 1], buf[pos - 2]);
      var rsize := BlockUp(pl + LINK_TRAILER_LEN);
      WalkSoFar(buf, pos, |runs|, runs);
      if buf[pos - 4] != 0 || rsize > pos || kind !in {TYPE_IP, TYPE_CMD, TYPE_ACK} {
        break;
      }
      runs := [Run(pos - rsize, rsize, pl, kind)] + runs;
      pos := pos - rsize;
    }
    WalkSoFar(buf, pos, |runs|, runs);
  }

  /** One step of the walk, with the runs already found kept behind. */
  lemma {:induction false} WalkSoFar(buf: seq<byte>, pos: nat, n: nat, runs: seq<Run>)
    requires pos <= |buf|
    ensures var w := WalkBack(buf, pos, n);
            if pos >= BLOCK && n < MAX_RUNS && TrailerAt(buf, pos) then
              var t, size := WalkBack(buf, pos - RunSize(buf, pos), n + 1), RunSize(buf, pos);
              w.pos == t.pos
              && w.runs + runs == t.runs + ([Run(pos - size, size, PayloadField(buf, pos), buf[pos - 3])] + runs)
            else w == Walk(pos, []) && w.runs + runs == runs
  {
    if pos >= BLOCK && n < MAX_RUNS && TrailerAt(buf, pos) {
      var t := WalkBack(buf, pos - RunSize(buf, pos), n + 1);
      assert t.runs + [RunAt(buf, pos)] + runs == t.runs + ([RunAt(buf, pos)] + runs);
    }
  }

  /** Run recovery with the legacy fallback for anything the walk does not tile exactly. */
  method RecoverRuns(buf: seq<byte>) returns (runs: seq<Run>)
    requires LINK_TRAILER_LEN <= |buf|
    ensures runs == RunsOf(buf) && Tiles(runs, 0, |buf|)
    ensures forall r :: r in runs ==> r.start + r.size <= |buf| && r.payload + LINK_TRAILER_LEN <= r.size
  {
    var pos, len := 0, |buf|;
    pos, runs := WalkTrailers(buf);
    if pos != 0 || runs == [] {
      var pl: nat := Word(buf[len - 1], buf[len - 2]);
      runs := [Run(0, len, if pl > len - LINK_TRAILER_LEN then len - LINK_TRAILER_LEN else pl, buf[len - 3])];
    }
    RunsTileTheRead(buf);
  }

  // ---- the walk inverts the encoding ----

  /** What the read loop hands to its dispatcher, in order: class, payload and the run's whole image. */
  datatype Piece = Piece(kind: byte, payload: seq<byte>, image: seq<byte>)

  function PieceOf(buf: seq<byte>, r: Run): Piece
    requires r.start + r.size <= |buf| && r.payload <= r.size
  {
    Piece(r.kind, buf[r.start..r.start + r.payload], buf[r.start..r.start + r.size])
  }

  predicate AllEncode(sent: seq<Packed>, imgs: seq<seq<byte>>) {
    |sent| == |imgs| && forall i :: 0 <= i < |sent| ==>
      Encodes(sent[i], imgs[i]) && sent[i].kind in {TYPE_IP, TYPE_CMD, TYPE_ACK}
  }

  /** The run of the k-th transfer, when the images lie end to end. */
  function RunOfImage(sent: seq<Packed>, imgs: seq<seq<byte>>, k: nat): Run
    requires |sent| == |imgs| && k < |imgs|
  {
    Run(|Concat(imgs[..k])|, |imgs[k]|, |sent[k].payload|, sent[k].kind)
  }

  lemma {:induction false} ImagePosition(imgs: seq<seq<byte>>, k: nat)
    requires k < |imgs|
    ensures var a := |Concat(imgs[..k])|;
            && Concat(imgs[..k + 1]) == Concat(imgs[..k]) + imgs[k]
            && a + |imgs[k]| <= |Concat(imgs)|
            && Concat(imgs)[a..a + |imgs[k]|] == imgs[k]
  {
    assert imgs[..k + 1] == imgs[..k] + [imgs[k]];
    ConcatSnoc(imgs[..k], imgs[k]);
    assert imgs == imgs[..k + 1] + imgs[k + 1..];
    ConcatSplit(imgs[..k + 1], imgs[k + 1..]);
  }

  lemma TrailerOfImage(p: Packed, img: seq<byte>)
    requires Encodes(p, img) && p.kind in {TYPE_IP, TYPE_CMD, TYPE_ACK}
    ensures |img| >= BLOCK && TrailerAt(img, |img|) && RunSize(img, |img|) == |img|
    ensures RunAt(img, |img|) == Run(0, |img|, |p.payload|, p.kind)
  {
    var n := |p.payload|;
    assert Word(img[|img| - 1], img[|img| - 2]) == n;
  }

  lemma TrailerShift(buf: seq<byte>, a: nat, img: seq<byte>)
    requires a + |img| <= |buf| && buf[a..a + |img|] == img && LINK_TRAILER_LEN <= |img|
    requires TrailerAt(img, |img|)
    ensures TrailerAt(buf, a + |img|) && RunSize(buf, a + |img|) == RunSize(img, |img|)
    ensures var r := RunAt(img, |img|); RunAt(buf, a + |img|) == r.(start := r.start + a)
  {
    hide BlockUp, Word;
    var pos := a + |img|;
    assert buf[pos - 1] == img[|img| - 1] && buf[pos - 2] == img[|img| - 2];
    assert buf[pos - 3] == img[|img| - 3] && buf[pos - 4] == img[|img| - 4];
  }

  lemma RunOfSize(buf: seq<byte>, pos: nat)
    requires LINK_TRAILER_LEN <= pos <= |buf| && TrailerAt(buf, pos)
    ensures RunSize(buf, pos) <= pos && RunAt(buf, pos).start == pos - RunSize(buf, pos)
  {
  }

  /** At the end of the k-th image the walk reads back that image's run. */
  lemma TrailerReadBack(sent: seq<Packed>, imgs: seq<seq<byte>>, k: nat)
    requires AllEncode(sent, imgs) && k < |imgs|
    ensures var buf, pos := Concat(imgs), |Concat(imgs[..k + 1])|;
            && BLOCK <= pos <= |buf|
            && TrailerAt(buf, pos) && RunAt(buf, pos) == RunOfImage(sent, imgs, k)
            && pos - RunSize(buf, pos) == |Concat(imgs[..k])|
  {
    assert Encodes(sent[k], imgs[k]);
    hide *;
    ImagePosition(imgs, k);
    ReadBackAt(Concat(imgs), |Concat(imgs[..k])|, sent[k], imgs[k]);
    RunOfImageIs(sent, imgs, k);
  }

  lemma RunOfImageIs(sent: seq<Packed>, imgs: seq<seq<byte>>, k: nat)
    requires |sent| == |imgs| && k < |imgs|
    ensures RunOfImage(sent, imgs, k) == Run(|Concat(imgs[..k])|, |imgs[k]|, |sent[k].payload|, sent[k].kind)
  {
  }

  lemma ReadBackAt(buf: seq<byte>, a: nat, p: Packed, img: seq<byte>)
    requires Encodes(p, img) && p.kind in {TYPE_IP, TYPE_CMD, TYPE_ACK}
    requires a + |img| <= |buf| && buf[a..a + |img|] == img
    ensures var pos := a + |img|;
            && BLOCK <= pos && TrailerAt(buf, pos)
            && RunAt(buf, pos) == Run(a, |img|, |p.payload|, p.kind) && pos - RunSize(buf, pos) == a
  {
    TrailerOfImage(p, img);
    hide Encodes, TrailerAt, RunAt, RunSize;
    TrailerShift(buf, a, img);
    RunOfSize(buf, a + |img|);
  }

  /** The runs of the images lo up to hi. */
  function RunsOfImages(sent: seq<Packed>, imgs: seq<seq<byte>>, lo: nat, hi: nat): (runs: seq<Run>)
    requires |sent| == |imgs| && lo <= hi <= |imgs|
    ensures |runs| == hi - lo
    decreases hi
  {
    if lo == hi then [] else RunsOfImages(sent, imgs, lo, hi - 1) + [RunOfImage(sent, imgs, hi - 1)]
  }

  lemma {:induction false} RunsOfImagesAt(sent: seq<Packed>, imgs: seq<seq<byte>>, lo: nat, hi: nat, i: nat)
    requires |sent| == |imgs| && lo <= hi <= |imgs| && i < hi - lo
    ensures RunsOfImages(sent, imgs, lo, hi)[i] == RunOfImage(sent, imgs, lo + i)
    decreases hi
  {
    if i < hi - 1 - lo {
      RunsOfImagesAt(sent, imgs, lo, hi - 1, i);
    }
  }

  lemma RunsOfImagesSnoc(sent: seq<Packed>, imgs: seq<seq<byte>>, lo: nat, hi: nat)
    requires |sent| == |imgs| && lo <= hi <= |imgs|
    ensures RunsOfImages(sent, imgs, lo, hi) ==
            if lo == hi then [] else RunsOfImages(sent, imgs, lo, hi - 1) + [RunOfImage(sent, imgs, hi - 1)]
  {
  }

  lemma {:induction false} WalkOne(buf: seq<byte>, pos: nat, n: nat)
    requires BLOCK <= pos <= |buf| && TrailerAt(buf, pos)
    ensures n < MAX_RUNS ==>
              var w := WalkBack(buf, pos - RunSize(buf, pos), n + 1);
              WalkBack(buf, pos, n) == Walk(w.pos, w.runs + [RunAt(buf, pos)])
    ensures n >= MAX_RUNS ==> WalkBack(buf, pos, n) == Walk(pos, [])
  {
  }

  /** Where image k begins in the merged read. */
  function StartOf(imgs: seq<seq<byte>>, k: nat): nat
    requires k <= |imgs|
  {
    |Concat(imgs[..k])|
  }

  /** The first image a walk from the end of image k still takes, n runs being taken already. */
  function FirstTaken(k: nat, n: nat): (lo: nat)
    requires n <= MAX_RUNS
    ensures lo <= k
  {
    if k < MAX_RUNS - n then 0 else k - (MAX_RUNS - n)
  }

  lemma WalkOneImage(sent: seq<Packed>, imgs: seq<seq<byte>>, k: nat, n: nat)
    requires AllEncode(sent, imgs) && 0 < k <= |imgs|
    ensures StartOf(imgs, k - 1) <= StartOf(imgs, k) <= |Concat(imgs)|
    ensures n < MAX_RUNS ==>
              var w := WalkBack(Concat(imgs), StartOf(imgs, k - 1), n + 1);
              WalkBack(Concat(imgs), StartOf(imgs, k), n) == Walk(w.pos, w.runs + [RunOfImage(sent, imgs, k - 1)])
    ensures n >= MAX_RUNS ==> WalkBack(Concat(imgs), StartOf(imgs, k), n) == Walk(StartOf(imgs, k), [])
  {
    TrailerReadBack(sent, imgs, k - 1);
    WalkOne(Concat(imgs), |Concat(imgs[..k])|, n);
  }

  lemma WalkAtStart(imgs: seq<seq<byte>>, n: nat)
    ensures StartOf(imgs, 0) == 0 && WalkBack(Concat(imgs), 0, n) == Walk(0, [])
  {
    assert imgs[..0] == [];
  }

  lemma FirstTakenStep(k: nat, n: nat)
    requires n <= MAX_RUNS
    ensures k == 0 || n == MAX_RUNS ==> FirstTaken(k, n) == k
    ensures k > 0 && n < MAX_RUNS ==> FirstTaken(k, n) == FirstTaken(k - 1, n + 1) < k
  {
  }

  /** The walk from the end of image k finds the last runs before it, as many as the 64-run table still takes. */
  lemma {:induction false} WalkOfImages(sent: seq<Packed>, imgs: seq<seq<byte>>, k: nat, n: nat)
    requires AllEncode(sent, imgs) && k <= |imgs| && n <= MAX_RUNS
    ensures StartOf(imgs, k) <= |Concat(imgs)|
    ensures var lo := FirstTaken(k, n);
            WalkBack(Concat(imgs), StartOf(imgs, k), n) == Walk(StartOf(imgs, lo), RunsOfImages(sent, imgs, lo, k))
    decreases k
  {
    RunsOfImagesSnoc(sent, imgs, FirstTaken(k, n), k);
    FirstTakenStep(k, n);
    hide *;
    if k == 0 {
      WalkAtStart(imgs, n);
      return;
    }
    WalkOneImage(sent, imgs, k, n);
    if n < MAX_RUNS {
      WalkOfImages(sent, imgs, k - 1, n + 1);
    }
  }

  lemma {:induction false} ConcatEmpty(imgs: seq<seq<byte>>, k: nat)
    requires k <= |imgs| && forall i :: 0 <= i < |imgs| ==> imgs[i] != []
    ensures Concat(imgs[..k]) == [] <==> k == 0
  {
    if k > 0 {
      ImagePosition(imgs, k - 1);
    }
  }

  /** Up to 64 merged runs come back exactly, in stream order; the 65th sends the read to the legacy fallback. */
  lemma {:induction false} WalkInvertsEncoding(sent: seq<Packed>, imgs: seq<seq<byte>>)
    requires AllEncode(sent, imgs) && sent != []
    ensures |Concat(imgs)| >= BLOCK
    ensures RunsOf(Concat(imgs)) == RunsOfImages(sent, imgs, 0, |sent|) <==> |sent| <= 64
    ensures |sent| > 64 ==> RunsOf(Concat(imgs)) == [LegacyRun(Concat(imgs))]
  {
    var n := |sent|;
    assert imgs[..n] == imgs;
    TrailerReadBack(sent, imgs, n - 1);
    WalkOfImages(sent, imgs, n, 0);
    forall i | 0 <= i < |imgs|
      ensures imgs[i] != []
    {
      assert Encodes(sent[i], imgs[i]);
    }
    ConcatEmpty(imgs, if n < MAX_RUNS then 0 else n - MAX_RUNS);
    hide Concat, WalkBack, AllEncode;
    if n > MAX_RUNS {
      assert |RunsOf(Concat(imgs))| == 1;
    }
  }

  /** The fallback run is the whole read under the type and length of its last trailer. */
  lemma {:induction false} LegacyReadsLastTrailer(before: seq<byte>, p: Packed, img: seq<byte>)
    requires Encodes(p, img)
    ensures LegacyRun(before + img) == Run(0, |before| + |img|, |p.payload|, p.kind)
  {
    var buf := before + img;
    assert |img| >= 4 && buf[|buf| - 1] == img[|img| - 1] && buf[|buf| - 2] == img[|img| - 2];
    assert buf[|buf| - 3] == img[|img| - 3];
    hide BlockUp;
  }

  /** So a read of up to 64 transfers dispatches exactly what was packed into them. */
  lemma {:induction false} PiecesOfRead(sent: seq<Packed>, imgs: seq<seq<byte>>, i: nat)
    requires AllEncode(sent, imgs) && 0 < |sent| <= MAX_RUNS && i < |sent|
    ensures |Concat(imgs)| >= BLOCK && |RunsOf(Concat(imgs))| == |sent|
    ensures var r := RunsOf(Concat(imgs))[i];
            && r.start + r.size <= |Concat(imgs)| && r.payload <= r.size
            && PieceOf(Concat(imgs), r) == Piece(sent[i].kind, sent[i].payload, imgs[i])
  {
    assert Encodes(sent[i], imgs[i]);
    hide Concat, AllEncode;
    WalkInvertsEncoding(sent, imgs);
    RunsOfImagesAt(sent, imgs, 0, |sent|, i);
    ImagePosition(imgs, i);
    PieceOfImage(Concat(imgs), |Concat(imgs[..i])|, sent[i], imgs[i]);
  }

  lemma PieceOfImage(buf: seq<byte>, a: nat, p: Packed, img: seq<byte>)
    requires a + |img| <= |buf| && buf[a..a + |img|] == img && Encodes(p, img)
    ensures PieceOf(buf, Run(a, |img|, |p.payload|, p.kind)) == Piece(p.kind, p.payload, img)
  {
    assert buf[a..a + |p.payload|] == img[..|p.payload|];
  }
}
