/**
 * Pinning through the mapping cache, and its first client, the scaler's dma-buf batches (modules/ar_scaler.c):
 * what a batch resolved is still mapped, in a direction that serves its use, when the hardware is started.
 */
module BatchPin {
  import opened Bytes
  import opened BufCache

  const U32 := 0x1_0000_0000
  const EINVAL := -22
  const ERANGE := -34

  const SCALER_DMABUF_BATCH_MAX := 8

  // ---- pinning ----

  /** A slot a batch resolved, the buffer it found there, and the direction it is to be used in. */
  datatype Pin = Pin(slot: nat, db: nat, dir: Dir)

  /** The slots stamped since the cache's clock read t0. */
  function Recent(c: Cache, t0: nat): set<nat>
    requires c.Sized()
  {
    set i | 0 <= i < ENTRIES && c.stamp[i] > t0
  }

  /** The slot still holds the pin's buffer, mapped in a direction that serves its use. */
  predicate Serves(s: Slot, p: Pin) {
    s.Busy? && s.db == p.db && (s.dir == p.dir || s.dir == Both)
  }

  /** Every pinned slot has been stamped since t0 and still serves its pin. */
  predicate Holding(c: Cache, t0: nat, pins: seq<Pin>) {
    c.Sized() && forall i :: 0 <= i < |pins| ==>
      pins[i].slot < ENTRIES && c.stamp[pins[i].slot] > t0 && Serves(c.ent[pins[i].slot], pins[i])
  }

  function All(n: nat): (r: set<nat>)
    ensures |r| == n && forall i: nat :: i in r <==> i < n
  {
    if n == 0 then {} else All(n - 1) + {n - 1}
  }

  /** While fewer slots than the cache has were stamped since t0, eviction takes an older one. */
  lemma EvictionIsOlder(c: Cache, t0: nat)
    requires c.Sized() && |Recent(c, t0)| < ENTRIES
    ensures c.stamp[Oldest(c.stamp, ENTRIES)] <= t0
  {
    var older := All(ENTRIES) - Recent(c, t0);
    assert Recent(c, t0) <= All(ENTRIES);
    assert older != {} by {
      assert Recent(c, t0) != All(ENTRIES);
    }
    var i :| i in older;
    assert c.stamp[i] <= t0;
  }

  /**
   * Only the slot a lookup lands in can lose its buffer, and then to this lookup's buffer or to none; a slot that
   * keeps its buffer only ever widens its direction.
   */
  lemma LookupTable(segs: nat -> Seg, c: Cache, db: nat, dir: Dir, err: int)
    requires c.Sized()
    ensures var (d, r) := MapFd(segs, c, db, dir, err);
            var k := Victim(c.ent, c.stamp, db);
            && d.Sized() && (r.Ok? ==> r.slot == k && d.stamp == c.stamp[k := c.tick + 1] && d.tick == c.tick + 1)
            && (r.Ok? ==> Serves(d.ent[k], Pin(k, db, dir)))
            && (r.Ok? && c.ent[k].Busy? && c.ent[k].db == db ==> CanServe(d.ent[k].dir, c.ent[k].dir))
            && (forall i :: 0 <= i < ENTRIES && i != k ==> d.ent[i] == c.ent[i])
  {
    HitOrRemap(segs, c, db, dir, err);
    var k := Victim(c.ent, c.stamp, db);
    RemapTable(segs, c, k, db, if Cached(c.ent, db) then Both else dir, err);
  }

  /**
   * The counting step: a lookup that succeeds keeps every earlier pin of the batch, pins its own buffer, and
   * adds at most one to the slots stamped since the batch began.
   */
  lemma {:induction false} LookupKeepsPins(segs: nat -> Seg, c: Cache, t0: nat, pins: seq<Pin>, db: nat,
                                            dir: Dir, err: int)
    requires Inv(segs, c) && t0 <= c.tick && Holding(c, t0, pins) && |Recent(c, t0)| < ENTRIES
    ensures var (d, r) := MapFd(segs, c, db, dir, err);
            r.Ok? ==> Inv(segs, d) && t0 <= d.tick && Holding(d, t0, pins + [Pin(r.slot, db, dir)])
                      && |Recent(d, t0)| <= |Recent(c, t0)| + 1
  {
    var (d, r) := MapFd(segs, c, db, dir, err);
    var k := Victim(c.ent, c.stamp, db);
    LookupTable(segs, c, db, dir, err);
    MapFdKeepsInv(segs, c, db, dir, err);
    EvictionIsOlder(c, t0);
    hide MapFd, Inv;
    if r.Ok? {
      assert Recent(d, t0) == Recent(c, t0) + {k};
      forall i | 0 <= i < |pins|
        ensures Serves(d.ent[pins[i].slot], pins[i]) && d.stamp[pins[i].slot] > t0
      {
        if pins[i].slot == k {
          SlotOfPin(c, k, db);
        }
      }
    }
  }

  /** The slot a lookup lands in is the buffer's own, or free, or the oldest. */
  lemma SlotOfPin(c: Cache, k: nat, db: nat)
    requires c.Sized() && k == Victim(c.ent, c.stamp, db)
    ensures (c.ent[k].Busy? && c.ent[k].db == db) || c.ent[k].Free? || k == Oldest(c.stamp, ENTRIES)
  {
  }

  lemma NothingPinnedYet(segs: nat -> Seg, c: Cache)
    requires Inv(segs, c)
    ensures Holding(c, c.tick, []) && |Recent(c, c.tick)| == 0
  {
    assert Recent(c, c.tick) == {};
  }

  // ---- the scaler's operations ----

  /** struct ar_scaler_op, the fields the resolver reads and the two it fills in. */
  datatype Op = Op(srcphy: nat, dstphy: nat, srcw: nat, srch: nat, srcstride: nat, dstw: nat, dsth: nat,
                   dststride: nat, channels: nat, cropX: nat, cropY: nat, cropW: nat, cropH: nat)

  datatype DmabufOp = DmabufOp(op: Op, srcOff: nat, dstOff: nat)

  /** What looking an fd up and mapping its buffer would give: no such buffer, or the buffer and the map's result. */
  datatype Fd = BadFd(errno: Errno) | Fd(db: nat, mapErr: int)

  function Lookup(segs: nat -> Seg, c: Cache, fd: Fd, dir: Dir): (Cache, Result)
    requires c.Sized()
  {
    match fd
    case BadFd(errno) => (c, Err(errno))
    case Fd(db, mapErr) => MapFd(segs, c, db, dir, mapErr)
  }

  /** The checks made before any buffer is looked up. */
  predicate Sensible(d: DmabufOp) {
    var op := d.op;
    && op.srcphy == 0 && op.dstphy == 0
    && d.srcOff % 16 == 0 && d.dstOff % 16 == 0
    && op.srch != 0 && op.srcstride != 0 && op.dsth != 0 && op.dststride != 0 && op.channels != 0
    && op.srcw * op.channels <= op.srcstride && op.dstw * op.channels <= op.dststride
    && op.cropX + op.cropW <= op.srcw && op.cropY + op.cropH <= op.srch
  }

  datatype Resolved = Resolved(op: Op, src: Pin, dst: Pin)

  datatype Outcome = Fine(value: Resolved) | Bad(errno: Errno)

  /** ar_scaler_resolve_dmabuf_op. */
  function ResolveOp(segs: nat -> Seg, c: Cache, d: DmabufOp, src: Fd, dst: Fd): (r: (Cache, Outcome))
    requires c.Sized()
    ensures r.0.Sized()
  {
    if !Sensible(d) then (c, Bad(EINVAL))
    else
      LookupSized(segs, c, src, ToDevice);
      var (c1, s) := Lookup(segs, c, src, ToDevice);
      if s.Err? then (c1, Bad(s.errno))
      else
        LookupSized(segs, c1, dst, FromDevice);
        var (c2, t) := Lookup(segs, c1, dst, FromDevice);
        if t.Err? then (c2, Bad(t.errno))
        else (c2, PlaceOp(c2, d, Pin(s.slot, src.db, ToDevice), Pin(t.slot, dst.db, FromDevice)))
  }

  function SegAt(c: Cache, k: nat): Seg
    requires c.Sized()
  {
    if k < ENTRIES && c.ent[k].Busy? then c.ent[k].seg else Seg(0, 0)
  }

  /** The bounds and address checks, read after both lookups. */
  function PlaceOp(c: Cache, d: DmabufOp, src: Pin, dst: Pin): Outcome
    requires c.Sized()
  {
    var s, t := SegAt(c, src.slot), SegAt(c, dst.slot);
    if d.srcOff + d.op.srch * d.op.srcstride > s.size || d.dstOff + d.op.dsth * d.op.dststride > t.size then Bad(EINVAL)
    else if s.base + d.srcOff >= U32 || t.base + d.dstOff >= U32 then Bad(ERANGE)
    else Fine(Resolved(d.op.(srcphy := s.base + d.srcOff, dstphy := t.base + d.dstOff), src, dst))
  }

  lemma LookupSized(segs: nat -> Seg, c: Cache, fd: Fd, dir: Dir)
    requires c.Sized()
    ensures Lookup(segs, c, fd, dir).0.Sized()
    ensures Lookup(segs, c, fd, dir).1.Ok? ==> fd.Fd? && Lookup(segs, c, fd, dir).1.slot < ENTRIES
  {
    if fd.Fd? {
      LookupTable(segs, c, fd.db, dir, fd.mapErr);
    }
  }

  datatype Batch = Batch(cache: Cache, ops: seq<Resolved>, errno: int)

  /** One element of a batch: the operation and what its two fds give when they are looked up. */
  datatype Request = Request(d: DmabufOp, src: Fd, dst: Fd)

  /** One turn of the resolving loop; after a failure there are no more. */
  function NextBatch(segs: nat -> Seg, b: Batch, q: Request): (r: Batch)
    requires b.cache.Sized()
    ensures r.cache.Sized()
  {
    if b.errno != 0 then b
    else
      var (d, o) := ResolveOp(segs, b.cache, q.d, q.src, q.dst);
      if o.Bad? then Batch(d, b.ops, o.errno) else Batch(d, b.ops + [o.value], 0)
  }

  /** The resolving loop over the first n operations. */
  function ResolveAll(segs: nat -> Seg, c: Cache, rs: seq<Request>, n: nat): (b: Batch)
    requires c.Sized() && n <= |rs|
    ensures b.cache.Sized()
  {
    if n == 0 then Batch(c, [], 0) else NextBatch(segs, ResolveAll(segs, c, rs, n - 1), rs[n - 1])
  }

  /** What ar_scaler_start_batch_dmabuf hands to the hardware: all of the batch, or nothing. */
  function Issued(segs: nat -> Seg, c: Cache, rs: seq<Request>, reserved: nat): seq<Resolved>
    requires c.Sized()
  {
    if |rs| == 0 || |rs| > SCALER_DMABUF_BATCH_MAX || reserved != 0 then []
    else
      var b := ResolveAll(segs, c, rs, |rs|);
      if b.errno != 0 then [] else b.ops
  }

  /** The n bytes at phys lie in the pin's buffer, which its slot holds mapped for its use, referenced, right now. */
  ghost predicate InsideMapped(segs: nat -> Seg, c: Cache, p: Pin, phys: nat, n: nat) {
    && c.Sized() && p.slot < ENTRIES && Serves(c.ent[p.slot], p)
    && c.held[p.db] == 1
    && segs(p.db).base <= phys && phys + n <= segs(p.db).base + segs(p.db).size
  }

  /** The operation's images lie inside the buffers its pins name, at 32-bit addresses. */
  ghost predicate OpInside(segs: nat -> Seg, r: Resolved) {
    && r.src.dir == ToDevice && r.dst.dir == FromDevice
    && r.op.srcphy < U32 && r.op.dstphy < U32
    && segs(r.src.db).base <= r.op.srcphy
    && r.op.srcphy + r.op.srch * r.op.srcstride <= segs(r.src.db).base + segs(r.src.db).size
    && segs(r.dst.db).base <= r.op.dstphy
    && r.op.dstphy + r.op.dsth * r.op.dststride <= segs(r.dst.db).base + segs(r.dst.db).size
  }

  function PinsOf(ops: seq<Resolved>): seq<Pin> {
    if ops == [] then [] else PinsOf(ops[..|ops| - 1]) + [ops[|ops| - 1].src, ops[|ops| - 1].dst]
  }

  lemma {:induction false} PinsOfIndex(ops: seq<Resolved>, i: nat)
    requires i < |ops|
    ensures |PinsOf(ops)| == 2 * |ops| && PinsOf(ops)[2 * i] == ops[i].src && PinsOf(ops)[2 * i + 1] == ops[i].dst
    decreases |ops|
  {
    var n := |ops| - 1;
    if n > 0 {
      PinsOfIndex(ops[..n], if i < n then i else 0);
    }
  }

  /** What a batch keeps while it resolves: everything resolved so far is mapped, and few slots are recent. */
  ghost predicate BatchInv(segs: nat -> Seg, c: Cache, t0: nat, ops: seq<Resolved>) {
    && Inv(segs, c) && t0 <= c.tick
    && Holding(c, t0, PinsOf(ops)) && |Recent(c, t0)| <= 2 * |ops|
    && forall i :: 0 <= i < |ops| ==> OpInside(segs, ops[i])
  }

  lemma {:induction false} LookupInBatch(segs: nat -> Seg, c: Cache, t0: nat, pins: seq<Pin>, fd: Fd, dir: Dir)
    requires Inv(segs, c) && t0 <= c.tick && Holding(c, t0, pins) && |Recent(c, t0)| < ENTRIES
    ensures var (d, r) := Lookup(segs, c, fd, dir);
            r.Ok? ==> fd.Fd? && Inv(segs, d) && t0 <= d.tick && Holding(d, t0, pins + [Pin(r.slot, fd.db, dir)])
                      && |Recent(d, t0)| <= |Recent(c, t0)| + 1
  {
    if fd.Fd? {
      LookupKeepsPins(segs, c, t0, pins, fd.db, dir, fd.mapErr);
    }
  }

  /** What the pins of a batch say about the last one. */
  lemma PinnedSegment(segs: nat -> Seg, c: Cache, t0: nat, pins: seq<Pin>, i: nat)
    requires Inv(segs, c) && Holding(c, t0, pins) && i < |pins|
    ensures pins[i].slot < ENTRIES && SegAt(c, pins[i].slot) == segs(pins[i].db) && c.held[pins[i].db] == 1
  {
    FindUnique(c.ent, pins[i].slot);
    assert c.held[pins[i].db] == if Cached(c.ent, pins[i].db) then 1 else 0;
  }

  lemma PlaceInside(segs: nat -> Seg, c: Cache, d: DmabufOp, src: Pin, dst: Pin)
    requires c.Sized() && SegAt(c, src.slot) == segs(src.db) && SegAt(c, dst.slot) == segs(dst.db)
    requires src.dir == ToDevice && dst.dir == FromDevice
    ensures var o := PlaceOp(c, d, src, dst);
            o.Fine? ==> OpInside(segs, o.value) && o.value.src == src && o.value.dst == dst
                        && o.value.op == d.op.(srcphy := segs(src.db).base + d.srcOff,
                                               dstphy := segs(dst.db).base + d.dstOff)
  {
  }

  /** The pins hold, and at most k slots have been stamped since t0. */
  ghost predicate Pinned(segs: nat -> Seg, c: Cache, t0: nat, pins: seq<Pin>, k: nat) {
    Inv(segs, c) && t0 <= c.tick && Holding(c, t0, pins) && |Recent(c, t0)| <= k
  }

  lemma {:induction false} LookupPins(segs: nat -> Seg, c: Cache, t0: nat, pins: seq<Pin>, k: nat, fd: Fd, dir: Dir)
    requires c.Sized() && Pinned(segs, c, t0, pins, k) && k < ENTRIES
    ensures var (d, r) := Lookup(segs, c, fd, dir);
            d.Sized() && (r.Ok? ==> fd.Fd? && Pinned(segs, d, t0, pins + [Pin(r.slot, fd.db, dir)], k + 1))
  {
    LookupSized(segs, c, fd, dir);
    LookupInBatch(segs, c, t0, pins, fd, dir);
    hide Lookup, Inv, Holding, Recent;
  }

  /** An operation that resolves pins its two buffers beside what was pinned. */
  lemma {:induction false} ResolvePins(segs: nat -> Seg, c: Cache, t0: nat, pins: seq<Pin>, k: nat, q: Request)
    requires c.Sized() && Pinned(segs, c, t0, pins, k) && k + 2 <= ENTRIES
    ensures var (d, o) := ResolveOp(segs, c, q.d, q.src, q.dst);
            o.Fine? ==> o.value.src.dir == ToDevice && o.value.dst.dir == FromDevice
                        && q.src.Fd? && q.dst.Fd? && o.value.src.db == q.src.db && o.value.dst.db == q.dst.db
                        && Pinned(segs, d, t0, pins + [o.value.src, o.value.dst], k + 2)
                        && PlaceOp(d, q.d, o.value.src, o.value.dst) == o
  {
    hide Pinned, Lookup;
    LookupPins(segs, c, t0, pins, k, q.src, ToDevice);
    var (c1, s) := Lookup(segs, c, q.src, ToDevice);
    if s.Ok? {
      var a, b := Pin(s.slot, q.src.db, ToDevice), ResolveOp(segs, c, q.d, q.src, q.dst).1;
      LookupPins(segs, c1, t0, pins + [a], k + 1, q.dst, FromDevice);
      var (c2, t) := Lookup(segs, c1, q.dst, FromDevice);
      if b.Fine? {
        assert b.value.src == a && b.value.dst == Pin(t.slot, q.dst.db, FromDevice);
        assert pins + [a] + [b.value.dst] == pins + [a, b.value.dst];
      }
    }
  }

  lemma {:induction false} ResolveKeepsBatch(segs: nat -> Seg, c: Cache, t0: nat, ops: seq<Resolved>, q: Request)
    requires BatchInv(segs, c, t0, ops) && 2 * |ops| + 2 <= ENTRIES
    ensures var (d, o) := ResolveOp(segs, c, q.d, q.src, q.dst);
            o.Fine? ==> BatchInv(segs, d, t0, ops + [o.value])
  {
    var (d, o) := ResolveOp(segs, c, q.d, q.src, q.dst);
    var pins := PinsOf(ops);
    ResolvePins(segs, c, t0, pins, 2 * |ops|, q);
    if o.Fine? {
      hide ResolveOp, Inv, PlaceOp, Recent, OpInside, Holding, PinsOf;
      var src, dst := o.value.src, o.value.dst;
      var all := pins + [src, dst];
      assert all[|pins|] == src && all[|pins| + 1] == dst;
      PinnedSegment(segs, d, t0, all, |pins|);
      PinnedSegment(segs, d, t0, all, |pins| + 1);
      PlaceInside(segs, d, q.d, src, dst);
      PinsSnoc(ops, o.value);
    }
  }

  lemma PinsSnoc(ops: seq<Resolved>, r: Resolved)
    ensures PinsOf(ops + [r]) == PinsOf(ops) + [r.src, r.dst]
  {
    assert (ops + [r])[..|ops|] == ops;
  }

  lemma BatchBegins(segs: nat -> Seg, c: Cache)
    requires Inv(segs, c)
    ensures c.Sized() && Good(segs, Batch(c, [], 0), c.tick, 0)
  {
    NothingPinnedYet(segs, c);
  }

  /** After n operations: a failure, or n of them resolved and pinned. */
  ghost predicate Good(segs: nat -> Seg, b: Batch, t0: nat, n: nat) {
    b.errno == 0 ==> |b.ops| == n && BatchInv(segs, b.cache, t0, b.ops)
  }

  lemma {:induction false} NextKeepsGood(segs: nat -> Seg, b: Batch, t0: nat, n: nat, q: Request)
    requires b.cache.Sized() && Good(segs, b, t0, n) && 2 * n + 2 <= ENTRIES
    ensures Good(segs, NextBatch(segs, b, q), t0, n + 1)
  {
    if b.errno == 0 {
      ResolveKeepsBatch(segs, b.cache, t0, b.ops, q);
      hide ResolveOp, BatchInv;
    }
  }

  lemma {:induction false} ResolveAllIsGood(segs: nat -> Seg, c: Cache, rs: seq<Request>, n: nat)
    requires Inv(segs, c) && n <= |rs| && 2 * n < ENTRIES
    ensures Good(segs, ResolveAll(segs, c, rs, n), c.tick, n)
  {
    BatchBegins(segs, c);
    hide NextBatch, Good, Inv;
    if n > 0 {
      ResolveAllIsGood(segs, c, rs, n - 1);
      NextKeepsGood(segs, ResolveAll(segs, c, rs, n - 1), c.tick, n - 1, rs[n - 1]);
    }
  }

  lemma NothingAfterFailure(segs: nat -> Seg, b: Batch, q: Request)
    requires b.cache.Sized()
    ensures b.errno != 0 ==> NextBatch(segs, b, q) == b
  {
  }

  /** The operation's images lie in segments mapped for reading and for writing, at 32-bit addresses. */
  ghost predicate OpPinned(segs: nat -> Seg, c: Cache, r: Resolved) {
    && InsideMapped(segs, c, r.src, r.op.srcphy, r.op.srch * r.op.srcstride)
    && InsideMapped(segs, c, r.dst, r.op.dstphy, r.op.dsth * r.op.dststride)
    && r.src.dir == ToDevice && r.dst.dir == FromDevice && r.op.srcphy < U32 && r.op.dstphy < U32
  }

  /** The operation is the one requested, its addresses being the requested offsets into the requested buffers. */
  ghost predicate AsAsked(segs: nat -> Seg, q: Request, r: Resolved) {
    && q.src.Fd? && q.dst.Fd? && r.src.db == q.src.db && r.dst.db == q.dst.db
    && r.op == q.d.op.(srcphy := segs(q.src.db).base + q.d.srcOff, dstphy := segs(q.dst.db).base + q.d.dstOff)
  }

  lemma {:induction false} ResolveAsAsked(segs: nat -> Seg, c: Cache, t0: nat, ops: seq<Resolved>, q: Request)
    requires BatchInv(segs, c, t0, ops) && 2 * |ops| + 2 <= ENTRIES
    ensures var (d, o) := ResolveOp(segs, c, q.d, q.src, q.dst); o.Fine? ==> AsAsked(segs, q, o.value)
  {
    var (d, o) := ResolveOp(segs, c, q.d, q.src, q.dst);
    var pins := PinsOf(ops);
    ResolvePins(segs, c, t0, pins, 2 * |ops|, q);
    if o.Fine? {
      hide ResolveOp, Inv, PlaceOp, Recent, OpInside, Holding, PinsOf;
      var src, dst := o.value.src, o.value.dst;
      var all := pins + [src, dst];
      assert all[|pins|] == src && all[|pins| + 1] == dst;
      PinnedSegment(segs, d, t0, all, |pins|);
      PinnedSegment(segs, d, t0, all, |pins| + 1);
      PlaceInside(segs, d, q.d, src, dst);
    }
  }

  /** The first n operations of the batch are the first n requested. */
  ghost predicate AllAsAsked(segs: nat -> Seg, rs: seq<Request>, ops: seq<Resolved>, n: nat) {
    |ops| == n <= |rs| && forall i :: 0 <= i < n ==> AsAsked(segs, rs[i], ops[i])
  }

  lemma OneMoreAsAsked(segs: nat -> Seg, rs: seq<Request>, ops: seq<Resolved>, n: nat, r: Resolved)
    requires AllAsAsked(segs, rs, ops, n) && n < |rs| && AsAsked(segs, rs[n], r)
    ensures AllAsAsked(segs, rs, ops + [r], n + 1)
  {
    hide AsAsked;
  }

  /** One turn of the loop, seen from the batch so far. */
  lemma {:induction false} TurnOfLoop(segs: nat -> Seg, c: Cache, rs: seq<Request>, n: nat)
    requires c.Sized() && 0 < n <= |rs|
    ensures var b, q := ResolveAll(segs, c, rs, n - 1), rs[n - 1];
            var o := ResolveOp(segs, b.cache, q.d, q.src, q.dst).1;
            && (ResolveAll(segs, c, rs, n).errno == 0 <==> b.errno == 0 && o.Fine?)
            && (b.errno == 0 && o.Fine? ==> ResolveAll(segs, c, rs, n).ops == b.ops + [o.value])
  {
    hide ResolveOp;
  }

  lemma NoneResolved(segs: nat -> Seg, c: Cache, rs: seq<Request>)
    requires c.Sized()
    ensures ResolveAll(segs, c, rs, 0).errno == 0 && AllAsAsked(segs, rs, ResolveAll(segs, c, rs, 0).ops, 0)
    ensures AllSound(segs, rs, 0)
  {
  }

  lemma BatchSoFar(segs: nat -> Seg, c: Cache, rs: seq<Request>, n: nat)
    requires Inv(segs, c) && n <= |rs| && 2 * n < ENTRIES
    ensures var b := ResolveAll(segs, c, rs, n);
            c.Sized() && (b.errno == 0 ==> |b.ops| == n && BatchInv(segs, b.cache, c.tick, b.ops))
  {
    ResolveAllIsGood(segs, c, rs, n);
    hide ResolveAll, BatchInv;
  }

  lemma {:induction false} ResolvedAsAsked(segs: nat -> Seg, c: Cache, rs: seq<Request>, n: nat)
    requires Inv(segs, c) && n <= |rs| && 2 * n < ENTRIES && c.Sized()
    ensures var b := ResolveAll(segs, c, rs, n); b.errno == 0 ==> AllAsAsked(segs, rs, b.ops, n)
  {
    hide *;
    if n == 0 {
      NoneResolved(segs, c, rs);
      return;
    }
    var b, q := ResolveAll(segs, c, rs, n - 1), rs[n - 1];
    ResolvedAsAsked(segs, c, rs, n - 1);
    TurnOfLoop(segs, c, rs, n);
    BatchSoFar(segs, c, rs, n - 1);
    if b.errno == 0 {
      ResolveAsAsked(segs, b.cache, c.tick, b.ops, q);
      var o := ResolveOp(segs, b.cache, q.d, q.src, q.dst).1;
      if o.Fine? {
        OneMoreAsAsked(segs, rs, b.ops, n - 1, o.value);
      }
    }
  }

  /**
   * Batch pinning for the scaler, whatever the cache held before: when a batch is handed to the hardware it is the
   * whole batch, every operation as requested, at the requested offsets into the requested buffers; and each of
   * its images still lies inside a segment that is referenced and mapped in a direction that serves the image's
   * use at that moment.
   */
  lemma {:induction false} ScalerBatchIsPinned(segs: nat -> Seg, c: Cache, rs: seq<Request>, reserved: nat)
    requires Inv(segs, c)
    ensures var ops, now := Issued(segs, c, rs, reserved), ResolveAll(segs, c, rs, |rs|).cache;
            ops != [] ==>
              && |ops| == |rs| <= 8
              && forall i :: 0 <= i < |ops| ==> OpPinned(segs, now, ops[i]) && AsAsked(segs, rs[i], ops[i])
  {
    var ops, b := Issued(segs, c, rs, reserved), ResolveAll(segs, c, rs, |rs|);
    if ops != [] {
      assert ops == b.ops && b.errno == 0 && |rs| <= SCALER_DMABUF_BATCH_MAX;
      hide ResolveAll, Issued;
      ResolveAllIsGood(segs, c, rs, |rs|);
      ResolvedAsAsked(segs, c, rs, |rs|);
      hide AsAsked;
      forall i | 0 <= i < |ops|
        ensures OpPinned(segs, b.cache, ops[i])
      {
        PinsOfIndex(b.ops, i);
        PinnedSegment(segs, b.cache, c.tick, PinsOf(b.ops), 2 * i);
        PinnedSegment(segs, b.cache, c.tick, PinsOf(b.ops), 2 * i + 1);
      }
    }
  }

  // ---- which batches are handed over ----

  /** What is asked of an operation: no stray addresses, sound geometry, crop and images inside their buffers. */
  ghost predicate Contained(segs: nat -> Seg, q: Request) {
    q.src.Fd? && q.dst.Fd? &&
    var op, s, t := q.d.op, segs(q.src.db), segs(q.dst.db);
    && op.srcphy == 0 && op.dstphy == 0 && q.d.srcOff % 16 == 0 && q.d.dstOff % 16 == 0
    && op.srch > 0 && op.srcstride > 0 && op.dsth > 0 && op.dststride > 0 && op.channels > 0
    && op.srcw * op.channels <= op.srcstride && op.dstw * op.channels <= op.dststride
    && op.cropX + op.cropW <= op.srcw && op.cropY + op.cropH <= op.srch
    && q.d.srcOff + op.srch * op.srcstride <= s.size && q.d.dstOff + op.dsth * op.dststride <= t.size
  }

  /** And the descriptor can hold its addresses. */
  ghost predicate Sound(segs: nat -> Seg, q: Request) {
    && Contained(segs, q)
    && segs(q.src.db).base + q.d.srcOff < 0x1_0000_0000 && segs(q.dst.db).base + q.d.dstOff < 0x1_0000_0000
  }

  /** Both buffers can be looked up and mapped. */
  predicate Mappable(q: Request) {
    q.src.Fd? && q.src.mapErr == 0 && q.dst.Fd? && q.dst.mapErr == 0
  }

  lemma {:induction false} LookupSucceeds(segs: nat -> Seg, c: Cache, t0: nat, pins: seq<Pin>, k: nat, fd: Fd, dir: Dir)
    requires c.Sized() && Pinned(segs, c, t0, pins, k) && k < ENTRIES && fd.Fd? && fd.mapErr == 0
    ensures var (d, r) := Lookup(segs, c, fd, dir);
            d.Sized() && r.Ok? && Pinned(segs, d, t0, pins + [Pin(r.slot, fd.db, dir)], k + 1)
  {
    LookupPins(segs, c, t0, pins, k, fd, dir);
    LookupIsDirectMap(segs, c, fd.db, dir, fd.mapErr);
    hide Inv, Holding, Recent, MapFd;
  }

  lemma {:induction false} ResolvesIffSound(segs: nat -> Seg, c: Cache, t0: nat, ops: seq<Resolved>, q: Request)
    requires BatchInv(segs, c, t0, ops) && 2 * |ops| + 2 <= ENTRIES && Mappable(q)
    ensures c.Sized()
    ensures var o := ResolveOp(segs, c, q.d, q.src, q.dst).1;
            (o.Fine? <==> Sound(segs, q)) && (o.Bad? ==> o.errno == if Contained(segs, q) then -34 else -22)
  {
    var pins, k := PinsOf(ops), 2 * |ops|;
    assert c.Sized();
    hide Lookup, Inv, Recent, Holding, OpInside, PinsOf;
    LookupSucceeds(segs, c, t0, pins, k, q.src, ToDevice);
    var (c1, s) := Lookup(segs, c, q.src, ToDevice);
    var a := Pin(s.slot, q.src.db, ToDevice);
    LookupSucceeds(segs, c1, t0, pins + [a], k + 1, q.dst, FromDevice);
    var (c2, t) := Lookup(segs, c1, q.dst, FromDevice);
    var b := Pin(t.slot, q.dst.db, FromDevice);
    var all := pins + [a] + [b];
    assert all[|pins|] == a && all[|pins| + 1] == b;
    PinnedSegment(segs, c2, t0, all, |pins|);
    PinnedSegment(segs, c2, t0, all, |pins| + 1);
    hide Pinned, SegAt, PlaceOp, Sensible, Contained, Sound;
    assert ResolveOp(segs, c, q.d, q.src, q.dst).1
        == if Sensible(q.d) then PlaceOp(c2, q.d, a, b) else Bad(EINVAL);
    PlacesIffSound(segs, c2, q, a, b);
  }

  lemma {:induction false} PlacesIffSound(segs: nat -> Seg, c: Cache, q: Request, a: Pin, b: Pin)
    requires c.Sized() && q.src.Fd? && q.dst.Fd?
    requires SegAt(c, a.slot) == segs(q.src.db) && SegAt(c, b.slot) == segs(q.dst.db)
    ensures !Sensible(q.d) ==> !Contained(segs, q) && !Sound(segs, q)
    ensures var o := PlaceOp(c, q.d, a, b);
            Sensible(q.d) ==> (o.Fine? <==> Sound(segs, q))
                              && (o.Bad? ==> o.errno == if Contained(segs, q) then -34 else -22)
  {
    hide SegAt;
  }

  predicate AllMappable(rs: seq<Request>, n: nat)
    requires n <= |rs|
  {
    forall i :: 0 <= i < n ==> Mappable(rs[i])
  }

  ghost predicate AllSound(segs: nat -> Seg, rs: seq<Request>, n: nat)
    requires n <= |rs|
  {
    forall i :: 0 <= i < n ==> Sound(segs, rs[i])
  }

  lemma OneMoreSound(segs: nat -> Seg, rs: seq<Request>, n: nat)
    requires n < |rs|
    ensures AllSound(segs, rs, n + 1) <==> AllSound(segs, rs, n) && Sound(segs, rs[n])
    ensures AllMappable(rs, n + 1) ==> Mappable(rs[n]) && AllMappable(rs, n)
  {
    hide Sound, Mappable;
  }

  lemma {:induction false} AllResolveIffSound(segs: nat -> Seg, c: Cache, rs: seq<Request>, n: nat)
    requires Inv(segs, c) && n <= |rs| && 2 * n < ENTRIES && AllMappable(rs, n) && c.Sized()
    ensures ResolveAll(segs, c, rs, n).errno == 0 <==> AllSound(segs, rs, n)
  {
    hide *;
    if n == 0 {
      NoneResolved(segs, c, rs);
      return;
    }
    var b := ResolveAll(segs, c, rs, n - 1);
    OneMoreSound(segs, rs, n - 1);
    AllResolveIffSound(segs, c, rs, n - 1);
    TurnOfLoop(segs, c, rs, n);
    BatchSoFar(segs, c, rs, n - 1);
    if b.errno == 0 {
      assert 2 * |b.ops| + 2 <= ENTRIES;
      ResolvesIffSound(segs, b.cache, c.tick, b.ops, rs[n - 1]);
    }
  }

  /**
   * Which batches are handed over, when their buffers can be looked up and mapped: exactly those of one to eight
   * operations, the reserved field clear and every operation sound.
   */
  lemma {:induction false} ScalerBatchServedIff(segs: nat -> Seg, c: Cache, rs: seq<Request>, reserved: nat)
    requires Inv(segs, c) && AllMappable(rs, |rs|)
    ensures Issued(segs, c, rs, reserved) != [] <==> 1 <= |rs| <= 8 && reserved == 0 && AllSound(segs, rs, |rs|)
  {
    if 1 <= |rs| <= SCALER_DMABUF_BATCH_MAX {
      AllResolveIffSound(segs, c, rs, |rs|);
      ResolvedAsAsked(segs, c, rs, |rs|);
    }
    hide ResolveAll, Sound, AsAsked, Inv, AllSound;
  }

  /** What a sound request whose buffers cannot be had fails with: the error of the first lookup that fails. */
  lemma {:induction false} LookupErrorsPass(segs: nat -> Seg, c: Cache, q: Request)
    requires Inv(segs, c) && Sensible(q.d) && c.Sized()
    ensures var o := ResolveOp(segs, c, q.d, q.src, q.dst).1;
            && (q.src.BadFd? ==> o == Bad(q.src.errno))
            && (q.src.Fd? && q.src.mapErr != 0 && !Hits(c, q.src.db, ToDevice) ==> o == Bad(q.src.mapErr))
            && (q.src.Fd? && q.src.mapErr == 0 && q.dst.BadFd? ==> o == Bad(q.dst.errno))
  {
    if q.src.Fd? {
      LookupIsDirectMap(segs, c, q.src.db, ToDevice, q.src.mapErr);
    }
    hide MapFd, Inv, Sensible, Hits, PlaceOp;
  }

  /** The first operation that fails gives the batch its error. */
  lemma {:induction false} FirstFailureStands(segs: nat -> Seg, c: Cache, rs: seq<Request>, k: nat, n: nat)
    requires c.Sized() && k < n <= |rs| && ResolveAll(segs, c, rs, k).errno == 0
    ensures var b, q := ResolveAll(segs, c, rs, k), rs[k];
            var o := ResolveOp(segs, b.cache, q.d, q.src, q.dst).1;
            o.Bad? ==> ResolveAll(segs, c, rs, n).errno == o.errno
    decreases n
  {
    hide *;
    if k + 1 < n {
      FirstFailureStands(segs, c, rs, k, n - 1);
    }
    OneMoreTurn(segs, c, rs, n);
  }

  lemma OneMoreTurn(segs: nat -> Seg, c: Cache, rs: seq<Request>, n: nat)
    requires c.Sized() && 0 < n <= |rs|
    ensures var b, q := ResolveAll(segs, c, rs, n - 1), rs[n - 1];
            var o, errno := ResolveOp(segs, b.cache, q.d, q.src, q.dst).1, ResolveAll(segs, c, rs, n).errno;
            (b.errno != 0 ==> errno == b.errno) && (b.errno == 0 && o.Bad? ==> errno == o.errno)
    ensures ResolveOp(segs, ResolveAll(segs, c, rs, n - 1).cache, rs[n - 1].d, rs[n - 1].src, rs[n - 1].dst).1.Bad? ==>
              ResolveAll(segs, c, rs, n).errno != 0
  {
    hide ResolveOp;
  }

  /**
   * The error of a batch whose operations before the k-th are sound and whose k-th is not: that of the lookup that
   * fails, or else the range error when only its addresses are too high, and the argument error otherwise.
   */
  lemma {:induction false} FirstFaultIsReported(segs: nat -> Seg, c: Cache, rs: seq<Request>, k: nat)
    requires Inv(segs, c) && k < |rs| <= 8 && AllMappable(rs, k) && AllSound(segs, rs, k)
    ensures c.Sized()
    ensures var q, errno := rs[k], ResolveAll(segs, c, rs, |rs|).errno;
            && (Sensible(q.d) && q.src.BadFd? ==> errno == q.src.errno)
            && (Sensible(q.d) && q.src.Fd? && q.src.mapErr == 0 && q.dst.BadFd? ==> errno == q.dst.errno)
            && (Mappable(q) && !Sound(segs, q) ==> errno == if Contained(segs, q) then -34 else -22)
  {
    assert c.Sized();
    AllResolveIffSound(segs, c, rs, k);
    BatchSoFar(segs, c, rs, k);
    FirstFailureStands(segs, c, rs, k, |rs|);
    var b, q := ResolveAll(segs, c, rs, k), rs[k];
    assert Inv(segs, b.cache) && b.cache.Sized() by {
      hide Inv;
    }
    hide ResolveAll, ResolveOp, Inv, Sensible, Sound, Contained, AllSound, AllMappable, OpInside, Holding, Recent;
    assert 2 * |b.ops| + 2 <= ENTRIES;
    if Sensible(q.d) {
      LookupErrorsPass(segs, b.cache, q);
    }
    if Mappable(q) {
      ResolvesIffSound(segs, b.cache, c.tick, b.ops, q);
    }
  }

  /** The crop window of an accepted operation is read from inside its declared image. */
  lemma {:induction false} CropStaysInImage(d: DmabufOp, row: nat)
    requires Sensible(d) && row < d.op.cropH
    ensures var op := d.op;
            (op.cropY + row) * op.srcstride + (op.cropX + op.cropW) * op.channels <= op.srch * op.srcstride
  {
    var op := d.op;
    var y := op.cropY + row;
    MulMono(op.srcstride, y + 1, op.srch);
    MulMono(op.channels, op.cropX + op.cropW, op.srcw);
    assert op.srcstride * (y + 1) == op.srcstride * y + op.srcstride;
  }

  /** Every destination row written by an accepted operation stays inside its stride and inside the image. */
  lemma {:induction false} RowsStayInImage(d: DmabufOp, row: nat)
    requires Sensible(d) && row < d.op.dsth
    ensures var op := d.op;
            op.dstw * op.channels <= op.dststride
            && row * op.dststride + op.dstw * op.channels <= op.dsth * op.dststride
  {
    var op := d.op;
    MulMono(op.dststride, row + 1, op.dsth);
    assert op.dststride * (row + 1) == op.dststride * row + op.dststride;
  }

  // ---- the scaler's batch as the driver runs it ----

  /** dma_buf_get and the cache lookup. */
  method LookupFd(cache: MappingCache, fd: Fd, dir: Dir) returns (r: Result)
    requires cache.Valid() && cache.tick < U64_MAX
    modifies cache, cache.ent, cache.stamp
    ensures cache.Valid() && (cache.View(), r) == Lookup(cache.segs, old(cache.View()), fd, dir)
    ensures cache.tick <= old(cache.tick) + 1
    ensures r.Ok? ==> fd.Fd? && r.slot < ENTRIES && cache.ent[r.slot].Busy? && cache.ent[r.slot].db == fd.db
  {
    if fd.BadFd? {
      return Err(fd.errno);
    }
    LookupTable(cache.segs, cache.View(), fd.db, dir, fd.mapErr);
    TickMoves(cache.segs, cache.View(), fd.db, dir, fd.mapErr);
    r := cache.Get(fd.db, dir, fd.mapErr);
  }

  class ScalerClient {
    const cache: MappingCache
    var issued: seq<seq<Resolved>>

    constructor (cache: MappingCache)
      ensures this.cache == cache && issued == []
    {
      this.cache := cache;
      issued := [];
    }

    method Resolve(d: DmabufOp, src: Fd, dst: Fd) returns (o: Outcome)
      requires cache.Valid() && cache.tick < U64_MAX - 1
      modifies cache, cache.ent, cache.stamp
      ensures cache.Valid() && (cache.View(), o) == ResolveOp(cache.segs, old(cache.View()), d, src, dst)
      ensures cache.tick <= old(cache.tick) + 2
    {
      var op := d.op;
      if op.srcphy != 0 || op.dstphy != 0 {
        return Bad(EINVAL);
      }
      if d.srcOff % 16 != 0 || d.dstOff % 16 != 0 {
        return Bad(EINVAL);
      }
      if op.srch == 0 || op.srcstride == 0 || op.dsth == 0 || op.dststride == 0 || op.channels == 0 {
        return Bad(EINVAL);
      }
      if op.srcw * op.channels > op.srcstride || op.dstw * op.channels > op.dststride {
        return Bad(EINVAL);
      }
      if op.cropX + op.cropW > op.srcw || op.cropY + op.cropH > op.srch {
        return Bad(EINVAL);
      }
      hide Lookup, Inv;
      var s := LookupFd(cache, src, ToDevice);
      if s.Err? {
        return Bad(s.errno);
      }
      var t := LookupFd(cache, dst, FromDevice);
      if t.Err? {
        return Bad(t.errno);
      }
      o := Place(d, Pin(s.slot, src.db, ToDevice), Pin(t.slot, dst.db, FromDevice));
    }

    /** Bounds against the mapped segments, then the 32-bit descriptor addresses. */
    method Place(d: DmabufOp, src: Pin, dst: Pin) returns (o: Outcome)
      requires cache.Sized()
      ensures o == PlaceOp(cache.View(), d, src, dst)
    {
      var s := if src.slot < ENTRIES && cache.ent[src.slot].Busy? then cache.ent[src.slot].seg else Seg(0, 0);
      var t := if dst.slot < ENTRIES && cache.ent[dst.slot].Busy? then cache.ent[dst.slot].seg else Seg(0, 0);
      if d.srcOff + d.op.srch * d.op.srcstride > s.size {
        return Bad(EINVAL);
      }
      if d.dstOff + d.op.dsth * d.op.dststride > t.size {
        return Bad(EINVAL);
      }
      if s.base + d.srcOff >= U32 {
        return Bad(ERANGE);
      }
      if t.base + d.dstOff >= U32 {
        return Bad(ERANGE);
      }
      o := Fine(Resolved(d.op.(srcphy := s.base + d.srcOff, dstphy := t.base + d.dstOff), src, dst));
    }

    /** The resolving loop. */
    method ResolveBatch(rs: seq<Request>) returns (ops: seq<Resolved>, errno: int)
      requires cache.Valid() && cache.tick + 2 * |rs| < U64_MAX
      modifies cache, cache.ent, cache.stamp
      ensures cache.Valid()
      ensures Batch(cache.View(), ops, errno) == ResolveAll(cache.segs, old(cache.View()), rs, |rs|)
    {
      var i := 0;
      ops, errno := [], 0;
      ghost var c := cache.View();
      ghost var b := Batch(c, [], 0);
      hide ResolveOp, NextBatch, Inv;
      while i < |rs| && errno == 0
        invariant i <= |rs| && cache.Valid() && cache.tick <= c.tick + 2 * i
        invariant b == Batch(cache.View(), ops, errno) && b == ResolveAll(cache.segs, c, rs, i)
      {
        NextOf(cache.segs, b, rs[i]);
        b := NextBatch(cache.segs, b, rs[i]);
        var o := Resolve(rs[i].d, rs[i].src, rs[i].dst);
        if o.Fine? {
          ops := ops + [o.value];
        } else {
          errno := o.errno;
        }
        i := i + 1;
      }
      StoppedEarly(cache.segs, c, rs, i);
    }

    /** ar_scaler_start_batch_dmabuf up to the hardware run. */
    method StartBatch(rs: seq<Request>, reserved: nat) returns (errno: int)
      requires cache.Valid() && cache.tick + 2 * SCALER_DMABUF_BATCH_MAX < U64_MAX
      modifies this`issued, cache, cache.ent, cache.stamp
      ensures cache.Valid()
      ensures issued == old(issued) + if errno == 0 then [Issued(cache.segs, old(cache.View()), rs, reserved)] else []
      ensures errno != 0 ==> Issued(cache.segs, old(cache.View()), rs, reserved) == []
      ensures errno == if 1 <= |rs| <= 8 && reserved == 0
                       then ResolveAll(cache.segs, old(cache.View()), rs, |rs|).errno else EINVAL
      ensures errno == 0 ==> cache.View() == ResolveAll(cache.segs, old(cache.View()), rs, |rs|).cache
    {
      hide ResolveAll, Inv;
      if |rs| == 0 || |rs| > SCALER_DMABUF_BATCH_MAX || reserved != 0 {
        return EINVAL;
      }
      var ops;
      ops, errno := ResolveBatch(rs);
      if errno == 0 {
        issued := issued + [ops];
      }
    }
  }

  lemma TickMoves(segs: nat -> Seg, c: Cache, db: nat, dir: Dir, err: int)
    requires c.Sized()
    ensures MapFd(segs, c, db, dir, err).0.tick <= c.tick + 1
  {
    HitOrRemap(segs, c, db, dir, err);
    RemapTable(segs, c, Victim(c.ent, c.stamp, db), db, if Cached(c.ent, db) then Both else dir, err);
  }

  lemma NextOf(segs: nat -> Seg, b: Batch, q: Request)
    requires b.cache.Sized() && b.errno == 0
    ensures var (d, o) := ResolveOp(segs, b.cache, q.d, q.src, q.dst);
            NextBatch(segs, b, q) == if o.Bad? then Batch(d, b.ops, o.errno) else Batch(d, b.ops + [o.value], 0)
  {
    hide ResolveOp;
  }

  /** Once an operation has failed the rest of the batch changes nothing. */
  lemma {:induction false} StoppedEarly(segs: nat -> Seg, c: Cache, rs: seq<Request>, n: nat)
    requires c.Sized() && n <= |rs|
    ensures ResolveAll(segs, c, rs, n).errno != 0 ==> ResolveAll(segs, c, rs, |rs|) == ResolveAll(segs, c, rs, n)
    decreases |rs| - n
  {
    if n < |rs| {
      NothingAfterFailure(segs, ResolveAll(segs, c, rs, n), rs[n]);
      hide NextBatch;
      StoppedEarly(segs, c, rs, n + 1);
    }
  }
}
