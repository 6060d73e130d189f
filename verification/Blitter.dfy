/** The DMA blitter's submit path (modules/ml_dmablit.c): validate every copy, then issue the batch on one channel. */
module Blitter {
  import opened Bytes
  import opened BufCache
  import opened BatchPin

  const MAX_COPIES := 8
  const EIO := -5
  const ETIMEDOUT := -110

  /** One requested copy; src is what looking its source fd up gives. */
  datatype Copy = Copy(src: Fd, srcOff: nat, dstOff: nat, len: nat)

  /** struct axi_dma_memcpy_entry. */
  datatype Entry = Entry(dst: nat, src: nat, len: nat)

  datatype Filled = Filled(cache: Cache, entries: seq<Entry>, pins: seq<Pin>, errno: int)

  predicate WordAligned(c: Copy) {
    c.len != 0 && c.len % 4 == 0 && c.srcOff % 4 == 0 && c.dstOff % 4 == 0
  }

  predicate InBounds(c: Copy, s: Seg, t: Seg) {
    c.srcOff + c.len <= s.size && c.dstOff + c.len <= t.size
  }

  /** One turn of the validation loop, the destination being the first pin. */
  function NextCopy(segs: nat -> Seg, f: Filled, c: Copy): (r: Filled)
    requires f.cache.Sized() && f.pins != []
    ensures r.cache.Sized() && r.pins != [] && r.pins[0] == f.pins[0]
  {
    if f.errno != 0 then f
    else
      LookupSized(segs, f.cache, c.src, ToDevice);
      var (d, r) := Lookup(segs, f.cache, c.src, ToDevice);
      if r.Err? then f.(cache := d, errno := r.errno)
      else
        var s, t := SegAt(d, r.slot), SegAt(d, f.pins[0].slot);
        if !WordAligned(c) || !InBounds(c, s, t) then f.(cache := d, errno := EINVAL)
        else
          Filled(d, f.entries + [Entry(t.base + c.dstOff, s.base + c.srcOff, c.len)],
                 f.pins + [Pin(r.slot, c.src.db, ToDevice)], 0)
  }

  function Fill(segs: nat -> Seg, cache: Cache, dst: Pin, copies: seq<Copy>, n: nat): (f: Filled)
    requires cache.Sized() && n <= |copies|
    ensures f.cache.Sized() && f.pins != [] && f.pins[0] == dst
  {
    if n == 0 then Filled(cache, [], [dst], 0) else NextCopy(segs, Fill(segs, cache, dst, copies, n - 1), copies[n - 1])
  }

  /** Everything before the engine is touched: the destination, then every copy. */
  function Validate(segs: nat -> Seg, cache: Cache, dst: Fd, copies: seq<Copy>): (f: Filled)
    requires cache.Sized()
    ensures f.cache.Sized()
  {
    if |copies| < 1 || |copies| > MAX_COPIES then Filled(cache, [], [], EINVAL)
    else
      LookupSized(segs, cache, dst, Both);
      var (d, r) := Lookup(segs, cache, dst, Both);
      if r.Err? then Filled(d, [], [], r.errno) else Fill(segs, d, Pin(r.slot, dst.db, Both), copies, |copies|)
  }

  // ---- pinning ----

  /** The entry moves its bytes from inside the source buffer to inside the destination buffer. */
  ghost predicate EntryInside(segs: nat -> Seg, e: Entry, src: Pin, dst: Pin) {
    && e.len > 0 && src.dir == ToDevice && dst.dir == Both
    && segs(src.db).base <= e.src && e.src + e.len <= segs(src.db).base + segs(src.db).size
    && segs(dst.db).base <= e.dst && e.dst + e.len <= segs(dst.db).base + segs(dst.db).size
  }

  /** After n copies: a failure, or n entries inside buffers that are all still pinned. */
  ghost predicate Good(segs: nat -> Seg, f: Filled, t0: nat, n: nat) {
    f.errno == 0 ==>
      && |f.entries| == n && |f.pins| == n + 1 && f.pins[0].dir == Both
      && Pinned(segs, f.cache, t0, f.pins, n + 1)
      && forall i :: 0 <= i < n ==> EntryInside(segs, f.entries[i], f.pins[i + 1], f.pins[0])
  }

  lemma {:induction false} NextKeepsGood(segs: nat -> Seg, f: Filled, t0: nat, n: nat, c: Copy)
    requires f.cache.Sized() && f.pins != [] && Good(segs, f, t0, n) && n + 1 < ENTRIES
    ensures Good(segs, NextCopy(segs, f, c), t0, n + 1)
  {
    var g := NextCopy(segs, f, c);
    if g.errno != 0 {
      return;
    }
    NextCopyAdds(segs, f, c);
    hide *;
    LookupPins(segs, f.cache, t0, f.pins, n + 1, c.src, ToDevice);
    SegmentsOfPins(segs, g.cache, t0, g.pins, n + 1);
    CopyInside(segs, g.cache, c, g.pins[n + 1], g.pins[0]);
    GoodSnoc(segs, f, g, t0, n);
  }

  /** What a copy that passes adds. */
  lemma NextCopyAdds(segs: nat -> Seg, f: Filled, c: Copy)
    requires f.cache.Sized() && f.pins != [] && NextCopy(segs, f, c).errno == 0
    ensures f.errno == 0
    ensures var g, (d, r) := NextCopy(segs, f, c), Lookup(segs, f.cache, c.src, ToDevice);
            && r.Ok? && g.cache == d && d.Sized()
            && WordAligned(c) && InBounds(c, SegAt(d, r.slot), SegAt(d, f.pins[0].slot))
            && g.entries == f.entries + [Entry(SegAt(d, f.pins[0].slot).base + c.dstOff,
                                               SegAt(d, r.slot).base + c.srcOff, c.len)]
            && g.pins == f.pins + [Pin(r.slot, c.src.db, ToDevice)]
  {
    hide Lookup, SegAt, WordAligned, InBounds;
    NeverZero(Lookup(segs, f.cache, c.src, ToDevice).1);
  }

  lemma NeverZero(r: Result)
    ensures r.Err? ==> r.errno != 0
  {
  }

  lemma SegmentsOfPins(segs: nat -> Seg, c: Cache, t0: nat, pins: seq<Pin>, n: nat)
    requires Pinned(segs, c, t0, pins, |pins|) && n < |pins|
    ensures c.Sized() && SegAt(c, pins[0].slot) == segs(pins[0].db) && SegAt(c, pins[n].slot) == segs(pins[n].db)
  {
    PinnedSegment(segs, c, t0, pins, 0);
    PinnedSegment(segs, c, t0, pins, n);
  }

  /** A copy that passes the checks lies inside the two segments it was checked against. */
  lemma CopyInside(segs: nat -> Seg, c: Cache, cp: Copy, src: Pin, dst: Pin)
    requires c.Sized() && SegAt(c, src.slot) == segs(src.db) && SegAt(c, dst.slot) == segs(dst.db)
    requires WordAligned(cp) && InBounds(cp, segs(src.db), segs(dst.db)) && src.dir == ToDevice && dst.dir == Both
    ensures EntryInside(segs, Entry(segs(dst.db).base + cp.dstOff, segs(src.db).base + cp.srcOff, cp.len), src, dst)
  {
  }

  lemma GoodSnoc(segs: nat -> Seg, f: Filled, g: Filled, t0: nat, n: nat)
    requires f.errno == g.errno == 0 && Good(segs, f, t0, n) && |g.entries| == n + 1 && |g.pins| == n + 2
    requires g.entries[..n] == f.entries && g.pins[..n + 1] == f.pins
    requires Pinned(segs, g.cache, t0, g.pins, n + 2) && EntryInside(segs, g.entries[n], g.pins[n + 1], g.pins[0])
    ensures Good(segs, g, t0, n + 1)
  {
    hide Pinned, EntryInside;
    assert forall i :: 0 <= i < n ==> g.entries[i] == f.entries[i] && g.pins[i + 1] == f.pins[i + 1];
  }

  lemma {:induction false} FillIsGood(segs: nat -> Seg, cache: Cache, dst: Pin, copies: seq<Copy>, n: nat, t0: nat)
    requires cache.Sized() && n <= |copies| && n + 1 < ENTRIES && Good(segs, Filled(cache, [], [dst], 0), t0, 0)
    ensures Good(segs, Fill(segs, cache, dst, copies, n), t0, n)
  {
    hide NextCopy, Good;
    if n > 0 {
      FillIsGood(segs, cache, dst, copies, n - 1, t0);
      NextKeepsGood(segs, Fill(segs, cache, dst, copies, n - 1), t0, n - 1, copies[n - 1]);
    }
  }

  lemma {:induction false} DestinationIsGood(segs: nat -> Seg, c: Cache, dst: Fd)
    requires Inv(segs, c)
    ensures var (d, r) := Lookup(segs, c, dst, Both);
            r.Ok? ==> Good(segs, Filled(d, [], [Pin(r.slot, dst.db, Both)], 0), c.tick, 0)
  {
    NothingPinnedYet(segs, c);
    LookupPins(segs, c, c.tick, [], 0, dst, Both);
    var (d, r) := Lookup(segs, c, dst, Both);
    hide Lookup, Inv, Holding, Recent;
    if r.Ok? {
      assert [] + [Pin(r.slot, dst.db, Both)] == [Pin(r.slot, dst.db, Both)];
    }
  }

  lemma ValidatedIsGood(segs: nat -> Seg, c: Cache, dst: Fd, copies: seq<Copy>)
    requires Inv(segs, c)
    ensures Good(segs, Validate(segs, c, dst, copies), c.tick, |copies|)
  {
    if |copies| < 1 || |copies| > MAX_COPIES {
      return;
    }
    var (d, r) := Lookup(segs, c, dst, Both);
    DestinationIsGood(segs, c, dst);
    LookupSized(segs, c, dst, Both);
    hide Lookup, Fill, Inv;
    if r.Ok? {
      FillIsGood(segs, d, Pin(r.slot, dst.db, Both), copies, |copies|, c.tick);
    }
  }

  // ---- the submit path ----

  /** What the DMA engine answers. */
  datatype Engine = Engine(prepared: bool, submitted: bool, result: Wait)

  datatype Wait = Done | Refused | TimedOut

  /** The open file's cache, the round-robin cursor, the channels picked so far and the batches started on them. */
  datatype Blit = Blit(cache: Cache, next: nat, picked: seq<nat>, issued: seq<(nat, seq<Entry>)>)

  /** ml_dmablit_submit with nchan channels. */
  function Submit(segs: nat -> Seg, b: Blit, nchan: nat, dst: Fd, copies: seq<Copy>, out: Engine): (Blit, int)
    requires b.cache.Sized() && nchan > 0
  {
    var f := Validate(segs, b.cache, dst, copies);
    var b1 := b.(cache := f.cache);
    if f.errno != 0 then (b1, f.errno)
    else
      var b2 := b1.(next := (b.next + 1) % nchan, picked := b.picked + [b.next]);
      if !out.prepared || !out.submitted then (b2, EIO)
      else
        (b2.(issued := b.issued + [(b.next, f.entries)]),
         match out.result case Done => 0 case Refused => EIO case TimedOut => ETIMEDOUT)
  }

  class Compositor {
    const cache: MappingCache
    const nchan: nat
    var next: nat
    var picked: seq<nat>
    var issued: seq<(nat, seq<Entry>)>

    ghost predicate Valid()
      reads this, cache, cache.ent, cache.stamp
    {
      cache.Valid() && nchan > 0
    }

    ghost function View(): Blit
      reads this, cache, cache.ent, cache.stamp
    {
      Blit(cache.View(), next, picked, issued)
    }

    constructor (cache: MappingCache, nchan: nat)
      requires cache.Valid() && nchan > 0
      ensures Valid() && this.cache == cache && this.nchan == nchan && View() == Blit(cache.View(), 0, [], [])
    {
      this.cache, this.nchan := cache, nchan;
      next, picked, issued := 0, [], [];
    }

    /** One copy of the validation loop. */
    method AddCopy(c: Copy, dst: Pin, entries: seq<Entry>, ghost pins: seq<Pin>)
      returns (more: seq<Entry>, ghost pins': seq<Pin>, errno: int)
      requires cache.Valid() && cache.tick < U64_MAX && pins != [] && pins[0] == dst && dst.slot < ENTRIES
      modifies cache, cache.ent, cache.stamp
      ensures cache.Valid() && cache.tick <= old(cache.tick) + 1
      ensures Filled(cache.View(), more, pins', errno)
           == NextCopy(cache.segs, Filled(old(cache.View()), entries, pins, 0), c)
    {
      hide Lookup, Inv;
      more, pins', errno := entries, pins, 0;
      var s := LookupFd(cache, c.src, ToDevice);
      if s.Err? {
        errno := s.errno;
        return;
      }
      if c.len == 0 || c.len % 4 != 0 || c.srcOff % 4 != 0 || c.dstOff % 4 != 0 {
        errno := EINVAL;
        return;
      }
      var from := cache.ent[s.slot].seg;
      var into := if cache.ent[dst.slot].Busy? then cache.ent[dst.slot].seg else Seg(0, 0);
      if c.srcOff + c.len > from.size || c.dstOff + c.len > into.size {
        errno := EINVAL;
        return;
      }
      more := entries + [Entry(into.base + c.dstOff, from.base + c.srcOff, c.len)];
      pins' := pins + [Pin(s.slot, c.src.db, ToDevice)];
    }

    /** The validation loop. */
    method FillEntries(dst: Pin, copies: seq<Copy>) returns (entries: seq<Entry>, ghost pins: seq<Pin>, errno: int)
      requires cache.Valid() && cache.tick + |copies| < U64_MAX && dst.slot < ENTRIES
      modifies cache, cache.ent, cache.stamp
      ensures cache.Valid()
      ensures Filled(cache.View(), entries, pins, errno) == Fill(cache.segs, old(cache.View()), dst, copies, |copies|)
    {
      hide NextCopy, Inv;
      ghost var c := cache.View();
      ghost var f := Filled(c, [], [dst], 0);
      var i := 0;
      entries, pins, errno := [], [dst], 0;
      while i < |copies| && errno == 0
        invariant i <= |copies| && cache.Valid() && cache.tick <= c.tick + i
        invariant f == Filled(cache.View(), entries, pins, errno) && f == Fill(cache.segs, c, dst, copies, i)
      {
        f := NextCopy(cache.segs, f, copies[i]);
        entries, pins, errno := AddCopy(copies[i], dst, entries, pins);
        i := i + 1;
      }
      FillStopped(cache.segs, c, dst, copies, i);
    }

    method SubmitBatch(dst: Fd, copies: seq<Copy>, out: Engine) returns (errno: int)
      requires Valid() && cache.tick + MAX_COPIES + 1 < U64_MAX
      modifies this`next, this`picked, this`issued, cache, cache.ent, cache.stamp
      ensures Valid() && (View(), errno) == Submit(cache.segs, old(View()), nchan, dst, copies, out)
    {
      hide Inv, Lookup, Fill;
      if |copies| < 1 || |copies| > MAX_COPIES {
        return EINVAL;
      }
      var d := LookupFd(cache, dst, Both);
      if d.Err? {
        return d.errno;
      }
      var entries;
      ghost var pins;
      entries, pins, errno := FillEntries(Pin(d.slot, dst.db, Both), copies);
      if errno != 0 {
        return;
      }
      var chan := next;
      next, picked := (next + 1) % nchan, picked + [chan];
      if !out.prepared || !out.submitted {
        return EIO;
      }
      issued := issued + [(chan, entries)];
      errno := match out.result case Done => 0 case Refused => EIO case TimedOut => ETIMEDOUT;
    }
  }

  lemma {:induction false} FillStopped(segs: nat -> Seg, c: Cache, dst: Pin, copies: seq<Copy>, n: nat)
    requires c.Sized() && n <= |copies|
    ensures Fill(segs, c, dst, copies, n).errno != 0 ==>
              Fill(segs, c, dst, copies, |copies|) == Fill(segs, c, dst, copies, n)
    decreases |copies| - n
  {
    hide NextCopy;
    if n < |copies| {
      NoCopyAfterFailure(segs, Fill(segs, c, dst, copies, n), copies[n]);
      FillStopped(segs, c, dst, copies, n + 1);
    }
  }

  lemma NoCopyAfterFailure(segs: nat -> Seg, f: Filled, c: Copy)
    requires f.cache.Sized() && f.pins != []
    ensures f.errno != 0 ==> NextCopy(segs, f, c) == f
  {
  }

  // ---- what a submit guarantees ----

  /** The entry's bytes lie in buffers the cache holds mapped for reading and for both, referenced, right now. */
  ghost predicate EntryPinned(segs: nat -> Seg, c: Cache, e: Entry, src: Pin, dst: Pin) {
    && InsideMapped(segs, c, src, e.src, e.len) && src.dir == ToDevice
    && InsideMapped(segs, c, dst, e.dst, e.len) && dst.dir == Both && e.len > 0
  }

  /** The entry is the copy requested, at the requested offsets into the requested buffers. */
  ghost predicate CopyAsAsked(segs: nat -> Seg, dst: Fd, c: Copy, e: Entry) {
    && c.src.Fd? && dst.Fd?
    && e == Entry(segs(dst.db).base + c.dstOff, segs(c.src.db).base + c.srcOff, c.len)
  }

  /** After n copies: a failure, or n entries as requested, the pins being the buffers requested. */
  ghost predicate Faithful(segs: nat -> Seg, f: Filled, dst: Fd, copies: seq<Copy>, n: nat) {
    f.errno == 0 ==>
      && n <= |copies| && |f.entries| == n && |f.pins| == n + 1 && dst.Fd? && f.pins[0].db == dst.db
      && forall i :: 0 <= i < n ==>
           CopyAsAsked(segs, dst, copies[i], f.entries[i]) && copies[i].src.Fd? && f.pins[i + 1].db == copies[i].src.db
  }

  /** A copy that passes is word aligned and inside both buffers; given lookups that succeed, no other fails. */
  ghost predicate SoundCopy(segs: nat -> Seg, dst: Fd, c: Copy) {
    && c.src.Fd? && dst.Fd?
    && c.len > 0 && c.len % 4 == 0 && c.srcOff % 4 == 0 && c.dstOff % 4 == 0
    && c.srcOff + c.len <= segs(c.src.db).size && c.dstOff + c.len <= segs(dst.db).size
  }

  predicate CanMap(fd: Fd) {
    fd.Fd? && fd.mapErr == 0
  }

  /** One turn of the loop, from buffers still pinned: the entry it adds, and when it adds one. */
  lemma {:induction false} NextIsFaithful(segs: nat -> Seg, f: Filled, t0: nat, n: nat, dst: Fd, c: Copy)
    requires f.cache.Sized() && f.pins != [] && Good(segs, f, t0, n) && n + 1 < ENTRIES
    requires f.errno == 0 && dst.Fd? && f.pins[0].db == dst.db
    ensures var g := NextCopy(segs, f, c);
            && (g.errno == 0 ==>
                  && |g.entries| == n + 1 && g.entries[..n] == f.entries && CopyAsAsked(segs, dst, c, g.entries[n])
                  && |g.pins| == n + 2 && g.pins[..n + 1] == f.pins && c.src.Fd? && g.pins[n + 1].db == c.src.db)
            && (CanMap(c.src) ==> (g.errno == 0 <==> SoundCopy(segs, dst, c)) && g.errno in {0, -22})
  {
    hide Lookup, Inv, Holding, Recent, MapFd, EntryInside;
    LookupPins(segs, f.cache, t0, f.pins, n + 1, c.src, ToDevice);
    var (d, r) := Lookup(segs, f.cache, c.src, ToDevice);
    if CanMap(c.src) {
      LookupSucceeds(segs, f.cache, t0, f.pins, n + 1, c.src, ToDevice);
    }
    if r.Ok? {
      var all := f.pins + [Pin(r.slot, c.src.db, ToDevice)];
      SegmentsOfPins(segs, d, t0, all, n + 1);
    } else {
      NeverZero(r);
    }
    hide Pinned, SegAt;
  }

  lemma {:induction false} FillIsFaithful(segs: nat -> Seg, cache: Cache, slot: nat, dst: Fd, copies: seq<Copy>, n: nat,
                                          t0: nat)
    requires cache.Sized() && n <= |copies| && n + 1 < ENTRIES && dst.Fd?
    requires Good(segs, Filled(cache, [], [Pin(slot, dst.db, Both)], 0), t0, 0)
    ensures Faithful(segs, Fill(segs, cache, Pin(slot, dst.db, Both), copies, n), dst, copies, n)
    ensures AllCanMap(copies, n) ==>
              (Fill(segs, cache, Pin(slot, dst.db, Both), copies, n).errno == 0
               <==> AllSoundCopies(segs, dst, copies, n))
  {
    hide *;
    if n == 0 {
      NoneFilled(segs, cache, slot, dst, copies);
      return;
    }
    var f := Fill(segs, cache, Pin(slot, dst.db, Both), copies, n - 1);
    FillIsFaithful(segs, cache, slot, dst, copies, n - 1, t0);
    FillIsGood(segs, cache, Pin(slot, dst.db, Both), copies, n - 1, t0);
    FillSnoc(segs, cache, Pin(slot, dst.db, Both), copies, n);
    OneMoreSoundCopy(segs, dst, copies, n - 1);
    if f.errno == 0 {
      FaithfulSoFar(segs, f, dst, copies, n - 1);
      NextIsFaithful(segs, f, t0, n - 1, dst, copies[n - 1]);
      OneMoreFaithful(segs, f, NextCopy(segs, f, copies[n - 1]), dst, copies, n - 1);
    } else {
      NoCopyAfterFailure(segs, f, copies[n - 1]);
      FailureIsFaithful(segs, f, dst, copies, n);
    }
  }

  lemma NoneFilled(segs: nat -> Seg, cache: Cache, slot: nat, dst: Fd, copies: seq<Copy>)
    requires cache.Sized() && dst.Fd?
    ensures var f := Fill(segs, cache, Pin(slot, dst.db, Both), copies, 0);
            f.errno == 0 && Faithful(segs, f, dst, copies, 0) && AllSoundCopies(segs, dst, copies, 0)
  {
  }

  lemma FillSnoc(segs: nat -> Seg, cache: Cache, dst: Pin, copies: seq<Copy>, n: nat)
    requires cache.Sized() && 0 < n <= |copies|
    ensures Fill(segs, cache, dst, copies, n) == NextCopy(segs, Fill(segs, cache, dst, copies, n - 1), copies[n - 1])
  {
  }

  lemma FaithfulSoFar(segs: nat -> Seg, f: Filled, dst: Fd, copies: seq<Copy>, n: nat)
    requires Faithful(segs, f, dst, copies, n) && f.errno == 0
    ensures f.pins != [] && dst.Fd? && f.pins[0].db == dst.db && n <= |copies|
  {
  }

  lemma FailureIsFaithful(segs: nat -> Seg, f: Filled, dst: Fd, copies: seq<Copy>, n: nat)
    requires f.errno != 0
    ensures Faithful(segs, f, dst, copies, n)
  {
  }

  lemma OneMoreFaithful(segs: nat -> Seg, f: Filled, g: Filled, dst: Fd, copies: seq<Copy>, n: nat)
    requires Faithful(segs, f, dst, copies, n) && f.errno == 0 && n < |copies|
    requires g.errno == 0 ==>
               && |g.entries| == n + 1 && g.entries[..n] == f.entries && CopyAsAsked(segs, dst, copies[n], g.entries[n])
               && |g.pins| == n + 2 && g.pins[..n + 1] == f.pins
               && copies[n].src.Fd? && g.pins[n + 1].db == copies[n].src.db
    ensures Faithful(segs, g, dst, copies, n + 1)
  {
    hide CopyAsAsked;
    if g.errno == 0 {
      assert g.pins[0] == f.pins[0];
      forall i | 0 <= i < n
        ensures g.entries[i] == f.entries[i] && g.pins[i + 1] == f.pins[i + 1]
      {
        assert g.entries[..n][i] == f.entries[i] && g.pins[..n + 1][i + 1] == f.pins[i + 1];
      }
    }
  }

  predicate AllCanMap(copies: seq<Copy>, n: nat)
    requires n <= |copies|
  {
    forall i :: 0 <= i < n ==> CanMap(copies[i].src)
  }

  ghost predicate AllSoundCopies(segs: nat -> Seg, dst: Fd, copies: seq<Copy>, n: nat)
    requires n <= |copies|
  {
    forall i :: 0 <= i < n ==> SoundCopy(segs, dst, copies[i])
  }

  lemma OneMoreSoundCopy(segs: nat -> Seg, dst: Fd, copies: seq<Copy>, n: nat)
    requires n < |copies|
    ensures AllSoundCopies(segs, dst, copies, n + 1) <==>
            AllSoundCopies(segs, dst, copies, n) && SoundCopy(segs, dst, copies[n])
    ensures AllCanMap(copies, n + 1) ==> CanMap(copies[n].src) && AllCanMap(copies, n)
  {
    hide SoundCopy, CanMap;
  }

  lemma {:induction false} ValidatedIsFaithful(segs: nat -> Seg, c: Cache, dst: Fd, copies: seq<Copy>)
    requires Inv(segs, c)
    ensures c.Sized()
    ensures Faithful(segs, Validate(segs, c, dst, copies), dst, copies, |copies|)
    ensures CanMap(dst) && AllCanMap(copies, |copies|) ==>
              (Validate(segs, c, dst, copies).errno == 0 <==>
                 1 <= |copies| <= 8 && AllSoundCopies(segs, dst, copies, |copies|))
  {
    if |copies| < 1 || |copies| > MAX_COPIES {
      return;
    }
    var (d, r) := Lookup(segs, c, dst, Both);
    DestinationIsGood(segs, c, dst);
    LookupSized(segs, c, dst, Both);
    NothingPinnedYet(segs, c);
    if CanMap(dst) {
      LookupSucceeds(segs, c, c.tick, [], 0, dst, Both);
    }
    hide Lookup, Fill, Inv, Holding, Recent, Good, Faithful, AllSoundCopies, AllCanMap;
    if r.Ok? {
      FillIsFaithful(segs, d, r.slot, dst, copies, |copies|, c.tick);
    } else {
      NeverZero(r);
      FailureIsFaithful(segs, Validate(segs, c, dst, copies), dst, copies, |copies|);
    }
  }

  /**
   * Batch pinning for the blitter, whatever the cache held before: when a batch is started it is the whole
   * batch, each entry the copy requested, at the requested offsets, inside a source and a destination buffer that
   * are referenced and mapped in directions that serve the copy at that moment. A batch that fails validation
   * starts nothing and does not move the channel cursor.
   */
  lemma {:induction false} BlitterBatchIsPinned(segs: nat -> Seg, b: Blit, nchan: nat, dst: Fd,
                                               copies: seq<Copy>, out: Engine)
    requires Inv(segs, b.cache) && nchan > 0
    ensures var (d, errno) := Submit(segs, b, nchan, dst, copies, out);
            var f := Validate(segs, b.cache, dst, copies);
            && (f.errno != 0 ==> d.issued == b.issued && d.next == b.next && errno == f.errno)
            && (f.errno == 0 ==>
                  && |f.entries| == |copies| == |f.pins| - 1 && |copies| <= 8
                  && d.issued == (if out.prepared && out.submitted then b.issued + [(b.next, f.entries)] else b.issued)
                  && forall i :: 0 <= i < |copies| ==>
                       && EntryPinned(segs, d.cache, f.entries[i], f.pins[i + 1], f.pins[0])
                       && CopyAsAsked(segs, dst, copies[i], f.entries[i]))
  {
    var f := Validate(segs, b.cache, dst, copies);
    ValidatedIsGood(segs, b.cache, dst, copies);
    ValidatedIsFaithful(segs, b.cache, dst, copies);
    assert f.errno == 0 ==> |copies| <= MAX_COPIES;
    hide Validate, Inv, Holding, Recent, EntryInside, CopyAsAsked, AllSoundCopies, AllCanMap;
    if f.errno == 0 {
      PinnedSegment(segs, f.cache, b.cache.tick, f.pins, 0);
      forall i | 0 <= i < |copies|
        ensures EntryPinned(segs, f.cache, f.entries[i], f.pins[i + 1], f.pins[0])
      {
        PinnedSegment(segs, f.cache, b.cache.tick, f.pins, i + 1);
        PinServes(f.cache, b.cache.tick, f.pins, i + 1);
        PinServes(f.cache, b.cache.tick, f.pins, 0);
        EntryIsPinned(segs, f.cache, f.entries[i], f.pins[i + 1], f.pins[0]);
      }
    }
  }

  /**
   * Which submits succeed, when their buffers can be looked up and mapped: exactly those of one to eight sound copies
   * that the engine takes and finishes; and the whole batch has then been started, on the channel whose turn it was.
   */
  lemma {:induction false} SubmitSucceedsIff(segs: nat -> Seg, b: Blit, nchan: nat, dst: Fd, copies: seq<Copy>,
                                             out: Engine)
    requires Inv(segs, b.cache) && nchan > 0 && CanMap(dst) && AllCanMap(copies, |copies|)
    ensures b.cache.Sized()
    ensures var (d, errno) := Submit(segs, b, nchan, dst, copies, out);
            var sound := 1 <= |copies| <= 8 && AllSoundCopies(segs, dst, copies, |copies|);
            && (errno == 0 <==> sound && out.prepared && out.submitted && out.result.Done?)
            && (sound && out.prepared && out.submitted <==> |d.issued| > |b.issued|)
            && (sound && out.prepared && out.submitted && out.result.TimedOut? ==> errno == -110)
            && (sound && !(out.prepared && out.submitted && !out.result.Refused?) ==> errno == -5)
            && (d.next == if sound then (b.next + 1) % nchan else b.next)
  {
    ValidatedIsFaithful(segs, b.cache, dst, copies);
    SubmitParts(segs, b, nchan, dst, copies, out);
    hide *;
  }

  /** A lookup that fails gives the copy its error. */
  lemma NextCopyErrors(segs: nat -> Seg, f: Filled, c: Copy)
    requires f.cache.Sized() && f.pins != [] && f.errno == 0 && c.src.BadFd?
    ensures NextCopy(segs, f, c).errno == c.src.errno
  {
  }

  /**
   * The error of a submit whose destination can be mapped, whose copies before the k-th are sound, and whose k-th is
   * not: that of the lookup, or the argument error. One whose destination is no buffer fails with that lookup's.
   */
  lemma {:induction false} FirstFaultIsReported(segs: nat -> Seg, c: Cache, dst: Fd, copies: seq<Copy>, k: nat)
    requires Inv(segs, c) && k < |copies| <= 8 && AllCanMap(copies, k) && AllSoundCopies(segs, dst, copies, k)
    ensures c.Sized()
    ensures dst.BadFd? ==> Validate(segs, c, dst, copies).errno == dst.errno
    ensures CanMap(dst) ==>
              var e, errno := copies[k], Validate(segs, c, dst, copies).errno;
              && (e.src.BadFd? ==> errno == e.src.errno)
              && (CanMap(e.src) && !SoundCopy(segs, dst, e) ==> errno == -22)
  {
    assert c.Sized();
    if !CanMap(dst) {
      return;
    }
    var (d, r) := Lookup(segs, c, dst, Both);
    DestinationIsGood(segs, c, dst);
    LookupSized(segs, c, dst, Both);
    NothingPinnedYet(segs, c);
    LookupSucceeds(segs, c, c.tick, [], 0, dst, Both);
    assert Validate(segs, c, dst, copies) == Fill(segs, d, Pin(r.slot, dst.db, Both), copies, |copies|);
    hide *;
    FaultInFill(segs, d, r.slot, dst, copies, k, c.tick);
  }

  lemma {:induction false} FaultInFill(segs: nat -> Seg, cache: Cache, slot: nat, dst: Fd, copies: seq<Copy>, k: nat,
                                       t0: nat)
    requires cache.Sized() && k < |copies| && k + 2 < ENTRIES && dst.Fd?
    requires Good(segs, Filled(cache, [], [Pin(slot, dst.db, Both)], 0), t0, 0)
    requires AllCanMap(copies, k) && AllSoundCopies(segs, dst, copies, k)
    ensures var e, errno := copies[k], Fill(segs, cache, Pin(slot, dst.db, Both), copies, |copies|).errno;
            && (e.src.BadFd? ==> errno == e.src.errno)
            && (CanMap(e.src) && !SoundCopy(segs, dst, e) ==> errno == -22)
  {
    hide *;
    var pin, e := Pin(slot, dst.db, Both), copies[k];
    var f := Fill(segs, cache, pin, copies, k);
    FillIsFaithful(segs, cache, slot, dst, copies, k, t0);
    FillIsGood(segs, cache, pin, copies, k, t0);
    FaithfulSoFar(segs, f, dst, copies, k);
    FillSnoc(segs, cache, pin, copies, k + 1);
    FillStopped(segs, cache, pin, copies, k + 1);
    if e.src.BadFd? {
      NextCopyErrors(segs, f, e);
      ErrnoNotZero(e.src);
    } else if CanMap(e.src) && !SoundCopy(segs, dst, e) {
      NextIsFaithful(segs, f, t0, k, dst, e);
    }
  }

  lemma ErrnoNotZero(fd: Fd)
    requires fd.BadFd?
    ensures fd.errno != 0 && !CanMap(fd)
  {
  }

  lemma SubmitParts(segs: nat -> Seg, b: Blit, nchan: nat, dst: Fd, copies: seq<Copy>, out: Engine)
    requires b.cache.Sized() && nchan > 0
    ensures var (d, errno), f := Submit(segs, b, nchan, dst, copies, out), Validate(segs, b.cache, dst, copies);
            && (errno == 0 <==> f.errno == 0 && out.prepared && out.submitted && out.result.Done?)
            && (f.errno == 0 && out.prepared && out.submitted <==> |d.issued| > |b.issued|)
            && (f.errno == 0 && out.prepared && out.submitted && out.result.TimedOut? ==> errno == -110)
            && (f.errno == 0 && !(out.prepared && out.submitted && !out.result.Refused?) ==> errno == -5)
            && (d.next == if f.errno == 0 then (b.next + 1) % nchan else b.next)
  {
    hide Validate;
  }

  lemma EntryIsPinned(segs: nat -> Seg, c: Cache, e: Entry, src: Pin, dst: Pin)
    requires c.Sized() && EntryInside(segs, e, src, dst)
    requires src.slot < ENTRIES && Serves(c.ent[src.slot], src) && c.held[src.db] == 1
    requires dst.slot < ENTRIES && Serves(c.ent[dst.slot], dst) && c.held[dst.db] == 1
    ensures EntryPinned(segs, c, e, src, dst)
  {
  }

  lemma PinServes(c: Cache, t0: nat, pins: seq<Pin>, i: nat)
    requires Holding(c, t0, pins) && i < |pins|
    ensures c.Sized() && pins[i].slot < ENTRIES && Serves(c.ent[pins[i].slot], pins[i])
  {
  }

  // ---- channel rotation ----

  /** One submit: the request and what the engine answers. */
  datatype Job = Job(dst: Fd, copies: seq<Copy>, out: Engine)

  function SubmitAll(segs: nat -> Seg, b: Blit, nchan: nat, jobs: seq<Job>): (r: Blit)
    requires b.cache.Sized() && nchan > 0
    ensures r.cache.Sized()
  {
    if jobs == [] then b
    else
      var n := |jobs| - 1;
      Submit(segs, SubmitAll(segs, b, nchan, jobs[..n]), nchan, jobs[n].dst, jobs[n].copies, jobs[n].out).0
  }

  predicate RoundRobin(b: Blit, nchan: nat)
    requires nchan > 0
  {
    b.next == |b.picked| % nchan && forall k :: 0 <= k < |b.picked| ==> b.picked[k] == k % nchan
  }

  lemma {:induction false} NextModulo(k: nat, n: nat)
    requires n > 0
    ensures (k % n + 1) % n == (k + 1) % n
  {
    var q, r := k / n, k % n;
    assert k == n * q + r;
    if r + 1 < n {
      DivModUnique(k + 1, n, q, r + 1);
    } else {
      assert n * q + n == n * (q + 1);
      DivModUnique(k + 1, n, q + 1, 0);
      DivModUnique(n, n, 1, 0);
    }
  }

  lemma {:induction false} RunIsRoundRobin(segs: nat -> Seg, c: Cache, nchan: nat, jobs: seq<Job>)
    requires c.Sized() && nchan > 0
    ensures RoundRobin(SubmitAll(segs, Blit(c, 0, [], []), nchan, jobs), nchan)
  {
    hide Submit;
    if jobs == [] {
      DivModUnique(0, nchan, 0, 0);
    } else {
      var n := |jobs| - 1;
      RunIsRoundRobin(segs, c, nchan, jobs[..n]);
      var b := SubmitAll(segs, Blit(c, 0, [], []), nchan, jobs[..n]);
      SubmitKeepsRoundRobin(segs, b, nchan, jobs[n]);
    }
  }

  lemma {:induction false} SubmitKeepsRoundRobin(segs: nat -> Seg, b: Blit, nchan: nat, j: Job)
    requires b.cache.Sized() && nchan > 0 && RoundRobin(b, nchan)
    ensures RoundRobin(Submit(segs, b, nchan, j.dst, j.copies, j.out).0, nchan)
  {
    hide Validate;
    NextModulo(|b.picked|, nchan);
  }

  lemma {:induction false} DistinctModulo(i: nat, j: nat, n: nat)
    requires i < j < i + n
    ensures i % n != j % n
  {
    if i % n == j % n {
      SameRemainder(n, i / n, j / n, i % n);
    }
  }

  lemma {:induction false} SameRemainder(n: nat, p: int, q: int, r: nat)
    requires n > 0
    ensures !(n * p + r < n * q + r < n * p + r + n)
  {
    if q > p {
      MulMono(n, 1, q - p);
      assert n * (q - p) == n * q - n * p;
    } else if p > q {
      MulMono(n, 1, p - q);
      assert n * (p - q) == n * p - n * q;
    }
  }

  /** Every remainder but i's own comes up strictly between i and i + n. */
  lemma {:induction false} RemainderComesUp(i: nat, n: nat, ch: nat) returns (k: nat)
    requires n > 0 && ch < n && ch != i % n
    ensures i < k < i + n && k % n == ch
  {
    var q, r := i / n, i % n;
    assert i == n * q + r;
    if ch > r {
      k := i + ch - r;
      DivModUnique(k, n, q, ch);
    } else {
      k := i + n + ch - r;
      assert n * q + n == n * (q + 1);
      DivModUnique(k, n, q + 1, ch);
    }
  }

  /**
   * Over any run of submits, accepted and rejected mixed, a channel is picked again only after every other
   * channel has been picked in between.
   */
  lemma {:induction false} ChannelsRotate(segs: nat -> Seg, c: Cache, nchan: nat, jobs: seq<Job>, i: nat, j: nat,
                                          ch: nat)
    requires c.Sized() && nchan > 0
    requires var p := SubmitAll(segs, Blit(c, 0, [], []), nchan, jobs).picked; i < j < |p| && p[i] == p[j]
    ensures var p := SubmitAll(segs, Blit(c, 0, [], []), nchan, jobs).picked;
            j >= i + nchan && (ch < nchan && ch != p[i] ==> ch in p[i + 1..j])
  {
    var p := SubmitAll(segs, Blit(c, 0, [], []), nchan, jobs).picked;
    RunIsRoundRobin(segs, c, nchan, jobs);
    hide SubmitAll;
    if j < i + nchan {
      DistinctModulo(i, j, nchan);
      assert false;
    }
    if ch < nchan && ch != p[i] {
      var k := RemainderComesUp(i, nchan, ch);
      assert p[i + 1..j][k - i - 1] == p[k] == ch;
    }
  }
}
