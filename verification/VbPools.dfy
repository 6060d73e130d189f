/**
 * Video-buffer pools (modules/ar_vb.c): a bitmap allocator over blocks of the MMZ zone, with handles that pack a
 * pool number and a block index.
 */
module VbPools {
  import opened Wrappers
  import opened Bytes
  import opened MmzZone

  const MAX_POOLS := 512
  const MAX_BLOCKS := 0xffff
  const HANDLE_MAX := 0x1ff_ffff
  const UID_MAX := 0x17
  const ANY_POOL := 0xffff_ffff
  const SPAN := 0x1_0000

  datatype Errno = Inval | NoSpace | NoMem

  datatype Result = Ok(value: nat) | Err(errno: Errno)

  datatype Pool = Pool(base: nat, blkSize: nat, blkCnt: nat, free: seq<bool>) {
    predicate Valid() {
      0 < blkSize && 0 < blkCnt <= MAX_BLOCKS && |free| == blkCnt
    }

    function Total(): nat {
      blkSize * blkCnt
    }
  }

  datatype State = State(zone: Zone, pools: seq<Option<Pool>>)

  function Handle(pid: nat, idx: nat): nat {
    pid * SPAN + idx
  }

  function PoolOf(h: nat): nat {
    h / SPAN
  }

  function IndexOf(h: nat): nat {
    h % SPAN
  }

  predicate PoolsValid(pools: seq<Option<Pool>>) {
    |pools| == MAX_POOLS && forall i :: 0 <= i < |pools| && pools[i].Some? ==> pools[i].value.Valid()
  }

  /** The first slot from i on that holds no pool, or the table's length. */
  function FirstUnused(pools: seq<Option<Pool>>, i: nat): (k: nat)
    requires i <= |pools|
    ensures i <= k <= |pools| && (k < |pools| ==> pools[k].None?)
    ensures forall j :: i <= j < k ==> pools[j].Some?
    decreases |pools| - i
  {
    if i == |pools| || pools[i].None? then i else FirstUnused(pools, i + 1)
  }

  /** find_first_bit from i on. */
  function FirstFree(free: seq<bool>, i: nat): (k: nat)
    requires i <= |free|
    ensures i <= k <= |free| && (k < |free| ==> free[k]) && forall j :: i <= j < k ==> !free[j]
    decreases |free| - i
  {
    if i == |free| || free[i] then i else FirstFree(free, i + 1)
  }

  predicate Serves(p: Option<Pool>, size: nat) {
    p.Some? && (size == 0 || size <= p.value.blkSize) && FirstFree(p.value.free, 0) < |p.value.free|
  }

  /** The pool an any-pool request lands in: the first with a free block large enough. */
  function FirstServing(pools: seq<Option<Pool>>, size: nat, i: nat): (k: nat)
    requires i <= |pools|
    ensures i <= k <= |pools| && (k < |pools| ==> Serves(pools[k], size))
    ensures forall j :: i <= j < k ==> !Serves(pools[j], size)
    decreases |pools| - i
  {
    if i == |pools| || Serves(pools[i], size) then i else FirstServing(pools, size, i + 1)
  }

  /** pool_by_phys from slot i on. */
  function FirstHolding(pools: seq<Option<Pool>>, phys: nat, i: nat): (k: nat)
    requires i <= |pools|
    ensures i <= k <= |pools| && (k < |pools| ==> Holds(pools[k], phys))
    ensures forall j :: i <= j < k ==> !Holds(pools[j], phys)
    decreases |pools| - i
  {
    if i == |pools| || Holds(pools[i], phys) then i else FirstHolding(pools, phys, i + 1)
  }

  predicate Holds(p: Option<Pool>, phys: nat) {
    p.Some? && p.value.base <= phys < p.value.base + p.value.Total()
  }

  function AllFree(n: nat): (free: seq<bool>)
    ensures |free| == n && forall i :: 0 <= i < n ==> free[i]
  {
    seq(n, i => true)
  }

  // ---- the commands ----

  /** VB_CRTPL; mem says whether the bitmap allocation succeeds. */
  function CreateResult(s: State, blkSize: nat, blkCnt: nat, mem: bool): Result
    requires PoolsValid(s.pools)
  {
    var i := FirstUnused(s.pools, 0);
    if blkSize == 0 || blkCnt == 0 || blkCnt > MAX_BLOCKS || blkSize * blkCnt >= U64 then Err(Inval)
    else if i == MAX_POOLS then Err(NoSpace)
    else if FirstFit(s.zone, blkSize * blkCnt, PAGE).None? || !mem then Err(NoMem)
    else Ok(i)
  }

  function Create(s: State, blkSize: nat, blkCnt: nat, mem: bool): State
    requires PoolsValid(s.pools)
  {
    var r := CreateResult(s, blkSize, blkCnt, mem);
    if r.Err? then s
    else
      var base := FirstFit(s.zone, blkSize * blkCnt, PAGE).value;
      State(Alloc(s.zone, blkSize * blkCnt, PAGE),
            s.pools[r.value := Some(Pool(base, blkSize, blkCnt, AllFree(blkCnt)))])
  }

  /** VB_DESTPL. */
  function Destroy(s: State, id: nat): State
    requires PoolsValid(s.pools)
  {
    if id < MAX_POOLS && s.pools[id].Some? then
      State(Release(s.zone, s.pools[id].value.base), s.pools[id := None])
    else s
  }

  /** VB_GETBLK. */
  function GetResult(s: State, id: nat, size: nat, uid: nat): Result
    requires PoolsValid(s.pools)
  {
    var i := if id == ANY_POOL then FirstServing(s.pools, size, 0) else id;
    if uid > UID_MAX || i >= MAX_POOLS || s.pools[i].None? then Err(Inval)
    else
      var p := s.pools[i].value;
      if size != 0 && size > p.blkSize then Err(Inval)
      else if FirstFree(p.free, 0) == p.blkCnt then Err(NoSpace)
      else Ok(Handle(i, FirstFree(p.free, 0)))
  }

  /** The free bit of one block set or cleared; out of range, nothing happens. */
  function SetBit(s: State, h: nat, bit: bool): State
    requires PoolsValid(s.pools)
  {
    var i, idx := PoolOf(h), IndexOf(h);
    if i < MAX_POOLS && s.pools[i].Some? && idx < s.pools[i].value.blkCnt then
      s.(pools := s.pools[i := Some(s.pools[i].value.(free := s.pools[i].value.free[idx := bit]))])
    else s
  }

  function Get(s: State, id: nat, size: nat, uid: nat): State
    requires PoolsValid(s.pools)
  {
    var r := GetResult(s, id, size, uid);
    if r.Ok? then SetBit(s, r.value, false) else s
  }

  /** VB_RLSBLK's answer: a handle of no pool is refused, an index past a live pool's blocks is not. */
  function ReleaseResult(s: State, h: nat): Result
    requires PoolsValid(s.pools)
  {
    if h > HANDLE_MAX || PoolOf(h) >= MAX_POOLS || s.pools[PoolOf(h)].None? then Err(Inval) else Ok(0)
  }

  /** VB_RLSBLK. */
  function ReleaseBlock(s: State, h: nat): State
    requires PoolsValid(s.pools)
  {
    if h <= HANDLE_MAX then SetBit(s, h, true) else s
  }

  /** VB_PA2HL. */
  function PaToHandle(s: State, phys: nat): Result
    requires PoolsValid(s.pools)
  {
    var i := FirstHolding(s.pools, phys, 0);
    if i == MAX_POOLS then Err(Inval)
    else Ok(Handle(i, (phys - s.pools[i].value.base) / s.pools[i].value.blkSize))
  }

  /** VB_HL2PA. */
  function HandleToPa(s: State, h: nat): Result
    requires PoolsValid(s.pools)
  {
    var i, idx := PoolOf(h), IndexOf(h);
    if h > HANDLE_MAX || i >= MAX_POOLS || s.pools[i].None? || idx >= s.pools[i].value.blkCnt then Err(Inval)
    else Ok(s.pools[i].value.base + idx * s.pools[i].value.blkSize)
  }

  // ---- the driver ----

  class VideoBuffers {
    const zone: MmbList
    const pools: array<Option<Pool>>

    ghost predicate Valid()
      reads this, zone, pools
    {
      zone.View().Valid() && pools.Length == MAX_POOLS && PoolsValid(pools[..])
    }

    ghost function View(): State
      reads this, zone, pools
    {
      State(zone.View(), pools[..])
    }

    constructor (zone: MmbList)
      requires zone.View().Valid()
      ensures Valid() && this.zone == zone && fresh(pools) && View() == State(zone.View(), seq(MAX_POOLS, i => None))
    {
      this.zone := zone;
      pools := new Option<Pool>[MAX_POOLS](i => None);
      new;
      assert pools[..] == seq(MAX_POOLS, i => None);
    }

    method Crtpl(blkSize: nat, blkCnt: nat, mem: bool) returns (r: Result)
      requires Valid()
      modifies zone, pools
      ensures r == CreateResult(old(View()), blkSize, blkCnt, mem)
      ensures View() == Create(old(View()), blkSize, blkCnt, mem)
    {
      if blkSize == 0 || blkCnt == 0 || blkCnt > MAX_BLOCKS || blkSize * blkCnt >= U64 {
        return Err(Inval);
      }
      var total, i := blkSize * blkCnt, 0;
      while i < MAX_POOLS && pools[i].Some?
        invariant i <= MAX_POOLS && FirstUnused(pools[..], 0) == FirstUnused(pools[..], i)
      {
        i := i + 1;
      }
      if i == MAX_POOLS {
        return Err(NoSpace);
      }
      ghost var z := zone.View();
      var b := zone.AllocLocked(total, PAGE);
      if b.None? {
        return Err(NoMem);
      }
      if !mem {
        ReleaseUndoesAlloc(z, total, PAGE);
        zone.Free(b.value.phys);
        return Err(NoMem);
      }
      pools[i] := Some(Pool(b.value.phys, blkSize, blkCnt, AllFree(blkCnt)));
      r := Ok(i);
    }

    method Destpl(id: nat) returns (ok: bool)
      requires Valid()
      modifies zone, pools
      ensures ok == (id < MAX_POOLS && old(pools[..])[id].Some?) && View() == Destroy(old(View()), id)
    {
      ok := id < MAX_POOLS && pools[id].Some?;
      if ok {
        zone.Free(pools[id].value.base);
        pools[id] := None;
      }
    }

    /** find_first_bit. */
    static method FindFirstBit(free: seq<bool>) returns (k: nat)
      ensures k == FirstFree(free, 0)
    {
      k := 0;
      while k < |free| && !free[k]
        invariant k <= |free| && FirstFree(free, 0) == FirstFree(free, k)
      {
        k := k + 1;
      }
    }

    method Getblk(id: nat, size: nat, uid: nat) returns (r: Result)
      requires Valid()
      modifies pools
      ensures r == GetResult(old(View()), id, size, uid) && View() == Get(old(View()), id, size, uid)
    {
      if uid > UID_MAX {
        return Err(Inval);
      }
      var i := id;
      if id == ANY_POOL {
        i := 0;
        while i < MAX_POOLS
          invariant pools[..] == old(pools[..])
          invariant i <= MAX_POOLS && FirstServing(pools[..], size, 0) == FirstServing(pools[..], size, i)
        {
          if pools[i].Some? && !(size != 0 && size > pools[i].value.blkSize) {
            var some := FindFirstBit(pools[i].value.free);
            if some < |pools[i].value.free| {
              break;
            }
          }
          i := i + 1;
        }
      }
      if i >= MAX_POOLS || pools[i].None? {
        return Err(Inval);
      }
      var p := pools[i].value;
      if size != 0 && size > p.blkSize {
        return Err(Inval);
      }
      var idx := FindFirstBit(p.free);
      if idx >= p.blkCnt {
        return Err(NoSpace);
      }
      HandleParts(i, idx);
      pools[i] := Some(p.(free := p.free[idx := false]));
      r := Ok(Handle(i, idx));
    }

    method Rlsblk(h: nat) returns (r: Result)
      requires Valid()
      modifies pools
      ensures r == ReleaseResult(old(View()), h) && View() == ReleaseBlock(old(View()), h)
    {
      var i, idx := PoolOf(h), IndexOf(h);
      if h > HANDLE_MAX || i >= MAX_POOLS || pools[i].None? {
        return Err(Inval);
      }
      if idx < pools[i].value.blkCnt {
        pools[i] := Some(pools[i].value.(free := pools[i].value.free[idx := true]));
      }
      r := Ok(0);
    }

    method Pa2hl(phys: nat) returns (r: Result)
      requires Valid()
      ensures r == PaToHandle(View(), phys)
    {
      var i := 0;
      while i < MAX_POOLS && !Holds(pools[i], phys)
        invariant i <= MAX_POOLS && FirstHolding(pools[..], phys, 0) == FirstHolding(pools[..], phys, i)
      {
        i := i + 1;
      }
      r := if i == MAX_POOLS then Err(Inval) else Ok(Handle(i, (phys - pools[i].value.base) / pools[i].value.blkSize));
    }

    method Hl2pa(h: nat) returns (r: Result)
      requires Valid()
      ensures r == HandleToPa(View(), h)
    {
      var i, idx := PoolOf(h), IndexOf(h);
      if h > HANDLE_MAX || i >= MAX_POOLS || pools[i].None? || idx >= pools[i].value.blkCnt {
        return Err(Inval);
      }
      r := Ok(pools[i].value.base + idx * pools[i].value.blkSize);
    }
  }

  lemma HandleParts(pid: nat, idx: nat)
    requires idx < SPAN
    ensures PoolOf(Handle(pid, idx)) == pid && IndexOf(Handle(pid, idx)) == idx
  {
    DivModUnique(Handle(pid, idx), SPAN, pid, idx);
  }

  // ---- the two layers together ----

  /** The pool's memory is one block of the zone, starting at its base and large enough. */
  predicate Backed(z: Zone, p: Pool) {
    var k := Find(z.blocks, p.base);
    k < |z.blocks| && z.blocks[k].phys == p.base && z.blocks[k].size >= p.Total()
  }

  predicate Inv(s: State) {
    && s.zone.Valid() && PoolsValid(s.pools)
    && (forall i :: 0 <= i < MAX_POOLS && s.pools[i].Some? ==> Backed(s.zone, s.pools[i].value))
    && (forall i, j :: 0 <= i < j < MAX_POOLS && s.pools[i].Some? && s.pools[j].Some? ==>
          s.pools[i].value.base != s.pools[j].value.base)
  }

  datatype Event =
    | Crtpl(blkSize: nat, blkCnt: nat, mem: bool)
    | Destpl(id: nat)
    | Getblk(pool: nat, size: nat, uid: nat)
    | Rlsblk(h: nat)
    | ForeignAlloc(bytes: nat, align: nat)
    | ForeignFree(addr: nat)

  /** Other users of the zone do not free what belongs to a pool. */
  predicate Enabled(s: State, e: Event)
    requires PoolsValid(s.pools)
  {
    match e
    case ForeignFree(addr) =>
      var k := Find(s.zone.blocks, addr);
      k < |s.zone.blocks| ==>
        forall i :: 0 <= i < MAX_POOLS && s.pools[i].Some? ==> s.pools[i].value.base != s.zone.blocks[k].phys
    case _ => true
  }

  function Apply(s: State, e: Event): State
    requires PoolsValid(s.pools)
  {
    match e
    case Crtpl(blkSize, blkCnt, mem) => Create(s, blkSize, blkCnt, mem)
    case Destpl(id) => Destroy(s, id)
    case Getblk(pool, size, uid) => Get(s, pool, size, uid)
    case Rlsblk(h) => ReleaseBlock(s, h)
    case ForeignAlloc(bytes, align) => s.(zone := Alloc(s.zone, bytes, align))
    case ForeignFree(addr) => s.(zone := Release(s.zone, addr))
  }

  lemma SomeBlock(blocks: seq<Block>, b: Block)
    requires b in multiset(blocks)
    ensures exists k :: 0 <= k < |blocks| && blocks[k] == b
  {
  }

  /** A block still listed still backs its pool. */
  lemma BackedByBlock(z: Zone, p: Pool, b: Block)
    requires z.Valid() && b in multiset(z.blocks) && b.phys == p.base && b.size >= p.Total() && b.size > 0
    ensures Backed(z, p)
  {
    SomeBlock(z.blocks, b);
    var k :| 0 <= k < |z.blocks| && z.blocks[k] == b;
    assert b.Contains(p.base);
    FindIsUnique(z.blocks, k, p.base);
  }

  lemma {:induction false} AllocKeepsBacked(z: Zone, size: nat, align: nat, p: Pool)
    requires z.Valid() && Backed(z, p)
    ensures Alloc(z, size, align).Valid() && Backed(Alloc(z, size, align), p)
    ensures FirstFit(z, size, align).Some? ==> FirstFit(z, size, align).value != p.base
  {
    AllocKeepsValid(z, size, align);
    var b := z.blocks[Find(z.blocks, p.base)];
    assert b in multiset(z.blocks);
    BackedByBlock(Alloc(z, size, align), p, b);
  }

  lemma ReleaseKeepsBacked(z: Zone, addr: nat, p: Pool)
    requires z.Valid() && Backed(z, p)
    requires var k := Find(z.blocks, addr); k < |z.blocks| ==> z.blocks[k].phys != p.base
    ensures Release(z, addr).Valid() && Backed(Release(z, addr), p)
  {
    var k := Find(z.blocks, addr);
    if k < |z.blocks| {
      DropKeepsValid(z, k);
      var i := Find(z.blocks, p.base);
      StillListed(z.blocks, i, k);
      hide Zone.Valid, Find, Drop;
      BackedByBlock(Release(z, addr), p, z.blocks[i]);
    }
  }

  lemma StillListed(blocks: seq<Block>, i: nat, k: nat)
    requires i < |blocks| && k < |blocks| && i != k
    ensures blocks[i] in Drop(blocks, k)
  {
    assert Drop(blocks, k)[if i < k then i else i - 1] == blocks[i];
  }

  lemma ReleaseKeepsValid(z: Zone, addr: nat)
    requires z.Valid()
    ensures Release(z, addr).Valid()
  {
    if Find(z.blocks, addr) < |z.blocks| {
      DropKeepsValid(z, Find(z.blocks, addr));
    }
  }

  lemma {:induction false} NewPoolBacked(z: Zone, p: Pool)
    requires z.Valid() && p.Valid() && p.Total() > 0
    requires FirstFit(z, p.Total(), PAGE) == Some(p.base)
    ensures Backed(Alloc(z, p.Total(), PAGE), p)
  {
    AllocKeepsValid(z, p.Total(), PAGE);
    BackedByBlock(Alloc(z, p.Total(), PAGE), p, NewBlock(p.base, AlignWrap(p.Total(), PAGE)));
  }

  lemma PositiveProduct(a: nat, b: nat)
    requires a > 0 && b > 0
    ensures a * b > 0
  {
  }

  lemma {:induction false} CreateKeepsInv(s: State, blkSize: nat, blkCnt: nat, mem: bool)
    requires Inv(s)
    ensures Inv(Create(s, blkSize, blkCnt, mem))
  {
    var r, t := CreateResult(s, blkSize, blkCnt, mem), Create(s, blkSize, blkCnt, mem);
    if r.Ok? {
      var p := t.pools[r.value].value;
      PositiveProduct(blkSize, blkCnt);
      NewPoolBacked(s.zone, p);
      AllocKeepsValid(s.zone, p.Total(), PAGE);
      forall i | 0 <= i < MAX_POOLS && s.pools[i].Some?
        ensures Backed(t.zone, s.pools[i].value) && s.pools[i].value.base != p.base
      {
        AllocKeepsBacked(s.zone, p.Total(), PAGE, s.pools[i].value);
      }
    }
  }

  lemma {:induction false} DestroyKeepsInv(s: State, id: nat)
    requires Inv(s)
    ensures Inv(Destroy(s, id))
  {
    var t := Destroy(s, id);
    if id < MAX_POOLS && s.pools[id].Some? {
      ReleaseKeepsValid(s.zone, s.pools[id].value.base);
      forall i | 0 <= i < MAX_POOLS && i != id && s.pools[i].Some?
        ensures Backed(t.zone, s.pools[i].value)
      {
        ReleaseKeepsBacked(s.zone, s.pools[id].value.base, s.pools[i].value);
      }
    }
  }

  lemma SetBitKeepsInv(s: State, h: nat, bit: bool)
    requires Inv(s)
    ensures Inv(SetBit(s, h, bit))
  {
    var t := SetBit(s, h, bit);
    forall i | 0 <= i < MAX_POOLS && t.pools[i].Some?
      ensures s.pools[i].Some? && t.pools[i].value.base == s.pools[i].value.base
              && t.pools[i].value.Total() == s.pools[i].value.Total() && t.pools[i].value.Valid()
    {
    }
  }

  lemma ForeignKeepsInv(s: State, e: Event)
    requires Inv(s) && Enabled(s, e) && (e.ForeignAlloc? || e.ForeignFree?)
    ensures Inv(Apply(s, e))
  {
    var t := Apply(s, e);
    if e.ForeignAlloc? {
      AllocKeepsValid(s.zone, e.bytes, e.align);
    } else {
      ReleaseKeepsValid(s.zone, e.addr);
    }
    forall i | 0 <= i < MAX_POOLS && s.pools[i].Some?
      ensures Backed(t.zone, s.pools[i].value)
    {
      if e.ForeignAlloc? {
        AllocKeepsBacked(s.zone, e.bytes, e.align, s.pools[i].value);
      } else {
        ReleaseKeepsBacked(s.zone, e.addr, s.pools[i].value);
      }
    }
  }

  lemma {:induction false} StepKeepsInv(s: State, e: Event)
    requires Inv(s) && Enabled(s, e)
    ensures Inv(Apply(s, e))
  {
    match e {
      case Crtpl(blkSize, blkCnt, mem) => CreateKeepsInv(s, blkSize, blkCnt, mem);
      case Destpl(id) => DestroyKeepsInv(s, id);
      case Getblk(pool, size, uid) =>
        var r := GetResult(s, pool, size, uid);
        if r.Ok? {
          SetBitKeepsInv(s, r.value, false);
        }
      case Rlsblk(h) => SetBitKeepsInv(s, h, true);
      case _ => ForeignKeepsInv(s, e);
    }
  }

  // ---- runs ----

  function Boot(base: nat, size: nat): (s: State)
    ensures PoolsValid(s.pools)
  {
    State(Zone(base, size, []), seq(MAX_POOLS, i => None))
  }

  function Exec(s: State, es: seq<Event>): (r: State)
    requires PoolsValid(s.pools)
    ensures PoolsValid(r.pools)
  {
    if es == [] then s else Apply(Exec(s, es[..|es| - 1]), es[|es| - 1])
  }

  predicate Legal(s: State, es: seq<Event>)
    requires PoolsValid(s.pools)
  {
    es == [] || (Legal(s, es[..|es| - 1]) && Enabled(Exec(s, es[..|es| - 1]), es[|es| - 1]))
  }

  lemma {:induction false} RunKeepsInv(s: State, es: seq<Event>)
    requires Inv(s) && Legal(s, es)
    ensures Inv(Exec(s, es))
    decreases |es|
  {
    if es != [] {
      RunKeepsInv(s, es[..|es| - 1]);
      StepKeepsInv(Exec(s, es[..|es| - 1]), es[|es| - 1]);
    }
  }

  lemma BootIsInv(base: nat, size: nat)
    requires base + 2 * size <= U64
    ensures Inv(Boot(base, size))
  {
  }

  // ---- disjoint buffers ----

  /** h names a block of a live pool. */
  predicate Names(s: State, h: nat)
    requires PoolsValid(s.pools)
  {
    PoolOf(h) < MAX_POOLS && s.pools[PoolOf(h)].Some? && IndexOf(h) < s.pools[PoolOf(h)].value.blkCnt
  }

  /** ... that has been granted and not released. */
  predicate Outstanding(s: State, h: nat)
    requires PoolsValid(s.pools)
  {
    Names(s, h) && !s.pools[PoolOf(h)].value.free[IndexOf(h)]
  }

  function Start(s: State, h: nat): nat
    requires PoolsValid(s.pools) && Names(s, h)
  {
    s.pools[PoolOf(h)].value.base + IndexOf(h) * s.pools[PoolOf(h)].value.blkSize
  }

  function Length(s: State, h: nat): nat
    requires PoolsValid(s.pools) && Names(s, h)
  {
    s.pools[PoolOf(h)].value.blkSize
  }

  lemma {:induction false} StepFits(i: nat, n: nat, size: nat)
    requires i < n
    ensures i * size + size <= n * size && size * n == n * size
  {
    MulMono(size, i + 1, n);
    assert size * (i + 1) == size * i + size;
  }

  /** A named block lies inside its pool. */
  lemma {:induction false} BlockInPool(s: State, h: nat)
    requires PoolsValid(s.pools) && Names(s, h)
    ensures var p := s.pools[PoolOf(h)].value;
            p.base <= Start(s, h) && Start(s, h) + Length(s, h) <= p.base + p.Total() && Length(s, h) > 0
  {
    var p := s.pools[PoolOf(h)].value;
    StepFits(IndexOf(h), p.blkCnt, p.blkSize);
  }

  lemma {:induction false} PoolsApart(s: State, i: nat, j: nat)
    requires Inv(s) && i < MAX_POOLS && j < MAX_POOLS && i != j && s.pools[i].Some? && s.pools[j].Some?
    ensures var p, q := s.pools[i].value, s.pools[j].value; Disjoint(p.base, p.Total(), q.base, q.Total())
  {
    var p, q := s.pools[i].value, s.pools[j].value;
    var k, m := Find(s.zone.blocks, p.base), Find(s.zone.blocks, q.base);
    assert Backed(s.zone, p) && Backed(s.zone, q) && p.base != q.base && k != m;
    if k < m {
      assert s.zone.blocks[k].End() <= s.zone.blocks[m].phys;
    } else {
      assert s.zone.blocks[m].End() <= s.zone.blocks[k].phys;
    }
  }

  /** Distinct handles that name blocks, of the same pool or of two, denote disjoint ranges inside the zone. */
  lemma {:induction false} NamedBlocksDisjoint(s: State, h: nat, g: nat)
    requires Inv(s) && Names(s, h) && Names(s, g) && h != g
    ensures Disjoint(Start(s, h), Length(s, h), Start(s, g), Length(s, g))
  {
    BlockInPool(s, h);
    BlockInPool(s, g);
    if PoolOf(h) == PoolOf(g) {
      var i, j, n := IndexOf(h), IndexOf(g), Length(s, h);
      assert i != j;
      if i < j {
        StepFits(i, j, n);
      } else {
        StepFits(j, i, n);
      }
    } else {
      PoolsApart(s, PoolOf(h), PoolOf(g));
    }
  }

  /** A zone block that is no pool's own, such as another driver's buffer, misses every named block. */
  lemma {:induction false} NamedBlockClearOfOthers(s: State, h: nat, k: nat)
    requires Inv(s) && Names(s, h) && k < |s.zone.blocks|
    requires s.zone.blocks[k].phys != s.pools[PoolOf(h)].value.base
    ensures Disjoint(Start(s, h), Length(s, h), s.zone.blocks[k].phys, s.zone.blocks[k].size)
    ensures s.zone.base <= Start(s, h) && Start(s, h) + Length(s, h) <= s.zone.base + s.zone.size
  {
    BlockInPool(s, h);
    var p := s.pools[PoolOf(h)].value;
    assert Backed(s.zone, p);
    var m := Find(s.zone.blocks, p.base);
    if k < m {
      assert s.zone.blocks[k].End() <= s.zone.blocks[m].phys;
    } else {
      assert s.zone.blocks[m].End() <= s.zone.blocks[k].phys;
    }
  }

  // ---- a handle is not reissued while it is out ----

  /** What GETBLK grants was not outstanding, is afterwards, and no other handle changes. */
  lemma {:induction false} GrantIsFresh(s: State, id: nat, size: nat, uid: nat, g: nat)
    requires PoolsValid(s.pools) && GetResult(s, id, size, uid).Ok?
    ensures var h := GetResult(s, id, size, uid).value;
            && !Outstanding(s, h) && Outstanding(Get(s, id, size, uid), h) && h <= HANDLE_MAX
            && (id != ANY_POOL ==> PoolOf(h) == id) && size <= Length(s, h)
            && (g != h ==> (Outstanding(Get(s, id, size, uid), g) <==> Outstanding(s, g)))
  {
    var i := if id == ANY_POOL then FirstServing(s.pools, size, 0) else id;
    HandleParts(i, FirstFree(s.pools[i].value.free, 0));
    SamePartsSameHandle(g, GetResult(s, id, size, uid).value);
  }

  lemma SamePartsSameHandle(g: nat, h: nat)
    ensures PoolOf(g) == PoolOf(h) && IndexOf(g) == IndexOf(h) ==> g == h
  {
  }

  predicate Gives(e: Event, h: nat) {
    (e.Rlsblk? && e.h == h) || (e.Destpl? && e.id == PoolOf(h))
  }

  lemma StepKeepsOutstanding(s: State, e: Event, h: nat)
    requires PoolsValid(s.pools) && Outstanding(s, h) && !Gives(e, h)
    ensures Outstanding(Apply(s, e), h)
    ensures Start(Apply(s, e), h) == Start(s, h) && Length(Apply(s, e), h) == Length(s, h)
  {
    match e {
      case Getblk(id, size, uid) =>
        if GetResult(s, id, size, uid).Ok? {
          GrantIsFresh(s, id, size, uid, h);
        }
      case Rlsblk(g) => SamePartsSameHandle(g, h);
      case _ =>
    }
  }

  predicate GivesNone(es: seq<Event>, h: nat) {
    forall i :: 0 <= i < |es| ==> !Gives(es[i], h)
  }

  lemma {:induction false} OutstandingStays(s: State, es: seq<Event>, h: nat)
    requires PoolsValid(s.pools) && Outstanding(s, h) && GivesNone(es, h)
    ensures Outstanding(Exec(s, es), h)
    ensures Start(Exec(s, es), h) == Start(s, h) && Length(Exec(s, es), h) == Length(s, h)
    decreases |es|
  {
    if es != [] {
      OutstandingStays(s, es[..|es| - 1], h);
      StepKeepsOutstanding(Exec(s, es[..|es| - 1]), es[|es| - 1], h);
    }
  }

  /**
   * Over every run: once granted, a handle is not granted again before its RLSBLK or its pool's DESTPL, keeps
   * its range until then, and that range misses the range of every other outstanding handle.
   */
  lemma {:induction false} HandlesAreExclusive(base: nat, size: nat, before: seq<Event>, after: seq<Event>,
                                              h: nat, g: nat, id: nat, need: nat, uid: nat)
    requires base + 2 * size <= U64
    requires Legal(Boot(base, size), before)
    requires var s := Exec(Boot(base, size), before);
             Outstanding(s, h) && Legal(s, after) && GivesNone(after, h)
    ensures var s := Exec(Boot(base, size), before);
            var t := Exec(s, after);
            && Outstanding(t, h) && Start(t, h) == Start(s, h) && Length(t, h) == Length(s, h)
            && GetResult(t, id, need, uid) != Ok(h)
            && (Outstanding(t, g) && g != h ==> Disjoint(Start(t, h), Length(t, h), Start(t, g), Length(t, g)))
  {
    var s := Exec(Boot(base, size), before);
    var t := Exec(s, after);
    BootIsInv(base, size);
    RunKeepsInv(Boot(base, size), before);
    RunKeepsInv(s, after);
    OutstandingStays(s, after, h);
    if GetResult(t, id, need, uid).Ok? {
      GrantIsFresh(t, id, need, uid, h);
    }
    if Outstanding(t, g) && g != h {
      NamedBlocksDisjoint(t, h, g);
    }
  }

  // ---- what each command does, told from the handles ----

  /** A handle as the ioctls carry it: the pool number above 16 bits of block index. */
  lemma HandleLayout(h: nat)
    ensures PoolOf(h) == h / 0x1_0000 && IndexOf(h) == h % 0x1_0000 && Handle(PoolOf(h), IndexOf(h)) == h
  {
  }

  lemma {:induction false} NamedHandleIsSmall(s: State, h: nat)
    requires PoolsValid(s.pools) && Names(s, h)
    ensures h <= HANDLE_MAX
  {
  }

  /** RLSBLK gives back the named block, and that block only; anything else changes nothing. */
  lemma {:induction false} ReleaseFreesOnly(s: State, h: nat, g: nat)
    requires PoolsValid(s.pools)
    ensures var t := ReleaseBlock(s, h);
            && (Names(s, h) ==> Names(t, h) && !Outstanding(t, h) && Start(t, h) == Start(s, h)
                                && Length(t, h) == Length(s, h))
            && (g != h ==> (Names(t, g) <==> Names(s, g)) && (Outstanding(t, g) <==> Outstanding(s, g)))
            && (!Names(s, h) ==> t == s) && t.zone == s.zone
    ensures ReleaseResult(s, h).Ok? <==>
            h / 0x1_0000 < 512 && s.pools[h / 0x1_0000].Some?
  {
    if Names(s, h) {
      NamedHandleIsSmall(s, h);
    }
    SamePartsSameHandle(g, h);
  }

  /** A pool has a free bit if and only if some block it names is not out. */
  lemma {:induction false} FreeBitIff(s: State, i: nat)
    requires PoolsValid(s.pools) && i < MAX_POOLS && s.pools[i].Some?
    ensures var free := s.pools[i].value.free;
            FirstFree(free, 0) < |free| <==> exists h: nat :: Names(s, h) && h / 0x1_0000 == i && !Outstanding(s, h)
  {
    var free := s.pools[i].value.free;
    var k := FirstFree(free, 0);
    if k < |free| {
      HandleParts(i, k);
      var h := Handle(i, k);
      assert Names(s, h) && h / 0x1_0000 == i && !Outstanding(s, h);
    } else {
      forall h: nat | Names(s, h) && h / 0x1_0000 == i
        ensures Outstanding(s, h)
      {
        assert !free[IndexOf(h)];
      }
    }
  }

  /**
   * When GETBLK succeeds: on a given pool, for a valid user and size, if and only if one of its blocks is not out;
   * on any pool, if and only if a live pool with blocks large enough has one that is not.
   */
  lemma {:induction false} GetSucceedsIff(s: State, id: nat, size: nat, uid: nat)
    requires PoolsValid(s.pools)
    ensures id != 0xffff_ffff ==>
              (GetResult(s, id, size, uid).Ok? <==>
                 && uid <= 0x17 && id < 512 && s.pools[id].Some? && size <= s.pools[id].value.blkSize
                 && exists h: nat :: Names(s, h) && h / 0x1_0000 == id && !Outstanding(s, h))
    ensures id == 0xffff_ffff ==>
              (GetResult(s, id, size, uid).Ok? <==>
                 uid <= 0x17 && exists h: nat :: Names(s, h) && size <= Length(s, h) && !Outstanding(s, h))
  {
    if id != ANY_POOL {
      if id < MAX_POOLS && s.pools[id].Some? {
        FreeBitIff(s, id);
      }
    } else {
      var i := FirstServing(s.pools, size, 0);
      if i < MAX_POOLS {
        FreeBitIff(s, i);
        var h: nat :| Names(s, h) && h / 0x1_0000 == i && !Outstanding(s, h);
        assert size <= Length(s, h);
      } else {
        forall h: nat | Names(s, h) && size <= Length(s, h)
          ensures Outstanding(s, h)
        {
          FreeBitIff(s, PoolOf(h));
        }
      }
    }
  }

  /** The block granted is the lowest of its pool that is not out, and the handle says which pool and block. */
  lemma {:induction false} GrantIsLowest(s: State, id: nat, size: nat, uid: nat, g: nat)
    requires PoolsValid(s.pools) && GetResult(s, id, size, uid).Ok?
    ensures var h := GetResult(s, id, size, uid).value;
            && (id != 0xffff_ffff ==> h / 0x1_0000 == id)
            && (Names(s, g) && g / 0x1_0000 == h / 0x1_0000 && g < h ==> Outstanding(s, g))
  {
    var i := if id == ANY_POOL then FirstServing(s.pools, size, 0) else id;
    HandleParts(i, FirstFree(s.pools[i].value.free, 0));
  }

  /** Releasing what was just granted puts everything back, so the same request is granted the same block again. */
  lemma {:induction false} ReleaseUndoesGet(s: State, id: nat, size: nat, uid: nat)
    requires PoolsValid(s.pools) && GetResult(s, id, size, uid).Ok?
    ensures ReleaseBlock(Get(s, id, size, uid), GetResult(s, id, size, uid).value) == s
  {
    var h := GetResult(s, id, size, uid).value;
    GrantIsFresh(s, id, size, uid, h);
    var i, idx := PoolOf(h), IndexOf(h);
    var t := Get(s, id, size, uid);
    var free := s.pools[i].value.free;
    assert free[idx := false][idx := true] == free;
    assert ReleaseBlock(t, h).pools == s.pools;
  }

  /** Over any run, a block released is one that its pool can grant, to whoever asks with a valid user and size. */
  lemma {:induction false} ReleasedIsGrantable(s: State, es: seq<Event>, h: nat, size: nat, uid: nat)
    requires PoolsValid(s.pools) && Names(Exec(s, es), h)
    ensures var t := Exec(s, es + [Rlsblk(h)]);
            uid <= 0x17 && size <= Length(Exec(s, es), h) ==>
              GetResult(t, h / 0x1_0000, size, uid).Ok? && GetResult(t, 0xffff_ffff, size, uid).Ok?
  {
    var all := es + [Rlsblk(h)];
    assert all[..|all| - 1] == es;
    ReleaseFreesOnly(Exec(s, es), h, h);
    GetSucceedsIff(Exec(s, all), h / 0x1_0000, size, uid);
    GetSucceedsIff(Exec(s, all), 0xffff_ffff, size, uid);
  }

  /**
   * CRTPL succeeds if and only if the geometry is sound, a slot and memory for the bitmap are there, and the zone has
   * room; the new pool has the blocks asked for, none of them out, and no other pool changes.
   */
  lemma {:induction false} CreateIsExact(s: State, blkSize: nat, blkCnt: nat, mem: bool, g: nat)
    requires PoolsValid(s.pools)
    ensures var r, t := CreateResult(s, blkSize, blkCnt, mem), Create(s, blkSize, blkCnt, mem);
            && (r.Ok? <==>
                  && SoundGeometry(blkSize, blkCnt) && mem
                  && (exists i :: 0 <= i < 512 && s.pools[i].None?)
                  && FirstFit(s.zone, blkSize * blkCnt, 0x1000).Some?)
            && (r.Err? ==> t == s)
            && (r.Ok? ==>
                  && r.value < 512 && s.pools[r.value].None?
                  && t.zone == Alloc(s.zone, blkSize * blkCnt, 0x1000)
                  && (g / 0x1_0000 == r.value ==>
                        && (Names(t, g) <==> g % 0x1_0000 < blkCnt) && !Outstanding(t, g)
                        && (Names(t, g) ==>
                              && Length(t, g) == blkSize
                              && Start(t, g) == FirstFit(s.zone, blkSize * blkCnt, 0x1000).value
                                                + g % 0x1_0000 * blkSize))
                  && (g / 0x1_0000 < 512 && g / 0x1_0000 != r.value ==>
                        t.pools[g / 0x1_0000] == s.pools[g / 0x1_0000]))
  {
    var i := FirstUnused(s.pools, 0);
    if i == MAX_POOLS {
      assert forall j :: 0 <= j < 512 ==> s.pools[j].Some?;
    }
    hide FirstFit, Alloc, FirstUnused;
  }

  /** Blocks of a size, up to 65535 of them, whose total fits 64 bits. */
  predicate SoundGeometry(blkSize: nat, blkCnt: nat) {
    blkSize > 0 && 0 < blkCnt <= 0xffff && blkSize * blkCnt < 0x1_0000_0000_0000_0000
  }

  /** CRTPL's errors: unsound geometry, or no slot, or no memory for the blocks or the bitmap. */
  lemma {:induction false} CreateErrors(s: State, blkSize: nat, blkCnt: nat, mem: bool)
    requires PoolsValid(s.pools)
    ensures CreateResult(s, blkSize, blkCnt, mem) == Err(Inval) <==> !SoundGeometry(blkSize, blkCnt)
    ensures CreateResult(s, blkSize, blkCnt, mem) == Err(NoSpace) <==>
              SoundGeometry(blkSize, blkCnt) && forall i :: 0 <= i < 512 ==> s.pools[i].Some?
    ensures CreateResult(s, blkSize, blkCnt, mem) == Err(NoMem) <==>
            && SoundGeometry(blkSize, blkCnt) && (mem ==> FirstFit(s.zone, blkSize * blkCnt, 0x1000).None?)
            && exists i :: 0 <= i < 512 && s.pools[i].None?
  {
    var i := FirstUnused(s.pools, 0);
    if i == MAX_POOLS {
      assert forall j :: 0 <= j < 512 ==> s.pools[j].Some?;
    }
    hide FirstFit, FirstUnused;
  }

  /** GETBLK's errors: a full pool is told apart only when it was asked for by number. */
  lemma {:induction false} GetErrors(s: State, id: nat, size: nat, uid: nat)
    requires PoolsValid(s.pools) && GetResult(s, id, size, uid).Err?
    ensures GetResult(s, id, size, uid).errno in {Inval, NoSpace}
    ensures GetResult(s, id, size, uid) == Err(NoSpace) <==>
            && uid <= 0x17 && id < 512 && s.pools[id].Some? && size <= s.pools[id].value.blkSize
            && forall h: nat :: Names(s, h) && h / 0x1_0000 == id ==> Outstanding(s, h)
  {
    if id < MAX_POOLS && s.pools[id].Some? {
      FreeBitIff(s, id);
    }
    hide Names, Outstanding;
  }

  /** DESTPL of a live pool takes its handles away and gives its memory back; nothing else changes. */
  lemma {:induction false} DestroyIsExact(s: State, id: nat, g: nat)
    requires PoolsValid(s.pools)
    ensures var t := Destroy(s, id);
            && (id < 512 && s.pools[id].Some? ==>
                  && t.pools[id].None? && t.zone == Release(s.zone, s.pools[id].value.base)
                  && (g < 512 && g != id ==> t.pools[g] == s.pools[g]))
            && (!(id < 512 && s.pools[id].Some?) ==> t == s)
  {
  }

  /** Destroying a pool just created restores the zone and the table. */
  lemma {:induction false} DestroyUndoesCreate(s: State, blkSize: nat, blkCnt: nat, mem: bool)
    requires PoolsValid(s.pools) && s.zone.Valid() && CreateResult(s, blkSize, blkCnt, mem).Ok?
    ensures Destroy(Create(s, blkSize, blkCnt, mem), CreateResult(s, blkSize, blkCnt, mem).value) == s
  {
    var id, t := CreateResult(s, blkSize, blkCnt, mem).value, Create(s, blkSize, blkCnt, mem);
    ReleaseUndoesAlloc(s.zone, blkSize * blkCnt, PAGE);
    assert t.pools[id := None] == s.pools;
    hide FirstFit, Alloc, Release;
  }

  /** HL2PA and PA2HL fail exactly for a handle that names no block and an address in no pool. */
  lemma {:induction false} TranslationFailsIff(s: State, h: nat, phys: nat)
    requires PoolsValid(s.pools)
    ensures HandleToPa(s, h).Err? <==> !Names(s, h)
    ensures PaToHandle(s, phys).Err? <==> forall i :: 0 <= i < 512 ==> !Holds(s.pools[i], phys)
  {
    if Names(s, h) {
      NamedHandleIsSmall(s, h);
    }
  }

  // ---- addresses and handles are inverse ----

  lemma HoldingIsUnique(s: State, phys: nat, i: nat)
    requires Inv(s) && i < MAX_POOLS && Holds(s.pools[i], phys)
    ensures FirstHolding(s.pools, phys, 0) == i
  {
    var k := FirstHolding(s.pools, phys, 0);
    if k < i {
      PoolsApart(s, k, i);
    }
  }

  /** A valid handle comes back from its own address, and from any address inside its block. */
  lemma {:induction false} HandleRoundTrip(s: State, h: nat, offset: nat)
    requires Inv(s) && Names(s, h) && offset < Length(s, h)
    ensures HandleToPa(s, h) == Ok(Start(s, h)) && PaToHandle(s, Start(s, h) + offset) == Ok(h)
  {
    var i, idx := PoolOf(h), IndexOf(h);
    var p := s.pools[i].value;
    BlockInPool(s, h);
    HoldingIsUnique(s, Start(s, h) + offset, i);
    DivModUnique(idx * p.blkSize + offset, p.blkSize, idx, offset);
    assert h == Handle(i, idx);
  }

  /** An address inside a pool maps to the start of the block that contains it. */
  lemma {:induction false} AddressRoundTrip(s: State, phys: nat, i: nat)
    requires Inv(s) && i < MAX_POOLS && Holds(s.pools[i], phys)
    ensures PaToHandle(s, phys).Ok?
    ensures var h := PaToHandle(s, phys).value;
            && Names(s, h) && PoolOf(h) == i && HandleToPa(s, h) == Ok(Start(s, h))
            && Start(s, h) <= phys < Start(s, h) + Length(s, h)
  {
    var p := s.pools[i].value;
    var x := phys - p.base;
    var idx := x / p.blkSize;
    HoldingIsUnique(s, phys, i);
    QuotientBelow(x, p.blkSize, p.blkCnt);
    HandleParts(i, idx);
    hide Inv, FirstHolding, Handle, PoolOf, IndexOf;
  }

  lemma QuotientBelow(x: nat, size: nat, n: nat)
    requires size > 0 && x < size * n
    ensures x / size < n && (x / size) * size <= x < (x / size) * size + size
  {
    var q := x / size;
    assert x == size * q + x % size;
    MulMono(size, n, q);
  }
}
