/**
 * The per-client dma-buf mapping cache (modules/ml_dmabuf_map.h): forty slots keyed by dma_buf identity, least
 * recently used out. A buffer's segment is a function of the buffer; what attach and map return is a parameter.
 */
module BufCache {
  const ENTRIES := 40
  const U64_MAX := 0xffff_ffff_ffff_ffff

  datatype Dir = ToDevice | FromDevice | Both

  datatype Seg = Seg(base: nat, size: nat)

  datatype Slot = Free | Busy(db: nat, dir: Dir, seg: Seg)

  /** A kernel error code; 0 means success and is never one. */
  type Errno = e: int | e != 0 witness -1

  datatype Result = Ok(slot: nat) | Err(errno: Errno)

  /** The cache, and what it holds outside itself: one reference per buffer, one attachment mapping per buffer. */
  datatype Cache = Cache(ent: seq<Slot>, stamp: seq<nat>, tick: nat,
                         held: multiset<nat>, mapped: multiset<(nat, Dir)>) {
    predicate Sized() {
      |ent| == |stamp| == ENTRIES
    }
  }

  const EMPTY := Cache(seq(ENTRIES, i => Free), seq(ENTRIES, i => 0), 0, multiset{}, multiset{})

  /** The first slot holding the buffer, or the table's length. */
  function FindDb(ent: seq<Slot>, db: nat, i: nat): (k: nat)
    requires i <= |ent|
    ensures i <= k <= |ent| && (k < |ent| ==> ent[k].Busy? && ent[k].db == db)
    ensures forall j :: i <= j < k ==> !(ent[j].Busy? && ent[j].db == db)
    decreases |ent| - i
  {
    if i == |ent| || (ent[i].Busy? && ent[i].db == db) then i else FindDb(ent, db, i + 1)
  }

  function FindFree(ent: seq<Slot>, i: nat): (k: nat)
    requires i <= |ent|
    ensures i <= k <= |ent| && (k < |ent| ==> ent[k].Free?)
    ensures forall j :: i <= j < k ==> ent[j].Busy?
    decreases |ent| - i
  {
    if i == |ent| || ent[i].Free? then i else FindFree(ent, i + 1)
  }

  /** The first slot with the smallest stamp among the first n. */
  function Oldest(stamp: seq<nat>, n: nat): (k: nat)
    requires 0 < n <= |stamp|
    ensures k < n && forall j :: 0 <= j < n ==> stamp[k] <= stamp[j]
    ensures forall j :: 0 <= j < k ==> stamp[k] < stamp[j]
  {
    if n == 1 then 0
    else
      var k := Oldest(stamp, n - 1);
      if stamp[n - 1] < stamp[k] then n - 1 else k
  }

  predicate CanServe(have: Dir, want: Dir) {
    have == want || have == Both
  }

  /** ml_bufmap_unmap: the mapping and the entry's reference go. */
  function Unmap(c: Cache, k: nat): (r: Cache)
    requires c.Sized() && k < ENTRIES && c.ent[k].Busy?
    ensures r.Sized()
  {
    c.(ent := c.ent[k := Free], held := c.held - multiset{c.ent[k].db},
       mapped := c.mapped - multiset{(c.ent[k].db, c.ent[k].dir)})
  }

  /** Mapping into a free slot with the reference already taken; a failed map gives the reference back. */
  function MapInto(segs: nat -> Seg, c: Cache, k: nat, db: nat, dir: Dir, err: int): (Cache, Result)
    requires c.Sized() && k < ENTRIES
  {
    if err != 0 then (c.(held := c.held - multiset{db}), Err(err))
    else
      (c.(ent := c.ent[k := Busy(db, dir, segs(db))], stamp := c.stamp[k := c.tick + 1], tick := c.tick + 1,
          mapped := c.mapped + multiset{(db, dir)}),
       Ok(k))
  }

  /** ml_bufcache_map_fd once dma_buf_get has returned db. */
  function MapFd(segs: nat -> Seg, c: Cache, db: nat, dir: Dir, err: int): (Cache, Result)
    requires c.Sized()
  {
    var g := c.(held := c.held + multiset{db});
    var k, f := FindDb(c.ent, db, 0), FindFree(c.ent, 0);
    if k < ENTRIES then
      if CanServe(c.ent[k].dir, dir) then
        (c.(stamp := c.stamp[k := c.tick + 1], tick := c.tick + 1), Ok(k))
      else MapInto(segs, Unmap(g, k), k, db, Both, err)
    else if f < ENTRIES then MapInto(segs, g, f, db, dir, err)
    else
      var o := Oldest(c.stamp, ENTRIES);
      MapInto(segs, Unmap(g, o), o, db, dir, err)
  }

  // ---- the cache as the drivers embed it ----

  class MappingCache {
    const segs: nat -> Seg
    const ent: array<Slot>
    const stamp: array<nat>
    var tick: nat
    ghost var held: multiset<nat>
    ghost var mapped: multiset<(nat, Dir)>

    ghost predicate Valid()
      reads this, ent, stamp
    {
      Sized() && Inv(segs, View())
    }

    ghost predicate Sized()
      reads this
    {
      ent.Length == stamp.Length == ENTRIES
    }

    ghost function View(): Cache
      reads this, ent, stamp
    {
      Cache(ent[..], stamp[..], tick, held, mapped)
    }

    constructor (segs: nat -> Seg)
      ensures Valid() && fresh(ent) && fresh(stamp) && View() == EMPTY && this.segs == segs
    {
      this.segs := segs;
      ent, stamp := new Slot[ENTRIES](i => Free), new nat[ENTRIES](i => 0);
      tick, held, mapped := 0, multiset{}, multiset{};
      new;
      assert ent[..] == EMPTY.ent && stamp[..] == EMPTY.stamp;
      EmptyIsInv(segs);
    }

    /** ml_bufmap_unmap on one slot. */
    method UnmapSlot(k: nat)
      requires Sized() && k < ENTRIES && ent[k].Busy?
      modifies this`held, this`mapped, ent
      ensures View() == Unmap(old(View()), k)
    {
      held := held - multiset{ent[k].db};
      mapped := mapped - multiset{(ent[k].db, ent[k].dir)};
      ent[k] := Free;
    }

    /** The lookup loop: where the buffer is cached, and the first free slot passed on the way. */
    method Search(db: nat) returns (hit: nat, slot: nat)
      requires ent.Length == ENTRIES
      ensures hit == FindDb(ent[..], db, 0) && (hit == ENTRIES ==> slot == FindFree(ent[..], 0))
    {
      hit, slot := 0, ENTRIES;
      while hit < ENTRIES && !(ent[hit].Busy? && ent[hit].db == db)
        invariant hit <= ENTRIES && FindDb(ent[..], db, 0) == FindDb(ent[..], db, hit)
        invariant slot <= ENTRIES
        invariant slot == ENTRIES ==> FindFree(ent[..], 0) == FindFree(ent[..], hit)
        invariant slot < ENTRIES ==> slot == FindFree(ent[..], 0)
      {
        if slot == ENTRIES && ent[hit].Free? {
          assert FindFree(ent[..], hit) == hit;
          slot := hit;
        }
        hit := hit + 1;
      }
    }

    /** The eviction loop. */
    method LeastRecent() returns (slot: nat)
      requires stamp.Length == ENTRIES && forall i :: 0 <= i < ENTRIES ==> stamp[i] < U64_MAX
      ensures slot == Oldest(stamp[..], ENTRIES)
    {
      var i, oldest: nat := 1, stamp[0];
      slot := 0;
      while i < ENTRIES
        invariant 1 <= i <= ENTRIES && slot < i && oldest == stamp[slot] && slot == Oldest(stamp[..], i)
      {
        if stamp[i] < oldest {
          oldest, slot := stamp[i], i;
        }
        i := i + 1;
      }
    }

    /** ml_bufmap_map into an empty slot, its reference already taken. */
    method MapSlot(k: nat, db: nat, dir: Dir, err: int) returns (r: Result)
      requires Sized() && k < ENTRIES
      modifies this`held, this`mapped, this`tick, ent, stamp
      ensures (View(), r) == MapInto(segs, old(View()), k, db, dir, err)
    {
      if err != 0 {
        held := held - multiset{db};
        return Err(err);
      }
      ent[k] := Busy(db, dir, segs(db));
      mapped := mapped + multiset{(db, dir)};
      tick := tick + 1;
      stamp[k] := tick;
      r := Ok(k);
    }

    /** A hit: the reference the lookup took goes back and the entry keeps its own. */
    method Touch(k: nat)
      requires Sized() && k < ENTRIES
      modifies this`tick, stamp
      ensures View() == Stamped(old(View()), k)
    {
      tick := tick + 1;
      stamp[k] := tick;
    }

    /** Making room: the slot with the wrong direction, a free one, or the least recently used. */
    method MakeRoom(db: nat, hit: nat, free: nat) returns (slot: nat)
      requires Sized() && (forall i :: 0 <= i < ENTRIES ==> stamp[i] < U64_MAX)
      requires hit == FindDb(ent[..], db, 0) && (hit == ENTRIES ==> free == FindFree(ent[..], 0))
      modifies this`held, this`mapped, ent
      ensures slot == Victim(old(ent[..]), stamp[..], db)
      ensures View() == if old(View()).ent[slot].Busy? then Unmap(old(View()), slot) else old(View())
    {
      if hit < ENTRIES {
        slot := hit;
        UnmapSlot(slot);
      } else if free < ENTRIES {
        slot := free;
      } else {
        slot := LeastRecent();
        UnmapSlot(slot);
      }
    }

    /** A miss, or a hit whose direction cannot serve. */
    method Map(db: nat, dir: Dir, err: int, hit: nat, free: nat) returns (r: Result)
      requires Sized() && (forall i :: 0 <= i < ENTRIES ==> stamp[i] < U64_MAX)
      requires hit == FindDb(ent[..], db, 0) && (hit == ENTRIES ==> free == FindFree(ent[..], 0))
      modifies this, ent, stamp
      ensures Sized() && (View(), r) == Remap(segs, old(View()), Victim(old(ent[..]), old(stamp[..]), db), db,
                                              if hit < ENTRIES then Both else dir, err)
    {
      hide MapInto, Victim, Unmap;
      held := held + multiset{db};
      var slot := MakeRoom(db, hit, free);
      r := MapSlot(slot, db, if hit < ENTRIES then Both else dir, err);
    }

    /** ml_bufcache_map_fd. */
    method Get(db: nat, dir: Dir, err: int) returns (r: Result)
      requires Valid() && tick < U64_MAX
      modifies this, ent, stamp
      ensures Valid() && (View(), r) == MapFd(segs, old(View()), db, dir, err)
    {
      MapFdKeepsInv(segs, View(), db, dir, err);
      HitOrRemap(segs, View(), db, dir, err);
      assert forall i :: 0 <= i < ENTRIES ==> stamp[i] < U64_MAX;
      hide Inv, MapFd, Remap, Stamped, Victim;
      var hit, free := Search(db);
      if hit < ENTRIES && (ent[hit].dir == dir || ent[hit].dir == Both) {
        Touch(hit);
        r := Ok(hit);
      } else {
        r := Map(db, dir, err, hit, free);
      }
    }

    /** ml_bufcache_release: everything held goes back. */
    method Release()
      requires Valid()
      modifies this`held, this`mapped, ent
      ensures Valid() && held == multiset{} && mapped == multiset{}
      ensures forall i :: 0 <= i < ENTRIES ==> ent[i].Free?
    {
      var i := 0;
      while i < ENTRIES
        invariant i <= ENTRIES && Valid()
        invariant forall j :: 0 <= j < i ==> ent[j].Free?
      {
        if ent[i].Busy? {
          UnmapKeepsInv(segs, View(), i);
          UnmapSlot(i);
        }
        i := i + 1;
      }
      NothingHeld(View());
    }
  }

  // ---- what the cache means ----

  predicate NoDuplicates(ent: seq<Slot>) {
    forall i, j :: 0 <= i < j < |ent| && ent[i].Busy? && ent[j].Busy? ==> ent[i].db != ent[j].db
  }

  predicate Cached(ent: seq<Slot>, db: nat) {
    FindDb(ent, db, 0) < |ent|
  }

  /** One reference for every cached buffer, none for any other. */
  ghost predicate HeldOnce(ent: seq<Slot>, held: multiset<nat>) {
    forall x: nat :: held[x] == if Cached(ent, x) then 1 else 0
  }

  /** One mapping for every cached buffer, in the direction its slot records. */
  ghost predicate MappedOnce(ent: seq<Slot>, mapped: multiset<(nat, Dir)>) {
    forall x: nat, d: Dir ::
      mapped[(x, d)] == if Cached(ent, x) && ent[FindDb(ent, x, 0)].dir == d then 1 else 0
  }

  /**
   * Every occupied slot holds what mapping its buffer directly would give, no buffer is in two slots, nothing is
   * stamped in the future, and exactly one reference and one mapping is held per occupied slot.
   */
  ghost predicate Inv(segs: nat -> Seg, c: Cache) {
    && c.Sized()
    && NoDuplicates(c.ent)
    && (forall i :: 0 <= i < ENTRIES && c.ent[i].Busy? ==> c.ent[i].seg == segs(c.ent[i].db))
    && (forall i :: 0 <= i < ENTRIES ==> c.stamp[i] <= c.tick)
    && HeldOnce(c.ent, c.held) && MappedOnce(c.ent, c.mapped)
  }

  lemma EmptyIsInv(segs: nat -> Seg)
    ensures Inv(segs, EMPTY)
  {
  }

  /** The buffer is in no slot but perhaps k. */
  predicate OnlyAt(ent: seq<Slot>, db: nat, k: nat) {
    forall i :: 0 <= i < |ent| && i != k ==> !(ent[i].Busy? && ent[i].db == db)
  }

  lemma FindUnique(ent: seq<Slot>, k: nat)
    requires NoDuplicates(ent) && k < |ent| && ent[k].Busy?
    ensures FindDb(ent, ent[k].db, 0) == k
  {
  }

  /** Where a buffer is found after one slot changes. */
  lemma FindAfter(ent: seq<Slot>, k: nat, s: Slot, x: nat)
    requires NoDuplicates(ent) && k < |ent| && (s.Busy? ==> OnlyAt(ent, s.db, k))
    ensures NoDuplicates(ent[k := s])
    ensures FindDb(ent[k := s], x, 0) ==
            if s.Busy? && s.db == x then k
            else if ent[k].Busy? && ent[k].db == x then |ent|
            else FindDb(ent, x, 0)
  {
    var r := ent[k := s];
    var i, j := FindDb(ent, x, 0), FindDb(r, x, 0);
    assert forall m :: 0 <= m < |ent| && m != k ==> r[m] == ent[m];
    if s.Busy? && s.db == x {
      assert r[k] == s;
    } else if ent[k].Busy? && ent[k].db == x {
      forall m | 0 <= m < |ent| && m != k
        ensures !(r[m].Busy? && r[m].db == x)
      {
        assert if m < k then NoDuplicates(ent[..k + 1]) else NoDuplicates(ent);
      }
    }
  }

  /** The slot a lookup that is not a hit maps into. */
  function Victim(ent: seq<Slot>, stamp: seq<nat>, db: nat): (k: nat)
    requires |ent| == |stamp| == ENTRIES
    ensures k < ENTRIES
    ensures Cached(ent, db) ==> k == FindDb(ent, db, 0)
  {
    var k, f := FindDb(ent, db, 0), FindFree(ent, 0);
    if k < ENTRIES then k else if f < ENTRIES then f else Oldest(stamp, ENTRIES)
  }

  predicate Hits(c: Cache, db: nat, dir: Dir) {
    Cached(c.ent, db) && CanServe(c.ent[FindDb(c.ent, db, 0)].dir, dir)
  }

  function Stamped(c: Cache, k: nat): (r: Cache)
    requires c.Sized() && k < ENTRIES
  {
    c.(stamp := c.stamp[k := c.tick + 1], tick := c.tick + 1)
  }

  /** Mapping db into slot k once an occupant, if any, has been unmapped. */
  function Remap(segs: nat -> Seg, c: Cache, k: nat, db: nat, dir: Dir, err: int): (Cache, Result)
    requires c.Sized() && k < ENTRIES
  {
    var g := c.(held := c.held + multiset{db});
    MapInto(segs, if c.ent[k].Busy? then Unmap(g, k) else g, k, db, dir, err)
  }

  /** A lookup either hits, and only stamps, or maps into one slot. */
  lemma HitOrRemap(segs: nat -> Seg, c: Cache, db: nat, dir: Dir, err: int)
    requires c.Sized()
    ensures var k := Victim(c.ent, c.stamp, db);
            MapFd(segs, c, db, dir, err) ==
            if Hits(c, db, dir) then (Stamped(c, k), Ok(k))
            else Remap(segs, c, k, db, if Cached(c.ent, db) then Both else dir, err)
  {
  }

  lemma OnlyAtVictim(c: Cache, db: nat)
    requires c.Sized() && NoDuplicates(c.ent)
    ensures OnlyAt(c.ent, db, Victim(c.ent, c.stamp, db))
  {
  }

  /** What a remap leaves in the table. */
  lemma RemapTable(segs: nat -> Seg, c: Cache, k: nat, db: nat, dir: Dir, err: int)
    requires c.Sized() && k < ENTRIES
    ensures var (d, r) := Remap(segs, c, k, db, dir, err);
            && d.Sized() && (r == if err == 0 then Ok(k) else Err(err))
            && d.ent == c.ent[k := if err == 0 then Busy(db, dir, segs(db)) else Free]
            && d.stamp == (if err == 0 then c.stamp[k := c.tick + 1] else c.stamp)
            && d.tick == (if err == 0 then c.tick + 1 else c.tick)
  {
    assert c.ent[k := Free][k := Busy(db, dir, segs(db))] == c.ent[k := Busy(db, dir, segs(db))];
    assert c.ent[k].Free? ==> c.ent[k := Free] == c.ent;
  }

  lemma OneMore(m: multiset<nat>, a: nat, x: nat)
    ensures (m + multiset{a})[x] == m[x] + if x == a then 1 else 0
  {
  }

  lemma OneLess(m: multiset<nat>, a: nat, x: nat)
    ensures (m - multiset{a})[x] == if x == a && m[x] > 0 then m[x] - 1 else m[x]
  {
  }

  /** References across a remap: one more for db, one less for the occupant, and for db if the map fails. */
  lemma RemapCounts(segs: nat -> Seg, c: Cache, k: nat, db: nat, dir: Dir, err: int, x: nat)
    requires c.Sized() && k < ENTRIES
    ensures var raised: nat := c.held[x] + if x == db then 1 else 0;
            var after: nat := if c.ent[k].Busy? && c.ent[k].db == x && raised > 0 then raised - 1 else raised;
            Remap(segs, c, k, db, dir, err).0.held[x] == if err != 0 && x == db && after > 0 then after - 1 else after
  {
    var g := c.held + multiset{db};
    var h := if c.ent[k].Busy? then g - multiset{c.ent[k].db} else g;
    RemapHeld(segs, c, k, db, dir, err);
    hide Remap;
    OneMore(c.held, db, x);
    if c.ent[k].Busy? {
      OneLess(g, c.ent[k].db, x);
    }
    OneLess(h, db, x);
  }

  lemma RemapHeld(segs: nat -> Seg, c: Cache, k: nat, db: nat, dir: Dir, err: int)
    requires c.Sized() && k < ENTRIES
    ensures var g := c.held + multiset{db};
            var h := if c.ent[k].Busy? then g - multiset{c.ent[k].db} else g;
            Remap(segs, c, k, db, dir, err).0.held == if err != 0 then h - multiset{db} else h
  {
  }

  lemma RemapHolds(segs: nat -> Seg, c: Cache, k: nat, db: nat, dir: Dir, err: int)
    requires Inv(segs, c) && k < ENTRIES && OnlyAt(c.ent, db, k)
    ensures var d := Remap(segs, c, k, db, dir, err).0; HeldOnce(d.ent, d.held)
  {
    var d := Remap(segs, c, k, db, dir, err).0;
    forall x: nat
      ensures d.held[x] == if Cached(d.ent, x) then 1 else 0
    {
      RemapHeldAt(segs, c, k, db, dir, err, x);
    }
    hide Remap, Inv, Cached;
  }

  lemma RemapHeldAt(segs: nat -> Seg, c: Cache, k: nat, db: nat, dir: Dir, err: int, x: nat)
    requires Inv(segs, c) && k < ENTRIES && OnlyAt(c.ent, db, k)
    ensures var d := Remap(segs, c, k, db, dir, err).0; d.held[x] == if Cached(d.ent, x) then 1 else 0
  {
    var d := Remap(segs, c, k, db, dir, err).0;
    assert c.held[x] == if Cached(c.ent, x) then 1 else 0;
    hide OnlyAt, MappedOnce, HeldOnce, FindDb, Remap, Cached, NoDuplicates;
    RemapTable(segs, c, k, db, dir, err);
    RemapCounts(segs, c, k, db, dir, err, x);
    CachedAfter(c.ent, k, if err == 0 then Busy(db, dir, segs(db)) else Free, x);
    if c.ent[k].Busy? {
      OccupantIsCached(c.ent, k);
    }
  }

  lemma OccupantIsCached(ent: seq<Slot>, k: nat)
    requires NoDuplicates(ent) && k < |ent| && ent[k].Busy?
    ensures Cached(ent, ent[k].db)
  {
    FindUnique(ent, k);
  }

  /** Which buffers are cached after one slot changes. */
  lemma CachedAfter(ent: seq<Slot>, k: nat, s: Slot, x: nat)
    requires NoDuplicates(ent) && k < |ent| && (s.Busy? ==> OnlyAt(ent, s.db, k))
    ensures Cached(ent[k := s], x) ==
            ((s.Busy? && s.db == x) || (Cached(ent, x) && !(ent[k].Busy? && ent[k].db == x)))
    ensures s.Busy? && s.db == x && Cached(ent, x) ==> ent[k].Busy? && ent[k].db == x
  {
    FindAfter(ent, k, s, x);
  }

  lemma RemapMaps(segs: nat -> Seg, c: Cache, k: nat, db: nat, dir: Dir, err: int)
    requires Inv(segs, c) && k < ENTRIES && OnlyAt(c.ent, db, k)
    ensures var d := Remap(segs, c, k, db, dir, err).0; MappedOnce(d.ent, d.mapped)
  {
    var d := Remap(segs, c, k, db, dir, err).0;
    RemapTable(segs, c, k, db, dir, err);
    if c.ent[k].Busy? {
      FindUnique(c.ent, k);
    }
    forall x: nat, y: Dir
      ensures d.mapped[(x, y)] == if Cached(d.ent, x) && d.ent[FindDb(d.ent, x, 0)].dir == y then 1 else 0
    {
      FindAfter(c.ent, k, d.ent[k], x);
      assert c.mapped[(x, y)] == if Cached(c.ent, x) && c.ent[FindDb(c.ent, x, 0)].dir == y then 1 else 0;
    }
  }

  lemma RemapKeepsInv(segs: nat -> Seg, c: Cache, k: nat, db: nat, dir: Dir, err: int)
    requires Inv(segs, c) && k < ENTRIES && OnlyAt(c.ent, db, k)
    ensures Inv(segs, Remap(segs, c, k, db, dir, err).0)
  {
    RemapTable(segs, c, k, db, dir, err);
    FindAfter(c.ent, k, if err == 0 then Busy(db, dir, segs(db)) else Free, 0);
    RemapHolds(segs, c, k, db, dir, err);
    RemapMaps(segs, c, k, db, dir, err);
    hide HeldOnce, MappedOnce, NoDuplicates, OnlyAt, Remap;
  }

  lemma StampKeepsInv(segs: nat -> Seg, c: Cache, k: nat)
    requires Inv(segs, c) && k < ENTRIES
    ensures Inv(segs, Stamped(c, k))
  {
    hide HeldOnce, MappedOnce, NoDuplicates;
  }

  /** Every lookup keeps the invariant: hits, direction remaps, evictions and map failures alike. */
  lemma {:induction false} MapFdKeepsInv(segs: nat -> Seg, c: Cache, db: nat, dir: Dir, err: int)
    requires Inv(segs, c)
    ensures Inv(segs, MapFd(segs, c, db, dir, err).0)
  {
    HitOrRemap(segs, c, db, dir, err);
    OnlyAtVictim(c, db);
    hide Inv, MapFd, Remap, Stamped, OnlyAt;
    if Hits(c, db, dir) {
      StampKeepsInv(segs, c, Victim(c.ent, c.stamp, db));
    } else {
      RemapKeepsInv(segs, c, Victim(c.ent, c.stamp, db), db, if Cached(c.ent, db) then Both else dir, err);
    }
  }

  lemma UnmapKeepsInv(segs: nat -> Seg, c: Cache, k: nat)
    requires Inv(segs, c) && k < ENTRIES && c.ent[k].Busy?
    ensures Inv(segs, Unmap(c, k))
  {
    var d := Unmap(c, k);
    FindUnique(c.ent, k);
    forall x: nat
      ensures NoDuplicates(d.ent) && d.held[x] == if Cached(d.ent, x) then 1 else 0
    {
      FindAfter(c.ent, k, Free, x);
      assert c.held[x] == if Cached(c.ent, x) then 1 else 0;
    }
    forall x: nat, y: Dir
      ensures d.mapped[(x, y)] == if Cached(d.ent, x) && d.ent[FindDb(d.ent, x, 0)].dir == y then 1 else 0
    {
      FindAfter(c.ent, k, Free, x);
      assert c.mapped[(x, y)] == if Cached(c.ent, x) && c.ent[FindDb(c.ent, x, 0)].dir == y then 1 else 0;
    }
  }

  lemma NothingHeld(c: Cache)
    requires c.Sized() && HeldOnce(c.ent, c.held) && MappedOnce(c.ent, c.mapped)
    requires forall i :: 0 <= i < ENTRIES ==> c.ent[i].Free?
    ensures c.held == multiset{} && c.mapped == multiset{}
  {
    assert forall x: nat :: c.held[x] == 0;
    forall p: (nat, Dir)
      ensures c.mapped[p] == 0
    {
      assert c.mapped[(p.0, p.1)] == 0;
    }
  }

  /**
   * What a lookup costs the other buffers: each keeps its slot as it was, unless the buffer was not cached, no slot was
   * free and the slot is the least recently used.
   */
  lemma {:induction false} OthersKeepTheirSlots(segs: nat -> Seg, c: Cache, db: nat, dir: Dir, err: int, i: nat)
    requires Inv(segs, c) && i < ENTRIES && c.ent[i].Busy? && c.ent[i].db != db
    ensures var d := MapFd(segs, c, db, dir, err).0;
            d.Sized() &&
            (d.ent[i] != c.ent[i] ==>
               && (forall k :: 0 <= k < ENTRIES ==> c.ent[k].Busy? && c.ent[k].db != db)
               && (forall k :: 0 <= k < ENTRIES ==> c.stamp[i] <= c.stamp[k]))
  {
    HitOrRemap(segs, c, db, dir, err);
    RemapTable(segs, c, Victim(c.ent, c.stamp, db), db, if Cached(c.ent, db) then Both else dir, err);
  }

  /** A buffer already mapped in a direction that serves is not mapped again, only stamped. */
  lemma {:induction false} HitOnlyStamps(segs: nat -> Seg, c: Cache, db: nat, dir: Dir, err: int, i: nat)
    requires Inv(segs, c) && i < ENTRIES && c.ent[i].Busy? && c.ent[i].db == db
    requires c.ent[i].dir == dir || c.ent[i].dir == Both
    ensures MapFd(segs, c, db, dir, err) == (c.(stamp := c.stamp[i := c.tick + 1], tick := c.tick + 1), Ok(i))
  {
    FindUnique(c.ent, i);
  }

  /**
   * The cache refines direct mapping: a lookup that succeeds returns a slot holding this buffer, the segment an
   * uncached map would give, and the direction asked for or both; it fails exactly when a mapping was needed
   * and failed, and then nothing is held for the buffer.
   */
  lemma {:induction false} LookupIsDirectMap(segs: nat -> Seg, c: Cache, db: nat, dir: Dir, err: int)
    requires Inv(segs, c)
    ensures var (d, r) := MapFd(segs, c, db, dir, err);
            && (r.Err? <==> err != 0 && !Hits(c, db, dir))
            && (r.Ok? ==> r.slot < ENTRIES && d.Sized() && d.ent[r.slot].Busy? && d.ent[r.slot].db == db
                          && d.ent[r.slot].seg == segs(db) && (d.ent[r.slot].dir == dir || d.ent[r.slot].dir == Both)
                          && d.held[db] == 1)
            && (r.Err? ==> r.errno == err && d.held[db] == 0)
  {
    hide *;
    SizedByInv(segs, c);
    var (d, r) := MapFd(segs, c, db, dir, err);
    var k := Victim(c.ent, c.stamp, db);
    InvParts(segs, c, k, db);
    TableAfter(segs, c, db, dir, err);
    MapFdKeepsInv(segs, c, db, dir, err);
    InvParts(segs, d, k, db);
    if r.Ok? {
      HitServes(c, db, dir);
      BusyIsCached(d.ent, k, db);
    } else {
      GoneAfterFailure(c, d, db);
    }
  }

  /** The table after a lookup, by whether it hits. */
  lemma TableAfter(segs: nat -> Seg, c: Cache, db: nat, dir: Dir, err: int)
    requires c.Sized()
    ensures var (d, r) := MapFd(segs, c, db, dir, err);
            var k, hit := Victim(c.ent, c.stamp, db), Hits(c, db, dir);
            && (r.Err? <==> err != 0 && !hit) && (r.Err? ==> r.errno == err && d.ent == c.ent[k := Free])
            && (r.Ok? ==>
                  r.slot == k
                  && d.ent == if hit then c.ent
                              else c.ent[k := Busy(db, if Cached(c.ent, db) then Both else dir, segs(db))])
  {
    HitOrRemap(segs, c, db, dir, err);
    RemapTable(segs, c, Victim(c.ent, c.stamp, db), db, if Cached(c.ent, db) then Both else dir, err);
    hide MapFd, Remap, Victim, Hits, Cached;
  }

  lemma HitServes(c: Cache, db: nat, dir: Dir)
    requires c.Sized()
    ensures var k := Victim(c.ent, c.stamp, db);
            Hits(c, db, dir) ==> c.ent[k].Busy? && c.ent[k].db == db && (c.ent[k].dir == dir || c.ent[k].dir == Both)
  {
  }

  lemma BusyIsCached(ent: seq<Slot>, k: nat, db: nat)
    requires k < |ent| && ent[k].Busy? && ent[k].db == db
    ensures Cached(ent, db)
  {
  }

  lemma GoneAfterFailure(c: Cache, d: Cache, db: nat)
    requires c.Sized() && NoDuplicates(c.ent) && d.ent == c.ent[Victim(c.ent, c.stamp, db) := Free]
    ensures !Cached(d.ent, db)
  {
    OnlyAtVictim(c, db);
    hide Victim;
  }

  lemma SizedByInv(segs: nat -> Seg, c: Cache)
    requires Inv(segs, c)
    ensures c.Sized() && |c.ent| == |c.stamp| == ENTRIES
  {
  }

  lemma InvParts(segs: nat -> Seg, c: Cache, k: nat, db: nat)
    requires Inv(segs, c) && k < ENTRIES
    ensures c.Sized() && |c.ent| == ENTRIES && NoDuplicates(c.ent)
    ensures c.ent[k].Busy? ==> c.ent[k].seg == segs(c.ent[k].db)
    ensures c.held[db] == if Cached(c.ent, db) then 1 else 0
  {
  }
}
