/**
 * Who still maps a block: the user-mapping registry, the per-block mapping counts, and the ioctls that free
 * (modules/ar_osal.c). Every operation runs under the one allocator mutex, so each is a single step.
 */
module MmzMaps {
  import opened MmzZone

  /** struct user_map. */
  datatype Map = Map(uvaddr: nat, phys: nat, size: nat)

  /** All zones' blocks in lookup order, the registry, and the addresses really mapped in the address space. */
  datatype State = State(blocks: seq<Block>, maps: seq<Map>, vmas: set<nat>)

  datatype Event =
    | Carve(at: nat, b: Block)
    | UserMap(m: Map)
    | Munmap(uvaddr: nat)
    | SecondDelete(uvaddr: nat)
    | Free(addr: nat)
    | Get(addr: nat)
    | Put(addr: nat)
    | KernelMap(addr: nat, ok: bool)
    | KernelUnmap(addr: nat)

  predicate AllDisjoint(blocks: seq<Block>) {
    && (forall i :: 0 <= i < |blocks| ==> blocks[i].size > 0)
    && (forall i, j :: 0 <= i < |blocks| && 0 <= j < |blocks| && i != j ==>
          Disjoint(blocks[i].phys, blocks[i].size, blocks[j].phys, blocks[j].size))
  }

  predicate IsFresh(blocks: seq<Block>, b: Block) {
    && b == NewBlock(b.phys, b.size) && b.size > 0
    && forall i :: 0 <= i < |blocks| ==> Disjoint(b.phys, b.size, blocks[i].phys, blocks[i].size)
  }

  predicate Enabled(s: State, e: Event) {
    match e
    case Carve(at, b) => at <= |s.blocks| && IsFresh(s.blocks, b)
    case UserMap(m) => m.uvaddr !in s.vmas
    case Munmap(u) => u in s.vmas
    case _ => true
  }

  function Unreferenced(b: Block): Block {
    b.(refs := b.refs - 1)
  }

  /** The index of the first registry entry for a user address, or the registry's length. */
  function Entry(maps: seq<Map>, u: nat): (k: nat)
    ensures k <= |maps|
    ensures k < |maps| ==> maps[k].uvaddr == u
    ensures forall i :: 0 <= i < k ==> maps[i].uvaddr != u
  {
    if maps == [] || maps[0].uvaddr == u then 0 else 1 + Entry(maps[1..], u)
  }

  function Raise(blocks: seq<Block>, addr: nat): seq<Block> {
    var k := Find(blocks, addr);
    if k < |blocks| then blocks[k := blocks[k].(userKref := blocks[k].userKref + 1)] else blocks
  }

  function Lower(blocks: seq<Block>, addr: nat): seq<Block> {
    var k := Find(blocks, addr);
    if k < |blocks| && blocks[k].userKref > 0 then blocks[k := blocks[k].(userKref := blocks[k].userKref - 1)]
    else blocks
  }

  /** ar_mmz_user_map_del. */
  function Unregister(s: State, u: nat): State {
    var k := Entry(s.maps, u);
    if k < |s.maps| then s.(blocks := Lower(s.blocks, s.maps[k].phys), maps := Drop(s.maps, k)) else s
  }

  function Apply(s: State, e: Event): State
  {
    match e
    case Carve(at, b) => if at <= |s.blocks| then s.(blocks := s.blocks[..at] + [b] + s.blocks[at..]) else s
    case UserMap(m) => State(Raise(s.blocks, m.phys), [m] + s.maps, s.vmas + {m.uvaddr})
    case Munmap(u) => Unregister(s, u).(vmas := s.vmas - {u})
    case SecondDelete(u) => Unregister(s, u)
    case Free(addr) =>
      var k := Find(s.blocks, addr);
      if k < |s.blocks| && s.blocks[k].userKref == 0 && s.blocks[k].mapKref == 0 then s.(blocks := Drop(s.blocks, k))
      else s
    case Get(addr) =>
      var k := Find(s.blocks, addr);
      if k < |s.blocks| then s.(blocks := s.blocks[k := s.blocks[k].(refs := s.blocks[k].refs + 1)]) else s
    case Put(addr) =>
      var k := Find(s.blocks, addr);
      if k == |s.blocks| then s
      else if s.blocks[k].refs - 1 <= 0 && s.blocks[k].userKref == 0 && s.blocks[k].mapKref == 0 then
        s.(blocks := Drop(s.blocks, k))
      else s.(blocks := s.blocks[k := Unreferenced(s.blocks[k])])
    case KernelMap(addr, ok) =>
      var k := Find(s.blocks, addr);
      if k < |s.blocks| && (ok || s.blocks[k].mapKref > 0) then
        s.(blocks := s.blocks[k := s.blocks[k].(mapKref := s.blocks[k].mapKref + 1)])
      else s
    case KernelUnmap(addr) =>
      var k := Find(s.blocks, addr);
      if k < |s.blocks| && s.blocks[k].mapKref > 0 then
        s.(blocks := s.blocks[k := s.blocks[k].(mapKref := s.blocks[k].mapKref - 1)])
      else s
  }

  // ---- the operations as the driver runs them ----

  class Registry {
    var blocks: seq<Block>
    var maps: seq<Map>
    ghost var vmas: set<nat>

    ghost function View(): State
      reads this
    {
      State(blocks, maps, vmas)
    }

    constructor ()
      ensures View() == State([], [], {})
    {
      blocks, maps, vmas := [], [], {};
    }

    /** ar_mmz_user_map_add, called by an mmap that succeeded. */
    method UserMapAdd(uvaddr: nat, phys: nat, size: nat)
      requires uvaddr !in vmas
      modifies this
      ensures View() == Apply(old(View()), UserMap(Map(uvaddr, phys, size)))
    {
      maps := [Map(uvaddr, phys, size)] + maps;
      var k := GetByPhys(blocks, phys);
      if k < |blocks| {
        blocks := blocks[k := blocks[k].(userKref := blocks[k].userKref + 1)];
      }
      vmas := vmas + {uvaddr};
    }

    /** ar_mmz_user_map_del: the first entry for the address goes, and its block's count with it. */
    method UserMapDel(uvaddr: nat)
      modifies this`blocks, this`maps
      ensures View() == Apply(old(View()), SecondDelete(uvaddr))
    {
      var i := 0;
      ghost var all := maps;
      assert maps[0..] == maps;
      while i < |maps| && maps[i].uvaddr != uvaddr
        invariant i <= |maps| && Entry(maps, uvaddr) == i + Entry(maps[i..], uvaddr)
      {
        assert maps[i..][1..] == maps[i + 1..];
        i := i + 1;
      }
      if i < |maps| {
        var k := GetByPhys(blocks, maps[i].phys);
        if k < |blocks| && blocks[k].userKref > 0 {
          blocks := blocks[k := blocks[k].(userKref := blocks[k].userKref - 1)];
        }
        maps := maps[..i] + maps[i + 1..];
      }
    }

    /** IOC_MMB_FREE. */
    method FreeIoctl(addr: nat) returns (freed: bool)
      modifies this`blocks
      ensures View() == Apply(old(View()), Free(addr))
      ensures freed == (|blocks| < |old(blocks)|)
    {
      var k := GetByPhys(blocks, addr);
      freed := k < |blocks| && !(blocks[k].userKref > 0 || blocks[k].mapKref > 0);
      if freed {
        blocks := blocks[..k] + blocks[k + 1..];
      }
    }

    /** The put ioctl: frees at zero references unless something still maps the block. */
    method PutIoctl(addr: nat) returns (freed: bool)
      modifies this`blocks
      ensures View() == Apply(old(View()), Put(addr))
      ensures freed == (|blocks| < |old(blocks)|)
    {
      var k := GetByPhys(blocks, addr);
      freed := false;
      if k < |blocks| {
        blocks := blocks[k := blocks[k].(refs := blocks[k].refs - 1)];
        if blocks[k].refs <= 0 && blocks[k].userKref == 0 && blocks[k].mapKref == 0 {
          blocks := blocks[..k] + blocks[k + 1..];
          freed := true;
        }
      }
    }

    /** hil_mmf_map2kern_cache; ok says whether memremap would succeed. */
    method MapToKernel(addr: nat, ok: bool) returns (mapped: bool)
      modifies this`blocks
      ensures View() == Apply(old(View()), KernelMap(addr, ok))
      ensures var k := Find(old(blocks), addr); mapped == (k < |old(blocks)| && (ok || old(blocks)[k].mapKref > 0))
    {
      var k := GetByPhys(blocks, addr);
      mapped := k < |blocks| && (blocks[k].mapKref > 0 || ok);
      if mapped {
        blocks := blocks[k := blocks[k].(mapKref := blocks[k].mapKref + 1)];
      }
    }

    /** hil_mmf_unmap. */
    method UnmapFromKernel(addr: nat)
      modifies this`blocks
      ensures View() == Apply(old(View()), KernelUnmap(addr))
    {
      var k := GetByPhys(blocks, addr);
      if k < |blocks| && blocks[k].mapKref > 0 {
        blocks := blocks[k := blocks[k].(mapKref := blocks[k].mapKref - 1)];
      }
    }
  }

  // ---- the count is exact ----

  /** How many registered mappings start in the block. */
  function Starting(maps: seq<Map>, b: Block): nat {
    if maps == [] then 0 else (if b.Contains(maps[0].phys) then 1 else 0) + Starting(maps[1..], b)
  }

  predicate KrefExact(s: State) {
    forall k :: 0 <= k < |s.blocks| ==> s.blocks[k].userKref == Starting(s.maps, s.blocks[k])
  }

  predicate Inv(s: State) {
    AllDisjoint(s.blocks) && KrefExact(s)
  }

  lemma {:induction false} StartingDrop(maps: seq<Map>, k: nat, b: Block)
    requires k < |maps|
    ensures Starting(maps, b) == Starting(Drop(maps, k), b) + if b.Contains(maps[k].phys) then 1 else 0
  {
    if k == 0 {
      assert Drop(maps, 0) == maps[1..];
    } else {
      StartingDrop(maps[1..], k - 1, b);
      assert Drop(maps, k) == [maps[0]] + Drop(maps[1..], k - 1);
      assert Drop(maps, k)[1..] == Drop(maps[1..], k - 1);
    }
  }

  lemma {:induction false} StartingSameExtent(maps: seq<Map>, b: Block, c: Block)
    requires b.phys == c.phys && b.size == c.size
    ensures Starting(maps, b) == Starting(maps, c)
  {
    if maps != [] {
      StartingSameExtent(maps[1..], b, c);
    }
  }

  lemma FindIsTheBlock(blocks: seq<Block>, k: nat, addr: nat)
    requires AllDisjoint(blocks) && k < |blocks| && blocks[k].Contains(addr)
    ensures Find(blocks, addr) == k
  {
    forall i | 0 <= i < k
      ensures !blocks[i].Contains(addr)
    {
      assert Disjoint(blocks[i].phys, blocks[i].size, blocks[k].phys, blocks[k].size);
    }
  }

  /** Changing one block's counters, extent kept, leaves the list disjoint. */
  lemma UpdateKeepsDisjoint(blocks: seq<Block>, k: nat, b: Block)
    requires AllDisjoint(blocks) && k < |blocks| && b.phys == blocks[k].phys && b.size == blocks[k].size
    ensures AllDisjoint(blocks[k := b])
  {
  }

  lemma DropKeepsDisjoint(blocks: seq<Block>, k: nat)
    requires AllDisjoint(blocks) && k < |blocks|
    ensures AllDisjoint(Drop(blocks, k))
  {
    var r := Drop(blocks, k);
    assert forall i :: 0 <= i < |r| ==> r[i] == blocks[if i < k then i else i + 1];
  }

  lemma RegisterKeepsInv(s: State, m: Map)
    requires Inv(s) && Enabled(s, UserMap(m))
    ensures Inv(Apply(s, UserMap(m)))
  {
    var f, t := Find(s.blocks, m.phys), Apply(s, UserMap(m));
    if f < |s.blocks| {
      UpdateKeepsDisjoint(s.blocks, f, t.blocks[f]);
    }
    assert t.maps[1..] == s.maps;
    forall k | 0 <= k < |t.blocks|
      ensures t.blocks[k].userKref == Starting(t.maps, t.blocks[k])
    {
      StartingSameExtent(s.maps, s.blocks[k], t.blocks[k]);
      if s.blocks[k].Contains(m.phys) {
        FindIsTheBlock(s.blocks, k, m.phys);
      }
    }
  }

  lemma UnregisterKeepsInv(s: State, u: nat)
    requires Inv(s)
    ensures Inv(Unregister(s, u))
  {
    var e, t := Entry(s.maps, u), Unregister(s, u);
    if e < |s.maps| {
      var phys := s.maps[e].phys;
      var f := Find(s.blocks, phys);
      if f < |s.blocks| && s.blocks[f].userKref > 0 {
        UpdateKeepsDisjoint(s.blocks, f, t.blocks[f]);
      }
      forall k | 0 <= k < |t.blocks|
        ensures t.blocks[k].userKref == Starting(t.maps, t.blocks[k])
      {
        StartingDrop(s.maps, e, s.blocks[k]);
        StartingSameExtent(t.maps, s.blocks[k], t.blocks[k]);
        if s.blocks[k].Contains(phys) {
          FindIsTheBlock(s.blocks, k, phys);
        }
      }
    }
  }

  lemma FreeingKeepsInv(s: State, k: nat)
    requires Inv(s) && k < |s.blocks|
    ensures Inv(s.(blocks := Drop(s.blocks, k)))
  {
    DropKeepsDisjoint(s.blocks, k);
    var r := Drop(s.blocks, k);
    assert forall i :: 0 <= i < |r| ==> r[i] == s.blocks[if i < k then i else i + 1];
  }

  lemma CountingKeepsInv(s: State, k: nat, b: Block)
    requires Inv(s) && k < |s.blocks|
    requires b.phys == s.blocks[k].phys && b.size == s.blocks[k].size && b.userKref == s.blocks[k].userKref
    ensures Inv(s.(blocks := s.blocks[k := b]))
  {
    UpdateKeepsDisjoint(s.blocks, k, b);
    StartingSameExtent(s.maps, s.blocks[k], b);
  }

  lemma CarvingIsExact(s: State, at: nat, b: Block)
    requires Inv(s) && Enabled(s, Carve(at, b))
    ensures Inv(Apply(s, Carve(at, b))) <==> Starting(s.maps, b) == 0
  {
    var t := Apply(s, Carve(at, b));
    assert forall i :: 0 <= i < |t.blocks| ==>
      t.blocks[i] == if i < at then s.blocks[i] else if i == at then b else s.blocks[i - 1];
    assert t.blocks[at] == b;
  }

  /**
   * Exactly when a step keeps every block's user count equal to the number of registered mappings starting in
   * it: always, except when a block is carved over the start of a mapping that is already registered.
   */
  lemma {:induction false} StepIsExact(s: State, e: Event)
    requires Inv(s) && Enabled(s, e)
    ensures Inv(Apply(s, e)) <==> (e.Carve? ==> Starting(s.maps, e.b) == 0)
  {
    match e {
      case Carve(at, b) => CarvingIsExact(s, at, b);
      case UserMap(m) => RegisterKeepsInv(s, m);
      case Munmap(u) => UnregisterKeepsInv(s, u);
      case SecondDelete(u) => UnregisterKeepsInv(s, u);
      case Free(addr) =>
        if Find(s.blocks, addr) < |s.blocks| {
          FreeingKeepsInv(s, Find(s.blocks, addr));
        }
      case _ => CounterStepKeepsInv(s, e);
    }
  }

  lemma CounterStepKeepsInv(s: State, e: Event)
    requires Inv(s) && Enabled(s, e) && (e.Get? || e.Put? || e.KernelMap? || e.KernelUnmap?)
    ensures Inv(Apply(s, e))
  {
    var k, t := Find(s.blocks, e.addr), Apply(s, e);
    if k < |s.blocks| {
      if |t.blocks| < |s.blocks| {
        FreeingKeepsInv(s, k);
      } else if t.blocks != s.blocks {
        CountingKeepsInv(s, k, t.blocks[k]);
        assert t.blocks == s.blocks[k := t.blocks[k]];
      }
    }
  }

  // ---- mapped blocks survive ----

  /** A block with this extent is in the list. */
  predicate Listed(blocks: seq<Block>, phys: nat, size: nat) {
    exists k :: 0 <= k < |blocks| && blocks[k].phys == phys && blocks[k].size == size
  }

  lemma ListedAt(blocks: seq<Block>, k: nat)
    requires k < |blocks|
    ensures Listed(blocks, blocks[k].phys, blocks[k].size)
  {
  }

  lemma UpdateKeepsListed(blocks: seq<Block>, k: nat, b: Block, f: nat)
    requires k < |blocks| && f < |blocks| && b.phys == blocks[f].phys && b.size == blocks[f].size
    ensures Listed(blocks[f := b], blocks[k].phys, blocks[k].size)
  {
    ListedAt(blocks[f := b], k);
  }

  lemma DropKeepsListed(blocks: seq<Block>, k: nat, f: nat)
    requires k < |blocks| && f < |blocks| && k != f
    ensures Listed(Drop(blocks, f), blocks[k].phys, blocks[k].size)
  {
    var r := Drop(blocks, f);
    var i := if k < f then k else k - 1;
    assert r[i] == blocks[k];
  }

  /** No step removes a block that a registered mapping starts in, or that the kernel maps. */
  lemma {:induction false} StepKeepsListed(s: State, e: Event, k: nat)
    requires Inv(s) && Enabled(s, e) && k < |s.blocks|
    requires s.blocks[k].mapKref > 0 || Starting(s.maps, s.blocks[k]) > 0
    ensures Listed(Apply(s, e).blocks, s.blocks[k].phys, s.blocks[k].size)
  {
    var t := Apply(s, e);
    if e.Carve? {
      var i := if k < e.at then k else k + 1;
      assert t.blocks[i] == s.blocks[k];
    } else if t.blocks == s.blocks {
      ListedAt(s.blocks, k);
    } else {
      var f := Find(s.blocks, Addressed(s, e));
      if |t.blocks| == |s.blocks| {
        UpdateKeepsListed(s.blocks, k, t.blocks[f], f);
      } else {
        DropKeepsListed(s.blocks, k, f);
      }
    }
  }

  /** The physical address a step looks its block up by. */
  function Addressed(s: State, e: Event): nat {
    match e
    case Carve(_, _) => 0
    case UserMap(m) => m.phys
    case Munmap(u) => if Entry(s.maps, u) < |s.maps| then s.maps[Entry(s.maps, u)].phys else 0
    case SecondDelete(u) => if Entry(s.maps, u) < |s.maps| then s.maps[Entry(s.maps, u)].phys else 0
    case _ => e.addr
  }

  const EMPTY := State([], [], {})

  function Exec(s: State, es: seq<Event>): State
  {
    if es == [] then s else Apply(Exec(s, es[..|es| - 1]), es[|es| - 1])
  }

  /** Each event is enabled where it happens. */
  predicate Legal(s: State, es: seq<Event>) {
    es == [] || (Legal(s, es[..|es| - 1]) && Enabled(Exec(s, es[..|es| - 1]), es[|es| - 1]))
  }

  /** The callers' discipline: what is mapped is allocated memory. */
  predicate MapsLiveBlocks(s: State, es: seq<Event>)
  {
    es == [] ||
    var t, e := Exec(s, es[..|es| - 1]), es[|es| - 1];
    MapsLiveBlocks(s, es[..|es| - 1]) && (e.UserMap? ==> Find(t.blocks, e.m.phys) < |t.blocks|)
  }

  /** Every registered mapping starts in a live block. */
  predicate AllBacked(s: State) {
    forall i :: 0 <= i < |s.maps| ==> Find(s.blocks, s.maps[i].phys) < |s.blocks|
  }

  lemma {:induction false} StartingPositive(maps: seq<Map>, i: nat, b: Block)
    requires i < |maps| && b.Contains(maps[i].phys)
    ensures Starting(maps, b) > 0
  {
    if i > 0 {
      StartingPositive(maps[1..], i - 1, b);
    }
  }

  lemma ListedIsFound(blocks: seq<Block>, phys: nat, size: nat, addr: nat)
    requires Listed(blocks, phys, size) && phys <= addr < phys + size
    ensures Find(blocks, addr) < |blocks|
  {
    var k :| 0 <= k < |blocks| && blocks[k].phys == phys && blocks[k].size == size;
    assert blocks[k].Contains(addr);
  }

  lemma StepKeepsBacked(s: State, e: Event)
    requires Inv(s) && Enabled(s, e) && AllBacked(s)
    requires e.UserMap? ==> Find(s.blocks, e.m.phys) < |s.blocks|
    ensures AllBacked(Apply(s, e))
  {
    var t := Apply(s, e);
    forall i | 0 <= i < |t.maps|
      ensures Find(t.blocks, t.maps[i].phys) < |t.blocks|
    {
      var addr := t.maps[i].phys;
      if e.UserMap? && i == 0 {
        var b := s.blocks[Find(s.blocks, addr)];
        UpdateKeepsListed(s.blocks, Find(s.blocks, addr), t.blocks[Find(s.blocks, addr)], Find(s.blocks, addr));
        ListedIsFound(t.blocks, b.phys, b.size, addr);
      } else {
        assert t.maps[i] in s.maps;
        var j :| 0 <= j < |s.maps| && s.maps[j] == t.maps[i];
        var k := Find(s.blocks, addr);
        StartingPositive(s.maps, j, s.blocks[k]);
        StepKeepsListed(s, e, k);
        ListedIsFound(t.blocks, s.blocks[k].phys, s.blocks[k].size, addr);
      }
    }
  }

  lemma {:induction false} NothingStartsIn(maps: seq<Map>, blocks: seq<Block>, b: Block)
    requires IsFresh(blocks, b) && forall i :: 0 <= i < |maps| ==> Find(blocks, maps[i].phys) < |blocks|
    ensures Starting(maps, b) == 0
  {
    if maps != [] {
      var k := Find(blocks, maps[0].phys);
      assert blocks[k].Contains(maps[0].phys);
      assert Disjoint(b.phys, b.size, blocks[k].phys, blocks[k].size);
      forall i | 0 <= i < |maps[1..]|
        ensures Find(blocks, maps[1..][i].phys) < |blocks|
      {
        assert maps[1..][i] == maps[i + 1];
      }
      NothingStartsIn(maps[1..], blocks, b);
    }
  }

  lemma ExecSnoc(s: State, es: seq<Event>)
    requires Legal(s, es) && es != []
    ensures var t, e := Exec(s, es[..|es| - 1]), es[|es| - 1];
            Enabled(t, e) && Exec(s, es) == Apply(t, e)
  {
  }

  lemma StepKeepsCounts(s: State, e: Event)
    requires Inv(s) && AllBacked(s) && Enabled(s, e)
    requires e.UserMap? ==> Find(s.blocks, e.m.phys) < |s.blocks|
    ensures Inv(Apply(s, e)) && AllBacked(Apply(s, e))
  {
    StepIsExact(s, e);
    StepKeepsBacked(s, e);
    if e.Carve? {
      NothingStartsIn(s.maps, s.blocks, e.b);
    }
  }

  /** Over every run that maps only live blocks, each block's user count is exact and every mapping is backed. */
  lemma {:induction false} CountsExactOverRuns(s: State, es: seq<Event>)
    requires Inv(s) && AllBacked(s) && Legal(s, es) && MapsLiveBlocks(s, es)
    ensures Inv(Exec(s, es)) && AllBacked(Exec(s, es))
    decreases |es|
  {
    if es != [] {
      ExecSnoc(s, es);
      hide Apply, Enabled, AllBacked, Inv;
      CountsExactOverRuns(s, es[..|es| - 1]);
      StepKeepsCounts(Exec(s, es[..|es| - 1]), es[|es| - 1]);
    }
  }

  /** A block is found at addr, and a registered or kernel mapping holds it. */
  predicate Held(s: State, addr: nat) {
    var k := Find(s.blocks, addr);
    k < |s.blocks| && (s.blocks[k].mapKref > 0 || Starting(s.maps, s.blocks[k]) > 0)
  }

  /** The same block is found at addr in both states. */
  predicate SameBlockAt(s: State, t: State, addr: nat) {
    var k, m := Find(s.blocks, addr), Find(t.blocks, addr);
    k < |s.blocks| && m < |t.blocks| && s.blocks[k].phys == t.blocks[m].phys && s.blocks[k].size == t.blocks[m].size
  }

  lemma ListedFindsItself(blocks: seq<Block>, phys: nat, size: nat, addr: nat)
    requires AllDisjoint(blocks) && Listed(blocks, phys, size) && phys <= addr < phys + size
    ensures var k := Find(blocks, addr); k < |blocks| && blocks[k].phys == phys && blocks[k].size == size
  {
    var k :| 0 <= k < |blocks| && blocks[k].phys == phys && blocks[k].size == size;
    FindIsTheBlock(blocks, k, addr);
  }

  lemma StepKeepsHeldBlock(s: State, e: Event, addr: nat)
    requires Inv(s) && Enabled(s, e) && Inv(Apply(s, e)) && Held(s, addr)
    ensures SameBlockAt(s, Apply(s, e), addr)
  {
    var k, t := Find(s.blocks, addr), Apply(s, e);
    StepKeepsListed(s, e, k);
    hide Apply, Enabled, KrefExact;
    ListedFindsItself(t.blocks, s.blocks[k].phys, s.blocks[k].size, addr);
  }

  /** The block found at addr is held in every state of the run but perhaps the last. */
  predicate HeldAlong(s: State, es: seq<Event>, addr: nat)
  {
    es == [] || (HeldAlong(s, es[..|es| - 1], addr) && Held(Exec(s, es[..|es| - 1]), addr))
  }

  /**
   * Mapped blocks survive: from any state of any run that maps only live blocks, while some mapping, user or
   * kernel, holds the block found at an address, the block found there stays that very block.
   */
  lemma {:induction false} MappedBlockSurvives(before: seq<Event>, es: seq<Event>, addr: nat)
    requires Legal(EMPTY, before) && MapsLiveBlocks(EMPTY, before)
    requires var s := Exec(EMPTY, before); Legal(s, es) && MapsLiveBlocks(s, es) && HeldAlong(s, es, addr)
    ensures var s := Exec(EMPTY, before); es != [] ==> SameBlockAt(s, Exec(s, es), addr)
    decreases |es|
  {
    if es != [] {
      var s, es' := Exec(EMPTY, before), es[..|es| - 1];
      var t := Exec(s, es');
      CountsExactOverRuns(EMPTY, before);
      CountsExactOverRuns(s, es');
      CountsExactOverRuns(s, es);
      ExecSnoc(s, es);
      MappedBlockSurvives(before, es', addr);
      hide Apply, Enabled, Inv, AllBacked, SameBlockAt;
      StepKeepsHeldBlock(t, es[|es| - 1], addr);
      SameBlockTwice(s, t, Exec(s, es), addr);
    }
  }

  lemma SameBlockTwice(s: State, t: State, u: State, addr: nat)
    ensures SameBlockAt(s, t, addr) && SameBlockAt(t, u, addr) ==> SameBlockAt(s, u, addr)
  {
  }

  // ---- where it breaks ----

  /** The counterexample: map a free page, allocate it, map it again, unmap the first mapping, free the block. */
  function BadRun(): (es: seq<Event>)
    ensures |es| == 5
  {
    [UserMap(Map(1, PAGE, PAGE)), Carve(0, NewBlock(PAGE, PAGE)), UserMap(Map(2, PAGE, PAGE)), Munmap(1), Free(PAGE)]
  }

  /** The state before each of its steps, and after the last. */
  function BadState(i: nat): State
    requires i <= 5
  {
    var b := NewBlock(PAGE, PAGE);
    var m, n := Map(1, PAGE, PAGE), Map(2, PAGE, PAGE);
    [EMPTY, State([], [m], {1}), State([b], [m], {1}), State([b.(userKref := 1)], [n, m], {1, 2}),
     State([b], [n], {2}), State([], [n], {2})][i]
  }

  lemma {:induction false} BadStep(i: nat)
    requires i < 5
    ensures Enabled(BadState(i), BadRun()[i]) && BadState(i + 1) == Apply(BadState(i), BadRun()[i])
  {
    var b := NewBlock(PAGE, PAGE);
    var m, n, held := Map(1, PAGE, PAGE), Map(2, PAGE, PAGE), b.(userKref := 1);
    var none: seq<Map>, noBlock: seq<Block> := [], [];
    if i == 0 {
      assert [m] + none == [m] && {} + {1} == {1};
    } else if i == 1 {
      assert noBlock[..0] + [b] + noBlock[0..] == [b];
    } else if i == 2 {
      assert Find([b], PAGE) == 0 && [b][0 := held] == [held];
      assert [n] + [m] == [n, m] && {1} + {2} == {1, 2};
    } else if i == 3 {
      assert [n, m][1..] == [m] && Entry([m], 1) == 0;
      assert Entry([n, m], 1) == 1 && Find([held], PAGE) == 0;
      assert [held][0 := b] == [b] && [n, m][..1] + [n, m][2..] == [n] && {1, 2} - {1} == {2};
    } else {
      assert Find([b], PAGE) == 0 && [b][..0] + [b][1..] == noBlock;
    }
  }

  lemma {:induction false} BadPrefix(i: nat)
    requires i <= 5
    ensures Legal(EMPTY, BadRun()[..i]) && Exec(EMPTY, BadRun()[..i]) == BadState(i)
  {
    if i > 0 {
      BadPrefix(i - 1);
      BadStep(i - 1);
      assert BadRun()[..i][..i - 1] == BadRun()[..i - 1];
      hide Apply, Enabled;
    }
  }

  /** Mapping memory that is not yet allocated lets a later FREE take a block that is still mapped. */
  lemma {:induction false} MappingUnallocatedMemoryBreaksIt()
    ensures Legal(EMPTY, BadRun()[..4]) && Legal(EMPTY, BadRun()) && BadRun()[4] == Free(PAGE)
    ensures var s := Exec(EMPTY, BadRun()[..4]);
            |s.blocks| == 1 && Starting(s.maps, s.blocks[0]) == 1 && Exec(EMPTY, BadRun()).blocks == []
  {
    BadPrefix(4);
    BadPrefix(5);
    assert BadRun()[..5] == BadRun();
    var n := Map(2, PAGE, PAGE);
    assert BadState(4).maps == [n] && [n][1..] == [];
    hide Apply, Enabled, Legal, Exec;
  }

  /** The registry lists exactly the addresses really mapped. */
  predicate RegistryCurrent(s: State) {
    && (forall i, j :: 0 <= i < j < |s.maps| ==> s.maps[i].uvaddr != s.maps[j].uvaddr)
    && s.vmas == set i | 0 <= i < |s.maps| :: s.maps[i].uvaddr
  }

  lemma UnregisterRemovesOne(s: State, u: nat)
    requires RegistryCurrent(s)
    ensures RegistryCurrent(Unregister(s, u).(vmas := s.vmas - {u}))
  {
    var e := Entry(s.maps, u);
    if e < |s.maps| {
      var r := Drop(s.maps, e);
      assert forall i :: 0 <= i < |r| ==> r[i] == s.maps[if i < e then i else i + 1];
      forall x | x in s.vmas - {u}
        ensures exists i :: 0 <= i < |r| && r[i].uvaddr == x
      {
        var i :| 0 <= i < |s.maps| && s.maps[i].uvaddr == x;
        assert r[if i < e then i else i - 1].uvaddr == x;
      }
    }
  }

  /**
   * The unmap ioctl deletes the registry entry a second time. That is harmless exactly when nobody has mapped
   * the address again in between; otherwise a live mapping loses its entry, and its block the count.
   */
  lemma {:induction false} SecondDeleteHarmlessIff(s: State, u: nat)
    requires RegistryCurrent(s)
    ensures RegistryCurrent(Apply(s, SecondDelete(u))) <==> u !in s.vmas
    ensures u !in s.vmas ==> Apply(s, SecondDelete(u)) == s
  {
    UnregisterRemovesOne(s, u);
    var t := Apply(s, SecondDelete(u));
    if u in s.vmas {
      assert s.vmas - {u} == set i | 0 <= i < |t.maps| :: t.maps[i].uvaddr;
      assert u !in s.vmas - {u};
    }
  }

  /** The counterexample: allocate, map, unmap, map again at the same address, delete the old entry late, free. */
  function LateDelete(): (es: seq<Event>)
    ensures |es| == 6
  {
    var m := Map(1, PAGE, PAGE);
    [Carve(0, NewBlock(PAGE, PAGE)), UserMap(m), Munmap(1), UserMap(m), SecondDelete(1), Free(PAGE)]
  }

  /** The state before each of its steps, and after the last. */
  function LateState(i: nat): State
    requires i <= 6
  {
    var b, m := NewBlock(PAGE, PAGE), Map(1, PAGE, PAGE);
    var idle, mapped := State([b], [], {}), State([b.(userKref := 1)], [m], {1});
    [EMPTY, idle, mapped, idle, mapped, State([b], [], {1}), State([], [], {1})][i]
  }

  lemma {:induction false} LateStep(i: nat)
    requires i < 6
    ensures Enabled(LateState(i), LateDelete()[i]) && LateState(i + 1) == Apply(LateState(i), LateDelete()[i])
    ensures LateDelete()[i].UserMap? ==> Find(LateState(i).blocks, LateDelete()[i].m.phys) < |LateState(i).blocks|
  {
    var b, m := NewBlock(PAGE, PAGE), Map(1, PAGE, PAGE);
    var held := b.(userKref := 1);
    var none: seq<Map>, noBlock: seq<Block> := [], [];
    if i == 0 {
      assert noBlock[..0] + [b] + noBlock[0..] == [b];
    } else if i == 1 || i == 3 {
      assert Find([b], PAGE) == 0 && [b][0 := held] == [held] && [m] + none == [m] && {} + {1} == {1};
    } else if i == 2 || i == 4 {
      assert Entry([m], 1) == 0 && Find([held], PAGE) == 0;
      assert [held][0 := b] == [b] && [m][..0] + [m][1..] == none && {1} - {1} == {};
    } else {
      assert Find([b], PAGE) == 0 && [b][..0] + [b][1..] == noBlock;
    }
  }

  lemma {:induction false} LatePrefix(i: nat)
    requires i <= 6
    ensures var es := LateDelete()[..i];
            Legal(EMPTY, es) && MapsLiveBlocks(EMPTY, es) && Exec(EMPTY, es) == LateState(i)
  {
    if i > 0 {
      LatePrefix(i - 1);
      LateStep(i - 1);
      assert LateDelete()[..i][..i - 1] == LateDelete()[..i - 1];
      hide Apply, Enabled, LateState;
    }
  }

  /**
   * A second delete that comes after the address has been mapped again takes the new mapping's entry: the address
   * stays mapped, and a later FREE takes the block it maps, although every mapping was of a live block.
   */
  lemma {:induction false} LateSecondDeleteBreaksIt()
    ensures var es := LateDelete();
            && Legal(EMPTY, es) && MapsLiveBlocks(EMPTY, es) && es[4] == SecondDelete(1)
            && RegistryCurrent(Exec(EMPTY, es[..4])) && 1 in Exec(EMPTY, es[..4]).vmas
            && Find(Exec(EMPTY, es[..4]).blocks, PAGE) < |Exec(EMPTY, es[..4]).blocks|
            && Exec(EMPTY, es).blocks == [] && 1 in Exec(EMPTY, es).vmas
  {
    LatePrefix(4);
    LatePrefix(6);
    assert LateDelete()[..6] == LateDelete();
    hide Apply, Enabled, Legal, Exec, MapsLiveBlocks;
    assert LateState(4).maps == [Map(1, PAGE, PAGE)] && LateState(4).maps[0].uvaddr in LateState(4).vmas;
  }

  // ---- every mapped address keeps its block ----

  /** No second delete of an address that is mapped when it happens. */
  predicate NoLiveDelete(s: State, es: seq<Event>) {
    es == [] ||
    var t, e := Exec(s, es[..|es| - 1]), es[|es| - 1];
    NoLiveDelete(s, es[..|es| - 1]) && (e.SecondDelete? ==> e.uvaddr !in t.vmas)
  }

  /** A step keeps the registry current exactly when it is not a second delete of a mapped address. */
  lemma {:induction false} RegistryStaysCurrentIff(s: State, e: Event)
    requires RegistryCurrent(s) && Enabled(s, e)
    ensures RegistryCurrent(Apply(s, e)) <==> (e.SecondDelete? ==> e.uvaddr !in s.vmas)
  {
    match e {
      case UserMap(m) => RegisterStaysCurrent(s, m, Apply(s, e));
      case Munmap(u) => UnregisterRemovesOne(s, u);
      case SecondDelete(u) => SecondDeleteHarmlessIff(s, u);
      case _ =>
    }
  }

  lemma RegisterStaysCurrent(s: State, m: Map, t: State)
    requires RegistryCurrent(s) && m.uvaddr !in s.vmas
    requires t.maps == [m] + s.maps && t.vmas == s.vmas + {m.uvaddr}
    ensures RegistryCurrent(t)
  {
    var r := t.maps;
    assert forall i :: 0 <= i < |s.maps| ==> r[i + 1] == s.maps[i] && s.maps[i].uvaddr in s.vmas;
    ListsOneMore(s.maps, m, s.vmas);
  }

  lemma ListsOneMore(maps: seq<Map>, m: Map, vmas: set<nat>)
    requires vmas == set i | 0 <= i < |maps| :: maps[i].uvaddr
    ensures var r := [m] + maps; vmas + {m.uvaddr} == set i | 0 <= i < |r| :: r[i].uvaddr
  {
    var r := [m] + maps;
    assert r[0] == m && forall i :: 0 <= i < |maps| ==> r[i + 1] == maps[i];
    forall x | x in vmas
      ensures exists i :: 0 <= i < |r| && r[i].uvaddr == x
    {
      var i :| 0 <= i < |maps| && maps[i].uvaddr == x;
      assert r[i + 1].uvaddr == x;
    }
  }

  lemma {:induction false} RegistryCurrentOverRuns(s: State, es: seq<Event>)
    requires RegistryCurrent(s) && Legal(s, es) && NoLiveDelete(s, es)
    ensures RegistryCurrent(Exec(s, es))
    decreases |es|
  {
    if es != [] {
      ExecSnoc(s, es);
      hide Apply, Enabled, RegistryCurrent;
      RegistryCurrentOverRuns(s, es[..|es| - 1]);
      RegistryStaysCurrentIff(Exec(s, es[..|es| - 1]), es[|es| - 1]);
    }
  }

  /** The registry has an entry for the user address, starting at this physical one. */
  predicate Maps(s: State, u: nat, phys: nat) {
    exists i :: 0 <= i < |s.maps| && s.maps[i].uvaddr == u && s.maps[i].phys == phys
  }

  lemma StepKeepsEntry(s: State, e: Event, u: nat, phys: nat)
    requires RegistryCurrent(s) && Enabled(s, e) && (e.SecondDelete? ==> e.uvaddr !in s.vmas)
    requires Maps(s, u, phys) && u in Apply(s, e).vmas
    ensures Maps(Apply(s, e), u, phys)
  {
    var i :| 0 <= i < |s.maps| && s.maps[i].uvaddr == u && s.maps[i].phys == phys;
    var t := Apply(s, e);
    match e {
      case UserMap(m) => assert t.maps[i + 1] == s.maps[i];
      case Munmap(v) =>
        var k := Entry(s.maps, v);
        if k < |s.maps| {
          assert t.maps[if i < k then i else i - 1] == s.maps[i];
        }
      case SecondDelete(v) => SecondDeleteHarmlessIff(s, v);
      case _ =>
    }
  }

  lemma EntryHolds(s: State, u: nat, phys: nat)
    requires AllBacked(s) && Maps(s, u, phys)
    ensures Held(s, phys)
  {
    var i :| 0 <= i < |s.maps| && s.maps[i].uvaddr == u && s.maps[i].phys == phys;
    StartingPositive(s.maps, i, s.blocks[Find(s.blocks, phys)]);
  }

  predicate StaysMapped(s: State, es: seq<Event>, u: nat) {
    u in Exec(s, es).vmas && (es == [] || StaysMapped(s, es[..|es| - 1], u))
  }

  /** A run by callers that map only allocated memory and never delete a mapped address's entry alone. */
  predicate Disciplined(s: State, es: seq<Event>) {
    Legal(s, es) && MapsLiveBlocks(s, es) && NoLiveDelete(s, es)
  }

  predicate GoodState(s: State) {
    Inv(s) && AllBacked(s) && RegistryCurrent(s)
  }

  lemma DisciplinedRun(s: State, es: seq<Event>)
    requires GoodState(s) && Disciplined(s, es)
    ensures GoodState(Exec(s, es))
  {
    CountsExactOverRuns(s, es);
    RegistryCurrentOverRuns(s, es);
  }

  lemma {:induction false} EntryStays(s: State, es: seq<Event>, u: nat, phys: nat)
    requires GoodState(s) && Disciplined(s, es) && StaysMapped(s, es, u) && Maps(s, u, phys)
    ensures Maps(Exec(s, es), u, phys) && HeldAlong(s, es, phys) && Held(Exec(s, es), phys)
    decreases |es|
  {
    DisciplinedRun(s, es);
    if es != [] {
      var es' := es[..|es| - 1];
      var t := Exec(s, es');
      ExecSnoc(s, es);
      DisciplinedRun(s, es');
      assert es[|es| - 1].SecondDelete? ==> es[|es| - 1].uvaddr !in t.vmas;
      hide Apply, Enabled, Inv, AllBacked, RegistryCurrent, Held, Maps;
      EntryStays(s, es', u, phys);
      StepKeepsEntry(t, es[|es| - 1], u, phys);
    }
    EntryHolds(Exec(s, es), u, phys);
  }

  lemma EmptyIsGood()
    ensures GoodState(EMPTY)
  {
  }

  /**
   * Every address really mapped keeps its block: after any disciplined run the registry is current, a mapped
   * address has an entry and its entry a live block, and as long as the address stays mapped that block stays.
   */
  lemma {:induction false} MappedAddressKeepsBlock(before: seq<Event>, es: seq<Event>, u: nat)
    requires Disciplined(EMPTY, before) && Disciplined(Exec(EMPTY, before), es)
    requires StaysMapped(Exec(EMPTY, before), es, u)
    ensures var s := Exec(EMPTY, before);
            RegistryCurrent(Exec(s, es)) &&
            exists phys :: Maps(s, u, phys) && Maps(Exec(s, es), u, phys) && SameBlockAt(s, Exec(s, es), phys)
  {
    var s := Exec(EMPTY, before);
    EmptyIsGood();
    DisciplinedRun(EMPTY, before);
    DisciplinedRun(s, es);
    MappedThroughout(s, es, u);
    var i :| 0 <= i < |s.maps| && s.maps[i].uvaddr == u;
    var phys := s.maps[i].phys;
    assert Maps(s, u, phys);
    EntryStays(s, es, u, phys);
    EntryHolds(s, u, phys);
    hide Exec, Legal, Maps, Inv, AllBacked, RegistryCurrent;
    MappedBlockSurvives(before, es, phys);
    if es == [] {
      ExecNone(s);
    }
  }

  lemma ExecNone(s: State)
    ensures Exec(s, []) == s
  {
  }

  lemma {:induction false} MappedThroughout(s: State, es: seq<Event>, u: nat)
    requires StaysMapped(s, es, u)
    ensures u in s.vmas
    decreases |es|
  {
    if es != [] {
      MappedThroughout(s, es[..|es| - 1], u);
    }
  }

  // ---- where the blocks come from ----

  /** Every zone is valid and the zones do not overlap. */
  predicate ZonesDisjoint(zones: seq<Zone>) {
    && (forall i :: 0 <= i < |zones| ==> zones[i].Valid())
    && (forall i, j :: 0 <= i < |zones| && 0 <= j < |zones| && i != j ==>
          Disjoint(zones[i].base, zones[i].size, zones[j].base, zones[j].size))
  }

  /** What first fit hands out in one zone is clear of the blocks of every zone, so it is a Carve. */
  lemma {:induction false} ZoneAllocIsFresh(zones: seq<Zone>, i: nat, size: nat, align: nat, j: nat)
    requires ZonesDisjoint(zones) && i < |zones| && j < |zones| && FirstFit(zones[i], size, align).Some?
    ensures IsFresh(zones[j].blocks, NewBlock(FirstFit(zones[i], size, align).value, AlignWrap(size, PAGE)))
  {
    AllocKeepsValid(zones[i], size, align);
    var b := NewBlock(FirstFit(zones[i], size, align).value, AlignWrap(size, PAGE));
    forall k | 0 <= k < |zones[j].blocks|
      ensures Disjoint(b.phys, b.size, zones[j].blocks[k].phys, zones[j].blocks[k].size)
    {
      if i != j {
        assert Disjoint(zones[i].base, zones[i].size, zones[j].base, zones[j].size);
        assert zones[j].base <= zones[j].blocks[k].phys && zones[j].blocks[k].End() <= zones[j].base + zones[j].size;
      }
    }
  }
}
