/** The MMZ zone allocator: aligned first fit over a list of blocks kept sorted by address (modules/ar_osal.c). */
module MmzZone {
  import opened Wrappers
  import opened Bytes

  const PAGE := 4096
  const U64 := 0x1_0000_0000_0000_0000

  /** struct mmb: an extent, its reference count, and the user and kernel mappings it backs. */
  datatype Block = Block(phys: nat, size: nat, refs: int, userKref: nat, mapKref: nat) {
    function End(): nat {
      phys + size
    }

    predicate Contains(addr: nat) {
      phys <= addr < End()
    }
  }

  function NewBlock(phys: nat, size: nat): Block {
    Block(phys, size, 1, 0, 0)
  }

  predicate Disjoint(a: nat, n: nat, b: nat, m: nat) {
    a + n <= b || b + m <= a
  }

  predicate Sorted(blocks: seq<Block>) {
    && (forall i :: 0 <= i < |blocks| ==> blocks[i].size > 0)
    && (forall i, j :: 0 <= i < j < |blocks| ==> blocks[i].End() <= blocks[j].phys)
  }

  predicate Inside(base: nat, size: nat, blocks: seq<Block>) {
    forall i :: 0 <= i < |blocks| ==> base <= blocks[i].phys && blocks[i].End() <= base + size
  }

  datatype Zone = Zone(base: nat, size: nat, blocks: seq<Block>) {
    /** No address in reach of the zone wraps, and the list is sorted, disjoint and inside the zone. */
    predicate Valid() {
      base + 2 * size <= U64 && Sorted(blocks) && Inside(base, size, blocks)
    }
  }

  predicate IsPow2(n: nat) {
    n == 1 || (n > 1 && n % 2 == 0 && IsPow2(n / 2))
  }

  /** The kernel's ALIGN(n, a) for a power of two a. */
  function AlignUp(n: nat, a: nat): (r: nat)
    requires a > 0
    ensures n <= r < n + a && r % a == 0
  {
    var q := (n + a - 1) / a;
    MulMod(q, a);
    assert n + a - 1 == a * q + (n + a - 1) % a;
    q * a
  }

  lemma {:induction false} MultipleGap(q: int, p: int, a: nat)
    requires a > 0 && q * a < p * a
    ensures q * a + a <= p * a
  {
    MulMono(a, p, q);
    MulMono(a, q + 1, p);
    assert a * (q + 1) == a * q + a;
  }

  /** AlignUp gives the least multiple. */
  lemma AlignUpIsLeast(n: nat, a: nat, x: nat)
    requires a > 0 && x % a == 0 && x < AlignUp(n, a)
    ensures x < n
  {
    var r := AlignUp(n, a);
    var q, p := x / a, r / a;
    assert x == q * a && r == p * a;
    MultipleGap(q, p, a);
  }

  /** ALIGN on a 64-bit address. */
  function AlignWrap(n: nat, a: nat): (r: nat)
    requires a > 0
    ensures AlignUp(n, a) < U64 ==> r == AlignUp(n, a)
  {
    AlignUp(n, a) % U64
  }

  function EffectiveAlign(align: nat): (a: nat)
    ensures a >= PAGE
  {
    if align < PAGE then PAGE else align
  }

  /** A request the allocator looks at: the page-rounded size and the alignment both fit the zone. */
  predicate Acceptable(z: Zone, size: nat, align: nat) {
    var a := EffectiveAlign(align);
    0 < size <= z.size && IsPow2(a) && a <= z.size && 0 < AlignWrap(size, PAGE) <= z.size
  }

  /** The gap walk from block k with candidate address cur. */
  function Walk(blocks: seq<Block>, k: nat, cur: nat, size: nat, align: nat): Option<nat>
    requires k <= |blocks| && align > 0
    decreases |blocks| - k
  {
    if cur + size >= U64 then None
    else if k == |blocks| || cur + size <= blocks[k].phys then Some(cur)
    else Walk(blocks, k + 1, AlignWrap(blocks[k].End(), align), size, align)
  }

  function FirstFit(z: Zone, size: nat, align: nat): Option<nat> {
    if !Acceptable(z, size, align) then None
    else
      var a, n := EffectiveAlign(align), AlignWrap(size, PAGE);
      var w := Walk(z.blocks, 0, AlignWrap(z.base, a), n, a);
      if w.None? || w.value + n > z.base + z.size then None else w
  }

  /** Where list order puts a block at this address. */
  function Slot(blocks: seq<Block>, phys: nat): (k: nat)
    ensures k <= |blocks|
  {
    if blocks == [] || blocks[0].phys > phys then 0 else 1 + Slot(blocks[1..], phys)
  }

  function Insert(blocks: seq<Block>, b: Block): seq<Block> {
    var k := Slot(blocks, b.phys);
    blocks[..k] + [b] + blocks[k..]
  }

  /** The zone after an allocation attempt. */
  function Alloc(z: Zone, size: nat, align: nat): Zone {
    var r := FirstFit(z, size, align);
    if r.None? then z else z.(blocks := Insert(z.blocks, NewBlock(r.value, AlignWrap(size, PAGE))))
  }

  /** __getby_phys_2 over one list: the index of the block holding an address, or the list's length. */
  function Find(blocks: seq<Block>, addr: nat): (k: nat)
    ensures k <= |blocks|
    ensures k < |blocks| ==> blocks[k].Contains(addr)
    ensures forall i :: 0 <= i < k ==> !blocks[i].Contains(addr)
  {
    if blocks == [] || blocks[0].Contains(addr) then 0 else 1 + Find(blocks[1..], addr)
  }

  /** The lookup loop. */
  method GetByPhys(blocks: seq<Block>, addr: nat) returns (k: nat)
    ensures k == Find(blocks, addr)
  {
    k := 0;
    assert blocks[0..] == blocks;
    while k < |blocks| && !(addr >= blocks[k].phys && addr < blocks[k].phys + blocks[k].size)
      invariant k <= |blocks|
      invariant Find(blocks, addr) == k + Find(blocks[k..], addr)
    {
      assert blocks[k..][1..] == blocks[k + 1..];
      k := k + 1;
    }
  }

  function Drop<T>(blocks: seq<T>, k: nat): seq<T>
    requires k < |blocks|
  {
    blocks[..k] + blocks[k + 1..]
  }

  // ---- the list as the driver keeps it ----

  class MmbList {
    const base: nat
    const size: nat
    var blocks: seq<Block>

    ghost function View(): Zone
      reads this
    {
      Zone(base, size, blocks)
    }

    constructor (base: nat, size: nat)
      requires base + 2 * size <= U64
      ensures View() == Zone(base, size, []) && View().Valid()
    {
      this.base, this.size, blocks := base, size, [];
    }

    /** The walk over the gaps. */
    method FindGap(n: nat, align: nat) returns (r: Option<nat>)
      requires align > 0
      ensures r == Walk(blocks, 0, AlignWrap(base, align), n, align)
    {
      hide AlignUp;
      var cur: nat, k: nat := AlignWrap(base, align), 0;
      while k < |blocks|
        invariant k <= |blocks|
        invariant Walk(blocks, 0, AlignWrap(base, align), n, align) == Walk(blocks, k, cur, n, align)
      {
        if cur + n >= U64 {
          return None;
        }
        if cur + n <= blocks[k].phys {
          break;
        }
        cur := AlignWrap(blocks[k].End(), align);
        k := k + 1;
      }
      r := if cur + n >= U64 then None else Some(cur);
    }

    /** The second walk: the block goes before the first one above it. */
    method InsertSorted(b: Block)
      modifies this
      ensures View() == old(View()).(blocks := Insert(old(blocks), b))
    {
      var at := 0;
      assert blocks[0..] == blocks;
      while at < |blocks| && blocks[at].phys <= b.phys
        invariant at <= |blocks| && blocks == old(blocks)
        invariant Slot(blocks, b.phys) == at + Slot(blocks[at..], b.phys)
      {
        assert blocks[at..][1..] == blocks[at + 1..];
        at := at + 1;
      }
      blocks := blocks[..at] + [b] + blocks[at..];
    }

    /** zone_alloc_locked. */
    method AllocLocked(size0: nat, align0: nat) returns (r: Option<Block>)
      modifies this
      ensures View() == Alloc(old(View()), size0, align0)
      ensures r == var f := FirstFit(old(View()), size0, align0);
                   if f.None? then None else Some(NewBlock(f.value, AlignWrap(size0, PAGE)))
    {
      hide AlignUp, IsPow2, Walk, Insert;
      var align := if align0 == 0 then PAGE else align0;
      align := if align < PAGE then PAGE else align;
      if size0 == 0 || size0 > size || !IsPow2(align) || align > size {
        return None;
      }
      var n := AlignWrap(size0, PAGE);
      if n == 0 || n > size {
        return None;
      }
      var gap := FindGap(n, align);
      if gap.None? || gap.value + n > base + size {
        return None;
      }
      var nb := NewBlock(gap.value, n);
      InsertSorted(nb);
      r := Some(nb);
    }

    /** hil_mmb_free. */
    method Free(phys: nat)
      modifies this
      ensures View() == Release(old(View()), phys)
    {
      var k := GetByPhys(blocks, phys);
      if k < |blocks| {
        blocks := blocks[..k] + blocks[k + 1..];
      }
    }
  }

  // ---- releasing what was allocated ----

  /** hil_mmb_free of the block at this address: unlinked whoever maps it. */
  function Release(z: Zone, phys: nat): Zone {
    var k := Find(z.blocks, phys);
    if k < |z.blocks| then z.(blocks := Drop(z.blocks, k)) else z
  }

  // ---- first fit is exact ----

  /** The extent of n bytes at addr is aligned, inside the zone and clear of every block. */
  predicate Fits(z: Zone, addr: nat, n: nat, a: nat)
    requires a > 0
  {
    && addr % a == 0 && z.base <= addr && addr + n <= z.base + z.size
    && forall i :: 0 <= i < |z.blocks| ==> Disjoint(addr, n, z.blocks[i].phys, z.blocks[i].size)
  }

  /** Nothing below addr would do. */
  predicate NoneBelow(z: Zone, addr: nat, n: nat, a: nat)
    requires a > 0
  {
    forall x :: 0 <= x < addr ==> !Fits(z, x, n, a)
  }

  /** What the walk knows at block k: cur is aligned, past the blocks behind it, and nothing below it would do. */
  predicate Searched(z: Zone, k: nat, cur: nat, n: nat, a: nat)
    requires a > 0
  {
    && k <= |z.blocks|
    && cur % a == 0 && z.base <= cur < z.base + z.size + a
    && (forall i :: 0 <= i < k ==> z.blocks[i].End() <= cur)
    && NoneBelow(z, cur, n, a)
  }

  /** Stepping past a block the extent would hit. */
  lemma SearchStep(z: Zone, k: nat, cur: nat, n: nat, a: nat)
    requires z.Valid() && 0 < a <= z.size && n > 0 && Searched(z, k, cur, n, a)
    requires k < |z.blocks| && cur + n > z.blocks[k].phys
    ensures Searched(z, k + 1, AlignWrap(z.blocks[k].End(), a), n, a)
  {
    var b := z.blocks[k];
    var next := AlignUp(b.End(), a);
    assert next < U64;
    forall i | 0 <= i < k + 1
      ensures z.blocks[i].End() <= next
    {
      if i < k {
        assert z.blocks[i].End() <= b.phys;
      }
    }
    forall x | 0 <= x < next
      ensures !Fits(z, x, n, a)
    {
      if x >= cur && x % a == 0 {
        AlignUpIsLeast(b.End(), a, x);
        assert !Disjoint(x, n, b.phys, b.size);
      }
    }
  }

  lemma {:induction false} WalkIsExact(z: Zone, k: nat, cur: nat, n: nat, a: nat)
    requires z.Valid() && 0 < a <= z.size && 0 < n <= z.size && Searched(z, k, cur, n, a)
    ensures var w := Walk(z.blocks, k, cur, n, a);
            && (w.Some? && w.value + n <= z.base + z.size ==> Fits(z, w.value, n, a) && NoneBelow(z, w.value, n, a))
            && (w.None? || w.value + n > z.base + z.size ==> forall x :: !Fits(z, x, n, a))
    decreases |z.blocks| - k
  {
    if cur + n >= U64 {
      assert z.base + z.size < U64;
      NothingPast(z, cur, n, a);
    } else if k < |z.blocks| && cur + n > z.blocks[k].phys {
      SearchStep(z, k, cur, n, a);
      WalkIsExact(z, k + 1, AlignWrap(z.blocks[k].End(), a), n, a);
    } else {
      if cur + n <= z.base + z.size {
        forall i | 0 <= i < |z.blocks|
          ensures Disjoint(cur, n, z.blocks[i].phys, z.blocks[i].size)
        {
          if k < i {
            assert z.blocks[k].End() <= z.blocks[i].phys;
          }
        }
      } else {
        NothingPast(z, cur, n, a);
      }
    }
  }

  lemma NothingPast(z: Zone, cur: nat, n: nat, a: nat)
    requires a > 0 && NoneBelow(z, cur, n, a) && cur + n > z.base + z.size
    ensures forall x :: !Fits(z, x, n, a)
  {
    forall x: nat
      ensures !Fits(z, x, n, a)
    {
      assert x < cur ==> !Fits(z, x, n, a);
    }
  }

  lemma SearchStart(z: Zone, n: nat, a: nat)
    requires z.Valid() && 0 < a <= z.size
    ensures Searched(z, 0, AlignWrap(z.base, a), n, a)
  {
    var cur := AlignUp(z.base, a);
    assert cur < U64;
    forall x | 0 <= x < cur
      ensures !Fits(z, x, n, a)
    {
      if x % a == 0 {
        AlignUpIsLeast(z.base, a, x);
      }
    }
  }

  /**
   * Exact first fit: the allocator returns an address if and only if it is the lowest aligned one whose
   * page-rounded extent lies in the zone and misses every block, and fails on an acceptable request only when
   * there is no such address.
   */
  lemma {:induction false} FirstFitIsExact(z: Zone, size: nat, align: nat, addr: nat)
    requires z.Valid() && Acceptable(z, size, align)
    ensures var n, a := AlignWrap(size, PAGE), EffectiveAlign(align);
            && (FirstFit(z, size, align) == Some(addr) <==> Fits(z, addr, n, a) && NoneBelow(z, addr, n, a))
            && (FirstFit(z, size, align).None? <==> forall x :: !Fits(z, x, n, a))
  {
    var n, a := AlignWrap(size, PAGE), EffectiveAlign(align);
    SearchStart(z, n, a);
    WalkIsExact(z, 0, AlignWrap(z.base, a), n, a);
    var r := FirstFit(z, size, align);
    if r.Some? && Fits(z, addr, n, a) && NoneBelow(z, addr, n, a) {
      assert r.value >= addr && addr >= r.value;
    }
  }

  // ---- every run keeps the list sorted, disjoint and inside ----

  lemma {:induction false} SlotIsOrdered(blocks: seq<Block>, phys: nat)
    requires Sorted(blocks)
    ensures var k := Slot(blocks, phys);
            && (forall i :: 0 <= i < k ==> blocks[i].phys <= phys)
            && (forall i :: k <= i < |blocks| ==> phys < blocks[i].phys)
  {
    if blocks == [] {
    } else if blocks[0].phys > phys {
      forall i | 0 < i < |blocks|
        ensures phys < blocks[i].phys
      {
        assert blocks[0].End() <= blocks[i].phys;
      }
    } else {
      SlotIsOrdered(blocks[1..], phys);
    }
  }

  lemma InsertIndex(blocks: seq<Block>, b: Block)
    ensures var k, r := Slot(blocks, b.phys), Insert(blocks, b);
            |r| == |blocks| + 1 &&
            forall i :: 0 <= i < |r| ==> r[i] == if i < k then blocks[i] else if i == k then b else blocks[i - 1]
  {
    hide Slot;
  }

  lemma InsertCounts(blocks: seq<Block>, b: Block)
    ensures multiset(Insert(blocks, b)) == multiset(blocks) + multiset{b}
  {
    var k := Slot(blocks, b.phys);
    hide Slot;
    assert blocks == blocks[..k] + blocks[k..];
  }

  lemma InsertKeepsSorted(blocks: seq<Block>, b: Block)
    requires Sorted(blocks) && b.size > 0
    requires forall i :: 0 <= i < |blocks| ==> Disjoint(b.phys, b.size, blocks[i].phys, blocks[i].size)
    ensures Sorted(Insert(blocks, b))
  {
    SlotIsOrdered(blocks, b.phys);
    InsertIndex(blocks, b);
    var k, r := Slot(blocks, b.phys), Insert(blocks, b);
    hide Slot, Insert;
    forall i, j | 0 <= i < j < |r|
      ensures r[i].End() <= r[j].phys
    {
      if i == k {
        assert Disjoint(b.phys, b.size, blocks[j - 1].phys, blocks[j - 1].size);
      } else if j == k {
        assert Disjoint(b.phys, b.size, blocks[i].phys, blocks[i].size);
      }
    }
  }

  /** Allocation keeps the zone valid and adds exactly one block, clear of all the others. */
  lemma {:induction false} AllocKeepsValid(z: Zone, size: nat, align: nat)
    requires z.Valid()
    ensures Alloc(z, size, align).Valid()
    ensures FirstFit(z, size, align).Some? ==>
              var b := NewBlock(FirstFit(z, size, align).value, AlignWrap(size, PAGE));
              && multiset(Alloc(z, size, align).blocks) == multiset(z.blocks) + multiset{b}
              && b.phys % EffectiveAlign(align) == 0 && b.size % PAGE == 0 && b.size >= size
              && z.base <= b.phys && b.End() <= z.base + z.size
              && forall i :: 0 <= i < |z.blocks| ==> Disjoint(b.phys, b.size, z.blocks[i].phys, z.blocks[i].size)
  {
    var r := FirstFit(z, size, align);
    if r.Some? {
      FirstFitIsExact(z, size, align, r.value);
      var b := NewBlock(r.value, AlignWrap(size, PAGE));
      assert AlignUp(size, PAGE) < size + PAGE <= U64;
      InsertKeepsSorted(z.blocks, b);
      InsertIndex(z.blocks, b);
      InsertCounts(z.blocks, b);
      hide Slot, Insert, FirstFit, Sorted;
      assert Inside(z.base, z.size, Insert(z.blocks, b));
    }
  }

  lemma DropKeepsValid(z: Zone, k: nat)
    requires z.Valid() && k < |z.blocks|
    ensures z.(blocks := Drop(z.blocks, k)).Valid()
    ensures multiset(Drop(z.blocks, k)) == multiset(z.blocks) - multiset{z.blocks[k]}
  {
    var r := Drop(z.blocks, k);
    assert forall i :: 0 <= i < |r| ==> r[i] == if i < k then z.blocks[i] else z.blocks[i + 1];
    DropCounts(z.blocks, k);
  }

  lemma DropCounts(blocks: seq<Block>, k: nat)
    requires k < |blocks|
    ensures multiset(Drop(blocks, k)) == multiset(blocks) - multiset{blocks[k]}
  {
    assert blocks == blocks[..k] + [blocks[k]] + blocks[k + 1..];
  }

  /** In a sorted list at most one block holds an address, so the first found is the one. */
  lemma FindIsUnique(blocks: seq<Block>, k: nat, addr: nat)
    requires Sorted(blocks) && k < |blocks| && blocks[k].Contains(addr)
    ensures Find(blocks, addr) == k
  {
    forall i | 0 <= i < k
      ensures !blocks[i].Contains(addr)
    {
      assert blocks[i].End() <= blocks[k].phys;
    }
  }

  /** Releasing what an allocation returned gives back the very list it started from. */
  lemma {:induction false} ReleaseUndoesAlloc(z: Zone, size: nat, align: nat)
    requires z.Valid() && FirstFit(z, size, align).Some?
    ensures Release(Alloc(z, size, align), FirstFit(z, size, align).value) == z
  {
    var b := NewBlock(FirstFit(z, size, align).value, AlignWrap(size, PAGE));
    AllocKeepsValid(z, size, align);
    InsertIndex(z.blocks, b);
    var k, r := Slot(z.blocks, b.phys), Insert(z.blocks, b);
    FindIsUnique(r, k, b.phys);
    hide Slot;
    assert Drop(r, k) == z.blocks;
  }

  /** Releasing an address unlinks the one block that holds it, and nothing when no block does. */
  lemma {:induction false} ReleaseRemovesOnly(z: Zone, addr: nat, k: nat)
    requires z.Valid()
    ensures k < |z.blocks| && z.blocks[k].Contains(addr) ==>
              multiset(Release(z, addr).blocks) == multiset(z.blocks) - multiset{z.blocks[k]}
    ensures (forall i :: 0 <= i < |z.blocks| ==> !z.blocks[i].Contains(addr)) ==> Release(z, addr) == z
    ensures Release(z, addr).base == z.base && Release(z, addr).size == z.size
  {
    if k < |z.blocks| && z.blocks[k].Contains(addr) {
      FindIsUnique(z.blocks, k, addr);
      DropKeepsValid(z, k);
    }
  }

  // ---- which requests are served ----

  ghost predicate PowerOfTwo(n: nat) {
    exists k: nat :: n == Pow2(k)
  }

  lemma {:induction false} IsPow2Exactly(n: nat)
    ensures IsPow2(n) <==> PowerOfTwo(n)
  {
    if n > 1 && n % 2 == 0 {
      IsPow2Exactly(n / 2);
      if PowerOfTwo(n / 2) {
        var k: nat :| n / 2 == Pow2(k);
        assert Pow2(k + 1) == n;
      }
    }
    if n == 1 {
      assert Pow2(0) == 1;
    }
    if PowerOfTwo(n) {
      var k: nat :| n == Pow2(k);
      if k > 0 {
        assert n == 2 * Pow2(k - 1) && n / 2 == Pow2(k - 1);
      }
    }
  }

  /** The page-rounded size is the only multiple of a page within a page of the size. */
  lemma RoundedIs(size: nat, n: nat)
    requires n % PAGE == 0 && size <= n < size + PAGE
    ensures n < U64 ==> AlignWrap(size, PAGE) == n
  {
    var r := AlignUp(size, PAGE);
    if r < n {
      SameMultiple(r, n);
    } else if n < r {
      SameMultiple(n, r);
    }
  }

  lemma SameMultiple(x: nat, y: nat)
    requires x % PAGE == 0 && y % PAGE == 0 && x <= y < x + PAGE
    ensures x == y
  {
  }

  /**
   * Which requests are served, from the request alone: with n the size rounded up to a page and a the alignment, at
   * least a page, an allocation succeeds if and only if the size is not zero, a is a power of two no larger than
   * the zone, and n bytes fit somewhere at a multiple of a; it gets the lowest such address, with one reference.
   */
  lemma {:induction false} AllocationIsExact(z: Zone, size: nat, align: nat, n: nat)
    requires z.Valid() && n % PAGE == 0 && size <= n < size + PAGE
    ensures var a, r := if align > PAGE then align else PAGE, FirstFit(z, size, align);
            && (r.Some? <==> size > 0 && PowerOfTwo(a) && a <= z.size && exists x :: Fits(z, x, n, a))
            && (r.Some? ==>
                  && Fits(z, r.value, n, a) && NoneBelow(z, r.value, n, a)
                  && multiset(Alloc(z, size, align).blocks)
                     == multiset(z.blocks) + multiset{Block(r.value, n, 1, 0, 0)})
            && (r.None? ==> Alloc(z, size, align) == z)
  {
    var a := if align > PAGE then align else PAGE;
    IsPow2Exactly(a);
    RoundedIs(size, n);
    AllocKeepsValid(z, size, align);
    hide AlignWrap, IsPow2, Walk, Insert, PowerOfTwo, Sorted, Inside;
    if Acceptable(z, size, align) {
      FirstFitIsExact(z, size, align, if FirstFit(z, size, align).Some? then FirstFit(z, size, align).value else 0);
    }
  }

  datatype Event = AllocEvent(size: nat, align: nat) | FreeEvent(addr: nat)

  function Step(z: Zone, e: Event): Zone {
    match e
    case AllocEvent(size, align) => Alloc(z, size, align)
    case FreeEvent(addr) => Release(z, addr)
  }

  function Exec(z: Zone, es: seq<Event>): Zone {
    if es == [] then z else Step(Exec(z, es[..|es| - 1]), es[|es| - 1])
  }

  /** Over every run of allocations and frees the list stays sorted, pairwise disjoint and inside the zone. */
  lemma {:induction false} RunKeepsValid(base: nat, size: nat, es: seq<Event>)
    requires base + 2 * size <= U64
    ensures Exec(Zone(base, size, []), es).Valid()
    ensures Exec(Zone(base, size, []), es).base == base && Exec(Zone(base, size, []), es).size == size
  {
    if es != [] {
      var z, e := Exec(Zone(base, size, []), es[..|es| - 1]), es[|es| - 1];
      RunKeepsValid(base, size, es[..|es| - 1]);
      match e {
        case AllocEvent(n, a) => AllocKeepsValid(z, n, a);
        case FreeEvent(addr) =>
          if Find(z.blocks, addr) < |z.blocks| {
            DropKeepsValid(z, Find(z.blocks, addr));
          }
      }
    }
  }
}
