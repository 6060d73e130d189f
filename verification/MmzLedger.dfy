/**
 * What becomes of each block, told from the block alone: which step takes it away, and what its reference and mapping
 * counts are over a run.
 */
module MmzLedger {
  import Zones = MmzZone
  import opened MmzMaps

  type Block = Zones.Block

  // ---- one step ----

  /** The registry's first entry for the user address starts in the block. */
  predicate EntryIn(maps: seq<Map>, u: nat, b: Block) {
    var k := Entry(maps, u);
    k < |maps| && b.Contains(maps[k].phys)
  }

  /** The step takes the block away: FREE of an unmapped block, or PUT of the last reference to one. */
  predicate Takes(e: Event, b: Block) {
    match e
    case Free(addr) => b.Contains(addr) && b.userKref == 0 && b.mapKref == 0
    case Put(addr) => b.Contains(addr) && b.refs <= 1 && b.userKref == 0 && b.mapKref == 0
    case _ => false
  }

  /** A block a step leaves, with the counts it then has. */
  function Left(s: State, e: Event, b: Block): Block {
    match e
    case UserMap(m) => if b.Contains(m.phys) then b.(userKref := b.userKref + 1) else b
    case Munmap(u) => if EntryIn(s.maps, u, b) && b.userKref > 0 then b.(userKref := b.userKref - 1) else b
    case SecondDelete(u) => if EntryIn(s.maps, u, b) && b.userKref > 0 then b.(userKref := b.userKref - 1) else b
    case Get(addr) => if b.Contains(addr) then b.(refs := b.refs + 1) else b
    case Put(addr) => if b.Contains(addr) then b.(refs := b.refs - 1) else b
    case KernelMap(addr, ok) =>
      if b.Contains(addr) && (ok || b.mapKref > 0) then b.(mapKref := b.mapKref + 1) else b
    case KernelUnmap(addr) => if b.Contains(addr) && b.mapKref > 0 then b.(mapKref := b.mapKref - 1) else b
    case _ => b
  }

  lemma NotElsewhere(blocks: seq<Block>, k: nat, i: nat)
    requires AllDisjoint(blocks) && k < |blocks| && i < |blocks| && i != k
    ensures blocks[i].phys != blocks[k].phys
  {
    assert Zones.Disjoint(blocks[i].phys, blocks[i].size, blocks[k].phys, blocks[k].size);
  }

  lemma DroppedIsGone(blocks: seq<Block>, k: nat)
    requires AllDisjoint(blocks) && k < |blocks|
    ensures !Listed(Zones.Drop(blocks, k), blocks[k].phys, blocks[k].size)
  {
    var r := Zones.Drop(blocks, k);
    forall i | 0 <= i < |r|
      ensures r[i].phys != blocks[k].phys
    {
      var j := if i < k then i else i + 1;
      assert r[i] == blocks[j];
      NotElsewhere(blocks, k, j);
    }
  }

  lemma DropKeeps(blocks: seq<Block>, k: nat, i: nat)
    requires k < |blocks| && i < |blocks| && i != k
    ensures blocks[i] in Zones.Drop(blocks, k)
  {
    assert Zones.Drop(blocks, k)[if i < k then i else i - 1] == blocks[i];
  }

  lemma UpdateKeeps(blocks: seq<Block>, k: nat, b: Block, i: nat)
    requires k < |blocks| && i < |blocks|
    ensures (if i == k then b else blocks[i]) in blocks[k := b]
  {
    assert blocks[k := b][i] == if i == k then b else blocks[i];
  }

  lemma InsertKeeps(blocks: seq<Block>, at: nat, b: Block, i: nat)
    requires at <= |blocks| && i < |blocks|
    ensures blocks[i] in blocks[..at] + [b] + blocks[at..] && b in blocks[..at] + [b] + blocks[at..]
  {
    var r := blocks[..at] + [b] + blocks[at..];
    assert r[if i < at then i else i + 1] == blocks[i] && r[at] == b;
  }

  /** The block a step looks up is the one that contains its address. */
  lemma FoundHere(blocks: seq<Block>, k: nat, addr: nat)
    requires AllDisjoint(blocks) && k < |blocks|
    ensures Zones.Find(blocks, addr) == k <==> blocks[k].Contains(addr)
  {
    if blocks[k].Contains(addr) {
      FindIsTheBlock(blocks, k, addr);
    }
  }

  /** Steps that look a block up by an address and remove it or change its counts. */
  lemma {:induction false} AddressedFate(s: State, e: Event, k: nat)
    requires Inv(s) && k < |s.blocks|
    requires e.Free? || e.Get? || e.Put? || e.KernelMap? || e.KernelUnmap?
    ensures var b, t := s.blocks[k], Apply(s, e);
            if Takes(e, b) then !Listed(t.blocks, b.phys, b.size) else Left(s, e, b) in t.blocks
  {
    var f, t := Zones.Find(s.blocks, e.addr), Apply(s, e);
    FoundHere(s.blocks, k, e.addr);
    if f == |s.blocks| || t.blocks == s.blocks {
      assert s.blocks[k] in s.blocks;
    } else if |t.blocks| < |s.blocks| {
      DroppedIsGone(s.blocks, f);
      if k != f {
        DropKeeps(s.blocks, f, k);
      }
    } else {
      UpdateKeeps(s.blocks, f, t.blocks[f], k);
    }
  }

  lemma {:induction false} RegisteredFate(s: State, e: Event, k: nat)
    requires Inv(s) && k < |s.blocks|
    requires e.UserMap? || e.Munmap? || e.SecondDelete?
    ensures Left(s, e, s.blocks[k]) in Apply(s, e).blocks
  {
    var t, addr := Apply(s, e), Addressed(s, e);
    var f := Zones.Find(s.blocks, addr);
    FoundHere(s.blocks, k, addr);
    if t.blocks == s.blocks {
      assert s.blocks[k] in t.blocks;
    } else {
      UpdateKeeps(s.blocks, f, t.blocks[f], k);
    }
  }

  /**
   * What a step does to any block: it is taken away exactly by FREE of it while nothing maps it and by PUT of its last
   * reference while nothing maps it, and is otherwise left with exactly its own counts changed.
   */
  lemma {:induction false} BlockFate(s: State, e: Event, k: nat)
    requires Inv(s) && Enabled(s, e) && k < |s.blocks|
    ensures var b, t := s.blocks[k], Apply(s, e);
            if Takes(e, b) then !Listed(t.blocks, b.phys, b.size) else Left(s, e, b) in t.blocks
  {
    match e {
      case Carve(at, b) => InsertKeeps(s.blocks, at, b, k);
      case UserMap(_) => RegisteredFate(s, e, k);
      case Munmap(_) => RegisteredFate(s, e, k);
      case SecondDelete(_) => RegisteredFate(s, e, k);
      case _ => AddressedFate(s, e, k);
    }
  }

  /** No block appears but the one a step carves, as it was handed out: one reference and no mapping. */
  lemma {:induction false} NoStrayBlocks(s: State, e: Event)
    requires Enabled(s, e)
    ensures var t := Apply(s, e);
            && (e.Carve? ==> e.b == Zones.Block(e.b.phys, e.b.size, 1, 0, 0) && e.b in t.blocks
                             && |t.blocks| == |s.blocks| + 1)
            && (!e.Carve? ==> |t.blocks| <= |s.blocks|)
  {
    if e.Carve? {
      var r := s.blocks[..e.at] + [e.b] + s.blocks[e.at..];
      assert r[e.at] == e.b;
    }
  }

  // ---- over a run ----

  /** A block's references and outstanding kernel mappings. */
  datatype Ledger = Ledger(refs: int, maps: nat)

  /** What one step enters for a block. */
  function Entered(l: Ledger, e: Event, b: Block): Ledger {
    match e
    case Get(addr) => if b.Contains(addr) then l.(refs := l.refs + 1) else l
    case Put(addr) => if b.Contains(addr) then l.(refs := l.refs - 1) else l
    case KernelMap(addr, ok) => if b.Contains(addr) && (ok || l.maps > 0) then l.(maps := l.maps + 1) else l
    case KernelUnmap(addr) => if b.Contains(addr) && l.maps > 0 then l.(maps := l.maps - 1) else l
    case _ => l
  }

  function Balance(l: Ledger, es: seq<Event>, b: Block): Ledger {
    if es == [] then l else Entered(Balance(l, es[..|es| - 1], b), es[|es| - 1], b)
  }

  /** The block with this extent, in a list of disjoint blocks. */
  predicate BlockIs(s: State, b: Block, l: Ledger) {
    exists k :: 0 <= k < |s.blocks| && s.blocks[k].phys == b.phys && s.blocks[k].size == b.size
                && s.blocks[k].refs == l.refs && s.blocks[k].mapKref == l.maps
  }

  /** The block stays listed at every point of the run. */
  predicate StaysListed(s: State, es: seq<Event>, b: Block) {
    Listed(Exec(s, es).blocks, b.phys, b.size) && (es == [] || StaysListed(s, es[..|es| - 1], b))
  }

  lemma LeftIsEntered(s: State, e: Event, c: Block, b: Block)
    requires c.phys == b.phys && c.size == b.size
    ensures var d := Left(s, e, c);
            d.phys == c.phys && d.size == c.size
            && Ledger(d.refs, d.mapKref) == Entered(Ledger(c.refs, c.mapKref), e, b)
  {
  }

  lemma {:induction false} StepBalances(s: State, e: Event, b: Block, l: Ledger)
    requires Inv(s) && Enabled(s, e) && Inv(Apply(s, e)) && BlockIs(s, b, l)
    requires Listed(Apply(s, e).blocks, b.phys, b.size)
    ensures BlockIs(Apply(s, e), b, Entered(l, e, b))
  {
    var k :| 0 <= k < |s.blocks| && s.blocks[k].phys == b.phys && s.blocks[k].size == b.size
             && s.blocks[k].refs == l.refs && s.blocks[k].mapKref == l.maps;
    BlockFate(s, e, k);
    LeftIsEntered(s, e, s.blocks[k], b);
    var t, c := Apply(s, e), Left(s, e, s.blocks[k]);
    hide Apply, Enabled, Inv, Listed, Left, Takes, Entered;
    assert c in t.blocks;
    var m :| 0 <= m < |t.blocks| && t.blocks[m] == c;
  }

  /**
   * The counts over a run that maps only live blocks: while a block stays, it has the references it had plus the GETs
   * and less the PUTs of it, and the kernel mappings that are outstanding.
   */
  lemma {:induction false} CountsBalance(before: seq<Event>, es: seq<Event>, b: Block, l: Ledger)
    requires Legal(EMPTY, before) && MapsLiveBlocks(EMPTY, before)
    requires var s := Exec(EMPTY, before);
             Legal(s, es) && MapsLiveBlocks(s, es) && BlockIs(s, b, l) && StaysListed(s, es, b)
    ensures BlockIs(Exec(Exec(EMPTY, before), es), b, Balance(l, es, b))
    decreases |es|
  {
    if es == [] {
      return;
    }
    var s, n := Exec(EMPTY, before), |es| - 1;
    CountsExactOverRuns(EMPTY, before);
    CountsExactOverRuns(s, es[..n]);
    CountsExactOverRuns(s, es);
    ExecSnoc(s, es);
    CountsBalance(before, es[..n], b, l);
    hide Apply, Enabled, Inv, AllBacked, BlockIs, Listed;
    StepBalances(Exec(s, es[..n]), es[n], b, Balance(l, es[..n], b));
  }
}
