/** kernel/memory/paging.c and the table walkers of malloc.c as code that edits tables in place. */
module PageTableCode {
  import opened Machine
  import opened Paging
  import opened PagingOps
  import PagingRuns


  class PageTables {
    var mem: map<nat, seq<nat>>  // table pages by physical address
    var pml4: nat
    var nextFreePage: nat

    function Value(): Tables
      reads this
    {
      Tables(mem, pml4, nextFreePage)
    }

    ghost predicate Valid()
      reads this
    {
      WF(Value())
    }

    /** The first steps of init_paging. */
    constructor ()
      ensures Valid() && Value() == PagingRuns.Boot()
    {
      mem := map[];
      pml4 := 0x4000;
      nextFreePage := 0x4000;
      new;
      pml4 := AllocPage();
      PagingRuns.BootIsEmptyTree();
    }

    method AllocPage() returns (page: nat)
      modifies this
      ensures Value() == Alloc(old(Value())) && page == old(nextFreePage)
    {
      page := nextFreePage;
      nextFreePage := nextFreePage + PAGE;
      mem := mem[page := ZeroTable()];
    }

    /** Follow slot i of a table, allocating the next table when the slot is empty. */
    method NextTable(table: nat, i: nat) returns (child: nat)
      requires HasTable(Value(), table) && i < ENTRIES && table != nextFreePage
      modifies this
      ensures Value() == Ensure(old(Value()), table, i) && child == Child(Value(), table, i)
    {
      if !Present(mem[table][i]) {
        var page := AllocPage();
        StoreEntry(table, i, TableEntry(page));
      }
      child := Frame(mem[table][i]);
    }

    method ReadEntry(table: nat, i: nat) returns (e: nat)
      requires HasTable(Value(), table) && i < ENTRIES
      ensures e == Entry(Value(), table, i)
    {
      e := mem[table][i];
    }

    method StoreEntry(table: nat, i: nat, e: nat)
      requires HasTable(Value(), table) && i < ENTRIES
      modifies this
      ensures Value() == Put(old(Value()), table, i, e)
    {
      var row: seq<nat> := mem[table][i := e];
      mem := mem[table := row];
    }

    /** The part of the descent that all three mappers share. */
    method DescendToPd(vaddr: nat) returns (pd: nat)
      requires Valid() && nextFreePage + 2 * PAGE <= ADDR_LIMIT
      modifies this
      ensures Valid() && (Value(), pd) == GrowToPd(old(Value()), Block(vaddr))
      ensures Node(Value(), PdPath(Block(vaddr))) == Some(pd)
    {
      ghost var t := Value();
      IndexPath(vaddr);
      GrowToPdKeeps(t, Block(vaddr));
      assert Node(t, Root) == Some(pml4);
      EnsureKeeps(t, Root, Idx4(vaddr));
      var pdpt := NextTable(pml4, Idx4(vaddr));
      assert Node(Value(), Sub(Root, Idx4(vaddr))) == Some(pdpt);
      pd := NextTable(pdpt, Idx3(vaddr));
    }

    method MapVirtual(virtualAddr: nat, physAddr: nat, size: nat)
      requires Valid() && Affords(Value(), RangePaths(virtualAddr, PageCount(size)))
      requires NoLargeIn(Value(), virtualAddr, PageCount(size))
      modifies this
      ensures Value() == PagingOps.MapVirtual(old(Value()), virtualAddr, physAddr, size)
      ensures Valid() && Grown(old(Value()), Value(), RangePaths(virtualAddr, PageCount(size)), 3)
      ensures forall w: nat | w < VPAGES ::
        Translate(Value(), w) == PagesEffect(Translate(old(Value()), w), virtualAddr, physAddr, PageCount(size), w)
    {
      hide WF, Translate, MapPage, Vpn, U64, PagesEffect, SmallEntry, NoLargeIn, Affords, Grown, RangePaths;
      ghost var t := Value();
      ghost var k := 0;
      var offset := 0;
      while offset < size
        invariant offset == k * PAGE && k <= PageCount(size)
        invariant Value() == MapPages(t, virtualAddr, physAddr, k)
      {
        PageCountCovers(size, offset);
        DivUnique(offset, PAGE, k, 0);
        NoLargeAt(t, virtualAddr, physAddr, PageCount(size), k);
        MapOnePage(U64(virtualAddr + offset), U64(physAddr + offset));
        offset := offset + PAGE;
        k := k + 1;
      }
      StepsDone(size, k, PAGE);
      MapPagesRefines(t, virtualAddr, physAddr, k);
    }

    /** The body of the loop of map_virtual. */
    method MapOnePage(vaddr: nat, paddr: nat)
      requires Valid() && nextFreePage + 3 * PAGE <= ADDR_LIMIT && !Translate(Value(), Vpn(vaddr)).Large2M?
      modifies this
      ensures Valid() && Value() == MapPage(old(Value()), Vpn(vaddr), SmallEntry(paddr))
    {
      ghost var t := Value();
      IndexPath(vaddr);
      SmallEntryBits(paddr);
      MapPageIsFlatUpdate(t, Vpn(vaddr), SmallEntry(paddr));
      GrowToPtKeeps(t, Vpn(vaddr));
      var pd := DescendToPd(vaddr);
      var pt := NextTable(pd, Idx2(vaddr));
      StoreEntry(pt, Idx1(vaddr), SmallEntry(paddr));
    }

    method MapIdentity(physcAddr: nat, size: nat)
      requires Valid() && physcAddr < TWO64 && size < TWO64 && LoopEnds(physcAddr, size, BLOCK)
      requires physcAddr + size < TWO64 ==> Affords(Value(), BlockRangePaths(physcAddr, Steps(size, BLOCK)))
      modifies this
      ensures Valid()
      ensures physcAddr + size < TWO64 ==> Value() == PagingOps.MapIdentity(old(Value()), physcAddr, size)
      ensures physcAddr + size >= TWO64 ==> Value() == old(Value())
    {
      hide WF, Translate, MapBlock, Block, LargeEntry, BlocksEffect, Affords, Grown, BlockRangePaths, PtsReplaced;
      ghost var t := Value();
      ghost var k := 0;
      var addr := physcAddr;
      EndOfRange(physcAddr, size);
      while addr < U64(physcAddr + size)
        invariant k <= Steps(size, BLOCK) && (physcAddr + size >= TWO64 ==> k == 0)
        invariant addr == physcAddr + k * BLOCK < TWO64
        invariant Valid() && Value() == MapBlocks(t, physcAddr, k, IDENTITY_FLAGS)
        decreases TWO64 - addr
      {
        StepsLeft(size, k, BLOCK);
        RoomForBlock(t, physcAddr, Steps(size, BLOCK), k, IDENTITY_FLAGS);
        NextStep(physcAddr, size, k);
        MapOneBlock(addr, IDENTITY_FLAGS);
        addr := U64(addr + BLOCK);
        k := k + 1;
      }
      if physcAddr + size < TWO64 { StepsDone(size, k, BLOCK); }
    }

    method MapFramebuffer(start: nat, size: nat)
      requires Valid() && start < TWO64 && size < TWO64 && LoopEnds(start, size, BLOCK)
      requires start + size < TWO64 ==> Affords(Value(), BlockRangePaths(start, Steps(size, BLOCK)))
      modifies this
      ensures Valid()
      ensures start + size < TWO64 ==> Value() == PagingOps.MapFramebuffer(old(Value()), start, size)
      ensures start + size >= TWO64 ==> Value() == old(Value())
    {
      hide WF, Translate, MapBlock, Block, LargeEntry, BlocksEffect, Affords, Grown, BlockRangePaths, PtsReplaced;
      ghost var t := Value();
      ghost var k := 0;
      var addr := start;
      EndOfRange(start, size);
      while addr < U64(start + size)
        invariant k <= Steps(size, BLOCK) && (start + size >= TWO64 ==> k == 0)
        invariant addr == start + k * BLOCK < TWO64
        invariant Valid() && Value() == MapBlocks(t, start, k, FRAMEBUFFER_FLAGS)
        decreases TWO64 - addr
      {
        StepsLeft(size, k, BLOCK);
        RoomForBlock(t, start, Steps(size, BLOCK), k, FRAMEBUFFER_FLAGS);
        NextStep(start, size, k);
        MapOneBlock(addr, FRAMEBUFFER_FLAGS);
        addr := U64(addr + BLOCK);
        k := k + 1;
      }
      if start + size < TWO64 { StepsDone(size, k, BLOCK); }
    }

    /** The body of the loops of map_identity and map_framebuffer. */
    method MapOneBlock(addr: nat, flags: nat)
      requires Valid() && nextFreePage + 2 * PAGE <= ADDR_LIMIT
      requires flags == IDENTITY_FLAGS || flags == FRAMEBUFFER_FLAGS
      modifies this
      ensures Valid() && Value() == MapBlock(old(Value()), Block(addr), LargeEntry(addr, flags))
    {
      IndexPath(addr);
      LargeEntryBits(addr, flags);
      MapBlockIsFlatUpdate(Value(), Block(addr), LargeEntry(addr, flags));
      var pd := DescendToPd(addr);
      StoreEntry(pd, Idx2(addr), LargeEntry(addr, flags));
    }

    method UnmapPage(va: nat)
      requires Valid() && !Translate(Value(), Vpn(va)).Large2M?
      modifies this
      ensures Valid() && Value() == PagingOps.UnmapPage(old(Value()), va)
      ensures nextFreePage == old(nextFreePage)
      ensures forall w: nat | w < VPAGES ::
        Translate(Value(), w) == if w == Vpn(va) then Unmapped else Translate(old(Value()), w)
    {
      ghost var t := Value();
      UnmapPageRemovesOne(t, va);
      UnmapDescent(t, va);
      hide WF, Translate, Entry, PageBase, Vpn, HasTable;
      var e4 := ReadEntry(pml4, Idx4(va));
      if !Present(e4) { return; }
      var e3 := ReadEntry(PageBase(e4), Idx3(va));
      if !Present(e3) { return; }
      var e2 := ReadEntry(PageBase(e3), Idx2(va));
      if !Present(e2) { return; }
      var e1 := ReadEntry(PageBase(e2), Idx1(va));
      if !Present(e1) { return; }
      StoreEntry(PageBase(e2), Idx1(va), 0);
    }

    method GetPhysicalAddress(va: nat) returns (phys: nat)
      requires Valid() && !Translate(Value(), Vpn(va)).Large2M?
      ensures phys == match Translate(Value(), Vpn(va))
                      case Small(pte) => Frame(pte) + va % PAGE
                      case _ => 0
    {
      GetPhysicalAddressIsTranslation(Value(), va);
      WalkToPdInMemory(Value(), va);
      WalkInMemory(Value(), va);
      hide WF, Translate, Entry, Frame, Vpn, HasTable;
      var e4 := ReadEntry(pml4, Idx4(va));
      var pdpt := Frame(e4);
      if pdpt == 0 { return 0; }
      var e3 := ReadEntry(pdpt, Idx3(va));
      var pd := Frame(e3);
      if pd == 0 { return 0; }
      var e2 := ReadEntry(pd, Idx2(va));
      var pt := Frame(e2);
      if pt == 0 { return 0; }
      var e1 := ReadEntry(pt, Idx1(va));
      if !Present(e1) { return 0; }
      phys := Frame(e1) + va % PAGE;
    }

    method VirtToPhys(va: nat) returns (phys: nat)
      requires Valid()
      ensures phys == PagingOps.VirtToPhys(Value(), va)
      ensures IdentityMapped(Value(), va) ==> phys == va
    {
      if IdentityMapped(Value(), va) { IdentityMappedReadsBack(Value(), va); }
      WalkToPdInMemory(Value(), va);
      hide WF, Translate, Entry, Frame, HasTable;
      var e4 := ReadEntry(pml4, Idx4(va));
      var pdpt := Frame(e4);
      if pdpt == 0 { return 0; }
      var e3 := ReadEntry(pdpt, Idx3(va));
      var pd := Frame(e3);
      if pd == 0 { return 0; }
      var pde := ReadEntry(pd, Idx2(va));
      if !Present(pde) { return 0; }
      phys := BlockBase(pde) + va % BLOCK;
    }
  }

  lemma EndOfRange(start: nat, size: nat)
    requires start < TWO64 && size < TWO64
    ensures U64(start + size) == if start + size < TWO64 then start + size else start + size - TWO64
  {
    DivUnique(start + size, TWO64, if start + size < TWO64 then 0 else 1, if start + size < TWO64 then start + size else start + size - TWO64);
  }

  /** A step of a loop that ends does not wrap. */
  lemma NextStep(start: nat, size: nat, k: nat)
    requires start + size < TWO64 && LoopEnds(start, size, BLOCK) && k < Steps(size, BLOCK)
    ensures U64(start + k * BLOCK + BLOCK) == start + (k + 1) * BLOCK < TWO64
  {
    MulMonotone(k + 1, Steps(size, BLOCK), BLOCK);
    assert (k + 1) * BLOCK == k * BLOCK + BLOCK;
    DivUnique(start + (k + 1) * BLOCK, TWO64, 0, start + (k + 1) * BLOCK);
  }

  /** While a range of blocks is being mapped the bump pointer stays below the page frames. */
  lemma RoomForBlock(t: Tables, start: nat, n: nat, k: nat, flags: nat)
    requires WF(t) && Affords(t, BlockRangePaths(start, n)) && k < n
    requires flags == IDENTITY_FLAGS || flags == FRAMEBUFFER_FLAGS
    ensures var u := MapBlocks(t, start, k, flags); WF(u) && u.next <= TABLE_LIMIT
  {
    hide WF, Translate, MapBlocks, Affords, Grown, BlockRangePaths, PtsReplaced;
    BlockRangeGrows(start, k, n);
    AffordsLess(t, BlockRangePaths(start, k), BlockRangePaths(start, n));
    MapBlocksRefines(t, start, k, flags);
    GrownAffords(t, MapBlocks(t, start, k, flags), BlockRangePaths(start, k), 2);
  }

  lemma {:induction false} BlockRangeGrows(start: nat, k: nat, n: nat)
    requires k <= n
    ensures BlockRangePaths(start, k) <= BlockRangePaths(start, n)
    decreases n
  {
    hide BlockPaths, Block;
    if k < n { BlockRangeGrows(start, k, n - 1); }
  }

  lemma {:induction false} RangeGrows(va: nat, k: nat, n: nat)
    requires k <= n
    ensures RangePaths(va, k) <= RangePaths(va, n)
    decreases n
  {
    hide PagePaths, Vpn;
    if k < n { RangeGrows(va, k, n - 1); }
  }

  /** While a range is being mapped its pages stay free of 2 MiB leaves and the bump pointer below the page frames. */
  lemma NoLargeAt(t: Tables, va: nat, pa: nat, n: nat, k: nat)
    requires WF(t) && Affords(t, RangePaths(va, n)) && NoLargeIn(t, va, n) && k < n
    ensures var u := MapPages(t, va, pa, k);
      WF(u) && u.next <= TABLE_LIMIT && !Translate(u, Vpn(U64(va + k * PAGE))).Large2M?
  {
    hide WF, Translate, MapPages, Affords, Grown, RangePaths;
    RangeGrows(va, k, n);
    AffordsLess(t, RangePaths(va, k), RangePaths(va, n));
    MapPagesRefines(t, va, pa, k);
    GrownAffords(t, MapPages(t, va, pa, k), RangePaths(va, k), 3);
    VpnOfStep(va, k);
    RingStep(Vpn(va), k, Vpn(U64(va + k * PAGE)), VPAGES);
  }
}
