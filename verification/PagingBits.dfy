/**
 Access rights of the mappings, bit by bit as the page walk meets them (Intel SDM, volume 3A,
 section 4.5.4): writable, supervisor-only and cached, uncached for the framebuffer.
 */
module PagingBits {
  import opened Machine
  import opened Paging
  import opened PagingOps
  import opened PagingRuns

  predicate Writable(e: nat) { e / 2 % 2 == 1 }          // bit 1, R/W
  predicate User(e: nat) { e / 4 % 2 == 1 }              // bit 2, U/S
  predicate WriteThrough(e: nat) { e / 8 % 2 == 1 }      // bit 3, PWT
  predicate Uncached(e: nat) { e / 16 % 2 == 1 }         // bit 4, PCD
  predicate LargePage(e: nat) { e / 128 % 2 == 1 }       // bit 7, PS
  predicate NoExecute(e: nat) { e / 0x8000_0000_0000_0000 % 2 == 1 }  // bit 63, XD

  /** Writable for the kernel only, with normal caching. */
  predicate Plain(e: nat) {
    e % 2 == 1 && Writable(e) && !User(e) && !WriteThrough(e) && !Uncached(e) && !NoExecute(e)
  }

  /** A large page with the rights of map_identity, or of map_framebuffer. */
  predicate PlainLarge(e: nat) {
    e % 2 == 1 && Writable(e) && !User(e) && LargePage(e) && !WriteThrough(e) && !Uncached(e)
  }

  predicate UncachedLarge(e: nat) {
    e % 2 == 1 && Writable(e) && !User(e) && LargePage(e) && WriteThrough(e) && Uncached(e)
  }

  // ----- the words that the mappers store

  /** The low bits of a page-aligned address with flags are those of the flags. */
  lemma LowBits(k: nat, low: nat)
    requires low < 0x1000
    ensures var e := k * 0x1000 + low;
      && e % 2 == low % 2 && (Writable(e) <==> Writable(low)) && (User(e) <==> User(low))
      && (WriteThrough(e) <==> WriteThrough(low)) && (Uncached(e) <==> Uncached(low)) && (LargePage(e) <==> LargePage(low))
  {
    LowBit(k, low, 2, 0x800);
    LowBit(k, low, 4, 0x400);
    LowBit(k, low, 8, 0x200);
    LowBit(k, low, 16, 0x100);
    LowBit(k, low, 128, 0x20);
    DivUnique(k * 0x1000 + low, 2, k * 0x800 + low / 2, low % 2);
  }

  lemma LowBit(k: nat, low: nat, d: nat, m: nat)
    requires d > 0 && d * m == 0x1000 && m % 2 == 0
    ensures (k * 0x1000 + low) / d % 2 == low / d % 2
  {
    assert k * 0x1000 == k * m * d;
    DivMod(low, d);
    DivUnique(k * 0x1000 + low, d, k * m + low / d, low % d);
    assert k * m == k * (m / 2) * 2;
    DivMod(low / d, 2);
    DivUnique(k * m + low / d, 2, k * (m / 2) + low / d / 2, low / d % 2);
  }

  lemma FlagBits()
    ensures Writable(3) && !User(3) && !WriteThrough(3) && !Uncached(3)
    ensures Writable(0x83) && !User(0x83) && !WriteThrough(0x83) && !Uncached(0x83) && LargePage(0x83)
    ensures Writable(0x9B) && !User(0x9B) && WriteThrough(0x9B) && Uncached(0x9B) && LargePage(0x9B)
  {
  }

  lemma PlainEntry(frame: nat)
    requires frame % PAGE == 0 && frame < ADDR_LIMIT
    ensures Plain(frame + 3)
  {
    DivMod(frame, PAGE);
    LowBits(frame / PAGE, 3);
    DivUnique(frame + 3, 0x8000_0000_0000_0000, 0, frame + 3);
    FlagBits();
    hide Writable, User, WriteThrough, Uncached, LargePage;
  }

  lemma PlainSmall(pa: nat)
    ensures Plain(SmallEntry(pa))
  {
    var f := pa / PAGE % 0x100_0000_0000;
    DivUnique(f * PAGE, PAGE, f, 0);
    PlainEntry(Frame(pa));
  }

  lemma LargeBits(addr: nat)
    ensures PlainLarge(LargeEntry(addr, IDENTITY_FLAGS)) && UncachedLarge(LargeEntry(addr, FRAMEBUFFER_FLAGS))
  {
    assert BlockBase(addr) == addr / BLOCK * 0x200 * 0x1000;
    LowBits(addr / BLOCK * 0x200, 0x83);
    LowBits(addr / BLOCK * 0x200, 0x9B);
    FlagBits();
    hide Writable, User, WriteThrough, Uncached, LargePage;
  }

  // ----- the pointers above the leaves

  /** Every table is linked by a plain entry. */
  ghost predicate PointersPlain(t: Tables) {
    forall p: Path, i: nat | Node(t, Sub(p, i)).Some? :: PointerPlain(t, p, i)
  }

  ghost predicate PointerPlain(t: Tables, p: Path, i: nat) {
    Node(t, p).Some? && Plain(Entry(t, Node(t, p).value, i))
  }

  lemma EnsurePlain(t: Tables, p: Path, i: nat)
    requires WF(t) && PointersPlain(t) && Node(t, p).Some? && p.Depth() < 3 && i < ENTRIES && t.next + PAGE <= ADDR_LIMIT
    requires !(p.Depth() == 2 && Large(Entry(t, Node(t, p).value, i)))
    ensures PointersPlain(Ensure(t, Node(t, p).value, i))
  {
    hide WF, Plain, PointersPlain;
    var a := Node(t, p).value;
    if !Present(Entry(t, a, i)) {
      var u := Ensure(t, a, i);
      forall q: Path, j: nat | Node(u, Sub(q, j)).Some? ensures PointerPlain(u, q, j) {
        LinkPlain(t, p, i, q, j);
      }
      assert PointersPlain(u) by { AllPlain(u); }
    }
  }

  lemma AllPlain(t: Tables)
    requires forall p: Path, i: nat | Node(t, Sub(p, i)).Some? :: PointerPlain(t, p, i)
    ensures PointersPlain(t)
  {
  }

  /** The entry of a linked slot, and of every other slot of a table. */
  lemma LinkedSlot(t: Tables, p: Path, i: nat, q: Path, j: nat)
    requires WF(t) && Node(t, p).Some? && Node(t, q).Some? && i < ENTRIES
    requires !Present(Entry(t, Node(t, p).value, i)) && t.next + PAGE <= ADDR_LIMIT
    ensures var u := Ensure(t, Node(t, p).value, i);
      Entry(u, Node(t, q).value, j) == if q == p && j == i then TableEntry(t.next) else Entry(t, Node(t, q).value, j)
  {
    assert Node(t, q) == Node(t, p) ==> q == p;
    assert TablePage(t, Node(t, p).value) && TablePage(t, Node(t, q).value);
    hide WF, Node, NodesAreTables, OnePath, EntriesClean;
  }

  lemma LinkPlain(t: Tables, p: Path, i: nat, q: Path, j: nat)
    requires WF(t) && PointersPlain(t) && Node(t, p).Some? && p.Depth() < 3 && i < ENTRIES && t.next + PAGE <= ADDR_LIMIT
    requires !Present(Entry(t, Node(t, p).value, i))
    requires Node(Ensure(t, Node(t, p).value, i), Sub(q, j)).Some?
    ensures PointerPlain(Ensure(t, Node(t, p).value, i), q, j)
  {
    hide Plain, Pointer, Node, NodesAreTables, OnePath, EntriesClean, Entry, Ensure, Present;
    LinkAddsNode(t, p, i);
    PlainEntry(t.next);
    if Sub(q, j) != Sub(p, i) { assert PointerPlain(t, q, j); }
    SlotIsEmpty(t, p, i);
    LinkedSlot(t, p, i, q, j);
  }

  lemma SlotIsEmpty(t: Tables, p: Path, i: nat)
    requires Node(t, p).Some? && !Present(Entry(t, Node(t, p).value, i))
    ensures Node(t, Sub(p, i)).None? && Sub(p, i) != p
  {
    assert p.Depth() < Sub(p, i).Depth();
  }

  lemma PutPlain(t: Tables, p: Path, i: nat, e: nat)
    requires WF(t) && PointersPlain(t) && Node(t, p).Some? && i < ENTRIES
    requires CleanEntry(p.Depth(), e) && !Pointer(p.Depth(), e)
    ensures PointersPlain(Put(t, Node(t, p).value, i, e))
  {
    hide WF, Plain, CleanEntry;
    var u := Put(t, Node(t, p).value, i, e);
    PutLeaf(t, p, i, e);
    forall q: Path, j: nat | Node(u, Sub(q, j)).Some? ensures PointerPlain(u, q, j) {
      assert PointerPlain(t, q, j);
      OtherSlot(t, p, i, e, q, j);
    }
  }

  /** A slot that still points to a table is not the one that was overwritten. */
  lemma OtherSlot(t: Tables, p: Path, i: nat, e: nat, q: Path, j: nat)
    requires WF(t) && Node(t, p).Some? && i < ENTRIES && CleanEntry(p.Depth(), e) && !Pointer(p.Depth(), e)
    requires Node(Put(t, Node(t, p).value, i, e), Sub(q, j)).Some?
    ensures var u := Put(t, Node(t, p).value, i, e); Node(u, q) == Node(t, q) && Node(t, q).Some? && Entry(u, Node(u, q).value, j) == Entry(t, Node(t, q).value, j)
  {
    hide CleanEntry;
    PutLeaf(t, p, i, e);
    assert Node(t, q) == Node(t, p) ==> q == p;
    BelowItself(p, i);
  }

  lemma BelowItself(p: Path, i: nat)
    ensures Sub(p, i).Below(Sub(p, i))
  {
  }

  // ----- the operations

  lemma GrowToPdPlain(t: Tables, b: nat)
    requires WF(t) && PointersPlain(t) && b < VBLOCKS && t.next + 2 * PAGE <= ADDR_LIMIT
    ensures PointersPlain(GrowToPd(t, b).0)
  {
    hide WF, PointersPlain, Translate;
    var i, j := b / 0x4_0000, b / 0x200 % 0x200;
    var t1 := Ensure(t, t.root, i);
    assert Node(t, Root) == Some(t.root);
    EnsureKeeps(t, Root, i);
    EnsurePlain(t, Root, i);
    EnsurePlain(t1, Sub(Root, i), j);
  }

  lemma GrowToPtPlain(t: Tables, v: nat)
    requires WF(t) && PointersPlain(t) && v < VPAGES && t.next + 3 * PAGE <= ADDR_LIMIT && !Translate(t, v).Large2M?
    ensures PointersPlain(GrowToPt(t, v / 0x200).0)
  {
    hide PointersPlain;
    var b := v / 0x200;
    GrowToPdKeeps(t, b);
    GrowToPdPlain(t, b);
    var t2 := GrowToPd(t, b).0;
    SlotIsFree(t2, v);
    hide WF, Translate;
    EnsurePlain(t2, PdPath(b), b % 0x200);
  }

  lemma MapPagePlain(t: Tables, v: nat, pa: nat)
    requires WF(t) && PointersPlain(t) && v < VPAGES && !Translate(t, v).Large2M? && t.next + 3 * PAGE <= ADDR_LIMIT
    ensures PointersPlain(MapPage(t, v, SmallEntry(pa)))
  {
    hide WF, PointersPlain, Translate, SmallEntry, Node;
    GrowToPtKeeps(t, v);
    GrowToPtPlain(t, v);
    SmallEntryBits(pa);
    PtDepth(v / 0x200);
    PutPlain(GrowToPt(t, v / 0x200).0, PtPath(v / 0x200), v % 0x200, SmallEntry(pa));
  }

  lemma MapBlockPlain(t: Tables, b: nat, addr: nat, flags: nat)
    requires WF(t) && PointersPlain(t) && b < VBLOCKS && t.next + 2 * PAGE <= ADDR_LIMIT
    requires flags == IDENTITY_FLAGS || flags == FRAMEBUFFER_FLAGS
    ensures PointersPlain(MapBlock(t, b, LargeEntry(addr, flags)))
  {
    hide WF, PointersPlain, LargeEntry, Node;
    GrowToPdKeeps(t, b);
    GrowToPdPlain(t, b);
    LargeEntryBits(addr, flags);
    PtDepth(b);
    PutPlain(GrowToPd(t, b).0, PdPath(b), b % 0x200, LargeEntry(addr, flags));
  }

  lemma {:induction false} MapPagesPlain(t: Tables, va: nat, pa: nat, n: nat)
    requires WF(t) && PointersPlain(t) && Affords(t, RangePaths(va, n)) && NoLargeIn(t, va, n)
    ensures PointersPlain(MapPages(t, va, pa, n))
  {
    hide WF, PointersPlain, Translate, MapPage, Vpn, U64, SmallEntry, Grown, Affords, PagePaths, LastWriter;
    if n > 0 {
      var m := MapPages(t, va, pa, n - 1);
      AffordsLess(t, RangePaths(va, n - 1), RangePaths(va, n));
      MapPagesRefines(t, va, pa, n - 1);
      MapPagesPlain(t, va, pa, n - 1);
      GrownAffords(t, m, RangePaths(va, n - 1), 3);
      VpnOfStep(va, n - 1);
      RingStep(Vpn(va), n - 1, Vpn(U64(va + (n - 1) * PAGE)), VPAGES);
      MapPagePlain(m, Vpn(U64(va + (n - 1) * PAGE)), U64(pa + (n - 1) * PAGE));
    }
  }

  lemma {:induction false} MapBlocksPlain(t: Tables, start: nat, n: nat, flags: nat)
    requires WF(t) && PointersPlain(t) && Affords(t, BlockRangePaths(start, n))
    requires flags == IDENTITY_FLAGS || flags == FRAMEBUFFER_FLAGS
    ensures PointersPlain(MapBlocks(t, start, n, flags))
  {
    hide WF, PointersPlain, Translate, MapBlock, Block, LargeEntry, Grown, Affords, BlockPaths, LastWriter, PtsReplaced;
    if n > 0 {
      var m := MapBlocks(t, start, n - 1, flags);
      AffordsLess(t, BlockRangePaths(start, n - 1), BlockRangePaths(start, n));
      MapBlocksRefines(t, start, n - 1, flags);
      MapBlocksPlain(t, start, n - 1, flags);
      GrownAffords(t, m, BlockRangePaths(start, n - 1), 2);
      MapBlockPlain(m, Block(start + (n - 1) * BLOCK), start + (n - 1) * BLOCK, flags);
    }
  }

  lemma UnmapPlain(t: Tables, va: nat)
    requires WF(t) && PointersPlain(t) && !Translate(t, Vpn(va)).Large2M?
    ensures PointersPlain(UnmapPage(t, va))
  {
    hide WF, PointersPlain, Translate, UnmapPage, PdPath, Node;
    IndexPath(va);
    UnmapDescent(t, va);
    var pt := Node(t, PtPath(Block(va)));
    if pt.Some? && Present(Entry(t, pt.value, Idx1(va))) {
      PtDepth(Block(va));
      PutPlain(t, PtPath(Block(va)), Idx1(va), 0);
    }
  }

  lemma AllocPlain(t: Tables)
    requires WF(t) && PointersPlain(t) && t.next + PAGE <= ADDR_LIMIT
    ensures PointersPlain(Alloc(t))
  {
    hide WF, Plain, Node;
    AllocKeeps(t);
    var u := Alloc(t);
    forall q: Path, j: nat | Node(u, Sub(q, j)).Some? ensures PointerPlain(u, q, j) {
      assert PointerPlain(t, q, j);
    }
  }

  // ----- the walk of a page

  /** The entries that the walk of virtual page w reads, level by level. */
  function E4(t: Tables, w: nat): nat { Entry(t, t.root, w / 0x800_0000) }
  function E3(t: Tables, w: nat): nat { Entry(t, Frame(E4(t, w)), w / 0x4_0000 % 0x200) }
  function E2(t: Tables, w: nat): nat { Entry(t, Frame(E3(t, w)), w / 0x200 % 0x200) }
  function E1(t: Tables, w: nat): nat { Entry(t, Frame(E2(t, w)), w % 0x200) }

  /** A page that the kernel can write and user code cannot reach, on all four levels. */
  ghost predicate KernelPage(t: Tables, w: nat) {
    Plain(E4(t, w)) && Plain(E3(t, w)) && Plain(E2(t, w)) && !LargePage(E2(t, w)) && Plain(E1(t, w))
  }

  /** The same for a page of a 2 MiB block, which ends at the third level. */
  ghost predicate KernelBlockPage(t: Tables, w: nat) { Plain(E4(t, w)) && Plain(E3(t, w)) && PlainLarge(E2(t, w)) }

  ghost predicate DevicePage(t: Tables, w: nat) { Plain(E4(t, w)) && Plain(E3(t, w)) && UncachedLarge(E2(t, w)) }

  lemma WalkIndices(w: nat)
    ensures w / 0x200 / 0x4_0000 == w / 0x800_0000 && w / 0x200 / 0x200 == w / 0x4_0000
  {
    DivDiv(w, 0x200, 0x4_0000);
    DivDiv(w, 0x200, 0x200);
  }

  /** Down to the page directory the walk goes through plain entries. */
  lemma WalkToPd(t: Tables, w: nat)
    requires PointersPlain(t) && Node(t, PdPath(w / 0x200)).Some?
    ensures Plain(E4(t, w)) && Plain(E3(t, w)) && Node(t, PdPath(w / 0x200)).value == Frame(E3(t, w))
  {
    hide Plain, Frame;
    WalkIndices(w);
    var b := w / 0x200;
    assert PointerPlain(t, Root, b / 0x4_0000);
    assert PointerPlain(t, Sub(Root, b / 0x4_0000), b / 0x200 % 0x200);
  }

  lemma WalkOfSmall(t: Tables, w: nat)
    requires PointersPlain(t) && Translate(t, w).Small?
    ensures Translate(t, w).pte == E1(t, w)
    ensures Plain(E4(t, w)) && Plain(E3(t, w)) && Plain(E2(t, w)) && !LargePage(E2(t, w))
  {
    hide Plain, Frame;
    var b := w / 0x200;
    assert Node(t, PtPath(b)).Some? && Node(t, PdPath(b)).Some?;
    WalkToPd(t, w);
    PtDepth(b);
    assert PointerPlain(t, PdPath(b), b % 0x200);
  }

  lemma WalkOfLarge(t: Tables, w: nat)
    requires PointersPlain(t) && Translate(t, w).Large2M?
    ensures Translate(t, w).pde == E2(t, w) && Plain(E4(t, w)) && Plain(E3(t, w))
  {
    hide Plain, Frame;
    WalkToPd(t, w);
  }

  // ----- what the callers get

  /** map_virtual: every page of the range is writable, supervisor-only and cached on all four levels. */
  lemma MapVirtualAccess(t: Tables, va: nat, pa: nat, size: nat, k: nat)
    requires WF(t) && PointersPlain(t) && Affords(t, RangePaths(va, PageCount(size))) && NoLargeIn(t, va, PageCount(size))
    requires k * 0x1000 < size
    ensures KernelPage(MapVirtual(t, va, pa, size), Vpn(U64(va + k * 0x1000)))
  {
    hide WF, PointersPlain, Translate, MapPages, Vpn, U64, Affords, RangePaths, NoLargeIn, SmallEntry, Plain, LargePage, E1, E2, E3, E4, Grown, PageCount, LastWriter;
    var n, u, w := PageCount(size), MapVirtual(t, va, pa, size), Vpn(U64(va + k * PAGE));
    PagesReached(size, k);
    MapPagesRefines(t, va, pa, n);
    MapPagesPlain(t, va, pa, n);
    VpnOfStep(va, k);
    RingStep(Vpn(va), k, w, VPAGES);
    PlainSmall(U64(pa + LastWriter(Distance(va, w), n, VPAGES) * PAGE));
    WalkOfSmall(u, w);
  }

  lemma PagesReached(size: nat, k: nat)
    requires k * 0x1000 < size
    ensures k < PageCount(size)
  {
    StepsLeft(size, k, PAGE);
  }

  /** A loop over blocks leaves the pages of each block it lands in with a leaf of its own flags. */
  lemma BlockWalk(t: Tables, start: nat, size: nat, flags: nat, k: nat, w: nat) returns (addr: nat)
    requires WF(t) && PointersPlain(t) && Affords(t, BlockRangePaths(start, Steps(size, BLOCK)))
    requires flags == IDENTITY_FLAGS || flags == FRAMEBUFFER_FLAGS
    requires k * 0x20_0000 < size && w < VPAGES && w / 0x200 == Block(start + k * 0x20_0000)
    ensures var u := MapBlocks(t, start, Steps(size, BLOCK), flags);
      Plain(E4(u, w)) && Plain(E3(u, w)) && E2(u, w) == LargeEntry(addr, flags)
  {
    hide WF, PointersPlain, Translate, MapBlocks, Block, Affords, BlockRangePaths, LargeEntry, Plain, E2, E3, E4, Grown, LastWriter, PtsReplaced, Steps;
    var n := Steps(size, BLOCK);
    StepsLeft(size, k, BLOCK);
    MapBlocksRefines(t, start, n, flags);
    MapBlocksPlain(t, start, n, flags);
    BlockOfStep(start, k);
    RingStep(Block(start), k, w / 0x200, VBLOCKS);
    addr := start + LastWriter(BlockDistance(start, w / 0x200), n, VBLOCKS) * BLOCK;
    WalkOfLarge(MapBlocks(t, start, n, flags), w);
  }

  /** map_identity: writable, supervisor-only and cached. */
  lemma MapIdentityAccess(t: Tables, start: nat, size: nat, k: nat, w: nat)
    requires WF(t) && PointersPlain(t) && Affords(t, BlockRangePaths(start, Steps(size, BLOCK)))
    requires k * 0x20_0000 < size && w < VPAGES && w / 0x200 == Block(start + k * 0x20_0000)
    ensures KernelBlockPage(MapIdentity(t, start, size), w)
  {
    hide WF, PointersPlain, MapBlocks, Block, Affords, BlockRangePaths, LargeEntry, Plain, PlainLarge, UncachedLarge, E2, E3, E4, Steps;
    var addr := BlockWalk(t, start, size, IDENTITY_FLAGS, k, w);
    LargeBits(addr);
  }

  /** map_framebuffer: writable, supervisor-only and uncached. */
  lemma MapFramebufferAccess(t: Tables, start: nat, size: nat, k: nat, w: nat)
    requires WF(t) && PointersPlain(t) && Affords(t, BlockRangePaths(start, Steps(size, BLOCK)))
    requires k * 0x20_0000 < size && w < VPAGES && w / 0x200 == Block(start + k * 0x20_0000)
    ensures DevicePage(MapFramebuffer(t, start, size), w)
  {
    hide WF, PointersPlain, MapBlocks, Block, Affords, BlockRangePaths, LargeEntry, Plain, PlainLarge, UncachedLarge, E2, E3, E4, Steps;
    var addr := BlockWalk(t, start, size, FRAMEBUFFER_FLAGS, k, w);
    LargeBits(addr);
  }

  // ----- whole runs

  lemma ApplyPlain(t: Tables, op: Op)
    requires WF(t) && PointersPlain(t) && Legal(t, op)
    ensures PointersPlain(Apply(t, op))
  {
    hide WF, PointersPlain, MapPages, MapBlocks, UnmapPage, Alloc, NoLargeIn, Translate, RangePaths, BlockRangePaths;
    match op
    case AllocPage => AllocPlain(t);
    case Virtual(va, pa, size) => MapPagesPlain(t, va, pa, PageCount(size));
    case Identity(start, size) => MapBlocksPlain(t, start, Steps(size, BLOCK), IDENTITY_FLAGS);
    case Framebuffer(start, size) => MapBlocksPlain(t, start, Steps(size, BLOCK), FRAMEBUFFER_FLAGS);
    case Unmap(va) => UnmapPlain(t, va);
  }

  lemma BootPlain()
    ensures PointersPlain(Boot())
  {
    forall p: Path, i: nat ensures Node(Boot(), Sub(p, i)).None? {
      BootNodes(Sub(p, i));
    }
  }

  lemma {:induction false} RunPlain(ops: seq<Op>)
    requires LegalRun(Boot(), ops)
    ensures WF(Run(Boot(), ops)) && PointersPlain(Run(Boot(), ops))
  {
    hide WF, PointersPlain, Apply, Legal, Boot;
    if ops == [] {
      BootPlain();
      BootIsEmptyTree();
    } else {
      RunPlain(ops[..|ops| - 1]);
      ApplyPlain(Run(Boot(), ops[..|ops| - 1]), ops[|ops| - 1]);
      BootIsEmptyTree();
      RunRefinesFlatMap(Boot(), ops);
    }
  }

  /** What a run leaves on the flat map: plain small entries, and large ones with the rights of a block or of a device. */
  lemma {:induction false} LeavesAre(ops: seq<Op>, w: nat)
    requires w < VPAGES
    ensures match RunEffect(ops, w, Unmapped)
            case Unmapped => true
            case Small(pte) => Plain(pte)
            case Large2M(pde) => PlainLarge(pde) || UncachedLarge(pde)
  {
    hide SmallEntry, LargeEntry, Plain, PlainLarge, UncachedLarge, LastWriter, Distance, BlockDistance, Vpn, PageCount, Steps;
    if ops != [] {
      LeavesAre(ops[..|ops| - 1], w);
      match ops[|ops| - 1]
      case Virtual(va, pa, size) =>
        if Distance(va, w) < PageCount(size) { PlainSmall(U64(pa + LastWriter(Distance(va, w), PageCount(size), VPAGES) * PAGE)); }
      case Identity(start, size) =>
        if BlockDistance(start, w / 0x200) < Steps(size, BLOCK) {
          LargeBits(start + LastWriter(BlockDistance(start, w / 0x200), Steps(size, BLOCK), VBLOCKS) * BLOCK);
        }
      case Framebuffer(start, size) =>
        if BlockDistance(start, w / 0x200) < Steps(size, BLOCK) {
          LargeBits(start + LastWriter(BlockDistance(start, w / 0x200), Steps(size, BLOCK), VBLOCKS) * BLOCK);
        }
      case _ =>
    }
  }

  /** Main result: after any legal run from boot no mapped page can be reached from user code or is read-only. */
  lemma RunAccess(ops: seq<Op>, w: nat)
    requires LegalRun(Boot(), ops) && w < VPAGES
    ensures var t := Run(Boot(), ops);
      match Translate(t, w)
      case Unmapped => true
      case Small(_) => KernelPage(t, w)
      case Large2M(_) => KernelBlockPage(t, w) || DevicePage(t, w)
  {
    hide WF, PointersPlain, Run, RunEffect, Boot, Translate, LegalRun, Plain, PlainLarge, UncachedLarge, LargePage, E1, E2, E3, E4;
    RunPlain(ops);
    BootIsEmptyTree();
    RunRefinesFlatMap(Boot(), ops);
    LeavesAre(ops, w);
    var t := Run(Boot(), ops);
    match Translate(t, w)
    case Unmapped =>
    case Small(_) => WalkOfSmall(t, w);
    case Large2M(_) => WalkOfLarge(t, w);
  }
}
