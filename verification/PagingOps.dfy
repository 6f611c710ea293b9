/** The operations of the memory manager on whole ranges, and the walkers that read them back. */
module PagingOps {
  import opened Machine
  import opened Paging

  /** The virtual page of an address: bits 12 to 47, all that the tables look at. */
  function Vpn(va: nat): (v: nat)
    ensures v < VPAGES
  {
    va / PAGE % VPAGES
  }

  function Block(va: nat): (b: nat)
    ensures b < VBLOCKS
  {
    va / BLOCK % VBLOCKS
  }

  function Idx4(va: nat): nat { va / 0x80_0000_0000 % 0x200 }  // (va >> 39) & 0x1FF
  function Idx3(va: nat): nat { va / 0x4000_0000 % 0x200 }     // (va >> 30) & 0x1FF
  function Idx2(va: nat): nat { va / 0x20_0000 % 0x200 }       // (va >> 21) & 0x1FF
  function Idx1(va: nat): nat { va / 0x1000 % 0x200 }          // (va >> 12) & 0x1FF

  lemma IndexPath(va: nat)
    ensures Vpn(va) < VPAGES && Vpn(va) / 0x200 == Block(va) < VBLOCKS
    ensures PtPath(Block(va)) == Sub(Sub(Sub(Root, Idx4(va)), Idx3(va)), Idx2(va))
    ensures Vpn(va) % 0x200 == Idx1(va)
  {
    var page, b := va / PAGE, va / BLOCK;
    DivDiv(va, PAGE, 0x200);
    ModDiv(page, VBLOCKS, 0x200);
    DivDiv(va, BLOCK, 0x200);
    DivDiv(va, BLOCK, 0x4_0000);
    ModDiv(b, 0x200, 0x4_0000);
    ModDiv(b, 0x4_0000, 0x200);
    ModDiv(b / 0x200, 0x200, 0x200);
  }

  // ----- the read-only walkers

  /** get_physical_address: tests the table pointers for null, the last entry for presence. */
  function GetPhysicalAddress(t: Tables, va: nat): nat {
    var pdpt := Frame(Entry(t, t.root, Idx4(va)));
    if pdpt == 0 then 0 else
    var pd := Frame(Entry(t, pdpt, Idx3(va)));
    if pd == 0 then 0 else
    var pt := Frame(Entry(t, pd, Idx2(va)));
    if pt == 0 then 0 else
    var e := Entry(t, pt, Idx1(va));
    if !Present(e) then 0 else Frame(e) + va % PAGE
  }

  /** virt_to_phys: the same walk, stopping at the page directory. */
  function VirtToPhys(t: Tables, va: nat): nat {
    var pdpt := Frame(Entry(t, t.root, Idx4(va)));
    if pdpt == 0 then 0 else
    var pd := Frame(Entry(t, pdpt, Idx3(va)));
    if pd == 0 then 0 else
    var pde := Entry(t, pd, Idx2(va));
    if !Present(pde) then 0 else BlockBase(pde) + va % BLOCK
  }

  /** The pointer-null walk of the kernel agrees with the present-bit walk of the hardware. */
  lemma GetPhysicalAddressIsTranslation(t: Tables, va: nat)
    requires WF(t) && !Translate(t, Vpn(va)).Large2M?
    ensures GetPhysicalAddress(t, va) == match Translate(t, Vpn(va))
                                         case Small(pte) => Frame(pte) + va % PAGE
                                         case _ => 0
  {
    hide WF, Node, PdPath, Large, Idx4, Idx3, Idx2, Idx1, Block, Vpn;
    IndexPath(va);
    UpperWalk(t, va);
    LowerWalk(t, va);
  }

  /** What a page directory slot of a walk holds. */
  lemma LowerWalk(t: Tables, va: nat)
    requires WF(t)
    ensures match Node(t, PdPath(Block(va)))
      case None => Node(t, PtPath(Block(va))).None?
      case Some(pd) =>
        var e := Entry(t, pd, Idx2(va));
        && CleanEntry(2, e) && (Pointer(2, e) ==> TablePage(t, Frame(e)))
        && Node(t, PtPath(Block(va))) == if Pointer(2, e) then Some(Frame(e)) else None
  {
    IndexPath(va);
    PtDepth(Block(va));
    assert Node(t, PdPath(Block(va))).Some? ==> CleanEntry(2, Entry(t, Node(t, PdPath(Block(va))).value, Idx2(va)));
    assert Node(t, PtPath(Block(va))).Some? ==> TablePage(t, Node(t, PtPath(Block(va))).value);
    hide WF, TablePage, Present, Large, Frame;
  }

  /** Down to the page directory the two walks find the same table or both stop. */
  lemma UpperWalk(t: Tables, va: nat)
    requires WF(t)
    ensures var pdpt := Frame(Entry(t, t.root, Idx4(va)));
            var pd := Frame(Entry(t, pdpt, Idx3(va)));
            Node(t, PdPath(Block(va))) == if pdpt == 0 || pd == 0 then None else Some(pd)
    ensures Frame(Entry(t, t.root, Idx4(va))) == 0 ==> Node(t, Sub(Root, Idx4(va))).None?
  {
    IndexPath(va);
    var p1 := Sub(Root, Idx4(va));
    assert PdPath(Block(va)) == Sub(p1, Idx3(va));
    assert CleanEntry(0, Entry(t, t.root, Idx4(va))) by { assert Node(t, Root) == Some(t.root); }
    if Node(t, p1).Some? {
      var p2 := Sub(p1, Idx3(va));
      assert p1.Depth() == 1;
      assert CleanEntry(1, Entry(t, Node(t, p1).value, Idx3(va)));
      assert Node(t, p2).Some? ==> TablePage(t, Node(t, p2).value);
      var e3 := Entry(t, Node(t, p1).value, Idx3(va));
      assert Node(t, p1).value == Frame(Entry(t, t.root, Idx4(va)));
      assert Pointer(1, e3) ==> Frame(e3) > 0;
      assert !Pointer(1, e3) ==> e3 == 0;
      assert Node(t, p2) == if Pointer(1, e3) then Some(Frame(e3)) else None;
    }
  }

  ghost predicate HasTable(t: Tables, a: nat) {
    a in t.mem && |t.mem[a]| == ENTRIES
  }

  /** Every table the walkers read is a page that alloc_page handed out. */
  lemma WalkToPdInMemory(t: Tables, va: nat)
    requires WF(t)
    ensures var pdpt := Frame(Entry(t, t.root, Idx4(va)));
            var pd := Frame(Entry(t, pdpt, Idx3(va)));
      && HasTable(t, t.root)
      && (pdpt != 0 ==> HasTable(t, pdpt) && (pd != 0 ==> HasTable(t, pd)))
  {
    IndexPath(va);
    assert Node(t, Root) == Some(t.root) && Root.Depth() == 0;
    var p1 := Sub(Root, Idx4(va));
    assert CleanEntry(0, Entry(t, t.root, Idx4(va)));
    assert Node(t, p1).Some? ==> TablePage(t, Node(t, p1).value);
    UpperWalk(t, va);
    assert Node(t, PdPath(Block(va))).Some? ==> TablePage(t, Node(t, PdPath(Block(va))).value);
  }

  lemma WalkInMemory(t: Tables, va: nat)
    requires WF(t) && !Translate(t, Vpn(va)).Large2M?
    ensures var pdpt := Frame(Entry(t, t.root, Idx4(va)));
            var pd := Frame(Entry(t, pdpt, Idx3(va)));
            var pt := Frame(Entry(t, pd, Idx2(va)));
      pdpt != 0 && pd != 0 && pt != 0 ==> HasTable(t, pt)
  {
    hide NodesAreTables, OnePath, EntriesClean, Node, PdPath, Large, Idx4, Idx3, Idx2, Idx1, Block, Vpn;
    IndexPath(va);
    UpperWalk(t, va);
    LowerWalk(t, va);
  }

  lemma VirtToPhysOfLarge(t: Tables, va: nat)
    requires WF(t)
    ensures Translate(t, Vpn(va)).Large2M?
            ==> VirtToPhys(t, va) == BlockBase(Translate(t, Vpn(va)).pde) + va % BLOCK
  {
    IndexPath(va);
    UpperWalk(t, va);
  }

  /**
   Of any other address virt_to_phys returns 0 if its block has no page table; if it has one, the
   place of that table in its own 2 MiB block comes back instead of a translation.
   */
  lemma VirtToPhysOfOther(t: Tables, va: nat)
    requires WF(t) && !Translate(t, Vpn(va)).Large2M?
    ensures VirtToPhys(t, va) == match Node(t, PtPath(Block(va)))
                                 case None => 0
                                 case Some(pt) => BlockBase(pt) + va % BLOCK
  {
    hide WF, Node, PdPath, Large, Idx4, Idx3, Idx2, Idx1, Block, Vpn, Frame, BlockBase;
    IndexPath(va);
    UpperWalk(t, va);
    LowerWalk(t, va);
    if Node(t, PdPath(Block(va))).Some? { BlockOfPointer(Entry(t, Node(t, PdPath(Block(va))).value, Idx2(va))); }
  }

  lemma BlockOfPointer(e: nat)
    requires e < ADDR_LIMIT
    ensures BlockBase(Frame(e)) == BlockBase(e)
  {
    PageBaseOfPointer(e);
    DivDiv(e, PAGE, 0x200);
    DivUnique(e / PAGE * PAGE, PAGE, e / PAGE, 0);
    DivDiv(e / PAGE * PAGE, PAGE, 0x200);
  }

  // ----- map_virtual

  /** n iterations of the loop in map_virtual. */
  function MapPages(t: Tables, va: nat, pa: nat, n: nat): Tables {
    if n == 0 then t
    else MapPage(MapPages(t, va, pa, n - 1), Vpn(U64(va + (n - 1) * PAGE)), SmallEntry(U64(pa + (n - 1) * PAGE)))
  }

  function MapVirtual(t: Tables, va: nat, pa: nat, size: nat): Tables {
    MapPages(t, va, pa, PageCount(size))
  }

  /** How far virtual page w lies behind the page of va, around the 48-bit space. */
  function Distance(va: nat, w: nat): nat { (w - Vpn(va)) % VPAGES }

  /** The last of n iterations that wrote a slot first written in iteration k, slots recurring every period. */
  function LastWriter(k: nat, n: nat, period: nat): nat
    requires k < n && period > 0
  {
    k + (n - 1 - k) / period * period
  }

  /** What n iterations of map_virtual do to the flat map. */
  function PagesEffect(m: Mapping, va: nat, pa: nat, n: nat, w: nat): Mapping {
    var k := Distance(va, w);
    if k < n then Small(SmallEntry(U64(pa + LastWriter(k, n, VPAGES) * PAGE))) else m
  }

  ghost predicate NoLargeIn(t: Tables, va: nat, n: nat) {
    forall w: nat | w < VPAGES && Distance(va, w) < n :: !Translate(t, w).Large2M?
  }

  lemma LastWriterStep(k: nat, n: nat, period: nat)
    requires period > 0 && k < n
    ensures (n - k) % period == 0 ==> LastWriter(k, n + 1, period) == n
    ensures (n - k) % period != 0 ==> LastWriter(k, n + 1, period) == LastWriter(k, n, period)
  {
    var d := n - k;
    var q, r := d / period, d % period;
    DivMod(d, period);
    if r != 0 {
      DivBound(d - 1, q + 1, period);
      DivBound(d - 1, q, period);
      assert (q + 1) * period == q * period + period;
    }
  }

  lemma VpnOfStep(va: nat, n: nat)
    ensures Vpn(U64(va + n * PAGE)) == (Vpn(va) + n) % VPAGES
  {
    var page := va / PAGE;
    DivMod(va, PAGE);
    DivUnique(va + n * PAGE, PAGE, page + n, va % PAGE);
    ModDiv(va + n * PAGE, ADDR_LIMIT, PAGE);
    ModDiv(page + n, 0x1_0000, VPAGES);
    Congruent(page, Vpn(va), VPAGES);
    DivUnique(Vpn(va), VPAGES, 0, Vpn(va));
    Congruent(page + n, Vpn(va) + n, VPAGES);
  }

  /** On a ring of m slots filled from slot a on, iteration n writes slot w or leaves its last writer alone. */
  lemma RingStep(a: nat, n: nat, w: nat, m: nat)
    requires a < m && w < m
    ensures var k := (w - a) % m;
      if w == (a + n) % m then k <= n && LastWriter(k, n + 1, m) == n
      else k != n && (k < n ==> LastWriter(k, n + 1, m) == LastWriter(k, n, m))
  {
    var k := (w - a) % m;
    RingPosition(a, n, w, m);
    if k < n {
      LastWriterStep(k, n, m);
    } else if k > n {
      DivUnique(n - k, m, -1, m + n - k);
    } else {
      DivUnique(0, m, 0, 0);
    }
  }

  /** The tables above the pages that n iterations of map_virtual write. */
  function RangePaths(va: nat, n: nat): set<Path> {
    if n == 0 then {} else RangePaths(va, n - 1) + PagePaths(Vpn(U64(va + (n - 1) * PAGE)))
  }

  /**
   map_virtual refines an update of the flat map, last write winning if the range laps the address
   space, and takes one page from the bump allocator for each table that is missing.
   */
  lemma {:induction false} MapPagesRefines(t: Tables, va: nat, pa: nat, n: nat)
    requires WF(t) && Affords(t, RangePaths(va, n)) && NoLargeIn(t, va, n)
    ensures var u := MapPages(t, va, pa, n);
      && WF(u) && Grown(t, u, RangePaths(va, n), 3) && u.root == t.root
      && forall w: nat | w < VPAGES :: Translate(u, w) == PagesEffect(Translate(t, w), va, pa, n, w)
  {
    hide Translate, MapPage, WF, Vpn, U64, Frame, Present, SmallEntry, LastWriter, Grown, Affords, PagePaths;
    if n == 0 {
      NothingGrown(t);
    } else {
      var m := MapPages(t, va, pa, n - 1);
      var v := Vpn(U64(va + (n - 1) * PAGE));
      AffordsLess(t, RangePaths(va, n - 1), RangePaths(va, n));
      MapPagesRefines(t, va, pa, n - 1);
      GrownAffords(t, m, RangePaths(va, n - 1), 3);
      VpnOfStep(va, n - 1);
      RingStep(Vpn(va), n - 1, v, VPAGES);
      SmallEntryBits(U64(pa + (n - 1) * PAGE));
      MapPageIsFlatUpdate(m, v, SmallEntry(U64(pa + (n - 1) * PAGE)));
      GrownThen(t, m, MapPages(t, va, pa, n), RangePaths(va, n - 1), PagePaths(v), 3);
      forall w: nat | w < VPAGES
        ensures Translate(MapPages(t, va, pa, n), w) == PagesEffect(Translate(t, w), va, pa, n, w)
      {
        RingStep(Vpn(va), n - 1, w, VPAGES);
      }
    }
  }

  lemma VpnOfWord(x: nat)
    ensures Vpn(U64(x)) == x / PAGE % VPAGES && U64(x) % PAGE == x % PAGE
  {
    ModDiv(x, ADDR_LIMIT, PAGE);
    ModDiv(x / PAGE, 0x1_0000, VPAGES);
  }

  /** virtual_addr + offset in uint64_t arithmetic. */
  function At(va: nat, off: nat): nat { U64(va + off) }

  /** The page at offset off of a page-aligned range. */
  lemma PageAtOffset(va: nat, off: nat)
    requires va % PAGE == 0 && off / PAGE < VPAGES
    ensures Distance(va, Vpn(At(va, off))) == off / PAGE && At(va, off) % PAGE == off % PAGE
  {
    var k := off / PAGE;
    DivMod(va, PAGE);
    DivMod(off, PAGE);
    DivUnique(va + off, PAGE, va / PAGE + k, off % PAGE);
    VpnOfWord(va + off);
    var w := Vpn(U64(va + off));
    Congruent(va / PAGE, Vpn(va), VPAGES);
    DivUnique(Vpn(va), VPAGES, 0, Vpn(va));
    Congruent(va / PAGE + k, Vpn(va) + k, VPAGES);
    RingPosition(Vpn(va), k, w, VPAGES);
    var d := Distance(va, w);
    NearZero(k - d, VPAGES);
  }

  lemma PageCountCovers(size: nat, off: nat)
    requires off < size
    ensures off / PAGE < PageCount(size)
  {
    DivBound(off, PageCount(size), PAGE);
    DivMod(size + PAGE - 1, PAGE);
  }

  /** Page w holds an address of the range. */
  ghost predicate InRange(va: nat, size: nat, w: nat) {
    exists off: nat :: off < size && Vpn(At(va, off)) == w
  }

  lemma PageInRange(va: nat, size: nat, w: nat)
    requires va % PAGE == 0 && PageCount(size) <= VPAGES && w < VPAGES && Distance(va, w) < PageCount(size)
    ensures InRange(va, size, w)
  {
    hide Vpn, U64;
    var k := Distance(va, w);
    DivBound(size + PAGE - 1, k + 1, PAGE);
    DivUnique(k * PAGE, PAGE, k, 0);
    PageAtOffset(va, k * PAGE);
    var v := Vpn(At(va, k * PAGE));
    Congruent(w - Vpn(va), v - Vpn(va), VPAGES);
    NearZero(w - v, VPAGES);
  }

  /** Main result on map_virtual: the range reads back linearly and no other 4 KiB translation moves. */
  lemma MapVirtualReadsBack(t: Tables, va: nat, pa: nat, size: nat)
    requires WF(t) && va % PAGE == 0 && pa % PAGE == 0
    requires PageCount(size) <= VPAGES && pa + PageCount(size) * PAGE <= ADDR_LIMIT
    requires Affords(t, RangePaths(va, PageCount(size))) && NoLargeIn(t, va, PageCount(size))
    ensures WF(MapVirtual(t, va, pa, size))
    ensures forall off: nat | off < size ::
              GetPhysicalAddress(MapVirtual(t, va, pa, size), At(va, off)) == pa + off
    ensures forall a: nat | !InRange(va, size, Vpn(a)) && !Translate(t, Vpn(a)).Large2M? ::
              GetPhysicalAddress(MapVirtual(t, va, pa, size), a) == GetPhysicalAddress(t, a)
  {
    hide WF, Translate, Vpn, U64, GetPhysicalAddress, MapPages, InRange, Distance;
    var n := PageCount(size);
    var u := MapVirtual(t, va, pa, size);
    MapPagesRefines(t, va, pa, n);
    forall off: nat | off < size ensures GetPhysicalAddress(u, At(va, off)) == pa + off {
      OffsetReadsBack(t, va, pa, size, off);
    }
    forall a: nat | !InRange(va, size, Vpn(a)) && !Translate(t, Vpn(a)).Large2M?
      ensures GetPhysicalAddress(u, a) == GetPhysicalAddress(t, a)
    {
      if Distance(va, Vpn(a)) < n { PageInRange(va, size, Vpn(a)); }
      GetPhysicalAddressIsTranslation(u, a);
      GetPhysicalAddressIsTranslation(t, a);
    }
  }

  lemma OffsetReadsBack(t: Tables, va: nat, pa: nat, size: nat, off: nat)
    requires WF(t) && va % PAGE == 0 && pa % PAGE == 0 && off < size
    requires PageCount(size) <= VPAGES && pa + PageCount(size) * PAGE <= ADDR_LIMIT
    requires Affords(t, RangePaths(va, PageCount(size))) && NoLargeIn(t, va, PageCount(size))
    ensures GetPhysicalAddress(MapVirtual(t, va, pa, size), At(va, off)) == pa + off
  {
    hide WF, Translate, Vpn, U64, GetPhysicalAddress, MapPages, Frame, SmallEntry, LastWriter, Distance;
    var n, k := PageCount(size), off / PAGE;
    MapPagesRefines(t, va, pa, n);
    PageCountCovers(size, off);
    PageAtOffset(va, off);
    GetPhysicalAddressIsTranslation(MapVirtual(t, va, pa, size), At(va, off));
    OnlyWriter(k, n, VPAGES);
    LinearFrame(pa, k);
    DivMod(off, PAGE);
  }

  lemma LinearFrame(pa: nat, k: nat)
    requires pa % PAGE == 0 && pa + k * PAGE < ADDR_LIMIT
    ensures Frame(SmallEntry(U64(pa + k * PAGE))) == pa + k * PAGE
  {
    DivUnique(pa + k * PAGE, TWO64, 0, pa + k * PAGE);
    DivMod(pa, PAGE);
    DivUnique(pa + k * PAGE, PAGE, pa / PAGE + k, 0);
    SmallEntryBits(pa + k * PAGE);
  }

  // ----- map_identity and map_framebuffer

  /** n iterations of the loop shared by map_identity and map_framebuffer. */
  function MapBlocks(t: Tables, start: nat, n: nat, flags: nat): Tables {
    if n == 0 then t
    else
      var addr := start + (n - 1) * BLOCK;
      MapBlock(MapBlocks(t, start, n - 1, flags), Block(addr), LargeEntry(addr, flags))
  }

  function MapIdentity(t: Tables, start: nat, size: nat): Tables {
    MapBlocks(t, start, Steps(size, BLOCK), IDENTITY_FLAGS)
  }

  function MapFramebuffer(t: Tables, start: nat, size: nat): Tables {
    MapBlocks(t, start, Steps(size, BLOCK), FRAMEBUFFER_FLAGS)
  }

  function BlockDistance(start: nat, b: nat): nat { (b - Block(start)) % VBLOCKS }

  function BlocksEffect(m: Mapping, start: nat, n: nat, flags: nat, w: nat): Mapping {
    var k := BlockDistance(start, w / 0x200);
    if k < n then Large2M(LargeEntry(start + LastWriter(k, n, VBLOCKS) * BLOCK, flags)) else m
  }

  lemma BlockOfStep(start: nat, n: nat)
    ensures Block(start + n * BLOCK) == (Block(start) + n) % VBLOCKS
  {
    var b := start / BLOCK;
    DivMod(start, BLOCK);
    DivUnique(start + n * BLOCK, BLOCK, b + n, start % BLOCK);
    DivUnique(Block(start), VBLOCKS, 0, Block(start));
    Congruent(b, Block(start), VBLOCKS);
    Congruent(b + n, Block(start) + n, VBLOCKS);
  }

  /** The tables above the blocks that n iterations of map_identity write. */
  function BlockRangePaths(start: nat, n: nat): set<Path> {
    if n == 0 then {} else BlockRangePaths(start, n - 1) + BlockPaths(Block(start + (n - 1) * BLOCK))
  }

  /** Page tables only go, and only where a large page now covers their block. */
  ghost predicate PtsReplaced(t: Tables, u: Tables) {
    forall c: nat | c < VBLOCKS :: PtReplaced(t, u, c)
  }

  ghost predicate PtReplaced(t: Tables, u: Tables, c: nat) {
    && (Node(u, PtPath(c)).Some? ==> Node(t, PtPath(c)).Some?)
    && (Node(u, PtPath(c)).None? ==> Node(t, PtPath(c)).None? || Translate(u, c * 0x200).Large2M?)
  }

  lemma {:induction false} MapBlocksRefines(t: Tables, start: nat, n: nat, flags: nat)
    requires WF(t) && Affords(t, BlockRangePaths(start, n))
    requires flags == IDENTITY_FLAGS || flags == FRAMEBUFFER_FLAGS
    ensures var u := MapBlocks(t, start, n, flags);
      && WF(u) && Grown(t, u, BlockRangePaths(start, n), 2) && PtsReplaced(t, u) && u.root == t.root
      && forall w: nat | w < VPAGES :: Translate(u, w) == BlocksEffect(Translate(t, w), start, n, flags, w)
  {
    hide Translate, MapBlock, WF, Block, Present, Large, LargeEntry, LastWriter, Grown, Affords, BlockPaths, PtReplaced, PtCut, Node, PtPath;
    if n == 0 {
      NothingGrown(t);
      assert PtsReplaced(t, t) by { PtsKept(t); }
    } else {
      var m, u := MapBlocks(t, start, n - 1, flags), MapBlocks(t, start, n, flags);
      var addr := start + (n - 1) * BLOCK;
      AffordsLess(t, BlockRangePaths(start, n - 1), BlockRangePaths(start, n));
      MapBlocksRefines(t, start, n - 1, flags);
      GrownAffords(t, m, BlockRangePaths(start, n - 1), 2);
      BlockOfStep(start, n - 1);
      LargeEntryBits(addr, flags);
      MapBlockIsFlatUpdate(m, Block(addr), LargeEntry(addr, flags));
      GrownThen(t, m, u, BlockRangePaths(start, n - 1), BlockPaths(Block(addr)), 2);
      forall c: nat | c < VBLOCKS ensures PtReplaced(t, u, c) {
        PtReplacedStep(t, m, u, Block(addr), c);
      }
      forall w: nat | w < VPAGES
        ensures Translate(u, w) == BlocksEffect(Translate(t, w), start, n, flags, w)
      {
        RingStep(Block(start), n - 1, w / 0x200, VBLOCKS);
      }
    }
  }

  lemma PtsKept(t: Tables)
    ensures PtsReplaced(t, t)
  {
  }

  lemma PtReplacedStep(t: Tables, m: Tables, u: Tables, b: nat, c: nat)
    requires PtsReplaced(t, m) && PtCut(m, u, b) && c < VBLOCKS
    requires forall w: nat | w < VPAGES :: w / 0x200 != b ==> Translate(u, w) == Translate(m, w)
    requires forall w: nat | w < VPAGES && w / 0x200 == b :: Translate(u, w).Large2M?
    ensures PtReplaced(t, u, c)
  {
    hide Translate, Node, PtPath;
    assert PtReplaced(t, m, c);
    DivUnique(c * 0x200, 0x200, c, 0);
  }

  /** Address a is mapped to itself by a 2 MiB page. */
  ghost predicate IdentityMapped(t: Tables, a: nat) {
    var m := Translate(t, Vpn(a));
    m.Large2M? && BlockBase(m.pde) + a % BLOCK == a
  }

  lemma IdentityMappedReadsBack(t: Tables, a: nat)
    requires WF(t) && IdentityMapped(t, a)
    ensures VirtToPhys(t, a) == a
  {
    VirtToPhysOfLarge(t, a);
  }

  lemma BlockAtAddress(start: nat, a: nat)
    requires start <= a && a / BLOCK - start / BLOCK < VBLOCKS
    ensures BlockDistance(start, Block(a)) == a / BLOCK - start / BLOCK
  {
    DivMonotone(start, a, BLOCK);
    var k := a / BLOCK - start / BLOCK;
    DivUnique(Block(start), VBLOCKS, 0, Block(start));
    Congruent(start / BLOCK, Block(start), VBLOCKS);
    Congruent(start / BLOCK + k, Block(start) + k, VBLOCKS);
    RingPosition(Block(start), k, Block(a), VBLOCKS);
    var d := BlockDistance(start, Block(a));
    NearZero(k - d, VBLOCKS);
  }

  /** An address is identity-mapped by map_identity when one of its steps lands in the address's block. */
  lemma MapIdentityAt(t: Tables, start: nat, size: nat, a: nat)
    requires WF(t) && start <= a < start + size && Steps(size, BLOCK) < VBLOCKS
    requires Affords(t, BlockRangePaths(start, Steps(size, BLOCK)))
    ensures var u := MapIdentity(t, start, size);
      if Visited(start, size, BLOCK, a) then IdentityMapped(u, a)
      else Translate(u, Vpn(a)) == Translate(t, Vpn(a))
  {
    hide Translate, MapBlocks, WF, Block, BlockDistance, Vpn, BlockBase, LargeEntry, LastWriter, Affords, Grown, PtsReplaced, BlockRangePaths, Node, PtPath, Idx4, Idx3, Idx2, Idx1, Visited, Steps;
    var n := Steps(size, BLOCK);
    StepIndex(start, size, a);
    MapBlocksRefines(t, start, n, IDENTITY_FLAGS);
    IndexPath(a);
    BlockAtAddress(start, a);
    if Visited(start, size, BLOCK, a) {
      OnlyWriter(a / BLOCK - start / BLOCK, n, VBLOCKS);
      IdentityEntry(start, a);
    }
  }

  /** The step that would land in the block of a, and whether the loop makes it. */
  lemma StepIndex(start: nat, size: nat, a: nat)
    requires start <= a < start + size
    ensures 0 <= a / BLOCK - start / BLOCK <= Steps(size, BLOCK)
    ensures Visited(start, size, BLOCK, a) <==> a / BLOCK - start / BLOCK < Steps(size, BLOCK)
  {
    DivMonotone(start, a, BLOCK);
    StepsReach(start, size, BLOCK, a);
    hide Steps;
  }

  lemma OnlyWriter(k: nat, n: nat, period: nat)
    requires k < n <= period
    ensures LastWriter(k, n, period) == k
  {
    DivUnique(n - 1 - k, period, 0, n - 1 - k);
  }

  lemma IdentityEntry(start: nat, a: nat)
    requires start <= a && start / BLOCK <= a / BLOCK
    ensures BlockBase(LargeEntry(start + (a / BLOCK - start / BLOCK) * BLOCK, IDENTITY_FLAGS)) + a % BLOCK == a
  {
    var k: nat := a / BLOCK - start / BLOCK;
    LargeEntryBits(start + k * BLOCK, IDENTITY_FLAGS);
    DivMod(start, BLOCK);
    DivUnique(start + k * BLOCK, BLOCK, start / BLOCK + k, start % BLOCK);
    DivMod(a, BLOCK);
  }

  /** map_identity covers its whole range exactly when the misaligned head fits in the last step. */
  lemma MapIdentityCoverage(t: Tables, start: nat, size: nat)
    requires WF(t) && Steps(size, BLOCK) < VBLOCKS
    requires Affords(t, BlockRangePaths(start, Steps(size, BLOCK)))
    requires forall a | start <= a < start + size :: !Translate(t, Vpn(a)).Large2M?
    ensures (forall a | start <= a < start + size :: IdentityMapped(MapIdentity(t, start, size), a))
       <==> (size == 0 || start % BLOCK + size <= Steps(size, BLOCK) * BLOCK)
  {
    hide Translate, MapIdentity, WF, Vpn;
    var u := MapIdentity(t, start, size);
    forall a | start <= a < start + size
      ensures IdentityMapped(u, a) <==> Visited(start, size, BLOCK, a)
    {
      MapIdentityAt(t, start, size, a);
    }
    StepCoverage(start, size, BLOCK);
  }

  /** Block b holds an address of the range. */
  ghost predicate BlockInRange(start: nat, size: nat, b: nat) {
    exists a: nat :: start <= a < start + size && Block(a) == b
  }

  lemma BlockHoldsAddress(start: nat, size: nat, b: nat)
    requires b < VBLOCKS && BlockDistance(start, b) < Steps(size, BLOCK)
    ensures BlockInRange(start, size, b)
  {
    var k := BlockDistance(start, b);
    DivBound(size + BLOCK - 1, k + 1, BLOCK);
    BlockOfStep(start, k);
    RingPosition(Block(start), k, b, VBLOCKS);
    DivUnique(0, VBLOCKS, 0, 0);
    assert start <= start + k * BLOCK < start + size;
  }

  /** From a 2 MiB-aligned start nothing is missed, and virt_to_phys is the identity on the range. */
  lemma MapIdentityAligned(t: Tables, start: nat, size: nat)
    requires WF(t) && start % BLOCK == 0 && Steps(size, BLOCK) < VBLOCKS
    requires Affords(t, BlockRangePaths(start, Steps(size, BLOCK)))
    ensures WF(MapIdentity(t, start, size))
    ensures forall a | start <= a < start + size :: VirtToPhys(MapIdentity(t, start, size), a) == a
    ensures forall w: nat | w < VPAGES && !BlockInRange(start, size, w / 0x200) ::
              Translate(MapIdentity(t, start, size), w) == Translate(t, w)
  {
    hide Translate, MapBlocks, WF, Vpn, VirtToPhys, BlockDistance, BlockInRange;
    var u := MapIdentity(t, start, size);
    MapBlocksRefines(t, start, Steps(size, BLOCK), IDENTITY_FLAGS);
    StepCoverage(start, size, BLOCK);
    DivMod(size + BLOCK - 1, BLOCK);
    forall a | start <= a < start + size ensures VirtToPhys(u, a) == a {
      MapIdentityAt(t, start, size, a);
      IdentityMappedReadsBack(u, a);
    }
    forall w: nat | w < VPAGES && !BlockInRange(start, size, w / 0x200) ensures Translate(u, w) == Translate(t, w) {
      if BlockDistance(start, w / 0x200) < Steps(size, BLOCK) { BlockHoldsAddress(start, size, w / 0x200); }
    }
  }

  /** A misaligned call: the 2 MiB block of its last megabyte keeps its old translation. */
  lemma MapIdentityMissesTail(t: Tables)
    requires WF(t) && Affords(t, BlockRangePaths(0x10_0000, 1))
    ensures Steps(0x20_0000, BLOCK) == 1
    ensures Translate(MapIdentity(t, 0x10_0000, 0x20_0000), Vpn(0x2F_FFFF)) == Translate(t, Vpn(0x2F_FFFF))
  {
    MapIdentityAt(t, 0x10_0000, 0x20_0000, 0x2F_FFFF);
  }

  // ----- unmap_page

  /** e & ~0xFFF on a 64-bit word */
  function PageBase(e: nat): nat { e / PAGE * PAGE }

  function UnmapPage(t: Tables, va: nat): Tables {
    var e4 := Entry(t, t.root, Idx4(va));
    if !Present(e4) then t else
    var e3 := Entry(t, PageBase(e4), Idx3(va));
    if !Present(e3) then t else
    var e2 := Entry(t, PageBase(e3), Idx2(va));
    if !Present(e2) then t else
    var pt := PageBase(e2);
    if !Present(Entry(t, pt, Idx1(va))) then t else Put(t, pt, Idx1(va), 0)
  }

  lemma PageBaseOfPointer(e: nat)
    requires e < ADDR_LIMIT
    ensures PageBase(e) == Frame(e)
  {
    DivBound(e, 0x100_0000_0000, PAGE);
    DivUnique(e / PAGE, 0x100_0000_0000, 0, e / PAGE);
  }

  /** The descent of unmap_page finds the page table of the walk, or stops where the walk stops. */
  lemma UnmapDescent(t: Tables, va: nat)
    requires WF(t) && !Translate(t, Vpn(va)).Large2M?
    ensures var pt := Node(t, PtPath(Block(va)));
      UnmapPage(t, va) == if pt.None? || !Present(Entry(t, pt.value, Idx1(va))) then t
                          else Put(t, pt.value, Idx1(va), 0)
    ensures var e4 := Entry(t, t.root, Idx4(va));
            var e3 := Entry(t, PageBase(e4), Idx3(va));
            var e2 := Entry(t, PageBase(e3), Idx2(va));
      && HasTable(t, t.root)
      && (Present(e4) ==> HasTable(t, PageBase(e4)))
      && (Present(e4) && Present(e3) ==> HasTable(t, PageBase(e3)))
      && (Present(e4) && Present(e3) && Present(e2) ==> HasTable(t, PageBase(e2)))
  {
    IndexPath(va);
    var p1 := Sub(Root, Idx4(va));
    var e4 := Entry(t, t.root, Idx4(va));
    assert Root.Depth() == 0;
    assert CleanEntry(0, e4) by { assert Node(t, Root) == Some(t.root); }
    assert TablePage(t, t.root) by { assert Node(t, Root) == Some(t.root); }
    assert Node(t, p1).Some? <==> Present(e4);
    if Present(e4) {
      assert Pointer(0, e4);
      PageBaseOfPointer(e4);
      var p2 := Sub(p1, Idx3(va));
      var e3 := Entry(t, Frame(e4), Idx3(va));
      assert p1.Depth() == 1;
      assert CleanEntry(1, e3) by { assert Node(t, p1) == Some(Frame(e4)); }
      assert TablePage(t, Frame(e4)) by { assert Node(t, p1) == Some(Frame(e4)); }
      assert Node(t, p2).Some? <==> Present(e3);
      if Present(e3) {
        assert Pointer(1, e3);
        PageBaseOfPointer(e3);
        var e2 := Entry(t, Frame(e3), Idx2(va));
        PtDepth(Block(va));
        assert CleanEntry(2, e2) by { assert Node(t, p2) == Some(Frame(e3)); }
        assert PtPath(Block(va)) == Sub(p2, Idx2(va)) && p2 == PdPath(Block(va));
        assert Present(e2) ==> Pointer(2, e2);
        assert HasTable(t, Frame(e3)) by { assert TablePage(t, Frame(e3)); }
        if Pointer(2, e2) {
          PageBaseOfPointer(e2);
          assert TablePage(t, Frame(e2)) by { assert Node(t, Sub(p2, Idx2(va))) == Some(Frame(e2)); }
        }
      }
    }
  }

  /** unmap_page removes the translation of exactly one page. */
  lemma UnmapPageRemovesOne(t: Tables, va: nat)
    requires WF(t) && !Translate(t, Vpn(va)).Large2M?
    ensures var u := UnmapPage(t, va);
      && WF(u) && SameTables(t, u, 3) && u.root == t.root
      && forall w: nat | w < VPAGES :: Translate(u, w) == if w == Vpn(va) then Unmapped else Translate(t, w)
  {
    IndexPath(va);
    UnmapDescent(t, va);
    var pt := Node(t, PtPath(Block(va)));
    if pt.Some? && Present(Entry(t, pt.value, Idx1(va))) {
      hide Translate, WF;
      WritePte(t, Vpn(va), 0);
    }
  }
}
