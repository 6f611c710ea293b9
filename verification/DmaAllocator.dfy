/** palloc_aligned_DMA and pfree_aligned_DMA as code over the bitmap array and the page tables. */
module DmaAllocatorCode {
  import opened Machine
  import opened Paging
  import opened PagingOps
  import opened DmaPool
  import opened PageTableCode
  import opened WindowBudget
  import opened DmaBytes
  import DmaTheorems

  predicate InWindow(w: nat) { WIN_VPN <= w < WIN_VPN + WIN_PAGES }

  ghost predicate SameOutsideWindow(t: Tables, u: Tables) {
    forall w: nat | w < VPAGES && !InWindow(w) :: Translate(t, w) == Translate(u, w)
  }

  function WindowMapping(win: map<nat, nat>, v: nat): Mapping {
    if v in win then Small(SmallEntry(DMA_BASE + win[v] * PAGE)) else Unmapped
  }

  /** win is what the page tables say about the DMA window. */
  ghost predicate WindowIs(t: Tables, win: map<nat, nat>) {
    && (forall v | v in win :: v < WIN_PAGES && win[v] < FRAMES)
    && forall w: nat | InWindow(w) :: Translate(t, w) == WindowMapping(win, w - WIN_VPN)
  }

  class DmaAllocator {
    const vm: PageTables
    const dmaBitmap: array<bool>
    var dmaHeapCurr: nat
    ghost var win: map<nat, nat>

    ghost predicate Valid()
      reads this, vm, dmaBitmap
    {
      && vm.Valid()
      && dmaBitmap.Length == FRAMES
      && dmaHeapCurr >= WIN_BASE
      && WindowIs(vm.Value(), win)
    }

    ghost function Value(): Pool
      reads this, dmaBitmap
    {
      Pool(dmaBitmap[..], win, dmaHeapCurr)
    }

    constructor (vm: PageTables)
      requires vm.Valid() && forall w: nat | w < VPAGES && InWindow(w) :: Translate(vm.Value(), w).Unmapped?
      ensures Valid() && Value() == DmaTheorems.EmptyPool()
      ensures this.vm == vm && fresh(dmaBitmap)
    {
      this.vm := vm;
      dmaBitmap := new bool[FRAMES](_ => false);
      dmaHeapCurr := WIN_BASE;
      win := map[];
    }

    /** The page number of the first free frame is marked used; 0 stands for NULL. */
    method DmaAllocPage() returns (page: nat)
      requires dmaBitmap.Length == FRAMES
      modifies dmaBitmap
      ensures match FirstFree(old(dmaBitmap[..]))
              case None => page == 0 && dmaBitmap[..] == old(dmaBitmap[..])
              case Some(i) => page == DMA_BASE + i * PAGE && dmaBitmap[..] == old(dmaBitmap[..])[i := true]
    {
      for i := 0 to FRAMES
        invariant FirstFree(dmaBitmap[..]) == FirstFree(dmaBitmap[..], i)
        invariant dmaBitmap[..] == old(dmaBitmap[..])
      {
        if !dmaBitmap[i] {
          dmaBitmap[i] := true;
          return DMA_BASE + i * PAGE;
        }
      }
      page := 0;
    }

    /** One page of the loop of palloc_aligned_DMA: map window page v to a frame just allocated. */
    method BackPage(va: nat, pa: nat, ghost v: nat, ghost i: nat)
      requires Valid() && v < WIN_PAGES && i < FRAMES && Affords(vm.Value(), RangePaths(va, 1))
      requires va == WIN_BASE + v * PAGE && pa == DMA_BASE + i * PAGE
      modifies this`win, vm
      ensures Valid() && win == old(win)[v := i]
      ensures Grown(old(vm.Value()), vm.Value(), RangePaths(va, 1), 3)
      ensures SameOutsideWindow(old(vm.Value()), vm.Value())
    {
      hide WF, Translate, PagesEffect, SmallEntry, Affords, Grown, RangePaths;
      ghost var t := vm.Value();
      WindowVpn(v, 0);
      PageIsSmall(t, win, v);
      forall w: nat | w < VPAGES { OnePageEffect(Translate(t, w), va, pa, w); }
      forall w: nat | w < VPAGES && Distance(va, w) < 1 ensures !Translate(t, w).Large2M? {
        NearZero(w - Vpn(va), VPAGES);
      }
      OnePageEffect(Unmapped, va, pa, 0);
      vm.MapVirtual(va, pa, PAGE);
      WindowMap(t, vm.Value(), win, v, i);
      win := win[v := i];
    }

    /** One iteration of the loop: allocate a frame and map it, or report an empty pool by 0. */
    method BackNextPage(va: nat, ghost v: nat) returns (page: nat)
      requires Valid() && v < WIN_PAGES && va == WIN_BASE + v * PAGE
      requires FirstFree(dmaBitmap[..]).Some? ==> Affords(vm.Value(), RangePaths(va, 1))
      modifies this`win, vm, dmaBitmap
      ensures Valid() && SameOutsideWindow(old(vm.Value()), vm.Value())
      ensures match FirstFree(old(dmaBitmap[..]))
              case None => page == 0 && Value() == old(Value())
              case Some(i) =>
                && page == DMA_BASE + i * PAGE && Grown(old(vm.Value()), vm.Value(), RangePaths(va, 1), 3)
                && dmaBitmap[..] == old(dmaBitmap[..])[i := true] && win == old(win)[v := i]
    {
      hide WF, Translate, WindowIs, FirstFree, Affords, Grown, RangePaths;
      ghost var f := FirstFree(dmaBitmap[..]);
      page := DmaAllocPage();
      if page != 0 {
        BackPage(va, page, v, f.value);
      }
    }

    /** Before the k-th of n iterations: all is what the whole loop takes, t the tables it started from. */
    ghost predicate Midway(v: nat, n: nat, k: nat, all: Taken, t: Tables)
      reads this, vm, dmaBitmap
    {
      && Valid() && k <= n && k <= |all.frames| <= FRAMES
      && RestOfTake(all, Take(dmaBitmap[..], win, v + k, n - k), k) && SameOutsideWindow(t, vm.Value())
      && Grown(t, vm.Value(), RangePaths(WIN_BASE + v * PAGE, k), 3)
      && Affords(t, RangePaths(WIN_BASE + v * PAGE, |all.frames|))
    }

    /** The k-th iteration in terms of the whole loop. */
    method BackPageOf(va: nat, ghost v: nat, ghost n: nat, ghost k: nat, ghost all: Taken, ghost t: Tables)
      returns (page: nat)
      requires Midway(v, n, k, all, t) && v + k < WIN_PAGES && k < n && va == WIN_BASE + (v + k) * PAGE
      modifies this`win, vm, dmaBitmap
      ensures page == 0 ==> Valid() && SameOutsideWindow(t, vm.Value())
      ensures page == 0 ==> dmaBitmap[..] == all.used && win == all.win && |all.frames| == k
      ensures page != 0 ==> Midway(v, n, k + 1, all, t) && page == DMA_BASE + all.frames[k] * PAGE
    {
      hide WF, Translate, Take, WindowIs, FirstFree, SameOutsideWindow, RestOfTake, Affords, Grown, RangePaths;
      ghost var used, w, before := dmaBitmap[..], win, vm.Value();
      if FirstFree(used).Some? {
        RestStep(all, used, w, v + k, n - k, k);
        NextPageAffords(t, before, v, k, |all.frames|);
      } else {
        RestEmpty(all, used, w, v + k, n - k, k);
      }
      page := BackNextPage(va, v + k);
      SameTransitive(t, before, vm.Value());
      if page != 0 { NextPageGrown(t, before, vm.Value(), v, k); }
    }

    /** Align the cursor, start over at the end of the window, reserve mapSize bytes. */
    method ReserveWindow(mapSize: nat) returns (virt: nat)
      requires dmaHeapCurr >= WIN_BASE && dmaHeapCurr + mapSize + PAGE <= TWO64
      modifies this`dmaHeapCurr
      ensures forall size, used, w | Pages(size) * PAGE == mapSize ::
        virt == Start(Pool(used, w, old(dmaHeapCurr)), size) && dmaHeapCurr == virt + mapSize
    {
      if dmaHeapCurr % PAGE != 0 {
        dmaHeapCurr := (dmaHeapCurr + PAGE - 1) / PAGE * PAGE;
      }
      if dmaHeapCurr + mapSize > WIN_END {
        dmaHeapCurr := WIN_BASE;
      }
      virt := dmaHeapCurr;
      dmaHeapCurr := dmaHeapCurr + mapSize;
    }

    /** The loop of palloc_aligned_DMA; ok is false when the pool ran dry. */
    method BackPages(virt: nat, mapSize: nat, ghost v: nat, ghost n: nat) returns (ok: bool, phys: nat)
      requires Valid() && mapSize == n * PAGE && virt == WIN_BASE + v * PAGE && (v + n <= WIN_PAGES || v == 0)
      requires Affords(vm.Value(), RangePaths(virt, |Take(dmaBitmap[..], win, v, n).frames|))
      modifies this`win, vm, dmaBitmap
      ensures Valid()
      ensures var all := Take(old(dmaBitmap[..]), old(win), v, n);
        && dmaBitmap[..] == all.used && win == all.win
        && (ok <==> |all.frames| == n)
        && (ok ==> phys == if n == 0 then 0 else DMA_BASE + all.frames[0] * PAGE)
      ensures SameOutsideWindow(old(vm.Value()), vm.Value())
    {
      hide WF, Translate, Take, WindowIs, FirstFree, Midway, SameOutsideWindow, Affords, Grown, RangePaths;
      ghost var all := Take(dmaBitmap[..], win, v, n);
      ghost var t := vm.Value();
      ghost var k := 0;
      var offset := 0;
      phys := 0;
      MidwayStart(v, n);
      while offset < mapSize
        invariant offset == k * PAGE && k <= n && k <= FRAMES && Midway(v, n, k, all, t)
        invariant k > 0 ==> all.frames != []
        invariant phys == if k == 0 then 0 else DMA_BASE + all.frames[0] * PAGE
      {
        var page := BackPageOf(virt + offset, v, n, k, all, t);
        if page == 0 { return false, phys; }
        MidwayFrames(v, n, k + 1, all, t);
        if offset == 0 { phys := page; }
        offset := offset + PAGE;
        k := k + 1;
      }
      MidwayEnd(v, n, all, t);
      ok := true;
    }

    lemma MidwayStart(v: nat, n: nat)
      requires Valid() && Affords(vm.Value(), RangePaths(WIN_BASE + v * PAGE, |Take(dmaBitmap[..], win, v, n).frames|))
      ensures Midway(v, n, 0, Take(dmaBitmap[..], win, v, n), vm.Value())
    {
      var all := Take(dmaBitmap[..], win, v, n);
      assert all.frames[..0] == [];
      NothingGrown(vm.Value());
      TakenBound(dmaBitmap[..], win, v, n);
    }

    lemma MidwayFrames(v: nat, n: nat, k: nat, all: Taken, t: Tables)
      requires Midway(v, n, k, all, t)
      ensures k <= n && k <= |all.frames| <= FRAMES
    {
    }

    lemma MidwayEnd(v: nat, n: nat, all: Taken, t: Tables)
      requires Midway(v, n, n, all, t)
      ensures Valid() && dmaBitmap[..] == all.used && win == all.win && |all.frames| == n && SameOutsideWindow(t, vm.Value())
    {
      RestEmpty(all, dmaBitmap[..], win, v + n, 0, n);
    }

    /** Returns the virtual address, 0 for NULL, and the physical address of the first page. */
    method PallocAlignedDMA(size: nat) returns (virt: nat, phys: nat)
      requires Valid() && dmaHeapCurr + size + 2 * PAGE <= TWO64
      requires Affords(vm.Value(), RangePaths(Start(Value(), size), Granted(Value(), size)))
      modifies this, vm, dmaBitmap
      ensures Valid() && Value() == Palloc(old(Value()), size).0
      ensures match Palloc(old(Value()), size).1
              case None => virt == 0
              case Some(b) => virt == b.virt && phys == b.phys && virt >= WIN_BASE
      ensures virt != 0 ==> AllMapped(vm.Value(), virt, size)
      ensures virt != 0 && size > 0 ==> phys == GetPhysicalAddress(vm.Value(), virt)
      ensures SameOutsideWindow(old(vm.Value()), vm.Value())
    {
      hide WF, Translate, Take, WindowIs, Affords, RangePaths, SameOutsideWindow, AllMapped, GetPhysicalAddress;
      ghost var p := Value();
      var mapSize := U64(size + PAGE - 1) / PAGE * PAGE;
      StartInWindow(p, size);
      virt := ReserveWindow(mapSize);
      assert virt == Start(Pool(p.used, p.win, p.curr), size);
      var ok: bool;
      ok, phys := BackPages(virt, mapSize, WindowPage(virt), Pages(size));
      if ok {
        BufferTranslates(p, vm.Value(), size);
      } else {
        virt := 0;
      }
    }

    /** One page of the loop of pfree_aligned_DMA. */
    method ReleasePage(vaddr: nat, ghost v: nat)
      requires Valid() && v < WIN_PAGES && Vpn(vaddr) == WIN_VPN + v
      modifies this`win, vm, dmaBitmap
      ensures Valid() && (dmaBitmap[..], win) == Release(old(dmaBitmap[..]), old(win), v, 1)
      ensures SameOutsideWindow(old(vm.Value()), vm.Value())
    {
      hide WF, Translate, Frame, SmallEntry, DmaIndex, Vpn, WindowIs, UnmapPage, Release;
      ghost var t := vm.Value();
      WindowPageMapping(t, win, v, vaddr % PAGE);
      ReleaseOne(dmaBitmap[..], win, v);
      var phys := vm.GetPhysicalAddress(vaddr);
      vm.UnmapPage(vaddr);
      var dmaIndex := DmaIndex(phys);
      if 0 <= dmaIndex < FRAMES {
        dmaBitmap[dmaIndex] := false;
      }
      WindowUnmap(t, vm.Value(), win, v);
      win := win - {v};
    }

    method PfreeAlignedDMA(virt: nat, size: nat)
      requires Valid()
      requires virt == 0 || (virt >= WIN_BASE && WindowPage(virt) + Pages(size) <= WIN_PAGES)
      modifies this`win, vm, dmaBitmap
      ensures Valid() && Value() == Pfree(old(Value()), virt, size)
      ensures virt != 0 && virt % PAGE == 0 && size + 0xFFF < TWO64 ==> NoneMapped(vm.Value(), virt, size)
      ensures SameOutsideWindow(old(vm.Value()), vm.Value())
    {
      ghost var p := Value();
      if virt == 0 || size == 0 { return; }
      var mapSize := U64(size + PAGE - 1) / PAGE * PAGE;
      ghost var t, all := vm.Value(), Release(dmaBitmap[..], win, WindowPage(virt), Pages(size));
      ghost var k := 0;
      var offset := 0;
      assert SameOutsideWindow(t, t);
      hide WF, Translate, SameOutsideWindow, WindowIs, NoneMapped, PhysOf;
      while offset < mapSize
        invariant offset == k * PAGE && k <= Pages(size)
        invariant Valid() && SameOutsideWindow(t, vm.Value())
        invariant Release(dmaBitmap[..], win, WindowPage(virt) + k, Pages(size) - k) == all
      {
        ghost var before := vm.Value();
        WindowAddress(virt, k);
        ReleasePage(virt + offset, WindowPage(virt) + k);
        SameTransitive(t, before, vm.Value());
        offset := offset + PAGE;
        k := k + 1;
      }
      if virt % PAGE == 0 && size + 0xFFF < TWO64 { BytesUnmapped(p, vm.Value(), virt, size); }
    }
  }

  /** Where byte j of a buffer translates to. */
  function PhysOf(t: Tables, virt: nat, j: nat): nat { GetPhysicalAddress(t, virt + j) }

  /** Every byte of the buffer is backed by memory of the pool. */
  ghost predicate AllMapped(t: Tables, virt: nat, size: nat) {
    forall j: nat | j < size :: 0x800_0000 <= PhysOf(t, virt, j) < 0x820_0000
  }

  ghost predicate NoneMapped(t: Tables, virt: nat, size: nat) {
    forall j: nat | j < size :: PhysOf(t, virt, j) == 0
  }

  /** A byte of the window goes where the map of the window says, or nowhere. */
  lemma ByteTranslates(t: Tables, win: map<nat, nat>, virt: nat, j: nat)
    requires WF(t) && WindowIs(t, win) && virt >= WIN_BASE && PageOfByte(virt, j) < WIN_PAGES
    ensures PhysOf(t, virt, j)
      == if PageOfByte(virt, j) in win then 0x800_0000 + win[PageOfByte(virt, j)] * 0x1000 + (virt + j) % 0x1000 else 0
  {
    hide WF, Translate, Frame, SmallEntry, Vpn, GetPhysicalAddress;
    var va, v := virt + j, PageOfByte(virt, j);
    WindowAddress(va, 0);
    assert va + 0 * PAGE == va;
    assert InWindow(WIN_VPN + v);
    GetPhysicalAddressIsTranslation(t, va);
    if v in win { DmaIndexOf(win[v], va % PAGE); }
  }

  lemma BytesTranslate(t: Tables, win: map<nat, nat>, virt: nat, size: nat)
    requires WF(t) && WindowIs(t, win) && virt >= WIN_BASE && virt % 0x1000 == 0
    requires forall j: nat | j < size :: PageOfByte(virt, j) in win
    ensures AllMapped(t, virt, size)
    ensures size > 0 ==> GetPhysicalAddress(t, virt) == 0x800_0000 + win[PageOfByte(virt, 0)] * 0x1000
  {
    hide WF, GetPhysicalAddress, PageOfByte;
    forall j: nat | j < size ensures 0x800_0000 <= PhysOf(t, virt, j) < 0x820_0000 {
      assert PageOfByte(virt, j) < WIN_PAGES;
      ByteTranslates(t, win, virt, j);
    }
    if size > 0 { ByteTranslates(t, win, virt, 0); }
  }

  lemma BufferTranslates(p: Pool, t: Tables, size: nat)
    requires p.curr >= WIN_BASE && size + 0xFFF < TWO64 && Palloc(p, size).1.Some?
    requires WF(t) && WindowIs(t, Palloc(p, size).0.win)
    ensures var b := Palloc(p, size).1.value;
      AllMapped(t, b.virt, size) && (size > 0 ==> b.phys == GetPhysicalAddress(t, b.virt))
  {
    hide WF, WindowIs, Palloc, GetPhysicalAddress, AllMapped, HoldsByte, PageOfByte;
    AllocatedBytes(p, size);
    BytesTranslate(t, Palloc(p, size).0.win, Palloc(p, size).1.value.virt, size);
  }

  lemma BytesUnmapped(p: Pool, t: Tables, virt: nat, size: nat)
    requires virt >= WIN_BASE && virt % 0x1000 == 0 && size + 0xFFF < TWO64 && WindowPage(virt) + Pages(size) <= WIN_PAGES
    requires WF(t) && WindowIs(t, Pfree(p, virt, size).win)
    ensures NoneMapped(t, virt, size)
  {
    hide WF, GetPhysicalAddress, PageOfByte, Pfree, WindowPage, Pages, WindowIs;
    FreedBytes(p, virt, size);
    PagesHold(size);
    forall j: nat | j < size ensures PhysOf(t, virt, j) == 0 {
      ByteOnPage(virt, Pages(size), j);
      ByteTranslates(t, Pfree(p, virt, size).win, virt, j);
    }
  }

  /** The bitmap index that pfree_aligned_DMA computes, through uintptr_t and int. */
  function DmaIndex(phys: nat): int { ToInt32(U64(phys - DMA_BASE) / PAGE) }

  lemma DmaIndexOf(i: nat, rest: nat)
    requires i < FRAMES && rest < PAGE
    ensures DmaIndex(DMA_BASE + i * PAGE + rest) == i && DmaIndex(0) < 0
    ensures Frame(SmallEntry(DMA_BASE + i * PAGE)) == DMA_BASE + i * PAGE
  {
    DivUnique(i * PAGE + rest, TWO64, 0, i * PAGE + rest);
    DivUnique(i * PAGE + rest, PAGE, i, rest);
    DivUnique(i, TWO32, 0, i);
    assert DmaIndex(0) == -0x8000;
    DivUnique(DMA_BASE + i * PAGE, PAGE, DMA_BASE / PAGE + i, 0);
    SmallEntryBits(DMA_BASE + i * PAGE);
  }

  lemma WindowAddress(va: nat, k: nat)
    requires va >= WIN_BASE && WindowPage(va) + k < WIN_PAGES
    ensures Vpn(va + k * PAGE) == WIN_VPN + WindowPage(va) + k && (va + k * PAGE) % PAGE == va % PAGE
  {
    var v, rest := WindowPage(va), (va - WIN_BASE) % PAGE;
    DivMod(va - WIN_BASE, PAGE);
    WindowVpn(v + k, rest);
    assert va + k * PAGE == WIN_BASE + (v + k) * PAGE + rest;
    DivUnique(va, PAGE, WIN_BASE / PAGE + v, rest);
    DivUnique(va + k * PAGE, PAGE, WIN_BASE / PAGE + v + k, rest);
  }

  lemma RestStep(all: Taken, used: seq<bool>, win: map<nat, nat>, v: nat, n: nat, k: nat)
    requires |used| == FRAMES && n > 0 && FirstFree(used).Some? && RestOfTake(all, Take(used, win, v, n), k)
    ensures var i := FirstFree(used).value;
      && i < FRAMES && k < |all.frames| && all.frames[k] == i
      && RestOfTake(all, Take(used[i := true], win[v := i], v + 1, n - 1), k + 1)
  {
    TakeUnfold(used, win, v, n);
    var r := Take(used[FirstFree(used).value := true], win[v := FirstFree(used).value], v + 1, n - 1);
    hide Take;
    assert all.frames[..k + 1] == all.frames[..k] + [all.frames[k]];
  }

  /** After k pages the rest of the loop yields exactly the remaining frames. */
  ghost predicate RestOfTake(all: Taken, rest: Taken, k: nat) {
    k <= |all.frames| && all == Taken(rest.used, rest.win, all.frames[..k] + rest.frames)
  }

  lemma RestEmpty(all: Taken, used: seq<bool>, win: map<nat, nat>, v: nat, n: nat, k: nat)
    requires RestOfTake(all, Take(used, win, v, n), k) && (n == 0 || FirstFree(used).None?)
    ensures used == all.used && win == all.win && |all.frames| == k
  {
    TakeUnfold(used, win, v, n);
  }

  lemma TakeUnfold(used: seq<bool>, win: map<nat, nat>, v: nat, n: nat)
    ensures Take(used, win, v, n) ==
      if n == 0 || FirstFree(used).None? then Taken(used, win, [])
      else
        var i := FirstFree(used).value;
        var r := Take(used[i := true], win[v := i], v + 1, n - 1);
        Taken(r.used, r.win, [i] + r.frames)
  {
  }

  lemma TakenBound(used: seq<bool>, win: map<nat, nat>, v: nat, n: nat)
    requires |used| == FRAMES
    ensures |Take(used, win, v, n).frames| <= FRAMES
  {
    DmaTheorems.TakeCount(used, win, v, n);
    FreeSetBound(used, FRAMES);
  }

  lemma {:induction false} FreeSetBound(used: seq<bool>, k: nat)
    requires k <= |used|
    ensures |set i: nat | i < k && !used[i]| <= k
  {
    if k > 0 {
      FreeSetBound(used, k - 1);
      var s, r := set i: nat | i < k && !used[i], set i: nat | i < k - 1 && !used[i];
      assert s == if used[k - 1] then r else r + {k - 1};
    }
  }

  /** Every page the loop may write lies in the window, wrapped or not. */
  lemma StartInWindow(p: Pool, size: nat)
    requires p.curr >= WIN_BASE
    ensures Start(p, size) >= WIN_BASE && Start(p, size) == WIN_BASE + WindowPage(Start(p, size)) * PAGE
    ensures WindowPage(Start(p, size)) + Pages(size) <= WIN_PAGES || WindowPage(Start(p, size)) == 0
  {
    var a := AlignedCursor(p);
    DivMod(p.curr, PAGE);
    DivMod(p.curr + PAGE - 1, PAGE);
    var q := a / PAGE;
    DivUnique(a, PAGE, if p.curr % PAGE != 0 then (p.curr + PAGE - 1) / PAGE else p.curr / PAGE, 0);
    DivUnique(Start(p, size) - WIN_BASE, PAGE, if Wraps(p, size) then 0 else q - WIN_BASE / PAGE, 0);
  }

  lemma SameTransitive(t: Tables, u: Tables, r: Tables)
    requires SameOutsideWindow(t, u) && SameOutsideWindow(u, r)
    ensures SameOutsideWindow(t, r)
  {
    hide Translate;
    forall w: nat | w < VPAGES && !InWindow(w) ensures Translate(t, w) == Translate(r, w) {
      assert Translate(t, w) == Translate(u, w);
    }
  }

  /** What a window page translates to, and the bitmap index computed from it. */
  lemma WindowPageMapping(t: Tables, win: map<nat, nat>, v: nat, rest: nat)
    requires WindowIs(t, win) && v < WIN_PAGES && rest < PAGE
    ensures match Translate(t, WIN_VPN + v)
            case Small(pte) => v in win && win[v] < FRAMES && DmaIndex(Frame(pte) + rest) == win[v]
            case Unmapped => v !in win
            case Large2M(_) => false
    ensures DmaIndex(0) < 0
  {
    hide Frame, SmallEntry, DmaIndex, Translate;
    assert InWindow(WIN_VPN + v);
    if v in win { DmaIndexOf(win[v], rest); } else { DmaIndexOf(0, 0); }
  }

  lemma ReleaseOne(used: seq<bool>, win: map<nat, nat>, v: nat)
    ensures Release(used, win, v, 1)
      == (if v in win && win[v] < |used| then used[win[v] := false] else used, win - {v})
  {
  }

  /** Before the first wrap it is enough that two directories and a table for every 512 window pages up to the cursor fit. */
  lemma PallocAffords(t: Tables, p: Pool, size: nat)
    requires p.curr >= WIN_BASE && !Wraps(p, size) && Pages(size) > 0
    requires t.next + (2 + Steps(WindowPage(Start(p, size)) + Pages(size), PER_TABLE)) * PAGE <= TABLE_LIMIT
    ensures Affords(t, RangePaths(Start(p, size), Granted(p, size)))
  {
    hide RangePaths, Affords, Steps, Wraps, Start;
    StartInWindow(p, size);
    var v, n := WindowPage(Start(p, size)), Pages(size);
    UnwrappedFits(p, size);
    WindowAffords(t, v, n);
    RangeGrows(Start(p, size), Granted(p, size), n);
    AffordsLess(t, RangePaths(Start(p, size), Granted(p, size)), RangePaths(Start(p, size), n));
  }

  lemma UnwrappedFits(p: Pool, size: nat)
    requires p.curr >= WIN_BASE && !Wraps(p, size)
    ensures Start(p, size) >= WIN_BASE && WindowPage(Start(p, size)) + Pages(size) <= WIN_PAGES
  {
    StartInWindow(p, size);
    var v := WindowPage(Start(p, size));
    assert (v + Pages(size)) * PAGE == v * PAGE + Pages(size) * PAGE;
    if v + Pages(size) > WIN_PAGES { MulMonotone(WIN_PAGES + 1, v + Pages(size), PAGE); }
  }

  lemma PageIsSmall(t: Tables, win: map<nat, nat>, v: nat)
    requires WindowIs(t, win) && v < WIN_PAGES
    ensures !Translate(t, WIN_VPN + v).Large2M?
  {
    assert InWindow(WIN_VPN + v);
  }

  /** The k-th page of a buffer: its address, and the tables above it. */
  lemma NextPage(v: nat, k: nat)
    ensures var base := WIN_BASE + v * PAGE;
      && WIN_BASE + (v + k) * PAGE == base + k * PAGE
      && RangePaths(base, k + 1) == RangePaths(base, k) + RangePaths(WIN_BASE + (v + k) * PAGE, 1)
      && NoDeeper(RangePaths(WIN_BASE + (v + k) * PAGE, 1), 3)
  {
    hide PagePaths, Vpn, U64;
    var base := WIN_BASE + v * PAGE;
    assert WIN_BASE + (v + k) * PAGE == base + k * PAGE;
    OneRangePage(base + k * PAGE);
    PagePathsDepth(Vpn(U64(base + k * PAGE)));
  }

  lemma NextPageAffords(t: Tables, m: Tables, v: nat, k: nat, n: nat)
    requires k < n && Affords(t, RangePaths(WIN_BASE + v * PAGE, n)) && Grown(t, m, RangePaths(WIN_BASE + v * PAGE, k), 3)
    ensures Affords(m, RangePaths(WIN_BASE + (v + k) * PAGE, 1))
  {
    hide Affords, Grown, RangePaths;
    var base := WIN_BASE + v * PAGE;
    NextPage(v, k);
    RangeGrows(base, k + 1, n);
    AffordsLess(t, RangePaths(base, k + 1), RangePaths(base, n));
    AffordsRest(t, m, RangePaths(base, k), RangePaths(WIN_BASE + (v + k) * PAGE, 1));
  }

  lemma NextPageGrown(t: Tables, m: Tables, u: Tables, v: nat, k: nat)
    requires Grown(t, m, RangePaths(WIN_BASE + v * PAGE, k), 3) && Grown(m, u, RangePaths(WIN_BASE + (v + k) * PAGE, 1), 3)
    ensures Grown(t, u, RangePaths(WIN_BASE + v * PAGE, k + 1), 3)
  {
    hide Grown, RangePaths;
    NextPage(v, k);
    GrownThen(t, m, u, RangePaths(WIN_BASE + v * PAGE, k), RangePaths(WIN_BASE + (v + k) * PAGE, 1), 3);
  }

  /** Mapping one page is a single update of the flat map. */
  lemma OnePageEffect(m: Mapping, va: nat, pa: nat, w: nat)
    requires w < VPAGES && pa < TWO64
    ensures PageCount(PAGE) == 1
    ensures PagesEffect(m, va, pa, 1, w) == if w == Vpn(va) then Small(SmallEntry(pa)) else m
  {
    var k := Distance(va, w);
    if w == Vpn(va) {
      DivUnique(0, VPAGES, 0, 0);
      OnlyWriter(0, 1, VPAGES);
      DivUnique(pa, TWO64, 0, pa);
    } else if k == 0 {
      NearZero(w - Vpn(va), VPAGES);
    }
  }

  /** The page-table effect of backing window page v with frame i. */
  lemma WindowMap(t: Tables, u: Tables, win: map<nat, nat>, v: nat, i: nat)
    requires WindowIs(t, win) && v < WIN_PAGES && i < FRAMES
    requires forall w: nat | w < VPAGES ::
      Translate(u, w) == if w == WIN_VPN + v then Small(SmallEntry(DMA_BASE + i * PAGE)) else Translate(t, w)
    ensures WindowIs(u, win[v := i])
  {
    hide Translate, SmallEntry;
  }

  lemma WindowUnmap(t: Tables, u: Tables, win: map<nat, nat>, v: nat)
    requires WindowIs(t, win) && v < WIN_PAGES
    requires forall w: nat | w < VPAGES ::
      Translate(u, w) == if w == WIN_VPN + v then Unmapped else Translate(t, w)
    ensures WindowIs(u, win - {v})
  {
    hide Translate, SmallEntry;
  }
}
