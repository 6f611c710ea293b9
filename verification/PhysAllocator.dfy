/** palloc_page, free_phys_page and init_phys_allocator as code over the bitmap array. */
module PhysAllocatorCode {
  import opened Machine
  import opened PhysPages

  const AHCI_BASE: nat := 0x80_0000

  class PhysAllocator {
    const pageBitmap: array<bool>
    var lastAllocatedIndex: nat

    ghost predicate Valid()
      reads this, pageBitmap
    {
      PhysPages.Valid(Value())
    }

    ghost function Value(): State
      reads this, pageBitmap
    {
      State(pageBitmap[..], lastAllocatedIndex)
    }

    constructor ()
      ensures Valid() && Value() == State(seq(TRACKED, _ => false), 0) && fresh(pageBitmap)
    {
      pageBitmap := new bool[TRACKED](_ => false);
      lastAllocatedIndex := 0;
    }

    /** Returns the address of the page handed out, or 0. */
    method PallocPage() returns (addr: nat)
      requires Valid()
      modifies this, pageBitmap
      ensures Valid() && Value() == Take(old(Value()))
      ensures addr == match Pick(old(Value())) case None => 0 case Some(i) => BASE + i * PAGE
    {
      ghost var s := Value();
      for i := lastAllocatedIndex to TRACKED
        invariant Value() == s && Scan(s.used, i, TRACKED) == Scan(s.used, s.last, TRACKED)
      {
        if !pageBitmap[i] {
          pageBitmap[i] := true;
          lastAllocatedIndex := i + 1;
          return BASE + i * PAGE;
        }
      }
      for i := 0 to lastAllocatedIndex
        invariant Value() == s && Scan(s.used, i, s.last) == Scan(s.used, 0, s.last)
      {
        if !pageBitmap[i] {
          pageBitmap[i] := true;
          lastAllocatedIndex := i + 1;
          return BASE + i * PAGE;
        }
      }
      addr := 0;
    }

    method FreePhysPage(addr: nat)
      requires Valid()
      modifies pageBitmap
      ensures Valid() && Value() == Free(old(Value()), addr)
    {
      if addr < BASE { return; }
      var index := ToInt32((addr - BASE) / PAGE);
      if 0 <= index < TRACKED {
        pageBitmap[index] := false;
      }
    }

    /** The loop that init_phys_allocator repeats for each region; one that wraps would never end. */
    method Reserve(start: nat, end: nat)
      requires Valid() && start < TWO64 && end < TWO64 && RegionEnds(start, end)
      modifies pageBitmap
      ensures Valid() && lastAllocatedIndex == old(lastAllocatedIndex)
      ensures forall i: nat | i < TRACKED :: pageBitmap[i] <==> old(pageBitmap[i]) || Touches(start, end, i)
    {
      hide ReservedIndex, U64;
      var addr := start;
      ghost var k: nat := 0;
      while addr < end
        invariant addr == start + k * PAGE < TWO64
        invariant forall i: nat | i < TRACKED ::
          pageBitmap[i] <==> old(pageBitmap[i])
                             || exists j: nat :: j < k && start + j * PAGE < end && ReservedIndex(start + j * PAGE) == i
        decreases TWO64 - addr
      {
        var index := ReservedIndex(addr);
        if index < TRACKED {
          pageBitmap[index] := true;
        }
        NextReserved(start, end, k);
        addr := U64(addr + PAGE);
        k := k + 1;
      }
    }

    method InitPhysAllocator(kernelStart: nat, kernelEnd: nat, abar: nat)
      requires Valid() && kernelStart < TWO64 && kernelEnd < TWO64 && abar < TWO64
      requires RegionEnds(kernelStart, kernelEnd) && RegionEnds(abar, U64(abar + 0x20_0000))
      modifies pageBitmap
      ensures Valid() && lastAllocatedIndex == old(lastAllocatedIndex)
      ensures forall i: nat | i < TRACKED ::
        pageBitmap[i] <==>
          || old(pageBitmap[i]) || Touches(kernelStart, kernelEnd, i)
          || Touches(AHCI_BASE, AHCI_BASE + 0x20_0000, i) || Touches(abar, U64(abar + 0x20_0000), i)
          || 0x30_0000 <= i * PAGE < 0xF0_0000
    {
      Reserve(kernelStart, kernelEnd);
      Reserve(AHCI_BASE, AHCI_BASE + 0x20_0000);
      Reserve(abar, U64(abar + 0x20_0000));
      Reserve(0x40_0000, 0x100_0000);
      forall i: nat | i < TRACKED
        ensures Touches(0x40_0000, 0x100_0000, i) <==> 0x30_0000 <= i * PAGE < 0xF0_0000
      {
        TouchesRun(0x40_0000, 0x100_0000, i);
      }
    }
  }

  /** The cursor of a loop over [start, end) leaves the region before it wraps. */
  predicate RegionEnds(start: nat, end: nat) { start < end ==> LoopEnds(start, end - start, PAGE) }

  lemma NextReserved(start: nat, end: nat, k: nat)
    requires start + k * PAGE < end < TWO64 && RegionEnds(start, end)
    ensures U64(start + k * PAGE + PAGE) == start + (k + 1) * PAGE < TWO64
  {
    StepsLeft(end - start, k, PAGE);
    MulMonotone(k + 1, Steps(end - start, PAGE), PAGE);
    assert (k + 1) * PAGE == k * PAGE + PAGE;
    DivUnique(start + (k + 1) * PAGE, TWO64, 0, start + (k + 1) * PAGE);
  }
}
