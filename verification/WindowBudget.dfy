/**
 The page tables of the DMA window: sweeping it page by page takes two directories and one page
 table for every 512 pages, so that before the first wrap the tables can meet the page frames.
 */
module WindowBudget {
  import opened Machine
  import opened Paging
  import opened PagingOps
  import opened PagingRuns
  import opened TableBudget
  import DmaPool
  import PhysPages

  const WIN_VPN: nat := 0x9_0000_0000  // bits 12 to 47 of WIN_BASE
  const WIN_BLOCK: nat := 0x480_0000   // its 2 MiB block
  const PER_TABLE: nat := 512

  lemma WindowVpn(v: nat, rest: nat)
    requires v < DmaPool.WIN_PAGES && rest < PAGE
    ensures Vpn(DmaPool.WIN_BASE + v * PAGE + rest) == WIN_VPN + v
    ensures U64(DmaPool.WIN_BASE + v * PAGE + rest) == DmaPool.WIN_BASE + v * PAGE + rest
  {
    var va := DmaPool.WIN_BASE + v * PAGE + rest;
    MulMonotone(v, DmaPool.WIN_PAGES - 1, PAGE);
    DivUnique(va, TWO64, 0, va);
    DivUnique(va, PAGE, DmaPool.WIN_BASE / PAGE + v, rest);
    DivUnique(DmaPool.WIN_BASE / PAGE + v, VPAGES, DmaPool.WIN_BASE / PAGE / VPAGES, WIN_VPN + v);
  }

  /** The page tables of the first j blocks of the window. */
  function PtSet(j: nat): set<Path> {
    if j == 0 then {} else PtSet(j - 1) + {PtPath(WIN_BLOCK + (j - 1))}
  }

  lemma {:induction false} PtSetIs(j: nat, k: nat)
    requires j <= 256 && k < 256
    ensures |PtSet(j)| == j && (PtPath(WIN_BLOCK + k) in PtSet(j) <==> k < j)
    ensures forall q | q in PtSet(j) :: q.Depth() == 3
    decreases j
  {
    hide PtPath;
    if j > 0 {
      PtSetIs(j - 1, k);
      PtSetIs(j - 1, j - 1);
      PtDepth(WIN_BLOCK + (j - 1));
      if PtPath(WIN_BLOCK + k) == PtPath(WIN_BLOCK + (j - 1)) { PathsDiffer(WIN_BLOCK + k, WIN_BLOCK + (j - 1)); }
    }
  }

  /** All blocks of the window lie under the same two directories. */
  lemma WindowDirectories(k: nat)
    requires k < DmaPool.WIN_PAGES
    ensures PagePaths(WIN_VPN + k) == BlockPaths(WIN_BLOCK) + {PtPath(WIN_BLOCK + k / PER_TABLE)}
  {
    var j := k / PER_TABLE;
    DivMod(k, PER_TABLE);
    DivBound(k, 256, PER_TABLE);
    DivUnique(WIN_VPN + k, 0x200, WIN_BLOCK + j, k % PER_TABLE);
    DivUnique(WIN_BLOCK + j, 0x4_0000, WIN_BLOCK / 0x4_0000, j);
    DivUnique(WIN_BLOCK + j, 0x200, WIN_BLOCK / 0x200, j);
  }

  lemma NextWindowPage(k: nat)
    requires k < DmaPool.WIN_PAGES
    ensures PtSet(Steps(k + 1, PER_TABLE)) == PtSet(Steps(k, PER_TABLE)) + {PtPath(WIN_BLOCK + k / PER_TABLE)}
    ensures k == 0 ==> PtSet(Steps(k, PER_TABLE)) == {}
  {
    hide PtPath, Steps;
    TableOfPage(k);
    PtSetIs(Steps(k, PER_TABLE), k / PER_TABLE);
  }

  lemma WindowRangeStep(k: nat)
    requires k < DmaPool.WIN_PAGES
    ensures RangePaths(DmaPool.WIN_BASE, k + 1) == RangePaths(DmaPool.WIN_BASE, k) + PagePaths(WIN_VPN + k)
  {
    hide PagePaths, Vpn, U64;
    WindowVpn(k, 0);
  }

  lemma {:induction false} WindowPaths(m: nat)
    requires m <= DmaPool.WIN_PAGES
    ensures RangePaths(DmaPool.WIN_BASE, m) == if m == 0 then {} else BlockPaths(WIN_BLOCK) + PtSet(Steps(m, PER_TABLE))
    decreases m
  {
    hide PagePaths, BlockPaths, PtPath, PtSet, Steps, RangePaths;
    if m == 0 {
      NoPaths(DmaPool.WIN_BASE);
    } else {
      WindowPaths(m - 1);
      WindowRangeStep(m - 1);
      WindowDirectories(m - 1);
      NextWindowPage(m - 1);
    }
  }

  lemma NoPaths(va: nat)
    ensures RangePaths(va, 0) == {}
  {
  }

  /** Page k opens a new page table exactly at a multiple of 512. */
  lemma TableOfPage(k: nat)
    requires k < DmaPool.WIN_PAGES
    ensures Steps(k + 1, PER_TABLE) == k / PER_TABLE + 1 && k / PER_TABLE < 256
    ensures Steps(k, PER_TABLE) == if k % PER_TABLE == 0 then k / PER_TABLE else k / PER_TABLE + 1
  {
    DivMod(k, PER_TABLE);
    DivBound(k, 256, PER_TABLE);
    DivUnique(k + PER_TABLE, PER_TABLE, k / PER_TABLE + 1, k % PER_TABLE);
    if k % PER_TABLE == 0 {
      DivUnique(k + PER_TABLE - 1, PER_TABLE, k / PER_TABLE, PER_TABLE - 1);
    } else {
      DivUnique(k + PER_TABLE - 1, PER_TABLE, k / PER_TABLE + 1, k % PER_TABLE - 1);
    }
  }

  /** The cost of the first m window pages. */
  lemma WindowCost(m: nat)
    requires 0 < m <= DmaPool.WIN_PAGES
    ensures |RangePaths(DmaPool.WIN_BASE, m)| == 2 + Steps(m, PER_TABLE)
  {
    hide RangePaths, PtPath;
    WindowPaths(m);
    TableOfPage(m - 1);
    var j := Steps(m, PER_TABLE);
    PtSetIs(j, 0);
    PtDepth(WIN_BLOCK);
    assert Sub(Root, WIN_BLOCK / 0x4_0000).Depth() == 1;
    assert |BlockPaths(WIN_BLOCK)| == 2;
    assert BlockPaths(WIN_BLOCK) !! PtSet(j);
    assert |BlockPaths(WIN_BLOCK) + PtSet(j)| == |BlockPaths(WIN_BLOCK)| + |PtSet(j)|;
  }

  lemma {:induction false} WindowPart(v: nat, n: nat)
    requires v + n <= DmaPool.WIN_PAGES
    ensures RangePaths(DmaPool.WIN_BASE + v * PAGE, n) <= RangePaths(DmaPool.WIN_BASE, v + n)
    decreases n
  {
    hide PagePaths, Vpn, U64;
    if n > 0 {
      WindowPart(v, n - 1);
      assert DmaPool.WIN_BASE + v * PAGE + (n - 1) * PAGE == DmaPool.WIN_BASE + (v + n - 1) * PAGE;
    }
  }

  /** Enough for any window pages below w: two directories and a page table for every 512 of them. */
  lemma WindowAffords(t: Tables, v: nat, n: nat)
    requires 0 < v + n <= DmaPool.WIN_PAGES && t.next + (2 + Steps(v + n, PER_TABLE)) * PAGE <= TABLE_LIMIT
    ensures Affords(t, RangePaths(DmaPool.WIN_BASE + v * PAGE, n))
  {
    hide RangePaths, Node;
    var all := RangePaths(DmaPool.WIN_BASE, v + n);
    WindowCost(v + n);
    SubsetSmaller(Missing(t, all), all);
    MulMonotone(|Missing(t, all)|, 2 + Steps(v + n, PER_TABLE), PAGE);
    WindowPart(v, n);
    AffordsLess(t, RangePaths(DmaPool.WIN_BASE + v * PAGE, n), all);
  }

  // ----- sweeping the window

  /** A page of the window mapped and unmapped again, page after page, as allocating and freeing one-page buffers does. */
  function Sweep(m: nat): seq<Op> {
    if m == 0 then []
    else Sweep(m - 1) + [Virtual(DmaPool.WIN_BASE + (m - 1) * PAGE, DmaPool.DMA_BASE, PAGE), Unmap(DmaPool.WIN_BASE + (m - 1) * PAGE)]
  }

  predicate SmallOnly(ops: seq<Op>) { forall op | op in ops :: op.Virtual? || op.Unmap? }

  lemma {:induction false} SmallStaysSmall(ops: seq<Op>, w: nat)
    requires SmallOnly(ops)
    ensures !RunEffect(ops, w, Unmapped).Large2M?
  {
    hide Vpn, Distance, LastWriter, SmallEntry;
    if ops != [] { SmallStaysSmall(ops[..|ops| - 1], w); }
  }

  lemma {:induction false} SmallIsLegal(ops: seq<Op>)
    requires SmallOnly(ops)
    ensures FlatLegal(ops)
  {
    hide RunEffect;
    if ops != [] {
      var before := ops[..|ops| - 1];
      SmallIsLegal(before);
      forall w: nat ensures !RunEffect(before, w, Unmapped).Large2M? {
        SmallStaysSmall(before, w);
      }
    }
  }

  lemma TouchedSnoc(ops: seq<Op>, op: Op)
    ensures AllTouched(ops + [op]) == AllTouched(ops) + Touched(op)
    ensures AllocPages(ops + [op]) == AllocPages(ops) + if op.AllocPage? then 1 else 0
  {
    assert (ops + [op])[..|ops|] == ops;
  }

  /** One more cycle adds the tables of one more page. */
  lemma SweepStep(ops: seq<Op>, va: nat)
    requires SmallOnly(ops)
    ensures var more := ops + [Virtual(va, DmaPool.DMA_BASE, PAGE), Unmap(va)];
      && AllTouched(more) == AllTouched(ops) + PagePaths(Vpn(U64(va)))
      && AllocPages(more) == AllocPages(ops) && SmallOnly(more)
  {
    hide PagePaths, Vpn, U64, RangePaths, AllTouched, AllocPages;
    var map1, unmap := Virtual(va, DmaPool.DMA_BASE, PAGE), Unmap(va);
    TouchedSnoc(ops, map1);
    TouchedSnoc(ops + [map1], unmap);
    assert ops + [map1, unmap] == (ops + [map1]) + [unmap];
    OneRangePage(va);
  }

  lemma {:induction false} SweepTouches(m: nat)
    ensures AllTouched(Sweep(m)) == RangePaths(DmaPool.WIN_BASE, m) && AllocPages(Sweep(m)) == 0 && SmallOnly(Sweep(m))
    decreases m
  {
    hide PagePaths, Vpn, U64, AllTouched, AllocPages, SmallOnly;
    if m == 0 {
      EmptySweep();
    } else {
      SweepTouches(m - 1);
      SweepStep(Sweep(m - 1), DmaPool.WIN_BASE + (m - 1) * PAGE);
    }
  }

  lemma EmptySweep()
    ensures AllTouched([]) == {} && AllocPages([]) == 0 && SmallOnly([])
  {
  }

  lemma OneRangePage(va: nat)
    ensures PageCount(PAGE) == 1 && RangePaths(va, 1) == PagePaths(Vpn(U64(va)))
  {
    assert RangePaths(va, 0) == {};
    assert va + (1 - 1) * PAGE == va;
  }

  /** Exactly how far a fresh kernel can sweep the window before its tables meet the page frames. */
  lemma SweepFitsExactlyWhen(m: nat)
    requires 0 < m <= DmaPool.WIN_PAGES
    ensures LegalRun(Boot(), Sweep(m)) <==> m <= 249 * PER_TABLE
    ensures TablesUsed(Sweep(m)) == 3 + Steps(m, PER_TABLE)
  {
    hide LegalRun, FlatLegal, Sweep, Boot, RangePaths;
    SweepTouches(m);
    SmallIsLegal(Sweep(m));
    WindowCost(m);
    RunFitsExactlyWhen(Sweep(m));
    DivBound(m + PER_TABLE - 1, 250, PER_TABLE);
  }

  /** The sweep is legal up to its 249th page table; then the next table is the first frame of palloc_page. */
  lemma SweepMeetsFirstFrame(used: seq<bool>)
    requires |used| == PhysPages.TRACKED && !used[0]
    ensures var ops := Sweep(249 * PER_TABLE);
      && 249 * PER_TABLE < DmaPool.WIN_PAGES && LegalRun(Boot(), ops) && Run(Boot(), ops).next == PhysPages.BASE
      && PhysPages.Pick(PhysPages.State(used, 0)) == Some(0)
  {
    hide LegalRun, Sweep, Boot, Run, TablesUsed;
    SweepFitsExactlyWhen(249 * PER_TABLE);
    NextTableIsFirstFrame(Sweep(249 * PER_TABLE), used);
  }
}
