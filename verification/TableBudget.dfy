/**
 How many table pages a run of the mapping operations takes, and when they run into the page
 frames of palloc_page: exactly one page for each position of the tree that the run passes through.
 */
module TableBudget {
  import opened Machine
  import opened Paging
  import opened PagingOps
  import opened PagingRuns
  import PhysPages

  /** The calls of alloc_page, and all positions touched by the other operations of a run. */
  function AllocPages(ops: seq<Op>): nat {
    if ops == [] then 0 else AllocPages(ops[..|ops| - 1]) + if ops[|ops| - 1].AllocPage? then 1 else 0
  }

  function AllTouched(ops: seq<Op>): set<Path> {
    if ops == [] then {} else AllTouched(ops[..|ops| - 1]) + Touched(ops[|ops| - 1])
  }

  /** The table pages in use after a run from boot, the PML4 included. */
  function TablesUsed(ops: seq<Op>): nat {
    1 + AllocPages(ops) + |AllTouched(ops)|
  }

  // ----- what the ranges touch

  /** A page of a mapped range has its page table among the positions touched. */
  lemma {:induction false} RangeHasPt(va: nat, n: nat, w: nat)
    requires w < VPAGES && Distance(va, w) < n
    ensures PtPath(w / 0x200) in RangePaths(va, n)
    decreases n
  {
    hide BlockPaths, PtPath, Vpn, U64;
    var v := Vpn(U64(va + (n - 1) * PAGE));
    if Distance(va, w) < n - 1 {
      RangeHasPt(va, n - 1, w);
    } else {
      VpnOfStep(va, n - 1);
      RingPosition(Vpn(va), n - 1, w, VPAGES);
      DivUnique(0, VPAGES, 0, 0);
      assert w == v;
    }
  }

  /** Every position that a mapped range touches is that of a directory or of the page table of one of its pages. */
  lemma {:induction false} RangeTouches(va: nat, n: nat, q: Path) returns (w: nat)
    requires q in RangePaths(va, n)
    ensures w < VPAGES && Distance(va, w) < n
    ensures (q.Depth() <= 2 && q != Root) || q == PtPath(w / 0x200)
    decreases n
  {
    hide PtPath, PdPath, Vpn, U64;
    var v := Vpn(U64(va + (n - 1) * PAGE));
    if q in RangePaths(va, n - 1) {
      w := RangeTouches(va, n - 1, q);
    } else {
      w := v;
      VpnOfStep(va, n - 1);
      RingPosition(Vpn(va), n - 1, v, VPAGES);
      RingStep(Vpn(va), n - 1, v, VPAGES);
      if q != PtPath(v / 0x200) { BlockPathsShallow(v / 0x200, q); }
    }
  }

  lemma BlockPathsShallow(b: nat, q: Path)
    requires q in BlockPaths(b)
    ensures q.Depth() <= 2 && q != Root
  {
    PtDepth(b);
    assert Sub(Root, b / 0x4_0000).Depth() == 1;
  }

  lemma {:induction false} BlockRangeShallow(start: nat, n: nat, q: Path)
    requires q in BlockRangePaths(start, n)
    ensures q.Depth() <= 2 && q != Root
    decreases n
  {
    hide Block, BlockPaths;
    if q in BlockRangePaths(start, n - 1) {
      BlockRangeShallow(start, n - 1, q);
    } else {
      BlockPathsShallow(Block(start + (n - 1) * BLOCK), q);
    }
  }

  // ----- the positions that have a table, over whole runs

  /** The page table of block c: there only if touched, and once touched gone only under a large page. */
  ghost predicate PtCounted(t: Tables, all: set<Path>, c: nat) {
    && (Node(t, PtPath(c)).Some? ==> PtPath(c) in all)
    && (PtPath(c) in all && Node(t, PtPath(c)).None? ==> Translate(t, c * 0x200).Large2M?)
  }

  ghost predicate Counted(t: Tables, all: set<Path>) {
    && Root !in all
    && (forall q: Path | q.Depth() <= 2 :: Node(t, q).Some? <==> q == Root || q in all)
    && forall c: nat | c < VBLOCKS :: PtCounted(t, all, c)
  }

  lemma LargeBlock(t: Tables, c: nat, w: nat)
    requires w / 0x200 == c && Translate(t, c * 0x200).Large2M?
    ensures Translate(t, w).Large2M?
  {
    DivUnique(c * 0x200, 0x200, c, 0);
  }

  /** The missing positions of a legal operation are those that no operation touched before. */
  lemma MissingIsNew(t: Tables, all: set<Path>, op: Op)
    requires Counted(t, all) && NoClash(t, op)
    ensures Missing(t, Touched(op)) == Touched(op) - all && Root !in Touched(op)
    ensures |all + Touched(op)| == |all| + |Missing(t, Touched(op))|
  {
    hide PtPath, PdPath, Translate, Missing, RangePaths, BlockRangePaths, Vpn, Block, Distance;
    forall q | q in Touched(op) ensures q != Root && (Node(t, q).None? <==> q !in all) {
      match op
      case Virtual(va, _, size) =>
        var w := RangeTouches(va, PageCount(size), q);
        TouchedPt(t, all, q, w);
      case Identity(start, size) => BlockRangeShallow(start, Steps(size, BLOCK), q);
      case Framebuffer(start, size) => BlockRangeShallow(start, Steps(size, BLOCK), q);
    }
    assert Missing(t, Touched(op)) == Touched(op) - all by { MissingAre(t, Touched(op), all); }
    assert all + Touched(op) == all + (Touched(op) - all);
  }

  lemma MissingAre(t: Tables, ps: set<Path>, all: set<Path>)
    requires forall q | q in ps :: Node(t, q).None? <==> q !in all
    ensures Missing(t, ps) == ps - all
  {
  }

  lemma TouchedPt(t: Tables, all: set<Path>, q: Path, w: nat)
    requires Counted(t, all) && w < VPAGES && !Translate(t, w).Large2M?
    requires (q.Depth() <= 2 && q != Root) || q == PtPath(w / 0x200)
    ensures q != Root && (Node(t, q).None? <==> q !in all)
  {
    hide Node, Translate;
    PtDepth(w / 0x200);
    if q.Depth() > 2 {
      assert PtCounted(t, all, w / 0x200);
      if Translate(t, w / 0x200 * 0x200).Large2M? { LargeBlock(t, w / 0x200, w); }
    }
  }

  lemma CountedPt(t: Tables, all: set<Path>, op: Op, c: nat)
    requires WF(t) && Counted(t, all) && Legal(t, op) && c < VBLOCKS
    ensures PtCounted(Apply(t, op), all + Touched(op), c)
  {
    hide WF, Node, PtPath, Translate, Apply, RangePaths, BlockRangePaths, Vpn, Block, Distance, BlockDistance, LastWriter, NewTables;
    ApplyRefines(t, op);
    assert PtCounted(t, all, c) && c * 0x200 < VPAGES;
    PtDepth(c);
    match op
    case AllocPage =>
    case Unmap(va) =>
    case Virtual(va, _, size) =>
      if Distance(va, c * 0x200) < PageCount(size) {
        RangeHasPt(va, PageCount(size), c * 0x200);
        DivUnique(c * 0x200, 0x200, c, 0);
      }
    case Identity(start, size) =>
      assert PtReplaced(t, Apply(t, op), c);
      NoPtInBlocks(start, Steps(size, BLOCK), c);
    case Framebuffer(start, size) =>
      assert PtReplaced(t, Apply(t, op), c);
      NoPtInBlocks(start, Steps(size, BLOCK), c);
  }

  lemma NoPtInBlocks(start: nat, n: nat, c: nat)
    ensures PtPath(c) !in BlockRangePaths(start, n)
  {
    PtDepth(c);
    if PtPath(c) in BlockRangePaths(start, n) { BlockRangeShallow(start, n, PtPath(c)); }
  }

  lemma CountedStep(t: Tables, all: set<Path>, op: Op)
    requires WF(t) && Counted(t, all) && Legal(t, op)
    ensures Counted(Apply(t, op), all + Touched(op))
    ensures |all + Touched(op)| == |all| + |Missing(t, Touched(op))|
  {
    hide WF, Node, PtPath, Translate, Apply, Missing, RangePaths, BlockRangePaths, NewTables, PtCounted, PtsReplaced;
    ApplyRefines(t, op);
    MissingIsNew(t, all, op);
    forall c: nat | c < VBLOCKS ensures PtCounted(Apply(t, op), all + Touched(op), c) {
      CountedPt(t, all, op, c);
    }
  }

  lemma BootCounted()
    ensures WF(Boot()) && Counted(Boot(), {}) && Boot().next == 0x5000
  {
    BootIsEmptyTree();
    forall p: Path ensures Node(Boot(), p).Some? <==> p == Root {
      BootNodes(p);
    }
  }

  lemma UsedStep(t: Tables, ops: seq<Op>)
    requires ops != []
    requires var before, op := ops[..|ops| - 1], ops[|ops| - 1];
      |AllTouched(before) + Touched(op)| == |AllTouched(before)| + |Missing(t, Touched(op))|
    ensures TablesUsed(ops) == TablesUsed(ops[..|ops| - 1]) + NewTables(t, ops[|ops| - 1])
  {
    assert Missing(t, {}) == {};
  }

  /** Exact cost of a run: one page for the PML4, one for each call of alloc_page, one for each position touched. */
  lemma {:induction false} RunCost(ops: seq<Op>)
    requires LegalRun(Boot(), ops)
    ensures var t := Run(Boot(), ops);
      WF(t) && Counted(t, AllTouched(ops)) && t.next == 0x4000 + TablesUsed(ops) * PAGE <= TABLE_LIMIT
  {
    hide WF, Apply, Counted, Missing, Touched, Boot;
    if ops == [] {
      BootCounted();
    } else {
      var before, op := ops[..|ops| - 1], ops[|ops| - 1];
      RunCost(before);
      var t := Run(Boot(), before);
      CountedStep(t, AllTouched(before), op);
      ApplyRefines(t, op);
      UsedStep(t, ops);
      assert (TablesUsed(before) + NewTables(t, op)) * PAGE == TablesUsed(before) * PAGE + NewTables(t, op) * PAGE;
    }
  }

  // ----- which runs stay below the page frames

  const MAX_TABLES: nat := 252  // pages from 0x4000 to TABLE_LIMIT

  /** A run that is legal on the flat map: no 4 KiB operation on a page that a 2 MiB leaf covers by then. */
  ghost predicate FlatLegal(ops: seq<Op>) {
    ops != [] ==> FlatLegal(ops[..|ops| - 1]) && Suits(ops[..|ops| - 1], ops[|ops| - 1])
  }

  ghost predicate Suits(before: seq<Op>, op: Op) {
    && (op.Virtual? ==> forall w: nat | w < VPAGES && Distance(op.va, w) < PageCount(op.size) ::
                          !RunEffect(before, w, Unmapped).Large2M?)
    && (op.Unmap? ==> !RunEffect(before, Vpn(op.va), Unmapped).Large2M?)
  }

  lemma SuitsIsNoClash(before: seq<Op>, op: Op)
    requires LegalRun(Boot(), before)
    ensures NoClash(Run(Boot(), before), op) <==> Suits(before, op)
  {
    hide WF, Translate, Run, RunEffect, LegalRun, Boot, Vpn, Distance;
    BootIsEmptyTree();
    RunRefinesFlatMap(Boot(), before);
  }

  lemma UsedGrows(ops: seq<Op>)
    requires ops != []
    ensures TablesUsed(ops[..|ops| - 1]) <= TablesUsed(ops)
  {
    hide Touched;
    SubsetSmaller(AllTouched(ops[..|ops| - 1]), AllTouched(ops));
  }

  /**
   Main result: a run of the mapping operations keeps its tables below the page frames exactly when
   the PML4, its calls of alloc_page and the distinct positions it passes through are at most 252.
   */
  lemma {:induction false} RunFitsExactlyWhen(ops: seq<Op>)
    ensures LegalRun(Boot(), ops) <==> FlatLegal(ops) && TablesUsed(ops) <= MAX_TABLES
  {
    hide Boot, NoClash, Suits, Counted, Missing, Touched, NewTables, WF;
    if ops == [] {
      BootCounted();
    } else {
      var before, op := ops[..|ops| - 1], ops[|ops| - 1];
      RunFitsExactlyWhen(before);
      UsedGrows(ops);
      if LegalRun(Boot(), before) {
        RunCost(before);
        SuitsIsNoClash(before, op);
        if NoClash(Run(Boot(), before), op) { LastFits(ops); }
      }
    }
  }

  lemma LastFits(ops: seq<Op>)
    requires ops != [] && LegalRun(Boot(), ops[..|ops| - 1]) && NoClash(Run(Boot(), ops[..|ops| - 1]), ops[|ops| - 1])
    ensures Legal(Run(Boot(), ops[..|ops| - 1]), ops[|ops| - 1]) <==> TablesUsed(ops) <= MAX_TABLES
  {
    hide Boot, NoClash, Counted, Missing, Touched, NewTables, WF;
    var before, op := ops[..|ops| - 1], ops[|ops| - 1];
    var t := Run(Boot(), before);
    RunCost(before);
    MissingIsNew(t, AllTouched(before), op);
    UsedStep(t, ops);
  }

  /** Table pages and the frames that palloc_page hands out never meet in a legal run. */
  lemma TablesClearOfFrames(ops: seq<Op>, p: Path, i: nat)
    requires LegalRun(Boot(), ops)
    ensures var t := Run(Boot(), ops); Node(t, p).Some? ==> Node(t, p).value + PAGE <= PhysPages.BASE + i * PAGE
  {
    TablesFormATree(ops, p, p, 0);
  }

  /** One page more: after 252 tables alloc_page returns, and clears, the page that palloc_page hands out first. */
  lemma NextTableIsFirstFrame(ops: seq<Op>, used: seq<bool>)
    requires LegalRun(Boot(), ops) && TablesUsed(ops) == MAX_TABLES
    requires |used| == PhysPages.TRACKED && !used[0]
    ensures Run(Boot(), ops).next == PhysPages.BASE
    ensures PhysPages.Pick(PhysPages.State(used, 0)) == Some(0)
  {
    hide Run, Boot, LegalRun, WF, Counted;
    RunCost(ops);
  }
}
