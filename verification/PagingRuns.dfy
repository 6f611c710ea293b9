/** Whole runs of the mapping operations: the tree stays a tree and acts as a flat page map. */
module PagingRuns {
  import opened Machine
  import opened Paging
  import opened PagingOps

  datatype Op =
    | AllocPage
    | Virtual(va: nat, pa: nat, size: nat)
    | Identity(start: nat, size: nat)
    | Framebuffer(start: nat, size: nat)
    | Unmap(va: nat)

  function Apply(t: Tables, op: Op): Tables {
    match op
    case AllocPage => Alloc(t)
    case Virtual(va, pa, size) => MapVirtual(t, va, pa, size)
    case Identity(start, size) => MapIdentity(t, start, size)
    case Framebuffer(start, size) => MapFramebuffer(t, start, size)
    case Unmap(va) => UnmapPage(t, va)
  }

  /** The positions in the tree that an operation passes through; it leaves a table at each of them. */
  function Touched(op: Op): set<Path> {
    match op
    case Virtual(va, _, size) => RangePaths(va, PageCount(size))
    case Identity(start, size) => BlockRangePaths(start, Steps(size, BLOCK))
    case Framebuffer(start, size) => BlockRangePaths(start, Steps(size, BLOCK))
    case _ => {}
  }

  /** How deep the tables go that an operation may add or take away. */
  function Reach(op: Op): nat { if op.Identity? || op.Framebuffer? then 2 else 3 }

  /** The pages that an operation takes from the bump allocator. */
  ghost function NewTables(t: Tables, op: Op): nat {
    if op.AllocPage? then 1 else |Missing(t, Touched(op))|
  }

  /** No 4 KiB operation meets a 2 MiB leaf. */
  ghost predicate NoClash(t: Tables, op: Op) {
    && (op.Virtual? ==> NoLargeIn(t, op.va, PageCount(op.size)))
    && (op.Unmap? ==> !Translate(t, Vpn(op.va)).Large2M?)
  }

  /** What the code assumes of a call: besides, the tables it adds stay below the page frames of palloc_page. */
  ghost predicate Legal(t: Tables, op: Op) {
    NoClash(t, op) && t.next + NewTables(t, op) * PAGE <= TABLE_LIMIT
  }

  /** What one operation does to virtual page w of a flat map. */
  function Effect(op: Op, w: nat, m: Mapping): Mapping {
    match op
    case AllocPage => m
    case Virtual(va, pa, size) => PagesEffect(m, va, pa, PageCount(size), w)
    case Identity(start, size) => BlocksEffect(m, start, Steps(size, BLOCK), IDENTITY_FLAGS, w)
    case Framebuffer(start, size) => BlocksEffect(m, start, Steps(size, BLOCK), FRAMEBUFFER_FLAGS, w)
    case Unmap(va) => if w == Vpn(va) then Unmapped else m
  }

  /** One operation: the tree invariant, the exact number of new tables, and the effect on the flat map. */
  lemma ApplyRefines(t: Tables, op: Op)
    requires WF(t) && Legal(t, op)
    ensures var u := Apply(t, op);
      && WF(u) && u.root == t.root && u.next == t.next + NewTables(t, op) * PAGE
      && (op.AllocPage? || Grown(t, u, Touched(op), Reach(op)))
      && (op.AllocPage? || op.Unmap? ==> SameNodes(t, u))
      && (op.Identity? || op.Framebuffer? ==> PtsReplaced(t, u))
      && forall w: nat | w < VPAGES :: Translate(u, w) == Effect(op, w, Translate(t, w))
  {
    match op
    case AllocPage =>
      AllocKeeps(t);
    case Virtual(va, pa, size) =>
      hide WF, Translate;
      MapPagesRefines(t, va, pa, PageCount(size));
    case Identity(start, size) =>
      hide WF, Translate, PtsReplaced;
      MapBlocksRefines(t, start, Steps(size, BLOCK), IDENTITY_FLAGS);
    case Framebuffer(start, size) =>
      hide WF, Translate, PtsReplaced;
      MapBlocksRefines(t, start, Steps(size, BLOCK), FRAMEBUFFER_FLAGS);
    case Unmap(va) =>
      UnmapKeepsTables(t, va);
  }

  ghost predicate SameNodes(t: Tables, u: Tables) {
    forall q: Path | q.Depth() <= 3 :: Node(u, q).Some? <==> Node(t, q).Some?
  }

  lemma UnmapKeepsTables(t: Tables, va: nat)
    requires WF(t) && !Translate(t, Vpn(va)).Large2M?
    ensures var u := UnmapPage(t, va);
      && WF(u) && u.root == t.root && u.next == t.next && |Missing(t, {})| == 0
      && Grown(t, u, {}, 3) && SameNodes(t, u)
      && forall w: nat | w < VPAGES :: Translate(u, w) == if w == Vpn(va) then Unmapped else Translate(t, w)
  {
    hide WF, Translate, Node, UnmapPage;
    UnmapPageRemovesOne(t, va);
    assert Missing(t, {}) == {};
  }

  // ----- runs

  function Run(t: Tables, ops: seq<Op>): Tables {
    if ops == [] then t else Apply(Run(t, ops[..|ops| - 1]), ops[|ops| - 1])
  }

  ghost predicate LegalRun(t: Tables, ops: seq<Op>) {
    ops != [] ==> LegalRun(t, ops[..|ops| - 1]) && Legal(Run(t, ops[..|ops| - 1]), ops[|ops| - 1])
  }

  function RunEffect(ops: seq<Op>, w: nat, m: Mapping): Mapping {
    if ops == [] then m else Effect(ops[|ops| - 1], w, RunEffect(ops[..|ops| - 1], w, m))
  }

  /** Every legal run keeps the tree invariant and refines the same run on a flat map. */
  lemma {:induction false} RunRefinesFlatMap(t: Tables, ops: seq<Op>)
    requires WF(t) && LegalRun(t, ops)
    ensures WF(Run(t, ops)) && Run(t, ops).root == t.root
    ensures t.next <= Run(t, ops).next && (t.next <= TABLE_LIMIT ==> Run(t, ops).next <= TABLE_LIMIT)
    ensures forall w: nat | w < VPAGES :: Translate(Run(t, ops), w) == RunEffect(ops, w, Translate(t, w))
  {
    hide WF, Translate, Apply, Effect, Grown, SameNodes, PtsReplaced, NewTables;
    if ops != [] {
      RunRefinesFlatMap(t, ops[..|ops| - 1]);
      ApplyRefines(Run(t, ops[..|ops| - 1]), ops[|ops| - 1]);
    }
  }

  /** The state init_paging starts from: one cleared PML4 and a bump pointer behind it. */
  function Boot(): Tables {
    Alloc(Tables(map[], 0x4000, 0x4000))
  }

  lemma {:induction false} BootNodes(p: Path)
    ensures Node(Boot(), p) == if p == Root then Some(0x4000) else None
  {
    if p.Sub? {
      BootNodes(p.up);
    }
  }

  lemma BootIsEmptyTree()
    ensures WF(Boot()) && forall w :: Translate(Boot(), w) == Unmapped
  {
    forall p ensures Node(Boot(), p) == if p == Root then Some(0x4000) else None {
      BootNodes(p);
    }
  }

  /** Spelled out: after any legal run from boot the reachable table pages form a tree below the page frames. */
  lemma TablesFormATree(ops: seq<Op>, p: Path, q: Path, i: nat)
    requires LegalRun(Boot(), ops)
    ensures var t := Run(Boot(), ops);
      Node(t, p).Some? ==>
        && var a := Node(t, p).value;
        && a % PAGE == 0 && 0 < a && a + PAGE <= t.next <= TABLE_LIMIT
        && (Node(t, q) == Some(a) ==> p == q)
        && (!Present(Entry(t, a, i)) ==> Entry(t, a, i) == 0)
  {
    BootIsEmptyTree();
    RunRefinesFlatMap(Boot(), ops);
    var t := Run(Boot(), ops);
    if Node(t, p).Some? {
      assert TablePage(t, Node(t, p).value);
      assert CleanEntry(p.Depth(), Entry(t, Node(t, p).value, i));
    }
  }

  /** Spelled out: after any legal run from boot a page's translation is what the flat run leaves there. */
  lemma TablesActAsFlatMap(ops: seq<Op>, va: nat)
    requires LegalRun(Boot(), ops)
    ensures var m := RunEffect(ops, Vpn(va), Unmapped);
            var t := Run(Boot(), ops);
      && (m.Unmapped? ==> GetPhysicalAddress(t, va) == 0)
      && (m.Small? ==> GetPhysicalAddress(t, va) == Frame(m.pte) + va % PAGE)
      && (m.Large2M? ==> VirtToPhys(t, va) == BlockBase(m.pde) + va % BLOCK)
  {
    BootIsEmptyTree();
    RunRefinesFlatMap(Boot(), ops);
    var t := Run(Boot(), ops);
    hide WF, Translate, GetPhysicalAddress, VirtToPhys, Vpn;
    if Translate(t, Vpn(va)).Large2M? {
      VirtToPhysOfLarge(t, va);
    } else {
      GetPhysicalAddressIsTranslation(t, va);
    }
  }
}
