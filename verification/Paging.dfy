/**
 The four-level page tables of kernel/memory/paging.c as a value: a memory of
 512-entry tables keyed by physical address, the PML4 address and the bump pointer.
 The C masks and shifts are written as division and remainder; module Bits proves
 on 64-bit words that the two readings agree.
 */
module Paging {
  import opened Machine

  const ENTRIES: nat := 512
  const ADDR_LIMIT: nat := 0x10_0000_0000_0000  // 2^52, the width of a table address
  const VPAGES: nat := 0x10_0000_0000           // 2^36 4 KiB pages in the 48-bit space
  const VBLOCKS: nat := 0x800_0000              // 2^27 2 MiB blocks

  datatype Tables = Tables(mem: map<nat, seq<nat>>, root: nat, next: nat)

  // ----- entries

  predicate Present(e: nat) { e % 2 == 1 }

  predicate Large(e: nat) { e / 0x80 % 2 == 1 }

  /** e & 0x000FFFFFFFFFF000 */
  function Frame(e: nat): nat { e / PAGE % 0x100_0000_0000 * PAGE }

  /** e & 0xFFFFFFFFFFE00000 on a 64-bit word */
  function BlockBase(e: nat): nat { e / BLOCK * BLOCK }

  /** page | PAGE_PRESENT | PAGE_WRITABLE for a page-aligned address */
  function TableEntry(page: nat): nat { page + 3 }

  function SmallEntry(pa: nat): nat { Frame(pa) + 3 }

  /** (addr & 0xFFFFFFFFFFE00000) | flags, flags below bit 21 */
  function LargeEntry(addr: nat, flags: nat): nat { BlockBase(addr) + flags }

  const IDENTITY_FLAGS: nat := 0x83     // present, writable, large
  const FRAMEBUFFER_FLAGS: nat := 0x9B  // present, writable, large, PCD, PWT

  lemma EntryBits(a: nat)
    requires a % PAGE == 0 && a < ADDR_LIMIT
    ensures Present(TableEntry(a)) && !Large(TableEntry(a)) && Frame(TableEntry(a)) == a
    ensures TableEntry(a) < ADDR_LIMIT
  {
    var k := a / PAGE;
    DivMod(a, PAGE);
    DivUnique(a + 3, PAGE, k, 3);
    DivUnique(k, 0x100_0000_0000, 0, k);
    DivUnique(a + 3, 2, k * 0x800 + 1, 1);
    DivUnique(a + 3, 0x80, k * 0x20, 3);
    DivUnique(k * 0x20, 2, k * 0x10, 0);
  }

  lemma SmallEntryBits(pa: nat)
    ensures Present(SmallEntry(pa)) && Frame(SmallEntry(pa)) == Frame(pa)
    ensures pa % PAGE == 0 && pa < ADDR_LIMIT ==> Frame(pa) == pa
  {
    var f := pa / PAGE % 0x100_0000_0000;
    EntryBits(f * PAGE) by { DivUnique(f * PAGE, PAGE, f, 0); }
    if pa % PAGE == 0 && pa < ADDR_LIMIT {
      DivMod(pa, PAGE);
      DivUnique(pa / PAGE, 0x100_0000_0000, 0, pa / PAGE);
    }
  }

  lemma LargeEntryBits(a: nat, flags: nat)
    requires flags == IDENTITY_FLAGS || flags == FRAMEBUFFER_FLAGS
    ensures Present(LargeEntry(a, flags)) && Large(LargeEntry(a, flags))
    ensures BlockBase(LargeEntry(a, flags)) == BlockBase(a)
  {
    var k, e := a / BLOCK, LargeEntry(a, flags);
    assert e == k * BLOCK + flags;
    DivUnique(e, BLOCK, k, flags);
    DivUnique(e, 2, k * 0x10_0000 + flags / 2, 1);
    DivUnique(e, 0x80, k * 0x4000 + 1, flags - 0x80);
    DivUnique(k * 0x4000 + 1, 2, k * 0x2000, 1);
  }

  // ----- raw memory

  function Entry(t: Tables, a: nat, i: nat): nat {
    if a in t.mem && i < |t.mem[a]| then t.mem[a][i] else 0
  }

  function Put(t: Tables, a: nat, i: nat, e: nat): Tables {
    if a in t.mem && i < |t.mem[a]| then
      var row: seq<nat> := t.mem[a][i := e];
      t.(mem := t.mem[a := row])
    else t
  }

  function ZeroTable(): (s: seq<nat>)
    ensures |s| == ENTRIES && forall i | 0 <= i < ENTRIES :: s[i] == 0
  {
    seq(ENTRIES, _ => 0)
  }

  /** alloc_page: hand out the next page, cleared. */
  function Alloc(t: Tables): Tables {
    t.(mem := t.mem[t.next := ZeroTable()], next := t.next + PAGE)
  }

  // ----- the tree

  /** A position in the tree: the PML4, or slot idx of another table. */
  datatype Path = Root | Sub(up: Path, idx: nat) {
    function Depth(): nat { if Root? then 0 else 1 + up.Depth() }

    predicate Below(p: Path) { this == p || (Sub? && up.Below(p)) }
  }

  /** Does an entry in a table at this depth point to a further table? */
  predicate Pointer(depth: nat, e: nat) {
    depth < 3 && Present(e) && !(depth >= 1 && Large(e))
  }

  /** The table page that the hardware reaches by following a path. */
  function Node(t: Tables, p: Path): Option<nat> {
    match p
    case Root => Some(t.root)
    case Sub(up, i) =>
      match Node(t, up)
      case None => None
      case Some(a) =>
        if Pointer(up.Depth(), Entry(t, a, i)) then Some(Frame(Entry(t, a, i))) else None
  }

  ghost predicate TablePage(t: Tables, a: nat) {
    0 < a && a % PAGE == 0 && a + PAGE <= t.next && a in t.mem
  }

  predicate CleanEntry(depth: nat, e: nat) {
    && (Present(e) || e == 0)
    && (Present(e) && depth < 2 ==> !Large(e))
    && (Pointer(depth, e) ==> e < ADDR_LIMIT)
  }

  ghost predicate PagesAllocated(t: Tables) {
    && 0 < t.next <= ADDR_LIMIT && t.next % PAGE == 0
    && forall a | a in t.mem :: |t.mem[a]| == ENTRIES && a < t.next
  }

  ghost predicate NodesAreTables(t: Tables) {
    forall p: Path | Node(t, p).Some? :: TablePage(t, Node(t, p).value)
  }

  /** No table page is reached by two different paths. */
  ghost predicate OnePath(t: Tables) {
    forall p: Path, q: Path | Node(t, p).Some? && Node(t, p) == Node(t, q) :: p == q
  }

  ghost predicate EntriesClean(t: Tables) {
    forall p: Path, i: nat | Node(t, p).Some? :: CleanEntry(p.Depth(), Entry(t, Node(t, p).value, i))
  }

  /** The invariant of the mappers: the tables form a tree inside the allocated pages. */
  ghost predicate WF(t: Tables) {
    PagesAllocated(t) && NodesAreTables(t) && OnePath(t) && EntriesClean(t)
  }

  lemma {:induction false} NodeDepth(t: Tables, p: Path)
    requires Node(t, p).Some?
    ensures p.Depth() <= 3
  {
    if p.Sub? {
      NodeDepth(t, p.up);
    }
  }

  lemma {:induction false} SameEntries(t: Tables, u: Tables, p: Path)
    requires t.root == u.root && forall a, i :: Entry(t, a, i) == Entry(u, a, i)
    ensures Node(t, p) == Node(u, p)
  {
    if p.Sub? {
      SameEntries(t, u, p.up);
    }
  }

  lemma AllocKeeps(t: Tables)
    requires WF(t) && t.next + PAGE <= ADDR_LIMIT
    ensures WF(Alloc(t))
    ensures forall a, i :: Entry(Alloc(t), a, i) == Entry(t, a, i)
    ensures forall p :: Node(Alloc(t), p) == Node(t, p)
  {
    var u := Alloc(t);
    forall p ensures Node(u, p) == Node(t, p) {
      SameEntries(t, u, p);
    }
    forall p: Path, i: nat | Node(u, p).Some?
      ensures CleanEntry(p.Depth(), Entry(u, Node(u, p).value, i))
    {
      assert CleanEntry(p.Depth(), Entry(t, Node(t, p).value, i));
    }
  }

  lemma {:induction false} PutElsewhere(t: Tables, p: Path, i: nat, e: nat, q: Path)
    requires WF(t) && Node(t, p).Some?
    requires !q.Below(Sub(p, i))
    ensures Node(Put(t, Node(t, p).value, i, e), q) == Node(t, q)
  {
    if q.Sub? {
      PutElsewhere(t, p, i, e, q.up);
    }
  }

  lemma {:induction false} BelowCut(t: Tables, p: Path, q: Path)
    requires Node(t, p).None? && q.Below(p)
    ensures Node(t, q).None?
  {
    if q != p {
      BelowCut(t, p, q.up);
    }
  }

  lemma {:induction false} BelowIsDeeper(p: Path, q: Path)
    requires q.Below(p)
    ensures q.Depth() >= p.Depth()
  {
    if q != p {
      BelowIsDeeper(p, q.up);
    }
  }

  /** Writing an entry that is not a table pointer cuts the subtree of that slot and nothing else. */
  lemma PutLeaf(t: Tables, p: Path, i: nat, e: nat)
    requires WF(t) && Node(t, p).Some? && i < ENTRIES
    requires CleanEntry(p.Depth(), e) && !Pointer(p.Depth(), e)
    ensures var u := Put(t, Node(t, p).value, i, e);
      && WF(u)
      && forall q :: Node(u, q) == if q.Below(Sub(p, i)) then None else Node(t, q)
  {
    var a := Node(t, p).value;
    var u := Put(t, a, i, e);
    BelowIsDeeper(Sub(p, i), Sub(p, i));
    assert !p.Below(Sub(p, i)) by {
      if p.Below(Sub(p, i)) { BelowIsDeeper(Sub(p, i), p); }
    }
    PutElsewhere(t, p, i, e, p);
    assert Node(u, Sub(p, i)).None?;
    forall q ensures Node(u, q) == if q.Below(Sub(p, i)) then None else Node(t, q) {
      if q.Below(Sub(p, i)) {
        BelowCut(u, Sub(p, i), q);
      } else {
        PutElsewhere(t, p, i, e, q);
      }
    }
    forall q: Path, j: nat | Node(u, q).Some?
      ensures CleanEntry(q.Depth(), Entry(u, Node(u, q).value, j))
    {
      if Node(u, q).value == a && j == i {
        assert q == p;
      } else {
        assert CleanEntry(q.Depth(), Entry(t, Node(t, q).value, j));
      }
    }
  }

  // ----- growing the tree

  /** The `if not present, alloc_page and link it` step of the mappers. */
  function Ensure(t: Tables, a: nat, i: nat): Tables {
    if Present(Entry(t, a, i)) then t else Put(Alloc(t), a, i, TableEntry(t.next))
  }

  function Child(t: Tables, a: nat, i: nat): nat { Frame(Entry(t, a, i)) }

  /** Linking a cleared page into an empty slot adds exactly that node. */
  lemma LinkAddsNode(t: Tables, p: Path, i: nat)
    requires WF(t) && Node(t, p).Some? && p.Depth() < 3 && i < ENTRIES
    requires !Present(Entry(t, Node(t, p).value, i)) && t.next + PAGE <= ADDR_LIMIT
    ensures var u := Ensure(t, Node(t, p).value, i);
      forall q :: Node(u, q) == if q == Sub(p, i) then Some(t.next) else Node(t, q)
  {
    var a := Node(t, p).value;
    var m := Alloc(t);
    var u := Ensure(t, a, i);
    AllocKeeps(t);
    EntryBits(t.next);
    assert !p.Below(Sub(p, i)) by {
      if p.Below(Sub(p, i)) { BelowIsDeeper(Sub(p, i), p); }
    }
    PutElsewhere(m, p, i, TableEntry(t.next), p);
    assert Node(u, Sub(p, i)) == Some(t.next);
    assert Node(t, Sub(p, i)).None?;
    forall q ensures Node(u, q) == if q == Sub(p, i) then Some(t.next) else Node(t, q) {
      if !q.Below(Sub(p, i)) {
        PutElsewhere(m, p, i, TableEntry(t.next), q);
      } else if q != Sub(p, i) {
        BelowCut(t, Sub(p, i), q);
        UnderFreshTable(u, Sub(p, i), q);
      }
    }
  }

  lemma {:induction false} UnderFreshTable(u: Tables, p: Path, q: Path)
    requires Node(u, p).Some? && forall j :: Entry(u, Node(u, p).value, j) == 0
    requires q.Below(p) && q != p
    ensures Node(u, q).None?
  {
    if q.up != p {
      UnderFreshTable(u, p, q.up);
    }
  }

  lemma LinkedPages(t: Tables, a: nat, i: nat)
    requires PagesAllocated(t) && TablePage(t, a) && i < ENTRIES
    requires !Present(Entry(t, a, i)) && t.next + PAGE <= ADDR_LIMIT
    ensures var u := Ensure(t, a, i);
      && PagesAllocated(u) && TablePage(u, t.next) && !TablePage(t, t.next)
      && forall b | TablePage(t, b) :: TablePage(u, b)
  {
  }

  lemma LinkedClean(t: Tables, p: Path, i: nat, q: Path, j: nat)
    requires WF(t) && Node(t, p).Some? && p.Depth() < 3 && i < ENTRIES
    requires !Present(Entry(t, Node(t, p).value, i)) && t.next + PAGE <= ADDR_LIMIT
    requires Node(Ensure(t, Node(t, p).value, i), q).Some?
    ensures var u := Ensure(t, Node(t, p).value, i); CleanEntry(q.Depth(), Entry(u, Node(u, q).value, j))
  {
    LinkAddsNode(t, p, i);
    EntryBits(t.next);
    if q != Sub(p, i) {
      assert CleanEntry(q.Depth(), Entry(t, Node(t, q).value, j));
      assert Node(t, q) == Node(t, p) ==> q == p;
      assert TablePage(t, Node(t, q).value);
    }
    hide WF, Node, NodesAreTables, OnePath, EntriesClean;
  }

  lemma LinkKeepsWF(t: Tables, p: Path, i: nat)
    requires WF(t) && Node(t, p).Some? && p.Depth() < 3 && i < ENTRIES
    requires !Present(Entry(t, Node(t, p).value, i)) && t.next + PAGE <= ADDR_LIMIT
    ensures WF(Ensure(t, Node(t, p).value, i))
  {
    hide Node, CleanEntry, PagesAllocated, TablePage, Ensure;
    var a := Node(t, p).value;
    var u := Ensure(t, a, i);
    LinkAddsNode(t, p, i);
    LinkedPages(t, a, i);
    forall q: Path, j: nat | Node(u, q).Some?
      ensures CleanEntry(q.Depth(), Entry(u, Node(u, q).value, j))
    {
      LinkedClean(t, p, i, q, j);
    }
  }

  // ----- what the hardware sees

  datatype Mapping = Unmapped | Small(pte: nat) | Large2M(pde: nat)

  /** The page directory responsible for 2 MiB block b, and its page table. */
  function PdPath(b: nat): Path { Sub(Sub(Root, b / 0x4_0000), b / 0x200 % 0x200) }

  function PtPath(b: nat): Path { Sub(PdPath(b), b % 0x200) }

  /** The page walk of the Intel SDM, volume 3A, section 4.5, for virtual page v. */
  function Translate(t: Tables, v: nat): Mapping {
    match Node(t, PtPath(v / 0x200))
    case Some(pt) =>
      if Present(Entry(t, pt, v % 0x200)) then Small(Entry(t, pt, v % 0x200)) else Unmapped
    case None =>
      match Node(t, PdPath(v / 0x200))
      case Some(pd) =>
        var e := Entry(t, pd, v / 0x200 % 0x200);
        if Present(e) && Large(e) then Large2M(e) else Unmapped
      case None => Unmapped
  }

  lemma PathsDiffer(b: nat, c: nat)
    requires b < VBLOCKS && c < VBLOCKS
    ensures PtPath(b) == PtPath(c) ==> b == c
  {
    DivMod(b, 0x200);
    DivMod(c, 0x200);
    DivMod(b / 0x200, 0x200);
    DivMod(c / 0x200, 0x200);
    DivDiv(b, 0x200, 0x200);
    DivDiv(c, 0x200, 0x200);
  }

  lemma EnsureKeeps(t: Tables, p: Path, i: nat)
    requires WF(t) && Node(t, p).Some? && p.Depth() < 3 && i < ENTRIES
    requires t.next + PAGE <= ADDR_LIMIT
    requires !(p.Depth() == 2 && Large(Entry(t, Node(t, p).value, i)))
    ensures var u := Ensure(t, Node(t, p).value, i);
      && WF(u) && t.next <= u.next <= t.next + PAGE
      && Node(u, Sub(p, i)) == Some(Child(u, Node(t, p).value, i))
      && (forall q | Node(t, q).Some? :: Node(u, q) == Node(t, q))
      && (forall v :: Translate(u, v) == Translate(t, v))
  {
    var a := Node(t, p).value;
    var u := Ensure(t, a, i);
    SlotHoldsTable(t, p, i);
    if !Present(Entry(t, a, i)) {
      LinkKeepsWF(t, p, i);
      LinkAddsNode(t, p, i);
      EntryBits(t.next);
      forall v ensures Translate(u, v) == Translate(t, v) {
        LinkIsInvisible(t, p, i, v);
      }
    }
  }

  lemma LinkIsInvisible(t: Tables, p: Path, i: nat, v: nat)
    requires WF(t) && Node(t, p).Some? && p.Depth() < 3 && i < ENTRIES
    requires !Present(Entry(t, Node(t, p).value, i)) && t.next + PAGE <= ADDR_LIMIT
    ensures Translate(Ensure(t, Node(t, p).value, i), v) == Translate(t, v)
  {
    var a := Node(t, p).value;
    LinkAddsNode(t, p, i);
    assert Node(t, Sub(p, i)).None?;
    assert forall q: Path | Node(t, q).Some? :: TablePage(t, Node(t, q).value);
    assert OnePath(t) && |t.mem[a]| == ENTRIES;
    hide WF, Node, Translate, Present;
    LinkInvisibleAt(t, Ensure(t, a, i), p, i, v);
  }

  /** Linking changes slot i of table a only, and the new table is empty. */
  lemma LinkedEntry(t: Tables, a: nat, i: nat, x: nat, j: nat)
    requires a in t.mem && |t.mem[a]| == ENTRIES && i < ENTRIES && a != t.next
    ensures var u := Put(Alloc(t), a, i, TableEntry(t.next));
      && Entry(u, t.next, j) == 0
      && (x != t.next && !(x == a && j == i) ==> Entry(u, x, j) == Entry(t, x, j))
  {
  }

  lemma LinkInvisibleAt(t: Tables, u: Tables, p: Path, i: nat, v: nat)
    requires OnePath(t) && (forall q: Path | Node(t, q).Some? :: TablePage(t, Node(t, q).value))
    requires Node(t, p).Some? && p.Depth() < 3 && i < ENTRIES && Node(t, Sub(p, i)).None?
    requires var a := Node(t, p).value;
      a in t.mem && |t.mem[a]| == ENTRIES && !Present(Entry(t, a, i)) && u == Put(Alloc(t), a, i, TableEntry(t.next))
    requires forall q :: Node(u, q) == if q == Sub(p, i) then Some(t.next) else Node(t, q)
    ensures Translate(u, v) == Translate(t, v)
  {
    var p2, p3, a := PdPath(v / 0x200), PtPath(v / 0x200), Node(t, p).value;
    PtDepth(v / 0x200);
    forall q: Path | Node(t, q).Some? ensures (Node(t, q) == Node(t, p) <==> q == p) && Node(t, q).value < t.next {
      assert TablePage(t, Node(t, q).value);
    }
    assert p3 == Sub(p, i) <==> p2 == p && i == v / 0x200 % 0x200;
    if Node(t, p3).Some? { LinkedEntry(t, a, i, Node(t, p3).value, v % 0x200); }
    if Node(t, p2).Some? { LinkedEntry(t, a, i, Node(t, p2).value, v / 0x200 % 0x200); }
    LinkedEntry(t, a, i, 0, v % 0x200);
    LinkedEntry(t, a, i, 0, v / 0x200 % 0x200);
    hide OnePath, TablePage, Node, PdPath, PtPath, Entry, Put, Alloc, TableEntry, Large, Present;
    assert !Present(0) by { NotPresent(); }
  }

  lemma NotPresent()
    ensures !Present(0)
  {
  }

  // ----- how many tables

  /** Where the page frames of palloc_page begin: table pages must stay below. */
  const TABLE_LIMIT: nat := 0x10_0000

  /** The positions of ps that have no table yet. */
  ghost function Missing(t: Tables, ps: set<Path>): set<Path> {
    set p | p in ps && Node(t, p).None?
  }

  /** Is there room below the page frames for one table at each missing position? */
  ghost predicate Affords(t: Tables, ps: set<Path>) {
    t.next + |Missing(t, ps)| * PAGE <= TABLE_LIMIT
  }

  ghost predicate NoDeeper(ps: set<Path>, depth: nat) { forall q | q in ps :: q.Depth() <= depth }

  /** u has, down to this depth, the tables of t and those at ps, and each missing one cost one page. */
  ghost predicate Grown(t: Tables, u: Tables, ps: set<Path>, depth: nat) {
    && NoDeeper(ps, depth) && u.next == t.next + |Missing(t, ps)| * PAGE
    && forall q: Path | q.Depth() <= depth :: Node(u, q).Some? <==> Node(t, q).Some? || q in ps
  }

  lemma NothingGrown(t: Tables)
    ensures Grown(t, t, {}, 3) && Grown(t, t, {}, 2)
  {
    assert Missing(t, {}) == {};
  }

  lemma GrownAffords(t: Tables, u: Tables, ps: set<Path>, depth: nat)
    requires Grown(t, u, ps, depth) && Affords(t, ps)
    ensures t.next <= u.next <= TABLE_LIMIT
  {
  }

  lemma GrownThen(t: Tables, m: Tables, u: Tables, a: set<Path>, b: set<Path>, depth: nat)
    requires Grown(t, m, a, depth) && Grown(m, u, b, depth)
    ensures Grown(t, u, a + b, depth)
  {
    hide Node;
    var now, later := Missing(t, a), Missing(m, b);
    assert Missing(t, a + b) == now + later && now !! later;
    assert |now + later| == |now| + |later|;
  }

  lemma {:induction false} SubsetSmaller<T>(a: set<T>, b: set<T>)
    requires a <= b
    ensures |a| <= |b|
    decreases a
  {
    if a != {} {
      var x :| x in a;
      SubsetSmaller(a - {x}, b - {x});
    }
  }

  /** Fewer positions cost no more. */
  lemma AffordsLess(t: Tables, a: set<Path>, b: set<Path>)
    requires Affords(t, b) && a <= b
    ensures Affords(t, a)
  {
    hide Node;
    SubsetSmaller(Missing(t, a), Missing(t, b));
    MulMonotone(|Missing(t, a)|, |Missing(t, b)|, PAGE);
  }

  /** What was affordable together is affordable after its first part. */
  lemma AffordsRest(t: Tables, m: Tables, a: set<Path>, b: set<Path>)
    requires Grown(t, m, a, 3) && Affords(t, a + b) && NoDeeper(b, 3)
    ensures Affords(m, b)
  {
    hide Node;
    var now, later := Missing(t, a), Missing(m, b);
    assert Missing(t, a + b) == now + later && now !! later;
    assert |now + later| == |now| + |later|;
  }

  lemma PagePathsDepth(v: nat)
    ensures NoDeeper(PagePaths(v), 3)
  {
    PtDepth(v / 0x200);
    assert Sub(Root, v / 0x200 / 0x4_0000).Depth() == 1;
  }

  /** A change that leaves the bump pointer and the positions of the tables alone. */
  ghost predicate SameTables(t: Tables, u: Tables, depth: nat) {
    u.next == t.next && forall q: Path | q.Depth() <= depth :: Node(u, q).Some? <==> Node(t, q).Some?
  }

  lemma GrownSame(t: Tables, m: Tables, u: Tables, ps: set<Path>, depth: nat)
    requires Grown(t, m, ps, depth) && SameTables(m, u, depth)
    ensures Grown(t, u, ps, depth)
  {
    hide Node;
  }

  lemma GrownShallower(t: Tables, u: Tables, ps: set<Path>)
    requires Grown(t, u, ps, 3) && NoDeeper(ps, 2)
    ensures Grown(t, u, ps, 2)
  {
    hide Node;
  }

  /** A slot that does not hold a large leaf points to a table exactly when it is present. */
  lemma SlotHoldsTable(t: Tables, p: Path, i: nat)
    requires EntriesClean(t) && Node(t, p).Some? && p.Depth() < 3
    requires !(p.Depth() == 2 && Large(Entry(t, Node(t, p).value, i)))
    ensures Node(t, Sub(p, i)).Some? <==> Present(Entry(t, Node(t, p).value, i))
  {
    assert CleanEntry(p.Depth(), Entry(t, Node(t, p).value, i));
  }

  lemma EnsureGrown(t: Tables, p: Path, i: nat)
    requires WF(t) && Node(t, p).Some? && p.Depth() < 3 && i < ENTRIES
    requires t.next + PAGE <= ADDR_LIMIT
    requires !(p.Depth() == 2 && Large(Entry(t, Node(t, p).value, i)))
    ensures Grown(t, Ensure(t, Node(t, p).value, i), {Sub(p, i)}, 3)
  {
    hide Node, Present, Large, Entry, PagesAllocated, NodesAreTables, OnePath, EntriesClean;
    var a, q := Node(t, p).value, Sub(p, i);
    SlotHoldsTable(t, p, i);
    if Present(Entry(t, a, i)) {
      assert Missing(t, {q}) == {};
    } else {
      LinkAddsNode(t, p, i);
      assert Missing(t, {q}) == {q};
    }
  }

  /** The tables above the leaf of a 2 MiB block, and those above the leaf of a 4 KiB page. */
  function BlockPaths(b: nat): set<Path> { {Sub(Root, b / 0x4_0000), PdPath(b)} }

  function PagePaths(v: nat): set<Path> { BlockPaths(v / 0x200) + {PtPath(v / 0x200)} }

  /** The two steps every mapper shares: make sure the page directory of block b exists. */
  function GrowToPd(t: Tables, b: nat): (Tables, nat) {
    var t1 := Ensure(t, t.root, b / 0x4_0000);
    var pdpt := Child(t1, t.root, b / 0x4_0000);
    var t2 := Ensure(t1, pdpt, b / 0x200 % 0x200);
    (t2, Child(t2, pdpt, b / 0x200 % 0x200))
  }

  lemma GrowToPdKeeps(t: Tables, b: nat)
    requires WF(t) && b < VBLOCKS && t.next + 2 * PAGE <= ADDR_LIMIT
    ensures var (u, pd) := GrowToPd(t, b);
      && WF(u) && t.next <= u.next <= t.next + 2 * PAGE && u.root == t.root
      && Node(u, PdPath(b)) == Some(pd) && Grown(t, u, BlockPaths(b), 3)
      && forall v :: Translate(u, v) == Translate(t, v)
  {
    hide WF, Translate, Grown;
    var i, j := b / 0x4_0000, b / 0x200 % 0x200;
    var t1 := Ensure(t, t.root, i);
    assert Node(t, Root) == Some(t.root);
    EnsureKeeps(t, Root, i);
    EnsureGrown(t, Root, i);
    EnsureKeeps(t1, Sub(Root, i), j);
    EnsureGrown(t1, Sub(Root, i), j);
    GrownThen(t, t1, GrowToPd(t, b).0, {Sub(Root, i)}, {PdPath(b)}, 3);
    assert {Sub(Root, i)} + {PdPath(b)} == BlockPaths(b);
  }

  // ----- one 4 KiB page (the body of the loop in map_virtual)

  function GrowToPt(t: Tables, b: nat): (Tables, nat) {
    var (t2, pd) := GrowToPd(t, b);
    var t3 := Ensure(t2, pd, b % 0x200);
    (t3, Child(t3, pd, b % 0x200))
  }

  lemma GrowToPtKeeps(t: Tables, v: nat)
    requires WF(t) && v < VPAGES && t.next + 3 * PAGE <= ADDR_LIMIT && !Translate(t, v).Large2M?
    ensures var (u, pt) := GrowToPt(t, v / 0x200);
      && WF(u) && t.next <= u.next <= t.next + 3 * PAGE && u.root == t.root
      && Node(u, PtPath(v / 0x200)) == Some(pt) && Grown(t, u, PagePaths(v), 3)
      && forall w :: Translate(u, w) == Translate(t, w)
  {
    var b := v / 0x200;
    GrowToPdKeeps(t, b);
    var (t2, pd) := GrowToPd(t, b);
    SlotIsFree(t2, v);
    hide WF, Translate, Grown;
    EnsureKeeps(t2, PdPath(b), b % 0x200);
    EnsureGrown(t2, PdPath(b), b % 0x200);
    GrownThen(t, t2, GrowToPt(t, b).0, BlockPaths(b), {PtPath(b)}, 3);
  }

  /** The directory slot of a page that is not in a 2 MiB block holds no large leaf. */
  lemma SlotIsFree(t: Tables, v: nat)
    requires WF(t) && v < VPAGES && !Translate(t, v).Large2M? && Node(t, PdPath(v / 0x200)).Some?
    ensures PdPath(v / 0x200).Depth() == 2
    ensures !Large(Entry(t, Node(t, PdPath(v / 0x200)).value, v / 0x200 % 0x200))
  {
    NotLargeSlot(t, v);
    PtDepth(v / 0x200);
    assert CleanEntry(2, Entry(t, Node(t, PdPath(v / 0x200)).value, v / 0x200 % 0x200));
  }

  function MapPage(t: Tables, v: nat, pte: nat): Tables {
    var (u, pt) := GrowToPt(t, v / 0x200);
    Put(u, pt, v % 0x200, pte)
  }

  lemma NotLargeSlot(t: Tables, v: nat)
    requires WF(t) && v < VPAGES && !Translate(t, v).Large2M?
    requires Node(t, PdPath(v / 0x200)).Some?
    ensures var e := Entry(t, Node(t, PdPath(v / 0x200)).value, v / 0x200 % 0x200);
      Present(e) ==> !Large(e)
  {
  }

  lemma WritePte(t: Tables, v: nat, e: nat)
    requires WF(t) && v < VPAGES && Node(t, PtPath(v / 0x200)).Some?
    requires Present(e) || e == 0
    ensures var u := Put(t, Node(t, PtPath(v / 0x200)).value, v % 0x200, e);
      && WF(u)
      && (forall q :: Node(u, q) == Node(t, q))
      && forall w: nat | w < VPAGES ::
           Translate(u, w) == if w != v then Translate(t, w) else if e == 0 then Unmapped else Small(e)
  {
    var p := PtPath(v / 0x200);
    var u := Put(t, Node(t, p).value, v % 0x200, e);
    PtDepth(v / 0x200);
    PutLeaf(t, p, v % 0x200, e);
    assert TablePage(t, Node(t, p).value) && |t.mem[Node(t, p).value]| == ENTRIES;
    assert OnePath(t);
    hide WF, Node, PtPath, PdPath, Translate, Present;
    forall q ensures Node(u, q) == Node(t, q) {
      if q.Below(Sub(p, v % 0x200)) {
        BelowIsDeeper(Sub(p, v % 0x200), q);
        if Node(t, q).Some? { NodeDepth(t, q); }
      }
    }
    forall w: nat | w < VPAGES
      ensures Translate(u, w) == if w != v then Translate(t, w) else if e == 0 then Unmapped else Small(e)
    {
      WritePteAt(t, u, v, e, w);
    }
  }

  lemma PtDepth(b: nat)
    ensures PtPath(b).Depth() == 3 && PdPath(b).Depth() == 2
  {
    assert Sub(Root, b / 0x4_0000).Depth() == 1;
  }

  lemma WritePteAt(t: Tables, u: Tables, v: nat, e: nat, w: nat)
    requires OnePath(t) && v < VPAGES && w < VPAGES && Node(t, PtPath(v / 0x200)).Some? && (Present(e) || e == 0)
    requires forall q :: Node(u, q) == Node(t, q)
    requires var a := Node(t, PtPath(v / 0x200)).value; a in t.mem && |t.mem[a]| == ENTRIES && u == Put(t, a, v % 0x200, e)
    ensures Translate(u, w) == if w != v then Translate(t, w) else if e == 0 then Unmapped else Small(e)
  {
    var p, q, r := PtPath(v / 0x200), PtPath(w / 0x200), PdPath(w / 0x200);
    PtDepth(w / 0x200);
    PtDepth(v / 0x200);
    PathsDiffer(v / 0x200, w / 0x200);
    assert Node(t, r).Some? ==> Node(t, r) != Node(t, p);
    hide Node, PtPath, PdPath, Present, Large;
    DivMod(v, 0x200);
    DivMod(w, 0x200);
  }

  /** Mapping one page changes the translation of that page and of no other. */
  lemma MapPageIsFlatUpdate(t: Tables, v: nat, pte: nat)
    requires WF(t) && v < VPAGES && Present(pte)
    requires !Translate(t, v).Large2M? && t.next + 3 * PAGE <= ADDR_LIMIT
    ensures var u := MapPage(t, v, pte);
      && WF(u) && u.root == t.root && Grown(t, u, PagePaths(v), 3)
      && forall w: nat | w < VPAGES :: Translate(u, w) == if w == v then Small(pte) else Translate(t, w)
  {
    hide WF, Translate, Grown, Node, PagePaths, PtPath;
    GrowToPtKeeps(t, v);
    var m := GrowToPt(t, v / 0x200).0;
    WritePte(m, v, pte);
    GrownSame(t, m, MapPage(t, v, pte), PagePaths(v), 3);
  }

  // ----- one 2 MiB block (the body of the loops in map_identity and map_framebuffer)

  function MapBlock(t: Tables, b: nat, pde: nat): Tables {
    var (u, pd) := GrowToPd(t, b);
    Put(u, pd, b % 0x200, pde)
  }

  lemma WritePde(t: Tables, b: nat, e: nat)
    requires WF(t) && b < VBLOCKS && Node(t, PdPath(b)).Some?
    requires Present(e) && Large(e)
    ensures var u := Put(t, Node(t, PdPath(b)).value, b % 0x200, e);
      && WF(u) && SameTables(t, u, 2)
      && (forall c: nat | c < VBLOCKS :: Node(u, PtPath(c)) == if c == b then None else Node(t, PtPath(c)))
      && forall w: nat | w < VPAGES ::
           Translate(u, w) == if w / 0x200 == b then Large2M(e) else Translate(t, w)
  {
    var p := PdPath(b);
    var u := Put(t, Node(t, p).value, b % 0x200, e);
    PtDepth(b);
    PutLeaf(t, p, b % 0x200, e);
    assert TablePage(t, Node(t, p).value) && |t.mem[Node(t, p).value]| == ENTRIES;
    assert OnePath(t);
    hide WF, Node, Translate, Present, Large;
    forall c: nat | c < VBLOCKS
      ensures Node(u, PtPath(c)) == if c == b then None else Node(t, PtPath(c))
      ensures Node(u, PdPath(c)) == Node(t, PdPath(c))
    {
      PathsBelow(b, c);
    }
    forall q: Path | q.Depth() <= 2 ensures Node(u, q) == Node(t, q) {
      if q.Below(PtPath(b)) { BelowIsDeeper(PtPath(b), q); }
    }
    forall w: nat | w < VPAGES
      ensures Translate(u, w) == if w / 0x200 == b then Large2M(e) else Translate(t, w)
    {
      WritePdeAt(t, u, b, e, w);
    }
  }

  lemma WritePdeAt(t: Tables, u: Tables, b: nat, e: nat, w: nat)
    requires OnePath(t) && b < VBLOCKS && w < VPAGES && Node(t, PdPath(b)).Some? && Present(e) && Large(e)
    requires forall c: nat | c < VBLOCKS ::
      Node(u, PtPath(c)) == (if c == b then None else Node(t, PtPath(c))) && Node(u, PdPath(c)) == Node(t, PdPath(c))
    requires var a := Node(t, PdPath(b)).value; a in t.mem && |t.mem[a]| == ENTRIES && u == Put(t, a, b % 0x200, e)
    ensures Translate(u, w) == if w / 0x200 == b then Large2M(e) else Translate(t, w)
  {
    var c := w / 0x200;
    PathsDiffer(b, c);
    PtDepth(b);
    PtDepth(c);
    assert Node(t, PtPath(c)).Some? ==> Node(t, PtPath(c)) != Node(t, PdPath(b));
    assert PdPath(c) == PdPath(b) && c % 0x200 == b % 0x200 ==> c == b;
    hide Node, PtPath, PdPath, Present, Large;
  }

  lemma PathsBelow(b: nat, c: nat)
    requires b < VBLOCKS && c < VBLOCKS
    ensures !PdPath(c).Below(PtPath(b)) && (PtPath(c).Below(PtPath(b)) <==> b == c)
  {
    PathsDiffer(b, c);
    PtDepth(b);
    PtDepth(c);
    if PdPath(c).Below(PtPath(b)) { BelowIsDeeper(PtPath(b), PdPath(c)); }
    assert PtPath(c).Below(PtPath(b)) <==> PtPath(c) == PtPath(b) || PdPath(c).Below(PtPath(b));
  }

  /** Of the page tables, exactly the one of block b is gone. */
  ghost predicate PtCut(t: Tables, u: Tables, b: nat) {
    forall c: nat | c < VBLOCKS :: Node(u, PtPath(c)).Some? <==> Node(t, PtPath(c)).Some? && c != b
  }

  /** Mapping one block makes its 512 pages one large page and changes no other translation. */
  lemma MapBlockIsFlatUpdate(t: Tables, b: nat, pde: nat)
    requires WF(t) && b < VBLOCKS && Present(pde) && Large(pde)
    requires t.next + 2 * PAGE <= ADDR_LIMIT
    ensures var u := MapBlock(t, b, pde);
      && WF(u) && u.root == t.root && Grown(t, u, BlockPaths(b), 2) && PtCut(t, u, b)
      && forall w: nat | w < VPAGES ::
           Translate(u, w) == if w / 0x200 == b then Large2M(pde) else Translate(t, w)
  {
    hide WF, Translate, Grown, SameTables, BlockPaths;
    GrowToPdKeeps(t, b);
    var m, u := GrowToPd(t, b).0, MapBlock(t, b, pde);
    WritePde(m, b, pde);
    ShallowBlock(b);
    GrownShallower(t, m, BlockPaths(b));
    GrownSame(t, m, u, BlockPaths(b), 2);
    forall c: nat | c < VBLOCKS ensures Node(u, PtPath(c)).Some? <==> Node(t, PtPath(c)).Some? && c != b {
      GrownPt(t, m, b, c);
    }
  }

  lemma ShallowBlock(b: nat)
    ensures NoDeeper(BlockPaths(b), 2)
  {
    assert Sub(Root, b / 0x4_0000).Depth() == 1;
  }

  lemma GrownPt(t: Tables, m: Tables, b: nat, c: nat)
    requires Grown(t, m, BlockPaths(b), 3)
    ensures Node(m, PtPath(c)).Some? <==> Node(t, PtPath(c)).Some?
  {
    ShallowBlock(b);
    PtDepth(c);
  }
}
