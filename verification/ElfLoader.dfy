/** Elf64Load of fs/ext/elf.c: page frames from palloc_page, an abstract user mapper, copy into the image. */
module ElfLoaderCode {
  import opened Machine
  import opened FatDisk
  import opened ElfImage
  import PhysPages
  import opened PhysAllocatorCode

  const STATUS_OK: nat := 1
  const STATUS_FAIL: nat := 0

  type PageMap = map<nat, Page>
  type Memory = map<nat, seq<byte>>

  function Zeros(): (z: seq<byte>)
    ensures |z| == PAGE && forall x | 0 <= x < PAGE :: z[x] == 0
  {
    seq(PAGE, _ => 0)
  }

  function FreeCount(used: seq<bool>): nat
    decreases |used|
  {
    if used == [] then 0 else (if used[0] then 0 else 1) + FreeCount(used[1..])
  }

  lemma {:induction false} FreeCountTake(used: seq<bool>, i: nat)
    requires i < |used| && !used[i]
    ensures FreeCount(used) == FreeCount(used[i := true]) + 1
    decreases |used|
  {
    if i > 0 {
      FreeCountTake(used[1..], i - 1);
      assert used[i := true][1..] == used[1..][i - 1 := true];
    } else {
      assert used[i := true][1..] == used[1..];
    }
  }

  lemma {:induction false} AllUsedMeansNone(used: seq<bool>)
    requires forall i | 0 <= i < |used| :: used[i]
    ensures FreeCount(used) == 0
    decreases |used|
  {
    if used != [] { AllUsedMeansNone(used[1..]); }
  }

  /** The allocator will not hand out frame f: it is marked used, or not tracked at all. */
  ghost predicate Taken(used: seq<bool>, f: nat) {
    forall i: nat | i < |used| && f == PhysPages.BASE + i * PAGE :: used[i]
  }

  ghost predicate Backed(used: seq<bool>, pages: PageMap) {
    forall u | u in pages :: Taken(used, pages[u].frame)
  }

  /** The frame of page v belongs to no other page. */
  ghost predicate Exclusive(pages: PageMap, v: nat) {
    v in pages && forall u | u in pages && u != v :: pages[u].frame != pages[v].frame
  }

  ghost predicate SameAt<T>(a: map<nat, T>, b: map<nat, T>, x: nat) {
    (x in a <==> x in b) && (x in a ==> a[x] == b[x])
  }

  ghost predicate SameTaken(used: seq<bool>, a: Memory, b: Memory) {
    forall f: nat | Taken(used, f) :: SameAt(a, b, f)
  }

  /** Frame f0 is what palloc_page has just handed out from used. */
  lemma TakenGrows(was: seq<bool>, i: nat)
    requires i < |was| && !was[i]
    ensures var now, f0 := was[i := true], PhysPages.BASE + i * PAGE;
      && Taken(now, f0) && !Taken(was, f0) && forall f | Taken(was, f) :: Taken(now, f)
  {
    assert i * PAGE + PhysPages.BASE == PhysPages.BASE + i * PAGE;
  }

  // ----- one segment

  /** Page v was mapped with a frame that was free at used0, holds zeros and belongs to nobody else. */
  ghost predicate FreshPage(used0: seq<bool>, pages: PageMap, mem: Memory, flags: nat, v: nat) {
    && Exclusive(pages, v) && pages[v].flags == flags && !Taken(used0, pages[v].frame)
    && pages[v].frame in mem && mem[pages[v].frame] == Zeros()
  }

  ghost predicate InFirst(p: Phdr, k: nat, v: nat) { FirstPage(p) <= v < FirstPage(p) + k }

  /** The first k pages of the segment are mapped; everything else is as it was. */
  ghost predicate Mapped(used0: seq<bool>, pages0: PageMap, mem0: Memory, pages: PageMap, mem: Memory, p: Phdr, k: nat) {
    && (forall v: nat | InFirst(p, k, v) :: FreshPage(used0, pages, mem, LeafFlags(p), v))
    && (forall v: nat | !InFirst(p, k, v) :: SameAt(pages, pages0, v))
    && SameTaken(used0, mem, mem0)
  }

  lemma MapOneMore(used0: seq<bool>, pages0: PageMap, mem0: Memory, used: seq<bool>, pages: PageMap, mem: Memory,
                   p: Phdr, k: nat, frame: nat)
    requires Mapped(used0, pages0, mem0, pages, mem, p, k) && Backed(used, pages) && !Taken(used, frame)
    requires forall f | Taken(used0, f) :: Taken(used, f)
    ensures Mapped(used0, pages0, mem0, pages[FirstPage(p) + k := Page(frame, LeafFlags(p))], mem[frame := Zeros()], p, k + 1)
  {
    hide Taken, FirstPage, LeafFlags;
    var w := FirstPage(p) + k;
    var now, zeroed := pages[w := Page(frame, LeafFlags(p))], mem[frame := Zeros()];
    forall v: nat | InFirst(p, k + 1, v) ensures FreshPage(used0, now, zeroed, LeafFlags(p), v) {
      if v < w { assert InFirst(p, k, v) && FreshPage(used0, pages, mem, LeafFlags(p), v); }
    }
    forall v: nat | !InFirst(p, k + 1, v) ensures SameAt(now, pages0, v) {
      assert !InFirst(p, k, v) && SameAt(pages, pages0, v);
    }
    forall f: nat | Taken(used0, f) ensures SameAt(zeroed, mem0, f) {
      assert SameAt(mem, mem0, f);
    }
  }

  ghost predicate InSegment(p: Phdr, v: nat) { FirstPage(p) <= v < EndPage(p) }

  /** Where byte k of the file part goes. */
  function CopyPage(p: Phdr, k: nat): nat { FirstPage(p) + k / PAGE }

  function CopyByte(pages: PageMap, mem: Memory, data: seq<byte>, p: Phdr, k: nat): Memory
    requires k < p.filesz && p.offset + p.filesz <= |data|
    requires CopyPage(p, k) in pages && pages[CopyPage(p, k)].frame in mem && |mem[pages[CopyPage(p, k)].frame]| == PAGE
  {
    var f := pages[CopyPage(p, k)].frame;
    mem[f := mem[f][k % PAGE := data[p.offset + k]]]
  }

  lemma CopyStaysInside(data: seq<byte>, p: Phdr, k: nat)
    requires PhdrOk(data, p) && k < p.filesz
    ensures InSegment(p, CopyPage(p, k)) && (p.vaddr / PAGE * PAGE + k) / PAGE == CopyPage(p, k)
    ensures (p.vaddr / PAGE * PAGE + k) % PAGE == k % PAGE
  {
    DivMod(p.vaddr, PAGE);
    DivMod(k, PAGE);
    DivUnique(p.vaddr / PAGE * PAGE + k, PAGE, CopyPage(p, k), k % PAGE);
    DivMod(p.vaddr + p.memsz + PAGE - 1, PAGE);
    DivBound(p.vaddr / PAGE * PAGE + k, EndPage(p), PAGE);
  }

  lemma LoadedGrows(data: seq<byte>, p: Phdr, k: nat, v: nat, x: nat)
    requires v >= FirstPage(p) && p.offset + k < |data| && x < PAGE
    ensures Loaded(data, p.(filesz := k + 1), v, x)
      == if v == CopyPage(p, k) && x == k % PAGE then data[p.offset + k] else Loaded(data, p.(filesz := k), v, x)
  {
    DivMod(k, PAGE);
    if (v - FirstPage(p)) * PAGE + x == k { DivUnique(k, PAGE, v - FirstPage(p), x); }
  }

  lemma CopyOneByte(pages: PageMap, mem: Memory, data: seq<byte>, p: Phdr, k: nat)
    requires PhdrOk(data, p) && k < p.filesz
    requires Installed(pages, mem, data, p.(filesz := k)) && forall v: nat | InSegment(p, v) :: Exclusive(pages, v)
    requires InSegment(p, CopyPage(p, k)) && PageInstalled(pages, mem, data, p.(filesz := k), CopyPage(p, k))
    ensures Installed(pages, CopyByte(pages, mem, data, p, k), data, p.(filesz := k + 1))
  {
    hide Loaded, CopyPage, LeafFlags;
    var now := CopyByte(pages, mem, data, p, k);
    var q := p.(filesz := k + 1);
    assert LeafFlags(q) == LeafFlags(p) == LeafFlags(p.(filesz := k)) by { FlagsOf(p, k); FlagsOf(p, k + 1); }
    forall v: nat | FirstPage(q) <= v < EndPage(q) ensures PageInstalled(pages, now, data, q, v) {
      assert InSegment(p, v) && PageInstalled(pages, mem, data, p.(filesz := k), v);
      forall x: nat | x < PAGE ensures now[pages[v].frame][x] == Loaded(data, q, v, x) {
        LoadedGrows(data, p, k, v, x);
      }
    }
  }

  lemma FlagsOf(p: Phdr, k: nat)
    ensures LeafFlags(p.(filesz := k)) == LeafFlags(p)
  {
  }

  // ----- several segments

  function HeaderAt(data: seq<byte>, j: nat): Phdr
    requires HeadersFit(data) && j < PhdrCount(data)
  {
    PhdrAt(data, PhdrOffset(data) + j * PHDR_SIZE)
  }

  ghost predicate HeadersFit(data: seq<byte>) {
    |data| >= 64 && PhdrOffset(data) + PhdrCount(data) * PHDR_SIZE <= |data|
  }

  predicate Loads(data: seq<byte>, j: nat)
    requires HeadersFit(data)
  {
    j < PhdrCount(data) && HeaderAt(data, j).kind == PT_LOAD
  }

  ghost predicate InNoSegment(data: seq<byte>, n: nat, v: nat)
    requires HeadersFit(data)
  {
    forall j: nat | j < n && Loads(data, j) :: !InSegment(HeaderAt(data, j), v)
  }

  /** What Elf64Load needs of a file: loadable headers that make sense and share no page. */
  ghost predicate Loadable(data: seq<byte>) {
    && HeadersFit(data)
    && (forall j: nat | Loads(data, j) :: PhdrOk(data, HeaderAt(data, j)))
    && forall j: nat, k: nat, v: nat | j < k && Loads(data, j) && Loads(data, k) && InSegment(HeaderAt(data, j), v) ::
         !InSegment(HeaderAt(data, k), v)
  }

  /** The frames that the headers from j on will ask for. */
  function Demand(data: seq<byte>, j: nat): nat
    requires HeadersFit(data) && j <= PhdrCount(data)
    decreases PhdrCount(data) - j
  {
    if j == PhdrCount(data) then 0
    else (if Loads(data, j) then PageSpan(HeaderAt(data, j)) else 0) + Demand(data, j + 1)
  }

  /** Segment j is in place, in frames of its own that were free at used0. */
  ghost predicate InPlace(used0: seq<bool>, pages: PageMap, mem: Memory, data: seq<byte>, p: Phdr)
    requires PhdrOk(data, p)
  {
    && Installed(pages, mem, data, p)
    && forall v: nat | InSegment(p, v) :: Exclusive(pages, v) && !Taken(used0, pages[v].frame)
  }

  /** The first n headers are done; pages of no segment and frames taken before are untouched. */
  ghost predicate Done(used0: seq<bool>, pages0: PageMap, mem0: Memory, pages: PageMap, mem: Memory, data: seq<byte>, n: nat)
    requires Loadable(data)
  {
    && (forall j: nat | j < n && Loads(data, j) :: InPlace(used0, pages, mem, data, HeaderAt(data, j)))
    && (forall v: nat | InNoSegment(data, n, v) :: SameAt(pages, pages0, v))
    && SameTaken(used0, mem, mem0)
  }

  /** Mapping and filling one segment leaves the earlier ones alone. */
  lemma OthersKept(used1: seq<bool>, pages1: PageMap, mem1: Memory, pages: PageMap, mem2: Memory, mem3: Memory,
                   data: seq<byte>, p: Phdr, f: nat)
    requires PhdrOk(data, p) && Mapped(used1, pages1, mem1, pages, mem2, p, PageSpan(p)) && Taken(used1, f)
    requires forall g: nat | !OfSegment(pages, p, g) :: SameAt(mem3, mem2, g)
    ensures SameAt(mem3, mem1, f)
  {
    hide Taken, FirstPage, EndPage, LeafFlags;
    forall v: nat | InSegment(p, v) && v in pages ensures pages[v].frame != f {
      assert InFirst(p, PageSpan(p), v) && FreshPage(used1, pages, mem2, LeafFlags(p), v);
    }
    assert !OfSegment(pages, p, f) && SameAt(mem3, mem2, f) && SameAt(mem2, mem1, f);
  }

  lemma InPlaceKept(used0: seq<bool>, used1: seq<bool>, pages1: PageMap, mem1: Memory, pages: PageMap, mem2: Memory, mem3: Memory,
                    data: seq<byte>, p: Phdr, q: Phdr)
    requires PhdrOk(data, p) && PhdrOk(data, q) && Mapped(used1, pages1, mem1, pages, mem2, p, PageSpan(p))
    requires Backed(used1, pages1) && forall g: nat | !OfSegment(pages, p, g) :: SameAt(mem3, mem2, g)
    requires InPlace(used0, pages1, mem1, data, q) && forall v: nat | InSegment(q, v) :: !InSegment(p, v)
    ensures InPlace(used0, pages, mem3, data, q)
  {
    hide Taken, OfSegment, Loaded, LeafFlags;
    forall v: nat | InSegment(q, v)
      ensures PageInstalled(pages, mem3, data, q, v) && Exclusive(pages, v) && !Taken(used0, pages[v].frame)
    {
      assert Exclusive(pages1, v) && PageInstalled(pages1, mem1, data, q, v);
      assert !InFirst(p, PageSpan(p), v) && SameAt(pages, pages1, v);
      OthersKept(used1, pages1, mem1, pages, mem2, mem3, data, p, pages1[v].frame);
      forall u | u in pages && u != v ensures pages[u].frame != pages[v].frame {
        if InFirst(p, PageSpan(p), u) {
          assert FreshPage(used1, pages, mem2, LeafFlags(p), u);
        } else {
          assert SameAt(pages, pages1, u);
        }
      }
    }
  }

  lemma OneMoreDone(used0: seq<bool>, pages0: PageMap, mem0: Memory, used1: seq<bool>, pages1: PageMap, mem1: Memory,
                    pages: PageMap, mem2: Memory, mem3: Memory, data: seq<byte>, i: nat)
    requires Loadable(data) && Loads(data, i) && Done(used0, pages0, mem0, pages1, mem1, data, i)
    requires Backed(used1, pages1) && forall f | Taken(used0, f) :: Taken(used1, f)
    requires Mapped(used1, pages1, mem1, pages, mem2, HeaderAt(data, i), PageSpan(HeaderAt(data, i)))
    requires Installed(pages, mem3, data, HeaderAt(data, i))
    requires forall g: nat | !OfSegment(pages, HeaderAt(data, i), g) :: SameAt(mem3, mem2, g)
    ensures Done(used0, pages0, mem0, pages, mem3, data, i + 1)
  {
    hide Taken, OfSegment, Installed, InPlace, HeaderAt, Backed;
    var p := HeaderAt(data, i);
    forall j: nat | j < i + 1 && Loads(data, j) ensures InPlace(used0, pages, mem3, data, HeaderAt(data, j)) {
      if j < i {
        InPlaceKept(used0, used1, pages1, mem1, pages, mem2, mem3, data, p, HeaderAt(data, j));
      } else {
        NewInPlace(used0, used1, pages1, mem1, pages, mem2, mem3, data, p);
      }
    }
    forall v: nat | InNoSegment(data, i + 1, v) ensures SameAt(pages, pages0, v) {
      assert InNoSegment(data, i, v) && !InSegment(p, v) && !InFirst(p, PageSpan(p), v);
      assert SameAt(pages, pages1, v) && SameAt(pages1, pages0, v);
    }
    forall f: nat | Taken(used0, f) ensures SameAt(mem3, mem0, f) {
      OthersKept(used1, pages1, mem1, pages, mem2, mem3, data, p, f);
    }
  }

  lemma NewInPlace(used0: seq<bool>, used1: seq<bool>, pages1: PageMap, mem1: Memory, pages: PageMap, mem2: Memory, mem3: Memory,
                   data: seq<byte>, p: Phdr)
    requires PhdrOk(data, p) && Mapped(used1, pages1, mem1, pages, mem2, p, PageSpan(p)) && Installed(pages, mem3, data, p)
    requires forall f | Taken(used0, f) :: Taken(used1, f)
    ensures InPlace(used0, pages, mem3, data, p)
  {
    hide Taken, Installed;
    forall v: nat | InSegment(p, v) ensures Exclusive(pages, v) && !Taken(used0, pages[v].frame) {
      assert InFirst(p, PageSpan(p), v) && FreshPage(used1, pages, mem2, LeafFlags(p), v);
    }
  }

  /** Freshly mapped pages hold the image of a segment without file bytes. */
  lemma ZeroedIsInstalled(used1: seq<bool>, pages1: PageMap, mem1: Memory, pages: PageMap, mem: Memory, data: seq<byte>, p: Phdr)
    requires PhdrOk(data, p) && Mapped(used1, pages1, mem1, pages, mem, p, PageSpan(p))
    ensures Installed(pages, mem, data, p.(filesz := 0)) && forall v: nat | InSegment(p, v) :: Exclusive(pages, v)
  {
    FlagsOf(p, 0);
    forall v: nat | InSegment(p, v) ensures PageInstalled(pages, mem, data, p.(filesz := 0), v) && Exclusive(pages, v) {
      assert InFirst(p, PageSpan(p), v) && FreshPage(used1, pages, mem, LeafFlags(p), v);
    }
  }

  class Loader {
    const phys: PhysAllocator
    var pages: PageMap
    var mem: Memory

    constructor (phys: PhysAllocator, pages: PageMap, mem: Memory)
      ensures this.phys == phys && this.pages == pages && this.mem == mem
    {
      this.phys, this.pages, this.mem := phys, pages, mem;
    }

    ghost predicate Valid()
      reads this, phys, phys.pageBitmap
    {
      phys.Valid() && Backed(Used(), pages)
    }

    ghost function Used(): seq<bool>
      reads phys, phys.pageBitmap
    {
      phys.pageBitmap[..]
    }

    /** The assumed contract of map_virtual_user_advanced for one page. */
    method MapUserPage(va: nat, pa: nat, flags: nat)
      modifies this`pages
      ensures pages == old(pages)[va / PAGE := Page(pa, flags)]
    {
      pages := pages[va / PAGE := Page(pa, flags)];
    }

    /** One step of the allocation loop. When no page is left the NULL of palloc_page is cleared and mapped all the same. */
    method AddPage(va: nat, flags: nat) returns (frame: nat)
      requires Valid()
      modifies this, phys, phys.pageBitmap
      ensures FreeCount(old(Used())) == 0 ==> frame == 0 && phys.Valid() && Used() == old(Used())
      ensures FreeCount(old(Used())) > 0 ==>
        && Valid() && FreeCount(Used()) + 1 == FreeCount(old(Used()))
        && Taken(Used(), frame) && !Taken(old(Used()), frame) && forall f | Taken(old(Used()), f) :: Taken(Used(), f)
      ensures pages == old(pages)[va / PAGE := Page(frame, flags)]
      ensures mem == old(mem)[frame := Zeros()]
    {
      ghost var s := phys.Value();
      PhysPages.PickIsComplete(s);
      frame := phys.PallocPage();
      if PhysPages.Pick(s).None? {
        AllUsedMeansNone(s.used);
      } else {
        TakenGrows(s.used, PhysPages.Pick(s).value);
        FreeCountTake(s.used, PhysPages.Pick(s).value);
      }
      mem := mem[frame := Zeros()];
      hide Taken;
      MapUserPage(va, frame, flags);
    }

    /** The allocation loop over the pages of one segment. */
    method MapSegment(data: seq<byte>, p: Phdr)
      requires Valid() && PhdrOk(data, p) && FreeCount(Used()) >= PageSpan(p)
      modifies this, phys, phys.pageBitmap
      ensures Valid() && FreeCount(Used()) + PageSpan(p) == FreeCount(old(Used()))
      ensures forall f | Taken(old(Used()), f) :: Taken(Used(), f)
      ensures Mapped(old(Used()), old(pages), old(mem), pages, mem, p, PageSpan(p))
    {
      hide Mapped, LeafFlags, Taken, Backed;
      ghost var used0, pages0, mem0 := Used(), pages, mem;
      var vaddrPage := p.vaddr / PAGE * PAGE;
      var sizePage := (p.vaddr + p.memsz + PAGE - 1) / PAGE * PAGE - vaddrPage;
      assert sizePage == PageSpan(p) * PAGE;
      var off := 0;
      ghost var k := 0;
      NothingMapped(used0, pages0, mem0, p);
      while off < sizePage
        invariant off == k * PAGE && k <= PageSpan(p)
        invariant Valid() && FreeCount(Used()) + k == FreeCount(used0)
        invariant forall f | Taken(used0, f) :: Taken(Used(), f)
        invariant Mapped(used0, pages0, mem0, pages, mem, p, k)
      {
        ghost var used1, pages1, mem1 := Used(), pages, mem;
        DivUnique(vaddrPage + off, PAGE, FirstPage(p) + k, 0);
        var frame := AddPage(vaddrPage + off, LeafFlags(p));
        MapOneMore(used0, pages0, mem0, used1, pages1, mem1, p, k, frame);
        off := off + PAGE;
        k := k + 1;
      }
    }

    /** The memcpy through the new mapping, from the base of the first page. */
    method CopyIn(data: seq<byte>, p: Phdr)
      requires PhdrOk(data, p) && Installed(pages, mem, data, p.(filesz := 0))
      requires forall v: nat | InSegment(p, v) :: Exclusive(pages, v)
      modifies this`mem
      ensures Installed(pages, mem, data, p)
      ensures forall f: nat | !OfSegment(pages, p, f) :: SameAt(mem, old(mem), f)
    {
      hide Installed, Exclusive, CopyPage;
      var vaddrPage := p.vaddr / PAGE * PAGE;
      for k := 0 to p.filesz
        invariant Installed(pages, mem, data, p.(filesz := k))
        invariant forall f: nat | !OfSegment(pages, p, f) :: SameAt(mem, old(mem), f)
      {
        CopyStaysInside(data, p, k);
        InstalledAt(pages, mem, data, p.(filesz := k), CopyPage(p, k));
        CopyOneByte(pages, mem, data, p, k);
        var frame := pages[(vaddrPage + k) / PAGE].frame;
        assert OfSegment(pages, p, frame);
        mem := mem[frame := mem[frame][(vaddrPage + k) % PAGE := data[p.offset + k]]];
      }
      assert p.(filesz := p.filesz) == p;
    }

    method Elf64Load(data: seq<byte>) returns (status: nat)
      requires Valid() && |data| >= 64 && (MagicOk(data) ==> Loadable(data) && FreeCount(Used()) >= Demand(data, 0))
      modifies this, phys, phys.pageBitmap
      ensures !MagicOk(data) ==> status == STATUS_FAIL && unchanged(this, phys, phys.pageBitmap)
      ensures MagicOk(data) ==> status == STATUS_OK && Valid()
      ensures MagicOk(data) ==> Done(old(Used()), old(pages), old(mem), pages, mem, data, PhdrCount(data))
    {
      if !MagicOk(data) { return STATUS_FAIL; }
      hide Taken, Backed, Done, Mapped, HeaderAt, Installed, InSegment, OfSegment, Exclusive;
      ghost var used0, pages0, mem0 := Used(), pages, mem;
      NothingDone(used0, pages0, mem0, data);
      for i := 0 to PhdrCount(data)
        invariant Valid() && FreeCount(Used()) >= Demand(data, i)
        invariant forall f | Taken(used0, f) :: Taken(Used(), f)
        invariant Done(used0, pages0, mem0, pages, mem, data, i)
      {
        if HeaderAt(data, i).kind == PT_LOAD {
          var p := HeaderAt(data, i);
          assert Loads(data, i);
          ghost var used1, pages1, mem1 := Used(), pages, mem;
          MapSegment(data, p);
          ghost var mem2 := mem;
          ZeroedIsInstalled(used1, pages1, mem1, pages, mem, data, p);
          CopyIn(data, p);
          OneMoreDone(used0, pages0, mem0, used1, pages1, mem1, pages, mem2, mem, data, i);
        } else {
          SkipHeader(used0, pages0, mem0, pages, mem, data, i);
        }
      }
      status := STATUS_OK;
    }
  }

  lemma NothingDone(used0: seq<bool>, pages0: PageMap, mem0: Memory, data: seq<byte>)
    requires Loadable(data)
    ensures Done(used0, pages0, mem0, pages0, mem0, data, 0)
  {
  }

  lemma SkipHeader(used0: seq<bool>, pages0: PageMap, mem0: Memory, pages: PageMap, mem: Memory, data: seq<byte>, i: nat)
    requires Loadable(data) && !Loads(data, i) && Done(used0, pages0, mem0, pages, mem, data, i)
    ensures Done(used0, pages0, mem0, pages, mem, data, i + 1)
  {
    forall v: nat | InNoSegment(data, i + 1, v) ensures InNoSegment(data, i, v) {
    }
  }

  /** After a load, a page-aligned segment reads as its header describes, from frames no other page maps. */
  lemma LoadedImage(used0: seq<bool>, pages0: PageMap, mem0: Memory, pages: PageMap, mem: Memory, data: seq<byte>, n: nat, i: nat, k: nat)
    requires Loadable(data) && Done(used0, pages0, mem0, pages, mem, data, n) && i < n && Loads(data, i)
    requires var p := HeaderAt(data, i); p.vaddr % PAGE == 0 && k < p.memsz
    ensures var p := HeaderAt(data, i);
      && LoadByte(pages, mem, p.vaddr + k) == Some(Described(data, p, k))
      && Exclusive(pages, (p.vaddr + k) / PAGE) && !Taken(used0, pages[(p.vaddr + k) / PAGE].frame)
  {
    hide Taken, Exclusive, Installed, Loaded, LoadByte, Described, HeaderAt;
    var p := HeaderAt(data, i);
    assert InPlace(used0, pages, mem, data, p);
    AlignedSegmentReads(pages, mem, data, p, k);
    PageOfOffset(p, k);
    assert InSegment(p, (p.vaddr + k) / PAGE);
  }

  lemma NothingMapped(used0: seq<bool>, pages0: PageMap, mem0: Memory, p: Phdr)
    ensures Mapped(used0, pages0, mem0, pages0, mem0, p, 0)
  {
  }

  lemma InstalledAt(pages: PageMap, mem: Memory, data: seq<byte>, p: Phdr, v: nat)
    requires p.offset + p.filesz <= |data| && Installed(pages, mem, data, p) && InSegment(p, v)
    ensures PageInstalled(pages, mem, data, p, v)
  {
  }

  ghost predicate OfSegment(pages: PageMap, p: Phdr, f: nat) {
    exists v: nat :: InSegment(p, v) && v in pages && pages[v].frame == f
  }
}
