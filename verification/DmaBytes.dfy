/**
 The DMA allocator byte by byte: what a caller of palloc_aligned_DMA asked for in bytes lies on
 mapped pages, reads back after a transfer, and is unmapped again by pfree_aligned_DMA.
 */
module DmaBytes {
  import opened Machine
  import opened DmaPool
  import opened DmaTheorems
  import opened DmaLifo
  import opened DmaTransfer

  /** The window page that holds byte j of a buffer. */
  function PageOfByte(virt: nat, j: nat): nat
    requires virt >= WIN_BASE
  {
    (virt + j - WIN_BASE) / 0x1000
  }

  /** A request is rounded up to whole pages, unless the rounding leaves 64 bits. */
  lemma PagesHold(size: nat)
    requires size < TWO64
    ensures size + 0xFFF < TWO64 ==> size <= Pages(size) * 0x1000 < size + 0x1000
    ensures size + 0xFFF >= TWO64 ==> Pages(size) == 0
  {
    if size + 0xFFF < TWO64 {
      DivUnique(size + PAGE - 1, TWO64, 0, size + PAGE - 1);
      DivMod(size + PAGE - 1, PAGE);
    } else {
      DivUnique(size + PAGE - 1, TWO64, 1, size + PAGE - 1 - TWO64);
      DivUnique(size + PAGE - 1 - TWO64, PAGE, 0, size + PAGE - 1 - TWO64);
    }
  }

  /** The bytes of an aligned buffer lie on as many window pages as hold them. */
  lemma ByteOnPage(virt: nat, n: nat, j: nat)
    requires virt >= WIN_BASE && virt % 0x1000 == 0
    ensures PageOfByte(virt, j) == WindowPage(virt) + j / 0x1000
    ensures j < n * 0x1000 <==> PageOfByte(virt, j) < WindowPage(virt) + n
  {
    DivMod(virt - WIN_BASE, PAGE);
    DivMod(virt, PAGE);
    DivUnique(virt - WIN_BASE, PAGE, virt / PAGE - WIN_BASE / PAGE, 0);
    DivMod(j, PAGE);
    DivUnique(virt + j - WIN_BASE, PAGE, WindowPage(virt) + j / PAGE, j % PAGE);
    DivBound(j, n, PAGE);
  }

  ghost predicate HoldsByte(virt: nat, size: nat, w: nat)
    requires virt >= WIN_BASE
  {
    exists j: nat :: j < size && PageOfByte(virt, j) == w
  }

  /** The pages that hold a byte of the request are the n pages from its start. */
  lemma PagesOfBytes(virt: nat, size: nat, n: nat, w: nat)
    requires virt >= WIN_BASE && virt % 0x1000 == 0 && size <= n * 0x1000 < size + 0x1000
    ensures HoldsByte(virt, size, w) <==> WindowPage(virt) <= w < WindowPage(virt) + n
  {
    hide WindowPage, PageOfByte;
    if WindowPage(virt) <= w < WindowPage(virt) + n {
      var j: nat := (w - WindowPage(virt)) * 0x1000;
      MulMonotone(w - WindowPage(virt), n - 1, 0x1000);
      ByteOnPage(virt, n, j);
      DivUnique(j, PAGE, w - WindowPage(virt), 0);
      assert PageOfByte(virt, j) == w;
    }
    if HoldsByte(virt, size, w) {
      var j: nat :| j < size && PageOfByte(virt, j) == w;
      ByteOnPage(virt, n, j);
    }
  }

  // ----- where a buffer starts

  ghost predicate FitsBehind(curr: nat, size: nat) {
    exists a: nat :: a % 0x1000 == 0 && curr <= a && a + size <= 0xFFFF_9000_2000_0000
  }

  /** At the cursor rounded up to a page if the request fits behind it in the 512 MiB window, else at the bottom. */
  lemma StartIs(p: Pool, size: nat)
    requires p.curr >= WIN_BASE && size + 0xFFF < TWO64
    ensures Start(p, size) % 0x1000 == 0
    ensures if FitsBehind(p.curr, size) then p.curr <= Start(p, size) < p.curr + 0x1000 else Start(p, size) == 0xFFFF_9000_0000_0000
    ensures Wraps(p, size) <==> !FitsBehind(p.curr, size)
  {
    PagesHold(size);
    DivMod(p.curr + PAGE - 1, PAGE);
    DivMod(p.curr, PAGE);
    assert Wraps(p, size) || AlignedCursor(p) + size <= 0xFFFF_9000_2000_0000;
  }

  // ----- allocation

  /** Palloc, with the pages of the request named by the bytes they hold. */
  ghost predicate Holds(before: Pool, size: nat, after: Pool, b: Buffer) {
    && b.virt >= WIN_BASE && b.virt % 0x1000 == 0
    && (forall j: nat | j < size :: PageOfByte(b.virt, j) in after.win)
    && (forall w | w in after.win && (w !in before.win || after.win[w] != before.win[w]) :: HoldsByte(b.virt, size, w))
    && (size > 0 ==> b.phys == 0x800_0000 + after.win[PageOfByte(b.virt, 0)] * 0x1000)
    && b.virt + size <= after.curr < b.virt + size + 0x1000 && after.curr % 0x1000 == 0
  }

  lemma TakenNonEmpty(p: Pool, size: nat)
    requires p.curr >= WIN_BASE && Palloc(p, size).1.Some? && Pages(size) > 0
    ensures var v, t := WindowPage(Start(p, size)), Take(p.used, p.win, WindowPage(Start(p, size)), Pages(size));
      && |t.frames| == Pages(size) && Overlaid(p.win, t.win, v, t.frames)
      && Palloc(p, size) == (Pool(t.used, t.win, Start(p, size) + Pages(size) * PAGE), Some(Buffer(Start(p, size), DMA_BASE + t.frames[0] * PAGE)))
  {
    hide Take, Start, Pages, WindowPage, Overlaid;
    TakeMaps(p.used, p.win, WindowPage(Start(p, size)), Pages(size));
  }

  /** A successful allocation maps every byte asked for, and no page that holds none of them. */
  lemma AllocatedBytes(p: Pool, size: nat)
    requires p.curr >= WIN_BASE && size + 0xFFF < TWO64 && Palloc(p, size).1.Some?
    ensures Holds(p, size, Palloc(p, size).0, Palloc(p, size).1.value)
  {
    hide Take, Start, WindowPage, PageOfByte, Wraps;
    var n, virt := Pages(size), Start(p, size);
    PagesHold(size);
    StartIs(p, size);
    StartAligned(virt, n);
    if size > 0 {
      TakenNonEmpty(p, size);
      ByteOnPage(virt, n, 0);
    } else {
      assert Take(p.used, p.win, WindowPage(virt), 0) == Taken(p.used, p.win, []) by { TakeNone(p.used, p.win, WindowPage(virt)); }
    }
    forall j: nat | j < size ensures PageOfByte(virt, j) in Palloc(p, size).0.win {
      ByteOnPage(virt, n, j);
    }
    forall w | w in Palloc(p, size).0.win && (w !in p.win || Palloc(p, size).0.win[w] != p.win[w]) ensures HoldsByte(virt, size, w) {
      PagesOfBytes(virt, size, n, w);
    }
  }

  lemma TakeNone(used: seq<bool>, win: map<nat, nat>, v: nat)
    ensures Take(used, win, v, 0) == Taken(used, win, [])
  {
  }

  lemma StartAligned(virt: nat, n: nat)
    requires virt % 0x1000 == 0
    ensures (virt + n * PAGE) % 0x1000 == 0
  {
    DivMod(virt, PAGE);
    DivUnique(virt + n * PAGE, PAGE, virt / PAGE + n, 0);
  }

  /** Before the first wrap the buffer's pages are new and the frames behind them were free and are now its own. */
  lemma AllocatedFresh(p: Pool, size: nat, j: nat)
    requires Inv(p) && size + 0xFFF < TWO64 && FitsBehind(p.curr, size) && Palloc(p, size).1.Some? && j < size
    ensures var (q, b) := Palloc(p, size);
            var w := PageOfByte(b.value.virt, j);
      && w !in p.win && w in q.win && q.win[w] < 512 && !p.used[q.win[w]] && q.used[q.win[w]]
      && forall x | x in q.win && q.win[x] == q.win[w] :: x == w
  {
    hide Take, Start, Pages, PageOfByte, Wraps;
    var n, virt := Pages(size), Start(p, size);
    PagesHold(size);
    StartIs(p, size);
    ByteOnPage(virt, n, j);
    TakenNonEmpty(p, size);
    PallocKeepsInv(p, size);
    TakesLowestFree(p.used, p.win, WindowPage(virt), n);
    var t := Take(p.used, p.win, WindowPage(virt), n);
    var w := PageOfByte(virt, j);
    assert t.frames[w - WindowPage(virt)] in t.frames;
    CursorPage(p, virt);
  }

  lemma CursorPage(p: Pool, virt: nat)
    requires Inv(p) && virt >= p.curr
    ensures p.curr >= WIN_BASE && forall w | w in p.win :: w < WindowPage(virt)
  {
    DivMonotone(p.curr - WIN_BASE, virt - WIN_BASE, PAGE);
  }

  /** All bytes of a successful request are mapped exactly when rounding it up does not leave 64 bits. */
  lemma EveryByteMappedExactlyWhen(p: Pool, size: nat)
    requires Inv(p) && p.curr <= WIN_END && 0 < size < TWO64 && Palloc(p, size).1.Some?
    ensures var (q, b) := Palloc(p, size);
      b.value.virt >= WIN_BASE
      && ((forall j: nat | j < size :: PageOfByte(b.value.virt, j) in q.win) <==> size + 0xFFF < TWO64)
  {
    if size + 0xFFF < TWO64 {
      AllocatedBytes(p, size);
    } else {
      PagesHold(size);
      TakeNone(p.used, p.win, WindowPage(p.curr));
      CursorPage(p, p.curr);
      assert PageOfByte(p.curr, 0) == WindowPage(p.curr);
    }
  }

  /** NULL exactly when the free frames hold fewer bytes than asked for. */
  lemma NullExactlyWhenTooLarge(p: Pool, size: nat)
    requires p.curr >= WIN_BASE && size + 0xFFF < TWO64
    ensures Palloc(p, size).1.None? <==> size > |FreeSet(p.used)| * 0x1000
  {
    hide Palloc, Pages;
    NullExactlyWhenExhausted(p, size);
    PagesHold(size);
    var free := |FreeSet(p.used)|;
    if Pages(size) > free { MulMonotone(free + 1, Pages(size), PAGE); } else { MulMonotone(Pages(size), free, PAGE); }
  }

  // ----- freeing

  /** Frame i lies behind a byte of the buffer. */
  ghost predicate BehindByte(win: map<nat, nat>, virt: nat, size: nat, i: nat)
    requires virt >= WIN_BASE
  {
    exists w | w in win :: HoldsByte(virt, size, w) && win[w] == i
  }

  /** Freeing a buffer unmaps the pages that hold its bytes and no other, and frees exactly the frames behind them. */
  lemma FreedBytes(p: Pool, virt: nat, size: nat)
    requires virt >= WIN_BASE && virt % 0x1000 == 0 && size + 0xFFF < TWO64
    ensures var q := Pfree(p, virt, size);
      && (forall j: nat | j < size :: PageOfByte(virt, j) !in q.win)
      && (forall w | w in p.win && !HoldsByte(virt, size, w) :: w in q.win && q.win[w] == p.win[w])
      && (forall w | w in q.win :: w in p.win)
      && |q.used| == |p.used|
      && forall i: nat | i < |p.used| :: q.used[i] <==> p.used[i] && !BehindByte(p.win, virt, size, i)
  {
    hide PageOfByte, WindowPage, Release, Pages, HoldsByte;
    var n, q := Pages(size), Pfree(p, virt, size);
    PagesHold(size);
    PfreeIsRelease(p, virt, size);
    ReleaseShape(p.used, p.win, WindowPage(virt), n);
    forall w: nat ensures HoldsByte(virt, size, w) <==> WindowPage(virt) <= w < WindowPage(virt) + n {
      PagesOfBytes(virt, size, n, w);
    }
    forall j: nat | j < size ensures PageOfByte(virt, j) !in q.win {
      ByteOnPage(virt, n, j);
    }
  }

  // ----- transfers

  /** The byte that a load from virtual address virt + j of the window sees. */
  function LoadByte(win: map<nat, nat>, mem: nat -> byte, virt: nat, j: nat): byte
    requires virt >= WIN_BASE && PageOfByte(virt, j) in win
  {
    mem(0x800_0000 + win[PageOfByte(virt, j)] * 0x1000 + (virt + j) % 0x1000)
  }

  /** What the controller stored from phys on comes back through the buffer, whatever memory held before. */
  ghost predicate BringsBack(win: map<nat, nat>, b: Buffer, size: nat) {
    && b.virt >= WIN_BASE && (forall j: nat | j < size :: PageOfByte(b.virt, j) in win)
    && forall mem: nat -> byte, data: seq<byte>, j: nat | j < |data| <= size ::
         LoadByte(win, AfterDma(mem, b.phys, data), b.virt, j) == data[j]
  }

  lemma LoadIsLoad(win: map<nat, nat>, mem: nat -> byte, virt: nat, j: nat)
    requires virt >= WIN_BASE && virt % 0x1000 == 0 && PageOfByte(virt, j) in win
    ensures WindowPage(virt) + j / PAGE in win && LoadByte(win, mem, virt, j) == LoadAt(win, mem, virt, j)
  {
    ByteOnPage(virt, 0, j);
    DivMod(virt, PAGE);
    DivMod(j, PAGE);
    DivUnique(virt + j, PAGE, virt / PAGE + j / PAGE, j % PAGE);
  }

  /** Consecutive frames behind the bytes are all that a transfer needs. */
  lemma ConsecutiveBringsBack(win: map<nat, nat>, b: Buffer, size: nat, n: nat, first: nat)
    requires b.virt >= WIN_BASE && b.virt % 0x1000 == 0 && size <= n * 0x1000
    requires Linear(win, WindowPage(b.virt), n, first) && b.phys == DMA_BASE + first * PAGE
    ensures BringsBack(win, b, size)
  {
    hide WindowPage, PageOfByte, AfterDma, LoadByte, LoadAt;
    forall j: nat | j < size ensures PageOfByte(b.virt, j) in win {
      ByteOnPage(b.virt, n, j);
    }
    forall mem: nat -> byte, data: seq<byte>, j: nat | j < |data| <= size
      ensures LoadByte(win, AfterDma(mem, b.phys, data), b.virt, j) == data[j]
    {
      LinearReadsBack(win, b, n, first, mem, data);
      LoadIsLoad(win, AfterDma(mem, b.phys, data), b.virt, j);
    }
  }

  /** Main result: in every run that frees only its newest buffer a transfer of up to size bytes comes back through the buffer. */
  lemma EveryBufferBringsBack(ops: seq<DmaLifo.Op>, r: Sys, size: nat)
    requires DmaLifo.Runs(Sys(EmptyPool(), Empty), ops, r) && r.pool.curr >= WIN_BASE
    requires 0 < size && size + 0xFFF < TWO64 && FitsBehind(r.pool.curr, size) && Palloc(r.pool, size).1.Some?
    ensures BringsBack(Palloc(r.pool, size).0.win, Palloc(r.pool, size).1.value, size)
  {
    hide DmaLifo.Runs, Palloc, Pages, Wraps, BringsBack, Linear, FitsBehind;
    PagesHold(size);
    StartIs(r.pool, size);
    EveryBufferIsContiguous(ops, r, size);
    AllocatedBytes(r.pool, size);
    var b := Palloc(r.pool, size).1.value;
    DivMod(b.phys - DMA_BASE, PAGE);
    ConsecutiveBringsBack(Palloc(r.pool, size).0.win, b, size, Pages(size), (b.phys - DMA_BASE) / PAGE);
  }
}
