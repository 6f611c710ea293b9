/**
 The DMA buffers behind directory lookups. Fat32Lookup frees its buffer when it finds nothing and
 keeps it when it finds the file, so every success costs the pool one buffer for good.
 */
module FatBuffers {
  import opened Machine
  import opened DmaPool
  import opened DmaTheorems
  import opened DmaLifo
  import opened DmaBytes

  predicate InWindow(s: Sys) {
    s.pool.curr >= WIN_BASE && (s.live.Push? ==> s.live.virt >= WIN_BASE)
  }

  lemma StartAbove(p: Pool, size: nat)
    requires p.curr >= WIN_BASE
    ensures Start(p, size) >= WIN_BASE
  {
    DivMod(p.curr + PAGE - 1, PAGE);
  }

  /** The buffers after one lookup. Freeing the NULL that a failed allocation returns does nothing. */
  function AfterLookup(s: Sys, size: nat, found: bool): (r: Sys)
    requires InWindow(s)
    ensures InWindow(r)
  {
    StartAbove(s.pool, size);
    var taken := DmaLifo.Step(s, Acquire(size));
    if found || Palloc(s.pool, size).1.None? then taken else DmaLifo.Step(taken, ReleaseNewest)
  }

  /** The buffers after a series of lookups, of which finds tells the successful ones. */
  function AfterLookups(s: Sys, size: nat, finds: seq<bool>): (r: Sys)
    requires InWindow(s)
    ensures InWindow(r)
  {
    if finds == [] then s else AfterLookup(AfterLookups(s, size, finds[..|finds| - 1]), size, finds[|finds| - 1])
  }

  function Leaks(finds: seq<bool>): nat {
    if finds == [] then 0 else Leaks(finds[..|finds| - 1]) + if finds[|finds| - 1] then 1 else 0
  }

  /** After k lookups of n pages each: the leaked buffers are the used prefix, or some lookup found too little room. */
  ghost predicate Reached(s: Sys, n: nat, leaks: nat, k: nat, a: nat, b: nat) {
    && InWindow(s) && s.pool.curr == WIN_BASE + k * n * PAGE && LifoInv(s, a, b)
    && if (leaks + 1) * n <= FRAMES then a == leaks * n && b == FRAMES
       else (a == leaks * n && b == FRAMES) || a == b
  }

  lemma RoomInWindow(p: Pool, size: nat, k: nat)
    requires p.curr == WIN_BASE + k * Pages(size) * PAGE && (k + 1) * Pages(size) <= WIN_PAGES
    ensures !Wraps(p, size)
  {
    var n := Pages(size);
    assert (k + 1) * n == k * n + n;
    MulMonotone((k + 1) * n, WIN_PAGES, PAGE);
    assert (k * n + n) * PAGE == k * n * PAGE + n * PAGE;
    DivUnique(p.curr, PAGE, WIN_BASE / PAGE + k * n, 0);
  }

  lemma {:induction false} LookupsReach(size: nat, finds: seq<bool>) returns (a: nat, b: nat)
    requires Pages(size) > 0 && |finds| * Pages(size) <= WIN_PAGES
    ensures Reached(AfterLookups(Sys(EmptyPool(), Empty), size, finds), Pages(size), Leaks(finds), |finds|, a, b)
    decreases |finds|
  {
    hide Pages, LifoInv;
    if finds == [] {
      StartReached(Pages(size));
      return 0, FRAMES;
    }
    var k: nat := |finds| - 1;
    MulMonotone(k, k + 1, Pages(size));
    a, b := LookupsReach(size, finds[..k]);
    var s := AfterLookups(Sys(EmptyPool(), Empty), size, finds[..k]);
    a, b := LookupKeeps(s, size, Leaks(finds[..k]), k, a, b, finds[k]);
  }

  lemma StartReached(n: nat)
    ensures Reached(Sys(EmptyPool(), Empty), n, 0, 0, 0, FRAMES)
  {
    EmptyShape();
  }

  lemma LookupKeeps(s: Sys, size: nat, leaks: nat, k: nat, a: nat, b: nat, found: bool) returns (a': nat, b': nat)
    requires Reached(s, Pages(size), leaks, k, a, b) && Pages(size) > 0 && (k + 1) * Pages(size) <= WIN_PAGES
    ensures Reached(AfterLookup(s, size, found), Pages(size), if found then leaks + 1 else leaks, k + 1, a', b')
  {
    hide LifoInv, DmaLifo.Step, Palloc, Pages, Wraps, WindowPage;
    var n := Pages(size);
    RoomInWindow(s.pool, size, k);
    Acquired(s, size, a, b);
    ShapeOfPool(s, a, b);
    assert (leaks + 1) * n == leaks * n + n && (leaks + 2) * n == leaks * n + 2 * n;
    assert (k + 1) * n * PAGE == k * n * PAGE + n * PAGE;
    var taken := DmaLifo.Step(s, Acquire(size));
    if n > b - a {
      return a, a;
    } else if found {
      return a + n, b;
    } else {
      ReleaseKeeps(taken, a + n, b);
      ReleaseStays(taken);
      return a, b;
    }
  }

  /** What a lookup's allocation does to the system. */
  lemma Acquired(s: Sys, size: nat, a: nat, b: nat)
    requires InWindow(s) && LifoInv(s, a, b) && !Wraps(s.pool, size)
    ensures var n, r := Pages(size), DmaLifo.Step(s, Acquire(size));
      && InWindow(r) && r.pool.curr == s.pool.curr + n * PAGE
      && (Palloc(s.pool, size).1.Some? <==> n <= b - a)
      && if n <= b - a then LifoInv(r, a + n, b) && r.live.Push? && r.live.size == size else LifoInv(r, a, a)
  {
    hide Inv, Palloc, Pages, Wraps, WindowPage, PrefixUsed, Tiles;
    ShapeOfPool(s, a, b);
    AcquireKeeps(s, size, a, b);
    PallocFromGap(s.pool, size, a, b);
  }

  lemma ReleaseStays(s: Sys)
    requires InWindow(s)
    ensures DmaLifo.Step(s, ReleaseNewest).pool.curr == s.pool.curr
  {
  }

  /**
   Main result, before the first window wrap: with n pages to a cluster, the next lookup gets a buffer
   through which any directory cluster reads back exactly when the leaked buffers and its own fit in
   the 512 frames of the pool.
   */
  lemma LookupReadsExactlyWhen(size: nat, n: nat, finds: seq<bool>)
    requires 0 < size <= n * 0x1000 < size + 0x1000 && size + 0xFFF < TWO64
    requires (|finds| + 1) * n <= WIN_PAGES
    ensures var (q, buf) := Palloc(AfterLookups(Sys(EmptyPool(), Empty), size, finds).pool, size);
      && (buf.Some? <==> (Leaks(finds) + 1) * n <= 512)
      && (buf.Some? ==> BringsBack(q.win, buf.value, size))
  {
    hide AfterLookups, Leaks, Pages, Palloc, Wraps, LifoInv, BringsBack;
    PagesHold(size);
    assert Pages(size) == n;
    assert (|finds| + 1) * n == |finds| * n + n;
    var a, b := LookupsReach(size, finds);
    var s := AfterLookups(Sys(EmptyPool(), Empty), size, finds);
    assert (Leaks(finds) + 1) * n == Leaks(finds) * n + n;
    RoomInWindow(s.pool, size, |finds|);
    ShapeOfPool(s, a, b);
    GapBufferReads(s.pool, size, a, b);
  }

  /** In a prefix-shaped pool a request is served exactly when it fits in the gap, and any content comes back. */
  lemma GapBufferReads(p: Pool, size: nat, a: nat, b: nat)
    requires Inv(p) && PrefixUsed(p.used, a, b) && !Wraps(p, size) && 0 < size && size + 0xFFF < TWO64
    ensures p.curr >= WIN_BASE && a <= b
    ensures var (q, buf) := Palloc(p, size);
      && (buf.Some? <==> size <= (b - a) * 0x1000)
      && (buf.Some? <==> Pages(size) <= b - a)
      && (buf.Some? ==> BringsBack(q.win, buf.value, size))
  {
    hide Inv, Palloc, Pages, Wraps, WindowPage, BringsBack;
    CursorInWindow(p);
    PallocFromGap(p, size, a, b);
    PagesHold(size);
    if Pages(size) <= b - a { MulMonotone(Pages(size), b - a, PAGE); } else { MulMonotone(b - a + 1, Pages(size), PAGE); }
    var (q, buf) := Palloc(p, size);
    if buf.Some? {
      AllocatedBytes(p, size);
      ConsecutiveBringsBack(q.win, buf.value, size, Pages(size), a);
    }
  }
}
