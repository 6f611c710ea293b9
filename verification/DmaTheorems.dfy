/** The DMA bitmap as an index of the window: agreement, exhaustion, allocate-then-free, contiguity. */
module DmaTheorems {
  import opened Machine
  import opened DmaPool

  ghost predicate Backed(win: map<nat, nat>, i: nat) {
    exists w | w in win :: win[w] == i
  }

  /** Bit i is set exactly when one window page translates to frame i, and never two. */
  ghost predicate Agree(used: seq<bool>, win: map<nat, nat>) {
    && |used| == FRAMES
    && (forall w | w in win :: win[w] < FRAMES)
    && (forall w, x | w in win && x in win && win[w] == win[x] :: w == x)
    && forall i: nat | i < FRAMES :: used[i] <==> Backed(win, i)
  }

  ghost predicate Inv(p: Pool) {
    && Agree(p.used, p.win)
    && p.curr >= WIN_BASE && p.curr % PAGE == 0
    && forall w | w in p.win :: w < WindowPage(p.curr)
  }

  function EmptyPool(): Pool {
    Pool(seq(FRAMES, _ => false), map[], WIN_BASE)
  }

  // ----- exhaustion

  lemma {:induction false} TakeCount(used: seq<bool>, win: map<nat, nat>, v: nat, n: nat)
    ensures var t := Take(used, win, v, n);
      |t.frames| == if n <= |FreeSet(used)| then n else |FreeSet(used)|
    decreases n
  {
    if FirstFree(used).None? {
      assert FreeSet(used) == {};
    } else if n > 0 {
      var i := FirstFree(used).value;
      TakeCount(used[i := true], win[v := i], v + 1, n - 1);
      assert FreeSet(used[i := true]) == FreeSet(used) - {i};
      assert i in FreeSet(used);
    }
  }

  /** palloc_aligned_DMA returns NULL exactly when the pool has too few free frames, and then it is full. */
  lemma NullExactlyWhenExhausted(p: Pool, size: nat)
    requires p.curr >= WIN_BASE
    ensures Palloc(p, size).1.None? <==> Pages(size) > |FreeSet(p.used)|
    ensures Palloc(p, size).1.None? ==> FreeSet(Palloc(p, size).0.used) == {}
  {
    var v := WindowPage(Start(p, size));
    TakeCount(p.used, p.win, v, Pages(size));
    TakesLowestFree(p.used, p.win, v, Pages(size));
  }

  // ----- agreement

  /** The loop keeps bitmap and tables in step exactly when every window page it writes was unmapped. */
  lemma TakeAgreesIff(used: seq<bool>, win: map<nat, nat>, v: nat, n: nat)
    requires Agree(used, win)
    ensures var t := Take(used, win, v, n);
      Agree(t.used, t.win) <==> forall w | v <= w < v + |t.frames| :: w !in win
  {
    hide Take, Extends, Backed;
    var t := Take(used, win, v, n);
    TakeExtends(used, win, v, n);
    if Unmapped(win, v, |t.frames|) {
      TakeFreshAgrees(used, win, v, n);
    } else {
      var w: nat :| v <= w < v + |t.frames| && w in win;
      OverwrittenIsLost(used, win, v, t, w);
    }
  }

  /** The closed form of a loop that backs window pages v, v+1, ... by frames. */
  ghost predicate Extends(used: seq<bool>, win: map<nat, nat>, v: nat, t: Taken) {
    && |t.used| == |used| && LowestFree(used, t.frames)
    && (forall i | 0 <= i < |used| :: t.used[i] <==> used[i] || i in t.frames)
    && Overlaid(win, t.win, v, t.frames)
  }

  ghost predicate Unmapped(win: map<nat, nat>, v: nat, n: nat) {
    forall w | v <= w < v + n :: w !in win
  }

  lemma TakeExtends(used: seq<bool>, win: map<nat, nat>, v: nat, n: nat)
    ensures Extends(used, win, v, Take(used, win, v, n))
  {
    hide Take, Overlaid, LowestFree;
    TakesLowestFree(used, win, v, n);
    TakeMaps(used, win, v, n);
  }

  /** A new window page gets a frame that was free, an old one keeps a frame that was used. */
  lemma ExtendedRange(used: seq<bool>, win: map<nat, nat>, v: nat, t: Taken, w: nat)
    requires Agree(used, win) && Extends(used, win, v, t) && Unmapped(win, v, |t.frames|) && w in t.win
    ensures t.win[w] < FRAMES && (used[t.win[w]] <==> w in win)
  {
    hide Increasing;
    if v <= w < v + |t.frames| {
      assert t.frames[w - v] in t.frames;
    } else {
      assert w in win && Backed(win, win[w]);
    }
  }

  lemma ExtendedInjective(used: seq<bool>, win: map<nat, nat>, v: nat, t: Taken, w: nat, x: nat)
    requires Agree(used, win) && Extends(used, win, v, t) && Unmapped(win, v, |t.frames|)
    requires w in t.win && x in t.win && t.win[w] == t.win[x]
    ensures w == x
  {
    hide Backed;
    ExtendedRange(used, win, v, t, w);
    ExtendedRange(used, win, v, t, x);
    if w !in win { IncreasingDistinct(t.frames); }
  }

  lemma ExtendedBacked(used: seq<bool>, win: map<nat, nat>, v: nat, t: Taken, i: nat)
    requires Agree(used, win) && Extends(used, win, v, t) && Unmapped(win, v, |t.frames|) && i < FRAMES
    ensures t.used[i] <==> Backed(t.win, i)
  {
    hide LowestFree;
    if used[i] {
      var w :| w in win && win[w] == i;
      assert w in t.win && t.win[w] == i;
    } else if i in t.frames {
      var k: nat :| k < |t.frames| && t.frames[k] == i;
      assert v + k in t.win && t.win[v + k] == i;
    } else {
      forall w: nat | w in t.win ensures t.win[w] != i {
        if v <= w < v + |t.frames| {
          assert t.frames[w - v] in t.frames;
        } else {
          assert w in win && Backed(win, win[w]);
        }
      }
    }
  }

  lemma TakeFreshAgrees(used: seq<bool>, win: map<nat, nat>, v: nat, n: nat)
    requires Agree(used, win) && Unmapped(win, v, |Take(used, win, v, n).frames|)
    ensures Agree(Take(used, win, v, n).used, Take(used, win, v, n).win)
  {
    hide Take, Extends, Backed, Unmapped;
    var t := Take(used, win, v, n);
    TakeExtends(used, win, v, n);
    forall w: nat | w in t.win ensures t.win[w] < FRAMES {
      ExtendedRange(used, win, v, t, w);
    }
    forall w: nat, x: nat | w in t.win && x in t.win && t.win[w] == t.win[x] ensures w == x {
      ExtendedInjective(used, win, v, t, w, x);
    }
    forall i: nat | i < FRAMES ensures t.used[i] <==> Backed(t.win, i) {
      ExtendedBacked(used, win, v, t, i);
    }
  }

  /** A live mapping overwritten by the loop loses its frame for good: the bit stays set and nothing backs it. */
  lemma OverwrittenIsLost(used: seq<bool>, win: map<nat, nat>, v: nat, t: Taken, w: nat)
    requires Agree(used, win) && Extends(used, win, v, t) && v <= w < v + |t.frames| && w in win
    ensures t.used[win[w]] && !Backed(t.win, win[w])
  {
    var i := win[w];
    assert Backed(win, i);
    forall x: nat | x in t.win ensures t.win[x] != i {
      if v <= x < v + |t.frames| { assert t.frames[x - v] in t.frames; }
    }
  }

  lemma IncreasingDistinct(s: seq<nat>)
    requires Increasing(s)
    ensures forall j, k | 0 <= j < |s| && 0 <= k < |s| && s[j] == s[k] :: j == k
  {
    forall j, k | 0 <= j < |s| && 0 <= k < |s| ensures j < k ==> s[j] < s[k] {
    }
  }

  /** The freshly written window pages are backed by exactly the frames taken. */
  lemma BacksTaken(used: seq<bool>, win: map<nat, nat>, v: nat, n: nat)
    ensures var t := Take(used, win, v, n);
      forall i :: Backs(t.win, v, |t.frames|, i) <==> i in t.frames
  {
    hide Take;
    var t := Take(used, win, v, n);
    TakeMaps(used, win, v, n);
    forall i: nat ensures Backs(t.win, v, |t.frames|, i) <==> i in t.frames {
      if i in t.frames {
        var k: nat :| k < |t.frames| && t.frames[k] == i;
        assert v + k in t.win && t.win[v + k] == i;
      }
    }
  }

  /** Wrapped or not: an allocation keeps the agreement exactly when its target pages hold no live mapping. */
  lemma PallocAgreesIff(p: Pool, size: nat)
    requires Agree(p.used, p.win) && p.curr >= WIN_BASE
    ensures var v := WindowPage(Start(p, size));
            var k := if Pages(size) <= |FreeSet(p.used)| then Pages(size) else |FreeSet(p.used)|;
            var q := Palloc(p, size).0;
      Agree(q.used, q.win) <==> forall w | v <= w < v + k :: w !in p.win
  {
    TakeAgreesIff(p.used, p.win, WindowPage(Start(p, size)), Pages(size));
    TakeCount(p.used, p.win, WindowPage(Start(p, size)), Pages(size));
  }

  /** Before the first wrap every allocation keeps the invariant, failed ones included. */
  lemma PallocKeepsInv(p: Pool, size: nat)
    requires Inv(p) && !Wraps(p, size)
    ensures Inv(Palloc(p, size).0)
  {
    var v, n := WindowPage(p.curr), Pages(size);
    TakeFreshAgrees(p.used, p.win, v, n);
    TakeMaps(p.used, p.win, v, n);
    assert Palloc(p, size).0.curr == p.curr + n * PAGE;
    hide Take, Agree;
    DivMod(p.curr, PAGE);
    DivUnique(p.curr + n * PAGE, PAGE, p.curr / PAGE + n, 0);
    WindowPageAdvance(p.curr, n);
  }

  lemma ReleaseAgrees(used: seq<bool>, win: map<nat, nat>, v: nat, n: nat)
    requires Agree(used, win)
    ensures Agree(Release(used, win, v, n).0, Release(used, win, v, n).1)
  {
    var (u, w) := Release(used, win, v, n);
    ReleaseShape(used, win, v, n);
    forall i: nat | i < FRAMES ensures u[i] <==> Backed(w, i) {
      if Backed(win, i) {
        var x :| x in win && win[x] == i;
        assert v <= x < v + n || x in w;
      }
      if Backed(w, i) {
        var x :| x in w && w[x] == i;
        assert x in win && win[x] == i;
      }
    }
  }

  lemma PfreeKeepsInv(p: Pool, va: nat, size: nat)
    requires Inv(p) && (va == 0 || va >= WIN_BASE)
    ensures Inv(Pfree(p, va, size))
  {
    if va != 0 && size != 0 {
      ReleaseAgrees(p.used, p.win, WindowPage(va), Pages(size));
      ReleaseShape(p.used, p.win, WindowPage(va), Pages(size));
    }
  }

  datatype Op = Alloc(size: nat) | Free(va: nat, size: nat)

  function Apply(p: Pool, op: Op): Pool
    requires p.curr >= WIN_BASE && (op.Free? ==> op.va == 0 || op.va >= WIN_BASE)
  {
    match op
    case Alloc(size) => Palloc(p, size).0
    case Free(va, size) => Pfree(p, va, size)
  }

  /** A run that stays before the first wrap and frees window addresses only. */
  ghost predicate Runs(p: Pool, ops: seq<Op>, q: Pool)
    decreases |ops|
  {
    if ops == [] then p == q
    else
      && p.curr >= WIN_BASE
      && (ops[0].Alloc? ==> !Wraps(p, ops[0].size))
      && (ops[0].Free? ==> ops[0].va == 0 || ops[0].va >= WIN_BASE)
      && Runs(Apply(p, ops[0]), ops[1..], q)
  }

  /** Main result: in every state of every such run the bitmap agrees with the page tables. */
  lemma {:induction false} BitmapAgreesWithTables(p: Pool, ops: seq<Op>, q: Pool)
    requires Inv(p) && Runs(p, ops, q)
    ensures Inv(q)
    decreases |ops|
  {
    if ops != [] {
      match ops[0] {
        case Alloc(size) => PallocKeepsInv(p, size);
        case Free(va, size) => PfreeKeepsInv(p, va, size);
      }
      BitmapAgreesWithTables(Apply(p, ops[0]), ops[1..], q);
    }
  }

  lemma EmptyPoolInv()
    ensures Inv(EmptyPool())
  {
    assert EmptyPool().curr % PAGE == 0;
  }

  // ----- allocate, then free

  /** Freeing what was just allocated restores the whole bitmap and every translation. */
  lemma PallocThenPfree(p: Pool, size: nat)
    requires Inv(p) && !Wraps(p, size) && Palloc(p, size).1.Some?
    ensures var (q, b) := Palloc(p, size);
            var r := Pfree(q, b.value.virt, size);
      r.used == p.used && r.win == p.win
  {
    var v, n := WindowPage(p.curr), Pages(size);
    TakeThenRelease(p.used, p.win, v, n);
  }

  lemma TakeThenRelease(used: seq<bool>, win: map<nat, nat>, v: nat, n: nat)
    requires Agree(used, win) && forall w | v <= w < v + n :: w !in win
    requires |Take(used, win, v, n).frames| == n
    ensures var t := Take(used, win, v, n); Release(t.used, t.win, v, n) == (used, win)
  {
    var t := Take(used, win, v, n);
    var (u, w) := Release(t.used, t.win, v, n);
    TakesLowestFree(used, win, v, n);
    TakeMaps(used, win, v, n);
    BacksTaken(used, win, v, n);
    ReleaseShape(t.used, t.win, v, n);
    assert w == win;
    assert u == used;
  }

  // ----- the first wrap can be reached with a buffer live at the bottom of the window

  /** One page lives at the bottom of the window and the cursor stands behind window page k - 1. */
  function OneLive(k: nat): Pool {
    Pool(EmptyPool().used[0 := true], map[0 := 0], WIN_BASE + k * PAGE)
  }

  lemma OneLiveInv(k: nat)
    requires k > 0
    ensures Inv(OneLive(k))
  {
    var p := OneLive(k);
    assert p.win[0] == 0;
    DivUnique(p.curr, PAGE, WIN_BASE / PAGE + k, 0);
    WindowPageAdvance(WIN_BASE, k);
  }

  lemma FitsBelowEnd(k: nat, p: Pool)
    requires k < WIN_PAGES && p.curr == WIN_BASE + k * PAGE
    ensures !Wraps(p, PAGE) && Start(p, PAGE) == p.curr && Pages(PAGE) == 1 && WindowPage(p.curr) == k
  {
    MulMonotone(k + 1, WIN_PAGES, PAGE);
    assert (k + 1) * PAGE == k * PAGE + PAGE;
    DivUnique(p.curr, PAGE, WIN_BASE / PAGE + k, 0);
    WindowPageAdvance(WIN_BASE, k);
  }

  lemma TakeOne(used: seq<bool>, win: map<nat, nat>, v: nat)
    requires FirstFree(used).Some?
    ensures var i := FirstFree(used).value; Take(used, win, v, 1) == Taken(used[i := true], win[v := i], [i])
  {
    var i := FirstFree(used).value;
    assert Take(used[i := true], win[v := i], v + 1, 0) == Taken(used[i := true], win[v := i], []);
  }

  /** One page allocated and freed again moves the cursor on and leaves everything else. */
  lemma CursorMoves(k: nat)
    requires 0 < k < WIN_PAGES
    ensures var q := Palloc(OneLive(k), PAGE).0;
      q.curr >= WIN_BASE && Pfree(q, WIN_BASE + k * PAGE, PAGE) == OneLive(k + 1)
  {
    var p := OneLive(k);
    OneLiveInv(k);
    FitsBelowEnd(k, p);
    assert FirstFree(p.used) == Some(1);
    TakeOne(p.used, p.win, k);
    PallocThenPfree(p, PAGE);
    assert (k + 1) * PAGE == k * PAGE + PAGE;
  }

  /** A run that ends with the cursor behind window page k - 1 and the first page still live. */
  lemma {:induction false} CursorReaches(k: nat) returns (ops: seq<Op>)
    requires 0 < k <= WIN_PAGES
    ensures Runs(EmptyPool(), ops, OneLive(k))
    decreases k
  {
    if k == 1 {
      var p := EmptyPool();
      FitsBelowEnd(0, p);
      assert FirstFree(p.used) == Some(0);
      TakeOne(p.used, p.win, 0);
      ops := [Alloc(PAGE)];
      assert Runs(Apply(p, ops[0]), ops[1..], OneLive(1));
    } else {
      var before := CursorReaches(k - 1);
      FitsBelowEnd(k - 1, OneLive(k - 1));
      CursorMoves(k - 1);
      var more := [Alloc(PAGE), Free(WIN_BASE + (k - 1) * PAGE, PAGE)];
      TwoMore(OneLive(k - 1), more, OneLive(k));
      RunsAppend(EmptyPool(), before, OneLive(k - 1), more, OneLive(k));
      ops := before + more;
    }
  }

  lemma TwoMore(p: Pool, ops: seq<Op>, q: Pool)
    requires |ops| == 2 && ops[0].Alloc? && ops[1].Free? && p.curr >= WIN_BASE && !Wraps(p, ops[0].size)
    requires ops[1].va >= WIN_BASE && var m := Palloc(p, ops[0].size).0; m.curr >= WIN_BASE && Pfree(m, ops[1].va, ops[1].size) == q
    ensures Runs(p, ops, q)
  {
    hide Palloc, Pfree, Wraps;
    var m := Apply(p, ops[0]);
    assert Runs(q, [], q);
    assert ops[1..][1..] == [] && ops[1..][0] == ops[1];
    assert Runs(m, ops[1..], q);
  }

  lemma {:induction false} RunsAppend(p: Pool, a: seq<Op>, m: Pool, b: seq<Op>, q: Pool)
    requires Runs(p, a, m) && Runs(m, b, q)
    ensures Runs(p, a + b, q)
    decreases |a|
  {
    hide Apply, Wraps;
    if a == [] {
      assert a + b == b;
    } else {
      assert (a + b)[1..] == a[1..] + b;
      RunsAppend(Apply(p, a[0]), a[1..], m, b, q);
    }
  }

  lemma WrapsAtEnd(p: Pool)
    requires p.curr == WIN_END
    ensures Wraps(p, PAGE) && WindowPage(Start(p, PAGE)) == 0 && Pages(PAGE) == 1
  {
  }

  /** The first wrap breaks the agreement in a state that a run from the empty pool reaches. */
  lemma WrapOntoLivePage() returns (ops: seq<Op>)
    ensures Runs(EmptyPool(), ops, OneLive(WIN_PAGES))
    ensures var p := OneLive(WIN_PAGES);
      Inv(p) && Wraps(p, PAGE) && !Agree(Palloc(p, PAGE).0.used, Palloc(p, PAGE).0.win)
  {
    hide Palloc, Wraps, Start, Runs, Agree, Pages, WindowPage;
    var p := OneLive(WIN_PAGES);
    ops := CursorReaches(WIN_PAGES);
    OneLiveInv(WIN_PAGES);
    WrapsAtEnd(p);
    assert Agree(p.used, p.win);
    PallocAgreesIff(p, PAGE);
    assert FreeSet(p.used) != {} by { assert 1 in FreeSet(p.used); }
    assert 0 in p.win;
  }
}
