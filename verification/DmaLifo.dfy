/**
 Contiguity of DMA buffers. The AHCI controller is given the first physical address only, so a
 buffer is usable when its frames are consecutive. They are, as long as a buffer is freed only
 while it is the newest one not yet freed; buffers may also be leaked.
 */
module DmaLifo {
  import opened Machine
  import opened DmaPool
  import opened DmaTheorems

  /** The live buffers, newest on top. */
  datatype Stack = Empty | Push(below: Stack, virt: nat, size: nat, first: nat)

  datatype Sys = Sys(pool: Pool, live: Stack)

  datatype Op = Acquire(size: nat) | ReleaseNewest

  /** A failed palloc_aligned_DMA leaks what it took; a successful one is pushed. */
  function Step(s: Sys, op: Op): Sys
    requires s.pool.curr >= WIN_BASE && (s.live.Push? ==> s.live.virt >= WIN_BASE)
  {
    match op
    case Acquire(size) =>
      var (q, b) := Palloc(s.pool, size);
      if b.None? then Sys(q, s.live)
      else Sys(q, Push(s.live, b.value.virt, size, if b.value.phys < DMA_BASE then 0 else (b.value.phys - DMA_BASE) / PAGE))
    case ReleaseNewest =>
      if s.live.Empty? then s else Sys(Pfree(s.pool, s.live.virt, s.live.size), s.live.below)
  }

  ghost predicate Runs(s: Sys, ops: seq<Op>, r: Sys)
    decreases |ops|
  {
    if ops == [] then s == r
    else
      && s.pool.curr >= WIN_BASE && (s.live.Push? ==> s.live.virt >= WIN_BASE)
      && (ops[0].Acquire? ==> !Wraps(s.pool, ops[0].size))
      && Runs(Step(s, ops[0]), ops[1..], r)
  }

  /** Used frames: a prefix [0, a), plus a suffix [b, FRAMES) leaked by failed allocations. */
  ghost predicate PrefixUsed(used: seq<bool>, a: nat, b: nat) {
    && |used| == FRAMES && a <= b <= FRAMES
    && forall i | 0 <= i < FRAMES :: used[i] <==> i < a || b <= i
  }

  /** n window pages from v on translate to consecutive frames from first on. */
  ghost predicate Linear(win: map<nat, nat>, v: nat, n: nat, first: nat) {
    forall w: nat | v <= w < v + n :: w in win && win[w] == first + (w - v)
  }

  /** The live buffers tile [0, a) and their window pages lie below limit, in order. */
  ghost predicate Tiles(s: Stack, win: map<nat, nat>, a: nat, limit: nat) {
    match s
    case Empty => a == 0
    case Push(below, virt, size, first) =>
      && virt >= WIN_BASE
      && (Pages(size) > 0 ==> a == first + Pages(size))
      && WindowPage(virt) + Pages(size) <= limit
      && Linear(win, WindowPage(virt), Pages(size), first)
      && Tiles(below, win, if Pages(size) > 0 then first else a, WindowPage(virt))
  }

  ghost predicate LifoInv(s: Sys, a: nat, b: nat) {
    && Inv(s.pool)
    && PrefixUsed(s.pool.used, a, b)
    && Tiles(s.live, s.pool.win, a, WindowPage(s.pool.curr))
  }

  lemma {:induction false} TilesFrame(s: Stack, win: map<nat, nat>, win': map<nat, nat>, a: nat, limit: nat, limit': nat)
    requires Tiles(s, win, a, limit) && limit <= limit'
    requires forall v | v in win && v < limit :: v in win' && win'[v] == win[v]
    ensures Tiles(s, win', a, limit')
  {
    if s.Push? {
      var n := Pages(s.size);
      TilesFrame(s.below, win, win', if n > 0 then s.first else a, WindowPage(s.virt), WindowPage(s.virt));
    }
  }

  /** From a free gap the loop takes consecutive frames. */
  lemma {:induction false} TakeFromGap(used: seq<bool>, win: map<nat, nat>, v: nat, n: nat, a: nat, b: nat)
    requires PrefixUsed(used, a, b)
    ensures var t := Take(used, win, v, n);
      && |t.frames| == (if n <= b - a then n else b - a)
      && (forall k | 0 <= k < |t.frames| :: t.frames[k] == a + k)
      && PrefixUsed(t.used, a + |t.frames|, b)
    decreases n
  {
    var f := FirstFree(used);
    if a < b {
      assert !used[a];
      if n > 0 {
        assert f == Some(a);
        TakeFromGap(used[a := true], win[v := a], v + 1, n - 1, a + 1, b);
      }
    } else {
      assert f.None?;
    }
  }

  /** What a call to palloc_aligned_DMA finds in a prefix-shaped pool. */
  lemma PallocFromGap(p: Pool, size: nat, a: nat, b: nat)
    requires Inv(p) && PrefixUsed(p.used, a, b) && !Wraps(p, size)
    ensures var n := Pages(size);
            var v := WindowPage(p.curr);
            var (q, r) := Palloc(p, size);
      && q.curr == p.curr + n * PAGE && WindowPage(q.curr) == v + n
      && (forall w | w in p.win && w < v :: w in q.win && q.win[w] == p.win[w])
      && if n <= b - a then
           && r == Some(Buffer(p.curr, if n == 0 then 0 else DMA_BASE + a * PAGE))
           && PrefixUsed(q.used, a + n, b) && Linear(q.win, v, n, a)
         else
           r.None? && PrefixUsed(q.used, a, a)
  {
    var v, n := WindowPage(p.curr), Pages(size);
    var t := Take(p.used, p.win, v, n);
    assert Palloc(p, size).0 == Pool(t.used, t.win, p.curr + n * PAGE);
    hide Inv, Take, Agree;
    TakeFromGap(p.used, p.win, v, n, a, b);
    TakeMaps(p.used, p.win, v, n);
    WindowPageAdvance(p.curr, n);
  }

  lemma CursorInWindow(p: Pool)
    requires Inv(p)
    ensures p.curr >= WIN_BASE
  {
  }

  lemma AcquireKeeps(s: Sys, size: nat, a: nat, b: nat)
    requires LifoInv(s, a, b) && !Wraps(s.pool, size)
    ensures s.live.Push? ==> s.live.virt >= WIN_BASE
    ensures var n := Pages(size);
      if n <= b - a then LifoInv(Step(s, Acquire(size)), a + n, b)
      else LifoInv(Step(s, Acquire(size)), a, a)
  {
    hide Inv, Palloc, PrefixUsed, Wraps, Pages, WindowPage;
    var p := s.pool;
    CursorInWindow(p);
    var v, n := WindowPage(p.curr), Pages(size);
    var q := Palloc(p, size).0;
    PallocKeepsInv(p, size);
    PallocFromGap(p, size, a, b);
    TilesFrame(s.live, p.win, q.win, a, v, if n <= b - a then v else v + n);
    DivUnique(a * PAGE, PAGE, a, 0);
  }

  lemma BacksLinear(win: map<nat, nat>, v: nat, n: nat, first: nat, i: nat)
    requires Linear(win, v, n, first)
    ensures Backs(win, v, n, i) <==> first <= i < first + n
  {
    if first <= i < first + n {
      assert v + (i - first) in win;
    }
  }

  lemma ReleaseTop(used: seq<bool>, win: map<nat, nat>, v: nat, n: nat, a: nat, b: nat)
    requires PrefixUsed(used, a, b) && n <= a && Linear(win, v, n, a - n)
    ensures var (u, w) := Release(used, win, v, n);
      && PrefixUsed(u, a - n, b)
      && forall x | x in win && x < v :: x in w && w[x] == win[x]
  {
    ReleaseShape(used, win, v, n);
    hide Release;
    forall i: nat {
      BacksLinear(win, v, n, a - n, i);
    }
  }

  lemma ReleaseKeeps(s: Sys, a: nat, b: nat)
    requires LifoInv(s, a, b) && s.live.Push?
    ensures s.live.virt >= WIN_BASE && Pages(s.live.size) <= a
    ensures LifoInv(Step(s, ReleaseNewest), a - Pages(s.live.size), b)
  {
    hide Inv, Release, Pfree, Pages, PrefixUsed, WindowPage;
    var p, top := s.pool, s.live;
    var v, n := WindowPage(top.virt), Pages(top.size);
    var q := Pfree(p, top.virt, top.size);
    PfreeKeepsInv(p, top.virt, top.size);
    PfreeIsRelease(p, top.virt, top.size);
    ReleaseTop(p.used, p.win, v, n, a, b);
    TilesFrame(top.below, p.win, q.win, a - n, v, WindowPage(p.curr));
  }

  lemma PfreeIsRelease(p: Pool, va: nat, size: nat)
    requires va >= WIN_BASE
    ensures var (used, win) := Release(p.used, p.win, WindowPage(va), Pages(size));
      Pfree(p, va, size) == Pool(used, win, p.curr)
  {
    assert size == 0 ==> Pages(size) == 0;
  }

  lemma {:induction false} RunKeepsShape(s: Sys, ops: seq<Op>, r: Sys, a: nat, b: nat) returns (a': nat, b': nat)
    requires LifoInv(s, a, b) && Runs(s, ops, r)
    ensures LifoInv(r, a', b')
    decreases |ops|
  {
    hide LifoInv;
    if ops == [] {
      return a, b;
    }
    a', b' := StepKeepsShape(s, ops[0], a, b);
    a', b' := RunKeepsShape(Step(s, ops[0]), ops[1..], r, a', b');
  }

  lemma StepKeepsShape(s: Sys, op: Op, a: nat, b: nat) returns (a': nat, b': nat)
    requires LifoInv(s, a, b) && s.pool.curr >= WIN_BASE && (s.live.Push? ==> s.live.virt >= WIN_BASE)
    requires op.Acquire? ==> !Wraps(s.pool, op.size)
    ensures LifoInv(Step(s, op), a', b')
  {
    hide LifoInv, Wraps, Palloc, Pfree, Pages;
    a', b' := a, b;
    if op.Acquire? {
      AcquireKeeps(s, op.size, a, b);
      if Pages(op.size) <= b - a { a' := a + Pages(op.size); } else { b' := a; }
    } else if s.live.Push? {
      ReleaseKeeps(s, a, b);
      a' := a - Pages(s.live.size);
    }
  }

  ghost predicate Consecutive(q: Pool, buf: Buffer, n: nat) {
    && buf.virt >= WIN_BASE && buf.phys >= DMA_BASE && (buf.phys - DMA_BASE) % PAGE == 0
    && Linear(q.win, WindowPage(buf.virt), n, (buf.phys - DMA_BASE) / PAGE)
  }

  /** Main result: in every run of the discipline, every successful allocation is physically consecutive. */
  lemma EveryBufferIsContiguous(ops: seq<Op>, r: Sys, size: nat)
    requires Runs(Sys(EmptyPool(), Empty), ops, r) && r.pool.curr >= WIN_BASE
    requires !Wraps(r.pool, size) && Pages(size) > 0 && Palloc(r.pool, size).1.Some?
    ensures Consecutive(Palloc(r.pool, size).0, Palloc(r.pool, size).1.value, Pages(size))
  {
    hide Runs, LifoInv, Inv, Palloc, Pages, Wraps, WindowPage, PrefixUsed, Linear, EmptyPool;
    EmptyShape();
    var a, b := RunKeepsShape(Sys(EmptyPool(), Empty), ops, r, 0, FRAMES);
    assert Inv(r.pool) && PrefixUsed(r.pool.used, a, b) by { ShapeOfPool(r, a, b); }
    PallocFromGap(r.pool, size, a, b);
    DivUnique(a * PAGE, PAGE, a, 0);
  }

  lemma EmptyShape()
    ensures LifoInv(Sys(EmptyPool(), Empty), 0, FRAMES)
  {
    EmptyPoolInv();
  }

  lemma ShapeOfPool(s: Sys, a: nat, b: nat)
    requires LifoInv(s, a, b)
    ensures Inv(s.pool) && PrefixUsed(s.pool.used, a, b) && s.pool.curr >= WIN_BASE && a <= b <= FRAMES
  {
  }

  /** One allocation on its own: consecutive exactly when the frames after the first free one are free too. */
  lemma ContiguousExactlyWhen(p: Pool, size: nat)
    requires Inv(p) && !Wraps(p, size) && Pages(size) > 0 && Palloc(p, size).1.Some?
    ensures var (q, buf) := Palloc(p, size);
            var f := FirstFree(p.used);
      f.Some? && (Consecutive(q, buf.value, Pages(size))
                  <==> GapFree(p.used, f.value, Pages(size)))
  {
    var v, n := WindowPage(p.curr), Pages(size);
    var t := Take(p.used, p.win, v, n);
    var f := FirstFree(p.used).value;
    TakesLowestFree(p.used, p.win, v, n);
    assert t.frames[0] == f;
    DivUnique(f * PAGE, PAGE, f, 0);
    LinearTaken(p.used, p.win, v, n, f);
    hide Inv, Take, LowestFree;
    LowestRun(p.used, t.frames, f);
  }

  ghost predicate GapFree(used: seq<bool>, f: nat, n: nat) {
    forall i: nat | f <= i < f + n :: i < |used| && !used[i]
  }

  ghost predicate RunOf(frames: seq<nat>, f: nat) {
    forall k | 0 <= k < |frames| :: frames[k] == f + k
  }

  lemma LinearTaken(used: seq<bool>, win: map<nat, nat>, v: nat, n: nat, f: nat)
    requires |Take(used, win, v, n).frames| == n
    ensures var t := Take(used, win, v, n); Linear(t.win, v, n, f) <==> RunOf(t.frames, f)
  {
    var t := Take(used, win, v, n);
    TakeMaps(used, win, v, n);
    hide Take;
    if Linear(t.win, v, n, f) {
      forall k | 0 <= k < n ensures t.frames[k] == f + k {
        assert t.win[v + k] == f + k;
      }
    }
  }

  lemma LowestRun(used: seq<bool>, frames: seq<nat>, f: nat)
    requires LowestFree(used, frames) && |frames| > 0 && frames[0] == f
    ensures RunOf(frames, f) <==> GapFree(used, f, |frames|)
  {
    var n := |frames|;
    if GapFree(used, f, n) {
      forall k | 0 <= k < n ensures frames[k] == f + k {
        LowestAreConsecutive(used, frames, f, k);
      }
    }
    if RunOf(frames, f) {
      forall i: nat | f <= i < f + n ensures i < |used| && !used[i] {
        assert frames[i - f] in frames;
      }
    }
  }

  lemma BelowNext(frames: seq<nat>, k: nat, x: nat)
    requires Increasing(frames) && 0 < k < |frames| && x in frames && x < frames[k]
    ensures x <= frames[k - 1]
  {
    assert forall j | k <= j < |frames| :: frames[k] <= frames[j];
    var j :| 0 <= j < |frames| && frames[j] == x;
  }

  lemma {:induction false} LowestAreConsecutive(used: seq<bool>, frames: seq<nat>, f: nat, k: nat)
    requires LowestFree(used, frames) && k < |frames| && frames[0] == f
    requires GapFree(used, f, |frames|)
    ensures frames[k] == f + k
  {
    if k > 0 {
      LowestAreConsecutive(used, frames, f, k - 1);
      assert frames[k] in frames && frames[k - 1] < frames[k];
      if f + k < frames[k] {
        assert !used[f + k];
        BelowNext(frames, k, f + k);
      }
    }
  }
}
