/**
 The DMA allocator of kernel/memory/malloc.c as a value: a bitmap over 512 frames, the
 pages of the DMA window that translate into the pool, and the window cursor.
 */
module DmaPool {
  import opened Machine

  const WIN_BASE: nat := 0xFFFF_9000_0000_0000
  const WIN_PAGES: nat := 0x2_0000  // 512 MiB
  const WIN_END: nat := WIN_BASE + WIN_PAGES * PAGE
  const DMA_BASE: nat := 0x800_0000
  const FRAMES: nat := 512

  /** win maps a page number relative to WIN_BASE to the frame number it translates to. */
  datatype Pool = Pool(used: seq<bool>, win: map<nat, nat>, curr: nat)

  datatype Buffer = Buffer(virt: nat, phys: nat)

  // ----- dma_alloc_page

  function FirstFree(used: seq<bool>, from: nat := 0): (r: Option<nat>)
    requires from <= |used|
    ensures r.Some? ==> from <= r.value < |used| && !used[r.value]
    ensures forall i | from <= i < (if r.Some? then r.value else |used|) :: used[i]
    decreases |used| - from
  {
    if from == |used| then None else if !used[from] then Some(from) else FirstFree(used, from + 1)
  }

  // ----- the loop of palloc_aligned_DMA

  datatype Taken = Taken(used: seq<bool>, win: map<nat, nat>, frames: seq<nat>)

  /** Back window pages v, v+1, ... by the first free frames, at most n of them. */
  function Take(used: seq<bool>, win: map<nat, nat>, v: nat, n: nat): (t: Taken)
    ensures |t.used| == |used| && |t.frames| <= n
    decreases n
  {
    if n == 0 || FirstFree(used).None? then Taken(used, win, [])
    else
      var i := FirstFree(used).value;
      var t := Take(used[i := true], win[v := i], v + 1, n - 1);
      Taken(t.used, t.win, [i] + t.frames)
  }

  /** (size + PAGE_SIZE - 1) & ~(PAGE_SIZE - 1), in pages, with the 64-bit wrap of the sum. */
  function Pages(size: nat): nat { U64(size + PAGE - 1) / PAGE }

  function AlignedCursor(p: Pool): nat {
    if p.curr % PAGE != 0 then (p.curr + PAGE - 1) / PAGE * PAGE else p.curr
  }

  /** Does the request make the cursor start over at the bottom of the window? */
  predicate Wraps(p: Pool, size: nat) { AlignedCursor(p) + Pages(size) * PAGE > WIN_END }

  function Start(p: Pool, size: nat): (virt: nat)
    ensures p.curr >= WIN_BASE ==> virt >= WIN_BASE
  {
    if Wraps(p, size) then WIN_BASE else AlignedCursor(p)
  }

  function WindowPage(va: nat): nat
    requires va >= WIN_BASE
  {
    (va - WIN_BASE) / PAGE
  }

  function Palloc(p: Pool, size: nat): (Pool, Option<Buffer>)
    requires p.curr >= WIN_BASE
  {
    var n, virt := Pages(size), Start(p, size);
    var t := Take(p.used, p.win, WindowPage(virt), n);
    (Pool(t.used, t.win, virt + n * PAGE),
     if |t.frames| < n then None
     else Some(Buffer(virt, if n == 0 then 0 else DMA_BASE + t.frames[0] * PAGE)))
  }

  /** How many window pages a request gets mapped before it is met or the pool runs dry. */
  function Granted(p: Pool, size: nat): nat
    requires p.curr >= WIN_BASE
  {
    |Take(p.used, p.win, WindowPage(Start(p, size)), Pages(size)).frames|
  }

  // ----- pfree_aligned_DMA

  function Release(used: seq<bool>, win: map<nat, nat>, v: nat, n: nat): (seq<bool>, map<nat, nat>)
    decreases n
  {
    if n == 0 then (used, win)
    else if v in win && win[v] < |used| then Release(used[win[v] := false], win - {v}, v + 1, n - 1)
    else Release(used, win - {v}, v + 1, n - 1)
  }

  function Pfree(p: Pool, va: nat, size: nat): Pool
    requires va == 0 || va >= WIN_BASE
  {
    if va == 0 || size == 0 then p
    else
      var (used, win) := Release(p.used, p.win, WindowPage(va), Pages(size));
      Pool(used, win, p.curr)
  }

  // ----- what the loops do, in closed form

  ghost function FreeSet(used: seq<bool>): set<nat> {
    set i: nat | i < |used| && !used[i]
  }

  ghost predicate Increasing(s: seq<nat>) {
    forall j, k | 0 <= j < k < |s| :: s[j] < s[k]
  }

  /** frames are the |frames| lowest free ones. */
  ghost predicate LowestFree(used: seq<bool>, frames: seq<nat>) {
    && (forall f | f in frames :: f < |used| && !used[f])
    && Increasing(frames)
    && forall i, k | 0 <= i < |used| && 0 <= k < |frames| && i < frames[k] :: used[i] || i in frames
  }

  /** The loop takes the lowest free frames, and stops short only when none is left. */
  lemma {:induction false} TakesLowestFree(used: seq<bool>, win: map<nat, nat>, v: nat, n: nat)
    ensures var t := Take(used, win, v, n);
      && LowestFree(used, t.frames)
      && (forall i | 0 <= i < |used| :: t.used[i] <==> used[i] || i in t.frames)
      && (|t.frames| < n ==> forall i | 0 <= i < |used| :: t.used[i])
    decreases n
  {
    if n > 0 && FirstFree(used).Some? {
      var i := FirstFree(used).value;
      var used1 := used[i := true];
      TakesLowestFree(used1, win[v := i], v + 1, n - 1);
      var r := Take(used1, win[v := i], v + 1, n - 1);
      LowestFreeCons(used, i, r.frames);
      assert Take(used, win, v, n) == Taken(r.used, r.win, [i] + r.frames);
    } else if n > 0 {
      assert Take(used, win, v, n).used == used;
    }
  }

  lemma LowestFreeCons(used: seq<bool>, i: nat, frames: seq<nat>)
    requires FirstFree(used) == Some(i) && LowestFree(used[i := true], frames)
    ensures LowestFree(used, [i] + frames)
  {
    var all, used1 := [i] + frames, used[i := true];
    forall f | f in frames ensures i < f < |used| && !used[f] {
      assert !used1[f];
    }
    forall j, k | 0 <= j < k < |all| ensures all[j] < all[k] {
      assert frames[k - 1] in frames;
    }
    forall x, k | 0 <= x < |used| && 0 <= k < |all| && x < all[k] ensures used[x] || x in all {
      if k > 0 && x != i { assert used1[x] || x in frames; }
    }
  }

  /** win' is win with the given frames behind window pages v, v+1, ... */
  ghost predicate Overlaid(win: map<nat, nat>, win': map<nat, nat>, v: nat, frames: seq<nat>) {
    && (forall w: nat :: w in win' <==> w in win || v <= w < v + |frames|)
    && forall w: nat | w in win' :: win'[w] == if v <= w < v + |frames| then frames[w - v] else win[w]
  }

  lemma OverlaidCons(win: map<nat, nat>, win': map<nat, nat>, v: nat, i: nat, frames: seq<nat>)
    requires Overlaid(win[v := i], win', v + 1, frames)
    ensures Overlaid(win, win', v, [i] + frames)
  {
    var mid := win[v := i];
    forall w: nat ensures w in win' <==> w in win || v <= w < v + 1 + |frames| {
      assert w in win' <==> w in mid || v + 1 <= w < v + 1 + |frames|;
    }
  }

  lemma {:induction false} TakeMaps(used: seq<bool>, win: map<nat, nat>, v: nat, n: nat)
    ensures var t := Take(used, win, v, n); Overlaid(win, t.win, v, t.frames)
    decreases n
  {
    hide Overlaid;
    if n > 0 && FirstFree(used).Some? {
      var i := FirstFree(used).value;
      var r := Take(used[i := true], win[v := i], v + 1, n - 1);
      TakeMaps(used[i := true], win[v := i], v + 1, n - 1);
      OverlaidCons(win, r.win, v, i, r.frames);
    } else {
      OverlaidSame(win, v);
    }
  }

  lemma OverlaidSame(win: map<nat, nat>, v: nat)
    ensures Overlaid(win, win, v, [])
  {
  }

  /** Some window page in v..v+n is backed by frame i. */
  ghost predicate Backs(win: map<nat, nat>, v: nat, n: nat, i: nat) {
    exists x | x in win :: v <= x < v + n && win[x] == i
  }

  lemma {:induction false} ReleaseShape(used: seq<bool>, win: map<nat, nat>, v: nat, n: nat)
    ensures var (u, w) := Release(used, win, v, n);
      && |u| == |used|
      && (forall x :: x in w <==> x in win && !(v <= x < v + n))
      && (forall x | x in w :: w[x] == win[x])
      && forall i | 0 <= i < |used| :: u[i] <==> used[i] && !Backs(win, v, n, i)
    decreases n
  {
    if n > 0 {
      var used1 := if v in win && win[v] < |used| then used[win[v] := false] else used;
      ReleaseShape(used1, win - {v}, v + 1, n - 1);
      forall i | 0 <= i < |used|
        ensures Backs(win, v, n, i) <==> (v in win && win[v] == i) || Backs(win - {v}, v + 1, n - 1, i)
      {
        if Backs(win, v, n, i) {
          var x :| x in win && v <= x < v + n && win[x] == i;
          if x != v { assert x in win - {v}; }
        }
      }
    }
  }

  lemma WindowPageAdvance(curr: nat, n: nat)
    requires curr >= WIN_BASE
    ensures WindowPage(curr + n * PAGE) == WindowPage(curr) + n
  {
    DivMod(curr - WIN_BASE, PAGE);
    DivUnique(curr + n * PAGE - WIN_BASE, PAGE, WindowPage(curr) + n, (curr - WIN_BASE) % PAGE);
  }
}
