/** The kernel heap of kernel/memory/malloc.c: kmalloc only ever bumps a cursor. */
module Kheap {
  import opened Machine

  const HEAP_START: nat := 0xFFFF_8000_0000_0000
  const HEAP_SIZE: nat := 0xA0_0000  // what init_paging maps for the heap
  const ALIGN: nat := 8

  /** align_up(x, 8) in 64-bit arithmetic */
  function AlignUp(x: nat): nat { U64(x + ALIGN - 1) / ALIGN * ALIGN }

  datatype Block = Block(addr: nat, size: nat)

  function After(curr: nat, size: nat): nat { U64(AlignUp(curr) + AlignUp(size)) }

  /** The blocks that a series of calls hands out. */
  function Blocks(curr: nat, sizes: seq<nat>): (bs: seq<Block>)
    ensures |bs| == |sizes|
    decreases |sizes|
  {
    if sizes == [] then [] else [Block(AlignUp(curr), sizes[0])] + Blocks(After(curr, sizes[0]), sizes[1..])
  }

  /** The heap bytes that a series of requests uses up. */
  function Demand(sizes: seq<nat>): nat {
    if sizes == [] then 0 else AlignUp(sizes[0]) + Demand(sizes[1..])
  }

  predicate Inside(b: Block, lo: nat, hi: nat) { lo <= b.addr && b.addr + b.size <= hi }

  lemma AlignUpBounds(x: nat)
    requires x + ALIGN <= TWO64
    ensures AlignUp(x) % ALIGN == 0 && x <= AlignUp(x) < x + ALIGN && (x % ALIGN == 0 ==> AlignUp(x) == x)
  {
    DivUnique(x + ALIGN - 1, TWO64, 0, x + ALIGN - 1);
    DivMod(x + ALIGN - 1, ALIGN);
    DivUnique(AlignUp(x), ALIGN, (x + ALIGN - 1) / ALIGN, 0);
    if x % ALIGN == 0 { DivUnique(x + ALIGN - 1, ALIGN, x / ALIGN, ALIGN - 1); }
  }

  /** Requests that make sense: no size so large that rounding it wraps. */
  ghost predicate Sizes(sizes: seq<nat>) { forall i | 0 <= i < |sizes| :: sizes[i] + ALIGN <= TWO64 }

  lemma AddMultiples(a: nat, b: nat)
    requires a % ALIGN == 0 && b % ALIGN == 0 && a < TWO64
    ensures (a + b) % ALIGN == 0 && a + ALIGN <= TWO64
  {
    DivMod(a, ALIGN);
    DivMod(b, ALIGN);
    DivUnique(a + b, ALIGN, a / ALIGN + b / ALIGN, 0);
    DivBound(a, TWO64 / ALIGN, ALIGN);
  }

  lemma StepBounds(curr: nat, sizes: seq<nat>)
    requires sizes != [] && curr % ALIGN == 0 && Sizes(sizes) && curr + Demand(sizes) < TWO64
    ensures AlignUp(curr) == curr && After(curr, sizes[0]) == curr + AlignUp(sizes[0])
    ensures sizes[0] <= AlignUp(sizes[0]) && After(curr, sizes[0]) % ALIGN == 0
    ensures Sizes(sizes[1..]) && Demand(sizes) == AlignUp(sizes[0]) + Demand(sizes[1..])
  {
    hide AlignUp;
    var n := AlignUp(sizes[0]);
    AlignUpBounds(sizes[0]);
    AddMultiples(curr, n);
    AlignUpBounds(curr);
    DivUnique(curr + n, TWO64, 0, curr + n);
    forall i | 0 <= i < |sizes[1..]| ensures sizes[1..][i] + ALIGN <= TWO64 {
      assert sizes[1..][i] == sizes[i + 1];
    }
  }

  /** An aligned cursor hands out its own position and moves on by the rounded size. */
  lemma NextBlock(curr: nat, size: nat)
    requires curr % ALIGN == 0 && size % ALIGN == 0 && curr + size + ALIGN <= TWO64
    ensures Blocks(curr, [size]) == [Block(curr, size)] && After(curr, size) == curr + size
    ensures (curr + size) % ALIGN == 0
  {
    hide AlignUp;
    AlignUpBounds(curr);
    AlignUpBounds(size);
    AddMultiples(curr, size);
    DivUnique(curr + size, TWO64, 0, curr + size);
    assert [size][1..] == [] && Blocks(curr, [size]) == [Block(AlignUp(curr), size)] + Blocks(After(curr, size), []);
  }

  /** Main result: blocks are aligned, in order and disjoint, inside exactly the bytes demanded. */
  lemma {:induction false} BlocksAreDisjoint(curr: nat, sizes: seq<nat>)
    requires curr % ALIGN == 0 && Sizes(sizes) && curr + Demand(sizes) < TWO64
    ensures var bs := Blocks(curr, sizes);
      && (forall i | 0 <= i < |bs| :: bs[i].addr % ALIGN == 0 && bs[i].size == sizes[i] && Inside(bs[i], curr, curr + Demand(sizes)))
      && forall i, j | 0 <= i < j < |bs| :: bs[i].addr + bs[i].size <= bs[j].addr
    decreases |sizes|
  {
    hide AlignUp, After;
    if sizes != [] {
      StepBounds(curr, sizes);
      BlocksAreDisjoint(After(curr, sizes[0]), sizes[1..]);
      var bs, rest := Blocks(curr, sizes), Blocks(After(curr, sizes[0]), sizes[1..]);
      assert forall i | 0 < i < |bs| :: bs[i] == rest[i - 1] && sizes[i] == sizes[1..][i - 1];
    }
  }

  /** kmalloc checks no limit: every block lies in the mapped heap exactly when the rounded sizes add up to at most its size. */
  lemma {:induction false} InsideHeapExactlyWhen(curr: nat, sizes: seq<nat>, end: nat)
    requires curr % ALIGN == 0 && end % ALIGN == 0 && curr <= end && Sizes(sizes) && curr + Demand(sizes) < TWO64
    ensures (forall b | b in Blocks(curr, sizes) :: Inside(b, curr, end)) <==> curr + Demand(sizes) <= end
    decreases |sizes|
  {
    hide AlignUp, After;
    BlocksAreDisjoint(curr, sizes);
    var bs := Blocks(curr, sizes);
    if curr + Demand(sizes) <= end {
      forall b | b in bs ensures Inside(b, curr, end) {
        var i :| 0 <= i < |bs| && bs[i] == b;
      }
    } else if sizes != [] {
      StepBounds(curr, sizes);
      var next := After(curr, sizes[0]);
      if next <= end {
        InsideHeapExactlyWhen(next, sizes[1..], end);
        var b :| b in Blocks(next, sizes[1..]) && !Inside(b, next, end);
        BlocksAreDisjoint(next, sizes[1..]);
        assert b in bs && !Inside(b, curr, end);
      } else {
        RoundedFits(curr, sizes[0], end);
        assert bs[0] in bs && !Inside(bs[0], curr, end);
      }
    }
  }

  /** A block fits below an aligned limit exactly when its rounded size does. */
  lemma RoundedFits(curr: nat, size: nat, end: nat)
    requires curr % ALIGN == 0 && end % ALIGN == 0 && size + ALIGN <= TWO64
    ensures curr + size <= end <==> curr + AlignUp(size) <= end
  {
    AlignUpBounds(size);
    hide AlignUp;
    Congruent(end, curr, ALIGN);
    GapIsMultiple(end - curr, size, AlignUp(size));
  }

  lemma GapIsMultiple(gap: int, size: nat, n: nat)
    requires gap % ALIGN == 0 && n % ALIGN == 0 && size <= n < size + ALIGN
    ensures size <= gap <==> n <= gap
  {
  }
}

module KheapCode {
  import opened Machine
  import opened Kheap

  class Heap {
    var heapCurr: nat

    constructor ()
      ensures heapCurr == HEAP_START
    {
      heapCurr := HEAP_START;
    }

    method Kmalloc(size: nat) returns (ptr: nat)
      modifies this
      ensures [Block(ptr, size)] == Blocks(old(heapCurr), [size]) && heapCurr == After(old(heapCurr), size)
    {
      var aligned := AlignUp(heapCurr);
      var rounded := AlignUp(size);
      ptr := aligned;
      heapCurr := U64(aligned + rounded);
    }
  }
}
