/**
 What contiguity is for: the controller writes a sector run to consecutive physical addresses,
 the kernel reads it back through the window pages of the buffer.
 */
module DmaTransfer {
  import opened Machine
  import opened DmaPool
  import opened DmaLifo

  /** Physical memory after the controller stored data from address phys on. */
  function AfterDma(mem: nat -> byte, phys: nat, data: seq<byte>): nat -> byte {
    (x: nat) => if phys <= x < phys + |data| then data[x - phys] else mem(x)
  }

  /** The byte a load from virt + j sees, virt being page-aligned in the window. */
  function LoadAt(win: map<nat, nat>, mem: nat -> byte, virt: nat, j: nat): byte
    requires virt >= WIN_BASE && WindowPage(virt) + j / PAGE in win
  {
    mem(DMA_BASE + win[WindowPage(virt) + j / PAGE] * PAGE + j % PAGE)
  }

  ghost predicate Mapped(win: map<nat, nat>, virt: nat, n: nat) {
    virt >= WIN_BASE && forall w | WindowPage(virt) <= w < WindowPage(virt) + n :: w in win
  }

  ghost predicate ReadsBack(win: map<nat, nat>, buf: Buffer, n: nat, mem: nat -> byte, data: seq<byte>)
    requires Mapped(win, buf.virt, n) && |data| <= n * PAGE
  {
    forall j: nat | j < |data| :: PageOf(j, n) && LoadAt(win, AfterDma(mem, buf.phys, data), buf.virt, j) == data[j]
  }

  predicate PageOf(j: nat, n: nat) { j / PAGE < n }

  lemma ByteAddress(first: nat, j: nat)
    ensures DMA_BASE + (first + j / PAGE) * PAGE + j % PAGE == DMA_BASE + first * PAGE + j
  {
    DivMod(j, PAGE);
  }

  /** Whatever the memory held before, every transfer that fits the buffer reads back exactly when the frames are consecutive from phys. */
  lemma ReadsBackExactlyWhenConsecutive(win: map<nat, nat>, buf: Buffer, n: nat, first: nat)
    requires Mapped(win, buf.virt, n) && buf.phys == DMA_BASE + first * PAGE
    ensures (forall mem: nat -> byte, data: seq<byte> | |data| <= n * PAGE :: ReadsBack(win, buf, n, mem, data))
       <==> Linear(win, WindowPage(buf.virt), n, first)
  {
    var v := WindowPage(buf.virt);
    if Linear(win, v, n, first) {
      forall mem: nat -> byte, data: seq<byte> | |data| <= n * PAGE ensures ReadsBack(win, buf, n, mem, data) {
        LinearReadsBack(win, buf, n, first, mem, data);
      }
    } else {
      var w: nat :| v <= w < v + n && win[w] != first + (w - v);
      var mem: nat -> byte := _ => 0;
      var j := (w - v) * PAGE;
      var data: seq<byte> := seq(n * PAGE, i => if i == j then 1 else 0);
      assert j < |data| by { MulMonotone(w - v + 1, n, PAGE); }
      MisplacedPage(win, buf, n, first, w - v, data);
    }
  }

  lemma LinearReadsBack(win: map<nat, nat>, buf: Buffer, n: nat, first: nat, mem: nat -> byte, data: seq<byte>)
    requires Mapped(win, buf.virt, n) && buf.phys == DMA_BASE + first * PAGE && |data| <= n * PAGE
    requires Linear(win, WindowPage(buf.virt), n, first)
    ensures ReadsBack(win, buf, n, mem, data)
  {
    forall j: nat | j < |data|
      ensures PageOf(j, n) && LoadAt(win, AfterDma(mem, buf.phys, data), buf.virt, j) == data[j]
    {
      DivBound(j, n, PAGE);
      assert win[WindowPage(buf.virt) + j / PAGE] == first + j / PAGE;
      ByteAddress(first, j);
    }
  }

  /** One marked byte at the start of a misplaced page is not seen through the window. */
  lemma MisplacedPage(win: map<nat, nat>, buf: Buffer, n: nat, first: nat, k: nat, data: seq<byte>)
    requires Mapped(win, buf.virt, n) && buf.phys == DMA_BASE + first * PAGE && |data| == n * PAGE
    requires k < n && win[WindowPage(buf.virt) + k] != first + k && k * PAGE < |data|
    requires forall i | 0 <= i < |data| :: data[i] == if i == k * PAGE then 1 else 0
    ensures !ReadsBack(win, buf, n, _ => 0, data)
  {
    var j, f := k * PAGE, win[WindowPage(buf.virt) + k];
    DivUnique(j, PAGE, k, 0);
    assert DMA_BASE + f * PAGE - buf.phys != j by {
      if f > first + k { MulMonotone(first + k + 1, f, PAGE); } else { MulMonotone(f + 1, first + k, PAGE); }
    }
    assert LoadAt(win, AfterDma(_ => 0, buf.phys, data), buf.virt, j) == 0;
  }
}
