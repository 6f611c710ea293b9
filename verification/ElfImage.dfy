/** ELF64 program headers and the memory image that Elf64Load of fs/ext/elf.c is meant to build. */
module ElfImage {
  import opened Machine
  import opened FatDisk

  const PT_LOAD: nat := 1
  const PHDR_SIZE: nat := 56

  /** Bits of a leaf entry: present, user, writable, and no-execute at bit 63. */
  const LEAF_FLAGS: nat := 7
  const NX: nat := 0x8000_0000_0000_0000

  datatype Phdr = Phdr(kind: nat, flags: nat, offset: nat, vaddr: nat, filesz: nat, memsz: nat)

  datatype Page = Page(frame: nat, flags: nat)

  predicate MagicOk(data: seq<byte>)
    requires |data| >= 64
  {
    data[0] == 0x7F && data[1] == 0x45 && data[2] == 0x4C && data[3] == 0x46
  }

  function PhdrOffset(data: seq<byte>): nat
    requires |data| >= 64
  {
    U64At(data, 32)
  }

  function PhdrCount(data: seq<byte>): nat
    requires |data| >= 64
  {
    U16At(data, 56)
  }

  function PhdrAt(data: seq<byte>, at: nat): Phdr
    requires at + PHDR_SIZE <= |data|
  {
    Phdr(U32At(data, at), U32At(data, at + 4), U64At(data, at + 8), U64At(data, at + 16), U64At(data, at + 32), U64At(data, at + 40))
  }

  function FirstPage(p: Phdr): nat { p.vaddr / PAGE }

  function EndPage(p: Phdr): nat { (p.vaddr + p.memsz + PAGE - 1) / PAGE }

  function PageSpan(p: Phdr): (n: nat)
    ensures FirstPage(p) + n == EndPage(p)
  {
    DivMonotone(p.vaddr, p.vaddr + p.memsz + PAGE - 1, PAGE);
    EndPage(p) - FirstPage(p)
  }

  /** The flags Elf64Load computes: always user and writable, executable on request. */
  function LeafFlags(p: Phdr): nat { if p.flags % 2 == 1 then LEAF_FLAGS else LEAF_FLAGS + NX }

  /** A header whose addresses do not wrap and whose file bytes exist. */
  ghost predicate PhdrOk(data: seq<byte>, p: Phdr) {
    && p.vaddr + p.memsz + PAGE <= TWO64 && p.filesz <= p.memsz && p.offset + p.filesz <= |data|
  }

  /** What the loader leaves in byte x of page v: the file copied from the page base, zero behind it. */
  function Loaded(data: seq<byte>, p: Phdr, v: nat, x: nat): byte
    requires v >= FirstPage(p) && p.offset + p.filesz <= |data|
  {
    var k := (v - FirstPage(p)) * PAGE + x;
    if k < p.filesz then data[p.offset + k] else 0
  }

  ghost predicate PageInstalled(pages: map<nat, Page>, mem: map<nat, seq<byte>>, data: seq<byte>, p: Phdr, v: nat)
    requires v >= FirstPage(p) && p.offset + p.filesz <= |data|
  {
    && v in pages && pages[v].flags == LeafFlags(p)
    && pages[v].frame in mem && |mem[pages[v].frame]| == PAGE
    && forall x | 0 <= x < PAGE :: mem[pages[v].frame][x] == Loaded(data, p, v, x)
  }

  ghost predicate Installed(pages: map<nat, Page>, mem: map<nat, seq<byte>>, data: seq<byte>, p: Phdr)
    requires p.offset + p.filesz <= |data|
  {
    forall v: nat | FirstPage(p) <= v < EndPage(p) :: PageInstalled(pages, mem, data, p, v)
  }

  /** A load through the page map. */
  function LoadByte(pages: map<nat, Page>, mem: map<nat, seq<byte>>, a: nat): Option<byte> {
    if a / PAGE in pages && pages[a / PAGE].frame in mem && |mem[pages[a / PAGE].frame]| == PAGE
    then Some(mem[pages[a / PAGE].frame][a % PAGE]) else None
  }

  /** The image the ELF header describes: file bytes, then zeros. */
  function Described(data: seq<byte>, p: Phdr, j: nat): byte
    requires p.offset + p.filesz <= |data|
  {
    if j < p.filesz then data[p.offset + j] else 0
  }

  lemma PageOfOffset(p: Phdr, j: nat)
    requires j < p.memsz
    ensures FirstPage(p) <= (p.vaddr + j) / PAGE < EndPage(p)
    ensures ((p.vaddr + j) / PAGE - FirstPage(p)) * PAGE + (p.vaddr + j) % PAGE == p.vaddr % PAGE + j
  {
    var a := p.vaddr + j;
    DivMonotone(p.vaddr, a, PAGE);
    DivMod(p.vaddr, PAGE);
    DivMod(a, PAGE);
    DivMod(p.vaddr + p.memsz + PAGE - 1, PAGE);
    DivBound(a, EndPage(p), PAGE);
  }

  /** A page-aligned segment, once installed, reads as described. */
  lemma AlignedSegmentReads(pages: map<nat, Page>, mem: map<nat, seq<byte>>, data: seq<byte>, p: Phdr, j: nat)
    requires p.offset + p.filesz <= |data| && Installed(pages, mem, data, p) && p.vaddr % PAGE == 0 && j < p.memsz
    ensures LoadByte(pages, mem, p.vaddr + j) == Some(Described(data, p, j))
  {
    PageOfOffset(p, j);
    assert PageInstalled(pages, mem, data, p, (p.vaddr + j) / PAGE);
  }

  /** Without alignment the bytes come out shifted by the page offset of p_vaddr. */
  lemma SegmentReads(pages: map<nat, Page>, mem: map<nat, seq<byte>>, data: seq<byte>, p: Phdr, j: nat)
    requires p.offset + p.filesz <= |data| && Installed(pages, mem, data, p) && j < p.memsz
    ensures LoadByte(pages, mem, p.vaddr + j) == Some(Described(data, p, p.vaddr % PAGE + j))
  {
    PageOfOffset(p, j);
    assert PageInstalled(pages, mem, data, p, (p.vaddr + j) / PAGE);
  }

  ghost predicate ReadsAsDescribed(data: seq<byte>, p: Phdr)
    requires p.offset + p.filesz <= |data|
  {
    forall j: nat | j < p.memsz :: Described(data, p, p.vaddr % PAGE + j) == Described(data, p, j)
  }

  /** Whatever the file holds, the image comes out right exactly for a page-aligned p_vaddr or an empty file part. */
  lemma ImageRightExactlyWhenAligned(p: Phdr, n: nat)
    requires p.filesz <= p.memsz && p.offset + p.filesz <= n
    ensures (forall data: seq<byte> | |data| == n :: ReadsAsDescribed(data, p))
       <==> (p.vaddr % PAGE == 0 || p.filesz == 0)
  {
    if p.vaddr % PAGE != 0 && p.filesz > 0 {
      var data: seq<byte> := seq(n, i => if i == p.offset then 1 else 0);
      assert Described(data, p, 0) == 1;
      assert Described(data, p, p.vaddr % PAGE + 0) == 0;
      assert !ReadsAsDescribed(data, p);
    }
  }
}
