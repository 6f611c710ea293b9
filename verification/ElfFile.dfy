/**
 Executable files laid out byte by byte (System V ABI, chapters "ELF Header" and "Program Header",
 64-bit class), and what a process finds in memory after Elf64Load has loaded one.
 */
module ElfFile {
  import opened Machine
  import opened FatDisk
  import opened ElfImage
  import opened ElfLoaderCode

  datatype Segment = Segment(kind: nat, flags: nat, vaddr: nat, content: seq<byte>, memsz: nat)

  function Half(v: nat): (s: seq<byte>)
    ensures |s| == 2
  {
    [Byte(v, 0), Byte(v, 1)]
  }

  /** e_ident to e_entry; the table of program headers follows the 64 bytes of this header. */
  function EhdrStart(entry: nat): (s: seq<byte>)
    ensures |s| == 32
  {
    [0x7F, 0x45, 0x4C, 0x46, 2, 1, 1, 0, 0, 0, 0, 0, 0, 0, 0, 0] + Half(2) + Half(62) + Word(1) + Quad(entry)
  }

  /** e_shoff, e_flags, e_ehsize and e_phentsize. */
  function EhdrMiddle(): (s: seq<byte>)
    ensures |s| == 16
  {
    Quad(0) + Word(0) + Half(64) + Half(56)
  }

  function Ehdr(entry: nat, n: nat): (s: seq<byte>)
    ensures |s| == 64
  {
    EhdrStart(entry) + Quad(64) + EhdrMiddle() + Half(n) + [0, 0, 0, 0, 0, 0]
  }

  /** p_type, p_flags, p_offset, p_vaddr, p_paddr, p_filesz, p_memsz, p_align. */
  function PhdrBytes(s: Segment, offset: nat): (r: seq<byte>)
    ensures |r| == 56
  {
    Word(s.kind) + Word(s.flags) + Quad(offset) + Quad(s.vaddr) + Quad(s.vaddr) + Quad(|s.content|) + Quad(s.memsz) + Quad(0x1000)
  }

  /** The bytes of all contents before segment k. */
  function Before(segs: seq<Segment>, k: nat): nat
    requires k <= |segs|
  {
    if k == 0 then 0 else Before(segs, k - 1) + |segs[k - 1].content|
  }

  function Contents(segs: seq<Segment>, k: nat): (r: seq<byte>)
    requires k <= |segs|
    ensures |r| == Before(segs, k)
  {
    if k == 0 then [] else Contents(segs, k - 1) + segs[k - 1].content
  }

  function Table(segs: seq<Segment>, k: nat): (r: seq<byte>)
    requires k <= |segs|
    ensures |r| == 56 * k
  {
    if k == 0 then [] else Table(segs, k - 1) + PhdrBytes(segs[k - 1], OffsetOf(segs, k - 1))
  }

  /** Where the content of segment k lies in the file. */
  function OffsetOf(segs: seq<Segment>, k: nat): nat
    requires k <= |segs|
  {
    64 + 56 * |segs| + Before(segs, k)
  }

  function EncodeElf(entry: nat, segs: seq<Segment>): seq<byte> {
    Ehdr(entry, |segs|) + Table(segs, |segs|) + Contents(segs, |segs|)
  }

  ghost predicate SegmentOk(s: Segment) {
    && s.kind < TWO32 && s.flags < TWO32 && s.vaddr + s.memsz + 0x1000 <= TWO64 && |s.content| <= s.memsz
  }

  predicate OnPage(s: Segment, v: nat) { s.vaddr / 0x1000 <= v < (s.vaddr + s.memsz + 0xFFF) / 0x1000 }

  /** The file fits 64-bit offsets, and no two loadable segments share a page. */
  ghost predicate SegmentsOk(segs: seq<Segment>) {
    && |segs| < 0x1_0000 && OffsetOf(segs, |segs|) < TWO64
    && (forall j | 0 <= j < |segs| :: SegmentOk(segs[j]))
    && forall j, k, v: nat | 0 <= j < k < |segs| && segs[j].kind == 1 && segs[k].kind == 1 && OnPage(segs[j], v) :: !OnPage(segs[k], v)
  }

  // ----- reading the headers back

  lemma HalfAt(m: seq<byte>, at: nat, v: nat)
    requires LiesAt(m, at, Half(v)) && v < 0x1_0000
    ensures U16At(m, at) == v
  {
    HalfBytes(v);
    BytesAt(m, at, Half(v));
  }

  lemma EhdrReads(m: seq<byte>, entry: nat, n: nat)
    requires LiesAt(m, 0, Ehdr(entry, n)) && n < 0x1_0000
    ensures |m| >= 64 && MagicOk(m) && PhdrOffset(m) == 64 && PhdrCount(m) == n
  {
    hide Quad, Word, Half, U64At, U16At, EhdrMiddle, EhdrStart, MagicOk, LiesAt;
    EhdrParts(m, entry, n);
    QuadAt(m, 32, 64);
    HalfAt(m, 56, n);
    StartIsMagic(m, entry);
  }

  lemma EhdrParts(m: seq<byte>, entry: nat, n: nat)
    requires LiesAt(m, 0, Ehdr(entry, n))
    ensures |m| >= 64 && LiesAt(m, 0, EhdrStart(entry)) && LiesAt(m, 32, Quad(64)) && LiesAt(m, 56, Half(n))
  {
    hide Quad, Half, EhdrMiddle, EhdrStart;
    var a := EhdrStart(entry);
    var b := a + Quad(64);
    assert |m| >= 64;
    hide LiesAt;
    PartLiesAt(m, 0, b + EhdrMiddle() + Half(n), [0, 0, 0, 0, 0, 0]);
    PartLiesAt(m, 0, b + EhdrMiddle(), Half(n));
    PartLiesAt(m, 0, b, EhdrMiddle());
    PartLiesAt(m, 0, a, Quad(64));
  }

  lemma StartIsMagic(m: seq<byte>, entry: nat)
    requires |m| >= 64 && LiesAt(m, 0, EhdrStart(entry))
    ensures MagicOk(m)
  {
    hide Quad, Word, Half, LiesAt;
    BytesAt(m, 0, EhdrStart(entry));
  }

  lemma PhdrReads(m: seq<byte>, at: nat, s: Segment, offset: nat)
    requires LiesAt(m, at, PhdrBytes(s, offset)) && SegmentOk(s) && offset < TWO64
    ensures at + 56 <= |m| && PhdrAt(m, at) == Phdr(s.kind, s.flags, offset, s.vaddr, |s.content|, s.memsz)
  {
    hide Quad, Word, U64At, U32At;
    var h1 := Word(s.kind) + Word(s.flags);
    var h2 := h1 + Quad(offset);
    var h3 := h2 + Quad(s.vaddr);
    var h4 := h3 + Quad(s.vaddr);
    var h5 := h4 + Quad(|s.content|);
    var h6 := h5 + Quad(s.memsz);
    PartLiesAt(m, at, h6, Quad(0x1000));
    PartLiesAt(m, at, h5, Quad(s.memsz));
    PartLiesAt(m, at, h4, Quad(|s.content|));
    PartLiesAt(m, at, h3, Quad(s.vaddr));
    PartLiesAt(m, at, h2, Quad(s.vaddr));
    PartLiesAt(m, at, h1, Quad(offset));
    PartLiesAt(m, at, Word(s.kind), Word(s.flags));
    WordAt(m, at, s.kind);
    WordAt(m, at + 4, s.flags);
    QuadAt(m, at + 8, offset);
    QuadAt(m, at + 16, s.vaddr);
    QuadAt(m, at + 32, |s.content|);
    QuadAt(m, at + 40, s.memsz);
  }

  lemma {:induction false} InTable(m: seq<byte>, at: nat, segs: seq<Segment>, k: nat, j: nat)
    requires j < k <= |segs| && LiesAt(m, at, Table(segs, k))
    ensures LiesAt(m, at + 56 * j, PhdrBytes(segs[j], OffsetOf(segs, j)))
    decreases k
  {
    hide PhdrBytes, OffsetOf;
    PartLiesAt(m, at, Table(segs, k - 1), PhdrBytes(segs[k - 1], OffsetOf(segs, k - 1)));
    if j < k - 1 { InTable(m, at, segs, k - 1, j); }
  }

  lemma {:induction false} InContents(m: seq<byte>, at: nat, segs: seq<Segment>, k: nat, j: nat)
    requires j < k <= |segs| && LiesAt(m, at, Contents(segs, k))
    ensures LiesAt(m, at + Before(segs, j), segs[j].content) && Before(segs, j) + |segs[j].content| <= Before(segs, k)
    decreases k
  {
    PartLiesAt(m, at, Contents(segs, k - 1), segs[k - 1].content);
    if j < k - 1 { InContents(m, at, segs, k - 1, j); }
  }

  /** The loader reads every program header of the file as it was written. */
  lemma HeaderReadsBack(entry: nat, segs: seq<Segment>, j: nat)
    requires SegmentsOk(segs) && j < |segs|
    ensures var data := EncodeElf(entry, segs);
            var s := segs[j];
      && |data| >= 64 && MagicOk(data) && HeadersFit(data) && PhdrCount(data) == |segs|
      && HeaderAt(data, j) == Phdr(s.kind, s.flags, OffsetOf(segs, j), s.vaddr, |s.content|, s.memsz)
      && LiesAt(data, OffsetOf(segs, j), s.content)
  {
    hide Ehdr, PhdrBytes, PhdrAt, PhdrOffset, PhdrCount, MagicOk, Table, Contents, SegmentOk, OnPage;
    var data, n := EncodeElf(entry, segs), |segs|;
    assert LiesAt(data, 0, data) by { assert data[0..|data|] == data; }
    PartLiesAt(data, 0, Ehdr(entry, n) + Table(segs, n), Contents(segs, n));
    PartLiesAt(data, 0, Ehdr(entry, n), Table(segs, n));
    EhdrReads(data, entry, n);
    InTable(data, 64, segs, n, j);
    InContents(data, 64 + 56 * n, segs, n, j);
    PhdrReads(data, 64 + 56 * j, segs[j], OffsetOf(segs, j));
  }

  lemma NoHeaders(entry: nat)
    ensures var data := EncodeElf(entry, []); |data| >= 64 && MagicOk(data) && HeadersFit(data) && PhdrCount(data) == 0
  {
    hide Ehdr, PhdrOffset, PhdrCount, MagicOk;
    var data := EncodeElf(entry, []);
    assert data == Ehdr(entry, 0);
    assert data[0..64] == data;
    EhdrReads(data, entry, 0);
  }

  /** Such a file is one that Elf64Load is made for. */
  lemma FileIsLoadable(entry: nat, segs: seq<Segment>)
    requires SegmentsOk(segs)
    ensures Loadable(EncodeElf(entry, segs)) && MagicOk(EncodeElf(entry, segs)) && PhdrCount(EncodeElf(entry, segs)) == |segs|
  {
    hide EncodeElf, HeaderAt, OnPage, PhdrCount, MagicOk;
    var data := EncodeElf(entry, segs);
    if segs == [] { NoHeaders(entry); } else { HeaderReadsBack(entry, segs, 0); }
    forall j: nat | Loads(data, j) ensures PhdrOk(data, HeaderAt(data, j)) {
      HeaderReadsBack(entry, segs, j);
    }
    forall j: nat, k: nat, v: nat | j < k && Loads(data, j) && Loads(data, k) && InSegment(HeaderAt(data, j), v)
      ensures !InSegment(HeaderAt(data, k), v)
    {
      HeaderReadsBack(entry, segs, j);
      HeaderReadsBack(entry, segs, k);
      PagesOf(segs[j], HeaderAt(data, j), v);
      PagesOf(segs[k], HeaderAt(data, k), v);
    }
  }

  lemma PagesOf(s: Segment, p: Phdr, v: nat)
    requires p.vaddr == s.vaddr && p.memsz == s.memsz
    ensures InSegment(p, v) <==> OnPage(s, v)
  {
  }

  // ----- the process

  /** The rights of a leaf entry: present, writable, for user code, and executable or not. */
  predicate UserPage(e: nat, executable: bool) {
    && e % 2 == 1 && e / 2 % 2 == 1 && e / 4 % 2 == 1 && e / 8 % 2 == 0 && e / 16 % 2 == 0
    && (e / 0x8000_0000_0000_0000 % 2 == 0 <==> executable)
  }

  /** PF_X, the lowest bit of p_flags, decides whether the pages are executable; they are always writable. */
  lemma RightsOf(p: Phdr)
    ensures UserPage(LeafFlags(p), p.flags % 2 == 1)
  {
  }

  /**
   Main result: after a load of the file every byte of a page-aligned segment is the byte of its
   content, or zero behind it, on a page that is executable exactly if the segment asks for it.
   */
  lemma ProcessSees(entry: nat, segs: seq<Segment>, used0: seq<bool>, pages0: PageMap, mem0: Memory, pages: PageMap, mem: Memory, i: nat, k: nat)
    requires SegmentsOk(segs) && Loadable(EncodeElf(entry, segs))
    requires Done(used0, pages0, mem0, pages, mem, EncodeElf(entry, segs), |segs|)
    requires i < |segs| && segs[i].kind == 1 && segs[i].vaddr % 0x1000 == 0 && k < segs[i].memsz
    ensures var s, a := segs[i], segs[i].vaddr + k;
      && LoadByte(pages, mem, a) == Some(if k < |s.content| then s.content[k] else 0)
      && a / 0x1000 in pages && UserPage(pages[a / 0x1000].flags, s.flags % 2 == 1)
  {
    hide EncodeElf, HeaderAt, LoadByte, Taken, PhdrCount, UserPage, LeafFlags, Exclusive;
    var data := EncodeElf(entry, segs);
    HeaderReadsBack(entry, segs, i);
    var p := HeaderAt(data, i);
    LoadedImage(used0, pages0, mem0, pages, mem, data, |segs|, i, k);
    assert k < |segs[i].content| ==> data[p.offset + k] == segs[i].content[k] by { BytesAt(data, p.offset, segs[i].content); }
    RightsOf(p);
    LoadedRights(used0, pages0, mem0, pages, mem, data, |segs|, i, k);
  }

  lemma LoadedRights(used0: seq<bool>, pages0: PageMap, mem0: Memory, pages: PageMap, mem: Memory, data: seq<byte>, n: nat, i: nat, k: nat)
    requires Loadable(data) && Done(used0, pages0, mem0, pages, mem, data, n) && i < n && Loads(data, i)
    requires k < HeaderAt(data, i).memsz
    ensures var p := HeaderAt(data, i); (p.vaddr + k) / PAGE in pages && pages[(p.vaddr + k) / PAGE].flags == LeafFlags(p)
  {
    hide Taken, Exclusive, Loaded, HeaderAt, LeafFlags;
    var p := HeaderAt(data, i);
    assert InPlace(used0, pages, mem, data, p);
    PageOfOffset(p, k);
    InstalledAt(pages, mem, data, p, (p.vaddr + k) / PAGE);
  }
}
