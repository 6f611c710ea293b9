/**
 What a file is on a FAT32 volume, by byte positions (FAT32 File System Specification, "FAT Data
 Structure"): a chain of entries in the FAT, and the data in the clusters that it lists.
 */
module FatFile {
  import opened Machine
  import opened FatDisk
  import opened FatChain

  /** The entry of cluster c, low 28 bits: the little-endian word at byte 4 * c of the FAT. */
  ghost predicate EntryIs(v: Volume, c: nat, next: nat) {
    && v.fatStart <= |v.sectors| && 4 * c + 4 <= 512 * (|v.sectors| - v.fatStart)
    && FatWord(v.sectors[v.fatStart..], c) % 0x1000_0000 == next
  }

  ghost predicate EntryEnds(v: Volume, c: nat) {
    exists mark: nat :: 0x0FFF_FFF8 <= mark < 0x1000_0000 && EntryIs(v, c, mark)
  }

  /** cs are distinct data clusters, each linked to the following one, the last one to an end mark. */
  ghost predicate Chained(v: Volume, cs: seq<nat>) {
    && cs != [] && |v.sectors| <= TWO32
    && (forall k | 0 <= k < |cs| :: 2 <= cs[k] < 0x0FFF_FFF0)
    && (forall j, k | 0 <= j < k < |cs| :: cs[j] != cs[k])
    && (forall k | 0 <= k < |cs| - 1 :: EntryIs(v, cs[k], cs[k + 1]))
    && EntryEnds(v, cs[|cs| - 1])
  }

  /** The cluster that holds byte x of a file, as the number of its first sector. */
  function SectorOf(v: Volume, c: nat): int { v.firstData + v.spc * (c - 2) }

  ghost predicate ByteStored(v: Volume, c: nat, o: nat, b: byte) {
    && 0 <= SectorOf(v, c) && SectorOf(v, c) + o / 512 < |v.sectors|
    && v.sectors[SectorOf(v, c) + o / 512][o % 512] == b
  }

  /** The clusters lie on the volume, and byte x of the data is byte x % size of cluster x / size. */
  ghost predicate StoredIn(v: Volume, cs: seq<nat>, data: seq<byte>) {
    && v.spc > 0 && |data| <= |cs| * (512 * v.spc)
    && (forall k | 0 <= k < |cs| :: SectorOf(v, cs[k]) + v.spc <= |v.sectors|)
    && forall x: nat | x < |data| :: DataAt(v, cs, 512 * v.spc, x, data[x])
  }

  /** Byte x of the file is b, bpc being the size of a cluster. */
  ghost predicate DataAt(v: Volume, cs: seq<nat>, bpc: nat, x: nat, b: byte)
    requires bpc > 0
  {
    x / bpc < |cs| && ByteStored(v, cs[x / bpc], x % bpc, b)
  }

  ghost predicate IsFile(v: Volume, cs: seq<nat>, data: seq<byte>) {
    Chained(v, cs) && StoredIn(v, cs, data)
  }

  // ----- the reader follows the chain

  lemma NextReads(v: Volume, c: nat, next: nat)
    requires 2 <= c < 0x0FFF_FFF0 && |v.sectors| <= TWO32 && EntryIs(v, c, next) && next != c
    ensures Next(v, c) == if next < 2 || next >= 0x0FFF_FFF8 then 0x0FFF_FFF8 else next
  {
    hide U32At, U32;
    var fat, sect := v.sectors[v.fatStart..], v.fatStart + c * 4 / BPS;
    WordInSector(fat, c);
    U32Small(sect);
    assert fat[c * 4 / BPS] == v.sectors[sect];
  }

  /** The k-th cluster that the reader gets to is the k-th of the list, and behind the last one the chain ends. */
  lemma {:induction false} ReaderFollows(v: Volume, cs: seq<nat>, k: nat)
    requires Chained(v, cs)
    ensures Nth(v, cs[0], k) == if k < |cs| then cs[k] else 0x0FFF_FFF8
    decreases k
  {
    hide EntryIs, Next;
    if k > 0 {
      ReaderFollows(v, cs, k - 1);
      if k < |cs| {
        assert EntryIs(v, cs[k - 1], cs[k - 1 + 1]);
        NextReads(v, cs[k - 1], cs[k]);
      } else if k == |cs| {
        var mark: nat :| 0x0FFF_FFF8 <= mark < 0x1000_0000 && EntryIs(v, cs[k - 1], mark);
        NextReads(v, cs[k - 1], mark);
      } else {
        EndIsEnd(v);
      }
    }
  }

  lemma EndIsEnd(v: Volume)
    ensures Next(v, 0x0FFF_FFF8) == 0x0FFF_FFF8
  {
  }

  // ----- and finds the data

  lemma ClusterIs(v: Volume, c: nat)
    requires 2 <= c < 0x0FFF_FFF0 && |v.sectors| <= TWO32 && SectorOf(v, c) + v.spc <= |v.sectors|
    ensures SectorOf(v, c) >= 0 && ClusterData(v, c) == Some(Flatten(v.sectors[SectorOf(v, c)..SectorOf(v, c) + v.spc]))
  {
    hide U32, Flatten;
    U32Small(c - 2);
    MulMonotone(0, c - 2, v.spc);
    assert v.spc * (c - 2) == (c - 2) * v.spc;
    U32Small((c - 2) * v.spc);
  }

  /** What the later lemmas use of a file. */
  lemma FileFacts(v: Volume, cs: seq<nat>, data: seq<byte>)
    requires IsFile(v, cs, data)
    ensures cs != [] && v.spc > 0 && |data| <= |cs| * Bpc(v)
  {
  }

  lemma DataByte(v: Volume, cs: seq<nat>, data: seq<byte>, x: nat)
    requires IsFile(v, cs, data) && x < |data|
    ensures Bpc(v) > 0 && DataAt(v, cs, Bpc(v), x, data[x])
  {
    hide Chained, DataAt, SectorOf;
  }

  lemma ClusterInside(v: Volume, cs: seq<nat>, data: seq<byte>, k: nat)
    requires IsFile(v, cs, data) && k < |cs|
    ensures SectorOf(v, cs[k]) + v.spc <= |v.sectors|
  {
    hide Chained, DataAt, SectorOf;
  }

  /** A stored byte is found in the data of its cluster. */
  lemma StoredByte(v: Volume, c: nat, o: nat, b: byte)
    requires 2 <= c < 0x0FFF_FFF0 && |v.sectors| <= TWO32 && SectorOf(v, c) + v.spc <= |v.sectors|
    requires ByteStored(v, c, o, b) && o < Bpc(v)
    ensures ClusterData(v, c).Some? && |ClusterData(v, c).value| == Bpc(v) && ClusterData(v, c).value[o] == b
  {
    hide ClusterData, Flatten;
    ClusterIs(v, c);
    var secs := v.sectors[SectorOf(v, c)..SectorOf(v, c) + v.spc];
    DivMod(o, 512);
    DivBound(o, v.spc, 512);
    FlatByte(secs, o / 512, o % 512);
  }

  lemma ByteFound(v: Volume, cs: seq<nat>, data: seq<byte>, x: nat)
    requires IsFile(v, cs, data) && x < |data|
    ensures v.spc > 0 && ByteIs(v, cs[0], x, data[x])
  {
    hide Chained, StoredIn, ClusterData, ByteIs, ByteStored, SectorOf, Bpc;
    FileFacts(v, cs, data);
    DataByte(v, cs, data, x);
    var k, o := x / Bpc(v), x % Bpc(v);
    ClusterInside(v, cs, data, k);
    ChainedFacts(v, cs, k);
    StoredByte(v, cs[k], o, data[x]);
    LinkFacts(v, cs[0], k);
    ByteInCluster(v, cs[0], k, o);
    DivMod(x, Bpc(v));
  }

  lemma ChainedFacts(v: Volume, cs: seq<nat>, k: nat)
    requires Chained(v, cs) && k < |cs|
    ensures Nth(v, cs[0], k) == cs[k] && 2 <= cs[k] < 0x0FFF_FFF0 && |v.sectors| <= TWO32
  {
    ReaderFollows(v, cs, k);
  }

  lemma {:induction false} OneByteAgrees(v: Volume, c: nat, x: nat, a: byte, b: byte)
    requires v.spc > 0 && ByteIs(v, c, x, a) && ByteIs(v, c, x, b)
    ensures a == b
  {
  }

  /** Bytes that the reader takes for a slice of the file are a slice of its data. */
  lemma SliceIsData(v: Volume, cs: seq<nat>, data: seq<byte>, lo: nat, got: seq<byte>)
    requires IsFile(v, cs, data) && IsFileSlice(v, cs[0], lo, got) && lo + |got| <= |data|
    ensures got == data[lo..lo + |got|]
  {
    hide IsFile, ByteIs;
    FileFacts(v, cs, data);
    forall x | 0 <= x < |got| ensures got[x] == data[lo..lo + |got|][x] {
      assert ByteIs(v, cs[0], lo + x, got[x]);
      ByteFound(v, cs, data, lo + x);
      OneByteAgrees(v, cs[0], lo + x, got[x], data[lo + x]);
    }
  }

  /** How far one call gets from offset with clusters of bpc bytes: to the end of its 4096th cluster. */
  function CallEnds(bpc: nat, offset: nat): (end: nat)
    requires bpc > 0
    ensures offset < end
  {
    DivBound(offset, offset / bpc + 4096, bpc);
    (offset / bpc + 4096) * bpc
  }

  lemma ClusterReadable(v: Volume, cs: seq<nat>, data: seq<byte>, k: nat)
    requires IsFile(v, cs, data) && k < |cs|
    ensures OnChain(v, cs[0], k) && Readable(v, cs[0], k)
  {
    hide Chained, Flatten, Nth;
    ChainedFacts(v, cs, k);
    ClusterIs(v, cs[k]);
  }

  lemma CallEndsAfter(bpc: nat, offset: nat, n: nat)
    requires bpc > 0 && n > 0
    ensures (offset + n - 1) / bpc - offset / bpc < 4096 <==> offset + n <= CallEnds(bpc, offset)
  {
    DivBound(offset + n - 1, offset / bpc + 4096, bpc);
  }

  /** Of a stored file everything is within reach of a call up to its 4096th cluster. */
  lemma FileWithinReach(v: Volume, cs: seq<nat>, data: seq<byte>, offset: nat, n: nat)
    requires IsFile(v, cs, data) && 0 < n && offset + n <= |data|
    ensures v.spc > 0 && (Enough(v, cs[0], offset, n) <==> offset + n <= CallEnds(512 * v.spc, offset))
  {
    hide IsFile, Reach, CallEnds;
    FileFacts(v, cs, data);
    var bpc := Bpc(v);
    CallEndsAfter(bpc, offset, n);
    DivBound(offset + n - 1, |cs|, bpc);
    DivMonotone(offset, offset + n - 1, bpc);
    ReachOfFile(v, cs, data, offset / bpc, (offset + n - 1) / bpc);
  }

  lemma ReachOfFile(v: Volume, cs: seq<nat>, data: seq<byte>, first: nat, last: nat)
    requires IsFile(v, cs, data) && first <= last < |cs|
    ensures Reach(v, cs[0], first, last) <==> last - first < 4096
  {
    hide IsFile, OnChain, Readable;
    forall k: nat | k < |cs| ensures OnChain(v, cs[0], k) && Readable(v, cs[0], k) {
      ClusterReadable(v, cs, data, k);
    }
  }

  /** Main result: what a read of a stored file copies. */
  lemma ReadIsData(v: Volume, cs: seq<nat>, data: seq<byte>, offset: nat, want: nat, got: seq<byte>)
    requires IsFile(v, cs, data) && v.spc > 0 && 0 < want && offset + want <= |data|
    requires IsFileSlice(v, cs[0], offset, got) && ReachIs(v, cs[0], offset, want, |got|)
    ensures got == data[offset..offset + |got|]
    ensures |got| == Min(want, CallEnds(512 * v.spc, offset) - offset)
  {
    hide IsFile, IsFileSlice, Enough, CallEnds;
    SliceIsData(v, cs, data, offset, got);
    var most := Min(want, CallEnds(512 * v.spc, offset) - offset);
    FileWithinReach(v, cs, data, offset, most);
    if most < want { FileWithinReach(v, cs, data, offset, most + 1); }
  }
}
