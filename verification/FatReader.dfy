/** The sector-level code of fs/vfs.c: following the FAT and reading a file. */
module FatReaderCode {
  import opened Machine
  import opened FatDisk
  import opened FatChain
  import opened FatFile

  datatype NodeType = File | Directory

  datatype Node = Node(kind: NodeType, firstCluster: nat, size: nat)

  /** A mounted volume read through a controller whose commands may fail; faults counts the failures. */
  class FatReader {
    const volume: Volume
    var faults: nat

    constructor (volume: Volume)
      ensures this.volume == volume && faults == 0
    {
      this.volume, this.faults := volume, 0;
    }

    /** ahci_read into a DMA buffer: all the sectors, or a reported failure. */
    method AhciRead(lba: nat, count: nat) returns (ok: bool, data: seq<byte>)
      modifies this`faults
      ensures faults >= old(faults)
      ensures faults == old(faults) ==> (ok <==> lba + count <= |volume.sectors|)
      ensures ok ==> lba + count <= |volume.sectors| && data == Flatten(volume.sectors[lba..lba + count])
    {
      var completes: bool := *;
      if lba + count > |volume.sectors| { return false, []; }
      if !completes {
        faults := faults + 1;
        return false, [];
      }
      return true, Flatten(volume.sectors[lba..lba + count]);
    }

    method Fat32NextCluster(cluster: nat) returns (next: nat)
      modifies this`faults
      ensures faults >= old(faults) && (next == FAT32_EOC || next == Next(volume, cluster))
      ensures faults == old(faults) ==> next == Next(volume, cluster)
    {
      if cluster < 2 || cluster >= 0x0FFF_FFF0 { return FAT32_EOC; }
      var byteOff := cluster * 4;
      var fatSect := U32(volume.fatStart + byteOff / BPS);
      var offIn := byteOff % BPS;
      DivUnique(byteOff, BPS, cluster / 128, cluster % 128 * 4);
      var ok, data := AhciRead(fatSect, 1);
      if !ok { return FAT32_EOC; }
      FlattenOne(volume.sectors[fatSect..fatSect + 1]);
      var raw := U32At(data, offIn) % LOW28;
      if raw == cluster { return FAT32_EOC; }
      if raw < 2 || raw >= FAT32_EOC { return FAT32_EOC; }
      return raw;
    }

    /** memcpy of data[from..from + len] to buffer + at */
    method CopyOut(buffer: array<byte>, at: nat, data: seq<byte>, from: nat, len: nat)
      requires at + len <= buffer.Length && from + len <= |data|
      modifies buffer
      ensures forall x | 0 <= x < buffer.Length ::
        buffer[x] == if at <= x < at + len then data[from + (x - at)] else old(buffer[x])
    {
      for k := 0 to len
        invariant forall x | 0 <= x < buffer.Length ::
          buffer[x] == if at <= x < at + k then data[from + (x - at)] else old(buffer[x])
      {
        buffer[at + k] := data[from + k];
      }
    }

    /** The first loop of Fat32Read: follow the chain past the whole clusters before offset. */
    method Seek(first: nat, offset: nat) returns (cluster: nat, rest: nat)
      requires volume.spc > 0
      modifies this`faults
      ensures faults >= old(faults)
      ensures faults == old(faults) && cluster >= FAT32_EOC ==> !OnChain(volume, first, offset / Bpc(volume))
      ensures cluster < FAT32_EOC ==>
        && rest == offset % Bpc(volume)
        && cluster == Nth(volume, first, offset / Bpc(volume))
    {
      var bpc := Bpc(volume);
      ghost var k: nat := 0;
      cluster, rest := first, offset;
      while rest >= bpc
        invariant k * bpc + rest == offset && faults >= old(faults)
        invariant cluster == Nth(volume, first, k)
      {
        cluster := Fat32NextCluster(cluster);
        assert k * bpc + bpc + (rest - bpc) == offset;
        MulMonotone(0, k, bpc);
        QuotientAtLeast(offset, k + 1, bpc);
        if cluster >= FAT32_EOC {
          if faults == old(faults) && OnChain(volume, first, offset / bpc) {
            ChainPrefix(volume, first, k + 1, offset / bpc);
          }
          return;
        }
        rest := rest - bpc;
        k := k + 1;
      }
      DivUnique(offset, bpc, k, rest);
    }

    /** The second loop of Fat32Read: copy want bytes, starting inside the cluster that holds byte offset. */
    method CopyClusters(start: nat, ghost first: nat, ghost offset: nat, ghost k0: nat, rest: nat, buffer: array<byte>, want: nat)
      returns (total: nat)
      requires volume.spc > 0 && 0 < want <= buffer.Length
      requires Splits(volume, offset, k0, rest) && rest < Bpc(volume) && start == Nth(volume, first, k0)
      modifies this`faults, buffer
      ensures faults >= old(faults) && total <= want
      ensures IsFileSlice(volume, first, offset, buffer[..total])
      ensures forall x | total <= x < buffer.Length :: buffer[x] == old(buffer[x])
      ensures faults == old(faults) ==> ReachIs(volume, first, offset, want, total)
    {
      hide ClusterData, Nth, Next, ReachIs, Progress, Bpc, U32, Splits, Readable, IsFileSlice, Link, ClusterSector;
      ghost var v, f := volume, faults;
      var cluster: nat, off: nat, remaining: nat, chain: nat := start, rest, want, 0;
      total := 0;
      ProgressStart(v, first, offset, want, k0, rest);
      assert buffer[..0] == [];
      while remaining > 0 && cluster < FAT32_EOC
        invariant faults >= f && total + remaining == want && chain <= MAX_CHAIN
        invariant off == From(rest, chain)
        invariant Progress(v, first, offset, want, buffer[..total], chain, k0, rest)
        invariant cluster == Nth(v, first, k0 + chain) || (faults > f && cluster == FAT32_EOC)
        invariant forall x | total <= x < buffer.Length :: buffer[x] == old(buffer[x])
        decreases remaining
      {
        if chain + 1 > MAX_CHAIN {
          Conclude(v, first, offset, want, buffer[..total], chain, k0, rest, cluster, faults > f);
          return;
        }
        var ok, len, next := CopyNext(cluster, first, offset, k0, rest, buffer, want, total, off, chain);
        if !ok {
          ProgressIsSlice(v, first, offset, want, buffer[..total], chain, k0, rest);
          return;
        }
        total, remaining, off, chain := total + len, remaining - len, 0, chain + 1;
        cluster := next;  // never below 2, so the guard alone decides whether the chain has ended
      }
      Conclude(v, first, offset, want, buffer[..total], chain, k0, rest, cluster, faults > f);
    }

    /** Returns -1 for a request it refuses, else the number of bytes copied, converted to int. */
    method Fat32Read(node: Option<Node>, offset: nat, buffer: array<byte>, size: nat) returns (r: int, copied: nat)
      requires volume.spc > 0 && size <= buffer.Length && size < TWO64 && offset < TWO64
      modifies this`faults, buffer
      ensures faults >= old(faults) && copied <= size
      ensures forall x | copied <= x < buffer.Length :: buffer[x] == old(buffer[x])
      ensures (r == -1 && copied == 0) || r == ToInt32(copied)
      ensures node.None? || node.value.kind != File || size == 0 ==> r == -1 && copied == 0
      ensures Answerable(node, size) && offset >= node.value.size ==> r == 0 && copied == 0
      ensures Answerable(node, size) && offset < node.value.size ==>
        var want := Wanted(node.value.size, offset, size);
        && r == ToInt32(copied) && copied <= want
        && IsFileSlice(volume, node.value.firstCluster, offset, buffer[..copied])
        && (faults == old(faults) ==> ReachIs(volume, node.value.firstCluster, offset, want, copied))
      ensures Answerable(node, size) && offset < node.value.size && offset + size < TWO64 && faults == old(faults) ==>
        FileCopied(volume, node.value.firstCluster, node.value.size, offset, size, buffer[..copied])
    {
      hide Nth, Bpc, Enough, ReachIs, IsFileSlice, FileCopied;
      copied := 0;
      if node.None? || node.value.kind != File || size == 0 { return -1, 0; }
      if offset >= node.value.size { return 0, 0; }
      var remaining := if U64(offset + size) > node.value.size then node.value.size - offset else size;
      ghost var v, first, k0 := volume, node.value.firstCluster, offset / Bpc(volume);
      var cluster, rest := Seek(node.value.firstCluster, offset);
      if cluster >= FAT32_EOC {
        assert buffer[..0] == [];
        EmptySlice(v, first, offset);
        if faults == old(faults) {
          NothingInReach(v, first, offset, remaining);
          if offset + size < TWO64 { SliceIsCopied(v, first, node.value.size, offset, size, []); }
        }
        return 0, 0;
      }
      copied := CopyClusters(cluster, first, offset, k0, rest, buffer, remaining);
      if faults == old(faults) && offset + size < TWO64 {
        SliceIsCopied(v, first, node.value.size, offset, size, buffer[..copied]);
      }
      r := ToInt32(copied);
    }

    /** One iteration: copy from the current cluster and follow its link. */
    method CopyNext(cluster: nat, ghost first: nat, ghost offset: nat, ghost k0: nat, rest: nat, buffer: array<byte>,
                    want: nat, total: nat, off: nat, chain: nat)
      returns (ok: bool, len: nat, next: nat)
      requires volume.spc > 0 && total < want <= buffer.Length && Splits(volume, offset, k0, rest) && rest < Bpc(volume)
      requires chain <= MAX_CHAIN && off == From(rest, chain) && Progress(volume, first, offset, want, buffer[..total], chain, k0, rest)
      requires cluster == Nth(volume, first, k0 + chain) && OnChain(volume, first, k0 + chain)
      modifies this`faults, buffer
      ensures faults >= old(faults) && total + len <= want
      ensures !ok ==> buffer[..] == old(buffer[..]) && (faults == old(faults) ==> ReachIs(volume, first, offset, want, total))
      ensures ok ==> len > 0 && forall x | total + len <= x < buffer.Length :: buffer[x] == old(buffer[x])
      ensures ok ==> Progress(volume, first, offset, want, buffer[..total + len], chain + 1, k0, rest)
      ensures ok ==> next == Nth(volume, first, k0 + (chain + 1)) || (faults > old(faults) && next == FAT32_EOC)
    {
      hide ClusterData, Nth, Next, ReachIs, Progress, Bpc, U32, Splits, Readable, Link, OnChain, IsFileSlice, ClusterSector;
      var bpc := Bpc(volume);
      ghost var v, data := volume, buffer[..total];
      LinkFacts(v, first, k0 + chain);
      len := if want - total < bpc - off then want - total else bpc - off;
      next := FAT32_EOC;
      ok := CopyOneCluster(cluster, buffer, total, off, len);
      if !ok {
        if faults == old(faults) { ProgressStuck(v, first, offset, want, data, chain, k0, rest); }
        return false, 0, next;
      }
      ProgressStep(v, first, offset, want, data, chain, k0, rest);
      next := Fat32NextCluster(cluster);
    }

    /** Read one cluster and copy len of its bytes from off on. */
    method CopyOneCluster(cluster: nat, buffer: array<byte>, at: nat, off: nat, len: nat) returns (ok: bool)
      requires at + len <= buffer.Length && off + len <= Bpc(volume)
      modifies this`faults, buffer
      ensures faults >= old(faults)
      ensures faults == old(faults) ==> (ok <==> ClusterData(volume, cluster).Some?)
      ensures !ok ==> buffer[..] == old(buffer[..])
      ensures ok ==> ClusterData(volume, cluster).Some? && off + len <= |ClusterData(volume, cluster).value|
      ensures ok ==> buffer[..at + len] == old(buffer[..at]) + ClusterData(volume, cluster).value[off..off + len]
      ensures forall x | at + len <= x < buffer.Length :: buffer[x] == old(buffer[x])
    {
      var sector := volume.firstData + U32(U32(cluster - 2) * volume.spc);
      var data;
      ok, data := AhciRead(sector, volume.spc);
      if ok {
        CopyOut(buffer, at, data, off, len);
      }
    }
  }

  /** How much of a file a request asks for, as the code clips it in 64-bit words. */
  function Wanted(fileSize: nat, offset: nat, size: nat): (n: nat)
    requires offset < fileSize && size > 0
    ensures 0 < n
  {
    if U64(offset + size) > fileSize then fileSize - offset else size
  }

  /** The clipped request ends inside the file exactly when the sum does not wrap to a small number. */
  lemma WantedInsideExactlyWhen(fileSize: nat, offset: nat, size: nat)
    requires offset < fileSize < TWO64 && 0 < size < TWO64
    ensures offset + Wanted(fileSize, offset, size) <= fileSize <==> (offset + size < TWO64 || offset + size - TWO64 > fileSize)
  {
    if offset + size < TWO64 {
      DivUnique(offset + size, TWO64, 0, offset + size);
    } else {
      DivUnique(offset + size, TWO64, 1, offset + size - TWO64);
    }
  }

  lemma EmptySlice(v: Volume, c: nat, offset: nat)
    requires v.spc > 0
    ensures IsFileSlice(v, c, offset, [])
  {
  }

  lemma NothingInReach(v: Volume, c: nat, offset: nat, want: nat)
    requires v.spc > 0 && !OnChain(v, c, offset / Bpc(v))
    ensures ReachIs(v, c, offset, want, 0)
  {
    hide Nth, Bpc, OnChain, Enough;
    DivMod(offset, Bpc(v));
    forall n: nat | 0 < n <= want ensures !Enough(v, c, offset, n) {
      ReadFallsShort(v, c, offset, n, offset / Bpc(v), offset % Bpc(v), 0);
    }
  }

  /**
   Whatever file is stored from cluster first on: got is its data from offset on, up to the request,
   the end of the file, or the 4096th cluster.
   */
  ghost predicate FileCopied(v: Volume, first: nat, fileSize: nat, offset: nat, size: nat, got: seq<byte>)
    requires offset < fileSize && v.spc > 0
  {
    forall cs: seq<nat>, data: seq<byte> | cs != [] && IsFile(v, cs, data) && cs[0] == first && |data| == fileSize ::
      && |got| == Min(Min(size, fileSize - offset), CallEnds(512 * v.spc, offset) - offset)
      && got == data[offset..offset + |got|]
  }

  lemma SliceIsCopied(v: Volume, first: nat, fileSize: nat, offset: nat, size: nat, got: seq<byte>)
    requires v.spc > 0 && offset < fileSize && 0 < size && offset + size < TWO64
    requires IsFileSlice(v, first, offset, got) && ReachIs(v, first, offset, Wanted(fileSize, offset, size), |got|)
    ensures FileCopied(v, first, fileSize, offset, size, got)
  {
    hide IsFileSlice, ReachIs, IsFile, CallEnds;
    DivUnique(offset + size, TWO64, 0, offset + size);
    forall cs: seq<nat>, data: seq<byte> | cs != [] && IsFile(v, cs, data) && cs[0] == first && |data| == fileSize
      ensures |got| == Min(Min(size, fileSize - offset), CallEnds(512 * v.spc, offset) - offset) && got == data[offset..offset + |got|]
    {
      ReadIsData(v, cs, data, offset, Wanted(fileSize, offset, size), got);
    }
  }

  predicate Answerable(node: Option<Node>, size: nat) { node.Some? && node.value.kind == File && size > 0 }

  /** Why the copying loop stopped decides whether the request was met. */
  lemma Conclude(v: Volume, c: nat, offset: nat, want: nat, data: seq<byte>, i: nat, k0: nat, rest: nat, cluster: nat, faulty: bool)
    requires v.spc > 0 && want > 0 && Splits(v, offset, k0, rest) && rest < Bpc(v) && i <= MAX_CHAIN
    requires Progress(v, c, offset, want, data, i, k0, rest)
    requires |data| == want || i == MAX_CHAIN || cluster >= FAT32_EOC
    requires !faulty ==> cluster == Nth(v, c, k0 + i)
    ensures IsFileSlice(v, c, offset, data)
    ensures !faulty ==> ReachIs(v, c, offset, want, |data|)
  {
    ProgressIsSlice(v, c, offset, want, data, i, k0, rest);
    if |data| == want {
      ProgressDone(v, c, offset, want, data, i, k0, rest);
    } else if !faulty {
      assert |data| < want;
      ProgressStuck(v, c, offset, want, data, i, k0, rest);
    }
  }

  lemma FlattenOne(s: seq<Sector>)
    requires |s| == 1
    ensures Flatten(s) == s[0]
  {
  }

  lemma QuotientAtLeast(a: nat, k: nat, d: nat)
    requires d > 0 && k * d <= a
    ensures k <= a / d
  {
    DivBound(a, k, d);
  }
}
