/** Cluster chains of a FAT32 volume, and the byte sequence a chain stands for. */
module FatChain {
  import opened Machine
  import opened FatDisk

  /** Sector numbers are absolute; fatStart and firstData are those of Fat32Info. */
  datatype Volume = Volume(fatStart: nat, firstData: nat, spc: nat, sectors: seq<Sector>)

  /** bytes_per_cluster */
  function Bpc(v: Volume): (n: nat)
    ensures v.spc > 0 ==> n > 0
  {
    BPS * v.spc
  }

  const MAX_CHAIN: nat := 4096

  /** fat32_next_cluster when the sector can be read: the next link, or FAT32_EOC for anything unusable. */
  function Next(v: Volume, cluster: nat): (r: nat)
    ensures 2 <= r <= FAT32_EOC && (cluster >= FAT32_EOC ==> r == FAT32_EOC)
  {
    if cluster < 2 || cluster >= 0x0FFF_FFF0 then FAT32_EOC
    else
      var sect := U32(v.fatStart + cluster * 4 / BPS);
      if sect >= |v.sectors| then FAT32_EOC
      else
        DivUnique(cluster * 4, BPS, cluster / 128, cluster % 128 * 4);
        var raw := U32At(v.sectors[sect], cluster * 4 % BPS) % LOW28;
        if raw == cluster || raw < 2 || raw >= FAT32_EOC then FAT32_EOC else raw
  }

  /** The first sector of a cluster, with the 32-bit wrap of (cluster - 2) * spc. */
  function ClusterSector(v: Volume, cluster: nat): nat {
    v.firstData + U32(U32(cluster - 2) * v.spc)
  }

  function ClusterData(v: Volume, cluster: nat): Option<seq<byte>> {
    var s := ClusterSector(v, cluster);
    if s + v.spc <= |v.sectors| then Some(Flatten(v.sectors[s..s + v.spc])) else None
  }

  /** The k-th cluster of the chain from cluster c. */
  function Nth(v: Volume, c: nat, k: nat): nat {
    if k == 0 then c else Next(v, Nth(v, c, k - 1))
  }

  predicate OnChain(v: Volume, c: nat, k: nat) { Nth(v, c, k) < FAT32_EOC }

  predicate Readable(v: Volume, c: nat, k: nat) { ClusterData(v, Nth(v, c, k)).Some? }

  lemma {:induction false} ChainPrefix(v: Volume, c: nat, j: nat, k: nat)
    requires j <= k && OnChain(v, c, k)
    ensures OnChain(v, c, j)
  {
    if j < k {
      ChainPrefix(v, c, j, k - 1);
    }
  }

  /** The bytes of the k-th cluster of the chain from c. */
  function Link(v: Volume, c: nat, k: nat): (r: seq<byte>)
    requires Readable(v, c, k)
    ensures |r| == Bpc(v)
  {
    ClusterData(v, Nth(v, c, k)).value
  }

  lemma LinkFacts(v: Volume, c: nat, k: nat)
    ensures Readable(v, c, k) <==> ClusterData(v, Nth(v, c, k)).Some?
    ensures Readable(v, c, k) ==> Link(v, c, k) == ClusterData(v, Nth(v, c, k)).value
    ensures Nth(v, c, k + 1) == Next(v, Nth(v, c, k))
  {
  }

  /** Byte x of the file whose chain starts at c. */
  function FileByte(v: Volume, c: nat, x: nat): byte
    requires v.spc > 0 && Readable(v, c, x / Bpc(v))
  {
    Link(v, c, x / Bpc(v))[x % Bpc(v)]
  }

  /** The size of m clusters. */
  function Span(v: Volume, m: nat): nat {
    if m == 0 then 0 else Span(v, m - 1) + Bpc(v)
  }

  lemma {:induction false} SpanIsProduct(v: Volume, m: nat)
    ensures Span(v, m) == m * Bpc(v)
  {
    if m > 0 {
      SpanIsProduct(v, m - 1);
      assert m * Bpc(v) == (m - 1) * Bpc(v) + Bpc(v);
    }
  }

  ghost predicate ReadableUpTo(v: Volume, c: nat, m: nat) {
    forall k | 0 <= k < m :: Readable(v, c, k)
  }

  /** The data of the first m clusters of the chain, concatenated. */
  ghost function Content(v: Volume, c: nat, m: nat): (r: seq<byte>)
    requires ReadableUpTo(v, c, m)
    ensures |r| == Span(v, m)
  {
    if m == 0 then []
    else
      Content(v, c, m - 1) + Link(v, c, m - 1)
  }

  lemma {:induction false} ContentAt(v: Volume, c: nat, m: nat, x: nat)
    requires v.spc > 0 && x < Span(v, m) && ReadableUpTo(v, c, m)
    ensures x / Bpc(v) < m && Readable(v, c, x / Bpc(v))
    ensures Readable(v, c, x / Bpc(v)) && Content(v, c, m)[x] == FileByte(v, c, x)
    decreases m
  {
    if x < Span(v, m - 1) {
      ContentAt(v, c, m - 1, x);
    } else {
      SpanIsProduct(v, m - 1);
      DivUnique(x, Bpc(v), m - 1, x - Span(v, m - 1));
    }
  }

  /** Byte x of the file is readable and equals b. */
  ghost predicate ByteIs(v: Volume, c: nat, x: nat, b: byte)
    requires v.spc > 0
  {
    Readable(v, c, x / Bpc(v)) && FileByte(v, c, x) == b
  }

  lemma ByteInCluster(v: Volume, c: nat, k: nat, o: nat)
    requires v.spc > 0 && Readable(v, c, k) && o < Bpc(v)
    ensures ByteIs(v, c, k * Bpc(v) + o, Link(v, c, k)[o])
  {
    hide Link, Readable, Bpc;
    DivUnique(k * Bpc(v) + o, Bpc(v), k, o);
  }

  ghost predicate IsFileSlice(v: Volume, c: nat, lo: nat, data: seq<byte>)
    requires v.spc > 0
  {
    forall x | 0 <= x < |data| :: ByteIs(v, c, lo + x, data[x])
  }

  /** Bytes lo.. of a file are the slice of its concatenated clusters. */
  lemma FileBytesAreSlice(v: Volume, c: nat, m: nat, lo: nat, data: seq<byte>)
    requires v.spc > 0 && lo + |data| <= Span(v, m) && ReadableUpTo(v, c, m) && IsFileSlice(v, c, lo, data)
    ensures data == Content(v, c, m)[lo..lo + |data|]
  {
    hide FileByte, Readable, Content;
    forall x | 0 <= x < |data| ensures data[x] == Content(v, c, m)[lo..lo + |data|][x] {
      ContentAt(v, c, m, lo + x);
      assert ByteIs(v, c, lo + x, data[x]);
    }
  }

  ghost predicate ReadableRange(v: Volume, c: nat, k0: nat, n: nat) {
    forall k: nat | k0 <= k < k0 + n :: Readable(v, c, k)
  }

  /** Clusters first..last of the chain exist, can be read, and are at most 4096. */
  ghost predicate Reach(v: Volume, c: nat, first: nat, last: nat) {
    last - first < MAX_CHAIN && OnChain(v, c, last) && forall k: nat | first <= k <= last :: Readable(v, c, k)
  }

  /** Byte offset lies in cluster k0 of its chain, rest bytes in. */
  ghost predicate Splits(v: Volume, offset: nat, k0: nat, rest: nat)
    requires v.spc > 0
  {
    k0 == offset / Bpc(v) && rest == offset % Bpc(v)
  }

  /** Every cluster that bytes offset..offset + want need is within reach of one call. */
  ghost predicate Enough(v: Volume, c: nat, offset: nat, want: nat)
    requires v.spc > 0 && want > 0
  {
    Reach(v, c, offset / Bpc(v), (offset + want - 1) / Bpc(v))
  }

  /** Appending bytes off.. of cluster k extends a slice that stops inside cluster k. */
  lemma SliceExtends(v: Volume, c: nat, lo: nat, data: seq<byte>, k: nat, off: nat, len: nat)
    requires v.spc > 0 && IsFileSlice(v, c, lo, data) && Readable(v, c, k)
    requires lo + |data| == k * Bpc(v) + off && off + len <= Bpc(v)
    ensures IsFileSlice(v, c, lo, data + Link(v, c, k)[off..off + len])
  {
    var more := data + Link(v, c, k)[off..off + len];
    hide Link, Readable, Bpc, ByteIs;
    forall x | 0 <= x < |more| ensures ByteIs(v, c, lo + x, more[x]) {
      if x >= |data| {
        ByteInCluster(v, c, k, off + (x - |data|));
      } else {
        assert ByteIs(v, c, lo + x, data[x]);
      }
    }
  }

  /** The last cluster needed, counted from the one that holds byte offset. */
  lemma LastNeeded(offset: nat, want: nat, bpc: nat, i: nat)
    requires bpc > 0 && want > 0
    ensures offset / bpc <= (offset + want - 1) / bpc
    ensures (offset + want - 1) / bpc < offset / bpc + i <==> offset % bpc + want <= i * bpc
  {
    DivMod(offset, bpc);
    DivMonotone(offset, offset + want - 1, bpc);
    DivBound(offset + want - 1, offset / bpc + i, bpc);
    assert (offset / bpc + i) * bpc == offset / bpc * bpc + i * bpc;
  }

  lemma ReachFrom(v: Volume, c: nat, first: nat, last: nat, i: nat)
    requires first <= last < first + i && i <= MAX_CHAIN && OnChain(v, c, first + i - 1) && ReadableRange(v, c, first, i)
    ensures Reach(v, c, first, last)
  {
    hide Readable, OnChain;
    ChainPrefix(v, c, last, first + i - 1);
  }

  lemma NoReach(v: Volume, c: nat, first: nat, last: nat, i: nat)
    requires first + i <= last && (i == MAX_CHAIN || !OnChain(v, c, first + i) || !Readable(v, c, first + i))
    ensures !Reach(v, c, first, last)
  {
    hide Readable, OnChain;
    if OnChain(v, c, last) {
      ChainPrefix(v, c, first + i, last);
    }
  }

  /** After i clusters: the request is met when the bytes fit in them, and Enough says so in advance. */
  lemma ReadSuffices(v: Volume, c: nat, offset: nat, want: nat, k0: nat, rest: nat, i: nat)
    requires v.spc > 0 && want > 0 && i <= MAX_CHAIN && Splits(v, offset, k0, rest)
    requires rest + want <= i * Bpc(v) && i > 0 && OnChain(v, c, k0 + i - 1) && ReadableRange(v, c, k0, i)
    ensures Enough(v, c, offset, want)
  {
    hide Reach, OnChain, ReadableRange, Bpc;
    LastNeeded(offset, want, Bpc(v), i);
    ReachFrom(v, c, k0, (offset + want - 1) / Bpc(v), i);
  }

  lemma ReadFallsShort(v: Volume, c: nat, offset: nat, want: nat, k0: nat, rest: nat, i: nat)
    requires v.spc > 0 && want > 0 && Splits(v, offset, k0, rest)
    requires rest + want > i * Bpc(v)
    requires i == MAX_CHAIN || !OnChain(v, c, k0 + i) || !Readable(v, c, k0 + i)
    ensures !Enough(v, c, offset, want)
  {
    hide Reach, OnChain, Readable, Bpc;
    LastNeeded(offset, want, Bpc(v), i);
    NoReach(v, c, k0, (offset + want - 1) / Bpc(v), i);
  }

  /** How much a read of want bytes has copied after i clusters of bpc bytes, rest being skipped in the first. */
  function Copied(want: nat, rest: nat, bpc: nat, i: nat): nat {
    if i == 0 then 0 else if rest + want <= i * bpc then want else (if i * bpc >= rest then i * bpc - rest else 0)
  }

  /** Where the next iteration starts in its cluster, and how much it copies. */
  function From(rest: nat, i: nat): nat { if i == 0 then rest else 0 }

  function Length(rest: nat, i: nat, bpc: nat, remaining: nat): nat
    requires rest < bpc
  {
    if remaining < bpc - From(rest, i) then remaining else bpc - From(rest, i)
  }

  lemma CopiedStep(want: nat, rest: nat, bpc: nat, i: nat)
    requires rest < bpc && Copied(want, rest, bpc, i) < want
    ensures Copied(want, rest, bpc, i + 1) == Copied(want, rest, bpc, i) + Length(rest, i, bpc, want - Copied(want, rest, bpc, i))
    ensures rest + Copied(want, rest, bpc, i) == i * bpc + From(rest, i)
  {
    assert (i + 1) * bpc == i * bpc + bpc;
    if i > 0 { MulMonotone(1, i, bpc); }
  }

  /** The state of a read of want bytes from offset after i clusters: data is what has been copied. */
  ghost predicate Progress(v: Volume, c: nat, offset: nat, want: nat, data: seq<byte>, i: nat, k0: nat, rest: nat)
    requires v.spc > 0
  {
    && IsFileSlice(v, c, offset, data) && ReadableRange(v, c, k0, i)
    && (i > 0 ==> OnChain(v, c, k0 + i - 1))
    && |data| == Copied(want, rest, Bpc(v), i)
  }

  lemma ProgressStart(v: Volume, c: nat, offset: nat, want: nat, k0: nat, rest: nat)
    requires v.spc > 0 && Splits(v, offset, k0, rest)
    ensures Progress(v, c, offset, want, [], 0, k0, rest) && rest < Bpc(v)
  {
  }

  lemma ProgressIsSlice(v: Volume, c: nat, offset: nat, want: nat, data: seq<byte>, i: nat, k0: nat, rest: nat)
    requires v.spc > 0 && Progress(v, c, offset, want, data, i, k0, rest)
    ensures IsFileSlice(v, c, offset, data)
  {
  }

  lemma ProgressStep(v: Volume, c: nat, offset: nat, want: nat, data: seq<byte>, i: nat, k0: nat, rest: nat)
    requires v.spc > 0 && Splits(v, offset, k0, rest) && rest < Bpc(v)
    requires Progress(v, c, offset, want, data, i, k0, rest) && |data| < want
    requires OnChain(v, c, k0 + i) && Readable(v, c, k0 + i)
    ensures var off, len := From(rest, i), Length(rest, i, Bpc(v), want - |data|);
      Progress(v, c, offset, want, data + Link(v, c, k0 + i)[off..off + len], i + 1, k0, rest)
  {
    hide Readable, Link, IsFileSlice, OnChain, Bpc, Copied, Splits;
    CopiedStep(want, rest, Bpc(v), i);
    NextSlice(v, c, offset, data, k0, i, rest, From(rest, i), Length(rest, i, Bpc(v), want - |data|));
  }

  lemma NextSlice(v: Volume, c: nat, offset: nat, data: seq<byte>, k0: nat, i: nat, rest: nat, off: nat, len: nat)
    requires v.spc > 0 && IsFileSlice(v, c, offset, data) && Readable(v, c, k0 + i)
    requires Splits(v, offset, k0, rest) && rest + |data| == i * Bpc(v) + off && off + len <= Bpc(v)
    ensures IsFileSlice(v, c, offset, data + Link(v, c, k0 + i)[off..off + len])
  {
    hide Readable, Link, IsFileSlice, Bpc;
    DivMod(offset, Bpc(v));
    assert (k0 + i) * Bpc(v) == k0 * Bpc(v) + i * Bpc(v);
    SliceExtends(v, c, offset, data, k0 + i, off, len);
  }

  /** Of a request for want bytes exactly the first copied are within reach. */
  ghost predicate ReachIs(v: Volume, c: nat, offset: nat, want: nat, copied: nat)
    requires v.spc > 0
  {
    copied <= want && forall n: nat | 0 < n <= want :: Enough(v, c, offset, n) <==> n <= copied
  }

  lemma ProgressDone(v: Volume, c: nat, offset: nat, want: nat, data: seq<byte>, i: nat, k0: nat, rest: nat)
    requires v.spc > 0 && Splits(v, offset, k0, rest)
    requires want > 0 && Progress(v, c, offset, want, data, i, k0, rest) && |data| == want && i <= MAX_CHAIN
    ensures ReachIs(v, c, offset, want, want)
  {
    hide Splits, Enough, Bpc, Readable, OnChain, IsFileSlice;
    forall n: nat | 0 < n <= want ensures Enough(v, c, offset, n) {
      ReadSuffices(v, c, offset, n, k0, rest, i);
    }
  }

  lemma ProgressStuck(v: Volume, c: nat, offset: nat, want: nat, data: seq<byte>, i: nat, k0: nat, rest: nat)
    requires v.spc > 0 && Splits(v, offset, k0, rest) && rest < Bpc(v) && i <= MAX_CHAIN
    requires Progress(v, c, offset, want, data, i, k0, rest) && |data| < want
    requires i == MAX_CHAIN || !OnChain(v, c, k0 + i) || !Readable(v, c, k0 + i)
    ensures ReachIs(v, c, offset, want, |data|)
  {
    hide Copied, Bpc, Readable, OnChain, IsFileSlice, Splits, Enough;
    CopiedStep(want, rest, Bpc(v), i);
    assert i == 0 ==> |data| == 0 by { NothingCopied(want, rest, Bpc(v)); }
    forall n: nat | 0 < n <= want ensures Enough(v, c, offset, n) <==> n <= |data| {
      if n <= |data| {
        ReadSuffices(v, c, offset, n, k0, rest, i);
      } else {
        ReadFallsShort(v, c, offset, n, k0, rest, i);
      }
    }
  }

  lemma NothingCopied(want: nat, rest: nat, bpc: nat)
    ensures Copied(want, rest, bpc, 0) == 0
  {
  }
}
